/**
 * The product record of the inventory list and the sequential display index
 * (`stt`) that each record carries.
 */
module Catalog {

  /** A price as a record holds it: a number from the seed data, or the number
      that `parseFloat` yields for the text typed into the add-form, which the
      model leaves uninterpreted. */
  datatype Price = Amount(value: real) | ParseFloat(input: string)

  /** One inventory entry. `stt` is the display index (assigned as the list
      length + 1 when the record is added); `code` is `maSanPham`, `name`
      `tenSanPham`, `category` `theLoai`, `quantity` `soLuong` (kept as the
      text typed into the form), `price` `gia` and `date` `ngayNhap`, an
      ISO "YYYY-MM-DD" string. */
  datatype Product = Product(
    stt: int,
    code: string,
    name: string,
    category: string,
    quantity: string,
    price: Price,
    date: string)

  /** The display indexes of a list, in list order. */
  function Stts(s: seq<Product>): seq<int> {
    seq(|s|, i requires 0 <= i < |s| => s[i].stt)
  }

  /** The indexes 1, 2, ..., n. */
  function OneTo(n: nat): (r: seq<int>)
    ensures |r| == n
    ensures forall i :: 0 <= i < n ==> r[i] == i + 1
  {
    if n == 0 then [] else OneTo(n - 1) + [n]
  }

  /** The display indexes of `s` are 1 .. |s|, each once, in some order. */
  predicate Numbered(s: seq<Product>) {
    multiset(Stts(s)) == multiset(OneTo(|s|))
  }

  /** Each index from 1 to n occurs exactly once in `OneTo(n)`. */
  lemma {:induction false} OneToCounts(n: nat, v: int)
    ensures multiset(OneTo(n))[v] == if 1 <= v <= n then 1 else 0
  {
    if n > 0 {
      OneToCounts(n - 1, v);
      assert OneTo(n) == OneTo(n - 1) + [n];
      assert multiset(OneTo(n)) == multiset(OneTo(n - 1)) + multiset{n};
      assert multiset{n}[v] == if v == n then 1 else 0;
    }
  }

  /** A value at two distinct positions of a sequence is counted twice. */
  lemma {:induction false} TwiceCounted(t: seq<int>, i: nat, j: nat)
    requires i < j < |t| && t[i] == t[j]
    ensures multiset(t)[t[i]] >= 2
  {
    assert t == t[..i] + [t[i]] + t[i + 1..j] + [t[j]] + t[j + 1..];
    assert multiset(t) == multiset(t[..i]) + multiset{t[i]} + multiset(t[i + 1..j])
                          + multiset{t[j]} + multiset(t[j + 1..]);
  }

  /** In a numbered list no two records share a display index, so the index
      can serve as the row key of the rendered table. */
  lemma {:induction false} NumberedDistinct(s: seq<Product>)
    requires Numbered(s)
    ensures forall i, j :: 0 <= i < j < |s| ==> s[i].stt != s[j].stt
  {
    forall i, j | 0 <= i < j < |s|
      ensures s[i].stt != s[j].stt
    {
      if s[i].stt == s[j].stt {
        TwiceCounted(Stts(s), i, j);
        OneToCounts(|s|, s[i].stt);
      }
    }
  }

  /** Appending a record numbered |s| + 1 keeps the list numbered. */
  lemma {:induction false} NumberedAppend(s: seq<Product>, p: Product)
    requires Numbered(s) && p.stt == |s| + 1
    ensures Numbered(s + [p])
  {
    assert Stts(s + [p]) == Stts(s) + [p.stt];
    assert OneTo(|s + [p]|) == OneTo(|s|) + [|s| + 1];
  }
}
