/**
 * The order in which the list is shown: by product code, ascending, with
 * records of equal code kept in their original order (the sort the list
 * applies is stable). `SortByCode` is the reference definition, an insertion
 * sort written as a function; the lemmas below show it is sorted, a
 * permutation, stable, and the only result a stable sort by code can give.
 */
module Sorting {
  import opened Text
  import opened Catalog

  /** `s` is non-decreasing by code. */
  predicate SortedByCode(s: seq<Product>) {
    forall i, j :: 0 <= i < j < |s| ==> LexLeq(s[i].code, s[j].code)
  }

  /** `p` placed after every trailing record whose code sorts after it. */
  function Insert(s: seq<Product>, p: Product): (r: seq<Product>)
    ensures |r| == |s| + 1
    ensures multiset(r) == multiset(s) + multiset{p}
  {
    if s == [] || LexLeq(s[|s| - 1].code, p.code) then s + [p]
    else
      assert s == s[..|s| - 1] + [s[|s| - 1]];
      Insert(s[..|s| - 1], p) + [s[|s| - 1]]
  }

  /** The list sorted by code: each record in turn inserted into the sorted
      prefix before it. */
  function SortByCode(s: seq<Product>): (r: seq<Product>)
    ensures multiset(r) == multiset(s)
  {
    if s == [] then []
    else
      assert s == s[..|s| - 1] + [s[|s| - 1]];
      Insert(SortByCode(s[..|s| - 1]), s[|s| - 1])
  }

  /** The records of `s` whose code is `k`, in order. */
  function KeepCode(s: seq<Product>, k: string): seq<Product> {
    if s == [] then [] else (if s[0].code == k then [s[0]] else []) + KeepCode(s[1..], k)
  }

  /** Every record kept has code `k` and comes from `s`. */
  lemma {:induction false} KeepCodeMember(s: seq<Product>, k: string, x: Product)
    requires x in KeepCode(s, k)
    ensures x in s && x.code == k
  {
    if s[0] != x || s[0].code != k {
      KeepCodeMember(s[1..], k, x);
    }
  }

  lemma {:induction false} KeepCodeConcat(a: seq<Product>, b: seq<Product>, k: string)
    ensures KeepCode(a + b, k) == KeepCode(a, k) + KeepCode(b, k)
  {
    if a == [] {
      assert a + b == b;
    } else {
      var head := if a[0].code == k then [a[0]] else [];
      assert (a + b)[0] == a[0] && (a + b)[1..] == a[1..] + b;
      KeepCodeUnfold(a + b, k);
      KeepCodeUnfold(a, k);
      KeepCodeConcat(a[1..], b, k);
      assert KeepCode(a + b, k) == head + (KeepCode(a[1..], k) + KeepCode(b, k));
      assert head + (KeepCode(a[1..], k) + KeepCode(b, k)) == (head + KeepCode(a[1..], k)) + KeepCode(b, k);
    }
  }

  /** Appending a record that sorts no earlier than every record keeps a
      sorted list sorted. */
  lemma {:induction false} SortedAppend(q: seq<Product>, x: Product)
    requires SortedByCode(q)
    requires forall i :: 0 <= i < |q| ==> LexLeq(q[i].code, x.code)
    ensures SortedByCode(q + [x])
  {
  }

  /** Inserting into a sorted list gives a sorted list. */
  lemma {:induction false} InsertSorted(s: seq<Product>, p: Product)
    requires SortedByCode(s)
    ensures SortedByCode(Insert(s, p))
  {
    if s == [] {
    } else if LexLeq(s[|s| - 1].code, p.code) {
      forall i | 0 <= i < |s|
        ensures LexLeq(s[i].code, p.code)
      {
        if i < |s| - 1 {
          LexLeqTransitive(s[i].code, s[|s| - 1].code, p.code);
        }
      }
      SortedAppend(s, p);
    } else {
      var init, last := s[..|s| - 1], s[|s| - 1];
      InsertSorted(init, p);
      var q := Insert(init, p);
      LexLeqTotal(last.code, p.code);
      forall i | 0 <= i < |q|
        ensures LexLeq(q[i].code, last.code)
      {
        assert q[i] in multiset(q);
        if q[i] != p {
          assert q[i] in multiset(init);
          var j :| 0 <= j < |init| && init[j] == q[i];
          assert s[j] == q[i];
        }
      }
      SortedAppend(q, last);
    }
  }

  /** Inserting into `s[..j]` when the record before position `j` sorts
      after `p`: `p` goes in front of it. */
  lemma {:induction false} InsertPastLarger(s: seq<Product>, j: nat, p: Product)
    requires 0 < j <= |s| && !LexLeq(s[j - 1].code, p.code)
    ensures Insert(s[..j], p) == Insert(s[..j - 1], p) + [s[j - 1]]
  {
    assert s[..j][..j - 1] == s[..j - 1];
  }

  /** Inserting into `s[..j]` when the record before position `j` sorts no
      later than `p` (or there is none): `p` goes last. */
  lemma {:induction false} InsertAtEnd(s: seq<Product>, j: nat, p: Product)
    requires j <= |s| && (j == 0 || LexLeq(s[j - 1].code, p.code))
    ensures Insert(s[..j], p) == s[..j] + [p]
  {
  }

  /** Two neighbours trading places. */
  lemma SwapAdjacent<T>(a: seq<T>, y: T, x: T, b: seq<T>)
    ensures (a + [y] + [x] + b)[|a| := x][|a| + 1 := y] == a + [x] + [y] + b
  {
  }

  /** One swap of the insertion pass: `p`, standing at position `j` after
      `s[..j]`, trades places with `s[j - 1]`. */
  lemma {:induction false} SwapShape(s: seq<Product>, j: nat, p: Product, rest: seq<Product>)
    requires 0 < j <= |s|
    ensures (s[..j] + [p] + s[j..] + rest)[j - 1 := p][j := s[j - 1]]
            == s[..j - 1] + [p] + s[j - 1..] + rest
  {
    var a, y, b := s[..j - 1], s[j - 1], s[j..] + rest;
    assert s[..j] == a + [y];
    assert s[j - 1..] == [y] + s[j..];
    assert s[..j] + [p] + s[j..] + rest == a + [y] + [p] + b;
    SwapAdjacent(a, y, p, b);
    assert a + [p] + [y] + b == s[..j - 1] + [p] + s[j - 1..] + rest;
  }

  /** When `s[j - 1]` sorts after `p`, the insertion still to be done moves
      one place to the left. */
  lemma {:induction false} SwapStep(s: seq<Product>, j: nat, p: Product)
    requires 0 < j <= |s| && !LexLeq(s[j - 1].code, p.code)
    requires Insert(s, p) == Insert(s[..j], p) + s[j..]
    ensures Insert(s, p) == Insert(s[..j - 1], p) + s[j - 1..]
  {
    InsertPastLarger(s, j, p);
    assert s[j - 1..] == [s[j - 1]] + s[j..];
    assert Insert(s[..j - 1], p) + [s[j - 1]] + s[j..] == Insert(s[..j - 1], p) + ([s[j - 1]] + s[j..]);
  }

  /** Sorting one more record is inserting it into the sorted prefix. */
  lemma {:induction false} SortByCodeSnoc(s: seq<Product>, i: nat)
    requires i < |s|
    ensures SortByCode(s[..i + 1]) == Insert(SortByCode(s[..i]), s[i])
  {
    assert s[..i + 1][..i] == s[..i];
  }

  /** The reference sort returns a sorted list. */
  lemma {:induction false} SortByCodeSorted(s: seq<Product>)
    ensures SortedByCode(SortByCode(s))
  {
    if s != [] {
      SortByCodeSorted(s[..|s| - 1]);
      InsertSorted(SortByCode(s[..|s| - 1]), s[|s| - 1]);
    }
  }

  /** Inserting `p` adds `p` to the records of its own code, after those
      already there, and leaves the records of every other code alone. */
  lemma {:induction false} InsertKeepCode(s: seq<Product>, p: Product, k: string)
    ensures KeepCode(Insert(s, p), k) == KeepCode(s, k) + (if p.code == k then [p] else [])
  {
    assert KeepCode([p], k) == (if p.code == k then [p] else []) + KeepCode([], k);
    if s == [] || LexLeq(s[|s| - 1].code, p.code) {
      KeepCodeConcat(s, [p], k);
    } else {
      var init, last := s[..|s| - 1], s[|s| - 1];
      assert s == init + [last];
      InsertKeepCode(init, p, k);
      KeepCodeConcat(Insert(init, p), [last], k);
      KeepCodeConcat(init, [last], k);
      KeepCodeConcat(init, [p], k);
      assert KeepCode([last], k) == (if last.code == k then [last] else []) + KeepCode([], k);
      if p.code == k && last.code == k {
        LexLeqReflexive(k);
      }
    }
  }

  /** The sort is stable: the records of any one code come out in the order
      they went in. */
  lemma {:induction false} SortByCodeStable(s: seq<Product>, k: string)
    ensures KeepCode(SortByCode(s), k) == KeepCode(s, k)
  {
    if s != [] {
      var init, last := s[..|s| - 1], s[|s| - 1];
      assert s == init + [last];
      SortByCodeStable(init, k);
      InsertKeepCode(SortByCode(init), last, k);
      KeepCodeConcat(init, [last], k);
      assert KeepCode([last], k) == (if last.code == k then [last] else []) + KeepCode([], k);
    }
  }

  lemma {:induction false} KeepCodeUnfold(s: seq<Product>, k: string)
    requires s != []
    ensures KeepCode(s, k) == (if s[0].code == k then [s[0]] else []) + KeepCode(s[1..], k)
  {
  }

  /** The first record of a sorted list has the least code. */
  lemma {:induction false} SortedHeadLeast(u: seq<Product>, x: Product)
    requires SortedByCode(u) && x in u
    ensures LexLeq(u[0].code, x.code)
  {
    var i :| 0 <= i < |u| && u[i] == x;
    if i == 0 {
      LexLeqReflexive(x.code);
    }
  }

  /** Two lists that start with the same code and agree on the records of
      code `k` still agree on them once their first records are dropped. */
  lemma {:induction false} KeepCodeTail(t: seq<Product>, u: seq<Product>, k: string)
    requires t != [] && u != [] && t[0].code == u[0].code
    requires KeepCode(t, k) == KeepCode(u, k)
    ensures KeepCode(t[1..], k) == KeepCode(u[1..], k)
  {
    KeepCodeUnfold(t, k);
    KeepCodeUnfold(u, k);
    if t[0].code == k {
      assert KeepCode(t[1..], k) == KeepCode(t, k)[1..];
      assert KeepCode(u[1..], k) == KeepCode(u, k)[1..];
    } else {
      assert KeepCode(t, k) == KeepCode(t[1..], k);
      assert KeepCode(u, k) == KeepCode(u[1..], k);
    }
  }

  /** Two lists that agree code by code and start with the same code start
      with the same record, and agree code by code after it. */
  lemma {:induction false} KeepCodeTails(t: seq<Product>, u: seq<Product>)
    requires t != [] && u != [] && t[0].code == u[0].code
    requires forall k :: KeepCode(t, k) == KeepCode(u, k)
    ensures t[0] == u[0]
    ensures forall k :: KeepCode(t[1..], k) == KeepCode(u[1..], k)
  {
    var c := t[0].code;
    KeepCodeUnfold(t, c);
    KeepCodeUnfold(u, c);
    assert KeepCode(t, c)[0] == t[0] && KeepCode(u, c)[0] == u[0];
    forall k
      ensures KeepCode(t[1..], k) == KeepCode(u[1..], k)
    {
      KeepCodeTail(t, u, k);
    }
  }

  /** Two sorted lists that agree, code by code, on their records and those
      records' order are the same list. */
  lemma {:induction false} SortedStableUnique(t: seq<Product>, u: seq<Product>)
    requires SortedByCode(t) && SortedByCode(u)
    requires forall k :: KeepCode(t, k) == KeepCode(u, k)
    ensures t == u
    decreases |t| + |u|
  {
    if t == [] && u != [] {
      KeepCodeUnfold(u, u[0].code);
    } else if t != [] && u == [] {
      KeepCodeUnfold(t, t[0].code);
    } else if t != [] {
      var c, d := t[0].code, u[0].code;
      KeepCodeUnfold(u, d);
      KeepCodeMember(t, d, u[0]);
      SortedHeadLeast(t, u[0]);
      KeepCodeUnfold(t, c);
      KeepCodeMember(u, c, t[0]);
      SortedHeadLeast(u, t[0]);
      LexLeqAntisymmetric(c, d);
      KeepCodeTails(t, u);
      SortedSuffix(t);
      SortedSuffix(u);
      SortedStableUnique(t[1..], u[1..]);
      assert t == [t[0]] + t[1..] && u == [u[0]] + u[1..];
    }
  }

  /** Dropping the first record of a sorted list leaves it sorted. */
  lemma {:induction false} SortedSuffix(s: seq<Product>)
    requires SortedByCode(s) && s != []
    ensures SortedByCode(s[1..])
  {
    forall i, j | 0 <= i < j < |s| - 1
      ensures LexLeq(s[1..][i].code, s[1..][j].code)
    {
      assert s[1..][i] == s[i + 1] && s[1..][j] == s[j + 1];
    }
  }

  /** Any sorted list that keeps the input's records of every code, in their
      input order, is `SortByCode` of the input: every stable sort by code
      (such as the engine's own) agrees with the reference definition. */
  lemma {:induction false} SortByCodeCharacterized(s: seq<Product>, t: seq<Product>)
    requires SortedByCode(t)
    requires forall k :: KeepCode(t, k) == KeepCode(s, k)
    ensures t == SortByCode(s)
  {
    SortByCodeSorted(s);
    forall k
      ensures KeepCode(t, k) == KeepCode(SortByCode(s), k)
    {
      SortByCodeStable(s, k);
    }
    SortedStableUnique(t, SortByCode(s));
  }

  /** A prefix of a sorted list is sorted. */
  lemma {:induction false} SortedPrefix(s: seq<Product>, n: nat)
    requires SortedByCode(s) && n <= |s|
    ensures SortedByCode(s[..n])
  {
    forall i, j | 0 <= i < j < n
      ensures LexLeq(s[..n][i].code, s[..n][j].code)
    {
      assert s[..n][i] == s[i] && s[..n][j] == s[j];
    }
  }

  /** Sorting a list that is already sorted changes nothing. */
  lemma {:induction false} SortedFixpoint(s: seq<Product>)
    requires SortedByCode(s)
    ensures SortByCode(s) == s
  {
    if s != [] {
      var init, last := s[..|s| - 1], s[|s| - 1];
      SortedPrefix(s, |s| - 1);
      SortedFixpoint(init);
      assert init == [] || LexLeq(init[|init| - 1].code, last.code) by {
        if init != [] {
          assert init[|init| - 1] == s[|s| - 2];
        }
      }
      assert s == init + [last];
      calc {
        SortByCode(s);
        Insert(SortByCode(init), last);
        Insert(init, last);
        init + [last];
        s;
      }
    }
  }

  /** Re-sorting on every render is harmless: sorting twice is sorting once. */
  lemma {:induction false} SortByCodeIdempotent(s: seq<Product>)
    ensures SortByCode(SortByCode(s)) == SortByCode(s)
  {
    SortByCodeSorted(s);
    SortedFixpoint(SortByCode(s));
  }

  lemma {:induction false} SttsAppend(s: seq<Product>, p: Product)
    ensures Stts(s + [p]) == Stts(s) + [p.stt]
  {
  }

  lemma {:induction false} InsertStts(s: seq<Product>, p: Product)
    ensures multiset(Stts(Insert(s, p))) == multiset(Stts(s)) + multiset{p.stt}
  {
    if s == [] || LexLeq(s[|s| - 1].code, p.code) {
      SttsAppend(s, p);
    } else {
      var init, last := s[..|s| - 1], s[|s| - 1];
      InsertStts(init, p);
      SttsAppend(Insert(init, p), last);
      assert s == init + [last];
      SttsAppend(init, last);
    }
  }

  /** Sorting moves records, never their display indexes. */
  lemma {:induction false} SortByCodeStts(s: seq<Product>)
    ensures multiset(Stts(SortByCode(s))) == multiset(Stts(s))
  {
    if s != [] {
      var init, last := s[..|s| - 1], s[|s| - 1];
      assert s == init + [last];
      var si := SortByCode(init);
      SortByCodeStts(init);
      InsertStts(si, last);
      SttsAppend(init, last);
      calc {
        multiset(Stts(SortByCode(s)));
        multiset(Stts(Insert(si, last)));
        multiset(Stts(si)) + multiset{last.stt};
        multiset(Stts(init)) + multiset{last.stt};
        multiset(Stts(init) + [last.stt]);
        multiset(Stts(s));
      }
    }
  }

  /** Sorting keeps a numbered list numbered. */
  lemma {:induction false} SortKeepsNumbered(s: seq<Product>)
    requires Numbered(s)
    ensures Numbered(SortByCode(s))
  {
    SortByCodeStts(s);
    assert |SortByCode(s)| == |multiset(SortByCode(s))| == |s|;
  }
}
