/**
 * The search and category filter applied to the sorted list, and what is
 * rendered from its result: a table of rows, or a "no results" notice.
 */
module Filtering {
  import opened Text
  import opened Catalog
  import opened Dates
  import opened Sorting

  /** The lower-cased name contains the lower-cased search term. */
  predicate MatchesName(p: Product, searchTerm: string) {
    Contains(ToLower(p.name), ToLower(searchTerm))
  }

  /** No category is selected (the empty string), or the record's category
      is exactly the selected one. */
  predicate MatchesCategory(p: Product, selectedCategory: string) {
    selectedCategory == "" || p.category == selectedCategory
  }

  predicate Matches(p: Product, searchTerm: string, selectedCategory: string) {
    MatchesName(p, searchTerm) && MatchesCategory(p, selectedCategory)
  }

  /** The records of `s` that match, in the order of `s`. */
  function FilterProducts(s: seq<Product>, searchTerm: string, selectedCategory: string): (r: seq<Product>)
    ensures |r| <= |s|
    ensures forall i :: 0 <= i < |r| ==> Matches(r[i], searchTerm, selectedCategory)
  {
    if s == [] then []
    else
      (if Matches(s[0], searchTerm, selectedCategory) then [s[0]] else [])
      + FilterProducts(s[1..], searchTerm, selectedCategory)
  }

  /** Each record occurs in the result exactly as often as in `s` when it
      matches, and not at all otherwise. */
  lemma {:induction false} FilterCounts(s: seq<Product>, searchTerm: string, selectedCategory: string, p: Product)
    ensures multiset(FilterProducts(s, searchTerm, selectedCategory))[p]
            == if Matches(p, searchTerm, selectedCategory) then multiset(s)[p] else 0
  {
    if s != [] {
      FilterCounts(s[1..], searchTerm, selectedCategory, p);
      assert s == [s[0]] + s[1..];
    }
  }

  /** A record is shown exactly when it is in the list and matches. */
  lemma {:induction false} FilterMembership(s: seq<Product>, searchTerm: string, selectedCategory: string, p: Product)
    ensures p in FilterProducts(s, searchTerm, selectedCategory)
            <==> p in s && Matches(p, searchTerm, selectedCategory)
  {
    FilterCounts(s, searchTerm, selectedCategory, p);
  }

  /** Filtering keeps order: the filter of a concatenation is the
      concatenation of the filters. */
  lemma {:induction false} FilterConcat(a: seq<Product>, b: seq<Product>, searchTerm: string, selectedCategory: string)
    ensures FilterProducts(a + b, searchTerm, selectedCategory)
            == FilterProducts(a, searchTerm, selectedCategory) + FilterProducts(b, searchTerm, selectedCategory)
  {
    if a == [] {
      assert a + b == b;
    } else {
      assert (a + b)[1..] == a[1..] + b;
      FilterConcat(a[1..], b, searchTerm, selectedCategory);
    }
  }

  /** A list all of whose records match is shown whole. */
  lemma {:induction false} FilterAllMatch(s: seq<Product>, searchTerm: string, selectedCategory: string)
    requires forall i :: 0 <= i < |s| ==> Matches(s[i], searchTerm, selectedCategory)
    ensures FilterProducts(s, searchTerm, selectedCategory) == s
  {
    if s != [] {
      FilterAllMatch(s[1..], searchTerm, selectedCategory);
      assert s == [s[0]] + s[1..];
    }
  }

  /** With an empty search term and no category selected every record is
      shown, in the order of the list. */
  lemma {:induction false} FilterNoCriteria(s: seq<Product>)
    ensures FilterProducts(s, "", "") == s
  {
    forall i | 0 <= i < |s|
      ensures Matches(s[i], "", "")
    {
      ContainsEmpty(ToLower(s[i].name));
    }
    FilterAllMatch(s, "", "");
  }

  /** The two filters intersect: filtering by both is filtering by name and
      then by category. */
  lemma {:induction false} FilterIntersects(s: seq<Product>, searchTerm: string, selectedCategory: string)
    ensures FilterProducts(s, searchTerm, selectedCategory)
            == FilterProducts(FilterProducts(s, searchTerm, ""), "", selectedCategory)
  {
    if s != [] {
      FilterIntersects(s[1..], searchTerm, selectedCategory);
      ContainsEmpty(ToLower(s[0].name));
      var named := FilterProducts(s, searchTerm, "");
      if MatchesName(s[0], searchTerm) {
        assert named == [s[0]] + FilterProducts(s[1..], searchTerm, "");
        assert named[1..] == FilterProducts(s[1..], searchTerm, "");
      } else {
        assert named == FilterProducts(s[1..], searchTerm, "");
      }
    }
  }

  /** The search ignores case: searching for a term or for its lower-case
      form shows the same records. */
  lemma {:induction false} FilterCaseInsensitive(s: seq<Product>, searchTerm: string, selectedCategory: string)
    ensures FilterProducts(s, ToLower(searchTerm), selectedCategory)
            == FilterProducts(s, searchTerm, selectedCategory)
  {
    if s != [] {
      ToLowerIdempotent(searchTerm);
      FilterCaseInsensitive(s[1..], searchTerm, selectedCategory);
    }
  }

  /** Filtering a list sorted by code leaves it sorted by code, so the
      matches are shown in ascending code order. */
  lemma {:induction false} FilterSorted(s: seq<Product>, searchTerm: string, selectedCategory: string)
    requires SortedByCode(s)
    ensures SortedByCode(FilterProducts(s, searchTerm, selectedCategory))
  {
    if s != [] {
      SortedSuffix(s);
      FilterSorted(s[1..], searchTerm, selectedCategory);
      var rest := FilterProducts(s[1..], searchTerm, selectedCategory);
      if Matches(s[0], searchTerm, selectedCategory) {
        var r := [s[0]] + rest;
        forall j | 0 < j < |r|
          ensures LexLeq(s[0].code, r[j].code)
        {
          assert r[j] == rest[j - 1];
          FilterMembership(s[1..], searchTerm, selectedCategory, rest[j - 1]);
          var k :| 0 <= k < |s[1..]| && s[1..][k] == rest[j - 1];
          assert s[k + 1] == r[j];
        }
        forall i, j | 0 <= i < j < |r|
          ensures LexLeq(r[i].code, r[j].code)
        {
          if i > 0 {
            assert r[i] == rest[i - 1] && r[j] == rest[j - 1];
          }
        }
      }
    }
  }

  /** One table row: the record's columns in order, the date formatted. */
  datatype Row = Row(
    stt: int,
    code: string,
    name: string,
    category: string,
    quantity: string,
    price: Price,
    date: string)

  /** What the list area shows. */
  datatype View = Table(rows: seq<Row>) | NoResults

  function RowOf(p: Product): Row {
    Row(p.stt, p.code, p.name, p.category, p.quantity, p.price, FormatDate(p.date))
  }

  /** A table of the filtered records when there is at least one, otherwise
      the "no results" notice. */
  function RenderList(filtered: seq<Product>): (v: View)
    ensures v.NoResults? <==> filtered == []
    ensures v.Table? ==> |v.rows| == |filtered|
    ensures v.Table? ==> forall i :: 0 <= i < |filtered| ==> v.rows[i] == RowOf(filtered[i])
  {
    if |filtered| > 0 then Table(seq(|filtered|, i requires 0 <= i < |filtered| => RowOf(filtered[i])))
    else NoResults
  }

  /** The notice is shown exactly when no record of the list matches. */
  lemma {:induction false} NoResultsIffNoMatch(s: seq<Product>, searchTerm: string, selectedCategory: string)
    ensures RenderList(FilterProducts(s, searchTerm, selectedCategory)).NoResults?
            <==> forall p :: p in s ==> !Matches(p, searchTerm, selectedCategory)
  {
    var r := FilterProducts(s, searchTerm, selectedCategory);
    if r != [] {
      FilterMembership(s, searchTerm, selectedCategory, r[0]);
    }
    forall p | p in s && Matches(p, searchTerm, selectedCategory)
      ensures r != []
    {
      FilterMembership(s, searchTerm, selectedCategory, p);
    }
  }
}
