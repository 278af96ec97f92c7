/**
 * `formatDate`: an ISO "YYYY-MM-DD" intake date shown as "DD/MM/YYYY".
 */
module Dates {
  import opened Text

  /** What a template literal shows for a part that `split` did not produce. */
  const Undefined: string := "undefined"

  /** Part `i` of a split, or `Undefined` when there are fewer parts. */
  function PartOr(parts: seq<string>, i: nat): string {
    if i < |parts| then parts[i] else Undefined
  }

  /** The date split on '-' into year, month and day (further parts are
      ignored), rejoined as day/month/year. */
  function FormatDate(dateString: string): string {
    var parts := Split(dateString, '-');
    PartOr(parts, 2) + "/" + PartOr(parts, 1) + "/" + PartOr(parts, 0)
  }

  lemma {:induction false} JoinThree(a: string, b: string, c: string, sep: char)
    ensures Join([a, b, c], sep) == a + [sep] + b + [sep] + c
  {
    assert [a, b, c][1..] == [b, c];
    assert [b, c][1..] == [c];
  }

  /** A well-formed date, three '-'-free parts joined by two '-', is shown
      as its day, month and year joined by '/'. */
  lemma {:induction false} FormatDateWellFormed(year: string, month: string, day: string)
    requires '-' !in year && '-' !in month && '-' !in day
    ensures FormatDate(year + "-" + month + "-" + day) == day + "/" + month + "/" + year
  {
    JoinThree(year, month, day, '-');
    SplitJoin([year, month, day], '-');
  }

  /** The shown date splits on '/' back into day, month and year. */
  lemma {:induction false} FormatDateParts(year: string, month: string, day: string)
    requires '-' !in year && '-' !in month && '-' !in day
    requires '/' !in year && '/' !in month && '/' !in day
    ensures Split(FormatDate(year + "-" + month + "-" + day), '/') == [day, month, year]
  {
    FormatDateWellFormed(year, month, day);
    JoinThree(day, month, year, '/');
    SplitJoin([day, month, year], '/');
  }

  /** Parts after the third are dropped. */
  lemma {:induction false} FormatDateIgnoresExtraParts(year: string, month: string, day: string, rest: string)
    requires '-' !in year && '-' !in month && '-' !in day
    ensures FormatDate(year + "-" + month + "-" + day + "-" + rest)
            == day + "/" + month + "/" + year
  {
    var tail := Split(rest, '-');
    var parts := [year, month, day] + tail;
    assert |parts| >= 1 && forall i :: 0 <= i < |parts| ==> '-' !in parts[i];
    JoinSplit(rest, '-');
    assert parts[1..] == [month, day] + tail && parts[2..] == [day] + tail && parts[3..] == tail;
    assert Join(parts[2..], '-') == day + "-" + rest;
    assert Join(parts[1..], '-') == month + "-" + (day + "-" + rest);
    assert Join(parts, '-') == year + "-" + (month + "-" + (day + "-" + rest));
    assert Join(parts, '-') == year + "-" + month + "-" + day + "-" + rest;
    SplitJoin(parts, '-');
  }

  /** A string without '-' is taken as the year alone; month and day show as
      "undefined". */
  lemma {:induction false} FormatDateNoSeparator(s: string)
    requires '-' !in s
    ensures FormatDate(s) == Undefined + "/" + Undefined + "/" + s
  {
    SplitJoin([s], '-');
  }

  /** A worked example: "2024-03-07" is shown as "07/03/2024". */
  lemma FormatDateExample()
    ensures FormatDate("2024-03-07") == "07/03/2024"
  {
    var year, month, day := "2024", "03", "07";
    assert '-' !in year && '-' !in month && '-' !in day;
    FormatDateWellFormed(year, month, day);
    assert year + "-" + month + "-" + day == "2024-03-07";
    assert day + "/" + month + "/" + year == "07/03/2024";
  }
}
