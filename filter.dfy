/**
 * The filtered listing query: an optional inclusive start date, an optional
 * inclusive end date and an optional category are turned into WHERE conditions
 * one by one, the matching rows are selected and ordered by date ascending.
 * Dates are compared as text, as the database compares them.
 */
module Listing {
  import opened Wrappers
  import opened Calendar
  import opened DateText
  import opened Expenses

  /** A form value that is present and non-empty (Python's truthiness of a str or None). */
  predicate Given(o: Option<string>) {
    o.Some? && o.value != ""
  }

  /**
   * What the listing promises: every given bound holds, and the category matches
   * when one of the allowed labels is given; any other category value restricts nothing.
   */
  predicate Matches(e: Expense, start: Option<string>, end: Option<string>, category: Option<string>) {
    && (Given(start) ==> TextLe(start.value, e.date))
    && (Given(end) ==> TextLe(e.date, end.value))
    && (category.Some? && category.value in ALLOWED_CATEGORIES ==> e.category == category.value)
  }

  /** One WHERE condition together with its bound parameter. */
  datatype Condition = DateAtLeast(bound: string) | DateAtMost(bound: string) | CategoryIs(name: string)

  predicate Holds(c: Condition, e: Expense) {
    match c
    case DateAtLeast(bound) => TextLe(bound, e.date)
    case DateAtMost(bound) => TextLe(e.date, bound)
    case CategoryIs(name) => e.category == name
  }

  /** The conjunction of the conditions; no conditions means no WHERE clause. */
  predicate HoldsAll(conditions: seq<Condition>, e: Expense) {
    forall i :: 0 <= i < |conditions| ==> Holds(conditions[i], e)
  }

  /** The rows of `records` that satisfy `p`, in table order. */
  function Where(records: seq<Expense>, p: Expense -> bool): (r: seq<Expense>)
    ensures forall e :: e in r <==> e in records && p(e)
    ensures |r| <= |records|
  {
    if records == [] then []
    else (if p(records[0]) then [records[0]] else []) + Where(records[1..], p)
  }

  /** Selecting with two predicates that agree on every record selects the same rows. */
  lemma {:induction false} WhereAgree(records: seq<Expense>, p: Expense -> bool, q: Expense -> bool)
    requires forall e :: e in records ==> p(e) == q(e)
    ensures Where(records, p) == Where(records, q)
  {
    if records != [] {
      WhereAgree(records[1..], p, q);
    }
  }

  /** Pairwise ascending by date text (ORDER BY date ASC); equal dates may come in any order. */
  predicate SortedByDate(s: seq<Expense>) {
    forall i, j :: 0 <= i < j < |s| ==> TextLe(s[i].date, s[j].date)
  }

  lemma SortedCons(x: Expense, s: seq<Expense>)
    requires SortedByDate(s)
    requires forall y :: y in s ==> TextLe(x.date, y.date)
    ensures SortedByDate([x] + s)
  {
    var r := [x] + s;
    forall i, j | 0 <= i < j < |r| ensures TextLe(r[i].date, r[j].date) {
      if i == 0 { assert r[j] == s[j - 1]; } else { assert r[i] == s[i - 1] && r[j] == s[j - 1]; }
    }
  }

  function InsertByDate(x: Expense, s: seq<Expense>): (r: seq<Expense>)
    requires SortedByDate(s)
    ensures SortedByDate(r)
    ensures multiset(r) == multiset(s) + multiset{x}
  {
    if s == [] || TextLe(x.date, s[0].date) then
      forall y | y in s ensures TextLe(x.date, y.date) {
        var j :| 0 <= j < |s| && s[j] == y;
        if j > 0 { TextLeTransitive(x.date, s[0].date, s[j].date); }
      }
      SortedCons(x, s);
      [x] + s
    else
      var rest := InsertByDate(x, s[1..]);
      TextLeTotal(x.date, s[0].date);
      assert s == [s[0]] + s[1..];
      forall y | y in rest ensures TextLe(s[0].date, y.date) {
        assert y in multiset(rest);
        if y != x {
          assert y in s[1..];
        }
      }
      SortedCons(s[0], rest);
      [s[0]] + rest
  }

  /** The rows in ascending date order: sorted, and a permutation of the input. */
  function SortByDate(s: seq<Expense>): (r: seq<Expense>)
    ensures SortedByDate(r)
    ensures multiset(r) == multiset(s)
  {
    if s == [] then []
    else
      assert s == [s[0]] + s[1..];
      InsertByDate(s[0], SortByDate(s[1..]))
  }

  /** Builds the WHERE conditions one at a time, as the query text and its parameters are built. */
  method BuildConditions(start: Option<string>, end: Option<string>, category: Option<string>)
    returns (conditions: seq<Condition>)
    ensures |conditions| <= 3
    ensures forall e :: HoldsAll(conditions, e) <==> Matches(e, start, end, category)
  {
    conditions := [];
    if Given(start) {
      conditions := conditions + [DateAtLeast(start.value)];
    }
    if Given(end) {
      conditions := conditions + [DateAtMost(end.value)];
    }
    if Given(category) && category.value in ALLOWED_CATEGORIES {
      conditions := conditions + [CategoryIs(category.value)];
    }
    forall e ensures HoldsAll(conditions, e) <==> Matches(e, start, end, category) {
      if HoldsAll(conditions, e) {
        if Given(start) { assert Holds(conditions[0], e); }
        if Given(end) { assert Holds(conditions[if Given(start) then 1 else 0], e); }
        if category.Some? && category.value in ALLOWED_CATEGORIES {
          assert Holds(conditions[|conditions| - 1], e);
        }
      }
    }
  }

  /**
   * fetch_expenses_filtered: the matching records, each present constraint applied,
   * ordered by date ascending.
   */
  method FetchFiltered(records: seq<Expense>, start: Option<string>, end: Option<string>, category: Option<string>)
    returns (result: seq<Expense>)
    ensures SortedByDate(result)
    ensures multiset(result) == multiset(Where(records, e => Matches(e, start, end, category)))
    ensures forall e :: e in result <==> e in records && Matches(e, start, end, category)
  {
    var conditions := BuildConditions(start, end, category);
    var rows := Where(records, e => HoldsAll(conditions, e));
    WhereAgree(records, e => HoldsAll(conditions, e), e => Matches(e, start, end, category));
    result := SortByDate(rows);
    forall e ensures e in result <==> e in rows {
      assert e in result <==> e in multiset(result);
      assert e in rows <==> e in multiset(rows);
    }
  }

  /** With canonical date text, ascending text order is ascending calendar order. */
  lemma SortedByCalendarDate(s: seq<Expense>)
    requires forall e :: e in s ==> WellFormed(e)
    requires SortedByDate(s)
    ensures forall i, j :: 0 <= i < j < |s| ==> DateLe(DateOf(s[i]), DateOf(s[j]))
  {
    forall i, j | 0 <= i < j < |s| ensures DateLe(DateOf(s[i]), DateOf(s[j])) {
      TextOrderIsDateOrder(DateOf(s[i]), DateOf(s[j]));
    }
  }
}
