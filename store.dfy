/**
 * The expenses table as an object: a sequence of rows and the next id to assign.
 * Adding validates the form and appends one row; deleting checks that the id is
 * present before removing it; listing answers the filter form.
 */
module Store {
  import opened Wrappers
  import opened Calendar
  import opened DateText
  import opened Expenses
  import opened Listing

  predicate HasId(s: seq<Expense>, id: int) {
    exists e :: e in s && e.id == id
  }

  predicate UniqueIds(s: seq<Expense>) {
    forall i, j :: 0 <= i < j < |s| ==> s[i].id != s[j].id
  }

  /** The rows left after DELETE ... WHERE id = `id`, in table order. */
  function WithoutId(s: seq<Expense>, id: int): (r: seq<Expense>)
    ensures |r| <= |s|
  {
    if s == [] then []
    else if s[0].id == id then WithoutId(s[1..], id)
    else [s[0]] + WithoutId(s[1..], id)
  }

  /** The rows left are exactly the rows whose id differs. */
  lemma {:induction false} WithoutIdMembers(s: seq<Expense>, id: int)
    ensures forall e :: e in WithoutId(s, id) <==> e in s && e.id != id
  {
    if s != [] {
      WithoutIdMembers(s[1..], id);
      assert s == [s[0]] + s[1..];
    }
  }

  /** The tail of a table with distinct ids has distinct ids, none equal to the head's. */
  lemma UniqueIdsTail(s: seq<Expense>)
    requires UniqueIds(s) && s != []
    ensures UniqueIds(s[1..])
    ensures forall e :: e in s[1..] ==> e.id != s[0].id
  {
    forall e | e in s[1..] ensures e.id != s[0].id {
      var j :| 0 <= j < |s[1..]| && s[1..][j] == e;
      assert s[j + 1] == e;
    }
  }

  /** Deleting an id that is not present changes nothing. */
  lemma {:induction false} WithoutAbsentId(s: seq<Expense>, id: int)
    requires !HasId(s, id)
    ensures WithoutId(s, id) == s
  {
    if s != [] {
      WithoutAbsentId(s[1..], id);
      assert s == [s[0]] + s[1..];
    }
  }

  /** Deleting keeps the ids distinct. */
  lemma {:induction false} WithoutIdUnique(s: seq<Expense>, id: int)
    requires UniqueIds(s)
    ensures UniqueIds(WithoutId(s, id))
  {
    if s != [] {
      UniqueIdsTail(s);
      WithoutIdUnique(s[1..], id);
      if s[0].id != id {
        var rest := WithoutId(s[1..], id);
        WithoutIdMembers(s[1..], id);
        var r := [s[0]] + rest;
        forall i, j | 0 <= i < j < |r| ensures r[i].id != r[j].id {
          if i == 0 {
            assert r[j] in rest;
          } else {
            assert r[i] == rest[i - 1] && r[j] == rest[j - 1];
          }
        }
      }
    }
  }

  /** Deleting the id of the first row, which no other row has, leaves the other rows. */
  lemma WithoutFirstRow(s: seq<Expense>)
    requires s != []
    requires forall j :: 0 < j < |s| ==> s[j].id != s[0].id
    ensures WithoutId(s, s[0].id) == s[1..]
  {
    var t := s[1..];
    forall e | e in t ensures e.id != s[0].id {
      var j :| 0 <= j < |t| && t[j] == e;
      assert s[j + 1] == e;
    }
    WithoutAbsentId(t, s[0].id);
  }

  /** Deleting the id of row `i`, which no other row has, removes exactly that row and keeps the others in order. */
  lemma {:induction false} WithoutIdRemovesOne(s: seq<Expense>, i: int)
    requires 0 <= i < |s|
    requires forall j :: 0 <= j < |s| && j != i ==> s[j].id != s[i].id
    ensures WithoutId(s, s[i].id) == s[..i] + s[i + 1..]
  {
    if i == 0 {
      WithoutFirstRow(s);
    } else {
      var id, t := s[i].id, s[1..];
      assert forall j :: 0 <= j < |t| && j != i - 1 ==> t[j].id != t[i - 1].id by {
        assert forall j :: 0 <= j < |t| ==> t[j] == s[j + 1];
      }
      WithoutIdRemovesOne(t, i - 1);
      assert WithoutId(s, id) == [s[0]] + WithoutId(t, id) by {
        assert s[0].id != id;
      }
      assert s[..i] + s[i + 1..] == [s[0]] + (t[..i - 1] + t[i..]) by {
        assert s[..i] == [s[0]] + t[..i - 1];
        assert s[i + 1..] == t[i..];
      }
    }
  }

  datatype DeleteOutcome = Deleted | NotFound

  /** The listing page: without a form every record is shown; the form gives optional bounds and a category. */
  datatype ListRequest = AllExpenses | FilterForm(start: Option<string>, end: Option<string>, category: Option<string>)

  datatype ListError = StartAfterEnd | InvalidDateFormat

  /** The date a form bound names, when one is given and it parses. */
  function BoundDate(o: Option<string>): (r: Option<Date>)
    ensures r.Some? ==> ValidDate(r.value)
  {
    if Given(o) then ParseDate(o.value) else None
  }

  /** Which records the listing shows, in calendar terms: within the given bounds and of the chosen allowed category. */
  predicate Shown(request: ListRequest, e: Expense) {
    match request
    case AllExpenses => true
    case FilterForm(start, end, category) =>
      && (BoundDate(start).Some? ==> ParseDate(e.date).Some? && DateLe(BoundDate(start).value, ParseDate(e.date).value))
      && (BoundDate(end).Some? ==> ParseDate(e.date).Some? && DateLe(ParseDate(e.date).value, BoundDate(end).value))
      && (category.Some? && category.value in ALLOWED_CATEGORIES ==> e.category == category.value)
  }

  class ExpenseStore {
    var records: seq<Expense>
    var nextId: int

    /** Every row is well formed, ids are distinct and all below the next id to assign. */
    ghost predicate Valid()
      reads this
    {
      && nextId >= 1
      && (forall e :: e in records ==> WellFormed(e) && 1 <= e.id < nextId)
      && UniqueIds(records)
    }

    constructor ()
      ensures Valid() && records == []
    {
      records := [];
      nextId := 1;
    }

    /**
     * add_expense: validate the form; on success append one row under a fresh id.
     * A rejected form leaves the table as it was.
     */
    method Add(date: string, category: string, amountText: string, note: string)
      returns (outcome: Result<int, AddError>)
      requires Valid()
      modifies this
      ensures Valid()
      ensures outcome.Success? <==> ValidateAdd(date, category, amountText).Success?
      ensures outcome.Failure? ==>
                outcome.error == ValidateAdd(date, category, amountText).error
                && records == old(records) && nextId == old(nextId)
      ensures outcome.Success? ==>
                && !HasId(old(records), outcome.value)
                && records == old(records) + [Expense(outcome.value, date, category,
                                                      ValidateAdd(date, category, amountText).value, note)]
    {
      match ValidateAdd(date, category, amountText)
      case Failure(error) =>
        outcome := Failure(error);
      case Success(amount) =>
        var id := nextId;
        var row := Expense(id, date, category, amount, note);
        records := records + [row];
        nextId := nextId + 1;
        outcome := Success(id);
    }

    /**
     * delete_expense: an id that is not present is reported and nothing changes;
     * otherwise the row with that id is removed.
     */
    method Delete(id: int) returns (outcome: DeleteOutcome)
      requires Valid()
      modifies this
      ensures Valid() && nextId == old(nextId)
      ensures outcome == NotFound <==> !HasId(old(records), id)
      ensures outcome == NotFound ==> records == old(records)
      ensures outcome == Deleted ==> records == WithoutId(old(records), id)
    {
      if !HasId(records, id) {
        WithoutAbsentId(records, id);
        return NotFound;
      }
      WithoutIdUnique(records, id);
      WithoutIdMembers(records, id);
      records := WithoutId(records, id);
      outcome := Deleted;
    }

    /**
     * list_expenses: a start date after the end date is refused before the query,
     * then a bound that does not parse; otherwise the records within the bounds and
     * of the chosen category, in ascending date order. "all" chooses no category.
     */
    method ListExpenses(request: ListRequest) returns (outcome: Result<seq<Expense>, ListError>)
      requires Valid()
      ensures outcome == Failure(StartAfterEnd) <==>
                request.FilterForm? && BoundDate(request.start).Some? && BoundDate(request.end).Some?
                && DateLt(BoundDate(request.end).value, BoundDate(request.start).value)
      ensures outcome == Failure(InvalidDateFormat) <==>
                request.FilterForm? && outcome != Failure(StartAfterEnd)
                && ((Given(request.start) && BoundDate(request.start).None?)
                    || (Given(request.end) && BoundDate(request.end).None?))
      ensures outcome.Success? ==>
                && (forall e :: e in outcome.value <==> e in records && Shown(request, e))
                && (forall e :: e in outcome.value ==> WellFormed(e))
                && SortedByDate(outcome.value)
                && (forall i, j :: 0 <= i < j < |outcome.value| ==>
                      DateLe(DateOf(outcome.value[i]), DateOf(outcome.value[j])))
                && multiset(outcome.value) == multiset(Where(records, e => Shown(request, e)))
    {
      var start, end, category := None, None, None;
      if request.FilterForm? {
        var startDate := BoundDate(request.start);
        var endDate := BoundDate(request.end);
        if startDate.Some? && endDate.Some? && DateLt(endDate.value, startDate.value) {
          return Failure(StartAfterEnd);
        }
        if (Given(request.start) && startDate.None?) || (Given(request.end) && endDate.None?) {
          return Failure(InvalidDateFormat);
        }
        start := if startDate.Some? then Some(FormatDate(startDate.value)) else None;
        end := if endDate.Some? then Some(FormatDate(endDate.value)) else None;
        category := if request.category == Some("all") then None else request.category;
      }
      forall e | e in records ensures Matches(e, start, end, category) == Shown(request, e) {
        if request.FilterForm? {
          assert "all" !in ALLOWED_CATEGORIES;
          if start.Some? { TextOrderIsDateOrder(BoundDate(request.start).value, DateOf(e)); }
          if end.Some? { TextOrderIsDateOrder(DateOf(e), BoundDate(request.end).value); }
        }
      }
      WhereAgree(records, e => Matches(e, start, end, category), e => Shown(request, e));
      var rows := FetchFiltered(records, start, end, category);
      SortedByCalendarDate(rows);
      outcome := Success(rows);
    }
  }
}
