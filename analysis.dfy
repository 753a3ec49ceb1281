/**
 * The monthly analysis: the records of a month (a "YYYY-MM" prefix match on the
 * date text), their total, their totals per category, the previous month's total
 * and the month-over-month change in percent, which is unavailable when the
 * previous month has nothing to compare against.
 */
module MonthlyAnalysis {
  import opened Wrappers
  import opened Calendar
  import opened DateText
  import opened Expenses
  import opened Listing

  /** fetch_expenses_by_ym: the rows whose date text begins with the month text (LIKE 'YYYY-MM%'). */
  function MonthRows(records: seq<Expense>, month: string): (r: seq<Expense>)
    ensures forall e :: e in r <==> e in records && month <= e.date
  {
    Where(records, (e: Expense) => month <= e.date)
  }

  /** Sum of the amounts; 0 for no rows. */
  function Total(s: seq<Expense>): (t: int)
    ensures (forall i :: 0 <= i < |s| ==> s[i].amount >= 0) ==> t >= 0
  {
    if s == [] then 0 else s[0].amount + Total(s[1..])
  }

  /** Reference definition of one category's total: the amounts of its rows, summed. */
  function CategoryTotal(s: seq<Expense>, category: string): int {
    if s == [] then 0
    else (if s[0].category == category then s[0].amount else 0) + CategoryTotal(s[1..], category)
  }

  lemma {:induction false} CategoryTotalAbsent(s: seq<Expense>, category: string)
    requires forall e :: e in s ==> e.category != category
    ensures CategoryTotal(s, category) == 0
  {
    if s != [] {
      assert s[0] in s;
      assert forall e :: e in s[1..] ==> e in s;
      CategoryTotalAbsent(s[1..], category);
    }
  }

  /** The categories that occur in `s`. */
  function Categories(s: seq<Expense>): set<string> {
    set e | e in s :: e.category
  }

  /** The per-category totals (a group-by on category), built one row at a time. */
  function CategorySums(s: seq<Expense>): map<string, int> {
    if s == [] then map[]
    else
      var rest := CategorySums(s[1..]);
      var c := s[0].category;
      rest[c := (if c in rest then rest[c] else 0) + s[0].amount]
  }

  /**
   * The grouping has one entry for each category that occurs, holding that
   * category's total; categories that do not occur get no entry.
   */
  lemma {:induction false} CategorySumsMeaning(s: seq<Expense>)
    ensures CategorySums(s).Keys == Categories(s)
    ensures forall c :: c in CategorySums(s) ==> CategorySums(s)[c] == CategoryTotal(s, c)
  {
    if s != [] {
      CategorySumsMeaning(s[1..]);
      var rest := CategorySums(s[1..]);
      var c := s[0].category;
      var m := CategorySums(s);
      assert s == [s[0]] + s[1..];
      assert Categories(s) == {c} + Categories(s[1..]);
      forall k | k in m ensures m[k] == CategoryTotal(s, k) {
        if k == c && c !in rest {
          CategoryTotalAbsent(s[1..], k);
        }
      }
    }
  }

  /** The sum of the entries of `m` under the keys listed in `keys`. */
  function SumOver(keys: seq<string>, m: map<string, int>): int {
    if keys == [] then 0 else (if keys[0] in m then m[keys[0]] else 0) + SumOver(keys[1..], m)
  }

  predicate Distinct(keys: seq<string>) {
    forall i, j :: 0 <= i < j < |keys| ==> keys[i] != keys[j]
  }

  lemma {:induction false} SumOverEmpty(keys: seq<string>)
    ensures SumOver(keys, map[]) == 0
  {
    if keys != [] {
      SumOverEmpty(keys[1..]);
    }
  }

  lemma {:induction false} SumOverAdd(keys: seq<string>, m: map<string, int>, c: string, a: int)
    requires Distinct(keys) && c in keys
    ensures SumOver(keys, m[c := (if c in m then m[c] else 0) + a]) == SumOver(keys, m) + a
  {
    if keys[0] == c {
      SumOverUntouched(keys[1..], m, c, a);
    } else {
      SumOverAdd(keys[1..], m, c, a);
    }
  }

  lemma {:induction false} SumOverUntouched(keys: seq<string>, m: map<string, int>, c: string, a: int)
    requires c !in keys
    ensures SumOver(keys, m[c := (if c in m then m[c] else 0) + a]) == SumOver(keys, m)
  {
    if keys != [] {
      SumOverUntouched(keys[1..], m, c, a);
    }
  }

  /**
   * The category totals add up to the total: summing the entries over any list of
   * distinct categories that covers every row's category gives the sum of all amounts.
   */
  lemma {:induction false} CategorySumsAddUp(s: seq<Expense>, keys: seq<string>)
    requires Distinct(keys)
    requires forall i :: 0 <= i < |s| ==> s[i].category in keys
    ensures SumOver(keys, CategorySums(s)) == Total(s)
  {
    if s != [] {
      assert forall i :: 0 <= i < |s[1..]| ==> s[1..][i] == s[i + 1];
      CategorySumsAddUp(s[1..], keys);
      var rest := CategorySums(s[1..]);
      var c := s[0].category;
      assert c in keys;
      assert CategorySums(s) == rest[c := (if c in rest then rest[c] else 0) + s[0].amount];
      SumOverAdd(keys, rest, c, s[0].amount);
      assert SumOver(keys, rest) == Total(s[1..]);
      assert Total(s) == s[0].amount + Total(s[1..]);
    } else {
      SumOverEmpty(keys);
    }
  }

  /** With positive amounts the total is at least the number of rows, so it is 0 exactly for no rows. */
  lemma {:induction false} TotalOfPositive(s: seq<Expense>)
    requires forall e :: e in s ==> e.amount >= 1
    ensures Total(s) >= |s|
    ensures Total(s) == 0 <==> s == []
  {
    if s != [] {
      TotalOfPositive(s[1..]);
    }
  }

  /**
   * The month-over-month change in percent, (current - last) / last * 100, or
   * unavailable when the previous month's total is not positive. Exact, unrounded.
   */
  function DiffRate(current: int, last: int): (r: Option<real>)
    ensures r.None? <==> last <= 0
    ensures r.Some? ==> current as real == last as real * (1.0 + r.value / 100.0)
    ensures r.Some? ==> (r.value > 0.0 <==> current > last) && (r.value == 0.0 <==> current == last)
  {
    if last > 0 then Some((current - last) as real / last as real * 100.0) else None
  }

  /** What the analysis page shows for one month. */
  datatype Summary = Summary(
    month: string,
    total: int,
    categorySums: map<string, int>,
    lastMonth: string,
    lastTotal: int,
    diffRate: Option<real>)

  /** The summary of month `ym` against the month before it. */
  function Summarize(records: seq<Expense>, ym: YearMonth): (r: Summary)
    requires ValidYearMonth(ym) && ym != YearMonth(1, 1)
    ensures r.month == FormatYearMonth(ym) && r.lastMonth == FormatYearMonth(PreviousMonth(ym))
    ensures r.diffRate.None? <==> r.lastTotal <= 0
  {
    var month := FormatYearMonth(ym);
    var lastMonth := FormatYearMonth(PreviousMonth(ym));
    var rows := MonthRows(records, month);
    var total := Total(rows);
    var lastTotal := Total(MonthRows(records, lastMonth));
    Summary(month, total, CategorySums(rows), lastMonth, lastTotal, DiffRate(total, lastTotal))
  }

  /** A well-formed record is dated in month `ym`. */
  predicate InMonth(e: Expense, ym: YearMonth) {
    WellFormed(e) && DateOf(e).year == ym.year && DateOf(e).month == ym.month
  }

  /** On well-formed records the text prefix query selects exactly the records dated in that calendar month. */
  lemma MonthRowsAreCalendarMonth(records: seq<Expense>, ym: YearMonth)
    requires ValidYearMonth(ym)
    requires forall e :: e in records ==> WellFormed(e)
    ensures MonthRows(records, FormatYearMonth(ym)) == Where(records, (e: Expense) => InMonth(e, ym))
  {
    forall e | e in records ensures (FormatYearMonth(ym) <= e.date) == InMonth(e, ym) {
      MonthPrefixIsSameMonth(ym, DateOf(e));
    }
    WhereAgree(records, (e: Expense) => FormatYearMonth(ym) <= e.date, (e: Expense) => InMonth(e, ym));
  }

  /** The records of a well-formed table that are dated in calendar month `ym`. */
  function RecordsOfMonth(records: seq<Expense>, ym: YearMonth): seq<Expense> {
    Where(records, (e: Expense) => InMonth(e, ym))
  }

  /**
   * For a table of well-formed records, the summary's totals are those of the
   * records dated in the chosen month and in the month before it.
   */
  lemma SummaryTotals(records: seq<Expense>, ym: YearMonth)
    requires ValidYearMonth(ym) && ym != YearMonth(1, 1)
    requires forall e :: e in records ==> WellFormed(e)
    ensures Summarize(records, ym).total == Total(RecordsOfMonth(records, ym))
    ensures Summarize(records, ym).lastTotal == Total(RecordsOfMonth(records, PreviousMonth(ym)))
  {
    MonthRowsAreCalendarMonth(records, ym);
    MonthRowsAreCalendarMonth(records, PreviousMonth(ym));
  }

  /**
   * For a table of well-formed records, the category totals cover exactly the
   * categories that occur in the month, and each holds that category's total.
   */
  lemma SummaryCategories(records: seq<Expense>, ym: YearMonth)
    requires ValidYearMonth(ym) && ym != YearMonth(1, 1)
    requires forall e :: e in records ==> WellFormed(e)
    ensures var sums := Summarize(records, ym).categorySums;
            && sums.Keys == Categories(RecordsOfMonth(records, ym))
            && (forall c :: c in sums ==> sums[c] == CategoryTotal(RecordsOfMonth(records, ym), c))
  {
    MonthRowsAreCalendarMonth(records, ym);
    CategorySumsMeaning(RecordsOfMonth(records, ym));
  }

  /** The category totals of a summary add up to its total. */
  lemma SummaryCategoriesAddUp(records: seq<Expense>, ym: YearMonth)
    requires ValidYearMonth(ym) && ym != YearMonth(1, 1)
    requires forall e :: e in records ==> WellFormed(e)
    ensures SumOver(ALLOWED_CATEGORIES, Summarize(records, ym).categorySums) == Summarize(records, ym).total
  {
    var rows := MonthRows(records, FormatYearMonth(ym));
    assert Distinct(ALLOWED_CATEGORIES);
    assert forall i :: 0 <= i < |rows| ==> rows[i] in records;
    CategorySumsAddUp(rows, ALLOWED_CATEGORIES);
  }

  /**
   * For a table of well-formed records (positive amounts), the change is
   * unavailable exactly when no record is dated in the previous month.
   */
  lemma SummaryDiffUnavailable(records: seq<Expense>, ym: YearMonth)
    requires ValidYearMonth(ym) && ym != YearMonth(1, 1)
    requires forall e :: e in records ==> WellFormed(e)
    ensures Summarize(records, ym).diffRate.None? <==> forall e :: e in records ==> !InMonth(e, PreviousMonth(ym))
  {
    SummaryTotals(records, ym);
    var lastRows := RecordsOfMonth(records, PreviousMonth(ym));
    TotalOfPositive(lastRows);
    if lastRows != [] {
      assert lastRows[0] in lastRows;
    }
  }

  /** The analysis page is opened without a form (this month) or with a chosen "YYYY-MM". */
  datatype AnalysisRequest = ThisMonth | ChosenMonth(yearMonth: Option<string>)

  /**
   * A chosen month that is missing or not "YYYY-MM" is refused; January of year 1
   * has no previous month in the calendar's range and is refused as well.
   */
  datatype AnalysisError = InvalidYearMonth | NoPreviousMonth

  /**
   * analysis: resolve the month (the current month `now` when no form is sent),
   * then summarize it against the previous month.
   */
  function Analyze(records: seq<Expense>, request: AnalysisRequest, now: YearMonth): (r: Result<Summary, AnalysisError>)
    requires ValidYearMonth(now)
    ensures r == Failure(InvalidYearMonth) <==>
              request.ChosenMonth? && (!Given(request.yearMonth) || ParseYearMonth(request.yearMonth.value).None?)
    ensures r.Success? && request.ChosenMonth? ==> r.value.month == request.yearMonth.value
    ensures r.Success? && request.ThisMonth? ==> r.value.month == FormatYearMonth(now)
    ensures r.Success? && request.ThisMonth? ==> now != YearMonth(1, 1) && r.value == Summarize(records, now)
    ensures r.Success? && request.ChosenMonth? ==>
              && Given(request.yearMonth)
              && ParseYearMonth(request.yearMonth.value).Some?
              && ParseYearMonth(request.yearMonth.value).value != YearMonth(1, 1)
              && r.value == Summarize(records, ParseYearMonth(request.yearMonth.value).value)
    ensures r == Failure(NoPreviousMonth) <==>
              if request.ThisMonth? then now == YearMonth(1, 1)
              else Given(request.yearMonth) && ParseYearMonth(request.yearMonth.value) == Some(YearMonth(1, 1))
  {
    var chosen :=
      if request.ThisMonth? then Some(now)
      else if Given(request.yearMonth) then ParseYearMonth(request.yearMonth.value)
      else None;
    match chosen
    case None => Failure(InvalidYearMonth)
    case Some(ym) =>
      if ym == YearMonth(1, 1) then Failure(NoPreviousMonth)
      else Success(Summarize(records, ym))
  }

  lemma MonthRowsCons(records: seq<Expense>, month: string)
    requires records != []
    ensures MonthRows(records, month)
            == (if month <= records[0].date then [records[0]] else []) + MonthRows(records[1..], month)
  {
  }

  /** The month texts of the scenario below. */
  lemma ExampleMonthTexts()
    ensures FormatYearMonth(YearMonth(2024, 12)) == "2024-12"
    ensures PreviousMonth(YearMonth(2024, 12)) == YearMonth(2024, 11)
    ensures FormatYearMonth(YearMonth(2024, 11)) == "2024-11"
  {
  }

  /** The records of the application's analysis test: three in December 2024, one in November. */
  function ExampleRecords(): seq<Expense> {
    [ Expense(1, "2024-12-10", "食費", 1000, "当月食費1"),
      Expense(2, "2024-12-20", "食費", 500, "当月食費2"),
      Expense(3, "2024-12-15", "娯楽費", 2000, "当月娯楽"),
      Expense(4, "2024-11-25", "食費", 1000, "前月食費") ]
  }

  lemma ExampleDecemberRows()
    ensures MonthRows(ExampleRecords(), "2024-12") == ExampleRecords()[..3]
  {
    var records, m := ExampleRecords(), "2024-12";
    assert MonthRows(records[3..], m) == [] by {
      MonthRowsCons(records[3..], m);
      assert records[3..][1..] == [];
      assert "2024-11-25"[6] != m[6];
    }
    assert MonthRows(records[2..], m) == [records[2]] by {
      MonthRowsCons(records[2..], m);
      assert records[2..][1..] == records[3..];
      assert m <= "2024-12-15";
    }
    assert MonthRows(records[1..], m) == [records[1], records[2]] by {
      MonthRowsCons(records[1..], m);
      assert records[1..][1..] == records[2..];
      assert m <= "2024-12-20";
    }
    MonthRowsCons(records, m);
    assert m <= "2024-12-10";
  }

  lemma ExampleNovemberRows()
    ensures MonthRows(ExampleRecords(), "2024-11") == ExampleRecords()[3..]
  {
    var records, m := ExampleRecords(), "2024-11";
    assert MonthRows(records[3..], m) == [records[3]] by {
      MonthRowsCons(records[3..], m);
      assert records[3..][1..] == [];
      assert m <= "2024-11-25";
    }
    assert MonthRows(records[2..], m) == [records[3]] by {
      MonthRowsCons(records[2..], m);
      assert records[2..][1..] == records[3..];
      assert "2024-12-15"[6] != m[6];
    }
    assert MonthRows(records[1..], m) == [records[3]] by {
      MonthRowsCons(records[1..], m);
      assert records[1..][1..] == records[2..];
      assert "2024-12-20"[6] != m[6];
    }
    MonthRowsCons(records, m);
    assert "2024-12-10"[6] != m[6];
  }

  /**
   * December: food 1000 and 500, entertainment 2000; November: food 1000. The
   * summary of December 2024 has total 3500, food 1500, entertainment 2000,
   * previous month 2024-11 with 1000, and a change of 250%.
   */
  lemma ExampleWithPreviousMonth()
    ensures Summarize(ExampleRecords(), YearMonth(2024, 12))
            == Summary("2024-12", 3500, map["食費" := 1500, "娯楽費" := 2000], "2024-11", 1000, Some(250.0))
  {
    ExampleMonthTexts();
    ExampleDecemberRows();
    ExampleNovemberRows();
    ExampleTotals();
  }

  lemma ExampleTotals()
    ensures Total(ExampleRecords()[..3]) == 3500
    ensures Total(ExampleRecords()[3..]) == 1000
    ensures CategorySums(ExampleRecords()[..3]) == map["食費" := 1500, "娯楽費" := 2000]
  {
    var december := ExampleRecords()[..3];
    assert december[1..][1..] == [december[2]];
    assert december[1..][1..][1..] == [];
  }

  /** Only a December record: the previous month total is 0 and the change is unavailable. */
  lemma ExampleWithoutPreviousMonth()
    ensures var records := [Expense(1, "2024-12-10", "食費", 1000, "当月のみ")];
            Summarize(records, YearMonth(2024, 12))
            == Summary("2024-12", 1000, map["食費" := 1000], "2024-11", 0, None)
  {
    var records := [Expense(1, "2024-12-10", "食費", 1000, "当月のみ")];
    ExampleMonthTexts();
    assert "2024-12" <= "2024-12-10";
    assert !("2024-11" <= "2024-12-10") by { assert "2024-12-10"[6] != "2024-11"[6]; }
    MonthRowsCons(records, "2024-12");
    MonthRowsCons(records, "2024-11");
    assert records[1..] == [];
    assert MonthRows(records, "2024-12") == records;
    assert MonthRows(records, "2024-11") == [];
  }

  /**
   * The one-digit month accepted by the as-written month check: "2024-1" passes as
   * January 2024, yet its prefix query keeps a record dated 5 October 2024 (and
   * every other record of October to December 2024).
   */
  lemma AsWrittenMonthQueryTakesOctober()
    ensures ParseYearMonthAsWritten("2024-1") == Some(YearMonth(2024, 1))
    ensures var e := Expense(1, "2024-10-05", "食費", 1000, "");
            MonthRows([e], "2024-1") == [e] && ParseDate(e.date) == Some(Date(2024, 10, 5))
  {
    var s := "2024-1";
    DecimalValueOfDigits4(s[..4]);
    var e := Expense(1, "2024-10-05", "食費", 1000, "");
    assert "2024-1" <= e.date;
    MonthRowsCons([e], "2024-1");
    assert [e][1..] == [];
    ParseFormatDate(Date(2024, 10, 5));
    assert FormatDate(Date(2024, 10, 5)) == e.date;
  }
}
