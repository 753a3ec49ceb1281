# Household expense book — verified model

This project models the core of a small household expense web application. The
user records expenses: a date, one of four categories (食費 food, 交通費
transport, 娯楽費 entertainment, 雑費 miscellaneous), an amount in yen and a
note. The user can list the expenses, filtered by a date range and a category,
and delete them. An analysis page gives one month's total, its totals per
category, the previous month's total and the month-over-month change in
percent.

The model is split into these modules:

- `Wrappers` (`wrappers.dfy`): `Option` and `Result`.
- `Calendar` (`calendar.dfy`): proleptic Gregorian dates and months, the day
  before a date, and the previous month.
- `DateText` (`date_text.dfy`):
  - the text forms the application reads and writes: "YYYY-MM-DD",
    "YYYY-MM" and decimal integers;
  - their parsers;
  - the character-by-character order of text that the database uses on the
    `date` column.
- `Expenses` (`expenses.dfy`): the expense record, the constants
  `ALLOWED_CATEGORIES` and `MAX_AMOUNT = 10,000,000`, and the add-expense
  validation, in the order the application checks.
- `Listing` (`filter.dfy`): the filtered listing. The conditions are built one
  at a time. Records are selected by text comparison of the date and ordered by
  date ascending.
- `Store` (`store.dfy`): the expense table as a class, `ExpenseStore`. Its
  methods are add, delete and list. It keeps record ids fresh and unique, and
  every stored record is well formed.
- `MonthlyAnalysis` (`analysis.dfy`): the monthly summary and the analysis page's
  month selection.

Dates are kept in the records as text, as the database stores them.
Comparisons are on that text. The lemmas `DateText.TextOrderIsDateOrder` and
`DateText.MonthPrefixIsSameMonth` show that for canonical text this is the
calendar order and the calendar month. The system clock is a parameter: `now`
for the analysis page's default month.

## Model

| member | source | states |
|---|---|---|
| Calendar.DaysInMonth | app/app.py:179-180 | month length is 28..31, and 29 exactly for February of a leap year |
| Calendar.DateLt | app/app.py:150 | `start_dt > end_dt`: strict calendar order of dates |
| Calendar.DayBefore | app/app.py:180 | one day back: a real date strictly before the given one, with no real date in between |
| Calendar.PreviousMonth | app/app.py:178-181 | the month of the day before the 1st: same year, month − 1, or December of the year before for January; its month index is one less |
| Calendar.PreviousMonthEndsTheDayBefore | app/app.py:179-181 | the day before the 1st of a month is the last day (28..31) of the previous month |
| DateText.DecimalValueInjective | app/app.py:43 | digit strings of equal width and equal value are equal |
| DateText.TextLeIsValueOrder | app/app.py:65-68 | on equal-width digit strings, text order is numeric order |
| DateText.Pad2 | app/app.py:156-157 | strftime's "%m" and "%d": two digits whose value is the number |
| DateText.Pad4 | app/app.py:156-157 | four-digit zero-padded text whose value is the number |
| DateText.FormatDate | app/app.py:156-157 | strftime "%Y-%m-%d" gives 10 characters |
| DateText.FormatYearMonth | app/app.py:175-181 | strftime "%Y-%m" gives 7 characters (the current month's text and the previous month's text) |
| DateText.ParseDate | app/app.py:40-45 | an accepted text names a real date and is that date's canonical text |
| DateText.ParseFormatDate | app/app.py:40-45 | every real date's canonical text parses back to the date |
| DateText.ParseYearMonth | app/app.py:32-38 | an accepted "YYYY-MM" names a real month and is its canonical text |
| DateText.ParseFormatYearMonth | app/app.py:32-38 | every month's canonical text parses back to the month |
| DateText.ParseYearMonthAsWritten | app/app.py:32-38 | the month check as written: anything it accepts is a real month; on texts other than six characters it agrees with the canonical parser |
| DateText.AsWrittenDropsMonthZero | app/app.py:35 | the six-character texts accepted as written are exactly canonical texts with the month's leading zero dropped; none is canonical |
| DateText.TextLe | app/app.py:65-76 | the database's comparison of TEXT values; a text sorts at or after each of its prefixes |
| DateText.TextLeTotal | app/app.py:76 | text order is total |
| DateText.TextLeTransitive | app/app.py:76 | text order is transitive |
| DateText.TextLeConcat | app/app.py:65-68 | text order on equal-width heads: equal heads defer to the tails, different heads decide |
| DateText.TextOrderIsDateOrder | app/app.py:65-68 | on canonical date text, `date >= ?` / `date <= ?` compare exactly as calendar dates |
| DateText.MonthPrefixIsSameMonth | app/app.py:50-51 | a canonical date begins with "YYYY-MM" exactly when it falls in that month |
| DateText.NatText | app/app.py:104 | decimal text of a natural number is non-empty digits |
| DateText.ParseInt | app/app.py:103-106 | int(): accepted exactly for an optional sign followed by digits, with the sign applied |
| DateText.ParseIntText | app/app.py:103-106 | every integer's decimal text parses back to it |
| Expenses.DateOf | app/app.py:97 | the calendar date of a well-formed record, whose canonical text is the stored text |
| Expenses.ValidateAdd | app/app.py:97-111 | each rejection happens exactly when the earlier checks pass and its own check fails: date, category, integer, > 0, ≤ MAX_AMOUNT; success exactly when all pass, with the parsed amount |
| Expenses.AcceptedIsWellFormed | app/app.py:97-117 | an accepted form makes a well-formed record |
| Expenses.AmountRange | app/app.py:108-111 | for a valid date and category, an amount is accepted exactly when 1 ≤ amount ≤ 10,000,000; ≤ 0 and > 10,000,000 give their own errors |
| Expenses.InvalidMonthExample | tests/test_add_expense.py:20-32 | "2024-13-15" is not a date |
| Expenses.DateExample | tests/test_add_expense.py:1-18 | "2024-12-15" is 15 December 2024 |
| Expenses.AmountExamples | app/app.py:103-109 | "abc" is not an integer; "0", "-100", "1000" parse to their values |
| Expenses.LargeAmountExample | app/app.py:110-111 | "10000001" parses to 10,000,001 |
| Expenses.RejectionExamples | app/app.py:97-111 | the outcomes of the add form for a bad month, bad category, non-integer, zero, negative, too large and a good amount |
| Listing.Given | app/app.py:64-70 | Python truthiness of an optional form text: present and non-empty |
| Listing.Matches | app/app.py:62-75 | the WHERE conjunction: on or after a given start, on or before a given end, and of the category when that is an allowed one; BuildConditions is proved to agree with it |
| Listing.Where | app/app.py:74-78 | the rows kept are exactly the records satisfying the condition, never more rows than the table |
| Listing.WhereAgree | app/app.py:74-78 | two conditions that agree on every record select the same rows |
| Listing.SortedCons | app/app.py:76 | a record no later than a sorted list, put in front, keeps it sorted |
| Listing.InsertByDate | app/app.py:76 | insertion into a date-sorted list stays sorted and adds exactly that record |
| Listing.SortByDate | app/app.py:76 | ORDER BY date ASC: sorted by date text and a permutation of its input |
| Listing.BuildConditions | app/app.py:62-72 | at most three conditions, and a record meets all of them exactly when it is on or after a given start, on or before a given end, and in the category when that is an allowed one |
| Listing.FetchFiltered | app/app.py:55-80 | the result is sorted by date, holds exactly the matching records with their multiplicities, and nothing else |
| Listing.SortedByCalendarDate | app/app.py:76 | for well-formed records, text-sorted means sorted by calendar date |
| Store.WithoutId | app/app.py:134 | DELETE ... WHERE id = ? never adds rows; its meaning is stated by WithoutIdMembers, WithoutAbsentId and WithoutIdRemovesOne |
| Store.WithoutIdMembers | app/app.py:134 | DELETE by id keeps exactly the records with another id |
| Store.UniqueIdsTail | app/app.py:129-134 | ids stay unique in the rest of the table, and none repeats the first record's id |
| Store.WithoutAbsentId | app/app.py:129-132 | deleting an id that is not present changes nothing |
| Store.WithoutIdUnique | app/app.py:134 | deleting keeps ids unique |
| Store.WithoutFirstRow | app/app.py:134 | deleting the first record's id when it is unique removes just that record |
| Store.WithoutIdRemovesOne | app/app.py:134 | with unique ids, deleting the id of row i removes row i and nothing else |
| Store.Shown | app/app.py:147-160 | which records the listing shows, in calendar terms: within the given bounds and of the chosen allowed category |
| Store.BoundDate | app/app.py:147-148 | a given date bound is a real date |
| Store.ExpenseStore.constructor | app/app.py:16-24 | an empty table satisfying the invariant |
| Store.ExpenseStore.Add | app/app.py:97-119 | succeeds exactly when the validation does; on failure the table is unchanged; on success it appends that record with a fresh id and the invariant holds |
| Store.ExpenseStore.Delete | app/app.py:124-137 | not found exactly when no record has the id, and then nothing changes; otherwise the records with that id are removed; invariant kept |
| Store.ExpenseStore.ListExpenses | app/app.py:139-164 | "start after end" exactly when both dates are real and start > end; "bad format" exactly when that does not apply and a given date is invalid; otherwise exactly the stored records in range and category, sorted by calendar date, as a permutation of the matching rows |
| MonthlyAnalysis.MonthRows | app/app.py:47-53 | the rows whose date text begins with the month text |
| MonthlyAnalysis.Total | app/app.py:186-188 | `amount.sum()`, or 0 for no rows: non-negative amounts give a non-negative total |
| MonthlyAnalysis.CategorySums | app/app.py:187 | `groupby('category')['amount'].sum()`; its keys and values are stated by CategorySumsMeaning |
| MonthlyAnalysis.CategoryTotalAbsent | app/app.py:187 | a category with no rows sums to 0 |
| MonthlyAnalysis.CategorySumsMeaning | app/app.py:187 | groupby-sum has exactly the categories present, each mapped to that category's total |
| MonthlyAnalysis.SumOverEmpty | app/app.py:187 | summing over no keys gives 0 |
| MonthlyAnalysis.SumOverAdd | app/app.py:187 | adding to one key's sum adds the same amount to the sum over distinct keys containing it |
| MonthlyAnalysis.SumOverUntouched | app/app.py:187 | changing a key outside the keys leaves their sum unchanged |
| MonthlyAnalysis.CategorySumsAddUp | app/app.py:186-187 | the category sums add up to the month total |
| MonthlyAnalysis.TotalOfPositive | app/app.py:188 | positive amounts: the total is 0 exactly when there are no rows |
| MonthlyAnalysis.DiffRate | app/app.py:190 | None exactly when last_total ≤ 0; otherwise current = last × (1 + rate/100), and the rate's sign is that of the change |
| MonthlyAnalysis.Summarize | app/app.py:177-190 | the summary names the month and the previous month as text; the change is unavailable exactly when the previous total is not positive |
| MonthlyAnalysis.MonthRowsAreCalendarMonth | app/app.py:47-53 | on well-formed records the prefix query selects exactly the records dated in that calendar month |
| MonthlyAnalysis.SummaryTotals | app/app.py:183-188 | the totals are those of the records of the month and of the previous calendar month |
| MonthlyAnalysis.SummaryCategories | app/app.py:187 | the category sums cover exactly the month's categories, with their totals |
| MonthlyAnalysis.SummaryCategoriesAddUp | app/app.py:186-187 | the category sums add up to the month total |
| MonthlyAnalysis.SummaryDiffUnavailable | app/app.py:188-190 | the change is unavailable exactly when the previous month has no records |
| MonthlyAnalysis.Analyze | app/app.py:169-190 | a missing or invalid chosen month is refused exactly then; January of year 1 is refused; otherwise the result is the summary of the chosen month or of the current month, showing the chosen text |
| MonthlyAnalysis.MonthRowsCons | app/app.py:50-51 | the prefix query on a non-empty table: the first row if it matches, then the rest |
| MonthlyAnalysis.ExampleMonthTexts | tests/test_analysis.py:12-13 | 2024-12 and 2024-11 as text; the month before December 2024 is November 2024 |
| MonthlyAnalysis.ExampleDecemberRows | tests/test_analysis.py:3-13 | the December query keeps the three December records |
| MonthlyAnalysis.ExampleNovemberRows | tests/test_analysis.py:12-15 | the November query keeps the November record |
| MonthlyAnalysis.ExampleWithPreviousMonth | tests/test_analysis.py:3-34 | total 3500, 食費 1500, 娯楽費 2000, previous month 2024-11 with 1000, change 250% |
| MonthlyAnalysis.ExampleTotals | tests/test_analysis.py:23-29 | the month totals 3500 and 1000 and the December category sums |
| MonthlyAnalysis.ExampleWithoutPreviousMonth | tests/test_analysis.py:43-51 | one December record: previous total 0 and no change figure |
| MonthlyAnalysis.AsWrittenMonthQueryTakesOctober | app/app.py:32-38 | "2024-1" passes the month check as written, yet its query keeps a record of 5 October 2024 |

## Left out

- The web layer (Flask routes, forms, HTML templates, redirects and status codes) is not modelled. Each route is modelled by its outcome: a success value or an error case, except for the server errors named below.
- The pie chart (matplotlib) and its image file are left out: they only present `category_sum`.
- SQLite is modelled as a sequence of records. `init_db` and the schema file are not part of this model; the constructor gives an empty table.
- pandas is modelled by sums over sequences and a map from category to sum.
- `datetime.now()` is the `now` parameter of `MonthlyAnalysis.Analyze`. The add form's default date for today is left out.
- Store.ExpenseStore.Add: ids come from a counter above every id ever given out. The model promises only that the new id is not in the table; SQLite's reuse policy for the largest id is not modelled.
- Expenses.ValidateAdd: dates must be canonical, zero-padded "YYYY-MM-DD" in ASCII digits. strptime also accepts one-digit months and days ("2024-1-5"), a space-padded day ("2024-12- 5") and non-ASCII decimal digits, and the application stores that text as typed. Such texts are rejected here.
- Expenses.ValidateAdd: the date and amount fields are taken to be present. When either is missing from the form, the application passes None to strptime or int() and fails with an uncaught TypeError (a server error), which the model has no outcome for. A missing category gives `InvalidCategory` in both.
- Store.ExpenseStore.ListExpenses: date bounds must be canonical, zero-padded "YYYY-MM-DD". strptime also accepts a one-digit month or day and a space-padded day ("2024-1-5", "2024-12- 5"), and the application then rewrites such a bound as canonical text. Such bounds are refused here with `InvalidDateFormat`, so the rewrite changes nothing in the model.
- DateText.ParseDate: accepts only canonical "YYYY-MM-DD" text in ASCII digits. strptime's one-digit month and day, its space-padded day and non-ASCII decimal digits are refused.
- DateText.FormatDate: writes the year as four digits with leading zeros. For years below 1000, strftime's "%Y" padding depends on the platform (some builds write year 999 as "999"). The same holds for DateText.FormatYearMonth.
- DateText.ParseInt: signed ASCII digits only. Python's int() also skips surrounding whitespace and underscores between digits and reads non-ASCII digits; those inputs are not modelled.
- Listing.SortByDate: records with the same date may come in any order. The promise is sorted order and a permutation, not SQLite's order for ties.
- MonthlyAnalysis.DiffRate: the percentage is an exact rational number. Floating-point rounding and display formatting are left out.
- MonthlyAnalysis.Analyze: for January of year 1 the application fails with an overflow error. The model returns `NoPreviousMonth` instead.
- MonthlyAnalysis.MonthRows: LIKE's case-insensitivity and wildcards inside the month text do not arise for "YYYY-MM" digit text and are not modelled.
- Concurrency between requests and the database connection handling are not modelled.

## Findings

| source | as written | input that shows it | evidently intended | confidence | as-written member | corrected member |
|---|---|---|---|---|---|---|
| app/app.py:32-38, app/app.py:47-53 | the month check's "%Y-%m" accepts a one-digit month, and the query uses the raw text as a LIKE prefix | month "2024-1": accepted as January 2024, and `LIKE '2024-1%'` matches every record of October to December 2024 | only zero-padded "YYYY-MM" is accepted, so the query selects exactly the chosen calendar month | medium, not executed | DateText.ParseYearMonthAsWritten, MonthlyAnalysis.AsWrittenMonthQueryTakesOctober | DateText.ParseYearMonth, MonthlyAnalysis.MonthRowsAreCalendarMonth |
