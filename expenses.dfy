/**
 * The expense record, the application's fixed configuration, and the validation
 * an "add expense" form goes through before anything is stored.
 */
module Expenses {
  import opened Wrappers
  import opened Calendar
  import opened DateText

  /** The four labels a category may take: food, transport, entertainment, miscellaneous. */
  const ALLOWED_CATEGORIES: seq<string> := ["食費", "交通費", "娯楽費", "雑費"]

  /** Upper bound on an amount, guarding against input mistakes. */
  const MAX_AMOUNT: int := 10_000_000

  /** One row of the expenses table; the date is kept as the text that was stored. */
  datatype Expense = Expense(id: int, date: string, category: string, amount: int, note: string)

  /** What every stored record satisfies: a real date in canonical text, a known category, an amount in range. */
  predicate WellFormed(e: Expense) {
    ParseDate(e.date).Some? && e.category in ALLOWED_CATEGORIES && 1 <= e.amount <= MAX_AMOUNT
  }

  /** The calendar date a well-formed record is dated. */
  function DateOf(e: Expense): (d: Date)
    requires WellFormed(e)
    ensures ValidDate(d) && FormatDate(d) == e.date
  {
    ParseDate(e.date).value
  }

  /** The five ways an add request is rejected, one per check, in the order they are made. */
  datatype AddError = InvalidDate | InvalidCategory | AmountNotInteger | AmountNotPositive | AmountTooLarge

  /**
   * The checks of the add form: the date, then the category, then whether the amount
   * is an integer, then its lower and its upper bound. The first check that fails
   * decides the outcome; on success the parsed amount is returned.
   */
  function ValidateAdd(date: string, category: string, amountText: string): (r: Result<int, AddError>)
    ensures r.Success? <==> ParseDate(date).Some? && category in ALLOWED_CATEGORIES
                            && ParseInt(amountText).Some? && 1 <= ParseInt(amountText).value <= MAX_AMOUNT
    ensures r.Success? ==> r.value == ParseInt(amountText).value
    ensures r == Failure(InvalidDate) <==> ParseDate(date).None?
    ensures r == Failure(InvalidCategory) <==> ParseDate(date).Some? && category !in ALLOWED_CATEGORIES
    ensures r == Failure(AmountNotInteger) <==>
              ParseDate(date).Some? && category in ALLOWED_CATEGORIES && ParseInt(amountText).None?
    ensures r == Failure(AmountNotPositive) <==>
              ParseDate(date).Some? && category in ALLOWED_CATEGORIES
              && ParseInt(amountText).Some? && ParseInt(amountText).value <= 0
    ensures r == Failure(AmountTooLarge) <==>
              ParseDate(date).Some? && category in ALLOWED_CATEGORIES
              && ParseInt(amountText).Some? && ParseInt(amountText).value > MAX_AMOUNT
  {
    if ParseDate(date).None? then Failure(InvalidDate)
    else if category !in ALLOWED_CATEGORIES then Failure(InvalidCategory)
    else match ParseInt(amountText)
      case None => Failure(AmountNotInteger)
      case Some(amount) =>
        if amount <= 0 then Failure(AmountNotPositive)
        else if amount > MAX_AMOUNT then Failure(AmountTooLarge)
        else Success(amount)
  }

  /** A record built from an accepted form is well formed, whatever its id and note. */
  lemma AcceptedIsWellFormed(id: int, date: string, category: string, amountText: string, note: string)
    requires ValidateAdd(date, category, amountText).Success?
    ensures WellFormed(Expense(id, date, category, ValidateAdd(date, category, amountText).value, note))
  {
  }

  /**
   * An amount written in decimal is accepted exactly when it lies in 1..MAX_AMOUNT
   * (given an acceptable date and category), and then stored as that number.
   */
  lemma AmountRange(date: string, category: string, amount: int)
    requires ParseDate(date).Some? && category in ALLOWED_CATEGORIES
    ensures ValidateAdd(date, category, IntText(amount)).Success? <==> 1 <= amount <= MAX_AMOUNT
    ensures ValidateAdd(date, category, IntText(amount)).Success? ==>
              ValidateAdd(date, category, IntText(amount)).value == amount
    ensures amount <= 0 ==> ValidateAdd(date, category, IntText(amount)) == Failure(AmountNotPositive)
    ensures amount > MAX_AMOUNT ==> ValidateAdd(date, category, IntText(amount)) == Failure(AmountTooLarge)
  {
    ParseIntText(amount);
  }

  lemma InvalidMonthExample()
    ensures ParseDate("2024-13-15") == None
  {
    assert "2024-13-15"[5..7] == "13";
    DecimalValueOfDigits2("13");
  }

  lemma DateExample()
    ensures ParseDate("2024-12-15") == Some(Date(2024, 12, 15))
  {
    var s := "2024-12-15";
    assert s[..4] == "2024" && s[5..7] == "12" && s[8..] == "15";
    DecimalValueOfDigits4("2024");
    DecimalValueOfDigits2("12");
    DecimalValueOfDigits2("15");
  }

  lemma AmountExamples()
    ensures ParseInt("abc") == None
    ensures ParseInt("0") == Some(0)
    ensures ParseInt("-100") == Some(-100)
    ensures ParseInt("1000") == Some(1000)
  {
    assert !IsDigit("abc"[0]);
    assert "0"[..0] == [];
    assert "-100"[1..] == "100" == "10" + ['0'];
    DecimalValueSnoc("10", '0');
    DecimalValueOfDigits2("10");
    DecimalValueOfDigits4("1000");
  }

  lemma LargeAmountExample()
    ensures ParseInt("10000001") == Some(10000001)
  {
    assert "10000001" == "1000" + "00" + "01";
    DecimalValueOfDigits4("1000");
    DecimalValueAppend2("1000", "00");
    DecimalValueAppend2("1000" + "00", "01");
  }

  /** The rejections the application's tests exercise, each with its own outcome. */
  lemma RejectionExamples()
    ensures ValidateAdd("2024-13-15", "食費", "1000") == Failure(InvalidDate)
    ensures ValidateAdd("2024-12-15", "invalid", "1000") == Failure(InvalidCategory)
    ensures ValidateAdd("2024-12-15", "食費", "abc") == Failure(AmountNotInteger)
    ensures ValidateAdd("2024-12-15", "食費", "0") == Failure(AmountNotPositive)
    ensures ValidateAdd("2024-12-15", "食費", "-100") == Failure(AmountNotPositive)
    ensures ValidateAdd("2024-12-15", "食費", "10000001") == Failure(AmountTooLarge)
    ensures ValidateAdd("2024-12-15", "食費", "1000") == Success(1000)
  {
    InvalidMonthExample();
    DateExample();
    AmountExamples();
    LargeAmountExample();
  }
}
