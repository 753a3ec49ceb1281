/**
 * The textual forms the application stores and compares: dates as "YYYY-MM-DD",
 * months as "YYYY-MM", amounts as decimal integers. The database compares dates
 * as text, character by character, so this module also proves that for canonical
 * (zero-padded) text that order is the calendar order, and that a "YYYY-MM" prefix
 * picks out exactly the dates of that month.
 */
module DateText {
  import opened Wrappers
  import opened Calendar

  predicate IsDigit(c: char) {
    '0' <= c <= '9'
  }

  predicate AllDigits(s: string) {
    forall i :: 0 <= i < |s| ==> IsDigit(s[i])
  }

  function DigitValue(c: char): (n: nat)
    requires IsDigit(c)
    ensures n < 10
  {
    (c as int) - ('0' as int)
  }

  function DigitChar(n: nat): (c: char)
    requires n < 10
    ensures IsDigit(c) && DigitValue(c) == n
  {
    (('0' as int) + n) as char
  }

  /** The value of a string of decimal digits, most significant first. */
  function DecimalValue(s: string): nat
    requires AllDigits(s)
  {
    if s == [] then 0 else DecimalValue(s[..|s| - 1]) * 10 + DigitValue(s[|s| - 1])
  }

  lemma DecimalValueSnoc(s: string, c: char)
    requires AllDigits(s) && IsDigit(c)
    ensures AllDigits(s + [c]) && DecimalValue(s + [c]) == DecimalValue(s) * 10 + DigitValue(c)
  {
    assert (s + [c])[..|s|] == s;
  }

  lemma DecimalValueOfDigits2(s: string)
    requires |s| == 2 && AllDigits(s)
    ensures DecimalValue(s) == 10 * DigitValue(s[0]) + DigitValue(s[1])
  {
    assert s[..1][..0] == [];
    assert DecimalValue(s[..1]) == DigitValue(s[0]);
  }

  lemma DecimalValueOfDigits4(s: string)
    requires |s| == 4 && AllDigits(s)
    ensures DecimalValue(s) == 1000 * DigitValue(s[0]) + 100 * DigitValue(s[1]) + 10 * DigitValue(s[2]) + DigitValue(s[3])
  {
    assert s[..3][..2] == s[..2] && s[..2][..1] == s[..1] && s[..1][..0] == [];
    assert DecimalValue(s[..1]) == DigitValue(s[0]);
    assert DecimalValue(s[..2]) == DecimalValue(s[..1]) * 10 + DigitValue(s[1]);
    assert DecimalValue(s[..3]) == DecimalValue(s[..2]) * 10 + DigitValue(s[2]);
  }

  lemma DecimalValueAppend2(p: string, q: string)
    requires AllDigits(p) && |q| == 2 && AllDigits(q)
    ensures AllDigits(p + q) && DecimalValue(p + q) == DecimalValue(p) * 100 + DecimalValue(q)
  {
    DecimalValueSnoc(p, q[0]);
    DecimalValueSnoc(p + [q[0]], q[1]);
    assert p + q == p + [q[0]] + [q[1]];
    DecimalValueOfDigits2(q);
  }

  /** Two digit strings of the same width with the same value are the same string. */
  lemma {:induction false} DecimalValueInjective(s: string, t: string)
    requires |s| == |t| && AllDigits(s) && AllDigits(t)
    requires DecimalValue(s) == DecimalValue(t)
    ensures s == t
    decreases |s|
  {
    if s != [] {
      var n := |s| - 1;
      assert DecimalValue(s) == DecimalValue(s[..n]) * 10 + DigitValue(s[n]);
      assert DecimalValue(t) == DecimalValue(t[..n]) * 10 + DigitValue(t[n]);
      assert DecimalValue(s[..n]) == DecimalValue(t[..n]) && DigitValue(s[n]) == DigitValue(t[n]);
      DecimalValueInjective(s[..n], t[..n]);
      assert s[n] as int == t[n] as int;
      assert s == s[..n] + [s[n]] && t == t[..n] + [t[n]];
    }
  }

  /** On digit strings of one width, text order is numeric order. */
  lemma {:induction false} TextLeIsValueOrder(s: string, t: string)
    requires |s| == |t| && AllDigits(s) && AllDigits(t)
    ensures TextLe(s, t) <==> DecimalValue(s) <= DecimalValue(t)
    decreases |s|
  {
    if s != [] {
      var n := |s| - 1;
      var p, q := s[..n], t[..n];
      assert s == p + [s[n]] && t == q + [t[n]];
      TextLeConcat(p, q, [s[n]], [t[n]]);
      TextLeIsValueOrder(p, q);
      if p != q && DecimalValue(p) == DecimalValue(q) {
        DecimalValueInjective(p, q);
      }
      assert TextLe([s[n]], [t[n]]) <==> s[n] <= t[n] by {
        assert [s[n]][1..] == [];
      }
    }
  }

  /** Zero-padded two-digit text of `n` (strftime's "%m" and "%d"). */
  function Pad2(n: nat): (s: string)
    requires n < 100
    ensures |s| == 2 && AllDigits(s) && DecimalValue(s) == n
  {
    var s := [DigitChar(n / 10), DigitChar(n % 10)];
    DecimalValueOfDigits2(s);
    s
  }

  /** Zero-padded four-digit text of `n` (strftime's "%Y"). */
  function Pad4(n: nat): (s: string)
    requires n < 10000
    ensures |s| == 4 && AllDigits(s) && DecimalValue(s) == n
  {
    DecimalValueAppend2(Pad2(n / 100), Pad2(n % 100));
    Pad2(n / 100) + Pad2(n % 100)
  }

  lemma Pad2OfValue(s: string)
    requires |s| == 2 && AllDigits(s)
    ensures DecimalValue(s) < 100 && Pad2(DecimalValue(s)) == s
  {
    DecimalValueOfDigits2(s);
    DecimalValueInjective(Pad2(DecimalValue(s)), s);
  }

  lemma Pad4OfValue(s: string)
    requires |s| == 4 && AllDigits(s)
    ensures DecimalValue(s) < 10000 && Pad4(DecimalValue(s)) == s
  {
    DecimalValueOfDigits4(s);
    DecimalValueInjective(Pad4(DecimalValue(s)), s);
  }

  /** "YYYY-MM-DD", as strftime("%Y-%m-%d") writes a datetime. */
  function FormatDate(d: Date): (s: string)
    requires ValidDate(d)
    ensures |s| == 10
  {
    Pad4(d.year) + "-" + Pad2(d.month) + "-" + Pad2(d.day)
  }

  /** "YYYY-MM", as strftime("%Y-%m") writes a month. */
  function FormatYearMonth(ym: YearMonth): (s: string)
    requires ValidYearMonth(ym)
    ensures |s| == 7
  {
    Pad4(ym.year) + "-" + Pad2(ym.month)
  }

  /**
   * parse_date: the calendar date written by canonical "YYYY-MM-DD" text, or None
   * when the text has another shape or names no real date (month 13, February 30).
   */
  function ParseDate(s: string): (r: Option<Date>)
    ensures r.Some? ==> ValidDate(r.value) && FormatDate(r.value) == s
  {
    if |s| == 10 && s[4] == '-' && s[7] == '-'
       && AllDigits(s[..4]) && AllDigits(s[5..7]) && AllDigits(s[8..])
    then
      var d := Date(DecimalValue(s[..4]), DecimalValue(s[5..7]), DecimalValue(s[8..]));
      if ValidDate(d) then
        Pad4OfValue(s[..4]);
        Pad2OfValue(s[5..7]);
        Pad2OfValue(s[8..]);
        assert s == s[..4] + "-" + s[5..7] + "-" + s[8..];
        Some(d)
      else None
    else None
  }

  /** is_valid_ym_format: the month written by canonical "YYYY-MM" text, or None. */
  function ParseYearMonth(s: string): (r: Option<YearMonth>)
    ensures r.Some? ==> ValidYearMonth(r.value) && FormatYearMonth(r.value) == s
  {
    if |s| == 7 && s[4] == '-' && AllDigits(s[..4]) && AllDigits(s[5..]) then
      var ym := YearMonth(DecimalValue(s[..4]), DecimalValue(s[5..]));
      if ValidYearMonth(ym) then
        Pad4OfValue(s[..4]);
        Pad2OfValue(s[5..]);
        assert s == s[..4] + "-" + s[5..];
        Some(ym)
      else None
    else None
  }

  /** Every real date is accepted back from its own canonical text. */
  lemma ParseFormatDate(d: Date)
    requires ValidDate(d)
    ensures ParseDate(FormatDate(d)) == Some(d)
  {
    var s := FormatDate(d);
    assert s[..4] == Pad4(d.year) && s[5..7] == Pad2(d.month) && s[8..] == Pad2(d.day);
  }

  lemma ParseFormatYearMonth(ym: YearMonth)
    requires ValidYearMonth(ym)
    ensures ParseYearMonth(FormatYearMonth(ym)) == Some(ym)
  {
    var s := FormatYearMonth(ym);
    assert s[..4] == Pad4(ym.year) && s[5..] == Pad2(ym.month);
  }

  /**
   * is_valid_ym_format as written: the "%Y-%m" directive of strptime reads four
   * year digits and then a month of two digits ("01".."12") or of a single digit
   * ("1".."9"), so "2024-1" is accepted as January 2024.
   */
  function ParseYearMonthAsWritten(s: string): (r: Option<YearMonth>)
    ensures r.Some? ==> ValidYearMonth(r.value)
    ensures |s| != 6 ==> r == ParseYearMonth(s)
  {
    if |s| == 6 && s[4] == '-' && AllDigits(s[..4]) && '1' <= s[5] <= '9' then
      var ym := YearMonth(DecimalValue(s[..4]), DigitValue(s[5]));
      if ValidYearMonth(ym) then Some(ym) else None
    else ParseYearMonth(s)
  }

  /**
   * The six-character texts the as-written check accepts are exactly the canonical
   * texts with the month's leading zero dropped, and none of them is canonical.
   */
  lemma AsWrittenDropsMonthZero(s: string)
    requires |s| == 6
    ensures ParseYearMonthAsWritten(s) == ParseYearMonth(s[..5] + "0" + s[5..])
    ensures ParseYearMonth(s).None?
  {
    var t := s[..5] + "0" + s[5..];
    assert t[..4] == s[..4] && t[4] == s[4] && t[5..] == ['0', s[5]];
    if IsDigit(s[5]) {
      DecimalValueOfDigits2(t[5..]);
    }
  }

  // ---------------------------------------------------------------------------
  // Text order (the database's comparison of TEXT values)

  /** `a` sorts at or before `b` character by character; a proper prefix sorts first. */
  predicate TextLe(a: string, b: string)
    ensures a <= b ==> TextLe(a, b)
    decreases |a|
  {
    a == [] || (b != [] && (a[0] < b[0] || (a[0] == b[0] && TextLe(a[1..], b[1..]))))
  }

  lemma {:induction false} TextLeTotal(a: string, b: string)
    ensures TextLe(a, b) || TextLe(b, a)
    decreases |a|
  {
    if a != [] && b != [] && a[0] == b[0] {
      TextLeTotal(a[1..], b[1..]);
    }
  }

  lemma {:induction false} TextLeTransitive(a: string, b: string, c: string)
    requires TextLe(a, b) && TextLe(b, c)
    ensures TextLe(a, c)
    decreases |a|
  {
    if a != [] && a[0] == b[0] && b[0] == c[0] {
      TextLeTransitive(a[1..], b[1..], c[1..]);
    }
  }

  /** Comparing two texts that start with equal-length heads compares the heads first. */
  lemma {:induction false} TextLeConcat(p: string, q: string, s: string, t: string)
    requires |p| == |q|
    ensures TextLe(p + s, q + t) <==> (p == q && TextLe(s, t)) || (p != q && TextLe(p, q))
    decreases |p|
  {
    if p == [] {
      assert p + s == s && q + t == t;
    } else {
      assert (p + s)[0] == p[0] && (p + s)[1..] == p[1..] + s;
      assert (q + t)[0] == q[0] && (q + t)[1..] == q[1..] + t;
      if p[0] == q[0] {
        TextLeConcat(p[1..], q[1..], s, t);
        assert p == q <==> p[1..] == q[1..] by {
          if p[1..] == q[1..] { assert p == [p[0]] + p[1..] && q == [q[0]] + q[1..]; }
        }
      }
    }
  }

  /**
   * The database compares canonical date text; that comparison agrees with the
   * calendar order of the dates the text names.
   */
  lemma TextOrderIsDateOrder(a: Date, b: Date)
    requires ValidDate(a) && ValidDate(b)
    ensures TextLe(FormatDate(a), FormatDate(b)) <==> DateLe(a, b)
  {
    var ya, yb := Pad4(a.year), Pad4(b.year);
    var ma, mb := Pad2(a.month), Pad2(b.month);
    var da, db := Pad2(a.day), Pad2(b.day);
    assert FormatDate(a) == ya + ("-" + ma + "-" + da);
    assert FormatDate(b) == yb + ("-" + mb + "-" + db);
    TextLeConcat(ya, yb, "-" + ma + "-" + da, "-" + mb + "-" + db);
    assert "-" + ma + "-" + da == "-" + (ma + ("-" + da));
    assert "-" + mb + "-" + db == "-" + (mb + ("-" + db));
    TextLeConcat("-", "-", ma + ("-" + da), mb + ("-" + db));
    TextLeConcat(ma, mb, "-" + da, "-" + db);
    TextLeConcat("-", "-", da, db);
    TextLeIsValueOrder(ya, yb);
    TextLeIsValueOrder(ma, mb);
    TextLeIsValueOrder(da, db);
  }

  /**
   * The month query matches date text against the pattern "YYYY-MM%": a canonical
   * date has that prefix exactly when it falls in that calendar month.
   */
  lemma MonthPrefixIsSameMonth(ym: YearMonth, d: Date)
    requires ValidYearMonth(ym) && ValidDate(d)
    ensures FormatYearMonth(ym) <= FormatDate(d) <==> d.year == ym.year && d.month == ym.month
  {
    var p, s := FormatYearMonth(ym), FormatDate(d);
    if p <= s {
      assert p == s[..7];
      assert Pad4(ym.year) == p[..4] == s[..4] == Pad4(d.year);
      assert Pad2(ym.month) == p[5..] == s[5..7] == Pad2(d.month);
    }
    if d.year == ym.year && d.month == ym.month {
      assert s == p + ("-" + Pad2(d.day));
    }
  }

  // ---------------------------------------------------------------------------
  // Integers (Python's int() on the amount field)

  /** Decimal text of a natural number, without leading zeros. */
  function NatText(n: nat): (s: string)
    ensures s != [] && AllDigits(s)
  {
    if n < 10 then [DigitChar(n)] else NatText(n / 10) + [DigitChar(n % 10)]
  }

  /** Decimal text of an integer, with a leading '-' when negative. */
  function IntText(n: int): string {
    if n < 0 then "-" + NatText(-n) else NatText(n)
  }

  /**
   * int(): an optional sign followed by at least one decimal digit; None
   * (Python's ValueError) for anything else.
   */
  function ParseInt(s: string): (r: Option<int>)
    ensures r.Some? <==> (s != [] && AllDigits(s))
                         || (|s| >= 2 && (s[0] == '-' || s[0] == '+') && AllDigits(s[1..]))
    ensures r.Some? && s[0] == '-' ==> r.value <= 0
    ensures r.Some? && s[0] != '-' ==> r.value >= 0
  {
    if |s| >= 2 && s[0] == '-' && AllDigits(s[1..]) then Some(0 - DecimalValue(s[1..]) as int)
    else if |s| >= 2 && s[0] == '+' && AllDigits(s[1..]) then Some(DecimalValue(s[1..]))
    else if s != [] && AllDigits(s) then Some(DecimalValue(s))
    else None
  }

  lemma {:induction false} DecimalValueOfNatText(n: nat)
    ensures DecimalValue(NatText(n)) == n
  {
    var s := NatText(n);
    if n >= 10 {
      DecimalValueOfNatText(n / 10);
      assert s[..|s| - 1] == NatText(n / 10);
    } else {
      assert s[..0] == [];
    }
  }

  /** Every integer written in decimal is read back by int() as itself. */
  lemma ParseIntText(n: int)
    ensures ParseInt(IntText(n)) == Some(n)
  {
    if n < 0 {
      DecimalValueOfNatText(-n);
      assert IntText(n)[1..] == NatText(-n);
    } else {
      DecimalValueOfNatText(n);
    }
  }
}
