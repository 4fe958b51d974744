/**
  Calendar dates as the store uses them: Python `datetime` values at midnight,
  stored as zero-padded `YYYY-MM-DD` text and shown to people as `DD/MM/YYYY`.
  Day arithmetic (`+ timedelta(days=n)`) goes through the proleptic Gregorian
  ordinal, numbered as Python's `date.toordinal()` numbers it (0001-01-01 is 1).
 */
module Dates {
  import opened Wrappers
  import opened Text

  datatype Date = Date(year: int, month: int, day: int)

  const MinYear: int := 1
  const MaxYear: int := 9999

  predicate IsLeap(y: int) {
    y % 4 == 0 && (y % 100 != 0 || y % 400 == 0)
  }

  function DaysInMonth(y: int, m: int): int {
    if m == 2 then (if IsLeap(y) then 29 else 28)
    else if m == 4 || m == 6 || m == 9 || m == 11 then 30
    else 31
  }

  function YearLength(y: int): int {
    if IsLeap(y) then 366 else 365
  }

  /** A date Python's `datetime` can represent. */
  predicate ValidDate(d: Date) {
    && MinYear <= d.year <= MaxYear
    && 1 <= d.month <= 12
    && 1 <= d.day <= DaysInMonth(d.year, d.month)
  }

  /** Chronological order of dates. */
  predicate Before(a: Date, b: Date) {
    || a.year < b.year
    || (a.year == b.year && a.month < b.month)
    || (a.year == b.year && a.month == b.month && a.day < b.day)
  }

  function DaysBeforeYear(y: int): int {
    var p := y - 1;
    365 * p + p / 4 - p / 100 + p / 400
  }

  function DaysBeforeMonth(y: int, m: int): int {
    var common :=
      if m <= 1 then 0 else if m == 2 then 31 else if m == 3 then 59
      else if m == 4 then 90 else if m == 5 then 120 else if m == 6 then 151
      else if m == 7 then 181 else if m == 8 then 212 else if m == 9 then 243
      else if m == 10 then 273 else if m == 11 then 304 else 334;
    common + (if m > 2 && IsLeap(y) then 1 else 0)
  }

  /** Python's `date.toordinal()`. */
  function Ordinal(d: Date): int {
    DaysBeforeYear(d.year) + DaysBeforeMonth(d.year, d.month) + d.day
  }

  /** The day after `d`, or None past 9999-12-31 (where Python raises OverflowError). */
  function NextDay(d: Date): Option<Date> {
    if d.day < DaysInMonth(d.year, d.month) then Some(Date(d.year, d.month, d.day + 1))
    else if d.month < 12 then Some(Date(d.year, d.month + 1, 1))
    else if d.year < MaxYear then Some(Date(d.year + 1, 1, 1))
    else None
  }

  /** The day before `d`, or None before 0001-01-01. */
  function PrevDay(d: Date): Option<Date> {
    if d.day > 1 then Some(Date(d.year, d.month, d.day - 1))
    else if d.month > 1 then Some(Date(d.year, d.month - 1, DaysInMonth(d.year, d.month - 1)))
    else if d.year > MinYear then Some(Date(d.year - 1, 12, 31))
    else None
  }

  /** `d + timedelta(days=k)`; None when the result leaves Python's date range. */
  function AddDays(d: Date, k: int): Option<Date>
    decreases if k < 0 then -k else k
  {
    if k == 0 then Some(d)
    else if k > 0 then
      match NextDay(d)
      case None => None
      case Some(e) => AddDays(e, k - 1)
    else
      match PrevDay(d)
      case None => None
      case Some(e) => AddDays(e, k + 1)
  }

  // ---------------------------------------------------------------------------
  // Ordinal arithmetic

  lemma Quot4Step(p: int)
    ensures (p + 1) / 4 == p / 4 + (if (p + 1) % 4 == 0 then 1 else 0)
  {
  }

  lemma Quot100Step(p: int)
    ensures (p + 1) / 100 == p / 100 + (if (p + 1) % 100 == 0 then 1 else 0)
  {
  }

  lemma Quot400Step(p: int)
    ensures (p + 1) / 400 == p / 400 + (if (p + 1) % 400 == 0 then 1 else 0)
  {
  }

  /** Every century year is a multiple of 4, every multiple of 400 a century year. */
  lemma CenturyDivisors(y: int)
    ensures y % 100 == 0 ==> y % 4 == 0
    ensures y % 400 == 0 ==> y % 100 == 0
  {
    if y % 100 == 0 {
      assert y == 4 * (25 * (y / 100));
    }
    if y % 400 == 0 {
      assert y == 100 * (4 * (y / 400));
    }
  }

  /** Consecutive years are YearLength apart. */
  lemma DaysBeforeYearStep(y: int)
    requires y >= 1
    ensures DaysBeforeYear(y + 1) == DaysBeforeYear(y) + YearLength(y)
  {
    Quot4Step(y - 1);
    Quot100Step(y - 1);
    Quot400Step(y - 1);
    CenturyDivisors(y);
  }

  lemma {:induction false} DaysBeforeYearMonotone(y1: int, y2: int)
    requires 1 <= y1 <= y2
    ensures DaysBeforeYear(y1) + 365 * (y2 - y1) <= DaysBeforeYear(y2)
    decreases y2 - y1
  {
    if y1 < y2 {
      DaysBeforeYearMonotone(y1, y2 - 1);
      DaysBeforeYearStep(y2 - 1);
    }
  }

  /** Within a year the ordinal stays between the year's first and last day. */
  lemma OrdinalWithinYear(d: Date)
    requires ValidDate(d)
    ensures DaysBeforeYear(d.year) < Ordinal(d) <= DaysBeforeYear(d.year) + YearLength(d.year)
  {
  }

  /** `Before` is exactly "smaller ordinal": the ordinal numbers days in calendar order. */
  lemma OrdinalOrder(a: Date, b: Date)
    requires ValidDate(a) && ValidDate(b)
    ensures Before(a, b) <==> Ordinal(a) < Ordinal(b)
    ensures a == b <==> Ordinal(a) == Ordinal(b)
  {
    forall x: Date, y: Date | ValidDate(x) && ValidDate(y) && Before(x, y)
      ensures Ordinal(x) < Ordinal(y)
    {
      if x.year < y.year {
        OrdinalWithinYear(x);
        OrdinalWithinYear(y);
        DaysBeforeYearStep(x.year);
        DaysBeforeYearMonotone(x.year + 1, y.year);
      }
    }
  }

  const FirstDate: Date := Date(MinYear, 1, 1)
  const LastDate: Date := Date(MaxYear, 12, 31)
  const MaxOrdinal: int := 3652059

  /** Every representable date has an ordinal in 1 .. 3652059 (Python's date.max). */
  lemma OrdinalBounds(d: Date)
    requires ValidDate(d)
    ensures 1 <= Ordinal(d) <= MaxOrdinal
  {
    OrdinalWithinYear(d);
    DaysBeforeYearMonotone(MinYear, d.year);
    assert DaysBeforeYear(MinYear) == 0;
    DaysBeforeYearStep(d.year);
    if d.year < MaxYear {
      DaysBeforeYearMonotone(d.year + 1, MaxYear);
    }
    assert DaysBeforeYear(MaxYear) == 3651694;
  }

  lemma FirstOrdinal()
    ensures ValidDate(FirstDate) && Ordinal(FirstDate) == 1
  {
  }

  lemma LastOrdinal()
    ensures ValidDate(LastDate) && Ordinal(LastDate) == MaxOrdinal
  {
    assert DaysBeforeYear(MaxYear) == 3651694;
  }

  /** NextDay moves one ordinal forward, and only 9999-12-31 has no successor. */
  lemma NextDayOrdinal(d: Date)
    requires ValidDate(d)
    ensures NextDay(d).None? <==> d == LastDate
    ensures NextDay(d).Some? ==> ValidDate(NextDay(d).value) && Ordinal(NextDay(d).value) == Ordinal(d) + 1
  {
    if d.day == DaysInMonth(d.year, d.month) && d.month == 12 && d.year < MaxYear {
      DaysBeforeYearStep(d.year);
    }
  }

  /** PrevDay moves one ordinal back, and only 0001-01-01 has no predecessor. */
  lemma PrevDayOrdinal(d: Date)
    requires ValidDate(d)
    ensures PrevDay(d).None? <==> d == FirstDate
    ensures PrevDay(d).Some? ==> ValidDate(PrevDay(d).value) && Ordinal(PrevDay(d).value) == Ordinal(d) - 1
  {
    if d.day == 1 && d.month == 1 && d.year > MinYear {
      DaysBeforeYearStep(d.year - 1);
    }
  }

  /**
    `d + timedelta(days=k)` is defined exactly when the target ordinal is in
    Python's range, and then it is the date k days later.
   */
  lemma {:induction false} AddDaysOrdinal(d: Date, k: int)
    requires ValidDate(d)
    ensures AddDays(d, k).Some? <==> 1 <= Ordinal(d) + k <= MaxOrdinal
    ensures AddDays(d, k).Some? ==> ValidDate(AddDays(d, k).value) && Ordinal(AddDays(d, k).value) == Ordinal(d) + k
    decreases if k < 0 then -k else k
  {
    if k == 0 {
      OrdinalBounds(d);
    } else if k > 0 {
      NextDayOrdinal(d);
      if NextDay(d).Some? {
        AddDaysOrdinal(NextDay(d).value, k - 1);
      } else {
        LastOrdinal();
      }
    } else {
      PrevDayOrdinal(d);
      if PrevDay(d).Some? {
        AddDaysOrdinal(PrevDay(d).value, k + 1);
      } else {
        FirstOrdinal();
      }
    }
  }

  // ---------------------------------------------------------------------------
  // Text forms

  predicate IsDigit(c: char) {
    '0' <= c <= '9'
  }

  predicate AllDigits(s: string) {
    forall i :: 0 <= i < |s| ==> IsDigit(s[i])
  }

  function DigitChar(k: int): char
    requires 0 <= k < 10
  {
    (48 + k) as char
  }

  function Pow10(w: nat): nat {
    if w == 0 then 1 else 10 * Pow10(w - 1)
  }

  /** `n` written in decimal with exactly `w` digits, zero-padded on the left. */
  function Pad(n: nat, w: nat): (r: string)
    ensures |r| == w
  {
    if w == 0 then [] else Pad(n / 10, w - 1) + [DigitChar(n % 10)]
  }

  /** The number a string of decimal digits denotes. */
  function DigitsValue(s: string): nat
    requires AllDigits(s)
  {
    if s == [] then 0 else DigitsValue(s[..|s| - 1]) * 10 + (s[|s| - 1] as int - 48)
  }

  /** Reading back a padded number gives the number. */
  lemma {:induction false} PadValue(n: nat, w: nat)
    requires n < Pow10(w)
    ensures AllDigits(Pad(n, w)) && DigitsValue(Pad(n, w)) == n
  {
    if w > 0 {
      PadValue(n / 10, w - 1);
      var s := Pad(n, w);
      assert s[..|s| - 1] == Pad(n / 10, w - 1);
    }
  }

  /** Padding the value of a digit string gives the string back. */
  lemma {:induction false} DigitsPad(s: string)
    requires AllDigits(s)
    ensures DigitsValue(s) < Pow10(|s|) && Pad(DigitsValue(s), |s|) == s
  {
    if s != [] {
      var init := s[..|s| - 1];
      DigitsPad(init);
      var v := DigitsValue(s);
      assert v / 10 == DigitsValue(init) && v % 10 == s[|s| - 1] as int - 48;
      assert s == init + [s[|s| - 1]];
    }
  }

  /** Equal-width padded numbers compare as text exactly as they compare as numbers. */
  lemma {:induction false} PadOrder(n: nat, m: nat, w: nat)
    requires n < Pow10(w) && m < Pow10(w)
    ensures LexLess(Pad(n, w), Pad(m, w)) <==> n < m
  {
    if w > 0 {
      PadOrder(n / 10, m / 10, w - 1);
      LexConcat(Pad(n / 10, w - 1), [DigitChar(n % 10)], Pad(m / 10, w - 1), [DigitChar(m % 10)]);
      LexSingle(DigitChar(n % 10), DigitChar(m % 10));
      PadValue(n / 10, w - 1);
      PadValue(m / 10, w - 1);
    }
  }

  /** `strftime("%Y-%m-%d")`, the text form the store keeps. */
  function Format(d: Date): string
    requires ValidDate(d)
  {
    Pad(d.year, 4) + "-" + Pad(d.month, 2) + "-" + Pad(d.day, 2)
  }

  /** `strftime("%d/%m/%Y")`, the form shown to people. */
  function Display(d: Date): string
    requires ValidDate(d)
  {
    Pad(d.day, 2) + "/" + Pad(d.month, 2) + "/" + Pad(d.year, 4)
  }

  /** `strptime(s, "%Y-%m-%d")` on zero-padded input; None where Python raises ValueError. */
  function Parse(s: string): Option<Date> {
    if |s| == 10 && s[4] == '-' && s[7] == '-'
       && AllDigits(s[..4]) && AllDigits(s[5..7]) && AllDigits(s[8..])
    then
      var d := Date(DigitsValue(s[..4]), DigitsValue(s[5..7]), DigitsValue(s[8..]));
      if ValidDate(d) then Some(d) else None
    else None
  }

  /** Every valid date survives formatting and parsing. */
  lemma ParseFormat(d: Date)
    requires ValidDate(d)
    ensures Parse(Format(d)) == Some(d)
  {
    var y, m, dd := Pad(d.year, 4), Pad(d.month, 2), Pad(d.day, 2);
    var s := Format(d);
    assert s == y + "-" + m + "-" + dd;
    assert |s| == 10 && s[4] == '-' && s[7] == '-';
    assert s[..4] == y && s[5..7] == m && s[8..] == dd;
    PadValue(d.year, 4);
    PadValue(d.month, 2);
    PadValue(d.day, 2);
    assert Date(DigitsValue(y), DigitsValue(m), DigitsValue(dd)) == d;
  }

  /** Whatever parses is the canonical text of the date it parses to. */
  lemma FormatParse(s: string)
    requires Parse(s).Some?
    ensures ValidDate(Parse(s).value) && Format(Parse(s).value) == s
  {
    DigitsPad(s[..4]);
    DigitsPad(s[5..7]);
    DigitsPad(s[8..]);
    assert s == s[..4] + "-" + s[5..7] + "-" + s[8..];
  }

  /** Formatting is one-to-one. */
  lemma FormatInjective(a: Date, b: Date)
    requires ValidDate(a) && ValidDate(b)
    ensures Format(a) == Format(b) <==> a == b
  {
    ParseFormat(a);
    ParseFormat(b);
  }

  /**
    On the stored text form, Python's string `<` is chronological order:
    why comparing zero-padded `YYYY-MM-DD` strings is a date comparison.
   */
  lemma FormatOrder(a: Date, b: Date)
    requires ValidDate(a) && ValidDate(b)
    ensures LexLess(Format(a), Format(b)) <==> Before(a, b)
  {
    var ya, ma, da := Pad(a.year, 4), Pad(a.month, 2), Pad(a.day, 2);
    var yb, mb, db := Pad(b.year, 4), Pad(b.month, 2), Pad(b.day, 2);
    assert Format(a) == ya + ("-" + (ma + ("-" + da)));
    assert Format(b) == yb + ("-" + (mb + ("-" + db)));
    PadOrder(a.year, b.year, 4);
    PadOrder(a.month, b.month, 2);
    PadOrder(a.day, b.day, 2);
    PadValue(a.year, 4); PadValue(b.year, 4);
    PadValue(a.month, 2); PadValue(b.month, 2);
    LexConcat(ya, "-" + (ma + ("-" + da)), yb, "-" + (mb + ("-" + db)));
    LexConcat("-", ma + ("-" + da), "-", mb + ("-" + db));
    LexConcat(ma, "-" + da, mb, "-" + db);
    LexConcat("-", da, "-", db);
    LexTrichotomy("-", "-");
  }

  /** The inclusive text comparisons used by the purge are chronological too. */
  lemma FormatOrderInclusive(a: Date, b: Date)
    requires ValidDate(a) && ValidDate(b)
    ensures LexLe(Format(a), Format(b)) <==> !Before(b, a)
  {
    FormatOrder(a, b);
    FormatOrder(b, a);
    FormatInjective(a, b);
    LexTrichotomy(Format(a), Format(b));
    OrdinalOrder(a, b);
    OrdinalOrder(b, a);
  }

  /** Two days never look the same on screen. */
  lemma DisplayInjective(a: Date, b: Date)
    requires ValidDate(a) && ValidDate(b) && Display(a) == Display(b)
    ensures a == b
  {
    var s := Display(a);
    assert s[..2] == Pad(a.day, 2) == Pad(b.day, 2);
    assert s[3..5] == Pad(a.month, 2) == Pad(b.month, 2);
    assert s[6..] == Pad(a.year, 4) == Pad(b.year, 4);
    PadValue(a.day, 2); PadValue(b.day, 2);
    PadValue(a.month, 2); PadValue(b.month, 2);
    PadValue(a.year, 4); PadValue(b.year, 4);
  }
}
