/**
 * Calendar dates as the system handles them: `datetime.strptime(s, '%Y%m%d')`
 * (which turns an expiration label into a date), `date.strftime('%Y%m%d')`
 * (which turns it back), date comparison, and the day count behind
 * `(expiry - today).days`.
 */
module Dates {
  import opened Types
  import opened Sorting

  datatype Date = Date(year: int, month: int, day: int)

  predicate IsLeap(y: int) {
    y % 4 == 0 && (y % 100 != 0 || y % 400 == 0)
  }

  function DaysInMonth(y: int, m: int): (n: int)
    requires 1 <= m <= 12
    ensures 28 <= n <= 31
    ensures n == 29 <==> m == 2 && IsLeap(y)
  {
    if m == 2 then (if IsLeap(y) then 29 else 28)
    else if m == 4 || m == 6 || m == 9 || m == 11 then 30
    else 31
  }

  function DaysInYear(y: int): int {
    if IsLeap(y) then 366 else 365
  }

  /** The dates `datetime.date` accepts: years 1 to 9999 and real calendar days. */
  predicate ValidDate(d: Date) {
    1 <= d.year <= 9999 && 1 <= d.month <= 12 && 1 <= d.day <= DaysInMonth(d.year, d.month)
  }

  /** `a < b` on dates: lexicographic on (year, month, day). */
  predicate Before(a: Date, b: Date) {
    a.year < b.year || (a.year == b.year && (a.month < b.month || (a.month == b.month && a.day < b.day)))
  }

  // ---------------------------------------------------------------------------
  // Day numbers (the proleptic Gregorian ordinal, 0001-01-01 is day 1)
  // ---------------------------------------------------------------------------

  function DaysBeforeYear(y: int): int
    requires y >= 1
  {
    var p := y - 1;
    p * 365 + p / 4 - p / 100 + p / 400
  }

  function DaysBeforeMonth(y: int, m: int): int
    requires 1 <= m <= 12
  {
    [0, 31, 59, 90, 120, 151, 181, 212, 243, 273, 304, 334][m - 1]
      + (if m > 2 && IsLeap(y) then 1 else 0)
  }

  function Ordinal(d: Date): int
    requires ValidDate(d)
  {
    DaysBeforeYear(d.year) + DaysBeforeMonth(d.year, d.month) + d.day
  }

  /** Whole days from `from` to `to`, as `(to - from).days`. */
  function DaysBetween(from: Date, to: Date): int
    requires ValidDate(from) && ValidDate(to)
  {
    Ordinal(to) - Ordinal(from)
  }

  lemma QuotientStep4(y: int)
    requires y >= 1
    ensures y / 4 - (y - 1) / 4 == if y % 4 == 0 then 1 else 0
  {
    var q, r := (y - 1) / 4, (y - 1) % 4;
    if r == 3 {
      assert y == 4 * (q + 1);
    } else {
      assert y == 4 * q + (r + 1);
    }
  }

  lemma QuotientStep100(y: int)
    requires y >= 1
    ensures y / 100 - (y - 1) / 100 == if y % 100 == 0 then 1 else 0
  {
    var q, r := (y - 1) / 100, (y - 1) % 100;
    if r == 99 {
      assert y == 100 * (q + 1);
    } else {
      assert y == 100 * q + (r + 1);
    }
  }

  lemma QuotientStep400(y: int)
    requires y >= 1
    ensures y / 400 - (y - 1) / 400 == if y % 400 == 0 then 1 else 0
  {
    var q, r := (y - 1) / 400, (y - 1) % 400;
    if r == 399 {
      assert y == 400 * (q + 1);
    } else {
      assert y == 400 * q + (r + 1);
    }
  }

  /** Every 400th year is a 100th year, and every 100th year a 4th year. */
  lemma DivisibilityChain(y: int)
    ensures y % 400 == 0 ==> y % 100 == 0
    ensures y % 100 == 0 ==> y % 4 == 0
  {
    if y % 400 == 0 {
      Every400thIs100th(y);
    }
    if y % 100 == 0 {
      Every100thIs4th(y);
    }
  }

  lemma Every400thIs100th(y: int)
    requires y % 400 == 0
    ensures y % 100 == 0
  {
    var k := y / 400;
    assert y == 400 * k;
    var m := 4 * k;
    assert y == 100 * m;
  }

  lemma Every100thIs4th(y: int)
    requires y % 100 == 0
    ensures y % 4 == 0
  {
    var k := y / 100;
    assert y == 100 * k;
    var m := 25 * k;
    assert y == 4 * m;
  }

  /** A year holds DaysInYear(y) days: consecutive year starts differ by it. */
  lemma YearStep(y: int)
    requires y >= 1
    ensures DaysBeforeYear(y + 1) == DaysBeforeYear(y) + DaysInYear(y)
  {
    QuotientStep4(y);
    QuotientStep100(y);
    QuotientStep400(y);
    DivisibilityChain(y);
    var p := y - 1;
    assert DaysBeforeYear(y + 1) == y * 365 + y / 4 - y / 100 + y / 400;
    assert DaysBeforeYear(y) == p * 365 + p / 4 - p / 100 + p / 400;
    assert y * 365 == p * 365 + 365;
  }

  lemma {:induction false} YearStartsIncrease(a: int, b: int)
    requires 1 <= a < b
    ensures DaysBeforeYear(a) + DaysInYear(a) <= DaysBeforeYear(b)
    decreases b - a
  {
    YearStep(a);
    if b > a + 1 {
      YearStartsIncrease(a + 1, b);
    }
  }

  lemma MonthStep(y: int, m: int)
    requires 1 <= m <= 12
    ensures m < 12 ==> DaysBeforeMonth(y, m) + DaysInMonth(y, m) == DaysBeforeMonth(y, m + 1)
    ensures m == 12 ==> DaysBeforeMonth(y, m) + DaysInMonth(y, m) == DaysInYear(y)
  {
  }

  lemma {:induction false} MonthStartsIncrease(y: int, a: int, b: int)
    requires 1 <= a < b <= 12
    ensures DaysBeforeMonth(y, a) + DaysInMonth(y, a) <= DaysBeforeMonth(y, b)
    decreases b - a
  {
    MonthStep(y, a);
    if b > a + 1 {
      MonthStartsIncrease(y, a + 1, b);
    }
  }

  lemma DayWithinYear(d: Date)
    requires ValidDate(d)
    ensures DaysBeforeYear(d.year) < Ordinal(d) <= DaysBeforeYear(d.year) + DaysInYear(d.year)
  {
    MonthStep(d.year, d.month);
    if d.month < 12 {
      MonthStartsIncrease(d.year, d.month, 12);
      MonthStep(d.year, 12);
    }
  }

  /** Date order and day-number order agree, so `(b - a).days > 0` exactly when `a < b`. */
  lemma OrdinalOrder(a: Date, b: Date)
    requires ValidDate(a) && ValidDate(b)
    ensures Before(a, b) <==> Ordinal(a) < Ordinal(b)
    ensures a == b <==> Ordinal(a) == Ordinal(b)
  {
    DayWithinYear(a);
    DayWithinYear(b);
    if a.year < b.year {
      YearStartsIncrease(a.year, b.year);
    } else if b.year < a.year {
      YearStartsIncrease(b.year, a.year);
    } else if a.month < b.month {
      MonthStartsIncrease(a.year, a.month, b.month);
    } else if b.month < a.month {
      MonthStartsIncrease(a.year, b.month, a.month);
    }
  }

  // ---------------------------------------------------------------------------
  // strptime(s, '%Y%m%d')
  // ---------------------------------------------------------------------------

  predicate IsDigit(c: char) {
    '0' <= c <= '9'
  }

  function DigitValue(c: char): (v: int)
    requires IsDigit(c)
    ensures 0 <= v <= 9
  {
    c as int - '0' as int
  }

  function DigitChar(v: int): (c: char)
    requires 0 <= v <= 9
    ensures IsDigit(c) && DigitValue(c) == v
  {
    ('0' as int + v) as char
  }

  /** What one group of the pattern matched: the number it denotes and the position after it. */
  datatype Piece = Piece(value: int, end: nat)

  const MonthAlternatives: nat := 3
  const DayAlternatives: nat := 5

  /** Alternative `alt` of the month group `1[0-2]|0[1-9]|[1-9]`, tried at `pos`. */
  function MonthAlternative(s: string, pos: nat, alt: nat): (r: Option<Piece>)
    ensures r.Some? ==> pos < r.value.end <= |s| && 1 <= r.value.value <= 12
  {
    if alt == 0 then
      if pos + 1 < |s| && s[pos] == '1' && '0' <= s[pos + 1] <= '2'
      then Some(Piece(10 + DigitValue(s[pos + 1]), pos + 2)) else None
    else if alt == 1 then
      if pos + 1 < |s| && s[pos] == '0' && '1' <= s[pos + 1] <= '9'
      then Some(Piece(DigitValue(s[pos + 1]), pos + 2)) else None
    else
      if pos < |s| && '1' <= s[pos] <= '9'
      then Some(Piece(DigitValue(s[pos]), pos + 1)) else None
  }

  /** Alternative `alt` of the day group `3[01]|[12]\d|0[1-9]|[1-9]| [1-9]`, tried at `pos`. */
  function DayAlternative(s: string, pos: nat, alt: nat): (r: Option<Piece>)
    ensures r.Some? ==> pos < r.value.end <= |s| && 1 <= r.value.value <= 31
  {
    if alt == 0 then
      if pos + 1 < |s| && s[pos] == '3' && '0' <= s[pos + 1] <= '1'
      then Some(Piece(30 + DigitValue(s[pos + 1]), pos + 2)) else None
    else if alt == 1 then
      if pos + 1 < |s| && '1' <= s[pos] <= '2' && IsDigit(s[pos + 1])
      then Some(Piece(10 * DigitValue(s[pos]) + DigitValue(s[pos + 1]), pos + 2)) else None
    else if alt == 2 then
      if pos + 1 < |s| && s[pos] == '0' && '1' <= s[pos + 1] <= '9'
      then Some(Piece(DigitValue(s[pos + 1]), pos + 2)) else None
    else if alt == 3 then
      if pos < |s| && '1' <= s[pos] <= '9'
      then Some(Piece(DigitValue(s[pos]), pos + 1)) else None
    else
      if pos + 1 < |s| && s[pos] == ' ' && '1' <= s[pos + 1] <= '9'
      then Some(Piece(DigitValue(s[pos + 1]), pos + 2)) else None
  }

  /** The first day alternative, from `alt` on, that matches at `pos`. */
  function MatchDay(s: string, pos: nat, alt: nat): (r: Option<Piece>)
    ensures r.Some? ==> pos < r.value.end <= |s| && 1 <= r.value.value <= 31
    decreases DayAlternatives - alt
  {
    if alt >= DayAlternatives then None
    else match DayAlternative(s, pos, alt)
      case Some(p) => Some(p)
      case None => MatchDay(s, pos, alt + 1)
  }

  /**
   * The regular-expression engine's search after the four year digits: month
   * alternatives in order and, for each, the day alternatives in order; the
   * first combination that matches wins, wherever it ends.
   */
  function MatchMonthDay(s: string, alt: nat): (r: Option<(int, Piece)>)
    requires |s| >= 4
    ensures r.Some? ==> 1 <= r.value.0 <= 12 && 1 <= r.value.1.value <= 31 && r.value.1.end <= |s|
    decreases MonthAlternatives - alt
  {
    if alt >= MonthAlternatives then None
    else match MonthAlternative(s, 4, alt)
      case None => MatchMonthDay(s, alt + 1)
      case Some(m) =>
        match MatchDay(s, m.end, 0)
        case Some(d) => Some((m.value, d))
        case None => MatchMonthDay(s, alt + 1)
  }

  predicate YearDigits(s: string) {
    |s| >= 4 && IsDigit(s[0]) && IsDigit(s[1]) && IsDigit(s[2]) && IsDigit(s[3])
  }

  function YearValue(s: string): int
    requires YearDigits(s)
  {
    1000 * DigitValue(s[0]) + 100 * DigitValue(s[1]) + 10 * DigitValue(s[2]) + DigitValue(s[3])
  }

  /**
   * `datetime.strptime(s, '%Y%m%d').date()`, with `None` for the ValueError it
   * raises when the text does not match, when text is left over after the
   * match, or when the matched numbers are not a calendar date.
   */
  function ParseYmd(s: string): (r: Option<Date>)
    ensures r.Some? ==> ValidDate(r.value)
  {
    if !YearDigits(s) then None
    else match MatchMonthDay(s, 0)
      case None => None
      case Some((m, d)) =>
        if d.end != |s| then None
        else
          var date := Date(YearValue(s), m, d.value);
          if ValidDate(date) then Some(date) else None
  }

  // ---------------------------------------------------------------------------
  // strftime('%Y%m%d')
  // ---------------------------------------------------------------------------

  function Pad2(n: int): (s: string)
    requires 0 <= n <= 99
    ensures |s| == 2 && IsDigit(s[0]) && IsDigit(s[1])
    ensures 10 * DigitValue(s[0]) + DigitValue(s[1]) == n
  {
    [DigitChar(n / 10), DigitChar(n % 10)]
  }

  function Pad4(n: int): (s: string)
    requires 0 <= n <= 9999
    ensures |s| == 4 && YearDigits(s) && YearValue(s) == n
  {
    var a, b, c := n / 1000, n / 100, n / 10;
    assert b % 10 == b - 10 * a && c % 10 == c - 10 * b && n % 10 == n - 10 * c;
    [DigitChar(a), DigitChar(b % 10), DigitChar(c % 10), DigitChar(n % 10)]
  }

  /** `d.strftime('%Y%m%d')`: year, month and day zero-padded to 4, 2 and 2 digits. */
  function FormatYmd(d: Date): (s: string)
    requires ValidDate(d)
    ensures |s| == 8
  {
    Pad4(d.year) + Pad2(d.month) + Pad2(d.day)
  }

  /** Parsing what strftime wrote gives the date back. */
  lemma ParseFormat(d: Date)
    requires ValidDate(d)
    ensures ParseYmd(FormatYmd(d)) == Some(d)
  {
    var s := FormatYmd(d);
    assert s[..4] == Pad4(d.year);
    assert s[4..6] == Pad2(d.month) && s[6..] == Pad2(d.day);
    assert YearDigits(s) && YearValue(s) == d.year;
    var m := MonthAlternative(s, 4, 0);
    if d.month >= 10 {
      assert m == Some(Piece(d.month, 6));
    } else {
      assert m == None;
      assert MonthAlternative(s, 4, 1) == Some(Piece(d.month, 6));
      assert MatchMonthDay(s, 0) == MatchMonthDay(s, 1);
    }
    if d.day >= 30 {
      assert MatchDay(s, 6, 0) == Some(Piece(d.day, 8));
    } else if d.day >= 10 {
      assert DayAlternative(s, 6, 0) == None;
      assert DayAlternative(s, 6, 1) == Some(Piece(d.day, 8));
    } else {
      assert DayAlternative(s, 6, 0) == None;
      assert DayAlternative(s, 6, 1) == None;
      assert DayAlternative(s, 6, 2) == Some(Piece(d.day, 8));
    }
    assert MatchDay(s, 6, 0) == Some(Piece(d.day, 8));
  }

  /** strftime never writes the same label for two different dates. */
  lemma FormatInjective(a: Date, b: Date)
    requires ValidDate(a) && ValidDate(b) && FormatYmd(a) == FormatYmd(b)
    ensures a == b
  {
    ParseFormat(a);
    ParseFormat(b);
  }

  /** The pattern is lenient: a one-digit month is accepted, "2025130" reads as 30 January 2025. */
  lemma ParseAcceptsShortMonth()
    ensures ParseYmd("2025130") == Some(Date(2025, 1, 30))
  {
    var s := "2025130";
    assert MonthAlternative(s, 4, 0) == None;
    assert MonthAlternative(s, 4, 1) == None;
    assert MonthAlternative(s, 4, 2) == Some(Piece(1, 5));
    assert DayAlternative(s, 5, 0) == Some(Piece(30, 7));
  }

  // ---------------------------------------------------------------------------
  // Label order
  // ---------------------------------------------------------------------------

  /** Two zero-padded two-digit labels compare as strings as their numbers do. */
  lemma Pad2Order(a: int, b: int)
    requires 0 <= a <= 99 && 0 <= b <= 99
    ensures LexLess(Pad2(a), Pad2(b)) <==> a < b
  {
    var s, t := Pad2(a), Pad2(b);
    assert s[1..][1..] == [] && t[1..][1..] == [];
    assert LexLess(s[1..], t[1..]) <==> a % 10 < b % 10;
    assert LexLess(s, t) <==> a / 10 < b / 10 || (a / 10 == b / 10 && a % 10 < b % 10);
  }

  /** A four-digit label is its two leading digits followed by its two trailing digits. */
  lemma Pad4Split(n: int)
    requires 0 <= n <= 9999
    ensures Pad4(n) == Pad2(n / 100) + Pad2(n % 100)
  {
    var q, r := n / 100, n % 100;
    HundredsDigits(n, q, r);
    assert Pad4(n) == [DigitChar(q / 10), DigitChar(q % 10), DigitChar(r / 10), DigitChar(r % 10)];
  }

  /** The four decimal digits of n, read off its hundreds q and its remainder r. */
  lemma HundredsDigits(n: int, q: int, r: int)
    requires 0 <= n <= 9999 && q == n / 100 && r == n % 100
    ensures n / 1000 == q / 10 && (n / 100) % 10 == q % 10
    ensures (n / 10) % 10 == r / 10 && n % 10 == r % 10
  {
    assert n == 100 * q + r && 0 <= r < 100;
  }

  /** Two zero-padded four-digit labels compare as strings as their numbers do. */
  lemma Pad4Order(a: int, b: int)
    requires 0 <= a <= 9999 && 0 <= b <= 9999
    ensures LexLess(Pad4(a), Pad4(b)) <==> a < b
  {
    Pad4Split(a);
    Pad4Split(b);
    LexConcat(Pad2(a / 100), Pad2(a % 100), Pad2(b / 100), Pad2(b % 100));
    Pad2Order(a / 100, b / 100);
    Pad2Order(a % 100, b % 100);
    if Pad2(a / 100) == Pad2(b / 100) {
      assert a / 100 == b / 100;
    }
    HundredsOrder(a, b, a / 100, a % 100, b / 100, b % 100);
  }

  /** Numbers below 10000 compare as their hundreds do, then as their remainders. */
  lemma HundredsOrder(a: int, b: int, qa: int, ra: int, qb: int, rb: int)
    requires 0 <= a && 0 <= b
    requires qa == a / 100 && ra == a % 100 && qb == b / 100 && rb == b % 100
    ensures a < b <==> qa < qb || (qa == qb && ra < rb)
  {
    assert a == 100 * qa + ra && b == 100 * qb + rb;
  }

  /**
   * The labels strftime writes sort as strings exactly as their dates sort,
   * so sorting expiration labels sorts the expirations.
   */
  lemma LabelOrder(a: Date, b: Date)
    requires ValidDate(a) && ValidDate(b)
    ensures LexLess(FormatYmd(a), FormatYmd(b)) <==> Before(a, b)
  {
    var ya, yb := Pad4(a.year), Pad4(b.year);
    LexConcat(ya + Pad2(a.month), Pad2(a.day), yb + Pad2(b.month), Pad2(b.day));
    LexConcat(ya, Pad2(a.month), yb, Pad2(b.month));
    Pad4Order(a.year, b.year);
    Pad2Order(a.month, b.month);
    Pad2Order(a.day, b.day);
    if ya + Pad2(a.month) == yb + Pad2(b.month) {
      assert ya == (ya + Pad2(a.month))[..4] && yb == (yb + Pad2(b.month))[..4];
      assert Pad2(a.month) == (ya + Pad2(a.month))[4..];
      assert Pad2(b.month) == (yb + Pad2(b.month))[4..];
    }
    if ya == yb {
      assert a.year == b.year;
    }
  }
}
