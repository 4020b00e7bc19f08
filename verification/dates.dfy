/**
 * Dates of the daily photo store: `generate_dates` (app.py lines 21-24) on
 * day ordinals, and the `%Y-%m-%d` rendering of a calendar date that
 * `find_existing_for_date` and the upload page use (app.py lines 28, 80).
 */
module Dates {
  import opened Wrappers
  import opened Text
  import opened Naming

  /** `date.min.toordinal()` and `date.max.toordinal()` (1 January 1 and
      31 December 9999). */
  const MinOrdinal := 1
  const MaxOrdinal := 3652059

  /** A day, as its proleptic Gregorian ordinal. */
  type Ordinal = n: int | MinOrdinal <= n <= MaxOrdinal witness MinOrdinal

  /** `generate_dates(days)` with `date.today()` passed in as `today`:
      `[today + timedelta(days=i) for i in range(days + 1)]`. A negative
      `days` gives the empty range; passing `date.max` raises OverflowError,
      modelled as None. */
  method GenerateDates(today: Ordinal, days: int) returns (r: Option<seq<Ordinal>>)
    ensures r.None? <==> days >= 0 && today + days > MaxOrdinal
    ensures r.Some? ==> |r.value| == (if days >= 0 then days + 1 else 0)
    ensures r.Some? && |r.value| > 0 ==> r.value[0] == today
    ensures r.Some? ==> forall i :: 0 <= i < |r.value| ==> r.value[i] == today + i
    ensures r.Some? ==> forall i :: 0 < i < |r.value| ==> r.value[i] as int == r.value[i - 1] as int + 1
  {
    if days >= 0 && today + days > MaxOrdinal {
      return None;
    }
    var count := if days >= 0 then days + 1 else 0;
    var acc: seq<Ordinal> := [];
    var i := 0;
    while i < count
      invariant 0 <= i <= count
      invariant |acc| == i
      invariant forall j :: 0 <= j < i ==> acc[j] == today + j
      invariant forall j :: 0 < j < i ==> acc[j] as int == acc[j - 1] as int + 1
    {
      acc := acc + [today + i];
      i := i + 1;
    }
    return Some(acc);
  }

  /** A calendar date, as a Python `date` holds it. */
  datatype Date = Date(year: int, month: int, day: int)

  predicate IsLeapYear(y: int) {
    y % 4 == 0 && (y % 100 != 0 || y % 400 == 0)
  }

  function DaysInMonth(y: int, m: int): int
    requires 1 <= m <= 12
  {
    if m == 2 then (if IsLeapYear(y) then 29 else 28)
    else if m == 4 || m == 6 || m == 9 || m == 11 then 30
    else 31
  }

  /** The values a Python `date` can hold. */
  predicate ValidDate(d: Date) {
    1 <= d.year <= 9999 && 1 <= d.month <= 12 && 1 <= d.day <= DaysInMonth(d.year, d.month)
  }

  /** Dates whose `%Y` renders as four digits on every platform. */
  predicate Renderable(d: Date) {
    ValidDate(d) && d.year >= 1000
  }

  /** Chronological order on dates. */
  predicate DateLe(a: Date, b: Date) {
    a.year < b.year || (a.year == b.year && (a.month < b.month || (a.month == b.month && a.day <= b.day)))
  }

  function Pow10(n: nat): (p: nat)
    ensures p >= 1
  {
    if n == 0 then 1 else 10 * Pow10(n - 1)
  }

  function DigitChar(v: nat): (c: char)
    requires v < 10
    ensures IsDigit(c)
  {
    ('0' as int + v) as char
  }

  function DigitValue(c: char): (v: nat)
    requires IsDigit(c)
    ensures v < 10 && DigitChar(v) == c
  {
    c as int - '0' as int
  }

  /** The decimal value of a string of digits, most significant first. */
  function DecimalValue(s: string): (v: nat)
    requires forall i :: 0 <= i < |s| ==> IsDigit(s[i])
    ensures v < Pow10(|s|)
  {
    if |s| == 0 then 0
    else DecimalValue(s[..|s| - 1]) * 10 + DigitValue(s[|s| - 1])
  }

  /** `n` written with exactly `width` digits, zero padded. */
  function Digits(n: nat, width: nat): (r: string)
    requires n < Pow10(width)
    ensures |r| == width
    ensures forall i :: 0 <= i < width ==> IsDigit(r[i])
  {
    if width == 0 then ""
    else Digits(n / 10, width - 1) + [DigitChar(n % 10)]
  }

  lemma DigitCharValue(v: nat)
    requires v < 10
    ensures DigitValue(DigitChar(v)) == v
  {
  }

  /** Zero-padded digits read back as the number they were made from. */
  lemma {:induction false} DigitsRoundTrip(n: nat, width: nat)
    requires n < Pow10(width)
    ensures DecimalValue(Digits(n, width)) == n
  {
    if width > 0 {
      var r := Digits(n, width);
      assert r[..width - 1] == Digits(n / 10, width - 1);
      DigitsRoundTrip(n / 10, width - 1);
      DigitCharValue(n % 10);
    }
  }

  /** Comparing zero-padded numbers of one width as strings compares the numbers. */
  lemma {:induction false} DigitsOrder(x: nat, y: nat, width: nat)
    requires x < Pow10(width) && y < Pow10(width)
    ensures LexLe(Digits(x, width), Digits(y, width)) <==> x <= y
  {
    if width > 0 {
      var hx, hy := Digits(x / 10, width - 1), Digits(y / 10, width - 1);
      var cx, cy := [DigitChar(x % 10)], [DigitChar(y % 10)];
      LexLeConcat(hx, cx, hy, cy);
      DigitsOrder(x / 10, y / 10, width - 1);
      DigitsInjective(x / 10, y / 10, width - 1);
      DigitCharValue(x % 10);
      DigitCharValue(y % 10);
      assert LexLe(cx, cy) <==> x % 10 <= y % 10;
    }
  }

  lemma DigitsInjective(x: nat, y: nat, width: nat)
    requires x < Pow10(width) && y < Pow10(width)
    ensures Digits(x, width) == Digits(y, width) <==> x == y
  {
    if Digits(x, width) == Digits(y, width) {
      DigitsRoundTrip(x, width);
      DigitsRoundTrip(y, width);
    }
  }

  /** `d.strftime("%Y-%m-%d")`. */
  function FormatDate(d: Date): (s: string)
    requires Renderable(d)
    ensures IsDateSyntax(s)
  {
    Digits(d.year, 4) + "-" + Digits(d.month, 2) + "-" + Digits(d.day, 2)
  }

  /** The rendering is one-to-one: each date has its own text. */
  lemma FormatDateInjective(a: Date, b: Date)
    requires Renderable(a) && Renderable(b)
    requires FormatDate(a) == FormatDate(b)
    ensures a == b
  {
    var fa, fb := FormatDate(a), FormatDate(b);
    assert fa[..4] == Digits(a.year, 4) && fb[..4] == Digits(b.year, 4);
    assert fa[5..7] == Digits(a.month, 2) && fb[5..7] == Digits(b.month, 2);
    assert fa[8..] == Digits(a.day, 2) && fb[8..] == Digits(b.day, 2);
    DigitsInjective(a.year, b.year, 4);
    DigitsInjective(a.month, b.month, 2);
    DigitsInjective(a.day, b.day, 2);
  }

  /** Descending string order on rendered dates is reverse chronological
      order, which is why the gallery may sort its date keys as text. */
  lemma FormatDateOrder(a: Date, b: Date)
    requires Renderable(a) && Renderable(b)
    ensures LexLe(FormatDate(a), FormatDate(b)) <==> DateLe(a, b)
  {
    var ya, yb := Digits(a.year, 4), Digits(b.year, 4);
    var ma, mb := Digits(a.month, 2), Digits(b.month, 2);
    var da, db := Digits(a.day, 2), Digits(b.day, 2);
    DigitsOrder(a.year, b.year, 4);
    DigitsOrder(a.month, b.month, 2);
    DigitsOrder(a.day, b.day, 2);
    DigitsInjective(a.year, b.year, 4);
    DigitsInjective(a.month, b.month, 2);
    assert FormatDate(a) == ya + ("-" + ma + "-" + da);
    assert FormatDate(b) == yb + ("-" + mb + "-" + db);
    LexLeConcat(ya, "-" + ma + "-" + da, yb, "-" + mb + "-" + db);
    assert "-" + ma + "-" + da == "-" + ma + ("-" + da);
    assert "-" + mb + "-" + db == "-" + mb + ("-" + db);
    LexLeConcat("-" + ma, "-" + da, "-" + mb, "-" + db);
    LexLeConcat("-", ma, "-", mb);
    LexLeConcat("-", da, "-", db);
    assert ("-" + ma == "-" + mb) <==> ma == mb;
  }
}
