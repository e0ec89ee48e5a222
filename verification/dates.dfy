/**
 * Calendar dates as the events pages read and print them: the strict
 * `%Y-%m-%d` parse (with calendar validity), the long `%B %d, %Y` display
 * form, and the order relations the sorts rely on.
 */
module Dates {
  import opened Wrappers

  datatype Date = Date(year: int, month: int, day: int)

  // ---------------------------------------------------------------------
  // Decimal digits
  // ---------------------------------------------------------------------

  predicate IsDigit(c: char) {
    '0' <= c <= '9'
  }

  function DigitValue(c: char): nat
    requires IsDigit(c)
  {
    (c as int) - ('0' as int)
  }

  function DigitChar(n: int): (c: char)
    requires 0 <= n <= 9
    ensures IsDigit(c) && DigitValue(c) == n
  {
    (('0' as int) + n) as char
  }

  predicate AllDigits(s: string) {
    forall i :: 0 <= i < |s| ==> IsDigit(s[i])
  }

  /** The number a string of decimal digits denotes (most significant first). */
  function Decimal(s: string): nat
    requires AllDigits(s)
  {
    if s == [] then 0 else 10 * Decimal(s[..|s| - 1]) + DigitValue(s[|s| - 1])
  }

  /** `n` as exactly two zero-padded digits. */
  function Pad2(n: int): (s: string)
    requires 0 <= n <= 99
    ensures |s| == 2 && AllDigits(s) && Decimal(s) == n
  {
    var s := [DigitChar(n / 10), DigitChar(n % 10)];
    assert s[..1] == [s[0]];
    assert Decimal(s[..1]) == n / 10;
    s
  }

  /** `n` as exactly four zero-padded digits. */
  function Pad4(n: int): (s: string)
    requires 0 <= n <= 9999
    ensures |s| == 4 && AllDigits(s) && Decimal(s) == n
  {
    var hi := Pad2(n / 100);
    var lo := Pad2(n % 100);
    DecimalOfFour(hi + lo);
    assert (hi + lo)[..2] == hi && (hi + lo)[2..] == lo;
    hi + lo
  }

  /** A four-digit string is its first two digits times 100 plus its last two. */
  lemma DecimalOfFour(s: string)
    requires |s| == 4 && AllDigits(s)
    ensures Decimal(s) == 100 * Decimal(s[..2]) + Decimal(s[2..])
  {
    assert s[..3][..2] == s[..2];
    assert Decimal(s) == 10 * Decimal(s[..3]) + DigitValue(s[3]);
    assert Decimal(s[..3]) == 10 * Decimal(s[..2]) + DigitValue(s[2]);
    var t := s[2..];
    assert t[..1] == [s[2]] && t[1] == s[3];
    assert [s[2]][..0] == [];
    assert Decimal([s[2]]) == DigitValue(s[2]);
    assert Decimal(t) == 10 * DigitValue(s[2]) + DigitValue(s[3]);
  }

  /** Two-digit strings are exactly the zero-padded rendering of their value. */
  lemma Pad2OfDecimal(s: string)
    requires |s| == 2 && AllDigits(s)
    ensures Decimal(s) <= 99 && Pad2(Decimal(s)) == s
  {
    assert s[..1][..0] == [];
    assert Decimal(s[..1]) == DigitValue(s[0]);
    assert Decimal(s) == 10 * DigitValue(s[0]) + DigitValue(s[1]);
    var p := Pad2(Decimal(s));
    assert p[0] == s[0];
    assert p[1] == s[1];
  }

  /** Four-digit strings are exactly the zero-padded rendering of their value. */
  lemma Pad4OfDecimal(s: string)
    requires |s| == 4 && AllDigits(s)
    ensures Decimal(s) <= 9999 && Pad4(Decimal(s)) == s
  {
    DecimalOfFour(s);
    Pad2OfDecimal(s[..2]);
    Pad2OfDecimal(s[2..]);
    var n := Decimal(s);
    assert n / 100 == Decimal(s[..2]) && n % 100 == Decimal(s[2..]);
    assert s == s[..2] + s[2..];
  }

  // ---------------------------------------------------------------------
  // The proleptic Gregorian calendar
  // ---------------------------------------------------------------------

  predicate IsLeapYear(y: int) {
    y % 4 == 0 && (y % 100 != 0 || y % 400 == 0)
  }

  function DaysInMonth(y: int, m: int): int
    requires 1 <= m <= 12
  {
    if m == 2 then (if IsLeapYear(y) then 29 else 28)
    else if m == 4 || m == 6 || m == 9 || m == 11 then 30
    else 31
  }

  /** The dates Python's `date` type can hold (years 1 to 9999). */
  predicate ValidDate(d: Date) {
    && 1 <= d.year <= 9999
    && 1 <= d.month <= 12
    && 1 <= d.day <= DaysInMonth(d.year, d.month)
  }

  // ---------------------------------------------------------------------
  // Parsing `%Y-%m-%d`
  // ---------------------------------------------------------------------

  /** The month directive `%m`: `1[0-2]`, `0[1-9]` or a single `[1-9]`. */
  predicate MonthField(m: string) {
    || (|m| == 1 && '1' <= m[0] <= '9')
    || (|m| == 2 && m[0] == '0' && '1' <= m[1] <= '9')
    || (|m| == 2 && m[0] == '1' && '0' <= m[1] <= '2')
  }

  /** The day directive `%d`: `3[01]`, `[12]` and a digit, `0[1-9]`, `[1-9]`, or a space and `[1-9]`. */
  predicate DayField(d: string) {
    || (|d| == 1 && '1' <= d[0] <= '9')
    || (|d| == 2 && d[0] == ' ' && '1' <= d[1] <= '9')
    || (|d| == 2 && d[0] == '0' && '1' <= d[1] <= '9')
    || (|d| == 2 && (d[0] == '1' || d[0] == '2') && IsDigit(d[1]))
    || (|d| == 2 && d[0] == '3' && (d[1] == '0' || d[1] == '1'))
  }

  /** The number a month or day field denotes (a leading space is padding). */
  function FieldValue(f: string): nat
    requires MonthField(f) || DayField(f)
  {
    if f[0] == ' ' then DigitValue(f[1]) else Decimal(f)
  }

  datatype Fields = Fields(year: string, month: string, day: string)

  /**
   * Cuts a string where the pattern `%Y-%m-%d` cuts it: four characters of
   * year, a hyphen, a month of one or two characters up to the next hyphen,
   * and everything after that as the day (the whole input must be consumed).
   */
  function SplitDate(s: string): (r: Option<Fields>)
    ensures r.Some? ==> s == r.value.year + "-" + r.value.month + "-" + r.value.day
    ensures r.Some? ==> |r.value.year| == 4 && 1 <= |r.value.month| <= 2
  {
    if |s| < 7 || s[4] != '-' then None
    else if s[6] == '-' then
      assert s == s[..4] + "-" + s[5..6] + "-" + s[7..];
      Some(Fields(s[..4], s[5..6], s[7..]))
    else if |s| >= 8 && s[7] == '-' then
      assert s == s[..4] + "-" + s[5..7] + "-" + s[8..];
      Some(Fields(s[..4], s[5..7], s[8..]))
    else None
  }

  /**
   * `datetime.strptime(s, "%Y-%m-%d")`: `None` stands for the `ValueError`
   * it raises on a string that does not match or on a date the calendar
   * does not have.
   */
  function ParseDate(s: string): (r: Option<Date>)
    ensures r.Some? ==> ValidDate(r.value)
  {
    match SplitDate(s)
    case None => None
    case Some(f) =>
      if AllDigits(f.year) && MonthField(f.month) && DayField(f.day) then
        var d := Date(Decimal(f.year), FieldValue(f.month), FieldValue(f.day));
        if ValidDate(d) then Some(d) else None
      else None
  }

  /** The zero-padded `YYYY-MM-DD` shape the data file uses. */
  predicate IsoShaped(s: string) {
    && |s| == 10
    && AllDigits(s[..4]) && s[4] == '-'
    && AllDigits(s[5..7]) && s[7] == '-'
    && AllDigits(s[8..])
  }

  /** The date an `IsoShaped` string spells, before any calendar check. */
  function IsoFields(s: string): Date
    requires IsoShaped(s)
  {
    Date(Decimal(s[..4]), Decimal(s[5..7]), Decimal(s[8..]))
  }

  function IsoDate(d: Date): (s: string)
    requires ValidDate(d)
  {
    Pad4(d.year) + "-" + Pad2(d.month) + "-" + Pad2(d.day)
  }

  /** On the zero-padded shape the parse succeeds exactly on real calendar dates. */
  lemma IsoParse(s: string)
    requires IsoShaped(s)
    ensures ParseDate(s) == (if ValidDate(IsoFields(s)) then Some(IsoFields(s)) else None)
  {
    assert s[6] == s[5..7][1];
    assert IsDigit(s[6]);
    var m, d := s[5..7], s[8..];
    Pad2OfDecimal(m);
    Pad2OfDecimal(d);
    assert m[..1][..0] == [] && d[..1][..0] == [];
    assert Decimal(m) == 10 * DigitValue(m[0]) + DigitValue(m[1]);
    assert Decimal(d) == 10 * DigitValue(d[0]) + DigitValue(d[1]);
    assert 1 <= Decimal(m) <= 12 ==> MonthField(m);
    assert 1 <= Decimal(d) <= 31 ==> DayField(d);
    assert MonthField(m) ==> FieldValue(m) == Decimal(m);
    assert DayField(d) ==> FieldValue(d) == Decimal(d);
  }

  /** Every calendar date survives printing as `YYYY-MM-DD` and parsing back. */
  lemma ParseIsoDate(d: Date)
    requires ValidDate(d)
    ensures IsoShaped(IsoDate(d))
    ensures ParseDate(IsoDate(d)) == Some(d)
  {
    var y, m, dd := Pad4(d.year), Pad2(d.month), Pad2(d.day);
    var s := IsoDate(d);
    assert s[..4] == y && s[5..7] == m && s[8..] == dd;
    assert IsoFields(s) == d;
    IsoParse(s);
  }

  /** A zero-padded date string is the canonical rendering of what it parses to. */
  lemma IsoDateOfParse(s: string)
    requires IsoShaped(s) && ParseDate(s).Some?
    ensures IsoDate(ParseDate(s).value) == s
  {
    IsoParse(s);
    Pad4OfDecimal(s[..4]);
    Pad2OfDecimal(s[5..7]);
    Pad2OfDecimal(s[8..]);
    assert s == s[..4] + "-" + s[5..7] + "-" + s[8..];
  }

  /** The spellings `%m` accepts for month `n`: two digits, or a single digit below 10. */
  predicate MonthSpelling(n: int, m: string)
    requires 1 <= n <= 12
  {
    m == Pad2(n) || (n < 10 && m == [DigitChar(n)])
  }

  /**
   * The spellings `%d` accepts for day `n`: two digits, or below 10 a single
   * digit on its own or after a space.
   */
  predicate DaySpelling(n: int, d: string)
    requires 1 <= n <= 31
  {
    d == Pad2(n) || (n < 10 && (d == [DigitChar(n)] || d == [' ', DigitChar(n)]))
  }

  lemma SingleDigit(c: char)
    requires IsDigit(c)
    ensures AllDigits([c]) && Decimal([c]) == DigitValue(c)
    ensures DigitChar(DigitValue(c)) == c
  {
    assert [c][..0] == [];
  }

  /** Every spelling of a month number is a month field denoting it. */
  lemma MonthSpellingField(n: int, m: string)
    requires 1 <= n <= 12 && MonthSpelling(n, m)
    ensures MonthField(m) && FieldValue(m) == n
  {
    if m != Pad2(n) {
      SingleDigit(DigitChar(n));
    } else {
      Pad2OfDecimal(m);
      assert Decimal(m) == 10 * DigitValue(m[0]) + DigitValue(m[1]) by {
        assert m[..1][..0] == [];
        assert Decimal(m[..1]) == DigitValue(m[0]);
      }
    }
  }

  /** Every spelling of a day number is a day field denoting it. */
  lemma DaySpellingField(n: int, d: string)
    requires 1 <= n <= 31 && DaySpelling(n, d)
    ensures DayField(d) && FieldValue(d) == n
  {
    if d == Pad2(n) {
      assert Decimal(d) == 10 * DigitValue(d[0]) + DigitValue(d[1]) by {
        assert d[..1][..0] == [];
        assert Decimal(d[..1]) == DigitValue(d[0]);
      }
    } else {
      SingleDigit(DigitChar(n));
    }
  }

  /** Every month field is a spelling of the month it denotes. */
  lemma MonthFieldSpelling(m: string)
    requires MonthField(m)
    ensures 1 <= FieldValue(m) <= 12 && MonthSpelling(FieldValue(m), m)
  {
    if |m| == 1 {
      SingleDigit(m[0]);
      assert m == [m[0]];
    } else {
      Pad2OfDecimal(m);
      assert Decimal(m) == 10 * DigitValue(m[0]) + DigitValue(m[1]) by {
        assert m[..1][..0] == [];
        assert Decimal(m[..1]) == DigitValue(m[0]);
      }
    }
  }

  /** Every day field is a spelling of the day it denotes. */
  lemma DayFieldSpelling(d: string)
    requires DayField(d)
    ensures 1 <= FieldValue(d) <= 31 && DaySpelling(FieldValue(d), d)
  {
    if |d| == 1 {
      SingleDigit(d[0]);
      assert d == [d[0]];
    } else if d[0] == ' ' {
      SingleDigit(d[1]);
      assert d == [' ', d[1]];
    } else {
      Pad2OfDecimal(d);
      assert Decimal(d) == 10 * DigitValue(d[0]) + DigitValue(d[1]) by {
        assert d[..1][..0] == [];
        assert Decimal(d[..1]) == DigitValue(d[0]);
      }
    }
  }

  /**
   * Every calendar date parses from each spelling the pattern allows: a
   * four-digit year, then a month and a day in any accepted spelling.
   */
  lemma ParseLenientDate(d: Date, m: string, dd: string)
    requires ValidDate(d) && MonthSpelling(d.month, m) && DaySpelling(d.day, dd)
    ensures ParseDate(Pad4(d.year) + "-" + m + "-" + dd) == Some(d)
  {
    var y := Pad4(d.year);
    var s := y + "-" + m + "-" + dd;
    MonthSpellingField(d.month, m);
    DaySpellingField(d.day, dd);
    Pad4OfDecimal(y);
    assert s[4] == '-';
    if |m| == 1 {
      assert s[6] == '-';
      assert s[..4] == y && s[5..6] == m && s[7..] == dd;
    } else {
      assert s[6] == m[1] && IsDigit(m[1]);
      assert s[7] == '-';
      assert s[..4] == y && s[5..7] == m && s[8..] == dd;
    }
  }

  /**
   * Conversely, a string that parses is a four-digit year, a hyphen, a
   * spelling of the month, a hyphen and a spelling of the day.
   */
  lemma ParsedSpelling(s: string)
    requires ParseDate(s).Some?
    ensures var d := ParseDate(s).value;
      var f := SplitDate(s).value;
      && SplitDate(s).Some?
      && f.year == Pad4(d.year)
      && MonthSpelling(d.month, f.month)
      && DaySpelling(d.day, f.day)
      && s == Pad4(d.year) + "-" + f.month + "-" + f.day
  {
    var f := SplitDate(s).value;
    MonthFieldSpelling(f.month);
    DayFieldSpelling(f.day);
    Pad4OfDecimal(f.year);
  }

  // ---------------------------------------------------------------------
  // Formatting `%B %d, %Y`
  // ---------------------------------------------------------------------

  const MonthNames: seq<string> := [
    "January", "February", "March", "April", "May", "June",
    "July", "August", "September", "October", "November", "December"
  ]

  /**
   * `date.strftime("%B %d, %Y")` with English month names: the month's name,
   * then nine characters — a space, two digits reading as the day, a comma and
   * a space, and four digits reading as the year.
   */
  function LongDate(d: Date): (t: string)
    requires ValidDate(d)
    ensures |t| == |MonthNames[d.month - 1]| + 9
    ensures t[..|t| - 9] == MonthNames[d.month - 1]
    ensures t[|t| - 9] == ' ' && t[|t| - 6..|t| - 4] == ", "
    ensures AllDigits(t[|t| - 8..|t| - 6]) && Decimal(t[|t| - 8..|t| - 6]) == d.day
    ensures AllDigits(t[|t| - 4..]) && Decimal(t[|t| - 4..]) == d.year
  {
    var name := MonthNames[d.month - 1];
    var t := name + " " + Pad2(d.day) + ", " + Pad4(d.year);
    assert t[..|t| - 9] == name;
    assert t[|t| - 8..|t| - 6] == Pad2(d.day);
    assert t[|t| - 4..] == Pad4(d.year);
    t
  }

  /**
   * `format_event_date`: the long form of a date that parses, and the input
   * itself, untouched, for one that does not.
   */
  function FormatEventDate(s: string): (r: string)
    ensures ParseDate(s).None? ==> r == s
  {
    match ParseDate(s)
    case None => s
    case Some(d) => LongDate(d)
  }

  /** Where a name first occurs in a list of names. */
  function FindName(names: seq<string>, name: string): (r: Option<nat>)
    ensures r.None? <==> name !in names
    ensures r.Some? ==> r.value < |names| && names[r.value] == name
    ensures r.Some? ==> forall j :: 0 <= j < r.value ==> names[j] != name
  {
    if names == [] then None
    else if names[0] == name then Some(0)
    else match FindName(names[1..], name)
      case None => None
      case Some(i) => Some(i + 1)
  }

  /** Reads the long display form back; the inverse of `LongDate`. */
  function ParseLongDate(t: string): Option<Date> {
    if |t| < 12 then None
    else
      var n := |t|;
      if t[n - 9] != ' ' || t[n - 6..n - 4] != ", " || !AllDigits(t[n - 8..n - 6]) || !AllDigits(t[n - 4..]) then None
      else match FindName(MonthNames, t[..n - 9])
        case None => None
        case Some(i) =>
          var d := Date(Decimal(t[n - 4..]), i + 1, Decimal(t[n - 8..n - 6]));
          if ValidDate(d) then Some(d) else None
  }

  lemma MonthNamesDistinct()
    ensures forall i, j :: 0 <= i < j < 12 ==> MonthNames[i] != MonthNames[j]
    ensures forall i :: 0 <= i < 12 ==> |MonthNames[i]| >= 3
  {
  }

  /** The display form determines the date it was printed from. */
  lemma {:induction false} LongDateRoundTrip(d: Date)
    requires ValidDate(d)
    ensures ParseLongDate(LongDate(d)) == Some(d)
  {
    MonthNamesDistinct();
    var name := MonthNames[d.month - 1];
    var t := LongDate(d);
    var n := |t|;
    assert n == |name| + 9;
    assert t[..n - 9] == name;
    assert t[n - 9] == ' ';
    assert t[n - 8..n - 6] == Pad2(d.day);
    assert t[n - 6..n - 4] == ", ";
    assert t[n - 4..] == Pad4(d.year);
    var found := FindName(MonthNames, name);
    assert found == Some(d.month - 1);
  }

  /** A date that parses is displayed in a form that reads back as the same date. */
  lemma FormatRoundTrip(s: string)
    requires ParseDate(s).Some?
    ensures ParseLongDate(FormatEventDate(s)) == ParseDate(s)
  {
    LongDateRoundTrip(ParseDate(s).value);
  }

  /**
   * On the zero-padded shape the display form reuses the input's own digits:
   * month name, a space, the two day digits, a comma and space, the four year digits.
   */
  lemma FormatIsoDate(s: string)
    requires IsoShaped(s) && ParseDate(s).Some?
    ensures 1 <= Decimal(s[5..7]) <= 12
    ensures FormatEventDate(s) == MonthNames[Decimal(s[5..7]) - 1] + " " + s[8..] + ", " + s[..4]
  {
    IsoParse(s);
    Pad4OfDecimal(s[..4]);
    Pad2OfDecimal(s[8..]);
  }

  // ---------------------------------------------------------------------
  // Order
  // ---------------------------------------------------------------------

  /** How `datetime` values built from dates compare: year, then month, then day. */
  predicate Precedes(a: Date, b: Date) {
    a.year < b.year || (a.year == b.year && (a.month < b.month || (a.month == b.month && a.day < b.day)))
  }

  /** An integer sort key for a date. */
  function Ordinal(d: Date): int {
    10000 * d.year + 100 * d.month + d.day
  }

  /** On calendar dates the key orders like `Precedes` and identifies like `==`. */
  lemma OrdinalIsChronological(a: Date, b: Date)
    requires ValidDate(a) && ValidDate(b)
    ensures Precedes(a, b) <==> Ordinal(a) < Ordinal(b)
    ensures a == b <==> Ordinal(a) == Ordinal(b)
  {
  }

  /** Python's `<` on strings: code point by code point, a proper prefix first. */
  predicate LexLess(a: string, b: string) {
    if a == [] then b != []
    else if b == [] then false
    else a[0] < b[0] || (a[0] == b[0] && LexLess(a[1..], b[1..]))
  }

  /** Comparing concatenations of equal-length heads compares heads first, then tails. */
  lemma {:induction false} LexLessConcat(p: string, s: string, q: string, t: string)
    requires |p| == |q|
    ensures LexLess(p + s, q + t) <==> LexLess(p, q) || (p == q && LexLess(s, t))
    decreases |p|
  {
    if p != [] {
      assert (p + s)[0] == p[0] && (q + t)[0] == q[0];
      assert (p + s)[1..] == p[1..] + s;
      assert (q + t)[1..] == q[1..] + t;
      LexLessConcat(p[1..], s, q[1..], t);
      assert p == q <==> p[0] == q[0] && p[1..] == q[1..];
    } else {
      assert p + s == s && q + t == t;
    }
  }

  /** Among digit strings of one length, string order is numeric order. */
  lemma {:induction false} DecimalOrder(a: string, b: string)
    requires |a| == |b| && AllDigits(a) && AllDigits(b)
    ensures LexLess(a, b) <==> Decimal(a) < Decimal(b)
    ensures a == b <==> Decimal(a) == Decimal(b)
    decreases |a|
  {
    if a == [] {
    } else {
      var n := |a| - 1;
      var a', b' := a[..n], b[..n];
      DecimalOrder(a', b');
      assert a == a' + [a[n]] && b == b' + [b[n]];
      LexLessConcat(a', [a[n]], b', [b[n]]);
      assert [a[n]][1..] == [] && [b[n]][1..] == [];
      assert LexLess([a[n]], [b[n]]) <==> a[n] < b[n];
      assert a == b <==> a' == b' && a[n] == b[n];
    }
  }

  /** Comparing two zero-padded date strings compares year digits, then month digits, then day digits. */
  lemma IsoLexParts(a: string, b: string)
    requires IsoShaped(a) && IsoShaped(b)
    ensures LexLess(a, b) <==>
      || LexLess(a[..4], b[..4])
      || (a[..4] == b[..4] && (LexLess(a[5..7], b[5..7]) || (a[5..7] == b[5..7] && LexLess(a[8..], b[8..]))))
  {
    assert a == a[..4] + a[4..] && b == b[..4] + b[4..];
    LexLessConcat(a[..4], a[4..], b[..4], b[4..]);
    assert a[4..] == a[4..5] + a[5..] && b[4..] == b[4..5] + b[5..];
    LexLessConcat(a[4..5], a[5..], b[4..5], b[5..]);
    assert a[4..5] == b[4..5] == "-";
    assert a[5..] == a[5..7] + a[7..] && b[5..] == b[5..7] + b[7..];
    LexLessConcat(a[5..7], a[7..], b[5..7], b[7..]);
    assert a[7..] == a[7..8] + a[8..] && b[7..] == b[7..8] + b[8..];
    LexLessConcat(a[7..8], a[8..], b[7..8], b[8..]);
    assert a[7..8] == b[7..8] == "-";
  }

  /**
   * For zero-padded `YYYY-MM-DD` dates, comparing the strings compares the
   * dates: the data file's text order is the calendar order.
   */
  lemma IsoOrderIsChronological(a: string, b: string)
    requires IsoShaped(a) && IsoShaped(b)
    requires ParseDate(a).Some? && ParseDate(b).Some?
    ensures LexLess(a, b) <==> Precedes(ParseDate(a).value, ParseDate(b).value)
  {
    IsoParse(a);
    IsoParse(b);
    assert ParseDate(a).value == IsoFields(a) && ParseDate(b).value == IsoFields(b);
    IsoLexParts(a, b);
    DecimalOrder(a[..4], b[..4]);
    DecimalOrder(a[5..7], b[5..7]);
    DecimalOrder(a[8..], b[8..]);
  }
}
