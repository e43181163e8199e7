/** The `YYYY-MM-DD` text form of a date (the full-date production of section 5.6 of
    RFC 3339, with the day-of-month limits of its section 5.7), and the ordering of text
    that the grouping step sorts keys by. */
module DateText {
  import opened Calendar
  import opened Wrappers

  // ---------------------------------------------------------------------------
  // Ordering of text: code point by code point, a proper prefix first

  predicate LexLess(a: string, b: string) {
    if |a| == 0 then |b| > 0
    else if |b| == 0 then false
    else if a[0] != b[0] then a[0] < b[0]
    else LexLess(a[1..], b[1..])
  }

  lemma {:induction false} LexIrreflexive(a: string)
    ensures !LexLess(a, a)
  {
    if |a| > 0 {
      LexIrreflexive(a[1..]);
    }
  }

  lemma {:induction false} LexTransitive(a: string, b: string, c: string)
    requires LexLess(a, b) && LexLess(b, c)
    ensures LexLess(a, c)
  {
    if |a| > 0 && a[0] == b[0] && b[0] == c[0] {
      LexTransitive(a[1..], b[1..], c[1..]);
    }
  }

  /** Any two different strings are ordered one way, and only one way. */
  lemma {:induction false} LexTotal(a: string, b: string)
    ensures a != b <==> LexLess(a, b) || LexLess(b, a)
    ensures !(LexLess(a, b) && LexLess(b, a))
  {
    if |a| > 0 && |b| > 0 && a[0] == b[0] {
      LexTotal(a[1..], b[1..]);
      if a[1..] == b[1..] {
        assert a == [a[0]] + a[1..] && b == [b[0]] + b[1..];
      }
    } else if a == b {
      LexIrreflexive(a);
    }
  }

  /** Comparing two concatenations whose first parts have equal length compares the first
      parts, and the second parts only when the first parts are equal. */
  lemma {:induction false} LexConcat(p: string, s: string, q: string, t: string)
    requires |p| == |q|
    ensures LexLess(p + s, q + t) <==> LexLess(p, q) || (p == q && LexLess(s, t))
  {
    if |p| == 0 {
      assert p + s == s && q + t == t && p == q;
    } else {
      assert (p + s)[0] == p[0] && (q + t)[0] == q[0];
      assert (p + s)[1..] == p[1..] + s && (q + t)[1..] == q[1..] + t;
      LexConcat(p[1..], s, q[1..], t);
      if p[0] == q[0] {
        assert p[1..] == q[1..] <==> p == q by {
          assert p == [p[0]] + p[1..] && q == [q[0]] + q[1..];
        }
      }
    }
  }

  // ---------------------------------------------------------------------------
  // Fixed-width decimal numerals

  predicate IsDigit(c: char) {
    '0' <= c <= '9'
  }

  predicate AllDigits(s: string) {
    forall i :: 0 <= i < |s| ==> IsDigit(s[i])
  }

  function DigitChar(n: int): (c: char)
    requires 0 <= n < 10
    ensures IsDigit(c)
  {
    ('0' as int + n) as char
  }

  function DigitValue(c: char): (n: int)
    requires IsDigit(c)
    ensures 0 <= n < 10 && DigitChar(n) == c
  {
    c as int - '0' as int
  }

  function Pow10(w: nat): (p: nat)
    ensures p >= 1
  {
    if w == 0 then 1 else 10 * Pow10(w - 1)
  }

  /** The last `width` decimal digits of n, most significant first, zero padded. */
  function Digits(n: nat, width: nat): (s: string)
    ensures |s| == width && AllDigits(s)
  {
    if width == 0 then [] else Digits(n / 10, width - 1) + [DigitChar(n % 10)]
  }

  /** The number a string of decimal digits denotes. */
  function ValueOf(s: string): (n: nat)
    requires AllDigits(s)
  {
    if |s| == 0 then 0 else 10 * ValueOf(s[..|s| - 1]) + DigitValue(s[|s| - 1])
  }

  lemma {:induction false} ValueOfDigits(n: nat, width: nat)
    requires n < Pow10(width)
    ensures ValueOf(Digits(n, width)) == n
  {
    if width > 0 {
      var s := Digits(n, width);
      assert s[..width - 1] == Digits(n / 10, width - 1);
      ValueOfDigits(n / 10, width - 1);
    }
  }

  lemma {:induction false} DigitsOfValue(s: string)
    requires AllDigits(s)
    ensures ValueOf(s) < Pow10(|s|) && Digits(ValueOf(s), |s|) == s
  {
    if |s| > 0 {
      var init := s[..|s| - 1];
      DigitsOfValue(init);
      var n := ValueOf(s);
      assert n / 10 == ValueOf(init) && n % 10 == DigitValue(s[|s| - 1]);
      assert s == init + [s[|s| - 1]];
    }
  }

  /** Zero-padded numerals of one width sort like the numbers they denote. */
  lemma {:induction false} DigitsOrder(x: nat, y: nat, width: nat)
    requires x < Pow10(width) && y < Pow10(width)
    ensures LexLess(Digits(x, width), Digits(y, width)) <==> x < y
  {
    if width == 0 {
      assert x == 0 && y == 0;
    } else {
      var px, py := Digits(x / 10, width - 1), Digits(y / 10, width - 1);
      DigitsOrder(x / 10, y / 10, width - 1);
      LexConcat(px, [DigitChar(x % 10)], py, [DigitChar(y % 10)]);
      ValueOfDigits(x / 10, width - 1);
      ValueOfDigits(y / 10, width - 1);
      assert px == py <==> x / 10 == y / 10;
    }
  }

  // ---------------------------------------------------------------------------
  // Dates as text

  /** The `YYYY-MM-DD` layout: four digits, a dash, two digits, a dash, two digits. */
  predicate DateShaped(s: string) {
    |s| == 10 && s[4] == '-' && s[7] == '-'
    && AllDigits(s[..4]) && AllDigits(s[5..7]) && AllDigits(s[8..])
  }

  /** `strftime("%Y-%m-%d")` on a date of years 1 to 9999: always ten characters in the
      `YYYY-MM-DD` layout. */
  function Format(d: Date): (s: string)
    requires ValidDate(d)
    ensures DateShaped(s)
  {
    var s := Digits(d.year, 4) + "-" + Digits(d.month, 2) + "-" + Digits(d.day, 2);
    assert s[..4] == Digits(d.year, 4) && s[5..7] == Digits(d.month, 2) && s[8..] == Digits(d.day, 2);
    s
  }

  /** Reading `YYYY-MM-DD` back into a date; None for text that is not a calendar date.
      Written, like DayText below, as a one-step count-down, so that a mention of a parsed
      text does not expand the character checks behind it; ParseIsRead gives the definition
      where a proof needs it. */
  function Parse(s: string): (r: Option<Date>)
    ensures r.Some? ==> DateShaped(s) && ValidDate(r.value)
  {
    ParseAfter(s, 1)
  }

  function ParseAfter(s: string, steps: nat): (r: Option<Date>)
    ensures r.Some? ==> DateShaped(s) && ValidDate(r.value)
  {
    if steps > 0 then ParseAfter(s, steps - 1) else Read(s)
  }

  /** The character-level reading of `YYYY-MM-DD`. */
  function Read(s: string): (r: Option<Date>)
    ensures r.Some? ==> DateShaped(s) && ValidDate(r.value)
  {
    if DateShaped(s) then
      var d := Date(ValueOf(s[..4]), ValueOf(s[5..7]), ValueOf(s[8..]));
      if ValidDate(d) then Some(d) else None
    else None
  }

  lemma ParseIsRead(s: string)
    ensures Parse(s) == Read(s)
  {
    assert ParseAfter(s, 1) == ParseAfter(s, 0);
  }

  lemma FormatShape(d: Date)
    requires ValidDate(d)
    ensures var s := Format(d);
      |s| == 10 && s[4] == '-' && s[7] == '-'
      && s[..4] == Digits(d.year, 4) && s[5..7] == Digits(d.month, 2) && s[8..] == Digits(d.day, 2)
  {
  }

  /** Formatting a date and parsing the text gives back the same date. */
  lemma ParseFormat(d: Date)
    requires ValidDate(d)
    ensures Parse(Format(d)) == Some(d)
  {
    ParseIsRead(Format(d));
    FormatShape(d);
    ValueOfDigits(d.year, 4);
    ValueOfDigits(d.month, 2);
    ValueOfDigits(d.day, 2);
  }

  /** Text that parses is exactly the formatted form of the date it denotes. */
  lemma FormatParse(s: string)
    requires Parse(s).Some?
    ensures Format(Parse(s).value) == s
  {
    ParseIsRead(s);
    var d := Parse(s).value;
    DigitsOfValue(s[..4]);
    DigitsOfValue(s[5..7]);
    DigitsOfValue(s[8..]);
    assert s == s[..4] + "-" + s[5..7] + "-" + s[8..];
  }

  lemma FormatInjective(a: Date, b: Date)
    requires ValidDate(a) && ValidDate(b)
    ensures Format(a) == Format(b) <==> a == b
  {
    ParseFormat(a);
    ParseFormat(b);
  }

  /** The `-MM-DD` part of the text form. */
  function MonthDayText(d: Date): string
    requires ValidDate(d)
  {
    "-" + Digits(d.month, 2) + "-" + Digits(d.day, 2)
  }

  lemma MonthDayOrder(a: Date, b: Date)
    requires ValidDate(a) && ValidDate(b)
    ensures LexLess(MonthDayText(a), MonthDayText(b)) <==>
      a.month < b.month || (a.month == b.month && a.day < b.day)
  {
    TwoFieldOrder(a.month, a.day, b.month, b.day);
  }

  /** `-MM-DD` texts of two-digit fields compare like the pairs of numbers. */
  lemma TwoFieldOrder(m1: nat, d1: nat, m2: nat, d2: nat)
    requires m1 < 100 && d1 < 100 && m2 < 100 && d2 < 100
    ensures LexLess("-" + Digits(m1, 2) + "-" + Digits(d1, 2), "-" + Digits(m2, 2) + "-" + Digits(d2, 2)) <==>
      m1 < m2 || (m1 == m2 && d1 < d2)
  {
    var ma, mb := Digits(m1, 2), Digits(m2, 2);
    var da, db := Digits(d1, 2), Digits(d2, 2);
    assert "-" + ma + "-" + da == "-" + (ma + ("-" + da));
    assert "-" + mb + "-" + db == "-" + (mb + ("-" + db));
    assert Pow10(2) == 100;
    LexIrreflexive("-");
    LexConcat("-", ma + ("-" + da), "-", mb + ("-" + db));
    LexConcat(ma, "-" + da, mb, "-" + db);
    LexConcat("-", da, "-", db);
    DigitsOrder(m1, m2, 2);
    ValueOfDigits(m1, 2);
    ValueOfDigits(m2, 2);
    DigitsOrder(d1, d2, 2);
  }

  /** For these fixed-width dates, text order is chronological order. */
  lemma FormatOrder(a: Date, b: Date)
    requires ValidDate(a) && ValidDate(b)
    ensures LexLess(Format(a), Format(b)) <==> ToDay(a) < ToDay(b)
  {
    ToDayOrder(a, b);
    var ya, yb := Digits(a.year, 4), Digits(b.year, 4);
    assert Format(a) == ya + MonthDayText(a);
    assert Format(b) == yb + MonthDayText(b);
    LexConcat(ya, MonthDayText(a), yb, MonthDayText(b));
    DigitsOrder(a.year, b.year, 4);
    ValueOfDigits(a.year, 4);
    ValueOfDigits(b.year, 4);
    MonthDayOrder(a, b);
  }

  // ---------------------------------------------------------------------------
  // Day numbers as text

  /** The text form of the date with day number n. It is written as a one-step count-down
      because the solver unfolds a recursive definition only one step at a time: a mention
      of a day's text then does not expand the calendar arithmetic behind it, and
      DayTextIsFormat gives the equation where a proof needs it. */
  function DayText(n: int): string
    requires InRange(n)
  {
    DayTextAfter(n, 1)
  }

  function DayTextAfter(n: int, steps: nat): string
    requires InRange(n)
  {
    if steps == 0 then Format(FromDay(n)) else DayTextAfter(n, steps - 1)
  }

  lemma DayTextIsFormat(n: int)
    requires InRange(n)
    ensures DayText(n) == Format(FromDay(n))
  {
    assert DayTextAfter(n, 1) == DayTextAfter(n, 0);
  }

  /** The text of a day number reads back as that day. */
  lemma DayTextParse(n: int)
    requires InRange(n)
    ensures Parse(DayText(n)).Some? && ToDay(Parse(DayText(n)).value) == n
  {
    DayTextIsFormat(n);
    ParseFormat(FromDay(n));
  }

  lemma DayTextOfDate(d: Date)
    requires ValidDate(d)
    ensures InRange(ToDay(d)) && DayText(ToDay(d)) == Format(d)
  {
    FromDayToDay(d);
    DayTextIsFormat(ToDay(d));
  }

  /** Text that parses is the text of the day number it denotes. */
  lemma DayTextOfParse(s: string)
    requires Parse(s).Some?
    ensures InRange(ToDay(Parse(s).value)) && DayText(ToDay(Parse(s).value)) == s
  {
    DayTextOfDate(Parse(s).value);
    FormatParse(s);
  }

  /** Different days have different texts, and text order is day order. */
  lemma DayTextOrder(a: int, b: int)
    requires InRange(a) && InRange(b)
    ensures DayText(a) == DayText(b) <==> a == b
    ensures LexLess(DayText(a), DayText(b)) <==> a < b
  {
    DayTextParse(a);
    DayTextParse(b);
    DayTextIsFormat(a);
    DayTextIsFormat(b);
    FormatOrder(FromDay(a), FromDay(b));
  }
}
