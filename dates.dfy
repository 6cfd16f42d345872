/** An optional value. */
module Wrappers {
  datatype Option<+T> = None | Some(value: T)
}

/** Calendar dates as the firmware keeps them (the date part of a C `struct tm`)
    and their rendering as `YYYY-MM-DD` text. */
module Dates {
  import opened Wrappers

  /** The date fields of a `struct tm`: `year` counts years since 1900,
      `mon` counts months from 0 (January) and `mday` is the day of the month. */
  datatype Tm = Tm(year: int, mon: int, mday: int)

  predicate IsDigit(c: char) { '0' <= c <= '9' }

  predicate AllDigits(s: string) { forall i :: 0 <= i < |s| ==> IsDigit(s[i]) }

  /** A decimal numeral without superfluous leading zeros. */
  predicate Canonical(s: string) { |s| >= 1 && AllDigits(s) && (s[0] == '0' ==> |s| == 1) }

  function DigitChar(d: nat): (c: char)
    requires d < 10
    ensures IsDigit(c) && DigitValue(c) == d
  {
    ('0' as int + d) as char
  }

  function DigitValue(c: char): int
  {
    c as int - '0' as int
  }

  /** The number a string of decimal digits denotes (the reading direction of a numeral). */
  function DigitsValue(s: string): int
  {
    if s == [] then 0 else DigitsValue(s[..|s| - 1]) * 10 + DigitValue(s[|s| - 1])
  }

  /** Decimal numeral of a natural number, most significant digit first. */
  function NatToString(n: nat): (s: string)
    ensures |s| >= 1 && AllDigits(s)
    ensures |s| == 1 <==> n < 10
    decreases n
  {
    if n < 10 then [DigitChar(n)] else NatToString(n / 10) + [DigitChar(n % 10)]
  }

  /** Arduino's `String(int)`: a minus sign before the magnitude for negative numbers. */
  function IntToString(i: int): (s: string)
    ensures i >= 0 ==> s == NatToString(i)
    ensures i < 0 ==> |s| >= 2 && s[0] == '-' && s[1..] == NatToString(-i)
  {
    if i < 0 then "-" + NatToString(-i) else NatToString(i)
  }

  /** What the rendering of an integer denotes: a non-negative number is a
      numeral without leading zeros that reads back as the number; a negative
      one is a minus sign followed by such a numeral of its magnitude. */
  lemma IntToStringReadsBack(i: int)
    ensures i >= 0 ==> Canonical(IntToString(i)) && DigitsValue(IntToString(i)) == i
    ensures i < 0 ==> |IntToString(i)| >= 2 && IntToString(i)[0] == '-' &&
                      Canonical(IntToString(i)[1..]) && DigitsValue(IntToString(i)[1..]) == -i
  {
    var n: nat := if i < 0 then -i else i;
    NatToStringRoundTrip(n);
    NatToStringCanonical(n);
  }

  /** `padZero`: a one-character numeral gets a leading "0"; anything longer,
      a negative number included, is left as it is. */
  function PadZero(num: int): (s: string)
    ensures 0 <= num <= 9 ==> s == ['0', DigitChar(num)]
    ensures num >= 10 ==> s == NatToString(num)
    ensures num < 0 ==> s == IntToString(num) && s[0] == '-'
    ensures |s| >= 2
  {
    var str := IntToString(num);
    if |str| < 2 then "0" + str else str
  }

  /** `tmToStringDate`: year + 1900, a dash, the 1-based month padded to two
      digits, a dash, the day of the month padded to two digits. */
  function TmToStringDate(t: Tm): string
  {
    IntToString(t.year + 1900) + "-" + PadZero(t.mon + 1) + "-" + PadZero(t.mday)
  }

  /** Reference reading of a `YYYY-MM-DD` text (any positive number of year
      digits, exactly two month and two day digits) back into `struct tm`
      offsets; the inverse against which `TmToStringDate` is checked. */
  function ParseIsoDate(s: string): Option<Tm>
  {
    if |s| < 7 || s[|s| - 6] != '-' || s[|s| - 3] != '-' then None
    else
      var y, m, d := s[..|s| - 6], s[|s| - 5..|s| - 3], s[|s| - 2..];
      if AllDigits(y) && AllDigits(m) && AllDigits(d)
      then Some(Tm(DigitsValue(y) - 1900, DigitsValue(m) - 1, DigitsValue(d)))
      else None
  }

  lemma {:induction false} NatToStringRoundTrip(n: nat)
    ensures DigitsValue(NatToString(n)) == n
    decreases n
  {
    if n >= 10 {
      var s := NatToString(n);
      assert s[..|s| - 1] == NatToString(n / 10);
      NatToStringRoundTrip(n / 10);
    }
  }

  lemma {:induction false} NatToStringCanonical(n: nat)
    ensures Canonical(NatToString(n))
    ensures NatToString(n)[0] == '0' <==> n == 0
    decreases n
  {
    if n >= 10 {
      NatToStringCanonical(n / 10);
      assert NatToString(n)[0] == NatToString(n / 10)[0];
    }
  }

  /** Every canonical numeral is the rendering of the number it denotes. */
  lemma {:induction false} CanonicalRoundTrip(s: string)
    requires Canonical(s)
    ensures DigitsValue(s) >= 0 && NatToString(DigitsValue(s)) == s
    decreases |s|
  {
    if |s| >= 2 {
      var p := s[..|s| - 1];
      assert p[0] == s[0];
      CanonicalRoundTrip(p);
      var v := DigitsValue(s);
      assert v / 10 == DigitsValue(p) && v % 10 == DigitValue(s[|s| - 1]);
      assert NatToString(v) == p + [s[|s| - 1]];
      assert p + [s[|s| - 1]] == s;
    }
  }

  lemma DigitsValueOfTwo(s: string)
    requires |s| == 2 && AllDigits(s)
    ensures DigitsValue(s) == DigitValue(s[0]) * 10 + DigitValue(s[1])
  {
    var p := s[..1];
    assert DigitsValue(p) == DigitValue(s[0]) by { assert p[..0] == []; }
  }

  /** Reading joined pieces gives back the numbers the pieces denote. */
  lemma ParseJoined(y: string, m: string, d: string)
    requires |y| >= 1 && AllDigits(y) && |m| == 2 && AllDigits(m) && |d| == 2 && AllDigits(d)
    ensures ParseIsoDate(y + "-" + m + "-" + d) ==
            Some(Tm(DigitsValue(y) - 1900, DigitsValue(m) - 1, DigitsValue(d)))
  {
    DatePieces(y, m, d);
  }

  /** The pieces of a `YYYY-MM-DD` text sit at fixed distances from its end. */
  lemma DatePieces(y: string, m: string, d: string)
    requires |m| == 2 && |d| == 2
    ensures var s := y + "-" + m + "-" + d;
      |s| == |y| + 6 && s[|s| - 6] == '-' && s[|s| - 3] == '-' &&
      s[..|s| - 6] == y && s[|s| - 5..|s| - 3] == m && s[|s| - 2..] == d
  {
  }

  /** Padding yields exactly two digits for 0..99, and they read back as the number. */
  lemma PadZeroTwoDigits(n: int)
    requires 0 <= n <= 99
    ensures |PadZero(n)| == 2 && AllDigits(PadZero(n)) && DigitsValue(PadZero(n)) == n
  {
    if n >= 10 {
      NatToStringRoundTrip(n);
      assert NatToString(n) == NatToString(n / 10) + [DigitChar(n % 10)];
    } else {
      DigitsValueOfTwo(PadZero(n));
    }
  }

  /** Two digits read as a number and padded again give the same two digits. */
  lemma PadZeroOfTwoDigits(s: string)
    requires |s| == 2 && AllDigits(s)
    ensures PadZero(DigitsValue(s)) == s
  {
    var v := DigitsValue(s);
    DigitsValueOfTwo(s);
    if v < 10 {
      assert s[0] == '0';
      assert PadZero(v) == ['0', DigitChar(v)];
    } else {
      assert s[0] != '0';
      CanonicalRoundTrip(s);
    }
  }

  /** Rendering a date and reading it back gives the date, as long as the year
      is not before year 0 and month and day each fit in two digits. */
  lemma FormatThenParse(t: Tm)
    requires t.year + 1900 >= 0 && 0 <= t.mon + 1 <= 99 && 0 <= t.mday <= 99
    ensures ParseIsoDate(TmToStringDate(t)) == Some(t)
  {
    var yr: nat := t.year + 1900;
    var y, m, d := NatToString(yr), PadZero(t.mon + 1), PadZero(t.mday);
    assert TmToStringDate(t) == y + "-" + m + "-" + d;
    PadZeroTwoDigits(t.mon + 1);
    PadZeroTwoDigits(t.mday);
    NatToStringRoundTrip(yr);
    ParseJoined(y, m, d);
  }

  /** Reading a `YYYY-MM-DD` text whose year has no superfluous leading zero
      and rendering the result again gives the text back. */
  lemma ParseThenFormat(s: string)
    requires ParseIsoDate(s).Some?
    requires Canonical(s[..|s| - 6])
    ensures TmToStringDate(ParseIsoDate(s).value) == s
  {
    var y, m, d := s[..|s| - 6], s[|s| - 5..|s| - 3], s[|s| - 2..];
    DateSplit(s);
    ParseJoined(y, m, d);
    var t := ParseIsoDate(s).value;
    CanonicalRoundTrip(y);
    PadZeroOfTwoDigits(m);
    PadZeroOfTwoDigits(d);
    DateJoin(t, y, m, d);
  }

  /** The rendering of a date is its three rendered fields joined by dashes. */
  lemma DateJoin(t: Tm, y: string, m: string, d: string)
    requires IntToString(t.year + 1900) == y && PadZero(t.mon + 1) == m && PadZero(t.mday) == d
    ensures TmToStringDate(t) == y + "-" + m + "-" + d
  {
  }

  /** A text with dashes six and three places from its end is its three pieces joined. */
  lemma DateSplit(s: string)
    requires |s| >= 7 && s[|s| - 6] == '-' && s[|s| - 3] == '-'
    ensures s == s[..|s| - 6] + "-" + s[|s| - 5..|s| - 3] + "-" + s[|s| - 2..]
  {
  }

  /** The literal case: 25 December 2025 is stored as year 125, month 11. */
  lemma ChristmasRendering()
    ensures TmToStringDate(Tm(125, 11, 25)) == "2025-12-25"
    ensures ParseIsoDate("2025-12-25") == Some(Tm(125, 11, 25))
  {
    FormatThenParse(Tm(125, 11, 25));
    assert NatToString(2025) == NatToString(202) + ['5'];
    assert NatToString(202) == NatToString(20) + ['2'];
    assert NatToString(20) == NatToString(2) + ['0'];
    assert PadZero(12) == NatToString(1) + ['2'];
    assert PadZero(25) == NatToString(2) + ['5'];
  }
}
