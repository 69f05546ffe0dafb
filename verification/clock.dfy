/** The System.DateTime value the utility reads from the clock, and the
    custom format strings it renders that value with. The separators '/' and
    ':' are taken literally, as the invariant and Japanese cultures print them. */
module Clock {
  import opened Wrappers

  /** A local date and time to the millisecond, as System.DateTime holds it. */
  datatype DateTime = DateTime(year: int, month: int, day: int,
                               hour: int, minute: int, second: int, millisecond: int)

  predicate IsLeapYear(year: int) {
    year % 4 == 0 && (year % 100 != 0 || year % 400 == 0)
  }

  function DaysInMonth(year: int, month: int): int
    requires 1 <= month <= 12
  {
    if month == 2 then (if IsLeapYear(year) then 29 else 28)
    else if month == 4 || month == 6 || month == 9 || month == 11 then 30
    else 31
  }

  /** The values System.DateTime can represent (years 1 to 9999). */
  predicate Valid(t: DateTime) {
    && 1 <= t.year <= 9999
    && 1 <= t.month <= 12
    && 1 <= t.day <= DaysInMonth(t.year, t.month)
    && 0 <= t.hour < 24
    && 0 <= t.minute < 60
    && 0 <= t.second < 60
    && 0 <= t.millisecond < 1000
  }

  function Pow10(n: nat): (r: nat)
    ensures r >= 1
  {
    if n == 0 then 1 else 10 * Pow10(n - 1)
  }

  predicate IsDigit(c: char) {
    '0' <= c <= '9'
  }

  predicate AllDigits(s: string) {
    forall k :: 0 <= k < |s| ==> IsDigit(s[k])
  }

  function DigitChar(d: int): (c: char)
    requires 0 <= d < 10
    ensures IsDigit(c)
  {
    ('0' as int + d) as char
  }

  /** `n` in decimal, zero-padded to exactly `width` digits: the custom
      specifiers "yyyy", "MM", "dd", "HH", "mm", "ss" and "fff". */
  function Pad(n: nat, width: nat): (r: string)
    requires n < Pow10(width)
    ensures |r| == width && AllDigits(r)
  {
    if width == 0 then ""
    else Pad(n / 10, width - 1) + [DigitChar(n % 10)]
  }

  /** The number a string of decimal digits denotes. */
  function DigitsValue(s: string): nat
    requires AllDigits(s)
  {
    if s == [] then 0
    else 10 * DigitsValue(s[..|s| - 1]) + (s[|s| - 1] as int - '0' as int)
  }

  /** Reading a padded number back gives the number. */
  lemma {:induction false} DigitsValueOfPad(n: nat, width: nat)
    requires n < Pow10(width)
    ensures DigitsValue(Pad(n, width)) == n
  {
    if width > 0 {
      var r := Pad(n, width);
      assert r[..|r| - 1] == Pad(n / 10, width - 1);
      DigitsValueOfPad(n / 10, width - 1);
    }
  }

  /** Every digit string is the padding of its own value to its own length. */
  lemma {:induction false} PadOfDigitsValue(s: string)
    requires AllDigits(s)
    ensures DigitsValue(s) < Pow10(|s|)
    ensures Pad(DigitsValue(s), |s|) == s
  {
    if s != [] {
      var front := s[..|s| - 1];
      PadOfDigitsValue(front);
      var d := s[|s| - 1] as int - '0' as int;
      var n := DigitsValue(s);
      assert n / 10 == DigitsValue(front) && n % 10 == d;
      assert s == front + [s[|s| - 1]];
    }
  }

  /** "yyyy/MM/dd" */
  function FormatDate(t: DateTime): (r: string)
    requires Valid(t)
    ensures |r| == 10 && r[4] == '/' && r[7] == '/'
  {
    Pad(t.year, 4) + "/" + Pad(t.month, 2) + "/" + Pad(t.day, 2)
  }

  /** The three numbers of a printed date are all digits. */
  lemma FormatDateDigits(t: DateTime)
    requires Valid(t)
    ensures var r := FormatDate(t);
      AllDigits(r[..4]) && AllDigits(r[5..7]) && AllDigits(r[8..])
  {
    var r := FormatDate(t);
    assert r[..4] == Pad(t.year, 4) && r[5..7] == Pad(t.month, 2) && r[8..] == Pad(t.day, 2);
  }

  /** "HH:mm:ss" */
  function FormatTime(t: DateTime): (r: string)
    requires Valid(t)
    ensures |r| == 8 && r[2] == ':' && r[5] == ':'
  {
    Pad(t.hour, 2) + ":" + Pad(t.minute, 2) + ":" + Pad(t.second, 2)
  }

  /** The three numbers of a printed time are all digits. */
  lemma FormatTimeDigits(t: DateTime)
    requires Valid(t)
    ensures var r := FormatTime(t);
      AllDigits(r[..2]) && AllDigits(r[3..5]) && AllDigits(r[6..])
  {
    var r := FormatTime(t);
    assert r[..2] == Pad(t.hour, 2) && r[3..5] == Pad(t.minute, 2) && r[6..] == Pad(t.second, 2);
  }

  /** "HH:mm:ss:fff" (a colon, not a dot, before the milliseconds) */
  function FormatTimeMillis(t: DateTime): (r: string)
    requires Valid(t)
    ensures |r| == 12 && r[..8] == FormatTime(t) && r[8] == ':' && AllDigits(r[9..])
  {
    var r := FormatTime(t) + ":" + Pad(t.millisecond, 3);
    assert r[9..] == Pad(t.millisecond, 3);
    r
  }

  /** "yyyyMMdd" */
  function Stamp8(t: DateTime): (r: string)
    requires Valid(t)
    ensures |r| == 8 && AllDigits(r)
  {
    Pad(t.year, 4) + Pad(t.month, 2) + Pad(t.day, 2)
  }

  /** "yyyyMMddHHmmss" */
  function Stamp14(t: DateTime): (r: string)
    requires Valid(t)
    ensures |r| == 14 && AllDigits(r) && r[..8] == Stamp8(t)
  {
    var r := Stamp8(t) + Pad(t.hour, 2) + Pad(t.minute, 2) + Pad(t.second, 2);
    assert r[..8] == Stamp8(t);
    r
  }

  /** "yyyyMMddHHmmssfff" */
  function Stamp17(t: DateTime): (r: string)
    requires Valid(t)
    ensures |r| == 17 && AllDigits(r) && r[..14] == Stamp14(t)
  {
    var r := Stamp14(t) + Pad(t.millisecond, 3);
    assert r[..14] == Stamp14(t);
    r
  }

  /** Reads a "yyyyMMddHHmmssfff" stamp back into the instant it names;
      fails on anything else. */
  function ParseStamp17(s: string): (r: Option<DateTime>)
    ensures r.Some? ==> Valid(r.value)
  {
    if |s| != 17 || !AllDigits(s) then None
    else
      var t := DateTime(DigitsValue(s[..4]), DigitsValue(s[4..6]), DigitsValue(s[6..8]),
                        DigitsValue(s[8..10]), DigitsValue(s[10..12]), DigitsValue(s[12..14]),
                        DigitsValue(s[14..]));
      if Valid(t) then Some(t) else None
  }

  /** The 17-digit stamp is a faithful encoding of the instant: parsing it
      gives the instant back. */
  lemma Stamp17RoundTrip(t: DateTime)
    requires Valid(t)
    ensures ParseStamp17(Stamp17(t)) == Some(t)
  {
    var s := Stamp17(t);
    assert s == Pad(t.year, 4) + Pad(t.month, 2) + Pad(t.day, 2) + Pad(t.hour, 2)
                + Pad(t.minute, 2) + Pad(t.second, 2) + Pad(t.millisecond, 3);
    assert s[..4] == Pad(t.year, 4);
    assert s[4..6] == Pad(t.month, 2);
    assert s[6..8] == Pad(t.day, 2);
    assert s[8..10] == Pad(t.hour, 2);
    assert s[10..12] == Pad(t.minute, 2);
    assert s[12..14] == Pad(t.second, 2);
    assert s[14..] == Pad(t.millisecond, 3);
    DigitsValueOfPad(t.year, 4);
    DigitsValueOfPad(t.month, 2);
    DigitsValueOfPad(t.day, 2);
    DigitsValueOfPad(t.hour, 2);
    DigitsValueOfPad(t.minute, 2);
    DigitsValueOfPad(t.second, 2);
    DigitsValueOfPad(t.millisecond, 3);
  }

  /** Conversely, every stamp that parses is the stamp of what it parses to. */
  lemma ParseStamp17Exact(s: string)
    requires ParseStamp17(s).Some?
    ensures Stamp17(ParseStamp17(s).value) == s
  {
    var t := ParseStamp17(s).value;
    PadOfDigitsValue(s[..4]);
    PadOfDigitsValue(s[4..6]);
    PadOfDigitsValue(s[6..8]);
    PadOfDigitsValue(s[8..10]);
    PadOfDigitsValue(s[10..12]);
    PadOfDigitsValue(s[12..14]);
    PadOfDigitsValue(s[14..]);
    TakeJoin(s, 4, 6);
    TakeJoin(s, 6, 8);
    TakeJoin(s, 8, 10);
    TakeJoin(s, 10, 12);
    TakeJoin(s, 12, 14);
    TakeJoin(s, 14, 17);
    assert s[..17] == s;
  }

  /** Two adjacent pieces of a prefix make the longer prefix. */
  lemma TakeJoin(s: string, i: nat, j: nat)
    requires i <= j <= |s|
    ensures s[..i] + s[i..j] == s[..j]
  {
  }

  /** Two instants share a stamp only if they are the same to the millisecond. */
  lemma Stamp17Injective(t1: DateTime, t2: DateTime)
    requires Valid(t1) && Valid(t2)
    requires Stamp17(t1) == Stamp17(t2)
    ensures t1 == t2
  {
    Stamp17RoundTrip(t1);
    Stamp17RoundTrip(t2);
  }

  /** The digits of a "yyyyMMdd" stamp read back as year, month and day. */
  lemma Stamp8Fields(t: DateTime)
    requires Valid(t)
    ensures AllDigits(Stamp8(t)[..4]) && DigitsValue(Stamp8(t)[..4]) == t.year
    ensures AllDigits(Stamp8(t)[4..6]) && DigitsValue(Stamp8(t)[4..6]) == t.month
    ensures AllDigits(Stamp8(t)[6..]) && DigitsValue(Stamp8(t)[6..]) == t.day
  {
    var s := Stamp8(t);
    assert s[..4] == Pad(t.year, 4);
    assert s[4..6] == Pad(t.month, 2);
    assert s[6..] == Pad(t.day, 2);
    DigitsValueOfPad(t.year, 4);
    DigitsValueOfPad(t.month, 2);
    DigitsValueOfPad(t.day, 2);
  }

  /** Two instants share a "yyyyMMdd" stamp exactly when they fall on the same day. */
  lemma Stamp8SameDay(t1: DateTime, t2: DateTime)
    requires Valid(t1) && Valid(t2)
    ensures Stamp8(t1) == Stamp8(t2) <==>
            t1.year == t2.year && t1.month == t2.month && t1.day == t2.day
  {
    Stamp8Fields(t1);
    Stamp8Fields(t2);
  }

  /** The time digits of a "yyyyMMddHHmmss" stamp read back as hour, minute and second. */
  lemma Stamp14Fields(t: DateTime)
    requires Valid(t)
    ensures AllDigits(Stamp14(t)[8..10]) && DigitsValue(Stamp14(t)[8..10]) == t.hour
    ensures AllDigits(Stamp14(t)[10..12]) && DigitsValue(Stamp14(t)[10..12]) == t.minute
    ensures AllDigits(Stamp14(t)[12..]) && DigitsValue(Stamp14(t)[12..]) == t.second
  {
    var s := Stamp14(t);
    assert s == Stamp8(t) + Pad(t.hour, 2) + Pad(t.minute, 2) + Pad(t.second, 2);
    assert s[8..10] == Pad(t.hour, 2);
    assert s[10..12] == Pad(t.minute, 2);
    assert s[12..] == Pad(t.second, 2);
    DigitsValueOfPad(t.hour, 2);
    DigitsValueOfPad(t.minute, 2);
    DigitsValueOfPad(t.second, 2);
  }

  /** Two instants share a "yyyyMMddHHmmss" stamp exactly when they fall in the same second. */
  lemma Stamp14SameSecond(t1: DateTime, t2: DateTime)
    requires Valid(t1) && Valid(t2)
    ensures Stamp14(t1) == Stamp14(t2) <==>
            && t1.year == t2.year && t1.month == t2.month && t1.day == t2.day
            && t1.hour == t2.hour && t1.minute == t2.minute && t1.second == t2.second
  {
    Stamp8SameDay(t1, t2);
    Stamp14Fields(t1);
    Stamp14Fields(t2);
    var a, b := Stamp14(t1), Stamp14(t2);
    if a == b {
      assert a[..8] == b[..8];
    }
    if t1.year == t2.year && t1.month == t2.month && t1.day == t2.day
       && t1.hour == t2.hour && t1.minute == t2.minute && t1.second == t2.second {
      assert Stamp8(t1) == Stamp8(t2);
    }
  }

  /** Two instants share a "yyyyMMddHHmmssfff" stamp exactly when they are equal. */
  lemma Stamp17SameInstant(t1: DateTime, t2: DateTime)
    requires Valid(t1) && Valid(t2)
    ensures Stamp17(t1) == Stamp17(t2) <==> t1 == t2
  {
    if Stamp17(t1) == Stamp17(t2) {
      Stamp17Injective(t1, t2);
    }
  }

  /** Reads a "yyyy/MM/dd" date back into (year, month, day). */
  function ParseDate(s: string): (r: Option<(int, int, int)>)
    ensures r.Some? ==> |s| == 10
  {
    if |s| != 10 || s[4] != '/' || s[7] != '/' then None
    else if !AllDigits(s[..4]) || !AllDigits(s[5..7]) || !AllDigits(s[8..]) then None
    else Some((DigitsValue(s[..4]), DigitsValue(s[5..7]), DigitsValue(s[8..])))
  }

  /** The date field carries the instant's calendar date. */
  lemma FormatDateRoundTrip(t: DateTime)
    requires Valid(t)
    ensures ParseDate(FormatDate(t)) == Some((t.year, t.month, t.day))
  {
    var r := FormatDate(t);
    assert r[..4] == Pad(t.year, 4) && r[5..7] == Pad(t.month, 2) && r[8..] == Pad(t.day, 2);
    DigitsValueOfPad(t.year, 4);
    DigitsValueOfPad(t.month, 2);
    DigitsValueOfPad(t.day, 2);
  }

  /** Reads an "HH:mm:ss" time back into (hour, minute, second). */
  function ParseTime(s: string): (r: Option<(int, int, int)>)
    ensures r.Some? ==> |s| == 8
  {
    if |s| != 8 || s[2] != ':' || s[5] != ':' then None
    else if !AllDigits(s[..2]) || !AllDigits(s[3..5]) || !AllDigits(s[6..]) then None
    else Some((DigitsValue(s[..2]), DigitsValue(s[3..5]), DigitsValue(s[6..])))
  }

  /** The time field carries the instant's time of day to the second. */
  lemma FormatTimeRoundTrip(t: DateTime)
    requires Valid(t)
    ensures ParseTime(FormatTime(t)) == Some((t.hour, t.minute, t.second))
  {
    var r := FormatTime(t);
    assert r[..2] == Pad(t.hour, 2) && r[3..5] == Pad(t.minute, 2) && r[6..] == Pad(t.second, 2);
    DigitsValueOfPad(t.hour, 2);
    DigitsValueOfPad(t.minute, 2);
    DigitsValueOfPad(t.second, 2);
  }

  /** The millisecond suffix of "HH:mm:ss:fff" carries the instant's milliseconds. */
  lemma FormatTimeMillisRoundTrip(t: DateTime)
    requires Valid(t)
    ensures ParseTime(FormatTimeMillis(t)[..8]) == Some((t.hour, t.minute, t.second))
    ensures AllDigits(FormatTimeMillis(t)[9..])
    ensures DigitsValue(FormatTimeMillis(t)[9..]) == t.millisecond
  {
    FormatTimeRoundTrip(t);
    assert FormatTimeMillis(t)[9..] == Pad(t.millisecond, 3);
    DigitsValueOfPad(t.millisecond, 3);
  }
}
