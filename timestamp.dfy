/**
 * The temporal encoder, appendDateTime: a UTC timestamp rounded half-up to the microsecond and
 * written as YYYY-MM-DD, YYYY-MM-DD HH:MM:SS or YYYY-MM-DD HH:MM:SS.ffffff.
 */
module Timestamp {
  import opened Bytes
  import opened Errors
  import opened Decimal
  import opened Buffer

  /** A time.Time taken apart in UTC, as t.Date(), t.Clock() and t.Nanosecond() give it. */
  datatype DateTime = DateTime(year: int, month: int, day: int,
                               hour: int, minute: int, second: int, nanosecond: int)

  /** Gregorian leap years, as the time package counts them for every year. */
  predicate IsLeap(year: int)
  {
    year % 4 == 0 && (year % 100 != 0 || year % 400 == 0)
  }

  function DaysIn(year: int, month: int): int
    requires 1 <= month <= 12
  {
    if month == 2 then (if IsLeap(year) then 29 else 28)
    else if month == 4 || month == 6 || month == 9 || month == 11 then 30
    else 31
  }

  /** The ranges the fields of a normalized time.Time lie in. */
  predicate WellFormed(t: DateTime)
  {
    1 <= t.month <= 12 && 1 <= t.day <= DaysIn(t.year, t.month) &&
    0 <= t.hour < 24 && 0 <= t.minute < 60 && 0 <= t.second < 60 &&
    0 <= t.nanosecond < 1_000_000_000
  }

  type UtcTime = t: DateTime | WellFormed(t) witness DateTime(1, 1, 1, 0, 0, 0, 0)

  /** time.Time.IsZero: the instant January 1, year 1, 00:00:00 UTC. */
  predicate IsZero(t: UtcTime)
  {
    t == DateTime(1, 1, 1, 0, 0, 0, 0)
  }

  /** The same nanosecond one second later, carrying into minutes, hours, days, months and years. */
  function NextSecond(t: UtcTime): UtcTime
  {
    if t.second < 59 then t.(second := t.second + 1)
    else if t.minute < 59 then t.(minute := t.minute + 1, second := 0)
    else if t.hour < 23 then t.(hour := t.hour + 1, minute := 0, second := 0)
    else if t.day < DaysIn(t.year, t.month) then t.(day := t.day + 1, hour := 0, minute := 0, second := 0)
    else if t.month < 12 then t.(month := t.month + 1, day := 1, hour := 0, minute := 0, second := 0)
    else DateTime(t.year + 1, 1, 1, 0, 0, 0, t.nanosecond)
  }

  /** t.Add(500 * time.Nanosecond). */
  function AddHalfMicrosecond(t: UtcTime): UtcTime
  {
    var ns := t.nanosecond + 500;
    if ns < 1_000_000_000 then t.(nanosecond := ns)
    else NextSecond(t).(nanosecond := ns - 1_000_000_000)
  }

  /** The rounding step of appendDateTime: add 500ns when the sub-microsecond part is >= 500ns. */
  function RoundToMicro(t: UtcTime): UtcTime
  {
    if t.nanosecond % 1000 >= 500 then AddHalfMicrosecond(t) else t
  }

  /** The whole microseconds of a timestamp. */
  function Micro(t: UtcTime): int
  {
    t.nanosecond / 1000
  }

  /** The last half microsecond of a year: the one instant where rounding changes the year. */
  predicate EndOfYear(t: UtcTime)
  {
    t.month == 12 && t.day == 31 && t.hour == 23 && t.minute == 59 && t.second == 59 &&
    t.nanosecond >= 999_999_500
  }

  function DatePart(r: UtcTime): seq<byte>
    requires 1 <= r.year <= 9999
  {
    PadDecimal(r.year, 4) + [Minus] + PadDecimal(r.month, 2) + [Minus] + PadDecimal(r.day, 2)
  }

  function ClockPart(r: UtcTime): seq<byte>
  {
    [Space] + PadDecimal(r.hour, 2) + [Colon] + PadDecimal(r.minute, 2) + [Colon] + PadDecimal(r.second, 2)
  }

  function FractionPart(r: UtcTime): seq<byte>
  {
    [Dot] + PadDecimal(Micro(r), 6)
  }

  /**
   * What appendDateTime appends for `t`: the rounded time laid out by Layout. Years outside
   * [1, 9999] after rounding are an error.
   */
  function DateTimeText(t: UtcTime): Result<seq<byte>>
  {
    var r := RoundToMicro(t);
    if r.year < 1 || r.year > 9999 then Err(YearOutOfRange(r.year)) else Ok(Layout(r))
  }

  /**
   * A rounded time as YYYY-MM-DD, then " HH:MM:SS" unless the time of day is exactly midnight,
   * then ".ffffff" unless the microseconds are 0.
   */
  function Layout(r: UtcTime): seq<byte>
    requires 1 <= r.year <= 9999
  {
    if r.hour == 0 && r.minute == 0 && r.second == 0 && Micro(r) == 0 then DatePart(r)
    else if Micro(r) == 0 then DatePart(r) + ClockPart(r)
    else DatePart(r) + ClockPart(r) + FractionPart(r)
  }

  /**
   * Reads such a text back: the fields at their fixed positions, the microseconds (if any)
   * as nanoseconds. None when the length or a separator is wrong.
   */
  function ParseDateTime(s: seq<byte>): Option<DateTime>
  {
    if |s| != 10 && |s| != 19 && |s| != 26 then None
    else if s[4] != Minus || s[7] != Minus then None
    else
      var year, month, day := DigitsValue(s[0..4]), DigitsValue(s[5..7]), DigitsValue(s[8..10]);
      if |s| == 10 then Some(DateTime(year, month, day, 0, 0, 0, 0))
      else if s[10] != Space || s[13] != Colon || s[16] != Colon then None
      else
        var hour, minute, second := DigitsValue(s[11..13]), DigitsValue(s[14..16]), DigitsValue(s[17..19]);
        if |s| == 19 then Some(DateTime(year, month, day, hour, minute, second, 0))
        else if s[19] != Dot then None
        else Some(DateTime(year, month, day, hour, minute, second, DigitsValue(s[20..26]) * 1000))
  }

  /** Rounding is half-up to the microsecond; only a carry out of the second touches other fields. */
  lemma RoundHalfUp(t: UtcTime)
    ensures t.nanosecond < 999_999_500 ==>
      RoundToMicro(t) == t.(nanosecond := RoundToMicro(t).nanosecond) &&
      t.nanosecond - 500 < Micro(RoundToMicro(t)) * 1000 <= t.nanosecond + 500
    ensures t.nanosecond >= 999_999_500 ==>
      RoundToMicro(t) == NextSecond(t).(nanosecond := t.nanosecond + 500 - 1_000_000_000) &&
      Micro(RoundToMicro(t)) == 0
  {
  }

  /** One second later is later: the fields compare greater, most significant first. */
  lemma NextSecondIsLater(t: UtcTime)
    ensures Before(t, NextSecond(t))
    ensures NextSecond(t).nanosecond == t.nanosecond
  {
  }

  /**
   * And it is the very next second: no well-formed time lies strictly between `t` and
   * NextSecond(t), so the carry skips no valid minute, hour, day or month.
   */
  lemma NextSecondImmediate(t: UtcTime, u: UtcTime)
    requires Before(t, u)
    ensures !Before(u, NextSecond(t))
  {
  }

  /**
   * When adding 500ns carries out of the second, the result is the start of the next second
   * (plus the overflow): later than `t`, with no well-formed second strictly in between.
   */
  lemma AddHalfMicrosecondCarry(t: UtcTime, u: UtcTime)
    requires t.nanosecond + 500 >= 1_000_000_000
    ensures Before(t, AddHalfMicrosecond(t))
    ensures AddHalfMicrosecond(t).nanosecond == t.nanosecond + 500 - 1_000_000_000
    ensures Before(t, u) ==> !Before(u, AddHalfMicrosecond(t))
  {
    NextSecondIsLater(t);
    if Before(t, u) {
      NextSecondImmediate(t, u);
    }
  }

  /** Lexicographic order of the fields down to the second. */
  predicate Before(a: DateTime, b: DateTime)
  {
    a.year < b.year || (a.year == b.year &&
    (a.month < b.month || (a.month == b.month &&
    (a.day < b.day || (a.day == b.day &&
    (a.hour < b.hour || (a.hour == b.hour &&
    (a.minute < b.minute || (a.minute == b.minute && a.second < b.second)))))))))
  }

  /** Rounding changes the year only in the last half microsecond of a year, and then by one. */
  lemma RoundingKeepsYear(t: UtcTime)
    ensures !EndOfYear(t) ==> RoundToMicro(t).year == t.year
    ensures EndOfYear(t) ==> RoundToMicro(t) == DateTime(t.year + 1, 1, 1, 0, 0, 0, t.nanosecond + 500 - 1_000_000_000)
  {
  }

  /** The encoder fails exactly when the rounded year is outside [1, 9999]. */
  lemma YearRange(t: UtcTime)
    ensures DateTimeText(t).Err? <==> RoundToMicro(t).year < 1 || RoundToMicro(t).year > 9999
    ensures DateTimeText(t).Err? ==> DateTimeText(t).error == YearOutOfRange(RoundToMicro(t).year)
    ensures !EndOfYear(t) ==> (DateTimeText(t).Ok? <==> 1 <= t.year <= 9999)
    ensures EndOfYear(t) ==> (DateTimeText(t).Ok? <==> 0 <= t.year <= 9998)
  {
    RoundingKeepsYear(t);
  }

  /**
   * The text is 10 bytes for a rounded time at midnight, 19 bytes when only the microseconds
   * are 0, and 26 bytes otherwise, the last seven being '.' and six digits.
   */
  lemma DateTimeTextLength(t: UtcTime)
    requires DateTimeText(t).Ok?
    ensures var s, r := DateTimeText(t).value, RoundToMicro(t);
      (|s| == 10 <==> r.hour == 0 && r.minute == 0 && r.second == 0 && Micro(r) == 0) &&
      (|s| == 19 <==> Micro(r) == 0 && !(r.hour == 0 && r.minute == 0 && r.second == 0)) &&
      (|s| == 26 <==> Micro(r) != 0) &&
      (|s| == 26 ==> s[19] == Dot && forall i :: 20 <= i < 26 ==> IsDigit(s[i]))
  {
    var r := RoundToMicro(t);
    DatePartReads(r);
    ClockPartReads(r);
    var s := DateTimeText(t).value;
    if Micro(r) != 0 {
      var f := FractionPart(r);
      PadDecimalRoundTrip(Micro(r), 6);
      assert s == (DatePart(r) + ClockPart(r)) + f;
      forall i | 20 <= i < 26 ensures IsDigit(s[i]) {
        assert s[i] == f[i - 19] == PadDecimal(Micro(r), 6)[i - 20];
      }
    }
  }

  /** Round trip: the text reads back as the rounded time, truncated to whole microseconds. */
  lemma DateTimeTextRoundTrip(t: UtcTime)
    requires DateTimeText(t).Ok?
    ensures var r := RoundToMicro(t);
      ParseDateTime(DateTimeText(t).value) == Some(r.(nanosecond := Micro(r) * 1000))
  {
    var r := RoundToMicro(t);
    if r.hour == 0 && r.minute == 0 && r.second == 0 && Micro(r) == 0 {
      DateOnlyReads(r);
    } else if Micro(r) == 0 {
      DateClockReads(r);
    } else {
      DateClockFractionReads(r);
    }
  }

  /** The 10-byte form reads back as the date at midnight. */
  lemma DateOnlyReads(r: UtcTime)
    requires 1 <= r.year <= 9999
    ensures ParseDateTime(DatePart(r)) == Some(DateTime(r.year, r.month, r.day, 0, 0, 0, 0))
  {
    DatePartReads(r);
  }

  /** The 19-byte form reads back as the time with no fraction of a second. */
  lemma DateClockReads(r: UtcTime)
    requires 1 <= r.year <= 9999
    ensures ParseDateTime(DatePart(r) + ClockPart(r)) == Some(r.(nanosecond := 0))
  {
    var d, c := DatePart(r), ClockPart(r);
    DatePartReads(r);
    ClockPartReads(r);
    SliceOfAppend(d, c, 0, 4);
    SliceOfAppend(d, c, 5, 7);
    SliceOfAppend(d, c, 8, 10);
    SliceOfAppend(d, c, 11, 13);
    SliceOfAppend(d, c, 14, 16);
    SliceOfAppend(d, c, 17, 19);
  }

  /** The 26-byte form reads back as the time with its whole microseconds. */
  lemma DateClockFractionReads(r: UtcTime)
    requires 1 <= r.year <= 9999
    ensures ParseDateTime(DatePart(r) + ClockPart(r) + FractionPart(r)) == Some(r.(nanosecond := Micro(r) * 1000))
  {
    var d, c, f := DatePart(r), ClockPart(r), FractionPart(r);
    DatePartReads(r);
    ClockPartReads(r);
    SliceOfAppend(d, c, 0, 4);
    SliceOfAppend(d, c, 5, 7);
    SliceOfAppend(d, c, 8, 10);
    SliceOfAppend(d, c, 11, 13);
    SliceOfAppend(d, c, 14, 16);
    SliceOfAppend(d, c, 17, 19);
    PadDecimalRoundTrip(Micro(r), 6);
    SliceOfAppend(d + c, f, 0, 4);
    SliceOfAppend(d + c, f, 5, 7);
    SliceOfAppend(d + c, f, 8, 10);
    SliceOfAppend(d + c, f, 11, 13);
    SliceOfAppend(d + c, f, 14, 16);
    SliceOfAppend(d + c, f, 17, 19);
    SliceOfAppend(d + c, f, 20, 26);
    assert f[1..7] == PadDecimal(Micro(r), 6);
  }

  /** The text is digits and separators only: it holds no quote, so it can sit between quotes. */
  lemma DateTimeTextNoQuote(t: UtcTime)
    requires DateTimeText(t).Ok?
    ensures Quote !in DateTimeText(t).value
  {
    var r := RoundToMicro(t);
    PadDecimalNoQuote(r.year, 4);
    PadDecimalNoQuote(r.month, 2);
    PadDecimalNoQuote(r.day, 2);
    PadDecimalNoQuote(r.hour, 2);
    PadDecimalNoQuote(r.minute, 2);
    PadDecimalNoQuote(r.second, 2);
    PadDecimalNoQuote(Micro(r), 6);
  }

  lemma SliceOfAppend(a: seq<byte>, b: seq<byte>, i: int, j: int)
    requires 0 <= i <= j <= |a| + |b|
    ensures j <= |a| ==> (a + b)[i..j] == a[i..j]
    ensures |a| <= i ==> (a + b)[i..j] == b[i - |a|..j - |a|]
  {
  }

  /** The date part is ten bytes whose fields read back as the year, month and day. */
  lemma DatePartReads(r: UtcTime)
    requires 1 <= r.year <= 9999
    ensures var d := DatePart(r);
      |d| == 10 && d[4] == Minus && d[7] == Minus &&
      DigitsValue(d[0..4]) == r.year && DigitsValue(d[5..7]) == r.month && DigitsValue(d[8..10]) == r.day
  {
    assert Pow10(4) == 10000 && Pow10(2) == 100;
    PadDecimalRoundTrip(r.year, 4);
    PadDecimalRoundTrip(r.month, 2);
    PadDecimalRoundTrip(r.day, 2);
    ThreeFields(PadDecimal(r.year, 4), Minus, PadDecimal(r.month, 2), Minus, PadDecimal(r.day, 2));
  }

  /** Where the three fields of `x s y t z` lie, for fields of 4, 2 and 2 bytes. */
  lemma ThreeFields(x: seq<byte>, s: byte, y: seq<byte>, t: byte, z: seq<byte>)
    requires |x| == 4 && |y| == 2 && |z| == 2
    ensures var d := x + [s] + y + [t] + z;
      |d| == 10 && d[4] == s && d[7] == t && d[0..4] == x && d[5..7] == y && d[8..10] == z
  {
  }

  /** The clock part is nine bytes whose fields read back as the hour, minute and second. */
  lemma ClockPartReads(r: UtcTime)
    ensures var c := ClockPart(r);
      |c| == 9 && c[0] == Space && c[3] == Colon && c[6] == Colon &&
      DigitsValue(c[1..3]) == r.hour && DigitsValue(c[4..6]) == r.minute && DigitsValue(c[7..9]) == r.second
  {
    assert Pow10(2) == 100;
    PadDecimalRoundTrip(r.hour, 2);
    PadDecimalRoundTrip(r.minute, 2);
    PadDecimalRoundTrip(r.second, 2);
    ClockFields(Space, PadDecimal(r.hour, 2), Colon, PadDecimal(r.minute, 2), Colon, PadDecimal(r.second, 2));
  }

  /** Where the three two-byte fields of `s x t y u z` lie. */
  lemma ClockFields(s: byte, x: seq<byte>, t: byte, y: seq<byte>, u: byte, z: seq<byte>)
    requires |x| == 2 && |y| == 2 && |z| == 2
    ensures var c := [s] + x + [t] + y + [u] + z;
      |c| == 9 && c[0] == s && c[3] == t && c[6] == u && c[1..3] == x && c[4..6] == y && c[7..9] == z
  {
  }

  /** The date part as the digit-table lookups appendDateTime makes. */
  lemma DatePartBytes(r: UtcTime)
    requires 1 <= r.year <= 9999
    ensures DatePart(r) == [Digits10[r.year / 100], Digits01[r.year / 100], Digits10[r.year % 100], Digits01[r.year % 100],
                            Minus, Digits10[r.month], Digits01[r.month], Minus, Digits10[r.day], Digits01[r.day]]
  {
    DigitTables(r.year / 100);
    DigitTables(r.year % 100);
    DigitTables(r.month);
    DigitTables(r.day);
    SplitLastPair(r.year, 2);
  }

  lemma ClockPartBytes(r: UtcTime)
    ensures ClockPart(r) == [Space, Digits10[r.hour], Digits01[r.hour], Colon, Digits10[r.minute], Digits01[r.minute],
                             Colon, Digits10[r.second], Digits01[r.second]]
  {
    DigitTables(r.hour);
    DigitTables(r.minute);
    DigitTables(r.second);
  }

  lemma FractionPartBytes(r: UtcTime)
    ensures var m := Micro(r);
      FractionPart(r) == [Dot, Digits10[m / 10000], Digits01[m / 10000], Digits10[m / 100 % 100], Digits01[m / 100 % 100],
                          Digits10[m % 100], Digits01[m % 100]]
  {
    var m := Micro(r);
    DigitTables(m / 10000);
    DigitTables(m / 100 % 100);
    DigitTables(m % 100);
    SixDigits(m);
  }

  /** Six digits are three two-digit groups. */
  lemma SixDigits(m: nat)
    ensures PadDecimal(m, 6) == PadDecimal(m / 10000, 2) + PadDecimal(m / 100 % 100, 2) + PadDecimal(m % 100, 2)
  {
    SplitLastPair(m, 4);
    SplitLastPair(m / 100, 2);
    assert m / 100 / 100 == m / 10000;
  }

  /**
   * appendDateTime: rounds to the microsecond, checks the year, then lays the fields out with
   * AppendLayout; on a year out of range the buffer is unchanged.
   */
  method AppendDateTime(b: ByteBuf, t: UtcTime) returns (err: Option<Error>)
    requires b.Valid()
    modifies b, b.data
    ensures b.Valid() && (b.data == old(b.data) || fresh(b.data))
    ensures err.None? <==> DateTimeText(t).Ok?
    ensures DateTimeText(t).Ok? ==> b.Contents() == old(b.Contents()) + DateTimeText(t).value
    ensures DateTimeText(t).Err? ==> err == Some(DateTimeText(t).error) && b.Contents() == old(b.Contents())
  {
    var nsec := t.nanosecond;
    var u := t;
    // half-up: 500ns more when the sub-microsecond part is at least 500ns
    if nsec % 1000 >= 500 {
      u := AddHalfMicrosecond(t);
      nsec := u.nanosecond;
    }
    var year := u.year;
    assert u == RoundToMicro(t);

    if year < 1 || year > 9999 {
      return Some(YearOutOfRange(year));
    }
    AppendLayout(b, u);
    return None;
  }

  /**
   * The rest of appendDateTime: renders the fields through the digit tables into a local 26-byte
   * array and appends the 10, 19 or 26 bytes that apply.
   */
  method AppendLayout(b: ByteBuf, u: UtcTime)
    requires b.Valid() && 1 <= u.year <= 9999
    modifies b, b.data
    ensures b.Valid() && (b.data == old(b.data) || fresh(b.data))
    ensures b.Contents() == old(b.Contents()) + Layout(u)
  {
    var hour, min, sec := u.hour, u.minute, u.second;
    var micro := u.nanosecond / 1000;
    var localBuf := new byte[26]; // room for the longest layout, YYYY-MM-DD HH:MM:SS.ffffff
    PutDate(localBuf, u);
    if hour == 0 && min == 0 && sec == 0 && micro == 0 {
      b.Append(localBuf[..10]);
      return;
    }

    PutClock(localBuf, u);
    assert localBuf[..19] == DatePart(u) + ClockPart(u) by {
      assert localBuf[..19] == localBuf[..10] + localBuf[10..19];
    }
    if micro == 0 {
      b.Append(localBuf[..19]);
      return;
    }

    PutFraction(localBuf, u);
    assert localBuf[..] == DatePart(u) + ClockPart(u) + FractionPart(u) by {
      assert localBuf[..] == localBuf[..19] + localBuf[19..];
      assert localBuf[..19] == localBuf[..10] + localBuf[10..19];
    }
    b.Append(localBuf[..]);
  }

  /** Bytes 0-9 of appendDateTime's local buffer: year, month and day through the digit tables. */
  method PutDate(localBuf: array<byte>, u: UtcTime)
    requires localBuf.Length == 26 && 1 <= u.year <= 9999
    modifies localBuf
    ensures localBuf[..10] == DatePart(u)
    ensures localBuf[10..] == old(localBuf[10..])
  {
    var year, month, day := u.year, u.month, u.day;
    var year100 := year / 100;
    var year1 := year % 100;
    localBuf[0], localBuf[1], localBuf[2], localBuf[3] := Digits10[year100], Digits01[year100], Digits10[year1], Digits01[year1];
    localBuf[4] := Minus;
    localBuf[5], localBuf[6] := Digits10[month], Digits01[month];
    localBuf[7] := Minus;
    localBuf[8], localBuf[9] := Digits10[day], Digits01[day];
    assert localBuf[..10] == DatePart(u) by {
      assert localBuf[..10] == [Digits10[year100], Digits01[year100], Digits10[year1], Digits01[year1], Minus,
                                Digits10[month], Digits01[month], Minus, Digits10[day], Digits01[day]];
      DatePartBytes(u);
    }
  }

  /** Bytes 10-18: ' ', then hour, minute and second separated by ':'. */
  method PutClock(localBuf: array<byte>, u: UtcTime)
    requires localBuf.Length == 26
    modifies localBuf
    ensures localBuf[10..19] == ClockPart(u)
    ensures localBuf[..10] == old(localBuf[..10]) && localBuf[19..] == old(localBuf[19..])
  {
    var hour, min, sec := u.hour, u.minute, u.second;
    localBuf[10] := Space;
    localBuf[11], localBuf[12] := Digits10[hour], Digits01[hour];
    localBuf[13] := Colon;
    localBuf[14], localBuf[15] := Digits10[min], Digits01[min];
    localBuf[16] := Colon;
    localBuf[17], localBuf[18] := Digits10[sec], Digits01[sec];
    assert localBuf[10..19] == ClockPart(u) by {
      assert localBuf[10..19] == [Space, Digits10[hour], Digits01[hour], Colon, Digits10[min], Digits01[min],
                                  Colon, Digits10[sec], Digits01[sec]];
      ClockPartBytes(u);
    }
  }

  /** Bytes 19-25: '.', then the microseconds as three two-digit groups. */
  method PutFraction(localBuf: array<byte>, u: UtcTime)
    requires localBuf.Length == 26
    modifies localBuf
    ensures localBuf[19..] == FractionPart(u)
    ensures localBuf[..19] == old(localBuf[..19])
  {
    var micro := u.nanosecond / 1000;
    var micro10000 := micro / 10000;
    var micro100 := (micro / 100) % 100;
    var micro1 := micro % 100;
    localBuf[19] := Dot;
    localBuf[20], localBuf[21], localBuf[22], localBuf[23], localBuf[24], localBuf[25] :=
      Digits10[micro10000], Digits01[micro10000], Digits10[micro100], Digits01[micro100], Digits10[micro1], Digits01[micro1];
    assert localBuf[19..] == FractionPart(u) by {
      assert localBuf[19..] == [Dot, Digits10[micro10000], Digits01[micro10000], Digits10[micro100], Digits01[micro100],
                                Digits10[micro1], Digits01[micro1]];
      FractionPartBytes(u);
    }
  }
}
