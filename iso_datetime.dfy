/**
 * A subset of the date-time strings that `validate_event_details` accepts:
 * Python's `datetime.fromisoformat`, applied after every 'Z' has been
 * rewritten to "+00:00".
 *
 * The grammar modelled is
 *     YYYY-MM-DD [ 'T' HH:MM [ ':' SS [ '.' 1*6DIGIT ] ] [ ('+' | '-') HH:MM ] ]
 * with the calendar rules Python enforces: years 1 to 9999, months 1 to 12,
 * the day-of-month limits of section 5.7 of RFC 3339 with the Gregorian leap
 * years of Appendix C of RFC 3339, hours below 24, minutes and seconds below
 * 60 (Python has no leap second) and offsets below 24 hours whose minutes
are below 60.
 *
 * `ParseDateTime` is the parser; `Render` writes a `DateTime` back out; the
 * lemmas `ParseRender` and `RenderParse` show that the parser accepts exactly
 * the rendered well-formed date-times and recovers them.
 */
module IsoDateTime {
  import opened Wrappers

  // ---------------------------------------------------------------- digits

  predicate IsDigit(c: char)
  {
    '0' <= c <= '9'
  }

  predicate AllDigits(s: string)
  {
    forall i :: 0 <= i < |s| ==> IsDigit(s[i])
  }

  function DigitValue(c: char): nat
    requires IsDigit(c)
  {
    (c as int) - ('0' as int)
  }

  function DigitChar(d: nat): (c: char)
    requires d < 10
    ensures IsDigit(c) && DigitValue(c) == d
  {
    (('0' as int) + d) as char
  }

  function Pow10(n: nat): (p: nat)
    ensures p >= 1
  {
    if n == 0 then 1 else 10 * Pow10(n - 1)
  }

  /** The number a decimal digit string denotes, most significant digit first. */
  function Value(s: string): (v: nat)
    requires AllDigits(s)
    ensures v < Pow10(|s|)
  {
    if s == [] then 0 else 10 * Value(s[..|s| - 1]) + DigitValue(s[|s| - 1])
  }

  /** `n` written with exactly `w` decimal digits, padded with leading zeros. */
  function Digits(n: nat, w: nat): (s: string)
    ensures |s| == w && AllDigits(s)
  {
    if w == 0 then [] else Digits(n / 10, w - 1) + [DigitChar(n % 10)]
  }

  lemma {:induction false} ValueOfDigits(n: nat, w: nat)
    requires n < Pow10(w)
    ensures Value(Digits(n, w)) == n
  {
    if w > 0 {
      assert n / 10 < Pow10(w - 1);
      ValueOfDigits(n / 10, w - 1);
      var s := Digits(n, w);
      assert s[..|s| - 1] == Digits(n / 10, w - 1);
    }
  }

  lemma {:induction false} DigitsOfValue(s: string)
    requires AllDigits(s)
    ensures Digits(Value(s), |s|) == s
  {
    if s != [] {
      var p, c := s[..|s| - 1], s[|s| - 1];
      var v, w := Value(s), Value(p);
      assert v == 10 * w + DigitValue(c);
      DivModTen(w, DigitValue(c));
      DigitsOfValue(p);
      assert DigitChar(DigitValue(c)) == c;
      assert Digits(v, |s|) == Digits(v / 10, |s| - 1) + [DigitChar(v % 10)];
      assert s == p + [c];
    }
  }

  lemma DivModTen(a: nat, d: nat)
    requires d < 10
    ensures (10 * a + d) / 10 == a && (10 * a + d) % 10 == d
  {
  }

  // -------------------------------------------------------------- calendar

  /** Gregorian leap years, Appendix C of RFC 3339. */
  predicate IsLeapYear(y: int)
  {
    y % 4 == 0 && (y % 100 != 0 || y % 400 == 0)
  }

  /** Days in month `m` of year `y`, section 5.7 of RFC 3339. */
  function DaysInMonth(y: int, m: int): (d: nat)
    requires 1 <= m <= 12
    ensures 28 <= d <= 31
    ensures d == 29 <==> m == 2 && IsLeapYear(y)
    ensures d == 28 <==> m == 2 && !IsLeapYear(y)
    ensures d == 30 <==> m == 4 || m == 6 || m == 9 || m == 11
  {
    if m == 2 then (if IsLeapYear(y) then 29 else 28)
    else if m == 4 || m == 6 || m == 9 || m == 11 then 30
    else 31
  }

  /** A date Python's `date` constructor accepts (MINYEAR is 1, MAXYEAR 9999). */
  predicate ValidDate(y: int, m: int, d: int)
  {
    1 <= y <= 9999 && 1 <= m <= 12 && 1 <= d <= DaysInMonth(y, m)
  }

  // ------------------------------------------------------------ date-times

  /** A UTC offset `+HH:MM` or `-HH:MM`. */
  datatype Offset = Offset(negative: bool, hours: nat, minutes: nat)

  /**
   * A time of day as written: seconds and the fraction are optional, and the
   * fraction is kept as the digits written (empty when absent).
   */
  datatype Time = Time(hour: nat, minute: nat, second: Option<nat>, fraction: string, offset: Option<Offset>)

  /** A date, optionally followed by a time. */
  datatype DateTime = DateTime(year: nat, month: nat, day: nat, time: Option<Time>)

  predicate ValidOffset(o: Offset)
  {
    o.hours < 24 && o.minutes < 60
  }

  /** Seconds below 60, and one to six fraction digits only after seconds. */
  predicate ValidSeconds(second: Option<nat>, fraction: string)
  {
    && (second.Some? ==> second.value < 60)
    && |fraction| <= 6 && AllDigits(fraction)
    && (fraction != [] ==> second.Some?)
  }

  predicate ValidTime(t: Time)
  {
    && t.hour < 24 && t.minute < 60
    && ValidSeconds(t.second, t.fraction)
    && (t.offset.Some? ==> ValidOffset(t.offset.value))
  }

  predicate ValidDateTime(dt: DateTime)
  {
    ValidDate(dt.year, dt.month, dt.day) && (dt.time.Some? ==> ValidTime(dt.time.value))
  }

  // ------------------------------------------------------------- rendering

  function RenderOffset(o: Offset): string
  {
    [if o.negative then '-' else '+'] + Digits(o.hours, 2) + ":" + Digits(o.minutes, 2)
  }

  /** The optional `:SS` and `.f` that follow the minutes. */
  function RenderSeconds(second: Option<nat>, fraction: string): string
  {
    (if second.Some? then ":" + Digits(second.value, 2) else "")
    + (if fraction != [] then "." + fraction else "")
  }

  /** The clock part of a time: everything but the offset. */
  function RenderClock(t: Time): string
  {
    Digits(t.hour, 2) + ":" + Digits(t.minute, 2) + RenderSeconds(t.second, t.fraction)
  }

  function RenderTime(t: Time): string
  {
    RenderClock(t) + (if t.offset.Some? then RenderOffset(t.offset.value) else "")
  }

  function Render(dt: DateTime): string
  {
    Digits(dt.year, 4) + "-" + Digits(dt.month, 2) + "-" + Digits(dt.day, 2)
    + (if dt.time.Some? then "T" + RenderTime(dt.time.value) else "")
  }

  // --------------------------------------------------------------- parsing

  /** Exactly six characters: a sign, two digits, ':', two digits. */
  function ParseOffset(s: string): Option<Offset>
  {
    if |s| == 6 && (s[0] == '+' || s[0] == '-') && AllDigits(s[1..3]) && s[3] == ':' && AllDigits(s[4..6]) then
      var o := Offset(s[0] == '-', Value(s[1..3]), Value(s[4..6]));
      if ValidOffset(o) then Some(o) else None
    else
      None
  }

  /** What follows the minutes: nothing, `:SS`, or `:SS.f` with one to six fraction digits. */
  function ParseSeconds(s: string): Option<(Option<nat>, string)>
  {
    if s == [] then Some((None, ""))
    else if |s| < 3 || s[0] != ':' || !AllDigits(s[1..3]) || Value(s[1..3]) >= 60 then None
    else if |s| == 3 then Some((Some(Value(s[1..3])), ""))
    else if |s| < 5 || 10 < |s| || s[3] != '.' || !AllDigits(s[4..]) then None
    else Some((Some(Value(s[1..3])), s[4..]))
  }

  /** `HH:MM`, `HH:MM:SS` or `HH:MM:SS.f`. */
  function ParseClock(s: string, offset: Option<Offset>): Option<Time>
  {
    if |s| < 5 || !AllDigits(s[0..2]) || s[2] != ':' || !AllDigits(s[3..5]) then None
    else
      var h, mi := Value(s[0..2]), Value(s[3..5]);
      if h >= 24 || mi >= 60 then None
      else
        match ParseSeconds(s[5..])
        case None => None
        case Some((second, fraction)) => Some(Time(h, mi, second, fraction, offset))
  }

  /** A time, with the offset (if any) as its last six characters. */
  function ParseTime(s: string): Option<Time>
  {
    if |s| >= 6 && (s[|s| - 6] == '+' || s[|s| - 6] == '-') then
      match ParseOffset(s[|s| - 6..])
      case None => None
      case Some(o) => ParseClock(s[..|s| - 6], Some(o))
    else
      ParseClock(s, None)
  }

  function ParseDateTime(s: string): Option<DateTime>
  {
    if |s| < 10 || !AllDigits(s[0..4]) || s[4] != '-' || !AllDigits(s[5..7]) || s[7] != '-' || !AllDigits(s[8..10]) then
      None
    else
      var y, m, d := Value(s[0..4]), Value(s[5..7]), Value(s[8..10]);
      if !ValidDate(y, m, d) then None
      else if |s| == 10 then Some(DateTime(y, m, d, None))
      else if s[10] != 'T' then None
      else
        match ParseTime(s[11..])
        case None => None
        case Some(t) => Some(DateTime(y, m, d, Some(t)))
  }

  // ----------------------------------------------------- 'Z' rewriting

  /** Python's `s.replace('Z', '+00:00')`: every 'Z', left to right. */
  function ReplaceZ(s: string): string
  {
    if s == [] then []
    else (if s[0] == 'Z' then "+00:00" else [s[0]]) + ReplaceZ(s[1..])
  }

  /** The rewrite leaves no 'Z', keeps every other character and is the identity on Z-free text. */
  lemma {:induction false} ReplaceZRemovesZ(s: string)
    ensures 'Z' !in ReplaceZ(s)
    ensures 'Z' !in s ==> ReplaceZ(s) == s
    ensures forall c :: c in s && c != 'Z' ==> c in ReplaceZ(s)
  {
    if s != [] {
      ReplaceZRemovesZ(s[1..]);
      var head := if s[0] == 'Z' then "+00:00" else [s[0]];
      assert ReplaceZ(s) == head + ReplaceZ(s[1..]);
      assert s == [s[0]] + s[1..];
      forall c | c in s && c != 'Z'
        ensures c in ReplaceZ(s)
      {
        if c == s[0] {
          assert ReplaceZ(s)[0] == c;
        } else {
          assert c in s[1..];
        }
      }
    }
  }

  lemma {:induction false} ReplaceZAppend(a: string, b: string)
    ensures ReplaceZ(a + b) == ReplaceZ(a) + ReplaceZ(b)
  {
    if a != [] {
      var head := if a[0] == 'Z' then "+00:00" else [a[0]];
      assert (a + b)[0] == a[0];
      assert (a + b)[1..] == a[1..] + b;
      ReplaceZAppend(a[1..], b);
      var x, y := ReplaceZ(a[1..]), ReplaceZ(b);
      assert ReplaceZ(a + b) == head + (x + y);
      assert ReplaceZ(a) == head + x;
      assert head + (x + y) == (head + x) + y;
    } else {
      assert a + b == b;
    }
  }

  /** A subset of what `datetime.fromisoformat(s.replace('Z', '+00:00'))` accepts. */
  predicate IsoFormatAccepts(s: string)
  {
    ParseDateTime(ReplaceZ(s)).Some?
  }

  // ------------------------------------------------------------ the proofs

  /** The characters a rendered date-time can contain. */
  predicate IsClockChar(c: char)
  {
    IsDigit(c) || c == ':' || c == '.'
  }

  lemma ClockAlphabet(t: Time)
    requires ValidTime(t)
    ensures forall i :: 0 <= i < |RenderClock(t)| ==> IsClockChar(RenderClock(t)[i])
  {
    var r := RenderSeconds(t.second, t.fraction);
    assert forall i :: 0 <= i < |r| ==> IsClockChar(r[i]);
  }

  /** The characters a rendered date-time is made of. */
  predicate IsRenderChar(c: char)
  {
    IsClockChar(c) || c == '-' || c == '+' || c == 'T'
  }

  predicate OverRenderChars(s: string)
  {
    forall i :: 0 <= i < |s| ==> IsRenderChar(s[i])
  }

  lemma RenderAlphabet(dt: DateTime)
    requires ValidDateTime(dt)
    ensures OverRenderChars(Render(dt))
  {
    if dt.time.Some? {
      ClockAlphabet(dt.time.value);
    }
  }

  lemma RenderHasNoZ(dt: DateTime)
    requires ValidDateTime(dt)
    ensures 'Z' !in Render(dt)
  {
    RenderAlphabet(dt);
  }

  /** Two digits written out at position k of s read back as their value. */
  lemma TwoDigitsAt(s: string, k: nat, n: nat)
    requires n < 100 && k + 2 <= |s| && s[k..k + 2] == Digits(n, 2)
    ensures AllDigits(s[k..k + 2]) && Value(s[k..k + 2]) == n
  {
    ValueOfDigits(n, 2);
  }

  lemma {:induction false} OffsetRoundTrip(o: Offset)
    requires ValidOffset(o)
    ensures ParseOffset(RenderOffset(o)) == Some(o)
  {
    var s := RenderOffset(o);
    var sign := if o.negative then '-' else '+';
    assert s == [sign] + Digits(o.hours, 2) + ":" + Digits(o.minutes, 2);
    assert s[0] == sign && s[3] == ':';
    TwoDigitsAt(s, 1, o.hours);
    TwoDigitsAt(s, 4, o.minutes);
  }

  lemma {:induction false} ClockRoundTrip(t: Time, offset: Option<Offset>)
    requires ValidTime(t) && t.offset == offset
    ensures ParseClock(RenderClock(t), offset) == Some(t)
  {
    var s := RenderClock(t);
    var rest := RenderSeconds(t.second, t.fraction);
    assert s == Digits(t.hour, 2) + ":" + Digits(t.minute, 2) + rest;
    TwoDigitsAt(s, 0, t.hour);
    TwoDigitsAt(s, 3, t.minute);
    assert s[5..] == rest;
    SecondsRoundTrip(t.second, t.fraction);
  }

  lemma {:induction false} SecondsRoundTrip(second: Option<nat>, fraction: string)
    requires ValidSeconds(second, fraction)
    ensures ParseSeconds(RenderSeconds(second, fraction)) == Some((second, fraction))
  {
    if second.Some? {
      var ss := ":" + Digits(second.value, 2);
      if fraction == [] {
        TwoDigitsAt(ss, 1, second.value);
        assert RenderSeconds(second, fraction) == ss;
      } else {
        assert RenderSeconds(second, fraction) == ss + "." + fraction;
        FractionRoundTrip(second.value, fraction);
      }
    }
  }

  lemma FractionRoundTrip(second: nat, fraction: string)
    requires second < 60 && 1 <= |fraction| <= 6 && AllDigits(fraction)
    ensures ParseSeconds(":" + Digits(second, 2) + "." + fraction) == Some((Some(second), fraction))
  {
    var s := ":" + Digits(second, 2) + "." + fraction;
    assert s[1..3] == Digits(second, 2);
    TwoDigitsAt(s, 1, second);
    assert s[3] == '.' && s[4..] == fraction;
  }

  lemma {:induction false} TimeRoundTrip(t: Time)
    requires ValidTime(t)
    ensures ParseTime(RenderTime(t)) == Some(t)
  {
    var c := RenderClock(t);
    var s := RenderTime(t);
    ClockRoundTrip(t, t.offset);
    if t.offset.Some? {
      OffsetRoundTrip(t.offset.value);
      assert s[|s| - 6..] == RenderOffset(t.offset.value);
      assert s[..|s| - 6] == c;
    } else {
      assert s == c;
      ClockAlphabet(t);
      if |s| >= 6 {
        assert IsClockChar(s[|s| - 6]);
      }
    }
  }

  /** Every well-formed date-time, once written out, parses back to itself. */
  lemma {:induction false} RenderParse(dt: DateTime)
    requires ValidDateTime(dt)
    ensures ParseDateTime(Render(dt)) == Some(dt)
  {
    var s := Render(dt);
    assert s[0..4] == Digits(dt.year, 4);
    assert s[5..7] == Digits(dt.month, 2);
    assert s[8..10] == Digits(dt.day, 2);
    ValueOfDigits(dt.year, 4);
    ValueOfDigits(dt.month, 2);
    ValueOfDigits(dt.day, 2);
    if dt.time.Some? {
      assert s[11..] == RenderTime(dt.time.value);
      TimeRoundTrip(dt.time.value);
    }
  }

  lemma {:induction false} ParseOffsetSound(s: string, o: Offset)
    requires ParseOffset(s) == Some(o)
    ensures ValidOffset(o) && RenderOffset(o) == s
  {
    DigitsOfValue(s[1..3]);
    DigitsOfValue(s[4..6]);
    assert s == s[..1] + s[1..3] + s[3..4] + s[4..6];
  }

  lemma {:induction false} ParseClockSound(s: string, offset: Option<Offset>, t: Time)
    requires ParseClock(s, offset) == Some(t)
    requires offset.Some? ==> ValidOffset(offset.value)
    ensures ValidTime(t) && t.offset == offset && RenderClock(t) == s
  {
    HoursMinutesSound(s);
    ParseSecondsSound(s[5..], t.second, t.fraction);
    assert s == s[..5] + s[5..];
  }

  /** The `HH:MM` the clock parser read is the one written out. */
  lemma HoursMinutesSound(s: string)
    requires |s| >= 5 && AllDigits(s[0..2]) && s[2] == ':' && AllDigits(s[3..5])
    ensures Digits(Value(s[0..2]), 2) + ":" + Digits(Value(s[3..5]), 2) == s[..5]
  {
    DigitsOfValue(s[0..2]);
    DigitsOfValue(s[3..5]);
    assert s[..5] == s[0..2] + s[2..3] + s[3..5];
  }

  /** What `ParseSeconds` accepts is well formed and written out exactly. */
  lemma {:induction false} ParseSecondsSound(s: string, second: Option<nat>, fraction: string)
    requires ParseSeconds(s) == Some((second, fraction))
    ensures ValidSeconds(second, fraction) && RenderSeconds(second, fraction) == s
  {
    if s != [] {
      DigitsOfValue(s[1..3]);
      assert s[..3] == s[..1] + s[1..3];
      if |s| == 3 {
        assert s == s[..3];
      } else {
        assert s == s[..3] + "." + s[4..];
      }
    }
  }

  lemma {:induction false} ParseTimeSound(s: string, t: Time)
    requires ParseTime(s) == Some(t)
    ensures ValidTime(t) && RenderTime(t) == s
  {
    if |s| >= 6 && (s[|s| - 6] == '+' || s[|s| - 6] == '-') {
      ParsedOffsetParts(s, t);
      ParseOffsetSound(s[|s| - 6..], t.offset.value);
      ParseClockSound(s[..|s| - 6], t.offset, t);
      assert s == s[..|s| - 6] + s[|s| - 6..];
    } else {
      ParseClockSound(s, None, t);
    }
  }

  /** What the time parser read when the last six characters are an offset. */
  lemma ParsedOffsetParts(s: string, t: Time)
    requires ParseTime(s) == Some(t) && |s| >= 6 && (s[|s| - 6] == '+' || s[|s| - 6] == '-')
    ensures t.offset.Some? && ParseOffset(s[|s| - 6..]) == t.offset
    ensures ParseClock(s[..|s| - 6], t.offset) == Some(t)
  {
  }

  /** Whatever the parser accepts is a well-formed date-time written out exactly. */
  lemma {:induction false} ParseRender(s: string, dt: DateTime)
    requires ParseDateTime(s) == Some(dt)
    ensures ValidDateTime(dt) && Render(dt) == s
  {
    if |s| == 10 {
      DateOnlySound(s, dt);
    } else {
      DateAndTimeSound(s, dt);
    }
  }

  lemma DateOnlySound(s: string, dt: DateTime)
    requires ParseDateTime(s) == Some(dt) && |s| == 10
    ensures ValidDateTime(dt) && Render(dt) == s
  {
    DateSound(s);
    assert s == s[..10];
  }

  lemma DateAndTimeSound(s: string, dt: DateTime)
    requires ParseDateTime(s) == Some(dt) && |s| != 10
    ensures ValidDateTime(dt) && Render(dt) == s
  {
    ParsedParts(s, dt);
    DateSound(s);
    ParseTimeSound(s[11..], dt.time.value);
    RenderParts(s, dt);
  }

  /** What the parser read from each part of a date and time. */
  lemma ParsedParts(s: string, dt: DateTime)
    requires ParseDateTime(s) == Some(dt) && |s| != 10
    ensures |s| > 11 && s[10] == 'T' && ValidDate(dt.year, dt.month, dt.day)
    ensures AllDigits(s[0..4]) && s[4] == '-' && AllDigits(s[5..7]) && s[7] == '-' && AllDigits(s[8..10])
    ensures dt.year == Value(s[0..4]) && dt.month == Value(s[5..7]) && dt.day == Value(s[8..10])
    ensures dt.time.Some? && ParseTime(s[11..]) == dt.time
  {
  }

  /** A date and a time written out, put together. */
  lemma RenderParts(s: string, dt: DateTime)
    requires |s| > 11 && s[10] == 'T' && dt.time.Some?
    requires Digits(dt.year, 4) + "-" + Digits(dt.month, 2) + "-" + Digits(dt.day, 2) == s[..10]
    requires RenderTime(dt.time.value) == s[11..]
    ensures Render(dt) == s
  {
    SplitAround(s, 10);
  }

  /** A string is what comes before position k, the character at k, and what comes after. */
  lemma SplitAround(s: string, k: nat)
    requires k < |s|
    ensures s == s[..k] + ([s[k]] + s[k + 1..])
  {
  }

  /** The date part the parser accepted is the date written out. */
  lemma DateSound(s: string)
    requires |s| >= 10 && AllDigits(s[0..4]) && s[4] == '-' && AllDigits(s[5..7]) && s[7] == '-' && AllDigits(s[8..10])
    ensures Digits(Value(s[0..4]), 4) + "-" + Digits(Value(s[5..7]), 2) + "-" + Digits(Value(s[8..10]), 2) == s[..10]
  {
    DigitsOfValue(s[0..4]);
    DigitsOfValue(s[5..7]);
    DigitsOfValue(s[8..10]);
    assert s[..10] == s[0..4] + s[4..5] + s[5..7] + s[7..8] + s[8..10];
  }

  /** The parser's language is exactly the set of rendered well-formed date-times. */
  lemma ParserLanguage(s: string)
    ensures ParseDateTime(s).Some? <==> exists dt :: ValidDateTime(dt) && Render(dt) == s
  {
    if ParseDateTime(s).Some? {
      ParseRender(s, ParseDateTime(s).value);
    }
    if exists dt :: ValidDateTime(dt) && Render(dt) == s {
      var dt :| ValidDateTime(dt) && Render(dt) == s;
      RenderParse(dt);
    }
  }

  /**
   * A time without an offset followed by a trailing 'Z' is accepted, and reads
   * as the offset +00:00.
   */
  lemma TrailingZIsUtc(dt: DateTime)
    requires ValidDateTime(dt) && dt.time.Some? && dt.time.value.offset.None?
    ensures ParseDateTime(ReplaceZ(Render(dt) + "Z"))
         == Some(dt.(time := Some(dt.time.value.(offset := Some(Offset(false, 0, 0))))))
  {
    var utc := dt.(time := Some(dt.time.value.(offset := Some(Offset(false, 0, 0)))));
    RenderHasNoZ(dt);
    ReplaceZRemovesZ(Render(dt));
    ReplaceZAppend(Render(dt), "Z");
    assert ReplaceZ(Render(dt) + "Z") == Render(dt) + "+00:00";
    UtcRender(dt);
    RenderParse(utc);
  }

  lemma UtcRender(dt: DateTime)
    requires dt.time.Some? && dt.time.value.offset.None?
    ensures Render(dt.(time := Some(dt.time.value.(offset := Some(Offset(false, 0, 0)))))) == Render(dt) + "+00:00"
  {
    assert Digits(0, 2) == "00";
    assert RenderOffset(Offset(false, 0, 0)) == "+00:00";
  }

  /** The first ten characters of a date written out, whatever follows. */
  lemma DatePrefix(y: nat, m: nat, d: nat, rest: string)
    ensures var s := Digits(y, 4) + "-" + Digits(m, 2) + "-" + Digits(d, 2) + rest;
      |s| >= 10 && s[0..4] == Digits(y, 4) && s[4] == '-' && s[5..7] == Digits(m, 2)
      && s[7] == '-' && s[8..10] == Digits(d, 2)
  {
  }

  /**
   * A string whose first ten characters name a date that does not exist
   * (month 13, February 30, February 29 of a common year, ...) is rejected,
   * whatever follows.
   */
  lemma NonexistentDateRejected(y: nat, m: nat, d: nat, rest: string)
    requires y < 10000 && m < 100 && d < 100
    requires !ValidDate(y, m, d)
    ensures !IsoFormatAccepts(Digits(y, 4) + "-" + Digits(m, 2) + "-" + Digits(d, 2) + rest)
  {
    var date := Digits(y, 4) + "-" + Digits(m, 2) + "-" + Digits(d, 2);
    assert 'Z' !in date by {
      assert forall i :: 0 <= i < |date| ==> IsRenderChar(date[i]);
    }
    ReplaceZRemovesZ(date);
    ReplaceZAppend(date, rest);
    var s := ReplaceZ(date + rest);
    assert s == date + ReplaceZ(rest);
    DatePrefix(y, m, d, ReplaceZ(rest));
    ValueOfDigits(y, 4);
    ValueOfDigits(m, 2);
    ValueOfDigits(d, 2);
  }

  /** February 29 is accepted exactly in leap years. */
  lemma LeapDayAcceptedIffLeapYear(y: nat)
    requires 1 <= y <= 9999
    ensures IsoFormatAccepts(Digits(y, 4) + "-02-29") <==> IsLeapYear(y)
  {
    if IsLeapYear(y) {
      LeapDayAccepted(y);
    } else {
      LeapDayRejected(y);
    }
  }

  lemma LeapDayAccepted(y: nat)
    requires 1 <= y <= 9999 && IsLeapYear(y)
    ensures IsoFormatAccepts(Digits(y, 4) + "-02-29")
  {
    var dt := DateTime(y, 2, 29, None);
    assert DaysInMonth(y, 2) == 29;
    LeapDayText(y);
    assert Render(dt) == Digits(y, 4) + "-" + Digits(2, 2) + "-" + Digits(29, 2) + "";
    RenderHasNoZ(dt);
    ReplaceZRemovesZ(Render(dt));
    RenderParse(dt);
  }

  lemma LeapDayRejected(y: nat)
    requires 1 <= y <= 9999 && !IsLeapYear(y)
    ensures !IsoFormatAccepts(Digits(y, 4) + "-02-29")
  {
    assert DaysInMonth(y, 2) == 28;
    NonexistentDateRejected(y, 2, 29, "");
    LeapDayText(y);
  }

  lemma LeapDayText(y: nat)
    ensures Digits(y, 4) + "-" + Digits(2, 2) + "-" + Digits(29, 2) + "" == Digits(y, 4) + "-02-29"
  {
    assert Digits(2, 2) == "02" && Digits(29, 2) == "29";
  }
}
