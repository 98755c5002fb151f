/** The time helpers of the scraping service: `parseTime`, `getDayIndex`,
    `convertLeetCodeTimeToDate`, `convertRelativeTimeToDate` and
    `convertDurationToHHMM`. Instants are integer milliseconds since the epoch; the
    current instant `now` and the machine's `getTimezoneOffset()` (minutes, UTC minus
    local) are parameters, and that offset is taken as fixed (no daylight saving). */
module TimeNormalizer {
  import opened Text
  import opened Regex

  const MinuteMs: int := 60000
  const HourMs: int := 3600000
  const DayMs: int := 86400000

  /** A start time as an adapter hands it to the store: null (the text did not
      match), an Invalid Date (JavaScript arithmetic produced NaN), or an instant. */
  datatype StartTime = Null | InvalidDate | Instant(ms: int)

  // ---------------------------------------------------------------- weekdays

  const Weekdays: seq<string> := ["Sunday", "Monday", "Tuesday", "Wednesday", "Thursday", "Friday", "Saturday"]

  /** `getDayIndex`: the position of the name in the week starting on Sunday, or -1. */
  function GetDayIndex(day: string): (r: int)
    ensures -1 <= r <= 6
    ensures r == -1 <==> day !in Weekdays
    ensures r >= 0 ==> Weekdays[r] == day
  {
    IndexOf(Weekdays, day)
  }

  /** Local wall-clock milliseconds of a UTC instant, for a machine whose
      `getTimezoneOffset()` is `tz` minutes. */
  function LocalMs(utc: int, tz: int): int { utc - tz * MinuteMs }

  /** Calendar day number (days since 1 January 1970) of a wall-clock value. */
  function DayNumber(ms: int): int { ms / DayMs }

  /** `getDay()` of a day number: 1 January 1970 was a Thursday (4). */
  function WeekdayOf(day: int): (w: int)
    ensures 0 <= w < 7
  {
    (day + 4) % 7
  }

  /** The shift `(dayIndex - today + 7) % 7` of `convertLeetCodeTimeToDate`. Both
      operands of `%` are non-negative here, so JavaScript's `%` and Dafny's agree. */
  function DaysAhead(dayIndex: int, today: int): (k: int)
    requires -1 <= dayIndex <= 6 && 0 <= today < 7
    ensures 0 <= k <= 6
    ensures 0 <= dayIndex ==> (today + k) % 7 == dayIndex
    ensures dayIndex == -1 ==> (today + k) % 7 == 6
    ensures dayIndex == today ==> k == 0
  {
    (dayIndex - today + 7) % 7
  }

  // ------------------------------------------------- the LeetCode time regex

  predicate IsAPM(c: char) { c == 'A' || c == 'P' || c == 'M' }

  predicate IsSign(c: char) { c == '+' || c == '-' }

  /** `/(\w+)\s(\d{1,2}:\d{2}\s[APM]+)\sGMT([+-]\d{1,2}:\d{2})/`, one element per
      regular-expression atom. */
  const LeetCodePattern: seq<Elem> := [
    Plus(IsWordChar), One(IsJsSpace),                                     // (\w+)\s
    Times(IsDigit, 1, 2), Lit(':'), Times(IsDigit, 2, 2), One(IsJsSpace),  // (\d{1,2}:\d{2}\s
    Plus(IsAPM), One(IsJsSpace),                                          //  [APM]+)\s
    Lit('G'), Lit('M'), Lit('T'),                                         // GMT
    One(IsSign), Times(IsDigit, 1, 2), Lit(':'), Times(IsDigit, 2, 2)]     // ([+-]\d{1,2}:\d{2})

  /** No atom of the LeetCode regex can hand characters to the next one, so the
      greedy engine reports exactly the regular-expression matches. */
  lemma LeetCodePatternDeterministic()
    ensures Deterministic(LeetCodePattern)
  {
    var pat := LeetCodePattern;
    forall i, j | 0 <= i < j < |pat| && j == i + 1 ensures Handover(pat[i], pat[j]) {
      if i == 0 { assert Disjoint(IsWordChar, IsJsSpace); }
      else if i == 2 || i == 12 { assert Disjoint(IsDigit, x => x == ':'); }
      else if i == 6 { assert Disjoint(IsAPM, IsJsSpace); }
      else { assert Fixed(pat[i]); }
    }
  }

  /** The second capture of the regex: `hour:minute<sep>period`. */
  datatype Clock = Clock(hour: string, minute: string, sep: char, period: string)

  /** The third capture: `<sign>hour:minute`. */
  datatype Offset = Offset(sign: char, hour: string, minute: string)

  /** The three captures of a match. */
  datatype LeetCodeMatch = LeetCodeMatch(day: string, clock: Clock, offset: Offset)

  /** The captures read off the pieces of a match. */
  function Captures(pieces: seq<string>): (m: LeetCodeMatch)
    requires PiecesFit(LeetCodePattern, pieces)
    ensures AllDigits(m.clock.hour) && AllDigits(m.clock.minute)
    ensures AllDigits(m.offset.hour) && AllDigits(m.offset.minute) && IsSign(m.offset.sign)
    ensures IsJsSpace(m.clock.sep) && m.day == pieces[0]
  {
    assert Fits(LeetCodePattern[2], pieces[2]) && Fits(LeetCodePattern[4], pieces[4]);
    assert Fits(LeetCodePattern[5], pieces[5]) && Fits(LeetCodePattern[11], pieces[11]);
    assert Fits(LeetCodePattern[12], pieces[12]) && Fits(LeetCodePattern[14], pieces[14]);
    LeetCodeMatch(pieces[0],
                  Clock(pieces[2], pieces[4], pieces[5][0], pieces[6]),
                  Offset(pieces[11][0], pieces[12], pieces[14]))
  }

  // ----------------------------------------------------------------- parseTime

  /** `parseTime` on the clock capture `hour:minute<sep>period`: `split(" ")`, then
      `split(":")` and `Number`. `None` stands for the NaN minutes that appear when
      the separator is not a plain space (the whole rest then lands in the minutes
      field). */
  function ParseTime(c: Clock): (r: Option<(int, int)>)
    requires AllDigits(c.hour) && AllDigits(c.minute)
    ensures r.Some? <==> c.sep == ' '
  {
    if c.sep != ' ' then None
    else
      var h := DecimalValue(c.hour);
      var h' := if c.period == "PM" && h != 12 then h + 12 else if c.period == "AM" && h == 12 then 0 else h;
      Some((h', DecimalValue(c.minute)))
  }

  /** The twelve-hour hour of a 24-hour clock hour. */
  function Hour12(h24: nat): (h: nat)
    requires h24 < 24
    ensures 1 <= h <= 12
  {
    if h24 == 0 then 12 else if h24 <= 12 then h24 else h24 - 12
  }

  function Period(h24: nat): string { if h24 < 12 then "AM" else "PM" }

  lemma AmIsNotPm()
    ensures "AM" != "PM"
  {
    assert "AM"[0] != "PM"[0];
  }

  /** `parseTime` inverts the twelve-hour rendering: every 24-hour hour is reached. */
  lemma ParseTimeInverts12Hour(h24: nat, minute: string)
    requires h24 < 24 && AllDigits(minute)
    ensures ParseTime(Clock(NatToString(Hour12(h24)), minute, ' ', Period(h24))) == Some((h24, DecimalValue(minute)))
  {
    if h24 < 12 {
      ParseTimeAm(Hour12(h24), minute);
    } else {
      ParseTimePm(Hour12(h24), minute);
    }
  }

  /** ... and on well-formed twelve-hour input (1..12, AM or PM) it yields a 24-hour
      hour that renders back to the same input, so the conversion is a bijection. */
  lemma ParseTimeOn12HourInput(h: nat, minute: string, period: string)
    requires 1 <= h <= 12 && (period == "AM" || period == "PM") && AllDigits(minute)
    ensures var r := ParseTime(Clock(NatToString(h), minute, ' ', period));
            r.Some? && 0 <= r.value.0 < 24 && Hour12(r.value.0) == h && Period(r.value.0) == period
  {
    if period == "AM" {
      ParseTimeAm(h, minute);
    } else {
      ParseTimePm(h, minute);
    }
  }

  lemma ParseTimeAm(h: nat, minute: string)
    requires 1 <= h <= 12 && AllDigits(minute)
    ensures var h24 := if h == 12 then 0 else h;
      && ParseTime(Clock(NatToString(h), minute, ' ', "AM")) == Some((h24, DecimalValue(minute)))
      && Hour12(h24) == h && Period(h24) == "AM"
  {
    DecimalOfNatToString(h);
    assert "AM" != "PM" by { assert "AM"[0] != "PM"[0]; }
  }

  lemma ParseTimePm(h: nat, minute: string)
    requires 1 <= h <= 12 && AllDigits(minute)
    ensures var h24 := if h == 12 then 12 else h + 12;
      && ParseTime(Clock(NatToString(h), minute, ' ', "PM")) == Some((h24, DecimalValue(minute)))
      && Hour12(h24) == h && Period(h24) == "PM"
  {
    DecimalOfNatToString(h);
  }

  // --------------------------------------------------- convertLeetCodeTimeToDate

  /** The offset capture `<sign>h:mm` as the source turns it into minutes:
      `Number("<sign>h") * 60 + Number("mm")`; the minutes keep a plus sign even when
      the hours are negative. */
  function OffsetMinutes(o: Offset): int
    requires AllDigits(o.hour) && AllDigits(o.minute)
  {
    var h: int := DecimalValue(o.hour);
    (if o.sign == '-' then -h else h) * 60 + DecimalValue(o.minute)
  }

  /** "GMT+5:30" subtracts 330 minutes, but "GMT-5:30" subtracts -270 minutes rather
      than -330: the minutes are not negated with the hours. */
  lemma OffsetSignExamples()
    ensures OffsetMinutes(Offset('+', "5", "30")) == 330
    ensures OffsetMinutes(Offset('-', "5", "30")) == -270
    ensures OffsetMinutes(Offset('-', "05", "00")) == -300
  {
    assert DecimalValue("5") == 5 by { assert "5"[..0] == []; }
    assert DecimalValue("30") == 30 by { assert "30"[..1] == "3"; assert "3"[..0] == []; }
    assert DecimalValue("05") == 5 by { assert "05"[..1] == "0"; assert "0"[..0] == []; }
    assert DecimalValue("00") == 0 by { assert "00"[..1] == "0"; assert "0"[..0] == []; }
  }

  /** The local calendar day that `setHours(h, m, 0, 0)` lands on: the day of `now`
      plus any whole days an hour beyond 23 or a minute beyond 59 rolls over. */
  function ClockDay(now: int, tz: int, h: int, m: int): int {
    DayNumber(DayNumber(LocalMs(now, tz)) * DayMs + (h * HourMs + m * MinuteMs))
  }

  /** The day chosen by `setDate(getDate() + (dayIndex - getDay() + 7) % 7)`. */
  function TargetDay(now: int, tz: int, h: int, m: int, dayIndex: int): int
    requires -1 <= dayIndex <= 6
  {
    var d := ClockDay(now, tz, h, m);
    d + DaysAhead(dayIndex, WeekdayOf(d))
  }

  /** The instant `convertLeetCodeTimeToDate` returns for a match: the moment when a
      clock at UTC plus `offsetMin` minutes shows the time of day `h:m` (reduced
      modulo a day) on the chosen calendar day. The machine offset plays no part
      except in choosing the calendar day. */
  function ResolvedInstant(now: int, tz: int, h: int, m: int, dayIndex: int, offsetMin: int): int
    requires -1 <= dayIndex <= 6
  {
    TargetDay(now, tz, h, m, dayIndex) * DayMs + (h * HourMs + m * MinuteMs) % DayMs - offsetMin * MinuteMs
  }

  /** The start time the LeetCode adapter derives from the card text: null when the
      regex matches nowhere, an Invalid Date when `parseTime` yields NaN, otherwise
      the resolved instant of the leftmost match. */
  function LeetCodeStart(text: string, now: int, tz: int): StartTime
  {
    match Search(LeetCodePattern, text)
    case None => Null
    case Some((_, pieces)) =>
      var m := Captures(pieces);
      match ParseTime(m.clock)
      case None => InvalidDate
      case Some((h, mi)) =>
        Instant(ResolvedInstant(now, tz, h, mi, GetDayIndex(m.day), OffsetMinutes(m.offset)))
  }

  /** The LeetCode start is null exactly when the regex matches nowhere in the text. */
  lemma LeetCodeStartNullIffNoMatch(text: string, now: int, tz: int)
    ensures LeetCodeStart(text, now, tz).Null? <==>
              forall k, pieces :: 0 <= k <= |text| ==> !Matches(LeetCodePattern, pieces, text[k..])
  {
    LeetCodePatternDeterministic();
    SearchFailsIffNoMatch(LeetCodePattern, text);
  }

  /** A wall-clock value is its day's midnight plus its time of day. */
  lemma ClockSplit(k: int, x: int)
    ensures k * DayMs + x == DayNumber(k * DayMs + x) * DayMs + x % DayMs
  {
    DayNumberShift(k, x);
  }

  lemma DayNumberShift(k: int, x: int)
    ensures DayNumber(k * DayMs + x) == k + x / DayMs
    ensures (k * DayMs + x) % DayMs == x % DayMs
  {
  }

  /** `convertLeetCodeTimeToDate`, step by step on a `Date` held as local wall-clock
      milliseconds. */
  method ConvertLeetCodeTimeToDate(text: string, now: int, tz: int) returns (r: StartTime)
    ensures r == LeetCodeStart(text, now, tz)
  {
    var found := Search(LeetCodePattern, text);
    if found.None? {
      return Null;
    }
    var m := Captures(found.value.1);
    var clock := ParseTime(m.clock);
    if clock.None? {
      return InvalidDate;
    }
    var h := clock.value.0;
    var mi := clock.value.1;
    // const date = new Date()
    var date := LocalMs(now, tz);
    // date.setHours(h, mi, 0, 0)
    var today := DayNumber(date);
    var atClock := today * DayMs + (h * HourMs + mi * MinuteMs);
    // date.setDate(date.getDate() + ((getDayIndex(day) - date.getDay() + 7) % 7))
    var dayIndex := GetDayIndex(m.day);
    var onDay := atClock + DaysAhead(dayIndex, WeekdayOf(DayNumber(atClock))) * DayMs;
    // date.getTime() - date.getTimezoneOffset() * 60 * 1000 - offsetMs
    var time := onDay + tz * MinuteMs;
    var offsetMs := OffsetMinutes(m.offset) * MinuteMs;
    var ms := time - tz * MinuteMs - offsetMs;
    ResolvedSteps(now, tz, h, mi, dayIndex, OffsetMinutes(m.offset), today, atClock, onDay, ms);
    r := Instant(ms);
  }

  /** The `Date` steps of `convertLeetCodeTimeToDate` compute `ResolvedInstant`. */
  lemma ResolvedSteps(now: int, tz: int, h: int, mi: int, dayIndex: int, off: int,
                      today: int, atClock: int, onDay: int, ms: int)
    requires -1 <= dayIndex <= 6
    requires today == DayNumber(LocalMs(now, tz))
    requires atClock == today * DayMs + (h * HourMs + mi * MinuteMs)
    requires onDay == atClock + DaysAhead(dayIndex, WeekdayOf(DayNumber(atClock))) * DayMs
    requires ms == onDay + tz * MinuteMs - tz * MinuteMs - off * MinuteMs
    ensures ms == ResolvedInstant(now, tz, h, mi, dayIndex, off)
  {
    var x := h * HourMs + mi * MinuteMs;
    ClockSplit(today, x);
    var day := ClockDay(now, tz, h, mi);
    assert atClock == day * DayMs + x % DayMs;
    var k := DaysAhead(dayIndex, WeekdayOf(day));
    assert atClock + k * DayMs == (day + k) * DayMs + x % DayMs;
  }

  /** A LeetCode card text built from its parts: weekday, clock hour and minutes,
      period, offset sign, offset hour and minutes. */
  function LeetCodeJoin(w: string, hh: string, mm: string, per: string, sign: char, oh: string, om: string): string {
    w + (" " + (hh + (":" + (mm + (" " + (per + (" GMT" + ([sign] + (oh + (":" + om))))))))))
  }

  /** The same text cut the way the regex splits it, one piece per atom. */
  function LeetCodeParts(w: string, hh: string, mm: string, per: string, sign: char, oh: string, om: string): seq<string> {
    [w, " ", hh, ":", mm, " ", per, " ", "G", "M", "T", [sign], oh, ":", om]
  }

  lemma LeetCodePartsConcat(w: string, hh: string, mm: string, per: string, sign: char, oh: string, om: string)
    ensures Concat(LeetCodeParts(w, hh, mm, per, sign, oh, om)) == LeetCodeJoin(w, hh, mm, per, sign, oh, om)
  {
    var ps := LeetCodeParts(w, hh, mm, per, sign, oh, om);
    assert ps[15..] == [];
    ConcatAt(ps, 14);
    ConcatAt(ps, 13);
    ConcatAt(ps, 12);
    assert Concat(ps[12..]) == oh + (":" + om);
    ConcatAt(ps, 11);
    var r := Concat(ps[11..]);
    assert r == [sign] + (oh + (":" + om));
    ConcatAt(ps, 10);
    ConcatAt(ps, 9);
    ConcatAt(ps, 8);
    assert Concat(ps[8..]) == "GMT" + r;
    ConcatAt(ps, 7);
    assert Concat(ps[7..]) == " GMT" + r;
    ConcatAt(ps, 6);
    ConcatAt(ps, 5);
    ConcatAt(ps, 4);
    ConcatAt(ps, 3);
    ConcatAt(ps, 2);
    var tail := hh + (":" + (mm + (" " + (per + (" GMT" + r)))));
    assert Concat(ps[2..]) == tail;
    ConcatAt(ps, 1);
    assert Concat(ps[1..]) == " " + tail;
    ConcatAt(ps, 0);
    assert ps[0..] == ps;
    assert Concat(ps) == w + (" " + tail);
  }

  lemma LeetCodePartsFit(w: string, hh: string, mm: string, per: string, sign: char, oh: string, om: string)
    requires Fits(Plus(IsWordChar), w) && Fits(Times(IsDigit, 1, 2), hh) && Fits(Times(IsDigit, 2, 2), mm)
    requires Fits(Plus(IsAPM), per) && IsSign(sign) && Fits(Times(IsDigit, 1, 2), oh) && Fits(Times(IsDigit, 2, 2), om)
    ensures PiecesFit(LeetCodePattern, LeetCodeParts(w, hh, mm, per, sign, oh, om))
  {
    var ps := LeetCodeParts(w, hh, mm, per, sign, oh, om);
    var pat := LeetCodePattern;
    assert Fits(pat[0], ps[0]) && Fits(pat[2], ps[2]) && Fits(pat[4], ps[4]);
    assert Fits(pat[6], ps[6]) && Fits(pat[12], ps[12]) && Fits(pat[14], ps[14]);
    assert Fits(pat[1], ps[1]) && Fits(pat[3], ps[3]) && Fits(pat[5], ps[5]) && Fits(pat[7], ps[7]);
    assert Fits(pat[8], ps[8]) && Fits(pat[9], ps[9]) && Fits(pat[10], ps[10]);
    assert Fits(pat[11], ps[11]) && Fits(pat[13], ps[13]);
  }

  /** The card text LeetCode shows for a contest at `h24:minute` (rendered on a
      twelve-hour clock) on weekday `day`, in the zone GMT<sign>offHour:offMinute. */
  function LeetCodeText(day: nat, h24: nat, minute: nat, sign: char, offHour: nat, offMinute: nat): string
    requires day < 7 && h24 < 24 && minute < 60 && offHour < 100 && offMinute < 60
  {
    LeetCodeJoin(Weekdays[day], NatToString(Hour12(h24)), PadStart2(NatToString(minute)), Period(h24),
                 sign, NatToString(offHour), PadStart2(NatToString(offMinute)))
  }

  /** The pieces of LeetCodeText as the regex splits it. */
  function LeetCodePieces(day: nat, h24: nat, minute: nat, sign: char, offHour: nat, offMinute: nat): seq<string>
    requires day < 7 && h24 < 24 && minute < 60 && offHour < 100 && offMinute < 60
  {
    LeetCodeParts(Weekdays[day], NatToString(Hour12(h24)), PadStart2(NatToString(minute)), Period(h24),
                  sign, NatToString(offHour), PadStart2(NatToString(offMinute)))
  }

  lemma LeetCodePiecesConcat(day: nat, h24: nat, minute: nat, sign: char, offHour: nat, offMinute: nat)
    requires day < 7 && h24 < 24 && minute < 60 && offHour < 100 && offMinute < 60
    ensures Concat(LeetCodePieces(day, h24, minute, sign, offHour, offMinute))
            == LeetCodeText(day, h24, minute, sign, offHour, offMinute)
  {
    LeetCodePartsConcat(Weekdays[day], NatToString(Hour12(h24)), PadStart2(NatToString(minute)), Period(h24),
                        sign, NatToString(offHour), PadStart2(NatToString(offMinute)));
  }

  lemma WeekdayNamesAreWords(day: nat)
    requires day < 7
    ensures |Weekdays[day]| >= 1 && forall i :: 0 <= i < |Weekdays[day]| ==> IsWordChar(Weekdays[day][i])
    ensures GetDayIndex(Weekdays[day]) == day
  {
    var w := Weekdays[day];
    assert forall i :: 0 <= i < |w| ==> 'a' <= w[i] <= 'z' || 'A' <= w[i] <= 'Z';
    forall j | 0 <= j < day ensures Weekdays[j] != w {
      assert Weekdays[j][0] != w[0] || Weekdays[j][1] != w[1];
    }
    IndexOfAt(Weekdays, w, day);
  }

  lemma ShortNumberFits(n: nat)
    requires n < 100
    ensures Fits(Times(IsDigit, 1, 2), NatToString(n))
  {
    if n >= 10 {
      assert NatToString(n) == NatToString(n / 10) + [DigitChar(n % 10)];
    }
  }

  lemma PaddedNumberFits(n: nat)
    requires n < 60
    ensures Fits(Times(IsDigit, 2, 2), PadStart2(NatToString(n)))
  {
    TwoDigits(n);
    ShortNumberFits(n);
  }

  lemma PeriodFits(h24: nat)
    ensures Fits(Plus(IsAPM), Period(h24))
  {
  }

  lemma LeetCodePiecesFit(day: nat, h24: nat, minute: nat, sign: char, offHour: nat, offMinute: nat)
    requires day < 7 && h24 < 24 && minute < 60 && offHour < 100 && offMinute < 60 && IsSign(sign)
    ensures PiecesFit(LeetCodePattern, LeetCodePieces(day, h24, minute, sign, offHour, offMinute))
  {
    WeekdayNamesAreWords(day);
    ShortNumberFits(Hour12(h24));
    ShortNumberFits(offHour);
    PaddedNumberFits(minute);
    PaddedNumberFits(offMinute);
    PeriodFits(h24);
    LeetCodePartsFit(Weekdays[day], NatToString(Hour12(h24)), PadStart2(NatToString(minute)), Period(h24),
                     sign, NatToString(offHour), PadStart2(NatToString(offMinute)));
  }

  lemma LeetCodeTextMatches(day: nat, h24: nat, minute: nat, sign: char, offHour: nat, offMinute: nat)
    requires day < 7 && h24 < 24 && minute < 60 && offHour < 100 && offMinute < 60 && IsSign(sign)
    ensures Search(LeetCodePattern, LeetCodeText(day, h24, minute, sign, offHour, offMinute))
            == Some((0, LeetCodePieces(day, h24, minute, sign, offHour, offMinute)))
  {
    var text := LeetCodeText(day, h24, minute, sign, offHour, offMinute);
    LeetCodePiecesConcat(day, h24, minute, sign, offHour, offMinute);
    LeetCodePiecesFit(day, h24, minute, sign, offHour, offMinute);
    LeetCodePatternDeterministic();
    MatchPatternComplete(LeetCodePattern, LeetCodePieces(day, h24, minute, sign, offHour, offMinute), text[0..]);
  }

  lemma LeetCodePiecesCaptures(day: nat, h24: nat, minute: nat, sign: char, offHour: nat, offMinute: nat)
    requires day < 7 && h24 < 24 && minute < 60 && offHour < 100 && offMinute < 60 && IsSign(sign)
    ensures PiecesFit(LeetCodePattern, LeetCodePieces(day, h24, minute, sign, offHour, offMinute))
    ensures Captures(LeetCodePieces(day, h24, minute, sign, offHour, offMinute))
            == LeetCodeMatch(Weekdays[day],
                             Clock(NatToString(Hour12(h24)), PadStart2(NatToString(minute)), ' ', Period(h24)),
                             Offset(sign, NatToString(offHour), PadStart2(NatToString(offMinute))))
  {
    LeetCodePiecesFit(day, h24, minute, sign, offHour, offMinute);
    var ps := LeetCodePieces(day, h24, minute, sign, offHour, offMinute);
    assert ps[5] == " " && ps[11] == [sign];
  }

  /** The offset capture of a rendered card, in minutes. */
  lemma RenderedOffsetMinutes(sign: char, offHour: nat, offMinute: nat)
    requires offMinute < 60
    ensures AllDigits(NatToString(offHour)) && AllDigits(PadStart2(NatToString(offMinute)))
    ensures OffsetMinutes(Offset(sign, NatToString(offHour), PadStart2(NatToString(offMinute))))
            == (if sign == '-' then -(offHour as int) else offHour) * 60 + offMinute
  {
    TwoDigits(offMinute);
    DecimalOfNatToString(offHour);
  }

  lemma LeetCodeTextResolves(day: nat, h24: nat, minute: nat, sign: char, offHour: nat, offMinute: nat,
                             now: int, tz: int)
    requires day < 7 && h24 < 24 && minute < 60 && offHour < 100 && offMinute < 60 && IsSign(sign)
    ensures AllDigits(NatToString(offHour)) && AllDigits(PadStart2(NatToString(offMinute)))
    ensures LeetCodeStart(LeetCodeText(day, h24, minute, sign, offHour, offMinute), now, tz)
            == Instant(ResolvedInstant(now, tz, h24, minute, day,
                         OffsetMinutes(Offset(sign, NatToString(offHour), PadStart2(NatToString(offMinute))))))
  {
    LeetCodeTextMatches(day, h24, minute, sign, offHour, offMinute);
    LeetCodePiecesCaptures(day, h24, minute, sign, offHour, offMinute);
    var mm := PadStart2(NatToString(minute));
    WeekdayNamesAreWords(day);
    TwoDigits(minute);
    TwoDigits(offMinute);
    ParseTimeInverts12Hour(h24, mm);
  }

  /** Reading a rendered LeetCode card recovers what was rendered: the result is the
      resolved instant for that 24-hour time, weekday and stated offset. */
  lemma LeetCodeTextRoundTrip(day: nat, h24: nat, minute: nat, sign: char, offHour: nat, offMinute: nat,
                              now: int, tz: int)
    requires day < 7 && h24 < 24 && minute < 60 && offHour < 100 && offMinute < 60 && IsSign(sign)
    ensures LeetCodeStart(LeetCodeText(day, h24, minute, sign, offHour, offMinute), now, tz)
            == Instant(ResolvedInstant(now, tz, h24, minute, day,
                                       (if sign == '-' then -(offHour as int) else offHour) * 60 + offMinute))
  {
    LeetCodeTextResolves(day, h24, minute, sign, offHour, offMinute, now, tz);
    RenderedOffsetMinutes(sign, offHour, offMinute);
    var stated := OffsetMinutes(Offset(sign, NatToString(offHour), PadStart2(NatToString(offMinute))));
    assert stated == (if sign == '-' then -(offHour as int) else offHour) * 60 + offMinute;
  }

  /** The resolved instant falls 0 to 6 days after the day the clock time lands on,
      at that clock time, on a clock running at the stated offset from UTC. */
  lemma ResolvedWithinAWeek(now: int, tz: int, h: int, m: int, dayIndex: int, offsetMin: int)
    requires -1 <= dayIndex <= 6
    ensures var wall := ResolvedInstant(now, tz, h, m, dayIndex, offsetMin) + offsetMin * MinuteMs;
            && 0 <= DayNumber(wall) - ClockDay(now, tz, h, m) <= 6
            && wall % DayMs == (h * HourMs + m * MinuteMs) % DayMs
  {
    var x := (h * HourMs + m * MinuteMs) % DayMs;
    DayNumberShift(TargetDay(now, tz, h, m, dayIndex), x);
  }

  /** For a real weekday name the resolved day has that weekday; an unknown name
      (index -1) behaves like Saturday. */
  lemma ResolvedWeekday(now: int, tz: int, h: int, m: int, day: string, offsetMin: int)
    ensures var wall := ResolvedInstant(now, tz, h, m, GetDayIndex(day), offsetMin) + offsetMin * MinuteMs;
            WeekdayOf(DayNumber(wall)) == if day in Weekdays then GetDayIndex(day) else 6
  {
    ResolvedDayIndex(now, tz, h, m, GetDayIndex(day), offsetMin);
  }

  lemma ResolvedDayIndex(now: int, tz: int, h: int, m: int, dayIndex: int, offsetMin: int)
    requires -1 <= dayIndex <= 6
    ensures var wall := ResolvedInstant(now, tz, h, m, dayIndex, offsetMin) + offsetMin * MinuteMs;
            WeekdayOf(DayNumber(wall)) == if dayIndex >= 0 then dayIndex else 6
  {
    var x := (h * HourMs + m * MinuteMs) % DayMs;
    var target := TargetDay(now, tz, h, m, dayIndex);
    DayNumberShift(target, x);
    var d := ClockDay(now, tz, h, m);
    WeekdayAfter(d, DaysAhead(dayIndex, WeekdayOf(d)));
  }

  lemma WeekdayAfter(d: int, k: nat)
    ensures WeekdayOf(d + k) == (WeekdayOf(d) + k) % 7
  {
  }

  /** When the named weekday is today's, today is chosen even if that clock time has
      already passed: with `now` at 20:00 UTC on Thursday 1 January 1970 (a UTC
      machine), "Thursday 8:00 AM GMT+0:00" resolves to 08:00 that same day, twelve
      hours before `now`. */
  lemma TodayEvenIfPassed()
    ensures ResolvedInstant(20 * HourMs, 0, 8, 0, 4, 0) == 8 * HourMs
    ensures ResolvedInstant(20 * HourMs, 0, 8, 0, 4, 0) < 20 * HourMs
  {
    assert DayNumber(LocalMs(20 * HourMs, 0)) == 0;
    assert ClockDay(20 * HourMs, 0, 8, 0) == 0;
    assert WeekdayOf(0) == 4;
    assert TargetDay(20 * HourMs, 0, 8, 0, 4) == 0;
  }

  // -------------------------------------------------- convertRelativeTimeToDate

  /** `/(\d+)\sDays\s(\d+)\sHrs/`. */
  const RelativePattern: seq<Elem> := [
    Plus(IsDigit), One(IsJsSpace), Lit('D'), Lit('a'), Lit('y'), Lit('s'),
    One(IsJsSpace), Plus(IsDigit), One(IsJsSpace), Lit('H'), Lit('r'), Lit('s')]

  lemma RelativePatternDeterministic()
    ensures Deterministic(RelativePattern)
  {
    var pat := RelativePattern;
    forall i, j | 0 <= i < j < |pat| && j == i + 1 ensures Handover(pat[i], pat[j]) {
      if i == 0 || i == 7 { assert Disjoint(IsDigit, IsJsSpace); }
      else { assert Fixed(pat[i]); }
    }
  }

  /** The two captures (days, hours) of a match. */
  function RelativeCaptures(pieces: seq<string>): (r: (string, string))
    requires PiecesFit(RelativePattern, pieces)
    ensures AllDigits(r.0) && AllDigits(r.1) && |r.0| >= 1 && |r.1| >= 1
  {
    assert Fits(RelativePattern[0], pieces[0]) && Fits(RelativePattern[7], pieces[7]);
    (pieces[0], pieces[7])
  }

  /** The start time the CodeChef adapter derives from "<N> Days <M> Hrs": null for
      empty text or when the regex matches nowhere, otherwise now + N days + M hours
      of the leftmost match. */
  function RelativeStart(text: string, now: int): (r: Option<int>)
    ensures r.Some? ==> r.value >= now
  {
    if text == "" then None
    else match Search(RelativePattern, text)
      case None => None
      case Some((_, pieces)) =>
        var (days, hours) := RelativeCaptures(pieces);
        Some(now + DecimalValue(days) * DayMs + DecimalValue(hours) * HourMs)
  }

  /** The relative start is null exactly when the regex matches nowhere in the text
      (the empty text included). */
  lemma RelativeStartNullIffNoMatch(text: string, now: int)
    ensures RelativeStart(text, now).None? <==>
              forall k, pieces :: 0 <= k <= |text| ==> !Matches(RelativePattern, pieces, text[k..])
  {
    RelativePatternDeterministic();
    SearchFailsIffNoMatch(RelativePattern, text);
  }

  /** The text CodeChef shows for a contest N days and M hours away. */
  function RelativeText(days: nat, hours: nat): string {
    NatToString(days) + " Days " + NatToString(hours) + " Hrs"
  }

  /** The pieces of RelativeText as the regex splits it. */
  function RelativePieces(days: nat, hours: nat): seq<string> {
    [NatToString(days), " ", "D", "a", "y", "s", " ", NatToString(hours), " ", "H", "r", "s"]
  }

  lemma RelativePiecesConcat(days: nat, hours: nat)
    ensures Concat(RelativePieces(days, hours)) == RelativeText(days, hours)
  {
    var ps := RelativePieces(days, hours);
    var h := NatToString(hours);
    assert ps[12..] == [];
    ConcatAt(ps, 11); ConcatAt(ps, 10); ConcatAt(ps, 9); ConcatAt(ps, 8);
    assert Concat(ps[8..]) == " Hrs";
    ConcatAt(ps, 7); ConcatAt(ps, 6); ConcatAt(ps, 5); ConcatAt(ps, 4);
    ConcatAt(ps, 3); ConcatAt(ps, 2); ConcatAt(ps, 1);
    assert Concat(ps[1..]) == " Days " + (h + " Hrs");
    ConcatAt(ps, 0);
    assert ps[0..] == ps;
  }

  lemma RelativePiecesFit(days: nat, hours: nat)
    ensures PiecesFit(RelativePattern, RelativePieces(days, hours))
  {
    var pieces := RelativePieces(days, hours);
    forall i | 0 <= i < 12 ensures Fits(RelativePattern[i], pieces[i]) {
      if i == 0 || i == 7 { assert AllDigits(pieces[i]); }
    }
  }

  lemma RelativeTextMatches(days: nat, hours: nat)
    ensures Search(RelativePattern, RelativeText(days, hours)) == Some((0, RelativePieces(days, hours)))
  {
    var text := RelativeText(days, hours);
    RelativePiecesConcat(days, hours);
    RelativePiecesFit(days, hours);
    RelativePatternDeterministic();
    MatchPatternComplete(RelativePattern, RelativePieces(days, hours), text[0..]);
  }

  /** Reading a rendered relative text recovers both numbers. */
  lemma RelativeTextRoundTrip(days: nat, hours: nat, now: int)
    ensures RelativeStart(RelativeText(days, hours), now) == Some(now + days * DayMs + hours * HourMs)
  {
    RelativeTextMatches(days, hours);
    var pieces := RelativePieces(days, hours);
    assert RelativeCaptures(pieces) == (NatToString(days), NatToString(hours));
    DecimalOfNatToString(days);
    DecimalOfNatToString(hours);
  }

  /** `convertRelativeTimeToDate`, step by step on a `Date`. */
  method ConvertRelativeTimeToDate(relativeTime: string, now: int) returns (r: Option<int>)
    ensures r == RelativeStart(relativeTime, now)
  {
    if relativeTime == "" {
      return None;
    }
    var found := Search(RelativePattern, relativeTime);
    if found.None? {
      return None;
    }
    var captures := RelativeCaptures(found.value.1);
    var days := DecimalValue(captures.0);
    var hours := DecimalValue(captures.1);
    var startDate := now;
    // startDate.setDate(startDate.getDate() + days)
    startDate := startDate + days * DayMs;
    // startDate.setHours(startDate.getHours() + hours)
    startDate := startDate + hours * HourMs;
    r := Some(startDate);
  }

  // ------------------------------------------------------- convertDurationToHHMM

  /** `convertDurationToHHMM`: whole hours and remaining whole minutes, each padded
      to two digits. */
  function DurationToHHMM(seconds: nat): (r: string)
    ensures |r| >= 5 && ':' in r
  {
    var hh := PadStart2(NatToString(seconds / 3600));
    var mm := PadStart2(NatToString((seconds % 3600) / 60));
    assert (hh + ":" + mm)[|hh|] == ':';
    hh + ":" + mm
  }

  /** Reads "HH:MM" back as a number of seconds: the digits before the first ':' are
      hours, the digits after it minutes. */
  function HHMMSeconds(s: string): Option<nat> {
    var k := IndexOf(s, ':');
    if k < 1 || !AllDigits(s[..k]) || !AllDigits(s[k + 1..]) || k + 1 == |s| then None
    else Some(DecimalValue(s[..k]) * 3600 + DecimalValue(s[k + 1..]) * 60)
  }

  lemma DivModSixty(seconds: nat)
    ensures (seconds / 3600) * 3600 + ((seconds % 3600) / 60) * 60 == seconds - seconds % 60
  {
  }

  /** The formatted duration is whole hours, at least two digits, then ':' and the
      remaining whole minutes in exactly two digits. */
  lemma DurationFields(seconds: nat)
    ensures var r := DurationToHHMM(seconds); var k := IndexOf(r, ':');
      && 2 <= k && AllDigits(r[..k]) && DecimalValue(r[..k]) == seconds / 3600
      && |r[k + 1..]| == 2 && AllDigits(r[k + 1..]) && DecimalValue(r[k + 1..]) == (seconds % 3600) / 60
  {
    var hours, minutes := seconds / 3600, (seconds % 3600) / 60;
    TwoDigits(hours);
    TwoDigits(minutes);
    PaddedNumberFits(minutes);
    ReadHHMM(PadStart2(NatToString(hours)), PadStart2(NatToString(minutes)));
  }

  /** Read back as "HH:MM", the formatted duration is the input with the leftover
      seconds dropped. */
  lemma DurationRoundTrip(seconds: nat)
    ensures HHMMSeconds(DurationToHHMM(seconds)) == Some(seconds - seconds % 60)
  {
    var hours, minutes := seconds / 3600, (seconds % 3600) / 60;
    TwoDigits(hours);
    TwoDigits(minutes);
    PaddedNumberFits(minutes);
    ReadHHMM(PadStart2(NatToString(hours)), PadStart2(NatToString(minutes)));
    DivModSixty(seconds);
  }

  /** In "hh:mm" with a digit field `hh`, the first ':' is the one after `hh`. */
  lemma ColonAfterHours(hh: string, mm: string)
    requires AllDigits(hh)
    ensures IndexOf(hh + ":" + mm, ':') == |hh|
  {
    var r := hh + ":" + mm;
    assert r[|hh|] == ':';
    forall i | 0 <= i < |hh| ensures r[i] != ':' {
      assert r[i] == hh[i];
    }
    IndexOfAt(r, ':', |hh|);
  }

  /** The two fields of "hh:mm" are the slices on either side of the ':'. */
  lemma FieldsOfHHMM(hh: string, mm: string)
    ensures (hh + ":" + mm)[..|hh|] == hh && (hh + ":" + mm)[|hh| + 1..] == mm
  {
    var r := hh + ":" + mm;
    assert r == hh + (":" + mm);
    assert (":" + mm)[1..] == mm;
  }

  /** "hh:mm" with digit fields and a two-digit minutes field splits at the ':' after
      `hh` and reads back as its hours and minutes. */
  lemma ReadHHMM(hh: string, mm: string)
    requires |hh| >= 1 && AllDigits(hh) && |mm| == 2 && AllDigits(mm)
    ensures var r := hh + ":" + mm; var k := IndexOf(r, ':');
      k == |hh| && r[..k] == hh && r[k + 1..] == mm
    ensures HHMMSeconds(hh + ":" + mm) == Some(DecimalValue(hh) * 3600 + DecimalValue(mm) * 60)
  {
    ColonAfterHours(hh, mm);
    FieldsOfHHMM(hh, mm);
  }

  /** 7200 seconds read "02:00". */
  lemma TwoHoursIs0200()
    ensures DurationToHHMM(7200) == "02:00"
  {
    assert NatToString(2) == "2";
    assert NatToString(0) == "0";
  }
}
