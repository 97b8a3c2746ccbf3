/**
 * Time-of-day arithmetic: the "%H:%M" parser, worked hours between a time-in and a
 * time-out, and the overtime split against the standard daily hours.
 * Times are whole minutes since midnight; hours are exact reals.
 */
module Clock {
  import opened Wrappers

  /** Hours in a standard working day; time beyond it is overtime. */
  const StandardDailyHours: real := 9.0
  const MinutesPerDay: nat := 1440

  predicate IsDigit(c: char) {
    '0' <= c <= '9'
  }

  function DigitValue(c: char): (v: nat)
    requires IsDigit(c)
    ensures v <= 9
  {
    (c as int) - ('0' as int)
  }

  function DigitChar(v: nat): (c: char)
    requires v <= 9
    ensures IsDigit(c) && DigitValue(c) == v
  {
    ('0' as int + v) as char
  }

  /**
   * One numeric field of "%H:%M": one or two ASCII digits whose value is at most `max`.
   * (The regular expressions behind %H and %M, `2[0-3]|[0-1]\d|\d` and `[0-5]\d|\d`,
   * accept exactly these strings once the whole input has to be consumed.)
   */
  function ParseField(t: string, max: nat): (r: Option<nat>)
    ensures r.Some? ==> r.value <= max
    ensures r.Some? ==> 1 <= |t| <= 2 && forall i :: 0 <= i < |t| ==> IsDigit(t[i])
    ensures r.Some? ==> r.value == if |t| == 1 then DigitValue(t[0]) else 10 * DigitValue(t[0]) + DigitValue(t[1])
    ensures |t| == 1 && IsDigit(t[0]) && DigitValue(t[0]) <= max ==> r == Some(DigitValue(t[0]))
    ensures |t| == 2 && IsDigit(t[0]) && IsDigit(t[1]) && 10 * DigitValue(t[0]) + DigitValue(t[1]) <= max
      ==> r == Some(10 * DigitValue(t[0]) + DigitValue(t[1]))
  {
    if |t| == 1 && IsDigit(t[0]) then
      var v := DigitValue(t[0]);
      if v <= max then Some(v) else None
    else if |t| == 2 && IsDigit(t[0]) && IsDigit(t[1]) then
      var v := 10 * DigitValue(t[0]) + DigitValue(t[1]);
      if v <= max then Some(v) else None
    else None
  }

  /** `s` is an hour field, a colon at position `c` and a minute field. */
  predicate SplitsAt(s: string, c: int) {
    && 1 <= c <= 2 && c < |s| && s[c] == ':'
    && ParseField(s[..c], 23).Some? && ParseField(s[c + 1..], 59).Some?
  }

  /**
   * `datetime.strptime(s, "%H:%M")` as minutes since midnight: hour 0-23 in one or two
   * digits, a colon, minute 0-59 in one or two digits, and nothing else. `None` is the
   * `ValueError` the source catches.
   */
  function ParseTime(s: string): (r: Option<nat>)
    ensures r.Some? ==> r.value < MinutesPerDay
    ensures r.Some? ==> 3 <= |s| <= 5
    ensures r.Some? <==> exists c :: SplitsAt(s, c)
    ensures forall c :: SplitsAt(s, c) ==> r == Some(60 * ParseField(s[..c], 23).value + ParseField(s[c + 1..], 59).value)
  {
    var colon := if |s| >= 2 && s[1] == ':' then 1 else if |s| >= 3 && s[2] == ':' then 2 else 0;
    SplitIsFirstColon(s);
    if colon == 0 then None
    else
      match (ParseField(s[..colon], 23), ParseField(s[colon + 1..], 59))
      case (Some(h), Some(m)) => assert SplitsAt(s, colon); Some(60 * h + m)
      case _ => None
  }

  /** An hour field holds no colon, so a split can only be at the first colon. */
  lemma SplitIsFirstColon(s: string)
    ensures forall c :: SplitsAt(s, c) ==> c == if s[1] == ':' then 1 else 2
  {
    forall c | SplitsAt(s, c) ensures c == if s[1] == ':' then 1 else 2 {
      if c == 2 {
        assert s[..c][1] == s[1];
      }
    }
  }

  /** Two-digit rendering used by `Format`. */
  function TwoDigits(v: nat): (s: string)
    requires v <= 99
    ensures |s| == 2 && IsDigit(s[0]) && IsDigit(s[1])
    ensures 10 * DigitValue(s[0]) + DigitValue(s[1]) == v
  {
    [DigitChar(v / 10), DigitChar(v % 10)]
  }

  /** "HH:MM" for a time of day, the form the attendance screen stores. */
  function Format(t: nat): (s: string)
    requires t < MinutesPerDay
    ensures |s| == 5 && s[2] == ':'
  {
    TwoDigits(t / 60) + ":" + TwoDigits(t % 60)
  }

  /** Every time of day survives formatting and parsing. */
  lemma {:induction false} ParseFormat(t: nat)
    requires t < MinutesPerDay
    ensures ParseTime(Format(t)) == Some(t)
  {
    var s := Format(t);
    assert s[..2] == TwoDigits(t / 60);
    assert s[3..] == TwoDigits(t % 60);
    assert s[1] != ':';
  }

  /** Examples of what the parser accepts: one- and two-digit fields. */
  lemma ParseExamples()
    ensures ParseTime("07:00") == Some(420)
    ensures ParseTime("7:05") == Some(425)
    ensures ParseTime("16:5") == Some(965)
  {
    assert "07:00"[..2] == "07" && "07:00"[3..] == "00";
    assert "7:05"[..1] == "7" && "7:05"[2..] == "05";
    assert "16:5"[..2] == "16" && "16:5"[3..] == "5";
  }

  /** Examples of what the parser rejects: out-of-range fields, seconds, the empty string. */
  lemma ParseRejects()
    ensures ParseTime("24:00") == None
    ensures ParseTime("09:60") == None
    ensures ParseTime("09:30:00") == None
    ensures ParseTime("") == None
  {
    assert "24:00"[..2] == "24";
    assert "09:60"[3..] == "60";
    assert "09:30:00"[3..] == "30:00";
  }

  /** A time cell: `None` is SQL NULL, and the empty string is falsy too. */
  function CellMinutes(cell: Option<string>): (r: Option<nat>)
    ensures r.Some? ==> r.value < MinutesPerDay
    ensures cell.None? || cell == Some("") ==> r.None?
  {
    match cell
    case None => None
    case Some(s) => if s == "" then None else ParseTime(s)
  }

  /**
   * The calendar variant's `_hours_between`: the signed difference in hours, then
   * `max(h, 0.0)`; a missing or unparseable time gives 0.0.
   */
  function ClampedHours(timeIn: Option<string>, timeOut: Option<string>): (h: real)
    ensures h >= 0.0
    ensures CellMinutes(timeIn).None? || CellMinutes(timeOut).None? ==> h == 0.0
    ensures CellMinutes(timeIn).Some? && CellMinutes(timeOut).Some? ==>
      var (ti, to) := (CellMinutes(timeIn).value, CellMinutes(timeOut).value);
      h == if to < ti then 0.0 else (to - ti) as real / 60.0
  {
    match (CellMinutes(timeIn), CellMinutes(timeOut))
    case (Some(ti), Some(to)) =>
      var signed := (to as real - ti as real) / 60.0;
      if signed >= 0.0 then signed else 0.0
    case _ => 0.0
  }

  /**
   * The fixed variant's `hours_between`: 0.0 when a time is missing or unparseable or
   * when time-out is before time-in, else the difference in hours.
   */
  function GuardedHours(timeIn: Option<string>, timeOut: Option<string>): (h: real)
    ensures h >= 0.0
  {
    match (CellMinutes(timeIn), CellMinutes(timeOut))
    case (Some(ti), Some(to)) => if to < ti then 0.0 else (to - ti) as real / 60.0
    case _ => 0.0
  }

  /** The two source functions compute the same hours for every pair of cells. */
  lemma HoursFunctionsAgree(timeIn: Option<string>, timeOut: Option<string>)
    ensures ClampedHours(timeIn, timeOut) == GuardedHours(timeIn, timeOut)
  {
  }

  /** Worked hours never reach a full day: no overnight shifts. */
  lemma HoursBelowOneDay(timeIn: Option<string>, timeOut: Option<string>)
    ensures GuardedHours(timeIn, timeOut) < 24.0
  {
  }

  /** The 07:00 to 16:30 shift is 9.5 hours. */
  lemma NineAndAHalfHourShift()
    ensures ClampedHours(Some("07:00"), Some("16:30")) == 9.5
  {
    assert ParseTime("07:00") == Some(420) by {
      assert "07:00"[..2] == "07" && "07:00"[3..] == "00";
    }
    assert ParseTime("16:30") == Some(990) by {
      assert "16:30"[..2] == "16" && "16:30"[3..] == "30";
    }
  }

  /** Which of the two source functions a payroll variant uses for a record's hours. */
  datatype HoursRule = Clamped | Guarded

  function WorkedHours(rule: HoursRule, timeIn: Option<string>, timeOut: Option<string>): (h: real)
    ensures h >= 0.0
  {
    match rule
    case Clamped => ClampedHours(timeIn, timeOut)
    case Guarded => GuardedHours(timeIn, timeOut)
  }

  /** Per-record overtime, `max(hours - STANDARD_DAILY_HOURS, 0)`. */
  function Overtime(hours: real): (ot: real)
    ensures ot >= 0.0
    ensures hours >= 0.0 ==> ot <= hours
    ensures hours <= StandardDailyHours ==> ot == 0.0
    ensures hours > StandardDailyHours ==> ot == hours - StandardDailyHours
  {
    if hours - StandardDailyHours > 0.0 then hours - StandardDailyHours else 0.0
  }

  /** What is not overtime never exceeds the standard day. */
  lemma RegularHoursCapped(hours: real)
    requires hours >= 0.0
    ensures 0.0 <= hours - Overtime(hours) <= StandardDailyHours
  {
  }
}
