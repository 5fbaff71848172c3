/** The three-stage duration parser of the Slurm command-line client. */
module SlurmTime {
  import opened Prelude
  import opened Text

  // ---------------------------------------------------------------- int(s)

  predicate IsSpace(c: char) { c == ' ' || '\t' <= c <= '\r' }

  function StripLeft(s: string): string
    decreases |s|
  {
    if s != "" && IsSpace(s[0]) then StripLeft(s[1..]) else s
  }

  function StripRight(s: string): string
    decreases |s|
  {
    if s != "" && IsSpace(s[|s| - 1]) then StripRight(s[..|s| - 1]) else s
  }

  /** Digits, with single underscores allowed between two of them. */
  predicate IsIntegerBody(s: string) {
    && s != "" && IsDigit(s[0]) && IsDigit(s[|s| - 1])
    && (forall i | 0 <= i < |s| :: IsDigit(s[i]) || s[i] == '_')
    && (forall i | 0 <= i < |s| - 1 :: !(s[i] == '_' && s[i + 1] == '_'))
  }

  function WithoutUnderscores(s: string): (r: string)
    requires forall i | 0 <= i < |s| :: IsDigit(s[i]) || s[i] == '_'
    ensures AllDigits(r)
  {
    if s == "" then ""
    else if s[0] == '_' then WithoutUnderscores(s[1..])
    else [s[0]] + WithoutUnderscores(s[1..])
  }

  /** Python's `int(s)` on ASCII text; None where it raises. */
  function PyInt(s: string): Option<int> {
    var t := StripRight(StripLeft(s));
    if IsIntegerBody(t) then Some(NatOf(WithoutUnderscores(t)))
    else if t != "" && t[0] == '+' && IsIntegerBody(t[1..]) then Some(NatOf(WithoutUnderscores(t[1..])))
    else if t != "" && t[0] == '-' && IsIntegerBody(t[1..]) then Some(-(NatOf(WithoutUnderscores(t[1..])) as int))
    else None
  }

  lemma {:induction false} NoUnderscores(s: string)
    requires AllDigits(s)
    ensures WithoutUnderscores(s) == s
    decreases |s|
  {
    if s != "" {
      NoUnderscores(s[1..]);
    }
  }

  lemma PyIntOfDigits(s: string)
    requires s != "" && AllDigits(s)
    ensures PyInt(s) == Some(NatOf(s))
  {
    NoUnderscores(s);
  }

  lemma {:induction false} StripKeeps(s: string, c: char)
    requires c in s && !IsSpace(c)
    ensures c in StripLeft(s) && c in StripRight(s)
    decreases |s|
  {
    if IsSpace(s[0]) {
      assert c in s[1..];
      StripKeeps(s[1..], c);
    }
    if IsSpace(s[|s| - 1]) {
      assert c in s[..|s| - 1];
      StripKeeps(s[..|s| - 1], c);
    }
  }

  /** Nothing with a colon in it is an integer. */
  lemma PyIntRejectsColons(s: string)
    requires ':' in s
    ensures PyInt(s).None?
  {
    StripKeeps(s, ':');
    StripKeeps(StripLeft(s), ':');
    var t := StripRight(StripLeft(s));
    assert t[0] != ':' ==> ':' in t[1..];
  }

  // ---------------------------------------------------------------- strptime(s, "%H:%M:%S")

  /** One or two digits not above `top`, as the three directives match them. */
  function ClockField(s: string, top: nat): Option<nat> {
    if 1 <= |s| <= 2 && AllDigits(s) && NatOf(s) <= top then Some(NatOf(s)) else None
  }

  function Sum3(a: Option<nat>, b: Option<nat>, c: Option<nat>): Option<int> {
    if a.Some? && b.Some? && c.Some? then Some(a.value + b.value * 60 + c.value) else None
  }

  /** Seconds of the parsed time; None where `strptime` raises (a leap second 60 or 61 matches the
      directive but is refused by `datetime`). */
  function Strptime(s: string): Option<int> {
    var f := Split(s, ':');
    if |f| == 3 then Sum3(Hours(ClockField(f[0], 23)), ClockField(f[1], 59), ClockField(f[2], 59)) else None
  }

  function Hours(h: Option<nat>): Option<nat> { if h.Some? then Some(h.value * 3600) else None }

  // ---------------------------------------------------------------- _dhms_to_seconds

  /** Exactly two digits with a value below `top`. */
  function TwoDigits(s: string, top: nat): Option<nat> {
    if |s| == 2 && AllDigits(s) && NatOf(s) < top then Some(NatOf(s)) else None
  }

  /** Seconds in the part before the first colon: `D-HH` or any number of hours. */
  function DayHours(s: string): Option<nat> {
    var f := Split(s, '-');
    if |f| == 2 && IsNumber(f[0]) then
      var h := TwoDigits(f[1], 24);
      if h.Some? then Some(NatOf(f[0]) * 86400 + h.value * 3600) else None
    else if IsNumber(s) then Some(NatOf(s) * 3600)
    else None
  }

  /** The three patterns `D-HH:MM:SS`, `H:MM:SS` and `M:SS`, told apart by their separators; None
      where the function raises, for the format or for the values. */
  function DhmsToSeconds(s: string): Option<int> {
    var f := Split(s, ':');
    if |f| == 3 then Sum3(DayHours(f[0]), TwoDigits(f[1], 60), TwoDigits(f[2], 60))
    else if |f| == 2 && IsNumber(f[0]) then
      var sec := TwoDigits(f[1], 60);
      if sec.Some? then Some(NatOf(f[0]) * 60 + sec.value) else None
    else None
  }

  // ---------------------------------------------------------------- _timestr_to_seconds

  function TimestrToSeconds(s: string, minutesToSeconds: bool): Option<int> {
    if PyInt(s).Some? then Some(if minutesToSeconds then PyInt(s).value * 60 else PyInt(s).value)
    else if Strptime(s).Some? then Strptime(s)
    else DhmsToSeconds(s)
  }

  lemma DigitsHaveNo(s: string, c: char)
    requires AllDigits(s) && !IsDigit(c)
    ensures c !in s
  {
  }

  lemma HoursAgree(s: string)
    requires ClockField(s, 23).Some?
    ensures DayHours(s) == Hours(ClockField(s, 23))
  {
    DigitsHaveNo(s, '-');
    SplitAtom(s, '-');
  }

  /** For every string: the integer stage never competes with the clock stages, and where both
      clock stages accept they give the same number, so their order does not matter. */
  lemma StagesAgree(s: string)
    ensures PyInt(s).Some? ==> Strptime(s).None? && DhmsToSeconds(s).None?
    ensures Strptime(s).Some? && DhmsToSeconds(s).Some? ==> Strptime(s) == DhmsToSeconds(s)
  {
    if ':' in s {
      PyIntRejectsColons(s);
    } else {
      SplitAtom(s, ':');
    }
    var f := Split(s, ':');
    if ClockField(f[0], 23).Some? {
      HoursAgree(f[0]);
    }
  }

  // ---------------------------------------------------------------- printing and parsing back

  /** A number below 100 in two digits. */
  function Two(n: nat): (s: string)
    requires n < 100
    ensures |s| == 2 && AllDigits(s)
  {
    [DigitChar(n / 10), DigitChar(n % 10)]
  }

  lemma NatOfTwo(n: nat)
    requires n < 100
    ensures NatOf(Two(n)) == n
  {
    var s := Two(n);
    var tens := s[..1];
    assert tens == [DigitChar(n / 10)] && tens[..0] == [];
    assert NatOf(tens) == n / 10;
  }

  function PrintMS(m: string, s: nat): string
    requires s < 60
  {
    m + [':'] + Two(s)
  }

  function PrintHMS(h: string, m: nat, s: nat): string
    requires m < 60 && s < 60
  {
    h + [':'] + (Two(m) + [':'] + Two(s))
  }

  function PrintDHMS(d: string, h: nat, m: nat, s: nat): string
    requires h < 24 && m < 60 && s < 60
  {
    PrintHMS(d + ['-'] + Two(h), m, s)
  }

  lemma FieldsOfHMS(h: string, m: nat, s: nat)
    requires m < 60 && s < 60 && ':' !in h
    ensures Split(PrintHMS(h, m, s), ':') == [h, Two(m), Two(s)]
    ensures PyInt(PrintHMS(h, m, s)).None?
  {
    SplitCons(h, ':', Two(m) + [':'] + Two(s));
    SplitCons(Two(m), ':', Two(s));
    SplitAtom(Two(s), ':');
    assert PrintHMS(h, m, s)[|h|] == ':';
    PyIntRejectsColons(PrintHMS(h, m, s));
  }

  lemma TwoReads(n: nat, top: nat)
    requires n < top <= 100
    ensures TwoDigits(Two(n), top) == Some(n)
    ensures ClockField(Two(n), top - 1) == Some(n)
  {
    NatOfTwo(n);
  }

  lemma FieldsOfMS(m: string, s: nat)
    requires s < 60 && ':' !in m
    ensures Split(PrintMS(m, s), ':') == [m, Two(s)]
    ensures PyInt(PrintMS(m, s)).None?
  {
    SplitCons(m, ':', Two(s));
    SplitAtom(Two(s), ':');
    assert PrintMS(m, s)[|m|] == ':';
    PyIntRejectsColons(PrintMS(m, s));
  }

  lemma TwoFields(t: string, m: string, s: nat, flag: bool)
    requires IsNumber(m) && s < 60 && Split(t, ':') == [m, Two(s)] && PyInt(t).None?
    ensures TimestrToSeconds(t, flag) == Some(NatOf(m) * 60 + s)
  {
    TwoReads(s, 60);
  }

  lemma DhmsOfThree(t: string, first: string, m: nat, s: nat)
    requires m < 60 && s < 60 && Split(t, ':') == [first, Two(m), Two(s)]
    ensures DhmsToSeconds(t) == Sum3(DayHours(first), Some(m), Some(s))
  {
    TwoReads(m, 60);
    TwoReads(s, 60);
  }

  lemma StrptimeOfThree(t: string, first: string, m: nat, s: nat)
    requires m < 60 && s < 60 && Split(t, ':') == [first, Two(m), Two(s)]
    ensures Strptime(t) == Sum3(Hours(ClockField(first, 23)), Some(m), Some(s))
  {
    TwoReads(m, 60);
    TwoReads(s, 60);
  }

  lemma ThreeFields(t: string, first: string, m: nat, s: nat, flag: bool)
    requires m < 60 && s < 60 && Split(t, ':') == [first, Two(m), Two(s)] && PyInt(t).None?
    requires DayHours(first).Some?
    ensures TimestrToSeconds(t, flag) == Some(DayHours(first).value + m * 60 + s)
  {
    assert DhmsToSeconds(t) == Some(DayHours(first).value + m * 60 + s) by { DhmsOfThree(t, first, m, s); }
    assert Strptime(t).None? || Strptime(t) == DhmsToSeconds(t) by { ClockStagesAgree(t, first, m, s); }
  }

  lemma ClockStagesAgree(t: string, first: string, m: nat, s: nat)
    requires m < 60 && s < 60 && Split(t, ':') == [first, Two(m), Two(s)]
    ensures Strptime(t).None? || Strptime(t) == DhmsToSeconds(t)
  {
    StrptimeOfThree(t, first, m, s);
    if ClockField(first, 23).Some? {
      HoursAgree(first);
      DhmsOfThree(t, first, m, s);
    }
  }

  /** The part before the first colon stands for so many seconds. */
  predicate Opens(first: string, seconds: nat) { ':' !in first && DayHours(first) == Some(seconds) }

  lemma HoursOnly(h: string)
    requires IsNumber(h)
    ensures Opens(h, NatOf(h) * 3600)
  {
    DigitsHaveNo(h, '-');
    DigitsHaveNo(h, ':');
    SplitAtom(h, '-');
  }

  lemma DayAndHourFields(d: string, two: string)
    requires IsNumber(d) && |two| == 2 && AllDigits(two)
    ensures Split(d + ['-'] + two, '-') == [d, two] && ':' !in d + ['-'] + two
  {
    DigitsHaveNo(d, '-');
    DigitsHaveNo(d, ':');
    DigitsHaveNo(two, '-');
    DigitsHaveNo(two, ':');
    SplitCons(d, '-', two);
    SplitAtom(two, '-');
  }

  lemma DaysAndHours(d: string, h: nat)
    requires IsNumber(d) && h < 24
    ensures Opens(d + ['-'] + Two(h), NatOf(d) * 86400 + h * 3600)
  {
    DayAndHourFields(d, Two(h));
    TwoReads(h, 24);
  }

  /** Minutes (any number of digits) and seconds. */
  lemma ParseMS(m: string, s: nat, flag: bool)
    requires IsNumber(m) && s < 60
    ensures TimestrToSeconds(PrintMS(m, s), flag) == Some(NatOf(m) * 60 + s)
  {
    var t := PrintMS(m, s);
    FieldsOfMS(m, s);
    TwoFields(t, m, s, flag);
  }

  lemma ParseClock(first: string, seconds: nat, m: nat, s: nat, flag: bool, total: nat)
    requires m < 60 && s < 60 && Opens(first, seconds) && total == seconds + m * 60 + s
    ensures TimestrToSeconds(PrintHMS(first, m, s), flag) == Some(total)
  {
    FieldsOfHMS(first, m, s);
    ThreeFields(PrintHMS(first, m, s), first, m, s, flag);
  }

  /** Hours (any number of digits, padded or not), minutes and seconds; below 24 hours it is
      `strptime` that answers, from 24 hours on it is the pattern. */
  lemma ParseHMS(h: string, hours: nat, m: nat, s: nat, flag: bool)
    requires IsNumber(h) && hours == NatOf(h) && m < 60 && s < 60
    ensures TimestrToSeconds(PrintHMS(h, m, s), flag) == Some(hours * 3600 + m * 60 + s)
  {
    assert Opens(h, hours * 3600) by { HoursOnly(h); }
    ParseClock(h, hours * 3600, m, s, flag, hours * 3600 + m * 60 + s);
  }

  /** Days (any number of digits), hours, minutes and seconds. */
  lemma ParseDHMS(d: string, days: nat, h: nat, m: nat, s: nat, flag: bool)
    requires IsNumber(d) && days == NatOf(d) && h < 24 && m < 60 && s < 60
    ensures TimestrToSeconds(PrintDHMS(d, h, m, s), flag) == Some(days * 86400 + h * 3600 + m * 60 + s)
  {
    ParseDays(d + ['-'] + Two(h), d, days, h, m, s, flag);
  }

  lemma ParseDays(first: string, d: string, days: nat, h: nat, m: nat, s: nat, flag: bool)
    requires IsNumber(d) && days == NatOf(d) && h < 24 && m < 60 && s < 60 && first == d + ['-'] + Two(h)
    ensures TimestrToSeconds(PrintHMS(first, m, s), flag) == Some(days * 86400 + h * 3600 + m * 60 + s)
  {
    var seconds := days * 86400 + h * 3600;
    assert Opens(first, seconds) by { DaysAndHours(d, h); }
    ParseClock(first, seconds, m, s, flag, days * 86400 + h * 3600 + m * 60 + s);
  }

  datatype Form = Raw | MS | HMS | DHMS

  function Print(seconds: nat, form: Form): string {
    match form
    case Raw => Decimal(seconds)
    case MS => PrintMS(Decimal(seconds / 60), seconds % 60)
    case HMS => PrintHMS(Decimal(seconds / 3600), seconds / 60 % 60, seconds % 60)
    case DHMS => PrintDHMS(Decimal(seconds / 86400), seconds / 3600 % 24, seconds / 60 % 60, seconds % 60)
  }

  lemma ParsePrintMS(m: nat, s: nat, flag: bool)
    requires s < 60
    ensures TimestrToSeconds(PrintMS(Decimal(m), s), flag) == Some(m * 60 + s)
  {
    NatOfDecimal(m);
    ParseMS(Decimal(m), s, flag);
  }

  lemma ParsePrintHMS(h: nat, m: nat, s: nat, flag: bool)
    requires m < 60 && s < 60
    ensures TimestrToSeconds(PrintHMS(Decimal(h), m, s), flag) == Some(h * 3600 + m * 60 + s)
  {
    NatOfDecimal(h);
    ParseHMS(Decimal(h), h, m, s, flag);
  }

  lemma ParsePrintDHMS(d: nat, h: nat, m: nat, s: nat, flag: bool)
    requires h < 24 && m < 60 && s < 60
    ensures TimestrToSeconds(PrintDHMS(Decimal(d), h, m, s), flag) == Some(d * 86400 + h * 3600 + m * 60 + s)
  {
    NatOfDecimal(d);
    ParseDHMS(Decimal(d), d, h, m, s, flag);
  }

  lemma SplitHours(n: nat)
    ensures n == n / 3600 * 3600 + n / 60 % 60 * 60 + n % 60
  {
  }

  lemma SplitDays(n: nat)
    ensures n == n / 86400 * 86400 + n / 3600 % 24 * 3600 + n / 60 % 60 * 60 + n % 60
  {
    SplitHours(n);
    assert n / 86400 == n / 3600 / 24;
  }

  lemma PrintedMS(n: nat, flag: bool)
    ensures TimestrToSeconds(Print(n, MS), flag) == Some(n)
  {
    ParsePrintMS(n / 60, n % 60, flag);
  }

  lemma PrintedHMS(n: nat, flag: bool)
    ensures TimestrToSeconds(Print(n, HMS), flag) == Some(n)
  {
    ParsePrintHMS(n / 3600, n / 60 % 60, n % 60, flag);
    SplitHours(n);
  }

  lemma PrintedDHMS(n: nat, flag: bool)
    ensures TimestrToSeconds(Print(n, DHMS), flag) == Some(n)
  {
    var d, h, m, s := n / 86400, n / 3600 % 24, n / 60 % 60, n % 60;
    assert n == d * 86400 + h * 3600 + m * 60 + s by { SplitDays(n); }
    ParsePrintDHMS(d, h, m, s, flag);
  }

  /** Parsing inverts printing for every number of seconds, in every form. */
  lemma ParsePrint(seconds: nat, form: Form, flag: bool)
    ensures TimestrToSeconds(Print(seconds, form), flag) == Some(if form.Raw? && flag then seconds * 60 else seconds)
  {
    match form
    case Raw =>
      NatOfDecimal(seconds);
      PyIntOfDigits(Decimal(seconds));
    case MS => PrintedMS(seconds, flag);
    case HMS => PrintedHMS(seconds, flag);
    case DHMS => PrintedDHMS(seconds, flag);
  }

  /** A time limit reaches the API as the same number of seconds from sacct, which prints minutes,
      and from squeue, which prints a duration. */
  lemma LimitsAgree(minutes: nat, form: Form)
    requires !form.Raw?
    ensures TimestrToSeconds(Print(minutes, Raw), true) == Some(minutes * 60)
    ensures TimestrToSeconds(Print(minutes * 60, form), true) == Some(minutes * 60)
  {
    ParsePrint(minutes, Raw, true);
    ParsePrint(minutes * 60, form, true);
  }

  // ---------------------------------------------------------------- what is accepted

  /** One or two digits of value at most `top`. */
  predicate IsClockPart(s: string, top: nat) { 1 <= |s| <= 2 && AllDigits(s) && NatOf(s) <= top }

  function Clock(h: string, m: string, s: string): string { h + [':'] + (m + [':'] + s) }

  ghost predicate IsClock(t: string) {
    exists h, m, s :: IsClockPart(h, 23) && IsClockPart(m, 59) && IsClockPart(s, 59) && t == Clock(h, m, s)
  }

  ghost predicate IsMS(t: string) { exists m, s: nat :: IsNumber(m) && s < 60 && t == PrintMS(m, s) }

  ghost predicate IsHMS(t: string) {
    exists h, m: nat, s: nat :: IsNumber(h) && m < 60 && s < 60 && t == PrintHMS(h, m, s)
  }

  ghost predicate IsDHMS(t: string) {
    exists d, h: nat, m: nat, s: nat :: IsNumber(d) && h < 24 && m < 60 && s < 60 && t == PrintDHMS(d, h, m, s)
  }

  lemma ClockSplits(h: string, m: string, s: string)
    requires AllDigits(h) && AllDigits(m) && AllDigits(s)
    ensures Split(Clock(h, m, s), ':') == [h, m, s] && ':' in Clock(h, m, s)
  {
    assert ':' !in h && ':' !in m && ':' !in s;
    SplitCons(h, ':', m + [':'] + s);
    SplitCons(m, ':', s);
    SplitAtom(s, ':');
    assert Clock(h, m, s)[|h|] == ':';
  }

  lemma StrptimeOfParts(t: string, f: seq<string>, h: nat, m: nat, s: nat)
    requires Split(t, ':') == f && |f| == 3
    requires ClockField(f[0], 23) == Some(h) && ClockField(f[1], 59) == Some(m) && ClockField(f[2], 59) == Some(s)
    ensures Strptime(t) == Some(h * 3600 + m * 60 + s)
  {
  }

  /** A clock time with one or two digits in each place is hours, minutes and seconds. */
  lemma ClockReads(h: string, m: string, s: string, flag: bool)
    requires IsClockPart(h, 23) && IsClockPart(m, 59) && IsClockPart(s, 59)
    ensures TimestrToSeconds(Clock(h, m, s), flag) == Some(NatOf(h) * 3600 + NatOf(m) * 60 + NatOf(s))
  {
    var t := Clock(h, m, s);
    ClockSplits(h, m, s);
    StrptimeOfParts(t, [h, m, s], NatOf(h), NatOf(m), NatOf(s));
    PyIntRejectsColons(t);
  }

  lemma TwoDigitsAreTwo(t: string, top: nat)
    requires top <= 100 && TwoDigits(t, top).Some?
    ensures TwoDigits(t, top).value < top && t == Two(TwoDigits(t, top).value)
  {
    var tens := t[..1];
    assert tens[..0] == "" && t == [t[0], t[1]];
    assert NatOf(tens) == DigitValue(t[0]);
    assert NatOf(t) == 10 * DigitValue(t[0]) + DigitValue(t[1]);
  }

  lemma ThreePartsJoin(t: string)
    requires |Split(t, ':')| == 3
    ensures var f := Split(t, ':'); t == Clock(f[0], f[1], f[2])
  {
    var f := Split(t, ':');
    JoinSplit(t, ':');
    assert f == [f[0], f[1], f[2]] && f[1..] == [f[1], f[2]] && f[1..][1..] == [f[2]];
    assert Join([f[2]], ':') == f[2];
    assert Join([f[1], f[2]], ':') == f[1] + [':'] + f[2];
  }

  lemma TwoPartsJoin(t: string, sep: char)
    requires |Split(t, sep)| == 2
    ensures var f := Split(t, sep); t == f[0] + [sep] + f[1]
  {
    var f := Split(t, sep);
    JoinSplit(t, sep);
    assert f == [f[0], f[1]] && f[1..] == [f[1]];
  }

  lemma ShortIsMS(t: string)
    requires DhmsToSeconds(t).Some? && |Split(t, ':')| == 2
    ensures IsMS(t)
  {
    var f := Split(t, ':');
    TwoPartsJoin(t, ':');
    TwoDigitsAreTwo(f[1], 60);
    assert t == PrintMS(f[0], TwoDigits(f[1], 60).value);
  }

  lemma LongIsHMS(t: string)
    requires DhmsToSeconds(t).Some? && |Split(t, ':')| == 3
    ensures IsHMS(t) || IsDHMS(t)
  {
    var f := Split(t, ':');
    ThreePartsJoin(t);
    TwoDigitsAreTwo(f[1], 60);
    TwoDigitsAreTwo(f[2], 60);
    var m, s := TwoDigits(f[1], 60).value, TwoDigits(f[2], 60).value;
    assert t == PrintHMS(f[0], m, s);
    if !IsNumber(f[0]) {
      var g := Split(f[0], '-');
      TwoPartsJoin(f[0], '-');
      TwoDigitsAreTwo(g[1], 24);
      assert t == PrintDHMS(g[0], TwoDigits(g[1], 24).value, m, s);
    }
  }

  lemma StrptimeIsClock(t: string)
    requires Strptime(t).Some?
    ensures IsClock(t)
  {
    var f := Split(t, ':');
    ThreePartsJoin(t);
    assert IsClockPart(f[0], 23) && IsClockPart(f[1], 59) && IsClockPart(f[2], 59);
  }

  /** Nothing but an integer, a clock time and the three printed forms gives a number of seconds. */
  lemma AcceptedIff(t: string, flag: bool)
    ensures TimestrToSeconds(t, flag).Some? <==> PyInt(t).Some? || IsClock(t) || IsMS(t) || IsHMS(t) || IsDHMS(t)
  {
    if IsClock(t) {
      var h, m, s :| IsClockPart(h, 23) && IsClockPart(m, 59) && IsClockPart(s, 59) && t == Clock(h, m, s);
      ClockReads(h, m, s, flag);
    } else if IsMS(t) {
      var m, s: nat :| IsNumber(m) && s < 60 && t == PrintMS(m, s);
      ParseMS(m, s, flag);
    } else if IsHMS(t) {
      var h, m: nat, s: nat :| IsNumber(h) && m < 60 && s < 60 && t == PrintHMS(h, m, s);
      ParseHMS(h, NatOf(h), m, s, flag);
    } else if IsDHMS(t) {
      var d, h: nat, m: nat, s: nat :| IsNumber(d) && h < 24 && m < 60 && s < 60 && t == PrintDHMS(d, h, m, s);
      ParseDHMS(d, NatOf(d), h, m, s, flag);
    } else {
      OtherTextIsRefused(t);
    }
  }

  lemma OtherTextIsRefused(t: string)
    requires !IsClock(t) && !IsMS(t) && !IsHMS(t) && !IsDHMS(t)
    ensures Strptime(t).None? && DhmsToSeconds(t).None?
  {
    if Strptime(t).Some? {
      StrptimeIsClock(t);
    }
    if DhmsToSeconds(t).Some? {
      if |Split(t, ':')| == 2 {
        ShortIsMS(t);
      } else {
        LongIsHMS(t);
      }
    }
  }
}
