/** The strings that tzparse accepts, as a grammar: which pieces of text follow each other,
    and what they mean. The grammar is that of section 8.3 of the POSIX.1-2017 Base
    Definitions, with the hours of RFC 8536, and with what the code allows besides. */
module TzGrammar {
  import opened Wrappers
  import opened Rules
  import opened RuleText
  import opened RuleTable
  import opened ZoneState
  import opened TzString

  // One or more digits with a value in bounds.
  predicate Numeral(t: string, min: int, max: int) {
    t != "" && (forall k :: 0 <= k < |t| ==> IsDigit(t[k])) && min <= Value(t) <= max
  }

  function Value(t: string): nat
    requires forall k :: 0 <= k < |t| ==> IsDigit(t[k])
  {
    if t == "" then 0 else 10 * Value(t[..|t| - 1]) + DigitValue(t[|t| - 1])
  }

  // hh, hh:mm or hh:mm:ss, with seconds up to 60.
  datatype Clock = Hours(h: string) | Minutes(h: string, m: string) | Seconds(h: string, m: string, s: string)

  predicate GoodClock(c: Clock) {
    && Numeral(c.h, 0, 167)
    && (!c.Hours? ==> Numeral(c.m, 0, 59))
    && (c.Seconds? ==> Numeral(c.s, 0, 60))
  }

  function ClockText(c: Clock): string {
    match c
    case Hours(h) => h
    case Minutes(h, m) => h + ":" + m
    case Seconds(h, m, s) => h + ":" + m + ":" + s
  }

  function ClockSecs(c: Clock): nat
    requires GoodClock(c)
  {
    match c
    case Hours(h) => Value(h) * 3600
    case Minutes(h, m) => Value(h) * 3600 + Value(m) * 60
    case Seconds(h, m, s) => Value(h) * 3600 + Value(m) * 60 + Value(s)
  }

  // What may come after it: no digit, and no colon unless there are seconds.
  predicate AfterClock(c: Clock, next: char) {
    !IsDigit(next) && (c.Seconds? || next != ':')
  }

  datatype Shift = Shift(sign: string, clock: Clock)

  predicate GoodShift(x: Shift) {
    (x.sign == "" || x.sign == "+" || x.sign == "-") && GoodClock(x.clock)
  }

  function ShiftText(x: Shift): string {
    x.sign + ClockText(x.clock)
  }

  function ShiftSecs(x: Shift): int
    requires GoodShift(x)
  {
    var secs: int := ClockSecs(x.clock);
    if x.sign == "-" then -secs else secs
  }

  // A name, bare or in angle brackets.
  datatype Label = Bare(name: string) | Quoted(name: string)

  predicate GoodLabel(l: Label) {
    && l.name != ""
    && (l.Bare? ==> l.name[0] != '<' && forall k :: 0 <= k < |l.name| ==> !EndsName(l.name[k]))
    && (l.Quoted? ==> forall k :: 0 <= k < |l.name| ==> !EndsQuotedName(l.name[k]))
  }

  function LabelText(l: Label): string {
    if l.Bare? then l.name else "<" + l.name + ">"
  }

  // Jn, n or Mm.w.d.
  datatype Day = Julian(n: string) | Plain(n: string) | Month(m: string, w: string, n: string)

  predicate GoodDay(d: Day) {
    match d
    case Julian(n) => Numeral(n, 1, 365)
    case Plain(n) => Numeral(n, 0, 365)
    case Month(m, w, n) => Numeral(m, 1, 12) && Numeral(w, 1, 5) && Numeral(n, 0, 6)
  }

  function DayText(d: Day): string {
    match d
    case Julian(n) => "J" + n
    case Plain(n) => n
    case Month(m, w, n) => "M" + m + "." + w + "." + n
  }

  function DayRule(d: Day, time: int): Rule
    requires GoodDay(d)
  {
    match d
    case Julian(n) => Rule(JulianDay, Value(n), 0, 0, time)
    case Plain(n) => Rule(DayOfYear, Value(n), 0, 0, time)
    case Month(m, w, n) => Rule(MonthNthDayOfWeek, Value(n), Value(w), Value(m), time)
  }

  // A day and a time, two o'clock if none is given.
  datatype Moment = Moment(day: Day, time: Option<Shift>)

  predicate GoodMoment(x: Moment) {
    GoodDay(x.day) && (x.time.Some? ==> GoodShift(x.time.value))
  }

  function MomentText(x: Moment): string {
    DayText(x.day) + if x.time.Some? then "/" + ShiftText(x.time.value) else ""
  }

  function MomentRule(x: Moment): Rule
    requires GoodMoment(x)
  {
    DayRule(x.day, if x.time.Some? then ShiftSecs(x.time.value) else 7200)
  }

  predicate AfterMoment(x: Moment, next: char) {
    if x.time.Some? then AfterClock(x.time.value.clock, next) else !IsDigit(next) && next != '/'
  }

  // Both rules, after a comma or a semicolon.
  datatype Pair = Pair(sep: string, start: Moment, end: Moment)

  predicate GoodPair(p: Pair) {
    (p.sep == "," || p.sep == ";") && GoodMoment(p.start) && GoodMoment(p.end)
  }

  function PairText(p: Pair): string {
    p.sep + MomentText(p.start) + "," + MomentText(p.end)
  }

  /** A whole TZ string: standard time only, or daylight time too, with its offset and the
      rules or without. */
  datatype Spelling =
    | Fixed(std: Label, offset: Shift)
    | Changing(std: Label, offset: Shift, dst: Label, ahead: Option<Shift>, rules: Option<Pair>)

  /** The pieces are good; a bare second name does not begin with a colon that would be
      taken for one of the offset; a semicolon does not come right after a bare name, which
      would go on; and the names fit in chars. */
  predicate GoodSpelling(p: Spelling) {
    && GoodLabel(p.std) && GoodShift(p.offset) && |p.std.name| + 1 <= TZ_MAX_CHARS_OR_NAMES
    && (p.Changing? ==>
          && GoodLabel(p.dst) && (p.dst.Bare? && p.dst.name[0] == ':' ==> p.offset.clock.Seconds?)
          && (p.ahead.Some? ==> GoodShift(p.ahead.value)) && (p.rules.Some? ==> GoodPair(p.rules.value))
          && (p.rules.Some? && p.rules.value.sep == ";" ==> p.dst.Quoted? || p.ahead.Some?)
          && |p.std.name| + 1 + |p.dst.name| + 1 <= TZ_MAX_CHARS_OR_NAMES)
  }

  function OptShiftText(x: Option<Shift>): string {
    if x.Some? then ShiftText(x.value) else ""
  }

  function OptPairText(p: Option<Pair>): string {
    if p.Some? then PairText(p.value) else ""
  }

  function Text(p: Spelling): string {
    LabelText(p.std) + ShiftText(p.offset)
    + match p
      case Fixed(_, _) => ""
      case Changing(_, _, dst, ahead, rules) => LabelText(dst) + OptShiftText(ahead) + OptPairText(rules)
  }

  // The rules of the United States, which tzparse has for strings without rules.
  const DefaultPair := Pair(",", Moment(Month("3", "2", "0"), None), Moment(Month("11", "1", "0"), None))

  function RulesOf(rules: Option<Pair>): Pair {
    if rules.Some? then rules.value else DefaultPair
  }

  lemma DefaultIsGood()
    ensures GoodPair(DefaultPair) && PairText(DefaultPair) == TZDEFRULESTRING
  {
    assert Value("3") == 3 && Value("2") == 2 && Value("0") == 0 && Value("1") == 1;
    assert "11"[..1] == "1";
    assert Value("11") == 11;
  }

  /** What a spelling means: its offsets and rules; daylight time is an hour ahead by
      default. */
  function Meaning(p: Spelling): Zone
    requires GoodSpelling(p) && p.Changing?
  {
    DefaultIsGood();
    var pair := RulesOf(p.rules);
    Zone(ShiftSecs(p.offset), if p.ahead.Some? then ShiftSecs(p.ahead.value) else ShiftSecs(p.offset) - 3600,
         MomentRule(pair.start), MomentRule(pair.end))
  }

  ghost predicate Names(s: string, n: Name, l: Label) {
    n.begin <= n.end <= |s| && s[n.begin..n.end] == l.name
  }

  /** A text taken apart says what a spelling means. */
  ghost predicate Says(s: string, text: TzText, p: Spelling)
    requires GoodSpelling(p)
  {
    && Names(s, text.std, p.std)
    && match text
       case Standard(_, stdoffset) => p.Fixed? && stdoffset == ShiftSecs(p.offset)
       case Alternating(_, dst, z) => p.Changing? && Names(s, dst, p.dst) && z == Meaning(p)
  }

  // Reading numbers.
  lemma {:induction false} ValueRead(s: string, i: nat, t: string)
    requires Here(s, i, t) && forall k :: 0 <= k < |t| ==> IsDigit(t[k])
    ensures forall k :: i <= k < i + |t| ==> IsDigit(At(s, k))
    ensures Decimal(s, i, i + |t|) == Value(t)
    decreases |t|
  {
    forall k | i <= k < i + |t|
      ensures At(s, k) == t[k - i]
    {
      HereAt(s, i, t, k - i);
    }
    if t != "" {
      HereAppend(s, i, t[..|t| - 1], [t[|t| - 1]]);
      ValueRead(s, i, t[..|t| - 1]);
    }
  }

  lemma NumberRead(s: string, i: nat, t: string, min: int, max: int)
    requires Here(s, i, t) && Numeral(t, min, max) && !IsDigit(At(s, i + |t|))
    ensures Number(s, i, min, max) == Some((Value(t), i + |t|))
  {
    hide *;
    NumeralMeans(t, min, max);
    ValueRead(s, i, t);
    DigitsEndUnique(s, i, i + |t|);
    NumberIs(s, i, i + |t|, min, max);
  }

  lemma NumeralMeans(t: string, min: int, max: int)
    requires Numeral(t, min, max)
    ensures t != "" && (forall k :: 0 <= k < |t| ==> IsDigit(t[k])) && min <= Value(t) <= max
  {
    hide IsDigit, Value;
  }

  lemma NumberIs(s: string, i: nat, e: nat, min: int, max: int)
    requires DigitsEnd(s, i) == e > i && forall k :: i <= k < e ==> IsDigit(At(s, k))
    ensures min <= Decimal(s, i, e) <= max ==> Number(s, i, min, max) == Some((Decimal(s, i, e), e))
  {
    hide DigitsEnd, Decimal, IsDigit, At;
  }

  lemma NumberFound(s: string, i: nat, min: int, max: int) returns (t: string)
    requires Number(s, i, min, max).Some?
    ensures Here(s, i, t) && Numeral(t, min, max) && !IsDigit(At(s, i + |t|))
    ensures Number(s, i, min, max) == Some((Value(t), i + |t|))
  {
    var e := DigitsEnd(s, i);
    assert IsDigit(At(s, e - 1));
    t := s[i..e];
    assert forall k :: 0 <= k < |t| ==> t[k] == At(s, i + k);
    ValueRead(s, i, t);
  }

  // Reading clocks.
  lemma ClockRead(s: string, i: nat, c: Clock)
    requires Here(s, i, ClockText(c)) && GoodClock(c) && AfterClock(c, At(s, i + |ClockText(c)|))
    ensures Secs(s, i) == Some((ClockSecs(c), i + |ClockText(c)|))
  {
    hide Number, Value, Here, At, IsDigit, Secs, Numeral;
    match c
    case Hours(h) => HoursRead(s, i, h);
    case Minutes(h, m) => MinutesRead(s, i, h, m);
    case Seconds(h, m, sec) => SecondsRead(s, i, h, m, sec);
  }

  lemma HoursRead(s: string, i: nat, h: string)
    requires Here(s, i, h) && Numeral(h, 0, 167) && !IsDigit(At(s, i + |h|)) && At(s, i + |h|) != ':'
    ensures (forall k :: 0 <= k < |h| ==> IsDigit(h[k])) && Secs(s, i) == Some((Value(h) * 3600, i + |h|))
  {
    hide *;
    NumeralMeans(h, 0, 167);
    NumberRead(s, i, h, 0, 167);
    SecsOfHours(s, i, Value(h), i + |h|);
  }

  lemma SecsOfHours(s: string, i: nat, h: int, j: nat)
    requires Number(s, i, 0, 167) == Some((h, j)) && At(s, j) != ':'
    ensures Secs(s, i) == Some((h * 3600, j))
  {
    hide Number, At;
  }

  lemma MinutesRead(s: string, i: nat, h: string, m: string)
    requires Here(s, i, h + ":" + m) && Numeral(h, 0, 167) && Numeral(m, 0, 59)
    requires var c := At(s, i + |h + ":" + m|); !IsDigit(c) && c != ':'
    ensures (forall k :: 0 <= k < |h| ==> IsDigit(h[k])) && (forall k :: 0 <= k < |m| ==> IsDigit(m[k]))
    ensures Secs(s, i) == Some((Value(h) * 3600 + Value(m) * 60, i + |h + ":" + m|))
  {
    hide *;
    NumeralMeans(h, 0, 167);
    NumeralMeans(m, 0, 59);
    SplitThree(s, i, h, ":", m);
    Colon(s, i + |h|);
    NumberRead(s, i, h, 0, 167);
    NumberRead(s, i + |h| + 1, m, 0, 59);
    SecsOfMinutes(s, i, Value(h), i + |h|, Value(m), i + |h| + 1 + |m|);
  }

  lemma SecsOfMinutes(s: string, i: nat, h: int, j: nat, m: int, k: nat)
    requires Number(s, i, 0, 167) == Some((h, j)) && At(s, j) == ':'
    requires Number(s, j + 1, 0, 59) == Some((m, k)) && At(s, k) != ':'
    ensures Secs(s, i) == Some((h * 3600 + m * 60, k))
  {
    hide Number, At;
  }

  lemma SecondsRead(s: string, i: nat, h: string, m: string, sec: string)
    requires Here(s, i, h + ":" + m + ":" + sec) && Numeral(h, 0, 167) && Numeral(m, 0, 59) && Numeral(sec, 0, 60)
    requires !IsDigit(At(s, i + |h + ":" + m + ":" + sec|))
    ensures (forall k :: 0 <= k < |h| ==> IsDigit(h[k])) && (forall k :: 0 <= k < |m| ==> IsDigit(m[k]))
    ensures forall k :: 0 <= k < |sec| ==> IsDigit(sec[k])
    ensures Secs(s, i) == Some((Value(h) * 3600 + Value(m) * 60 + Value(sec), i + |h + ":" + m + ":" + sec|))
  {
    hide *;
    NumeralMeans(h, 0, 167);
    NumeralMeans(m, 0, 59);
    NumeralMeans(sec, 0, 60);
    SplitThree(s, i, h + ":" + m, ":", sec);
    SplitThree(s, i, h, ":", m);
    var j := i + |h|;
    var k := j + 1 + |m|;
    Colon(s, j);
    Colon(s, k);
    NumberRead(s, i, h, 0, 167);
    NumberRead(s, j + 1, m, 0, 59);
    NumberRead(s, k + 1, sec, 0, 60);
    SecsOfSeconds(s, i, Value(h), j, Value(m), k, Value(sec), k + 1 + |sec|);
  }

  lemma SecsOfSeconds(s: string, i: nat, h: int, j: nat, m: int, k: nat, sec: int, l: nat)
    requires Number(s, i, 0, 167) == Some((h, j)) && At(s, j) == ':'
    requires Number(s, j + 1, 0, 59) == Some((m, k)) && At(s, k) == ':' && Number(s, k + 1, 0, 60) == Some((sec, l))
    ensures Secs(s, i) == Some((h * 3600 + m * 60 + sec, l))
  {
    hide Number, At;
  }

  lemma Colon(s: string, i: nat)
    requires Here(s, i, ":")
    ensures At(s, i) == ':' && !IsDigit(At(s, i))
  {
    HereChar(s, i, ':');
  }

  // What stands at i and at its end stands there together.
  lemma HereJoin(s: string, i: nat, t: string, u: string)
    requires Here(s, i, t) && Here(s, i + |t|, u)
    ensures Here(s, i, t + u)
  {
  }

  lemma HereOne(s: string, i: nat, c: char)
    requires At(s, i) == c && c != '\0'
    ensures Here(s, i, [c])
  {
  }

  lemma ClockFound(s: string, i: nat) returns (c: Clock)
    requires Secs(s, i).Some?
    ensures Here(s, i, ClockText(c)) && GoodClock(c) && AfterClock(c, At(s, i + |ClockText(c)|))
    ensures Secs(s, i) == Some((ClockSecs(c), i + |ClockText(c)|))
  {
    hide Number, Value, Here, At, IsDigit;
    var h := NumberFound(s, i, 0, 167);
    var j := i + |h|;
    if At(s, j) != ':' {
      c := Hours(h);
    } else {
      HereOne(s, j, ':');
      HereJoin(s, i, h, ":");
      var m := NumberFound(s, j + 1, 0, 59);
      HereJoin(s, i, h + ":", m);
      var k := j + 1 + |m|;
      if At(s, k) != ':' {
        c := Minutes(h, m);
      } else {
        HereOne(s, k, ':');
        HereJoin(s, i, h + ":" + m, ":");
        var sec := NumberFound(s, k + 1, 0, 60);
        HereJoin(s, i, h + ":" + m + ":", sec);
        c := Seconds(h, m, sec);
      }
    }
  }

  // Reading offsets.
  lemma ShiftRead(s: string, i: nat, x: Shift)
    requires Here(s, i, ShiftText(x)) && GoodShift(x) && AfterClock(x.clock, At(s, i + |ShiftText(x)|))
    ensures Offset(s, i) == Some((ShiftSecs(x), i + |ShiftText(x)|))
    ensures var c := At(s, i); EndsName(c) && c != '\0' && c != ',' && c != ';'
  {
    hide Secs, ClockText, Here, GoodClock, ClockSecs;
    HereAppend(s, i, x.sign, ClockText(x.clock));
    ClockRead(s, i + |x.sign|, x.clock);
    ClockBegins(s, i + |x.sign|, x.clock);
    if x.sign != "" {
      HereChar(s, i, x.sign[0]);
    }
  }

  lemma ClockBegins(s: string, i: nat, c: Clock)
    requires Here(s, i, ClockText(c)) && GoodClock(c)
    ensures IsDigit(At(s, i))
  {
    assert ClockText(c)[0] == c.h[0];
    HereAt(s, i, ClockText(c), 0);
  }

  lemma ShiftFound(s: string, i: nat) returns (x: Shift)
    requires Offset(s, i).Some?
    ensures Here(s, i, ShiftText(x)) && GoodShift(x) && AfterClock(x.clock, At(s, i + |ShiftText(x)|))
    ensures Offset(s, i) == Some((ShiftSecs(x), i + |ShiftText(x)|))
    ensures IsDigit(At(s, i)) || At(s, i) == '+' || At(s, i) == '-'
  {
    hide Secs, ClockText, Here, GoodClock, ClockSecs, IsDigit;
    if At(s, i) == '-' || At(s, i) == '+' {
      var c := ClockFound(s, i + 1);
      HereOne(s, i, At(s, i));
      x := Shift([At(s, i)], c);
      HereJoin(s, i, x.sign, ClockText(c));
    } else {
      var c := ClockFound(s, i);
      ClockBegins(s, i, c);
      x := Shift("", c);
      assert "" + ClockText(c) == ClockText(c);
    }
  }

  // Reading names.
  lemma LabelRead(s: string, i: nat, l: Label)
    requires Here(s, i, LabelText(l)) && GoodLabel(l) && (l.Bare? ==> EndsName(At(s, i + |LabelText(l)|)))
    ensures var b := i + if l.Quoted? then 1 else 0;
            ParseName(s, i) == Some(Name(b, b + |l.name|, i + |LabelText(l)|)) && Names(s, ParseName(s, i).value, l)
  {
    var b := i + if l.Quoted? then 1 else 0;
    if l.Quoted? {
      SplitThree(s, i, "<", l.name, ">");
      HereChar(s, i, '<');
      HereChar(s, i + 1 + |l.name|, '>');
    }
    forall k | b <= k < b + |l.name|
      ensures At(s, k) == l.name[k - b]
    {
      HereAt(s, b, l.name, k - b);
    }
    if l.Quoted? {
      QuotedEndIs(s, b, b + |l.name|);
    } else {
      NameEndIs(s, i, i + |l.name|);
    }
  }

  lemma LabelBegins(s: string, i: nat, l: Label)
    requires Here(s, i, LabelText(l)) && GoodLabel(l)
    ensures var c := At(s, i); !IsDigit(c) && c != '\0' && (l.Quoted? ==> c == '<') && (l.Bare? ==> c == l.name[0] != '<')
  {
    HereAt(s, i, LabelText(l), 0);
  }

  lemma LabelFound(s: string, i: nat) returns (l: Label)
    requires ParseName(s, i).Some?
    ensures Here(s, i, LabelText(l)) && GoodLabel(l) && (l.Bare? ==> EndsName(At(s, i + |LabelText(l)|)))
    ensures ParseName(s, i).value.next == i + |LabelText(l)| && Names(s, ParseName(s, i).value, l)
    ensures ParseName(s, i).value.end - ParseName(s, i).value.begin == |l.name|
  {
    var n := ParseName(s, i).value;
    var last := At(s, n.end - 1);
    if At(s, i) == '<' {
      assert !EndsQuotedName(last);
      l := Quoted(s[n.begin..n.end]);
      assert forall k :: 0 <= k < |l.name| ==> l.name[k] == At(s, n.begin + k);
      HereOne(s, i, '<');
      HereJoin(s, i, "<", l.name);
      HereOne(s, n.end, '>');
      HereJoin(s, i, "<" + l.name, ">");
    } else {
      assert !EndsName(last);
      l := Bare(s[n.begin..n.end]);
      assert forall k :: 0 <= k < |l.name| ==> l.name[k] == At(s, n.begin + k);
    }
  }

  // Reading days.
  lemma DayRead(s: string, i: nat, d: Day)
    requires Here(s, i, DayText(d)) && GoodDay(d) && !IsDigit(At(s, i + |DayText(d)|))
    ensures Date(s, i) == Some((DayRule(d, 0), i + |DayText(d)|))
  {
    hide Number, Here, At, IsDigit, Value, Numeral, Date;
    match d
    case Julian(n) => JulianRead(s, i, n);
    case Plain(n) => PlainRead(s, i, n);
    case Month(m, w, n) => MonthRead(s, i, m, w, n);
  }

  lemma JulianRead(s: string, i: nat, n: string)
    requires Here(s, i, "J" + n) && Numeral(n, 1, 365) && !IsDigit(At(s, i + |"J" + n|))
    ensures (forall k :: 0 <= k < |n| ==> IsDigit(n[k])) && Date(s, i) == Some((Rule(JulianDay, Value(n), 0, 0, 0), i + |"J" + n|))
  {
    hide *;
    NumeralMeans(n, 1, 365);
    HereAppend(s, i, "J", n);
    HereChar(s, i, 'J');
    NumberRead(s, i + 1, n, 1, 365);
    DateOf(s, i);
  }

  lemma PlainRead(s: string, i: nat, n: string)
    requires Here(s, i, n) && Numeral(n, 0, 365) && !IsDigit(At(s, i + |n|))
    ensures (forall k :: 0 <= k < |n| ==> IsDigit(n[k])) && Date(s, i) == Some((Rule(DayOfYear, Value(n), 0, 0, 0), i + |n|))
  {
    hide *;
    NumeralMeans(n, 0, 365);
    NumeralBegins(s, i, n, 0, 365);
    NumberRead(s, i, n, 0, 365);
    DateOf(s, i);
  }

  lemma DateOf(s: string, i: nat)
    ensures At(s, i) == 'J' && Number(s, i + 1, 1, 365).Some? ==>
              var (n, j) := Number(s, i + 1, 1, 365).value; Date(s, i) == Some((Rule(JulianDay, n, 0, 0, 0), j))
    ensures At(s, i) != 'J' && At(s, i) != 'M' && IsDigit(At(s, i)) && Number(s, i, 0, 365).Some? ==>
              var (n, j) := Number(s, i, 0, 365).value; Date(s, i) == Some((Rule(DayOfYear, n, 0, 0, 0), j))
  {
    hide Number, At, IsDigit;
  }

  lemma MonthRead(s: string, i: nat, m: string, w: string, n: string)
    requires Here(s, i, "M" + m + "." + w + "." + n) && Numeral(m, 1, 12) && Numeral(w, 1, 5) && Numeral(n, 0, 6)
    requires !IsDigit(At(s, i + |"M" + m + "." + w + "." + n|))
    ensures (forall k :: 0 <= k < |m| ==> IsDigit(m[k])) && (forall k :: 0 <= k < |w| ==> IsDigit(w[k]))
    ensures forall k :: 0 <= k < |n| ==> IsDigit(n[k])
    ensures Date(s, i)
            == Some((Rule(MonthNthDayOfWeek, Value(n), Value(w), Value(m), 0), i + |"M" + m + "." + w + "." + n|))
  {
    hide *;
    NumeralMeans(m, 1, 12);
    NumeralMeans(w, 1, 5);
    NumeralMeans(n, 0, 6);
    SplitThree(s, i, "M" + m + "." + w, ".", n);
    SplitThree(s, i, "M" + m, ".", w);
    HereAppend(s, i, "M", m);
    HereChar(s, i, 'M');
    var j := i + 1 + |m|;
    var k := j + 1 + |w|;
    Dot(s, j);
    Dot(s, k);
    NumberRead(s, i + 1, m, 1, 12);
    NumberRead(s, j + 1, w, 1, 5);
    NumberRead(s, k + 1, n, 0, 6);
    MonthDate(s, i, Rule(MonthNthDayOfWeek, Value(n), Value(w), Value(m), 0), j, k, k + 1 + |n|);
  }

  lemma NumeralBegins(s: string, i: nat, t: string, min: int, max: int)
    requires Here(s, i, t) && Numeral(t, min, max)
    ensures IsDigit(At(s, i)) && At(s, i) != 'J' && At(s, i) != 'M'
  {
    HereAt(s, i, t, 0);
  }

  lemma DayFound(s: string, i: nat) returns (d: Day)
    requires Date(s, i).Some?
    ensures Here(s, i, DayText(d)) && GoodDay(d) && !IsDigit(At(s, i + |DayText(d)|))
    ensures Date(s, i) == Some((DayRule(d, 0), i + |DayText(d)|))
  {
    hide Number, Here, At, IsDigit, Value, Numeral;
    if At(s, i) == 'J' {
      var n := NumberFound(s, i + 1, 1, 365);
      HereOne(s, i, 'J');
      HereJoin(s, i, "J", n);
      d := Julian(n);
    } else if At(s, i) == 'M' {
      var m := NumberFound(s, i + 1, 1, 12);
      var j := i + 1 + |m|;
      var w := NumberFound(s, j + 1, 1, 5);
      var k := j + 1 + |w|;
      var n := NumberFound(s, k + 1, 0, 6);
      HereOne(s, i, 'M');
      HereJoin(s, i, "M", m);
      HereOne(s, j, '.');
      HereJoin(s, i, "M" + m, ".");
      HereJoin(s, i, "M" + m + ".", w);
      HereOne(s, k, '.');
      HereJoin(s, i, "M" + m + "." + w, ".");
      HereJoin(s, i, "M" + m + "." + w + ".", n);
      d := Month(m, w, n);
    } else {
      var n := NumberFound(s, i, 0, 365);
      d := Plain(n);
    }
  }

  // Reading rules.
  lemma MomentRead(s: string, i: nat, x: Moment)
    requires Here(s, i, MomentText(x)) && GoodMoment(x) && AfterMoment(x, At(s, i + |MomentText(x)|))
    ensures GetRule(s, i) == Some((MomentRule(x), i + |MomentText(x)|))
  {
    hide Date, Offset, Here, At, DayText, ShiftText, GoodDay, GoodShift, ShiftSecs, IsDigit;
    var d := DayText(x.day);
    if x.time.Some? {
      var t := ShiftText(x.time.value);
      assert MomentText(x) == d + "/" + t;
      SplitThree(s, i, d, "/", t);
      HereChar(s, i + |d|, '/');
      assert !IsDigit('/') by {
        SlashIsNone();
      }
      DayRead(s, i, x.day);
      ShiftRead(s, i + |d| + 1, x.time.value);
    } else {
      assert MomentText(x) == d;
      DayRead(s, i, x.day);
    }
  }

  lemma SlashIsNone()
    ensures !IsDigit('/') && !IsDigit(',') && !IsDigit('\0') && !IsDigit(';')
  {
  }

  lemma MomentFound(s: string, i: nat) returns (x: Moment)
    requires GetRule(s, i).Some?
    ensures Here(s, i, MomentText(x)) && GoodMoment(x) && AfterMoment(x, At(s, i + |MomentText(x)|))
    ensures GetRule(s, i) == Some((MomentRule(x), i + |MomentText(x)|))
  {
    hide Date, Offset, Here, At, DayText, ShiftText, GoodDay, GoodShift, ShiftSecs, IsDigit, AfterClock;
    var d := DayFound(s, i);
    var j := i + |DayText(d)|;
    if At(s, j) == '/' {
      var t := ShiftFound(s, j + 1);
      HereOne(s, j, '/');
      HereJoin(s, i, DayText(d), "/");
      HereJoin(s, i, DayText(d) + "/", ShiftText(t));
      x := Moment(d, Some(t));
      assert MomentText(x) == DayText(d) + "/" + ShiftText(t);
    } else {
      x := Moment(d, None);
      assert MomentText(x) == DayText(d);
    }
  }

  // Reading both rules, to the end of the text.
  lemma PairRead(s: string, i: nat, p: Pair)
    requires Here(s, i, PairText(p)) && GoodPair(p) && At(s, i + |PairText(p)|) == '\0'
    ensures ParseRules(s, i) == Some((MomentRule(p.start), MomentRule(p.end))) && At(s, i) == p.sep[0]
  {
    hide GetRule, Here, At, MomentText, GoodMoment, MomentRule, IsDigit;
    var f, h := MomentText(p.start), MomentText(p.end);
    SplitThree(s, i, p.sep + f, ",", h);
    HereAppend(s, i, p.sep, f);
    HereChar(s, i, p.sep[0]);
    HereChar(s, i + 1 + |f|, ',');
    MayFollow(p.start, ',');
    MayFollow(p.end, '\0');
    MomentRead(s, i + 1, p.start);
    MomentRead(s, i + 1 + |f| + 1, p.end);
  }

  lemma MayFollow(x: Moment, c: char)
    requires c == ',' || c == '\0'
    ensures AfterMoment(x, c)
  {
  }

  lemma PairFound(s: string, i: nat) returns (p: Pair)
    requires ParseRules(s, i).Some? && (At(s, i) == ',' || At(s, i) == ';')
    ensures Here(s, i, PairText(p)) && GoodPair(p) && At(s, i + |PairText(p)|) == '\0' && p.sep == [At(s, i)]
    ensures ParseRules(s, i) == Some((MomentRule(p.start), MomentRule(p.end)))
  {
    hide GetRule, Here, At, MomentText, GoodMoment, MomentRule, AfterMoment;
    var x := MomentFound(s, i + 1);
    var j := i + 1 + |MomentText(x)|;
    var y := MomentFound(s, j + 1);
    p := Pair([At(s, i)], x, y);
    HereOne(s, i, At(s, i));
    HereJoin(s, i, p.sep, MomentText(x));
    HereOne(s, j, ',');
    HereJoin(s, i, p.sep + MomentText(x), ",");
    HereJoin(s, i, p.sep + MomentText(x) + ",", MomentText(y));
  }

  lemma AtEnd(s: string, i: nat)
    requires i == |s|
    ensures At(s, i) == '\0' && !IsDigit(At(s, i)) && EndsName(At(s, i))
  {
  }

  lemma EndReached(s: string, i: nat)
    requires NoNul(s) && i <= |s| && At(s, i) == '\0'
    ensures i == |s|
  {
  }

  lemma HereWithin(s: string, i: nat, t: string)
    requires Here(s, i, t)
    ensures i + |t| <= |s|
  {
  }

  // The rules that stand at i, or the default ones at the end.
  lemma RulesRead(s: string, i: nat, rules: Option<Pair>)
    requires Here(s, i, OptPairText(rules)) && (rules.Some? ==> GoodPair(rules.value)) && i + |OptPairText(rules)| == |s|
    ensures GoodPair(RulesOf(rules))
    ensures DstRules(s, i) == Some((MomentRule(RulesOf(rules).start), MomentRule(RulesOf(rules).end)))
    ensures At(s, i) == if rules.Some? then rules.value.sep[0] else '\0'
  {
    hide ParseRules, Here, PairText, MomentRule, GoodMoment, At;
    DefaultIsGood();
    if rules.Some? {
      AtEnd(s, i + |PairText(rules.value)|);
      PairRead(s, i, rules.value);
    } else {
      AtEnd(s, i);
      HereWhole(TZDEFRULESTRING);
      AtEnd(TZDEFRULESTRING, |TZDEFRULESTRING|);
      PairRead(TZDEFRULESTRING, 0, DefaultPair);
    }
  }

  lemma RulesFound(s: string, i: nat) returns (rules: Option<Pair>)
    requires NoNul(s) && i <= |s| && DstRules(s, i).Some?
    ensures Here(s, i, OptPairText(rules)) && (rules.Some? ==> GoodPair(rules.value) && rules.value.sep == [At(s, i)])
    ensures i + |OptPairText(rules)| == |s| && GoodPair(RulesOf(rules))
    ensures DstRules(s, i) == Some((MomentRule(RulesOf(rules).start), MomentRule(RulesOf(rules).end)))
  {
    hide ParseRules, PairText, MomentRule, GoodMoment, At, NoNul;
    if At(s, i) == '\0' {
      rules := None;
      EndReached(s, i);
    } else {
      var p := PairFound(s, i);
      rules := Some(p);
      HereWithin(s, i, PairText(p));
      EndReached(s, i + |PairText(p)|);
    }
    RulesRead(s, i, rules);
  }

  // The offset that stands at i, or an hour ahead.
  lemma AheadRead(s: string, i: nat, ahead: Option<Shift>, stdoffset: int)
    requires Here(s, i, OptShiftText(ahead)) && (ahead.Some? ==> GoodShift(ahead.value))
    requires var c := At(s, i + |OptShiftText(ahead)|); c == '\0' || c == ',' || c == ';'
    ensures DstOffset(s, i, stdoffset)
            == Some((if ahead.Some? then ShiftSecs(ahead.value) else stdoffset - 3600, i + |OptShiftText(ahead)|))
    ensures ahead.Some? ==> EndsName(At(s, i))
  {
    hide Offset, Here, ShiftText, GoodShift, ShiftSecs, At;
    if ahead.Some? {
      ShiftRead(s, i, ahead.value);
    }
  }

  lemma AheadFound(s: string, i: nat, stdoffset: int) returns (ahead: Option<Shift>)
    requires DstOffset(s, i, stdoffset).Some? && i <= |s|
    ensures Here(s, i, OptShiftText(ahead)) && (ahead.Some? ==> GoodShift(ahead.value))
    ensures DstOffset(s, i, stdoffset)
            == Some((if ahead.Some? then ShiftSecs(ahead.value) else stdoffset - 3600, i + |OptShiftText(ahead)|))
    ensures ahead.None? ==> At(s, i) == '\0' || At(s, i) == ',' || At(s, i) == ';'
  {
    hide Offset, ShiftText, GoodShift, ShiftSecs, At;
    if At(s, i) == '\0' || At(s, i) == ',' || At(s, i) == ';' {
      ahead := None;
    } else {
      var x := ShiftFound(s, i);
      ahead := Some(x);
    }
  }

  // The two parts that every TZ string begins with.
  lemma StartRead(s: string, std: Label, offset: Shift)
    requires Here(s, 0, LabelText(std)) && GoodLabel(std)
    requires Here(s, |LabelText(std)|, ShiftText(offset)) && GoodShift(offset)
    requires AfterClock(offset.clock, At(s, |LabelText(std)| + |ShiftText(offset)|))
    ensures ParseName(s, 0).Some? && Names(s, ParseName(s, 0).value, std)
    ensures ParseName(s, 0).value.end - ParseName(s, 0).value.begin == |std.name|
    ensures Offset(s, ParseName(s, 0).value.next) == Some((ShiftSecs(offset), |LabelText(std)| + |ShiftText(offset)|))
  {
    hide ParseName, Offset, Here, LabelText, ShiftText, GoodLabel, GoodShift, ShiftSecs, At, AfterClock;
    ShiftRead(s, |LabelText(std)|, offset);
    LabelRead(s, 0, std);
  }

  lemma FixedRead(p: Spelling)
    requires GoodSpelling(p) && p.Fixed?
    ensures ParseTz(Text(p)).Some? && Says(Text(p), ParseTz(Text(p)).value, p)
  {
    var s, a, b := Text(p), LabelText(p.std), ShiftText(p.offset);
    assert s == a + b;
    hide ParseName, Offset, Here, LabelText, ShiftText, GoodLabel, GoodShift, ShiftSecs, At, GoodPair;
    HereWhole(s);
    HereAppend(s, 0, a, b);
    AtEnd(s, |a| + |b|);
    StartRead(s, p.std, p.offset);
  }

  // Where the parts of a spelling with daylight time stand.
  lemma ChangingParts(p: Spelling)
    requires p.Changing?
    ensures var (s, a, b, c, d, e) := (Text(p), LabelText(p.std), ShiftText(p.offset), LabelText(p.dst),
                                       OptShiftText(p.ahead), OptPairText(p.rules));
            var (q, u) := (|a| + |b|, |a| + |b| + |c|);
            && Here(s, 0, a) && Here(s, |a|, b) && Here(s, q, c) && Here(s, u, d) && Here(s, u + |d|, e)
            && |s| == u + |d| + |e|
  {
    hide LabelText, ShiftText, OptShiftText, OptPairText, Here;
    var s, a, b := Text(p), LabelText(p.std), ShiftText(p.offset);
    var c, d, e := LabelText(p.dst), OptShiftText(p.ahead), OptPairText(p.rules);
    assert s == a + b + (c + d + e);
    HereWhole(s);
    SplitThree(s, 0, a, b, c + d + e);
    SplitThree(s, |a| + |b|, c, d, e);
  }

  lemma ChangingRead(p: Spelling)
    requires GoodSpelling(p) && p.Changing?
    ensures ParseTz(Text(p)).Some? && Says(Text(p), ParseTz(Text(p)).value, p)
  {
    hide *;
    var s, a, b, c := Text(p), LabelText(p.std), ShiftText(p.offset), LabelText(p.dst);
    var q := |a| + |b|;
    var u := q + |c|;
    var v := u + |OptShiftText(p.ahead)|;
    GoodParts(p);
    ChangingParts(p);
    RulesRead(s, v, p.rules);
    AheadRead(s, u, p.ahead, ShiftSecs(p.offset));
    NoShift();
    NextToOffset(s, q, p);
    StartRead(s, p.std, p.offset);
    AfterLabel(s, u, p);
    LabelRead(s, q, p.dst);
    LabelBegins(s, q, p.dst);
    ChangingSays(s, p, q, u, v);
  }

  lemma NoShift()
    ensures OptShiftText(None) == ""
  {
  }

  lemma GoodParts(p: Spelling)
    requires GoodSpelling(p) && p.Changing?
    ensures GoodLabel(p.std) && GoodShift(p.offset) && GoodLabel(p.dst)
    ensures p.ahead.Some? ==> GoodShift(p.ahead.value)
    ensures p.rules.Some? ==> GoodPair(p.rules.value) && (p.rules.value.sep == "," || p.rules.value.sep == ";")
    ensures |p.std.name| + 1 + |p.dst.name| + 1 <= TZ_MAX_CHARS_OR_NAMES
  {
    hide GoodLabel, GoodShift, GoodMoment;
  }

  lemma NextToOffset(s: string, q: nat, p: Spelling)
    requires GoodSpelling(p) && p.Changing? && Here(s, q, LabelText(p.dst))
    ensures AfterClock(p.offset.clock, At(s, q))
  {
    hide Here, LabelText, At, GoodShift, GoodPair, IsDigit;
    LabelBegins(s, q, p.dst);
  }

  lemma AfterLabel(s: string, u: nat, p: Spelling)
    requires GoodSpelling(p) && p.Changing?
    requires p.ahead.Some? ==> EndsName(At(s, u))
    requires p.ahead.None? ==> At(s, u) == if p.rules.Some? then p.rules.value.sep[0] else '\0'
    ensures p.dst.Bare? ==> EndsName(At(s, u))
  {
    hide At, GoodLabel, GoodShift, GoodMoment;
  }

  lemma ChangingSays(s: string, p: Spelling, q: nat, u: nat, v: nat)
    requires GoodSpelling(p) && p.Changing? && At(s, q) != '\0'
    requires ParseName(s, 0).Some? && Names(s, ParseName(s, 0).value, p.std)
    requires ParseName(s, 0).value.end - ParseName(s, 0).value.begin == |p.std.name|
    requires Offset(s, ParseName(s, 0).value.next) == Some((ShiftSecs(p.offset), q))
    requires ParseName(s, q).Some? && Names(s, ParseName(s, q).value, p.dst) && ParseName(s, q).value.next == u
    requires ParseName(s, q).value.end - ParseName(s, q).value.begin == |p.dst.name|
    requires DstOffset(s, u, ShiftSecs(p.offset))
             == Some((if p.ahead.Some? then ShiftSecs(p.ahead.value) else ShiftSecs(p.offset) - 3600, v))
    requires GoodPair(RulesOf(p.rules))
    requires DstRules(s, v) == Some((MomentRule(RulesOf(p.rules).start), MomentRule(RulesOf(p.rules).end)))
    ensures ParseTz(s).Some? && Says(s, ParseTz(s).value, p)
  {
    hide ParseName, Offset, DstOffset, DstRules, At, MomentRule, GoodLabel, GoodShift, ShiftSecs, GoodMoment, GoodPair, RulesOf;
  }

  /** Every spelling is read, and what comes out is what it means. */
  lemma SpellingIsRead(p: Spelling)
    requires GoodSpelling(p)
    ensures ParseTz(Text(p)).Some? && Says(Text(p), ParseTz(Text(p)).value, p)
  {
    hide *;
    if p.Fixed? {
      FixedRead(p);
    } else {
      ChangingRead(p);
    }
  }

  /** What is read was spelt. */
  lemma ReadWasSpelt(s: string) returns (p: Spelling)
    requires NoNul(s) && ParseTz(s).Some?
    ensures GoodSpelling(p) && Text(p) == s
  {
    hide *;
    ParsedStart(s);
    var std := LabelFound(s, 0);
    var j := |LabelText(std)|;
    var x := ShiftFound(s, j);
    var q := j + |ShiftText(x)|;
    HereWithin(s, j, ShiftText(x));
    if At(s, q) == '\0' {
      EndReached(s, q);
      p := Fixed(std, x);
      FixedText(s, p);
    } else {
      ParsedRest(s, q, ShiftSecs(x));
      var dst := LabelFound(s, q);
      var u := q + |LabelText(dst)|;
      HereWithin(s, q, LabelText(dst));
      var ahead := AheadFound(s, u, ShiftSecs(x));
      var v := u + |OptShiftText(ahead)|;
      HereWithin(s, u, OptShiftText(ahead));
      var rules := RulesFound(s, v);
      p := Changing(std, x, dst, ahead, rules);
      NoShift();
      LabelBegins(s, q, dst);
      ChangingGood(s, p, q, u);
      ChangingText(s, p);
    }
  }

  lemma ParsedStart(s: string)
    requires ParseTz(s).Some?
    ensures ParseName(s, 0).Some? && var std := ParseName(s, 0).value;
            Offset(s, std.next).Some? && std.end - std.begin + 1 <= TZ_MAX_CHARS_OR_NAMES
  {
    hide ParseName, Offset, DstOffset, DstRules, At;
  }

  lemma ParsedRest(s: string, q: nat, stdoffset: int)
    requires ParseTz(s).Some? && ParseName(s, 0).Some? && At(s, q) != '\0'
    requires Offset(s, ParseName(s, 0).value.next) == Some((stdoffset, q))
    ensures ParseName(s, q).Some? && var (std, dst) := (ParseName(s, 0).value, ParseName(s, q).value);
            && std.end - std.begin + 1 + (dst.end - dst.begin + 1) <= TZ_MAX_CHARS_OR_NAMES
            && DstOffset(s, dst.next, stdoffset).Some?
            && DstRules(s, DstOffset(s, dst.next, stdoffset).value.1).Some?
  {
    hide ParseName, Offset, DstOffset, DstRules, At;
  }

  lemma FixedText(s: string, p: Spelling)
    requires p.Fixed? && GoodLabel(p.std) && GoodShift(p.offset) && |p.std.name| + 1 <= TZ_MAX_CHARS_OR_NAMES
    requires Here(s, 0, LabelText(p.std)) && Here(s, |LabelText(p.std)|, ShiftText(p.offset))
    requires |s| == |LabelText(p.std)| + |ShiftText(p.offset)|
    ensures GoodSpelling(p) && Text(p) == s
  {
    hide LabelText, ShiftText, GoodLabel, GoodShift;
    var a, b := LabelText(p.std), ShiftText(p.offset);
    HereJoin(s, 0, a, b);
    assert s == s[0..|a + b|];
  }

  lemma ChangingGood(s: string, p: Spelling, q: nat, u: nat)
    requires p.Changing? && GoodLabel(p.std) && GoodShift(p.offset) && GoodLabel(p.dst)
    requires (p.ahead.Some? ==> GoodShift(p.ahead.value)) && (p.rules.Some? ==> GoodPair(p.rules.value))
    requires |p.std.name| + 1 + |p.dst.name| + 1 <= TZ_MAX_CHARS_OR_NAMES
    requires AfterClock(p.offset.clock, At(s, q)) && (p.dst.Bare? ==> At(s, q) == p.dst.name[0] && EndsName(At(s, u)))
    requires p.ahead.None? && p.rules.Some? ==> p.rules.value.sep == [At(s, u)]
    ensures GoodSpelling(p)
  {
    hide GoodLabel, GoodShift, GoodPair, At;
  }

  lemma ChangingText(s: string, p: Spelling)
    requires p.Changing?
    requires var (a, b, c, d, e) := (LabelText(p.std), ShiftText(p.offset), LabelText(p.dst),
                                     OptShiftText(p.ahead), OptPairText(p.rules));
             var (q, u) := (|a| + |b|, |a| + |b| + |c|);
             && Here(s, 0, a) && Here(s, |a|, b) && Here(s, q, c) && Here(s, u, d) && Here(s, u + |d|, e)
             && |s| == u + |d| + |e|
    ensures Text(p) == s
  {
    hide LabelText, ShiftText, OptShiftText, OptPairText;
    var a, b, c := LabelText(p.std), ShiftText(p.offset), LabelText(p.dst);
    var d, e := OptShiftText(p.ahead), OptPairText(p.rules);
    HereJoin(s, |a| + |b|, c, d);
    HereJoin(s, |a| + |b|, c + d, e);
    HereJoin(s, 0, a, b);
    HereJoin(s, 0, a + b, c + d + e);
    assert s[0..|s|] == s;
  }

  /** A string is accepted exactly if the grammar spells it. */
  lemma AcceptedIffSpelt(s: string)
    requires NoNul(s)
    ensures ParseTz(s).Some? <==> exists p :: GoodSpelling(p) && Text(p) == s
    ensures forall p :: GoodSpelling(p) && Text(p) == s ==> ParseTz(s).Some? && Says(s, ParseTz(s).value, p)
  {
    hide *;
    forall p | GoodSpelling(p) && Text(p) == s
      ensures ParseTz(s).Some? && Says(s, ParseTz(s).value, p)
    {
      SpellingIsRead(p);
    }
    if ParseTz(s).Some? {
      var p := ReadWasSpelt(s);
    }
  }
}
