/** The text of POSIX TZ strings: the scanners of Source/tzdb.h and what they give
    back for text written by the rules of section 8.3 of the POSIX.1-2017 Base
    Definitions. */
module RuleText {
  import opened Rules
  import opened Wrappers

  // A C string is given without its terminator; reading at its end finds the nul.
  function At(s: string, i: nat): char {
    if i < |s| then s[i] else '\0'
  }

  predicate NoNul(s: string) {
    forall k :: 0 <= k < |s| ==> s[k] != '\0'
  }

  predicate IsDigit(c: char) {
    '0' <= c <= '9'
  }

  function DigitValue(c: char): nat
    requires IsDigit(c)
  {
    c as int - '0' as int
  }

  // The end of the digits that begin at i.
  function DigitsEnd(s: string, i: nat): (e: nat)
    ensures i <= e && !IsDigit(At(s, e))
    ensures forall k :: i <= k < e ==> IsDigit(At(s, k))
    decreases if i < |s| then |s| - i else 0
  {
    if IsDigit(At(s, i)) then DigitsEnd(s, i + 1) else i
  }

  // The value in base ten of the digits of s from i to e.
  function Decimal(s: string, i: nat, e: nat): nat
    requires i <= e && forall k :: i <= k < e ==> IsDigit(At(s, k))
    decreases e - i
  {
    if i == e then 0 else 10 * Decimal(s, i, e - 1) + DigitValue(At(s, e - 1))
  }

  /** What getnum is to find at i: the value of all the digits there, and where they
      end; None if there are none or the value is not between min and max. */
  function Number(s: string, i: nat, min: int, max: int): (r: Option<(int, nat)>)
  {
    var e := DigitsEnd(s, i);
    var num := Decimal(s, i, e);
    if e == i || num < min || num > max then None else Some((num, e))
  }

  lemma {:induction false} DecimalGrows(s: string, i: nat, k: nat, e: nat)
    requires i <= k <= e && forall j :: i <= j < e ==> IsDigit(At(s, j))
    ensures Decimal(s, i, k) <= Decimal(s, i, e)
    decreases e - k
  {
    if k < e {
      DecimalGrows(s, i, k, e - 1);
    }
  }

  lemma DigitsEndUnique(s: string, i: nat, e: nat)
    requires i <= e && !IsDigit(At(s, e))
    requires forall k :: i <= k < e ==> IsDigit(At(s, k))
    ensures DigitsEnd(s, i) == e
  {
  }

  /** Source/tzdb.h:1264-1288. */
  method Getnum(s: string, strp: nat, min: int, max: int) returns (r: Option<(int, nat)>)
    requires min >= 0
    ensures r == Number(s, strp, min, max)
  {
    if !IsDigit(At(s, strp)) {
      return None;
    }
    var num, p := 0, strp;
    ghost var e := DigitsEnd(s, strp);
    while true
      invariant strp <= p < e
      invariant num == Decimal(s, strp, p)
      decreases e - p
    {
      num := num * 10 + DigitValue(At(s, p));
      p := p + 1;
      if num > max {
        DecimalGrows(s, strp, p, e);
        return None;
      }
      if !IsDigit(At(s, p)) {
        break;
      }
    }
    DigitsEndUnique(s, strp, p);
    if num < min {
      return None;
    }
    r := Some((num, p));
  }

  // getsecs: hh[:mm[:ss]], with hours up to 167 and seconds up to 60.
  function Secs(s: string, i: nat): Option<(int, nat)> {
    var (hours, j) :- Number(s, i, 0, 167);
    if At(s, j) != ':' then Some((hours * 3600, j))
    else
      var (mins, k) :- Number(s, j + 1, 0, 59);
      if At(s, k) != ':' then Some((hours * 3600 + mins * 60, k))
      else
        var (secs, l) :- Number(s, k + 1, 0, 60);
        Some((hours * 3600 + mins * 60 + secs, l))
  }

  // getoffset: an optional sign, then seconds.
  function Offset(s: string, i: nat): Option<(int, nat)> {
    if At(s, i) == '-' then
      var (secs, j) :- Secs(s, i + 1);
      Some((-secs, j))
    else if At(s, i) == '+' then Secs(s, i + 1)
    else Secs(s, i)
  }

  // The date of a rule; its time is filled in afterwards.
  function Date(s: string, i: nat): Option<(Rule, nat)> {
    if At(s, i) == 'J' then
      var (day, j) :- Number(s, i + 1, 1, 365);
      Some((Rule(JulianDay, day, 0, 0, 0), j))
    else if At(s, i) == 'M' then
      var (mon, j) :- Number(s, i + 1, 1, 12);
      if At(s, j) != '.' then None
      else
        var (week, k) :- Number(s, j + 1, 1, 5);
        if At(s, k) != '.' then None
        else
          var (day, l) :- Number(s, k + 1, 0, 6);
          Some((Rule(MonthNthDayOfWeek, day, week, mon, 0), l))
    else if IsDigit(At(s, i)) then
      var (day, j) :- Number(s, i, 0, 365);
      Some((Rule(DayOfYear, day, 0, 0, 0), j))
    else None
  }

  // getrule: date[/time], the time being 02:00:00 by default.
  function GetRule(s: string, i: nat): Option<(Rule, nat)> {
    var (rule, j) :- Date(s, i);
    if At(s, j) != '/' then Some((rule.(time := 7200), j))
    else
      var (time, k) :- Offset(s, j + 1);
      Some((rule.(time := time), k))
  }

  // The fields a rule of its kind does not use are zero.
  predicate Canonical(rule: Rule) {
    InRange(rule) && (rule.kind.MonthNthDayOfWeek? || (rule.week == 0 && rule.mon == 0))
  }

  const MAX_SECS := 168 * 3600

  lemma OffsetRange(s: string, i: nat)
    ensures Offset(s, i).Some? ==> -MAX_SECS <= Offset(s, i).value.0 <= MAX_SECS
  {
    hide DigitsEnd, Decimal, At;
  }

  lemma DateRange(s: string, i: nat)
    ensures Date(s, i).Some? ==> Canonical(Date(s, i).value.0)
  {
    hide DigitsEnd, Decimal, At;
  }

  /** Whatever getrule accepts is a rule transtime can evaluate. */
  lemma GetRuleInRange(s: string, i: nat)
    ensures GetRule(s, i).Some? ==>
              InRange(GetRule(s, i).value.0) && -MAX_SECS <= GetRule(s, i).value.0.time <= MAX_SECS
  {
    hide Date, Offset;
    DateRange(s, i);
    var date := Date(s, i);
    if date.Some? {
      OffsetRange(s, date.value.1 + 1);
    }
  }

  // Writing: numbers in base ten without leading zeros.
  function Digits(n: nat): (s: string)
    ensures s != [] && forall k :: 0 <= k < |s| ==> IsDigit(s[k])
  {
    var last := ['0' + (n % 10) as char];
    if n < 10 then last else Digits(n / 10) + last
  }

  function WriteSecs(secs: nat): string {
    var hours, mins, rest := secs / 3600, secs / 60 % 60, secs % 60;
    if mins == 0 && rest == 0 then Digits(hours)
    else if rest == 0 then Digits(hours) + ":" + Digits(mins)
    else Digits(hours) + ":" + Digits(mins) + ":" + Digits(rest)
  }

  function WriteOffset(secs: int): string {
    if secs < 0 then "-" + WriteSecs(-secs) else WriteSecs(secs)
  }

  function WriteDate(rule: Rule): string
    requires InRange(rule)
  {
    match rule.kind
    case JulianDay => "J" + Digits(rule.day)
    case DayOfYear => Digits(rule.day)
    case MonthNthDayOfWeek => "M" + Digits(rule.mon) + "." + Digits(rule.week) + "." + Digits(rule.day)
  }

  // A rule in POSIX form; a time of 02:00:00 goes without saying.
  function WriteRule(rule: Rule): string
    requires InRange(rule)
  {
    WriteDate(rule) + if rule.time == 7200 then "" else "/" + WriteOffset(rule.time)
  }

  // The text t stands in s at i.
  predicate Here(s: string, i: nat, t: string) {
    i + |t| <= |s| && s[i..i + |t|] == t
  }

  lemma HereAppend(s: string, i: nat, t: string, u: string)
    requires Here(s, i, t + u)
    ensures Here(s, i, t) && Here(s, i + |t|, u)
  {
    var both := s[i..i + |t + u|];
    assert s[i..i + |t|] == both[..|t|] == t;
    assert s[i + |t|..i + |t| + |u|] == both[|t|..] == u;
  }

  lemma {:induction false} DecimalOfDigits(s: string, i: nat, n: nat)
    requires Here(s, i, Digits(n))
    ensures forall k :: i <= k < i + |Digits(n)| ==> IsDigit(At(s, k))
    ensures Decimal(s, i, i + |Digits(n)|) == n
    decreases n
  {
    var d := Digits(n);
    forall k | i <= k < i + |d|
      ensures At(s, k) == d[k - i]
    {
      assert s[k] == s[i..i + |d|][k - i];
    }
    if n >= 10 {
      HereAppend(s, i, Digits(n / 10), ['0' + (n % 10) as char]);
      DecimalOfDigits(s, i, n / 10);
    } else {
      assert Decimal(s, i, i) == 0;
    }
  }

  /** getnum reads back a number that is written and not followed by a digit. */
  lemma NumberRoundTrip(s: string, i: nat, n: nat, min: int, max: int)
    requires min <= n <= max
    requires Here(s, i, Digits(n)) && !IsDigit(At(s, i + |Digits(n)|))
    ensures Number(s, i, min, max) == Some((n as int, i + |Digits(n)|))
  {
    DecimalOfDigits(s, i, n);
    DigitsEndUnique(s, i, i + |Digits(n)|);
  }

  predicate Ends(c: char) {
    c == ',' || c == '\0'
  }

  lemma HereChar(s: string, i: nat, c: char)
    requires Here(s, i, [c])
    ensures At(s, i) == c
  {
    assert s[i] == s[i..i + 1][0];
  }

  lemma SecsRoundTrip(s: string, i: nat, secs: nat)
    requires secs < MAX_SECS
    requires Here(s, i, WriteSecs(secs))
    requires var c := At(s, i + |WriteSecs(secs)|); !IsDigit(c) && c != ':'
    ensures Secs(s, i) == Some((secs as int, i + |WriteSecs(secs)|))
  {
    hide Secs, Here, At, IsDigit, Digits;
    var hours, mins, rest := secs / 3600, secs / 60 % 60, secs % 60;
    SplitTime(secs);
    if mins == 0 && rest == 0 {
      ReadHours(s, i, hours);
    } else if rest == 0 {
      ReadMinutes(s, i, hours, mins);
    } else {
      ReadSeconds(s, i, hours, mins, rest);
    }
  }

  lemma SplitTime(secs: nat)
    requires secs < MAX_SECS
    ensures secs == secs / 3600 * 3600 + secs / 60 % 60 * 60 + secs % 60
    ensures secs / 3600 <= 167
  {
    assert secs / 60 / 60 == secs / 3600;
  }

  lemma ReadHours(s: string, i: nat, hours: nat)
    requires hours <= 167 && Here(s, i, Digits(hours))
    requires var c := At(s, i + |Digits(hours)|); !IsDigit(c) && c != ':'
    ensures Secs(s, i) == Some((hours * 3600 as int, i + |Digits(hours)|))
  {
    hide Digits, Number, At, IsDigit, Here;
    NumberRoundTrip(s, i, hours, 0, 167);
  }

  lemma ReadMinutes(s: string, i: nat, hours: nat, mins: nat)
    requires hours <= 167 && mins <= 59
    requires Here(s, i, Digits(hours) + ":" + Digits(mins))
    requires var c := At(s, i + |Digits(hours) + ":" + Digits(mins)|); !IsDigit(c) && c != ':'
    ensures Secs(s, i) == Some((hours * 3600 + mins * 60 as int, i + |Digits(hours) + ":" + Digits(mins)|))
  {
    hide Digits, Number, At, IsDigit, Here;
    var h, m := Digits(hours), Digits(mins);
    SplitThree(s, i, h, ":", m);
    Colon(s, i + |h|);
    NumberRoundTrip(s, i, hours, 0, 167);
    NumberRoundTrip(s, i + |h| + 1, mins, 0, 59);
  }

  lemma ReadSeconds(s: string, i: nat, hours: nat, mins: nat, rest: nat)
    requires hours <= 167 && mins <= 59 && rest <= 60
    requires Here(s, i, Digits(hours) + ":" + Digits(mins) + ":" + Digits(rest))
    requires !IsDigit(At(s, i + |Digits(hours) + ":" + Digits(mins) + ":" + Digits(rest)|))
    ensures Secs(s, i) == Some((hours * 3600 + mins * 60 + rest as int,
                                i + |Digits(hours) + ":" + Digits(mins) + ":" + Digits(rest)|))
  {
    hide Digits, Number, At, IsDigit, Here;
    var h, m, r := Digits(hours), Digits(mins), Digits(rest);
    SplitThree(s, i, h + ":" + m, ":", r);
    SplitThree(s, i, h, ":", m);
    Colon(s, i + |h|);
    Colon(s, i + |h| + 1 + |m|);
    NumberRoundTrip(s, i, hours, 0, 167);
    NumberRoundTrip(s, i + |h| + 1, mins, 0, 59);
    NumberRoundTrip(s, i + |h| + 1 + |m| + 1, rest, 0, 60);
  }

  lemma Colon(s: string, i: nat)
    requires Here(s, i, ":")
    ensures At(s, i) == ':' && !IsDigit(At(s, i))
  {
    HereChar(s, i, ':');
  }

  lemma SplitThree(s: string, i: nat, a: string, b: string, c: string)
    requires Here(s, i, a + b + c)
    ensures Here(s, i, a) && Here(s, i + |a|, b) && Here(s, i + |a| + |b|, c)
  {
    HereAppend(s, i, a + b, c);
    HereAppend(s, i, a, b);
  }

  lemma OffsetRoundTrip(s: string, i: nat, secs: int)
    requires -MAX_SECS < secs < MAX_SECS
    requires Here(s, i, WriteOffset(secs))
    requires var c := At(s, i + |WriteOffset(secs)|); !IsDigit(c) && c != ':'
    ensures Offset(s, i) == Some((secs, i + |WriteOffset(secs)|))
  {
    hide *;
    WriteOffsetIs(secs);
    if secs < 0 {
      HereAppend(s, i, "-", WriteSecs(-secs));
      HereChar(s, i, '-');
      SecsRoundTrip(s, i + 1, -secs);
    } else {
      SecsRoundTrip(s, i, secs);
      WrittenDigit(s, i, secs);
    }
    OffsetIs(s, i);
  }

  lemma WriteOffsetIs(secs: int)
    ensures WriteOffset(secs) == if secs < 0 then "-" + WriteSecs(-secs) else WriteSecs(secs)
  {
    hide WriteSecs;
  }

  lemma OffsetIs(s: string, i: nat)
    ensures At(s, i) == '-' && Secs(s, i + 1).Some? ==>
              Offset(s, i) == Some((-Secs(s, i + 1).value.0, Secs(s, i + 1).value.1))
    ensures At(s, i) != '-' && At(s, i) != '+' ==> Offset(s, i) == Secs(s, i)
  {
    hide Secs, At;
  }

  // Written seconds begin with a digit.
  lemma WrittenDigit(s: string, i: nat, secs: nat)
    requires Here(s, i, WriteSecs(secs))
    ensures IsDigit(At(s, i))
  {
    var t := WriteSecs(secs);
    assert t[0] == Digits(secs / 3600)[0];
    assert s[i] == s[i..i + |t|][0];
  }

  lemma DateRoundTrip(s: string, i: nat, rule: Rule)
    requires Canonical(rule)
    requires Here(s, i, WriteDate(rule)) && !IsDigit(At(s, i + |WriteDate(rule)|))
    ensures Date(s, i) == Some((rule.(time := 0), i + |WriteDate(rule)|))
  {
    hide Digits, Number, IsDigit;
    match rule.kind {
      case JulianDay =>
        HereAppend(s, i, "J", Digits(rule.day));
        HereChar(s, i, 'J');
        NumberRoundTrip(s, i + 1, rule.day, 1, 365);
      case DayOfYear =>
        DigitFirst(s, i, rule.day);
        NumberRoundTrip(s, i, rule.day, 0, 365);
      case MonthNthDayOfWeek =>
        MonthDateRoundTrip(s, i, rule);
    }
  }

  lemma DigitFirst(s: string, i: nat, n: nat)
    requires Here(s, i, Digits(n))
    ensures IsDigit(At(s, i)) && At(s, i) != 'J' && At(s, i) != 'M'
  {
    assert s[i] == s[i..i + |Digits(n)|][0];
  }

  lemma MonthDateRoundTrip(s: string, i: nat, rule: Rule)
    requires Canonical(rule) && rule.kind.MonthNthDayOfWeek?
    requires Here(s, i, WriteDate(rule)) && !IsDigit(At(s, i + |WriteDate(rule)|))
    ensures Date(s, i) == Some((rule.(time := 0), i + |WriteDate(rule)|))
  {
    hide *;
    MonthDateIs(rule);
    var m, w, d := Digits(rule.mon), Digits(rule.week), Digits(rule.day);
    SplitThree(s, i, "M" + m + "." + w, ".", d);
    SplitThree(s, i, "M" + m, ".", w);
    HereAppend(s, i, "M", m);
    HereChar(s, i, 'M');
    var j := i + 1 + |m|;
    var k := j + 1 + |w|;
    Dot(s, j);
    Dot(s, k);
    NumberRoundTrip(s, i + 1, rule.mon, 1, 12);
    NumberRoundTrip(s, j + 1, rule.week, 1, 5);
    NumberRoundTrip(s, k + 1, rule.day, 0, 6);
    MonthDate(s, i, rule, j, k, k + 1 + |d|);
  }

  lemma MonthDateIs(rule: Rule)
    requires Canonical(rule) && rule.kind.MonthNthDayOfWeek?
    ensures InRange(rule) && 1 <= rule.mon <= 12 && 1 <= rule.week <= 5 && 0 <= rule.day <= 6
    ensures WriteDate(rule) == "M" + Digits(rule.mon) + "." + Digits(rule.week) + "." + Digits(rule.day)
  {
    hide Digits;
  }

  lemma MonthDate(s: string, i: nat, rule: Rule, j: nat, k: nat, l: nat)
    requires At(s, i) == 'M' && At(s, j) == '.' && At(s, k) == '.' && rule.kind.MonthNthDayOfWeek?
    requires Number(s, i + 1, 1, 12) == Some((rule.mon, j)) && Number(s, j + 1, 1, 5) == Some((rule.week, k))
    requires Number(s, k + 1, 0, 6) == Some((rule.day, l))
    ensures Date(s, i) == Some((rule.(time := 0), l))
  {
    hide Number, At;
  }

  lemma Dot(s: string, i: nat)
    requires Here(s, i, ".")
    ensures At(s, i) == '.' && !IsDigit(At(s, i))
  {
    HereChar(s, i, '.');
  }

  /** getrule reads back every rule that is written, with times up to 167:59:59
      either way, and stops at the comma or the end that follows. */
  lemma RuleRoundTrip(s: string, i: nat, rule: Rule)
    requires Canonical(rule) && -MAX_SECS < rule.time < MAX_SECS
    requires Here(s, i, WriteRule(rule)) && Ends(At(s, i + |WriteRule(rule)|))
    ensures GetRule(s, i) == Some((rule, i + |WriteRule(rule)|))
  {
    hide WriteDate, Date, WriteOffset, Offset;
    var d := WriteDate(rule);
    if rule.time == 7200 {
      assert WriteRule(rule) == d;
      DateRoundTrip(s, i, rule);
    } else {
      var t := WriteOffset(rule.time);
      assert WriteRule(rule) == d + "/" + t;
      SplitThree(s, i, d, "/", t);
      HereChar(s, i + |d|, '/');
      DateRoundTrip(s, i, rule);
      OffsetRoundTrip(s, i + |d| + 1, rule.time);
    }
  }
}
