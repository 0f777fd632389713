/** Whole POSIX TZ strings: names, offsets and the two yearly rules. */
module TzString {
  import opened Rules
  import opened RuleText
  import opened RuleTable
  import opened ZoneState
  import opened Wrappers

  const TZDEFRULESTRING := ",M3.2.0,M11.1.0"

  // A name: where it begins and ends, and where the text goes on.
  datatype Name = Name(begin: nat, end: nat, next: nat)

  datatype TzText =
    | Standard(std: Name, stdoffset: int)
    | Alternating(std: Name, dst: Name, zone: Zone)

  predicate EndsName(c: char) {
    c == '\0' || IsDigit(c) || c == ',' || c == '-' || c == '+'
  }

  predicate EndsQuotedName(c: char) {
    c == '\0' || c == '>'
  }

  function NameEnd(s: string, i: nat): (e: nat)
    ensures i <= e && EndsName(At(s, e)) && forall k :: i <= k < e ==> !EndsName(At(s, k))
    decreases if i < |s| then |s| - i else 0
  {
    if EndsName(At(s, i)) then i else NameEnd(s, i + 1)
  }

  function QuotedEnd(s: string, i: nat): (e: nat)
    ensures i <= e && EndsQuotedName(At(s, e)) && forall k :: i <= k < e ==> !EndsQuotedName(At(s, k))
    decreases if i < |s| then |s| - i else 0
  {
    if EndsQuotedName(At(s, i)) then i else QuotedEnd(s, i + 1)
  }

  /** Source/tzdb.h:1224-1232. */
  method Getzname(s: string, strp: nat) returns (e: nat)
    ensures e == NameEnd(s, strp)
  {
    e := strp;
    while !EndsName(At(s, e))
      invariant strp <= e && NameEnd(s, e) == NameEnd(s, strp)
      decreases if e < |s| then |s| - e else 0
    {
      e := e + 1;
    }
  }

  /** Source/tzdb.h:1243-1251, for the delimiter tzparse gives it. */
  method Getqzname(s: string, strp: nat) returns (e: nat)
    ensures e == QuotedEnd(s, strp)
  {
    e := strp;
    while !EndsQuotedName(At(s, e))
      invariant strp <= e && QuotedEnd(s, e) == QuotedEnd(s, strp)
      decreases if e < |s| then |s| - e else 0
    {
      e := e + 1;
    }
  }

  function ParseName(s: string, i: nat): Option<Name> {
    if At(s, i) == '<' then
      var e := QuotedEnd(s, i + 1);
      if At(s, e) != '>' || e == i + 1 then None else Some(Name(i + 1, e, e + 1))
    else
      var e := NameEnd(s, i);
      if e == i then None else Some(Name(i, e, e))
  }

  // The two rules after a comma or semicolon at i, up to the end of the text.
  function ParseRules(s: string, i: nat): Option<(Rule, Rule)> {
    var (start, j) :- GetRule(s, i + 1);
    if At(s, j) != ',' then None
    else
      var (end, k) :- GetRule(s, j + 1);
      if At(s, k) != '\0' then None else Some((start, end))
  }

  // The daylight offset at i; an hour ahead of standard time by default.
  function DstOffset(s: string, i: nat, stdoffset: int): Option<(int, nat)> {
    if At(s, i) == '\0' || At(s, i) == ',' || At(s, i) == ';' then Some((stdoffset - 3600, i))
    else Offset(s, i)
  }

  // The rules at i, or the default rules at the end of the text.
  function DstRules(s: string, i: nat): Option<(Rule, Rule)> {
    if At(s, i) == '\0' then ParseRules(TZDEFRULESTRING, 0)
    else if At(s, i) == ',' || At(s, i) == ';' then ParseRules(s, i)
    else None
  }

  // What tzparse makes of a TZ string when the file posixrules cannot be loaded.
  function ParseTz(s: string): Option<TzText> {
    var std :- ParseName(s, 0);
    var (stdoffset, j) :- Offset(s, std.next);
    if TZ_MAX_CHARS_OR_NAMES < std.end - std.begin + 1 then None
    else if At(s, j) == '\0' then Some(Standard(std, stdoffset))
    else
      var dst :- ParseName(s, j);
      if TZ_MAX_CHARS_OR_NAMES < std.end - std.begin + 1 + (dst.end - dst.begin + 1) then None
      else
        var (dstoffset, k) :- DstOffset(s, dst.next, stdoffset);
        var (start, end) :- DstRules(s, k);
        Some(Alternating(std, dst, Zone(stdoffset, dstoffset, start, end)))
  }

  /** The rules of any string that is accepted can be evaluated. */
  lemma ParseTzValid(s: string)
    ensures ParseTz(s).Some? && ParseTz(s).value.Alternating? ==> ValidZone(ParseTz(s).value.zone)
  {
    hide NameEnd, QuotedEnd, ParseName, ParseRules, Offset;
    if ParseTz(s).Some? && ParseTz(s).value.Alternating? {
      var std := ParseName(s, 0).value;
      var j := Offset(s, std.next).value.1;
      var dst := ParseName(s, j).value;
      OffsetRange(s, std.next);
      OffsetRange(s, dst.next);
      var k := DstOffset(s, dst.next, Offset(s, std.next).value.0).value.1;
      ParseRulesValid(s, k);
      ParseRulesValid(TZDEFRULESTRING, 0);
    }
  }

  lemma ParseRulesValid(s: string, i: nat)
    ensures ParseRules(s, i).Some? ==>
              var (start, end) := ParseRules(s, i).value;
              && InRange(start) && -MAX_SECS <= start.time <= MAX_SECS
              && InRange(end) && -MAX_SECS <= end.time <= MAX_SECS
  {
    hide GetRule;
    if ParseRules(s, i).Some? {
      GetRuleInRange(s, i + 1);
      GetRuleInRange(s, GetRule(s, i + 1).value.1 + 1);
    }
  }

  // A name that can stand without brackets, and one that can stand in them.
  predicate PlainName(name: string) {
    name != [] && name[0] != '<' && name[0] != ':' && forall k :: 0 <= k < |name| ==> !EndsName(name[k])
  }

  predicate BracketName(name: string) {
    name != [] && forall k :: 0 <= k < |name| ==> !EndsQuotedName(name[k])
  }

  function WriteName(name: string): string {
    if PlainName(name) then name else "<" + name + ">"
  }

  function WriteDst(z: Zone): string {
    if z.dstoffset == z.stdoffset - 3600 then "" else WriteOffset(z.dstoffset)
  }

  function WriteRules(z: Zone): string
    requires ValidZone(z)
  {
    "," + WriteRule(z.start) + "," + WriteRule(z.end)
  }

  // A zone in POSIX form.
  function WriteTz(std: string, dst: string, z: Zone): string
    requires ValidZone(z)
  {
    WriteName(std) + WriteOffset(z.stdoffset) + WriteName(dst) + WriteDst(z) + WriteRules(z)
  }

  lemma HereAt(s: string, i: nat, t: string, k: nat)
    requires Here(s, i, t) && k < |t|
    ensures At(s, i + k) == t[k]
  {
    assert s[i + k] == s[i..i + |t|][k];
  }

  lemma NameEndIs(s: string, i: nat, e: nat)
    requires i <= e && EndsName(At(s, e)) && forall k :: i <= k < e ==> !EndsName(At(s, k))
    ensures NameEnd(s, i) == e
  {
  }

  lemma QuotedEndIs(s: string, i: nat, e: nat)
    requires i <= e && EndsQuotedName(At(s, e)) && forall k :: i <= k < e ==> !EndsQuotedName(At(s, k))
    ensures QuotedEnd(s, i) == e
  {
  }

  /** A written name, followed by what may follow one, is read back. */
  lemma NameRoundTrip(s: string, i: nat, name: string)
    requires PlainName(name) || BracketName(name)
    requires Here(s, i, WriteName(name))
    requires EndsName(At(s, i + |WriteName(name)|))
    ensures ParseName(s, i).Some?
    ensures var n := ParseName(s, i).value;
            n.next == i + |WriteName(name)| && n.begin <= n.end <= |s| && s[n.begin..n.end] == name
  {
    if PlainName(name) {
      forall k | i <= k < i + |name|
        ensures At(s, k) == name[k - i]
      {
        HereAt(s, i, name, k - i);
      }
      NameEndIs(s, i, i + |name|);
      assert At(s, i) == name[0];
    } else {
      SplitThree(s, i, "<", name, ">");
      HereChar(s, i, '<');
      HereChar(s, i + 1 + |name|, '>');
      forall k | i + 1 <= k < i + 1 + |name|
        ensures At(s, k) == name[k - (i + 1)]
      {
        HereAt(s, i + 1, name, k - (i + 1));
      }
      QuotedEndIs(s, i + 1, i + 1 + |name|);
    }
  }

  // The first character of a written name or offset.
  lemma NameStarts(s: string, i: nat, name: string)
    requires PlainName(name) || BracketName(name)
    requires Here(s, i, WriteName(name))
    ensures var c := At(s, i); !IsDigit(c) && c != ':' && c != '\0'
  {
    HereAt(s, i, WriteName(name), 0);
  }

  lemma OffsetStarts(s: string, i: nat, secs: int)
    requires Here(s, i, WriteOffset(secs))
    ensures var c := At(s, i); EndsName(c) && c != '\0' && c != ',' && c != ';'
  {
    if secs < 0 {
      HereAt(s, i, WriteOffset(secs), 0);
    } else {
      WrittenDigit(s, i, secs);
    }
  }

  lemma RulesRoundTrip(s: string, i: nat, start: Rule, end: Rule)
    requires Canonical(start) && -MAX_SECS < start.time < MAX_SECS
    requires Canonical(end) && -MAX_SECS < end.time < MAX_SECS
    requires Here(s, i, "," + WriteRule(start) + "," + WriteRule(end))
    requires |s| == i + |"," + WriteRule(start) + "," + WriteRule(end)|
    ensures ParseRules(s, i) == Some((start, end))
  {
    hide WriteRule, GetRule;
    var f, h := WriteRule(start), WriteRule(end);
    SplitThree(s, i, "," + f, ",", h);
    HereAppend(s, i, ",", f);
    HereChar(s, i + 1 + |f|, ',');
    RuleRoundTrip(s, i + 1, start);
    RuleRoundTrip(s, i + 1 + |f| + 1, end);
  }

  // What a TZ string is to give back.
  ghost predicate Gives(s: string, r: Option<TzText>, std: string, dst: string, z: Zone) {
    && r.Some? && r.value.Alternating? && r.value.zone == z
    && r.value.std.begin <= r.value.std.end <= |s| && s[r.value.std.begin..r.value.std.end] == std
    && r.value.dst.begin <= r.value.dst.end <= |s| && s[r.value.dst.begin..r.value.dst.end] == dst
  }

  predicate WritableZone(z: Zone) {
    && ValidZone(z)
    && -MAX_SECS < z.stdoffset < MAX_SECS && -MAX_SECS < z.dstoffset < MAX_SECS
    && Canonical(z.start) && -MAX_SECS < z.start.time < MAX_SECS
    && Canonical(z.end) && -MAX_SECS < z.end.time < MAX_SECS
  }

  // The parts of a written zone, each where it stands.
  ghost predicate Laid(s: string, std: string, dst: string, z: Zone)
    requires ValidZone(z)
  {
    var p := |WriteName(std)|;
    var q := p + |WriteOffset(z.stdoffset)|;
    var u := q + |WriteName(dst)|;
    var v := u + |WriteDst(z)|;
    && Here(s, 0, WriteName(std)) && Here(s, p, WriteOffset(z.stdoffset))
    && Here(s, q, WriteName(dst)) && Here(s, u, WriteDst(z))
    && Here(s, v, WriteRules(z)) && |s| == v + |WriteRules(z)|
  }

  lemma TzLaid(std: string, dst: string, z: Zone)
    requires ValidZone(z)
    ensures Laid(WriteTz(std, dst, z), std, dst, z)
  {
    hide WriteName, WriteOffset, WriteRules, WriteDst, Here;
    var s := WriteTz(std, dst, z);
    var a, b, c, d, e := WriteName(std), WriteOffset(z.stdoffset), WriteName(dst), WriteDst(z), WriteRules(z);
    HereWhole(s);
    HereAppend(s, 0, a + b + c + d, e);
    HereAppend(s, 0, a + b + c, d);
    SplitThree(s, 0, a, b, c);
  }

  lemma HereWhole(s: string)
    ensures Here(s, 0, s)
  {
    assert s[0..|s|] == s;
  }

  lemma TzRead(s: string, std: string, dst: string, z: Zone)
    requires (PlainName(std) || BracketName(std)) && (PlainName(dst) || BracketName(dst))
    requires |std| + |dst| + 2 <= TZ_MAX_CHARS_OR_NAMES
    requires WritableZone(z) && Laid(s, std, dst, z)
    ensures Gives(s, ParseTz(s), std, dst, z)
  {
    hide PlainName, BracketName, WriteName, WriteOffset, WriteRule, ParseName, Offset, ParseRules, IsDigit, EndsName, Here, At;
    var p := |WriteName(std)|;
    var q := p + |WriteOffset(z.stdoffset)|;
    var u := q + |WriteName(dst)|;
    var v := u + |WriteDst(z)|;
    HereAt(s, v, WriteRules(z), 0);
    CommaEnds();
    OffsetStarts(s, p, z.stdoffset);
    NameRoundTrip(s, 0, std);
    NameStarts(s, q, dst);
    OffsetRoundTrip(s, p, z.stdoffset);
    if WriteDst(z) != "" {
      OffsetStarts(s, u, z.dstoffset);
      OffsetRoundTrip(s, u, z.dstoffset);
    }
    NameRoundTrip(s, q, dst);
    RulesRoundTrip(s, v, z.start, z.end);
    OffsetNotEmpty(z.dstoffset);
  }

  lemma OffsetNotEmpty(secs: int)
    ensures WriteOffset(secs) != ""
  {
  }

  /** A written zone is read back whole: both names, both offsets, both rules. */
  lemma TzRoundTrip(std: string, dst: string, z: Zone)
    requires (PlainName(std) || BracketName(std)) && (PlainName(dst) || BracketName(dst))
    requires |std| + |dst| + 2 <= TZ_MAX_CHARS_OR_NAMES
    requires WritableZone(z)
    ensures Gives(WriteTz(std, dst, z), ParseTz(WriteTz(std, dst, z)), std, dst, z)
  {
    TzLaid(std, dst, z);
    TzRead(WriteTz(std, dst, z), std, dst, z);
  }

  lemma CommaEnds()
    ensures EndsName(',') && !IsDigit(',')
  {
  }
}
