/** The footer of a TZif file: the TZ string it holds, and the local time types and names
    that tzparse makes of it. */
module TzFooter {
  import opened Bytes
  import opened ZoneState
  import opened RuleTable
  import opened YearRules
  import opened Rules
  import opened RuleText
  import opened TzString
  import opened TzParse
  import opened TzAbbrs

  // The text between the newlines of a footer, up to a nul if it has one.
  function FooterText(b: seq<Byte>): string {
    if b == [] || b[0] == 0 then "" else [b[0] as char] + FooterText(b[1..])
  }

  lemma {:induction false} FooterTextNoNul(b: seq<Byte>)
    ensures NoNul(FooterText(b))
    decreases |b|
  {
    if !(b == [] || b[0] == 0) {
      FooterTextNoNul(b[1..]);
    }
  }

  /** The local time types of a TZ string. */
  ghost function TypesOf(text: TzText): (r: seq<TtInfo>)
    requires text.Alternating? ==> ValidZone(text.zone) && text.std.begin <= text.std.end
    ensures 0 < |r| <= 2
  {
    match text
    case Standard(_, stdoffset) => [TtInfo(-stdoffset, false, 0, false, false)]
    case Alternating(std, _, z) => RuleTypes(z, std.end - std.begin)
  }

  /** And their names: both, or that of daylight time only if there is nothing else. */
  ghost function NamesOf(s: string, text: TzText): (r: seq<string>)
    requires text.Alternating? ==> ValidZone(text.zone)
    requires NamesInside(s, text)
  {
    var std := s[text.std.begin..text.std.end];
    match text
    case Standard(_, _) => [std]
    case Alternating(_, _, z) =>
      var dst := s[text.dst.begin..text.dst.end];
      if exists y :: Kept(z, y) then [std, dst] else [dst]
  }

  // The transitions of a TZ string, as tzparse unrolls them.
  ghost predicate FooterTable(foot: seq<Transition>, text: TzText, stop: int) {
    match text
    case Standard(_, _) => foot == []
    case Alternating(_, _, z) =>
      && ValidZone(z) && foot == Unrolled(z, FIRST_YEAR, stop) && stop <= 500000
      && if exists y :: Kept(z, y) then Fills(z, FIRST_YEAR, stop) else foot == []
  }

  predicate GoodText(s: string, text: TzText) {
    && (text.Alternating? ==> ValidZone(text.zone))
    && text.std.begin < text.std.end <= |s|
    && (text.Alternating? ==> text.dst.begin < text.dst.end <= |s|)
  }

  lemma ParsedIsGood(s: string)
    requires ParseTz(s).Some? && NoNul(s)
    ensures GoodText(s, ParseTz(s).value)
  {
    ParseTzValid(s);
    hide Offset, DstOffset, DstRules, InRange, NameEnd, QuotedEnd, ParseName;
    var std := ParseName(s, 0);
    NameIsInside(s, 0);
    var off := Offset(s, std.value.next);
    NameIsInside(s, off.value.1);
  }

  lemma NameIsInside(s: string, i: nat)
    ensures ParseName(s, i).Some? ==> var n := ParseName(s, i).value; n.begin < n.end <= |s|
  {
    if ParseName(s, i).Some? {
      var n := ParseName(s, i).value;
      if At(s, i) != '<' {
        assert !EndsName(At(s, n.end - 1));
      }
    }
  }

  // A state that tzparse filled has these types and transitions.
  lemma FilledParts(ts: State, text: TzText, stop: int)
    requires Filled(ts, text, stop) && (text.Alternating? ==> text.std.begin <= text.std.end)
    ensures ts.Shaped() && FooterTable(ts.Transitions(), text, stop)
    ensures text.Alternating? ==> ValidZone(text.zone)
    ensures ts.Infos() == TypesOf(text) && ts.typecnt <= 2
  {
    hide Kept, Unrolled, InRange, Fills;
  }

  // And its types have these names.
  lemma FilledNames(ts: State, s: string, text: TzText)
    requires NoNul(s) && GoodText(s, text) && ts.Shaped() && Named(ts, s, text) && ts.Infos() == TypesOf(text)
    ensures Names(ts.Infos(), ts.chars[..]) == NamesOf(s, text)
    ensures forall i :: 0 <= i < |NamesOf(s, text)| ==> Plain(NamesOf(s, text)[i])
  {
    hide Kept, InRange, CString, Unrolled;
    NameFound(ts, s, text.std, 0);
    if text.Alternating? {
      NameFound(ts, s, text.dst, text.std.end - text.std.begin + 1);
    }
  }

  lemma NameFound(ts: State, s: string, name: Name, at: int)
    requires ts.Shaped() && NoNul(s) && name.begin < name.end <= |s|
    requires 0 <= at && at + (name.end - name.begin) < ts.charcnt
    requires ts.chars[..ts.charcnt][at..at + (name.end - name.begin) + 1] == s[name.begin..name.end] + ['\0']
    ensures CString(ts.chars[..], at) == s[name.begin..name.end] && Plain(s[name.begin..name.end])
  {
    var n, c := name.end - name.begin, ts.chars[..];
    var t, u := s[name.begin..name.end], ts.chars[..ts.charcnt][at..at + n + 1];
    assert forall k :: 0 <= k <= n ==> c[at + k] == u[k];
    assert u == t + ['\0'] && |t| == n;
    assert (t + ['\0'])[..n] == t && u[n] == '\0';
    assert c[at..at + n] == u[..n];
    CStringPut(c, at, t);
  }
}
