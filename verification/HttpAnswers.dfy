/** When the parser answers what. It finds a head if the bytes start with one, asks for more if more bytes can make
    them one, and rejects all others, but for two cases in which the code sees the mistake late. */
module HttpAnswers {
  import opened Bytes
  import opened HttpPrefix
  import opened HttpRoundTrip
  import opened HttpStream
  import opened HttpSyntax
  import opened Options

  // ---------- the classes of bytes ----------

  const DELIMITERS := "\"(),/:;<=>?@[\\]{}"

  /** The token bytes are the visible ASCII characters but for the delimiters of section 3.2.6 of RFC 7230. */
  lemma TokenByteIff(b: Byte)
    ensures IsTokenByte(b) <==> 33 <= b <= 126 && b as char !in DELIMITERS
  {
    if 33 <= b <= 126 {
      assert b as char in DELIMITERS <==>
        b in {34, 40, 41, 44, 47, 58, 59, 60, 61, 62, 63, 64, 91, 92, 93, 123, 125};
    }
  }

  /** A target byte is visible or above ASCII; a value may hold tabs and spaces besides; blanks are those two. */
  lemma OtherBytesIff(b: Byte)
    ensures !IsCtl(b) && b != SP <==> b > 32 && b != 127
    ensures EndsValue(b) <==> b !in {9, 32} && (IsCtl(b) || b == SP)
    ensures IsBlank(b) <==> b as char in " \t"
  {
  }

  // The text of a word of ASCII characters.
  function Spelled(w: string): seq<Byte>
    requires forall k | 0 <= k < |w| :: w[k] < 128 as char
  {
    seq(|w|, k requires 0 <= k < |w| => w[k] as int)
  }

  lemma WordsSpelled()
    ensures HTTP_1 == Spelled("HTTP/1.") && [COLON] == Spelled(":") && [SP] == Spelled(" ")
    ensures Eol(true) == Spelled("\r\n") && Eol(false) == Spelled("\n")
  {
  }

  // ---------- the two late cases ----------

  // What stands in front of the version.
  predicate IsFront(front: seq<Byte>, lead: Option<bool>, verb: seq<Byte>, gap1: seq<Byte>, target: seq<Byte>,
                    gap2: seq<Byte>) {
    && AllToken(verb) && AllSpaces(gap1) && gap1 != [] && AllTarget(target) && AllSpaces(gap2)
    && front == Lead(lead) + (verb + gap1 + (target + gap2))
  }

  // The version or a first part of it.
  predicate StartsVersion(v: seq<Byte>) {
    v <= HTTP_1 || (|v| == 8 && HTTP_1 <= v && 48 <= v[7] <= 57)
  }

  // Fewer than nine bytes are there behind the target, and no version starts with them.
  ghost predicate VersionTooShort(s: seq<Byte>) {
    exists front, v, lead, verb, gap1, target, gap2 ::
      && s == front + v && IsFront(front, lead, verb, gap1, target, gap2)
      && verb != [] && target != [] && gap2 != [] && 0 < |v| < 9 && v[0] != SP && !StartsVersion(v)
  }

  // The line starts with a space, and nothing but a target is behind it yet.
  ghost predicate NoMethod(s: seq<Byte>) {
    exists lead, gap1, target, gap2 :: IsFront(s, lead, [], gap1, target, gap2)
  }

  // ---------- a scan that runs out of bytes goes on with those that come ----------

  lemma {:induction false} TokenGoesOn(s: seq<Byte>, t: seq<Byte>, i: nat, stop: Byte)
    requires i <= |s| && ScanToken(s, i, stop).Incomplete?
    ensures ScanToken(s + t, i, stop) == ScanToken(s + t, |s|, stop)
    decreases |s| - i
  {
    if i < |s| {
      TokenGoesOn(s, t, i + 1, stop);
    }
  }

  lemma {:induction false} TargetGoesOn(s: seq<Byte>, t: seq<Byte>, i: nat)
    requires i <= |s| && ScanTarget(s, i).Incomplete?
    ensures ScanTarget(s + t, i) == ScanTarget(s + t, |s|)
    decreases |s| - i
  {
    if i < |s| {
      TargetGoesOn(s, t, i + 1);
    }
  }

  lemma {:induction false} SpacesGoOn(s: seq<Byte>, t: seq<Byte>, i: nat)
    requires i <= |s| && SkipSpaces(s, i).Incomplete?
    ensures SkipSpaces(s + t, i) == SkipSpaces(s + t, |s|)
    decreases |s| - i
  {
    if i < |s| {
      SpacesGoOn(s, t, i + 1);
    }
  }

  lemma {:induction false} BlanksGoOn(s: seq<Byte>, t: seq<Byte>, i: nat)
    requires i <= |s| && SkipBlanks(s, i).Incomplete?
    ensures SkipBlanks(s + t, i) == SkipBlanks(s + t, |s|)
    decreases |s| - i
  {
    if i < |s| {
      BlanksGoOn(s, t, i + 1);
    }
  }

  lemma {:induction false} ValueGoesOn(s: seq<Byte>, t: seq<Byte>, i: nat)
    requires i <= |s| && ScanValue(s, i).Incomplete?
    ensures ScanValue(s + t, i) == ScanValue(s + t, |s|)
    decreases |s| - i
  {
    if i < |s| {
      ValueGoesOn(s, t, i + 1);
    }
  }

  // ---------- what completes each part ----------

  lemma ValueLineGrows(s: seq<Byte>, i: nat)
    requires i <= |s| && ValueLine(s, i).Incomplete?
    ensures var r := ValueLine(s + [LF], i); r.Got? && r.value.1 == |s| + 1
  {
    if ScanValue(s, i).Incomplete? {
      ValueGoesOn(s, [LF], i);
    } else {
      ValueStable(s, s + [LF], i);
    }
  }

  // A name without its colon needs that as well.
  function LineRest(s: seq<Byte>, i: nat, first: bool): seq<Byte>
    requires i < |s|
  {
    if (first || !IsBlank(s[i])) && ScanToken(s, i, COLON).Incomplete? then [COLON, LF] else [LF]
  }

  lemma HeaderLineGrows(s: seq<Byte>, i: nat, first: bool)
    requires i < |s| && HeaderLine(s, i, first).Incomplete?
    ensures var t := LineRest(s, i, first); var r := HeaderLine(s + t, i, first); r.Got? && r.value.1 == |s + t|
  {
    if !first && IsBlank(s[i]) {
      ValueLineGrows(s, i);
    } else if ScanToken(s, i, COLON).Incomplete? {
      TokenGoesOn(s, [COLON, LF], i, COLON);
    } else {
      TokenStable(s, s + [LF], i, COLON);
      var v := ScanToken(s, i, COLON).value + 1;
      if SkipBlanks(s, v).Incomplete? {
        BlanksGoOn(s, [LF], v);
      } else {
        BlanksStable(s, s + [LF], v);
        ValueLineGrows(s, SkipBlanks(s, v).value);
      }
    }
  }

  lemma {:induction false} HeadersGrow(s: seq<Byte>, i: nat, done: seq<HeaderField>, max: nat) returns (t: seq<Byte>)
    requires i <= |s| && |done| <= max && Headers(s, i, done, max).Incomplete?
    ensures Headers(s + t, i, done, max).Got?
    decreases |s| - i
  {
    hide HeaderLine, LineRest;
    if i == |s| || s[i] == CR {
      t := [LF];
    } else {
      var first := |done| == 0;
      var line := HeaderLine(s, i, first);
      if line.Incomplete? {
        var rest := LineRest(s, i, first);
        t := rest + [LF];
        HeaderLineGrows(s, i, first);
        assert s + t == s + rest + [LF];
        HeaderLineStable(s + rest, s + t, i, first);
      } else {
        t := HeadersGrow(s, line.value.1, done + [line.value.0], max);
        HeaderLineStable(s, s + t, i, first);
      }
    }
  }

  lemma VersionLineGrows(s: seq<Byte>, i: nat) returns (t: seq<Byte>)
    requires i <= |s| && VersionLine(s, i).Incomplete? && (|s| - i < 9 ==> StartsVersion(s[i..]))
    ensures var r := VersionLine(s + t, i); r.Got? && r.value.1 == |s + t|
  {
    if |s| - i < 9 {
      var v := s[i..];
      var whole := if |v| == 8 then v + [LF] else HTTP_1 + [48, LF];
      t := whole[|v|..];
      assert (s + t)[i..] == whole;
      assert (s + t)[i..i + 7] == whole[..7] == HTTP_1 && (s + t)[i + 7] == whole[7] && (s + t)[i + 8] == whole[8];
    } else {
      t := [LF];
      assert (s + t)[i..i + 7] == s[i..i + 7];
    }
  }

  const VERSION_AND_END: seq<Byte> := HTTP_1 + [48, LF, LF]

  lemma EndIsNoSpace(s: seq<Byte>)
    ensures SkipSpaces(s + VERSION_AND_END, |s|) == Got(|s|)
  {
    assert (s + VERSION_AND_END)[|s|] == HTTP_1[0];
  }

  lemma PrefixOf(s: seq<Byte>, t: seq<Byte>)
    ensures s <= s + t && |s + t| == |s| + |t|
  {
  }

  lemma FrontIs(s: seq<Byte>, i: nat, verbEnd: nat, path: nat, pathEnd: nat, version: nat)
    requires i < verbEnd < path < pathEnd < version <= |s|
    requires ScanToken(s, i, SP) == Got(verbEnd) && SkipSpaces(s, verbEnd + 1) == Got(path)
    requires ScanTarget(s, path) == Got(pathEnd) && SkipSpaces(s, pathEnd + 1) == Got(version)
    ensures VerbAndTarget(s, i) == Got((Slice(i, verbEnd - i), Slice(path, pathEnd - path), version))
  {
    hide ScanToken, ScanTarget, SkipSpaces, IsBlank, IsCtl, IsTokenByte;
    assert verbEnd != i && pathEnd != path;
  }

  lemma GapGrows(s: seq<Byte>, i: nat, verbEnd: nat, path: nat, pathEnd: nat)
    requires i < verbEnd < path < pathEnd < |s|
    requires ScanToken(s, i, SP) == Got(verbEnd) && SkipSpaces(s, verbEnd + 1) == Got(path)
    requires ScanTarget(s, path) == Got(pathEnd) && SkipSpaces(s, pathEnd + 1).Incomplete?
    ensures var r := VerbAndTarget(s + VERSION_AND_END, i); r.Got? && r.value.2 == |s|
  {
    hide *;
    var s' := s + VERSION_AND_END;
    PrefixOf(s, VERSION_AND_END);
    TokenStable(s, s', i, SP);
    SpacesStable(s, s', verbEnd + 1);
    TargetStable(s, s', path);
    SpacesGoOn(s, VERSION_AND_END, pathEnd + 1);
    EndIsNoSpace(s);
    FrontIs(s', i, verbEnd, path, pathEnd, |s|);
  }

  lemma TargetGrows(s: seq<Byte>, i: nat, verbEnd: nat, path: nat) returns (t: seq<Byte>)
    requires i < verbEnd < path < |s|
    requires ScanToken(s, i, SP) == Got(verbEnd) && SkipSpaces(s, verbEnd + 1) == Got(path)
    requires ScanTarget(s, path).Incomplete?
    ensures var r := VerbAndTarget(s + t + VERSION_AND_END, i); r.Got? && r.value.2 == |s + t|
  {
    t := [SP];
    TokenStable(s, s + t, i, SP);
    SpacesStable(s, s + t, verbEnd + 1);
    TargetGoesOn(s, t, path);
    GapGrows(s + t, i, verbEnd, path, |s|);
  }

  lemma FirstGapGrows(s: seq<Byte>, i: nat, verbEnd: nat) returns (t: seq<Byte>)
    requires i < verbEnd < |s| && ScanToken(s, i, SP) == Got(verbEnd) && SkipSpaces(s, verbEnd + 1).Incomplete?
    ensures var r := VerbAndTarget(s + t + VERSION_AND_END, i); r.Got? && r.value.2 == |s + t|
  {
    var slash: seq<Byte> := [47];
    TokenStable(s, s + slash, i, SP);
    SpacesGoOn(s, slash, verbEnd + 1);
    var t' := TargetGrows(s + slash, i, verbEnd, |s|);
    t := slash + t';
    assert s + t == s + slash + t';
  }

  lemma TokenGrows(s: seq<Byte>, i: nat) returns (t: seq<Byte>)
    requires i <= |s| && ScanToken(s, i, SP).Incomplete?
    ensures var r := VerbAndTarget(s + t + VERSION_AND_END, i); r.Got? && r.value.2 == |s + t|
  {
    var verb: seq<Byte> := [71, SP];
    TokenGoesOn(s, verb, i, SP);
    var t' := FirstGapGrows(s + verb, i, |s| + 1);
    t := verb + t';
    assert s + t == s + verb + t';
  }

  lemma VerbAndTargetGrows(s: seq<Byte>, i: nat) returns (t: seq<Byte>)
    requires i <= |s| && VerbAndTarget(s, i).Incomplete? && ScanToken(s, i, SP) != Got(i)
    ensures var r := VerbAndTarget(s + t + VERSION_AND_END, i); r.Got? && r.value.2 == |s + t|
  {
    var verbEnd := ScanToken(s, i, SP);
    if verbEnd.Incomplete? {
      t := TokenGrows(s, i);
    } else {
      var path := SkipSpaces(s, verbEnd.value + 1);
      if path.Incomplete? {
        t := FirstGapGrows(s, i, verbEnd.value);
      } else {
        var pathEnd := ScanTarget(s, path.value);
        if pathEnd.Incomplete? {
          t := TargetGrows(s, i, verbEnd.value, path.value);
        } else {
          t := [];
          assert s + t == s;
          GapGrows(s, i, verbEnd.value, path.value, pathEnd.value);
        }
      }
    }
  }

  lemma EndParses(s: seq<Byte>, max: nat)
    ensures var s' := s + VERSION_AND_END;
            VersionLine(s', |s|) == Got((0, |s| + 9)) && Headers(s', |s| + 9, [], max).Got?
  {
    var s' := s + VERSION_AND_END;
    assert s'[|s|..|s| + 7] == HTTP_1;
  }

  // ---------- more bytes make a head, but for the late cases ----------

  lemma LeadStays(s: seq<Byte>, t: seq<Byte>)
    requires LeadingLine(s).Got?
    ensures LeadingLine(s + t) == LeadingLine(s)
  {
  }

  lemma FrontCompletes(w: seq<Byte>, start: nat, max: nat)
    requires var s := w + VERSION_AND_END;
             && start <= |w| && LeadingLine(s) == Got(start)
             && VerbAndTarget(s, start).Got? && VerbAndTarget(s, start).value.2 == |w|
    ensures Parse(w + VERSION_AND_END, max).Got?
  {
    hide LeadingLine, VerbAndTarget, VersionLine, Headers;
    EndParses(w, max);
  }

  lemma VersionCompletes(s: seq<Byte>, t: seq<Byte>, start: nat, version: nat, max: nat)
    requires start <= |s| && version <= |s| && LeadingLine(s + t + [LF]) == Got(start)
    requires VerbAndTarget(s + t + [LF], start).Got? && VerbAndTarget(s + t + [LF], start).value.2 == version
    requires VersionLine(s + t, version).Got? && VersionLine(s + t, version).value.1 == |s + t|
    ensures Parse(s + t + [LF], max).Got?
  {
    hide LeadingLine, VerbAndTarget, VersionLine;
    VersionLineStable(s + t, s + t + [LF], version);
  }

  lemma HeadersComplete(s: seq<Byte>, t: seq<Byte>, max: nat)
    requires var start := LeadingLine(s);
             && start.Got? && VerbAndTarget(s, start.value).Got?
             && var version := VerbAndTarget(s, start.value).value.2;
             && VersionLine(s, version).Got? && Headers(s + t, VersionLine(s, version).value.1, [], max).Got?
    ensures Parse(s + t, max).Got?
  {
    hide LeadingLine, VerbAndTarget, VersionLine, Headers;
    var start := LeadingLine(s).value;
    var version := VerbAndTarget(s, start).value.2;
    LeadStays(s, t);
    VerbAndTargetStable(s, s + t, start);
    VersionLineStable(s, s + t, version);
  }

  // What is in front of position `i`, a leading line.
  lemma LeadOf(s: seq<Byte>) returns (lead: Option<bool>)
    requires LeadingLine(s).Got?
    ensures s[..LeadingLine(s).value] == Lead(lead)
  {
    lead := if s[0] == CR then Some(true) else if s[0] == LF then Some(false) else None;
  }

  lemma FrontOf(s: seq<Byte>, lead: Option<bool>, start: nat, path: nat, pathEnd: nat)
    requires start < path <= pathEnd <= |s| && s[..start] == Lead(lead)
    requires SpacesIn(s, start, path) && TargetIn(s, path, pathEnd) && SpacesIn(s, pathEnd, |s|)
    ensures NoMethod(s)
  {
    var verb: seq<Byte>, gap1, target, gap2 := [], s[start..path], s[path..pathEnd], s[pathEnd..];
    assert s == Lead(lead) + (verb + gap1 + (target + gap2));
    assert IsFront(s, lead, [], gap1, target, gap2);
  }

  lemma MethodMissing(s: seq<Byte>, start: nat)
    requires LeadingLine(s) == Got(start) && ScanToken(s, start, SP) == Got(start)
    requires VerbAndTarget(s, start).Incomplete?
    ensures NoMethod(s)
  {
    var lead := LeadOf(s);
    var path := SkipSpaces(s, start + 1);
    if path.Incomplete? {
      SpacesEnd(s, start + 1);
      FrontOf(s, lead, start, |s|, |s|);
    } else {
      SpacesIff(s, start + 1, path.value);
      var pathEnd := ScanTarget(s, path.value);
      if pathEnd.Incomplete? {
        TargetEnd(s, path.value);
        FrontOf(s, lead, start, path.value, |s|);
      } else {
        TargetIff(s, path.value, pathEnd.value);
        SpacesEnd(s, pathEnd.value + 1);
        FrontOf(s, lead, start, path.value, pathEnd.value);
      }
    }
  }

  lemma {:induction false} SpacesEnd(s: seq<Byte>, i: nat)
    requires i <= |s|
    ensures SkipSpaces(s, i).Incomplete? <==> SpacesIn(s, i, |s|)
    decreases |s| - i
  {
    if i < |s| && s[i] == SP {
      SpacesEnd(s, i + 1);
    }
  }

  lemma {:induction false} TargetEnd(s: seq<Byte>, i: nat)
    requires i <= |s|
    ensures ScanTarget(s, i).Incomplete? <==> TargetIn(s, i, |s|)
    decreases |s| - i
  {
    if i < |s| && s[i] != SP && !IsCtl(s[i]) {
      TargetEnd(s, i + 1);
    }
  }

  lemma VersionWrong(s: seq<Byte>, start: nat)
    requires LeadingLine(s) == Got(start) && VerbAndTarget(s, start).Got?
    requires var version := VerbAndTarget(s, start).value.2; |s| - version < 9 && !StartsVersion(s[version..])
    ensures VersionTooShort(s)
  {
    hide VerbAndTarget, AllToken, AllSpaces, AllTarget, StartsVersion;
    var version := VerbAndTarget(s, start).value.2;
    var lead := LeadOf(s);
    var verb, gap1, target, gap2 := RequestTextReads(s, start);
    VersionNoSpace(s, start);
    var front, v := s[..version], s[version..];
    assert front == Lead(lead) + (verb + gap1 + (target + gap2)) by {
      assert s[start..version] == verb + gap1 + (target + gap2);
    }
    assert s == front + v && IsFront(front, lead, verb, gap1, target, gap2);
  }

  lemma VersionNoSpace(s: seq<Byte>, start: nat)
    requires start <= |s| && VerbAndTarget(s, start).Got?
    ensures var version := VerbAndTarget(s, start).value.2; version < |s| && s[version] != SP
  {
    hide ScanToken, ScanTarget, SkipSpaces;
  }

  lemma ParseGrows(s: seq<Byte>, max: nat) returns (t: seq<Byte>)
    requires Parse(s, max).Incomplete? && !VersionTooShort(s) && !NoMethod(s)
    ensures Parse(s + t, max).Got?
  {
    hide VerbAndTarget, VersionLine, Headers, ScanToken, VersionTooShort, NoMethod, StartsVersion;
    var lead := LeadingLine(s);
    if lead.Incomplete? {
      var w := s + [LF];
      NoBytes(w);
      var t' := TokenGrows(w, |w|);
      t := [LF] + t' + VERSION_AND_END;
      assert s + t == w + t' + VERSION_AND_END;
      FrontCompletes(w + t', |w|, max);
      return;
    }
    var start := lead.value;
    var front := VerbAndTarget(s, start);
    if front.Incomplete? {
      if ScanToken(s, start, SP) == Got(start) {
        MethodMissing(s, start);
      }
      var t' := VerbAndTargetGrows(s, start);
      t := t' + VERSION_AND_END;
      assert s + t == s + t' + VERSION_AND_END;
      LeadStays(s, t);
      FrontCompletes(s + t', start, max);
      return;
    }
    var version := front.value.2;
    var line := VersionLine(s, version);
    if line.Incomplete? {
      if |s| - version < 9 && !StartsVersion(s[version..]) {
        VersionWrong(s, start);
      }
      var t' := VersionLineGrows(s, version);
      t := t' + [LF];
      assert s + t == s + t' + [LF];
      LeadStays(s, t);
      VerbAndTargetStable(s, s + t, start);
      VersionCompletes(s, t', start, version, max);
    } else {
      t := HeadersGrow(s, line.value.1, [], max);
      HeadersComplete(s, t, max);
    }
  }

  lemma NoBytes(s: seq<Byte>)
    ensures ScanToken(s, |s|, SP).Incomplete?
  {
  }

  // ---------- the late cases ask for more ----------

  lemma FrontBytes(s: seq<Byte>, front: seq<Byte>, v: seq<Byte>, lead: Option<bool>, verb: seq<Byte>,
                   gap1: seq<Byte>, target: seq<Byte>, gap2: seq<Byte>)
    requires s == front + v && IsFront(front, lead, verb, gap1, target, gap2)
    ensures At(s, 0, Lead(lead)) && At(s, |Lead(lead)|, verb + gap1 + (target + gap2))
    ensures |front| == |Lead(lead)| + |verb + gap1 + (target + gap2)|
  {
    hide At, AllToken, AllSpaces, AllTarget, Lead;
    WholeAt(front, v);
    AtConcat(s, 0, Lead(lead), verb + gap1 + (target + gap2));
  }

  lemma TooShortAsksForMore(s: seq<Byte>, max: nat)
    requires VersionTooShort(s)
    ensures Parse(s, max).Incomplete?
  {
    hide At, AllToken, AllSpaces, AllTarget, StartsVersion, LeadingLine, VerbAndTarget, Headers;
    var front, v, lead, verb, gap1, target, gap2 :|
      && s == front + v && IsFront(front, lead, verb, gap1, target, gap2)
      && verb != [] && target != [] && gap2 != [] && 0 < |v| < 9 && v[0] != SP && !StartsVersion(v);
    FrontBytes(s, front, v, lead, verb, gap1, target, gap2);
    var m, lay := Message(verb, target, 0, []), Layout(lead, gap1, gap2, true, [], true);
    FirstIsToken(s, |Lead(lead)|, m, lay);
    LeadIff(s, |Lead(lead)|, lead);
    RequestTextParses(s, |Lead(lead)|, m, lay);
  }

  lemma SpaceFirst(s: seq<Byte>, i: nat, path: nat, pathEnd: nat)
    requires i < path <= pathEnd <= |s| && SpacesIn(s, i, path) && TargetIn(s, path, pathEnd)
    requires SpacesIn(s, pathEnd, |s|)
    ensures VerbAndTarget(s, i).Incomplete?
  {
    hide ScanToken, ScanTarget, SkipSpaces, IsBlank, IsCtl;
    TokenIff(s, i, i, SP);
    if path == pathEnd {
      SpacesEnd(s, i + 1);
    } else {
      SpacesIff(s, i + 1, path);
      if pathEnd == |s| {
        TargetEnd(s, path);
      } else {
        TargetIff(s, path, pathEnd);
        SpacesEnd(s, pathEnd + 1);
      }
    }
  }

  lemma GapAsksForMore(s: seq<Byte>, i: nat, gap1: seq<Byte>, target: seq<Byte>, gap2: seq<Byte>)
    requires At(s, i, gap1 + (target + gap2)) && |s| == i + |gap1 + (target + gap2)|
    requires gap1 != [] && AllSpaces(gap1) && AllTarget(target) && AllSpaces(gap2)
    ensures i < |s| && s[i] == SP && VerbAndTarget(s, i).Incomplete?
  {
    hide At, AllSpaces, AllTarget, VerbAndTarget;
    var path := i + |gap1|;
    var pathEnd := path + |target|;
    AtConcat(s, i, gap1, target + gap2);
    AtConcat(s, path, target, gap2);
    AtRuns(s, i, gap1);
    AtRuns(s, path, target);
    AtRuns(s, pathEnd, gap2);
    SpaceFirst(s, i, path, pathEnd);
  }

  lemma NoMethodAsksForMore(s: seq<Byte>, max: nat)
    requires NoMethod(s)
    ensures Parse(s, max).Incomplete?
  {
    hide VerbAndTarget, At;
    var none: seq<Byte> := [];
    var lead, gap1, target, gap2 :| IsFront(s, lead, none, gap1, target, gap2);
    assert s == s + [] && none + gap1 == gap1;
    FrontBytes(s, s, [], lead, none, gap1, target, gap2);
    GapAsksForMore(s, |Lead(lead)|, gap1, target, gap2);
    LeadIff(s, |Lead(lead)|, lead);
  }

  // ---------- the answers ----------

  // Some head is a prefix of `s`.
  ghost predicate HoldsHead(s: seq<Byte>, max: nat) {
    exists m, lay :: IsMessage(m, lay) && |m.fields| <= max && Head(m, lay) <= s
  }

  // `s` is a prefix of some head, but not all of it.
  ghost predicate StartsHead(s: seq<Byte>, max: nat) {
    exists m, lay :: IsMessage(m, lay) && |m.fields| <= max && s < Head(m, lay)
  }

  lemma StartAsksForMore(s: seq<Byte>, max: nat, m: Message, lay: Layout)
    requires IsMessage(m, lay) && |m.fields| <= max && s < Head(m, lay)
    ensures Parse(s, max).Incomplete?
  {
    hide Parse, Head, AllToken, AllTarget, AllSpaces, IsField;
    PrintThenParse(m, lay, [], max);
    assert Head(m, lay) + [] == Head(m, lay);
    if !Parse(s, max).Incomplete? {
      ParseStable(s, Head(m, lay), max);
    }
  }

  lemma GrowsIntoHead(s: seq<Byte>, t: seq<Byte>, max: nat)
    requires Parse(s, max).Incomplete? && Parse(s + t, max).Got?
    ensures StartsHead(s, max)
  {
    hide Parse, Head, AllToken, AllTarget, AllSpaces, IsField;
    var lay := ParseThenPrint(s + t, max);
    var (req, n) := Parse(s + t, max).value;
    if n <= |s| {
      ParseStable(s, s + t, max);
      assert false;
    }
    assert s < (s + t)[..n];
    assert IsMessage(MessageOf(s + t, req), lay);
  }

  /** The parser answers -2 exactly for the proper prefixes of the heads it accepts and in the two late cases. */
  lemma IncompleteIff(s: seq<Byte>, max: nat)
    ensures Parse(s, max).Incomplete? <==> StartsHead(s, max) || VersionTooShort(s) || NoMethod(s)
  {
    hide Parse, Head, IsMessage, VersionTooShort, NoMethod, StartsHead;
    if Parse(s, max).Incomplete? && !VersionTooShort(s) && !NoMethod(s) {
      var t := ParseGrows(s, max);
      GrowsIntoHead(s, t, max);
    }
    if StartsHead(s, max) {
      StartIsIncomplete(s, max);
    }
    if VersionTooShort(s) {
      TooShortAsksForMore(s, max);
    }
    if NoMethod(s) {
      NoMethodAsksForMore(s, max);
    }
  }

  lemma StartIsIncomplete(s: seq<Byte>, max: nat)
    requires StartsHead(s, max)
    ensures Parse(s, max).Incomplete?
  {
    var m, lay :| IsMessage(m, lay) && |m.fields| <= max && s < Head(m, lay);
    StartAsksForMore(s, max, m, lay);
  }

  lemma HeldIff(s: seq<Byte>, max: nat)
    ensures Parse(s, max).Got? <==> HoldsHead(s, max)
  {
    hide Parse, Head, MessageOf, AllToken, AllTarget, AllSpaces, IsField;
    if Parse(s, max).Got? {
      var lay := ParseThenPrint(s, max);
      var (req, n) := Parse(s, max).value;
      assert IsMessage(MessageOf(s, req), lay) && Head(MessageOf(s, req), lay) <= s;
    }
    if HoldsHead(s, max) {
      var m, lay :| IsMessage(m, lay) && |m.fields| <= max && Head(m, lay) <= s;
      ParserDecidesGrammar(s, max, m, |Head(m, lay)|);
    }
  }

  /** The parser answers -1 exactly for the bytes that hold no head, are no part of one, and are no late case. */
  lemma MalformedIff(s: seq<Byte>, max: nat)
    ensures Parse(s, max).Malformed?
            <==> !HoldsHead(s, max) && !StartsHead(s, max) && !VersionTooShort(s) && !NoMethod(s)
  {
    hide Parse, HoldsHead, StartsHead, VersionTooShort, NoMethod;
    IncompleteIff(s, max);
    HeldIff(s, max);
  }

  // ---------- the scan for the blank line ----------

  // Two line ends in a row stop at `n`, the first of them with its LF at `lo` or later.
  predicate BlankFrom(s: seq<Byte>, lo: nat, n: nat) {
    EndsBlank(s, n) && lo <= BlankAt(s, n)
  }

  // No two line ends in a row stop before `n`.
  predicate NoneBefore(s: seq<Byte>, lo: nat, n: nat) {
    forall m: nat | m < n :: !BlankFrom(s, lo, m)
  }

  predicate BareCrAt(s: seq<Byte>, j: nat) {
    j + 1 < |s| && s[j] == CR && s[j + 1] != LF
  }

  // What the scan from `lo` has to answer.
  ghost predicate Answers(s: seq<Byte>, lo: nat, r: Step<nat>) {
    match r
    case Got(n) => BlankFrom(s, lo, n) && NoneBefore(s, lo, n) && forall j | lo <= j < n :: !BareCrAt(s, j)
    case Malformed => exists j: nat | lo <= j :: BareCrAt(s, j) && NoneBefore(s, lo, j + 1)
    case Incomplete => NoneBefore(s, lo, |s| + 1) && forall j: nat | lo <= j :: !BareCrAt(s, j)
  }

  lemma SameFrom(s: seq<Byte>, lo: nat, next: nat, r: Step<nat>)
    requires lo <= next && Answers(s, next, r)
    requires forall n: nat :: BlankFrom(s, lo, n) <==> BlankFrom(s, next, n)
    requires forall j: nat | lo <= j < next :: !BareCrAt(s, j)
    ensures Answers(s, lo, r)
  {
    hide BlankFrom, BareCrAt;
    if r.Malformed? {
      var j: nat :| next <= j && BareCrAt(s, j) && NoneBefore(s, next, j + 1);
      assert lo <= j && BareCrAt(s, j) && NoneBefore(s, lo, j + 1);
    }
  }

  /** The scan stops behind the first two line ends in a row, unless a CR without an LF comes before them. That is an
      error, and without either it asks for more. With one line end counted, that one's LF is part of the text. */
  lemma {:induction false} BlankLineAnswers(s: seq<Byte>, i: nat, count: nat)
    requires count <= i <= |s| && count < 2 && (count == 1 ==> s[i - 1] == LF)
    ensures Answers(s, i - count, BlankLine(s, i, count))
    decreases |s| - i
  {
    var lo := i - count;
    if i == |s| {
    } else if s[i] == CR {
      if i + 1 < |s| && s[i + 1] == LF && count == 0 {
        BlankLineAnswers(s, i + 2, 1);
        SameFrom(s, lo, i + 1, BlankLine(s, i + 2, 1));
      } else if i + 1 < |s| && s[i + 1] != LF {
        assert BareCrAt(s, i) && NoneBefore(s, lo, i + 1);
      }
    } else if s[i] == LF {
      if count == 0 {
        BlankLineAnswers(s, i + 1, 1);
      }
    } else {
      BlankLineAnswers(s, i + 1, 0);
      SameFrom(s, lo, i + 1, BlankLine(s, i + 1, 0));
    }
  }
}
