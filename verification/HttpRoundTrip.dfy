/** The parser decides a grammar. `Head` prints a request head: the request line of section 3.1.1 and the header
    fields of section 3.2 of RFC 7230, with the freedom the parser grants (a leading empty line, several spaces, bare
    LF, blanks around values, continuation lines). Printing and parsing are inverse in both directions. */
module HttpRoundTrip {
  import opened Bytes
  import opened HttpSyntax
  import opened Options

  datatype Field = Field(name: Option<seq<Byte>>, value: seq<Byte>)

  datatype Message = Message(verb: seq<Byte>, target: seq<Byte>, minor: nat, fields: seq<Field>)

  // How one header line is laid out: blanks before and after the value, CRLF or LF.
  datatype LineLayout = LineLayout(pre: seq<Byte>, post: seq<Byte>, crlf: bool)

  // How the rest is laid out: the leading empty line, the two gaps, the other line ends.
  datatype Layout = Layout(lead: Option<bool>, gap1: seq<Byte>, gap2: seq<Byte>, crlf: bool,
                           lines: seq<LineLayout>, lastCrlf: bool)

  function Eol(crlf: bool): seq<Byte> {
    if crlf then [CR, LF] else [LF]
  }

  function Lead(lead: Option<bool>): seq<Byte> {
    match lead
    case None => []
    case Some(crlf) => Eol(crlf)
  }

  function Prefix(f: Field, lay: LineLayout): seq<Byte> {
    match f.name
    case None => []
    case Some(name) => name + [COLON] + lay.pre
  }

  function Line(f: Field, lay: LineLayout): seq<Byte> {
    Prefix(f, lay) + (f.value + lay.post + Eol(lay.crlf))
  }

  function Lines(fields: seq<Field>, lays: seq<LineLayout>, crlf: bool): seq<Byte>
    requires |fields| == |lays|
  {
    if fields == [] then Eol(crlf) else Line(fields[0], lays[0]) + Lines(fields[1..], lays[1..], crlf)
  }

  function VersionText(minor: nat, crlf: bool): seq<Byte>
    requires minor < 10
  {
    HTTP_1 + [48 + minor] + Eol(crlf)
  }

  function RequestText(m: Message, lay: Layout): seq<Byte> {
    m.verb + lay.gap1 + (m.target + lay.gap2)
  }

  function Head(m: Message, lay: Layout): seq<Byte>
    requires m.minor < 10 && |m.fields| == |lay.lines|
  {
    Lead(lay.lead) + (RequestText(m, lay) + (VersionText(m.minor, lay.crlf) + Lines(m.fields, lay.lines, lay.lastCrlf)))
  }

  predicate AllBlank(w: seq<Byte>) {
    forall k | 0 <= k < |w| :: IsBlank(w[k])
  }

  predicate AllSpaces(w: seq<Byte>) {
    forall k | 0 <= k < |w| :: w[k] == SP
  }

  predicate AllToken(w: seq<Byte>) {
    forall k | 0 <= k < |w| :: IsTokenByte(w[k])
  }

  predicate AllText(w: seq<Byte>) {
    forall k | 0 <= k < |w| :: !EndsValue(w[k])
  }

  predicate AllTarget(w: seq<Byte>) {
    forall k | 0 <= k < |w| :: !IsCtl(w[k]) && w[k] != SP
  }

  predicate IsTail(value: seq<Byte>, post: seq<Byte>) {
    AllText(value) && AllBlank(post) && (value != [] ==> !IsBlank(value[|value| - 1]))
  }

  predicate IsField(f: Field, lay: LineLayout, first: bool) {
    && IsTail(f.value, lay.post) && AllBlank(lay.pre)
    && match f.name
       case Some(name) => name != [] && AllToken(name) && (f.value != [] ==> !IsBlank(f.value[0]))
       case None => !first && (if f.value == [] then lay.post != [] else IsBlank(f.value[0]))
  }

  predicate AreFields(fields: seq<Field>, lays: seq<LineLayout>, first: bool) {
    |fields| == |lays| && forall k | 0 <= k < |fields| :: IsField(fields[k], lays[k], first && k == 0)
  }

  predicate IsMessage(m: Message, lay: Layout) {
    && m.verb != [] && AllToken(m.verb)
    && m.target != [] && AllTarget(m.target)
    && m.minor < 10
    && lay.gap1 != [] && AllSpaces(lay.gap1) && lay.gap2 != [] && AllSpaces(lay.gap2)
    && AreFields(m.fields, lay.lines, true)
  }

  // ---------- runs of bytes by position ----------

  predicate TokensIn(s: seq<Byte>, lo: nat, hi: nat)
    requires hi <= |s|
  {
    forall k | lo <= k < hi :: IsTokenByte(s[k])
  }

  predicate TargetIn(s: seq<Byte>, lo: nat, hi: nat)
    requires hi <= |s|
  {
    forall k | lo <= k < hi :: !IsCtl(s[k]) && s[k] != SP
  }

  predicate SpacesIn(s: seq<Byte>, lo: nat, hi: nat)
    requires hi <= |s|
  {
    forall k | lo <= k < hi :: s[k] == SP
  }

  predicate BlanksIn(s: seq<Byte>, lo: nat, hi: nat)
    requires hi <= |s|
  {
    forall k | lo <= k < hi :: IsBlank(s[k])
  }

  predicate TextIn(s: seq<Byte>, lo: nat, hi: nat)
    requires hi <= |s|
  {
    forall k | lo <= k < hi :: !EndsValue(s[k])
  }

  predicate EolAt(s: seq<Byte>, i: nat, next: nat, crlf: bool) {
    if crlf then next == i + 2 <= |s| && s[i] == CR && s[i + 1] == LF else next == i + 1 <= |s| && s[i] == LF
  }

  lemma {:induction false} TokenIff(s: seq<Byte>, i: nat, j: nat, stop: Byte)
    requires i <= |s| && !IsTokenByte(stop)
    ensures ScanToken(s, i, stop) == Got(j) <==> i <= j < |s| && s[j] == stop && TokensIn(s, i, j)
    decreases |s| - i
  {
    if i < |s| && IsTokenByte(s[i]) {
      TokenIff(s, i + 1, j, stop);
    }
  }

  lemma {:induction false} TargetIff(s: seq<Byte>, i: nat, j: nat)
    requires i <= |s|
    ensures ScanTarget(s, i) == Got(j) <==> i <= j < |s| && s[j] == SP && TargetIn(s, i, j)
    decreases |s| - i
  {
    if i < |s| && s[i] != SP && !IsCtl(s[i]) {
      TargetIff(s, i + 1, j);
    }
  }

  lemma {:induction false} SpacesIff(s: seq<Byte>, i: nat, j: nat)
    requires i <= |s|
    ensures SkipSpaces(s, i) == Got(j) <==> i <= j < |s| && s[j] != SP && SpacesIn(s, i, j)
    decreases |s| - i
  {
    if i < |s| && s[i] == SP {
      SpacesIff(s, i + 1, j);
    }
  }

  lemma {:induction false} BlanksIff(s: seq<Byte>, i: nat, j: nat)
    requires i <= |s|
    ensures SkipBlanks(s, i) == Got(j) <==> i <= j < |s| && !IsBlank(s[j]) && BlanksIn(s, i, j)
    decreases |s| - i
  {
    if i < |s| && IsBlank(s[i]) {
      BlanksIff(s, i + 1, j);
    }
  }

  lemma {:induction false} ValueIff(s: seq<Byte>, i: nat, j: nat)
    requires i <= |s|
    ensures ScanValue(s, i) == Got(j) <==> i <= j < |s| && EndsValue(s[j]) && TextIn(s, i, j)
    decreases |s| - i
  {
    if i < |s| && !EndsValue(s[i]) {
      ValueIff(s, i + 1, j);
    }
  }

  lemma {:induction false} TrimIff(s: seq<Byte>, lo: nat, hi: nat, j: nat)
    requires lo <= hi <= |s|
    ensures TrimEnd(s, lo, hi) == j <==> lo <= j <= hi && (j == lo || !IsBlank(s[j - 1])) && BlanksIn(s, j, hi)
    decreases hi
  {
    if lo < hi && IsBlank(s[hi - 1]) {
      TrimIff(s, lo, hi - 1, j);
    }
  }

  lemma LineEndIff(s: seq<Byte>, i: nat, next: nat)
    requires i < |s|
    ensures LineEnd(s, i) == Got(next) <==> EolAt(s, i, next, true) || EolAt(s, i, next, false)
  {
  }

  lemma ValueLineIff(s: seq<Byte>, i: nat, stop: nat, next: nat)
    requires i <= |s|
    ensures ValueLine(s, i) == Got((stop, next))
            <==> i <= stop < |s| && TextIn(s, i, stop) && (EolAt(s, stop, next, true) || EolAt(s, stop, next, false))
  {
    ValueIff(s, i, stop);
  }

  lemma FieldNameIff(s: seq<Byte>, i: nat, colon: nat, v: nat)
    requires i < colon && colon <= |s|
    ensures FieldName(s, i) == Got((Slice(i, colon - i), v))
            <==> && colon < v < |s| && TokensIn(s, i, colon) && s[colon] == COLON
                 && BlanksIn(s, colon + 1, v) && !IsBlank(s[v])
  {
    TokenIff(s, i, colon, COLON);
    if colon < |s| {
      BlanksIff(s, colon + 1, v);
    }
  }

  // ---------- text at a position ----------

  predicate At(s: seq<Byte>, i: nat, w: seq<Byte>) {
    i + |w| <= |s| && s[i..i + |w|] == w
  }

  lemma AtConcat(s: seq<Byte>, i: nat, a: seq<Byte>, b: seq<Byte>)
    ensures At(s, i, a + b) <==> At(s, i, a) && At(s, i + |a|, b)
  {
    if i + |a| + |b| <= |s| {
      var w := s[i..i + |a| + |b|];
      assert w[..|a|] == s[i..i + |a|] && w[|a|..] == s[i + |a|..i + |a| + |b|];
      assert w == w[..|a|] + w[|a|..];
      assert (a + b)[..|a|] == a && (a + b)[|a|..] == b;
    }
  }

  lemma AtConcat3(s: seq<Byte>, i: nat, a: seq<Byte>, b: seq<Byte>, c: seq<Byte>)
    ensures At(s, i, a + b + c) <==> At(s, i, a) && At(s, i + |a|, b) && At(s, i + |a| + |b|, c)
  {
    AtConcat(s, i, a + b, c);
    AtConcat(s, i, a, b);
  }

  lemma AtRuns(s: seq<Byte>, i: nat, w: seq<Byte>)
    requires At(s, i, w)
    ensures i + |w| <= |s|
    ensures AllToken(w) <==> TokensIn(s, i, i + |w|)
    ensures AllTarget(w) <==> TargetIn(s, i, i + |w|)
    ensures AllSpaces(w) <==> SpacesIn(s, i, i + |w|)
    ensures AllBlank(w) <==> BlanksIn(s, i, i + |w|)
    ensures AllText(w) <==> TextIn(s, i, i + |w|)
    ensures w != [] ==> s[i] == w[0] && s[i + |w| - 1] == w[|w| - 1]
  {
    assert forall k | 0 <= k < |w| :: w[k] == s[i + k];
    assert forall k | i <= k < i + |w| :: s[k] == w[k - i];
  }

  lemma AtEol(s: seq<Byte>, i: nat, crlf: bool)
    ensures At(s, i, Eol(crlf)) <==> EolAt(s, i, i + |Eol(crlf)|, crlf)
  {
    if i + |Eol(crlf)| <= |s| {
      var w := s[i..i + |Eol(crlf)|];
      assert w[0] == s[i] && (crlf ==> w[1] == s[i + 1]);
    }
  }

  lemma AtByte(s: seq<Byte>, i: nat, b: Byte)
    ensures At(s, i, [b]) <==> i < |s| && s[i] == b
  {
    if i < |s| {
      assert s[i..i + 1] == [s[i]];
    }
  }

  function TextOf(s: seq<Byte>, w: Slice): seq<Byte> {
    if w.off + w.len <= |s| then s[w.off..w.off + w.len] else []
  }

  lemma AtText(s: seq<Byte>, i: nat, w: seq<Byte>)
    requires At(s, i, w)
    ensures TextOf(s, Slice(i, |w|)) == w
  {
  }

  lemma TextAt(s: seq<Byte>, lo: nat, hi: nat)
    requires lo <= hi <= |s|
    ensures At(s, lo, s[lo..hi]) && TextOf(s, Slice(lo, hi - lo)) == s[lo..hi]
  {
  }

  function FieldOf(s: seq<Byte>, h: HeaderField): Field {
    Field(if h.name.Some? then Some(TextOf(s, h.name.value)) else None, TextOf(s, h.value))
  }

  function FieldsOf(s: seq<Byte>, hs: seq<HeaderField>): (r: seq<Field>)
    ensures |r| == |hs|
  {
    seq(|hs|, k requires 0 <= k < |hs| => FieldOf(s, hs[k]))
  }

  lemma FieldsOfSnoc(s: seq<Byte>, hs: seq<HeaderField>, h: HeaderField)
    ensures FieldsOf(s, hs + [h]) == FieldsOf(s, hs) + [FieldOf(s, h)]
  {
  }

  function MessageOf(s: seq<Byte>, req: Request): Message {
    Message(TextOf(s, req.verb), TextOf(s, req.path), req.minor, FieldsOf(s, req.headers))
  }

  // ---------- one header line ----------

  lemma TailParses(s: seq<Byte>, i: nat, value: seq<Byte>, post: seq<Byte>, crlf: bool)
    requires At(s, i, value + post + Eol(crlf)) && IsTail(value, post)
    ensures var stop := i + |value| + |post|;
            && ValueLine(s, i) == Got((stop, stop + |Eol(crlf)|)) && TrimEnd(s, i, stop) == i + |value|
            && TextOf(s, Slice(i, |value|)) == value
  {
    hide At, AllText, AllBlank, TextOf;
    var stop := i + |value| + |post|;
    AtConcat3(s, i, value, post, Eol(crlf));
    AtText(s, i, value);
    AtRuns(s, i, value);
    AtRuns(s, i + |value|, post);
    AtEol(s, stop, crlf);
    ValueLineIff(s, i, stop, stop + |Eol(crlf)|);
    TrimIff(s, i, stop, i + |value|);
  }

  lemma TailReads(s: seq<Byte>, i: nat) returns (value: seq<Byte>, post: seq<Byte>, crlf: bool)
    requires i <= |s| && ValueLine(s, i).Got?
    ensures var (stop, next) := ValueLine(s, i).value;
            && At(s, i, value + post + Eol(crlf)) && next == i + |value| + |post| + |Eol(crlf)|
            && value == TextOf(s, Slice(i, TrimEnd(s, i, stop) - i))
    ensures IsTail(value, post)
  {
    hide At, AllText, AllBlank, TextOf;
    var (stop, next) := ValueLine(s, i).value;
    var end := TrimEnd(s, i, stop);
    ValueLineIff(s, i, stop, next);
    TrimIff(s, i, stop, end);
    value, post, crlf := s[i..end], s[end..stop], EolAt(s, stop, next, true);
    TextAt(s, i, end);
    TextAt(s, end, stop);
    AtEol(s, stop, crlf);
    AtConcat3(s, i, value, post, Eol(crlf));
    AtRuns(s, i, value);
    AtRuns(s, end, post);
  }

  lemma NameParses(s: seq<Byte>, i: nat, name: seq<Byte>, pre: seq<Byte>)
    requires At(s, i, name + [COLON] + pre) && name != [] && AllToken(name) && AllBlank(pre)
    requires var v := i + |name| + 1 + |pre|; v < |s| && !IsBlank(s[v])
    ensures FieldName(s, i) == Got((Slice(i, |name|), i + |name| + 1 + |pre|)) && TextOf(s, Slice(i, |name|)) == name
    ensures IsTokenByte(s[i])
  {
    hide At, AllToken, AllBlank, TextOf, BlanksIn;
    var colon := i + |name|;
    AtConcat3(s, i, name, [COLON], pre);
    AtRuns(s, i, name);
    AtText(s, i, name);
    AtByte(s, colon, COLON);
    AtRuns(s, colon + 1, pre);
    FieldNameIff(s, i, colon, colon + 1 + |pre|);
  }

  lemma NameReads(s: seq<Byte>, i: nat) returns (name: seq<Byte>, pre: seq<Byte>)
    requires i <= |s| && FieldName(s, i).Got?
    ensures var (w, v) := FieldName(s, i).value;
            At(s, i, name + [COLON] + pre) && v == i + |name| + 1 + |pre| && name == TextOf(s, w) && !IsBlank(s[v])
    ensures name != [] && AllToken(name) && AllBlank(pre)
  {
    hide At, AllToken, AllBlank, TextOf, BlanksIn, TokensIn;
    var (w, v) := FieldName(s, i).value;
    var colon := i + w.len;
    FieldNameIff(s, i, colon, v);
    name, pre := s[i..colon], s[colon + 1..v];
    TextAt(s, i, colon);
    TextAt(s, colon + 1, v);
    AtByte(s, colon, COLON);
    AtConcat3(s, i, name, [COLON], pre);
    AtRuns(s, i, name);
    AtRuns(s, colon + 1, pre);
  }

  // What a value line starts with: its value, its blanks or its line end.
  lemma TailStart(s: seq<Byte>, i: nat, value: seq<Byte>, post: seq<Byte>, crlf: bool)
    requires At(s, i, value + post + Eol(crlf))
    ensures i < |s|
    ensures s[i] == if value != [] then value[0] else if post != [] then post[0] else if crlf then CR else LF
  {
    hide At;
    AtConcat3(s, i, value, post, Eol(crlf));
    AtRuns(s, i, value);
    AtRuns(s, i + |value|, post);
    AtEol(s, i + |value| + |post|, crlf);
  }

  lemma NamedLineParses(s: seq<Byte>, i: nat, f: Field, lay: LineLayout, first: bool)
    requires IsField(f, lay, first) && f.name.Some? && At(s, i, Line(f, lay)) && (f.value == [] ==> lay.post == [])
    ensures i < |s| && IsTokenByte(s[i])
    ensures var r := HeaderLine(s, i, first); r.Got? && FieldOf(s, r.value.0) == f && r.value.1 == i + |Line(f, lay)|
  {
    hide At, AllToken, AllText, AllBlank, TextOf, FieldName, ValueLine, TrimEnd;
    var name, tail := f.name.value, f.value + lay.post + Eol(lay.crlf);
    var v := i + |name| + 1 + |lay.pre|;
    AtConcat(s, i, name + [COLON] + lay.pre, tail);
    TailStart(s, v, f.value, lay.post, lay.crlf);
    TailParses(s, v, f.value, lay.post, lay.crlf);
    NameParses(s, i, name, lay.pre);
    assert HeaderLine(s, i, first)
        == Got((HeaderField(Some(Slice(i, |name|)), Slice(v, |f.value|)), v + |tail|));
  }

  // Behind an empty value, blanks are as good as before it.
  lemma BlanksMove(name: seq<Byte>, lay: LineLayout)
    ensures var f, lay' := Field(Some(name), []), LineLayout(lay.pre + lay.post, [], lay.crlf);
            Line(f, lay') == Line(f, lay)
  {
    var none: seq<Byte>, eol := [], Eol(lay.crlf);
    assert none + lay.post + eol == lay.post + eol && none + none + eol == eol;
    assert name + [COLON] + (lay.pre + lay.post) + eol == name + [COLON] + lay.pre + (lay.post + eol);
  }

  lemma EmptyValueParses(s: seq<Byte>, i: nat, f: Field, lay: LineLayout, first: bool)
    requires IsField(f, lay, first) && f.name.Some? && f.value == [] && At(s, i, Line(f, lay))
    ensures i < |s| && IsTokenByte(s[i])
    ensures var r := HeaderLine(s, i, first); r.Got? && FieldOf(s, r.value.0) == f && r.value.1 == i + |Line(f, lay)|
  {
    var lay' := LineLayout(lay.pre + lay.post, [], lay.crlf);
    assert IsField(f, lay', first);
    BlanksMove(f.name.value, lay);
    hide At, IsField, Line, HeaderLine, FieldOf;
    NamedLineParses(s, i, f, lay', first);
  }

  lemma ContinuationParses(s: seq<Byte>, i: nat, f: Field, lay: LineLayout, first: bool)
    requires IsField(f, lay, first) && f.name.None? && At(s, i, Line(f, lay))
    ensures i < |s| && s[i] != CR && s[i] != LF
    ensures var r := HeaderLine(s, i, first); r.Got? && FieldOf(s, r.value.0) == f && r.value.1 == i + |Line(f, lay)|
  {
    hide At, AllToken, AllText, TextOf, FieldName, ValueLine, TrimEnd;
    assert Line(f, lay) == f.value + lay.post + Eol(lay.crlf);
    TailStart(s, i, f.value, lay.post, lay.crlf);
    TailParses(s, i, f.value, lay.post, lay.crlf);
  }

  lemma LineParses(s: seq<Byte>, i: nat, f: Field, lay: LineLayout, first: bool)
    requires IsField(f, lay, first) && At(s, i, Line(f, lay))
    ensures i < |s| && s[i] != CR && s[i] != LF
    ensures var r := HeaderLine(s, i, first); r.Got? && FieldOf(s, r.value.0) == f && r.value.1 == i + |Line(f, lay)|
  {
    hide At, IsField, Line, HeaderLine, FieldOf;
    if f.name.None? {
      ContinuationParses(s, i, f, lay, first);
    } else if f.value == [] {
      EmptyValueParses(s, i, f, lay, first);
    } else {
      NamedLineParses(s, i, f, lay, first);
    }
  }

  lemma LineReads(s: seq<Byte>, i: nat, first: bool) returns (lay: LineLayout)
    requires i < |s| && HeaderLine(s, i, first).Got?
    ensures var (h, next) := HeaderLine(s, i, first).value; var f := FieldOf(s, h);
            IsField(f, lay, first) && At(s, i, Line(f, lay)) && next == i + |Line(f, lay)|
  {
    hide At, AllToken, AllText, TextOf, FieldName, ValueLine, TrimEnd;
    if !first && IsBlank(s[i]) {
      var value, post, crlf := TailReads(s, i);
      TailStart(s, i, value, post, crlf);
      lay := LineLayout([], post, crlf);
      assert Prefix(Field(None, value), lay) + (value + post + Eol(crlf)) == value + post + Eol(crlf);
    } else {
      var name, pre := NameReads(s, i);
      var v := FieldName(s, i).value.1;
      var value, post, crlf := TailReads(s, v);
      TailStart(s, v, value, post, crlf);
      lay := LineLayout(pre, post, crlf);
      AtConcat(s, i, name + [COLON] + pre, value + post + Eol(crlf));
    }
  }

  // ---------- all header lines ----------

  lemma {:induction false} LinesParse(s: seq<Byte>, i: nat, done: seq<HeaderField>, max: nat,
                                      fields: seq<Field>, lays: seq<LineLayout>, crlf: bool)
    requires AreFields(fields, lays, |done| == 0) && |done| + |fields| <= max && At(s, i, Lines(fields, lays, crlf))
    ensures var r := Headers(s, i, done, max);
            && r.Got? && FieldsOf(s, r.value.0) == FieldsOf(s, done) + fields
            && r.value.1 == i + |Lines(fields, lays, crlf)|
    decreases |fields|
  {
    hide At, IsField, Line, HeaderLine, FieldOf, FieldsOf;
    if fields == [] {
      AtEol(s, i, crlf);
      LineEndIff(s, i, i + |Eol(crlf)|);
      assert FieldsOf(s, done) + fields == FieldsOf(s, done);
    } else {
      assert IsField(fields[0], lays[0], |done| == 0);
      AtConcat(s, i, Line(fields[0], lays[0]), Lines(fields[1..], lays[1..], crlf));
      LineParses(s, i, fields[0], lays[0], |done| == 0);
      var (h, next) := HeaderLine(s, i, |done| == 0).value;
      FieldsOfSnoc(s, done, h);
      LinesParse(s, next, done + [h], max, fields[1..], lays[1..], crlf);
      assert FieldsOf(s, done) + [fields[0]] + fields[1..] == FieldsOf(s, done) + fields;
    }
  }

  lemma {:induction false} LinesRead(s: seq<Byte>, i: nat, done: seq<HeaderField>, max: nat)
    returns (fields: seq<Field>, lays: seq<LineLayout>, crlf: bool)
    requires i <= |s| && |done| <= max && Headers(s, i, done, max).Got?
    ensures AreFields(fields, lays, |done| == 0)
    ensures var (hs, next) := Headers(s, i, done, max).value;
            && FieldsOf(s, hs) == FieldsOf(s, done) + fields
            && At(s, i, Lines(fields, lays, crlf)) && next == i + |Lines(fields, lays, crlf)|
    decreases |s| - i
  {
    hide At, IsField, Line, HeaderLine, FieldOf, FieldsOf;
    if s[i] == CR || s[i] == LF {
      var next := LineEnd(s, i).value;
      LineEndIff(s, i, next);
      fields, lays, crlf := [], [], EolAt(s, i, next, true);
      AtEol(s, i, crlf);
      assert FieldsOf(s, done) + fields == FieldsOf(s, done);
    } else {
      var (h, next) := HeaderLine(s, i, |done| == 0).value;
      var f := FieldOf(s, h);
      var lay := LineReads(s, i, |done| == 0);
      var fields', lays', crlf' := LinesRead(s, next, done + [h], max);
      fields, lays, crlf := [f] + fields', [lay] + lays', crlf';
      AtConcat(s, i, Line(f, lay), Lines(fields', lays', crlf));
      FieldsOfSnoc(s, done, h);
      assert fields[1..] == fields' && lays[1..] == lays';
      assert FieldsOf(s, done) + [f] + fields' == FieldsOf(s, done) + fields;
    }
  }

  // ---------- the request line ----------

  lemma GapParses(s: seq<Byte>, i: nat, gap: seq<Byte>)
    requires At(s, i, gap) && gap != [] && AllSpaces(gap) && i + |gap| < |s| && s[i + |gap|] != SP
    ensures s[i] == SP && SkipSpaces(s, i + 1) == Got(i + |gap|)
  {
    hide At;
    AtRuns(s, i, gap);
    SpacesIff(s, i + 1, i + |gap|);
  }

  lemma VerbTextParses(s: seq<Byte>, i: nat, verb: seq<Byte>, gap: seq<Byte>)
    requires At(s, i, verb + gap) && AllToken(verb) && gap != [] && AllSpaces(gap)
    requires var t := i + |verb| + |gap|; t < |s| && s[t] != SP
    ensures var end := i + |verb|;
            && ScanToken(s, i, SP) == Got(end) && SkipSpaces(s, end + 1) == Got(end + |gap|)
            && TextOf(s, Slice(i, |verb|)) == verb
  {
    hide At, AllToken, AllSpaces, TextOf;
    AtConcat(s, i, verb, gap);
    AtText(s, i, verb);
    AtRuns(s, i, verb);
    GapParses(s, i + |verb|, gap);
    TokenIff(s, i, i + |verb|, SP);
  }

  lemma TargetTextParses(s: seq<Byte>, i: nat, target: seq<Byte>, gap: seq<Byte>)
    requires At(s, i, target + gap) && target != [] && AllTarget(target) && gap != [] && AllSpaces(gap)
    requires var v := i + |target| + |gap|; v < |s| && s[v] != SP
    ensures var end := i + |target|;
            && ScanTarget(s, i) == Got(end) && SkipSpaces(s, end + 1) == Got(end + |gap|) && s[i] != SP
            && TextOf(s, Slice(i, |target|)) == target
  {
    hide At, AllTarget, AllSpaces, TextOf;
    AtConcat(s, i, target, gap);
    AtText(s, i, target);
    AtRuns(s, i, target);
    GapParses(s, i + |target|, gap);
    TargetIff(s, i, i + |target|);
  }

  lemma RequestTextParses(s: seq<Byte>, i: nat, m: Message, lay: Layout)
    requires IsMessage(m, lay) && At(s, i, RequestText(m, lay))
    requires var v := i + |RequestText(m, lay)|; v < |s| && s[v] != SP
    ensures var t := i + |m.verb| + |lay.gap1|; var verb, path := Slice(i, |m.verb|), Slice(t, |m.target|);
            && VerbAndTarget(s, i) == Got((verb, path, i + |RequestText(m, lay)|))
            && TextOf(s, verb) == m.verb && TextOf(s, path) == m.target
  {
    hide At, AllToken, AllTarget, AllSpaces, AreFields, TextOf;
    AtConcat(s, i, m.verb + lay.gap1, m.target + lay.gap2);
    TargetTextParses(s, i + |m.verb + lay.gap1|, m.target, lay.gap2);
    VerbTextParses(s, i, m.verb, lay.gap1);
  }

  lemma GapReads(s: seq<Byte>, i: nat)
    requires i < |s| && s[i] == SP && SkipSpaces(s, i + 1).Got?
    ensures SpacesIn(s, i, SkipSpaces(s, i + 1).value)
  {
    SpacesIff(s, i + 1, SkipSpaces(s, i + 1).value);
  }

  lemma VerbTextReads(s: seq<Byte>, i: nat) returns (verb: seq<Byte>, gap: seq<Byte>)
    requires i <= |s| && ScanToken(s, i, SP).Got? && SkipSpaces(s, ScanToken(s, i, SP).value + 1).Got?
    ensures var end := ScanToken(s, i, SP).value;
            && At(s, i, verb + gap) && i + |verb| == end && end + |gap| == SkipSpaces(s, end + 1).value
            && TextOf(s, Slice(i, |verb|)) == verb
    ensures AllToken(verb) && gap != [] && AllSpaces(gap)
  {
    hide At, AllToken, AllSpaces, TextOf, TokensIn, SpacesIn;
    var end := ScanToken(s, i, SP).value;
    var next := SkipSpaces(s, end + 1).value;
    TokenIff(s, i, end, SP);
    GapReads(s, end);
    verb, gap := s[i..end], s[end..next];
    TextAt(s, i, end);
    TextAt(s, end, next);
    AtConcat(s, i, verb, gap);
    AtRuns(s, i, verb);
    AtRuns(s, end, gap);
  }

  lemma TargetTextReads(s: seq<Byte>, i: nat) returns (target: seq<Byte>, gap: seq<Byte>)
    requires i <= |s| && ScanTarget(s, i).Got? && SkipSpaces(s, ScanTarget(s, i).value + 1).Got?
    ensures var end := ScanTarget(s, i).value;
            && At(s, i, target + gap) && i + |target| == end && end + |gap| == SkipSpaces(s, end + 1).value
            && TextOf(s, Slice(i, |target|)) == target
    ensures AllTarget(target) && gap != [] && AllSpaces(gap)
  {
    hide At, AllTarget, AllSpaces, TextOf, TargetIn, SpacesIn;
    var end := ScanTarget(s, i).value;
    var next := SkipSpaces(s, end + 1).value;
    TargetIff(s, i, end);
    GapReads(s, end);
    target, gap := s[i..end], s[end..next];
    TextAt(s, i, end);
    TextAt(s, end, next);
    AtConcat(s, i, target, gap);
    AtRuns(s, i, target);
    AtRuns(s, end, gap);
  }

  lemma RequestTextReads(s: seq<Byte>, i: nat)
    returns (verb: seq<Byte>, gap1: seq<Byte>, target: seq<Byte>, gap2: seq<Byte>)
    requires i <= |s| && VerbAndTarget(s, i).Got?
    ensures verb != [] && AllToken(verb) && gap1 != [] && AllSpaces(gap1)
    ensures target != [] && AllTarget(target) && gap2 != [] && AllSpaces(gap2)
    ensures var r := VerbAndTarget(s, i).value;
            && TextOf(s, r.0) == verb && TextOf(s, r.1) == target
            && At(s, i, verb + gap1 + (target + gap2)) && r.2 == i + |verb| + |gap1| + |target| + |gap2|
  {
    hide At, AllToken, AllTarget, AllSpaces, TextOf, ScanToken, ScanTarget, SkipSpaces;
    verb, gap1 := VerbTextReads(s, i);
    target, gap2 := TargetTextReads(s, VerbAndTarget(s, i).value.1.off);
    AtConcat(s, i, verb + gap1, target + gap2);
  }

  lemma VersionTextIff(s: seq<Byte>, i: nat, minor: nat, crlf: bool)
    requires i <= |s| && minor < 10
    ensures At(s, i, VersionText(minor, crlf))
            <==> At(s, i, HTTP_1) && At(s, i + 7, [48 + minor]) && EolAt(s, i + 8, i + 8 + |Eol(crlf)|, crlf)
  {
    hide At;
    AtConcat3(s, i, HTTP_1, [48 + minor], Eol(crlf));
    AtEol(s, i + 8, crlf);
  }

  // The nine-byte minimum asks for a byte behind the line end's first byte at most, and the blank line provides it.
  lemma VersionParses(s: seq<Byte>, i: nat, minor: nat, crlf: bool)
    requires minor < 10 && At(s, i, VersionText(minor, crlf))
    ensures VersionLine(s, i) == Got((minor, i + |VersionText(minor, crlf)|)) && i < |s| && s[i] != SP
  {
    VersionTextIff(s, i, minor, crlf);
    AtByte(s, i + 7, 48 + minor);
    assert s[i..i + 7][0] == HTTP_1[0];
    LineEndIff(s, i + 8, i + 8 + |Eol(crlf)|);
  }

  lemma VersionReads(s: seq<Byte>, i: nat) returns (crlf: bool)
    requires i <= |s| && VersionLine(s, i).Got?
    ensures var (minor, next) := VersionLine(s, i).value;
            minor < 10 && At(s, i, VersionText(minor, crlf)) && next == i + |VersionText(minor, crlf)|
  {
    var (minor, next) := VersionLine(s, i).value;
    LineEndIff(s, i + 8, next);
    crlf := EolAt(s, i + 8, next, true);
    VersionTextIff(s, i, minor, crlf);
    AtByte(s, i + 7, 48 + minor);
  }

  // ---------- the whole head ----------

  lemma LeadIff(s: seq<Byte>, next: nat, lead: Option<bool>)
    requires lead == None ==> 0 < |s| && s[0] != CR && s[0] != LF
    ensures At(s, 0, Lead(lead)) && next == |Lead(lead)| ==> LeadingLine(s) == Got(next)
  {
    if lead.Some? {
      AtEol(s, 0, lead.value);
    }
  }

  /** Whatever is printed parses back: the same texts, the head's length, and no dependence on the bytes behind it. */
  lemma PrintThenParse(m: Message, lay: Layout, body: seq<Byte>, max: nat)
    requires IsMessage(m, lay) && |m.fields| <= max
    ensures var s := Head(m, lay) + body; var r := Parse(s, max);
            r.Got? && r.value.1 == |Head(m, lay)| && MessageOf(s, r.value.0) == m
  {
    hide At, AllToken, AllTarget, AllSpaces, IsField, VersionLine, VerbAndTarget;
    hide Headers, TextOf, FieldsOf, Lines, VersionText;
    var lead, req := Lead(lay.lead), RequestText(m, lay);
    var version, lines := VersionText(m.minor, lay.crlf), Lines(m.fields, lay.lines, lay.lastCrlf);
    var s := Head(m, lay) + body;
    var i := |lead|;
    assert At(s, 0, Head(m, lay)) by {
      WholeAt(Head(m, lay), body);
    }
    AtConcat(s, 0, lead, req + (version + lines));
    AtConcat(s, i, req, version + lines);
    AtConcat(s, i + |req|, version, lines);
    VersionParses(s, i + |req|, m.minor, lay.crlf);
    RequestTextParses(s, i, m, lay);
    FirstIsToken(s, i, m, lay);
    LeadIff(s, i, lay.lead);
    LinesParse(s, i + |req| + |version|, [], max, m.fields, lay.lines, lay.lastCrlf);
    assert FieldsOf(s, []) + m.fields == m.fields;
  }

  lemma WholeAt(head: seq<Byte>, body: seq<Byte>)
    ensures At(head + body, 0, head)
  {
  }

  lemma FirstIsToken(s: seq<Byte>, i: nat, m: Message, lay: Layout)
    requires IsMessage(m, lay) && At(s, i, RequestText(m, lay))
    ensures i < |s| && IsTokenByte(s[i])
  {
    hide At, AreFields;
    AtConcat(s, i, m.verb + lay.gap1, m.target + lay.gap2);
    AtConcat(s, i, m.verb, lay.gap1);
    AtRuns(s, i, m.verb);
  }

  /** Whatever parses was printed: the consumed bytes are the head of the texts found, under some layout. */
  lemma ParseThenPrint(s: seq<Byte>, max: nat) returns (lay: Layout)
    requires Parse(s, max).Got?
    ensures var (req, n) := Parse(s, max).value; var m := MessageOf(s, req);
            IsMessage(m, lay) && |m.fields| <= max && s[..n] == Head(m, lay)
  {
    hide At, AllToken, AllTarget, AllSpaces, IsField, VersionLine, VerbAndTarget;
    hide Headers, TextOf, FieldsOf, Lines, VersionText;
    var (req, n) := Parse(s, max).value;
    var start := LeadingLine(s).value;
    var lead := if s[0] == CR then Some(true) else if s[0] == LF then Some(false) else None;
    assert At(s, 0, Lead(lead)) && start == |Lead(lead)| by {
      LeadReads(s);
    }
    var version := VerbAndTarget(s, start).value.2;
    var h := VersionLine(s, version).value.1;
    var verb, gap1, target, gap2 := RequestTextReads(s, start);
    var crlf := VersionReads(s, version);
    var fields, lays, lastCrlf := LinesRead(s, h, [], max);
    lay := Layout(lead, gap1, gap2, crlf, lays, lastCrlf);
    var m := MessageOf(s, req);
    assert FieldsOf(s, []) + fields == fields;
    assert m == Message(verb, target, req.minor, fields);
    AtConcat(s, version, VersionText(m.minor, crlf), Lines(fields, lays, lastCrlf));
    AtConcat(s, start, RequestText(m, lay), VersionText(m.minor, crlf) + Lines(fields, lays, lastCrlf));
    AtConcat(s, 0, Lead(lead), RequestText(m, lay) + (VersionText(m.minor, crlf) + Lines(fields, lays, lastCrlf)));
    AtStart(s, Head(m, lay));
  }

  lemma LeadReads(s: seq<Byte>)
    requires LeadingLine(s).Got?
    ensures var lead := if s[0] == CR then Some(true) else if s[0] == LF then Some(false) else None;
            At(s, 0, Lead(lead)) && LeadingLine(s).value == |Lead(lead)|
  {
    AtEol(s, 0, true);
    AtEol(s, 0, false);
  }

  lemma AtStart(s: seq<Byte>, w: seq<Byte>)
    requires At(s, 0, w)
    ensures |w| <= |s| && s[..|w|] == w
  {
  }

  /** The parser accepts exactly the grammar: it finds head length `n` and message `m` if and only if the input starts
      with a printing of `m`, under some layout, that is `n` bytes long. */
  lemma ParserDecidesGrammar(s: seq<Byte>, max: nat, m: Message, n: nat)
    ensures var r := Parse(s, max);
            r.Got? && r.value.1 == n && MessageOf(s, r.value.0) == m
            <==> |m.fields| <= max && exists lay :: IsMessage(m, lay) && n == |Head(m, lay)| && Head(m, lay) <= s
  {
    hide Parse, Head, MessageOf, AllToken, AllTarget, AllSpaces, IsField;
    var r := Parse(s, max);
    if r.Got? && r.value.1 == n && MessageOf(s, r.value.0) == m {
      var lay := ParseThenPrint(s, max);
    }
    forall lay | |m.fields| <= max && IsMessage(m, lay) && n == |Head(m, lay)| && Head(m, lay) <= s
      ensures r.Got? && r.value.1 == n && MessageOf(s, r.value.0) == m
    {
      PrintThenParse(m, lay, s[n..], max);
      assert s == Head(m, lay) + s[n..];
    }
  }
}
