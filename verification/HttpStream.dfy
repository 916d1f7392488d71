/** The read loop: bytes arrive in chunks, and every call but the first is guarded by a scan for the blank line
    that restarts three bytes before the new data. */
module HttpStream {
  import opened Bytes
  import opened HttpPrefix
  import opened HttpSyntax

  // Scans for two line ends in a row; yields the position behind them.
  function BlankLine(s: seq<Byte>, i: nat, count: nat): (r: Step<nat>)
    requires i <= |s| && count < 2
    ensures r.Got? ==> i < r.value <= |s|
    decreases |s| - i
  {
    if i == |s| then Incomplete
    else if s[i] == CR then
      var next :- ExpectLf(s, i + 1);
      if count == 1 then Got(next) else BlankLine(s, next, count + 1)
    else if s[i] == LF then
      if count == 1 then Got(i + 1) else BlankLine(s, i + 1, count + 1)
    else BlankLine(s, i + 1, 0)
  }

  function RestartAt(lastLen: nat): nat {
    if lastLen < 3 then 0 else lastLen - 3
  }

  // One call of the parser: `lastLen` bytes were there at the previous call, 0 for the first one.
  function Call(s: seq<Byte>, max: nat, lastLen: nat): Step<(Request, nat)>
    requires lastLen <= |s|
  {
    if lastLen == 0 then Parse(s, max)
    else
      var _ :- BlankLine(s, RestartAt(lastLen), 0);
      Parse(s, max)
  }

  datatype Outcome = Parsed(req: Request, head: nat, received: seq<Byte>) | ParseError | IoError | TooLong

  // One read: at most `room` bytes of the next chunk; nothing means end of file.
  function Receive(pending: seq<seq<Byte>>, room: nat): (r: (seq<Byte>, seq<seq<Byte>>))
    ensures |r.0| <= room && r.0 + Flatten(r.1) == Flatten(pending)
    ensures NonEmptyChunks(pending) ==> NonEmptyChunks(r.1) && (r.0 == [] <==> pending == [] || room == 0)
  {
    if pending == [] || room == 0 then ([], pending)
    else if |pending[0]| <= room then (pending[0], pending[1..])
    else
      var rest := [pending[0][room..]] + pending[1..];
      assert rest[1..] == pending[1..] && pending[0] == pending[0][..room] + pending[0][room..];
      (pending[0][..room], rest)
  }

  function Flatten(chunks: seq<seq<Byte>>): seq<Byte> {
    if chunks == [] then [] else chunks[0] + Flatten(chunks[1..])
  }

  predicate NonEmptyChunks(chunks: seq<seq<Byte>>) {
    forall k | 0 <= k < |chunks| :: chunks[k] != []
  }

  // The int that the C call returns.
  function Pret(r: Step<(Request, nat)>): int {
    match r
    case Got((_, n)) => n
    case Malformed => -1
    case Incomplete => -2
  }

  // What the read loop does with the chunks still to come when `buf` has been received.
  function Run(pending: seq<seq<Byte>>, buf: seq<Byte>, size: nat, max: nat): Outcome
    requires |buf| <= size
    decreases size - |buf|
  {
    var (got, rest) := Receive(pending, size - |buf|);
    if got == [] then IoError
    else
      var buf' := buf + got;
      var r := Call(buf', max, |buf|);
      var pret := Pret(r);
      if pret > 0 then Parsed(r.value.0, pret, buf')
      else if pret == -1 then ParseError
      else if pret == -2 then Run(rest, buf', size, max)
      else if |buf'| == size then TooLong
      else Run(rest, buf', size, max)
  }

  // The bytes that can ever reach the buffer.
  function Visible(all: seq<Byte>, size: nat): seq<Byte> {
    if |all| <= size then all else all[..size]
  }

  // ---------- what a successful head looks like ----------

  // Every CR in [lo, hi) is followed by an LF in [lo, hi).
  predicate NoBareCr(s: seq<Byte>, lo: nat, hi: nat)
    requires hi <= |s|
  {
    forall j | lo <= j < hi :: s[j] == CR ==> j + 1 < hi && s[j + 1] == LF
  }

  // Two line ends in a row stop at `n`; the first of them has its LF at `BlankAt`.
  predicate EndsBlank(s: seq<Byte>, n: nat) {
    2 <= n <= |s| && s[n - 1] == LF && (s[n - 2] == LF || (3 <= n && s[n - 2] == CR && s[n - 3] == LF))
  }

  function BlankAt(s: seq<Byte>, n: nat): nat
    requires EndsBlank(s, n)
  {
    if s[n - 2] == LF then n - 2 else n - 3
  }

  lemma {:induction false} TokenClean(s: seq<Byte>, i: nat, stop: Byte)
    requires i <= |s| && ScanToken(s, i, stop).Got? && stop != CR
    ensures NoBareCr(s, i, ScanToken(s, i, stop).value + 1)
    decreases |s| - i
  {
    if s[i] != stop {
      TokenClean(s, i + 1, stop);
    }
  }

  lemma {:induction false} TargetClean(s: seq<Byte>, i: nat)
    requires i <= |s| && ScanTarget(s, i).Got?
    ensures NoBareCr(s, i, ScanTarget(s, i).value + 1)
    decreases |s| - i
  {
    if s[i] != SP {
      TargetClean(s, i + 1);
    }
  }

  lemma {:induction false} SpacesClean(s: seq<Byte>, i: nat)
    requires i <= |s| && SkipSpaces(s, i).Got?
    ensures NoBareCr(s, i, SkipSpaces(s, i).value)
    decreases |s| - i
  {
    if s[i] == SP {
      SpacesClean(s, i + 1);
    }
  }

  lemma {:induction false} BlanksClean(s: seq<Byte>, i: nat)
    requires i <= |s| && SkipBlanks(s, i).Got?
    ensures NoBareCr(s, i, SkipBlanks(s, i).value)
    decreases |s| - i
  {
    if IsBlank(s[i]) {
      BlanksClean(s, i + 1);
    }
  }

  lemma {:induction false} ValueClean(s: seq<Byte>, i: nat)
    requires i <= |s| && ScanValue(s, i).Got?
    ensures NoBareCr(s, i, ScanValue(s, i).value)
    decreases |s| - i
  {
    if !EndsValue(s[i]) {
      ValueClean(s, i + 1);
    }
  }

  lemma ValueLineClean(s: seq<Byte>, i: nat)
    requires i <= |s| && ValueLine(s, i).Got?
    ensures NoBareCr(s, i, ValueLine(s, i).value.1)
  {
    ValueClean(s, i);
  }

  lemma HeaderLineClean(s: seq<Byte>, i: nat, first: bool)
    requires i < |s| && HeaderLine(s, i, first).Got?
    ensures NoBareCr(s, i, HeaderLine(s, i, first).value.1)
  {
    if !first && IsBlank(s[i]) {
      ValueLineClean(s, i);
    } else {
      var colon := ScanToken(s, i, COLON).value;
      TokenClean(s, i, COLON);
      BlanksClean(s, colon + 1);
      ValueLineClean(s, SkipBlanks(s, colon + 1).value);
    }
  }

  lemma {:induction false} HeadersClean(s: seq<Byte>, i: nat, done: seq<HeaderField>, max: nat)
    requires 0 < i <= |s| && s[i - 1] == LF && |done| <= max && Headers(s, i, done, max).Got?
    ensures var n := Headers(s, i, done, max).value.1; NoBareCr(s, i, n) && EndsBlank(s, n)
    decreases |s| - i
  {
    hide HeaderLine;
    if s[i] != CR && s[i] != LF {
      HeaderLineClean(s, i, |done| == 0);
      var (field, next) := HeaderLine(s, i, |done| == 0).value;
      HeadersClean(s, next, done + [field], max);
    }
  }

  lemma VerbAndTargetClean(s: seq<Byte>, i: nat)
    requires i <= |s| && VerbAndTarget(s, i).Got?
    ensures NoBareCr(s, i, VerbAndTarget(s, i).value.2)
  {
    var verbEnd := ScanToken(s, i, SP).value;
    TokenClean(s, i, SP);
    SpacesClean(s, verbEnd + 1);
    var path := SkipSpaces(s, verbEnd + 1).value;
    TargetClean(s, path);
    SpacesClean(s, ScanTarget(s, path).value + 1);
  }

  lemma VersionLineClean(s: seq<Byte>, i: nat)
    requires i <= |s| && VersionLine(s, i).Got?
    ensures NoBareCr(s, i, VersionLine(s, i).value.1)
  {
    forall j | i <= j < i + 8
      ensures s[j] != CR
    {
      assert j < i + 7 ==> s[i..i + 7][j - i] == HTTP_1[j - i];
    }
  }

  /** In a head that parses, every CR belongs to a CRLF and the head ends with the blank line. */
  lemma ParsedHead(s: seq<Byte>, max: nat)
    requires Parse(s, max).Got?
    ensures var n := Parse(s, max).value.1; NoBareCr(s, 0, n) && EndsBlank(s, n)
  {
    var start := LeadingLine(s).value;
    var version := VerbAndTarget(s, start).value.2;
    var h := VersionLine(s, version).value.1;
    VerbAndTargetClean(s, start);
    VersionLineClean(s, version);
    HeadersClean(s, h, [], max);
  }

  // ---------- the restart ----------

  /** From any start at or before the first of the two line ends, the scan stops inside the head. */
  lemma {:induction false} ScanFindsBlank(s: seq<Byte>, n: nat, i: nat, count: nat)
    requires EndsBlank(s, n) && NoBareCr(s, 0, n) && count < 2
    requires i <= BlankAt(s, n)
    ensures BlankLine(s, i, count).Got? && BlankLine(s, i, count).value <= n
    decreases n - i
  {
    var q := BlankAt(s, n);
    var next := if s[i] == CR then i + 2 else i + 1;
    var count' := if s[i] == CR || s[i] == LF then count + 1 else 0;
    if count' < 2 {
      if next <= q {
        ScanFindsBlank(s, n, next, count');
      } else {
        assert next == q + 1 && count' == 1;
        assert BlankLine(s, next, 1).Got?;
      }
    }
  }

  /** Before the head is complete the scan can only ask for more. */
  lemma {:induction false} ScanNeverRejects(p: seq<Byte>, s: seq<Byte>, n: nat, i: nat, count: nat)
    requires p <= s && |p| <= n <= |s| && NoBareCr(s, 0, n) && i <= |p| && count < 2
    ensures !BlankLine(p, i, count).Malformed?
    decreases |p| - i
  {
    if i == |p| {
    } else {
      if p[i] == CR {
        if i + 1 < |p| && count == 0 {
          ScanNeverRejects(p, s, n, i + 2, 1);
        }
      } else if p[i] == LF {
        if count == 0 {
          ScanNeverRejects(p, s, n, i + 1, 1);
        }
      } else {
        ScanNeverRejects(p, s, n, i + 1, 0);
      }
    }
  }

  /** A call at a chunk boundary of a stream that parses: -2 before the head is complete, the answer from then on. */
  lemma CallAtBoundary(p: seq<Byte>, s: seq<Byte>, max: nat, lastLen: nat)
    requires p <= s && lastLen <= |p|
    requires Parse(s, max).Got? && lastLen < Parse(s, max).value.1
    ensures |p| < Parse(s, max).value.1 ==> Call(p, max, lastLen) == Incomplete
    ensures Parse(s, max).value.1 <= |p| ==> Call(p, max, lastLen) == Parse(s, max)
  {
    var n := Parse(s, max).value.1;
    ParsedHead(s, max);
    if |p| < n {
      if !Parse(p, max).Incomplete? {
        ParseStable(p, s, max);
        assert false;
      }
      ScanNeverRejects(p, s, n, RestartAt(lastLen), 0);
    } else {
      ParseStable(p, s, max);
      assert EndsBlank(p, n) && NoBareCr(p, 0, n);
      ScanFindsBlank(p, n, RestartAt(lastLen), 0);
    }
  }

  // ---------- streaming equals one-shot ----------

  lemma {:induction false} OneShotImpliesStream(pending: seq<seq<Byte>>, buf: seq<Byte>, size: nat, max: nat)
    requires |buf| <= size && NonEmptyChunks(pending)
    requires var r := Parse(Visible(buf + Flatten(pending), size), max); r.Got? && |buf| < r.value.1
    ensures var r := Parse(Visible(buf + Flatten(pending), size), max).value; var run := Run(pending, buf, size, max);
            run.Parsed? && run.req == r.0 && run.head == r.1
    decreases size - |buf|
  {
    var vis := Visible(buf + Flatten(pending), size);
    var (got, rest) := Receive(pending, size - |buf|);
    var buf' := buf + got;
    assert buf' + Flatten(rest) == buf + Flatten(pending);
    assert got == [] ==> vis == buf;
    CallAtBoundary(buf', vis, max, |buf|);
    if |buf'| < Parse(vis, max).value.1 {
      OneShotImpliesStream(rest, buf', size, max);
    }
  }

  lemma {:induction false} StreamImpliesOneShot(pending: seq<seq<Byte>>, buf: seq<Byte>, size: nat, max: nat)
    requires |buf| <= size
    requires Run(pending, buf, size, max).Parsed?
    ensures var run := Run(pending, buf, size, max); var vis := Visible(buf + Flatten(pending), size);
            Parse(vis, max) == Got((run.req, run.head)) && run.received <= vis && run.head <= |run.received|
    decreases size - |buf|
  {
    hide Parse, BlankLine;
    var vis := Visible(buf + Flatten(pending), size);
    var (got, rest) := Receive(pending, size - |buf|);
    var buf' := buf + got;
    assert buf' + Flatten(rest) == buf + Flatten(pending);
    if Call(buf', max, |buf|).Incomplete? {
      StreamImpliesOneShot(rest, buf', size, max);
    } else {
      ParseStable(buf', vis, max);
    }
  }

  /** However the bytes are cut into chunks, the loop succeeds exactly when one call on all the bytes that fit the
      buffer succeeds, with the same request and the same head length. */
  lemma StreamingEqualsOneShot(chunks: seq<seq<Byte>>, size: nat, max: nat, req: Request, n: nat)
    requires NonEmptyChunks(chunks)
    ensures Parse(Visible(Flatten(chunks), size), max) == Got((req, n))
            <==> var run := Run(chunks, [], size, max); run.Parsed? && run.req == req && run.head == n
  {
    assert [] + Flatten(chunks) == Flatten(chunks);
    if Parse(Visible(Flatten(chunks), size), max) == Got((req, n)) {
      OneShotImpliesStream(chunks, [], size, max);
    }
    if Run(chunks, [], size, max).Parsed? {
      StreamImpliesOneShot(chunks, [], size, max);
    }
  }

  // ---------- what has been received ----------

  lemma FlattenFront(chunks: seq<seq<Byte>>, j: nat)
    requires 0 < j <= |chunks|
    ensures Flatten(chunks[..j]) == chunks[0] + Flatten(chunks[1..][..j - 1])
  {
    assert chunks[..j][1..] == chunks[1..][..j - 1];
  }

  // The last round of a run that succeeds, and the rounds before.
  lemma LastRound(pending: seq<seq<Byte>>, buf: seq<Byte>, size: nat, max: nat)
    requires |buf| <= size && Run(pending, buf, size, max).Parsed?
    requires Call(buf + Receive(pending, size - |buf|).0, max, |buf|).Got?
    ensures pending != []
    ensures Run(pending, buf, size, max).received == Visible(buf + Flatten(pending[..1]), size)
  {
    hide Parse, BlankLine;
    FlattenFront(pending, 1);
    assert Flatten([]) == [] && pending[0] + [] == pending[0];
    assert buf + Receive(pending, size - |buf|).0 == Visible(buf + pending[0], size);
  }

  lemma OtherRound(pending: seq<seq<Byte>>, buf: seq<Byte>, size: nat, max: nat)
    requires |buf| <= size && Run(pending, buf, size, max).Parsed?
    requires !Call(buf + Receive(pending, size - |buf|).0, max, |buf|).Got?
    ensures pending != [] && pending[0] != [] && |buf + pending[0]| <= size
    ensures Receive(pending, size - |buf|) == (pending[0], pending[1..])
    ensures Run(pending[1..], buf + pending[0], size, max) == Run(pending, buf, size, max)
  {
    hide Parse, BlankLine;
  }

  lemma HeadIsBehind(pending: seq<seq<Byte>>, buf: seq<Byte>, size: nat, max: nat)
    requires |buf| <= size && !Parse(buf, max).Got? && Run(pending, buf, size, max).Parsed?
    ensures |buf| < Run(pending, buf, size, max).head
  {
    hide Parse, Run;
    StreamImpliesOneShot(pending, buf, size, max);
    var vis := Visible(buf + Flatten(pending), size);
    assert buf <= vis;
    if Parse(vis, max).value.1 <= |buf| {
      ParseStable(buf, vis, max);
    }
  }

  lemma NoHeadYet(pending: seq<seq<Byte>>, buf: seq<Byte>, size: nat, max: nat)
    requires |buf| <= size && !Parse(buf, max).Got? && Run(pending, buf, size, max).Parsed?
    requires var got := Receive(pending, size - |buf|).0; !Call(buf + got, max, |buf|).Got?
    ensures var got := Receive(pending, size - |buf|).0; !Parse(buf + got, max).Got?
  {
    hide Parse, Call, Run, Receive;
    var (got, rest) := Receive(pending, size - |buf|);
    var p, s := buf + got, Visible(buf + Flatten(pending), size);
    assert p + Flatten(rest) == buf + Flatten(pending);
    StreamImpliesOneShot(pending, buf, size, max);
    HeadIsBehind(pending, buf, size, max);
    CallAtBoundary(p, s, max, |buf|);
    if Parse(p, max).Got? {
      ParseStable(p, s, max);
    }
  }

  /** When the loop succeeds it holds all the bytes of the chunks read so far, as far as they fit, and it has read no
      chunk after the one that completed the head. */
  lemma {:induction false} ReceivedIs(pending: seq<seq<Byte>>, buf: seq<Byte>, size: nat, max: nat) returns (j: nat)
    requires |buf| <= size && !Parse(buf, max).Got?
    requires Run(pending, buf, size, max).Parsed?
    ensures 0 < j <= |pending|
    ensures var run := Run(pending, buf, size, max);
            && run.received == Visible(buf + Flatten(pending[..j]), size)
            && forall i | 0 <= i < j :: |buf + Flatten(pending[..i])| < run.head
    decreases size - |buf|
  {
    hide *;
    HeadIsBehind(pending, buf, size, max);
    FlattenNone(pending, buf);
    if Call(buf + Receive(pending, size - |buf|).0, max, |buf|).Got? {
      j := 1;
      LastRound(pending, buf, size, max);
    } else {
      OtherRound(pending, buf, size, max);
      var buf' := buf + pending[0];
      NoHeadYet(pending, buf, size, max);
      var k := ReceivedIs(pending[1..], buf', size, max);
      j := k + 1;
      forall i | 0 < i <= j
        ensures buf + Flatten(pending[..i]) == buf' + Flatten(pending[1..][..i - 1])
      {
        FlattenFront(pending, i);
      }
    }
  }

  lemma FlattenNone(pending: seq<seq<Byte>>, buf: seq<Byte>)
    ensures buf + Flatten(pending[..0]) == buf
  {
  }
}
