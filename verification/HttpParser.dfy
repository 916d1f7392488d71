/** The parser as the C code runs it: a cursor over the received bytes, loops with early exits, and header slots
    filled in place. Every method is proved to compute the grammar function of the same construct. */
module HttpParser {
  import opened Bytes
  import opened HttpStream
  import opened HttpSyntax
  import opened Options

  method ParseToken(s: seq<Byte>, start: nat, stop: Byte) returns (r: Step<nat>)
    requires start <= |s|
    ensures r == ScanToken(s, start, stop)
  {
    var i := start;
    if i == |s| {
      return Incomplete;
    }
    while s[i] != stop
      invariant start <= i < |s| && ScanToken(s, start, stop) == ScanToken(s, i, stop)
      decreases |s| - i
    {
      if !IsTokenByte(s[i]) {
        return Malformed;
      }
      i := i + 1;
      if i == |s| {
        return Incomplete;
      }
    }
    return Got(i);
  }

  method AdvanceToken(s: seq<Byte>, start: nat) returns (r: Step<nat>)
    requires start <= |s|
    ensures r == ScanTarget(s, start)
  {
    var i := start;
    if i == |s| {
      return Incomplete;
    }
    while s[i] != SP
      invariant start <= i < |s| && ScanTarget(s, start) == ScanTarget(s, i)
      decreases |s| - i
    {
      if !IsPrintable(s[i]) {
        if s[i] < 32 || s[i] == DEL {
          return Malformed;
        }
      }
      i := i + 1;
      if i == |s| {
        return Incomplete;
      }
    }
    return Got(i);
  }

  // From a space: step over it and every further space.
  method PassSpaces(s: seq<Byte>, start: nat) returns (r: Step<nat>)
    requires start < |s|
    ensures r == SkipSpaces(s, start + 1)
  {
    var i := start + 1;
    while i < |s| && s[i] == SP
      invariant start < i <= |s| && SkipSpaces(s, start + 1) == SkipSpaces(s, i)
    {
      i := i + 1;
    }
    return if i == |s| then Incomplete else Got(i);
  }

  method PassBlanks(s: seq<Byte>, start: nat) returns (r: Step<nat>)
    requires start <= |s|
    ensures r == SkipBlanks(s, start)
  {
    var i := start;
    while i < |s| && IsBlank(s[i])
      invariant start <= i <= |s| && SkipBlanks(s, start) == SkipBlanks(s, i)
    {
      i := i + 1;
    }
    return if i == |s| then Incomplete else Got(i);
  }

  // The value scan tests eight bytes per round for printability and classifies a byte only when it is not printable;
  // fewer than eight remaining bytes are scanned one by one.
  method ScanToEol(s: seq<Byte>, start: nat) returns (r: Step<nat>)
    requires start <= |s|
    ensures r == ScanValue(s, start)
  {
    var i := start;
    while |s| - i >= 8
      invariant start <= i <= |s| && ScanValue(s, start) == ScanValue(s, i)
    {
      var k, end := 0, i + 8;
      while k < 8 && IsPrintable(s[i])
        invariant 0 <= k <= 8 && start <= i && i + 8 - k == end <= |s|
        invariant ScanValue(s, start) == ScanValue(s, i)
      {
        i := i + 1;
        k := k + 1;
      }
      if k < 8 {
        if (s[i] < 32 && s[i] != HT) || s[i] == DEL {
          return Got(i);
        }
        i := i + 1;
      }
    }
    while i < |s|
      invariant start <= i <= |s| && ScanValue(s, start) == ScanValue(s, i)
    {
      if !IsPrintable(s[i]) {
        if (s[i] < 32 && s[i] != HT) || s[i] == DEL {
          return Got(i);
        }
      }
      i := i + 1;
    }
    return Incomplete;
  }

  method GetTokenToEol(s: seq<Byte>, start: nat) returns (r: Step<(nat, nat)>)
    requires start <= |s|
    ensures r == ValueLine(s, start)
  {
    var found := ScanToEol(s, start);
    if !found.Got? {
      return found.PropagateFailure<(nat, nat)>();
    }
    var i := found.value;
    if s[i] == CR {
      i := i + 1;
      if i == |s| {
        return Incomplete;
      }
      if s[i] != LF {
        return Malformed;
      }
      return Got((i - 1, i + 1));
    } else if s[i] == LF {
      return Got((i, i + 1));
    } else {
      return Malformed;
    }
  }

  method ParseHttpVersion(s: seq<Byte>, start: nat) returns (r: Step<(nat, nat)>)
    requires start <= |s|
    ensures r == Version(s, start)
  {
    if |s| - start < 9 {
      return Incomplete;
    }
    var k := 0;
    while k < 7
      invariant 0 <= k <= 7 && forall j | 0 <= j < k :: s[start..start + 7][j] == HTTP_1[j]
    {
      if s[start + k] != HTTP_1[k] {
        assert s[start..start + 7][k] == s[start + k];
        return Malformed;
      }
      k := k + 1;
    }
    assert s[start..start + 7] == HTTP_1;
    var digit := s[start + 7];
    if digit < 48 || 57 < digit {
      return Malformed;
    }
    return Got((digit - 48, start + 8));
  }

  method TrimValue(s: seq<Byte>, lo: nat, hi: nat) returns (end: nat)
    requires lo <= hi <= |s|
    ensures end == TrimEnd(s, lo, hi)
  {
    end := hi;
    while end != lo && IsBlank(s[end - 1])
      invariant lo <= end <= hi && TrimEnd(s, lo, hi) == TrimEnd(s, lo, end)
    {
      end := end - 1;
    }
  }

  method ParseHeaderLine(s: seq<Byte>, start: nat, first: bool) returns (r: Step<(HeaderField, nat)>)
    requires start < |s|
    ensures r == HeaderLine(s, start, first)
  {
    var i, name := start, None;
    if first || !IsBlank(s[i]) {
      var colon := ParseToken(s, i, COLON);
      if !colon.Got? {
        return colon.PropagateFailure<(HeaderField, nat)>();
      }
      if colon.value == i {
        return Malformed;
      }
      name := Some(Slice(i, colon.value - i));
      var v := PassBlanks(s, colon.value + 1);
      if !v.Got? {
        return v.PropagateFailure<(HeaderField, nat)>();
      }
      i := v.value;
    }
    var line := GetTokenToEol(s, i);
    if !line.Got? {
      return line.PropagateFailure<(HeaderField, nat)>();
    }
    var end := TrimValue(s, i, line.value.0);
    return Got((HeaderField(name, Slice(i, end - i)), line.value.1));
  }

  // Fills the header slots; `num` is the number filled.
  method ParseHeaders(s: seq<Byte>, start: nat, headers: array<HeaderField>) returns (r: Step<nat>, num: nat)
    requires start <= |s|
    modifies headers
    ensures num <= headers.Length
    ensures match Headers(s, start, [], headers.Length)
            case Got((fields, next)) => r == Got(next) && headers[..num] == fields
            case Malformed => r == Malformed
            case Incomplete => r == Incomplete
  {
    var i := start;
    num := 0;
    ghost var want := Headers(s, start, [], headers.Length);
    while true
      invariant start <= i <= |s| && num <= headers.Length
      invariant want == Headers(s, i, headers[..num], headers.Length)
      decreases |s| - i
    {
      if i == |s| {
        return Incomplete, num;
      }
      if s[i] == CR {
        i := i + 1;
        if i == |s| {
          return Incomplete, num;
        }
        if s[i] != LF {
          return Malformed, num;
        }
        return Got(i + 1), num;
      } else if s[i] == LF {
        return Got(i + 1), num;
      }
      if num == headers.Length {
        return Malformed, num;
      }
      var line := ParseHeaderLine(s, i, num == 0);
      if !line.Got? {
        return line.PropagateFailure<nat>(), num;
      }
      headers[num] := line.value.0;
      assert headers[..num + 1] == headers[..num] + [line.value.0];
      i, num := line.value.1, num + 1;
    }
  }

  method ParseVerbAndTarget(s: seq<Byte>, start: nat) returns (r: Step<(Slice, Slice, nat)>)
    requires start <= |s|
    ensures r == VerbAndTarget(s, start)
  {
    var verbEnd := ParseToken(s, start, SP);
    if !verbEnd.Got? {
      return verbEnd.PropagateFailure<(Slice, Slice, nat)>();
    }
    var path := PassSpaces(s, verbEnd.value);
    if !path.Got? {
      return path.PropagateFailure<(Slice, Slice, nat)>();
    }
    var pathEnd := AdvanceToken(s, path.value);
    if !pathEnd.Got? {
      return pathEnd.PropagateFailure<(Slice, Slice, nat)>();
    }
    var version := PassSpaces(s, pathEnd.value);
    if !version.Got? {
      return version.PropagateFailure<(Slice, Slice, nat)>();
    }
    var verbLen, pathLen := verbEnd.value - start, pathEnd.value - path.value;
    if verbLen == 0 || pathLen == 0 {
      return Malformed;
    }
    return Got((Slice(start, verbLen), Slice(path.value, pathLen), version.value));
  }

  method ParseVersionLine(s: seq<Byte>, start: nat) returns (r: Step<(nat, nat)>)
    requires start <= |s|
    ensures r == VersionLine(s, start)
  {
    var version := ParseHttpVersion(s, start);
    if !version.Got? {
      return version;
    }
    var i := version.value.1;
    if s[i] == CR {
      i := i + 1;
      if i == |s| {
        return Incomplete;
      }
      if s[i] != LF {
        return Malformed;
      }
      return Got((version.value.0, i + 1));
    } else if s[i] == LF {
      return Got((version.value.0, i + 1));
    } else {
      return Malformed;
    }
  }

  method ParseRequest(s: seq<Byte>, headers: array<HeaderField>)
    returns (r: Step<nat>, verb: Slice, path: Slice, minor: nat, num: nat)
    modifies headers
    ensures num <= headers.Length
    ensures match Parse(s, headers.Length)
            case Got((req, next)) => r == Got(next) && req == Request(verb, path, minor, headers[..num])
            case Malformed => r == Malformed
            case Incomplete => r == Incomplete
  {
    verb, path, minor, num := Slice(0, 0), Slice(0, 0), 0, 0;
    if |s| == 0 {
      r := Incomplete;
      return;
    }
    var i := 0;
    if s[0] == CR {
      i := 1;
      if i == |s| {
        r := Incomplete;
        return;
      }
      if s[i] != LF {
        r := Malformed;
        return;
      }
      i := 2;
    } else if s[0] == LF {
      i := 1;
    }
    assert LeadingLine(s) == Got(i);
    var line := ParseVerbAndTarget(s, i);
    if !line.Got? {
      r := line.PropagateFailure<nat>();
      return;
    }
    verb, path := line.value.0, line.value.1;
    var version := ParseVersionLine(s, line.value.2);
    if !version.Got? {
      r := version.PropagateFailure<nat>();
      return;
    }
    minor := version.value.0;
    r, num := ParseHeaders(s, version.value.1, headers);
  }

  method IsComplete(s: seq<Byte>, lastLen: nat) returns (r: Step<nat>)
    requires lastLen <= |s|
    ensures r == BlankLine(s, if lastLen < 3 then 0 else lastLen - 3, 0)
  {
    var count := 0;
    var i := if lastLen < 3 then 0 else lastLen - 3;
    while true
      invariant i <= |s| && 0 <= count < 2
      invariant BlankLine(s, RestartAt(lastLen), 0) == BlankLine(s, i, count)
      decreases |s| - i
    {
      if i == |s| {
        return Incomplete;
      }
      if s[i] == CR {
        i := i + 1;
        if i == |s| {
          return Incomplete;
        }
        if s[i] != LF {
          return Malformed;
        }
        i := i + 1;
        count := count + 1;
      } else if s[i] == LF {
        i := i + 1;
        count := count + 1;
      } else {
        i := i + 1;
        count := 0;
      }
      if count == 2 {
        return Got(i);
      }
    }
  }

  /** The length of the head, -1 for an error or -2 for more bytes; the fields are set only with a length. */
  method PhrParseRequest(buf: array<Byte>, len: nat, headers: array<HeaderField>, lastLen: nat)
    returns (pret: int, verb: Slice, path: Slice, minor: nat, num: nat)
    requires lastLen <= len <= buf.Length
    modifies headers
    ensures num <= headers.Length
    ensures var r := Call(buf[..len], headers.Length, lastLen);
            pret == Pret(r) && (r.Got? ==> r.value.0 == Request(verb, path, minor, headers[..num]))
  {
    hide BlankLine, Parse;
    var s := buf[..len];
    verb, path, minor, num := Slice(0, 0), Slice(0, 0), 0, 0;
    if lastLen != 0 {
      var complete := IsComplete(s, lastLen);
      if !complete.Got? {
        pret := if complete.Malformed? then -1 else -2;
        return;
      }
    }
    var r;
    r, verb, path, minor, num := ParseRequest(s, headers);
    pret := match r case Got(n) => n case Malformed => -1 case Incomplete => -2;
  }

  // The peer: the chunks it has still to deliver. An empty read is its end of file.
  class Connection {
    var pending: seq<seq<Byte>>

    constructor (chunks: seq<seq<Byte>>)
      ensures pending == chunks
    {
      pending := chunks;
    }

    /** One read: the next bytes of what is still to come, no more than there is room for; nothing only at the end of
        file or without room. */
    method Read(room: nat) returns (bytes: seq<Byte>)
      modifies this
      ensures |bytes| <= room && bytes + Flatten(pending) == old(Flatten(pending))
      ensures old(NonEmptyChunks(pending)) ==>
                NonEmptyChunks(pending) && (bytes == [] <==> old(pending) == [] || room == 0)
      ensures (bytes, pending) == Receive(old(pending), room)
    {
      ghost var before := pending;
      if pending == [] || room == 0 {
        bytes := [];
      } else if |pending[0]| <= room {
        bytes, pending := pending[0], pending[1..];
      } else {
        bytes := pending[0][..room];
        pending := [pending[0][room..]] + pending[1..];
      }
      assert (bytes, pending) == Receive(before, room);
    }
  }

  const REQ_BUFFER_SIZE := 4096
  const MAX_HEADERS := 100

  // The fields of a call that succeeded are those the specification finds.
  lemma PretSuccess(s: seq<Byte>, max: nat, lastLen: nat, pret: int)
    requires lastLen <= |s| && pret == Pret(Call(s, max, lastLen))
    ensures pret > 0 <==> Call(s, max, lastLen).Got?
    ensures pret == -1 <==> Call(s, max, lastLen).Malformed?
    ensures pret == -2 <==> Call(s, max, lastLen).Incomplete?
    ensures pret > 0 ==> Call(s, max, lastLen).value.1 == pret
  {
  }

  // One round of the loop: what has been received in front of `bytes`, and what is still to come behind them.
  lemma RunStep(pending: seq<seq<Byte>>, before: seq<Byte>, bytes: seq<Byte>, rest: seq<seq<Byte>>, size: nat, max: nat)
    requires |before| <= size && Receive(pending, size - |before|) == (bytes, rest)
    ensures bytes == [] ==> Run(pending, before, size, max) == IoError
    ensures var s := before + bytes; var r := Call(s, max, |before|); var pret := Pret(r);
            bytes != [] ==>
              Run(pending, before, size, max) ==
                if pret > 0 then Parsed(r.value.0, pret, s)
                else if pret == -1 then ParseError
                else if pret == -2 then Run(rest, s, size, max)
                else if |s| == size then TooLong
                else Run(rest, s, size, max)
  {
    hide Call;
    PretSuccess(before + bytes, max, |before|, Pret(Call(before + bytes, max, |before|)));
  }

  /** The read loop over a buffer of 4096 bytes with room for 100 headers; by `StreamingEqualsOneShot` its success does
      not depend on the chunks, and by `ReceivedIs` it holds all that was read. */
  method ReadAndParse(conn: Connection) returns (outcome: Outcome)
    modifies conn
    ensures outcome == Run(old(conn.pending), [], 4096, 100)
  {
    hide Run, Call, Receive;
    var buf := new Byte[REQ_BUFFER_SIZE](_ => 0);
    var headers := new HeaderField[MAX_HEADERS](_ => HeaderField(None, Slice(0, 0)));
    var buflen := 0;
    ghost var want := Run(conn.pending, [], REQ_BUFFER_SIZE, MAX_HEADERS);
    assert buf[..buflen] == [];
    while true
      invariant buflen <= REQ_BUFFER_SIZE
      invariant want == Run(conn.pending, buf[..buflen], REQ_BUFFER_SIZE, MAX_HEADERS)
      decreases REQ_BUFFER_SIZE - buflen
    {
      ghost var before, coming := buf[..buflen], conn.pending;
      var bytes := conn.Read(REQ_BUFFER_SIZE - buflen);
      RunStep(coming, before, bytes, conn.pending, REQ_BUFFER_SIZE, MAX_HEADERS);
      if |bytes| == 0 {
        return IoError;
      }
      var prev := buflen;
      buflen := buflen + |bytes|;
      forall k | 0 <= k < |bytes| {
        buf[prev + k] := bytes[k];
      }
      assert buf[..buflen] == before + bytes;
      var pret, verb, path, minor, num := PhrParseRequest(buf, buflen, headers, prev);
      PretSuccess(buf[..buflen], MAX_HEADERS, prev, pret);
      if pret > 0 {
        return Parsed(Request(verb, path, minor, headers[..num]), pret, buf[..buflen]);
      }
      if pret == -1 {
        return ParseError;
      }
      if pret == -2 {
        continue;
      }
      // no call returns anything else, so this test is never reached
      if buflen == REQ_BUFFER_SIZE {
        return TooLong;
      }
    }
  }
}
