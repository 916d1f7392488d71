/** How the read loop fails: for which bytes the failure does not depend on how they were cut into chunks. */
module HttpFailure {
  import opened Bytes
  import opened HttpPrefix
  import opened HttpStream
  import opened HttpSyntax

  /** A rejected stream cannot be rescued: no continuation of it parses. */
  lemma {:induction false} RejectionIsFinal(pending: seq<seq<Byte>>, buf: seq<Byte>, size: nat, max: nat,
                                            more: seq<Byte>)
    requires |buf| <= size && !Parse(buf, max).Got?
    requires Run(pending, buf, size, max) == ParseError
    ensures !Parse(Visible(buf + Flatten(pending), size) + more, max).Got?
    decreases size - |buf|
  {
    var vis := Visible(buf + Flatten(pending), size);
    var s := vis + more;
    var (got, rest) := Receive(pending, size - |buf|);
    var buf' := buf + got;
    assert buf' + Flatten(rest) == buf + Flatten(pending);
    if Parse(s, max).Got? {
      if Parse(s, max).value.1 <= |buf| {
        ParseStable(buf, s, max);
        assert false;
      }
      CallAtBoundary(buf', s, max, |buf|);
      if Parse(buf', max).Got? {
        ParseStable(buf', s, max);
        assert false;
      }
      RejectionIsFinal(rest, buf', size, max, more);
      assert false;
    }
  }

  /** The error code is not determined by the bytes: "G" and then a control byte is a parse error when both come
      together and an end of file when they come apart, since the guard hides the control byte from the parser. */
  lemma ErrorDependsOnChunks(size: nat, max: nat)
    requires 2 <= size
    ensures Run([[71, 1]], [], size, max) == ParseError
    ensures Run([[71], [1]], [], size, max) == IoError
  {
    var whole: seq<Byte>, first: seq<Byte>, second: seq<Byte> := [71, 1], [71], [1];
    assert whole[0] == first[0] == 71 && whole[1] == second[0] == 1;
    assert [] + whole == whole && [] + first == first && first + second == whole;
    assert ScanToken(whole, 0, SP) == ScanToken(whole, 1, SP) == Malformed;
    assert Call(whole, max, 0) == Malformed;
    assert ScanToken(first, 0, SP) == ScanToken(first, 1, SP) == Incomplete;
    assert Call(first, max, 0) == Incomplete;
    assert BlankLine(whole, 0, 0) == BlankLine(whole, 1, 0) == BlankLine(whole, 2, 0) == Incomplete;
    assert Call(whole, max, 1) == Incomplete;
    assert Receive([whole], size) == (whole, []);
    assert [first, second][1..] == [second];
    assert Receive([first, second], size) == (first, [second]);
    assert Receive([second], size - 1) == (second, []);
    assert Run([], whole, size, max) == IoError;
    assert Run([second], first, size, max) == IoError;
    assert Run([first, second], [], size, max) == Run([second], first, size, max);
  }

  // A call that succeeds has consumed something.
  lemma PretIs(s: seq<Byte>, max: nat, lastLen: nat)
    requires lastLen <= |s|
    ensures var pret := Pret(Call(s, max, lastLen)); 0 < pret <= |s| || pret == -1 || pret == -2
  {
  }

  /** The loop never reports that a request is too long: the test on the buffer's length stands behind a test for every
      value a call can return. A full buffer reads zero bytes instead, which is an end of file. */
  lemma {:induction false} NeverTooLong(pending: seq<seq<Byte>>, buf: seq<Byte>, size: nat, max: nat)
    requires |buf| <= size
    ensures !Run(pending, buf, size, max).TooLong?
    ensures |buf| == size ==> Run(pending, buf, size, max) == IoError
    decreases size - |buf|
  {
    var (got, rest) := Receive(pending, size - |buf|);
    if got != [] {
      hide Call;
      PretIs(buf + got, max, |buf|);
      NeverTooLong(rest, buf + got, size, max);
    }
  }

  // ---------- the guard ----------

  lemma {:induction false} BlankStable(p: seq<Byte>, s: seq<Byte>, i: nat, count: nat)
    requires p <= s && i <= |p| && count < 2 && !BlankLine(p, i, count).Incomplete?
    ensures BlankLine(s, i, count) == BlankLine(p, i, count)
    decreases |p| - i
  {
    if p[i] == CR {
      if count == 0 && p[i + 1] == LF {
        BlankStable(p, s, i + 2, 1);
      }
    } else if p[i] == LF {
      if count == 0 {
        BlankStable(p, s, i + 1, 1);
      }
    } else {
      BlankStable(p, s, i + 1, 0);
    }
  }

  // If the scan comes to an end from `j`, it does so from every earlier start.
  lemma {:induction false} EarlierStops(s: seq<Byte>, i: nat, count: nat, j: nat)
    requires i <= j <= |s| && count < 2 && !BlankLine(s, j, 0).Incomplete?
    ensures !BlankLine(s, i, count).Incomplete?
    decreases j - i
  {
    if i == j {
    } else {
      if s[i] == CR {
        if count == 0 && s[i + 1] == LF {
          if i + 2 <= j {
            EarlierStops(s, i + 2, 1, j);
          } else {
            assert BlankLine(s, j, 0) == BlankLine(s, i + 2, 1);
          }
        }
      } else if s[i] == LF {
        if count == 0 {
          EarlierStops(s, i + 1, 1, j);
        }
      } else {
        EarlierStops(s, i + 1, 0, j);
      }
    }
  }

  // A scan that runs out of the first `b` bytes but not of all of them still comes to an end when it restarts three
  // bytes before `b`. With one line end counted, that one starts at `start`.
  lemma {:induction false} StillStops(s: seq<Byte>, b: nat, i: nat, count: nat, start: nat)
    requires i <= b <= |s| && count < 2
    requires !BlankLine(s, i, count).Incomplete? && BlankLine(s[..b], i, count).Incomplete?
    requires count == 1 ==> start < i <= start + 2 && BlankLine(s, start, 0) == BlankLine(s, i, 1)
    ensures !BlankLine(s, RestartAt(b), 0).Incomplete?
    decreases b - i
  {
    var p := s[..b];
    if i == b || (s[i] == CR && i + 1 == b) {
      EarlierStops(s, RestartAt(b), 0, if count == 1 then start else i);
    } else if s[i] == CR {
      assert p[i] == CR && p[i + 1] == LF && count == 0;
      StillStops(s, b, i + 2, 1, i);
    } else if s[i] == LF {
      assert p[i] == LF && count == 0;
      StillStops(s, b, i + 1, 1, i);
    } else {
      assert p[i] == s[i];
      StillStops(s, b, i + 1, 0, 0);
    }
  }

  // ---------- all cuts of the same bytes ----------

  ghost predicate IsCut(chunks: seq<seq<Byte>>, all: seq<Byte>) {
    NonEmptyChunks(chunks) && Flatten(chunks) == all
  }

  // The least number of bytes that the parser rejects, for bytes whose first `n` it rejects.
  ghost function FirstBad(v: seq<Byte>, max: nat, n: nat): (k: nat)
    requires n <= |v| && Parse(v[..n], max).Malformed?
    ensures 0 < k <= n && Parse(v[..k], max).Malformed? && Parse(v[..k - 1], max).Incomplete?
  {
    if Parse(v[..n - 1], max).Malformed? then FirstBad(v, max, n - 1)
    else
      assert !Parse(v[..n - 1], max).Got? by {
        if Parse(v[..n - 1], max).Got? {
          ParseStable(v[..n - 1], v[..n], max);
        }
      }
      n
  }

  // The parser on a prefix of bytes it does not accept.
  lemma PrefixFails(v: seq<Byte>, max: nat, n: nat)
    requires !Parse(v, max).Got? && n <= |v|
    ensures !Parse(v[..n], max).Got? && (Parse(v[..n], max).Malformed? ==> Parse(v, max).Malformed?)
  {
    if !Parse(v[..n], max).Incomplete? {
      ParseStable(v[..n], v, max);
    }
  }

  // From the least rejected length on, every prefix is rejected.
  lemma RejectedFrom(v: seq<Byte>, max: nat, k: nat, n: nat)
    requires k <= n <= |v| && Parse(v[..k], max).Malformed?
    ensures Parse(v[..n], max).Malformed?
  {
    assert v[..n][..k] == v[..k];
    ParseStable(v[..k], v[..n], max);
  }

  // A scan from the last restart before the rejected byte that comes to an end leaves no way past the rejection.
  lemma {:induction false} AlwaysRejected(pending: seq<seq<Byte>>, buf: seq<Byte>, size: nat, max: nat, k: nat)
    requires |buf| <= size && NonEmptyChunks(pending)
    requires var v := Visible(buf + Flatten(pending), size);
             && 0 < |buf| < |v| && 0 < k <= |v| && Parse(v[..k], max).Malformed? && Parse(v[..k - 1], max).Incomplete?
             && !BlankLine(v, RestartAt(|buf|), 0).Incomplete? && !BlankLine(v, RestartAt(k - 1), 0).Incomplete?
    ensures Run(pending, buf, size, max) == ParseError
    decreases size - |buf|
  {
    hide Parse, BlankLine;
    var v := Visible(buf + Flatten(pending), size);
    var (got, rest) := Receive(pending, size - |buf|);
    var buf' := buf + got;
    assert buf' + Flatten(rest) == buf + Flatten(pending);
    assert got != [] && v[..|buf'|] == buf';
    RejectedFrom(v, max, k, |v|);
    assert v[..|v|] == v;
    PrefixFails(v, max, |buf'|);
    var scan := BlankLine(buf', RestartAt(|buf|), 0);
    if scan.Incomplete? {
      assert buf' != v;
      StillStops(v, |buf'|, RestartAt(|buf|), 0, 0);
      AlwaysRejected(rest, buf', size, max, k);
    } else if scan.Got? && !Parse(buf', max).Malformed? {
      if k <= |buf'| {
        RejectedFrom(v, max, k, |buf'|);
      }
      EarlierStops(v, RestartAt(|buf'|), 0, RestartAt(k - 1));
      AlwaysRejected(rest, buf', size, max, k);
    }
  }

  lemma {:induction false} NeverRejected(pending: seq<seq<Byte>>, buf: seq<Byte>, size: nat, max: nat)
    requires |buf| <= size && NonEmptyChunks(pending)
    requires var v := Visible(buf + Flatten(pending), size);
             Parse(v, max).Incomplete? && forall b | 0 < b < |v| :: !BlankLine(v, RestartAt(b), 0).Malformed?
    ensures Run(pending, buf, size, max) == IoError
    decreases size - |buf|
  {
    hide Parse, BlankLine;
    var v := Visible(buf + Flatten(pending), size);
    var (got, rest) := Receive(pending, size - |buf|);
    var buf' := buf + got;
    assert buf' + Flatten(rest) == buf + Flatten(pending);
    if got != [] {
      assert v[..|buf'|] == buf';
      PrefixFails(v, max, |buf'|);
      if |buf| > 0 && BlankLine(buf', RestartAt(|buf|), 0).Malformed? {
        BlankStable(buf', v, RestartAt(|buf|), 0);
      }
      NeverRejected(rest, buf', size, max);
    }
  }

  lemma NothingYet(max: nat)
    ensures Parse([], max).Incomplete?
  {
  }

  // One chunk, and a cut behind byte `b`.
  lemma OneChunk(all: seq<Byte>, size: nat, max: nat)
    requires all != [] && !Parse(Visible(all, size), max).Got?
    ensures IsCut([all], all)
    ensures Run([all], [], size, max) == if Parse(Visible(all, size), max).Malformed? then ParseError else IoError
  {
    hide Parse;
    var v := Visible(all, size);
    assert Flatten([all]) == all + Flatten([]) == all;
    var (got, rest) := Receive([all], size);
    assert [] + got == v;
    NothingYet(max);
    if size > 0 && Parse(v, max).Incomplete? {
      assert Run([all], [], size, max) == Run(rest, v, size, max);
    }
  }

  lemma TwoChunks(all: seq<Byte>, b: nat, size: nat, max: nat)
    requires var v := Visible(all, size); 0 < b < |v| && !Parse(v, max).Got? && Parse(v[..b], max).Incomplete?
    ensures IsCut([all[..b], all[b..]], all)
    ensures var v := Visible(all, size); var scan := BlankLine(v, RestartAt(b), 0);
            Run([all[..b], all[b..]], [], size, max)
            == if scan.Malformed? || (scan.Got? && Parse(v, max).Malformed?) then ParseError else IoError
  {
    hide Parse, BlankLine;
    var v := Visible(all, size);
    var first, second := all[..b], all[b..];
    assert [first, second][1..] == [second] && Flatten([second]) == second + Flatten([]) == second;
    assert all == first + second && v[..b] == first;
    assert Receive([first, second], size) == (first, [second]) && [] + first == first;
    assert Run([first, second], [], size, max) == Run([second], first, size, max);
    var (got, rest) := Receive([second], size - b);
    assert first + got == v;
    if Call(v, max, b).Incomplete? {
      assert Run([second], first, size, max) == Run(rest, v, size, max);
    }
  }

  // The bytes `v` that fit the buffer settle the failure, whatever the cuts. If the parser rejects them, the guard of a
  // call right behind the last byte it accepts does not wait for more; otherwise no guard rejects them.
  ghost predicate FailsOneWay(v: seq<Byte>, max: nat) {
    if Parse(v, max).Malformed? then
      assert v[..|v|] == v;
      var k := FirstBad(v, max, |v|);
      k == 1 || !BlankLine(v, RestartAt(k - 1), 0).Incomplete?
    else forall b | 0 < b < |v| :: !BlankLine(v, RestartAt(b), 0).Malformed?
  }

  // The failure, if there is only one.
  lemma FailsAs(chunks: seq<seq<Byte>>, all: seq<Byte>, size: nat, max: nat)
    requires IsCut(chunks, all) && !Parse(Visible(all, size), max).Got? && FailsOneWay(Visible(all, size), max)
    ensures Run(chunks, [], size, max) == if Parse(Visible(all, size), max).Malformed? then ParseError else IoError
  {
    hide Parse, BlankLine;
    var v := Visible(all, size);
    assert [] + Flatten(chunks) == all;
    if Parse(v, max).Malformed? {
      assert v[..|v|] == v;
      var k := FirstBad(v, max, |v|);
      var (got, rest) := Receive(chunks, size);
      assert [] + got == got && got + Flatten(rest) == all;
      assert got != [] && v[..|got|] == got;
      if k <= |got| {
        RejectedFrom(v, max, k, |got|);
      } else {
        PrefixFails(v, max, |got|);
        EarlierStops(v, RestartAt(|got|), 0, RestartAt(k - 1));
        if !Parse(got, max).Malformed? {
          AlwaysRejected(rest, got, size, max, k);
        }
      }
    } else {
      NeverRejected(chunks, [], size, max);
    }
  }

  /** For bytes that hold no request, every way of cutting them into chunks gives the same failure if and only if
      `FailsOneWay` holds of the part that fits the buffer. */
  lemma FailureSettledIff(all: seq<Byte>, size: nat, max: nat)
    requires !Parse(Visible(all, size), max).Got?
    ensures (forall cs, cs' | IsCut(cs, all) && IsCut(cs', all) :: Run(cs, [], size, max) == Run(cs', [], size, max))
            <==> FailsOneWay(Visible(all, size), max)
  {
    hide Parse, BlankLine, Run, IsCut;
    var v := Visible(all, size);
    if FailsOneWay(v, max) {
      forall cs | IsCut(cs, all)
        ensures Run(cs, [], size, max) == if Parse(v, max).Malformed? then ParseError else IoError
      {
        FailsAs(cs, all, size, max);
      }
    } else {
      var b := CutThatDiffers(v, max);
      OneChunk(all, size, max);
      TwoChunks(all, b, size, max);
    }
  }

  // Where to cut for the other failure.
  lemma CutThatDiffers(v: seq<Byte>, max: nat) returns (b: nat)
    requires !Parse(v, max).Got? && !FailsOneWay(v, max)
    ensures 0 < b < |v| && Parse(v[..b], max).Incomplete?
    ensures if Parse(v, max).Malformed? then BlankLine(v, RestartAt(b), 0).Incomplete?
            else BlankLine(v, RestartAt(b), 0).Malformed?
  {
    hide Parse, BlankLine;
    if Parse(v, max).Malformed? {
      assert v[..|v|] == v;
      b := FirstBad(v, max, |v|) - 1;
    } else {
      b :| 0 < b < |v| && BlankLine(v, RestartAt(b), 0).Malformed?;
      PrefixFails(v, max, b);
    }
  }
}
