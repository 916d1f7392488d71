/** The scanning that `validate_ip` does, as functions, and the proof that it decides the text forms. */
module IpSyntax {
  import opened IpText
  import opened Options

  // The length of the digits a string starts with.
  function DigitRun(s: string, hex: bool): (r: nat)
    ensures r <= |s|
    ensures if hex then AllHex(s[..r]) else AllDigits(s[..r])
    ensures r < |s| ==> if hex then !IsHex(s[r]) else !IsDigit(s[r])
  {
    if s == "" || (if hex then !IsHex(s[0]) else !IsDigit(s[0])) then 0
    else
      var r := DigitRun(s[1..], hex);
      assert s[..r + 1] == [s[0]] + s[1..][..r];
      1 + r
  }

  lemma RunLength(s: string, hex: bool, n: nat)
    requires n <= |s| && if hex then AllHex(s[..n]) else AllDigits(s[..n])
    requires n < |s| ==> if hex then !IsHex(s[n]) else !IsDigit(s[n])
    ensures DigitRun(s, hex) == n
  {
    var r := DigitRun(s, hex);
    assert forall k | 0 <= k < n :: s[..n][k] == s[k];
    assert forall k | 0 <= k < r :: s[..r][k] == s[k];
  }

  // `n` more octets, each but the first preceded by a dot.
  function Octets(cp: string, n: nat, first: bool): Option<seq<int>>
    decreases n
  {
    if n == 0 then if cp == "" then Some([]) else None
    else if cp == "" || (!first && cp[0] != '.') then None
    else
      var rest := if first then cp else cp[1..];
      var r := DigitRun(rest, false);
      if !IsOctet(rest[..r]) then None else
        var more := Octets(rest[r..], n - 1, false);
        if more.None? then None else Some([SignedChar(Value(rest[..r], 10))] + more.value)
  }

  function ParseIPv4(s: string): Option<seq<int>> {
    Octets(s, 4, true)
  }

  // What is left behind an octet: nothing, or a dot and the others.
  function Dotted(ws: seq<string>): string {
    if ws == [] then "" else "." + ws[0] + Dotted(ws[1..])
  }

  lemma {:induction false} JoinDotted(ws: seq<string>)
    requires ws != []
    ensures Join(ws, ".") == ws[0] + Dotted(ws[1..])
    decreases |ws|
  {
    if |ws| > 1 {
      JoinDotted(ws[1..]);
      assert ws[0] + "." + (ws[1] + Dotted(ws[2..])) == ws[0] + ("." + ws[1] + Dotted(ws[2..]));
      assert ws[1..][1..] == ws[2..];
    } else {
      assert ws[0] + "" == ws[0];
    }
  }

  lemma DottedCons(w: string, more: seq<string>)
    ensures Dotted([w] + more) == "." + (w + Dotted(more))
  {
    assert ([w] + more)[1..] == more;
  }

  lemma DottedStart(ws: seq<string>)
    ensures Dotted(ws) != "" ==> Dotted(ws)[0] == '.'
  {
  }

  // One octet ahead.
  lemma OctetAhead(cp: string, n: nat, first: bool, w: string, tail: string)
    requires IsOctet(w) && (tail != "" ==> tail[0] == '.') && cp == if first then w + tail else "." + (w + tail)
    ensures var more := Octets(tail, n, false);
            Octets(cp, n + 1, first) == if more.None? then None else Some([SignedChar(Value(w, 10))] + more.value)
  {
    var rest := if first then cp else cp[1..];
    assert rest == w + tail;
    assert rest[..|w|] == w && rest[|w|..] == tail;
    RunLength(rest, false, |w|);
  }

  lemma {:induction false} OctetsComplete(cp: string, ws: seq<string>, first: bool)
    requires AreOctets(ws) && cp == (if first && ws != [] then ws[0] + Dotted(ws[1..]) else Dotted(ws))
    ensures Octets(cp, |ws|, first) == Some(OctetEntries(ws))
    decreases |ws|
  {
    if ws == [] {
    } else {
      var w, tail := ws[0], Dotted(ws[1..]);
      assert ws == [w] + ws[1..];
      DottedCons(w, ws[1..]);
      DottedStart(ws[1..]);
      hide IsOctet, DigitRun, Value, Dotted;
      OctetAhead(cp, |ws| - 1, first, w, tail);
      OctetsComplete(tail, ws[1..], false);
    }
  }

  lemma OctetRead(cp: string, n: nat, first: bool) returns (w: string, tail: string)
    requires Octets(cp, n + 1, first).Some?
    ensures IsOctet(w) && Octets(tail, n, false).Some? && cp == if first then w + tail else "." + (w + tail)
    ensures Octets(cp, n + 1, first).value == [SignedChar(Value(w, 10))] + Octets(tail, n, false).value
  {
    hide IsOctet, DigitRun, Value;
    var rest := if first then cp else cp[1..];
    var r := DigitRun(rest, false);
    w, tail := rest[..r], rest[r..];
    assert rest == w + tail;
    assert !first ==> cp == "." + rest;
  }

  lemma ValuesCons(w: string, more: seq<string>)
    requires IsOctet(w) && AreOctets(more)
    ensures AreOctets([w] + more) && OctetEntries([w] + more) == [SignedChar(Value(w, 10))] + OctetEntries(more)
  {
    hide IsOctet, Value;
    assert ([w] + more)[1..] == more;
  }

  lemma NoOctets(cp: string, first: bool)
    ensures Octets(cp, 0, first).Some? ==> cp == Dotted([])
    ensures AreOctets([]) && (Octets(cp, 0, first).Some? ==> Octets(cp, 0, first) == Some(OctetEntries([])))
  {
  }

  lemma {:induction false} OctetsSound(cp: string, n: nat, first: bool) returns (ws: seq<string>)
    requires Octets(cp, n, first).Some?
    ensures |ws| == n && AreOctets(ws) && Octets(cp, n, first) == Some(OctetEntries(ws))
    ensures cp == if first && ws != [] then ws[0] + Dotted(ws[1..]) else Dotted(ws)
    decreases n
  {
    hide IsOctet, AreOctets, OctetEntries, Octets, Value, Dotted;
    NoOctets(cp, first);
    ws := [];
    if n == 0 {
    } else {
      var w, tail := OctetRead(cp, n - 1, first);
      var more := OctetsSound(tail, n - 1, false);
      ws := [w] + more;
      assert ws[1..] == more;
      ValuesCons(w, more);
      DottedCons(w, more);
    }
  }

  /** Four octets are read exactly from the dotted forms, and denote what the form denotes. */
  lemma ParseIPv4Iff(s: string, a: seq<int>)
    ensures ParseIPv4(s) == Some(a) <==> IsIPv4(s, a)
  {
    if ParseIPv4(s) == Some(a) {
      var ws := OctetsSound(s, 4, true);
      JoinDotted(ws);
    }
    forall ws | |ws| == 4 && AreOctets(ws) && s == Join(ws, ".") && a == OctetEntries(ws)
      ensures ParseIPv4(s) == Some(a)
    {
      JoinDotted(ws);
      OctetsComplete(s, ws, true);
    }
  }

  /** Every entry, taken as a byte, is the byte of the address: the octet's number, though a signed `char` stores it as
      a negative number from 128 on. */
  lemma IPv4Bytes(s: string, a: seq<int>) returns (ws: seq<string>)
    requires IsIPv4(s, a)
    ensures |ws| == |a| == 4 && AreOctets(ws) && s == Join(ws, ".")
    ensures forall k | 0 <= k < 4 :: a[k] % 256 == Value(ws[k], 10) && (a[k] < 0 <==> 128 <= Value(ws[k], 10))
  {
    hide Value, Join;
    ws :| |ws| == 4 && AreOctets(ws) && s == Join(ws, ".") && a == OctetEntries(ws);
    forall k | 0 <= k < 4
      ensures a[k] == SignedChar(Value(ws[k], 10))
    {
      EntryAt(ws, k);
    }
  }

  lemma {:induction false} EntryAt(ws: seq<string>, k: nat)
    requires AreOctets(ws) && k < |ws|
    ensures OctetEntries(ws)[k] == SignedChar(Value(ws[k], 10))
  {
    hide Value;
    if k == 0 {
    } else {
      EntryAt(ws[1..], k - 1);
    }
  }

  /** The two entries of a group, taken as bytes, are its high and its low byte, though the second one holds all of
      it. */
  lemma GroupBytes(w: string)
    requires IsGroup(w)
    ensures var b := GroupEntries(w);
            && 0 <= b[0] < 256 && b[0] * 256 + b[1] % 256 == Value(w, 16)
            && (b[1] == b[1] % 256 <==> Value(w, 16) < 256)
  {
    hide Value;
  }

  // ---------- the IPv6 loop ----------

  // After the loop: all text used, and zeros only, and always, where "::" stands.
  function Finish(cp: string, ip: seq<int>, ellipsis: Option<nat>): Option<seq<int>>
    requires |ip| <= 16 && (ellipsis.Some? ==> ellipsis.value <= |ip|)
  {
    if cp != "" then None
    else if |ip| < 16 then if ellipsis.None? then None else Some(Expand(ip, ellipsis.value))
    else if ellipsis.Some? then None
    else Some(ip)
  }

  // The loop with `ip` filled so far.
  function Loop(cp: string, ip: seq<int>, ellipsis: Option<nat>): Option<seq<int>>
    requires |ip| <= 16 && |ip| % 2 == 0 && (ellipsis.Some? ==> ellipsis.value <= |ip|)
    decreases |cp|
  {
    if |ip| == 16 then Finish(cp, ip, ellipsis)
    else
      var c := DigitRun(cp, true);
      var g := cp[..c];
      if !IsGroup(g) then None
      else if c < |cp| && cp[c] == '.' then
        if (ellipsis.None? && |ip| != 12) || |ip| + 4 > 16 then None
        else
          var v4 := ParseIPv4(cp);
          if v4.None? || |v4.value| != 4 then None else Finish("", ip + v4.value, ellipsis)
      else
        var ip', rest := ip + GroupEntries(g), cp[c..];
        if rest == "" then Finish(rest, ip', ellipsis)
        else if rest[0] != ':' || |rest| == 1 then None
        else if rest[1] != ':' then Loop(rest[1..], ip', ellipsis)
        else if ellipsis.Some? then None
        else if |rest| == 2 then Finish("", ip', Some(|ip'|))
        else Loop(rest[2..], ip', Some(|ip'|))
  }

  function ParseIPv6(s: string): Option<seq<int>> {
    if |s| >= 2 && s[0] == ':' && s[1] == ':' then
      if |s| == 2 then Some(Expand([], 0)) else Loop(s[2..], [], Some(0))
    else Loop(s, [], None)
  }

  // ---------- facts about groups and octets ----------

  lemma ValueStep(w: string, base: nat)
    requires w != "" && AllHex(w)
    ensures Value(w, base) == Value(w[..|w| - 1], base) * base + DigitValue(w[|w| - 1])
  {
  }

  // A decimal without a leading zero that fits a byte has at most three digits, so it also passes as a hex group.
  lemma OctetIsGroup(w: string)
    requires IsOctet(w)
    ensures IsGroup(w)
  {
    if |w| >= 4 {
      LongDecimal(w);
    }
    HexBound(w);
  }

  lemma {:induction false} LongDecimal(w: string)
    requires |w| >= 1 && AllDigits(w) && w[0] != '0'
    ensures Value(w, 10) >= 1 && (|w| >= 2 ==> Value(w, 10) >= 10) && (|w| >= 3 ==> Value(w, 10) >= 100)
    ensures |w| >= 4 ==> Value(w, 10) >= 1000
    decreases |w|
  {
    ValueStep(w, 10);
    if |w| > 1 {
      LongDecimal(w[..|w| - 1]);
    } else {
      assert w[..0] == "";
    }
  }

  lemma {:induction false} HexBound(w: string)
    requires AllHex(w) && |w| <= 3
    ensures |w| == 0 ==> Value(w, 16) == 0
    ensures |w| == 1 ==> Value(w, 16) < 16
    ensures |w| == 2 ==> Value(w, 16) < 256
    ensures Value(w, 16) < 4096
    decreases |w|
  {
    if w == "" {
    } else {
      ValueStep(w, 16);
      HexBound(w[..|w| - 1]);
    }
  }

  lemma IPv4Facts(s: string, a: seq<int>)
    requires IsIPv4(s, a)
    ensures |a| == 4
    ensures var c := DigitRun(s, true); c < |s| && s[c] == '.' && IsGroup(s[..c])
    ensures forall k | 0 <= k < |s| :: IsDigit(s[k]) || s[k] == '.'
  {
    hide IsOctet, IsGroup, Value;
    var ws :| |ws| == 4 && AreOctets(ws) && s == Join(ws, ".") && a == OctetEntries(ws);
    JoinDotted(ws);
    DottedChars(ws[1..]);
    FirstOctet(s, ws[0], Dotted(ws[1..]));
  }

  lemma FirstOctet(s: string, w: string, tail: string)
    requires IsOctet(w) && s == w + tail && tail != "" && tail[0] == '.'
    ensures DigitRun(s, true) == |w| && s[|w|] == '.' && s[..|w|] == w && IsGroup(w)
    ensures forall k | 0 <= k < |s| :: s[k] == if k < |w| then w[k] else tail[k - |w|]
    ensures AllDigits(w)
  {
    hide Value;
    OctetIsGroup(w);
    assert s[..|w|] == w;
    RunLength(s, true, |w|);
  }

  lemma {:induction false} DottedChars(ws: seq<string>)
    requires AreOctets(ws)
    ensures forall k | 0 <= k < |Dotted(ws)| :: IsDigit(Dotted(ws)[k]) || Dotted(ws)[k] == '.'
    decreases |ws|
  {
    if ws == [] {
    } else {
      DottedChars(ws[1..]);
    }
  }

  lemma RunStart(text: string, b: seq<int>, v4: bool)
    requires IsRun(text, b, v4)
    ensures text != "" && IsHex(text[0]) && 2 <= |b|
    decreases |text|
  {
    if IsGroup(text) && b == GroupEntries(text) {
    } else if v4 && IsIPv4(text, b) {
      IPv4Facts(text, b);
    } else {
      var w, rest, b' :| && |rest| < |text| && IsGroup(w) && text == w + ":" + rest
                         && IsRun(rest, b', v4) && b == GroupEntries(w) + b';
      assert text[0] == w[0];
    }
  }

  // ---------- one round of the loop ----------

  // What a round that succeeds has met: the last group, a dotted address, a group and one colon, or a group and "::".
  datatype Round = Last | Quad(a: seq<int>) | Colon(w: string, rest: string) | Double(w: string, rest: string)

  ghost predicate Met(cp: string, r: Round) {
    match r
    case Last => IsGroup(cp)
    case Quad(a) => IsIPv4(cp, a) && |a| == 4
    case Colon(w, rest) => IsGroup(w) && cp == w + ":" + rest && rest != "" && rest[0] != ':'
    case Double(w, rest) => IsGroup(w) && cp == w + "::" + rest
  }

  function AfterRound(r: Round, ip: seq<int>, ellipsis: Option<nat>): Option<seq<int>>
    requires |ip| < 16 && |ip| % 2 == 0 && (ellipsis.Some? ==> ellipsis.value <= |ip|)
    requires r.Colon? || r.Double? ==> IsGroup(r.w)
    requires r.Quad? ==> |r.a| == 4
    requires r != Last
  {
    match r
    case Quad(a) =>
      if (ellipsis.None? && |ip| != 12) || |ip| + 4 > 16 then None else Finish("", ip + a, ellipsis)
    case Colon(w, rest) => Loop(rest, ip + GroupEntries(w), ellipsis)
    case Double(w, rest) =>
      var ip' := ip + GroupEntries(w);
      if ellipsis.Some? then None
      else if rest == "" then Finish("", ip', Some(|ip'|))
      else Loop(rest, ip', Some(|ip'|))
  }

  // The loop at a group that no dot follows.
  lemma LoopGroup(cp: string, c: nat, ip: seq<int>, ellipsis: Option<nat>)
    requires |ip| < 16 && |ip| % 2 == 0 && (ellipsis.Some? ==> ellipsis.value <= |ip|)
    requires c == DigitRun(cp, true) && IsGroup(cp[..c]) && (c < |cp| ==> cp[c] != '.')
    ensures var ip' := ip + GroupEntries(cp[..c]);
            Loop(cp, ip, ellipsis) ==
              if c == |cp| then Finish("", ip', ellipsis)
              else if cp[c] != ':' || |cp| == c + 1 then None
              else if cp[c + 1] != ':' then Loop(cp[c + 1..], ip', ellipsis)
              else if ellipsis.Some? then None
              else if |cp| == c + 2 then Finish("", ip', Some(|ip'|))
              else Loop(cp[c + 2..], ip', Some(|ip'|))
  {
    hide IsGroup, ParseIPv4, GroupEntries, Finish;
    var rest := cp[c..];
    assert rest == "" <==> c == |cp|;
    if c + 1 < |cp| {
      assert rest[1..] == cp[c + 1..] && rest[1] == cp[c + 1];
    }
    if c + 2 <= |cp| {
      assert rest[2..] == cp[c + 2..];
    }
  }

  lemma LoopDot(cp: string, c: nat, ip: seq<int>, ellipsis: Option<nat>)
    requires |ip| < 16 && |ip| % 2 == 0 && (ellipsis.Some? ==> ellipsis.value <= |ip|)
    requires c == DigitRun(cp, true) && IsGroup(cp[..c]) && c < |cp| && cp[c] == '.'
    ensures var v4 := ParseIPv4(cp);
            Loop(cp, ip, ellipsis) ==
              if (ellipsis.None? && |ip| != 12) || |ip| + 4 > 16 || v4.None? || |v4.value| != 4 then None
              else Finish("", ip + v4.value, ellipsis)
  {
    hide IsGroup, ParseIPv4, GroupEntries, Finish;
  }

  lemma LoopNoGroup(cp: string, ip: seq<int>, ellipsis: Option<nat>)
    requires |ip| < 16 && |ip| % 2 == 0 && (ellipsis.Some? ==> ellipsis.value <= |ip|)
    requires !IsGroup(cp[..DigitRun(cp, true)])
    ensures Loop(cp, ip, ellipsis) == None
  {
    hide IsGroup;
  }

  lemma LoopFull(cp: string, ip: seq<int>, ellipsis: Option<nat>)
    requires |ip| == 16 && (ellipsis.Some? ==> ellipsis.value <= |ip|)
    ensures Loop(cp, ip, ellipsis) == Finish(cp, ip, ellipsis)
  {
  }

  lemma LoopQuad(cp: string, a: seq<int>, ip: seq<int>, ellipsis: Option<nat>)
    requires |ip| < 16 && |ip| % 2 == 0 && (ellipsis.Some? ==> ellipsis.value <= |ip|)
    requires IsIPv4(cp, a) && |a| == 4
    ensures Loop(cp, ip, ellipsis) == AfterRound(Quad(a), ip, ellipsis)
  {
    hide IsGroup, IsIPv4, ParseIPv4, GroupEntries, Finish, Loop;
    IPv4Facts(cp, a);
    ParseIPv4Iff(cp, a);
    LoopDot(cp, DigitRun(cp, true), ip, ellipsis);
  }

  lemma RoundStep(cp: string, r: Round, ip: seq<int>, ellipsis: Option<nat>)
    requires Met(cp, r) && |ip| < 16 && |ip| % 2 == 0 && (ellipsis.Some? ==> ellipsis.value <= |ip|)
    ensures r == Last ==> Loop(cp, ip, ellipsis) == Finish("", ip + GroupEntries(cp), ellipsis)
    ensures r != Last ==> Loop(cp, ip, ellipsis) == AfterRound(r, ip, ellipsis)
  {
    hide IsGroup, IsIPv4, GroupEntries, Loop, Finish, AllHex;
    match r
    case Last =>
      GroupIsHex(cp);
      assert cp[..|cp|] == cp;
      RunLength(cp, true, |cp|);
      LoopGroup(cp, |cp|, ip, ellipsis);
    case Quad(a) => LoopQuad(cp, a, ip, ellipsis);
    case Colon(w, rest) =>
      GroupThenColon(cp, w, rest);
      assert cp[..|w|] == w && cp[|w| + 1..] == rest && cp[|w|] == ':' && cp[|w| + 1] == rest[0];
      LoopGroup(cp, |w|, ip, ellipsis);
    case Double(w, rest) =>
      assert cp == w + ":" + (":" + rest);
      GroupThenColon(cp, w, ":" + rest);
      assert cp[..|w|] == w && cp[|w| + 2..] == rest && cp[|w|] == ':' && cp[|w| + 1] == ':';
      LoopGroup(cp, |w|, ip, ellipsis);
  }

  lemma GroupIsHex(w: string)
    requires IsGroup(w)
    ensures w != "" && AllHex(w)
  {
  }

  lemma RoundOf(cp: string, ip: seq<int>, ellipsis: Option<nat>) returns (r: Round)
    requires |ip| <= 16 && |ip| % 2 == 0 && (ellipsis.Some? ==> ellipsis.value <= |ip|)
    requires cp != "" && Loop(cp, ip, ellipsis).Some?
    ensures |ip| < 16 && Met(cp, r)
  {
    hide IsGroup, IsIPv4, ParseIPv4, Loop, AllHex, AllDigits;
    LoopNeeds(cp, ip, ellipsis);
    var c := DigitRun(cp, true);
    if c == |cp| {
      assert cp[..c] == cp;
      r := Last;
    } else if cp[c] == '.' {
      r := Quad(ParseIPv4(cp).value);
      ParseIPv4Iff(cp, r.a);
    } else if cp[c + 1] != ':' {
      r := Colon(cp[..c], cp[c + 1..]);
      SplitColon(cp, c);
    } else {
      r := Double(cp[..c], cp[c + 2..]);
      SplitDouble(cp, c);
    }
  }

  // What the loop has checked when it does not fail.
  lemma LoopNeeds(cp: string, ip: seq<int>, ellipsis: Option<nat>)
    requires |ip| <= 16 && |ip| % 2 == 0 && (ellipsis.Some? ==> ellipsis.value <= |ip|)
    requires cp != "" && Loop(cp, ip, ellipsis).Some?
    ensures |ip| < 16
    ensures var c := DigitRun(cp, true);
            && IsGroup(cp[..c])
            && (c < |cp| ==> if cp[c] == '.' then ParseIPv4(cp).Some? && |ParseIPv4(cp).value| == 4
                             else cp[c] == ':' && c + 1 < |cp|)
  {
    hide IsGroup, ParseIPv4, Expand, AllHex, AllDigits;
  }

  lemma SplitColon(cp: string, c: nat)
    requires c + 1 < |cp| && cp[c] == ':'
    ensures cp == cp[..c] + ":" + cp[c + 1..] && cp[c + 1..] != "" && cp[c + 1..][0] == cp[c + 1]
  {
  }

  lemma SplitDouble(cp: string, c: nat)
    requires c + 1 < |cp| && cp[c] == ':' && cp[c + 1] == ':'
    ensures cp == cp[..c] + "::" + cp[c + 2..]
  {
  }

  lemma GroupThenColon(cp: string, w: string, rest: string)
    requires IsGroup(w) && cp == w + ":" + rest
    ensures DigitRun(cp, true) == |w| && cp[..|w|] == w && cp[|w|..] == ":" + rest && cp[|w|..][1..] == rest
  {
    assert cp[..|w|] == w && cp[|w|] == ':';
    RunLength(cp, true, |w|);
  }

  // What a run is made of, in terms of the rounds that read it.
  lemma RunRound(cp: string, b: seq<int>, v4: bool) returns (r: Round, b': seq<int>)
    requires IsRun(cp, b, v4)
    ensures Met(cp, r) && !r.Double?
    ensures r == Last ==> b == GroupEntries(cp)
    ensures r.Quad? ==> v4 && b == r.a
    ensures r.Colon? ==> |r.rest| < |cp| && IsRun(r.rest, b', v4) && b == GroupEntries(r.w) + b'
  {
    b' := [];
    if IsGroup(cp) && b == GroupEntries(cp) {
      r := Last;
    } else if v4 && IsIPv4(cp, b) {
      IPv4Facts(cp, b);
      r := Quad(b);
    } else {
      var w, rest, more :| && |rest| < |cp| && IsGroup(w) && cp == w + ":" + rest
                           && IsRun(rest, more, v4) && b == GroupEntries(w) + more;
      RunStart(rest, more, v4);
      r, b' := Colon(w, rest), more;
    }
  }

  lemma RunFromRound(cp: string, r: Round, b': seq<int>, v4: bool) returns (b: seq<int>)
    requires Met(cp, r) && !r.Double? && (r.Quad? ==> v4)
    requires r.Colon? ==> IsRun(r.rest, b', v4)
    ensures IsRun(cp, b, v4)
    ensures b == if r == Last then GroupEntries(cp) else if r.Quad? then r.a else GroupEntries(r.w) + b'
  {
    b := if r == Last then GroupEntries(cp) else if r.Quad? then r.a else GroupEntries(r.w) + b';
  }

  // ---------- behind "::" ----------

  lemma {:induction false} TailSound(cp: string, ip: seq<int>, at: nat) returns (b: seq<int>)
    requires at <= |ip| <= 16 && |ip| % 2 == 0 && cp != "" && Loop(cp, ip, Some(at)).Some?
    ensures IsRun(cp, b, true) && |ip| + |b| <= 14 && Loop(cp, ip, Some(at)) == Some(Expand(ip + b, at))
    decreases |cp|
  {
    hide IsGroup, IsIPv4, Expand, GroupEntries, Loop, IsRun;
    var r := RoundOf(cp, ip, Some(at));
    RoundStep(cp, r, ip, Some(at));
    var b' := [];
    if r.Colon? {
      b' := TailSound(r.rest, ip + GroupEntries(r.w), at);
      assert ip + GroupEntries(r.w) + b' == ip + (GroupEntries(r.w) + b');
    }
    b := RunFromRound(cp, r, b', true);
  }

  lemma {:induction false} TailComplete(cp: string, ip: seq<int>, at: nat, b: seq<int>)
    requires at <= |ip| <= 16 && |ip| % 2 == 0 && IsRun(cp, b, true) && |ip| + |b| <= 14
    ensures Loop(cp, ip, Some(at)) == Some(Expand(ip + b, at))
    decreases |cp|
  {
    hide IsGroup, IsIPv4, Expand, GroupEntries, Loop, IsRun;
    RunStart(cp, b, true);
    var r, b' := RunRound(cp, b, true);
    RoundStep(cp, r, ip, Some(at));
    if r.Colon? {
      assert ip + GroupEntries(r.w) + b' == ip + b;
      TailComplete(r.rest, ip + GroupEntries(r.w), at, b');
    }
  }

  // ---------- before "::" ----------

  // What a successful loop has read: a whole run, or (`split`) a run, "::" and the part behind it.
  lemma {:induction false} HeadSound(cp: string, ip: seq<int>)
    returns (split: bool, left: string, lb: seq<int>, rest: string, b: seq<int>)
    requires |ip| <= 16 && |ip| % 2 == 0 && cp != "" && Loop(cp, ip, None).Some?
    ensures !split ==> IsRun(cp, b, true) && |ip| + |b| == 16 && Loop(cp, ip, None) == Some(ip + b)
    ensures split ==> && IsRun(left, lb, false) && IsPart(rest, b, true) && cp == left + "::" + rest
                      && |ip| + |lb| + |b| <= 14
                      && Loop(cp, ip, None) == Some(Expand(ip + lb + b, |ip| + |lb|))
    decreases |cp|
  {
    hide IsGroup, IsIPv4, Expand, GroupEntries, Loop, IsRun;
    var r := RoundOf(cp, ip, None);
    RoundStep(cp, r, ip, None);
    split, left, lb, rest, b := false, "", [], "", [];
    if r.Double? {
      split, left, rest := true, r.w, r.rest;
      lb := RunFromRound(left, Last, [], false);
      var ip' := ip + lb;
      if rest != "" {
        b := TailSound(rest, ip', |ip'|);
      }
      assert ip' + [] == ip';
    } else if r.Colon? {
      var g := GroupEntries(r.w);
      split, left, lb, rest, b := HeadSound(r.rest, ip + g);
      if split {
        assert cp == r.w + ":" + left + "::" + rest;
        assert ip + g + lb + b == ip + (g + lb) + b;
        RunStart(left, lb, false);
        var whole := r.w + ":" + left;
        lb := RunFromRound(whole, Colon(r.w, left), lb, false);
        left := whole;
      } else {
        assert ip + g + b == ip + (g + b);
        b := RunFromRound(cp, r, b, true);
      }
    } else {
      b := RunFromRound(cp, r, [], true);
    }
  }

  lemma {:induction false} PlainComplete(cp: string, ip: seq<int>, b: seq<int>)
    requires |ip| % 2 == 0 && IsRun(cp, b, true) && |ip| + |b| == 16
    ensures Loop(cp, ip, None) == Some(ip + b)
    decreases |cp|
  {
    hide IsGroup, IsIPv4, Expand, GroupEntries, Loop, IsRun;
    RunStart(cp, b, true);
    var r, b' := RunRound(cp, b, true);
    RoundStep(cp, r, ip, None);
    if r.Colon? {
      assert ip + GroupEntries(r.w) + b' == ip + b;
      PlainComplete(r.rest, ip + GroupEntries(r.w), b');
    }
  }

  lemma {:induction false} SplitComplete(left: string, lb: seq<int>, rest: string, b: seq<int>, ip: seq<int>)
    requires |ip| % 2 == 0 && IsRun(left, lb, false) && IsPart(rest, b, true) && |ip| + |lb| + |b| <= 14
    ensures Loop(left + "::" + rest, ip, None) == Some(Expand(ip + lb + b, |ip| + |lb|))
    decreases |left|
  {
    hide IsGroup, IsIPv4, Expand, GroupEntries, Loop, IsRun;
    RunStart(left, lb, false);
    var cp := left + "::" + rest;
    var r, lb' := RunRound(left, lb, false);
    if r == Last {
      RoundStep(cp, Double(left, rest), ip, None);
      if rest == "" {
        EmptyIsNoRun(b);
        assert ip + lb + b == ip + lb;
      } else {
        TailComplete(rest, ip + lb, |ip| + |lb|, b);
      }
    } else {
      var more := r.rest + "::" + rest;
      assert cp == r.w + ":" + more;
      RunStart(r.rest, lb', false);
      RoundStep(cp, Colon(r.w, more), ip, None);
      assert ip + GroupEntries(r.w) + lb' + b == ip + lb + b;
      SplitComplete(r.rest, lb', rest, b, ip + GroupEntries(r.w));
    }
  }

  lemma EmptyIsNoRun(b: seq<int>)
    requires IsPart("", b, true)
    ensures b == []
  {
    if IsRun("", b, true) {
      RunStart("", b, true);
    }
  }

  /** The IPv6 scanner accepts exactly the text forms and computes the address they denote. */
  lemma ParseIPv6Iff(s: string, a: seq<int>)
    ensures ParseIPv6(s) == Some(a) <==> IsIPv6(s, a)
  {
    if ParseIPv6(s) == Some(a) {
      ParseIPv6Sound(s);
    }
    if IsIPv6(s, a) {
      ParseIPv6Complete(s, a);
    }
  }

  lemma ParseIPv6Sound(s: string)
    requires ParseIPv6(s).Some?
    ensures IsIPv6(s, ParseIPv6(s).value)
  {
    hide IsGroup, IsIPv4, Expand, GroupEntries, Loop, IsRun;
    if |s| >= 2 && s[0] == ':' && s[1] == ':' {
      var rest, b := s[2..], [];
      if rest != "" {
        b := TailSound(rest, [], 0);
      }
      assert s == "" + "::" + rest && [] + b == b;
      assert IsPart("", [], false) && IsPart(rest, b, true);
    } else {
      assert s != "" by {
        EmptyFails();
      }
      var split, left, lb, rest, b := HeadSound(s, []);
      assert [] + lb + b == lb + b && [] + b == b;
      if split {
        assert IsPart(left, lb, false);
      }
    }
  }

  lemma EmptyFails()
    ensures Loop("", [], None).None?
  {
  }

  lemma CompressedComplete(left: string, lb: seq<int>, rest: string, b: seq<int>)
    requires IsPart(left, lb, false) && IsPart(rest, b, true) && |lb| + |b| <= 14
    ensures ParseIPv6(left + "::" + rest) == Some(Expand(lb + b, |lb|))
  {
    hide IsGroup, IsIPv4, Expand, GroupEntries, Loop, IsRun;
    var s := left + "::" + rest;
    if IsRun(left, lb, false) {
      RunStart(left, lb, false);
      assert s[0] == left[0];
      SplitComplete(left, lb, rest, b, []);
      assert [] + lb + b == lb + b;
    } else {
      assert s == "::" + rest && s[2..] == rest && lb + b == b;
      if rest == "" {
        EmptyIsNoRun(b);
      } else {
        TailComplete(rest, [], 0, b);
        assert [] + b == b;
      }
    }
  }

  lemma ParseIPv6Complete(s: string, a: seq<int>)
    requires IsIPv6(s, a)
    ensures ParseIPv6(s) == Some(a)
  {
    hide IsGroup, IsIPv4, Expand, GroupEntries, Loop, IsRun, IsPart;
    if IsRun(s, a, true) && |a| == 16 {
      RunStart(s, a, true);
      PlainComplete(s, [], a);
      assert [] + a == a;
    } else {
      var left, lb, rest, b :| IsPart(left, lb, false) && IsPart(rest, b, true) && s == left + "::" + rest
                               && |lb| + |b| <= 14 && a == Expand(lb + b, |lb|);
      CompressedComplete(left, lb, rest, b);
    }
  }

  // ---------- which scanner is asked ----------

  predicate IsMark(c: char) {
    c == '.' || c == ':'
  }

  // The first dot or colon decides.
  function Validate(s: string, i: nat): bool
    requires i <= |s|
    decreases |s| - i
  {
    if i == |s| then false
    else if s[i] == '.' then ParseIPv4(s).Some?
    else if s[i] == ':' then ParseIPv6(s).Some?
    else Validate(s, i + 1)
  }

  lemma {:induction false} ValidateAt(s: string, i: nat, k: nat)
    requires i <= k < |s| && IsMark(s[k]) && forall j | i <= j < k :: !IsMark(s[j])
    ensures Validate(s, i) == if s[k] == '.' then ParseIPv4(s).Some? else ParseIPv6(s).Some?
    decreases k - i
  {
    if i == k {
    } else {
      ValidateAt(s, i + 1, k);
    }
  }

  // An IPv6 form starts with a colon or with a group and a colon.
  lemma ColonFirst(s: string, a: seq<int>) returns (k: nat)
    requires IsIPv6(s, a)
    ensures k < |s| && s[k] == ':' && forall j | 0 <= j < k :: IsHex(s[j])
  {
    hide IsIPv4, Expand, GroupEntries, IsRun;
    if IsRun(s, a, true) && |a| == 16 {
      var r, b' := RunRound(s, a, true);
      GroupColon(s, r.w);
      k := |r.w|;
    } else {
      var left, lb, rest, b :| IsPart(left, lb, false) && IsPart(rest, b, true) && s == left + "::" + rest
                               && |lb| + |b| <= 14 && a == Expand(lb + b, |lb|);
      if IsRun(left, lb, false) {
        var r, b' := RunRound(left, lb, false);
        k := if r == Last then |left| else |r.w|;
        GroupColon(s, if r == Last then left else r.w);
      } else {
        k := 0;
      }
    }
  }

  lemma GroupColon(s: string, w: string)
    requires IsGroup(w) && w + ":" <= s
    ensures |w| < |s| && s[|w|] == ':' && forall j | 0 <= j < |w| :: IsHex(s[j])
  {
    assert s[..|w| + 1] == w + ":";
    assert forall j | 0 <= j <= |w| :: s[j] == (w + ":")[j];
  }

  /** `validate_ip` holds exactly for the IPv4 and IPv6 text forms. */
  lemma ValidateIff(s: string)
    ensures Validate(s, 0) <==> (exists a :: IsIPv4(s, a)) || (exists a :: IsIPv6(s, a))
  {
    hide IsIPv4, IsIPv6, ParseIPv4, ParseIPv6;
    if Validate(s, 0) {
      ParseIPv4Some(s);
      ParseIPv6Some(s);
      ValidateAsks(s, 0);
    }
    forall a | IsIPv4(s, a)
      ensures Validate(s, 0)
    {
      ParseIPv4Iff(s, a);
      IPv4Facts(s, a);
      var k := FirstDot(s, DigitRun(s, true));
      ValidateAt(s, 0, k);
    }
    forall a | IsIPv6(s, a)
      ensures Validate(s, 0)
    {
      ParseIPv6Iff(s, a);
      var k := ColonFirst(s, a);
      ValidateAt(s, 0, k);
    }
  }

  lemma {:induction false} ValidateAsks(s: string, i: nat)
    requires i <= |s| && Validate(s, i)
    ensures ParseIPv4(s).Some? || ParseIPv6(s).Some?
    decreases |s| - i
  {
    if !IsMark(s[i]) {
      ValidateAsks(s, i + 1);
    }
  }

  lemma ParseIPv4Some(s: string)
    ensures ParseIPv4(s).Some? ==> IsIPv4(s, ParseIPv4(s).value)
  {
    if ParseIPv4(s).Some? {
      ParseIPv4Iff(s, ParseIPv4(s).value);
    }
  }

  lemma ParseIPv6Some(s: string)
    ensures ParseIPv6(s).Some? ==> IsIPv6(s, ParseIPv6(s).value)
  {
    if ParseIPv6(s).Some? {
      ParseIPv6Iff(s, ParseIPv6(s).value);
    }
  }

  lemma FirstDot(s: string, c: nat) returns (k: nat)
    requires c < |s| && s[c] == '.' && forall j | 0 <= j < |s| :: IsDigit(s[j]) || s[j] == '.'
    ensures k <= c && s[k] == '.' && forall j | 0 <= j < k :: !IsMark(s[j])
  {
    k := 0;
    while s[k] != '.'
      invariant k <= c && forall j | 0 <= j < k :: !IsMark(s[j])
      decreases c - k
    {
      k := k + 1;
    }
  }
}
