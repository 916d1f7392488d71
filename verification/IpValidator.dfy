/** The validator as the C code runs it: a remaining text that is cut from the front, sixteen address entries filled in
    place, and the in-place expansion of "::". */
module IpValidator {
  import opened IpSyntax
  import opened IpText
  import opened Options

  // Bigger than any accepted number, small enough that no accumulator overflows.
  const BIG := 0xFFFFFF

  lemma Grows(v: nat, base: nat)
    requires 1 <= base
    ensures v <= v * base
  {
    assert 0 <= v * (base - 1);
  }

  lemma HexPrefix(s: string, k: nat, r: nat)
    requires k <= r <= |s| && AllHex(s[..r])
    ensures AllHex(s[..k]) && (k < r ==> IsHex(s[k]))
  {
    assert forall j | 0 <= j < k :: s[..k][j] == s[..r][j];
    assert k < r ==> s[..r][k] == s[k];
  }

  lemma {:induction false} ValuePrefix(s: string, base: nat, k: nat, r: nat)
    requires k <= r <= |s| && 1 <= base && AllHex(s[..r])
    ensures AllHex(s[..k]) && Value(s[..k], base) <= Value(s[..r], base)
    decreases r - k
  {
    hide Value, AllHex;
    HexPrefix(s, k, r);
    if k == r {
    } else {
      HexPrefix(s, r - 1, r);
      ValuePrefix(s, base, k, r - 1);
      PrefixValueStep(s, base, r - 1);
      Grows(Value(s[..r - 1], base), base);
    }
  }

  lemma PrefixValueStep(s: string, base: nat, i: nat)
    requires i < |s| && AllHex(s[..i]) && IsHex(s[i])
    ensures AllHex(s[..i + 1]) && Value(s[..i + 1], base) == Value(s[..i], base) * base + DigitValue(s[i])
  {
    assert s[..i + 1] == s[..i] + [s[i]];
    assert s[..i + 1][..i] == s[..i];
  }

  // Reads a hexadecimal number from the front: its value, the characters consumed, and whether it is one.
  method Xtoi(s: string) returns (n: nat, i: nat, ok: bool)
    ensures i <= |s|
    ensures var r := DigitRun(s, true); ok <==> r > 0 && Value(s[..r], 16) < 0xFFFFFF
    ensures ok ==> i == DigitRun(s, true) && n == Value(s[..i], 16)
  {
    n, i := 0, 0;
    while i < |s| && IsHex(s[i])
      invariant i <= |s| && AllHex(s[..i]) && n == Value(s[..i], 16) && n < BIG
    {
      PrefixValueStep(s, 16, i);
      n := n * 16;
      assert n < 0x8000_0000;
      n := n + DigitValue(s[i]);
      if n >= BIG {
        RunCovers(s, true, i + 1);
        ValuePrefix(s, 16, i + 1, DigitRun(s, true));
        return 0, i, false;
      }
      i := i + 1;
    }
    RunLength(s, true, i);
    if i == 0 {
      return 0, i, false;
    }
    return n, i, true;
  }

  lemma RunCovers(s: string, hex: bool, n: nat)
    requires n <= |s| && if hex then AllHex(s[..n]) else AllDigits(s[..n])
    ensures n <= DigitRun(s, hex)
  {
    var r := DigitRun(s, hex);
    assert forall k | 0 <= k < n :: s[..n][k] == s[k];
  }

  // The same for a decimal number.
  method Dtoi(s: string) returns (n: nat, i: nat, ok: bool)
    ensures i <= |s|
    ensures var r := DigitRun(s, false); ok <==> r > 0 && Value(s[..r], 10) < 0xFFFFFF
    ensures ok ==> i == DigitRun(s, false) && n == Value(s[..i], 10)
  {
    n, i := 0, 0;
    while i < |s| && IsDigit(s[i])
      invariant i <= |s| && AllDigits(s[..i]) && n == Value(s[..i], 10) && n < BIG
    {
      PrefixValueStep(s, 10, i);
      assert s[..i + 1] == s[..i] + [s[i]];
      n := n * 10 + DigitValue(s[i]);
      assert n < 0x8000_0000;
      if n >= BIG {
        RunCovers(s, false, i + 1);
        ValuePrefix(s, 10, i + 1, DigitRun(s, false));
        return BIG, i, false;
      }
      i := i + 1;
    }
    RunLength(s, false, i);
    if i == 0 {
      return 0, 0, false;
    }
    return n, i, true;
  }

  // Octets already read, in front of those still to come.
  function Prefixed(p: seq<int>, more: Option<seq<int>>): Option<seq<int>> {
    if more.None? then None else Some(p + more.value)
  }

  lemma PrefixedLaws(p: seq<int>, x: int, more: Option<seq<int>>)
    ensures Prefixed([], more) == more
    ensures Prefixed(p, Prefixed([x], more)) == Prefixed(p + [x], more)
  {
    if more.Some? {
      assert [] + more.value == more.value;
      assert p + ([x] + more.value) == p + [x] + more.value;
    }
  }

  lemma OctetsStep(cp: string, n: nat, first: bool)
    requires 0 < n
    ensures cp == "" || (!first && cp[0] != '.') ==> Octets(cp, n, first).None?
    ensures cp != "" && (first || cp[0] == '.') ==>
              var rest := if first then cp else cp[1..];
              var r := DigitRun(rest, false);
              Octets(cp, n, first) == if !IsOctet(rest[..r]) then None
                                      else Prefixed([SignedChar(Value(rest[..r], 10))], Octets(rest[r..], n - 1, false))
  {
  }

  method ParseDotted(s: string) returns (r: Option<seq<int>>)
    ensures r == ParseIPv4(s)
  {
    hide Value, AllHex, AllDigits, DigitRun, IsOctet, Octets, Prefixed;
    var cp, p := s, [];
    PrefixedLaws([], 0, ParseIPv4(s));
    for i := 0 to 4
      invariant |p| == i && ParseIPv4(s) == Prefixed(p, Octets(cp, 4 - i, i == 0))
    {
      OctetsStep(cp, 4 - i, i == 0);
      NoneStays(p);
      if |cp| == 0 {
        return None;
      }
      if i > 0 {
        if cp[0] != '.' {
          return None;
        }
        cp := cp[1..];
      }
      var n, c, ok := Dtoi(cp);
      OctetTest(cp, n, c, ok);
      if !ok || n > 0xFF {
        return None;
      }
      if c > 1 && cp[0] == '0' {
        return None;
      }
      PrefixedLaws(p, SignedChar(n), Octets(cp[c..], 3 - i, false));
      cp := cp[c..];
      p := p + [SignedChar(n)];
    }
    OctetsEnd(cp, p);
    return if |cp| != 0 then None else Some(p);
  }

  lemma NoneStays(p: seq<int>)
    ensures Prefixed(p, None) == None
  {
  }

  lemma OctetsEnd(cp: string, p: seq<int>)
    ensures Prefixed(p, Octets(cp, 0, false)) == if cp == "" then Some(p) else None
  {
    assert p + [] == p;
  }

  // The code's tests on the scanned number are the octet condition on its text.
  lemma OctetTest(cp: string, n: nat, c: nat, ok: bool)
    requires var r := DigitRun(cp, false); ok <==> r > 0 && Value(cp[..r], 10) < 0xFFFFFF
    requires ok ==> c == DigitRun(cp, false) && n == Value(cp[..c], 10)
    ensures var r := DigitRun(cp, false);
            IsOctet(cp[..r]) <==> ok && n <= 0xFF && !(c > 1 && cp[0] == '0')
  {
    hide Value;
    var r := DigitRun(cp, false);
    assert |cp[..r]| == r && (r > 0 ==> cp[..r][0] == cp[0]);
  }

  // Opens a gap of zeros at `at`: the entries from there on move to the end, last one first, over each other.
  method ExpandEllipsis(ip: array<int>, i: nat, at: nat)
    requires ip.Length == 16 && at <= i <= 16
    modifies ip
    ensures ip[..] == Expand(old(ip[..i]), at)
  {
    var n := 16 - i;
    ghost var was := ip[..];
    var j := i;
    while j > at
      invariant at <= j <= i
      invariant forall k | 0 <= k < j + n :: ip[k] == was[k]
      invariant forall k | j + n <= k < 16 :: ip[k] == was[k - n]
    {
      j := j - 1;
      ip[j + n] := ip[j];
    }
    j := at + n;
    while j > at
      invariant at <= j <= at + n
      invariant forall k | 0 <= k < at :: ip[k] == was[k]
      invariant forall k | j <= k < at + n :: ip[k] == 0
      invariant forall k | at + n <= k < 16 :: ip[k] == was[k - n]
    {
      j := j - 1;
      ip[j] := 0;
    }
    ghost var r := Expand(was[..i], at);
    assert r == was[..at] + Zeros(n) + was[at..i];
    assert |r| == 16 && forall k | 0 <= k < 16 :: ip[k] == r[k];
  }

  lemma LoopStart(s: string)
    ensures var double := |s| >= 2 && s[0] == ':' && s[1] == ':';
            && (double && |s| == 2 ==> ParseIPv6(s) == Some(Expand([], 0)))
            && (double && |s| > 2 ==> ParseIPv6(s) == Loop(s[2..], [], Some(0)))
            && (!double ==> ParseIPv6(s) == Loop(s, [], None))
  {
    hide Loop, Expand;
  }

  // Saves one 16-bit group.
  method StoreGroup(ip: array<int>, i: nat, n: nat)
    requires i + 2 <= ip.Length
    modifies ip
    ensures ip[..i + 2] == old(ip[..i]) + [n / 256, n]
  {
    ghost var before := ip[..i];
    ip[i], ip[i + 1] := n / 256, n;
    assert ip[..i] == before;
  }

  // A dot behind the digits: the rest must be an IPv4 address in the right place.
  method TrailingIPv4(cp: string, ip: array<int>, i: nat, ellipsis: Option<nat>, ghost c: nat) returns (ok: bool)
    requires ip.Length == 16 && i < 16 && i % 2 == 0 && (ellipsis.Some? ==> ellipsis.value <= i)
    requires c == DigitRun(cp, true) && IsGroup(cp[..c]) && c < |cp| && cp[c] == '.'
    modifies ip
    ensures ok ==> i + 4 <= 16
    ensures Loop(cp, old(ip[..i]), ellipsis) == if ok then Finish("", ip[..i + 4], ellipsis) else None
  {
    hide *;
    ghost var before := ip[..i];
    LoopDot(cp, c, before, ellipsis);
    if ellipsis.None? && i != 12 {
      return false;
    }
    if i + 4 > 16 {
      return false;
    }
    var v4 := ParseDotted(cp);
    if v4.None? {
      return false;
    }
    FourOctets(cp);
    ip[i], ip[i + 1], ip[i + 2], ip[i + 3] := v4.value[0], v4.value[1], v4.value[2], v4.value[3];
    assert ip[..i + 4] == before + v4.value;
    return true;
  }

  // `address` is what the sixteen entries hold at the end. For "::" alone none of them has been written.
  method ValidateIPv6(s: string) returns (ret: bool, ghost address: Option<seq<int>>)
    ensures ret <==> ParseIPv6(s).Some?
    ensures s != "::" ==> address == ParseIPv6(s)
  {
    hide *;
    LoopStart(s);
    ghost var want := ParseIPv6(s);
    address := None;
    var cp := s;
    var ip := new int[16];
    var ellipsis: Option<nat> := None;
    if |cp| >= 2 && cp[0] == ':' && cp[1] == ':' {
      ellipsis := Some(0);
      cp := cp[2..];
      if |cp| == 0 {
        assert s == "::";
        return true, Some(ip[..]);
      }
    }
    var i := 0;
    while i < 16
      invariant i <= 16 && i % 2 == 0 && (ellipsis.Some? ==> ellipsis.value <= i)
      invariant cp != "" || ellipsis.None?
      invariant want == Loop(cp, ip[..i], ellipsis)
      invariant i == 16 ==> want == Finish(cp, ip[..i], ellipsis)
      decreases 16 - i
    {
      var n, c, ok := Xtoi(cp);
      GroupTest(cp, n, c, ok);
      ghost var before := ip[..i];
      if !ok || n > 0xFFFF {
        LoopNoGroup(cp, before, ellipsis);
        return false, None;
      }
      if c < |cp| && cp[c] == '.' {
        var quad := TrailingIPv4(cp, ip, i, ellipsis, c);
        if !quad {
          return false, None;
        }
        cp := "";
        i := i + 4;
        break;
      }
      LoopGroup(cp, c, before, ellipsis);
      StoreGroup(ip, i, n);
      i := i + 2;
      cp := cp[c..];
      if |cp| == 0 {
        break;
      }
      if cp[0] != ':' || |cp| == 1 {
        return false, None;
      }
      ghost var rest := cp;
      cp := cp[1..];
      if cp[0] == ':' {
        if ellipsis.Some? {
          return false, None;
        }
        ellipsis := Some(i);
        cp := cp[1..];
        assert cp == rest[2..];
        if |cp| == 0 {
          break;
        }
      }
      if i == 16 {
        LoopFull(cp, ip[..i], ellipsis);
      }
    }
    assert want == Finish(cp, ip[..i], ellipsis);
    ret := Close(cp, ip, i, ellipsis);
    address := if ret then Some(ip[..]) else None;
  }

  // Behind the loop: nothing may be left over, and an address that is too short needs its "::".
  method Close(cp: string, ip: array<int>, i: nat, ellipsis: Option<nat>) returns (ret: bool)
    requires ip.Length == 16 && i <= 16 && (ellipsis.Some? ==> ellipsis.value <= i)
    modifies ip
    ensures var a := Finish(cp, old(ip[..i]), ellipsis);
            (ret <==> a.Some?) && (ret ==> ip[..] == a.value)
  {
    hide Expand;
    if |cp| != 0 {
      return false;
    }
    if i < 16 {
      if ellipsis.None? {
        return false;
      }
      ExpandEllipsis(ip, i, ellipsis.value);
    } else if ellipsis.Some? {
      return false;
    }
    assert ip[..16] == ip[..];
    return true;
  }

  lemma GroupTest(cp: string, n: nat, c: nat, ok: bool)
    requires var r := DigitRun(cp, true); ok <==> r > 0 && Value(cp[..r], 16) < 0xFFFFFF
    requires ok ==> c == DigitRun(cp, true) && n == Value(cp[..c], 16)
    ensures var g := cp[..DigitRun(cp, true)];
            && (IsGroup(g) <==> ok && n <= 0xFFFF)
            && (IsGroup(g) ==> GroupEntries(g) == [n / 256, n])
  {
    hide Value;
  }

  lemma FourOctets(s: string)
    requires ParseIPv4(s).Some?
    ensures |ParseIPv4(s).value| == 4
  {
    var ws := OctetsSound(s, 4, true);
  }

  /** Scans for the first dot or colon and asks the scanner it calls for. */
  method ValidateIp(s: string) returns (ret: bool)
    ensures ret <==> Validate(s, 0)
  {
    var i := 0;
    while i < |s|
      invariant i <= |s| && Validate(s, 0) == Validate(s, i)
    {
      if s[i] == '.' {
        var v4 := ParseDotted(s);
        return v4.Some?;
      } else if s[i] == ':' {
        var ok, a := ValidateIPv6(s);
        return ok;
      }
      i := i + 1;
    }
    return false;
  }
}
