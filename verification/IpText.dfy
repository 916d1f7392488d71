/** The text forms of IP addresses: dotted decimals, and the forms of section 2.2 of RFC 4291 for IPv6, each with the
    address it stands for. */
module IpText {
  import Bytes

  predicate IsDigit(c: char) {
    '0' <= c <= '9'
  }

  predicate IsHex(c: char) {
    '0' <= c <= '9' || 'a' <= c <= 'f' || 'A' <= c <= 'F'
  }

  function DigitValue(c: char): (v: nat)
    requires IsHex(c)
    ensures v < 16 && (IsDigit(c) ==> v < 10)
  {
    if IsDigit(c) then c as int - '0' as int
    else if 'a' <= c then c as int - 'a' as int + 10
    else c as int - 'A' as int + 10
  }

  /** The digits and their values, written out. */
  lemma DigitValueIff(c: char, v: nat)
    ensures IsHex(c) && DigitValue(c) == v <==> Bytes.IsDigitFor(c, v)
    ensures IsDigit(c) <==> exists d :: d < 10 && Bytes.IsDigitFor(c, d)
  {
    if IsHex(c) {
      assert Bytes.IsDigitFor(c, DigitValue(c));
    }
  }

  predicate AllHex(w: string) {
    forall k | 0 <= k < |w| :: IsHex(w[k])
  }

  predicate AllDigits(w: string) {
    forall k | 0 <= k < |w| :: IsDigit(w[k])
  }

  // The number a run of digits denotes.
  function Value(w: string, base: nat): nat
    requires AllHex(w)
  {
    if w == "" then 0 else Value(w[..|w| - 1], base) * base + DigitValue(w[|w| - 1])
  }

  // ---------- IPv4 ----------

  predicate IsOctet(w: string) {
    w != "" && AllDigits(w) && Value(w, 10) <= 255 && (|w| > 1 ==> w[0] != '0')
  }

  // `n` octets separated by dots.
  predicate AreOctets(ws: seq<string>) {
    forall k | 0 <= k < |ws| :: IsOctet(ws[k])
  }

  function Join(ws: seq<string>, sep: string): string {
    if ws == [] then "" else if |ws| == 1 then ws[0] else ws[0] + sep + Join(ws[1..], sep)
  }

  // What is left of a number stored in a `char` that is signed.
  function SignedChar(n: nat): int
    requires n < 256
  {
    if n < 128 then n else n - 256
  }

  function OctetEntries(ws: seq<string>): (a: seq<int>)
    requires AreOctets(ws)
    ensures |a| == |ws|
  {
    if ws == [] then [] else [SignedChar(Value(ws[0], 10))] + OctetEntries(ws[1..])
  }

  // `s` is the dotted form of the address stored as the four entries `a`.
  ghost predicate IsIPv4(s: string, a: seq<int>) {
    exists ws :: |ws| == 4 && AreOctets(ws) && s == Join(ws, ".") && a == OctetEntries(ws)
  }

  // ---------- IPv6 ----------

  // Any number of digits, as long as the value fits 16 bits.
  predicate IsGroup(w: string) {
    w != "" && AllHex(w) && Value(w, 16) <= 0xFFFF
  }

  // The two array entries a group fills; the second one is not masked to a byte.
  function GroupEntries(w: string): (b: seq<int>)
    requires IsGroup(w)
    ensures |b| == 2
  {
    [Value(w, 16) / 256, Value(w, 16)]
  }

  // Groups between colons, the last place possibly taken by a dotted IPv4 address: `text` denotes the entries `b`.
  ghost predicate IsRun(text: string, b: seq<int>, v4: bool)
    decreases |text|
  {
    || (IsGroup(text) && b == GroupEntries(text))
    || (v4 && IsIPv4(text, b))
    || (exists w, rest, b' :: && |rest| < |text| && IsGroup(w) && text == w + ":" + rest
                              && IsRun(rest, b', v4) && b == GroupEntries(w) + b')
  }

  function Zeros(n: nat): seq<int> {
    seq(n, _ => 0)
  }

  // "::" at `at` stands for as many zeros as are missing.
  function Expand(b: seq<int>, at: nat): seq<int>
    requires at <= |b| <= 16
  {
    b[..at] + Zeros(16 - |b|) + b[at..]
  }

  // The parts around "::" may be empty.
  ghost predicate IsPart(text: string, b: seq<int>, v4: bool) {
    (text == "" && b == []) || IsRun(text, b, v4)
  }

  // One "::", standing for at least one group; an IPv4 address may only come last.
  ghost predicate IsCompressed(s: string, a: seq<int>) {
    exists left, lb, rest, b :: && IsPart(left, lb, false) && IsPart(rest, b, true) && s == left + "::" + rest
                                && |lb| + |b| <= 14 && a == Expand(lb + b, |lb|)
  }

  // `s` is a text form of the address with the sixteen entries `a`.
  ghost predicate IsIPv6(s: string, a: seq<int>) {
    (IsRun(s, a, true) && |a| == 16) || IsCompressed(s, a)
  }
}
