/** Query strings: percent-decoding, its inverse, and the grouping of values by key. */
module QueryText {
  import opened Bytes
  import opened Options
  import opened Splitting

  type Text = seq<Byte>

  const PERCENT: Byte := 37
  const AMPERSAND: Byte := 38
  const PLUS: Byte := 43
  const SEMICOLON: Byte := 59
  const EQUALS: Byte := 61
  const SPACE: Byte := 32

  predicate IsHex(c: Byte) {
    48 <= c <= 57 || 97 <= c <= 102 || 65 <= c <= 70
  }

  function Unhex(c: Byte): (v: nat)
    requires IsHex(c)
    ensures v < 16
  {
    if c <= 57 then c - 48 else if c <= 70 then c - 65 + 10 else c - 97 + 10
  }

  // ---------- unescape ----------

  // Every percent sign is followed by two hex digits.
  predicate WellEscaped(s: Text, i: nat)
    requires i <= |s|
    decreases |s| - i
  {
    if i == |s| then true
    else if s[i] == PERCENT then i + 2 < |s| && IsHex(s[i + 1]) && IsHex(s[i + 2]) && WellEscaped(s, i + 3)
    else WellEscaped(s, i + 1)
  }

  // A decoded NUL is an empty string to the buffer, so it vanishes.
  function Emit(b: Byte): Text {
    if b == 0 then [] else [b]
  }

  // Where the character at `i` ends, and what it decodes to.
  function Next(s: Text, i: nat): (j: nat)
    requires i < |s| && WellEscaped(s, i)
    ensures i < j <= |s| && WellEscaped(s, j)
  {
    if s[i] == PERCENT then i + 3 else i + 1
  }

  function Chunk(s: Text, i: nat): Text
    requires i < |s| && WellEscaped(s, i)
  {
    if s[i] == PERCENT then Emit(Unhex(s[i + 1]) * 16 + Unhex(s[i + 2]))
    else if s[i] == PLUS then [SPACE]
    else Emit(s[i])
  }

  function Decode(s: Text, i: nat): Text
    requires i <= |s| && WellEscaped(s, i)
    decreases |s| - i
  {
    if i == |s| then [] else Chunk(s, i) + Decode(s, Next(s, i))
  }

  function Unescaped(s: Text): Option<Text> {
    if WellEscaped(s, 0) then Some(Decode(s, 0)) else None
  }

  method Unescape(s: Text) returns (r: Option<Text>)
    requires 0 !in s
    ensures r == Unescaped(s)
  {
    var n, hasPlus, i := 0, false, 0;
    while i < |s|
      invariant i <= |s| && WellEscaped(s, 0) == WellEscaped(s, i)
      invariant n == 0 && !hasPlus ==> forall k | 0 <= k < i :: s[k] != PERCENT && s[k] != PLUS
    {
      if s[i] == PERCENT {
        n := n + 1;
        if i + 2 >= |s| || !IsHex(s[i + 1]) || !IsHex(s[i + 2]) {
          return None;
        }
        i := i + 3;
      } else if s[i] == PLUS {
        hasPlus := true;
        i := i + 1;
      } else {
        i := i + 1;
      }
    }
    if n == 0 && !hasPlus {
      PlainDecodes(s, 0);
      return Some(s);
    }
    var b: Text := [];
    i := 0;
    assert b + Decode(s, 0) == Decode(s, 0);
    while i < |s|
      invariant i <= |s| && WellEscaped(s, i) && Decode(s, 0) == b + Decode(s, i)
    {
      Reassociate(b, Chunk(s, i), Decode(s, Next(s, i)));
      if s[i] == PERCENT {
        b := b + Emit(Unhex(s[i + 1]) * 16 + Unhex(s[i + 2]));
        i := i + 2;
      } else if s[i] == PLUS {
        b := b + [SPACE];
      } else {
        b := b + [s[i]];
      }
      i := i + 1;
    }
    assert b + [] == b;
    return Some(b);
  }

  lemma Reassociate(a: Text, b: Text, c: Text)
    ensures a + (b + c) == a + b + c
  {
  }

  lemma {:induction false} PlainDecodes(s: Text, i: nat)
    requires i <= |s| && 0 !in s && forall k | i <= k < |s| :: s[k] != PERCENT && s[k] != PLUS
    ensures WellEscaped(s, i) && Decode(s, i) == s[i..]
    decreases |s| - i
  {
    if i == |s| {
    } else {
      PlainDecodes(s, i + 1);
    }
  }

  // ---------- the reference escaper: section 2.1 of RFC 3986, with '+' for a space ----------

  predicate IsUnreserved(c: Byte) {
    48 <= c <= 57 || 65 <= c <= 90 || 97 <= c <= 122 || c == 45 || c == 46 || c == 95 || c == 126
  }

  function HexDigit(v: nat): (c: Byte)
    requires v < 16
    ensures IsHex(c) && Unhex(c) == v
  {
    if v < 10 then 48 + v else 65 + v - 10
  }

  function EscapeByte(c: Byte): Text {
    if IsUnreserved(c) then [c]
    else if c == SPACE then [PLUS]
    else [PERCENT, HexDigit(c / 16), HexDigit(c % 16)]
  }

  function Escape(s: Text): Text {
    if s == [] then [] else EscapeByte(s[0]) + Escape(s[1..])
  }

  lemma ChunkOfEscape(w: Text, i: nat, c: Byte)
    requires c != 0
    requires var e := EscapeByte(c); i + |e| <= |w| && w[i..i + |e|] == e && WellEscaped(w, i + |e|)
    ensures WellEscaped(w, i) && Next(w, i) == i + |EscapeByte(c)| && Chunk(w, i) == [c]
  {
    hide IsHex, Unhex;
    var e := EscapeByte(c);
    var x := w[i..i + |e|];
    assert |e| == 3 ==> w[i] == x[0] && w[i + 1] == x[1] && w[i + 2] == x[2];
    assert |e| == 1 ==> w[i] == x[0];
  }

  lemma {:induction false} DecodeEscape(w: Text, i: nat, s: Text)
    requires i <= |w| && w[i..] == Escape(s) && 0 !in s
    ensures WellEscaped(w, i) && Decode(w, i) == s
    decreases |s|
  {
    hide EscapeByte, Chunk, Next, WellEscaped;
    if s == [] {
      AtEnd(w);
    } else {
      var e := EscapeByte(s[0]);
      assert w[i..] == e + Escape(s[1..]);
      var j := i + |e|;
      assert w[i..j] == w[i..][..|e|] == e && w[j..] == w[i..][|e|..] == Escape(s[1..]);
      DecodeEscape(w, j, s[1..]);
      ChunkOfEscape(w, i, s[0]);
      NotAtEnd(s[0]);
      assert s == [s[0]] + s[1..];
    }
  }

  lemma AtEnd(w: Text)
    ensures WellEscaped(w, |w|)
  {
  }

  lemma NotAtEnd(c: Byte)
    ensures EscapeByte(c) != []
  {
  }

  /** `unescape` inverts the escaper on every text without NUL. */
  lemma UnescapeInvertsEscape(s: Text)
    requires 0 !in s
    ensures Unescaped(Escape(s)) == Some(s)
  {
    DecodeEscape(Escape(s), 0, s);
  }

  // ---------- cutting ----------

  lemma IndexOfAt(a: Text, c: Byte, b: Text)
    requires c !in a
    ensures IndexOf(a + [c] + b, c) == |a| && (a + [c] + b)[..|a|] == a && (a + [c] + b)[|a| + 1..] == b
    ensures IndexOf(a, c) == |a|
  {
    var s := a + [c] + b;
    assert s[..|a|] == a && a[..|a|] == a;
    IndexOfIs(s, c, |a|);
    IndexOfIs(a, c, |a|);
  }

  // The text behind the first `c`; nothing if there is none.
  function Behind(s: Text, c: Byte): (r: Text)
    ensures s != [] ==> |r| < |s|
  {
    var i := IndexOf(s, c);
    if i < |s| then s[i + 1..] else []
  }

  // ---------- parse_query ----------

  // The key and value of one piece; a piece with a ';', without '=', or with an empty or ill-escaped side has none.
  function PairOf(piece: Text): Option<(Text, Text)> {
    var i := IndexOf(piece, EQUALS);
    if SEMICOLON in piece || i == 0 || |piece| <= i + 1 then None
    else
      match (Unescaped(piece[..i]), Unescaped(piece[i + 1..]))
      case (Some(k), Some(v)) => Some((k, v))
      case _ => None
  }

  // The pairs of a query, in order.
  function Pairs(query: Text): seq<(Text, Text)>
    decreases |query|
  {
    if query == [] then []
    else
      var pair := PairOf(query[..IndexOf(query, AMPERSAND)]);
      (if pair.Some? then [pair.value] else []) + Pairs(Behind(query, AMPERSAND))
  }

  // The values given to a key, in order.
  function ValuesOf(pairs: seq<(Text, Text)>, k: Text): seq<Text> {
    if pairs == [] then []
    else ValuesOf(pairs[..|pairs| - 1], k) + if pairs[|pairs| - 1].0 == k then [pairs[|pairs| - 1].1] else []
  }

  // `m` groups the values of the pairs by key, and has no other keys.
  ghost predicate Groups(m: map<Text, seq<Text>>, pairs: seq<(Text, Text)>) {
    forall k :: (k in m <==> ValuesOf(pairs, k) != []) && (k in m ==> m[k] == ValuesOf(pairs, k))
  }

  // No piece between ampersands is empty, except after a trailing one; an empty piece reaches a null string.
  predicate NoEmptyPiece(query: Text)
    decreases |query|
  {
    query == [] || (query[0] != AMPERSAND && NoEmptyPiece(Behind(query, AMPERSAND)))
  }

  lemma GroupsStep(m: map<Text, seq<Text>>, pairs: seq<(Text, Text)>, k: Text, v: Text)
    requires Groups(m, pairs)
    ensures Groups(m[k := (if k in m then m[k] else []) + [v]], pairs + [(k, v)])
  {
    var more := pairs + [(k, v)];
    assert more[..|more| - 1] == pairs;
    assert forall x :: ValuesOf(more, x) == ValuesOf(pairs, x) + if x == k then [v] else [];
  }

  lemma PairsStep(done: seq<(Text, Text)>, rest: Text)
    requires rest != [] && 0 !in rest && NoEmptyPiece(rest)
    ensures var pair := PairOf(rest[..IndexOf(rest, AMPERSAND)]);
            var behind := Behind(rest, AMPERSAND);
            && done + Pairs(rest) == (if pair.Some? then done + [pair.value] else done) + Pairs(behind)
            && 0 !in behind && NoEmptyPiece(behind)
  {
    hide PairOf;
    var pair := PairOf(rest[..IndexOf(rest, AMPERSAND)]);
    if pair.Some? {
      var more := Pairs(Behind(rest, AMPERSAND));
      assert done + ([pair.value] + more) == done + [pair.value] + more;
    } else {
      assert [] + Pairs(Behind(rest, AMPERSAND)) == Pairs(Behind(rest, AMPERSAND));
    }
  }

  lemma NoPairs()
    ensures Groups(map[], [])
  {
  }

  lemma PairsEnd(done: seq<(Text, Text)>)
    ensures done + Pairs([]) == done
  {
  }

  method ParseQuery(query: Text) returns (ht: map<Text, seq<Text>>)
    requires 0 !in query && NoEmptyPiece(query)
    ensures Groups(ht, Pairs(query))
  {
    hide Groups, Pairs, NoEmptyPiece, Unescaped, IndexOf, Behind;
    ht := map[];
    var rest := query;
    ghost var done: seq<(Text, Text)> := [];
    assert done + Pairs(query) == Pairs(query);
    NoPairs();
    while rest != []
      invariant Groups(ht, done) && Pairs(query) == done + Pairs(rest) && NoEmptyPiece(rest) && 0 !in rest
      decreases |rest|
    {
      PairsStep(done, rest);
      var piece := rest[..IndexOf(rest, AMPERSAND)];
      rest := Behind(rest, AMPERSAND);
      if SEMICOLON in piece {
        continue;
      }
      var j := IndexOf(piece, EQUALS);
      if j == |piece| || j == 0 || j + 1 == |piece| {
        continue;
      }
      var key := Unescape(piece[..j]);
      if key.None? {
        continue;
      }
      var value := Unescape(piece[j + 1..]);
      if value.None? {
        continue;
      }
      var k, v := key.value, value.value;
      GroupsStep(ht, done, k, v);
      done := done + [(k, v)];
      if k !in ht {
        ht := ht[k := [] + [v]];
      } else {
        ht := ht[k := ht[k] + [v]];
      }
    }
    PairsEnd(done);
  }

  // ---------- printing a query ----------

  function PairText(p: (Text, Text)): Text {
    Escape(p.0) + [EQUALS] + Escape(p.1)
  }

  function QueryOf(pairs: seq<(Text, Text)>): Text {
    if pairs == [] then []
    else if |pairs| == 1 then PairText(pairs[0])
    else PairText(pairs[0]) + [AMPERSAND] + QueryOf(pairs[1..])
  }

  predicate ArePairs(pairs: seq<(Text, Text)>) {
    forall i | 0 <= i < |pairs| :: pairs[i].0 != [] && pairs[i].1 != [] && 0 !in pairs[i].0 && 0 !in pairs[i].1
  }

  predicate IsPlain(c: Byte) {
    IsUnreserved(c) || c == PLUS || c == PERCENT
  }

  lemma {:induction false} EscapedIsPlain(s: Text)
    ensures forall c | c in Escape(s) :: IsPlain(c)
    ensures s != [] ==> Escape(s) != []
    decreases |s|
  {
    if s == [] {
    } else {
      EscapedIsPlain(s[1..]);
      assert forall c | c in EscapeByte(s[0]) :: IsPlain(c);
    }
  }

  lemma PairTextParses(p: (Text, Text))
    requires p.0 != [] && p.1 != [] && 0 !in p.0 && 0 !in p.1
    ensures PairOf(PairText(p)) == Some(p)
    ensures AMPERSAND !in PairText(p) && PairText(p) != [] && 0 !in PairText(p)
  {
    hide Unescaped, Escape, IndexOf;
    EscapedIsPlain(p.0);
    EscapedIsPlain(p.1);
    IndexOfAt(Escape(p.0), EQUALS, Escape(p.1));
    UnescapeInvertsEscape(p.0);
    UnescapeInvertsEscape(p.1);
  }

  // A query is its first piece, and an ampersand with the rest if there is one.
  lemma QueryParts(w: Text, rest: Text)
    requires AMPERSAND !in w
    ensures w[..IndexOf(w, AMPERSAND)] == w && Behind(w, AMPERSAND) == []
    ensures var q := w + [AMPERSAND] + rest; q[..IndexOf(q, AMPERSAND)] == w && Behind(q, AMPERSAND) == rest
  {
    IndexOfAt(w, AMPERSAND, rest);
  }

  /** Every list of non-empty pairs comes back, in order, from the query printed for it. */
  lemma {:induction false} PairsOfQuery(pairs: seq<(Text, Text)>)
    requires ArePairs(pairs)
    ensures Pairs(QueryOf(pairs)) == pairs && NoEmptyPiece(QueryOf(pairs)) && 0 !in QueryOf(pairs)
    decreases |pairs|
  {
    hide PairOf, PairText, IndexOf, Behind;
    if pairs == [] {
    } else {
      var w := PairText(pairs[0]);
      PairTextParses(pairs[0]);
      QueryParts(w, QueryOf(pairs[1..]));
      PairsOfQuery(pairs[1..]);
      assert pairs == [pairs[0]] + pairs[1..];
    }
  }

  /** The grouping loses and invents no value: a value occurs under a key as often as the pair occurs in the query. */
  lemma {:induction false} NoValueLost(pairs: seq<(Text, Text)>, k: Text, v: Text)
    ensures multiset(ValuesOf(pairs, k))[v] == multiset(pairs)[(k, v)]
    decreases |pairs|
  {
    if pairs == [] {
    } else {
      var n := |pairs| - 1;
      NoValueLost(pairs[..n], k, v);
      assert pairs == pairs[..n] + [pairs[n]];
    }
  }
}
