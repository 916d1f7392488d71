/** What texts the query parser reads: every encoding of a text, in either case of the digits, and every list of pieces
    between ampersands. */
module QueryForms {
  import opened Bytes
  import opened Options
  import opened QueryText
  import opened Splitting

  // ---------- percent encodings ----------

  lemma UnhexIff(c: Byte, v: nat)
    ensures IsHex(c) && Unhex(c) == v <==> IsDigitFor(c as char, v)
  {
  }

  // `e` encodes the byte `b`: itself, '+' for a space, or '%' and two digits.
  ghost predicate EncodesByte(e: Text, b: Byte) {
    || (|e| == 1 && e[0] as char !in "%+" && b == e[0])
    || (|e| == 1 && e[0] as char == '+' && b as char == ' ')
    || (|e| == 3 && e[0] as char == '%' && IsDigitFor(e[1] as char, b / 16) && IsDigitFor(e[2] as char, b % 16))
  }

  // `t` is a row of encodings, of the bytes of `s` and of any number of NULs.
  ghost predicate IsEncoding(t: Text, s: Text)
    decreases |t|
  {
    if t == [] then s == []
    else exists j, b | 0 < j <= |t| ::
           && EncodesByte(t[..j], b)
           && if b == 0 then IsEncoding(t[j..], s) else s != [] && s[0] == b && IsEncoding(t[j..], s[1..])
  }

  // There is one way to read the encoding at `i`, the way of the code.
  lemma EncodedIff(t: Text, i: nat, j: nat, b: Byte)
    requires i < j <= |t| && 0 !in t
    ensures EncodesByte(t[i..j], b) && WellEscaped(t, j) <==>
            WellEscaped(t, i) && Next(t, i) == j && Chunk(t, i) == Emit(b)
  {
    hide IsDigitFor, IsHex, Unhex;
    var e := t[i..j];
    assert forall k | 0 <= k < j - i :: e[k] == t[i + k];
    if t[i] == PERCENT && i + 2 < |t| {
      UnhexIff(t[i + 1], b / 16);
      UnhexIff(t[i + 2], b % 16);
    }
  }

  // What is left of `s` behind the byte `b`.
  function Less(s: Text, b: Byte): Text {
    if b == 0 || s == [] then s else s[1..]
  }

  lemma DecodeStep(t: Text, i: nat, j: nat, b: Byte, s: Text)
    requires i < j <= |t| && WellEscaped(t, i) && Next(t, i) == j && Chunk(t, i) == Emit(b)
    ensures Decode(t, i) == s <==> (b != 0 ==> s != [] && s[0] == b) && Decode(t, j) == Less(s, b)
  {
    hide Chunk, Next, WellEscaped;
    if b == 0 {
      assert [] + Decode(t, j) == Decode(t, j);
    } else {
      assert ([b] + Decode(t, j))[1..] == Decode(t, j);
      assert s != [] ==> s == [s[0]] + s[1..];
    }
  }

  // The encoding of `b` stands at `i` up to `j`, and the rest encodes the rest.
  ghost predicate StepAt(t: Text, i: nat, s: Text, j: nat, b: Byte) {
    i < j <= |t| && EncodesByte(t[i..j], b) && (b != 0 ==> s != [] && s[0] == b) && IsEncoding(t[j..], Less(s, b))
  }

  lemma EncodingSteps(t: Text, i: nat, s: Text)
    requires i < |t|
    ensures IsEncoding(t[i..], s) <==> exists j: nat, b: Byte :: StepAt(t, i, s, j, b)
  {
    hide EncodesByte;
    var w := t[i..];
    if IsEncoding(w, s) {
      var n, b :| 0 < n <= |w| && EncodesByte(w[..n], b)
        && if b == 0 then IsEncoding(w[n..], s) else s != [] && s[0] == b && IsEncoding(w[n..], s[1..]);
      assert w[..n] == t[i..i + n] && w[n..] == t[i + n..];
      assert StepAt(t, i, s, i + n, b);
    }
    if exists j: nat, b: Byte :: StepAt(t, i, s, j, b) {
      var j: nat, b: Byte :| StepAt(t, i, s, j, b);
      assert w[..j - i] == t[i..j] && w[j - i..] == t[j..];
    }
  }

  lemma {:induction false} DecodeIff(t: Text, i: nat, s: Text)
    requires i <= |t| && 0 !in t
    ensures WellEscaped(t, i) && Decode(t, i) == s <==> IsEncoding(t[i..], s)
    decreases |t| - i
  {
    if i == |t| {
    } else {
      hide EncodesByte, Chunk, Next, IsEncoding, WellEscaped, Decode, Less;
      EncodingSteps(t, i, s);
      if WellEscaped(t, i) && Decode(t, i) == s {
        var j := Next(t, i);
        var b := ChunkByte(t, i);
        EncodedIff(t, i, j, b);
        DecodeStep(t, i, j, b, s);
        DecodeIff(t, j, Less(s, b));
        assert StepAt(t, i, s, j, b);
      }
      if IsEncoding(t[i..], s) {
        var j: nat, b: Byte :| StepAt(t, i, s, j, b);
        DecodeIff(t, j, Less(s, b));
        EncodedIff(t, i, j, b);
        DecodeStep(t, i, j, b, s);
      }
    }
  }

  lemma ChunkByte(t: Text, i: nat) returns (b: Byte)
    requires i < |t| && 0 !in t && WellEscaped(t, i)
    ensures Chunk(t, i) == Emit(b)
  {
    b := if t[i] == PERCENT then Unhex(t[i + 1]) * 16 + Unhex(t[i + 2]) else if t[i] == PLUS then SPACE else t[i];
  }

  /** `unescape` gives `s` exactly for the encodings of `s`, and fails exactly for texts that encode nothing. */
  lemma UnescapedIff(t: Text, s: Text)
    requires 0 !in t
    ensures Unescaped(t) == Some(s) <==> IsEncoding(t, s)
    ensures Unescaped(t) == None <==> forall x :: !IsEncoding(t, x)
  {
    hide WellEscaped, Decode, IsEncoding;
    assert t[0..] == t;
    forall x
      ensures Unescaped(t) == Some(x) <==> IsEncoding(t, x)
    {
      DecodeIff(t, 0, x);
    }
    if Unescaped(t).Some? {
      assert IsEncoding(t, Unescaped(t).value);
    }
  }

  // ---------- pieces ----------

  // Something on both sides of the first '=', encodings of `k` and `v`, and no ';'.
  ghost predicate IsPiece(piece: Text, k: Text, v: Text, ek: Text, ev: Text) {
    && piece == ek + ['=' as int] + ev && '=' as int !in ek && ';' as int !in piece && ek != [] && ev != []
    && IsEncoding(ek, k) && IsEncoding(ev, v)
  }

  /** Which pieces give which pair; all others give none. */
  lemma PairOfIff(piece: Text, k: Text, v: Text)
    requires 0 !in piece
    ensures PairOf(piece) == Some((k, v)) <==> exists ek, ev :: IsPiece(piece, k, v, ek, ev)
  {
    hide Unescaped, IsEncoding, IndexOf;
    var i := IndexOf(piece, EQUALS);
    if PairOf(piece) == Some((k, v)) {
      var ek, ev := piece[..i], piece[i + 1..];
      UnescapedIff(ek, k);
      UnescapedIff(ev, v);
      assert IsPiece(piece, k, v, ek, ev);
    }
    if exists ek, ev :: IsPiece(piece, k, v, ek, ev) {
      var ek, ev :| IsPiece(piece, k, v, ek, ev);
      IndexOfAt(ek, EQUALS, ev);
      NotIn(ek, ev, piece);
      UnescapedIff(ek, k);
      UnescapedIff(ev, v);
    }
  }

  lemma NotIn(ek: Text, ev: Text, piece: Text)
    requires piece == ek + [EQUALS] + ev && 0 !in piece
    ensures 0 !in ek && 0 !in ev
  {
    assert forall c | c in ek :: c in piece;
    assert forall c | c in ev :: c in piece;
  }

  function Joined(pieces: seq<Text>): Text {
    if pieces == [] then []
    else if |pieces| == 1 then pieces[0]
    else pieces[0] + ['&' as int] + Joined(pieces[1..])
  }

  // The pairs of the pieces, in order.
  function PairsIn(pieces: seq<Text>): seq<(Text, Text)> {
    if pieces == [] then []
    else (if PairOf(pieces[0]).Some? then [PairOf(pieces[0]).value] else []) + PairsIn(pieces[1..])
  }

  /** A query is read piece by piece: pieces that give no pair take nothing with them. */
  lemma {:induction false} PairsOfPieces(pieces: seq<Text>)
    requires forall i | 0 <= i < |pieces| :: '&' as int !in pieces[i]
    ensures Pairs(Joined(pieces)) == PairsIn(pieces)
    decreases |pieces|
  {
    hide PairOf, IndexOf, Behind;
    if pieces == [] {
    } else {
      var rest := Joined(pieces[1..]);
      QueryParts(pieces[0], rest);
      PairsOfPieces(pieces[1..]);
      EmptyPiece();
      if |pieces| == 1 {
        assert pieces[1..] == [] && PairsIn([]) == [];
      }
    }
  }

  lemma EmptyPiece()
    ensures PairOf([]) == None
  {
  }
}
