/** Splitting a text at a delimiter as `strtok` does, into the maximal runs without it, and finding its first place. */
module Splitting {

  // The position of the first `c`, the length if there is none.
  function IndexOf<T(==)>(s: seq<T>, c: T): (i: nat)
    ensures i <= |s| && (i < |s| ==> s[i] == c) && forall j | 0 <= j < i :: s[j] != c
  {
    if s == [] || s[0] == c then 0 else IndexOf(s[1..], c) + 1
  }

  lemma IndexOfIs<T>(s: seq<T>, c: T, n: nat)
    requires n <= |s| && (n < |s| ==> s[n] == c) && forall j | 0 <= j < n :: s[j] != c
    ensures IndexOf(s, c) == n
  {
  }

  // The end of the run without `d` that starts at `i`.
  function RunEnd(s: string, i: nat, d: char): (j: nat)
    requires i <= |s|
    ensures i <= j <= |s| && (j < |s| ==> s[j] == d) && (i < |s| && s[i] != d ==> i < j)
    decreases |s| - i
  {
    if i == |s| || s[i] == d then i else RunEnd(s, i + 1, d)
  }

  // The tokens from position `i` on.
  function Tokens(s: string, i: nat, d: char): seq<string>
    requires i <= |s|
    decreases |s| - i
  {
    if i == |s| then []
    else if s[i] == d then Tokens(s, i + 1, d)
    else
      var j := RunEnd(s, i, d);
      [s[i..j]] + Tokens(s, j, d)
  }

  // A text without the delimiter has no tokens at all.
  function Split(s: string, d: char): seq<string> {
    if d in s then Tokens(s, 0, d) else []
  }

  method SplitText(s: string, d: char) returns (tokens: seq<string>)
    ensures tokens == Split(s, d)
  {
    tokens := [];
    if d !in s {
      return;
    }
    var i := 0;
    while i < |s|
      invariant 0 <= i <= |s| && Split(s, d) == tokens + Tokens(s, i, d)
    {
      if s[i] == d {
        i := i + 1;
      } else {
        var start := i;
        while i < |s| && s[i] != d
          invariant start <= i <= |s| && (i > start || s[i] != d)
          invariant RunEnd(s, start, d) == RunEnd(s, i, d)
        {
          i := i + 1;
        }
        tokens := tokens + [s[start..i]];
      }
    }
  }

  predicate IsToken(w: string, d: char) {
    w != "" && d !in w
  }

  predicate AreTokens(ws: seq<string>, d: char) {
    forall k | 0 <= k < |ws| :: IsToken(ws[k], d)
  }

  // The tokens, each behind a delimiter.
  function Delimited(ws: seq<string>, d: char): string {
    if ws == [] then "" else [d] + ws[0] + Delimited(ws[1..], d)
  }

  lemma {:induction false} RunHasNone(s: string, i: nat, d: char)
    requires i <= |s|
    ensures forall k | i <= k < RunEnd(s, i, d) :: s[k] != d
    decreases |s| - i
  {
    if i < |s| && s[i] != d {
      RunHasNone(s, i + 1, d);
    }
  }

  lemma {:induction false} TokensAreTokens(s: string, i: nat, d: char)
    requires i <= |s|
    ensures AreTokens(Tokens(s, i, d), d)
    decreases |s| - i
  {
    if i == |s| {
    } else {
      if s[i] == d {
        TokensAreTokens(s, i + 1, d);
      } else {
        var j := RunEnd(s, i, d);
        RunHasNone(s, i, d);
        TokensAreTokens(s, j, d);
      }
    }
  }

  /** Every token is non-empty and free of the delimiter. */
  lemma SplitIsTokens(s: string, d: char)
    ensures AreTokens(Split(s, d), d)
  {
    if d in s {
      TokensAreTokens(s, 0, d);
    }
  }

  lemma {:induction false} RunEndsAt(s: string, i: nat, j: nat, d: char)
    requires i <= j <= |s| && (j < |s| ==> s[j] == d) && forall k | i <= k < j :: s[k] != d
    ensures RunEnd(s, i, d) == j
    decreases j - i
  {
    if i == j {
    } else {
      RunEndsAt(s, i + 1, j, d);
    }
  }

  lemma {:induction false} TokensOfDelimited(s: string, i: nat, ws: seq<string>, d: char)
    requires i <= |s| && s[i..] == Delimited(ws, d) && AreTokens(ws, d)
    ensures Tokens(s, i, d) == ws
    decreases |ws|
  {
    if ws == [] {
    } else {
      var w, rest := ws[0], Delimited(ws[1..], d);
      var j := i + 1 + |w|;
      assert s[i..] == [d] + w + rest;
      assert s[i] == s[i..][0] && s[i + 1..] == s[i..][1..] == w + rest;
      assert s[i + 1..j] == w && s[j..] == rest;
      assert forall k | i + 1 <= k < j :: s[k] == w[k - i - 1];
      assert j < |s| ==> s[j] == rest[0];
      RunEndsAt(s, i + 1, j, d);
      TokensOfDelimited(s, j, ws[1..], d);
    }
  }

  // Without the first delimiter.
  lemma TokensWithoutFirst(w: string, rest: string, ws: seq<string>, d: char)
    requires IsToken(w, d) && AreTokens(ws, d) && rest == Delimited(ws, d)
    ensures Tokens(w + rest, 0, d) == [w] + ws
  {
    var t := w + rest;
    assert t[..|w|] == w && t[|w|..] == rest;
    assert rest != "" ==> t[|w|] == rest[0] == d;
    assert forall k | 0 <= k < |w| :: t[k] == w[k];
    hide Delimited;
    RunEndsAt(t, 0, |w|, d);
    TokensOfDelimited(t, |w|, ws, d);
  }

  /** Every non-empty list of tokens comes back from the text that delimits them, with or without a first delimiter. */
  lemma SplitOfDelimited(ws: seq<string>, d: char)
    requires ws != [] && AreTokens(ws, d)
    ensures Split(Delimited(ws, d), d) == ws
    ensures |ws| > 1 ==> Split(Delimited(ws, d)[1..], d) == ws
  {
    var s := Delimited(ws, d);
    var w, rest := ws[0], Delimited(ws[1..], d);
    assert s == [d] + w + rest && s[0] == d && s[1..] == w + rest;
    assert |ws| > 1 ==> rest[0] == d && (w + rest)[|w|] == d;
    hide Tokens, Delimited;
    assert s[0..] == s;
    TokensOfDelimited(s, 0, ws, d);
    TokensWithoutFirst(w, rest, ws[1..], d);
    assert ws == [w] + ws[1..];
  }

  // ---------- what splitting means ----------

  function Repeated(d: char, n: nat): string {
    if n == 0 then "" else [d] + Repeated(d, n - 1)
  }

  // The tokens with `gaps[k]` delimiters in front of the k-th one, and the last number of them behind all.
  function LaidOut(ws: seq<string>, gaps: seq<nat>, d: char): string
    requires |gaps| == |ws| + 1
    decreases |ws|
  {
    Repeated(d, gaps[0]) + if ws == [] then "" else ws[0] + LaidOut(ws[1..], gaps[1..], d)
  }

  // Any number of delimiters at both ends, at least one between two tokens.
  predicate AreGaps(gaps: seq<nat>, n: nat) {
    |gaps| == n + 1 && forall k | 0 < k < n :: gaps[k] > 0
  }

  lemma OneMore(ws: seq<string>, less: seq<nat>, d: char) returns (gaps: seq<nat>)
    requires AreGaps(less, |ws|)
    ensures |gaps| == |less| && AreGaps(gaps, |ws|) && gaps[0] == less[0] + 1
    ensures LaidOut(ws, gaps, d) == [d] + LaidOut(ws, less, d)
  {
    gaps := [less[0] + 1] + less[1..];
    assert gaps[1..] == less[1..];
    assert Repeated(d, gaps[0]) == [d] + Repeated(d, less[0]);
  }

  lemma TokenMore(w: string, ws: seq<string>, rest: seq<nat>, d: char) returns (gaps: seq<nat>)
    requires AreGaps(rest, |ws|) && (ws != [] ==> rest[0] > 0)
    ensures |gaps| == |ws| + 2 && AreGaps(gaps, |ws| + 1) && gaps[0] == 0
    ensures LaidOut([w] + ws, gaps, d) == w + LaidOut(ws, rest, d)
  {
    gaps := [0] + rest;
    assert gaps[1..] == rest && ([w] + ws)[1..] == ws;
  }

  lemma NothingLaidOut(d: char)
    ensures AreGaps([0], 0) && LaidOut([], [0], d) == ""
  {
  }

  lemma TokensFrom(s: string, i: nat, d: char)
    requires i <= |s|
    ensures i == |s| ==> Tokens(s, i, d) == [] && s[i..] == ""
    ensures i < |s| && s[i] == d ==> Tokens(s, i, d) == Tokens(s, i + 1, d) && s[i..] == [d] + s[i + 1..]
    ensures i < |s| && s[i] != d ==>
              var j := RunEnd(s, i, d);
              && i < j && (j < |s| ==> s[j] == d) && (j == |s| ==> Tokens(s, j, d) == [])
              && Tokens(s, i, d) == [s[i..j]] + Tokens(s, j, d) && s[i..] == s[i..j] + s[j..]
  {
  }

  lemma {:induction false} TokensAreLaidOut(s: string, i: nat, d: char) returns (gaps: seq<nat>)
    requires i <= |s|
    ensures |gaps| == |Tokens(s, i, d)| + 1 && AreGaps(gaps, |Tokens(s, i, d)|)
    ensures s[i..] == LaidOut(Tokens(s, i, d), gaps, d)
    ensures gaps[0] > 0 <==> i < |s| && s[i] == d
    decreases |s| - i
  {
    hide *;
    TokensFrom(s, i, d);
    if i == |s| {
      NothingLaidOut(d);
      gaps := [0];
    } else if s[i] == d {
      var rest := TokensAreLaidOut(s, i + 1, d);
      gaps := OneMore(Tokens(s, i + 1, d), rest, d);
    } else {
      var j := RunEnd(s, i, d);
      var rest := TokensAreLaidOut(s, j, d);
      gaps := TokenMore(s[i..j], Tokens(s, j, d), rest, d);
    }
  }

  // One delimiter less in front.
  lemma OneLess(ws: seq<string>, gaps: seq<nat>, d: char) returns (less: seq<nat>)
    requires AreGaps(gaps, |ws|) && gaps[0] > 0
    ensures |less| == |gaps| && AreGaps(less, |ws|) && less[0] == gaps[0] - 1
    ensures LaidOut(ws, gaps, d) == [d] + LaidOut(ws, less, d)
  {
    less := [gaps[0] - 1] + gaps[1..];
    assert less[1..] == gaps[1..];
    assert Repeated(d, gaps[0]) == [d] + Repeated(d, less[0]);
  }

  // No delimiter in front: the first token, and then the end or a delimiter.
  lemma NoneInFront(ws: seq<string>, gaps: seq<nat>, d: char)
    requires AreGaps(gaps, |ws|) && gaps[0] == 0
    ensures ws == [] ==> LaidOut(ws, gaps, d) == ""
    ensures ws != [] ==> AreGaps(gaps[1..], |ws[1..]|) && LaidOut(ws, gaps, d) == ws[0] + LaidOut(ws[1..], gaps[1..], d)
    ensures ws != [] ==> var rest := LaidOut(ws[1..], gaps[1..], d); rest != "" ==> rest[0] == d
  {
    if ws != [] && gaps[1] > 0 {
      var less := OneLess(ws[1..], gaps[1..], d);
    }
  }

  lemma TokensSkip(s: string, i: nat, rest: string, d: char)
    requires i <= |s| && s[i..] == [d] + rest
    ensures i < |s| && s[i + 1..] == rest && Tokens(s, i, d) == Tokens(s, i + 1, d)
  {
    assert s[i] == s[i..][0] && s[i + 1..] == s[i..][1..];
  }

  lemma TokensAtEnd(s: string, i: nat, d: char)
    requires i <= |s| && s[i..] == ""
    ensures Tokens(s, i, d) == []
  {
  }

  lemma TokenAhead(s: string, i: nat, w: string, rest: string, d: char)
    requires i <= |s| && s[i..] == w + rest && IsToken(w, d) && (rest != "" ==> rest[0] == d)
    ensures i + |w| <= |s| && s[i + |w|..] == rest && Tokens(s, i, d) == [w] + Tokens(s, i + |w|, d)
  {
    var j := i + |w|;
    assert s[i..j] == w && s[j..] == rest;
    assert forall k | i <= k < j :: s[k] == w[k - i];
    assert j < |s| ==> s[j] == rest[0];
    RunEndsAt(s, i, j, d);
  }

  lemma {:induction false} TokensOfLaidOut(s: string, i: nat, ws: seq<string>, gaps: seq<nat>, d: char)
    requires i <= |s| && AreTokens(ws, d) && |gaps| == |ws| + 1 && AreGaps(gaps, |ws|) && s[i..] == LaidOut(ws, gaps, d)
    ensures Tokens(s, i, d) == ws
    decreases |ws|, gaps[0]
  {
    hide LaidOut, Tokens, AreGaps, Repeated;
    if gaps[0] > 0 {
      var less := OneLess(ws, gaps, d);
      TokensSkip(s, i, LaidOut(ws, less, d), d);
      TokensOfLaidOut(s, i + 1, ws, less, d);
    } else {
      NoneInFront(ws, gaps, d);
      if ws == [] {
        TokensAtEnd(s, i, d);
      } else {
        TokenAhead(s, i, ws[0], LaidOut(ws[1..], gaps[1..], d), d);
        TokensOfLaidOut(s, i + |ws[0]|, ws[1..], gaps[1..], d);
        assert ws == [ws[0]] + ws[1..];
      }
    }
  }

  /** Splitting gives the maximal runs: a text with the delimiter in it has the tokens `ws` exactly if it is these
      tokens, in order, with any number of delimiters at both ends and at least one between two of them. A text without
      the delimiter has none. */
  lemma SplitIff(s: string, d: char, ws: seq<string>)
    ensures Split(s, d) == ws
            <==> if d in s then AreTokens(ws, d) && exists gaps :: AreGaps(gaps, |ws|) && s == LaidOut(ws, gaps, d)
                 else ws == []
  {
    if d in s {
      assert s[0..] == s;
      if Split(s, d) == ws {
        SplitIsTokens(s, d);
        var gaps := TokensAreLaidOut(s, 0, d);
      }
      if gaps :| AreTokens(ws, d) && AreGaps(gaps, |ws|) && s == LaidOut(ws, gaps, d) {
        TokensOfLaidOut(s, 0, ws, gaps, d);
      }
    }
  }
}
