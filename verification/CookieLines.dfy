/** The lines of printed cookies: how they are cut up again, and how their name and value come back. */
module CookieLines {
  import opened CookieText
  import opened Options
  import opened Splitting
  import HeaderKey

  // ---------- trimming ----------

  lemma {:induction false} TrimRightKeeps(a: string, b: string)
    requires a != "" && !IsSpace(a[|a| - 1])
    ensures TrimRight(a + b) == a + TrimRight(b)
    decreases |b|
  {
    if b != "" && IsSpace(b[|b| - 1]) {
      TrimRightKeeps(a, b[..|b| - 1]);
      assert (a + b)[..|a + b| - 1] == a + b[..|b| - 1];
    } else if b == "" {
      assert a + b == a;
    }
  }

  lemma {:induction false} TrimRightFacts(s: string)
    ensures TrimRight(s) <= s && TrimRight(TrimRight(s)) == TrimRight(s)
    ensures TrimRight(s) == s <==> s == "" || !IsSpace(s[|s| - 1])
    decreases |s|
  {
    if s != "" && IsSpace(s[|s| - 1]) {
      TrimRightFacts(s[..|s| - 1]);
    }
  }

  // ---------- the shape of a printed attribute ----------

  predicate IsPart(p: string) {
    p != "" && !IsSpace(p[0]) && ';' !in p
  }

  predicate AreParts(ps: seq<string>) {
    forall k | 0 <= k < |ps| :: IsPart(ps[k])
  }

  lemma TrimPart(p: string)
    requires IsPart(p)
    ensures IsPart(TrimRight(p)) && Trim(" " + p) == TrimRight(p)
    ensures TrimRight(TrimRight(p)) == TrimRight(p)
  {
    assert p == [p[0]] + p[1..];
    TrimRightKeeps([p[0]], p[1..]);
    TrimRightFacts(p);
    assert TrimRight(p)[0] == p[0];
    assert (" " + p)[1..] == p;
    assert TrimLeft(" " + p) == TrimLeft(p) == p;
  }

  function TrimLast(ps: seq<string>): seq<string> {
    if ps == [] then [] else ps[..|ps| - 1] + [TrimRight(ps[|ps| - 1])]
  }

  lemma TrimLastParts(ps: seq<string>)
    requires AreParts(ps)
    ensures AreParts(TrimLast(ps))
  {
    if ps != [] {
      TrimPart(ps[|ps| - 1]);
    }
  }

  lemma TrimBehind(pre: string, p: string)
    requires IsPart(p)
    ensures TrimRight(pre + p) == pre + TrimRight(p)
  {
    var head, rest := pre + [p[0]], p[1..];
    assert p == [p[0]] + rest;
    assert pre + p == head + rest;
    TrimRightKeeps(head, rest);
    TrimRightKeeps([p[0]], rest);
    assert head + TrimRight(rest) == pre + ([p[0]] + TrimRight(rest));
  }

  lemma SuffixStep(pre: string, p: string, rest: seq<string>)
    ensures pre + Suffix([p] + rest) == (pre + "; " + p) + Suffix(rest)
  {
    assert ([p] + rest)[1..] == rest;
    assert Suffix([p] + rest) == "; " + p + Suffix(rest);
  }

  // Trimming a line trims its last attribute.
  lemma {:induction false} TrimSuffix(pre: string, ps: seq<string>)
    requires AreParts(ps) && ps != []
    ensures TrimRight(pre + Suffix(ps)) == pre + Suffix(TrimLast(ps))
    decreases |ps|
  {
    hide IsPart, TrimRight, Suffix;
    var p, rest := ps[0], ps[1..];
    assert ps == [p] + rest;
    SuffixStep(pre, p, rest);
    if rest == [] {
      var q := TrimRight(p);
      TrimBehind(pre + "; ", p);
      assert TrimLast(ps) == [q] + rest;
      SuffixStep(pre, q, rest);
      SuffixNone(pre + "; " + p);
      SuffixNone(pre + "; " + q);
    } else {
      TrimSuffix(pre + "; " + p, rest);
      assert TrimLast(ps) == [p] + TrimLast(rest);
      SuffixStep(pre, p, TrimLast(rest));
    }
  }

  lemma SuffixNone(s: string)
    ensures s + Suffix([]) == s
  {
  }

  // ---------- a line and its parts ----------

  function Spaced(ps: seq<string>): (r: seq<string>)
    ensures |r| == |ps|
  {
    if ps == [] then [] else [" " + ps[0]] + Spaced(ps[1..])
  }

  lemma {:induction false} SpacedAre(ps: seq<string>)
    requires AreParts(ps)
    ensures AreTokens(Spaced(ps), ';') && Delimited(Spaced(ps), ';') == Suffix(ps)
  {
    if ps == [] {
    } else {
      SpacedAre(ps[1..]);
      assert IsPart(ps[0]);
      assert Spaced(ps)[1..] == Spaced(ps[1..]);
      assert [';'] + (" " + ps[0]) == "; " + ps[0];
    }
  }

  lemma LineIsDelimited(nv: string, ps: seq<string>)
    requires AreParts(ps)
    ensures Delimited([nv] + Spaced(ps), ';') == [';'] + (nv + Suffix(ps))
  {
    hide IsPart;
    SpacedAre(ps);
    var ws := [nv] + Spaced(ps);
    assert ws[1..] == Spaced(ps);
    assert Delimited(ws, ';') == [';'] + nv + Suffix(ps);
  }

  lemma TrimLine(nv: string, ps: seq<string>)
    requires IsPart(nv) && AreParts(ps) && ps != []
    ensures Trim(nv + Suffix(ps)) == nv + Suffix(TrimLast(ps))
  {
    hide Suffix, TrimRight;
    var line := nv + Suffix(ps);
    assert line[0] == nv[0] && TrimLeft(line) == line;
    TrimSuffix(nv, ps);
  }

  // A printed line with attributes splits into the pair and the attributes, the last one trimmed.
  lemma SplitLine(nv: string, ps: seq<string>)
    requires IsPart(nv) && AreParts(ps) && ps != []
    ensures Split(Trim(nv + Suffix(ps)), ';') == [nv] + Spaced(TrimLast(ps))
  {
    var last := TrimLast(ps);
    TrimLine(nv, ps);
    TrimLastParts(ps);
    assert IsToken(nv, ';');
    hide TrimRight, Trim, Suffix, Delimited, Tokens, IsPart, TrimLast;
    SpacedAre(last);
    LineIsDelimited(nv, last);
    var ws := [nv] + Spaced(last);
    assert ([';'] + (nv + Suffix(last)))[1..] == nv + Suffix(last);
    SplitOfDelimited(ws, ';');
  }

  // ---------- the pair ----------

  lemma {:induction false} FilterFacts(s: string, path: bool)
    ensures |Filter(s, path)| <= |s| && (!path ==> AllValue(Filter(s, path)))
    ensures forall k | 0 <= k < |Filter(s, path)| :: IsAllowed(Filter(s, path)[k], path)
    ensures Filter(s, path) == s <==> forall k | 0 <= k < |s| :: IsAllowed(s[k], path)
  {
    if s == "" {
    } else {
      FilterFacts(s[1..], path);
      var r := Filter(s[1..], path);
      if IsAllowed(s[0], path) {
        assert Filter(s, path) == [s[0]] + r;
        assert s == [s[0]] + s[1..];
        assert r == s[1..] ==> Filter(s, path) == s;
        assert Filter(s, path) == s ==> Filter(s, path)[1..] == r == s[1..];
        assert forall k | 0 <= k < |s[1..]| :: s[1..][k] == s[k + 1];
      }
    }
  }

  // Quoting is undone by reading.
  lemma QuotedBack(v: string)
    requires AllValue(v)
    ensures Unquoted(Quoted(v)) == v && ';' !in Quoted(v)
    ensures Quoted(v) == "" <==> v == ""
    ensures Quoted(v) != "" ==> !IsSpace(Quoted(v)[|Quoted(v)| - 1])
  {
    if ',' in v || ' ' in v {
      assert ("\"" + v + "\"")[1..|v| + 1] == v;
    }
  }

  lemma ReadPair(c: Cookie)
    requires IsName(c.name)
    ensures var nv := NameValue(c); IsPart(nv) && Trim(nv) == nv
    ensures Cut(NameValue(c), '=').0 == Some(c.name)
    ensures ParseValue(Cut(NameValue(c), '=').1, true) == Some(Filter(c.value, false))
  {
    var v := Filter(c.value, false);
    FilterFacts(c.value, false);
    QuotedBack(v);
    var nv := NameValue(c);
    assert nv == c.name + ['='] + Quoted(v);
    TokenChars(c.name);
    CutAt(c.name, '=', Quoted(v));
    assert nv[0] == c.name[0];
    TrimRightFacts(nv);
  }

  lemma TokenChars(name: string)
    requires HeaderKey.AllToken(name)
    ensures '=' !in name && ';' !in name && forall k | 0 <= k < |name| :: !IsSpace(name[k])
  {
    forall k | 0 <= k < |name|
      ensures name[k] != '=' && name[k] != ';' && !IsSpace(name[k])
    {
      assert HeaderKey.IsTokenChar(name[k]);
    }
  }
}
