/** Canonical header keys: the first letter and every letter behind a dash in upper case, the others in lower case. */
module HeaderKey {
  import opened HttpSyntax

  predicate IsTokenChar(c: char) {
    c as int < 256 && IsTokenByte(c as int)
  }

  predicate AllToken(key: string) {
    forall i | 0 <= i < |key| :: IsTokenChar(key[i])
  }

  predicate IsLower(c: char) {
    'a' <= c <= 'z'
  }

  predicate IsUpper(c: char) {
    'A' <= c <= 'Z'
  }

  function ToLower(c: char): char {
    if IsUpper(c) then (c as int + 32) as char else c
  }

  function ToUpper(c: char): char {
    if IsLower(c) then (c as int - 32) as char else c
  }

  predicate StartsWord(key: string, i: nat)
    requires i < |key|
  {
    i == 0 || key[i - 1] == '-'
  }

  function Lower(key: string): string {
    seq(|key|, i requires 0 <= i < |key| => ToLower(key[i]))
  }

  function Cased(c: char, upper: bool): char {
    if upper then ToUpper(c) else ToLower(c)
  }

  // The canonical form; a key that is not a token is its own.
  function Canonical(key: string): (r: string)
    ensures |r| == |key|
  {
    if AllToken(key) then seq(|key|, i requires 0 <= i < |key| => Cased(key[i], StartsWord(key, i))) else key
  }

  predicate WellCased(key: string) {
    forall i | 0 <= i < |key| :: if StartsWord(key, i) then !IsLower(key[i]) else !IsUpper(key[i])
  }

  // ---------- what the canonical form is ----------

  lemma CasedFacts(c: char, upper: bool)
    requires IsTokenChar(c)
    ensures IsTokenChar(Cased(c, upper)) && ToLower(Cased(c, upper)) == ToLower(c)
    ensures Cased(c, upper) == '-' <==> c == '-'
    ensures if upper then !IsLower(Cased(c, upper)) else !IsUpper(Cased(c, upper))
  {
  }

  // A character is determined by its lower-case form and its case.
  lemma CaseDecides(c: char, d: char, upper: bool)
    requires ToLower(c) == ToLower(d) && if upper then !IsLower(c) else !IsUpper(c)
    ensures c == Cased(d, upper)
  {
  }

  lemma DashKept(c: char, d: char)
    requires ToLower(c) == ToLower(d)
    ensures c == '-' <==> d == '-'
  {
  }

  lemma CanonicalAt(key: string, i: nat)
    requires AllToken(key) && i < |key|
    ensures Canonical(key)[i] == Cased(key[i], StartsWord(key, i))
    ensures ToLower(Canonical(key)[i]) == ToLower(key[i]) && IsTokenChar(Canonical(key)[i])
    ensures Canonical(key)[i] == '-' <==> key[i] == '-'
    ensures if StartsWord(key, i) then !IsLower(Canonical(key)[i]) else !IsUpper(Canonical(key)[i])
  {
    hide IsTokenChar, ToLower, Cased, IsLower, IsUpper;
    CasedFacts(key[i], StartsWord(key, i));
  }

  lemma SameWords(a: string, b: string)
    requires |a| == |b| && forall i | 0 <= i < |b| :: a[i] == '-' <==> b[i] == '-'
    ensures forall i | 0 <= i < |b| :: StartsWord(a, i) == StartsWord(b, i)
  {
  }

  lemma CanonicalFits(key: string)
    requires AllToken(key)
    ensures Lower(Canonical(key)) == Lower(key) && WellCased(Canonical(key)) && AllToken(Canonical(key))
  {
    hide IsTokenChar, ToLower, Canonical, StartsWord, IsLower, IsUpper;
    var c := Canonical(key);
    forall i | 0 <= i < |key|
      ensures Lower(c)[i] == Lower(key)[i] && IsTokenChar(c[i]) && (c[i] == '-' <==> key[i] == '-')
      ensures if StartsWord(key, i) then !IsLower(c[i]) else !IsUpper(c[i])
    {
      CanonicalAt(key, i);
    }
    SameWords(c, key);
  }

  /** The canonical form of a token is the one well-cased key that equals it when case is ignored. */
  lemma CanonicalIff(key: string, r: string)
    requires AllToken(key)
    ensures r == Canonical(key) <==> Lower(r) == Lower(key) && WellCased(r)
  {
    hide IsTokenChar, ToLower, Canonical, StartsWord, IsLower, IsUpper, Cased, AllToken;
    CanonicalFits(key);
    if Lower(r) == Lower(key) && WellCased(r) {
      assert |r| == |Lower(r)| == |Lower(key)| == |key|;
      forall i | 0 <= i < |key|
        ensures ToLower(r[i]) == ToLower(key[i]) && (r[i] == '-' <==> key[i] == '-')
      {
        assert Lower(r)[i] == Lower(key)[i];
        DashKept(r[i], key[i]);
      }
      SameWords(r, key);
      forall i | 0 <= i < |key|
        ensures r[i] == Canonical(key)[i]
      {
        CanonicalAt(key, i);
        CaseDecides(r[i], key[i], StartsWord(key, i));
      }
    }
  }

  /** A complete case invariant: token keys have the same canonical form exactly when they differ only in case. */
  lemma SameCanonicalIff(a: string, b: string)
    requires AllToken(a) && AllToken(b)
    ensures Canonical(a) == Canonical(b) <==> Lower(a) == Lower(b)
  {
    CanonicalIff(a, Canonical(a));
    CanonicalIff(b, Canonical(b));
    CanonicalIff(b, Canonical(a));
  }

  /** Canonicalising twice changes nothing. */
  lemma CanonicalTwice(key: string)
    ensures Canonical(Canonical(key)) == Canonical(key)
  {
    if AllToken(key) {
      CanonicalFits(key);
      var c := Canonical(key);
      CanonicalIff(key, c);
      CanonicalIff(c, c);
    }
  }
}
