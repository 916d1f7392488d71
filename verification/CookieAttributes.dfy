/** Reading the printed attributes of a cookie, one after the other. */
module CookieAttributes {
  import opened CookieLines
  import opened CookieText
  import opened Options
  import HeaderKey
  import IpSyntax
  import IpText

  // The date functions agree on an instant, and print it without blanks at the ends and without illegal characters.
  predicate Faithful(dates: Dates, t: int) {
    dates.parse(dates.format(t)) == Some(t) && IsClean(dates.format(t)) && AllValue(dates.format(t))
  }

  // Attributes without the space in front.
  function ReadAll(c: Cookie, ps: seq<string>, dates: Dates): Cookie
    decreases |ps|
  {
    if ps == [] then c else ReadAll(ReadTrimmed(c, TrimRight(ps[0]), dates), ps[1..], dates)
  }

  lemma {:induction false} ReadSpaced(c: Cookie, ps: seq<string>, dates: Dates)
    requires AreParts(ps)
    ensures ReadAttributes(c, Spaced(ps), dates) == ReadAll(c, ps, dates)
    decreases |ps|
  {
    hide ReadTrimmed, IsPart, Trim, TrimRight;
    if ps == [] {
    } else {
      assert IsPart(ps[0]);
      TrimPart(ps[0]);
      assert Spaced(ps)[1..] == Spaced(ps[1..]);
      ReadSpaced(ReadTrimmed(c, TrimRight(ps[0]), dates), ps[1..], dates);
    }
  }

  lemma {:induction false} ReadConcat(c: Cookie, ps: seq<string>, qs: seq<string>, dates: Dates)
    ensures ReadAll(c, ps + qs, dates) == ReadAll(ReadAll(c, ps, dates), qs, dates)
    decreases |ps|
  {
    hide ReadTrimmed, TrimRight;
    if ps == [] {
      assert ps + qs == qs;
    } else {
      assert (ps + qs)[0] == ps[0] && (ps + qs)[1..] == ps[1..] + qs;
      ReadConcat(ReadTrimmed(c, TrimRight(ps[0]), dates), ps[1..], qs, dates);
    }
  }

  lemma ReadOne(c: Cookie, p: string, dates: Dates)
    ensures ReadAll(c, [p], dates) == ReadTrimmed(c, TrimRight(p), dates)
  {
    hide ReadTrimmed, TrimRight;
  }

  // The line's own trimming of the last attribute changes nothing.
  lemma ReadTrimLast(c: Cookie, ps: seq<string>, dates: Dates)
    requires AreParts(ps)
    ensures ReadAll(c, TrimLast(ps), dates) == ReadAll(c, ps, dates)
  {
    hide ReadTrimmed, TrimRight, IsPart, ReadAll;
    if ps != [] {
      var front, p := ps[..|ps| - 1], ps[|ps| - 1];
      assert IsPart(p);
      TrimPart(p);
      assert ps == front + [p];
      ReadConcat(c, front, [p], dates);
      ReadConcat(c, front, [TrimRight(p)], dates);
      ReadOne(ReadAll(c, front, dates), p, dates);
      ReadOne(ReadAll(c, front, dates), TrimRight(p), dates);
    }
  }

  // ---------- one attribute ----------

  lemma ReadKeyed(c: Cookie, key: string, v: string, dates: Dates)
    requires key != "" && '=' !in key
    ensures ReadTrimmed(c, TrimRight(key + "=" + v), dates)
            == if AllValue(TrimRight(v)) then SetAttribute(c, key, TrimRight(v), dates) else c
  {
    hide SetAttribute, TrimRight;
    TrimRightKeeps(key + "=", v);
    assert key + "=" + TrimRight(v) == key + ['='] + TrimRight(v);
    CutAt(key, '=', TrimRight(v));
  }

  lemma ReadFlag(c: Cookie, key: string, dates: Dates)
    requires key != "" && '=' !in key && !IsSpace(key[|key| - 1])
    ensures ReadTrimmed(c, TrimRight(key), dates) == SetAttribute(c, key, "", dates)
  {
    hide SetAttribute;
    TrimRightFacts(key);
    CutAt(key, '=', "");
  }

  lemma SetPath(c: Cookie, v: string, dates: Dates)
    ensures SetAttribute(c, "Path", v, dates) == c.(path := Some(v))
  {
    assert SameNoCase("Path", "path");
  }

  lemma SetDomain(c: Cookie, v: string, dates: Dates)
    ensures SetAttribute(c, "Domain", v, dates) == c.(domain := Some(v))
  {
    assert HeaderKey.ToLower("Domain"[0]) != HeaderKey.ToLower("secure"[0]);
    assert SameNoCase("Domain", "domain");
  }

  lemma SetExpires(c: Cookie, v: string, dates: Dates)
    ensures SetAttribute(c, "Expires", v, dates)
            == if dates.parse(v).Some? then c.(expires := dates.parse(v).value) else c
  {
    assert HeaderKey.ToLower("Expires"[0]) != HeaderKey.ToLower("max-age"[0]);
    assert SameNoCase("Expires", "expires");
  }

  lemma SetAge(c: Cookie, v: string, dates: Dates)
    ensures SetAttribute(c, "Max-Age", v, dates)
            == if Atoi(v) == 0 || v[..1] == "0" then c else c.(maxAge := if Atoi(v) <= 0 then -1 else Atoi(v))
  {
    hide Atoi;
    assert SameNoCase("Max-Age", "max-age");
  }

  lemma SetFlags(c: Cookie, dates: Dates)
    ensures SetAttribute(c, "HttpOnly", "", dates) == c.(httpOnly := true)
    ensures SetAttribute(c, "Secure", "", dates) == c.(secure := true)
  {
    assert HeaderKey.ToLower("HttpOnly"[0]) != HeaderKey.ToLower("samesite"[0]);
    assert SameNoCase("HttpOnly", "httponly");
    assert SameNoCase("Secure", "secure");
  }

  lemma SetSite(c: Cookie, dates: Dates)
    ensures SetAttribute(c, "SameSite", "None", dates) == c.(sameSite := NoneMode)
    ensures SetAttribute(c, "SameSite", "Lax", dates) == c.(sameSite := Lax)
    ensures SetAttribute(c, "SameSite", "Strict", dates) == c.(sameSite := Strict)
  {
    assert SameNoCase("SameSite", "samesite");
    assert SameNoCase("Lax", "lax") && SameNoCase("Strict", "strict") && SameNoCase("None", "none");
  }

  // ---------- numbers ----------

  lemma {:induction false} DecimalFacts(n: nat)
    ensures Decimal(n) != "" && forall k | 0 <= k < |Decimal(n)| :: '0' <= Decimal(n)[k] <= '9'
    ensures n > 0 ==> Decimal(n)[0] != '0'
  {
    if n < 10 {
    } else {
      DecimalFacts(n / 10);
    }
  }

  lemma {:induction false} DigitsSnoc(s: string, d: char, acc: nat)
    requires '0' <= d <= '9' && forall k | 0 <= k < |s| :: '0' <= s[k] <= '9'
    ensures DigitsValue(s + [d], acc) == DigitsValue(s, acc) * 10 + (d as int - '0' as int)
    decreases |s|
  {
    if s == "" {
      assert s + [d] == [d] && [d][1..] == "";
    } else {
      assert (s + [d])[1..] == s[1..] + [d];
      DigitsSnoc(s[1..], d, acc * 10 + (s[0] as int - '0' as int));
    }
  }

  lemma {:induction false} DecimalBack(n: nat)
    ensures DigitsValue(Decimal(n), 0) == n
  {
    if n < 10 {
      assert [Digit(n)][1..] == "";
    } else {
      DecimalBack(n / 10);
      DecimalFacts(n / 10);
      DigitsSnoc(Decimal(n / 10), Digit(n % 10), 0);
    }
  }

  // `atoi` reads back what was printed.
  lemma AtoiBack(n: nat)
    ensures Atoi(Decimal(n)) == n
  {
    DecimalFacts(n);
    DecimalBack(n);
    assert !IsSpace(Decimal(n)[0]);
  }

  // ---------- domains ----------

  lemma {:induction false} DomainChars(s: string, i: nat, prev: char, ok: bool, len: nat)
    requires i <= |s| && DomainFrom(s, i, prev, ok, len)
    ensures forall k | i <= k < |s| :: IsDomainChar(s[k])
    decreases |s| - i
  {
    if i == |s| {
    } else {
      var c := s[i];
      if IsLetter(c) {
        DomainChars(s, i + 1, c, true, len + 1);
      } else if c == '.' {
        DomainChars(s, i + 1, c, ok, 0);
      } else {
        DomainChars(s, i + 1, c, ok, len + 1);
      }
    }
  }

  lemma DomainClean(d: string)
    requires IsDomain(d)
    ensures Undotted(d) != "" && forall k | 0 <= k < |Undotted(d)| :: IsDomainChar(Undotted(d)[k])
    ensures IsClean(Undotted(d)) && AllValue(Undotted(d))
  {
    if IsDomainName(d) {
      DomainChars(Undotted(d), 0, '.', false, 0);
    } else {
      var a :| IpText.IsIPv4(d, a);
      IpSyntax.IPv4Facts(d, a);
    }
  }
}
