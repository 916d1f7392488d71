/** What comes back when printed cookies are read: exactly which lists survive, and what the others turn into. */
module CookieRoundTrip {
  import opened CookieAttributes
  import opened CookieLines
  import opened CookieText
  import opened Options
  import opened Splitting
  import HeaderKey

  // ---------- what one cookie turns into ----------

  // A path loses its illegal characters and its trailing blanks, and all of itself if a quote or backslash is left.
  function PathBack(path: Option<string>): Option<string> {
    if path.None? || path.value == "" then None
    else
      var p := TrimRight(Filter(path.value, true));
      if AllValue(p) then Some(p) else None
  }

  ghost function DomainBack(domain: Option<string>): Option<string> {
    if domain.Some? && domain.value != "" && IsDomain(domain.value) then Some(Undotted(domain.value)) else None
  }

  // A negative age, printed as zero, is not read back.
  ghost function Recovered(c: Cookie): Cookie {
    Cookie(c.name, Filter(c.value, false), PathBack(c.path), DomainBack(c.domain),
           if c.expires > 0 then c.expires else -1, if c.maxAge > 0 then c.maxAge else 0,
           c.httpOnly, c.secure, c.sameSite)
  }

  lemma ReadClean(b: Cookie, key: string, v: string, part: string, dates: Dates)
    requires key != "" && '=' !in key && part == key + "=" + v && IsClean(v) && AllValue(v)
    ensures ReadAll(b, [part], dates) == SetAttribute(b, key, v, dates)
  {
    hide ReadTrimmed, SetAttribute, TrimRight;
    TrimRightFacts(v);
    ReadOne(b, part, dates);
    ReadKeyed(b, key, v, dates);
  }

  lemma ReadPath(b: Cookie, c: Cookie, dates: Dates)
    requires b.path == None
    ensures ReadAll(b, PathParts(c), dates) == b.(path := PathBack(c.path))
  {
    if c.path.Some? && c.path.value != "" {
      hide ReadTrimmed, SetAttribute, TrimRight, AllValue;
      var f := Filter(c.path.value, true);
      assert "Path=" + f == "Path" + "=" + f;
      ReadOne(b, "Path=" + f, dates);
      ReadKeyed(b, "Path", f, dates);
      SetPath(b, TrimRight(f), dates);
    }
  }

  lemma ReadDomain(b: Cookie, c: Cookie, dates: Dates)
    requires b.domain == None
    ensures ReadAll(b, DomainParts(c), dates) == b.(domain := DomainBack(c.domain))
  {
    hide ReadAll, SetAttribute, IsDomain, IsClean, AllValue, Undotted;
    if DomainParts(c) == [] {
      ReadNone(b, dates);
    } else {
      var d := Undotted(c.domain.value);
      DomainClean(c.domain.value);
      assert "Domain=" + d == "Domain" + "=" + d;
      ReadClean(b, "Domain", d, "Domain=" + d, dates);
      SetDomain(b, d, dates);
    }
  }

  lemma ReadExpires(b: Cookie, c: Cookie, dates: Dates)
    requires b.expires == -1 && (c.expires > 0 ==> Faithful(dates, c.expires))
    ensures ReadAll(b, ExpiresParts(c, dates), dates) == b.(expires := if c.expires > 0 then c.expires else -1)
  {
    if c.expires > 0 {
      hide SetAttribute, ReadAll;
      var t := dates.format(c.expires);
      assert "Expires=" + t == "Expires" + "=" + t;
      ReadClean(b, "Expires", t, "Expires=" + t, dates);
      SetExpires(b, t, dates);
    }
  }

  lemma ReadDecimalAge(b: Cookie, n: nat, dates: Dates)
    ensures ReadAll(b, ["Max-Age=" + Decimal(n)], dates) == if n == 0 then b else b.(maxAge := n)
  {
    hide SetAttribute, ReadAll, Decimal, Atoi;
    var t := Decimal(n);
    DecimalFacts(n);
    AtoiBack(n);
    assert "Max-Age=" + t == "Max-Age" + "=" + t;
    ReadClean(b, "Max-Age", t, "Max-Age=" + t, dates);
    SetAge(b, t, dates);
    assert n > 0 ==> t[..1] != "0" by {
      assert t[..1][0] == t[0];
    }
  }

  lemma ReadAge(b: Cookie, c: Cookie, dates: Dates)
    requires b.maxAge == 0
    ensures ReadAll(b, AgeParts(c), dates) == b.(maxAge := if c.maxAge > 0 then c.maxAge else 0)
  {
    hide ReadTrimmed, TrimRight;
    if c.maxAge > 0 {
      ReadDecimalAge(b, c.maxAge, dates);
    } else if c.maxAge < 0 {
      assert "Max-Age=0" == "Max-Age=" + Decimal(0);
      ReadDecimalAge(b, 0, dates);
    }
  }

  lemma ReadFlags(b: Cookie, c: Cookie, dates: Dates)
    requires !b.httpOnly && !b.secure
    ensures ReadAll(b, FlagParts(c), dates) == b.(httpOnly := c.httpOnly, secure := c.secure)
  {
    hide ReadTrimmed, SetAttribute, TrimRight, ReadAll;
    ReadFlag(b, "HttpOnly", dates);
    var m := if c.httpOnly then b.(httpOnly := true) else b;
    var http := if c.httpOnly then ["HttpOnly"] else [];
    var secure := if c.secure then ["Secure"] else [];
    ReadFlag(m, "Secure", dates);
    SetFlags(b, dates);
    SetFlags(m, dates);
    ReadConcat(b, http, secure, dates);
    ReadOne(b, "HttpOnly", dates);
    ReadOne(m, "Secure", dates);
    ReadNone(b, dates);
    ReadNone(m, dates);
  }

  lemma ReadNone(b: Cookie, dates: Dates)
    ensures ReadAll(b, [], dates) == b
  {
  }

  lemma ReadSite(b: Cookie, c: Cookie, dates: Dates)
    requires b.sameSite == Default
    ensures ReadAll(b, SiteParts(c), dates) == b.(sameSite := c.sameSite)
  {
    hide SetAttribute, ReadAll;
    SetSite(b, dates);
    match c.sameSite
    case Default => ReadNone(b, dates);
    case NoneMode => ReadClean(b, "SameSite", "None", "SameSite=None", dates);
    case Lax => ReadClean(b, "SameSite", "Lax", "SameSite=Lax", dates);
    case Strict => ReadClean(b, "SameSite", "Strict", "SameSite=Strict", dates);
  }

  // Reading all printed attributes, in the order in which they are printed.
  lemma ReadPrinted(c: Cookie, dates: Dates)
    requires c.expires > 0 ==> Faithful(dates, c.expires)
    ensures ReadAll(Init(c.name, Filter(c.value, false)), Attributes(c, dates), dates) == Recovered(c)
  {
    hide ReadAll, PathParts, DomainParts, ExpiresParts, AgeParts, FlagParts, SiteParts;
    hide Faithful, PathBack, DomainBack, Filter;
    var b := Init(c.name, Filter(c.value, false));
    var p4 := FlagParts(c) + SiteParts(c);
    var p3 := AgeParts(c) + p4;
    var p2 := ExpiresParts(c, dates) + p3;
    var p1 := DomainParts(c) + p2;
    ReadPath(b, c, dates);
    ReadConcat(b, PathParts(c), p1, dates);
    var b1 := b.(path := PathBack(c.path));
    ReadDomain(b1, c, dates);
    ReadConcat(b1, DomainParts(c), p2, dates);
    var b2 := b1.(domain := DomainBack(c.domain));
    ReadExpires(b2, c, dates);
    ReadConcat(b2, ExpiresParts(c, dates), p3, dates);
    var b3 := b2.(expires := if c.expires > 0 then c.expires else -1);
    ReadAge(b3, c, dates);
    ReadConcat(b3, AgeParts(c), p4, dates);
    var b4 := b3.(maxAge := if c.maxAge > 0 then c.maxAge else 0);
    ReadFlags(b4, c, dates);
    ReadConcat(b4, FlagParts(c), SiteParts(c), dates);
    var b5 := b4.(httpOnly := c.httpOnly, secure := c.secure);
    ReadSite(b5, c, dates);
  }

  // ---------- the printed attributes are parts ----------

  lemma {:induction false} NoSemicolon(s: string)
    ensures ';' !in Filter(s, true)
  {
    FilterFacts(s, true);
  }

  lemma AttributesAreParts(c: Cookie, dates: Dates)
    requires c.expires > 0 ==> Faithful(dates, c.expires)
    ensures AreParts(Attributes(c, dates))
  {
    PathIsPart(c);
    DomainIsPart(c);
    ExpiresIsPart(c, dates);
    AgeIsPart(c);
    FlagsAreParts(c);
    hide PathParts, DomainParts, ExpiresParts, AgeParts, FlagParts, SiteParts, IsPart, Faithful;
  }

  lemma ExpiresIsPart(c: Cookie, dates: Dates)
    requires c.expires > 0 ==> Faithful(dates, c.expires)
    ensures AreParts(ExpiresParts(c, dates))
  {
  }

  lemma AgeIsPart(c: Cookie)
    ensures AreParts(AgeParts(c))
  {
    if c.maxAge > 0 {
      DecimalFacts(c.maxAge);
    }
    hide Decimal;
  }

  lemma FlagsAreParts(c: Cookie)
    ensures AreParts(FlagParts(c)) && AreParts(SiteParts(c))
  {
  }

  lemma PathIsPart(c: Cookie)
    ensures AreParts(PathParts(c))
  {
    if c.path.Some? {
      NoSemicolon(c.path.value);
    }
  }

  lemma DomainIsPart(c: Cookie)
    ensures AreParts(DomainParts(c))
  {
    if DomainParts(c) != [] {
      hide IsDomain;
      DomainClean(c.domain.value);
    }
  }

  // ---------- one line ----------

  predicate Printable(c: Cookie, dates: Dates) {
    IsName(c.name) && (c.expires > 0 ==> Faithful(dates, c.expires))
  }

  lemma BareLine(c: Cookie)
    requires IsName(c.name)
    ensures Split(Trim(NameValue(c)), ';') == []
  {
    ReadPair(c);
    hide *;
    NoPartsIn(NameValue(c));
  }

  lemma NoPartsIn(nv: string)
    requires IsPart(nv)
    ensures Split(nv, ';') == []
  {
  }

  lemma AttributedLine(c: Cookie, dates: Dates)
    requires Printable(c, dates) && Attributes(c, dates) != []
    ensures var parts := Split(Trim(NameValue(c) + Suffix(Attributes(c, dates))), ';');
            parts != [] && ReadParts(parts, dates) == [Recovered(c)]
  {
    var nv, ps := NameValue(c), Attributes(c, dates);
    var b := Init(c.name, Filter(c.value, false));
    ReadPair(c);
    AttributesAreParts(c, dates);
    ReadPrinted(c, dates);
    hide Attributes, NameValue, ReadAll, ReadAttributes, Recovered, Trim, Filter, Cut, ParseValue, Suffix, Faithful;
    hide Split, Spaced, TrimLast, IsPart;
    SplitLine(nv, ps);
    var last := TrimLast(ps);
    TrimLastParts(ps);
    ReadSpaced(b, last, dates);
    ReadTrimLast(b, ps, dates);
    assert ([nv] + Spaced(last))[1..] == Spaced(last);
  }

  // A line of its own is read with its attributes exactly if it has one.
  lemma LineBack(c: Cookie, dates: Dates)
    requires Printable(c, dates)
    ensures var parts := Split(Trim(Serialized(c, dates).value), ';');
            && (parts == [] <==> Attributes(c, dates) == [])
            && (parts != [] ==> ReadParts(parts, dates) == [Recovered(c)])
  {
    hide NameValue, Attributes, Suffix, Trim, Split, ReadParts, Recovered, IsName, Faithful;
    if Attributes(c, dates) == [] {
      SuffixNone(NameValue(c));
      BareLine(c);
    } else {
      AttributedLine(c, dates);
    }
  }

  // ---------- plain reading ----------

  lemma CutRest(s: string, t: string)
    requires ';' !in s && s != ""
    ensures Cut(s, ';') == (Some(s), None)
    ensures Cut(s + (";" + t), ';') == (Some(s), NonEmpty(t))
  {
    CutAt(s, ';', t);
    assert s + [';'] + t == s + (";" + t);
  }

  // An attribute starts with a blank, which no name does.
  lemma SpacedIsNoPair(p: string)
    ensures PlainPair(" " + p) == []
  {
    var s := " " + p;
    var name := Cut(s, '=').0;
    assert name.Some? && name.value[0] == ' ';
    assert !HeaderKey.IsTokenChar(' ');
  }

  lemma {:induction false} PlainSkips(ps: seq<string>)
    requires AreParts(ps) && ps != []
    ensures PlainPairs(Suffix(ps)[1..]) == []
    decreases |ps|
  {
    hide PlainPair, Cut;
    var p, rest := " " + ps[0], ps[1..];
    assert IsPart(ps[0]);
    assert Suffix(ps)[1..] == p + Suffix(rest);
    SpacedIsNoPair(ps[0]);
    if rest == [] {
      assert p + Suffix(rest) == p;
      CutRest(p, "");
    } else {
      var t := Suffix(rest)[1..];
      assert Suffix(rest) == ";" + t && t[0] == ' ';
      CutRest(p, t);
      PlainSkips(rest);
    }
  }

  // The plain pair of a cookie: all attributes are gone, and an empty value takes the cookie with it.
  function Plain(c: Cookie): seq<Cookie> {
    if Filter(c.value, false) == "" then [] else [Init(c.name, Filter(c.value, false))]
  }

  lemma PairOfLine(nv: string, ps: seq<string>)
    requires IsPart(nv) && AreParts(ps)
    ensures PlainPairs(nv + Suffix(ps)) == PlainPair(nv)
  {
    hide PlainPair, Cut, IsName;
    if ps == [] {
      assert nv + Suffix(ps) == nv;
      CutRest(nv, "");
    } else {
      var t := Suffix(ps)[1..];
      assert Suffix(ps) == ";" + t && t[0] == ' ';
      CutRest(nv, t);
      PlainSkips(ps);
    }
  }

  lemma PlainLine(c: Cookie, dates: Dates)
    requires Printable(c, dates)
    ensures PlainPairs(Trim(Serialized(c, dates).value)) == Plain(c)
  {
    var nv, ps := NameValue(c), Attributes(c, dates);
    ReadPair(c);
    AttributesAreParts(c, dates);
    TrimLastParts(ps);
    assert PlainPair(nv) == Plain(c);
    hide Attributes, NameValue, Filter, Cut, ParseValue, Faithful, Trim, Suffix;
    hide PlainPair, IsName, Plain, PlainPairs, IsPart;
    if ps == [] {
      SuffixNone(nv);
    } else {
      TrimLine(nv, ps);
    }
    PairOfLine(nv, TrimLast(ps));
  }

  // ---------- whole lists ----------

  ghost function Lines(cs: seq<Cookie>, dates: Dates): (r: seq<string>)
    requires AllPrintable(cs, dates)
    ensures |r| == |cs| && forall k | 0 <= k < |cs| :: r[k] == Serialized(cs[k], dates).value
  {
    if cs == [] then [] else [Serialized(cs[0], dates).value] + Lines(cs[1..], dates)
  }

  predicate AllPrintable(cs: seq<Cookie>, dates: Dates) {
    forall k | 0 <= k < |cs| :: Printable(cs[k], dates)
  }

  // Nothing is printed behind the name and value.
  ghost predicate IsBare(c: Cookie, dates: Dates) {
    Attributes(c, dates) == []
  }

  ghost function AllRecovered(cs: seq<Cookie>): (r: seq<Cookie>)
    ensures |r| == |cs| && forall k | 0 <= k < |cs| :: r[k] == Recovered(cs[k])
  {
    if cs == [] then [] else [Recovered(cs[0])] + AllRecovered(cs[1..])
  }

  function AllPlain(cs: seq<Cookie>): seq<Cookie> {
    if cs == [] then [] else Plain(cs[0]) + AllPlain(cs[1..])
  }

  lemma BareNeedsPlain(cs: seq<Cookie>, dates: Dates)
    requires AllPrintable(cs, dates)
    ensures NeedsPlain(Lines(cs, dates)) <==> exists k | 0 <= k < |cs| :: IsBare(cs[k], dates)
  {
    hide Serialized, Printable;
    var lines := Lines(cs, dates);
    forall k | 0 <= k < |cs|
      ensures IsBare(cs[k], dates) <==> Split(Trim(lines[k]), ';') == []
    {
      LineBack(cs[k], dates);
    }
  }

  lemma {:induction false} AttributedBack(cs: seq<Cookie>, dates: Dates)
    requires AllPrintable(cs, dates) && !NeedsPlain(Lines(cs, dates))
    ensures ReadAttributed(Lines(cs, dates), dates) == AllRecovered(cs)
    decreases |cs|
  {
    hide Serialized, Printable, Recovered, Split, Trim, ReadParts;
    if cs == [] {
    } else {
      var lines := Lines(cs, dates);
      assert lines[1..] == Lines(cs[1..], dates);
      assert Split(Trim(lines[0]), ';') != [];
      assert forall k | 0 <= k < |lines| - 1 :: lines[1..][k] == lines[k + 1];
      LineBack(cs[0], dates);
      AttributedBack(cs[1..], dates);
    }
  }

  lemma {:induction false} PlainBack(cs: seq<Cookie>, dates: Dates)
    requires AllPrintable(cs, dates)
    ensures ReadPlain(Lines(cs, dates)) == AllPlain(cs)
    decreases |cs|
  {
    hide Serialized, Printable, Plain, Trim, PlainPairs;
    if cs == [] {
    } else {
      var lines := Lines(cs, dates);
      assert lines[1..] == Lines(cs[1..], dates);
      PlainLine(cs[0], dates);
      PlainBack(cs[1..], dates);
    }
  }

  /** What reading the printed lines gives, for every list: each cookie as it was, up to what printing drops, if every
      one has an attribute to print; and otherwise only the names and values of all of them, without those whose value
      is empty. */
  lemma WhatComesBack(cs: seq<Cookie>, dates: Dates)
    requires AllPrintable(cs, dates)
    ensures ReadCookies(Lines(cs, dates), dates)
            == if exists k | 0 <= k < |cs| :: IsBare(cs[k], dates) then AllPlain(cs) else AllRecovered(cs)
  {
    hide Recovered, Plain, IsBare, Printable;
    BareNeedsPlain(cs, dates);
    PlainBack(cs, dates);
    if !NeedsPlain(Lines(cs, dates)) {
      AttributedBack(cs, dates);
    }
  }

  // ---------- which cookies survive ----------

  predicate LegalPath(path: Option<string>) {
    path.Some? ==> path.value != "" && AllValue(path.value) && path.value[|path.value| - 1] != ' '
  }

  ghost predicate LegalDomain(domain: Option<string>) {
    domain.Some? ==> domain.value != "" && domain.value[0] != '.' && IsDomain(domain.value)
  }

  ghost predicate Legal(c: Cookie) {
    && AllValue(c.value) && LegalPath(c.path) && LegalDomain(c.domain)
    && (c.expires == -1 || c.expires > 0) && c.maxAge >= 0
  }

  lemma PathSurvives(path: Option<string>)
    ensures PathBack(path) == path <==> LegalPath(path)
  {
    if path.Some? && path.value != "" {
      var p := path.value;
      FilterFacts(p, true);
      TrimRightFacts(Filter(p, true));
      if AllValue(p) {
        assert Filter(p, true) == p;
      }
    }
  }

  lemma DomainSurvives(domain: Option<string>)
    ensures DomainBack(domain) == domain <==> LegalDomain(domain)
  {
    hide IsDomain;
  }

  /** A cookie is read back as it was exactly if its value and path are legal, the path does not end in a blank, the
      domain is valid without a leading dot, the expiry is unset or positive and the age is not negative. */
  lemma RecoveredIff(c: Cookie)
    ensures Recovered(c) == c <==> Legal(c)
  {
    hide AllValue, PathBack, DomainBack, LegalPath, LegalDomain, Filter;
    PathSurvives(c.path);
    DomainSurvives(c.domain);
    FilterFacts(c.value, false);
    AllValueIff(c.value);
  }

  lemma AllValueIff(v: string)
    ensures AllValue(v) <==> Filter(v, false) == v
  {
    FilterFacts(v, false);
  }

  // No attribute is set: the cookie is its name and value.
  predicate HasNone(c: Cookie) {
    c == Init(c.name, c.value)
  }

  /** A legal cookie prints no attribute exactly if none of its fields but name and value is set. */
  lemma BareIff(c: Cookie, dates: Dates)
    requires Legal(c)
    ensures IsBare(c, dates) <==> HasNone(c)
  {
    hide IsDomain, AllValue;
    if IsBare(c, dates) {
      assert PathParts(c) == [] && DomainParts(c) == [] && ExpiresParts(c, dates) == [] && AgeParts(c) == [];
      assert FlagParts(c) == [] && SiteParts(c) == [];
    }
  }

  lemma PlainIff(c: Cookie)
    ensures Plain(c) == [c] <==> Legal(c) && HasNone(c) && c.value != ""
  {
    hide IsDomain, AllValue;
    AllValueIff(c.value);
  }

  lemma PlainStep(c: Cookie, rest: seq<Cookie>, plain: seq<Cookie>)
    requires |plain| <= |rest|
    ensures Plain(c) + plain == [c] + rest <==> Plain(c) == [c] && plain == rest
  {
    hide Filter;
    var all := Plain(c) + plain;
    if all == [c] + rest {
      assert |Plain(c)| == 1 && all[0] == Plain(c)[0] == c && all[1..] == plain == ([c] + rest)[1..];
    }
  }

  lemma {:induction false} AllPlainIff(cs: seq<Cookie>)
    ensures |AllPlain(cs)| <= |cs|
    ensures AllPlain(cs) == cs <==> forall k | 0 <= k < |cs| :: Plain(cs[k]) == [cs[k]]
    decreases |cs|
  {
    hide Plain;
    if cs == [] {
    } else {
      var rest := cs[1..];
      AllPlainIff(rest);
      assert cs == [cs[0]] + rest;
      PlainStep(cs[0], rest, AllPlain(rest));
      PlainShort(cs[0]);
      assert forall k | 0 <= k < |rest| :: rest[k] == cs[k + 1];
    }
  }

  lemma PlainShort(c: Cookie)
    ensures |Plain(c)| <= 1
  {
  }

  /** A list of cookies survives printing and reading exactly if all of them are legal and either each one has an
      attribute or none has and no value is empty. */
  lemma RoundTripIff(cs: seq<Cookie>, dates: Dates)
    requires AllPrintable(cs, dates)
    ensures ReadCookies(Lines(cs, dates), dates) == cs
            <==> && (forall k | 0 <= k < |cs| :: Legal(cs[k]))
                 && (|| (forall k | 0 <= k < |cs| :: !HasNone(cs[k]))
                     || (forall k | 0 <= k < |cs| :: HasNone(cs[k]) && cs[k].value != ""))
  {
    hide Recovered, Plain, Legal, IsBare, Printable, HasNone;
    WhatComesBack(cs, dates);
    forall k | 0 <= k < |cs|
      ensures Recovered(cs[k]) == cs[k] <==> Legal(cs[k])
      ensures Plain(cs[k]) == [cs[k]] <==> Legal(cs[k]) && HasNone(cs[k]) && cs[k].value != ""
      ensures Legal(cs[k]) ==> (IsBare(cs[k], dates) <==> HasNone(cs[k]))
    {
      RecoveredIff(cs[k]);
      PlainIff(cs[k]);
      if Legal(cs[k]) {
        BareIff(cs[k], dates);
      }
    }
    AllPlainIff(cs);
  }

  /** Two legal cookies that do not survive: one without an attribute takes the attributes of the other along. */
  lemma OneBareCookie(dates: Dates)
    ensures var cs := [Init("a", "1"), Init("b", "2").(secure := true)];
            && AllPrintable(cs, dates) && Legal(cs[0]) && Legal(cs[1])
            && ReadCookies(Lines(cs, dates), dates) == [Init("a", "1"), Init("b", "2")] != cs
  {
    var c, d := Init("a", "1"), Init("b", "2").(secure := true);
    var cs := [c, d];
    assert HeaderKey.IsTokenChar('a') && HeaderKey.IsTokenChar('b');
    AllValueIff("1");
    AllValueIff("2");
    assert Plain(c) == [c] && Plain(d) == [Init("b", "2")];
    BareIff(c, dates);
    assert IsBare(cs[0], dates);
    assert cs[1..] == [d] && cs[1..][1..] == [];
    assert AllPlain(cs) == Plain(c) + (Plain(d) + AllPlain([]));
    WhatComesBack(cs, dates);
  }
}
