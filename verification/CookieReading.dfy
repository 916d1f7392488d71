/** What is read from lines that no printer wrote: any attributes in any case, unknown ones, and browsers' pairs. */
module CookieReading {
  import opened CookieAttributes
  import opened CookieLines
  import opened CookieText
  import opened Options
  import opened Splitting
  import HeaderKey
  import IpText

  // ---------- characters and trimming ----------

  // The `cookie-octet` set of section 4.1.1 of RFC 6265.
  predicate IsCookieOctet(c: char) {
    var n := c as int;
    n == 0x21 || 0x23 <= n <= 0x2B || 0x2D <= n <= 0x3A || 0x3C <= n <= 0x5B || 0x5D <= n <= 0x7E
  }

  /** A value may hold the octets of the standard, and a space and a comma besides; a path any ASCII character that is
      neither a control nor ';'. */
  lemma ValueCharIff(c: char)
    ensures IsValueChar(c) <==> IsCookieOctet(c) || c in " ,"
    ensures IsPathChar(c) <==> 0x20 <= c as int <= 0x7E && c !in ";"
    ensures IsSpace(c) <==> c in " \t\n\r"
  {
  }

  predicate AllSpaces(s: string) {
    forall k | 0 <= k < |s| :: IsSpace(s[k])
  }

  lemma {:induction false} TrimLeftOf(a: string, s: string)
    requires AllSpaces(a) && (s == "" || !IsSpace(s[0]))
    ensures TrimLeft(a + s) == s
    decreases |a|
  {
    if a == "" {
      assert a + s == s;
    } else {
      assert (a + s)[1..] == a[1..] + s;
      TrimLeftOf(a[1..], s);
    }
  }

  lemma {:induction false} TrimRightOf(s: string, b: string)
    requires AllSpaces(b) && (s == "" || !IsSpace(s[|s| - 1]))
    ensures TrimRight(s + b) == s
    decreases |b|
  {
    if b == "" {
      assert s + b == s;
    } else {
      assert (s + b)[..|s + b| - 1] == s + b[..|b| - 1];
      TrimRightOf(s, b[..|b| - 1]);
    }
  }

  /** Trimming takes away the blanks at both ends, all of them and nothing else. */
  lemma TrimOf(a: string, s: string, b: string)
    requires AllSpaces(a) && AllSpaces(b) && (s == "" || IsClean(s))
    ensures Trim(a + s + b) == s
  {
    hide TrimLeft, TrimRight;
    assert a + s + b == a + (s + b);
    if s == "" {
      assert a + s + b == a + b + "";
      TrimLeftOf(a + b, "");
      TrimRightOf("", "");
      assert "" + "" == "";
    } else {
      TrimLeftOf(a, s + b);
      TrimRightOf(s, b);
    }
  }

  /** Sanitizing drops the characters that are not allowed, each for itself, and keeps the others in their order. */
  lemma {:induction false} FilterOf(a: string, b: string, path: bool)
    ensures Filter(a + b, path) == Filter(a, path) + Filter(b, path)
    decreases |a|
  {
    hide IsAllowed;
    if a == "" {
      assert a + b == b && "" + Filter(b, path) == Filter(b, path);
    } else {
      var kept := if IsAllowed(a[0], path) then [a[0]] else "";
      assert (a + b)[0] == a[0] && (a + b)[1..] == a[1..] + b;
      assert Filter(a + b, path) == kept + Filter(a[1..] + b, path);
      assert Filter(a, path) == kept + Filter(a[1..], path);
      hide Filter;
      FilterOf(a[1..], b, path);
    }
  }

  lemma FilterOne(c: char, path: bool)
    ensures Filter([c], path) == if 0x20 <= c as int <= 0x7E && c !in (if path then ";" else "\";\\") then [c] else ""
  {
    assert [c][1..] == "";
  }

  // ---------- names of attributes ----------

  const ATTRIBUTES := ["samesite", "secure", "httponly", "domain", "max-age", "expires", "path"]

  // One of the seven names, in any case.
  predicate IsKnown(key: string) {
    exists k | 0 <= k < |ATTRIBUTES| :: SameNoCase(key, ATTRIBUTES[k])
  }

  const CAPITALS := "ABCDEFGHIJKLMNOPQRSTUVWXYZ"
  const SMALL := "abcdefghijklmnopqrstuvwxyz"

  /** Lower case is taken letter by letter from the alphabet, and changes nothing else. */
  lemma LowerCaseIs(c: char)
    ensures if c in CAPITALS then exists k | 0 <= k < 26 :: CAPITALS[k] == c && SMALL[k] == HeaderKey.ToLower(c)
            else HeaderKey.ToLower(c) == c
  {
    if HeaderKey.IsUpper(c) {
      var k := c as int - 65;
      assert CAPITALS[k] == c && SMALL[k] == HeaderKey.ToLower(c);
    }
  }

  // Letters are those of the alphabet, in either case.
  lemma LetterIff(c: char)
    ensures IsLetter(c) <==> HeaderKey.ToLower(c) in SMALL
  {
    var small := HeaderKey.ToLower(c);
    if IsLetter(c) {
      assert SMALL[small as int - 97] == small;
    }
  }

  /** A name that is none of the seven leaves the cookie as it was. */
  lemma UnknownIgnored(c: Cookie, key: string, v: string, dates: Dates)
    requires !IsKnown(key)
    ensures SetAttribute(c, key, v, dates) == c
  {
    hide SameNoCase;
    forall k | 0 <= k < |ATTRIBUTES|
      ensures !SameNoCase(key, ATTRIBUTES[k])
    {
    }
    assert ATTRIBUTES[0] == "samesite" && ATTRIBUTES[1] == "secure" && ATTRIBUTES[2] == "httponly";
    assert ATTRIBUTES[3] == "domain" && ATTRIBUTES[4] == "max-age" && ATTRIBUTES[5] == "expires";
    assert ATTRIBUTES[6] == "path";
  }

  lemma SevenNames(key: string)
    ensures forall i, j | 0 <= i < j < |ATTRIBUTES| ::
              SameNoCase(key, ATTRIBUTES[i]) ==> !SameNoCase(key, ATTRIBUTES[j])
  {
    assert HeaderKey.ToLower("httponly"[0]) != HeaderKey.ToLower("samesite"[0]);
    assert HeaderKey.ToLower("domain"[0]) != HeaderKey.ToLower("secure"[0]);
    assert HeaderKey.ToLower("expires"[0]) != HeaderKey.ToLower("max-age"[0]);
  }

  /** Each of the seven names, in any case, sets its own field and no other. */
  lemma KnownSets(c: Cookie, key: string, v: string, dates: Dates)
    ensures var r := SetAttribute(c, key, v, dates);
            && (SameNoCase(key, "path") ==> r == c.(path := Some(v)))
            && (SameNoCase(key, "domain") ==> r == c.(domain := Some(v)))
            && (SameNoCase(key, "secure") ==> r == c.(secure := true))
            && (SameNoCase(key, "httponly") ==> r == c.(httpOnly := true))
            && (SameNoCase(key, "expires") ==>
                  r == if dates.parse(v) == None then c else c.(expires := dates.parse(v).value))
            && (SameNoCase(key, "samesite") ==> r == c.(sameSite := SiteOf(v)))
            && (SameNoCase(key, "max-age") ==>
                  r == if Atoi(v) == 0 || v[..1] == "0" then c else c.(maxAge := if Atoi(v) < 0 then -1 else Atoi(v)))
  {
    SevenNames(key);
    ModesDiffer(v);
    hide SameNoCase, Atoi;
    assert ATTRIBUTES[0] == "samesite" && ATTRIBUTES[1] == "secure" && ATTRIBUTES[2] == "httponly";
    assert ATTRIBUTES[3] == "domain" && ATTRIBUTES[4] == "max-age" && ATTRIBUTES[5] == "expires";
    assert ATTRIBUTES[6] == "path";
  }

  lemma ModesDiffer(v: string)
    ensures SameNoCase(v, "none") ==> !SameNoCase(v, "lax") && !SameNoCase(v, "strict")
    ensures SameNoCase(v, "lax") ==> !SameNoCase(v, "strict")
  {
  }

  // Three modes; every other text is the default.
  function SiteOf(v: string): SameSite {
    if SameNoCase(v, "none") then NoneMode
    else if SameNoCase(v, "lax") then Lax
    else if SameNoCase(v, "strict") then Strict
    else Default
  }

  // ---------- numbers ----------

  predicate AllDigits(w: string) {
    forall k | 0 <= k < |w| :: '0' <= w[k] <= '9'
  }

  lemma {:induction false} DigitsRead(w: string, rest: string, acc: nat)
    requires AllDigits(w) && (rest != "" ==> !('0' <= rest[0] <= '9'))
    ensures DigitsValue(w + rest, acc) == DigitsValue(w, acc)
    decreases |w|
  {
    if w == "" {
      assert w + rest == rest;
    } else {
      assert (w + rest)[1..] == w[1..] + rest;
      DigitsRead(w[1..], rest, acc * 10 + (w[0] as int - '0' as int));
    }
  }

  lemma {:induction false} DigitsAre(w: string)
    requires AllDigits(w)
    ensures IpText.AllHex(w) && DigitsValue(w, 0) == IpText.Value(w, 10)
    decreases |w|
  {
    if w == "" {
    } else {
      var n := |w| - 1;
      DigitsAre(w[..n]);
      DigitsSnoc(w[..n], w[n], 0);
      assert w == w[..n] + [w[n]];
    }
  }

  // What is behind the sign decides the number.
  lemma AtoiTrimmed(s: string, sign: string, w: string)
    requires TrimLeft(s) == sign + w && sign in ["", "+", "-"] && (sign == "" && w != "" ==> w[0] !in "+-")
    ensures Atoi(s) == if sign == "-" then 0 - DigitsValue(w, 0) else DigitsValue(w, 0)
  {
    hide TrimLeft, DigitsValue;
    assert sign != "" ==> (sign + w)[0] == sign[0] && (sign + w)[1..] == w;
    assert sign == "" ==> sign + w == w;
  }

  /** `atoi` skips blanks, takes a sign or none, and reads the decimal digits up to the first other character. */
  lemma AtoiOf(blanks: string, sign: string, digits: string, rest: string)
    requires AllSpaces(blanks) && sign in ["", "+", "-"] && AllDigits(digits)
    requires rest != "" ==> !('0' <= rest[0] <= '9')
    requires sign + digits == "" ==> rest == "" || (!IsSpace(rest[0]) && rest[0] !in "+-")
    ensures IpText.AllHex(digits)
    ensures var n := IpText.Value(digits, 10);
            Atoi(blanks + (sign + (digits + rest))) == if sign == "-" then 0 - n else n
  {
    hide Atoi, TrimLeft, AllSpaces, DigitsValue, IpText.Value;
    var w := digits + rest;
    DigitsAre(digits);
    DigitsRead(digits, rest, 0);
    StartsWithNumber(sign, digits, rest);
    TrimLeftOf(blanks, sign + w);
    AtoiTrimmed(blanks + (sign + w), sign, w);
  }

  lemma StartsWithNumber(sign: string, digits: string, rest: string)
    requires sign in ["", "+", "-"] && AllDigits(digits)
    requires sign + digits == "" ==> rest == "" || (!IsSpace(rest[0]) && rest[0] !in "+-")
    ensures var t := sign + (digits + rest); t == "" || !IsSpace(t[0])
    ensures sign == "" && digits + rest != "" ==> (digits + rest)[0] !in "+-"
  {
  }

  // ---------- attributes ----------

  /** A trimmed attribute is a name, or a name and a value behind the first '='. It counts if the name is not empty and
      the value is legal. */
  lemma PartReads(c: Cookie, key: string, v: Option<string>, dates: Dates)
    requires '=' !in key
    ensures ReadTrimmed(c, key + (if v.Some? then "=" + v.value else ""), dates)
            == if key != "" && (v.Some? ==> AllValue(v.value))
               then SetAttribute(c, key, if v.Some? then v.value else "", dates) else c
  {
    hide SetAttribute;
    if v.Some? {
      CutAt(key, '=', v.value);
      assert key + ("=" + v.value) == key + ['='] + v.value;
    } else {
      CutAt(key, '=', "");
      assert key + "" == key;
    }
  }

  lemma SetKeepsPair(c: Cookie, key: string, v: string, dates: Dates)
    ensures var r := SetAttribute(c, key, v, dates); r.name == c.name && r.value == c.value
  {
    hide SameNoCase, Atoi;
  }

  /** No attribute changes the name or the value of a cookie. */
  lemma {:induction false} ReadingKeepsPair(c: Cookie, parts: seq<string>, dates: Dates)
    ensures var r := ReadAttributes(c, parts, dates); r.name == c.name && r.value == c.value
    decreases |parts|
  {
    if parts == [] {
    } else {
      hide SetAttribute, Trim, Cut;
      var (key, raw) := Cut(Trim(parts[0]), '=');
      var v := ParseValue(raw, false);
      if key.Some? && v.Some? {
        SetKeepsPair(c, key.value, v.value, dates);
      }
      ReadingKeepsPair(ReadTrimmed(c, Trim(parts[0]), dates), parts[1..], dates);
    }
  }

  // ---------- values, lines and plain pairs ----------

  /** A raw value is read as `v` if it is `v` or `v` in quotes, and `v` is legal. */
  lemma ParseValueIff(raw: string, v: string)
    ensures ParseValue(Some(raw), true) == Some(v) <==> AllValue(v) && (raw == v || raw == "\"" + v + "\"")
    ensures ParseValue(Some(raw), false) == Some(v) <==> AllValue(v) && raw == v
  {
    var q := "\"" + v + "\"";
    assert q[1..|q| - 1] == v;
    if Unquoted(raw) == v && raw != v {
      assert raw == q;
    }
    if AllValue(v) && raw == v {
      assert v != "" ==> v[0] != '\"';
    }
  }

  /** Which texts between semicolons are plain pairs: a name, '=' and a value that is not empty, without blanks. */
  lemma PlainPairIff(part: string, name: string, v: string)
    ensures PlainPair(part) == [Init(name, v)]
            <==> && IsName(name) && v != "" && AllValue(v)
                 && (part == name + "=" + v || part == name + "=" + ("\"" + v + "\""))
  {
    hide AllValue, IsName, Unquoted;
    var i := IndexOf(part, '=');
    if PlainPair(part) == [Init(name, v)] {
      assert i < |part|;
      assert part == part[..i] + "=" + part[i + 1..];
      ParseValueIff(part[i + 1..], v);
    }
    if IsName(name) {
      NameHasNoEquals(name);
      CutAt(name, '=', v);
      CutAt(name, '=', "\"" + v + "\"");
      ParseValueIff(v, v);
      ParseValueIff("\"" + v + "\"", v);
    }
  }

  /** A text gives one plain pair or none. */
  lemma PlainPairOrNone(part: string)
    ensures PlainPair(part) == [] || exists name, v :: PlainPair(part) == [Init(name, v)]
  {
    hide Cut, ParseValue, IsName;
    var (name, raw) := Cut(part, '=');
    var v := ParseValue(raw, true);
    if PlainPair(part) != [] {
      assert PlainPair(part) == [Init(name.value, v.value)];
    }
  }

  lemma NameHasNoEquals(name: string)
    requires IsName(name)
    ensures '=' !in name && name != ""
  {
    TokenChars(name);
  }

  // A name and a legal value, with quotes or without; the value may be missing.
  predicate IsFirstPart(p: string, name: string, v: string) {
    && IsName(name) && AllValue(v)
    && (p == name + "=" + v || p == name + "=" + ("\"" + v + "\"") || (p == name && v == ""))
  }

  lemma FirstPartReads(parts: seq<string>, name: string, v: string, dates: Dates)
    requires parts != [] && IsFirstPart(Trim(parts[0]), name, v)
    ensures ReadParts(parts, dates) == [ReadAttributes(Init(name, v), parts[1..], dates)]
  {
    hide AllValue, IsName, Unquoted, Trim, ReadAttributes;
    var q := "\"" + v + "\"";
    NameHasNoEquals(name);
    CutAt(name, '=', v);
    CutAt(name, '=', q);
    ParseValueIff(v, v);
    ParseValueIff(q, v);
    assert name + "=" + v == name + ['='] + v && name + "=" + q == name + ['='] + q;
  }

  /** Which first parts make a line a cookie, and which cookie; all other lines give none. */
  lemma LineReadsIff(parts: seq<string>, dates: Dates)
    requires parts != []
    ensures forall name, v | IsFirstPart(Trim(parts[0]), name, v) ::
              ReadParts(parts, dates) == [ReadAttributes(Init(name, v), parts[1..], dates)]
    ensures ReadParts(parts, dates) == [] <==> forall name, v :: !IsFirstPart(Trim(parts[0]), name, v)
  {
    hide AllValue, IsName, Unquoted, Trim, ReadAttributes;
    forall name, v | IsFirstPart(Trim(parts[0]), name, v)
      ensures ReadParts(parts, dates) == [ReadAttributes(Init(name, v), parts[1..], dates)]
    {
      FirstPartReads(parts, name, v, dates);
    }
    if ReadParts(parts, dates) != [] {
      var name, v := FirstPartOf(parts, dates);
    }
  }

  lemma FirstPartOf(parts: seq<string>, dates: Dates) returns (name: string, v: string)
    requires parts != [] && ReadParts(parts, dates) != []
    ensures IsFirstPart(Trim(parts[0]), name, v)
  {
    hide IsName, Unquoted, Trim, ReadAttributes;
    var p := Trim(parts[0]);
    var i := IndexOf(p, '=');
    var (n, raw) := Cut(p, '=');
    name, v := n.value, ParseValue(raw, true).value;
    if raw.Some? {
      assert p == p[..i] + "=" + p[i + 1..];
      ParseValueIff(raw.value, v);
    } else if i < |p| {
      assert p == p[..i] + "=" + "";
    }
  }

  function AllPairs(parts: seq<string>): seq<Cookie> {
    if parts == [] then [] else PlainPair(parts[0]) + AllPairs(parts[1..])
  }

  /** Plain reading takes the texts between semicolons one by one. */
  lemma {:induction false} PlainPairsOfParts(parts: seq<string>)
    requires forall k | 0 <= k < |parts| :: ';' !in parts[k]
    ensures PlainPairs(IpText.Join(parts, ";")) == AllPairs(parts)
    decreases |parts|
  {
    hide PlainPair, Cut;
    NoPair();
    if |parts| == 0 {
    } else {
      var rest := IpText.Join(parts[1..], ";");
      CutAt(parts[0], ';', rest);
      PlainPairsOfParts(parts[1..]);
      if |parts| == 1 {
        assert parts[1..] == [] && AllPairs([]) == [] && PlainPair(parts[0]) + [] == PlainPair(parts[0]);
      } else {
        assert parts[0] + [';'] + rest == parts[0] + ";" + rest;
      }
    }
  }

  lemma NoPair()
    ensures PlainPair("") == [] && PlainPairs("") == []
  {
  }

  // ---------- the pairs of a browser ----------

  function Texts(cs: seq<Cookie>): seq<string> {
    if cs == [] then [] else [NameValue(cs[0])] + Texts(cs[1..])
  }

  // Names of cookies that are no names of attributes.
  predicate AreOthers(cs: seq<Cookie>) {
    forall k | 0 <= k < |cs| :: IsName(cs[k].name) && !IsKnown(cs[k].name)
  }

  lemma {:induction false} OthersIgnored(b: Cookie, cs: seq<Cookie>, dates: Dates)
    requires AreOthers(cs)
    ensures AreParts(Texts(cs)) && ReadAll(b, Texts(cs), dates) == b
    decreases |cs|
  {
    hide ReadTrimmed, TrimRight, Trim, IsName, IsKnown, SetAttribute, Filter, Quoted, IsPart, Cut, ParseValue, AllValue;
    if cs == [] {
    } else {
      var o := cs[0];
      var v := Quoted(Filter(o.value, false));
      assert IsName(o.name) && !IsKnown(o.name);
      ReadPair(o);
      NameHasNoEquals(o.name);
      ReadKeyed(b, o.name, v, dates);
      UnknownIgnored(b, o.name, TrimRight(v), dates);
      assert Texts(cs)[1..] == Texts(cs[1..]);
      OthersIgnored(b, cs[1..], dates);
    }
  }

  /** Of the pairs that browsers send in one line, only the first is read, and it as it stands: the others pass for
      unknown attributes. */
  lemma BrowserPairsLost(first: Cookie, others: seq<Cookie>, dates: Dates)
    requires IsName(first.name) && others != [] && AreOthers(others)
    ensures ReadCookies([NameValue(first) + Suffix(Texts(others))], dates)
            == [Init(first.name, Filter(first.value, false))]
  {
    var nv, ps := NameValue(first), Texts(others);
    var line := nv + Suffix(ps);
    var b := Init(first.name, Filter(first.value, false));
    ReadPair(first);
    OthersIgnored(b, others, dates);
    hide NameValue, ReadAll, ReadAttributes, Trim, Filter, Cut, ParseValue, Suffix;
    hide Split, Spaced, TrimLast, IsPart, IsName, AreOthers;
    SplitLine(nv, ps);
    var last := TrimLast(ps);
    TrimLastParts(ps);
    ReadSpaced(b, last, dates);
    ReadTrimLast(b, ps, dates);
    assert ([nv] + Spaced(last))[1..] == Spaced(last);
    assert ReadParts([nv] + Spaced(last), dates) == [b];
    OneLine(line, dates);
  }

  lemma OneLine(line: string, dates: Dates)
    requires Split(Trim(line), ';') != []
    ensures ReadCookies([line], dates) == ReadParts(Split(Trim(line), ';'), dates)
  {
    hide Split, Trim, ReadParts;
    assert [line][1..] == [] && !NeedsPlain([]) && ReadAttributed([], dates) == [];
    assert forall k | 0 <= k < |[line]| :: [line][k] == line;
  }

  // ---------- quotes ----------

  /** A printed pair has quotes exactly if it has a comma or a blank, which then stand between them. */
  lemma QuotedWhereNeeded(c: Cookie)
    requires IsName(c.name)
    ensures var nv := NameValue(c); '\"' in nv <==> ',' in nv || ' ' in nv
    ensures var nv := NameValue(c); var open, close := |c.name| + 1, |nv| - 1;
            '\"' in nv ==>
              && open < close && nv[open] == '\"' && nv[close] == '\"'
              && forall k | 0 <= k < |nv| && nv[k] in ", " :: open < k < close
  {
    var v, nv := Filter(c.value, false), NameValue(c);
    FilterFacts(c.value, false);
    NameCharacters(c.name);
    hide Filter, IsName;
    assert forall k | 0 <= k < |v| :: v[k] != '\"';
    assert nv == c.name + "=" + Quoted(v);
  }

  lemma NameCharacters(name: string)
    requires IsName(name)
    ensures '\"' !in name && ',' !in name && ' ' !in name
  {
    forall k | 0 <= k < |name|
      ensures name[k] !in "\", "
    {
      assert HeaderKey.IsTokenChar(name[k]);
    }
  }

  // ---------- order and spelling ----------

  /** A cookie is printed unless its name is empty or has a character that is no token character. */
  lemma PrintedIff(c: Cookie, dates: Dates)
    ensures Serialized(c, dates) == None
            <==> c.name == "" || exists k | 0 <= k < |c.name| :: !HeaderKey.IsTokenChar(c.name[k])
  {
  }

  // A cookie with all attributes, whose texts are printed as they are.
  ghost predicate IsFull(c: Cookie, path: string, domain: string) {
    && IsName(c.name) && AllValue(c.value) && ',' !in c.value && ' ' !in c.value
    && c.path == Some(path) && path != "" && Filter(path, true) == path
    && c.domain == Some(domain) && IsDomain(domain) && Undotted(domain) == domain && domain != ""
    && c.expires > 0 && c.maxAge > 0 && c.httpOnly && c.secure && c.sameSite == Strict
  }

  /** The attributes stand in this order, spelled like this. */
  lemma FullText(c: Cookie, path: string, domain: string, dates: Dates)
    requires IsFull(c, path, domain)
    ensures Serialized(c, dates) == Some(c.name + "=" + c.value + Suffix(Attributes(c, dates)))
    ensures Attributes(c, dates) == ["Path=" + path, "Domain=" + domain, "Expires=" + dates.format(c.expires),
                                     "Max-Age=" + Decimal(c.maxAge), "HttpOnly", "Secure", "SameSite=Strict"]
  {
    FilterFacts(c.value, false);
    hide Filter, IsDomain, Undotted, Decimal, IsName, Suffix;
  }
}
