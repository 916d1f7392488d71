/** Printing and reading cookies, loop by loop. */
module CookieCodec {
  import opened CookieText
  import opened Options
  import opened Splitting
  import HeaderKey
  import IpSyntax
  import IpText
  import IpValidator

  // ---------- characters ----------

  method Sanitize(s: string, path: bool) returns (r: string)
    ensures r == Filter(s, path)
  {
    hide *;
    var ok := true;
    var i := 0;
    while i < |s|
      invariant i <= |s|
      invariant ok ==> forall k | 0 <= k < i :: IsAllowed(s[k], path)
    {
      if !IsAllowed(s[i], path) {
        ok := false;
        break;
      }
      i := i + 1;
    }
    if ok {
      FilterAll(s, path);
      return s;
    }
    r := "";
    i := 0;
    while i < |s|
      invariant i <= |s| && Filter(s, path) == r + Filter(s[i..], path)
    {
      FilterStep(s, path, i);
      if IsAllowed(s[i], path) {
        r := r + [s[i]];
      }
      i := i + 1;
    }
    assert s[i..] == "";
    FilterNone(path);
  }

  lemma FilterStep(s: string, path: bool, i: nat)
    requires i < |s|
    ensures Filter(s[i..], path) == (if IsAllowed(s[i], path) then [s[i]] else "") + Filter(s[i + 1..], path)
  {
    hide IsAllowed;
    assert s[i..][1..] == s[i + 1..];
  }

  lemma FilterNone(path: bool)
    ensures Filter("", path) == ""
  {
  }

  lemma {:induction false} FilterAll(s: string, path: bool)
    requires forall k | 0 <= k < |s| :: IsAllowed(s[k], path)
    ensures Filter(s, path) == s
  {
    hide IsAllowed;
    if s == "" {
    } else {
      FilterAll(s[1..], path);
    }
  }

  method IsValidName(name: Option<string>) returns (ok: bool)
    ensures ok <==> name.Some? && IsName(name.value)
  {
    if name.None? || name.value == "" {
      return false;
    }
    for i := 0 to |name.value|
      invariant forall k | 0 <= k < i :: HeaderKey.IsTokenChar(name.value[k])
    {
      if !HeaderKey.IsTokenChar(name.value[i]) {
        return false;
      }
    }
    return true;
  }

  method TrimText(s: string) returns (r: string)
    ensures r == Trim(s)
  {
    r := s;
    while r != "" && IsSpace(r[0])
      invariant TrimLeft(r) == TrimLeft(s)
      decreases |r|
    {
      r := r[1..];
    }
    while r != "" && IsSpace(r[|r| - 1])
      invariant TrimRight(r) == Trim(s)
      decreases |r|
    {
      r := r[..|r| - 1];
    }
  }

  // ---------- domains ----------

  /** Scans a domain name, a leading dot aside. */
  method IsValidDomainName(s: string) returns (ret: bool)
    ensures ret <==> IsDomainName(s)
  {
    if |s| == 0 || |s| > 255 {
      return false;
    }
    var cp := s;
    if cp[0] == '.' {
      cp := cp[1..];
    }
    var prev, ok, componentLen := '.', false, 0;
    var i := 0;
    while i < |cp|
      invariant i <= |cp| && componentLen >= 0
      invariant IsDomainName(s) == DomainFrom(cp, i, prev, ok, componentLen)
    {
      var c := cp[i];
      if 'a' <= c <= 'z' || 'A' <= c <= 'Z' {
        ok := true;
        componentLen := componentLen + 1;
      } else if '0' <= c <= '9' {
        componentLen := componentLen + 1;
      } else if c == '-' {
        if prev == '.' {
          return false;
        }
        componentLen := componentLen + 1;
      } else if c == '.' {
        if prev == '.' || prev == '-' {
          return false;
        }
        if componentLen > 63 || componentLen == 0 {
          return false;
        }
        componentLen := 0;
      } else {
        return false;
      }
      prev := c;
      i := i + 1;
    }
    if prev == '-' || componentLen > 63 {
      return false;
    }
    return ok;
  }

  /** A name, or an address without a colon. */
  method IsValidDomain(d: string) returns (ok: bool)
    ensures ok <==> IsDomain(d)
  {
    ok := IsValidDomainName(d);
    if !ok {
      ok := IpValidator.ValidateIp(d);
      ok := ok && ':' !in d;
      AddressWithoutColon(d);
    }
  }

  lemma AddressWithoutColon(d: string)
    ensures IpSyntax.Validate(d, 0) && ':' !in d <==> exists a :: IpText.IsIPv4(d, a)
  {
    hide IpText.IsIPv4, IpText.IsIPv6;
    IpSyntax.ValidateIff(d);
    forall a | IpText.IsIPv6(d, a)
      ensures ':' in d
    {
      var k := IpSyntax.ColonFirst(d, a);
    }
    forall a | IpText.IsIPv4(d, a)
      ensures ':' !in d
    {
      IpSyntax.IPv4Facts(d, a);
    }
  }

  // ---------- printing ----------

  lemma {:induction false} SuffixSnoc(ps: seq<string>, p: string)
    ensures Suffix(ps + [p]) == Suffix(ps) + "; " + p
  {
    if ps == [] {
      assert Suffix([p]) == "; " + p + Suffix([]);
    } else {
      assert (ps + [p])[0] == ps[0] && (ps + [p])[1..] == ps[1..] + [p];
      SuffixSnoc(ps[1..], p);
    }
  }

  /** Appends one attribute to the text so far. */
  method Append(b: string, key: string, value: string, ghost nv: string, ghost ps: seq<string>) returns (r: string)
    requires b == nv + Suffix(ps)
    ensures r == nv + Suffix(ps + [key + value])
  {
    r := b + "; ";
    r := r + key;
    r := r + value;
    SuffixSnoc(ps, key + value);
  }

  /** The attributes in front of the flags. */
  method AppendFields(c: Cookie, dates: Dates, start: string) returns (b: string)
    ensures b == start + Suffix(PathParts(c) + DomainParts(c) + ExpiresParts(c, dates) + AgeParts(c))
  {
    hide Suffix, IsDomain, Filter, Decimal;
    b := start;
    ghost var ps: seq<string> := [];
    NoSuffix(start);
    if c.path.Some? && |c.path.value| > 0 {
      var p := Sanitize(c.path.value, true);
      b := Append(b, "Path=", p, start, ps);
      ps := ps + ["Path=" + p];
    }
    assert ps == PathParts(c);
    if c.domain.Some? && |c.domain.value| > 0 {
      var valid := IsValidDomain(c.domain.value);
      if valid {
        var d := c.domain.value;
        if d[0] == '.' {
          d := d[1..];
        }
        b := Append(b, "Domain=", d, start, ps);
        ps := ps + ["Domain=" + d];
      }
    }
    assert ps == PathParts(c) + DomainParts(c);
    if c.expires > 0 {
      var t := dates.format(c.expires);
      b := Append(b, "Expires=", t, start, ps);
      ps := ps + ["Expires=" + t];
    }
    assert ps == PathParts(c) + DomainParts(c) + ExpiresParts(c, dates);
    if c.maxAge > 0 {
      var n := Decimal(c.maxAge);
      b := Append(b, "Max-Age=", n, start, ps);
      ps := ps + ["Max-Age=" + n];
    } else if c.maxAge < 0 {
      b := Append(b, "Max-Age=0", "", start, ps);
      ps := ps + ["Max-Age=0" + ""];
    }
    assert "Max-Age=0" + "" == "Max-Age=0";
    assert ps == PathParts(c) + DomainParts(c) + ExpiresParts(c, dates) + AgeParts(c);
  }

  lemma NoSuffix(s: string)
    ensures s + Suffix([]) == s
  {
  }

  /** The flags and the site mode. */
  method AppendFlags(c: Cookie, start: string, ghost nv: string, ghost before: seq<string>) returns (b: string)
    requires start == nv + Suffix(before)
    ensures b == nv + Suffix(before + FlagParts(c) + SiteParts(c))
  {
    hide Suffix;
    b := start;
    ghost var ps := before;
    if c.httpOnly {
      b := Append(b, "HttpOnly", "", nv, ps);
      assert "HttpOnly" + "" == "HttpOnly";
      ps := ps + ["HttpOnly"];
    }
    if c.secure {
      b := Append(b, "Secure", "", nv, ps);
      assert "Secure" + "" == "Secure";
      ps := ps + ["Secure"];
    }
    assert ps == before + FlagParts(c);
    if c.sameSite != Default {
      var mode := match c.sameSite
        case NoneMode => "SameSite=None"
        case Lax => "SameSite=Lax"
        case _ => "SameSite=Strict";
      b := Append(b, mode, "", nv, ps);
      assert mode + "" == mode && SiteParts(c) == [mode];
      ps := ps + [mode];
    }
    assert ps == before + FlagParts(c) + SiteParts(c);
  }

  lemma Flat(a: seq<string>, b: seq<string>, c: seq<string>, d: seq<string>, e: seq<string>, f: seq<string>)
    ensures a + b + c + d + e + f == a + (b + (c + (d + (e + f))))
  {
    assert a + b + c + d + e + f == a + b + c + d + (e + f);
    assert a + b + c + d + (e + f) == a + b + c + (d + (e + f));
    assert a + b + c + (d + (e + f)) == a + b + (c + (d + (e + f)));
  }

  /** Prints a cookie, piece by piece, or nothing if its name is invalid. */
  method Serialize(c: Cookie, dates: Dates) returns (r: Option<string>)
    ensures r == Serialized(c, dates)
  {
    hide Suffix, PathParts, DomainParts, ExpiresParts, AgeParts, FlagParts, SiteParts, IsName, Filter, Quoted;
    var named := IsValidName(Some(c.name));
    if !named {
      return None;
    }
    var b := c.name;
    b := b + "=";
    var v := Sanitize(c.value, false);
    b := b + Quoted(v);
    assert b == NameValue(c);
    hide NameValue;
    b := AppendFields(c, dates, b);
    ghost var fields := PathParts(c) + DomainParts(c) + ExpiresParts(c, dates) + AgeParts(c);
    b := AppendFlags(c, b, NameValue(c), fields);
    Flat(PathParts(c), DomainParts(c), ExpiresParts(c, dates), AgeParts(c), FlagParts(c), SiteParts(c));
    return Some(b);
  }

  // ---------- reading ----------

  method ParseCookieValue(raw: Option<string>, allowDoubleQuote: bool) returns (r: Option<string>)
    ensures r == ParseValue(raw, allowDoubleQuote)
  {
    if raw.None? {
      return Some("");
    }
    var cp := raw.value;
    if allowDoubleQuote && |cp| > 1 && cp[0] == '\"' && cp[|cp| - 1] == '\"' {
      cp := cp[1..|cp| - 1];
    }
    for i := 0 to |cp|
      invariant forall k | 0 <= k < i :: IsValueChar(cp[k])
    {
      if !IsValueChar(cp[i]) {
        return None;
      }
    }
    return Some(cp);
  }

  /** Reads the attributes behind the first part into the fields of the cookie. */
  method ReadInto(start: Cookie, parts: seq<string>, dates: Dates) returns (c: Cookie)
    requires parts != []
    ensures c == ReadAttributes(start, parts[1..], dates)
  {
    hide SetAttribute, Trim;
    c := start;
    var i := 1;
    while i < |parts|
      invariant 1 <= i <= |parts|
      invariant ReadAttributes(c, parts[i..], dates) == ReadAttributes(start, parts[1..], dates)
    {
      ghost var c0 := c;
      var part := TrimText(parts[i]);
      assert parts[i..][1..] == parts[i + 1..];
      if |part| != 0 {
        var (attr, raw) := Cut(part, '=');
        var value := ParseCookieValue(raw, false);
        if value.Some? && attr.Some? {
          c := SetField(c, attr.value, value.value, dates);
        }
      }
      assert c == ReadTrimmed(c0, part, dates);
      i := i + 1;
    }
  }

  /** One attribute: the chain of comparisons. */
  method SetField(start: Cookie, attr: string, value: string, dates: Dates) returns (c: Cookie)
    ensures c == SetAttribute(start, attr, value, dates)
  {
    hide SameNoCase;
    c := start;
    if SameNoCase(attr, "samesite") {
      if SameNoCase(value, "lax") {
        c := c.(sameSite := Lax);
      } else if SameNoCase(value, "strict") {
        c := c.(sameSite := Strict);
      } else if SameNoCase(value, "none") {
        c := c.(sameSite := NoneMode);
      } else {
        c := c.(sameSite := Default);
      }
    } else if SameNoCase(attr, "secure") {
      c := c.(secure := true);
    } else if SameNoCase(attr, "httponly") {
      c := c.(httpOnly := true);
    } else if SameNoCase(attr, "domain") {
      c := c.(domain := Some(value));
    } else if SameNoCase(attr, "max-age") {
      var seconds := Atoi(value);
      if !(seconds == 0 || value[..1] == "0") {
        if seconds <= 0 {
          seconds := -1;
        }
        c := c.(maxAge := seconds);
      }
    } else if SameNoCase(attr, "expires") {
      var t := dates.parse(value);
      if t.Some? {
        c := c.(expires := t.value);
      }
    } else if SameNoCase(attr, "path") {
      c := c.(path := Some(value));
    }
  }

  /** Reads the lines as plain pairs. */
  method ReadBrowserCookie(lines: seq<string>) returns (cookies: seq<Cookie>)
    ensures cookies == ReadPlain(lines)
  {
    hide PlainPair, Cut, Trim;
    cookies := [];
    for i := 0 to |lines|
      invariant ReadPlain(lines) == cookies + ReadPlain(lines[i..])
    {
      assert lines[i..][1..] == lines[i + 1..];
      var line := TrimText(lines[i]);
      var pairs := ReadPairs(line);
      cookies := cookies + pairs;
    }
  }

  lemma CutShrinks(s: string, c: char)
    ensures Cut(s, c).1.Some? ==> |Cut(s, c).1.value| < |s|
  {
  }

  method ReadPairs(start: string) returns (cookies: seq<Cookie>)
    ensures cookies == PlainPairs(start)
  {
    hide PlainPair, Cut, PlainPairs;
    cookies := [];
    var line := start;
    while line != ""
      invariant PlainPairs(start) == cookies + PlainPairs(line)
      decreases |line|
    {
      PairsStep(line);
      CutShrinks(line, ';');
      var (part, rest) := Cut(line, ';');
      line := if rest.None? then "" else rest.value;
      if part.None? {
        continue;
      }
      var pair := ReadPair(part.value);
      cookies := cookies + pair;
    }
    NoPairs();
  }

  lemma NoPairs()
    ensures PlainPairs("") == []
  {
  }

  lemma PairsStep(line: string)
    requires line != ""
    ensures var (part, rest) := Cut(line, ';');
            PlainPairs(line) == (if part.None? then [] else PlainPair(part.value))
                                + PlainPairs(if rest.None? then "" else rest.value)
  {
    hide Cut, PlainPair;
  }

  method ReadPair(part: string) returns (pair: seq<Cookie>)
    ensures pair == PlainPair(part)
  {
    hide IsName, ParseValue, Cut;
    var (name, raw) := Cut(part, '=');
    var valid := IsValidName(name);
    if !valid {
      return [];
    }
    var value := ParseCookieValue(raw, true);
    if value.None? || value.value == "" {
      return [];
    }
    return [Init(name.value, value.value)];
  }

  /** Reads the lines one by one; the first one without parts hands all of them over to the plain reading. */
  method Read(lines: seq<string>, dates: Dates) returns (cookies: seq<Cookie>)
    ensures cookies == ReadCookies(lines, dates)
  {
    hide ReadAttributes, Trim, Split, Cut, IsName, ParseValue;
    cookies := [];
    var i := 0;
    while i < |lines|
      invariant i <= |lines| && forall k | 0 <= k < i :: Split(Trim(lines[k]), ';') != []
      invariant !NeedsPlain(lines[..i]) && cookies == ReadAttributed(lines[..i], dates)
    {
      var line := TrimText(lines[i]);
      var parts := SplitText(line, ';');
      if |parts| == 0 {
        cookies := ReadBrowserCookie(lines);
        return;
      }
      assert lines[..i + 1] == lines[..i] + [lines[i]];
      ReadSnoc(lines[..i], lines[i], dates);
      i := i + 1;
      var first := TrimText(parts[0]);
      var (name, raw) := Cut(first, '=');
      var valid := IsValidName(name);
      if !valid {
        continue;
      }
      var value := ParseCookieValue(raw, true);
      if value.None? {
        continue;
      }
      var c := ReadInto(Init(name.value, value.value), parts, dates);
      cookies := cookies + [c];
    }
    assert lines[..i] == lines;
  }

  lemma {:induction false} ReadSnoc(lines: seq<string>, line: string, dates: Dates)
    requires !NeedsPlain(lines) && Split(Trim(line), ';') != []
    ensures !NeedsPlain(lines + [line])
    ensures ReadAttributed(lines + [line], dates)
            == ReadAttributed(lines, dates) + ReadParts(Split(Trim(line), ';'), dates)
    decreases |lines|
  {
    hide ReadParts, Trim, Split;
    if lines == [] {
      assert lines + [line] == [line] && [line][1..] == [];
    } else {
      var rest := lines[1..];
      assert forall k | 0 <= k < |rest| :: rest[k] == lines[k + 1];
      assert (lines + [line])[0] == lines[0] && (lines + [line])[1..] == rest + [line];
      ReadSnoc(rest, line, dates);
    }
  }
}
