/** Cookies as text: what a cookie is printed as, and how a line is read back (section 5.2 of RFC 6265). */
module CookieText {
  import opened Options
  import opened Splitting
  import HeaderKey
  import IpText

  datatype SameSite = Default | NoneMode | Lax | Strict

  datatype Cookie = Cookie(name: string, value: string, path: Option<string>, domain: Option<string>, expires: int,
                           maxAge: int, httpOnly: bool, secure: bool, sameSite: SameSite)

  // The date functions of the C library, in both directions.
  datatype Dates = Dates(format: int -> string, parse: string -> Option<int>)

  function Init(name: string, value: string): Cookie {
    Cookie(name, value, None, None, -1, 0, false, false, Default)
  }

  // ---------- characters ----------

  predicate IsAscii(c: char) {
    ' ' <= c < 127 as char
  }

  predicate IsValueChar(c: char) {
    IsAscii(c) && c != '\"' && c != ';' && c != '\\'
  }

  predicate IsPathChar(c: char) {
    IsAscii(c) && c != ';'
  }

  predicate AllValue(s: string) {
    forall i | 0 <= i < |s| :: IsValueChar(s[i])
  }

  predicate IsName(s: string) {
    s != "" && HeaderKey.AllToken(s)
  }

  predicate IsSpace(c: char) {
    c == ' ' || c == '\t' || c == '\n' || c == '\r'
  }

  // ---------- trimming and cutting ----------

  function TrimLeft(s: string): string {
    if s != "" && IsSpace(s[0]) then TrimLeft(s[1..]) else s
  }

  function TrimRight(s: string): string {
    if s != "" && IsSpace(s[|s| - 1]) then TrimRight(s[..|s| - 1]) else s
  }

  function Trim(s: string): string {
    TrimRight(TrimLeft(s))
  }

  // Neither end is a space.
  predicate IsClean(s: string) {
    s != "" && !IsSpace(s[0]) && !IsSpace(s[|s| - 1])
  }

  function NonEmpty(s: string): Option<string> {
    if s == "" then None else Some(s)
  }

  // The text before and behind the first `c`; an empty part, and the second part if there is no `c`, is null.
  function Cut(s: string, c: char): (Option<string>, Option<string>) {
    var i := IndexOf(s, c);
    if i < |s| then (NonEmpty(s[..i]), NonEmpty(s[i + 1..])) else (Some(s), None)
  }

  lemma CutAt(a: string, c: char, b: string)
    requires c !in a
    ensures Cut(a + [c] + b, c) == (NonEmpty(a), NonEmpty(b)) && Cut(a, c) == (Some(a), None)
  {
    var s := a + [c] + b;
    IndexOfIs(s, c, |a|);
    IndexOfIs(a, c, |a|);
    assert s[..|a|] == a && s[|a| + 1..] == b;
  }

  // ---------- values ----------

  function Unquoted(s: string): string {
    if |s| > 1 && s[0] == '\"' && s[|s| - 1] == '\"' then s[1..|s| - 1] else s
  }

  // A null value is empty; an illegal character makes the value unreadable.
  function ParseValue(raw: Option<string>, quotes: bool): Option<string> {
    match raw
    case None => Some("")
    case Some(s) =>
      var v := if quotes then Unquoted(s) else s;
      if AllValue(v) then Some(v) else None
  }

  // The test that goes with a path or with a value.
  predicate IsAllowed(c: char, path: bool) {
    if path then IsPathChar(c) else IsValueChar(c)
  }

  function Filter(s: string, path: bool): string {
    if s == "" then "" else (if IsAllowed(s[0], path) then [s[0]] else "") + Filter(s[1..], path)
  }

  function Quoted(v: string): string {
    if ',' in v || ' ' in v then "\"" + v + "\"" else v
  }

  // ---------- numbers ----------

  function Digit(d: nat): char
    requires d < 10
  {
    ('0' as int + d) as char
  }

  function Decimal(n: nat): string {
    if n < 10 then [Digit(n)] else Decimal(n / 10) + [Digit(n % 10)]
  }

  function DigitsValue(s: string, acc: nat): nat {
    if s == "" || !('0' <= s[0] <= '9') then acc else DigitsValue(s[1..], acc * 10 + (s[0] as int - '0' as int))
  }

  // `atoi`: blanks, a sign, digits up to the first other character.
  function Atoi(s: string): int {
    var t := TrimLeft(s);
    if t != "" && t[0] == '-' then 0 - DigitsValue(t[1..], 0)
    else if t != "" && t[0] == '+' then DigitsValue(t[1..], 0)
    else DigitsValue(t, 0)
  }

  // ---------- domains ----------

  predicate IsLetter(c: char) {
    'a' <= c <= 'z' || 'A' <= c <= 'Z'
  }

  predicate IsDomainChar(c: char) {
    IsLetter(c) || '0' <= c <= '9' || c == '-' || c == '.'
  }

  // The scan from position `i`, after `prev`, with a component of length `len` under way.
  function DomainFrom(s: string, i: nat, prev: char, ok: bool, len: nat): bool
    requires i <= |s|
    decreases |s| - i
  {
    if i == |s| then prev != '-' && len <= 63 && ok
    else
      var c := s[i];
      if IsLetter(c) then DomainFrom(s, i + 1, c, true, len + 1)
      else if '0' <= c <= '9' then DomainFrom(s, i + 1, c, ok, len + 1)
      else if c == '-' then prev != '.' && DomainFrom(s, i + 1, c, ok, len + 1)
      else if c == '.' then prev != '.' && prev != '-' && 0 < len <= 63 && DomainFrom(s, i + 1, c, ok, 0)
      else false
  }

  function Undotted(d: string): string {
    if d != "" && d[0] == '.' then d[1..] else d
  }

  predicate IsDomainName(d: string) {
    d != "" && |d| <= 255 && DomainFrom(Undotted(d), 0, '.', false, 0)
  }

  // A domain name or an IPv4 address.
  ghost predicate IsDomain(d: string) {
    IsDomainName(d) || exists a :: IpText.IsIPv4(d, a)
  }

  // ---------- printing ----------

  function PathParts(c: Cookie): seq<string> {
    if c.path.Some? && c.path.value != "" then ["Path=" + Filter(c.path.value, true)] else []
  }

  // An invalid domain is dropped; a leading dot is not printed.
  ghost function DomainParts(c: Cookie): seq<string> {
    if c.domain.Some? && c.domain.value != "" && IsDomain(c.domain.value) then ["Domain=" + Undotted(c.domain.value)]
    else []
  }

  function ExpiresParts(c: Cookie, dates: Dates): seq<string> {
    if c.expires > 0 then ["Expires=" + dates.format(c.expires)] else []
  }

  function AgeParts(c: Cookie): seq<string> {
    if c.maxAge > 0 then ["Max-Age=" + Decimal(c.maxAge)] else if c.maxAge < 0 then ["Max-Age=0"] else []
  }

  function FlagParts(c: Cookie): seq<string> {
    (if c.httpOnly then ["HttpOnly"] else []) + (if c.secure then ["Secure"] else [])
  }

  function SiteParts(c: Cookie): seq<string> {
    match c.sameSite
    case Default => []
    case NoneMode => ["SameSite=None"]
    case Lax => ["SameSite=Lax"]
    case Strict => ["SameSite=Strict"]
  }

  ghost function Attributes(c: Cookie, dates: Dates): seq<string> {
    PathParts(c) + (DomainParts(c) + (ExpiresParts(c, dates) + (AgeParts(c) + (FlagParts(c) + SiteParts(c)))))
  }

  function NameValue(c: Cookie): string {
    c.name + "=" + Quoted(Filter(c.value, false))
  }

  function Suffix(parts: seq<string>): string {
    if parts == [] then "" else "; " + parts[0] + Suffix(parts[1..])
  }

  ghost function Serialized(c: Cookie, dates: Dates): Option<string> {
    if IsName(c.name) then Some(NameValue(c) + Suffix(Attributes(c, dates))) else None
  }

  // ---------- reading ----------

  function SetAttribute(c: Cookie, key: string, v: string, dates: Dates): Cookie {
    if SameNoCase(key, "samesite") then
      c.(sameSite := if SameNoCase(v, "lax") then Lax else if SameNoCase(v, "strict") then Strict
                     else if SameNoCase(v, "none") then NoneMode else Default)
    else if SameNoCase(key, "secure") then c.(secure := true)
    else if SameNoCase(key, "httponly") then c.(httpOnly := true)
    else if SameNoCase(key, "domain") then c.(domain := Some(v))
    else if SameNoCase(key, "max-age") then
      var seconds := Atoi(v);
      if seconds == 0 || v[..1] == "0" then c else c.(maxAge := if seconds <= 0 then -1 else seconds)
    else if SameNoCase(key, "expires") then
      var t := dates.parse(v);
      if t.Some? then c.(expires := t.value) else c
    else if SameNoCase(key, "path") then c.(path := Some(v))
    else c
  }

  predicate SameNoCase(a: string, b: string) {
    |a| == |b| && forall i | 0 <= i < |a| :: HeaderKey.ToLower(a[i]) == HeaderKey.ToLower(b[i])
  }

  // One trimmed attribute; an empty or unreadable one changes nothing.
  function ReadTrimmed(c: Cookie, a: string, dates: Dates): Cookie {
    if a == "" then c
    else
      var (key, raw) := Cut(a, '=');
      var v := ParseValue(raw, false);
      if key.None? || v.None? then c else SetAttribute(c, key.value, v.value, dates)
  }

  function ReadAttributes(c: Cookie, parts: seq<string>, dates: Dates): Cookie
    decreases |parts|
  {
    if parts == [] then c else ReadAttributes(ReadTrimmed(c, Trim(parts[0]), dates), parts[1..], dates)
  }

  // The cookie of a line; none if the name or value is unreadable.
  function ReadParts(parts: seq<string>, dates: Dates): seq<Cookie>
    requires parts != []
  {
    var (name, raw) := Cut(Trim(parts[0]), '=');
    var v := ParseValue(raw, true);
    if name.None? || !IsName(name.value) || v.None? then []
    else [ReadAttributes(Init(name.value, v.value), parts[1..], dates)]
  }

  // One plain pair, as browsers send it; an empty value is skipped.
  function PlainPair(part: string): seq<Cookie> {
    var (name, raw) := Cut(part, '=');
    var v := ParseValue(raw, true);
    if name.None? || !IsName(name.value) || v.None? || v.value == "" then [] else [Init(name.value, v.value)]
  }

  function PlainPairs(line: string): seq<Cookie>
    decreases |line|
  {
    if line == "" then []
    else
      var (part, rest) := Cut(line, ';');
      (if part.None? then [] else PlainPair(part.value)) + if rest.None? then [] else PlainPairs(rest.value)
  }

  function ReadPlain(lines: seq<string>): seq<Cookie> {
    if lines == [] then [] else PlainPairs(Trim(lines[0])) + ReadPlain(lines[1..])
  }

  function ReadAttributed(lines: seq<string>, dates: Dates): seq<Cookie>
    requires !NeedsPlain(lines)
  {
    if lines == [] then []
    else
      assert forall k | 0 <= k < |lines| - 1 :: lines[1..][k] == lines[k + 1];
      ReadParts(Split(Trim(lines[0]), ';'), dates) + ReadAttributed(lines[1..], dates)
  }

  // Some line has no ';' or nothing but.
  predicate NeedsPlain(lines: seq<string>) {
    exists k | 0 <= k < |lines| :: Split(Trim(lines[k]), ';') == []
  }

  // One line without attributes makes all lines be read as plain pairs.
  function ReadCookies(lines: seq<string>, dates: Dates): seq<Cookie> {
    if NeedsPlain(lines) then ReadPlain(lines) else ReadAttributed(lines, dates)
  }
}
