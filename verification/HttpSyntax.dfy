/** The request grammar that the incremental parser decides, as functions on the bytes received so far.
    Every function answers `Got` (consumed), `Malformed` (-1) or `Incomplete` (-2). */
module HttpSyntax {
  import opened Bytes
  import opened Options

  const HT: Byte := 9
  const LF: Byte := 10
  const CR: Byte := 13
  const SP: Byte := 32
  const COLON: Byte := 58
  const DEL: Byte := 127

  datatype Step<+T> = Got(value: T) | Malformed | Incomplete {
    predicate IsFailure() {
      !Got?
    }

    function PropagateFailure<U>(): Step<U>
      requires IsFailure()
    {
      if Malformed? then Malformed else Incomplete
    }

    function Extract(): T
      requires Got?
    {
      value
    }
  }

  // The C code hands out pointers into the receive buffer; a slice is such a pointer with its length.
  datatype Slice = Slice(off: nat, len: nat)

  // A continuation line has no name of its own.
  datatype HeaderField = HeaderField(name: Option<Slice>, value: Slice)

  datatype Request = Request(verb: Slice, path: Slice, minor: nat, headers: seq<HeaderField>)

  // The `tchar` set of section 3.2.6 of RFC 7230.
  predicate IsTokenByte(b: Byte) {
    || b == 33 || b == 35 || b == 36 || b == 37 || b == 38 || b == 39 || b == 42 || b == 43 || b == 45 || b == 46
    || 48 <= b <= 57 || 65 <= b <= 90 || b == 94 || b == 95 || b == 96 || 97 <= b <= 122 || b == 124 || b == 126
  }

  predicate IsPrintable(b: Byte) {
    32 <= b < 127
  }

  predicate IsBlank(b: Byte) {
    b == SP || b == HT
  }

  // Ends a header value: every control byte but HT, and DEL.
  predicate EndsValue(b: Byte) {
    (b < 32 && b != HT) || b == DEL
  }

  // Not allowed in the request target.
  predicate IsCtl(b: Byte) {
    b < 32 || b == DEL
  }

  function ScanToken(s: seq<Byte>, i: nat, stop: Byte): (r: Step<nat>)
    requires i <= |s|
    ensures r.Got? ==> i <= r.value < |s| && s[r.value] == stop
    decreases |s| - i
  {
    if i == |s| then Incomplete
    else if s[i] == stop then Got(i)
    else if !IsTokenByte(s[i]) then Malformed
    else ScanToken(s, i + 1, stop)
  }

  function ScanTarget(s: seq<Byte>, i: nat): (r: Step<nat>)
    requires i <= |s|
    ensures r.Got? ==> i <= r.value < |s| && s[r.value] == SP
    decreases |s| - i
  {
    if i == |s| then Incomplete
    else if s[i] == SP then Got(i)
    else if IsCtl(s[i]) then Malformed
    else ScanTarget(s, i + 1)
  }

  // The first byte at or after `i` that is not a space.
  function SkipSpaces(s: seq<Byte>, i: nat): (r: Step<nat>)
    requires i <= |s|
    ensures r.Got? ==> i <= r.value < |s| && s[r.value] != SP
    decreases |s| - i
  {
    if i == |s| then Incomplete
    else if s[i] == SP then SkipSpaces(s, i + 1)
    else Got(i)
  }

  // The first byte at or after `i` that is neither a space nor a tab.
  function SkipBlanks(s: seq<Byte>, i: nat): (r: Step<nat>)
    requires i <= |s|
    ensures r.Got? ==> i <= r.value < |s| && !IsBlank(s[r.value])
    decreases |s| - i
  {
    if i == |s| then Incomplete
    else if IsBlank(s[i]) then SkipBlanks(s, i + 1)
    else Got(i)
  }

  // The first byte at or after `i` that a header value cannot contain.
  function ScanValue(s: seq<Byte>, i: nat): (r: Step<nat>)
    requires i <= |s|
    ensures r.Got? ==> i <= r.value < |s| && EndsValue(s[r.value])
    decreases |s| - i
  {
    if i == |s| then Incomplete
    else if EndsValue(s[i]) then Got(i)
    else ScanValue(s, i + 1)
  }

  function ExpectLf(s: seq<Byte>, i: nat): (r: Step<nat>)
    requires i <= |s|
  {
    if i == |s| then Incomplete
    else if s[i] == LF then Got(i + 1)
    else Malformed
  }

  // CRLF or LF; anything else is malformed.
  function LineEnd(s: seq<Byte>, i: nat): (r: Step<nat>)
    requires i < |s|
    ensures r.Got? ==> i < r.value <= |s| && s[r.value - 1] == LF
    ensures r.Got? ==> r.value == i + 1 || (r.value == i + 2 && s[i] == CR)
  {
    if s[i] == CR then ExpectLf(s, i + 1)
    else if s[i] == LF then Got(i + 1)
    else Malformed
  }

  // The end of the value [lo, hi) once trailing blanks are dropped.
  function TrimEnd(s: seq<Byte>, lo: nat, hi: nat): (r: nat)
    requires lo <= hi <= |s|
    ensures lo <= r <= hi
  {
    if hi == lo || !IsBlank(s[hi - 1]) then hi else TrimEnd(s, lo, hi - 1)
  }

  // A value and its line end: where the value stops and where the next line starts.
  function ValueLine(s: seq<Byte>, i: nat): (r: Step<(nat, nat)>)
    requires i <= |s|
    ensures r.Got? ==> i <= r.value.0 < r.value.1 <= |s| && s[r.value.1 - 1] == LF
  {
    var stop :- ScanValue(s, i);
    var next :- LineEnd(s, stop);
    Got((stop, next))
  }

  // A field name with its colon and the blanks behind it; yields the name and where the value starts.
  function FieldName(s: seq<Byte>, i: nat): (r: Step<(Slice, nat)>)
    requires i <= |s|
    ensures r.Got? ==> var (name, v) := r.value; name.off == i && 0 < name.len && i + name.len < v < |s|
  {
    var colon :- ScanToken(s, i, COLON);
    if colon == i then Malformed else
      var v :- SkipBlanks(s, colon + 1);
      Got((Slice(i, colon - i), v))
  }

  // One header line that is not the blank line; only a later line may be a continuation.
  function HeaderLine(s: seq<Byte>, i: nat, first: bool): (r: Step<(HeaderField, nat)>)
    requires i < |s|
    ensures r.Got? ==> i < r.value.1 <= |s| && s[r.value.1 - 1] == LF
  {
    if !first && IsBlank(s[i]) then
      var (stop, next) :- ValueLine(s, i);
      Got((HeaderField(None, Slice(i, TrimEnd(s, i, stop) - i)), next))
    else
      var (name, v) :- FieldName(s, i);
      var (stop, next) :- ValueLine(s, v);
      Got((HeaderField(Some(name), Slice(v, TrimEnd(s, v, stop) - v)), next))
  }

  // All header lines up to and including the blank line, after those in `done`.
  function Headers(s: seq<Byte>, i: nat, done: seq<HeaderField>, max: nat): (r: Step<(seq<HeaderField>, nat)>)
    requires i <= |s|
    requires |done| <= max
    ensures r.Got? ==> i < r.value.1 <= |s| && done <= r.value.0 && |r.value.0| <= max
    decreases |s| - i
  {
    if i == |s| then Incomplete
    else if s[i] == CR || s[i] == LF then
      var next :- LineEnd(s, i);
      Got((done, next))
    else if |done| == max then Malformed
    else
      var (field, next) :- HeaderLine(s, i, |done| == 0);
      Headers(s, next, done + [field], max)
  }

  const HTTP_1: seq<Byte> := [72, 84, 84, 80, 47, 49, 46]

  // "HTTP/1." and a digit; nothing is decided before nine bytes are there.
  function Version(s: seq<Byte>, i: nat): (r: Step<(nat, nat)>)
    requires i <= |s|
    ensures r.Got? ==> r.value.0 < 10 && r.value.1 == i + 8 < |s| && s[i..i + 7] == HTTP_1 && s[i + 7] == 48 + r.value.0
  {
    if |s| - i < 9 then Incomplete
    else if s[i..i + 7] != HTTP_1 then Malformed
    else if !(48 <= s[i + 7] <= 57) then Malformed
    else Got((s[i + 7] - 48, i + 8))
  }

  // One empty line is tolerated before the request line.
  function LeadingLine(s: seq<Byte>): (r: Step<nat>)
    ensures r.Got? ==> r.value <= |s|
  {
    if |s| == 0 then Incomplete
    else if s[0] == CR then ExpectLf(s, 1)
    else if s[0] == LF then Got(1)
    else Got(0)
  }

  // Method and target; yields both and where the version starts.
  function VerbAndTarget(s: seq<Byte>, i: nat): (r: Step<(Slice, Slice, nat)>)
    requires i <= |s|
    ensures r.Got? ==> i < r.value.2 < |s|
  {
    var verbEnd :- ScanToken(s, i, SP);
    var path :- SkipSpaces(s, verbEnd + 1);
    var pathEnd :- ScanTarget(s, path);
    var version :- SkipSpaces(s, pathEnd + 1);
    if verbEnd == i || pathEnd == path then Malformed
    else Got((Slice(i, verbEnd - i), Slice(path, pathEnd - path), version))
  }

  // The version with its line end; yields the minor digit and where the headers start.
  function VersionLine(s: seq<Byte>, i: nat): (r: Step<(nat, nat)>)
    requires i <= |s|
    ensures r.Got? ==> i < r.value.1 <= |s| && s[r.value.1 - 1] == LF
  {
    var (minor, stop) :- Version(s, i);
    var next :- LineEnd(s, stop);
    Got((minor, next))
  }

  // A whole request head; yields the request and the number of bytes consumed.
  function Parse(s: seq<Byte>, max: nat): (r: Step<(Request, nat)>)
    ensures r.Got? ==> 0 < r.value.1 <= |s| && |r.value.0.headers| <= max
  {
    var start :- LeadingLine(s);
    var (verb, path, version) :- VerbAndTarget(s, start);
    var (minor, h) :- VersionLine(s, version);
    var (headers, next) :- Headers(s, h, [], max);
    Got((Request(verb, path, minor, headers), next))
  }
}
