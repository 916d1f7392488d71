/** Prefix stability. A success or an error is never changed by bytes that arrive later, and a success needs only
    the bytes it consumed. Each lemma says both at once: the two inputs agree as soon as the shorter one has an
    answer, or the longer one has a success that ends inside the shorter one. */
module HttpPrefix {
  import opened Bytes
  import opened HttpSyntax

  lemma {:induction false} TokenStable(p: seq<Byte>, s: seq<Byte>, i: nat, stop: Byte)
    requires p <= s && i <= |p|
    requires var r := ScanToken(s, i, stop); !ScanToken(p, i, stop).Incomplete? || (r.Got? && r.value < |p|)
    ensures ScanToken(s, i, stop) == ScanToken(p, i, stop)
    decreases |p| - i
  {
    if p[i] != stop && IsTokenByte(p[i]) {
      TokenStable(p, s, i + 1, stop);
    }
  }

  lemma {:induction false} TargetStable(p: seq<Byte>, s: seq<Byte>, i: nat)
    requires p <= s && i <= |p|
    requires var r := ScanTarget(s, i); !ScanTarget(p, i).Incomplete? || (r.Got? && r.value < |p|)
    ensures ScanTarget(s, i) == ScanTarget(p, i)
    decreases |p| - i
  {
    if p[i] != SP && !IsCtl(p[i]) {
      TargetStable(p, s, i + 1);
    }
  }

  lemma {:induction false} SpacesStable(p: seq<Byte>, s: seq<Byte>, i: nat)
    requires p <= s && i <= |p|
    requires var r := SkipSpaces(s, i); !SkipSpaces(p, i).Incomplete? || (r.Got? && r.value < |p|)
    ensures SkipSpaces(s, i) == SkipSpaces(p, i)
    decreases |p| - i
  {
    if p[i] == SP {
      SpacesStable(p, s, i + 1);
    }
  }

  lemma {:induction false} BlanksStable(p: seq<Byte>, s: seq<Byte>, i: nat)
    requires p <= s && i <= |p|
    requires var r := SkipBlanks(s, i); !SkipBlanks(p, i).Incomplete? || (r.Got? && r.value < |p|)
    ensures SkipBlanks(s, i) == SkipBlanks(p, i)
    decreases |p| - i
  {
    if IsBlank(p[i]) {
      BlanksStable(p, s, i + 1);
    }
  }

  lemma {:induction false} ValueStable(p: seq<Byte>, s: seq<Byte>, i: nat)
    requires p <= s && i <= |p|
    requires var r := ScanValue(s, i); !ScanValue(p, i).Incomplete? || (r.Got? && r.value < |p|)
    ensures ScanValue(s, i) == ScanValue(p, i)
    decreases |p| - i
  {
    if !EndsValue(p[i]) {
      ValueStable(p, s, i + 1);
    }
  }

  lemma {:induction false} TrimStable(p: seq<Byte>, s: seq<Byte>, lo: nat, hi: nat)
    requires p <= s && lo <= hi <= |p|
    ensures TrimEnd(s, lo, hi) == TrimEnd(p, lo, hi)
    decreases hi
  {
    if lo < hi && IsBlank(p[hi - 1]) {
      TrimStable(p, s, lo, hi - 1);
    }
  }

  lemma LineEndStable(p: seq<Byte>, s: seq<Byte>, i: nat)
    requires p <= s && i < |p|
    requires var r := LineEnd(s, i); !LineEnd(p, i).Incomplete? || (r.Got? && r.value <= |p|)
    ensures LineEnd(s, i) == LineEnd(p, i)
  {
  }

  lemma ValueLineStable(p: seq<Byte>, s: seq<Byte>, i: nat)
    requires p <= s && i <= |p|
    requires var r := ValueLine(s, i); !ValueLine(p, i).Incomplete? || (r.Got? && r.value.1 <= |p|)
    ensures ValueLine(s, i) == ValueLine(p, i)
  {
    ValueStable(p, s, i);
    var stop := ScanValue(p, i);
    if stop.Got? {
      LineEndStable(p, s, stop.value);
    }
  }

  lemma FieldNameStable(p: seq<Byte>, s: seq<Byte>, i: nat)
    requires p <= s && i <= |p|
    requires var r := FieldName(s, i); !FieldName(p, i).Incomplete? || (r.Got? && r.value.1 < |p|)
    ensures FieldName(s, i) == FieldName(p, i)
  {
    TokenStable(p, s, i, COLON);
    var colon := ScanToken(p, i, COLON);
    if colon.Got? && colon.value != i {
      BlanksStable(p, s, colon.value + 1);
    }
  }

  lemma HeaderLineStable(p: seq<Byte>, s: seq<Byte>, i: nat, first: bool)
    requires p <= s && i < |p|
    requires var r := HeaderLine(s, i, first); !HeaderLine(p, i, first).Incomplete? || (r.Got? && r.value.1 <= |p|)
    ensures HeaderLine(s, i, first) == HeaderLine(p, i, first)
  {
    hide FieldName, ValueLine, TrimEnd;
    var v := i;
    if first || !IsBlank(p[i]) {
      FieldNameStable(p, s, i);
      var name := FieldName(p, i);
      if !name.Got? {
        return;
      }
      v := name.value.1;
    }
    ValueLineStable(p, s, v);
    var line := ValueLine(p, v);
    if line.Got? {
      TrimStable(p, s, v, line.value.0);
    }
  }

  lemma {:induction false} HeadersStable(p: seq<Byte>, s: seq<Byte>, i: nat, done: seq<HeaderField>, max: nat)
    requires p <= s && i <= |p| && |done| <= max
    requires var r := Headers(s, i, done, max); !Headers(p, i, done, max).Incomplete? || (r.Got? && r.value.1 <= |p|)
    ensures Headers(s, i, done, max) == Headers(p, i, done, max)
    decreases |p| - i
  {
    if p[i] == CR || p[i] == LF {
      LineEndStable(p, s, i);
    } else if |done| < max {
      HeaderLineStable(p, s, i, |done| == 0);
      var line := HeaderLine(p, i, |done| == 0);
      if line.Got? {
        HeadersStable(p, s, line.value.1, done + [line.value.0], max);
      }
    }
  }

  lemma VersionLineStable(p: seq<Byte>, s: seq<Byte>, i: nat)
    requires p <= s && i <= |p|
    requires var r := VersionLine(s, i); !VersionLine(p, i).Incomplete? || (r.Got? && r.value.1 <= |p|)
    ensures VersionLine(s, i) == VersionLine(p, i)
  {
    assert p[i..i + 7] == s[i..i + 7];
    var digit := Version(p, i);
    if digit.Got? {
      LineEndStable(p, s, digit.value.1);
    }
  }

  lemma VerbAndTargetStable(p: seq<Byte>, s: seq<Byte>, i: nat)
    requires p <= s && i <= |p|
    requires var r := VerbAndTarget(s, i); !VerbAndTarget(p, i).Incomplete? || (r.Got? && r.value.2 < |p|)
    ensures VerbAndTarget(s, i) == VerbAndTarget(p, i)
  {
    hide ScanToken, ScanTarget, SkipSpaces;
    TokenStable(p, s, i, SP);
    var verbEnd := ScanToken(p, i, SP);
    if verbEnd.Got? {
      SpacesStable(p, s, verbEnd.value + 1);
      var path := SkipSpaces(p, verbEnd.value + 1);
      if path.Got? {
        TargetStable(p, s, path.value);
        var pathEnd := ScanTarget(p, path.value);
        if pathEnd.Got? {
          SpacesStable(p, s, pathEnd.value + 1);
        }
      }
    }
  }

  /** An answer on a prefix, success or error, is the answer on every extension, with the same length and slices;
      and a success on the longer input is already there once the bytes it consumed are. */
  lemma ParseStable(p: seq<Byte>, s: seq<Byte>, max: nat)
    requires p <= s
    requires var r := Parse(s, max); !Parse(p, max).Incomplete? || (r.Got? && r.value.1 <= |p|)
    ensures Parse(s, max) == Parse(p, max)
  {
    var start := LeadingLine(s);
    assert LeadingLine(p) == start;
    if start.Got? {
      VerbAndTargetStable(p, s, start.value);
      var line := VerbAndTarget(p, start.value);
      if line.Got? {
        VersionLineStable(p, s, line.value.2);
        var digit := VersionLine(p, line.value.2);
        if digit.Got? {
          HeadersStable(p, s, digit.value.1, [], max);
        }
      }
    }
  }
}
