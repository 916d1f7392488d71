/** The interned header sets, and the canonicalisation that consults the common one first. */
module HeaderNames {
  import opened Counting
  import opened HeaderKey
  import Growth
  import HashSet
  import Primes
  import Probing

  const COMMON_HEADERS: seq<string> := [
    "Accept", "Accept-Charset", "Accept-Encoding", "Accept-Language", "Accept-Ranges", "Cache-Control", "Cc",
    "Connection", "Content-Id", "Content-Language", "Content-Length", "Content-Transfer-Encoding", "Content-Type",
    "Cookie", "Date", "Dkim-Signature", "Etag", "Expires", "From", "Host", "If-Modified-Since", "If-None-Match",
    "In-Reply-To", "Last-Modified", "Location", "Message-Id", "Mime-Version", "Pragma", "Received", "Return-Path",
    "Server", "Set-Cookie", "Subject", "To", "User-Agent", "Via", "X-Forwarded-For", "X-Imforwards", "X-Powered-By"]

  const SINGLETON_HEADERS: seq<string> := ["Content-Type", "Content-Length", "Host"]

  // ---------- the common headers are canonical ----------

  lemma AcceptCased()
    ensures WellCased("Accept")
    ensures WellCased("Accept-Charset")
    ensures WellCased("Accept-Encoding")
    ensures WellCased("Accept-Language")
  {
  }

  lemma CacheControlToContentLanguageCased()
    ensures WellCased("Cache-Control")
    ensures WellCased("Cc")
    ensures WellCased("Connection")
    ensures WellCased("Content-Id")
    ensures WellCased("Content-Language")
  {
  }

  lemma ContentLengthToDateCased()
    ensures WellCased("Content-Length")
    ensures WellCased("Content-Type")
    ensures WellCased("Cookie")
    ensures WellCased("Date")
  {
  }

  lemma EtagToIfModifiedSinceCased()
    ensures WellCased("Etag")
    ensures WellCased("Expires")
    ensures WellCased("From")
    ensures WellCased("Host")
    ensures WellCased("If-Modified-Since")
  {
  }

  lemma IfNoneMatchToMessageIdCased()
    ensures WellCased("If-None-Match")
    ensures WellCased("In-Reply-To")
    ensures WellCased("Last-Modified")
    ensures WellCased("Location")
    ensures WellCased("Message-Id")
  {
  }

  lemma MimeVersionToServerCased()
    ensures WellCased("Mime-Version")
    ensures WellCased("Pragma")
    ensures WellCased("Received")
    ensures WellCased("Return-Path")
    ensures WellCased("Server")
  {
  }

  lemma SetCookieToViaCased()
    ensures WellCased("Set-Cookie")
    ensures WellCased("Subject")
    ensures WellCased("To")
    ensures WellCased("User-Agent")
    ensures WellCased("Via")
  {
  }

  lemma ExtensionsCased()
    ensures WellCased("X-Forwarded-For")
    ensures WellCased("X-Imforwards")
    ensures WellCased("X-Powered-By")
  {
  }

  lemma RangesAndSignatureCased()
    ensures WellCased("Accept-Ranges")
    ensures WellCased("Dkim-Signature")
  {
  }

  lemma TransferEncodingCased()
    ensures WellCased("Content-Transfer-Encoding")
  {
    var key := "Content-Transfer-Encoding";
    forall i | 0 <= i < |key|
      ensures if StartsWord(key, i) then !IsLower(key[i]) else !IsUpper(key[i])
    {
      if i < 8 {
      } else if i < 17 {
      }
    }
  }

  lemma CommonHeadersCased(k: nat)
    requires k < |COMMON_HEADERS|
    ensures WellCased(COMMON_HEADERS[k])
  {
    hide WellCased;
    AcceptCased();
    CacheControlToContentLanguageCased();
    ContentLengthToDateCased();
    EtagToIfModifiedSinceCased();
    IfNoneMatchToMessageIdCased();
    MimeVersionToServerCased();
    SetCookieToViaCased();
    ExtensionsCased();
    RangesAndSignatureCased();
    TransferEncodingCased();
  }

  // ---------- filling the sets ----------

  lemma {:induction false} ElementsBound(keys: seq<string>)
    ensures |Elements(keys)| <= |keys|
  {
    if keys == [] {
      assert Elements(keys) == {};
    } else {
      var n := |keys| - 1;
      ElementsBound(keys[..n]);
      assert Elements(keys) == Elements(keys[..n]) + {keys[n]};
    }
  }

  lemma NoElements()
    ensures Elements<string>([]) == {}
  {
  }

  lemma ElementsStep(keys: seq<string>, i: nat)
    requires i < |keys|
    ensures Elements(keys[..i + 1]) == Elements(keys[..i]) + {keys[i]}
  {
  }

  // Fills an empty set key by key; at most one doubling happens on the way.
  method InsertAll(hs: HashSet.HashSet, keys: seq<string>)
    requires hs.Valid() && hs.Contents() == {} && 3 <= hs.baseCapacity && |keys| <= hs.baseCapacity <= 1000
    modifies hs, hs.keys
    ensures hs.Valid() && (hs.keys == old(hs.keys) || fresh(hs.keys)) && hs.Contents() == Elements(keys)
  {
    hide *;
    ghost var base := hs.baseCapacity;
    NoElements();
    Growth.DoubledIs(base);
    Primes.LargeCapacity();
    for i := 0 to |keys|
      invariant hs.Valid() && (hs.keys == old(hs.keys) || fresh(hs.keys))
      invariant hs.Contents() == Elements(keys[..i])
      invariant hs.baseCapacity == base || hs.baseCapacity == 2 * base
    {
      hs.ValidFacts();
      ElementsBound(keys[..i]);
      Growth.LoadIff(hs.count, hs.capacity);
      hs.Insert(keys[i]);
      ElementsStep(keys, i);
    }
    assert keys[..|keys|] == keys;
  }

  method InitCommonHeaders(h: Probing.Hashing) returns (hs: HashSet.HashSet)
    ensures fresh(hs) && fresh(hs.keys) && hs.Valid() && hs.Contents() == Elements(COMMON_HEADERS)
  {
    hs := new HashSet.HashSet(h, 39);
    InsertAll(hs, COMMON_HEADERS);
  }

  lemma SingletonsDistinct()
    ensures |SINGLETON_HEADERS| == 3 && Distinct(SINGLETON_HEADERS)
  {
    assert SINGLETON_HEADERS[0][0] == 'C' && |SINGLETON_HEADERS[0]| == 12 && |SINGLETON_HEADERS[1]| == 14;
  }

  /** The singleton set ends up completely full: three keys in three slots. */
  method InitSingletonHeaders(h: Probing.Hashing) returns (hs: HashSet.HashSet)
    ensures fresh(hs) && fresh(hs.keys) && hs.Valid() && hs.Contents() == Elements(SINGLETON_HEADERS)
    ensures hs.count == hs.capacity == 3
  {
    hide *;
    NoElements();
    Primes.LargeCapacity();
    hs := new HashSet.HashSet(h, 3);
    Primes.SmallCases(3);
    Primes.StartIsPrime(3, hs.capacity);
    SingletonsDistinct();
    var keys := SINGLETON_HEADERS;
    for i := 0 to 3
      invariant fresh(hs.keys) && hs.Valid() && hs.Contents() == Elements(keys[..i])
      invariant hs.baseCapacity == hs.capacity == 3
    {
      hs.ValidFacts();
      ElementsBound(keys[..i]);
      Growth.LoadIff(hs.count, hs.capacity);
      hs.Insert(keys[i]);
      ElementsStep(keys, i);
    }
    assert keys[..3] == keys;
    DistinctCount(keys);
    hs.ValidFacts();
  }

  // ---------- canonicalisation with the shortcut ----------

  lemma CommonIsCanonical(key: string)
    requires key in Elements(COMMON_HEADERS)
    ensures Canonical(key) == key
  {
    var k :| 0 <= k < |COMMON_HEADERS| && COMMON_HEADERS[k] == key;
    CommonHeadersCased(k);
    if AllToken(key) {
      CanonicalIff(key, key);
    }
  }

  // Returns an interned key at once, leaves a key with a non-token byte alone, and rewrites the others.
  method CanonicalMimeHeaderKey(key: string, common: HashSet.HashSet) returns (r: string)
    requires common.Valid() && common.Contents() == Elements(COMMON_HEADERS)
    ensures r == Canonical(key)
  {
    hide *;
    var interned := IsInterned(key, common);
    if interned {
      CommonIsCanonical(key);
      return key;
    }
    var i := 0;
    while i < |key|
      invariant i <= |key| && forall j | 0 <= j < i :: IsTokenChar(key[j])
    {
      if !IsTokenChar(key[i]) {
        NoToken(key, i);
        return key;
      }
      i := i + 1;
    }
    IsToken(key);
    r := key;
    var upper := true;
    i := 0;
    WordStart(key, 0);
    while i < |r|
      invariant i <= |r| == |key| && (i < |key| ==> upper == StartsWord(key, i))
      invariant forall j | 0 <= j < i :: r[j] == Canonical(key)[j]
      invariant forall j | i <= j < |key| :: r[j] == key[j]
    {
      CasingStep(r[i], upper);
      CanonicalAt(key, i);
      WordStart(key, i + 1);
      var c := r[i];
      if upper && 'a' <= c <= 'z' {
        c := (c as int - 32) as char;
      } else if !upper && 'A' <= c <= 'Z' {
        c := (c as int + 32) as char;
      }
      r := r[i := c];
      upper := c == '-';
      i := i + 1;
    }
  }

  // The lookup in the common set.
  method IsInterned(key: string, common: HashSet.HashSet) returns (found: bool)
    requires common.Valid()
    ensures found <==> key in common.Contents()
  {
    found := common.Contains(key);
  }

  lemma NoToken(key: string, i: nat)
    requires i < |key| && !IsTokenChar(key[i])
    ensures Canonical(key) == key
  {
  }

  lemma IsToken(key: string)
    requires forall j | 0 <= j < |key| :: IsTokenChar(key[j])
    ensures AllToken(key)
  {
  }

  lemma WordStart(key: string, i: nat)
    ensures i < |key| ==> (StartsWord(key, i) <==> i == 0 || key[i - 1] == '-')
  {
  }

  lemma CasingStep(c: char, upper: bool)
    ensures upper && 'a' <= c <= 'z' ==> Cased(c, upper) == (c as int - 32) as char
    ensures !upper && 'A' <= c <= 'Z' ==> Cased(c, upper) == (c as int + 32) as char
    ensures !(upper && 'a' <= c <= 'z') && !(!upper && 'A' <= c <= 'Z') ==> Cased(c, upper) == c
  {
  }

  /** Only a key that is not canonical yet is handed on; the answer is the canonical form in every case. */
  method ToCanonicalMimeHeaderKey(key: string, common: HashSet.HashSet) returns (r: string)
    requires common.Valid() && common.Contents() == Elements(COMMON_HEADERS)
    ensures r == Canonical(key)
  {
    hide Cased, ToLower, IsTokenChar, Probing.WellFormed;
    var upper := true;
    var i := 0;
    while i < |key|
      invariant i <= |key| && (i < |key| ==> upper == StartsWord(key, i))
      invariant forall j | 0 <= j < i :: IsTokenChar(key[j])
      invariant forall j | 0 <= j < i :: if StartsWord(key, j) then !IsLower(key[j]) else !IsUpper(key[j])
    {
      var c := key[i];
      if !IsTokenChar(c) {
        return key;
      }
      if upper && 'a' <= c <= 'z' {
        r := CanonicalMimeHeaderKey(key, common);
        return;
      }
      if !upper && 'A' <= c <= 'Z' {
        r := CanonicalMimeHeaderKey(key, common);
        return;
      }
      upper := c == '-';
      i := i + 1;
    }
    CanonicalIff(key, key);
    return key;
  }
}
