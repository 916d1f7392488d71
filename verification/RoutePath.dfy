/** Route paths as text: segments between slashes, and what a ':' label says about its parameter. */
module RoutePath {
  import opened Options
  import opened Splitting

  // ---------- segments ----------

  function Segments(path: string): seq<string> {
    Split(path, '/')
  }

  lemma SegmentsAre(path: string)
    ensures Segments(path) == Split(path, '/')
  {
  }

  // ---------- queries ----------

  // One '?' that is not the last character, and no '#' before it.
  predicate HasQuery(url: string) {
    var q := IndexOf(url, '?');
    q + 1 < |url| && '?' !in url[q + 1..] && !(IndexOf(url, '#') < q)
  }

  function PathOnly(url: string): string {
    if HasQuery(url) then url[..IndexOf(url, '?')] else url
  }

  function QueryOnly(url: string): Option<string> {
    if HasQuery(url) then Some(url[IndexOf(url, '?') + 1..]) else None
  }

  // `path` and `query` are the two sides of the one '?', with something behind it and no '#' in front.
  predicate IsCut(url: string, path: string, query: string) {
    url == path + "?" + query && '?' !in path && '?' !in query && query != "" && '#' !in path
  }

  /** A path and a query joined by '?' come apart again if and only if the query is neither empty nor holds another '?'
      and the path holds no '#'. */
  lemma QueryCutIff(path: string, query: string)
    requires '?' !in path
    ensures var url := path + "?" + query;
            PathOnly(url) == path && QueryOnly(url) == Some(query) <==> query != "" && '?' !in query && '#' !in path
  {
    var url := path + "?" + query;
    IndexOfIs(url, '?', |path|);
    assert url[..|path|] == path && url[|path| + 1..] == query;
    assert forall k | 0 <= k < |path| :: url[k] == path[k];
  }

  /** Cuts a path at its query, if it has one: there is a query exactly if the text has the two sides of `IsCut`. */
  method CutQuery(url: string) returns (path: string, query: Option<string>)
    ensures query.Some? ==> IsCut(url, path, query.value)
    ensures query.None? ==> path == url && forall p, q :: !IsCut(url, p, q)
    ensures path == PathOnly(url) && query == QueryOnly(url)
  {
    forall p, q | IsCut(url, p, q)
      ensures HasQuery(url)
    {
      QueryCutIff(p, q);
    }
    path, query := url, None;
    var mark := IndexOf(url, '?');
    if mark == |url| {
      return;
    }
    if mark == |url| - 1 {
      return;
    }
    var second := IndexOf(url[mark + 1..], '?');
    if second < |url| - mark - 1 {
      return;
    }
    var hash := IndexOf(url, '#');
    if hash < |url| && hash < mark {
      return;
    }
    path, query := url[..mark], Some(url[mark + 1..]);
  }

  // ---------- parameter labels ----------

  // Characters [lo, hi) of a string, or nothing when there are none.
  function Substring(s: string, lo: nat, hi: nat): Option<string>
    requires hi <= |s|
  {
    if hi <= lo then None else Some(s[lo..hi])
  }

  predicate IsParameter(tag: string) {
    tag != "" && tag[0] == ':'
  }

  const PATTERN_WILDCARD := "(.+)"

  // The pattern between brackets; without brackets the wildcard; with empty brackets none.
  function LabelPattern(tag: string): Option<string> {
    var start, end := IndexOf(tag, '['), IndexOf(tag, ']');
    if start == |tag| || end == |tag| then Some(PATTERN_WILDCARD) else Substring(tag, start + 1, end)
  }

  // The name between the colon and the bracket.
  function ParameterKey(tag: string): Option<string>
    requires IsParameter(tag)
  {
    Substring(tag, 1, IndexOf(tag, '['))
  }
}
