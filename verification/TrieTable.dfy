/** The heap trie against the flat route table, through the trie's own operations. */
module TrieTable {
  import opened Options
  import opened RouteLabels
  import opened RouteParameters
  import opened RoutePath
  import opened RouteTable
  import opened Routing
  import opened Splitting
  import opened Trie

  // Registers the routes in order.
  method Register<H>(rx: Regex, routes: seq<Route<H>>) returns (trie: RouteTrie<H>)
    ensures fresh(trie) && fresh(trie.nodes.Values) && trie.Valid() && trie.rx == rx && trie.View() == Build(routes)
  {
    hide *;
    trie := new RouteTrie<H>(rx);
    BuildEmpty<H>();
    assert routes[..0] == [];
    for i := 0 to |routes|
      invariant fresh(trie) && fresh(trie.nodes.Values) && trie.Valid() && trie.rx == rx
      invariant trie.View() == Build(routes[..i])
    {
      BuildStep(routes, i);
      trie.Insert(routes[i].methods, routes[i].path, routes[i].handler);
    }
    assert routes[..|routes|] == routes;
  }

  lemma BuildEmpty<H>()
    ensures Build<H>([]) == map[Root := NodeView(None, map[])]
  {
  }

  lemma BuildStep<H>(routes: seq<Route<H>>, i: nat)
    requires i < |routes|
    ensures var s, r := Build(routes[..i]), routes[i];
            Build(routes[..i + 1]) == Insert(s, r.methods, r.path, r.handler)
  {
    assert routes[..i + 1][..i] == routes[..i];
  }

  /** Literal routes, registered in a heap trie and searched there, are answered as by looking through the list. */
  method Serve<H>(rx: Regex, routes: seq<Route<H>>, verb: string, url: string) returns (r: Answer<H>)
    requires Literal(routes) && (HasQuery(url) ==> url[0] != '?')
    ensures r == FlatSearch(routes, PathOnly(url), verb)
  {
    hide *;
    var trie := Register(rx, routes);
    LiteralNamed(routes);
    NamedBinds(routes, rx, Segments(PathOnly(url)));
    var query;
    ghost var w;
    r, query, w := trie.Search(verb, url);
    TrieRefinesTable(routes, rx, PathOnly(url), verb, w);
  }

  /** Routes with parameters, one at each place and all named: the answer is the one at the labels that the segments
      select, an error if they lead to a pattern that does not compile, and not found if they do neither. */
  method ServeParameters<H>(rx: Regex, routes: seq<Route<H>>, verb: string, url: string) returns (r: Answer<H>)
    requires OneParameterEach(routes) && NamedEach(routes) && (HasQuery(url) ==> url[0] != '?')
    ensures var path := PathOnly(url); var segs := Segments(path);
            forall tags | Selects(routes, rx, segs, tags) ::
              |tags| <= |segs| && r == AnswerAt(routes, path, verb, tags, Bind(map[], segs, tags))
    ensures var segs := Segments(PathOnly(url));
            (exists tags, tag :: Breaks(routes, rx, segs, tags, tag)) ==> r == Error
    ensures var segs := Segments(PathOnly(url));
            (forall tags :: !Selects(routes, rx, segs, tags))
            && (forall tags, tag :: !Breaks(routes, rx, segs, tags, tag))
            ==> r == NotFound
  {
    hide *;
    ghost var path, segs := PathOnly(url), Segments(PathOnly(url));
    var trie := Register(rx, routes);
    NamedBinds(routes, rx, segs);
    var query;
    ghost var w;
    r, query, w := trie.Search(verb, url);
    SelectedAnswer(routes, rx, path, verb, w, []);
    Missed(Build(routes), path, verb);
    forall tags | Selects(routes, rx, segs, tags)
      ensures |tags| <= |segs| && r == AnswerAt(routes, path, verb, tags, Bind(map[], segs, tags))
    {
      SelectsNoMore(routes, rx, segs, tags);
      SelectedAnswer(routes, rx, path, verb, w, tags);
    }
  }

  lemma OneSegment(a: string)
    requires IsToken(a, '/')
    ensures Segments("/" + a) == [a]
  {
    assert [a][1..] == [] && Delimited([a], '/') == "/" + a;
    SplitOfDelimited([a], '/');
  }

  lemma OneRoute<H>(routes: seq<Route<H>>, methods: seq<string>, tag: string, h: H, seg: string, verb: string)
    requires routes == [Route(methods, "/" + tag, h)] && verb in methods && IsToken(tag, '/') && seg != tag
    requires IsParameter(tag) && ParameterKey(tag).Some?
    ensures OneParameterEach(routes) && NamedEach(routes) && OnTheWay(routes, [tag]) && !OnTheWay(routes, [seg])
    ensures Latest(routes, PathOf(Root, [tag]), verb) == Some(h)
  {
    hide Segments, ParameterKey, IsParameter;
    OneSegment(tag);
    assert [seg][0] != [tag][0];
    assert Latest(routes, PathOf(Root, [tag]), verb) == Some(h) by {
      assert ("/" + tag)[1..] == tag;
      assert Target("/" + tag) == Some(PathOf(Root, [tag]));
    }
  }

  /** One route with a parameter, registered in a heap trie: a segment that its pattern matches is answered by its
      handler, and stands under the parameter's name. */
  method ServeParameter<H>(rx: Regex, methods: seq<string>, name: string, pattern: Option<string>, h: H,
                           verb: string, seg: string) returns (r: Answer<H>)
    requires IsLabel(name, pattern) && IsToken(Label(name, pattern), '/') && verb in methods
    requires IsToken(seg, '/') && '?' !in seg && seg != Label(name, pattern) && rx.Matches(PatternOf(pattern), seg)
    ensures r == Found(h, map[name := seg])
  {
    hide *;
    var tag, url := Label(name, pattern), "/" + seg;
    var routes := [Route(methods, "/" + tag, h)];
    LabelMeans(name, pattern);
    OneRoute(routes, methods, tag, h, seg, verb);
    OneSegment(seg);
    NoQuery(url);
    NamedBinds(routes, rx, [seg]);
    var trie := Register(rx, routes);
    var query;
    ghost var w;
    r, query, w := trie.Search(verb, url);
    ParameterFound(routes, rx, url, seg, verb, w, name, pattern, h);
  }

  lemma NoQuery(url: string)
    requires '?' !in url
    ensures PathOnly(url) == url && !HasQuery(url)
  {
  }
}
