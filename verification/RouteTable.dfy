/** The flat route table: a list of registrations, looked up without a trie. For literal routes the trie answers
    exactly as the table does. */
module RouteTable {
  import opened Options
  import opened RoutePath
  import opened Routing
  import opened Splitting

  datatype Route<H> = Route(methods: seq<string>, path: string, handler: H)

  ghost function Build<H>(routes: seq<Route<H>>): (s: State<H>)
    ensures IsTree(s)
  {
    if routes == [] then map[Root := NodeView(None, map[])]
    else
      var r := routes[|routes| - 1];
      var s := Build(routes[..|routes| - 1]);
      InsertMeans(s, r.methods, r.path, r.handler, Root);
      Insert(s, r.methods, r.path, r.handler)
  }

  // The handler of the latest registration of `verb` at `p`.
  function Latest<H>(routes: seq<Route<H>>, p: Path, verb: string): Option<H> {
    if routes == [] then None
    else
      var r := routes[|routes| - 1];
      if Target(r.path) == Some(p) && verb in r.methods then Some(r.handler)
      else Latest(routes[..|routes| - 1], p, verb)
  }

  // Some registered path is `p` or lies below it.
  ghost predicate Known<H>(routes: seq<Route<H>>, p: Path) {
    p == Root || exists i :: 0 <= i < |routes| && Target(routes[i].path).Some? && Under(p, Target(routes[i].path).value)
  }

  /** After any run of registrations, the nodes are the known paths and the actions are the latest handlers. */
  lemma {:induction false} BuildMeans<H>(routes: seq<Route<H>>, p: Path, verb: string)
    ensures var s := Build(routes);
            && (p in s <==> Known(routes, p))
            && (p !in s ==> Latest(routes, p, verb) == None)
            && (p in s ==> (verb in s[p].actions <==> Latest(routes, p, verb).Some?))
            && (p in s && verb in s[p].actions ==> Latest(routes, p, verb) == Some(s[p].actions[verb]))
    decreases |routes|
  {
    if routes == [] {
    } else {
      var n := |routes| - 1;
      var r := routes[n];
      BuildMeans(routes[..n], p, verb);
      InsertMeans(Build(routes[..n]), r.methods, r.path, r.handler, p);
      var before := Build(routes[..n]);
      WithActionsMeans(if p in before then before[p].actions else map[], r.methods, r.handler, verb);
      KnownSnoc(routes, p);
    }
  }

  lemma KnownSnoc<H>(routes: seq<Route<H>>, p: Path)
    requires routes != []
    ensures var n := |routes| - 1; var t := Target(routes[n].path);
            Known(routes, p) <==> Known(routes[..n], p) || (t.Some? && Under(p, t.value))
  {
    var n := |routes| - 1;
    if Known(routes[..n], p) && p != Root {
      var i :| 0 <= i < n && Target(routes[..n][i].path).Some? && Under(p, Target(routes[..n][i].path).value);
      assert routes[i] == routes[..n][i];
    }
    if Known(routes, p) && p != Root {
      var i :| 0 <= i < |routes| && Target(routes[i].path).Some? && Under(p, Target(routes[i].path).value);
      assert i < n ==> routes[..n][i] == routes[i];
    }
  }

  // ---------- lookup in the flat table ----------

  // The node for the segments: all of them if that path is known; else the longest known prefix, provided nothing is
  // registered below it and the next segment repeats its last label.
  ghost function FlatNode<H>(routes: seq<Route<H>>, at: Path, segs: seq<string>): Option<Path>
    decreases |segs|
  {
    if segs == [] then Some(at)
    else if Known(routes, Child(at, segs[0])) then FlatNode(routes, Child(at, segs[0]), segs[1..])
    else if at.Child? && at.tag == segs[0] && forall tag :: !Known(routes, Child(at, tag)) then Some(at)
    else None
  }

  ghost predicate RootUnused<H>(routes: seq<Route<H>>) {
    forall verb :: Latest(routes, Root, verb).None?
  }

  ghost function FlatSearch<H>(routes: seq<Route<H>>, path: string, verb: string): Answer<H> {
    var p := FlatNode(routes, Root, Segments(path));
    if p.None? || (path == PATH_ROOT && RootUnused(routes)) then NotFound
    else
      var h := Latest(routes, p.value, verb);
      if h.Some? then Found(h.value, map[]) else NotAllowed
  }

  ghost predicate Literal<H>(routes: seq<Route<H>>) {
    forall p, tag :: Known(routes, Child(p, tag)) ==> !IsParameter(tag)
  }

  lemma BuildDomain<H>(routes: seq<Route<H>>)
    ensures forall p :: p in Build(routes) <==> Known(routes, p)
  {
    forall p
      ensures p in Build(routes) <==> Known(routes, p)
    {
      BuildMeans(routes, p, "");
    }
  }

  lemma {:induction false} LiteralWalk<H>(routes: seq<Route<H>>, rx: Regex, at: Path, segs: seq<string>, w: Walk)
    requires Literal(routes) && at in Build(routes) && AreTokens(segs, '/')
    requires Walks(Build(routes), rx, at, segs, map[], w)
    ensures w == match FlatNode(routes, at, segs) case None => Unmatched case Some(p) => Reached(p, map[])
    ensures w.Reached? ==> w.node in Build(routes)
    decreases |segs|
  {
    var s := Build(routes);
    BuildDomain(routes);
    if segs == [] {
    } else {
      var seg := segs[0];
      if Child(at, seg) in s {
        LiteralWalk(routes, rx, Child(at, seg), segs[1..], w);
      } else if !Leaf(s, at) {
        assert NoParameter(s, at);
        var tag :| Child(at, tag) in s;
        assert Known(routes, Child(at, tag));
      } else {
        assert IsToken(seg, '/') && Rooted(s, at);
        assert forall tag :: !Known(routes, Child(at, tag));
      }
    }
  }

  lemma RootActions<H>(routes: seq<Route<H>>)
    ensures Build(routes)[Root].actions == map[] <==> RootUnused(routes)
  {
    var actions := Build(routes)[Root].actions;
    forall m
      ensures m in actions <==> Latest(routes, Root, m).Some?
    {
      BuildMeans(routes, Root, m);
    }
    if actions.Keys == {} {
      assert actions == map[];
    } else {
      var m :| m in actions.Keys;
      assert Latest(routes, Root, m).Some?;
    }
  }

  /** For literal routes, after any run of registrations, every search answers as the flat table does. */
  lemma TrieRefinesTable<H>(routes: seq<Route<H>>, rx: Regex, path: string, verb: string, w: Walk)
    requires Literal(routes)
    requires Walks(Build(routes), rx, Root, Segments(path), map[], w)
    ensures w.Reached? ==> w.node in Build(routes)
    ensures Finish(Build(routes), path, verb, w) == FlatSearch(routes, path, verb)
  {
    var s := Build(routes);
    SplitIsTokens(path, '/');
    LiteralWalk(routes, rx, Root, Segments(path), w);
    if w.Reached? {
      BuildMeans(routes, w.node, verb);
      if path == PATH_ROOT {
        RootHasNoSegments();
        RootActions(routes);
        assert FlatNode(routes, Root, []) == Some(Root) && w.node == Root;
      }
    }
  }

  lemma RootHasNoSegments()
    ensures Segments(PATH_ROOT) == []
  {
    assert Tokens(PATH_ROOT, 0, '/') == Tokens(PATH_ROOT, 1, '/') == [];
  }

  // Literal labels are tried first, so the walk over the labels of a node ends at that node.
  lemma {:induction false} KnownWalk<H>(s: State<H>, rx: Regex, at: Path, segs: seq<string>,
                                        params: map<string, string>, w: Walk)
    requires IsTree(s) && at in s && PathOf(at, segs) in s && Walks(s, rx, at, segs, params, w)
    ensures w == Reached(PathOf(at, segs), params)
    decreases |segs|
  {
    if segs == [] {
    } else {
      UnderPathOf(Child(at, segs[0]), segs[1..]);
      AncestorsIn(s, PathOf(at, segs), Child(at, segs[0]));
      KnownWalk(s, rx, Child(at, segs[0]), segs[1..], params, w);
    }
  }

  /** Whatever other routes there are, with parameters or without, a path that was registered is answered by the latest
      handler registered for it, in the trie as in the flat table. */
  lemma RegisteredPathFound<H>(routes: seq<Route<H>>, rx: Regex, segs: seq<string>, verb: string, w: Walk)
    requires segs != [] && AreTokens(segs, '/') && Latest(routes, PathOf(Root, segs), verb).Some?
    requires Walks(Build(routes), rx, Root, Segments(Delimited(segs, '/')), map[], w)
    ensures w.Reached? && w.node in Build(routes)
    ensures Finish(Build(routes), Delimited(segs, '/'), verb, w)
         == FlatSearch(routes, Delimited(segs, '/'), verb)
         == Found(Latest(routes, PathOf(Root, segs), verb).value, map[])
  {
    SplitOfDelimited(segs, '/');
    var p := PathOf(Root, segs);
    BuildMeans(routes, p, verb);
    PathOfKnown(routes, Root, segs);
    KnownWalk(Build(routes), rx, Root, segs, map[], w);
    assert Delimited(segs, '/') != PATH_ROOT by {
      RootHasNoSegments();
    }
  }

  lemma {:induction false} PathOfKnown<H>(routes: seq<Route<H>>, at: Path, segs: seq<string>)
    requires Known(routes, PathOf(at, segs))
    ensures FlatNode(routes, at, segs) == Some(PathOf(at, segs))
    decreases |segs|
  {
    if segs == [] {
    } else {
      AncestorKnown(routes, Child(at, segs[0]), segs[1..]);
      PathOfKnown(routes, Child(at, segs[0]), segs[1..]);
    }
  }

  lemma AncestorKnown<H>(routes: seq<Route<H>>, at: Path, segs: seq<string>)
    requires Known(routes, PathOf(at, segs))
    ensures Known(routes, at)
  {
    UnderPathOf(at, segs);
    BuildDomain(routes);
    AncestorsIn(Build(routes), PathOf(at, segs), at);
  }

  lemma {:induction false} UnderPathOf(at: Path, segs: seq<string>)
    ensures Under(at, PathOf(at, segs))
    decreases |segs|
  {
    if segs == [] {
    } else {
      UnderPathOf(Child(at, segs[0]), segs[1..]);
      UnderUp(at, segs[0], PathOf(at, segs));
    }
  }

  lemma {:induction false} UnderUp(p: Path, tag: string, q: Path)
    requires Under(Child(p, tag), q)
    ensures Under(p, q)
    decreases q
  {
    if q == Child(p, tag) {
    } else {
      UnderUp(p, tag, q.up);
    }
  }
}
