/** Which route a path reaches when labels may be parameters, stated on the list of routes alone. */
module RouteParameters {
  import opened Options
  import opened RoutePath
  import opened RouteTable
  import opened Routing
  import opened Splitting

  // ---------- paths as lists of labels ----------

  function Labels(p: Path): seq<string> {
    match p
    case Root => []
    case Child(up, tag) => Labels(up) + [tag]
  }

  lemma {:induction false} PathOfSnoc(at: Path, tags: seq<string>, tag: string)
    ensures PathOf(at, tags + [tag]) == Child(PathOf(at, tags), tag)
    decreases |tags|
  {
    if tags == [] {
      assert tags + [tag] == [tag] && [tag][1..] == [];
    } else {
      assert (tags + [tag])[0] == tags[0] && (tags + [tag])[1..] == tags[1..] + [tag];
      PathOfSnoc(Child(at, tags[0]), tags[1..], tag);
    }
  }

  lemma {:induction false} LabelsOfPath(at: Path, tags: seq<string>)
    ensures Labels(PathOf(at, tags)) == Labels(at) + tags
    decreases |tags|
  {
    if tags == [] {
    } else {
      LabelsOfPath(Child(at, tags[0]), tags[1..]);
      assert Labels(at) + [tags[0]] + tags[1..] == Labels(at) + tags;
    }
  }

  lemma {:induction false} PathOfLabels(p: Path)
    ensures PathOf(Root, Labels(p)) == p
  {
    if p.Root? {
    } else {
      PathOfLabels(p.up);
      PathOfSnoc(Root, Labels(p.up), p.tag);
    }
  }

  lemma {:induction false} UnderIff(p: Path, q: Path)
    ensures Under(p, q) <==> Labels(p) <= Labels(q)
    decreases q
  {
    if p == q {
    } else {
      if q.Child? {
        UnderIff(p, q.up);
      }
      if Labels(p) == Labels(q) {
        PathOfLabels(p);
        PathOfLabels(q);
      }
    }
  }

  // ---------- any tree ----------

  // Literal labels first, and a leaf that repeats its label if segments are left over: then the walk goes there.
  ghost predicate Stops<H>(s: State<H>, p: Path, segs: seq<string>, n: nat)
    requires n <= |segs|
  {
    n < |segs| ==> p in s && Leaf(s, p) && s[p].tag == Some(segs[n])
  }

  lemma {:induction false} WalkComplete<H>(s: State<H>, rx: Regex, at: Path, segs: seq<string>,
                                           params: map<string, string>, tags: seq<string>)
    requires at in s && |tags| <= |segs| && Aligned(s, rx, at, segs, tags) && Stops(s, PathOf(at, tags), segs, |tags|)
    ensures Walks(s, rx, at, segs, params, Reached(PathOf(at, tags), Bind(params, segs, tags)))
    decreases |tags|
  {
    hide LabelPattern, ParameterKey, IsParameter;
    if tags == [] {
    } else {
      var tag, seg, rest := tags[0], segs[0], segs[1..];
      var w := Reached(PathOf(at, tags), Bind(params, segs, tags));
      var next := if tag != seg && IsParameter(tag) then BindOne(params, tag, seg) else params;
      WalkComplete(s, rx, Child(at, tag), rest, next, tags[1..]);
      if tag != seg {
        assert IsParameterOf(s, at, tag) && Tries(s, rx, at, tag, seg, rest, params, w);
      }
    }
  }

  /** The walk can end at the node with labels `tags`, with their bindings, exactly if the labels line up with the
      segments and no segments are left over, or the node is a leaf and the next segment repeats its label. */
  lemma WalkReachesIff<H>(s: State<H>, rx: Regex, segs: seq<string>, tags: seq<string>)
    requires Root in s && |tags| <= |segs|
    ensures Walks(s, rx, Root, segs, map[], Reached(PathOf(Root, tags), Bind(map[], segs, tags)))
            <==> Aligned(s, rx, Root, segs, tags) && Stops(s, PathOf(Root, tags), segs, |tags|)
  {
    hide Walks, Aligned, Leaf, Bind;
    var w := Reached(PathOf(Root, tags), Bind(map[], segs, tags));
    if Walks(s, rx, Root, segs, map[], w) {
      var found := WalkSound(s, rx, Root, segs, map[], w);
      LabelsOfPath(Root, tags);
      LabelsOfPath(Root, found);
      assert [] + tags == tags && [] + found == found;
    }
    if Aligned(s, rx, Root, segs, tags) && Stops(s, PathOf(Root, tags), segs, |tags|) {
      WalkComplete(s, rx, Root, segs, map[], tags);
    }
  }

  // No child is named like the segment, and the parameter found has a pattern that does not compile.
  ghost predicate StepFails<H>(s: State<H>, rx: Regex, p: Path, seg: string, tag: string) {
    && p in s && Child(p, seg) !in s && IsParameterOf(s, p, tag)
    && LabelPattern(tag).Some? && !rx.Compiles(LabelPattern(tag).value)
  }

  lemma {:induction false} FailSound<H>(s: State<H>, rx: Regex, at: Path, segs: seq<string>,
                                        params: map<string, string>) returns (tags: seq<string>, tag: string)
    requires at in s && Walks(s, rx, at, segs, params, Failed)
    ensures |tags| < |segs| && Aligned(s, rx, at, segs, tags)
    ensures StepFails(s, rx, PathOf(at, tags), segs[|tags|], tag)
    decreases |segs|
  {
    hide LabelPattern, ParameterKey, IsParameter;
    var seg, rest := segs[0], segs[1..];
    if Child(at, seg) in s {
      tags, tag := FailSound(s, rx, Child(at, seg), rest, params);
      tags := [seg] + tags;
    } else {
      tag :| IsParameterOf(s, at, tag) && Tries(s, rx, at, tag, seg, rest, params, Failed);
      if rx.Compiles(LabelPattern(tag).value) {
        var first := tag;
        tags, tag := FailSound(s, rx, Child(at, first), rest, BindOne(params, first, seg));
        tags := [first] + tags;
      } else {
        tags := [];
      }
    }
  }

  lemma {:induction false} FailComplete<H>(s: State<H>, rx: Regex, at: Path, segs: seq<string>,
                                           params: map<string, string>, tags: seq<string>, tag: string)
    requires at in s && |tags| < |segs| && Aligned(s, rx, at, segs, tags)
    requires StepFails(s, rx, PathOf(at, tags), segs[|tags|], tag)
    ensures Walks(s, rx, at, segs, params, Failed)
    decreases |tags|
  {
    hide LabelPattern, ParameterKey, IsParameter;
    var seg, rest := segs[0], segs[1..];
    if tags == [] {
      assert IsParameterOf(s, at, tag) && Tries(s, rx, at, tag, seg, rest, params, Failed);
    } else {
      var first := tags[0];
      var next := if first != seg && IsParameter(first) then BindOne(params, first, seg) else params;
      FailComplete(s, rx, Child(at, first), rest, next, tags[1..], tag);
      if first != seg {
        assert IsParameterOf(s, at, first) && Tries(s, rx, at, first, seg, rest, params, Failed);
      }
    }
  }

  // ---------- the list of routes ----------

  // Some route starts with these labels.
  ghost predicate OnTheWay<H>(routes: seq<Route<H>>, labels: seq<string>) {
    labels == [] || exists i :: 0 <= i < |routes| && labels <= Segments(routes[i].path)
  }

  // The label at a position of the walk: the segment itself, or, if no route has that there, a parameter that matches.
  ghost predicate Takes<H>(routes: seq<Route<H>>, rx: Regex, before: seq<string>, seg: string, tag: string) {
    && OnTheWay(routes, before + [tag])
    && (tag == seg || (&& !OnTheWay(routes, before + [seg]) && IsParameter(tag)
                       && LabelPattern(tag).Some? && rx.Matches(LabelPattern(tag).value, seg)))
  }

  // The labels that the segments select: one for each segment, or fewer, if no route goes on there and the next segment
  // repeats the last label.
  ghost predicate Selects<H>(routes: seq<Route<H>>, rx: Regex, segs: seq<string>, tags: seq<string>) {
    && |tags| <= |segs|
    && (forall k | 0 <= k < |tags| :: Takes(routes, rx, tags[..k], segs[k], tags[k]))
    && (|tags| < |segs| ==> && tags != [] && tags[|tags| - 1] == segs[|tags|]
                            && forall tag :: !OnTheWay(routes, tags + [tag]))
  }

  // The labels up to a parameter that has to be tried and whose pattern does not compile.
  ghost predicate Breaks<H>(routes: seq<Route<H>>, rx: Regex, segs: seq<string>, tags: seq<string>, tag: string) {
    && |tags| < |segs|
    && (forall k | 0 <= k < |tags| :: Takes(routes, rx, tags[..k], segs[k], tags[k]))
    && !OnTheWay(routes, tags + [segs[|tags|]]) && OnTheWay(routes, tags + [tag]) && IsParameter(tag)
    && LabelPattern(tag).Some? && !rx.Compiles(LabelPattern(tag).value)
  }

  // No two routes with the same labels up to some place have different parameters there.
  ghost predicate OneParameterEach<H>(routes: seq<Route<H>>) {
    forall i, j, k | 0 <= i < |routes| && 0 <= j < |routes| ::
      SameParameter(Segments(routes[i].path), Segments(routes[j].path), k)
  }

  predicate SameParameter(a: seq<string>, b: seq<string>, k: int) {
    0 <= k < |a| && k < |b| && a[..k] == b[..k] && IsParameter(a[k]) && IsParameter(b[k]) ==> a[k] == b[k]
  }

  lemma KnownIff<H>(routes: seq<Route<H>>, labels: seq<string>)
    ensures Known(routes, PathOf(Root, labels)) <==> OnTheWay(routes, labels)
  {
    var p := PathOf(Root, labels);
    LabelsOfPath(Root, labels);
    if labels == [] {
    } else {
      forall i | 0 <= i < |routes|
        ensures Target(routes[i].path).Some? && Under(p, Target(routes[i].path).value)
                <==> labels <= Segments(routes[i].path)
      {
        TargetLabels(routes[i].path);
        if Target(routes[i].path).Some? {
          UnderIff(p, Target(routes[i].path).value);
        }
      }
    }
  }

  lemma TargetLabels(path: string)
    ensures Target(path).Some? ==> Labels(Target(path).value) == Segments(path)
    ensures Target(path).None? ==> Segments(path) == []
  {
    RootHasNoSegments();
    LabelsOfPath(Root, Segments(path));
  }

  /** Where a path registers: "/" at the root, any other path at its segments, if it has any. */
  lemma TargetIff(path: string, labels: seq<string>)
    ensures Target(path) == Some(PathOf(Root, labels))
            <==> if labels == [] then path == "/" else Segments(path) == labels
  {
    RootHasNoSegments();
    LabelsOfPath(Root, labels);
    LabelsOfPath(Root, Segments(path));
    assert [] + labels == labels && [] + Segments(path) == Segments(path);
  }

  lemma ChildIff<H>(routes: seq<Route<H>>, labels: seq<string>, tag: string)
    ensures Child(PathOf(Root, labels), tag) in Build(routes) <==> OnTheWay(routes, labels + [tag])
  {
    PathOfSnoc(Root, labels, tag);
    KnownIff(routes, labels + [tag]);
    BuildMeans(routes, PathOf(Root, labels + [tag]), "");
  }

  /** The condition under which the order of the children does not matter, on the routes as they were registered. */
  lemma OneParameterIff<H>(routes: seq<Route<H>>)
    ensures OneParameter(Build(routes)) <==> OneParameterEach(routes)
  {
    if OneParameter(Build(routes)) {
      forall i, j, k | 0 <= i < |routes| && 0 <= j < |routes|
        ensures SameParameter(Segments(routes[i].path), Segments(routes[j].path), k)
      {
        ParametersAgree(routes, i, j, k);
      }
    }
    if OneParameterEach(routes) {
      forall p, t, u | IsParameterOf(Build(routes), p, t) && IsParameterOf(Build(routes), p, u)
        ensures t == u
      {
        ParameterRoutes(routes, p, t, u);
      }
    }
  }

  lemma ParametersAgree<H>(routes: seq<Route<H>>, i: nat, j: nat, k: int)
    requires OneParameter(Build(routes)) && i < |routes| && j < |routes|
    ensures SameParameter(Segments(routes[i].path), Segments(routes[j].path), k)
  {
    hide Segments, IsParameter, Build, OnTheWay;
    var a, b := Segments(routes[i].path), Segments(routes[j].path);
    if 0 <= k < |a| && k < |b| && a[..k] == b[..k] && IsParameter(a[k]) && IsParameter(b[k]) {
      LabelsOfRoute(routes, i, k);
      LabelsOfRoute(routes, j, k);
      ChildIff(routes, a[..k], a[k]);
      ChildIff(routes, a[..k], b[k]);
      var p := PathOf(Root, a[..k]);
      assert IsParameterOf(Build(routes), p, a[k]) && IsParameterOf(Build(routes), p, b[k]);
    }
  }

  lemma LabelsOfRoute<H>(routes: seq<Route<H>>, i: nat, k: nat)
    requires i < |routes| && k < |Segments(routes[i].path)|
    ensures var a := Segments(routes[i].path); OnTheWay(routes, a[..k] + [a[k]])
  {
    hide Segments;
    var a := Segments(routes[i].path);
    assert a[..k] + [a[k]] <= a;
  }

  lemma ParameterRoutes<H>(routes: seq<Route<H>>, p: Path, t: string, u: string)
    requires OneParameterEach(routes) && IsParameterOf(Build(routes), p, t) && IsParameterOf(Build(routes), p, u)
    ensures t == u
  {
    hide Segments, IsParameter;
    var before := Labels(p);
    PathOfLabels(p);
    ChildIff(routes, before, t);
    ChildIff(routes, before, u);
    var i :| 0 <= i < |routes| && before + [t] <= Segments(routes[i].path);
    var j :| 0 <= j < |routes| && before + [u] <= Segments(routes[j].path);
    var a, b, k := Segments(routes[i].path), Segments(routes[j].path), |before|;
    assert a[..k] == (before + [t])[..k] == before && b[..k] == (before + [u])[..k] == before;
    assert a[k] == (before + [t])[k] && b[k] == (before + [u])[k];
    assert SameParameter(a, b, k);
  }

  lemma {:induction false} AlignedIff<H>(routes: seq<Route<H>>, rx: Regex, before: seq<string>, segs: seq<string>,
                                         tags: seq<string>)
    requires |tags| <= |segs|
    ensures Aligned(Build(routes), rx, PathOf(Root, before), segs, tags)
            <==> forall k | 0 <= k < |tags| :: Takes(routes, rx, before + tags[..k], segs[k], tags[k])
    decreases |tags|
  {
    hide Takes, Build;
    if tags == [] {
    } else {
      var next := before + [tags[0]];
      PathOfSnoc(Root, before, tags[0]);
      AlignedIff(routes, rx, next, segs[1..], tags[1..]);
      StepIff(routes, rx, before, segs[0], tags[0]);
      assert before + tags[..0] == before;
      forall k | 0 <= k < |tags| - 1
        ensures next + tags[1..][..k] == before + tags[..k + 1]
      {
      }
      assert forall k | 0 <= k < |tags| - 1 :: Takes(routes, rx, next + tags[1..][..k], segs[1..][k], tags[1..][k])
                                            == Takes(routes, rx, before + tags[..k + 1], segs[k + 1], tags[k + 1]);
    }
  }

  lemma StepIff<H>(routes: seq<Route<H>>, rx: Regex, before: seq<string>, seg: string, tag: string)
    ensures StepMatches(Build(routes), rx, PathOf(Root, before), seg, tag) <==> Takes(routes, rx, before, seg, tag)
  {
    hide OnTheWay, IsParameter, LabelPattern;
    ChildIff(routes, before, seg);
    ChildIff(routes, before, tag);
  }

  lemma StopsIff<H>(routes: seq<Route<H>>, segs: seq<string>, tags: seq<string>)
    requires |tags| <= |segs| && AreTokens(segs, '/') && OnTheWay(routes, tags)
    ensures Stops(Build(routes), PathOf(Root, tags), segs, |tags|)
            <==> (|tags| < |segs| ==> && tags != [] && tags[|tags| - 1] == segs[|tags|]
                                      && forall tag :: !OnTheWay(routes, tags + [tag]))
  {
    hide OnTheWay, Build;
    var s, p := Build(routes), PathOf(Root, tags);
    forall tag
      ensures Child(p, tag) in s <==> OnTheWay(routes, tags + [tag])
    {
      ChildIff(routes, tags, tag);
    }
    KnownIff(routes, tags);
    BuildMeans(routes, p, "");
    if tags == [] {
      assert |segs| > 0 ==> IsToken(segs[0], '/');
    } else {
      var n := |tags| - 1;
      PathOfSnoc(Root, tags[..n], tags[n]);
      assert tags[..n] + [tags[n]] == tags;
      assert Rooted(s, p);
    }
  }

  /** The labels the walk can end at, read off the routes. */
  lemma SelectsIff<H>(routes: seq<Route<H>>, rx: Regex, segs: seq<string>, tags: seq<string>)
    requires AreTokens(segs, '/') && |tags| <= |segs|
    ensures Root in Build(routes)
    ensures Walks(Build(routes), rx, Root, segs, map[], Reached(PathOf(Root, tags), Bind(map[], segs, tags)))
            <==> Selects(routes, rx, segs, tags)
  {
    hide Walks, Aligned, Takes, Build, Bind;
    WalkReachesIff(Build(routes), rx, segs, tags);
    AlignedIff(routes, rx, [], segs, tags);
    assert forall k | 0 <= k < |tags| :: [] + tags[..k] == tags[..k];
    if forall k | 0 <= k < |tags| :: Takes(routes, rx, tags[..k], segs[k], tags[k]) {
      LastIsOnTheWay(routes, rx, segs, tags);
      StopsIff(routes, segs, tags);
    }
  }

  lemma LastIsOnTheWay<H>(routes: seq<Route<H>>, rx: Regex, segs: seq<string>, tags: seq<string>)
    requires |tags| <= |segs| && forall k | 0 <= k < |tags| :: Takes(routes, rx, tags[..k], segs[k], tags[k])
    ensures OnTheWay(routes, tags)
  {
    if tags == [] {
    } else {
      var n := |tags| - 1;
      assert Takes(routes, rx, tags[..n], segs[n], tags[n]);
      assert tags[..n] + [tags[n]] == tags;
    }
  }

  lemma FailsIff<H>(routes: seq<Route<H>>, rx: Regex, segs: seq<string>)
    ensures Root in Build(routes)
    ensures Walks(Build(routes), rx, Root, segs, map[], Failed)
            <==> exists tags, tag :: Breaks(routes, rx, segs, tags, tag)
  {
    hide Walks, Aligned, Takes, Build, OnTheWay, LabelPattern, IsParameter;
    var s := Build(routes);
    if Walks(s, rx, Root, segs, map[], Failed) {
      var tags, tag := FailSound(s, rx, Root, segs, map[]);
      BreaksIff(routes, rx, segs, tags, tag);
    }
    forall tags, tag | Breaks(routes, rx, segs, tags, tag)
      ensures Walks(s, rx, Root, segs, map[], Failed)
    {
      BreaksIff(routes, rx, segs, tags, tag);
      FailComplete(s, rx, Root, segs, map[], tags, tag);
    }
  }

  lemma BreaksIff<H>(routes: seq<Route<H>>, rx: Regex, segs: seq<string>, tags: seq<string>, tag: string)
    requires |tags| < |segs|
    ensures Breaks(routes, rx, segs, tags, tag)
            <==> && Aligned(Build(routes), rx, Root, segs, tags)
                 && StepFails(Build(routes), rx, PathOf(Root, tags), segs[|tags|], tag)
  {
    hide Aligned, Takes, Build, OnTheWay, LabelPattern, IsParameter;
    AlignedIff(routes, rx, [], segs, tags);
    assert forall k | 0 <= k < |tags| :: [] + tags[..k] == tags[..k];
    ChildIff(routes, tags, segs[|tags|]);
    ChildIff(routes, tags, tag);
    ParentIn(routes, PathOf(Root, tags), tag);
  }

  lemma ParentIn<H>(routes: seq<Route<H>>, p: Path, tag: string)
    ensures Child(p, tag) in Build(routes) ==> p in Build(routes)
  {
    assert Child(p, tag) in Build(routes) ==> Rooted(Build(routes), Child(p, tag));
  }

  // ---------- answers ----------

  // The answer at the node with these labels.
  ghost function AnswerAt<H>(routes: seq<Route<H>>, path: string, verb: string, tags: seq<string>,
                             params: map<string, string>): Answer<H> {
    if path == PATH_ROOT && RootUnused(routes) then NotFound
    else
      var h := Latest(routes, PathOf(Root, tags), verb);
      if h.Some? then Found(h.value, params) else NotAllowed
  }

  /** With one parameter at each place, the segments select at most one list of labels, and the search is answered
      there, with the bindings along those labels. If they select none, the search fails exactly if they lead to a
      pattern that does not compile, and finds nothing otherwise. */
  lemma SelectedAnswer<H>(routes: seq<Route<H>>, rx: Regex, path: string, verb: string, w: Walk, tags: seq<string>)
    requires OneParameterEach(routes) && Walks(Build(routes), rx, Root, Segments(path), map[], w)
    ensures w.Reached? ==> w.node in Build(routes)
    ensures Selects(routes, rx, Segments(path), tags) ==>
              && w == Reached(PathOf(Root, tags), Bind(map[], Segments(path), tags))
              && Finish(Build(routes), path, verb, w) == AnswerAt(routes, path, verb, tags, w.params)
    ensures w.Reached? <==> exists t :: Selects(routes, rx, Segments(path), t)
    ensures w.Failed? <==> exists t, u :: Breaks(routes, rx, Segments(path), t, u)
  {
    hide Selects, Walks, Aligned, Bind, Build, Segments, OneParameterEach, OneParameter, RootUnused, Breaks;
    var s, segs := Build(routes), Segments(path);
    TokensOf(path);
    OneParameterIff(routes);
    FailsIff(routes, rx, segs);
    if exists t, u :: Breaks(routes, rx, segs, t, u) {
      WalkUnique(s, rx, Root, segs, map[], w, Failed);
    }
    if w.Reached? {
      var found := WalkSound(s, rx, Root, segs, map[], w);
      SelectsIff(routes, rx, segs, found);
    }
    forall t | Selects(routes, rx, segs, t)
      ensures |t| <= |segs| && w == Reached(PathOf(Root, t), Bind(map[], segs, t))
    {
      SelectsNoMore(routes, rx, segs, t);
      SelectsIff(routes, rx, segs, t);
      WalkUnique(s, rx, Root, segs, map[], w, Reached(PathOf(Root, t), Bind(map[], segs, t)));
    }
    if Selects(routes, rx, segs, tags) {
      FinishIs(routes, path, verb, w);
    }
  }

  lemma TokensOf(path: string)
    ensures AreTokens(Segments(path), '/') && (path == PATH_ROOT ==> Segments(path) == [])
  {
    SplitIsTokens(path, '/');
    RootHasNoSegments();
  }

  lemma SelectsNoMore<H>(routes: seq<Route<H>>, rx: Regex, segs: seq<string>, tags: seq<string>)
    requires Selects(routes, rx, segs, tags)
    ensures |tags| <= |segs|
  {
  }

  lemma FinishIs<H>(routes: seq<Route<H>>, path: string, verb: string, w: Walk)
    requires w.Reached? && w.node in Build(routes) && (path == PATH_ROOT ==> w.node == Root)
    ensures Finish(Build(routes), path, verb, w) ==
              if path == PATH_ROOT && RootUnused(routes) then NotFound
              else if Latest(routes, w.node, verb).Some? then Found(Latest(routes, w.node, verb).value, w.params)
              else NotAllowed
  {
    hide RootUnused, Build, Latest;
    BuildMeans(routes, w.node, verb);
    if path == PATH_ROOT {
      RootActions(routes);
    }
  }

  /** There is no second try: beside "/a/b" the route "/:x/c" does not answer "/a/c", which alone it would. */
  lemma NoSecondTry<H>(rx: Regex, h: H, k: H, w: Walk)
    requires rx.Matches(PATTERN_WILDCARD, "a")
    requires var routes := [Route(["GET"], "/a/b", h), Route(["GET"], "/:x/c", k)];
             Walks(Build(routes), rx, Root, ["a", "c"], map[], w)
    ensures w == Unmatched
    ensures Selects([Route(["GET"], "/:x/c", k)], rx, ["a", "c"], [":x", "c"])
  {
    hide *;
    OnlyAb(h, k);
    NoWayOn([Route(["GET"], "/a/b", h), Route(["GET"], "/:x/c", k)], rx, "a", "c", w);
    OnlyParameter(rx, k);
  }

  // Behind the label "a" the two routes have "b" only.
  lemma OnlyAb<H>(h: H, k: H)
    ensures var routes := [Route(["GET"], "/a/b", h), Route(["GET"], "/:x/c", k)];
            && OnTheWay(routes, [] + ["a"]) && OnTheWay(routes, ["a"] + ["b"])
            && forall tag | OnTheWay(routes, ["a"] + [tag]) :: tag != "c" && !IsParameter(tag)
  {
    var routes := [Route(["GET"], "/a/b", h), Route(["GET"], "/:x/c", k)];
    TwoLiterals();
    hide Segments;
    assert routes[0].path == "/a/b" && routes[1].path == "/:x/c";
    assert [] + ["a"] == ["a"] <= ["a", "b"] && ["a"] + ["b"] == ["a", "b"];
    forall tag | OnTheWay(routes, ["a"] + [tag])
      ensures tag == "b"
    {
      var i :| 0 <= i < |routes| && ["a"] + [tag] <= Segments(routes[i].path);
      assert (["a"] + [tag])[0] == "a" && (["a"] + [tag])[1] == tag;
    }
  }

  lemma TwoLiterals()
    ensures Segments("/a/b") == ["a", "b"] && Segments("/:x/c") == [":x", "c"]
  {
    hide Segments;
    TwoSegments("a", "b");
    TwoSegments(":x", "c");
    assert "/" + "a" + "/" + "b" == "/a/b" && "/" + ":x" + "/" + "c" == "/:x/c";
  }

  lemma TwoSegments(a: string, b: string)
    requires IsToken(a, '/') && IsToken(b, '/')
    ensures Segments("/" + a + "/" + b) == [a, b]
  {
    assert [a, b][1..] == [b] && [b][1..] == [];
    assert Delimited([b], '/') == ['/'] + b;
    assert Delimited([a, b], '/') == "/" + a + "/" + b;
    SplitOfDelimited([a, b], '/');
  }

  // At the first segment's node there is something below, but neither the next segment nor a parameter.
  lemma NoWayOn<H>(routes: seq<Route<H>>, rx: Regex, seg: string, next: string, w: Walk)
    requires Walks(Build(routes), rx, Root, [seg, next], map[], w)
    requires OnTheWay(routes, [] + [seg]) && exists tag :: OnTheWay(routes, [seg] + [tag])
    requires forall tag | OnTheWay(routes, [seg] + [tag]) :: tag != next && !IsParameter(tag)
    ensures w == Unmatched
  {
    hide OnTheWay, IsParameter, Build;
    var s, p := Build(routes), Child(Root, seg);
    ChildIff(routes, [], seg);
    assert PathOf(Root, [seg]) == p by {
      PathOfSnoc(Root, [], seg);
      assert [] + [seg] == [seg];
    }
    forall tag
      ensures Child(p, tag) in s <==> OnTheWay(routes, [seg] + [tag])
    {
      ChildIff(routes, [seg], tag);
    }
    assert [seg, next][1..] == [next];
    var tag :| OnTheWay(routes, [seg] + [tag]);
    assert !Leaf(s, p) && NoParameter(s, p);
    assert Walks(s, rx, p, [next], map[], w);
  }

  lemma OnlyParameter<H>(rx: Regex, k: H)
    requires rx.Matches(PATTERN_WILDCARD, "a")
    ensures Selects([Route(["GET"], "/:x/c", k)], rx, ["a", "c"], [":x", "c"])
  {
    TwoLiterals();
    hide Segments;
    var routes, tags := [Route(["GET"], "/:x/c", k)], [":x", "c"];
    assert routes[0].path == "/:x/c";
    assert tags[..0] == [] && tags[..1] == [":x"] && [] + [":x"] == [":x"] <= tags && [":x"] + ["c"] == tags;
    assert OnTheWay(routes, [] + [":x"]) && OnTheWay(routes, [":x"] + ["c"]);
    assert !OnTheWay(routes, [] + ["a"]) by {
      assert ([] + ["a"])[0] == "a" && tags[0] == ":x" && ":x"[0] != "a"[0];
    }
    assert LabelPattern(":x") == Some(PATTERN_WILDCARD) by {
      IndexOfIs(":x", '[', 2);
    }
    assert Takes(routes, rx, tags[..0], "a", tags[0]) && Takes(routes, rx, tags[..1], "c", tags[1]);
  }

  // ---------- names ----------

  // Every parameter label names its parameter.
  ghost predicate NamedEach<H>(routes: seq<Route<H>>) {
    forall i | 0 <= i < |routes| :: AllKeyed(Segments(routes[i].path))
  }

  predicate AllKeyed(labels: seq<string>) {
    forall k | 0 <= k < |labels| && IsParameter(labels[k]) :: ParameterKey(labels[k]).Some?
  }

  lemma NamedBinds<H>(routes: seq<Route<H>>, rx: Regex, segs: seq<string>)
    requires NamedEach(routes)
    ensures BindsNames(Build(routes), rx, segs)
  {
    hide Aligned, Build, ParameterKey, IsParameter;
    forall tags | |tags| <= |segs| && Aligned(Build(routes), rx, Root, segs, tags)
      ensures AllNamed(segs, tags)
    {
      AlignedIff(routes, rx, [], segs, tags);
      forall k | 0 <= k < |tags| && IsParameter(tags[k])
        ensures ParameterKey(tags[k]).Some?
      {
        assert [] + tags[..k] == tags[..k];
        assert Takes(routes, rx, tags[..k], segs[k], tags[k]);
        LabelOfSome(routes, tags[..k], tags[k]);
      }
    }
  }

  lemma LabelOfSome<H>(routes: seq<Route<H>>, before: seq<string>, tag: string)
    requires NamedEach(routes) && OnTheWay(routes, before + [tag]) && IsParameter(tag)
    ensures ParameterKey(tag).Some?
  {
    hide Segments, ParameterKey, IsParameter;
    var i :| 0 <= i < |routes| && before + [tag] <= Segments(routes[i].path);
    var a := Segments(routes[i].path);
    assert a[|before|] == (before + [tag])[|before|] == tag;
    assert AllKeyed(a);
  }

  // Literal routes have no parameter to name, and none that could differ.
  lemma LiteralNamed<H>(routes: seq<Route<H>>)
    requires Literal(routes)
    ensures NamedEach(routes)
  {
    hide Segments, ParameterKey, IsParameter;
    forall i, k | 0 <= i < |routes| && 0 <= k < |Segments(routes[i].path)|
      ensures !IsParameter(Segments(routes[i].path)[k])
    {
      var a := Segments(routes[i].path);
      LabelsOfRoute(routes, i, k);
      KnownIff(routes, a[..k] + [a[k]]);
      PathOfSnoc(Root, a[..k], a[k]);
      assert Known(routes, Child(PathOf(Root, a[..k]), a[k]));
    }
    assert forall i | 0 <= i < |routes| :: AllKeyed(Segments(routes[i].path));
  }
}
