/** What the route trie means: the nodes as a map from label paths, insertion and search on that map, and the flat
    route table that both must agree with. */
module Routing {
  import opened Options
  import opened RoutePath

  // A node's position: the labels from the root.
  datatype Path = Root | Child(up: Path, tag: string)

  datatype NodeView<H> = NodeView(tag: Option<string>, actions: map<string, H>)

  type State<H> = map<Path, NodeView<H>>

  // A compiled pattern, as a handle of the regular expression library.
  datatype Compiled = Compiled(handle: nat)

  // The library: what a pattern compiles to, if it does, and what a compiled pattern matches.
  datatype Regex = Regex(compile: string -> Option<Compiled>, exec: (Compiled, string) -> bool) {
    predicate Compiles(pattern: string) {
      compile(pattern).Some?
    }

    predicate Matches(pattern: string, s: string) {
      compile(pattern).Some? && exec(compile(pattern).value, s)
    }
  }

  const PATH_ROOT := "/"

  function PathOf(at: Path, segs: seq<string>): Path
    decreases |segs|
  {
    if segs == [] then at else PathOf(Child(at, segs[0]), segs[1..])
  }

  // `p` is `q` or one of its ancestors.
  predicate Under(p: Path, q: Path) {
    p == q || (q.Child? && Under(p, q.up))
  }

  // Labels of the nodes are the last labels of their paths; only the root's label may be unset.
  ghost predicate IsTree<H>(s: State<H>) {
    && Root in s
    && (s[Root].tag == None || s[Root].tag == Some(PATH_ROOT))
    && forall p {:trigger Rooted(s, p)} | p in s :: Rooted(s, p)
  }

  ghost predicate Rooted<H>(s: State<H>, p: Path)
    requires p in s
  {
    p.Child? ==> p.up in s && s[p].tag == Some(p.tag)
  }

  // ---------- insertion ----------

  function WithActions<H>(actions: map<string, H>, methods: seq<string>, h: H): map<string, H> {
    if methods == [] then actions else WithActions(actions, methods[..|methods| - 1], h)[methods[|methods| - 1] := h]
  }

  // The missing nodes on the way to `p`, without actions.
  function AddPath<H>(s: State<H>, p: Path): State<H> {
    if p in s || p.Root? then s else AddPath(s, p.up)[p := NodeView(Some(p.tag), map[])]
  }

  function Register<H>(s: State<H>, p: Path, tag: string, methods: seq<string>, h: H): State<H>
    requires p in s
  {
    s[p := NodeView(Some(tag), WithActions(s[p].actions, methods, h))]
  }

  lemma RegisterIsTree<H>(s: State<H>, p: Path, tag: string, methods: seq<string>, h: H)
    requires IsTree(s) && p in s && tag == if p.Child? then p.tag else PATH_ROOT
    ensures IsTree(Register(s, p, tag, methods, h))
  {
    var s' := Register(s, p, tag, methods, h);
    forall x | x in s'
      ensures Rooted(s', x)
    {
      assert Rooted(s, x);
    }
  }

  // The node a route registers at: none for a path without segments other than the root path.
  function Target(path: string): Option<Path> {
    if path == PATH_ROOT then Some(Root)
    else if Segments(path) == [] then None
    else Some(PathOf(Root, Segments(path)))
  }

  lemma {:induction false} AddPathMeans<H>(s: State<H>, p: Path, q: Path)
    requires IsTree(s)
    ensures IsTree(AddPath(s, p)) && p in AddPath(s, p)
    ensures q in AddPath(s, p) <==> q in s || Under(q, p)
    ensures q in AddPath(s, p) ==> AddPath(s, p)[q] == if q in s then s[q] else NodeView(Some(q.tag), map[])
    decreases p
  {
    if p in s || p.Root? {
      if Under(q, p) {
        AncestorsIn(s, p, q);
      }
    } else {
      AddPathMeans(s, p.up, p.up);
      AddPathMeans(s, p.up, q);
      var s' := AddPath(s, p);
      forall x | x in s'
        ensures Rooted(s', x)
      {
        assert x != p ==> Rooted(AddPath(s, p.up), x);
      }
    }
  }

  lemma {:induction false} AncestorsIn<H>(s: State<H>, p: Path, q: Path)
    requires IsTree(s) && p in s && Under(q, p)
    ensures q in s
    decreases p
  {
    if q == p {
    } else {
      assert Rooted(s, p);
      AncestorsIn(s, p.up, q);
    }
  }

  function Insert<H>(s: State<H>, methods: seq<string>, path: string, h: H): State<H>
    requires IsTree(s)
  {
    if path == PATH_ROOT then Register(s, Root, PATH_ROOT, methods, h)
    else if Segments(path) == [] then s
    else
      var p := PathOf(Root, Segments(path));
      AddPathMeans(s, p, p);
      PathOfIsChild(Root, Segments(path));
      Register(AddPath(s, p), p, p.tag, methods, h)
  }

  lemma {:induction false} PathOfIsChild(at: Path, segs: seq<string>)
    requires segs != []
    ensures PathOf(at, segs).Child?
    decreases |segs|
  {
    if |segs| == 1 {
    } else {
      PathOfIsChild(Child(at, segs[0]), segs[1..]);
    }
  }

  lemma {:induction false} WithActionsMeans<H>(actions: map<string, H>, methods: seq<string>, h: H, m: string)
    ensures var r := WithActions(actions, methods, h);
            && (m in methods ==> m in r && r[m] == h)
            && (m !in methods ==> (m in r <==> m in actions) && (m in actions ==> r[m] == actions[m]))
    decreases |methods|
  {
    if methods == [] {
    } else {
      WithActionsMeans(actions, methods[..|methods| - 1], h, m);
    }
  }

  /** One insertion: the path's node and its ancestors exist, its methods get the handler, and nothing else changes. */
  lemma InsertMeans<H>(s: State<H>, methods: seq<string>, path: string, h: H, q: Path)
    requires IsTree(s)
    ensures var s' := Insert(s, methods, path, h); var t := Target(path);
            && IsTree(s')
            && (q in s' <==> q in s || (t.Some? && Under(q, t.value)))
            && (q in s && t != Some(q) ==> s'[q] == s[q])
            && (q in s' && q !in s && t != Some(q) ==> s'[q].actions == map[])
    ensures var s' := Insert(s, methods, path, h);
            Target(path) == Some(q) ==> s'[q].actions == WithActions(if q in s then s[q].actions else map[], methods, h)
  {
    var t := Target(path);
    if t.Some? {
      if t.value.Child? {
        AddPathMeans(s, t.value, q);
        AddPathMeans(s, t.value, t.value);
        RegisterIsTree(AddPath(s, t.value), t.value, t.value.tag, methods, h);
      } else if path != PATH_ROOT {
        PathOfIsChild(Root, Segments(path));
      } else {
        RegisterIsTree(s, Root, PATH_ROOT, methods, h);
      }
    }
  }

  // ---------- search ----------

  datatype Walk = Reached(node: Path, params: map<string, string>) | Unmatched | Failed

  datatype Answer<H> = Found(handler: H, params: map<string, string>) | NotFound | NotAllowed | Error

  ghost predicate Leaf<H>(s: State<H>, p: Path) {
    forall tag :: Child(p, tag) !in s
  }

  ghost predicate IsParameterOf<H>(s: State<H>, p: Path, tag: string) {
    IsParameter(tag) && Child(p, tag) in s
  }

  ghost predicate NoParameter<H>(s: State<H>, p: Path) {
    forall tag :: !IsParameterOf(s, p, tag)
  }

  function BindOne(params: map<string, string>, tag: string, seg: string): map<string, string>
    requires IsParameter(tag)
  {
    var key := ParameterKey(tag);
    if key.Some? then params[key.value := seg] else params
  }

  // The walk from node `at` over the segments still to come. Which parameter child is tried is not determined when
  // there are several: the hash table's slot order decides.
  ghost predicate Walks<H>(s: State<H>, rx: Regex, at: Path, segs: seq<string>, params: map<string, string>, w: Walk)
    requires at in s
    decreases |segs|
  {
    if segs == [] then w == Reached(at, params)
    else
      var seg, rest := segs[0], segs[1..];
      if Child(at, seg) in s then Walks(s, rx, Child(at, seg), rest, params, w)
      else if Leaf(s, at) then w == if s[at].tag == Some(seg) then Reached(at, params) else Unmatched
      else if NoParameter(s, at) then w == Unmatched
      else exists tag :: IsParameterOf(s, at, tag) && Tries(s, rx, at, tag, seg, rest, params, w)
  }

  // A parameter child that does not match ends the walk; there is no second try.
  ghost predicate Tries<H>(s: State<H>, rx: Regex, at: Path, tag: string, seg: string, rest: seq<string>,
                           params: map<string, string>, w: Walk)
    requires at in s && IsParameterOf(s, at, tag)
    decreases |rest| + 1, 0
  {
    match LabelPattern(tag)
    case None => w == Unmatched
    case Some(pattern) =>
      if !rx.Compiles(pattern) then w == Failed
      else if !rx.Matches(pattern, seg) then w == Unmatched
      else Walks(s, rx, Child(at, tag), rest, BindOne(params, tag, seg), w)
  }

  function Finish<H>(s: State<H>, path: string, verb: string, w: Walk): Answer<H>
    requires w.Reached? ==> w.node in s
  {
    match w
    case Unmatched => NotFound
    case Failed => Error
    case Reached(p, params) =>
      if path == PATH_ROOT && s[p].actions == map[] then NotFound
      else if verb in s[p].actions then Found(s[p].actions[verb], params)
      else NotAllowed
  }

  // ---------- determinism ----------

  ghost predicate OneParameter<H>(s: State<H>) {
    forall p, t, u :: IsParameterOf(s, p, t) && IsParameterOf(s, p, u) ==> t == u
  }

  /** With at most one parameter child per node the slot order cannot matter. */
  lemma {:induction false} WalkUnique<H>(s: State<H>, rx: Regex, at: Path, segs: seq<string>,
                                         params: map<string, string>, w: Walk, w': Walk)
    requires OneParameter(s) && at in s
    requires Walks(s, rx, at, segs, params, w) && Walks(s, rx, at, segs, params, w')
    ensures w == w'
    decreases |segs|
  {
    if segs == [] {
    } else {
      var seg, rest := segs[0], segs[1..];
      if Child(at, seg) in s {
        WalkUnique(s, rx, Child(at, seg), rest, params, w, w');
      } else if !Leaf(s, at) && exists tag :: IsParameterOf(s, at, tag) {
        var tag :| IsParameterOf(s, at, tag) && Tries(s, rx, at, tag, seg, rest, params, w);
        var tag' :| IsParameterOf(s, at, tag') && Tries(s, rx, at, tag', seg, rest, params, w');
        var pattern := LabelPattern(tag);
        if pattern.Some? && rx.Compiles(pattern.value) && rx.Matches(pattern.value, seg) {
          WalkUnique(s, rx, Child(at, tag), rest, BindOne(params, tag, seg), w, w');
        }
      }
    }
  }

  // ---------- soundness of parameter matches ----------

  // One step of a successful walk: the label is the segment, or no label is and it is a parameter that matches.
  ghost predicate StepMatches<H>(s: State<H>, rx: Regex, at: Path, seg: string, tag: string) {
    && Child(at, tag) in s
    && (tag == seg || (&& Child(at, seg) !in s && IsParameter(tag)
                       && LabelPattern(tag).Some? && rx.Matches(LabelPattern(tag).value, seg)))
  }

  ghost predicate Aligned<H>(s: State<H>, rx: Regex, at: Path, segs: seq<string>, tags: seq<string>)
    requires |tags| <= |segs|
    decreases |tags|
  {
    tags == [] || (StepMatches(s, rx, at, segs[0], tags[0]) && Aligned(s, rx, Child(at, tags[0]), segs[1..], tags[1..]))
  }

  lemma {:induction false} AlignedSnoc<H>(s: State<H>, rx: Regex, at: Path, segs: seq<string>, tags: seq<string>,
                                          tag: string)
    requires |tags| < |segs| && Aligned(s, rx, at, segs, tags)
    requires StepMatches(s, rx, PathOf(at, tags), segs[|tags|], tag)
    ensures Aligned(s, rx, at, segs, tags + [tag]) && PathOf(at, tags + [tag]) == Child(PathOf(at, tags), tag)
    decreases |tags|
  {
    hide StepMatches;
    if tags == [] {
      assert tags + [tag] == [tag] && [tag][1..] == [];
    } else {
      AlignedSnoc(s, rx, Child(at, tags[0]), segs[1..], tags[1..], tag);
      assert (tags + [tag])[0] == tags[0] && (tags + [tag])[1..] == tags[1..] + [tag];
    }
  }

  // The parameters that are bound along the labels have names; one without would be stored under a null key.
  predicate AllNamed(segs: seq<string>, tags: seq<string>)
    requires |tags| <= |segs|
  {
    forall i | 0 <= i < |tags| && tags[i] != segs[i] && IsParameter(tags[i]) :: ParameterKey(tags[i]).Some?
  }

  // Every parameter that a walk over the segments comes to bind has a name.
  ghost predicate BindsNames<H>(s: State<H>, rx: Regex, segs: seq<string>) {
    forall tags | |tags| <= |segs| && Aligned(s, rx, Root, segs, tags) :: AllNamed(segs, tags)
  }

  // The bindings made along the labels: only a label that differs from its segment binds.
  function Bind(params: map<string, string>, segs: seq<string>, tags: seq<string>): map<string, string>
    requires |tags| <= |segs|
    decreases |tags|
  {
    if tags == [] then params
    else Bind(if tags[0] != segs[0] && IsParameter(tags[0]) then BindOne(params, tags[0], segs[0]) else params,
              segs[1..], tags[1..])
  }

  /** A node that is reached lies on a label path that lines up with the segments, literal labels first; if segments
      are left over, the node is a leaf and the first of them repeats its label. */
  lemma {:induction false} WalkSound<H>(s: State<H>, rx: Regex, at: Path, segs: seq<string>,
                                        params: map<string, string>, w: Walk) returns (tags: seq<string>)
    requires at in s && Walks(s, rx, at, segs, params, w) && w.Reached?
    ensures |tags| <= |segs| && Aligned(s, rx, at, segs, tags)
    ensures w.node == PathOf(at, tags) && w.node in s && w.params == Bind(params, segs, tags)
    ensures |tags| < |segs| ==> Leaf(s, w.node) && s[w.node].tag == Some(segs[|tags|])
    decreases |segs|
  {
    tags := [];
    if segs == [] {
    } else {
      var seg, rest := segs[0], segs[1..];
      if Child(at, seg) in s {
        var tail := WalkSound(s, rx, Child(at, seg), rest, params, w);
        tags := [seg] + tail;
        assert tags[1..] == tail;
      } else if !Leaf(s, at) {
        var tag :| IsParameterOf(s, at, tag) && Tries(s, rx, at, tag, seg, rest, params, w);
        var tail := WalkSound(s, rx, Child(at, tag), rest, BindOne(params, tag, seg), w);
        tags := [tag] + tail;
        assert tags[1..] == tail;
      }
    }
  }

  // The parameter at position `i` of the walk binds `key`.
  predicate Binds(segs: seq<string>, tags: seq<string>, i: nat, key: string)
    requires i < |tags| <= |segs|
  {
    tags[i] != segs[i] && IsParameter(tags[i]) && ParameterKey(tags[i]) == Some(key)
  }

  lemma {:induction false} UnboundKeyKept(params: map<string, string>, segs: seq<string>, tags: seq<string>,
                                          key: string)
    requires |tags| <= |segs| && forall i | 0 <= i < |tags| :: !Binds(segs, tags, i, key)
    ensures var r := Bind(params, segs, tags);
            (key in r <==> key in params) && (key in params ==> r[key] == params[key])
    decreases |tags|
  {
    if tags == [] {
    } else {
      var params' := if tags[0] != segs[0] && IsParameter(tags[0]) then BindOne(params, tags[0], segs[0]) else params;
      assert !Binds(segs, tags, 0, key);
      forall i | 0 <= i < |tags| - 1
        ensures !Binds(segs[1..], tags[1..], i, key)
      {
        assert !Binds(segs, tags, i + 1, key);
      }
      UnboundKeyKept(params', segs[1..], tags[1..], key);
    }
  }

  /** Each key holds the segment of the last label that binds it. */
  lemma {:induction false} LastBindingWins(params: map<string, string>, segs: seq<string>, tags: seq<string>,
                                           key: string, i: nat)
    requires i < |tags| <= |segs| && Binds(segs, tags, i, key)
    requires forall j | i < j < |tags| :: !Binds(segs, tags, j, key)
    ensures var r := Bind(params, segs, tags); key in r && r[key] == segs[i]
    decreases |tags|
  {
    var params' := if tags[0] != segs[0] && IsParameter(tags[0]) then BindOne(params, tags[0], segs[0]) else params;
    forall j | i <= j < |tags| - 1
      ensures !Binds(segs[1..], tags[1..], j, key)
    {
      assert !Binds(segs, tags, j + 1, key);
    }
    if i == 0 {
      UnboundKeyKept(params', segs[1..], tags[1..], key);
    } else {
      assert Binds(segs[1..], tags[1..], i - 1, key);
      LastBindingWins(params', segs[1..], tags[1..], key, i - 1);
    }
  }
}
