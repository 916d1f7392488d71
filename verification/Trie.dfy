/** The route trie on the heap. Each node owns its children and actions; `nodes` records which node stands at which
    label path. Insertion and search are proved against the map-level meaning in `Routing`. */
module Trie {
  import opened Options
  import opened RoutePath
  import opened Routing
  import opened Splitting

  class Node<H> {
    var tag: Option<string>
    var children: map<string, Node<H>>
    var actions: map<string, H>

    constructor ()
      ensures tag == None && children == map[] && actions == map[]
    {
      tag, children, actions := None, map[], map[];
    }
  }

  // What a node holds, as a value.
  datatype Cell<H> = Cell(tag: Option<string>, children: map<string, Node<H>>, actions: map<string, H>)

  type Cells<H> = map<Path, Cell<H>>

  // ---------- the shape of the heap, on values ----------

  ghost predicate Linked<H>(nodes: map<Path, Node<H>>, cells: Cells<H>, p: Path)
    requires p in nodes && cells.Keys == nodes.Keys
  {
    && (forall tag :: tag in cells[p].children <==> Child(p, tag) in nodes)
    && (forall tag | tag in cells[p].children :: cells[p].children[tag] == nodes[Child(p, tag)])
    && (p.Child? ==> p.up in nodes && cells[p].tag == Some(p.tag))
  }

  ghost predicate Shaped<H>(nodes: map<Path, Node<H>>, cells: Cells<H>) {
    && cells.Keys == nodes.Keys && Root in nodes
    && (cells[Root].tag == None || cells[Root].tag == Some(PATH_ROOT))
    && (forall p, q | p in nodes && q in nodes && nodes[p] == nodes[q] :: p == q)
    && (forall p {:trigger Linked(nodes, cells, p)} | p in nodes :: Linked(nodes, cells, p))
  }

  ghost function ViewOf<H>(cells: Cells<H>): (s: State<H>)
    ensures s.Keys == cells.Keys
  {
    map p | p in cells :: NodeView(cells[p].tag, cells[p].actions)
  }

  lemma ShapedIsTree<H>(nodes: map<Path, Node<H>>, cells: Cells<H>)
    requires Shaped(nodes, cells)
    ensures IsTree(ViewOf(cells))
  {
    forall p | p in ViewOf(cells)
      ensures Rooted(ViewOf(cells), p)
    {
      assert Linked(nodes, cells, p);
    }
  }

  function Hung<H>(cells: Cells<H>, at: Path, tag: string, node: Node<H>): Cells<H>
    requires at in cells
  {
    var parent := cells[at].(children := cells[at].children[tag := node]);
    cells[at := parent][Child(at, tag) := Cell(Some(tag), map[], map[])]
  }

  lemma DistinctNodes<H>(nodes: map<Path, Node<H>>, cells: Cells<H>, p: Path, q: Path)
    requires Shaped(nodes, cells) && p in nodes && q in nodes && p != q
    ensures nodes[p] != nodes[q]
  {
  }

  lemma ChildLink<H>(nodes: map<Path, Node<H>>, cells: Cells<H>, at: Path, tag: string)
    requires Shaped(nodes, cells) && at in nodes
    ensures tag in cells[at].children <==> Child(at, tag) in nodes
    ensures tag in cells[at].children ==> cells[at].children[tag] == nodes[Child(at, tag)]
  {
    assert Linked(nodes, cells, at);
  }

  // Hanging a new node below `at` keeps the shape.
  lemma HangShape<H>(nodes: map<Path, Node<H>>, cells: Cells<H>, at: Path, tag: string, node: Node<H>)
    requires Shaped(nodes, cells) && at in nodes && tag !in cells[at].children && node !in nodes.Values
    ensures Child(at, tag) !in nodes && Shaped(nodes[Child(at, tag) := node], Hung(cells, at, tag, node))
  {
    var p := Child(at, tag);
    var nodes' := nodes[p := node];
    var cells' := Hung(cells, at, tag, node);
    assert Linked(nodes, cells, at);
    forall t
      ensures Child(p, t) !in nodes
    {
      assert Child(p, t) in nodes ==> Linked(nodes, cells, Child(p, t));
    }
    forall q | q in nodes'
      ensures Linked(nodes', cells', q)
    {
      assert q in nodes ==> Linked(nodes, cells, q);
    }
  }

  lemma HangView<H>(cells: Cells<H>, at: Path, tag: string, node: Node<H>)
    requires at in cells && Child(at, tag) !in cells
    ensures ViewOf(Hung(cells, at, tag, node)) == AddPath(ViewOf(cells), Child(at, tag))
  {
    assert AddPath(ViewOf(cells), at) == ViewOf(cells);
  }

  function Relabelled<H>(cells: Cells<H>, at: Path, tag: string, actions: map<string, H>): Cells<H>
    requires at in cells
  {
    cells[at := cells[at].(tag := Some(tag), actions := actions)]
  }

  lemma RelabelledMeans<H>(cells: Cells<H>, at: Path, tag: string, actions: map<string, H>)
    requires at in cells
    ensures Relabelled(cells, at, tag, actions) == cells[at := Cell(Some(tag), cells[at].children, actions)]
  {
  }

  // Changing actions, or setting the label the node's path calls for, keeps the shape.
  lemma RelabelShape<H>(nodes: map<Path, Node<H>>, cells: Cells<H>, at: Path, tag: string, actions: map<string, H>)
    requires Shaped(nodes, cells) && at in nodes && tag == if at.Child? then at.tag else PATH_ROOT
    ensures Shaped(nodes, Relabelled(cells, at, tag, actions))
  {
    var cells' := Relabelled(cells, at, tag, actions);
    forall q | q in nodes
      ensures Linked(nodes, cells', q)
    {
      assert Linked(nodes, cells, q);
    }
  }

  lemma RelabelView<H>(cells: Cells<H>, at: Path, tag: string, methods: seq<string>, h: H)
    requires at in cells
    ensures ViewOf(Relabelled(cells, at, tag, WithActions(cells[at].actions, methods, h)))
         == Register(ViewOf(cells), at, tag, methods, h)
  {
  }

  lemma ValuesAfter<K, V>(m: map<K, V>, k: K, v: V)
    requires k !in m
    ensures m[k := v].Values == m.Values + {v}
  {
    var m' := m[k := v];
    forall x | x in m.Values
      ensures x in m'.Values
    {
      var y :| y in m && m[y] == x;
      assert m'[y] == x;
    }
    assert m'[k] == v;
  }

  // What trying the parameter child comes to: the walk ends, or goes on at the child with this label.
  datatype Step = Stop(walk: Walk) | Go(tag: string)

  class RouteTrie<H> {
    const root: Node<H>
    const rx: Regex
    var regexCache: map<string, Compiled>
    ghost var nodes: map<Path, Node<H>>

    ghost function Heap(): (cells: Cells<H>)
      reads this`nodes, nodes.Values
      ensures cells.Keys == nodes.Keys
    {
      map p | p in nodes :: Cell(nodes[p].tag, nodes[p].children, nodes[p].actions)
    }

    ghost predicate Valid()
      reads this, nodes.Values
    {
      && Shaped(nodes, Heap()) && nodes[Root] == root
      && (forall pattern | pattern in regexCache :: rx.compile(pattern) == Some(regexCache[pattern]))
    }

    // The trie as the map from label paths.
    ghost function View(): State<H>
      reads this`nodes, nodes.Values
    {
      ViewOf(Heap())
    }

    constructor (rx: Regex)
      ensures Valid() && fresh(nodes.Values) && this.rx == rx
      ensures View() == map[Root := NodeView(None, map[])]
    {
      root := new Node<H>();
      this.rx := rx;
      regexCache := map[];
      nodes := map[Root := root];
    }

    method AddActions(node: Node<H>, methods: seq<string>, handler: H)
      modifies node`actions
      ensures node.actions == WithActions(old(node.actions), methods, handler)
    {
      for i := 0 to |methods|
        invariant node.actions == WithActions(old(node.actions), methods[..i], handler)
      {
        node.actions := node.actions[methods[i] := handler];
        assert methods[..i + 1][..i] == methods[..i];
      }
      assert methods[..|methods|] == methods;
    }

    // A new child of the node at `at`.
    method NewChild(curr: Node<H>, ghost at: Path, tag: string) returns (next: Node<H>)
      requires Shaped(nodes, Heap()) && at in nodes && nodes[at] == curr && Child(at, tag) !in nodes
      modifies this`nodes, curr`children
      ensures fresh(next) && nodes == old(nodes)[Child(at, tag) := next]
      ensures Heap() == Hung(old(Heap()), at, tag, next)
    {
      hide Linked, Shaped;
      ghost var cells := Heap();
      next := new Node<H>();
      next.tag := Some(tag);
      curr.children := curr.children[tag := next];
      nodes := nodes[Child(at, tag) := next];
      forall q | q in nodes
        ensures Heap()[q] == Hung(cells, at, tag, next)[q]
      {
        if q in cells && q != at {
          DistinctNodes(old(nodes), cells, q, at);
        }
      }
    }

    // The child with this label, created if it is missing.
    method Descend(curr: Node<H>, ghost at: Path, tag: string) returns (next: Node<H>)
      requires Valid() && at in nodes && nodes[at] == curr
      modifies this`nodes, curr`children
      ensures Valid() && Child(at, tag) in nodes && nodes[Child(at, tag)] == next
      ensures View() == AddPath(old(View()), Child(at, tag))
      ensures old(nodes.Values) <= nodes.Values && fresh(nodes.Values - old(nodes.Values))
    {
      hide ViewOf, AddPath, Linked, Hung, Shaped;
      ghost var cells := Heap();
      ChildLink(nodes, cells, at, tag);
      if tag in curr.children {
        AddPresent(View(), Child(at, tag));
        return curr.children[tag];
      }
      ghost var before := nodes;
      next := NewChild(curr, at, tag);
      HangShape(before, cells, at, tag, next);
      HangView(cells, at, tag, next);
      ValuesAfter(before, Child(at, tag), next);
    }

    /** Registers the handler for the methods at the path. The nodes end up as the map-level insertion says. */
    method Insert(methods: seq<string>, path: string, handler: H)
      requires Valid()
      modifies this`nodes, nodes.Values
      ensures Valid() && fresh(nodes.Values - old(nodes.Values))
      ensures old(IsTree(View())) && View() == Routing.Insert(old(View()), methods, path, handler)
    {
      hide ViewOf, Linked, Shaped, WithActions, AddPath, Register, Routing.Insert, IsTree;
      ShapedIsTree(nodes, Heap());
      InsertCases(View(), methods, path, handler);
      if path == PATH_ROOT {
        Overwrite(root, Root, PATH_ROOT, methods, handler);
        return;
      }
      var segs := SplitText(path, '/');
      var curr := root;
      ghost var at := Root;
      ghost var before := View();
      for i := 0 to |segs|
        invariant Valid() && at in nodes && nodes[at] == curr
        invariant fresh(nodes.Values - old(nodes.Values)) && IsTree(View())
        invariant PathOf(at, segs[i..]) == PathOf(Root, segs) && View() == AddPath(before, at)
        invariant i > 0 ==> at.Child? && at.tag == segs[i - 1]
      {
        var tag := segs[i];
        assert segs[i..][0] == tag && segs[i..][1..] == segs[i + 1..];
        curr := Descend(curr, at, tag);
        at := Child(at, tag);
        AddPathStep(before, at);
        ShapedIsTree(nodes, Heap());
      }
      // the last node gets its label again and the actions
      if segs != [] {
        Overwrite(curr, at, segs[|segs| - 1], methods, handler);
      }
    }

    // Compiles a pattern at most once; what the cache answers is what compiling would.
    method RegexCacheGet(pattern: string) returns (re: Option<Compiled>)
      requires Valid()
      modifies this`regexCache
      ensures Valid() && View() == old(View())
      ensures re == rx.compile(pattern)
      ensures re.Some? ==> pattern in regexCache && regexCache == old(regexCache)[pattern := re.value]
    {
      hide Shaped;
      if pattern in regexCache {
        return Some(regexCache[pattern]);
      }
      re := rx.compile(pattern);
      if re.None? {
        return None;
      }
      regexCache := regexCache[pattern := re.value];
    }

    // Scans the children in slot order, which is arbitrary, for the first parameter.
    method FindParameter(curr: Node<H>, ghost at: Path) returns (found: Option<Node<H>>)
      requires Valid() && at in nodes && nodes[at] == curr
      ensures found.None? ==> NoParameter(View(), at)
      ensures found.Some? ==> var tag := found.value.tag;
                              && tag.Some? && IsParameterOf(View(), at, tag.value)
                              && tag.value in curr.children && curr.children[tag.value] == found.value
    {
      hide Linked, Shaped;
      forall tag
        ensures tag in curr.children <==> Child(at, tag) in nodes
        ensures tag in curr.children ==> curr.children[tag].tag == Some(tag)
      {
        ChildLink(nodes, Heap(), at, tag);
        if tag in curr.children {
          LabelOf(nodes, Heap(), Child(at, tag));
        }
      }
      var slots := curr.children.Keys;
      while slots != {}
        invariant slots <= curr.children.Keys
        invariant forall tag | tag in curr.children && tag !in slots :: !IsParameter(tag)
      {
        var tag :| tag in slots;
        var child := curr.children[tag];
        if child.tag.Some? && IsParameter(child.tag.value) {
          return Some(child);
        }
        slots := slots - {tag};
      }
      return None;
    }

    // No child carries the segment as its label: the first parameter found decides.
    method TryParameter(curr: Node<H>, ghost at: Path, seg: string, ghost rest: seq<string>,
                        params: map<string, string>)
      returns (step: Step)
      requires Valid() && at in nodes && nodes[at] == curr
      requires Child(at, seg) !in View() && !Leaf(View(), at)
      modifies this`regexCache
      ensures Valid() && View() == old(View())
      ensures step.Stop? ==> !step.walk.Reached? && Walks(View(), rx, at, [seg] + rest, params, step.walk)
      ensures step.Go? ==> IsParameterOf(View(), at, step.tag) && StepMatches(View(), rx, at, seg, step.tag)
      ensures step.Go? ==> forall v :: Walks(View(), rx, Child(at, step.tag), rest, BindOne(params, step.tag, seg), v)
                                       ==> Walks(View(), rx, at, [seg] + rest, params, v)
    {
      hide Shaped, Linked, Walks, LabelPattern, ParameterKey, ViewOf, NoParameter, Leaf;
      ghost var view := View();
      var child := FindParameter(curr, at);
      if child.None? {
        NoParameterStep(view, rx, at, seg, rest, params);
        return Stop(Unmatched);
      }
      var tag := child.value.tag.value;
      ParameterStep(view, rx, at, tag, seg, rest, params);
      var pattern := LabelPattern(tag);
      if pattern.None? {
        return Stop(Unmatched);
      }
      var re := RegexCacheGet(pattern.value);
      if re.None? {
        return Stop(Failed);
      }
      if !rx.exec(re.value, seg) {
        return Stop(Unmatched);
      }
      return Go(tag);
    }

    // The loop over the segments: the node it ends at, if any, with the walk it took as a ghost result.
    method WalkDown(segs: seq<string>)
      returns (end: Option<Node<H>>, params: map<string, string>, failed: bool, ghost w: Walk)
      requires Valid() && BindsNames(View(), rx, segs)
      modifies this`regexCache
      ensures Valid() && View() == old(View())
      ensures Root in View() && Walks(View(), rx, Root, segs, map[], w)
      ensures end.None? ==> w == if failed then Failed else Unmatched
      ensures end.Some? ==> w.Reached? && w.node in View() && w.params == params
      ensures end.Some? ==> w.node in nodes && nodes[w.node] == end.value
    {
      hide Shaped, Linked, Walks, LabelPattern, ParameterKey, LeadsTo, Leaf, Aligned, BindsNames, StepMatches;
      var curr := root;
      ghost var at, view := Root, View();
      ghost var tags: seq<string> := [];
      RootPresent(nodes, Heap());
      params, failed := map[], false;
      LeadsFromRoot(view, rx, segs);
      NothingAligned(view, rx, segs);
      var i := 0;
      while i < |segs|
        invariant i <= |segs| && Valid() && at in nodes && nodes[at] == curr && View() == view
        invariant LeadsTo(view, rx, at, segs[i..], params, segs)
        invariant |tags| == i && at == PathOf(Root, tags) && Aligned(view, rx, Root, segs, tags)
      {
        var seg := segs[i];
        ghost var rest := segs[i + 1..];
        assert segs[i..] == [seg] + rest;
        ChildLink(nodes, Heap(), at, seg);
        if seg in curr.children {
          LiteralStep(view, rx, at, seg, rest, params, segs);
          LiteralMatches(view, rx, at, seg);
          AlignedSnoc(view, rx, Root, segs, tags, seg);
          tags := tags + [seg];
          curr := curr.children[seg];
          at := Child(at, seg);
          i := i + 1;
          continue;
        }
        ChildrenLink(nodes, Heap(), at);
        if curr.children == map[] {
          LeafStep(view, rx, at, seg, rest, params, segs);
          if curr.tag != Some(seg) {
            return None, params, false, Unmatched;
          }
          return Some(curr), params, false, Reached(at, params);
        }
        var step := TryParameter(curr, at, seg, rest, params);
        if step.Stop? {
          LeadsOn(view, rx, at, [seg] + rest, params, segs, step.walk);
          return None, params, step.walk.Failed?, step.walk;
        }
        var tag := step.tag;
        ParameterTaken(view, rx, at, tag, seg, rest, params, segs);
        AlignedSnoc(view, rx, Root, segs, tags, tag);
        tags := tags + [tag];
        NameOfLast(view, rx, segs, tags);
        params := params[ParameterKey(tag).value := seg];
        // the child was found under its own label, so the second lookup cannot miss
        ChildLink(nodes, Heap(), at, tag);
        curr := curr.children[tag];
        at := Child(at, tag);
        i := i + 1;
      }
      assert segs[i..] == [];
      EndStep(view, rx, at, params, segs);
      return Some(curr), params, false, Reached(at, params);
    }

    /** A search: the query is cut off, the walk taken, and the action of the node it ends at looked up. A path that
        starts with the query leaves a null string. */
    method Search(verb: string, url: string) returns (r: Answer<H>, query: Option<string>, ghost w: Walk)
      requires Valid() && BindsNames(View(), rx, Segments(PathOnly(url))) && (HasQuery(url) ==> url[0] != '?')
      modifies this`regexCache
      ensures Valid() && View() == old(View()) && query == QueryOnly(url)
      ensures Root in View() && Walks(View(), rx, Root, Segments(PathOnly(url)), map[], w)
      ensures w.Reached? ==> w.node in View()
      ensures r == Finish(View(), PathOnly(url), verb, w)
    {
      hide *;
      var path;
      path, query := CutQuery(url);
      var segs := SplitText(path, '/');
      SegmentsAre(path);
      var end, params, failed;
      end, params, failed, w := WalkDown(segs);
      if end.None? {
        Missed(View(), path, verb);
        r := if failed then Error else NotFound;
        return;
      }
      r := Act(end.value, w.node, path, verb, params);
    }

    // What is done at the node the walk reached.
    method Act(curr: Node<H>, ghost at: Path, path: string, verb: string, params: map<string, string>)
      returns (r: Answer<H>)
      requires at in nodes && nodes[at] == curr
      ensures r == Finish(View(), path, verb, Reached(at, params))
    {
      if path == PATH_ROOT {
        if curr.actions == map[] {
          return NotFound;
        }
      }
      if verb !in curr.actions {
        return NotAllowed;
      }
      return Found(curr.actions[verb], params);
    }

    method Overwrite(node: Node<H>, ghost at: Path, tag: string, methods: seq<string>, handler: H)
      requires Valid() && at in nodes && nodes[at] == node && tag == if at.Child? then at.tag else PATH_ROOT
      modifies node`tag, node`actions
      ensures Valid() && View() == Register(old(View()), at, tag, methods, handler)
    {
      hide Linked, Shaped, WithActions, ViewOf, Relabelled, Register;
      ghost var cells := Heap();
      node.tag := Some(tag);
      AddActions(node, methods, handler);
      RelabelShape(nodes, cells, at, tag, node.actions);
      RelabelView(cells, at, tag, methods, handler);
      assert Heap() == Relabelled(cells, at, tag, node.actions) by {
        forall q | q in nodes && q != at
          ensures nodes[q] != node
        {
          DistinctNodes(nodes, cells, q, at);
        }
        RelabelledMeans(cells, at, tag, node.actions);
      }
    }
  }

  // ---------- unfolding a walk by one segment ----------

  // Whatever the walk from `at` over `rest` comes to, the walk from the root over `segs` comes to.
  ghost predicate LeadsTo<H>(s: State<H>, rx: Regex, at: Path, rest: seq<string>, params: map<string, string>,
                             segs: seq<string>)
  {
    at in s && Root in s && forall v :: Walks(s, rx, at, rest, params, v) ==> Walks(s, rx, Root, segs, map[], v)
  }

  lemma LeadsOn<H>(s: State<H>, rx: Regex, at: Path, rest: seq<string>, params: map<string, string>, segs: seq<string>,
                   w: Walk)
    requires LeadsTo(s, rx, at, rest, params, segs) && Walks(s, rx, at, rest, params, w)
    ensures Root in s && Walks(s, rx, Root, segs, map[], w)
  {
  }

  lemma LeadsFromRoot<H>(s: State<H>, rx: Regex, segs: seq<string>)
    requires Root in s
    ensures LeadsTo(s, rx, Root, segs[0..], map[], segs)
  {
    assert segs[0..] == segs;
  }

  lemma LiteralStep<H>(s: State<H>, rx: Regex, at: Path, seg: string, rest: seq<string>, params: map<string, string>,
                       segs: seq<string>)
    requires LeadsTo(s, rx, at, [seg] + rest, params, segs) && Child(at, seg) in s
    ensures LeadsTo(s, rx, Child(at, seg), rest, params, segs)
  {
    assert ([seg] + rest)[1..] == rest;
  }

  lemma ParameterTaken<H>(s: State<H>, rx: Regex, at: Path, tag: string, seg: string, rest: seq<string>,
                          params: map<string, string>, segs: seq<string>)
    requires LeadsTo(s, rx, at, [seg] + rest, params, segs) && IsParameterOf(s, at, tag)
    requires forall v :: Walks(s, rx, Child(at, tag), rest, BindOne(params, tag, seg), v)
                         ==> Walks(s, rx, at, [seg] + rest, params, v)
    ensures LeadsTo(s, rx, Child(at, tag), rest, BindOne(params, tag, seg), segs)
  {
    hide Walks, BindOne;
  }

  lemma LeafStep<H>(s: State<H>, rx: Regex, at: Path, seg: string, rest: seq<string>, params: map<string, string>,
                    segs: seq<string>)
    requires LeadsTo(s, rx, at, [seg] + rest, params, segs) && Leaf(s, at)
    ensures Root in s
    ensures Walks(s, rx, Root, segs, map[], if s[at].tag == Some(seg) then Reached(at, params) else Unmatched)
  {
    var w := if s[at].tag == Some(seg) then Reached(at, params) else Unmatched;
    assert Walks(s, rx, at, [seg] + rest, params, w);
  }

  lemma NoParameterStep<H>(s: State<H>, rx: Regex, at: Path, seg: string, rest: seq<string>,
                           params: map<string, string>)
    requires at in s && Child(at, seg) !in s && !Leaf(s, at) && NoParameter(s, at)
    ensures Walks(s, rx, at, [seg] + rest, params, Unmatched)
  {
  }

  lemma ParameterStep<H>(s: State<H>, rx: Regex, at: Path, tag: string, seg: string, rest: seq<string>,
                         params: map<string, string>)
    requires at in s && Child(at, seg) !in s && IsParameterOf(s, at, tag)
    ensures var p := LabelPattern(tag);
            && (p.None? ==> Walks(s, rx, at, [seg] + rest, params, Unmatched))
            && (p.Some? && !rx.Compiles(p.value) ==> Walks(s, rx, at, [seg] + rest, params, Failed))
            && (p.Some? && rx.Compiles(p.value) ==>
                  if rx.Matches(p.value, seg) then
                    forall v :: Walks(s, rx, Child(at, tag), rest, BindOne(params, tag, seg), v)
                                ==> Walks(s, rx, at, [seg] + rest, params, v)
                  else Walks(s, rx, at, [seg] + rest, params, Unmatched))
  {
    hide LabelPattern, BindOne;
    assert ([seg] + rest)[1..] == rest;
    forall v | Tries(s, rx, at, tag, seg, rest, params, v)
      ensures Walks(s, rx, at, [seg] + rest, params, v)
    {
    }
  }

  lemma NothingAligned<H>(s: State<H>, rx: Regex, segs: seq<string>)
    ensures Aligned(s, rx, Root, segs, []) && PathOf(Root, []) == Root
  {
  }

  lemma LiteralMatches<H>(s: State<H>, rx: Regex, at: Path, seg: string)
    requires Child(at, seg) in s
    ensures StepMatches(s, rx, at, seg, seg)
  {
  }

  // The parameter bound last has a name.
  lemma NameOfLast<H>(s: State<H>, rx: Regex, segs: seq<string>, tags: seq<string>)
    requires BindsNames(s, rx, segs) && 0 < |tags| <= |segs| && Aligned(s, rx, Root, segs, tags)
    requires var n := |tags| - 1; tags[n] != segs[n] && IsParameter(tags[n])
    ensures ParameterKey(tags[|tags| - 1]).Some?
  {
    hide ParameterKey, Aligned;
    assert AllNamed(segs, tags);
  }

  // The answers of a walk that reached no node.
  lemma Missed<H>(s: State<H>, path: string, verb: string)
    ensures Finish(s, path, verb, Unmatched) == NotFound && Finish(s, path, verb, Failed) == Error
  {
  }

  lemma EndStep<H>(s: State<H>, rx: Regex, at: Path, params: map<string, string>, segs: seq<string>)
    requires LeadsTo(s, rx, at, [], params, segs)
    ensures Root in s && Walks(s, rx, Root, segs, map[], Reached(at, params))
  {
    assert Walks(s, rx, at, [], params, Reached(at, params));
  }

  lemma RootPresent<H>(nodes: map<Path, Node<H>>, cells: Cells<H>)
    requires Shaped(nodes, cells)
    ensures Root in nodes
  {
  }

  lemma LabelOf<H>(nodes: map<Path, Node<H>>, cells: Cells<H>, p: Path)
    requires Shaped(nodes, cells) && p in nodes && p.Child?
    ensures cells[p].tag == Some(p.tag)
  {
    assert Linked(nodes, cells, p);
  }

  lemma ChildrenLink<H>(nodes: map<Path, Node<H>>, cells: Cells<H>, at: Path)
    requires Shaped(nodes, cells) && at in nodes
    ensures cells[at].children == map[] <==> Leaf(ViewOf(cells), at)
  {
    assert Linked(nodes, cells, at);
    if Leaf(ViewOf(cells), at) {
      assert forall tag :: tag !in cells[at].children;
    }
  }

  lemma InsertCases<H>(s: State<H>, methods: seq<string>, path: string, h: H)
    requires IsTree(s)
    ensures Root in s && AddPath(s, Root) == s
    ensures path == PATH_ROOT ==> Routing.Insert(s, methods, path, h) == Register(s, Root, PATH_ROOT, methods, h)
    ensures path != PATH_ROOT && Segments(path) == [] ==> Routing.Insert(s, methods, path, h) == s
    ensures path != PATH_ROOT && Segments(path) != [] ==>
              var p := PathOf(Root, Segments(path));
              && p.Child? && p in AddPath(s, p)
              && Routing.Insert(s, methods, path, h) == Register(AddPath(s, p), p, p.tag, methods, h)
  {
    if Segments(path) != [] {
      PathOfIsChild(Root, Segments(path));
      AddPathMeans(s, PathOf(Root, Segments(path)), Root);
    }
  }

  lemma AddPathStep<H>(s: State<H>, p: Path)
    requires IsTree(s) && p.Child?
    ensures AddPath(AddPath(s, p.up), p) == AddPath(s, p)
  {
    AddPathMeans(s, p.up, p);
    UnderSmaller(p, p.up);
    if p in s {
      AddPathMeans(s, p.up, p.up);
      assert Rooted(s, p);
    }
  }

  lemma {:induction false} UnderSmaller(p: Path, q: Path)
    requires q < p
    ensures !Under(p, q)
    decreases q
  {
    if q.Root? {
    } else {
      UnderSmaller(p, q.up);
    }
  }

  lemma AddPresent<H>(s: State<H>, p: Path)
    requires p in s
    ensures AddPath(s, p) == s
  {
  }
}
