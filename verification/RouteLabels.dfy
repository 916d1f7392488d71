/** What a parameter label says, on its characters: the name it binds, the pattern it asks for, and the parameters
    that a search hands to the handler. */
module RouteLabels {
  import opened Options
  import opened RouteParameters
  import opened RoutePath
  import opened RouteTable
  import opened Routing
  import opened Splitting

  // The text behind the colon, up to a bracket or the end.
  ghost predicate Names(tag: string, name: string) {
    name != "" && '[' !in name && (tag == ":" + name || exists rest :: tag == ":" + name + "[" + rest)
  }

  // The text between the first '[' and the first ']'; any segment without both.
  ghost predicate Asks(tag: string, pattern: string) {
    if '[' in tag && ']' in tag then
      pattern != "" && exists a, b :: tag == a + "[" + pattern + "]" + b && '[' !in a && ']' !in a && ']' !in pattern
    else pattern == "(.+)"
  }

  /** A parameter label binds exactly the name that it shows. */
  lemma KeyIff(tag: string, name: string)
    requires IsParameter(tag)
    ensures ParameterKey(tag) == Some(name) <==> Names(tag, name)
  {
    var end := IndexOf(tag, '[');
    if ParameterKey(tag) == Some(name) {
      assert tag == ":" + name + tag[end..];
      if end < |tag| {
        assert tag == ":" + name + "[" + tag[end + 1..];
      }
    }
    if Names(tag, name) {
      IndexOfIs(tag, '[', |name| + 1);
      assert name == tag[1..|name| + 1];
    }
  }

  /** A label asks for exactly the pattern that it shows. */
  lemma PatternIff(tag: string, pattern: string)
    ensures LabelPattern(tag) == Some(pattern) <==> Asks(tag, pattern)
  {
    var start, end := IndexOf(tag, '['), IndexOf(tag, ']');
    assert '[' in tag <==> start < |tag|;
    assert ']' in tag <==> end < |tag|;
    if start < |tag| && end < |tag| {
      if LabelPattern(tag) == Some(pattern) {
        assert tag == tag[..start] + "[" + pattern + "]" + tag[end + 1..];
      }
      if Asks(tag, pattern) {
        var a, b :| tag == a + "[" + pattern + "]" + b && '[' !in a && ']' !in a && ']' !in pattern;
        PatternBetween(a, pattern, b);
      }
    }
  }

  lemma PatternBetween(a: string, pattern: string, b: string)
    requires '[' !in a && ']' !in a && ']' !in pattern && pattern != ""
    ensures LabelPattern(a + "[" + pattern + "]" + b) == Some(pattern)
  {
    var tag := a + "[" + pattern + "]" + b;
    assert tag == a + ("[" + (pattern + ("]" + b)));
    IndexOfIs(tag, '[', |a|);
    IndexOfIs(tag, ']', |a| + 1 + |pattern|);
    assert tag[|a| + 1..|a| + 1 + |pattern|] == pattern;
  }

  // The label of a parameter, with a pattern or without.
  function Label(name: string, pattern: Option<string>): string {
    ":" + name + if pattern.Some? then "[" + pattern.value + "]" else ""
  }

  predicate IsLabel(name: string, pattern: Option<string>) {
    name != "" && '[' !in name && (pattern.Some? ==> pattern.value != "" && ']' !in name && ']' !in pattern.value)
  }

  function PatternOf(pattern: Option<string>): string {
    if pattern.Some? then pattern.value else "(.+)"
  }

  /** The two forms of a label name the parameter and ask for its pattern. */
  lemma LabelMeans(name: string, pattern: Option<string>)
    requires IsLabel(name, pattern)
    ensures var tag := Label(name, pattern);
            && IsParameter(tag) && ParameterKey(tag) == Some(name) && LabelPattern(tag) == Some(PatternOf(pattern))
  {
    var tag := Label(name, pattern);
    if pattern.Some? {
      assert tag == ":" + name + "[" + (pattern.value + "]") == ":" + name + "[" + pattern.value + "]" + "";
      assert Names(tag, name);
      PatternBetween(":" + name, pattern.value, "");
    } else {
      assert Names(tag, name) && Asks(tag, "(.+)");
      PatternIff(tag, "(.+)");
    }
    KeyIff(tag, name);
  }

  /** Along the labels a search went, each name holds the segment at the last label that shows it. */
  lemma ParameterHolds(segs: seq<string>, tags: seq<string>, name: string, i: nat)
    requires i < |tags| <= |segs| && tags[i] != segs[i] && Names(tags[i], name)
    requires forall j | i < j < |tags| && tags[j] != segs[j] :: !Names(tags[j], name)
    ensures var params := Bind(map[], segs, tags); name in params && params[name] == segs[i]
  {
    hide Names, ParameterKey, IsParameter;
    NamesOnlyParameters(tags[i], name);
    KeyIff(tags[i], name);
    forall j | i < j < |tags|
      ensures !Binds(segs, tags, j, name)
    {
      if tags[j] != segs[j] && IsParameter(tags[j]) {
        KeyIff(tags[j], name);
      }
    }
    LastBindingWins(map[], segs, tags, name, i);
  }

  lemma NamesOnlyParameters(tag: string, name: string)
    requires Names(tag, name)
    ensures IsParameter(tag)
  {
  }

  // ---------- a search for one parameter ----------

  /** Among any routes with one parameter at each place: a path of one segment, which no route has as it stands, is
      answered by the handler registered at the parameter, with the segment under the parameter's name. */
  lemma ParameterFound<H>(routes: seq<Route<H>>, rx: Regex, path: string, seg: string, verb: string, w: Walk,
                          name: string, pattern: Option<string>, h: H)
    requires OneParameterEach(routes) && Walks(Build(routes), rx, Root, Segments(path), map[], w)
    requires Segments(path) == [seg] && IsLabel(name, pattern) && rx.Matches(PatternOf(pattern), seg)
    requires OnTheWay(routes, [Label(name, pattern)]) && !OnTheWay(routes, [seg])
    requires Latest(routes, PathOf(Root, [Label(name, pattern)]), verb) == Some(h)
    ensures w.Reached? && w.node in Build(routes) && Finish(Build(routes), path, verb, w) == Found(h, map[name := seg])
  {
    hide Label, IsLabel, PatternOf, LabelPattern, ParameterKey, IsParameter, Segments, OnTheWay, Walks, Build, Latest;
    hide OneParameterEach, Finish;
    var tag := Label(name, pattern);
    var tags := [tag];
    LabelMeans(name, pattern);
    RootHasNoSegments();
    assert tags[..0] == [] && [] + [tag] == [tag] && [] + [seg] == [seg];
    assert Takes(routes, rx, tags[..0], seg, tag);
    assert Selects(routes, rx, [seg], tags);
    SelectedAnswer(routes, rx, path, verb, w, tags);
    assert tag != seg && tags[1..] == [] && [seg][1..] == [];
    assert Bind(map[], [seg], tags) == map[name := seg];
  }
}
