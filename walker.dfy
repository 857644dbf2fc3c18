/**
  Choosing the text runs to highlight: `shouldSkipNode`, the tree walker's
  `acceptNode` filter, and the loop that drains the walker into a list
  before any node is rewritten.

  The walker itself (`document.createTreeWalker(root, SHOW_TEXT, ...)`) is
  specified by `Runs`: the text nodes below the root in pre-order, each
  with the chain of its ancestor elements, nearest first.
 */
module Walker {
  import opened Strings
  import opened Dom

  /** What `shouldSkipNode` reads of an ancestor element: its tag name and its attributes. */
  datatype Ancestor = Ancestor(tag: string, attrs: map<string, string>)

  /** A text node as the walker reaches it: identity, value, and ancestor elements, nearest first. */
  datatype Run = Run(id: NodeId, value: string, path: seq<Ancestor>)

  /** An element whose text the search never looks at. */
  predicate Excludes(a: Ancestor)
  {
    Lower(a.tag) == "code" || Lower(a.tag) == "pre" || Lower(a.tag) == "script" || Lower(a.tag) == "style" ||
    ("aria-hidden" in a.attrs && a.attrs["aria-hidden"] == "true") || "hidden" in a.attrs
  }

  /** Some ancestor excludes the node. */
  predicate Excluded(path: seq<Ancestor>)
  {
    exists k :: 0 <= k < |path| && Excludes(path[k])
  }

  /** `shouldSkipNode`: walks up the ancestor chain, stopping at the first excluding element. */
  method ShouldSkipNode(path: seq<Ancestor>) returns (skip: bool)
    ensures skip <==> Excluded(path)
  {
    var k := 0;
    while k < |path|
      invariant k <= |path|
      invariant forall j :: 0 <= j < k ==> !Excludes(path[j])
    {
      var el := path[k];
      var tag := Lower(el.tag);
      if tag == "code" || tag == "pre" || tag == "script" || tag == "style" {
        return true;
      }
      if ("aria-hidden" in el.attrs && el.attrs["aria-hidden"] == "true") || "hidden" in el.attrs {
        return true;
      }
      k := k + 1;
    }
    return false;
  }

  /** The runs of one node, in pre-order; a wrapper's own text is not a run. */
  function NodeRuns(x: Node, path: seq<Ancestor>): seq<Run>
  {
    match x
    case Text(id, v) => [Run(id, v, path)]
    case Elem(_, t, a, ch) => Runs(ch, [Ancestor(t, a)] + path)
    case Mark(_, _, _) => []
  }

  /** The text nodes of a forest in pre-order: the order the tree walker visits them. */
  function Runs(cs: seq<Node>, path: seq<Ancestor>): seq<Run>
  {
    if cs == [] then [] else NodeRuns(cs[0], path) + Runs(cs[1..], path)
  }

  /** `acceptNode` answers FILTER_ACCEPT: non-blank, not excluded, and holding `q` once lower-cased. */
  predicate Accept(r: Run, q: string)
  {
    !IsBlank(r.value) && !Excluded(r.path) && Includes(Lower(r.value), q)
  }

  /** `acceptNode`, with `q` the lower-cased search term. */
  method AcceptNode(r: Run, q: string) returns (accept: bool)
    ensures accept <==> Accept(r, q)
  {
    if r.value == [] || Trim(r.value) == [] {
      return false;
    }
    var skip := ShouldSkipNode(r.path);
    if skip {
      return false;
    }
    return IndexOf(Lower(r.value), q, 0) != -1;
  }

  /** The runs the filter accepts, in the order given. */
  function Filter(rs: seq<Run>, q: string): (r: seq<Run>)
    ensures forall x :: x in r <==> x in rs && Accept(x, q)
    ensures |r| <= |rs|
  {
    if rs == [] then []
    else
      var pre, last := rs[..|rs| - 1], rs[|rs| - 1];
      assert rs == pre + [last];
      Filter(pre, q) + if Accept(last, q) then [last] else []
  }

  /** The text nodes `highlightInRoot` rewrites, in document order. */
  function Candidates(doc: seq<Node>, above: seq<Ancestor>, q: string): seq<Run>
  {
    Filter(Runs(doc, above), q)
  }

  /**
    The collection loop: every node the walker yields is pushed, so the list
    is complete before the first rewrite. `above` is the chain of the root
    element and its own ancestors, nearest first.
   */
  method Collect(doc: seq<Node>, above: seq<Ancestor>, q: string) returns (nodes: seq<Run>)
    ensures nodes == Candidates(doc, above, q)
  {
    var walk := Runs(doc, above);
    nodes := [];
    var i := 0;
    while i < |walk|
      invariant i <= |walk|
      invariant nodes == Filter(walk[..i], q)
    {
      var accept := AcceptNode(walk[i], q);
      if accept {
        nodes := nodes + [walk[i]];
      }
      assert walk[..i + 1][..i] == walk[..i];
      i := i + 1;
    }
    assert walk[..i] == walk;
  }

  // ---------------------------------------------------------------------
  // Identities of runs

  /** No identity is shared by two runs. */
  predicate DistinctIds(rs: seq<Run>)
  {
    forall i, j :: 0 <= i < j < |rs| ==> rs[i].id != rs[j].id
  }

  /** The identities of the runs, in order. */
  function RunIds(rs: seq<Run>): seq<NodeId>
  {
    seq(|rs|, i requires 0 <= i < |rs| => rs[i].id)
  }

  /** Distinct run identities are exactly a repetition-free identity list. */
  lemma DistinctIdsIff(rs: seq<Run>)
    ensures DistinctIds(rs) <==> Distinct(RunIds(rs))
  {
    var ids := RunIds(rs);
    assert forall i :: 0 <= i < |rs| ==> ids[i] == rs[i].id;
  }

  /** Two run lists with distinct identities and none shared concatenate to one, by `Dom.DistinctAppend`. */
  lemma DistinctIdsAppend(a: seq<Run>, b: seq<Run>)
    requires DistinctIds(a) && DistinctIds(b)
    requires forall r, s :: r in a && s in b ==> r.id != s.id
    ensures DistinctIds(a + b)
  {
    DistinctIdsIff(a);
    DistinctIdsIff(b);
    DistinctIdsIff(a + b);
    assert RunIds(a + b) == RunIds(a) + RunIds(b);
    forall i, j | 0 <= i < |a| && 0 <= j < |b| ensures RunIds(a)[i] != RunIds(b)[j] {
      assert a[i] in a && b[j] in b;
    }
    DistinctAppend(RunIds(a), RunIds(b));
  }

  /** Each run is a text node of the forest. */
  lemma {:induction false} RunIdsIn(cs: seq<Node>, path: seq<Ancestor>)
    ensures forall r :: r in Runs(cs, path) ==> r.id in Ids(cs)
  {
    if cs != [] {
      RunIdsIn(cs[1..], path);
      assert Ids(cs) == NodeIds(cs[0]) + Ids(cs[1..]);
      match cs[0]
      case Text(_, _) =>
      case Mark(_, _, _) =>
      case Elem(id, t, a, ch) =>
        RunIdsIn(ch, [Ancestor(t, a)] + path);
    }
  }

  /** With distinct node identities, the walker never meets the same identity twice. */
  lemma {:induction false} RunsDistinct(cs: seq<Node>, path: seq<Ancestor>)
    requires Unique(cs)
    ensures DistinctIds(Runs(cs, path))
  {
    if cs != [] {
      var head := NodeRuns(cs[0], path);
      RunsDistinct(cs[1..], path);
      RunIdsIn(cs[1..], path);
      assert forall r :: r in head ==> r.id in NodeIds(cs[0]) by {
        match cs[0]
        case Text(_, _) =>
        case Mark(_, _, _) =>
        case Elem(id, t, a, ch) =>
          RunIdsIn(ch, [Ancestor(t, a)] + path);
      }
      assert DistinctIds(head) by {
        match cs[0]
        case Text(_, _) =>
        case Mark(_, _, _) =>
        case Elem(id, t, a, ch) =>
          RunsDistinct(ch, [Ancestor(t, a)] + path);
      }
      DistinctIdsAppend(head, Runs(cs[1..], path));
    }
  }

  /** Filtering keeps identities distinct. */
  lemma {:induction false} FilterDistinct(rs: seq<Run>, q: string)
    requires DistinctIds(rs)
    ensures DistinctIds(Filter(rs, q))
  {
    if rs != [] {
      var pre, last := rs[..|rs| - 1], rs[|rs| - 1];
      FilterDistinct(pre, q);
      forall r | r in Filter(pre, q) ensures r.id != last.id {
        var j :| 0 <= j < |pre| && pre[j] == r;
        assert rs[j] == r;
      }
      DistinctIdsAppend(Filter(pre, q), if Accept(last, q) then [last] else []);
    }
  }

  /** In a list of distinct identities, a run is determined by its identity. */
  lemma SameId(rs: seq<Run>, r: Run, s: Run)
    requires DistinctIds(rs) && r in rs && s in rs && r.id == s.id
    ensures r == s
  {
  }

  /** The candidates are runs of the document with distinct identities. */
  lemma CandidatesDistinct(doc: seq<Node>, above: seq<Ancestor>, q: string)
    requires Unique(doc)
    ensures DistinctIds(Candidates(doc, above, q))
    ensures DistinctIds(Runs(doc, above))
    ensures forall r :: r in Candidates(doc, above, q) ==> r.id in Ids(doc)
  {
    RunsDistinct(doc, above);
    RunIdsIn(doc, above);
    FilterDistinct(Runs(doc, above), q);
  }

  // ---------------------------------------------------------------------
  // Examples

  /** Text inside `pre` is never a candidate, whatever it holds. */
  lemma PreIsSkipped(id: NodeId, v: string, q: string, path: seq<Ancestor>)
    ensures !Accept(Run(id, v, [Ancestor("PRE", map[])] + path), q)
  {
    var p := [Ancestor("PRE", map[])] + path;
    assert Lower("PRE") == "pre";
    assert Excludes(p[0]);
  }
}
