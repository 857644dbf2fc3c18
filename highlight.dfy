/**
  `highlightInRoot`: the candidate text nodes are collected first, then each
  is spliced into a fragment that replaces it in its parent, and the
  wrappers created are gathered in order.

  The method is proved against `Highlighted`, which replaces every
  candidate at once (`Subst`); the lemmas below state what that document
  looks like.
 */
module Highlight {
  import opened Strings
  import opened Dom
  import Splice
  import opened Walker

  /** The node `x` with every text node whose identity `f` maps replaced by what it maps to. */
  function SubstNode(x: Node, f: map<NodeId, seq<Node>>): seq<Node>
  {
    match x
    case Text(id, _) => if id in f then f[id] else [x]
    case Elem(id, t, a, ch) => [Elem(id, t, a, Subst(ch, f))]
    case Mark(_, _, _) => [x]
  }

  /** Every text node whose identity `f` maps is replaced, in its parent, by what it maps to. */
  function Subst(cs: seq<Node>, f: map<NodeId, seq<Node>>): seq<Node>
  {
    if cs == [] then [] else SubstNode(cs[0], f) + Subst(cs[1..], f)
  }

  /** How many nodes the fragments take together. */
  function Total(fs: seq<seq<Node>>): nat
  {
    if fs == [] then 0 else Total(fs[..|fs| - 1]) + |fs[|fs| - 1]|
  }

  /** The wrappers of the fragments, fragment after fragment. */
  function Marks(fs: seq<seq<Node>>): seq<NodeId>
  {
    if fs == [] then [] else Marks(fs[..|fs| - 1]) + MarkIds(fs[|fs| - 1])
  }

  /** The candidate `ns[j]` is to be replaced by the fragment `fs[j]`. */
  function Table(ns: seq<Run>, fs: seq<seq<Node>>): map<NodeId, seq<Node>>
    requires |ns| == |fs|
  {
    if ns == [] then map[]
    else Table(ns[..|ns| - 1], fs[..|fs| - 1])[ns[|ns| - 1].id := fs[|fs| - 1]]
  }

  /** How `highlightInRoot` splits each candidate's text. */
  function Splits(ns: seq<Run>, q: string): (ps: seq<seq<Splice.Piece>>)
    requires q != []
    ensures |ps| == |ns|
  {
    seq(|ns|, j requires 0 <= j < |ns| => Splice.Split(ns[j].value, q))
  }

  /** The fragments built from the piece lists, with identities handed out from `n` in order. */
  function Numbered(ps: seq<seq<Splice.Piece>>, n: nat): (fs: seq<seq<Node>>)
    ensures |fs| == |ps|
  {
    if ps == [] then []
    else
      var fs := Numbered(ps[..|ps| - 1], n);
      fs + [Splice.Build(ps[|ps| - 1], n + Total(fs))]
  }

  /** The document after `highlightInRoot(root, term)`, fresh identities starting at `n`. */
  function Highlighted(doc: seq<Node>, above: seq<Ancestor>, term: string, n: nat): seq<Node>
    requires term != []
  {
    var ns := Candidates(doc, above, Lower(term));
    Subst(doc, Table(ns, Numbered(Splits(ns, Lower(term)), n)))
  }

  /** How many fresh identities `highlightInRoot(root, term)` takes: one per node of the fragments. */
  function Used(doc: seq<Node>, above: seq<Ancestor>, term: string, n: nat): nat
    requires term != []
  {
    Total(Numbered(Splits(Candidates(doc, above, Lower(term)), Lower(term)), n))
  }

  /**
    `highlightInRoot(root, term)` on the forest of the root's children.
    `above` is the root and its ancestors (nearest first) and `next` the
    first unused identity. The source loops forever on an empty term, so
    the model requires a non-empty one.
   */
  method HighlightInRoot(doc: seq<Node>, above: seq<Ancestor>, term: string, next: nat)
    returns (doc': seq<Node>, created: seq<NodeId>, next': nat)
    requires term != []
    requires Unique(doc) && IdsBelow(doc, next)
    ensures doc' == Highlighted(doc, above, term, next)
    ensures created == Marks(Numbered(Splits(Candidates(doc, above, Lower(term)), Lower(term)), next))
    ensures next' == next + Used(doc, above, term, next)
    ensures Unique(doc') && IdsBelow(doc', next')
    ensures Actives(doc') == Actives(doc)
    ensures MarksMatch(doc, Lower(term)) ==> MarksMatch(doc', Lower(term))
  {
    var q := Lower(term);
    var nodes := Collect(doc, above, q);
    CandidatesDistinct(doc, above, q);
    ghost var ps := Splits(nodes, q);
    doc', created, next' := doc, [], next;
    SubstEmpty(doc);
    var i := 0;
    while i < |nodes|
      invariant Rewritten(doc, q, next, nodes, ps, i, doc', created, next')
    {
      var text := nodes[i].value;
      var lower := Lower(text);
      var frag, c, n := Splice.Splice(text, lower, q, next');
      Splice.RemainingIsFragment(text, q, next');
      Step(doc, q, next, nodes, ps, i, doc', created, next');
      doc' := Replace(doc', nodes[i].id, frag);
      created := created + c;
      next' := n;
      i := i + 1;
    }
    assert nodes[..i] == nodes && ps[..i] == ps;
  }

  /** The loop invariant of `HighlightInRoot` after `i` candidates. */
  predicate Rewritten(doc0: seq<Node>, q: string, n0: nat, ns: seq<Run>, ps: seq<seq<Splice.Piece>>, i: nat,
                      doc: seq<Node>, created: seq<NodeId>, next: nat)
  {
    q != [] && i <= |ns| == |ps| &&
    doc == Subst(doc0, Table(ns[..i], Numbered(ps[..i], n0))) &&
    created == Marks(Numbered(ps[..i], n0)) &&
    next == n0 + Total(Numbered(ps[..i], n0)) &&
    Unique(doc) && IdsBelow(doc, next) &&
    Actives(doc) == Actives(doc0) &&
    (MarksMatch(doc0, q) ==> MarksMatch(doc, q))
  }

  /** One candidate rewritten. */
  lemma Step(doc0: seq<Node>, q: string, n0: nat, ns: seq<Run>, ps: seq<seq<Splice.Piece>>, i: nat,
             doc: seq<Node>, created: seq<NodeId>, next: nat)
    requires Rewritten(doc0, q, n0, ns, ps, i, doc, created, next) && i < |ns|
    requires ps == Splits(ns, q)
    requires DistinctIds(ns) && IdsBelow(doc0, n0)
    requires forall r :: r in ns ==> r.id in Ids(doc0)
    ensures Rewritten(doc0, q, n0, ns, ps, i + 1,
                      Replace(doc, ns[i].id, Splice.Fragment(ns[i].value, q, next)),
                      created + MarkIds(Splice.Fragment(ns[i].value, q, next)),
                      next + |Splice.Fragment(ns[i].value, q, next)|)
  {
    var fs := Numbered(ps[..i], n0);
    var frag := Splice.Fragment(ns[i].value, q, next);
    assert frag == Splice.Build(ps[i], next);
    Snoc(ns, i);
    NumberedSnoc(ps, n0, i, fs, next, frag);
    NumberedFresh(ps[..i], n0);
    StepSubst(doc0, ns[..i], fs, ns[i], frag, n0);
    StepFresh(doc, ns[i].value, q, next);
  }

  lemma Snoc<T>(s: seq<T>, i: nat)
    requires i < |s|
    ensures s[..i + 1] == s[..i] + [s[i]]
  {
  }

  /** Numbering one more piece list appends its fragment, its wrappers and its size. */
  lemma NumberedSnoc(ps: seq<seq<Splice.Piece>>, n0: nat, i: nat, fs: seq<seq<Node>>, next: nat, frag: seq<Node>)
    requires i < |ps| && fs == Numbered(ps[..i], n0) && next == n0 + Total(fs) && frag == Splice.Build(ps[i], next)
    ensures Numbered(ps[..i + 1], n0) == fs + [frag]
    ensures Marks(Numbered(ps[..i + 1], n0)) == Marks(fs) + MarkIds(frag)
    ensures Total(Numbered(ps[..i + 1], n0)) == Total(fs) + |frag|
  {
    assert ps[..i + 1][..i] == ps[..i];
    assert (fs + [frag])[..i] == fs;
  }

  /** The sequential replacement of one more candidate agrees with the simultaneous one. */
  lemma StepSubst(doc0: seq<Node>, pre: seq<Run>, fs: seq<seq<Node>>, r: Run, frag: seq<Node>, n0: nat)
    requires |pre| == |fs| && IdsBelow(doc0, n0) && r.id in Ids(doc0)
    requires forall j :: 0 <= j < |pre| ==> pre[j].id != r.id
    requires forall j, x :: 0 <= j < |fs| && x in Ids(fs[j]) ==> n0 <= x
    ensures Replace(Subst(doc0, Table(pre, fs)), r.id, frag) == Subst(doc0, Table(pre + [r], fs + [frag]))
  {
    TableKeys(pre, fs);
    TableValues(pre, fs, n0);
    assert (pre + [r])[..|pre|] == pre && (fs + [frag])[..|fs|] == fs;
    ReplaceSubst(doc0, Table(pre, fs), r.id, frag);
  }

  /** Replacing a text node by a fragment with fresh identities keeps the document well formed. */
  lemma StepFresh(doc: seq<Node>, text: string, q: string, next: nat)
    requires q != [] && Unique(doc) && IdsBelow(doc, next)
    ensures forall c :: Unique(Replace(doc, c, Splice.Fragment(text, q, next)))
    ensures forall c :: IdsBelow(Replace(doc, c, Splice.Fragment(text, q, next)), next + |Splice.Fragment(text, q, next)|)
    ensures forall c :: Actives(Replace(doc, c, Splice.Fragment(text, q, next))) == Actives(doc)
    ensures forall c :: MarksMatch(doc, q) ==> MarksMatch(Replace(doc, c, Splice.Fragment(text, q, next)), q)
  {
    var frag := Splice.Fragment(text, q, next);
    Splice.FragmentIds(text, q, next);
    Splice.FragmentActives(text, q, next);
    Splice.FragmentMatches(text, q, next);
    forall c ensures Unique(Replace(doc, c, frag)) && IdsBelow(Replace(doc, c, frag), next + |frag|) {
      ReplaceUnique(doc, c, frag);
    }
    forall c ensures Actives(Replace(doc, c, frag)) == Actives(doc) {
      ReplaceActives(doc, c, frag);
    }
    forall c | MarksMatch(doc, q) ensures MarksMatch(Replace(doc, c, frag), q) {
      ReplaceMarksMatch(doc, c, frag, q);
    }
  }

  // ---------------------------------------------------------------------
  // The replacement table

  /** The table maps exactly the candidates' identities. */
  lemma {:induction false} TableKeys(ns: seq<Run>, fs: seq<seq<Node>>)
    requires |ns| == |fs|
    ensures forall j :: 0 <= j < |ns| ==> ns[j].id in Table(ns, fs)
    ensures forall k :: k in Table(ns, fs) ==> exists j :: 0 <= j < |ns| && ns[j].id == k
  {
    if ns != [] {
      var pre := ns[..|ns| - 1];
      TableKeys(pre, fs[..|fs| - 1]);
      forall k | k in Table(ns, fs) ensures exists j :: 0 <= j < |ns| && ns[j].id == k {
        if k != ns[|ns| - 1].id {
          var j :| 0 <= j < |pre| && pre[j].id == k;
          assert ns[j].id == k;
        }
      }
    }
  }

  /** With distinct identities, the table sends each candidate to its own fragment. */
  lemma {:induction false} TableAt(ns: seq<Run>, fs: seq<seq<Node>>, j: nat)
    requires |ns| == |fs| && DistinctIds(ns) && j < |ns|
    ensures ns[j].id in Table(ns, fs) && Table(ns, fs)[ns[j].id] == fs[j]
  {
    if j < |ns| - 1 {
      TableAt(ns[..|ns| - 1], fs[..|fs| - 1], j);
    }
  }

  /** Every table entry is one of the fragments; so bounds on the fragments' identities carry over. */
  lemma {:induction false} TableValues(ns: seq<Run>, fs: seq<seq<Node>>, lo: nat)
    requires |ns| == |fs|
    requires forall j, x :: 0 <= j < |fs| && x in Ids(fs[j]) ==> lo <= x
    ensures forall k, x :: k in Table(ns, fs) && x in Ids(Table(ns, fs)[k]) ==> lo <= x
  {
    if ns != [] {
      var m := |fs| - 1;
      forall j, x | 0 <= j < m && x in Ids(fs[..m][j]) ensures lo <= x {
        assert fs[..m][j] == fs[j];
      }
      TableValues(ns[..|ns| - 1], fs[..m], lo);
    }
  }

  // ---------------------------------------------------------------------
  // Substitution

  lemma {:induction false} SubstEmpty(cs: seq<Node>)
    ensures Subst(cs, map[]) == cs
  {
    if cs != [] {
      SubstEmpty(cs[1..]);
      match cs[0]
      case Text(_, _) =>
      case Mark(_, _, _) =>
      case Elem(_, _, _, ch) =>
        SubstEmpty(ch);
      assert cs == [cs[0]] + cs[1..];
    }
  }

  /** Replacing one more text node, fresh with respect to the replacements so far, extends the substitution. */
  lemma {:induction false} ReplaceSubst(cs: seq<Node>, f: map<NodeId, seq<Node>>, c: NodeId, p: seq<Node>)
    requires c !in f
    requires forall k :: k in f ==> c !in Ids(f[k])
    ensures Replace(Subst(cs, f), c, p) == Subst(cs, f[c := p])
  {
    if cs != [] {
      ReplaceSubst(cs[1..], f, c, p);
      ReplaceAppend(SubstNode(cs[0], f), Subst(cs[1..], f), c, p);
      assert [cs[0]][1..] == [];
      match cs[0]
      case Text(id, _) =>
        if id in f {
          ReplaceAbsent(f[id], c, p);
        }
      case Mark(_, _, _) =>
      case Elem(id, t, a, ch) =>
        ReplaceSubst(ch, f, c, p);
        assert [Elem(id, t, a, Subst(ch, f))][1..] == [];
    }
  }

  /** The wrappers of the fragments of the runs `rs` that `f` maps, run after run. */
  function Gather(rs: seq<Run>, f: map<NodeId, seq<Node>>): seq<NodeId>
  {
    if rs == [] then [] else (if rs[0].id in f then MarkIds(f[rs[0].id]) else []) + Gather(rs[1..], f)
  }

  lemma {:induction false} GatherAppend(a: seq<Run>, b: seq<Run>, f: map<NodeId, seq<Node>>)
    ensures Gather(a + b, f) == Gather(a, f) + Gather(b, f)
  {
    if a != [] {
      assert (a + b)[1..] == a[1..] + b;
      GatherAppend(a[1..], b, f);
    } else {
      assert a + b == b;
    }
  }

  /** In a document without wrappers, the substituted document lists the fragments' wrappers in walker order. */
  lemma {:induction false} SubstMarks(cs: seq<Node>, path: seq<Ancestor>, f: map<NodeId, seq<Node>>)
    requires MarkIds(cs) == []
    ensures MarkIds(Subst(cs, f)) == Gather(Runs(cs, path), f)
  {
    if cs != [] {
      SubstMarks(cs[1..], path, f);
      MarkIdsAppend(SubstNode(cs[0], f), Subst(cs[1..], f));
      GatherAppend(NodeRuns(cs[0], path), Runs(cs[1..], path), f);
      match cs[0]
      case Text(id, v) =>
        assert Gather([Run(id, v, path)], f) == (if id in f then MarkIds(f[id]) else []) + Gather([], f);
        Single(cs[0], "");
      case Mark(_, _, _) =>
      case Elem(id, t, a, ch) =>
        SubstMarks(ch, [Ancestor(t, a)] + path, f);
        Single(Elem(id, t, a, Subst(ch, f)), "");
    }
  }

  /** When every replacement keeps the text of the node it replaces, the document's text is unchanged. */
  lemma {:induction false} SubstText(cs: seq<Node>, path: seq<Ancestor>, f: map<NodeId, seq<Node>>)
    requires forall r :: r in Runs(cs, path) && r.id in f ==> TextOf(f[r.id]) == r.value
    ensures TextOf(Subst(cs, f)) == TextOf(cs)
  {
    if cs != [] {
      SubstText(cs[1..], path, f);
      TextOfAppend(SubstNode(cs[0], f), Subst(cs[1..], f));
      match cs[0]
      case Text(id, v) =>
        assert Run(id, v, path) in Runs(cs, path);
        Single(cs[0], "");
      case Mark(_, _, _) =>
        Single(cs[0], "");
      case Elem(id, t, a, ch) =>
        assert Runs(cs, path) == Runs(ch, [Ancestor(t, a)] + path) + Runs(cs[1..], path);
        SubstText(ch, [Ancestor(t, a)] + path, f);
        Single(Elem(id, t, a, Subst(ch, f)), "");
    }
  }

  /** When every replacement spells the text of the node it replaces and holds no element, the markup is unchanged. */
  lemma {:induction false} SubstMarkup(cs: seq<Node>, path: seq<Ancestor>, f: map<NodeId, seq<Node>>)
    requires forall r :: r in Runs(cs, path) && r.id in f ==> TextOf(f[r.id]) == r.value && Flat(f[r.id])
    ensures Markup(Subst(cs, f)) == Markup(cs)
  {
    if cs != [] {
      SubstMarkup(cs[1..], path, f);
      MarkupAppend(SubstNode(cs[0], f), Subst(cs[1..], f));
      match cs[0]
      case Text(id, v) =>
        assert Run(id, v, path) in Runs(cs, path);
        if id in f { FlatMarkup(f[id]); }
        assert Markup([cs[0]]) == NodeMarkup(cs[0]) by { assert [cs[0]][1..] == []; }
      case Mark(_, _, _) =>
        assert Markup([cs[0]]) == NodeMarkup(cs[0]) by { assert [cs[0]][1..] == []; }
      case Elem(id, t, a, ch) =>
        var y := Elem(id, t, a, Subst(ch, f));
        assert Runs(cs, path) == Runs(ch, [Ancestor(t, a)] + path) + Runs(cs[1..], path);
        SubstMarkup(ch, [Ancestor(t, a)] + path, f);
        assert Markup([y]) == NodeMarkup(y) by { assert [y][1..] == []; }
    }
  }

  lemma {:induction false} GatherUpdate(rs: seq<Run>, f: map<NodeId, seq<Node>>, c: NodeId, p: seq<Node>)
    requires forall r :: r in rs ==> r.id != c
    ensures Gather(rs, f[c := p]) == Gather(rs, f)
  {
    if rs != [] {
      GatherUpdate(rs[1..], f, c, p);
    }
  }

  /** Runs that `f` does not map contribute nothing, so only the accepted runs matter. */
  lemma {:induction false} GatherCandidates(rs: seq<Run>, f: map<NodeId, seq<Node>>, q: string)
    requires forall r :: r in rs && r.id in f ==> Accept(r, q)
    ensures Gather(Filter(rs, q), f) == Gather(rs, f)
  {
    if rs != [] {
      var pre, last := rs[..|rs| - 1], rs[|rs| - 1];
      assert rs == pre + [last];
      GatherCandidates(pre, f, q);
      GatherAppend(pre, [last], f);
      GatherAppend(Filter(pre, q), if Accept(last, q) then [last] else [], f);
    }
  }

  /** Gathering along the candidates themselves lists the fragments' wrappers. */
  lemma {:induction false} GatherTable(ns: seq<Run>, fs: seq<seq<Node>>)
    requires |ns| == |fs| && DistinctIds(ns)
    ensures Gather(ns, Table(ns, fs)) == Marks(fs)
  {
    if ns != [] {
      var pre, last := ns[..|ns| - 1], ns[|ns| - 1];
      var fpre := fs[..|fs| - 1];
      assert ns == pre + [last];
      GatherTable(pre, fpre);
      GatherAppend(pre, [last], Table(ns, fs));
      GatherUpdate(pre, Table(pre, fpre), last.id, fs[|fs| - 1]);
    }
  }

  // ---------------------------------------------------------------------
  // The fragments

  /** Fresh identities: the fragments use identities in [n, n + Total). */
  lemma {:induction false} NumberedFresh(ps: seq<seq<Splice.Piece>>, n: nat)
    ensures forall j, x :: 0 <= j < |ps| && x in Ids(Numbered(ps, n)[j]) ==> n <= x < n + Total(Numbered(ps, n))
  {
    if ps != [] {
      var m := |ps| - 1;
      var fs := Numbered(ps[..m], n);
      var all := Numbered(ps, n);
      assert all[..m] == fs;
      NumberedFresh(ps[..m], n);
      Splice.BuildIds(ps[m], n + Total(fs));
      forall j, x | 0 <= j < |ps| && x in Ids(all[j]) ensures n <= x < n + Total(all) {
        if j < m {
          assert all[j] == fs[j];
        }
      }
    }
  }

  /** Each fragment holds the text its pieces spell. */
  lemma {:induction false} NumberedText(ps: seq<seq<Splice.Piece>>, n: nat)
    ensures forall j :: 0 <= j < |ps| ==> TextOf(Numbered(ps, n)[j]) == Splice.Concat(ps[j])
  {
    if ps != [] {
      var m := |ps| - 1;
      var fs := Numbered(ps[..m], n);
      var all := Numbered(ps, n);
      NumberedText(ps[..m], n);
      Splice.BuildText(ps[m], n + Total(fs));
      forall j | 0 <= j < |ps| ensures TextOf(all[j]) == Splice.Concat(ps[j]) {
        if j < m {
          assert all[j] == fs[j] && ps[..m][j] == ps[j];
        }
      }
    }
  }

  /** Each fragment is text nodes and wrappers only. */
  lemma {:induction false} NumberedFlat(ps: seq<seq<Splice.Piece>>, n: nat)
    ensures forall j :: 0 <= j < |ps| ==> Flat(Numbered(ps, n)[j])
  {
    if ps != [] {
      var m := |ps| - 1;
      var fs := Numbered(ps[..m], n);
      var all := Numbered(ps, n);
      NumberedFlat(ps[..m], n);
      Splice.BuildShape(ps[m], n + Total(fs));
      forall j | 0 <= j < |ps| ensures Flat(all[j]) {
        if j < m {
          assert all[j] == fs[j];
        }
      }
    }
  }

  /** Each fragment holds one wrapper per hit among its pieces. */
  lemma {:induction false} NumberedMarks(ps: seq<seq<Splice.Piece>>, n: nat)
    ensures forall j :: 0 <= j < |ps| ==> |MarkIds(Numbered(ps, n)[j])| == |Splice.Hits(ps[j])|
  {
    if ps != [] {
      var m := |ps| - 1;
      var fs := Numbered(ps[..m], n);
      var all := Numbered(ps, n);
      NumberedMarks(ps[..m], n);
      Splice.BuildMarkCount(ps[m], n + Total(fs));
      forall j | 0 <= j < |ps| ensures |MarkIds(all[j])| == |Splice.Hits(ps[j])| {
        if j < m {
          assert all[j] == fs[j] && ps[..m][j] == ps[j];
        }
      }
    }
  }

  // ---------------------------------------------------------------------
  // What highlighting does to the document

  /** A text node is rewritten exactly when the filter accepts it. */
  lemma RewritesCandidates(doc: seq<Node>, above: seq<Ancestor>, q: string, fs: seq<seq<Node>>, r: Run)
    requires Unique(doc) && r in Runs(doc, above) && |fs| == |Candidates(doc, above, q)|
    ensures r.id in Table(Candidates(doc, above, q), fs) <==> Accept(r, q)
  {
    var ns := Candidates(doc, above, q);
    CandidatesDistinct(doc, above, q);
    TableKeys(ns, fs);
    if r.id in Table(ns, fs) {
      var j :| 0 <= j < |ns| && ns[j].id == r.id;
      SameId(Runs(doc, above), r, ns[j]);
    }
  }

  /** Every rewritten node yields at least one wrapper. */
  lemma RewrittenMarked(doc: seq<Node>, above: seq<Ancestor>, term: string, n: nat, r: Run)
    requires term != [] && Unique(doc) && r in Runs(doc, above) && Accept(r, Lower(term))
    ensures var ns := Candidates(doc, above, Lower(term));
      var t := Table(ns, Numbered(Splits(ns, Lower(term)), n));
      r.id in t && MarkIds(t[r.id]) != []
  {
    var q := Lower(term);
    var ns := Candidates(doc, above, q);
    var ps := Splits(ns, q);
    CandidatesDistinct(doc, above, q);
    var j :| 0 <= j < |ns| && ns[j] == r;
    TableAt(ns, Numbered(ps, n), j);
    NumberedMarks(ps, n);
    Splice.SplitHits(r.value, q);
  }

  /** The fragment replacing a rewritten node keeps its text and holds no element. */
  lemma RewrittenText(doc: seq<Node>, above: seq<Ancestor>, term: string, n: nat, r: Run)
    requires term != [] && Unique(doc) && r in Runs(doc, above) && Accept(r, Lower(term))
    ensures var ns := Candidates(doc, above, Lower(term));
      var t := Table(ns, Numbered(Splits(ns, Lower(term)), n));
      r.id in t && TextOf(t[r.id]) == r.value && Flat(t[r.id])
  {
    var q := Lower(term);
    var ns := Candidates(doc, above, q);
    var ps := Splits(ns, q);
    CandidatesDistinct(doc, above, q);
    var j :| 0 <= j < |ns| && ns[j] == r;
    TableAt(ns, Numbered(ps, n), j);
    NumberedText(ps, n);
    NumberedFlat(ps, n);
    Splice.SplitText(r.value, q);
  }

  /** Highlighting never changes the text of the document. */
  lemma HighlightText(doc: seq<Node>, above: seq<Ancestor>, term: string, n: nat)
    requires term != [] && Unique(doc)
    ensures TextOf(Highlighted(doc, above, term, n)) == TextOf(doc)
  {
    var q := Lower(term);
    var ns := Candidates(doc, above, q);
    var fs := Numbered(Splits(ns, q), n);
    var t := Table(ns, fs);
    forall r | r in Runs(doc, above) && r.id in t ensures TextOf(t[r.id]) == r.value {
      RewritesCandidates(doc, above, q, fs, r);
      RewrittenText(doc, above, term, n, r);
    }
    SubstText(doc, above, t);
  }

  /**
    Highlighting only cuts text nodes into text and wrappers: every element,
    its attributes and place, and the characters inside each element are
    what they were.
   */
  lemma HighlightMarkup(doc: seq<Node>, above: seq<Ancestor>, term: string, n: nat)
    requires term != [] && Unique(doc)
    ensures Markup(Highlighted(doc, above, term, n)) == Markup(doc)
  {
    var q := Lower(term);
    var ns := Candidates(doc, above, q);
    var fs := Numbered(Splits(ns, q), n);
    var t := Table(ns, fs);
    forall r | r in Runs(doc, above) && r.id in t ensures TextOf(t[r.id]) == r.value && Flat(t[r.id]) {
      RewritesCandidates(doc, above, q, fs, r);
      RewrittenText(doc, above, term, n, r);
    }
    SubstMarkup(doc, above, t);
  }

  /**
    In a document without wrappers, the wrappers after highlighting are
    exactly the `created` list, in document order.
   */
  lemma HighlightMarks(doc: seq<Node>, above: seq<Ancestor>, term: string, n: nat)
    requires term != [] && Unique(doc) && MarkIds(doc) == []
    ensures MarkIds(Highlighted(doc, above, term, n)) == Marks(Numbered(Splits(Candidates(doc, above, Lower(term)), Lower(term)), n))
  {
    var q := Lower(term);
    var ns := Candidates(doc, above, q);
    var fs := Numbered(Splits(ns, q), n);
    var t := Table(ns, fs);
    CandidatesDistinct(doc, above, q);
    forall r | r in Runs(doc, above) && r.id in t ensures Accept(r, q) {
      RewritesCandidates(doc, above, q, fs, r);
    }
    SubstMarks(doc, above, t);
    GatherCandidates(Runs(doc, above), t, q);
    GatherTable(ns, fs);
  }
}
