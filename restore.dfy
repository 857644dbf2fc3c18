/**
  `clearHighlights`: every highlight wrapper in the document is replaced,
  in its parent, by a new text node holding the wrapper's text, and the
  parent is normalized so that the text node merges with its neighbours.

  `Unwrap` is one turn of that loop, on the forest: the parent whose child
  is the wrapper gets the replacement and is normalized; every other
  element is left alone.
 */
module Restore {
  import opened Dom

  /** One of the nodes of `cs` (not of their descendants) is the wrapper `m`. */
  predicate HasChild(cs: seq<Node>, m: NodeId)
  {
    cs != [] && ((cs[0].Mark? && cs[0].id == m) || HasChild(cs[1..], m))
  }

  /** `document.createTextNode(mark.textContent)` in place of the wrapper `m`, the new node taking identity `t`. */
  function SwapNode(x: Node, m: NodeId, t: NodeId): Node
  {
    if x.Mark? && x.id == m then Text(t, x.text) else x
  }

  /** `parent.replaceChild(...)` on the children of the parent. */
  function Swap(cs: seq<Node>, m: NodeId, t: NodeId): seq<Node>
  {
    if cs == [] then [] else [SwapNode(cs[0], m, t)] + Swap(cs[1..], m, t)
  }

  /** The forest after the wrapper `m` is replaced by text node `t` and its parent normalized. */
  function Unwrap(cs: seq<Node>, m: NodeId, t: NodeId): seq<Node>
    decreases cs, 1
  {
    if HasChild(cs, m) then Normalize(Swap(cs, m, t)) else Descend(cs, m, t)
  }

  /** `Unwrap` applied inside each node of `cs`. */
  function Descend(cs: seq<Node>, m: NodeId, t: NodeId): seq<Node>
    decreases cs, 0
  {
    if cs == [] then [] else [UnwrapNode(cs[0], m, t)] + Descend(cs[1..], m, t)
  }

  function UnwrapNode(x: Node, m: NodeId, t: NodeId): Node
    decreases x, 2
  {
    match x
    case Elem(id, g, a, ch) => Elem(id, g, a, Unwrap(ch, m, t))
    case _ => x
  }

  /**
    The loop of `clearHighlights` over a list of wrappers taken beforehand:
    each is unwrapped in turn, the replacement text nodes taking the
    identities `t`, `t + 1`, ….
   */
  function ClearAll(doc: seq<Node>, marks: seq<NodeId>, t: nat): seq<Node>
    decreases |marks|
  {
    if marks == [] then doc else ClearAll(Unwrap(doc, marks[0], t), marks[1..], t + 1)
  }

  /** The document after `clearHighlights()`: the loop over `querySelectorAll(".search-highlight")`, fresh identities from `next`. */
  function Cleared(doc: seq<Node>, next: nat): seq<Node>
  {
    ClearAll(doc, MarkIds(doc), next)
  }

  /**
    `clearHighlights()` on a document whose identities are distinct and
    below `next`. The wrappers are listed first (`querySelectorAll`), then
    unwrapped one by one, each replacement text node taking the next fresh
    identity. Afterwards no wrapper is left, so none is active, and the
    elements, their text and identities are what they were.
   */
  method ClearHighlights(doc: seq<Node>, next: nat) returns (doc': seq<Node>, next': nat)
    requires Unique(doc) && IdsBelow(doc, next)
    ensures doc' == Cleared(doc, next) && next' == next + |MarkIds(doc)|
    ensures MarkIds(doc') == [] && Actives(doc') == []
    ensures TextOf(doc') == TextOf(doc) && Markup(doc') == Markup(doc)
    ensures Unique(doc') && IdsBelow(doc', next')
    ensures MarkIds(doc) == [] ==> doc' == doc
  {
    var marks := MarkIds(doc);
    doc', next' := doc, next;
    var i := 0;
    while i < |marks|
      invariant i <= |marks| && next' == next + i
      invariant ClearAll(doc', marks[i..], next') == ClearAll(doc, marks, next)
    {
      ClearAllStep(doc', marks, i, next');
      doc' := Unwrap(doc', marks[i], next');
      next' := next' + 1;
      i := i + 1;
    }
    assert marks[i..] == [];
    UniqueMarkIds(doc);
    ClearAllFacts(doc, marks, next);
  }

  lemma ClearAllStep(doc: seq<Node>, marks: seq<NodeId>, i: nat, t: nat)
    requires i < |marks|
    ensures ClearAll(doc, marks[i..], t) == ClearAll(Unwrap(doc, marks[i], t), marks[i + 1..], t + 1)
  {
    assert marks[i..][0] == marks[i] && marks[i..][1..] == marks[i + 1..];
  }

  /**
    Unwrapping, one by one, exactly the wrappers of a document with
    distinct identities leaves no wrapper and none active, keeps the text
    and the markup, and keeps identities distinct, the new ones being
    `t`, …, `t + |marks| - 1`.
   */
  lemma {:induction false} ClearAllFacts(doc: seq<Node>, marks: seq<NodeId>, t: nat)
    requires Unique(doc) && IdsBelow(doc, t) && Distinct(marks) && MarkIds(doc) == marks
    ensures MarkIds(ClearAll(doc, marks, t)) == [] && Actives(ClearAll(doc, marks, t)) == []
    ensures TextOf(ClearAll(doc, marks, t)) == TextOf(doc) && Markup(ClearAll(doc, marks, t)) == Markup(doc)
    ensures Unique(ClearAll(doc, marks, t)) && IdsBelow(ClearAll(doc, marks, t), t + |marks|)
    decreases |marks|
  {
    if marks == [] {
      NoMarks(doc, []);
    } else {
      ClearStep(doc, marks, t);
      UnwrapMarkup(doc, marks[0], t);
      ClearAllFacts(Unwrap(doc, marks[0], t), marks[1..], t + 1);
    }
  }

  /** Clearing, on any page, keeps the markup: every element stays, and every character stays inside the same elements. */
  lemma {:induction false} ClearedMarkup(doc: seq<Node>, next: nat)
    ensures Markup(Cleared(doc, next)) == Markup(doc)
  {
    ClearAllMarkup(doc, MarkIds(doc), next);
  }

  lemma {:induction false} ClearAllMarkup(doc: seq<Node>, marks: seq<NodeId>, t: nat)
    ensures Markup(ClearAll(doc, marks, t)) == Markup(doc)
    decreases |marks|
  {
    if marks != [] {
      UnwrapMarkup(doc, marks[0], t);
      ClearAllMarkup(Unwrap(doc, marks[0], t), marks[1..], t + 1);
    }
  }

  /** One turn of the loop: the wrapper at the head of the list disappears, and nothing else that is observed changes. */
  lemma ClearStep(doc: seq<Node>, marks: seq<NodeId>, t: nat)
    requires Unique(doc) && IdsBelow(doc, t)
    requires marks != [] && Distinct(marks) && MarkIds(doc) == marks
    ensures Distinct(marks[1..]) && MarkIds(Unwrap(doc, marks[0], t)) == marks[1..]
    ensures TextOf(Unwrap(doc, marks[0], t)) == TextOf(doc)
    ensures Unique(Unwrap(doc, marks[0], t)) && IdsBelow(Unwrap(doc, marks[0], t), t + 1)
  {
    WithoutHead(marks);
    UnwrapMarks(doc, marks[0], t);
    UnwrapText(doc, marks[0], t);
    UnwrapFresh(doc, marks[0], t);
  }

  // ---------------------------------------------------------------------
  // Where the wrapper is

  lemma {:induction false} HasChildIn(cs: seq<Node>, m: NodeId)
    ensures HasChild(cs, m) ==> m in Ids(cs)
  {
    if cs != [] {
      HasChildIn(cs[1..], m);
      assert Ids(cs) == NodeIds(cs[0]) + Ids(cs[1..]);
    }
  }

  lemma {:induction false} SwapAbsent(cs: seq<Node>, m: NodeId, t: NodeId)
    requires !HasChild(cs, m)
    ensures Swap(cs, m, t) == cs
  {
    if cs != [] {
      SwapAbsent(cs[1..], m, t);
      assert cs == [cs[0]] + cs[1..];
    }
  }

  /** A document without the wrapper `m` is left as it is. */
  lemma {:induction false} UnwrapAbsent(cs: seq<Node>, m: NodeId, t: NodeId)
    requires m !in Ids(cs)
    ensures Unwrap(cs, m, t) == cs
    decreases cs, 1
  {
    HasChildIn(cs, m);
    DescendAbsent(cs, m, t);
  }

  lemma {:induction false} DescendAbsent(cs: seq<Node>, m: NodeId, t: NodeId)
    requires m !in Ids(cs)
    ensures Descend(cs, m, t) == cs
    decreases cs, 0
  {
    if cs != [] {
      assert Ids(cs) == NodeIds(cs[0]) + Ids(cs[1..]);
      DescendAbsent(cs[1..], m, t);
      UnwrapNodeAbsent(cs[0], m, t);
      assert cs == [cs[0]] + cs[1..];
    }
  }

  lemma {:induction false} UnwrapNodeAbsent(x: Node, m: NodeId, t: NodeId)
    requires m !in NodeIds(x)
    ensures UnwrapNode(x, m, t) == x
    decreases x, 2
  {
    if x.Elem? {
      UnwrapAbsent(x.children, m, t);
    }
  }

  // ---------------------------------------------------------------------
  // The text is kept

  lemma {:induction false} SwapText(cs: seq<Node>, m: NodeId, t: NodeId)
    ensures TextOf(Swap(cs, m, t)) == TextOf(cs)
  {
    if cs != [] {
      var y := SwapNode(cs[0], m, t);
      SwapText(cs[1..], m, t);
      TextOfAppend([y], Swap(cs[1..], m, t));
      Single(y, []);
    }
  }

  /** Unwrapping never changes the text of the document. */
  lemma {:induction false} UnwrapText(cs: seq<Node>, m: NodeId, t: NodeId)
    ensures TextOf(Unwrap(cs, m, t)) == TextOf(cs)
    decreases cs, 1
  {
    if HasChild(cs, m) {
      SwapText(cs, m, t);
      NormalizeText(Swap(cs, m, t));
    } else {
      DescendText(cs, m, t);
    }
  }

  lemma {:induction false} DescendText(cs: seq<Node>, m: NodeId, t: NodeId)
    ensures TextOf(Descend(cs, m, t)) == TextOf(cs)
    decreases cs, 0
  {
    if cs != [] {
      var y := UnwrapNode(cs[0], m, t);
      DescendText(cs[1..], m, t);
      UnwrapNodeText(cs[0], m, t);
      TextOfAppend([y], Descend(cs[1..], m, t));
      Single(y, []);
    }
  }

  lemma {:induction false} UnwrapNodeText(x: Node, m: NodeId, t: NodeId)
    ensures NodeText(UnwrapNode(x, m, t)) == NodeText(x)
    decreases x, 2
  {
    if x.Elem? {
      UnwrapText(x.children, m, t);
    }
  }

  // ---------------------------------------------------------------------
  // Exactly the wrapper `m` goes

  lemma {:induction false} SwapMarks(cs: seq<Node>, m: NodeId, t: NodeId)
    requires Unique(cs) && HasChild(cs, m)
    ensures MarkIds(Swap(cs, m, t)) == Without(MarkIds(cs), m)
  {
    var x, rest := cs[0], cs[1..];
    var y := SwapNode(x, m, t);
    MarkIdsAppend([y], Swap(rest, m, t));
    Single(y, []);
    WithoutAppend(NodeMarks(x), MarkIds(rest), m);
    if x.Mark? && x.id == m {
      HasChildIn(rest, m);
      SwapAbsent(rest, m, t);
      MarkIdsInIds(rest);
      WithoutAbsent(MarkIds(rest), m);
    } else {
      SwapMarks(rest, m, t);
      HasChildIn(rest, m);
      if x.Elem? { MarkIdsInIds(x.children); }
      WithoutAbsent(NodeMarks(x), m);
    }
  }

  /** In a document with distinct identities, unwrapping `m` removes `m` from the wrappers and keeps the others in order. */
  lemma {:induction false} UnwrapMarks(cs: seq<Node>, m: NodeId, t: NodeId)
    requires Unique(cs)
    ensures MarkIds(Unwrap(cs, m, t)) == Without(MarkIds(cs), m)
    decreases cs, 1
  {
    if HasChild(cs, m) {
      SwapMarks(cs, m, t);
      NormalizeMarks(Swap(cs, m, t));
    } else {
      DescendMarks(cs, m, t);
    }
  }

  lemma {:induction false} DescendMarks(cs: seq<Node>, m: NodeId, t: NodeId)
    requires Unique(cs) && !HasChild(cs, m)
    ensures MarkIds(Descend(cs, m, t)) == Without(MarkIds(cs), m)
    decreases cs, 0
  {
    if cs != [] {
      var x, rest := cs[0], cs[1..];
      var y := UnwrapNode(x, m, t);
      DescendMarks(rest, m, t);
      UnwrapNodeMarks(x, m, t);
      MarkIdsAppend([y], Descend(rest, m, t));
      Single(y, []);
      WithoutAppend(NodeMarks(x), MarkIds(rest), m);
    }
  }

  lemma {:induction false} UnwrapNodeMarks(x: Node, m: NodeId, t: NodeId)
    requires UniqueNode(x) && !(x.Mark? && x.id == m)
    ensures NodeMarks(UnwrapNode(x, m, t)) == Without(NodeMarks(x), m)
    decreases x, 2
  {
    match x
    case Text(_, _) =>
    case Mark(id, _, _) =>
      assert Without([id], m) == [id] + Without([], m);
    case Elem(_, _, _, ch) =>
      UnwrapMarks(ch, m, t);
  }

  // ---------------------------------------------------------------------
  // Identities stay distinct

  lemma {:induction false} SwapFresh(cs: seq<Node>, m: NodeId, t: NodeId)
    requires Unique(cs) && t !in Ids(cs)
    ensures Unique(Swap(cs, m, t)) && Ids(Swap(cs, m, t)) <= Ids(cs) + {t}
  {
    if cs != [] {
      var x, rest := cs[0], cs[1..];
      var y := SwapNode(x, m, t);
      assert Ids(cs) == NodeIds(x) + Ids(rest);
      SwapFresh(rest, m, t);
      UniqueAppend([y], Swap(rest, m, t));
      IdsAppend([y], Swap(rest, m, t));
      Single(y, []);
      if x.Mark? && x.id == m {
        HasChildIn(rest, m);
        SwapAbsent(rest, m, t);
      }
    }
  }

  /** Unwrapping keeps identities distinct; the only new one is `t`. */
  lemma {:induction false} UnwrapFresh(cs: seq<Node>, m: NodeId, t: NodeId)
    requires Unique(cs) && t !in Ids(cs)
    ensures Unique(Unwrap(cs, m, t)) && Ids(Unwrap(cs, m, t)) <= Ids(cs) + {t}
    decreases cs, 1
  {
    if HasChild(cs, m) {
      SwapFresh(cs, m, t);
      NormalizeUnique(Swap(cs, m, t));
      NormalizeIds(Swap(cs, m, t));
    } else {
      DescendFresh(cs, m, t);
    }
  }

  lemma {:induction false} DescendFresh(cs: seq<Node>, m: NodeId, t: NodeId)
    requires Unique(cs) && t !in Ids(cs)
    ensures Unique(Descend(cs, m, t)) && Ids(Descend(cs, m, t)) <= Ids(cs) + {t}
    decreases cs, 0
  {
    if cs != [] {
      var x, rest := cs[0], cs[1..];
      var y := UnwrapNode(x, m, t);
      assert Ids(cs) == NodeIds(x) + Ids(rest);
      DescendFresh(rest, m, t);
      UnwrapNodeFresh(x, m, t);
      UniqueAppend([y], Descend(rest, m, t));
      IdsAppend([y], Descend(rest, m, t));
      Single(y, []);
      if m in NodeIds(x) {
        DescendAbsent(rest, m, t);
      } else {
        UnwrapNodeAbsent(x, m, t);
      }
    }
  }

  lemma {:induction false} UnwrapNodeFresh(x: Node, m: NodeId, t: NodeId)
    requires UniqueNode(x) && t !in NodeIds(x)
    ensures UniqueNode(UnwrapNode(x, m, t)) && NodeIds(UnwrapNode(x, m, t)) <= NodeIds(x) + {t}
    decreases x, 2
  {
    if x.Elem? {
      UnwrapFresh(x.children, m, t);
    }
  }

  // ---------------------------------------------------------------------
  // The elements and where the text sits are kept

  lemma {:induction false} SwapMarkup(cs: seq<Node>, m: NodeId, t: NodeId)
    ensures Markup(Swap(cs, m, t)) == Markup(cs)
  {
    if cs != [] {
      var y := SwapNode(cs[0], m, t);
      SwapMarkup(cs[1..], m, t);
      MarkupAppend([y], Swap(cs[1..], m, t));
      assert Markup([y]) == NodeMarkup(y) by { assert [y][1..] == []; }
    }
  }

  /** Unwrapping replaces a wrapper by text with the same characters and only recuts text: the markup is unchanged. */
  lemma {:induction false} UnwrapMarkup(cs: seq<Node>, m: NodeId, t: NodeId)
    ensures Markup(Unwrap(cs, m, t)) == Markup(cs)
    decreases cs, 1
  {
    if HasChild(cs, m) {
      SwapMarkup(cs, m, t);
      NormalizeMarkup(Swap(cs, m, t));
    } else {
      DescendMarkup(cs, m, t);
    }
  }

  lemma {:induction false} DescendMarkup(cs: seq<Node>, m: NodeId, t: NodeId)
    ensures Markup(Descend(cs, m, t)) == Markup(cs)
    decreases cs, 0
  {
    if cs != [] {
      var y := UnwrapNode(cs[0], m, t);
      DescendMarkup(cs[1..], m, t);
      UnwrapNodeMarkup(cs[0], m, t);
      MarkupAppend([y], Descend(cs[1..], m, t));
      assert Markup([y]) == NodeMarkup(y) by { assert [y][1..] == []; }
    }
  }

  lemma {:induction false} UnwrapNodeMarkup(x: Node, m: NodeId, t: NodeId)
    ensures NodeMarkup(UnwrapNode(x, m, t)) == NodeMarkup(x)
    decreases x, 2
  {
    if x.Elem? {
      UnwrapMarkup(x.children, m, t);
    }
  }
}
