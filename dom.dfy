/**
  The part of the document object model the search engine touches.

  A document is a forest: the children of the Document node, each an
  element, a text node, or a highlight wrapper (`<mark class="search-highlight">`
  holding one text child, `active` when it carries the `active` class).
  Every node carries an identity; `Unique` says that no identity appears
  twice, which is what "distinct objects" means for a value model.
 */
module Dom {
  import opened Strings

  type NodeId = nat

  datatype Node =
    | Text(id: NodeId, value: string)
    | Elem(id: NodeId, tag: string, attrs: map<string, string>, children: seq<Node>)
    | Mark(id: NodeId, text: string, active: bool)

  /** No value occurs twice in `s`. */
  predicate Distinct(s: seq<NodeId>)
  {
    forall i, j :: 0 <= i < j < |s| ==> s[i] != s[j]
  }

  /** `s` with every occurrence of `m` removed. */
  function Without(s: seq<NodeId>, m: NodeId): (r: seq<NodeId>)
    ensures forall x :: x in r <==> x in s && x != m
  {
    if s == [] then [] else (if s[0] == m then [] else [s[0]]) + Without(s[1..], m)
  }

  lemma WithoutAbsent(s: seq<NodeId>, m: NodeId)
    requires m !in s
    ensures Without(s, m) == s
  {
    if s != [] {
      assert s == [s[0]] + s[1..];
      WithoutAbsent(s[1..], m);
    }
  }

  /** Removing the first element of a duplicate-free sequence by value drops exactly that element. */
  lemma WithoutHead(s: seq<NodeId>)
    requires s != [] && Distinct(s)
    ensures Without(s, s[0]) == s[1..]
  {
    WithoutAbsent(s[1..], s[0]);
  }

  lemma {:induction false} WithoutAppend(a: seq<NodeId>, b: seq<NodeId>, m: NodeId)
    ensures Without(a + b, m) == Without(a, m) + Without(b, m)
  {
    if a == [] {
      assert a + b == b;
    } else {
      var x, a' := a[0], a[1..];
      assert a == [x] + a' && a + b == [x] + (a' + b);
      WithoutAppend(a', b, m);
      WithoutCons(x, a', m);
      WithoutCons(x, a' + b, m);
    }
  }

  lemma WithoutCons(x: NodeId, s: seq<NodeId>, m: NodeId)
    ensures Without([x] + s, m) == (if x == m then [] else [x]) + Without(s, m)
  {
    assert ([x] + s)[1..] == s;
  }

  // ---------------------------------------------------------------------
  // Observations of a forest

  /** `textContent` of one node. */
  function NodeText(x: Node): string
  {
    match x
    case Text(_, v) => v
    case Elem(_, _, _, ch) => TextOf(ch)
    case Mark(_, t, _) => t
  }

  /** `textContent`: the concatenated text of the forest, in document order. */
  function TextOf(cs: seq<Node>): string
  {
    if cs == [] then "" else NodeText(cs[0]) + TextOf(cs[1..])
  }

  /** The identities used by a node and its descendants. */
  function NodeIds(x: Node): set<NodeId>
  {
    {x.id} + if x.Elem? then Ids(x.children) else {}
  }

  /** Every identity used in the forest. */
  function Ids(cs: seq<Node>): set<NodeId>
  {
    if cs == [] then {} else NodeIds(cs[0]) + Ids(cs[1..])
  }

  /** No identity is used twice within a node. */
  predicate UniqueNode(x: Node)
  {
    x.Elem? ==> x.id !in Ids(x.children) && Unique(x.children)
  }

  /** No identity is used twice. */
  predicate Unique(cs: seq<Node>)
  {
    cs == [] || (UniqueNode(cs[0]) && NodeIds(cs[0]) !! Ids(cs[1..]) && Unique(cs[1..]))
  }

  /** Every identity is below `n`: `n` is a fresh identity. */
  predicate IdsBelow(cs: seq<Node>, n: nat)
  {
    forall i :: i in Ids(cs) ==> i < n
  }

  /** The highlight wrappers within a node. */
  function NodeMarks(x: Node): seq<NodeId>
  {
    match x
    case Text(_, _) => []
    case Elem(_, _, _, ch) => MarkIds(ch)
    case Mark(id, _, _) => [id]
  }

  /** The highlight wrappers, in document order (`querySelectorAll(".search-highlight")`). */
  function MarkIds(cs: seq<Node>): seq<NodeId>
  {
    if cs == [] then [] else NodeMarks(cs[0]) + MarkIds(cs[1..])
  }

  /** The active highlight wrappers within a node. */
  function NodeActives(x: Node): seq<NodeId>
  {
    match x
    case Text(_, _) => []
    case Elem(_, _, _, ch) => Actives(ch)
    case Mark(id, _, a) => if a then [id] else []
  }

  /** The highlight wrappers carrying the `active` class, in document order. */
  function Actives(cs: seq<Node>): seq<NodeId>
  {
    if cs == [] then [] else NodeActives(cs[0]) + Actives(cs[1..])
  }

  /** Every highlight wrapper within a node holds text equal to `q` once lower-cased. */
  predicate NodeMatches(x: Node, q: string)
  {
    match x
    case Text(_, _) => true
    case Elem(_, _, _, ch) => MarksMatch(ch, q)
    case Mark(_, t, _) => Lower(t) == q
  }

  /** Every highlight wrapper holds text equal to `q` once lower-cased. */
  predicate MarksMatch(cs: seq<Node>, q: string)
  {
    cs == [] || (NodeMatches(cs[0], q) && MarksMatch(cs[1..], q))
  }

  // ---------------------------------------------------------------------
  // Splitting a forest

  lemma AppendParts(a: seq<Node>, b: seq<Node>)
    ensures a == [] ==> a + b == b
    ensures a != [] ==> (a + b)[0] == a[0] && (a + b)[1..] == a[1..] + b
  {
  }

  /** A one-node forest is observed as its node. */
  lemma Single(x: Node, q: string)
    ensures TextOf([x]) == NodeText(x) && Ids([x]) == NodeIds(x)
    ensures Unique([x]) == UniqueNode(x)
    ensures MarkIds([x]) == NodeMarks(x) && Actives([x]) == NodeActives(x)
    ensures MarksMatch([x], q) == NodeMatches(x, q)
  {
    assert [x][1..] == [];
  }

  lemma TextOfAppend(a: seq<Node>, b: seq<Node>)
    ensures TextOf(a + b) == TextOf(a) + TextOf(b)
  {
    AppendParts(a, b);
    if a != [] {
      TextOfAppend(a[1..], b);
      assert TextOf(a + b) == NodeText(a[0]) + TextOf(a[1..] + b);
    }
  }

  lemma IdsAppend(a: seq<Node>, b: seq<Node>)
    ensures Ids(a + b) == Ids(a) + Ids(b)
  {
    AppendParts(a, b);
    if a != [] {
      IdsAppend(a[1..], b);
      assert Ids(a + b) == NodeIds(a[0]) + Ids(a[1..] + b);
    }
  }

  lemma MarkIdsAppend(a: seq<Node>, b: seq<Node>)
    ensures MarkIds(a + b) == MarkIds(a) + MarkIds(b)
  {
    AppendParts(a, b);
    if a != [] {
      MarkIdsAppend(a[1..], b);
      assert MarkIds(a + b) == NodeMarks(a[0]) + MarkIds(a[1..] + b);
    }
  }

  lemma ActivesAppend(a: seq<Node>, b: seq<Node>)
    ensures Actives(a + b) == Actives(a) + Actives(b)
  {
    AppendParts(a, b);
    if a != [] {
      ActivesAppend(a[1..], b);
      assert Actives(a + b) == NodeActives(a[0]) + Actives(a[1..] + b);
    }
  }

  lemma MarksMatchAppend(a: seq<Node>, b: seq<Node>, q: string)
    ensures MarksMatch(a + b, q) <==> MarksMatch(a, q) && MarksMatch(b, q)
  {
    AppendParts(a, b);
    if a != [] {
      MarksMatchAppend(a[1..], b, q);
    }
  }

  lemma UniqueAppend(a: seq<Node>, b: seq<Node>)
    ensures Unique(a + b) <==> Unique(a) && Unique(b) && Ids(a) !! Ids(b)
  {
    AppendParts(a, b);
    if a != [] {
      UniqueAppend(a[1..], b);
      IdsAppend(a[1..], b);
    }
  }

  /** The wrappers are among the identities. */
  lemma MarkIdsInIds(cs: seq<Node>)
    ensures forall m :: m in MarkIds(cs) ==> m in Ids(cs)
  {
    if cs != [] {
      MarkIdsInIds(cs[1..]);
      if cs[0].Elem? { MarkIdsInIds(cs[0].children); }
      assert MarkIds(cs) == NodeMarks(cs[0]) + MarkIds(cs[1..]);
      assert Ids(cs) == NodeIds(cs[0]) + Ids(cs[1..]);
    }
  }

  /** With distinct identities, no wrapper is listed twice. */
  lemma {:induction false} UniqueMarkIds(cs: seq<Node>)
    requires Unique(cs)
    ensures Distinct(MarkIds(cs))
  {
    if cs != [] {
      UniqueMarkIds(cs[1..]);
      MarkIdsInIds(cs[1..]);
      var head := NodeMarks(cs[0]);
      if cs[0].Elem? {
        UniqueMarkIds(cs[0].children);
        MarkIdsInIds(cs[0].children);
      }
      assert forall m :: m in head ==> m in NodeIds(cs[0]);
      DistinctAppend(head, MarkIds(cs[1..]));
    }
  }

  lemma DistinctAppend(a: seq<NodeId>, b: seq<NodeId>)
    requires Distinct(a) && Distinct(b) && forall x :: x in a ==> x !in b
    ensures Distinct(a + b)
  {
    forall i, j | 0 <= i < j < |a + b| ensures (a + b)[i] != (a + b)[j] {
      if j < |a| {
        assert (a + b)[i] == a[i] && (a + b)[j] == a[j];
      } else if i >= |a| {
        assert (a + b)[i] == b[i - |a|] && (a + b)[j] == b[j - |a|];
      } else {
        assert (a + b)[i] == a[i] && (a + b)[j] == b[j - |a|];
        assert a[i] in a && b[j - |a|] in b;
      }
    }
  }

  /** The active wrappers are among the wrappers. */
  lemma ActivesInMarkIds(cs: seq<Node>)
    ensures forall m :: m in Actives(cs) ==> m in MarkIds(cs)
  {
    if cs != [] {
      ActivesInMarkIds(cs[1..]);
      if cs[0].Elem? { ActivesInMarkIds(cs[0].children); }
      assert MarkIds(cs) == NodeMarks(cs[0]) + MarkIds(cs[1..]);
      assert Actives(cs) == NodeActives(cs[0]) + Actives(cs[1..]);
    }
  }

  /** Without wrappers, no wrapper is active and every wrapper holds `q`. */
  lemma {:induction false} NoMarks(cs: seq<Node>, q: string)
    requires MarkIds(cs) == []
    ensures Actives(cs) == [] && MarksMatch(cs, q)
  {
    if cs != [] {
      assert MarkIds(cs) == NodeMarks(cs[0]) + MarkIds(cs[1..]);
      match cs[0]
      case Mark(_, _, _) =>
        assert false;
      case Text(_, _) =>
        NoMarks(cs[1..], q);
      case Elem(_, _, _, ch) =>
        NoMarks(ch, q);
        NoMarks(cs[1..], q);
    }
  }

  // ---------------------------------------------------------------------
  // replaceChild on a text node

  /** A node after replacing, in its parent, every text node with identity `c` by the nodes `p`. */
  function ReplaceNode(x: Node, c: NodeId, p: seq<Node>): seq<Node>
  {
    match x
    case Text(id, _) => if id == c then p else [x]
    case Elem(id, t, a, ch) => [Elem(id, t, a, Replace(ch, c, p))]
    case Mark(_, _, _) => [x]
  }

  /** Every text node with identity `c` is replaced, in its parent, by the nodes `p`. */
  function Replace(cs: seq<Node>, c: NodeId, p: seq<Node>): seq<Node>
  {
    if cs == [] then [] else ReplaceNode(cs[0], c, p) + Replace(cs[1..], c, p)
  }

  lemma ReplaceAppend(a: seq<Node>, b: seq<Node>, c: NodeId, p: seq<Node>)
    ensures Replace(a + b, c, p) == Replace(a, c, p) + Replace(b, c, p)
  {
    AppendParts(a, b);
    if a != [] {
      ReplaceAppend(a[1..], b, c, p);
      assert Replace(a + b, c, p) == ReplaceNode(a[0], c, p) + Replace(a[1..] + b, c, p);
    }
  }

  /** Replacing a node that is not in the forest changes nothing. */
  lemma ReplaceAbsent(cs: seq<Node>, c: NodeId, p: seq<Node>)
    requires c !in Ids(cs)
    ensures Replace(cs, c, p) == cs
  {
    if cs != [] {
      ReplaceAbsent(cs[1..], c, p);
      if cs[0].Elem? { ReplaceAbsent(cs[0].children, c, p); }
      assert cs == [cs[0]] + cs[1..];
    }
  }

  /** Replacing within one node by fresh, distinct nodes keeps identities distinct. */
  lemma {:induction false} ReplaceNodeUnique(x: Node, c: NodeId, p: seq<Node>)
    requires UniqueNode(x) && Unique(p) && Ids(p) !! NodeIds(x)
    ensures Unique(ReplaceNode(x, c, p))
    ensures Ids(ReplaceNode(x, c, p)) <= NodeIds(x) + Ids(p)
    ensures c !in NodeIds(x) ==> ReplaceNode(x, c, p) == [x]
    decreases x, 1
  {
    Single(x, "");
    match x
    case Text(_, _) =>
    case Mark(_, _, _) =>
    case Elem(id, t, a, ch) =>
      ReplaceUnique(ch, c, p);
      if c !in Ids(ch) {
        ReplaceAbsent(ch, c, p);
      }
      Single(Elem(id, t, a, Replace(ch, c, p)), "");
  }

  /** Replacing one node by fresh, distinct nodes keeps identities distinct. */
  lemma {:induction false} ReplaceUnique(cs: seq<Node>, c: NodeId, p: seq<Node>)
    requires Unique(cs) && Unique(p) && Ids(p) !! Ids(cs)
    ensures Unique(Replace(cs, c, p))
    ensures Ids(Replace(cs, c, p)) <= Ids(cs) + Ids(p)
    decreases cs, 0
  {
    if cs != [] {
      var x, rest := cs[0], cs[1..];
      var hx := ReplaceNode(x, c, p);
      ReplaceUnique(rest, c, p);
      ReplaceNodeUnique(x, c, p);
      if c in NodeIds(x) {
        ReplaceAbsent(rest, c, p);
      }
      UniqueAppend(hx, Replace(rest, c, p));
      IdsAppend(hx, Replace(rest, c, p));
    }
  }

  /** Replacing text nodes by nodes that hold no active wrapper keeps the active wrappers. */
  lemma {:induction false} ReplaceActives(cs: seq<Node>, c: NodeId, p: seq<Node>)
    requires Actives(p) == []
    ensures Actives(Replace(cs, c, p)) == Actives(cs)
  {
    if cs != [] {
      ReplaceActives(cs[1..], c, p);
      ActivesAppend(ReplaceNode(cs[0], c, p), Replace(cs[1..], c, p));
      Single(cs[0], "");
      match cs[0]
      case Text(_, _) =>
      case Mark(_, _, _) =>
      case Elem(id, t, a, ch) =>
        ReplaceActives(ch, c, p);
        Single(Elem(id, t, a, Replace(ch, c, p)), "");
    }
  }

  /** Replacing text nodes by nodes whose wrappers hold `q` keeps every wrapper holding `q`. */
  lemma {:induction false} ReplaceMarksMatch(cs: seq<Node>, c: NodeId, p: seq<Node>, q: string)
    requires MarksMatch(cs, q) && MarksMatch(p, q)
    ensures MarksMatch(Replace(cs, c, p), q)
  {
    if cs != [] {
      ReplaceMarksMatch(cs[1..], c, p, q);
      MarksMatchAppend(ReplaceNode(cs[0], c, p), Replace(cs[1..], c, p), q);
      Single(cs[0], q);
      match cs[0]
      case Text(_, _) =>
      case Mark(_, _, _) =>
      case Elem(id, t, a, ch) =>
        ReplaceMarksMatch(ch, c, p, q);
        Single(Elem(id, t, a, Replace(ch, c, p)), q);
    }
  }

  // ---------------------------------------------------------------------
  // The `active` class

  /** A node with `active` removed from every highlight wrapper in it. */
  function DeactivateNode(x: Node): Node
  {
    match x
    case Text(_, _) => x
    case Elem(id, t, a, ch) => Elem(id, t, a, Deactivate(ch))
    case Mark(id, s, _) => Mark(id, s, false)
  }

  /** Removes `active` from every highlight wrapper. */
  function Deactivate(cs: seq<Node>): (r: seq<Node>)
    ensures Actives(r) == []
  {
    if cs == [] then [] else [DeactivateNode(cs[0])] + Deactivate(cs[1..])
  }

  /** A node with `active` added to the highlight wrapper `m`, if it is in it. */
  function ActivateNode(x: Node, m: NodeId): Node
  {
    match x
    case Text(_, _) => x
    case Elem(id, t, a, ch) => Elem(id, t, a, Activate(ch, m))
    case Mark(id, s, a) => Mark(id, s, a || id == m)
  }

  /** Adds `active` to the highlight wrapper with identity `m`, wherever it is. */
  function Activate(cs: seq<Node>, m: NodeId): seq<Node>
  {
    if cs == [] then [] else [ActivateNode(cs[0], m)] + Activate(cs[1..], m)
  }

  /** Removing `active` where no wrapper has it changes nothing. */
  lemma {:induction false} DeactivateInactive(cs: seq<Node>)
    requires Actives(cs) == []
    ensures Deactivate(cs) == cs
  {
    if cs != [] {
      assert Actives(cs) == NodeActives(cs[0]) + Actives(cs[1..]);
      assert cs == [cs[0]] + cs[1..];
      DeactivateInactive(cs[1..]);
      match cs[0]
      case Text(_, _) =>
      case Mark(_, _, a) =>
        if a { assert false; }
      case Elem(_, _, _, ch) =>
        DeactivateInactive(ch);
    }
  }

  /** Changing `active` flags changes nothing else. */
  lemma {:induction false} FlagsInvisible(cs: seq<Node>, q: string)
    ensures TextOf(Deactivate(cs)) == TextOf(cs)
    ensures Ids(Deactivate(cs)) == Ids(cs)
    ensures MarkIds(Deactivate(cs)) == MarkIds(cs)
    ensures Unique(Deactivate(cs)) == Unique(cs)
    ensures MarksMatch(Deactivate(cs), q) == MarksMatch(cs, q)
  {
    if cs != [] {
      FlagsInvisible(cs[1..], q);
      if cs[0].Elem? { FlagsInvisible(cs[0].children, q); }
      var d := Deactivate(cs);
      assert d[0] == DeactivateNode(cs[0]) && d[1..] == Deactivate(cs[1..]);
      assert NodeIds(d[0]) == NodeIds(cs[0]);
    }
  }

  /** Activating a wrapper is invisible once flags are erased. */
  lemma {:induction false} ActivateThenErase(cs: seq<Node>, m: NodeId)
    ensures Deactivate(Activate(cs, m)) == Deactivate(cs)
  {
    if cs != [] {
      ActivateThenErase(cs[1..], m);
      if cs[0].Elem? { ActivateThenErase(cs[0].children, m); }
    }
  }

  /** Adding `active` to a wrapper changes nothing else either. */
  lemma ActivateInvisible(cs: seq<Node>, m: NodeId, q: string)
    ensures TextOf(Activate(cs, m)) == TextOf(cs) && Ids(Activate(cs, m)) == Ids(cs)
    ensures MarkIds(Activate(cs, m)) == MarkIds(cs) && Unique(Activate(cs, m)) == Unique(cs)
    ensures MarksMatch(Activate(cs, m), q) == MarksMatch(cs, q)
  {
    ActivateThenErase(cs, m);
    FlagsInvisible(Activate(cs, m), q);
    FlagsInvisible(cs, q);
  }

  /** Erasing flags twice is erasing them once. */
  lemma {:induction false} DeactivateIdempotent(cs: seq<Node>)
    ensures Deactivate(Deactivate(cs)) == Deactivate(cs)
  {
    if cs != [] {
      DeactivateIdempotent(cs[1..]);
      if cs[0].Elem? { DeactivateIdempotent(cs[0].children); }
    }
  }

  /**
    With distinct identities and no active wrapper, activating `m` makes `m`
    the single active wrapper when it is in the document, and none otherwise.
   */
  lemma {:induction false} ActivateOne(cs: seq<Node>, m: NodeId)
    requires Unique(cs) && Actives(cs) == []
    ensures Actives(Activate(cs, m)) == if m in MarkIds(cs) then [m] else []
  {
    if cs != [] {
      var x, rest := cs[0], cs[1..];
      ActivateOne(rest, m);
      MarkIdsInIds(rest);
      var ax := ActivateNode(x, m);
      assert Activate(cs, m)[0] == ax && Activate(cs, m)[1..] == Activate(rest, m);
      assert NodeActives(ax) == if m in NodeMarks(x) then [m] else [] by {
        match x
        case Text(_, _) =>
        case Mark(id, s, a) =>
        case Elem(id, t, a, ch) =>
          ActivateOne(ch, m);
          MarkIdsInIds(ch);
      }
      if m in NodeMarks(x) {
        assert m in NodeIds(x) by {
          if x.Elem? { MarkIdsInIds(x.children); }
        }
      }
    }
  }

  // ---------------------------------------------------------------------
  // Node.normalize()

  /** How many text nodes open the forest. */
  function LeadingTexts(cs: seq<Node>): (k: nat)
    ensures k <= |cs|
    ensures forall i :: 0 <= i < k ==> cs[i].Text?
    ensures k < |cs| ==> !cs[k].Text?
  {
    if cs == [] || !cs[0].Text? then 0 else 1 + LeadingTexts(cs[1..])
  }

  /**
    `normalize()` applied to a parent, as the DOM standard defines it: in
    tree order, an empty text node is removed, and a non-empty one absorbs
    the data of the text siblings that immediately follow it, which are
    removed. Element subtrees are normalized too.
   */
  function Normalize(cs: seq<Node>): seq<Node>
  {
    if cs == [] then []
    else
      match cs[0]
      case Text(id, v) =>
        if v == "" then Normalize(cs[1..])
        else
          var k := LeadingTexts(cs);
          [Text(id, v + TextOf(cs[1..k]))] + Normalize(cs[k..])
      case Elem(id, t, a, ch) => [Elem(id, t, a, Normalize(ch))] + Normalize(cs[1..])
      case Mark(_, _, _) => [cs[0]] + Normalize(cs[1..])
  }

  /** A normalized forest: no empty text node, no two adjacent text nodes, at every level. */
  predicate IsNormal(cs: seq<Node>)
  {
    cs == [] ||
    ((match cs[0]
       case Text(_, v) => v != "" && (|cs| > 1 ==> !cs[1].Text?)
       case Elem(_, _, _, ch) => IsNormal(ch)
       case Mark(_, _, _) => true) &&
     IsNormal(cs[1..]))
  }

  /** A forest that does not start with a text node normalizes to one that does not either. */
  lemma NormalizeHead(cs: seq<Node>)
    requires cs != [] && !cs[0].Text?
    ensures Normalize(cs) != [] && !Normalize(cs)[0].Text?
  {
  }

  /** `normalize()` never changes the text. */
  lemma {:induction false} NormalizeText(cs: seq<Node>)
    ensures TextOf(Normalize(cs)) == TextOf(cs)
  {
    if cs != [] {
      match cs[0]
      case Text(id, v) =>
        if v == "" {
          NormalizeText(cs[1..]);
        } else {
          var k := LeadingTexts(cs);
          NormalizeText(cs[k..]);
          assert cs[1..] == cs[1..k] + cs[k..];
          TextOfAppend(cs[1..k], cs[k..]);
          TextOfAppend([Text(id, v + TextOf(cs[1..k]))], Normalize(cs[k..]));
        }
      case Elem(id, t, a, ch) =>
        NormalizeText(ch);
        NormalizeText(cs[1..]);
        TextOfAppend([Elem(id, t, a, Normalize(ch))], Normalize(cs[1..]));
      case Mark(_, _, _) =>
        NormalizeText(cs[1..]);
        TextOfAppend([cs[0]], Normalize(cs[1..]));
    }
  }

  /** A run of text nodes holds no wrapper and only its own identities. */
  lemma TextRunFacts(cs: seq<Node>)
    requires forall i :: 0 <= i < |cs| ==> cs[i].Text?
    ensures MarkIds(cs) == [] && Actives(cs) == []
    ensures Ids(cs) == set i | 0 <= i < |cs| :: cs[i].id
  {
    if cs != [] {
      TextRunFacts(cs[1..]);
      assert Ids(cs) == {cs[0].id} + Ids(cs[1..]);
      assert forall x :: x in Ids(cs) ==> exists i :: 0 <= i < |cs| && cs[i].id == x by {
        forall x | x in Ids(cs) ensures exists i :: 0 <= i < |cs| && cs[i].id == x {
          if x != cs[0].id {
            var j :| 0 <= j < |cs[1..]| && cs[1..][j].id == x;
            assert cs[j + 1].id == x;
          }
        }
      }
    }
  }

  /** `normalize()` keeps every wrapper, its place in document order and its flag. */
  lemma {:induction false} NormalizeMarks(cs: seq<Node>)
    ensures MarkIds(Normalize(cs)) == MarkIds(cs)
    ensures Actives(Normalize(cs)) == Actives(cs)
  {
    if cs != [] {
      match cs[0]
      case Text(id, v) =>
        if v == "" {
          NormalizeMarks(cs[1..]);
          MarkIdsAppend([cs[0]], cs[1..]);
          ActivesAppend([cs[0]], cs[1..]);
          assert cs == [cs[0]] + cs[1..];
        } else {
          var k := LeadingTexts(cs);
          NormalizeMarks(cs[k..]);
          assert cs == cs[..k] + cs[k..];
          TextRunFacts(cs[..k]);
          MarkIdsAppend(cs[..k], cs[k..]);
          ActivesAppend(cs[..k], cs[k..]);
          MarkIdsAppend([Text(id, v + TextOf(cs[1..k]))], Normalize(cs[k..]));
          ActivesAppend([Text(id, v + TextOf(cs[1..k]))], Normalize(cs[k..]));
        }
      case Elem(id, t, a, ch) =>
        NormalizeMarks(ch);
        NormalizeMarks(cs[1..]);
        MarkIdsAppend([Elem(id, t, a, Normalize(ch))], Normalize(cs[1..]));
        ActivesAppend([Elem(id, t, a, Normalize(ch))], Normalize(cs[1..]));
      case Mark(_, _, _) =>
        NormalizeMarks(cs[1..]);
        MarkIdsAppend([cs[0]], Normalize(cs[1..]));
        ActivesAppend([cs[0]], Normalize(cs[1..]));
    }
  }

  /** `normalize()` only removes nodes: no new identity appears. */
  lemma {:induction false} NormalizeIds(cs: seq<Node>)
    ensures Ids(Normalize(cs)) <= Ids(cs)
  {
    if cs != [] {
      assert cs == [cs[0]] + cs[1..];
      IdsAppend([cs[0]], cs[1..]);
      match cs[0]
      case Text(id, v) =>
        if v == "" {
          NormalizeIds(cs[1..]);
        } else {
          var k := LeadingTexts(cs);
          NormalizeIds(cs[k..]);
          assert cs[1..] == cs[1..k] + cs[k..];
          IdsAppend(cs[1..k], cs[k..]);
          var h := Text(id, v + TextOf(cs[1..k]));
          IdsAppend([h], Normalize(cs[k..]));
          Single(h, "");
        }
      case Elem(id, t, a, ch) =>
        NormalizeIds(ch);
        NormalizeIds(cs[1..]);
        var h := Elem(id, t, a, Normalize(ch));
        IdsAppend([h], Normalize(cs[1..]));
        Single(h, "");
      case Mark(_, _, _) =>
        NormalizeIds(cs[1..]);
        IdsAppend([cs[0]], Normalize(cs[1..]));
    }
  }

  /** `normalize()` keeps identities distinct. */
  lemma {:induction false} NormalizeUnique(cs: seq<Node>)
    requires Unique(cs)
    ensures Unique(Normalize(cs))
  {
    if cs != [] {
      assert cs == [cs[0]] + cs[1..];
      UniqueAppend([cs[0]], cs[1..]);
      IdsAppend([cs[0]], cs[1..]);
      match cs[0]
      case Text(id, v) =>
        if v == "" {
          NormalizeUnique(cs[1..]);
        } else {
          var k := LeadingTexts(cs);
          assert cs[1..] == cs[1..k] + cs[k..];
          UniqueAppend(cs[1..k], cs[k..]);
          IdsAppend(cs[1..k], cs[k..]);
          NormalizeUnique(cs[k..]);
          NormalizeIds(cs[k..]);
          var h := Text(id, v + TextOf(cs[1..k]));
          UniqueAppend([h], Normalize(cs[k..]));
          Single(h, "");
        }
      case Elem(id, t, a, ch) =>
        NormalizeUnique(ch);
        NormalizeIds(ch);
        NormalizeUnique(cs[1..]);
        NormalizeIds(cs[1..]);
        var h := Elem(id, t, a, Normalize(ch));
        UniqueAppend([h], Normalize(cs[1..]));
        Single(h, "");
        Single(cs[0], "");
      case Mark(_, _, _) =>
        NormalizeUnique(cs[1..]);
        NormalizeIds(cs[1..]);
        UniqueAppend([cs[0]], Normalize(cs[1..]));
    }
  }

  /** `normalize()` yields a normalized forest. */
  lemma {:induction false} NormalizeIsNormal(cs: seq<Node>)
    ensures IsNormal(Normalize(cs))
  {
    if cs != [] {
      match cs[0]
      case Text(id, v) =>
        if v == "" {
          NormalizeIsNormal(cs[1..]);
        } else {
          var k := LeadingTexts(cs);
          NormalizeIsNormal(cs[k..]);
          var r := [Text(id, v + TextOf(cs[1..k]))] + Normalize(cs[k..]);
          if k < |cs| { NormalizeHead(cs[k..]); }
          assert r[1..] == Normalize(cs[k..]);
        }
      case Elem(id, t, a, ch) =>
        NormalizeIsNormal(ch);
        NormalizeIsNormal(cs[1..]);
        var r := [Elem(id, t, a, Normalize(ch))] + Normalize(cs[1..]);
        assert r[1..] == Normalize(cs[1..]);
      case Mark(_, _, _) =>
        NormalizeIsNormal(cs[1..]);
        var r := [cs[0]] + Normalize(cs[1..]);
        assert r[1..] == Normalize(cs[1..]);
    }
  }

  /** `normalize()` leaves a normalized forest as it is; so normalizing twice is normalizing once. */
  lemma {:induction false} NormalizeFixesNormal(cs: seq<Node>)
    requires IsNormal(cs)
    ensures Normalize(cs) == cs
  {
    if cs != [] {
      NormalizeFixesNormal(cs[1..]);
      assert cs == [cs[0]] + cs[1..];
      match cs[0]
      case Text(id, v) =>
        assert LeadingTexts(cs[1..]) == 0;
        assert LeadingTexts(cs) == 1;
        assert cs[1..1] == [] && TextOf(cs[1..1]) == "";
        assert v + "" == v;
      case Elem(id, t, a, ch) =>
        NormalizeFixesNormal(ch);
      case Mark(_, _, _) =>
      assert cs == [cs[0]] + cs[1..];
    }
  }

  // ---------------------------------------------------------------------
  // The document as markup

  /** One item of the document read in order: a character of text, or where an element opens or closes. */
  datatype Token = Letter(c: char) | Open(id: NodeId, tag: string, attrs: map<string, string>) | Close

  function Letters(s: string): seq<Token>
  {
    seq(|s|, i requires 0 <= i < |s| => Letter(s[i]))
  }

  function NodeMarkup(x: Node): seq<Token>
  {
    match x
    case Text(_, v) => Letters(v)
    case Elem(id, g, a, ch) => [Open(id, g, a)] + Markup(ch) + [Close]
    case Mark(_, t, _) => Letters(t)
  }

  /**
    The forest read as markup, text nodes and wrappers dissolved into their
    characters: every element with its identity, tag and attributes, where
    it opens and closes, and which characters lie between. Two forests with
    the same markup differ only in how their text is cut into nodes.
   */
  function Markup(cs: seq<Node>): seq<Token>
  {
    if cs == [] then [] else NodeMarkup(cs[0]) + Markup(cs[1..])
  }

  lemma LettersAppend(a: string, b: string)
    ensures Letters(a + b) == Letters(a) + Letters(b)
  {
  }

  lemma MarkupAppend(a: seq<Node>, b: seq<Node>)
    ensures Markup(a + b) == Markup(a) + Markup(b)
  {
    AppendParts(a, b);
    if a != [] {
      MarkupAppend(a[1..], b);
      assert Markup(a + b) == NodeMarkup(a[0]) + Markup(a[1..] + b);
    }
  }

  /** A forest of text nodes and wrappers only, without an element. */
  predicate Flat(cs: seq<Node>)
  {
    forall j :: 0 <= j < |cs| ==> !cs[j].Elem?
  }

  /** Without an element, the markup is the letters of the text. */
  lemma {:induction false} FlatMarkup(cs: seq<Node>)
    requires Flat(cs)
    ensures Markup(cs) == Letters(TextOf(cs))
  {
    if cs != [] {
      FlatMarkup(cs[1..]);
      LettersAppend(NodeText(cs[0]), TextOf(cs[1..]));
    }
  }

  /** The characters of a token sequence, in order. */
  function Chars(ts: seq<Token>): string
  {
    if ts == [] then "" else (if ts[0].Letter? then [ts[0].c] else "") + Chars(ts[1..])
  }

  lemma CharsAppend(a: seq<Token>, b: seq<Token>)
    ensures Chars(a + b) == Chars(a) + Chars(b)
  {
    if a != [] {
      assert (a + b)[1..] == a[1..] + b;
      CharsAppend(a[1..], b);
    } else {
      assert a + b == b;
    }
  }

  lemma {:induction false} CharsLetters(s: string)
    ensures Chars(Letters(s)) == s
  {
    if s != [] {
      assert Letters(s)[1..] == Letters(s[1..]);
      CharsLetters(s[1..]);
    }
  }

  /** The markup determines the text: `textContent` is the characters of the markup. */
  lemma {:induction false} MarkupText(cs: seq<Node>)
    ensures Chars(Markup(cs)) == TextOf(cs)
  {
    if cs != [] {
      MarkupText(cs[1..]);
      CharsAppend(NodeMarkup(cs[0]), Markup(cs[1..]));
      match cs[0]
      case Text(_, v) =>
        CharsLetters(v);
      case Mark(_, t, _) =>
        CharsLetters(t);
      case Elem(id, g, a, ch) =>
        MarkupText(ch);
        CharsAppend([Open(id, g, a)] + Markup(ch), [Close]);
        CharsAppend([Open(id, g, a)], Markup(ch));
    }
  }

  /** A text node that absorbs the text siblings following it reads as they did. */
  lemma MergedMarkup(x: Node, a: seq<Node>, b: seq<Node>, rest: seq<Node>)
    requires x.Text? && Flat(a) && Markup(rest) == Markup(b)
    ensures Markup([Text(x.id, x.value + TextOf(a))] + rest) == Markup([x] + a + b)
  {
    var h := Text(x.id, x.value + TextOf(a));
    assert Markup([x] + a + b) == (Letters(x.value) + Markup(a)) + Markup(b) by {
      MarkupAppend([x] + a, b);
      MarkupAppend([x], a);
      assert [x][1..] == [];
    }
    assert Markup([h] + rest) == Letters(x.value + TextOf(a)) + Markup(rest) by {
      MarkupAppend([h], rest);
      assert [h][1..] == [];
    }
    assert Letters(x.value + TextOf(a)) == Letters(x.value) + Markup(a) by {
      FlatMarkup(a);
      LettersAppend(x.value, TextOf(a));
    }
  }

  /** `normalize()` only recuts text: the markup is unchanged. */
  lemma {:induction false} NormalizeMarkup(cs: seq<Node>)
    ensures Markup(Normalize(cs)) == Markup(cs)
  {
    if cs != [] {
      match cs[0]
      case Text(id, v) =>
        if v == "" {
          NormalizeMarkup(cs[1..]);
          assert Letters(v) == [];
        } else {
          var k := LeadingTexts(cs);
          NormalizeMarkup(cs[k..]);
          MergedMarkup(cs[0], cs[1..k], cs[k..], Normalize(cs[k..]));
          assert cs == [cs[0]] + cs[1..k] + cs[k..];
        }
      case Elem(id, t, a, ch) =>
        var h := Elem(id, t, a, Normalize(ch));
        NormalizeMarkup(ch);
        NormalizeMarkup(cs[1..]);
        MarkupAppend([h], Normalize(cs[1..]));
        assert Markup([h]) == NodeMarkup(h) by { assert [h][1..] == []; }
      case Mark(_, _, _) =>
        NormalizeMarkup(cs[1..]);
        MarkupAppend([cs[0]], Normalize(cs[1..]));
        assert Markup([cs[0]]) == NodeMarkup(cs[0]) by { assert [cs[0]][1..] == []; }
    }
  }

  /** Removing `active` leaves the markup as it is. */
  lemma {:induction false} DeactivateMarkup(cs: seq<Node>)
    ensures Markup(Deactivate(cs)) == Markup(cs)
  {
    if cs != [] {
      var y := DeactivateNode(cs[0]);
      DeactivateMarkup(cs[1..]);
      if cs[0].Elem? { DeactivateMarkup(cs[0].children); }
      MarkupAppend([y], Deactivate(cs[1..]));
      assert Markup([y]) == NodeMarkup(y) by { assert [y][1..] == []; }
    }
  }

  /** Adding `active` leaves the markup as it is. */
  lemma {:induction false} ActivateMarkup(cs: seq<Node>, m: NodeId)
    ensures Markup(Activate(cs, m)) == Markup(cs)
  {
    if cs != [] {
      var y := ActivateNode(cs[0], m);
      ActivateMarkup(cs[1..], m);
      if cs[0].Elem? { ActivateMarkup(cs[0].children, m); }
      MarkupAppend([y], Activate(cs[1..], m));
      assert Markup([y]) == NodeMarkup(y) by { assert [y][1..] == []; }
    }
  }
}
