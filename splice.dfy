/**
  The match locator and fragment splicer of `highlightInRoot`: a text run
  is scanned left to right for non-overlapping occurrences of the
  lower-cased query, and rebuilt as gap text nodes, highlight wrappers
  holding the matched slices of the original text, and a trailing text
  node that is always present.

  The description has three layers: `MatchOffsets` is where the scan
  finds the query, `Pieces` cuts the text at those offsets (plain text or
  a hit), and `Build` turns the pieces into nodes numbered consecutively,
  one fresh identity per created node.
 */
module Splice {
  import opened Strings
  import opened Dom

  /** A piece of the rebuilt run: gap or trailing text, or a matched slice. */
  datatype Piece = Plain(s: string) | Hit(s: string)

  /**
    `offs` are offsets of slices of length `len` that start at or after `i`,
    follow each other without overlapping, and end by `n`.
   */
  predicate Spaced(offs: seq<nat>, i: nat, len: nat, n: nat)
    decreases |offs|
  {
    i <= n &&
    (offs == [] || (i <= offs[0] && offs[0] + len <= n && Spaced(offs[1..], offs[0] + len, len, n)))
  }

  /**
    The offsets at which the scanning loop finds `q` in `s` once it stands
    at offset `i`: `indexOf` from `i`, then from just after the occurrence.
   */
  function MatchOffsets(s: string, q: string, i: nat): (o: seq<nat>)
    requires q != [] && i <= |s|
    ensures Spaced(o, i, |q|, |s|)
    decreases |s| - i
  {
    var idx := IndexOf(s, q, i);
    if idx == -1 then [] else [idx] + MatchOffsets(s, q, idx + |q|)
  }

  /** The gap text before a hit at `idx`, when the scan stands at `i`: none when it is empty. */
  function Gap(text: string, i: nat, idx: nat): (g: seq<Piece>)
    requires i <= idx <= |text|
    ensures |g| <= 1
  {
    if idx > i then [Plain(text[i..idx])] else []
  }

  /**
    The pieces of `text[i..]` cut at the hits `offs`: the gap before each hit
    (only when it is not empty), the hit, and so on; the text after the last
    hit always ends the list, even when empty.
   */
  function Pieces(text: string, offs: seq<nat>, i: nat, len: nat): seq<Piece>
    requires Spaced(offs, i, len, |text|)
    decreases |offs|
  {
    if offs == [] then [Plain(text[i..])]
    else
      var j := offs[0] + len;
      Gap(text, i, offs[0]) + [Hit(text[offs[0]..j])] + Pieces(text, offs[1..], j, len)
  }

  /** The node created for one piece, with identity `n`. */
  function PieceNode(p: Piece, n: nat): Node
  {
    match p
    case Plain(s) => Text(n, s)
    case Hit(s) => Mark(n, s, false)
  }

  /** The nodes created for the pieces, with identities `n`, `n + 1`, ... */
  function Build(ps: seq<Piece>, n: nat): (r: seq<Node>)
    ensures |r| == |ps|
  {
    if ps == [] then [] else [PieceNode(ps[0], n)] + Build(ps[1..], n + 1)
  }

  /** The pieces a text node holding `text` is cut into when searching for `q`. */
  function Split(text: string, q: string): seq<Piece>
    requires q != []
  {
    Pieces(text, MatchOffsets(Lower(text), q, 0), 0, |q|)
  }

  /** The document fragment that replaces a text node holding `text`. */
  function Fragment(text: string, q: string, n: nat): seq<Node>
    requires q != []
  {
    Build(Split(text, q), n)
  }

  /** The concatenated text of the pieces. */
  function Concat(ps: seq<Piece>): string
  {
    if ps == [] then "" else ps[0].s + Concat(ps[1..])
  }

  /** The texts of the hits, in order. */
  function Hits(ps: seq<Piece>): seq<string>
  {
    if ps == [] then [] else (if ps[0].Hit? then [ps[0].s] else []) + Hits(ps[1..])
  }

  /** The slices of `text` of length `len` at the offsets `offs`. */
  function Slices(text: string, offs: seq<nat>, len: nat): (r: seq<string>)
    requires forall k :: 0 <= k < |offs| ==> offs[k] + len <= |text|
    ensures |r| == |offs|
  {
    if offs == [] then [] else [text[offs[0]..offs[0] + len]] + Slices(text, offs[1..], len)
  }


  // ---------------------------------------------------------------------
  // The scanning loop

  /**
    The nodes the loop still appends once it stands at offset `i` with `n`
    as the next identity: the gap and the wrapper for the next occurrence,
    and so on, then the trailing text.
   */
  function Remaining(text: string, lower: string, q: string, i: nat, n: nat): seq<Node>
    requires q != [] && i <= |text| == |lower|
    decreases |text| - i
  {
    var idx := IndexOf(lower, q, i);
    if idx == -1 then [Text(n, text[i..])]
    else
      var g := if idx > i then [Text(n, text[i..idx])] else [];
      g + [Mark(n + |g|, text[idx..idx + |q|], false)] + Remaining(text, lower, q, idx + |q|, n + |g| + 1)
  }

  /**
    The `while (true)` loop of `highlightInRoot` for one text node, with the
    trailing text appended: it returns the fragment, the wrappers it pushed
    onto `created`, and the next unused identity. What is still to come when
    the scan stands at `i` with `n` as the next identity is `Remaining`.
   */
  method Splice(text: string, lower: string, q: string, next: nat) returns (frag: seq<Node>, created: seq<NodeId>, next': nat)
    requires q != [] && |lower| == |text|
    ensures frag == Remaining(text, lower, q, 0, next)
    ensures created == MarkIds(frag)
    ensures next' == next + |frag|
  {
    var i := 0;
    frag, created, next' := [], [], next;
    ghost var whole := Remaining(text, lower, q, 0, next);
    while true
      invariant i <= |text|
      invariant frag + Remaining(text, lower, q, i, next') == whole
      invariant created == MarkIds(frag)
      invariant next' == next + |frag|
      decreases |text| - i
    {
      var idx := IndexOf(lower, q, i);
      if idx == -1 {
        break;
      }
      ghost var i0, n0, frag0, created0 := i, next', frag, created;
      if idx > i {
        var t := Text(next', text[i..idx]);
        frag := frag + [t];
        next' := next' + 1;
      }
      var mark := Mark(next', text[idx..idx + |q|], false);
      frag := frag + [mark];
      created := created + [mark.id];
      next' := next' + 1;
      i := idx + |q|;
      Advance(text, lower, q, i0, idx, n0, frag0, created0, whole, i, next', frag, created);
    }
    Finish(text, lower, q, i, next', frag, created, whole);
    var tail := Text(next', text[i..]);
    frag := frag + [tail];
    next' := next' + 1;
  }


  /**
    What one turn of the loop appends once `q` is found at `idx`: the gap
    text when it is not empty, then the wrapper, whose identity is pushed
    onto `created`; the scan resumes at `i'`, just after the occurrence.
   */
  predicate Turn(text: string, q: string, i: nat, idx: int, n: nat, frag: seq<Node>, created: seq<NodeId>,
                 i': nat, n': nat, frag': seq<Node>, created': seq<NodeId>)
  {
    i <= idx && i' == idx + |q| <= |text| &&
    if idx > i then
      n' == n + 2 && created' == created + [n + 1] &&
      frag' == frag + [Text(n, text[i..idx])] + [Mark(n + 1, text[idx..idx + |q|], false)]
    else
      n' == n + 1 && created' == created + [n] && frag' == frag + [Mark(n, text[idx..idx + |q|], false)]
  }

  /** One turn of the loop keeps the invariant. */
  lemma Advance(text: string, lower: string, q: string, i: nat, idx: int, n: nat, frag: seq<Node>, created: seq<NodeId>, whole: seq<Node>,
                i': nat, n': nat, frag': seq<Node>, created': seq<NodeId>)
    requires q != [] && i <= |text| == |lower|
    requires frag + Remaining(text, lower, q, i, n) == whole && created == MarkIds(frag)
    requires idx == IndexOf(lower, q, i) != -1
    requires Turn(text, q, i, idx, n, frag, created, i', n', frag', created')
    ensures i' <= |text|
    ensures frag' + Remaining(text, lower, q, i', n') == whole
    ensures created' == MarkIds(frag')
  {
    var rest := Remaining(text, lower, q, i', n');
    if idx > i {
      RemainingGap(text, lower, q, i, idx, n, i', n');
      ExtendGap(frag, Text(n, text[i..idx]), Mark(n + 1, text[idx..idx + |q|], false), rest, whole, created);
    } else {
      RemainingHit(text, lower, q, i, idx, n, i', n');
      ExtendHit(frag, Mark(n, text[idx..idx + |q|], false), rest, whole, created);
    }
  }

  /** The nodes the loop appends from `i` when it finds the query at `idx`, past a gap. */
  lemma RemainingGap(text: string, lower: string, q: string, i: nat, idx: nat, n: nat, i': nat, n': nat)
    requires q != [] && i < idx && i' == idx + |q| <= |text| == |lower| && n' == n + 2
    requires idx == IndexOf(lower, q, i)
    ensures Remaining(text, lower, q, i, n) ==
      [Text(n, text[i..idx])] + [Mark(n + 1, text[idx..idx + |q|], false)] + Remaining(text, lower, q, i', n')
  {
  }

  /** The nodes the loop appends from `i` when it finds the query right there. */
  lemma RemainingHit(text: string, lower: string, q: string, i: nat, idx: nat, n: nat, i': nat, n': nat)
    requires q != [] && idx == i && i' == idx + |q| <= |text| == |lower| && n' == n + 1
    requires idx == IndexOf(lower, q, i)
    ensures Remaining(text, lower, q, i, n) == [Mark(n, text[idx..idx + |q|], false)] + Remaining(text, lower, q, i', n')
  {
    assert Remaining(text, lower, q, i, n) == [] + [Mark(n, text[idx..idx + |q|], false)] + Remaining(text, lower, q, i', n');
  }

  /** The nodes still to come from `i` when the query is found at `idx`, past a gap. */
  lemma StepGap(text: string, lower: string, q: string, i: nat, idx: int, j: nat, n: nat, m: nat)
    requires q != [] && i <= |text| == |lower|
    requires idx == IndexOf(lower, q, i) && i < idx && j == idx + |q| <= |text| && m == n + 2
    ensures Build(Pieces(text, MatchOffsets(lower, q, i), i, |q|), n) ==
      [Text(n, text[i..idx])] + [Mark(n + 1, text[idx..idx + |q|], false)] + Build(Pieces(text, MatchOffsets(lower, q, j), j, |q|), m)
  {
    var g := Gap(text, i, idx);
    var rest := Pieces(text, MatchOffsets(lower, q, j), j, |q|);
    OffsetsPieces(text, lower, q, i, idx, j, g);
    BuildGapHit(text, i, idx, j, |q|, g, rest, n);
    Link(Pieces(text, MatchOffsets(lower, q, i), i, |q|), g + [Hit(text[idx..j])], rest,
         [Text(n, text[i..idx])] + [Mark(n + 1, text[idx..idx + |q|], false)], n, m);
  }

  /** The nodes still to come from `i` when the query is found right there. */
  lemma StepHit(text: string, lower: string, q: string, i: nat, idx: int, j: nat, n: nat, m: nat)
    requires q != [] && i <= |text| == |lower|
    requires idx == IndexOf(lower, q, i) && i == idx && j == idx + |q| <= |text| && m == n + 1
    ensures Build(Pieces(text, MatchOffsets(lower, q, i), i, |q|), n) ==
      [Mark(n, text[idx..idx + |q|], false)] + Build(Pieces(text, MatchOffsets(lower, q, j), j, |q|), m)
  {
    var g := Gap(text, i, idx);
    var rest := Pieces(text, MatchOffsets(lower, q, j), j, |q|);
    OffsetsPieces(text, lower, q, i, idx, j, g);
    BuildHit(text, i, idx, j, |q|, g, rest, n);
    Link(Pieces(text, MatchOffsets(lower, q, i), i, |q|), g + [Hit(text[idx..j])], rest,
         [Mark(n, text[idx..idx + |q|], false)], n, m);
  }

  /** Building equal pieces gives equal nodes. */
  lemma Link(whole: seq<Piece>, front: seq<Piece>, rest: seq<Piece>, head: seq<Node>, n: nat, m: nat)
    requires whole == front + rest && Build(front + rest, n) == head + Build(rest, m)
    ensures Build(whole, n) == head + Build(rest, m)
  {
  }

  /** Appending a gap text and a wrapper keeps the invariant's two equations. */
  lemma ExtendGap(frag: seq<Node>, t: Node, m: Node, rest: seq<Node>, whole: seq<Node>, created: seq<NodeId>)
    requires frag + ([t] + [m] + rest) == whole && created == MarkIds(frag)
    requires t.Text? && m.Mark?
    ensures frag + [t] + [m] + rest == whole
    ensures MarkIds(frag + [t] + [m]) == created + [m.id]
  {
    assert frag + ([t] + [m] + rest) == frag + [t] + [m] + rest;
    MarkIdsAppend(frag, [t]);
    MarkIdsAppend(frag + [t], [m]);
    Single(t, "");
    Single(m, "");
  }

  /** Appending a wrapper keeps the invariant's two equations. */
  lemma ExtendHit(frag: seq<Node>, m: Node, rest: seq<Node>, whole: seq<Node>, created: seq<NodeId>)
    requires frag + ([m] + rest) == whole && created == MarkIds(frag)
    requires m.Mark?
    ensures frag + [m] + rest == whole
    ensures MarkIds(frag + [m]) == created + [m.id]
  {
    assert frag + ([m] + rest) == frag + [m] + rest;
    MarkIdsAppend(frag, [m]);
    Single(m, "");
  }

  /** When the loop stops, only the trailing text remains. */
  lemma Finish(text: string, lower: string, q: string, i: nat, n: nat, frag: seq<Node>, created: seq<NodeId>, whole: seq<Node>)
    requires q != [] && i <= |text| == |lower|
    requires frag + Remaining(text, lower, q, i, n) == whole && created == MarkIds(frag)
    requires IndexOf(lower, q, i) == -1
    ensures frag + [Text(n, text[i..])] == whole
    ensures MarkIds(frag + [Text(n, text[i..])]) == created
  {
    NodeAppend(frag, Text(n, text[i..]), q);
  }

  /** The loop's nodes are the fragment: the pieces at the scan's offsets, numbered from `n`. */
  lemma RemainingIsFragment(text: string, q: string, n: nat)
    requires q != []
    ensures Remaining(text, Lower(text), q, 0, n) == Fragment(text, q, n)
  {
    RemainingIsBuild(text, Lower(text), q, 0, n);
  }

  lemma {:induction false} RemainingIsBuild(text: string, lower: string, q: string, i: nat, n: nat)
    requires q != [] && i <= |text| == |lower|
    ensures Remaining(text, lower, q, i, n) == Build(Pieces(text, MatchOffsets(lower, q, i), i, |q|), n)
    decreases |text| - i
  {
    var idx := IndexOf(lower, q, i);
    if idx == -1 {
      RemainingEnd(text, lower, q, i, n);
    } else if idx > i {
      var j := idx + |q|;
      RemainingIsBuild(text, lower, q, j, n + 2);
      RemainingGap(text, lower, q, i, idx, n, j, n + 2);
      StepGap(text, lower, q, i, idx, j, n, n + 2);
      Same(Remaining(text, lower, q, i, n), Build(Pieces(text, MatchOffsets(lower, q, i), i, |q|), n),
           [Text(n, text[i..idx])] + [Mark(n + 1, text[idx..idx + |q|], false)],
           Remaining(text, lower, q, j, n + 2), Build(Pieces(text, MatchOffsets(lower, q, j), j, |q|), n + 2));
    } else {
      var j := idx + |q|;
      RemainingIsBuild(text, lower, q, j, n + 1);
      RemainingHit(text, lower, q, i, idx, n, j, n + 1);
      StepHit(text, lower, q, i, idx, j, n, n + 1);
      Same(Remaining(text, lower, q, i, n), Build(Pieces(text, MatchOffsets(lower, q, i), i, |q|), n),
           [Mark(n, text[idx..idx + |q|], false)],
           Remaining(text, lower, q, j, n + 1), Build(Pieces(text, MatchOffsets(lower, q, j), j, |q|), n + 1));
    }
  }

  /** With no find from `i`, the loop appends the trailing text alone. */
  lemma RemainingEnd(text: string, lower: string, q: string, i: nat, n: nat)
    requires q != [] && i <= |text| == |lower| && IndexOf(lower, q, i) == -1
    ensures Remaining(text, lower, q, i, n) == Build(Pieces(text, MatchOffsets(lower, q, i), i, |q|), n)
  {
    assert MatchOffsets(lower, q, i) == [];
  }

  /** Two sequences with a common head and equal tails are equal. */
  lemma Same(a: seq<Node>, b: seq<Node>, h: seq<Node>, x: seq<Node>, y: seq<Node>)
    requires a == h + x && b == h + y && x == y
    ensures a == b
  {
  }

  /** The pieces after a find: the gap `g`, the hit, then the pieces from just after the hit. */
  lemma OffsetsPieces(text: string, lower: string, q: string, i: nat, idx: int, j: nat, g: seq<Piece>)
    requires q != [] && i <= |text| == |lower|
    requires idx == IndexOf(lower, q, i) != -1 && i <= idx && j == idx + |q| <= |text|
    requires g == Gap(text, i, idx)
    ensures Pieces(text, MatchOffsets(lower, q, i), i, |q|) ==
      g + [Hit(text[idx..j])] + Pieces(text, MatchOffsets(lower, q, j), j, |q|)
  {
    var offs, o := MatchOffsets(lower, q, i), MatchOffsets(lower, q, j);
    OffsetsCons(lower, q, i, idx, j);
    PiecesCons(text, q, i, idx, j, g, offs, o);
  }

  /** The scan's offsets from `i`: the first find, then the offsets from just after it. */
  lemma OffsetsCons(lower: string, q: string, i: nat, idx: int, j: nat)
    requires q != [] && i <= |lower|
    requires idx == IndexOf(lower, q, i) != -1 && i <= idx && j == idx + |q| <= |lower|
    ensures MatchOffsets(lower, q, i) == [idx] + MatchOffsets(lower, q, j)
  {
  }

  /** Cutting at a first hit `idx`: the gap, the hit, then the pieces after it. */
  lemma PiecesCons(text: string, q: string, i: nat, idx: int, j: nat, g: seq<Piece>, offs: seq<nat>, o: seq<nat>)
    requires i <= idx && j == idx + |q| <= |text|
    requires g == Gap(text, i, idx)
    requires Spaced(offs, i, |q|, |text|) && offs == [idx] + o
    requires Spaced(o, j, |q|, |text|)
    ensures Pieces(text, offs, i, |q|) == g + [Hit(text[idx..j])] + Pieces(text, o, j, |q|)
  {
    assert offs[0] == idx && offs[1..] == o;
  }

  /** The nodes built for a gap, a hit and the rest. */
  lemma BuildGapHit(text: string, i: nat, x: nat, j: nat, len: nat, g: seq<Piece>, rest: seq<Piece>, n: nat)
    requires i < x && j == x + len <= |text| && g == Gap(text, i, x)
    ensures Build(g + [Hit(text[x..j])] + rest, n) ==
      [Text(n, text[i..x])] + [Mark(n + 1, text[x..x + len], false)] + Build(rest, n + 2)
  {
    assert g == [Plain(text[i..x])];
    BuildThree(g, Hit(text[x..j]), rest, n);
    GapBuild(text, i, x, n);
  }

  /** The nodes built for a hit with no gap before it, and the rest. */
  lemma BuildHit(text: string, i: nat, x: nat, j: nat, len: nat, g: seq<Piece>, rest: seq<Piece>, n: nat)
    requires i == x && j == x + len <= |text| && g == Gap(text, i, x)
    ensures Build(g + [Hit(text[x..j])] + rest, n) == [Mark(n, text[x..x + len], false)] + Build(rest, n + 1)
  {
    assert g == [];
    BuildThree(g, Hit(text[x..j]), rest, n);
    assert Build(g, n) == [];
  }

  lemma BuildThree(g: seq<Piece>, h: Piece, rest: seq<Piece>, n: nat)
    ensures Build(g + [h] + rest, n) == Build(g, n) + [PieceNode(h, n + |g|)] + Build(rest, n + |g| + 1)
  {
    BuildAppend(g + [h], rest, n);
    BuildAppend(g, [h], n);
    assert Build([h], n + |g|) == [PieceNode(h, n + |g|)];
  }

  lemma GapBuild(text: string, i: nat, idx: nat, n: nat)
    requires i <= idx <= |text|
    ensures Build(Gap(text, i, idx), n) == if idx > i then [Text(n, text[i..idx])] else []
  {
    if idx > i {
      assert Build(Gap(text, i, idx), n) == [Text(n, text[i..idx])] + Build([], n + 1);
    }
  }

  /** Appending one node adds its wrapper, if it is one, at the end of the wrapper list. */
  lemma NodeAppend(frag: seq<Node>, x: Node, q: string)
    ensures MarkIds(frag + [x]) == MarkIds(frag) + NodeMarks(x)
  {
    MarkIdsAppend(frag, [x]);
    Single(x, q);
  }

  // ---------------------------------------------------------------------
  // Properties of the offsets

  /** Each offset the scan reports is an occurrence of the query. */
  lemma {:induction false} OffsetsOccur(s: string, q: string, i: nat)
    requires q != [] && i <= |s|
    ensures forall k :: 0 <= k < |MatchOffsets(s, q, i)| ==> Occurs(s, q, MatchOffsets(s, q, i)[k])
    decreases |s| - i
  {
    var idx := IndexOf(s, q, i);
    IndexOfSpec(s, q, i);
    if idx != -1 {
      var j := idx + |q|;
      OffsetsOccur(s, q, j);
      var o := MatchOffsets(s, q, i);
      var o' := MatchOffsets(s, q, j);
      assert o == [idx] + o';
      forall k | 0 <= k < |o| ensures Occurs(s, q, o[k]) {
        if k > 0 { assert o[k] == o'[k - 1]; }
      }
    }
  }

  /** Spaced offsets lie in [i, n - len], increase, and do not overlap. */
  lemma {:induction false} SpacedOrdered(offs: seq<nat>, i: nat, len: nat, n: nat)
    requires Spaced(offs, i, len, n)
    ensures forall k :: 0 <= k < |offs| ==> i <= offs[k] && offs[k] + len <= n
    ensures forall k :: 0 <= k < |offs| - 1 ==> offs[k] + len <= offs[k + 1]
    decreases |offs|
  {
    if offs != [] {
      var o' := offs[1..];
      SpacedOrdered(o', offs[0] + len, len, n);
      forall k | 0 <= k < |offs| ensures i <= offs[k] && offs[k] + len <= n {
        if k > 0 { assert offs[k] == o'[k - 1]; }
      }
      forall k | 0 <= k < |offs| - 1 ensures offs[k] + len <= offs[k + 1] {
        assert offs[k + 1] == o'[k];
        if k > 0 { assert offs[k] == o'[k - 1]; }
      }
    }
  }

  /** The scan is greedy: every occurrence at or after `i` overlaps one it found. */
  lemma {:induction false} OffsetsComplete(s: string, q: string, i: nat, k: nat)
    requires q != [] && i <= |s|
    requires i <= k && Occurs(s, q, k)
    ensures exists j :: 0 <= j < |MatchOffsets(s, q, i)| && MatchOffsets(s, q, i)[j] <= k < MatchOffsets(s, q, i)[j] + |q|
    decreases |s| - i
  {
    var idx := IndexOf(s, q, i);
    var o := MatchOffsets(s, q, i);
    IndexOfSpec(s, q, i);
    assert idx != -1;
    var o' := MatchOffsets(s, q, idx + |q|);
    assert o == [idx] + o';
    if k < idx + |q| {
      assert o[0] <= k < o[0] + |q|;
    } else {
      OffsetsComplete(s, q, idx + |q|, k);
      var j :| 0 <= j < |o'| && o'[j] <= k < o'[j] + |q|;
      assert o[j + 1] == o'[j];
    }
  }

  /** The scan finds something exactly when the text includes the query. */
  lemma OffsetsIncludes(s: string, q: string)
    requires q != []
    ensures MatchOffsets(s, q, 0) != [] <==> Includes(s, q)
  {
  }

  // ---------------------------------------------------------------------
  // Properties of the pieces

  lemma {:induction false} ConcatAppend(a: seq<Piece>, b: seq<Piece>)
    ensures Concat(a + b) == Concat(a) + Concat(b)
  {
    if a == [] {
      assert a + b == b;
    } else {
      assert (a + b)[1..] == a[1..] + b;
      ConcatAppend(a[1..], b);
    }
  }

  lemma {:induction false} HitsAppend(a: seq<Piece>, b: seq<Piece>)
    ensures Hits(a + b) == Hits(a) + Hits(b)
  {
    if a == [] {
      assert a + b == b;
    } else {
      assert (a + b)[1..] == a[1..] + b;
      HitsAppend(a[1..], b);
    }
  }

  lemma PieceAlone(p: Piece)
    ensures Concat([p]) == p.s
    ensures Hits([p]) == if p.Hit? then [p.s] else []
  {
    assert Concat([p]) == p.s + Concat([]);
    assert Hits([p]) == (if p.Hit? then [p.s] else []) + Hits([]);
  }

  lemma GapFacts(text: string, i: nat, idx: nat)
    requires i <= idx <= |text|
    ensures Concat(Gap(text, i, idx)) == text[i..idx]
    ensures Hits(Gap(text, i, idx)) == []
  {
    if idx > i {
      PieceAlone(Plain(text[i..idx]));
    }
  }

  lemma SliceThree(s: string, a: nat, b: nat, c: nat)
    requires a <= b <= c <= |s|
    ensures s[a..] == s[a..b] + s[b..c] + s[c..]
  {
  }

  /** The pieces concatenate back to `text[i..]`. */
  lemma {:induction false} PiecesText(text: string, offs: seq<nat>, i: nat, len: nat)
    requires Spaced(offs, i, len, |text|)
    ensures Concat(Pieces(text, offs, i, len)) == text[i..]
    decreases |offs|
  {
    if offs == [] {
      PieceAlone(Plain(text[i..]));
    } else {
      var j := offs[0] + len;
      var g := Gap(text, i, offs[0]);
      var h := Hit(text[offs[0]..j]);
      var rest := Pieces(text, offs[1..], j, len);
      assert Pieces(text, offs, i, len) == g + [h] + rest;
      PiecesText(text, offs[1..], j, len);
      ConcatThree(g, h, rest);
      GapFacts(text, i, offs[0]);
      SliceThree(text, i, offs[0], j);
    }
  }

  lemma ConcatThree(g: seq<Piece>, h: Piece, rest: seq<Piece>)
    ensures Concat(g + [h] + rest) == Concat(g) + h.s + Concat(rest)
  {
    ConcatAppend(g + [h], rest);
    ConcatAppend(g, [h]);
    PieceAlone(h);
  }

  /** The pieces always end with the trailing text. */
  lemma {:induction false} PiecesEndPlain(text: string, offs: seq<nat>, i: nat, len: nat)
    requires Spaced(offs, i, len, |text|)
    ensures Pieces(text, offs, i, len) != []
    ensures Pieces(text, offs, i, len)[|Pieces(text, offs, i, len)| - 1].Plain?
    decreases |offs|
  {
    if offs != [] {
      var j := offs[0] + len;
      var rest := Pieces(text, offs[1..], j, len);
      PiecesEndPlain(text, offs[1..], j, len);
      var ps := Pieces(text, offs, i, len);
      assert ps == (Gap(text, i, offs[0]) + [Hit(text[offs[0]..j])]) + rest;
      assert ps[|ps| - 1] == rest[|rest| - 1];
    }
  }


  /** The hits are the slices of the text at the offsets, in order. */
  lemma {:induction false} PiecesHits(text: string, offs: seq<nat>, i: nat, len: nat)
    requires Spaced(offs, i, len, |text|)
    ensures forall k :: 0 <= k < |offs| ==> offs[k] + len <= |text|
    ensures Hits(Pieces(text, offs, i, len)) == Slices(text, offs, len)
    decreases |offs|
  {
    SpacedOrdered(offs, i, len, |text|);
    if offs == [] {
      PieceAlone(Plain(text[i..]));
    } else {
      var j := offs[0] + len;
      var o' := offs[1..];
      var g := Gap(text, i, offs[0]);
      var h := text[offs[0]..j];
      var rest := Pieces(text, o', j, len);
      assert Pieces(text, offs, i, len) == g + [Hit(h)] + rest;
      PiecesHits(text, o', j, len);
      HitsThree(g, h, rest);
      GapFacts(text, i, offs[0]);
      assert Hits(g) + [h] + Hits(rest) == [h] + Slices(text, o', len);
    }
  }


  lemma HitsThree(g: seq<Piece>, h: string, rest: seq<Piece>)
    ensures Hits(g + [Hit(h)] + rest) == Hits(g) + [h] + Hits(rest)
  {
    HitsAppend(g + [Hit(h)], rest);
    HitsAppend(g, [Hit(h)]);
    PieceAlone(Hit(h));
  }

  // ---------------------------------------------------------------------
  // Numbering pieces

  lemma {:induction false} BuildAppend(a: seq<Piece>, b: seq<Piece>, n: nat)
    ensures Build(a + b, n) == Build(a, n) + Build(b, n + |a|)
  {
    if a == [] {
      assert a + b == b;
    } else {
      assert (a + b)[1..] == a[1..] + b;
      BuildAppend(a[1..], b, n + 1);
    }
  }

  /** The nodes are numbered consecutively from `n`, in the order of the pieces. */
  lemma {:induction false} BuildShape(ps: seq<Piece>, n: nat)
    ensures forall j :: 0 <= j < |ps| ==> Build(ps, n)[j] == PieceNode(ps[j], n + j)
  {
    if ps != [] {
      BuildShape(ps[1..], n + 1);
      var r := Build(ps, n);
      assert r[1..] == Build(ps[1..], n + 1);
      forall j | 0 <= j < |r| ensures r[j] == PieceNode(ps[j], n + j) {
        if j > 0 { assert r[j] == r[1..][j - 1]; }
      }
    }
  }

  /** The created nodes hold the text of the pieces. */
  lemma {:induction false} BuildText(ps: seq<Piece>, n: nat)
    ensures TextOf(Build(ps, n)) == Concat(ps)
  {
    if ps != [] {
      BuildText(ps[1..], n + 1);
      var x := PieceNode(ps[0], n);
      assert Build(ps, n) == [x] + Build(ps[1..], n + 1);
      TextOfAppend([x], Build(ps[1..], n + 1));
      Single(x, "");
    }
  }

  /** One wrapper is created per hit. */
  lemma {:induction false} BuildMarkCount(ps: seq<Piece>, n: nat)
    ensures |MarkIds(Build(ps, n))| == |Hits(ps)|
  {
    if ps != [] {
      BuildMarkCount(ps[1..], n + 1);
      var x := PieceNode(ps[0], n);
      var rest := Build(ps[1..], n + 1);
      assert Build(ps, n) == [x] + rest;
      MarkIdsAppend([x], rest);
      Single(x, "");
    }
  }

  /** No created wrapper is active. */
  lemma {:induction false} BuildActives(ps: seq<Piece>, n: nat)
    ensures Actives(Build(ps, n)) == []
  {
    if ps != [] {
      BuildActives(ps[1..], n + 1);
      var x := PieceNode(ps[0], n);
      var rest := Build(ps[1..], n + 1);
      assert Build(ps, n) == [x] + rest;
      ActivesAppend([x], rest);
      Single(x, "");
    }
  }

  /** Every created wrapper matches `q` exactly when every hit does. */
  lemma {:induction false} BuildMatches(ps: seq<Piece>, n: nat, q: string)
    ensures MarksMatch(Build(ps, n), q) <==> forall h :: h in Hits(ps) ==> Lower(h) == q
  {
    if ps != [] {
      BuildMatches(ps[1..], n + 1, q);
      var x := PieceNode(ps[0], n);
      var rest := Build(ps[1..], n + 1);
      assert Build(ps, n) == [x] + rest;
      MarksMatchAppend([x], rest, q);
      Single(x, q);
      if ps[0].Hit? {
        assert x == Mark(n, ps[0].s, false);
        assert Hits(ps) == [ps[0].s] + Hits(ps[1..]);
        assert ps[0].s in Hits(ps);
        assert forall h :: h in Hits(ps[1..]) ==> h in Hits(ps);
      } else {
        assert x == Text(n, ps[0].s);
        assert Hits(ps) == Hits(ps[1..]);
      }
    }
  }

  /** Nodes numbered consecutively from `n` have distinct identities, all in [n, n + length). */
  lemma {:induction false} BuildIds(ps: seq<Piece>, n: nat)
    ensures Unique(Build(ps, n))
    ensures forall x :: x in Ids(Build(ps, n)) <==> n <= x < n + |ps|
  {
    if ps != [] {
      BuildIds(ps[1..], n + 1);
      var x := PieceNode(ps[0], n);
      var rest := Build(ps[1..], n + 1);
      assert Build(ps, n) == [x] + rest;
      UniqueAppend([x], rest);
      IdsAppend([x], rest);
      Single(x, "");
    }
  }

  // ---------------------------------------------------------------------
  // Properties of the fragment

  /** The pieces of a text concatenate back to the text. */
  lemma SplitText(text: string, q: string)
    requires q != []
    ensures Concat(Split(text, q)) == text
  {
    PiecesText(text, MatchOffsets(Lower(text), q, 0), 0, |q|);
    assert text[0..] == text;
  }

  /** One hit per occurrence found, so at least one exactly when the lower-cased text includes the query. */
  lemma SplitHits(text: string, q: string)
    requires q != []
    ensures |Hits(Split(text, q))| == |MatchOffsets(Lower(text), q, 0)|
    ensures Hits(Split(text, q)) != [] <==> Includes(Lower(text), q)
  {
    FragmentHits(text, q);
    OffsetsIncludes(Lower(text), q);
  }

  /** Round trip: the fragment's text is exactly the replaced node's value. */
  lemma FragmentText(text: string, q: string, n: nat)
    requires q != []
    ensures TextOf(Fragment(text, q, n)) == text
  {
    BuildText(Split(text, q), n);
    PiecesText(text, MatchOffsets(Lower(text), q, 0), 0, |q|);
    assert text[0..] == text;
  }

  /** The fragment's nodes are distinct and numbered from `n`, one identity per node. */
  lemma FragmentIds(text: string, q: string, n: nat)
    requires q != []
    ensures Unique(Fragment(text, q, n))
    ensures forall x :: x in Ids(Fragment(text, q, n)) <==> n <= x < n + |Fragment(text, q, n)|
  {
    BuildIds(Split(text, q), n);
  }

  /** No wrapper of the fragment is active. */
  lemma FragmentActives(text: string, q: string, n: nat)
    requires q != []
    ensures Actives(Fragment(text, q, n)) == []
  {
    BuildActives(Split(text, q), n);
  }

  /** The fragment holds text nodes and wrappers only, and always ends with the trailing text node. */
  lemma FragmentShape(text: string, q: string, n: nat)
    requires q != []
    ensures Fragment(text, q, n) != [] && Fragment(text, q, n)[|Fragment(text, q, n)| - 1].Text?
    ensures forall j :: 0 <= j < |Fragment(text, q, n)| ==> !Fragment(text, q, n)[j].Elem?
  {
    BuildShape(Split(text, q), n);
    PiecesEndPlain(text, MatchOffsets(Lower(text), q, 0), 0, |q|);
  }

  /** The fragment's wrappers hold the slices of the text at the offsets where the scan found the query. */
  lemma FragmentHits(text: string, q: string)
    requires q != []
    ensures forall k :: 0 <= k < |MatchOffsets(Lower(text), q, 0)| ==> MatchOffsets(Lower(text), q, 0)[k] + |q| <= |text|
    ensures Hits(Split(text, q)) == Slices(text, MatchOffsets(Lower(text), q, 0), |q|)
  {
    PiecesHits(text, MatchOffsets(Lower(text), q, 0), 0, |q|);
  }

  /**
    There is one wrapper per non-overlapping occurrence, and at least one
    exactly when the lower-cased text includes the query.
   */
  lemma FragmentCount(text: string, q: string, n: nat)
    requires q != []
    ensures |MarkIds(Fragment(text, q, n))| == |MatchOffsets(Lower(text), q, 0)|
    ensures MarkIds(Fragment(text, q, n)) != [] <==> Includes(Lower(text), q)
  {
    FragmentHits(text, q);
    BuildMarkCount(Split(text, q), n);
    OffsetsIncludes(Lower(text), q);
  }

  /** Each wrapper holds the query once lower-cased. */
  lemma FragmentMatches(text: string, q: string, n: nat)
    requires q != []
    ensures MarksMatch(Fragment(text, q, n), q)
  {
    var o := MatchOffsets(Lower(text), q, 0);
    FragmentHits(text, q);
    OffsetsOccur(Lower(text), q, 0);
    SlicesMatch(text, q, o);
    BuildMatches(Split(text, q), n, q);
  }

  /** Slices taken where the lower-cased text holds `q` are `q` once lower-cased. */
  lemma {:induction false} SlicesMatch(text: string, q: string, o: seq<nat>)
    requires forall k :: 0 <= k < |o| ==> o[k] + |q| <= |text|
    requires forall k :: 0 <= k < |o| ==> Occurs(Lower(text), q, o[k])
    ensures forall s :: s in Slices(text, o, |q|) ==> Lower(s) == q
  {
    if o != [] {
      SlicesMatch(text, q, o[1..]);
      SliceMatch(text, q, o[0]);
    }
  }

  /** A slice taken where the lower-cased text holds `q` is `q` once lower-cased. */
  lemma SliceMatch(text: string, q: string, a: nat)
    requires Occurs(Lower(text), q, a)
    ensures a + |q| <= |text| && Lower(text[a..a + |q|]) == q
  {
    LowerSlice(text, a, a + |q|);
  }

  // ---------------------------------------------------------------------
  // Worked examples

  /** Searching "aa" in "aaaa" finds the occurrences at 0 and 2, not the one at 1. */
  lemma NonOverlappingExample()
    ensures MatchOffsets("aaaa", "aa", 0) == [0, 2]
  {
    assert IndexOf("aaaa", "aa", 0) == 0;
    assert IndexOf("aaaa", "aa", 2) == 2;
    assert IndexOf("aaaa", "aa", 4) == -1;
  }

  /**
    Searching is case-insensitive, the wrapper keeps the original case, and
    the trailing text is there even when empty.
   */
  lemma CaseInsensitiveExample()
    ensures Fragment("aHA", "ha", 0) == [Text(0, "a"), Mark(1, "HA", false), Text(2, "")]
  {
    var lower := Lower("aHA");
    assert lower == "aha" by {
      assert lower[0] == 'a' && lower[1] == 'h' && lower[2] == 'a';
    }
    assert lower[0..2] == "ah" && lower[1..3] == "ha";
    assert IndexOf(lower, "ha", 1) == 1;
    assert IndexOf(lower, "ha", 0) == 1;
    assert IndexOf(lower, "ha", 3) == -1;
    assert MatchOffsets(lower, "ha", 0) == [1] + [];
    var text := "aHA";
    assert Pieces(text, [], 3, 2) == [Plain(text[3..])];
    assert Split(text, "ha") == Gap(text, 0, 1) + [Hit(text[1..3])] + Pieces(text, [], 3, 2);
    assert text[0..1] == "a" && text[1..3] == "HA" && text[3..] == "";
  }
}
