/**
  The search session of the navigation panel: `searchInConversation`,
  `scrollToSearchResult`, `updateSearchInfo`, and the handlers of the
  search, next, previous and clear controls.

  `SearchPanel` holds what those functions share: the conversation root's
  children, the list of highlight wrappers (`searchResults`), the current
  position in it (`searchIndex`), the current term, and the parts of the
  panel the session writes (the "n of m" line, whether the controls are
  displayed, the input box).
 */
module Navigator {
  import opened Strings
  import opened Dom
  import opened Walker
  import Highlight
  import Restore

  // ---------------------------------------------------------------------
  // Wrapping the position

  /** JavaScript's `a % n`: truncating division, so the remainder takes the sign of `a`. */
  function JsRem(a: int, n: int): (r: int)
    requires n > 0
    ensures a >= 0 ==> 0 <= r < n
    ensures a < 0 ==> -n < r <= 0
  {
    if a >= 0 then a % n else -((-a) % n)
  }

  /** `((index % n) + n) % n`, the position `scrollToSearchResult` moves to in a list of `n`. */
  function Wrap(index: int, n: int): (r: nat)
    requires n > 0
    ensures r < n
  {
    JsRem(JsRem(index, n) + n, n)
  }

  /** The double remainder is the mathematical one: the position is `index` modulo `n`, whatever its sign. */
  lemma WrapIsMod(i: int, n: int)
    requires n > 0
    ensures Wrap(i, n) == i % n
  {
    if i >= 0 {
      ModUnique(i % n + n, 1, i % n, n);
    } else {
      var a := -i;
      var q, m := a / n, a % n;
      assert a == q * n + m;
      if m == 0 {
        ModUnique(i, -q, 0, n);
        ModUnique(n, 1, 0, n);
      } else {
        ModUnique(i, -q - 1, n - m, n);
        ModUnique(n - m, 0, n - m, n);
      }
    }
  }

  /** A position already in range is kept. */
  lemma WrapWithin(i: int, n: int)
    requires 0 <= i < n
    ensures Wrap(i, n) == i
  {
    WrapIsMod(i, n);
    ModUnique(i, 0, i, n);
  }

  /** "next" moves one on, from the last result to the first. */
  lemma WrapNext(i: int, n: int)
    requires 0 <= i < n
    ensures Wrap(i + 1, n) == if i == n - 1 then 0 else i + 1
  {
    WrapIsMod(i + 1, n);
    if i == n - 1 {
      ModUnique(i + 1, 1, 0, n);
    } else {
      ModUnique(i + 1, 0, i + 1, n);
    }
  }

  /** "previous" moves one back, from the first result to the last. */
  lemma WrapPrev(i: int, n: int)
    requires 0 <= i < n
    ensures Wrap(i - 1, n) == if i == 0 then n - 1 else i - 1
  {
    WrapIsMod(i - 1, n);
    if i == 0 {
      ModUnique(i - 1, -1, n - 1, n);
    } else {
      ModUnique(i - 1, 0, i - 1, n);
    }
  }

  /** Euclidean division has one remainder. */
  lemma ModUnique(x: int, q: int, r: int, n: int)
    requires n > 0 && x == q * n + r && 0 <= r < n
    ensures x % n == r
  {
    var q0, r0 := x / n, x % n;
    assert (q - q0) * n == r0 - r;
    MulSmall(q - q0, n);
  }

  lemma MulSmall(d: int, n: int)
    requires n > 0 && -n < d * n < n
    ensures d == 0
  {
    if d >= 1 {
      MulGrows(d, n);
      assert false;
    } else if d <= -1 {
      MulGrows(-d, n);
      assert false;
    }
  }

  lemma {:induction false} MulGrows(d: int, n: int)
    requires d >= 1 && n > 0
    ensures d * n >= n
    decreases d
  {
    if d > 1 {
      MulGrows(d - 1, n);
      assert d * n == (d - 1) * n + n;
    }
  }

  // ---------------------------------------------------------------------
  // The "n of m" line

  /** The template literal `${searchIndex + 1} of ${searchResults.length}`. */
  function Status(index: nat, count: nat): (r: string)
    ensures r != [] && '0' <= r[0] <= '9'
  {
    Decimal(index + 1) + " of " + Decimal(count)
  }

  /** The line tells the position and the count back. */
  lemma StatusInjective(i: nat, n: nat, j: nat, m: nat)
    requires Status(i, n) == Status(j, m)
    ensures i == j && n == m
  {
    SplitStatus(Decimal(i + 1), Decimal(n), Decimal(j + 1), Decimal(m));
    DecimalInjective(i + 1, j + 1);
    DecimalInjective(n, m);
  }

  lemma SplitStatus(x: string, y: string, u: string, v: string)
    requires Digits(x) && Digits(u) && x + " of " + y == u + " of " + v
    ensures x == u && y == v
  {
    var a, b := " of " + y, " of " + v;
    assert x + " of " + y == x + a;
    assert u + " of " + v == u + b;
    DigitsPrefix(x, a, u, b);
    assert y == a[4..] && v == b[4..];
  }

  /** The "n of m" line never reads "No results". */
  lemma StatusNotEmpty(i: nat, n: nat)
    ensures Status(i, n) != "No results"
  {
    assert "No results"[0] == 'N';
  }

  predicate Digits(s: string)
  {
    forall k :: 0 <= k < |s| ==> '0' <= s[k] <= '9'
  }

  /** How many digits `s` starts with. */
  function LeadingDigits(s: string): (k: nat)
    ensures k <= |s|
  {
    if s == [] || !('0' <= s[0] <= '9') then 0 else 1 + LeadingDigits(s[1..])
  }

  lemma {:induction false} LeadingDigitsOf(a: string, s: string)
    requires Digits(a) && s != [] && !('0' <= s[0] <= '9')
    ensures LeadingDigits(a + s) == |a|
  {
    if a == [] {
      assert a + s == s;
    } else {
      assert (a + s)[0] == a[0] && (a + s)[1..] == a[1..] + s;
      LeadingDigitsOf(a[1..], s);
    }
  }

  /** A string of digits followed by a non-digit is split in one way only. */
  lemma DigitsPrefix(a: string, s: string, c: string, t: string)
    requires Digits(a) && s != [] && !('0' <= s[0] <= '9')
    requires Digits(c) && t != [] && !('0' <= t[0] <= '9')
    requires a + s == c + t
    ensures a == c && s == t
  {
    LeadingDigitsOf(a, s);
    LeadingDigitsOf(c, t);
    assert a == (a + s)[..|a|] && s == (a + s)[|a|..];
    assert c == (c + t)[..|c|] && t == (c + t)[|c|..];
  }

  /**
    The page a search for `s` leaves before its first result is made
    current: the document cleared of highlights (fresh identities from
    `next`), then highlighted under the root whose ancestors are `above`.
   */
  function Searched(doc: seq<Node>, next: nat, above: seq<Ancestor>, s: string): seq<Node>
    requires s != []
  {
    Highlight.Highlighted(Restore.Cleared(doc, next), above, s, next + |MarkIds(doc)|)
  }

  /** The first identity still unused after a search for `s`: one per wrapper unwrapped, then one per fragment node. */
  function SearchedNext(doc: seq<Node>, next: nat, above: seq<Ancestor>, s: string): nat
    requires s != []
  {
    next + |MarkIds(doc)| + Highlight.Used(Restore.Cleared(doc, next), above, s, next + |MarkIds(doc)|)
  }

  lemma SearchedIs(doc: seq<Node>, next: nat, above: seq<Ancestor>, s: string, d: seq<Node>, n: nat)
    requires s != [] && d == Restore.Cleared(doc, next) && n == next + |MarkIds(doc)|
    ensures Searched(doc, next, above, s) == Highlight.Highlighted(d, above, s, n)
    ensures SearchedNext(doc, next, above, s) == n + Highlight.Used(d, above, s, n)
  {
  }

  /**
    Search followed by clear gives back the page: on a page whose
    identities are distinct, clearing what a search for `s` left, with or
    without a current result, restores every element, its attributes and
    the characters inside it, and so the text.
   */
  lemma SearchThenClear(doc: seq<Node>, next: nat, above: seq<Ancestor>, s: string, m: NodeId, k: nat)
    requires s != [] && Unique(doc) && IdsBelow(doc, next)
    ensures Markup(Restore.Cleared(Searched(doc, next, above, s), k)) == Markup(doc)
    ensures Markup(Restore.Cleared(Activate(Searched(doc, next, above, s), m), k)) == Markup(doc)
    ensures TextOf(Restore.Cleared(Activate(Searched(doc, next, above, s), m), k)) == TextOf(doc)
  {
    var n := next + |MarkIds(doc)|;
    var d := Restore.Cleared(doc, next);
    var h := Searched(doc, next, above, s);
    var c := Restore.Cleared(Activate(h, m), k);
    assert Markup(d) == Markup(doc) by {
      Restore.ClearedMarkup(doc, next);
    }
    assert Markup(h) == Markup(d) by {
      SearchedIs(doc, next, above, s, d, n);
      UniqueMarkIds(doc);
      Restore.ClearAllFacts(doc, MarkIds(doc), next);
      Highlight.HighlightMarkup(d, above, s, n);
    }
    assert Markup(c) == Markup(h) by {
      ActivateMarkup(h, m);
      Restore.ClearedMarkup(Activate(h, m), k);
    }
    Restore.ClearedMarkup(h, k);
    MarkupText(c);
    MarkupText(doc);
  }

  /** What a search leaves in a document cleared of highlights: the wrappers created, none of them active, the text and markup unchanged. */
  lemma Found(d: seq<Node>, above: seq<Ancestor>, s: string, n: nat, h: seq<Node>, created: seq<NodeId>)
    requires s != [] && Unique(d) && MarkIds(d) == [] && Actives(d) == []
    requires h == Highlight.Highlighted(d, above, s, n)
    requires created == Highlight.Marks(Highlight.Numbered(Highlight.Splits(Candidates(d, above, Lower(s)), Lower(s)), n))
    requires Actives(h) == Actives(d)
    ensures created == MarkIds(h) && Actives(h) == [] && Deactivate(h) == h && TextOf(h) == TextOf(d)
    ensures Markup(h) == Markup(d)
  {
    Highlight.HighlightMarks(d, above, s, n);
    Highlight.HighlightText(d, above, s, n);
    Highlight.HighlightMarkup(d, above, s, n);
    DeactivateInactive(h);
  }

  // ---------------------------------------------------------------------
  // The session

  class SearchPanel {
    /** The children of the conversation root. */
    var doc: seq<Node>
    /** The root and its ancestors, nearest first. */
    var above: seq<Ancestor>
    /** The first identity no node has. */
    var next: nat
    /** `searchResults`: the wrappers of the last search, in document order. */
    var results: seq<NodeId>
    /** `searchIndex`. */
    var index: int
    /** `currentSearchTerm`. */
    var term: string
    /** The text of `#search-info`. */
    var info: string
    /** `#search-controls` is displayed. */
    var shown: bool
    /** The value of `#search-input`. */
    var input: string

    /**
      What the session keeps between events: identities distinct and below
      `next`; the results are exactly the wrappers in the document, in
      document order, each holding the term; the position is inside the
      list (0 when it is empty); there are no results without a term.
     */
    ghost predicate Consistent()
      reads this
    {
      Unique(doc) && IdsBelow(doc, next) && results == MarkIds(doc) &&
      (if results == [] then index == 0 else 0 <= index < |results|) &&
      MarksMatch(doc, Lower(term)) && (term == [] ==> results == [])
    }

    /** The panel shows "n of m" for the current result, "No results" after a search that found nothing, and nothing without a term. */
    ghost predicate Shows()
      reads this
    {
      shown == (results != [] || term != []) &&
      (results != [] && index >= 0 ==> info == Status(index, |results|)) &&
      (results == [] && term != [] ==> info == "No results")
    }

    /** Between events: consistent, the current result (and only it) is active, and the panel says where it is. */
    ghost predicate Valid()
      reads this
    {
      Consistent() && Shows() &&
      Actives(doc) == (if results == [] then [] else [results[index]])
    }

    /** The panel as `createNavigationPanel` builds it, over a page without highlights. */
    constructor(doc0: seq<Node>, above0: seq<Ancestor>, next0: nat)
      requires Unique(doc0) && IdsBelow(doc0, next0) && MarkIds(doc0) == []
      ensures Valid()
      ensures doc == doc0 && above == above0 && next == next0
      ensures results == [] && index == 0 && term == [] && info == "0 of 0" && !shown && input == []
    {
      doc, above, next := doc0, above0, next0;
      results, index, term := [], 0, [];
      info, shown, input := "0 of 0", false, [];
      NoMarks(doc0, Lower([]));
    }

    /** `updateSearchInfo()`: only the info line and the display of the controls change. */
    method UpdateInfo()
      requires Consistent()
      modifies this
      ensures doc == old(doc) && above == old(above) && next == old(next) && results == old(results)
      ensures index == old(index) && term == old(term) && input == old(input)
      ensures results != [] ==> info == Status(index, |results|) && shown
      ensures results == [] && term != [] ==> info == "No results" && shown
      ensures results == [] && term == [] ==> info == old(info) && !shown
      ensures Consistent() && Shows()
    {
      if |results| > 0 {
        info := Status(index, |results|);
        shown := true;
      } else if term != [] {
        info := "No results";
        shown := true;
      } else {
        shown := false;
      }
    }

    /**
      `scrollToSearchResult(i)`: with no results nothing happens; otherwise
      every `active` flag is removed, the position becomes `i` wrapped into
      the list, and that wrapper alone is made active.
     */
    method ScrollTo(i: int)
      requires Consistent()
      modifies this
      ensures Consistent()
      ensures above == old(above) && next == old(next) && results == old(results)
      ensures term == old(term) && info == old(info) && shown == old(shown) && input == old(input)
      ensures old(results) == [] ==> doc == old(doc) && index == old(index)
      ensures old(results) != [] ==>
        (index == Wrap(i, |results|) && doc == Activate(Deactivate(old(doc)), results[index]) &&
         Actives(doc) == [results[index]])
      ensures TextOf(doc) == TextOf(old(doc)) && Markup(doc) == Markup(old(doc))
    {
      if |results| == 0 {
        return;
      }
      FlagsInvisible(doc, Lower(term));
      DeactivateMarkup(doc);
      doc := Deactivate(doc);
      index := Wrap(i, |results|);
      var m := results[index];
      ActivateInvisible(doc, m, Lower(term));
      ActivateOne(doc, m);
      ActivateMarkup(doc, m);
      doc := Activate(doc, m);
    }

    /**
      `searchInConversation(t)`. A blank term clears the highlights and
      hides the controls. Any other term, trimmed, is highlighted in a
      document cleared of earlier highlights; the wrappers created become
      the results and the first of them is made active.
     */
    method Search(t: string)
      requires Valid()
      modifies this
      ensures Valid()
      ensures above == old(above) && input == old(input) && term == Trim(t)
      ensures TextOf(doc) == TextOf(old(doc)) && Markup(doc) == Markup(old(doc))
      ensures Trim(t) == [] ==>
        doc == Restore.Cleared(old(doc), old(next)) && next == old(next) + |MarkIds(old(doc))| &&
        MarkIds(doc) == [] && results == [] && !shown && info == old(info)
      ensures Trim(t) != [] ==>
        index == 0 && shown && next == SearchedNext(old(doc), old(next), above, Trim(t)) &&
        doc == (if results == [] then Searched(old(doc), old(next), above, Trim(t))
                else Activate(Searched(old(doc), old(next), above, Trim(t)), results[0]))
    {
      var s := Trim(t);
      var d, n := Restore.ClearHighlights(doc, next);
      if s == [] {
        Reset(d, n);
        return;
      }
      NoMarks(d, Lower(s));
      var h, created, n' := Highlight.HighlightInRoot(d, above, s, n);
      Found(d, above, s, n, h, created);
      Show(h, n', created, s);
      SearchedIs(old(doc), old(next), above, s, d, n);
    }

    /** `searchResults = []`, `searchIndex = 0`, `currentSearchTerm = ""` and `updateSearchInfo()`, on a document cleared of highlights. */
    method Reset(d: seq<Node>, n: nat)
      requires Unique(d) && IdsBelow(d, n) && MarkIds(d) == []
      modifies this
      ensures Valid()
      ensures doc == d && next == n && results == [] && index == 0 && term == [] && !shown
      ensures above == old(above) && input == old(input) && info == old(info)
    {
      NoMarks(d, Lower([]));
      doc, next, results, index, term := d, n, [], 0, [];
      UpdateInfo();
    }

    /**
      The end of a search for `s` whose highlighting left `h`: the wrappers
      created become the results, the panel is updated, and the first
      result, if any, is made current.
     */
    method Show(h: seq<Node>, n: nat, created: seq<NodeId>, s: string)
      requires s != [] && Unique(h) && IdsBelow(h, n) && created == MarkIds(h)
      requires Actives(h) == [] && Deactivate(h) == h && MarksMatch(h, Lower(s))
      modifies this
      ensures Valid()
      ensures next == n && results == created && index == 0 && term == s && shown
      ensures doc == (if created == [] then h else Activate(h, created[0]))
      ensures TextOf(doc) == TextOf(h) && Markup(doc) == Markup(h)
      ensures above == old(above) && input == old(input)
    {
      doc, next, results, index, term := h, n, created, 0, s;
      UpdateInfo();
      if |results| > 0 {
        WrapWithin(0, |results|);
        ScrollTo(0);
      }
    }

    /** The search button, or Enter in the input box: `searchInConversation(searchInput.value)`. */
    method Submit()
      requires Valid()
      modifies this
      ensures Valid()
      ensures above == old(above) && input == old(input) && term == Trim(old(input))
      ensures TextOf(doc) == TextOf(old(doc)) && Markup(doc) == Markup(old(doc))
      ensures Trim(old(input)) == [] ==>
        doc == Restore.Cleared(old(doc), old(next)) && next == old(next) + |MarkIds(old(doc))| &&
        MarkIds(doc) == [] && results == [] && !shown && info == old(info)
      ensures Trim(old(input)) != [] ==>
        index == 0 && shown && next == SearchedNext(old(doc), old(next), above, Trim(old(input))) &&
        doc == (if results == [] then Searched(old(doc), old(next), above, Trim(old(input)))
                else Activate(Searched(old(doc), old(next), above, Trim(old(input))), results[0]))
    {
      Search(input);
    }

    /** The next control: the following result becomes current, the last one wrapping to the first. */
    method Next()
      requires Valid()
      modifies this
      ensures Valid()
      ensures results == old(results) && term == old(term) && input == old(input) && TextOf(doc) == TextOf(old(doc))
      ensures above == old(above) && next == old(next) && Markup(doc) == Markup(old(doc))
      ensures results == [] ==> doc == old(doc) && index == old(index) && info == old(info) && shown == old(shown)
      ensures results != [] ==>
        (index == (if old(index) == |results| - 1 then 0 else old(index) + 1) &&
         doc == Activate(Deactivate(old(doc)), results[index]))
    {
      if |results| > 0 {
        WrapNext(index, |results|);
        ScrollTo(index + 1);
      }
      UpdateInfo();
    }

    /** The previous control: the preceding result becomes current, the first one wrapping to the last. */
    method Prev()
      requires Valid()
      modifies this
      ensures Valid()
      ensures results == old(results) && term == old(term) && input == old(input) && TextOf(doc) == TextOf(old(doc))
      ensures above == old(above) && next == old(next) && Markup(doc) == Markup(old(doc))
      ensures results == [] ==> doc == old(doc) && index == old(index) && info == old(info) && shown == old(shown)
      ensures results != [] ==>
        (index == (if old(index) == 0 then |results| - 1 else old(index) - 1) &&
         doc == Activate(Deactivate(old(doc)), results[index]))
    {
      if |results| > 0 {
        WrapPrev(index, |results|);
        ScrollTo(index - 1);
      }
      UpdateInfo();
    }

    /**
      The clear control: empties the input box, removes every highlight and
      hides the controls; the info line keeps its last text. On a page
      without highlights the document is left as it is.
     */
    method Clear()
      requires Valid()
      modifies this
      ensures Valid()
      ensures input == [] && results == [] && index == 0 && term == [] && !shown && info == old(info)
      ensures doc == Restore.Cleared(old(doc), old(next)) && next == old(next) + |MarkIds(old(doc))|
      ensures MarkIds(old(doc)) == [] ==> doc == old(doc)
      ensures MarkIds(doc) == [] && TextOf(doc) == TextOf(old(doc)) && Markup(doc) == Markup(old(doc))
      ensures above == old(above)
    {
      input := [];
      var d, n := Restore.ClearHighlights(doc, next);
      Reset(d, n);
    }
  }
}
