/** The leaves of a tree by descent, and the chain of next pointers: they are the same list. */
module TreeOrder {
  import opened Layout
  import opened Tree
  import opened TreeSteps

  /** The leaves below x from left to right, found through child pointers alone. */
  ghost function LeavesUnder(pages: seq<Node>, level: map<nat, nat>, x: nat): seq<nat>
    requires Shape(pages, level) && x in level
    decreases level[x], 1, 0
  {
    assert Descends(pages, level, x);
    if pages[x].Internal? then LeavesOf(pages, level, pages[x].children, level[x]) else [x]
  }

  ghost function LeavesOf(pages: seq<Node>, level: map<nat, nat>, cs: seq<nat>, above: nat): seq<nat>
    requires Shape(pages, level)
    requires forall i :: 0 <= i < |cs| ==> cs[i] in level && level[cs[i]] < above
    decreases above, 0, |cs|
  {
    if cs == [] then [] else LeavesUnder(pages, level, cs[0]) + LeavesOf(pages, level, cs[1..], above)
  }

  /** Leaves a..b of the chain are those whose intervals make up (lo, hi]. */
  ghost predicate Segment(g: View, a: nat, b: nat, lo: int, hi: int) {
    && a < b <= |g.order|
    && g.order[a] in g.lo && g.lo[g.order[a]] == lo
    && g.order[b - 1] in g.hi && g.hi[g.order[b - 1]] == hi
  }

  /** The leaves below a page are consecutive in the chain. */
  lemma {:induction false} PageSegment(pages: seq<Node>, g: View, t: Table, x: nat) returns (a: nat, b: nat)
    requires Inv(pages, g, t, 0) && x in g.level && Shape(pages, g.level)
    ensures Segment(g, a, b, g.lo[x], g.hi[x])
    ensures LeavesUnder(pages, g.level, x) == g.order[a..b]
    decreases g.level[x], 1, 0
  {
    assert PageOk(pages, g, t, 0, x);
    assert Descends(pages, g.level, x);
    if pages[x].Internal? {
      a, b := ChildrenSegment(pages, g, t, x, 0);
      assert pages[x].children[0..] == pages[x].children;
    } else {
      a := LeafPlace(pages, g, t, 0, x);
      b := a + 1;
      assert g.order[a..b] == [x];
    }
  }

  lemma ChildSpan(pages: seq<Node>, g: View, t: Table, x: nat, i: nat)
    requires Inv(pages, g, t, 0) && x in g.level && pages[x].Internal? && i < |pages[x].children|
    ensures InternalOk(pages, g, 0, x) && ChildOk(pages, g, x, i)
    ensures forall j :: 0 <= j < |pages[x].children| ==>
              pages[x].children[j] in g.level && g.level[pages[x].children[j]] < g.level[x]
  {
    assert PageOk(pages, g, t, 0, x);
    assert ChildOk(pages, g, x, i);
    forall j | 0 <= j < |pages[x].children|
      ensures pages[x].children[j] in g.level && g.level[pages[x].children[j]] < g.level[x]
    {
      assert ChildOk(pages, g, x, j);
    }
  }

  /** Segments that meet at a boundary meet in the chain. */
  lemma SegmentsMeet(pages: seq<Node>, g: View, t: Table, a: nat, m: nat, m': nat, b: nat, lo: int, mid: int, hi: int)
    requires Inv(pages, g, t, 0) && Segment(g, a, m, lo, mid) && Segment(g, m', b, mid, hi)
    ensures m == m' && Segment(g, a, b, lo, hi)
  {
    if m' < m {
      if m' < m - 1 { OrderSorted(pages, g, t, 0, m', m - 1); }
    } else if m < m' {
      OrderSorted(pages, g, t, 0, m, m');
    }
  }

  lemma {:induction false} ChildrenSegment(pages: seq<Node>, g: View, t: Table, x: nat, i: nat) returns (a: nat, b: nat)
    requires Inv(pages, g, t, 0) && x in g.level && Shape(pages, g.level)
    requires pages[x].Internal? && i < |pages[x].children|
    ensures InternalOk(pages, g, 0, x)
    ensures forall j :: i <= j < |pages[x].children| ==>
              pages[x].children[j] in g.level && g.level[pages[x].children[j]] < g.level[x]
    ensures Segment(g, a, b, if i == 0 then g.lo[x] else pages[x].keys[i - 1], g.hi[x])
    ensures LeavesOf(pages, g.level, pages[x].children[i..], g.level[x]) == g.order[a..b]
    decreases g.level[x], 0, |pages[x].children| - i
  {
    ChildSpan(pages, g, t, x, i);
    var cs := pages[x].children;
    var m;
    a, m := PageSegment(pages, g, t, cs[i]);
    assert cs[i..][1..] == cs[i + 1..];
    if i + 1 < |cs| {
      var m';
      m', b := ChildrenSegment(pages, g, t, x, i + 1);
      SegmentsMeet(pages, g, t, a, m, m', b, g.lo[cs[i]], g.hi[cs[i]], g.hi[x]);
      assert g.order[a..m] + g.order[m..b] == g.order[a..b];
    } else {
      b := m;
      assert LeavesOf(pages, g.level, cs[i..][1..], g.level[x]) == [];
    }
  }

  /** The list of leaves found by descent from the root is the chain that starts at the leftmost
      leaf, follows next, names no leaf twice and ends at page number 0. */
  lemma ChainIsInOrder(pages: seq<Node>, g: View, t: Table)
    requires Inv(pages, g, t, 0) && Shape(pages, g.level)
    ensures var leaves := LeavesUnder(pages, g.level, t.root);
            && leaves == g.order && |leaves| >= 1
            && (forall i :: 0 <= i < |leaves| ==> leaves[i] < |pages| && pages[leaves[i]].Leaf?)
            && (forall i :: 0 <= i < |leaves| - 1 ==> pages[leaves[i]].next == leaves[i + 1])
            && pages[Last(leaves)].next == 0
            && (forall i, j :: 0 <= i < j < |leaves| ==> leaves[i] != leaves[j])
  {
    var a, b := PageSegment(pages, g, t, t.root);
    if a > 0 { OrderSorted(pages, g, t, 0, 0, a); }
    if b < |g.order| { OrderSorted(pages, g, t, 0, b - 1, |g.order| - 1); }
    assert g.order[a..b] == g.order;
    forall i, j | 0 <= i < j < |g.order| ensures g.order[i] != g.order[j] {
      OrderSorted(pages, g, t, 0, i, j);
    }
  }

  /** No page is the child of two pages, or twice of one. */
  lemma NoPageShared(pages: seq<Node>, g: View, t: Table, x: nat, i: nat, y: nat, j: nat)
    requires Inv(pages, g, t, 0) && x in g.level && y in g.level && pages[x].Internal? && pages[y].Internal?
    requires i < |pages[x].children| && j < |pages[y].children| && pages[x].children[i] == pages[y].children[j]
    ensures x == y && i == j
  {
    assert PageOk(pages, g, t, 0, x) && PageOk(pages, g, t, 0, y);
    assert ChildOk(pages, g, x, i) && ChildOk(pages, g, y, j);
    assert KeysOk(pages, g, x);
  }
}
