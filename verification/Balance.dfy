/** Balance: how full a tree of a given height must be. */
module Balance {
  import opened Layout
  import opened Tree
  import opened TreeLeaf
  import opened TreeHalves
  import opened TreeContents
  import opened TreeLeafUp
  import opened TreeOrder
  import opened TreeInsert

  function Pow(b: nat, e: nat): nat { if e == 0 then 1 else b * Pow(b, e - 1) }

  lemma {:induction false} PowMonotone(b: nat, e: nat, e': nat)
    requires b >= 1 && e <= e'
    ensures 1 <= Pow(b, e) <= Pow(b, e')
  {
    if e < e' {
      PowMonotone(b, e, e' - 1);
      assert Pow(b, e' - 1) * 1 <= b * Pow(b, e' - 1);
    } else if e > 0 {
      PowMonotone(b, e - 1, e - 1);
      assert 1 * 1 <= b * Pow(b, e - 1);
    }
  }

  /** The depth of every leaf below the root: levels fall by one from parent to child. */
  ghost predicate Uniform(pages: seq<Node>, level: map<nat, nat>) {
    forall x {:trigger Descends(pages, level, x)} :: x in level ==>
      && Descends(pages, level, x)
      && (pages[x].Leaf? ==> level[x] == 0)
      && (pages[x].Internal? ==> forall i :: 0 <= i < |pages[x].children| ==> level[pages[x].children[i]] + 1 == level[x])
  }

  /** All leaves are equally deep: every path from the root has as many steps as the root's level. */
  lemma AllLeavesEquallyDeep(pages: seq<Node>, g: View, t: Table)
    requires Inv(pages, g, t, 0)
    ensures Uniform(pages, g.level)
    ensures forall x :: x in g.level && x != t.root ==>
              var y := pages[x].parent; y in g.level && pages[y].Internal? && x in pages[y].children && g.level[y] == g.level[x] + 1
  {
    InvShape(pages, g, t, 0);
    forall x | x in g.level
      ensures Descends(pages, g.level, x)
      ensures pages[x].Leaf? ==> g.level[x] == 0
      ensures pages[x].Internal? ==> forall i :: 0 <= i < |pages[x].children| ==> g.level[pages[x].children[i]] + 1 == g.level[x]
    {
      assert Descends(pages, g.level, x);
      assert PageOk(pages, g, t, 0, x);
      if pages[x].Internal? {
        forall i | 0 <= i < |pages[x].children| ensures g.level[pages[x].children[i]] + 1 == g.level[x] {
          assert ChildOk(pages, g, x, i);
        }
      }
    }
    forall x | x in g.level && x != t.root
      ensures var y := pages[x].parent; y in g.level && pages[y].Internal? && x in pages[y].children && g.level[y] == g.level[x] + 1
    {
      PageBelowParent(pages, g, t, 0, x);
    }
  }

  lemma {:induction false} ManyLeaves(pages: seq<Node>, g: View, t: Table, x: nat)
    requires Inv(pages, g, t, 0) && Shape(pages, g.level) && MinKeys(pages, g, t) && x in g.level && x != t.root
    ensures |LeavesUnder(pages, g.level, x)| >= Pow(SPLIT, g.level[x])
    decreases g.level[x], 1, 0
  {
    assert Descends(pages, g.level, x);
    assert PageOk(pages, g, t, 0, x);
    if pages[x].Internal? {
      ChildSpan(pages, g, t, x, 0);
      var m := Pow(SPLIT, g.level[x] - 1);
      ManyLeavesOf(pages, g, t, x, pages[x].children, m);
      assert |pages[x].keys| >= SPLIT - 1;
      assert |pages[x].children| * m >= SPLIT * m;
    }
  }

  lemma {:induction false} ManyLeavesOf(pages: seq<Node>, g: View, t: Table, x: nat, cs: seq<nat>, m: nat)
    requires Inv(pages, g, t, 0) && Shape(pages, g.level) && MinKeys(pages, g, t) && x in g.level && pages[x].Internal?
    requires g.level[x] >= 1 && m == Pow(SPLIT, g.level[x] - 1)
    requires forall i :: 0 <= i < |cs| ==> cs[i] in pages[x].children
    requires forall i :: 0 <= i < |cs| ==> cs[i] in g.level && g.level[cs[i]] < g.level[x]
    ensures |LeavesOf(pages, g.level, cs, g.level[x])| >= |cs| * m
    decreases g.level[x], 0, |cs|
  {
    if cs != [] {
      assert cs[0] in pages[x].children;
      var i :| 0 <= i < |pages[x].children| && pages[x].children[i] == cs[0];
      ChildSpan(pages, g, t, x, i);
      RootTop(pages, g, t, 0);
      ManyLeaves(pages, g, t, cs[0]);
      ManyLeavesOf(pages, g, t, x, cs[1..], m);
      hide Inv, Pow, MinKeys, ChildOk, InternalOk;
      OneMore(|cs[1..]|, m);
    }
  }

  lemma OneMore(a: nat, m: nat)
    ensures (a + 1) * m == m + a * m
  {
  }

  lemma {:induction false} ManyCells(pages: seq<Node>, order: seq<nat>, m: nat)
    requires forall i :: 0 <= i < |order| ==> |CellsAt(pages, order[i])| >= m
    ensures |Contents(pages, order)| >= |order| * m
  {
    if order != [] {
      assert |CellsAt(pages, order[0])| >= m;
      ManyCells(pages, order[1..], m);
      assert |order| * m == m + |order[1..]| * m;
    }
  }

  lemma {:induction false} DistinctBelow(s: seq<nat>, n: nat)
    requires forall i :: 0 <= i < |s| ==> s[i] < n
    requires forall i, j :: 0 <= i < j < |s| ==> s[i] != s[j]
    ensures |s| <= n
  {
    assert s == [] || s[0] < n;
    if n == 0 {
    } else if n - 1 in s {
      var i :| 0 <= i < |s| && s[i] == n - 1;
      DistinctBelow(s[..i] + s[i + 1..], n - 1);
    } else {
      DistinctBelow(s, n - 1);
    }
  }

  lemma Times(a: nat, b: nat, m: nat)
    requires a >= b
    ensures a * m >= b * m
  {
  }

  lemma RootNeedsLeaves(pages: seq<Node>, g: View, t: Table, h: nat)
    requires Inv(pages, g, t, 0) && Shape(pages, g.level) && MinKeys(pages, g, t)
    requires h == g.level[t.root] && h >= 1
    ensures |LeavesUnder(pages, g.level, t.root)| >= 2 * Pow(SPLIT, h - 1) && pages[t.root].Internal?
  {
    assert Descends(pages, g.level, t.root);
    assert PageOk(pages, g, t, 0, t.root);
    ChildSpan(pages, g, t, t.root, 0);
    var m := Pow(SPLIT, h - 1);
    ManyLeavesOf(pages, g, t, t.root, pages[t.root].children, m);
    assert |pages[t.root].keys| >= 1;
    hide Inv, Shape, MinKeys, Pow;
    Times(|pages[t.root].children|, 2, m);
  }

  /** A tree with h >= 1 internal levels whose pages are as full as inserts leave them holds at
      least 2 * 255^(h-1) leaves and that many times half a leaf of cells. */
  lemma HeightNeedsCells(pages: seq<Node>, g: View, t: Table, h: nat)
    requires Inv(pages, g, t, 0) && MinKeys(pages, g, t) && MinCells(pages, g, t)
    requires h == g.level[t.root] && h >= 1
    ensures |g.order| >= 2 * Pow(255, h - 1)
    ensures |Contents(pages, g.order)| >= 2 * Pow(255, h - 1) * ((t.cap + 1) / 2)
  {
    assert SPLIT == 255 && SplitAt(t) == (t.cap + 1) / 2;
    InvShape(pages, g, t, 0);
    ChainIsInOrder(pages, g, t);
    RootNeedsLeaves(pages, g, t, h);
    forall i | 0 <= i < |g.order| ensures |CellsAt(pages, g.order[i])| >= SplitAt(t) {
      assert g.order[i] != t.root;
    }
    hide Inv;
    ManyCells(pages, g.order, SplitAt(t));
    Times(|g.order|, 2 * Pow(SPLIT, h - 1), SplitAt(t));
  }

  lemma PowTwo(b: nat)
    ensures Pow(b, 2) == b * b
  {
    assert Pow(b, 1) == b * Pow(b, 0);
  }

  /** A tree fits into 1000 pages only with at most two internal levels, however empty its leaves are. */
  lemma HeightBound(pages: seq<Node>, g: View, t: Table)
    requires Inv(pages, g, t, 0) && MinKeys(pages, g, t) && |pages| <= 1000
    ensures g.level[t.root] <= 2
  {
    var h := g.level[t.root];
    InvShape(pages, g, t, 0);
    ChainIsInOrder(pages, g, t);
    DistinctBelow(g.order, |pages|);
    if h >= 3 {
      RootNeedsLeaves(pages, g, t, h);
      hide Inv, Shape, MinKeys, Pow;
      ThreeLevels(h);
    }
  }

  lemma ThreeLevels(h: nat)
    requires h >= 3
    ensures Pow(SPLIT, h - 1) >= 65025
  {
    PowTwo(SPLIT);
    PowMonotone(SPLIT, 2, h - 1);
  }
}
