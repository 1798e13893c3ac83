/** The ghost steps of an insert: each turns one tree that satisfies the invariant into another. */
module TreeSteps {
  import opened Layout
  import opened Tree

  /** Every leaf of the tree has its place in the chain. */
  lemma LeafPlace(pages: seq<Node>, g: View, t: Table, over: nat, p: nat) returns (j: nat)
    requires Inv(pages, g, t, over) && p in g.level && pages[p].Leaf?
    ensures j < |g.order| && g.order[j] == p
  {
    assert p in g.order;
    j :| 0 <= j < |g.order| && g.order[j] == p;
  }

  /** Leaves further right hold larger keys. */
  lemma {:induction false} OrderSorted(pages: seq<Node>, g: View, t: Table, over: nat, i: nat, j: nat)
    requires Inv(pages, g, t, over) && i < j < |g.order|
    ensures g.hi[g.order[i]] <= g.lo[g.order[j]]
    decreases j - i
  {
    if i + 1 < j {
      OrderSorted(pages, g, t, over, i + 1, j);
    }
  }

  lemma LeavesDisjoint(pages: seq<Node>, g: View, t: Table, over: nat, l: nat, m: nat)
    requires Inv(pages, g, t, over) && l in g.level && m in g.level && l != m
    requires pages[l].Leaf? && pages[m].Leaf?
    ensures g.hi[l] <= g.lo[m] || g.hi[m] <= g.lo[l]
  {
    assert l in g.order && m in g.order;
    var i :| 0 <= i < |g.order| && g.order[i] == l;
    var j :| 0 <= j < |g.order| && g.order[j] == m;
    if i < j { OrderSorted(pages, g, t, over, i, j); } else { OrderSorted(pages, g, t, over, j, i); }
  }

  ghost function Renamed(m: map<nat, int>, s: int, s': int): map<nat, int> {
    map x | x in m :: if m[x] == s then s' else m[x]
  }

  ghost function RenamedView(g: View, s: int, s': Key, x: nat): View {
    g.(lo := Renamed(g.lo, s, s'), hi := Renamed(g.hi, s, s'), owner := g.owner[s' := x])
  }

  /** What `Tighten` starts from: separator j of x has leaf l on its left, and s' is l's last key. */
  ghost predicate Tightenable(pages: seq<Node>, g: View, t: Table, over: nat, x: nat, j: nat, l: nat, s': Key)
  {
    && Inv(pages, g, t, over)
    && x in g.level && x < |pages| && pages[x].Internal? && j < |pages[x].keys|
    && l in g.level && l < |pages| && pages[l].Leaf? && g.hi[l] == pages[x].keys[j]
    && |pages[l].cells| > 0 && s' == Last(pages[l].cells).key
  }

  ghost function Tightened(pages: seq<Node>, x: nat, j: nat, s': Key): seq<Node>
    requires x < |pages| && pages[x].Internal? && j < |pages[x].keys|
  {
    pages[x := pages[x].(keys := pages[x].keys[j := s'])]
  }

  lemma TightenBounds(pages: seq<Node>, g: View, t: Table, over: nat, x: nat, j: nat, l: nat, s': Key)
    requires Tightenable(pages, g, t, over, x, j, l, s')
    ensures g.lo[l] < s' <= pages[x].keys[j]
    ensures pages[x].keys[j] in g.owner && g.owner[pages[x].keys[j]] == x
    ensures g.lo[x] < s'
  {
    assert PageOk(pages, g, t, over, x);
    assert PageOk(pages, g, t, over, l);
    assert Outside(g, x, l);
  }

  /** No separator falls strictly inside a leaf's interval. */
  lemma SeparatorsClear(pages: seq<Node>, g: View, t: Table, over: nat, y: nat, i: nat, l: nat)
    requires Inv(pages, g, t, over)
    requires y in g.level && pages[y].Internal? && i < |pages[y].keys| && l in g.level && pages[l].Leaf?
    ensures pages[y].keys[i] <= g.lo[l] || g.hi[l] <= pages[y].keys[i]
  {
    assert PageOk(pages, g, t, over, y);
    assert ChildOk(pages, g, y, i + 1);
    assert Outside(g, pages[y].children[i + 1], l);
  }

  lemma TightenDom(pages: seq<Node>, g: View, t: Table, over: nat, x: nat, j: nat, l: nat, s': Key)
    requires Tightenable(pages, g, t, over, x, j, l, s')
    ensures Dom(Tightened(pages, x, j, s'), RenamedView(g, pages[x].keys[j], s', x))
  {
    TightenBounds(pages, g, t, over, x, j, l, s');
    forall y | y in g.level ensures Outside(g, y, l) {}
  }

  lemma TightenKeys(pages: seq<Node>, g: View, t: Table, over: nat, x: nat, j: nat, l: nat, s': Key, y: nat)
    requires Tightenable(pages, g, t, over, x, j, l, s')
    requires y in g.level && pages[y].Internal?
    ensures var g' := RenamedView(g, pages[x].keys[j], s', x);
            var pages' := Tightened(pages, x, j, s');
            && Dom(pages', g') && KeysOk(pages', g', y)
            && forall i :: 0 <= i < |pages[y].keys| ==>
                 pages'[y].keys[i] == (if pages[y].keys[i] == pages[x].keys[j] then s' else pages[y].keys[i])
  {
    TightenDom(pages, g, t, over, x, j, l, s');
    TightenBounds(pages, g, t, over, x, j, l, s');
    assert PageOk(pages, g, t, over, x);
    assert PageOk(pages, g, t, over, y);
    assert Outside(g, y, l);
    forall i | 0 <= i < |pages[y].keys|
      ensures pages[y].keys[i] <= g.lo[l] || g.hi[l] <= pages[y].keys[i]
      ensures pages[y].keys[i] == pages[x].keys[j] ==> y == x && i == j
    {
      SeparatorsClear(pages, g, t, over, y, i, l);
    }
  }

  lemma TightenPage(pages: seq<Node>, g: View, t: Table, over: nat, x: nat, j: nat, l: nat, s': Key, y: nat)
    requires Tightenable(pages, g, t, over, x, j, l, s')
    requires Dom(Tightened(pages, x, j, s'), RenamedView(g, pages[x].keys[j], s', x))
    requires y in g.level
    ensures PageOk(Tightened(pages, x, j, s'), RenamedView(g, pages[x].keys[j], s', x), t, over, y)
  {
    var g' := RenamedView(g, pages[x].keys[j], s', x);
    var pages' := Tightened(pages, x, j, s');
    assert PageOk(pages, g, t, over, y);
    if pages[y].Internal? {
      TightenKeys(pages, g, t, over, x, j, l, s', y);
      forall i | 0 <= i < |pages[y].children| ensures ChildOk(pages', g', y, i) {
        assert ChildOk(pages, g, y, i);
      }
      assert InternalOk(pages', g', over, y);
    } else {
      TightenBounds(pages, g, t, over, x, j, l, s');
      if y != l { LeavesDisjoint(pages, g, t, over, y, l); }
      assert LeafOk(pages', g', t, over, y);
    }
  }

  lemma TightenRest(pages: seq<Node>, g: View, t: Table, over: nat, x: nat, j: nat, l: nat, s': Key)
    requires Tightenable(pages, g, t, over, x, j, l, s')
    requires Dom(Tightened(pages, x, j, s'), RenamedView(g, pages[x].keys[j], s', x))
    ensures var g' := RenamedView(g, pages[x].keys[j], s', x);
            var pages' := Tightened(pages, x, j, s');
            OrderOk(pages', g') && BoundaryOk(pages', g')
  {
    var g' := RenamedView(g, pages[x].keys[j], s', x);
    var pages' := Tightened(pages, x, j, s');
    TightenBounds(pages, g, t, over, x, j, l, s');
    assert PageOk(pages, g, t, over, x);
    forall y, m | y in g.level && m in g.level && pages'[m].Leaf? ensures Outside(g', y, m) {
      assert Outside(g, y, m) && Outside(g, y, l);
      if m != l { LeavesDisjoint(pages, g, t, over, m, l); }
    }
  }

  /** A separator may move down to the largest key on its left. */
  lemma Tighten(pages: seq<Node>, g: View, t: Table, over: nat, x: nat, j: nat, l: nat, s': Key)
    requires Tightenable(pages, g, t, over, x, j, l, s')
    ensures Inv(Tightened(pages, x, j, s'), RenamedView(g, pages[x].keys[j], s', x), t, over)
  {
    var g' := RenamedView(g, pages[x].keys[j], s', x);
    var pages' := Tightened(pages, x, j, s');
    TightenDom(pages, g, t, over, x, j, l, s');
    forall y | y in g'.level ensures PageOk(pages', g', t, over, y) {
      TightenPage(pages, g, t, over, x, j, l, s', y);
    }
    TightenRest(pages, g, t, over, x, j, l, s');
    TightenBounds(pages, g, t, over, x, j, l, s');
    assert PageOk(pages, g, t, over, x);
  }

  ghost predicate LinkOk(pages: seq<Node>, g: View, i: nat)
    requires Dom(pages, g)
  {
    && i < |g.order| && g.order[i] in g.level && pages[g.order[i]].Leaf?
    && (i == 0 ==> g.lo[g.order[i]] == -1)
    && (if i == |g.order| - 1 then g.hi[g.order[i]] == MAX_KEY && pages[g.order[i]].next == 0
        else && g.order[i + 1] in g.level && g.hi[g.order[i]] == g.lo[g.order[i + 1]]
             && pages[g.order[i]].next == g.order[i + 1])
  }

  lemma OrderFromLinks(pages: seq<Node>, g: View)
    requires Dom(pages, g) && |g.order| >= 1
    requires forall i {:trigger LinkOk(pages, g, i)} :: 0 <= i < |g.order| ==> LinkOk(pages, g, i)
    requires forall x {:trigger x in g.order} :: x in g.level && pages[x].Leaf? ==> x in g.order
    ensures OrderOk(pages, g)
  {
    forall i | 0 <= i < |g.order| ensures g.order[i] in g.level && pages[g.order[i]].Leaf? {
      assert LinkOk(pages, g, i);
    }
    assert LinkOk(pages, g, 0) && LinkOk(pages, g, |g.order| - 1);
    forall i | 0 <= i < |g.order| - 1
      ensures g.hi[g.order[i]] == g.lo[g.order[i + 1]] && pages[g.order[i]].next == g.order[i + 1]
    {
      assert LinkOk(pages, g, i);
    }
  }

  /** The chain survives a step that changes neither the leaves' intervals nor their links. */
  lemma OrderFrame(pages: seq<Node>, g: View, pages': seq<Node>, g': View)
    requires Dom(pages, g) && Dom(pages', g') && OrderOk(pages, g) && g'.order == g.order
    requires forall i :: 0 <= i < |g.order| ==>
               && g.order[i] in g'.level && pages'[g.order[i]].Leaf?
               && pages'[g.order[i]].next == pages[g.order[i]].next
               && g'.lo[g.order[i]] == g.lo[g.order[i]] && g'.hi[g.order[i]] == g.hi[g.order[i]]
    requires forall x :: x in g'.level && pages'[x].Leaf? ==> x in g.level && pages[x].Leaf?
    ensures OrderOk(pages', g')
  {
    forall x | x in g'.level && pages'[x].Leaf? ensures x in g'.order { assert x in g.order; }
  }
}
