/** Writing a new key over a cell, as UPDATE of the first column does. */
module TreeRekey {
  import opened Layout
  import opened Tree
  import opened TreeSteps
  import opened TreeLeaf
  import opened TreeUp
  import opened TreeContents
  import opened TreeLeafUp

  /** The store with cell i of leaf p replaced. */
  function Rewritten(pages: seq<Node>, p: nat, i: nat, c: Cell): seq<Node>
    requires p < |pages| && pages[p].Leaf? && i < |pages[p].cells|
  {
    pages[p := pages[p].(cells := pages[p].cells[i := c])]
  }

  /** The separators above them determine the intervals of all pages: two views of stores that
      differ in the cells of leaves agree on them. */
  lemma {:induction false} SameIntervals(pages: seq<Node>, pages': seq<Node>, g: View, v: View, t: Table, over: nat, x: nat)
    requires Inv(pages, g, t, 0) && Inv(pages', v, t, over) && x in g.level
    requires forall y :: y in g.level ==>
               y < |pages'| && pages'[y].parent == pages[y].parent && (pages[y].Internal? ==> pages'[y] == pages[y])
    requires g.level[x] <= g.level[t.root]
    ensures x in v.level && v.lo[x] == g.lo[x] && v.hi[x] == g.hi[x]
    decreases g.level[t.root] - g.level[x]
  {
    if x != t.root {
      RootTop(pages, g, t, 0);
      var ip := ChildIndex(pages, g, t, 0, x);
      var y := pages[x].parent;
      SameIntervals(pages, pages', g, v, t, over, y);
      assert PageOk(pages', v, t, over, y) && ChildOk(pages', v, y, ip);
    }
  }

  /** The search for the new key ends beside the cell, and does not meet the key. */
  ghost predicate StaysPut(pages: seq<Node>, p: nat, i: nat, q: nat, j: nat, key: Key) {
    && p < |pages| && pages[p].Leaf? && i < |pages[p].cells|
    && (pages[p].cells[i].key == key
        || (q == p && (j == i || j == i + 1) && (j < |pages[p].cells| ==> pages[p].cells[j].key != key)))
  }

  /** The same in terms of the neighbours and the interval of the leaf. */
  lemma StaysBetween(pages: seq<Node>, g: View, t: Table, p: nat, i: nat, q: nat, j: nat, key: Key)
    requires Inv(pages, g, t, 0) && p in g.level && pages[p].Leaf? && i < |pages[p].cells| && Found(pages, g, q, j, key)
    ensures StaysPut(pages, p, i, q, j, key) <==>
            && g.lo[p] < key <= g.hi[p]
            && (i > 0 ==> pages[p].cells[i - 1].key < key)
            && (i + 1 < |pages[p].cells| ==> key < pages[p].cells[i + 1].key)
  {
    assert PageOk(pages, g, t, 0, p);
    if q != p { LeavesDisjoint(pages, g, t, 0, q, p); }
  }

  /** After a new key was written over cell i of leaf p the store is a tree, in whatever view, exactly
      when a search for the new key ends at that cell or right behind it and does not find it. */
  lemma RekeyedTree(pages: seq<Node>, g: View, t: Table, p: nat, i: nat, c: Cell, q: nat, j: nat)
    requires Inv(pages, g, t, 0) && p in g.level && pages[p].Leaf? && i < |pages[p].cells| && Found(pages, g, q, j, c.key)
    ensures StaysPut(pages, p, i, q, j, c.key) ==> Inv(Rewritten(pages, p, i, c), g, t, 0)
    ensures !StaysPut(pages, p, i, q, j, c.key) ==> forall v, over :: !Inv(Rewritten(pages, p, i, c), v, t, over)
  {
    var pages' := Rewritten(pages, p, i, c);
    StaysBetween(pages, g, t, p, i, q, j, c.key);
    UpdateKeepsOrder(pages, g, t, p, i, c);
    RootTop(pages, g, t, 0);
    if !StaysPut(pages, p, i, q, j, c.key) {
      forall v, over | Inv(pages', v, t, over) ensures false {
        SameIntervals(pages, pages', g, v, t, over, p);
        RewrittenLeaf(pages, v, t, over, p, i, c);
      }
    }
  }

  lemma RewrittenLeaf(pages: seq<Node>, v: View, t: Table, over: nat, p: nat, i: nat, c: Cell)
    requires p < |pages| && pages[p].Leaf? && i < |pages[p].cells| && Inv(Rewritten(pages, p, i, c), v, t, over) && p in v.level
    ensures v.lo[p] < c.key <= v.hi[p]
    ensures i > 0 ==> pages[p].cells[i - 1].key < c.key
    ensures i + 1 < |pages[p].cells| ==> c.key < pages[p].cells[i + 1].key
  {
    var pages' := Rewritten(pages, p, i, c);
    assert PageOk(pages', v, t, over, p);
    var cells := pages'[p].cells;
    assert cells[i] == c;
    assert i > 0 ==> cells[i - 1].key < cells[i].key;
    assert i + 1 < |cells| ==> cells[i].key < cells[i + 1].key;
  }
}
