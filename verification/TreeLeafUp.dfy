/** What a leaf split hands to the level above, and what it does to the table's cells. */
module TreeLeafUp {
  import opened Layout
  import opened Tree
  import opened TreeSplit
  import opened TreeLeaf
  import opened TreeCascade
  import opened TreeUp
  import opened TreeContents

  /** The cells of a leaf with one cell put in at position i. */
  function WithCell(cells: seq<Cell>, i: nat, c: Cell): seq<Cell>
    requires i <= |cells|
  {
    cells[..i] + [c] + cells[i..]
  }

  /** The key of c belongs at position i of leaf p and is not there yet. */
  ghost predicate Insertable(pages: seq<Node>, g: View, t: Table, p: nat, i: nat, c: Cell) {
    && Inv(pages, g, t, 0) && t.cap >= 1 && p in g.level && p < |pages| && pages[p].Leaf?
    && g.lo[p] < c.key <= g.hi[p] && IsCellLowerBound(pages[p].cells, c.key, i)
    && (i < |pages[p].cells| ==> pages[p].cells[i].key != c.key)
  }

  /** The leaf with the new cell, which may be one more than fits. */
  lemma PutCell(pages: seq<Node>, g: View, t: Table, p: nat, i: nat, c: Cell)
    requires Insertable(pages, g, t, p, i, c)
    ensures var cells := WithCell(pages[p].cells, i, c);
            && |pages[p].cells| <= t.cap && SortedCells(cells)
            && Inv(pages[p := pages[p].(cells := cells)], g, t, if |pages[p].cells| < t.cap then 0 else p)
  {
    assert PageOk(pages, g, t, 0, p);
    LeafEdit(pages, g, t, p, WithCell(pages[p].cells, i, c), if |pages[p].cells| < t.cap then 0 else p);
  }

  function SplitAt(t: Table): nat { (t.cap + 1) / 2 }

  /** Leaf p was full; its cells and the new one have been distributed over p and n. */
  ghost predicate LeafHalved(pages: seq<Node>, t: Table, p: nat, i: nat, c: Cell, cut: seq<Node>, n: nat) {
    && p < |pages| && pages[p].Leaf? && i <= |pages[p].cells| && |pages[p].cells| == t.cap
    && n == |pages| && |cut| == n + 1
    && (var cells := WithCell(pages[p].cells, i, c);
        && cut[p] == pages[p].(cells := cells[..SplitAt(t)], next := n)
        && cut[n] == Leaf(false, pages[p].parent, pages[p].next, cells[SplitAt(t)..]))
    && (forall y :: 0 <= y < n && y != p ==> cut[y] == pages[y])
  }

  ghost predicate LeafCut(pages: seq<Node>, g: View, t: Table, p: nat, i: nat, c: Cell, cut: seq<Node>, n: nat) {
    Insertable(pages, g, t, p, i, c) && LeafHalved(pages, t, p, i, c, cut, n)
  }

  /** The key at the split cuts the leaf's interval in two. */
  lemma SplitKey(pages: seq<Node>, g: View, t: Table, p: nat, i: nat, c: Cell, cut: seq<Node>, n: nat)
    requires LeafCut(pages, g, t, p, i, c, cut, n)
    ensures n !in g.level && SortedCells(WithCell(pages[p].cells, i, c)) && 0 < SplitAt(t) <= t.cap
    ensures |WithCell(pages[p].cells, i, c)| == t.cap + 1
    ensures g.lo[p] < WithCell(pages[p].cells, i, c)[SplitAt(t) - 1].key < g.hi[p]
  {
    var cells := WithCell(pages[p].cells, i, c);
    PutCell(pages, g, t, p, i, c);
    assert PageOk(pages, g, t, 0, p);
    assert cells[SplitAt(t) - 1].key < cells[SplitAt(t)].key;
  }

  /** The overfull leaf in a store that already has page n, ready to be split. */
  lemma LeafReady(pages: seq<Node>, g: View, t: Table, p: nat, i: nat, c: Cell, cut: seq<Node>, n: nat, j: nat)
    returns (v: seq<Node>, ip: nat)
    requires LeafCut(pages, g, t, p, i, c, cut, n) && p != t.root
    requires j < |g.order| && g.order[j] == p
    ensures v == pages[p := pages[p].(cells := WithCell(pages[p].cells, i, c))] + [cut[n]]
    ensures var pp := pages[p].parent; var s := WithCell(pages[p].cells, i, c)[SplitAt(t) - 1].key;
            && Splittable(v, g, t, p, p, n, pp, ip, s) && InternalOk(v, g, p, pp)
            && pp != p && v[pp] == pages[pp] && |pages[pp].keys| <= INTERNAL_NODE_MAX_KEYS
            && ChildOk(pages, g, pp, ip) && KeysOk(pages, g, pp)
  {
    var cells := WithCell(pages[p].cells, i, c);
    var v0 := pages[p := pages[p].(cells := cells)];
    PutCell(pages, g, t, p, i, c);
    SplitKey(pages, g, t, p, i, c, cut, n);
    InvExtend(v0, g, t, p, cut[n]);
    v := v0 + [cut[n]];
    var pp := pages[p].parent;
    ip := ChildIndex(v, g, t, p, p);
    PageBelowParent(pages, g, t, 0, p);
    assert PageOk(pages, g, t, 0, pp);
    assert ChildOk(pages, g, pp, ip) && KeysOk(pages, g, pp);
  }

  lemma StoresSplit(v: seq<Node>, w: seq<Node>, g: View, t: Table, p: nat, n: nat, z: nat, pp: nat, ip: nat, j: nat, s: Key)
    requires p < |v| && n < |v| && pp < |v| && v[p].Leaf? && 0 < z <= t.cap && |v[p].cells| == t.cap + 1 && t.cap + 1 - z <= t.cap
    requires v[pp].Internal? && |v[pp].children| == |v[pp].keys| + 1 && ip <= |v[pp].keys| && j < |g.order| && g.order[j] == p
    requires v[p].cells[z - 1].key == s && Splittable(v, g, t, p, p, n, pp, ip, s) && InternalOk(v, g, p, pp)
    requires w == v[p := v[p].(cells := v[p].cells[..z], next := n)]
                   [n := Leaf(false, pp, v[p].next, v[p].cells[z..])]
                   [pp := WithChild(v[pp], ip, v[p].cells[z - 1].key, n)]
    ensures LeafSplit(v, w, g, t, p, n, z, pp, ip, j)
  {
    hide Inv, InternalOk, WithChild;
  }

  /** Store w, in which the parent of the split leaf p already holds n behind child ip. */
  ghost predicate AboveLeaf(pages: seq<Node>, g: View, t: Table, p: nat, i: nat, c: Cell, cut: seq<Node>, n: nat, j: nat,
                            w: seq<Node>, g1: View, ip: nat, s: Key)
    requires LeafCut(pages, g, t, p, i, c, cut, n) && j < |g.order|
  {
    var pp := pages[p].parent;
    && pp < n && pp != p && pp in g.level && cut[pp] == pages[pp] && pages[pp].Internal?
    && |pages[pp].children| == |pages[pp].keys| + 1 && |pages[pp].keys| <= INTERNAL_NODE_MAX_KEYS
    && ip < |pages[pp].children| && pages[pp].children[ip] == p && ChildOk(pages, g, pp, ip)
    && KeysOk(pages, g, pp)
    && n !in g.level && 0 < SplitAt(t) <= |WithCell(pages[p].cells, i, c)|
    && s == WithCell(pages[p].cells, i, c)[SplitAt(t) - 1].key
    && w == cut[n := WithParent(cut[n], pp)][pp := WithChild(pages[pp], ip, s, n)]
    && g1.level == g.level[n := 0] && g1.order == g.order[..j + 1] + [n] + g.order[j + 1..]
    && Inv(w, g1, t, pp) && Shape(w, g1.level)
  }

  lemma LeafStores(pages: seq<Node>, g: View, t: Table, p: nat, i: nat, c: Cell, cut: seq<Node>, n: nat,
                   v: seq<Node>, w: seq<Node>, ip: nat)
    requires LeafCut(pages, g, t, p, i, c, cut, n) && 0 < SplitAt(t) <= t.cap
    requires v == pages[p := pages[p].(cells := WithCell(pages[p].cells, i, c))] + [cut[n]]
    requires var pp := pages[p].parent;
             && pp < n && pp != p && pages[pp].Internal? && |pages[pp].children| == |pages[pp].keys| + 1 && ip <= |pages[pp].keys|
    requires var pp := pages[p].parent;
             w == cut[n := WithParent(cut[n], pp)][pp := WithChild(pages[pp], ip, WithCell(pages[p].cells, i, c)[SplitAt(t) - 1].key, n)]
    ensures var pp, z := pages[p].parent, SplitAt(t);
            w == v[p := v[p].(cells := v[p].cells[..z], next := n)]
                  [n := Leaf(false, pp, v[p].next, v[p].cells[z..])]
                  [pp := WithChild(v[pp], ip, v[p].cells[z - 1].key, n)]
  {
    hide Inv, IsCellLowerBound;
  }

  /** The split of a leaf below the root, seen from its parent. */
  lemma LeafAbove(pages: seq<Node>, g: View, t: Table, p: nat, i: nat, c: Cell, cut: seq<Node>, n: nat, j: nat)
    returns (w: seq<Node>, g1: View, ip: nat, s: Key)
    requires LeafCut(pages, g, t, p, i, c, cut, n) && p != t.root
    requires j < |g.order| && g.order[j] == p
    ensures AboveLeaf(pages, g, t, p, i, c, cut, n, j, w, g1, ip, s)
  {
    var v;
    v, ip := LeafReady(pages, g, t, p, i, c, cut, n, j);
    SplitKey(pages, g, t, p, i, c, cut, n);
    assert g.level[p] == 0 by { assert PageOk(pages, g, t, 0, p); }
    var pp := pages[p].parent;
    var z := SplitAt(t);
    s := WithCell(pages[p].cells, i, c)[z - 1].key;
    w := cut[n := WithParent(cut[n], pp)][pp := WithChild(pages[pp], ip, s, n)];
    LeafStores(pages, g, t, p, i, c, cut, n, v, w, ip);
    assert v[p].cells[z - 1].key == s && |v[p].cells| == t.cap + 1 && |v| == |w| == n + 1 && p < n;
    hide Inv, InternalOk, KeysOk, ChildOk, Insertable, WithCell, LeafSplit, Splittable;
    StoresSplit(v, w, g, t, p, n, z, pp, ip, j, s);
    SplitLeaf(v, w, g, t, p, n, z, pp, ip, j);
    g1 := SplitLeafView(g, p, n, s, pp, j);
    InvShape(w, g1, t, pp);
  }

  lemma SplitNonEmpty(pages: seq<Node>, g: View, t: Table, p: nat, i: nat, c: Cell, cut: seq<Node>, n: nat, j: nat,
                      w: seq<Node>, order: seq<nat>)
    requires LeafCut(pages, g, t, p, i, c, cut, n) && NonEmpty(pages, g)
    requires j < |g.order| && g.order[j] == p && order == g.order[..j + 1] + [n] + g.order[j + 1..]
    requires |w| == |cut|
    requires forall y :: 0 <= y < |w| && cut[y].Leaf? ==> w[y].Leaf? && w[y].cells == cut[y].cells
    ensures forall a :: 0 <= a < |order| ==> order[a] < |w| && w[order[a]].Leaf? && |w[order[a]].cells| > 0
  {
    forall a | 0 <= a < |order| ensures order[a] < |w| && w[order[a]].Leaf? && |w[order[a]].cells| > 0 {
      assert order[a] == if a <= j then g.order[a] else if a == j + 1 then n else g.order[a - 1];
    }
  }

  /** The overfull root leaf, raised. */
  lemma LeafRaise(pages: seq<Node>, g: View, t: Table, i: nat, c: Cell, cut: seq<Node>, n: nat, last: Node)
    returns (r: seq<Node>, g1: View)
    requires LeafCut(pages, g, t, t.root, i, c, cut, n)
    ensures g.order == [t.root] && g.level.Keys == {t.root} && pages[t.root].next == 0
    ensures Inv(r, g1, t, n + 1) && |r| == n + 2 && g1.level.Keys == {t.root, n + 1} && g1.order == [n + 1]
    ensures r[t.root] == Internal(true, 0, [], [n + 1])
    ensures g1.lo[n + 1] == -1 && g1.hi[n + 1] == MAX_KEY && InternalOk(r, g1, n + 1, t.root)
    ensures r[n + 1] == CopiedTo(pages[t.root].(cells := WithCell(pages[t.root].cells, i, c)), t.root)
    ensures forall y :: 0 <= y < n && y != t.root ==> r[y] == pages[y]
  {
    var left := n + 1;
    var v0 := pages[t.root := pages[t.root].(cells := WithCell(pages[t.root].cells, i, c))];
    PutCell(pages, g, t, t.root, i, c);
    RootLeafAlone(pages, g, t, 0);
    InvExtend(v0, g, t, t.root, cut[n]);
    InvExtend(v0 + [cut[n]], g, t, t.root, last);
    var v := v0 + [cut[n]] + [last];
    r := MakeRaised(v, g, t, t.root, left);
    RaiseRoot(v, r, g, t, t.root, left);
    g1 := RaisedView(g, v, t, left);
    assert PageOk(r, g1, t, left, t.root);
  }

  /** The split of a root leaf: afterwards the root is an internal page over the two halves. */
  lemma LeafRoot(pages: seq<Node>, g: View, t: Table, i: nat, c: Cell, cut: seq<Node>, n: nat, after: seq<Node>)
    returns (g': View)
    requires LeafCut(pages, g, t, t.root, i, c, cut, n)
    requires NewRoot(cut, after, t.root, n, WithCell(pages[t.root].cells, i, c)[SplitAt(t) - 1].key)
    ensures Inv(after, g', t, 0) && g.order == [t.root] && g.level.Keys == {t.root}
    ensures g'.order == [n + 1, n] && g'.level.Keys == {t.root, n, n + 1}
  {
    var left := n + 1;
    var r, g1 := LeafRaise(pages, g, t, i, c, cut, n, after[left]);
    SplitKey(pages, g, t, t.root, i, c, cut, n);
    LeafRootSplit(pages, g, t, i, c, cut, n, after, r, g1);
    SplitLeaf(r, after, g1, t, left, n, SplitAt(t), t.root, 0, 0);
    g' := SplitLeafView(g1, left, n, WithCell(pages[t.root].cells, i, c)[SplitAt(t) - 1].key, t.root, 0);
    InvOverFits(after, g', t, t.root);
  }

  lemma LeafRootSplit(pages: seq<Node>, g: View, t: Table, i: nat, c: Cell, cut: seq<Node>, n: nat, after: seq<Node>,
                      r: seq<Node>, g1: View)
    requires LeafCut(pages, g, t, t.root, i, c, cut, n) && pages[t.root].next == 0
    requires NewRoot(cut, after, t.root, n, WithCell(pages[t.root].cells, i, c)[SplitAt(t) - 1].key)
    requires Inv(r, g1, t, n + 1) && |r| == |after| && g1.level.Keys == {t.root, n + 1} && g1.order == [n + 1]
    requires r[t.root] == Internal(true, 0, [], [n + 1])
    requires g1.lo[n + 1] == -1 && g1.hi[n + 1] == MAX_KEY && InternalOk(r, g1, n + 1, t.root)
    requires r[n + 1] == CopiedTo(pages[t.root].(cells := WithCell(pages[t.root].cells, i, c)), t.root)
    requires SortedCells(WithCell(pages[t.root].cells, i, c))
    requires forall y :: 0 <= y < n && y != t.root ==> r[y] == pages[y]
    ensures LeafSplit(r, after, g1, t, n + 1, n, SplitAt(t), t.root, 0, 0)
  {
    var cells := WithCell(pages[t.root].cells, i, c);
    var left := n + 1;
    var z := SplitAt(t);
    assert PageOk(r, g1, t, left, left);
    assert cells[z - 1].key < cells[z].key;
    forall y | 0 <= y < n && y != t.root ensures after[y] == r[y] {
      assert cut[y] == pages[y];
    }
    var top := WithChild(r[t.root], 0, cells[z - 1].key, n);
    assert top.keys == [cells[z - 1].key] && top.children == [left, n];
    assert after == r[left := r[left].(cells := cells[..z], next := n)]
                     [n := Leaf(false, t.root, r[left].next, cells[z..])]
                     [t.root := WithChild(r[t.root], 0, cells[z - 1].key, n)];
  }

  lemma WithCellInside(a: seq<Cell>, b: seq<Cell>, d: seq<Cell>, i: nat, c: Cell)
    requires i <= |b|
    ensures a + WithCell(b, i, c) + d == WithCell(a + b + d, |a| + i, c)
  {
    assert (a + b + d)[..|a| + i] == a + b[..i];
    assert (a + b + d)[|a| + i..] == b[i..] + d;
  }

  lemma EditInside(all: seq<Cell>, all': seq<Cell>, a: seq<Cell>, b: seq<Cell>, m: seq<Cell>, d: seq<Cell>, i: nat, c: Cell)
    requires i <= |b| && m == WithCell(b, i, c) && all == a + b + d && all' == a + m + d
    ensures |a| + i <= |all| && all' == WithCell(all, |a| + i, c)
  {
    WithCellInside(a, b, d, i, c);
  }

  lemma PositionIs(pages: seq<Node>, order: seq<nat>, j: nat, i: nat)
    requires j < |order|
    ensures Position(pages, order, j, i) == |Contents(pages, order[..j])| + i
  {
  }

  /** The table's cells after an edit of leaf j. */
  lemma ContentsEdit(pages: seq<Node>, pages': seq<Node>, order: seq<nat>, order': seq<nat>, j: nat, mid: seq<nat>,
                     i: nat, c: Cell)
    requires j < |order| && order' == order[..j] + mid + order[j + 1..]
    requires forall a :: 0 <= a < |order| && a != j ==> CellsAt(pages', order[a]) == CellsAt(pages, order[a])
    requires i <= |CellsAt(pages, order[j])| && Contents(pages', mid) == WithCell(CellsAt(pages, order[j]), i, c)
    ensures var pos := Position(pages, order, j, i);
            pos <= |Contents(pages, order)| && Contents(pages', order') == WithCell(Contents(pages, order), pos, c)
  {
    hide *;
    ContentsReplace(pages, pages', order, j, mid);
    ContentsSplit(pages, order, j);
    var a, b, d := Contents(pages, order[..j]), CellsAt(pages, order[j]), Contents(pages, order[j + 1..]);
    assert Position(pages, order, j, i) == |a| + i by { PositionIs(pages, order, j, i); }
    EditInside(Contents(pages, order), Contents(pages', order'), a, b, Contents(pages', mid), d, i, c);
  }

  /** Leaf j of the chain, which occurs there once, is the only page that changed. */
  ghost predicate OneLeafEdited(pages: seq<Node>, pages': seq<Node>, order: seq<nat>, j: nat) {
    && j < |order| && order[j] < |pages| && |pages'| == |pages| && pages'[order[j]].Leaf?
    && pages' == pages[order[j] := pages'[order[j]]]
    && forall i :: 0 <= i < |order| && i != j ==> order[i] != order[j]
  }

  lemma ContentsOneLeaf(pages: seq<Node>, pages': seq<Node>, order: seq<nat>, j: nat) returns (a: seq<Cell>, d: seq<Cell>)
    requires OneLeafEdited(pages, pages', order, j)
    ensures |a| == Position(pages, order, j, 0)
    ensures Contents(pages, order) == a + CellsAt(pages, order[j]) + d
    ensures Contents(pages', order) == a + CellsAt(pages', order[j]) + d
  {
    ContentsFrame(pages, pages', order[..j]);
    ContentsFrame(pages, pages', order[j + 1..]);
    ContentsSplit(pages, order, j);
    ContentsSplit(pages', order, j);
    a, d := Contents(pages, order[..j]), Contents(pages, order[j + 1..]);
  }

  lemma DropInside(a: seq<Cell>, b: seq<Cell>, d: seq<Cell>, i: nat)
    requires i < |b|
    ensures (a + b + d)[|a| + i] == b[i]
    ensures a + (b[..i] + b[i + 1..]) + d == (a + b + d)[..|a| + i] + (a + b + d)[|a| + i + 1..]
  {
    assert (a + b + d)[..|a| + i] == a + b[..i];
    assert (a + b + d)[|a| + i + 1..] == b[i + 1..] + d;
  }

  /** A cell leaves the table with its leaf's cell. */
  lemma ContentsDelete(pages: seq<Node>, pages': seq<Node>, order: seq<nat>, j: nat, i: nat)
    requires OneLeafEdited(pages, pages', order, j) && i < |CellsAt(pages, order[j])|
    requires CellsAt(pages', order[j]) == CellsAt(pages, order[j])[..i] + CellsAt(pages, order[j])[i + 1..]
    ensures var pos := Position(pages, order, j, i);
            && pos < |Contents(pages, order)| && Contents(pages, order)[pos] == CellsAt(pages, order[j])[i]
            && Contents(pages', order) == Contents(pages, order)[..pos] + Contents(pages, order)[pos + 1..]
  {
    var a, d := ContentsOneLeaf(pages, pages', order, j);
    hide Contents, CellsAt;
    DropInside(a, CellsAt(pages, order[j]), d, i);
  }

  lemma UpdateInside(a: seq<Cell>, b: seq<Cell>, d: seq<Cell>, i: nat, c: Cell)
    requires i < |b|
    ensures (a + b + d)[|a| + i] == b[i] && a + b[i := c] + d == (a + b + d)[|a| + i := c]
  {
  }

  /** A cell is replaced in the table where it is replaced in its leaf. */
  lemma ContentsUpdate(pages: seq<Node>, pages': seq<Node>, order: seq<nat>, j: nat, i: nat, c: Cell)
    requires OneLeafEdited(pages, pages', order, j) && i < |CellsAt(pages, order[j])|
    requires CellsAt(pages', order[j]) == CellsAt(pages, order[j])[i := c]
    ensures var pos := Position(pages, order, j, i);
            && pos < |Contents(pages, order)| && Contents(pages, order)[pos] == CellsAt(pages, order[j])[i]
            && Contents(pages', order) == Contents(pages, order)[pos := c]
  {
    var a, d := ContentsOneLeaf(pages, pages', order, j);
    hide Contents, CellsAt;
    UpdateInside(a, CellsAt(pages, order[j]), d, i, c);
  }

  /** Writing another cell over cell i of leaf p keeps this view of the tree exactly when its key still
      lies between its neighbours and inside the leaf's interval. */
  lemma UpdateKeepsOrder(pages: seq<Node>, g: View, t: Table, p: nat, i: nat, c: Cell)
    requires Inv(pages, g, t, 0) && p in g.level && pages[p].Leaf? && i < |pages[p].cells|
    ensures Inv(pages[p := pages[p].(cells := pages[p].cells[i := c])], g, t, 0) <==>
            && g.lo[p] < c.key <= g.hi[p]
            && (i > 0 ==> pages[p].cells[i - 1].key < c.key)
            && (i + 1 < |pages[p].cells| ==> c.key < pages[p].cells[i + 1].key)
  {
    var cells := pages[p].cells[i := c];
    var pages' := pages[p := pages[p].(cells := cells)];
    assert PageOk(pages, g, t, 0, p);
    if Inv(pages', g, t, 0) {
      assert PageOk(pages', g, t, 0, p);
      assert cells[i] == c;
      assert i > 0 ==> cells[i - 1].key < cells[i].key;
      assert i + 1 < |cells| ==> cells[i].key < cells[i + 1].key;
    }
    if g.lo[p] < c.key <= g.hi[p] && (i > 0 ==> pages[p].cells[i - 1].key < c.key)
       && (i + 1 < |pages[p].cells| ==> c.key < pages[p].cells[i + 1].key) {
      LeafEdit(pages, g, t, p, cells, 0);
    }
  }

  /** A leaf split loses nothing: the halves hold the old cells with the new one in its place, both
      fit a leaf, and both are at least half full. */
  lemma LeafHalvesConserve(pages: seq<Node>, g: View, t: Table, p: nat, i: nat, c: Cell, cut: seq<Node>, n: nat)
    requires LeafCut(pages, g, t, p, i, c, cut, n)
    ensures cut[p].Leaf? && cut[n].Leaf? && cut[p].cells + cut[n].cells == WithCell(pages[p].cells, i, c)
    ensures |cut[p].cells| == (t.cap + 1) / 2 <= |cut[n].cells| <= t.cap
  {
    SplitKey(pages, g, t, p, i, c, cut, n);
  }
}
