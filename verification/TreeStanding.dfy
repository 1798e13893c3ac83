/** What holds of a table's pages whatever was done to them: they hang together, and the leaves form a
    chain. Keys and separators may be out of order. */
module TreeStanding {
  import opened Layout
  import opened Tree
  import opened TreeSteps
  import opened TreeUp
  import opened TreeContents
  import opened TreeLeafUp
  import opened TreeRuin
  import opened TreeArrival
  import opened TreeInsert
  import opened TreeMarks
  import opened TreeClear
  import opened TreeCascade
  import opened TreeSearch
  import TreeLeaf

  ghost predicate Link(pages: seq<Node>, order: seq<nat>, i: nat) {
    i < |order| && order[i] < |pages| && pages[order[i]].Leaf? && pages[order[i]].next == if i + 1 < |order| then order[i + 1] else 0
  }

  /** The pages of `order` are the leaves of a chain that does not come back to itself. */
  ghost predicate Linked(pages: seq<Node>, order: seq<nat>) {
    && |order| >= 1
    && (forall i {:trigger Link(pages, order, i)} :: 0 <= i < |order| ==> Link(pages, order, i))
    && (forall i, j :: 0 <= i < j < |order| ==> order[i] != order[j])
  }

  ghost predicate LeafStands(pages: seq<Node>, g: View, t: Table, x: nat) {
    x in g.level && (x < |pages| && pages[x].Leaf? ==> g.level[x] == 0 && |pages[x].cells| <= t.cap && x in g.order)
  }

  /** Of a view only levels and order matter here. */
  ghost predicate Standing(pages: seq<Node>, g: View, t: Table) {
    && Hooked(pages, g.level, t, 0) && t.cap >= 1 && Linked(pages, g.order)
    && (forall i {:trigger g.order[i]} :: 0 <= i < |g.order| ==> g.order[i] in g.level)
    && (forall x {:trigger LeafStands(pages, g, t, x)} :: x in g.level ==> LeafStands(pages, g, t, x))
  }

  lemma InvHooked(pages: seq<Node>, g: View, t: Table)
    requires Inv(pages, g, t, 0)
    ensures Hooked(pages, g.level, t, 0)
  {
    TreeLeaf.RootTop(pages, g, t, 0);
    forall x | x in g.level ensures InPlace(pages, g.level, t, 0, x) {
      assert PageOk(pages, g, t, 0, x);
      if x != t.root { TreeLeaf.PageBelowParent(pages, g, t, 0, x); }
      if pages[x].Internal? {
        forall j | 0 <= j < |pages[x].children|
          ensures pages[x].children[j] in g.level && g.level[pages[x].children[j]] + 1 == g.level[x]
        {
          assert ChildOk(pages, g, x, j);
        }
      }
    }
  }

  /** Every tree stands. */
  lemma InvStands(pages: seq<Node>, g: View, t: Table)
    requires Inv(pages, g, t, 0) && t.cap >= 1
    ensures Standing(pages, g, t)
  {
    InvHooked(pages, g, t);
    forall x | x in g.level ensures LeafStands(pages, g, t, x) { assert PageOk(pages, g, t, 0, x); }
    InvLinked(pages, g, t);
    hide Hooked, LeafStands, Linked, PagesOk, BoundaryOk;
  }

  lemma InvLinked(pages: seq<Node>, g: View, t: Table)
    requires Inv(pages, g, t, 0)
    ensures Linked(pages, g.order)
  {
    forall i, j | 0 <= i < j < |g.order| ensures g.order[i] != g.order[j] { OrderSorted(pages, g, t, 0, i, j); }
    hide PagesOk, BoundaryOk;
    forall i | 0 <= i < |g.order| ensures Link(pages, g.order, i) { }
  }

  lemma StandingWalkable(pages: seq<Node>, g: View, t: Table)
    requires Standing(pages, g, t)
    ensures Walkable(pages, g.level) && t.root in g.level
  {
    HookedShape(pages, g.level, t, 0);
    forall x | x in g.level && x < |pages| && pages[x].Internal? ensures |pages[x].children| == |pages[x].keys| + 1 {
      assert InPlace(pages, g.level, t, 0, x);
    }
  }

  // Edits of one leaf

  /** Only the cells of leaf p change. */
  lemma EditStands(pages: seq<Node>, g: View, t: Table, p: nat, cells: seq<Cell>)
    requires Standing(pages, g, t) && p in g.level && p < |pages| && pages[p].Leaf? && |cells| <= t.cap
    ensures var pages' := pages[p := pages[p].(cells := cells)]; Standing(pages', g, t) && Framed(pages, g, pages', g)
  {
    var pages' := pages[p := pages[p].(cells := cells)];
    forall x | x in g.level ensures InPlace(pages', g.level, t, 0, x) && LeafStands(pages', g, t, x) {
      assert InPlace(pages, g.level, t, 0, x) && LeafStands(pages, g, t, x);
    }
    forall i | 0 <= i < |g.order| ensures Link(pages', g.order, i) { assert Link(pages, g.order, i); }
  }

  /** The place of a leaf in the chain. */
  lemma StandingPlace(pages: seq<Node>, g: View, t: Table, p: nat) returns (j: nat)
    requires Standing(pages, g, t) && p in g.level && p < |pages| && pages[p].Leaf?
    ensures j < |g.order| && g.order[j] == p && g.level[p] == 0
    ensures forall i :: 0 <= i < |g.order| && i != j ==> g.order[i] != p
  {
    assert LeafStands(pages, g, t, p);
    j :| 0 <= j < |g.order| && g.order[j] == p;
  }

  /** The place of a cursor in the whole chain. */
  ghost function PlaceOf(pages: seq<Node>, g: View, page: nat, cell: nat): nat {
    if page in g.order then Position(pages, g.order, IndexIn(g.order, page), cell) else 0
  }

  lemma PlaceIs(pages: seq<Node>, g: View, t: Table, page: nat, cell: nat, j: nat)
    requires Standing(pages, g, t) && j < |g.order| && g.order[j] == page
    ensures PlaceOf(pages, g, page, cell) == Position(pages, g.order, j, cell)
  {
    var i := IndexIn(g.order, page);
    assert g.order[..|g.order|] == g.order;
    assert i < |g.order| && g.order[i] == g.order[j];
    assert i == j;
  }

  // Inserts

  /** The rows in chain order are what they were, with c in the place of the cursor. */
  ghost predicate RowPut(before: seq<Node>, g: View, p: nat, i: nat, c: Cell, after: seq<Node>, g': View) {
    exists j: nat {:trigger g.order[j]} ::
      && j < |g.order| && g.order[j] == p && Position(before, g.order, j, i) <= |Contents(before, g.order)|
      && Contents(after, g'.order) == WithCell(Contents(before, g.order), Position(before, g.order, j, i), c)
  }

  /** What an insert does to the pages in any case. */
  ghost predicate Taken(before: seq<Node>, g: View, t: Table, p: nat, i: nat, c: Cell, after: seq<Node>, g': View) {
    Standing(after, g', t) && Framed(before, g, after, g') && RowPut(before, g, p, i, c, after, g')
  }

  /** The cursor points into a leaf. */
  ghost predicate Pointed(pages: seq<Node>, g: View, t: Table, p: nat, i: nat) {
    Standing(pages, g, t) && p in g.level && p < |pages| && pages[p].Leaf? && i <= |pages[p].cells|
  }

  lemma PutByEdit(before: seq<Node>, g: View, p: nat, i: nat, c: Cell, after: seq<Node>, g': View, j: nat, mid: seq<nat>)
    requires j < |g.order| && g.order[j] == p && g'.order == g.order[..j] + mid + g.order[j + 1..]
    requires forall a :: 0 <= a < |g.order| && a != j ==> CellsAt(after, g.order[a]) == CellsAt(before, g.order[a])
    requires i <= |CellsAt(before, p)| && Contents(after, mid) == WithCell(CellsAt(before, p), i, c)
    ensures RowPut(before, g, p, i, c, after, g')
  {
    ContentsEdit(before, after, g.order, g'.order, j, mid, i, c);
  }

  lemma RoomTaken(before: seq<Node>, g: View, t: Table, p: nat, i: nat, c: Cell)
    requires Pointed(before, g, t, p, i) && |before[p].cells| < t.cap
    ensures Taken(before, g, t, p, i, c, before[p := before[p].(cells := WithCell(before[p].cells, i, c))], g)
  {
    var cells := WithCell(before[p].cells, i, c);
    var after := before[p := before[p].(cells := cells)];
    EditStands(before, g, t, p, cells);
    var j := StandingPlace(before, g, t, p);
    assert g.order == g.order[..j] + [p] + g.order[j + 1..];
    assert Contents(after, [p]) == CellsAt(after, p) + Contents(after, []);
    hide Standing, Framed, WithCell;
    PutByEdit(before, g, p, i, c, after, g, j, [p]);
  }

  /** The view after leaf p was split. */
  ghost function LooseView(level: map<nat, nat>, order: seq<nat>, j: nat, n: nat): View
    requires j < |order|
  {
    View(level, map[], map[], map[], order[..j + 1] + [n] + order[j + 1..])
  }

  /** What the code may rely on when it passes the upper half of a leaf to the parent. */
  lemma HalvedLeafHooked(before: seq<Node>, g: View, t: Table, p: nat, i: nat, c: Cell, cut: seq<Node>, n: nat)
    requires Pointed(before, g, t, p, i) && p != t.root && LeafHalved(before, t, p, i, c, cut, n)
    ensures Hooked(cut, g.level[n := 0], t, n) && n !in g.level
    ensures var y := before[p].parent;
            && y in g.level && y < n && before[y].Internal? && g.level[y] == 1 && g.level[y] <= g.level[t.root]
            && cut[y] == before[y] && y != p && y != n && cut[p].parent == y && cut[p].Leaf? && 0 < |cut[p].cells| < |before[p].cells| + 1
            && |before[p].cells| > 0 && |before[y].children| == |before[y].keys| + 1 && |before[y].keys| <= INTERNAL_NODE_MAX_KEYS
  {
    var level := g.level[n := 0];
    assert LeafStands(before, g, t, p) && InPlace(before, g.level, t, 0, p);
    assert InPlace(before, g.level, t, 0, before[p].parent) && InPlace(before, g.level, t, 0, t.root);
    forall x | x in g.level ensures x < n { assert InPlace(before, g.level, t, 0, x); }
    forall x | x in level ensures InPlace(cut, level, t, n, x) {
      if x in g.level { assert InPlace(before, g.level, t, 0, x); }
    }
  }

  lemma LeafArrives(before: seq<Node>, g: View, t: Table, p: nat, i: nat, c: Cell, cut: seq<Node>, n: nat, waiting: seq<Node>)
    requires Pointed(before, g, t, p, i) && p != t.root && LeafHalved(before, t, p, i, c, cut, n)
    requires var y := before[p].parent;
             && y < |cut| && cut[y].Internal? && |waiting| == |cut| && waiting == cut[y := waiting[y]] && waiting[y].Internal?
             && waiting[y] == cut[y].(keys := waiting[y].keys) && |waiting[y].keys| == |cut[y].keys|
    ensures Arriving(waiting, g.level[n := 0], t, before[p].parent, n, Plain)
    ensures Grown(cut, g.level[n := 0], waiting, g.level[n := 0])
  {
    var level, y := g.level[n := 0], before[p].parent;
    HalvedLeafHooked(before, g, t, p, i, c, cut, n);
    HookedKeys(cut, level, t, n, y, waiting);
    HookedShape(waiting, level, t, n);
    assert InPlace(waiting, level, t, n, y) && InPlace(waiting, level, t, n, n);
    forall x | x in level ensures x < |cut| { assert InPlace(waiting, level, t, n, x); }
    hide Hooked, Shape, Standing, LeafHalved;
  }

  /** The cells of the leaves once the cascade is over. */
  lemma LeavesKept(waiting: seq<Node>, level: map<nat, nat>, after: seq<Node>, level': map<nat, nat>, t: Table, y: nat, x: nat)
    requires Joined(waiting, level, after, level', t, y) && x in level && level[x] == 0 && level[y] == 1
    requires x < |waiting| && waiting[x].Leaf?
    ensures x < |after| && after[x].Leaf? && after[x].cells == waiting[x].cells && after[x].next == waiting[x].next
    ensures x in level' && level'[x] == 0
  {
    assert SameContent(waiting, after, x);
  }

  ghost predicate SameLeaf(cut: seq<Node>, after: seq<Node>, x: nat) {
    x < |cut| && cut[x].Leaf? ==>
      x < |after| && after[x].Leaf? && after[x].cells == cut[x].cells && after[x].next == cut[x].next
  }

  /** The chain after the split of leaf p. */
  lemma LooseLinked(before: seq<Node>, g: View, t: Table, p: nat, i: nat, c: Cell, cut: seq<Node>, n: nat, after: seq<Node>, j: nat)
    requires Pointed(before, g, t, p, i) && LeafHalved(before, t, p, i, c, cut, n)
    requires j < |g.order| && g.order[j] == p && n !in g.level
    requires forall x {:trigger SameLeaf(cut, after, x)} :: x in g.level || x == n ==> SameLeaf(cut, after, x)
    ensures Linked(after, LooseView(map[], g.order, j, n).order)
    ensures RowPut(before, g, p, i, c, after, LooseView(map[], g.order, j, n))
  {
    LooseChain(before, g, t, p, i, c, cut, n, after, j);
    LooseRows(before, g, t, p, i, c, cut, n, after, j);
  }

  lemma LooseChain(before: seq<Node>, g: View, t: Table, p: nat, i: nat, c: Cell, cut: seq<Node>, n: nat, after: seq<Node>, j: nat)
    requires Pointed(before, g, t, p, i) && LeafHalved(before, t, p, i, c, cut, n)
    requires j < |g.order| && g.order[j] == p && n !in g.level
    requires forall x {:trigger SameLeaf(cut, after, x)} :: x in g.level || x == n ==> SameLeaf(cut, after, x)
    ensures Linked(after, LooseView(map[], g.order, j, n).order)
  {
    var order, order' := g.order, LooseView(map[], g.order, j, n).order;
    hide Hooked, WithCell, Framed;
    forall a | 0 <= a < |order'| ensures order'[a] == (if a <= j then order[a] else if a == j + 1 then n else order[a - 1]) { }
    forall a | 0 <= a < |order'| ensures Link(after, order', a) {
      var b := if a <= j then a else a - 1;
      assert Link(before, order, b);
      if a != j + 1 { assert order[b] in g.level && order'[a] == order[b]; }
      assert SameLeaf(cut, after, order'[a]);
      assert a + 1 < |order'| ==> order'[a + 1] == if a + 1 <= j then order[a + 1] else if a == j then n else order[a];
    }
    forall a, b | 0 <= a < b < |order'| ensures order'[a] != order'[b] {
      assert a != j + 1 ==> order'[a] in g.level;
      assert b != j + 1 ==> order'[b] in g.level;
    }
  }

  lemma LooseRows(before: seq<Node>, g: View, t: Table, p: nat, i: nat, c: Cell, cut: seq<Node>, n: nat, after: seq<Node>, j: nat)
    requires Pointed(before, g, t, p, i) && LeafHalved(before, t, p, i, c, cut, n)
    requires j < |g.order| && g.order[j] == p && n !in g.level
    requires forall x {:trigger SameLeaf(cut, after, x)} :: x in g.level || x == n ==> SameLeaf(cut, after, x)
    ensures RowPut(before, g, p, i, c, after, LooseView(map[], g.order, j, n))
  {
    var order, view := g.order, LooseView(map[], g.order, j, n);
    var cells := WithCell(before[p].cells, i, c);
    assert view.order == order[..j] + [p, n] + order[j + 1..];
    forall a | 0 <= a < |order| && a != j ensures CellsAt(after, order[a]) == CellsAt(before, order[a]) {
      assert Link(before, order, a) && order[a] in g.level && order[a] != p;
      assert SameLeaf(cut, after, order[a]);
    }
    hide Standing, WithCell;
    assert SameLeaf(cut, after, p) && SameLeaf(cut, after, n);
    assert [p, n][1..] == [n] && Contents(after, [n]) == CellsAt(after, n) + Contents(after, []);
    assert cells == cells[..SplitAt(t)] + cells[SplitAt(t)..];
    assert Contents(after, [p, n]) == cells;
    hide Contents;
    PutByEdit(before, g, p, i, c, after, view, j, [p, n]);
  }

  /** After the whole cascade. */
  lemma PassedTaken(before: seq<Node>, g: View, t: Table, p: nat, i: nat, c: Cell, cut: seq<Node>, n: nat, waiting: seq<Node>,
                    after: seq<Node>, level': map<nat, nat>, j: nat)
    requires Pointed(before, g, t, p, i) && p != t.root && LeafHalved(before, t, p, i, c, cut, n)
    requires var y := before[p].parent;
             && y < |cut| && cut[y].Internal? && |waiting| == |cut| && waiting == cut[y := waiting[y]] && waiting[y].Internal?
             && waiting[y] == cut[y].(keys := waiting[y].keys) && |waiting[y].keys| == |cut[y].keys|
    requires Joined(waiting, g.level[n := 0], after, level', t, before[p].parent)
    requires j < |g.order| && g.order[j] == p
    ensures Taken(before, g, t, p, i, c, after, LooseView(level', g.order, j, n))
  {
    var level, y, view := g.level[n := 0], before[p].parent, LooseView(level', g.order, j, n);
    HalvedLeafHooked(before, g, t, p, i, c, cut, n);
    forall x | x in g.level || x == n
      ensures SameLeaf(cut, after, x) && (x < |cut| && cut[x].Leaf? ==> x in level' && level'[x] == 0)
    {
      if x < |cut| && cut[x].Leaf? {
        if x != n { assert LeafStands(before, g, t, x); }
        LeavesKept(waiting, level, after, level', t, y, x);
      }
    }
    LooseLinked(before, g, t, p, i, c, cut, n, after, j);
    assert RowPut(before, g, p, i, c, after, view);
    PassedStands(before, g, t, p, i, c, cut, n, waiting, after, level', j);
    LeafArrives(before, g, t, p, i, c, cut, n, waiting);
    hide *;
    PassedAside(before, g, t, p, i, c, cut, n, waiting, after, level');
  }

  lemma PassedAside(before: seq<Node>, g: View, t: Table, p: nat, i: nat, c: Cell, cut: seq<Node>, n: nat, waiting: seq<Node>,
                    after: seq<Node>, level': map<nat, nat>)
    requires Pointed(before, g, t, p, i) && LeafHalved(before, t, p, i, c, cut, n)
    requires Grown(cut, g.level[n := 0], waiting, g.level[n := 0])
    requires Joined(waiting, g.level[n := 0], after, level', t, before[p].parent)
    ensures Aside(before, g.level, after, level')
  {
    hide Hooked, Standing, WithCell;
  }

  lemma PassedStands(before: seq<Node>, g: View, t: Table, p: nat, i: nat, c: Cell, cut: seq<Node>, n: nat, waiting: seq<Node>,
                     after: seq<Node>, level': map<nat, nat>, j: nat)
    requires Pointed(before, g, t, p, i) && p != t.root && LeafHalved(before, t, p, i, c, cut, n) && n !in g.level
    requires var y := before[p].parent;
             && y < |cut| && cut[y].Internal? && |waiting| == |cut| && waiting == cut[y := waiting[y]] && waiting[y].Internal?
    requires Joined(waiting, g.level[n := 0], after, level', t, before[p].parent)
    requires j < |g.order| && g.order[j] == p && Linked(after, LooseView(level', g.order, j, n).order)
    requires forall x {:trigger SameLeaf(cut, after, x)} :: x in g.level || x == n ==>
               SameLeaf(cut, after, x) && (x < |cut| && cut[x].Leaf? ==> x in level' && level'[x] == 0)
    ensures Standing(after, LooseView(level', g.order, j, n), t)
  {
    var level, view := g.level[n := 0], LooseView(level', g.order, j, n);
    forall x | x in level' ensures LeafStands(after, view, t, x) {
      if x < |after| && after[x].Leaf? {
        assert x in level && x < |waiting| && waiting[x].Leaf? && cut[x].Leaf? && SameLeaf(cut, after, x);
        if x in g.level {
          assert LeafStands(before, g, t, x);
          InLoose(level', g.order, j, n, x);
        } else {
          InLoose(level', g.order, j, n, x);
        }
      }
    }
    forall a | 0 <= a < |view.order| ensures view.order[a] in level' {
      assert view.order[a] == if a <= j then g.order[a] else if a == j + 1 then n else g.order[a - 1];
    }
    hide LeafHalved;
  }

  lemma InLoose(level: map<nat, nat>, order: seq<nat>, j: nat, n: nat, x: nat)
    requires j < |order| && (x in order || x == n)
    ensures x in LooseView(level, order, j, n).order
  {
    var order' := LooseView(level, order, j, n).order;
    assert order'[j + 1] == n;
    if a :| 0 <= a < |order| && order[a] == x {
      assert order'[if a <= j then a else a + 1] == x;
    }
  }

  // The root is a leaf

  /** A root that is a leaf is the whole table. */
  lemma LoneLeaf(pages: seq<Node>, g: View, t: Table)
    requires Standing(pages, g, t) && t.root < |pages| && pages[t.root].Leaf?
    ensures g.level.Keys == {t.root} && g.order == [t.root]
  {
    assert LeafStands(pages, g, t, t.root);
    forall x | x in g.level ensures x == t.root { assert InPlace(pages, g.level, t, 0, x); }
    assert g.order[0] == t.root;
    assert g.order[|g.order| - 1] == t.root;
  }

  lemma RootTaken(before: seq<Node>, g: View, t: Table, i: nat, c: Cell, cut: seq<Node>, n: nat, after: seq<Node>, m: Key)
    returns (g': View)
    requires Pointed(before, g, t, t.root, i) && LeafHalved(before, t, t.root, i, c, cut, n) && NewRoot(cut, after, t.root, n, m)
    ensures Taken(before, g, t, t.root, i, c, after, g')
  {
    var root, left := t.root, n + 1;
    LoneLeaf(before, g, t);
    g' := View(map[root := 1, left := 0, n := 0], map[], map[], map[], [left, n]);
    assert InPlace(before, g.level, t, 0, root);
    forall x | x in g'.level ensures InPlace(after, g'.level, t, 0, x) { }
    RootChain(before, g, t, i, c, cut, n, after, m, g');
    forall x | x in g'.level ensures LeafStands(after, g', t, x) {
      assert g'.order[0] == left && g'.order[1] == n;
    }
    hide WithCell;
  }

  lemma RootChain(before: seq<Node>, g: View, t: Table, i: nat, c: Cell, cut: seq<Node>, n: nat, after: seq<Node>, m: Key, g': View)
    requires Pointed(before, g, t, t.root, i) && LeafHalved(before, t, t.root, i, c, cut, n) && NewRoot(cut, after, t.root, n, m)
    requires g.order == [t.root] && g'.order == [n + 1, n]
    ensures Linked(after, g'.order) && RowPut(before, g, t.root, i, c, after, g')
  {
    var left := n + 1;
    assert Link(before, g.order, 0);
    hide Standing;
    assert Link(after, g'.order, 0) && Link(after, g'.order, 1);
    var cells := WithCell(before[t.root].cells, i, c);
    hide WithCell;
    assert [left, n][1..] == [n] && Contents(after, [n]) == CellsAt(after, n) + Contents(after, []);
    assert cells == cells[..SplitAt(t)] + cells[SplitAt(t)..];
    assert Contents(after, [left, n]) == cells;
    assert g'.order == g.order[..0] + [left, n] + g.order[1..];
    hide Contents, NewRoot;
    PutByEdit(before, g, t.root, i, c, after, g', 0, [left, n]);
  }

  // Trees

  /** In a tree the cursor of an absent key is the key's place among all rows. */
  lemma PutInOrder(before: seq<Node>, g: View, t: Table, p: nat, i: nat, c: Cell, after: seq<Node>, g': View)
    requires Insertable(before, g, t, p, i, c) && RowPut(before, g, p, i, c, after, g')
    ensures CellAdded(before, g, after, g', c)
  {
    var j: nat :| j < |g.order| && g.order[j] == p && Position(before, g.order, j, i) <= |Contents(before, g.order)|
      && Contents(after, g'.order) == WithCell(Contents(before, g.order), Position(before, g.order, j, i), c);
    GlobalLowerBound(before, g, t, j, i, c.key);
  }

  /** A completed insert, seen without regard to order. */
  lemma InsertedTaken(before: seq<Node>, g: View, t: Table, p: nat, i: nat, c: Cell, after: seq<Node>, g': View)
    requires Insertable(before, g, t, p, i, c) && TreeInserted(before, g, after, g', t, c)
    ensures Taken(before, g, t, p, i, c, after, g')
  {
    InvStands(after, g', t);
    var j := LeafPlace(before, g, t, 0, p);
    GlobalLowerBound(before, g, t, j, i, c.key);
    var had := Contents(before, g.order);
    var pos: nat :| IsCellLowerBound(had, c.key, pos) && Contents(after, g'.order) == WithCell(had, pos, c);
    OneLowerBound(had, c.key, pos, Position(before, g.order, j, i));
    hide Inv;
  }

  lemma OneLowerBound(cells: seq<Cell>, key: Key, i: nat, j: nat)
    requires IsCellLowerBound(cells, key, i) && IsCellLowerBound(cells, key, j)
    ensures i == j
  {
    assert i < |cells| ==> (cells[i].key < key <==> i < j);
    assert j < |cells| ==> (cells[j].key < key <==> j < i);
  }

  /** What an insert at the cursor of an absent key does to a tree. */
  ghost predicate Settled(before: seq<Node>, g: View, t: Table, page: nat, c: Cell, after: seq<Node>, g': View,
                          marks: set<nat>, marks': set<nat>)
  {
    && (if InsertClear(before, g, t, page) then TreeInserted(before, g, after, g', t, c)
        else (forall v, over :: !Inv(after, v, t, over)) && CellAdded(before, g, after, g', c))
    && PageMarks(before, g, t, page, after, g'.level, marks, marks')
  }

  lemma RoomSettled(before: seq<Node>, g: View, t: Table, p: nat, i: nat, c: Cell, marks: set<nat>)
    requires Insertable(before, g, t, p, i, c) && |before[p].cells| < t.cap
    ensures Settled(before, g, t, p, c, before[p := before[p].(cells := WithCell(before[p].cells, i, c))], g, marks, marks + {p})
  {
    RoomInserted(before, g, t, p, i, c);
    assert PageOk(before, g, t, 0, p);
    hide Inv, TreeInserted, WithCell;
  }

  lemma RootEnds(before: seq<Node>, g: View, t: Table, i: nat, c: Cell, cut: seq<Node>, n: nat, after: seq<Node>, m: Key,
                 marks: set<nat>)
    returns (g': View)
    requires Pointed(before, g, t, t.root, i) && LeafHalved(before, t, t.root, i, c, cut, n) && NewRoot(cut, after, t.root, n, m)
    requires SplitAt(t) <= |WithCell(before[t.root].cells, i, c)| && SplitAt(t) > 0 && m == WithCell(before[t.root].cells, i, c)[SplitAt(t) - 1].key
    ensures Taken(before, g, t, t.root, i, c, after, g')
    ensures Insertable(before, g, t, t.root, i, c) ==>
              Settled(before, g, t, t.root, c, after, g', marks, marks + {t.root, n} + {t.root, |cut|})
  {
    hide Insertable, Standing, NewRoot, WithCell, TreeInserted, Taken, PageMarks, InsertClear;
    if Insertable(before, g, t, t.root, i, c) {
      g' := RootLeafInserted(before, g, t, i, c, cut, n, after);
      RootPageMarks(before, g, t, i, c, cut, n, after, g'.level, m, marks);
      InsertedTaken(before, g, t, t.root, i, c, after, g');
    } else {
      g' := RootTaken(before, g, t, i, c, cut, n, after, m);
    }
  }

  /** The parent after the code has lowered the separator it found. */
  ghost predicate Lowered(t: Table, p: nat, y: nat, cut: seq<Node>, idx: nat, waiting: seq<Node>) {
    && p < |cut| && cut[p].Leaf? && |cut[p].cells| > 0 && y < |cut| && cut[y].Internal? && idx <= |cut[y].keys|
    && waiting == if idx < |cut[y].keys| then cut[y := cut[y].(keys := cut[y].keys[idx := Last(cut[p].cells).key])] else cut
  }

  /** What is known of a tree when the upper half of a leaf arrives at the parent. */
  ghost predicate Goes(before: seq<Node>, g: View, t: Table, p: nat, i: nat, c: Cell, cut: seq<Node>, n: nat, idx: nat,
                       waiting: seq<Node>, a: Arrival, j: nat)
    requires p < |before|
  {
    var y := before[p].parent;
    && Arriving(waiting, g.level[n := 0], t, y, n, a) && j < |g.order| && g.order[j] == p
    && if !Insertable(before, g, t, p, i, c) then a == Plain
       else
         && a.InOrder? && a.i == idx && LeafWaits(before, g, t, p, i, c, cut, n, j, y, waiting, a.g)
         && LeafAboveKept(before, g, t, p, cut, waiting, y, idx)
         && (Good(waiting, g.level[n := 0], t, y, a) <==> InsertClear(before, g, t, p))
  }

  lemma LeafGoesUp(before: seq<Node>, g: View, t: Table, p: nat, i: nat, c: Cell, cut: seq<Node>, n: nat, idx: nat, waiting: seq<Node>)
    returns (a: Arrival, j: nat)
    requires Pointed(before, g, t, p, i) && p != t.root && LeafHalved(before, t, p, i, c, cut, n) && |before[p].cells| > 0
    requires Lowered(t, p, before[p].parent, cut, idx, waiting)
    requires idx == Bisect(cut[before[p].parent].keys, Last(before[p].cells).key, 0, |cut[before[p].parent].keys|)
    ensures Goes(before, g, t, p, i, c, cut, n, idx, waiting, a, j)
    ensures Arriving(waiting, g.level[n := 0], t, before[p].parent, n, a)
  {
    j := StandingPlace(before, g, t, p);
    HalvedLeafHooked(before, g, t, p, i, c, cut, n);
    LeafArrives(before, g, t, p, i, c, cut, n, waiting);
    hide Standing, LeafHalved, Insertable, Arriving, Hooked;
    if Insertable(before, g, t, p, i, c) {
      a := TreeGoesUp(before, g, t, p, i, c, cut, n, idx, waiting, j);
    } else {
      a := Plain;
    }
  }

  lemma TreeWaits(before: seq<Node>, g: View, t: Table, p: nat, i: nat, c: Cell, cut: seq<Node>, n: nat, idx: nat,
                  waiting: seq<Node>, j: nat)
    returns (g2: View, k2: Key)
    requires LeafCut(before, g, t, p, i, c, cut, n) && p != t.root && j < |g.order| && g.order[j] == p
    requires p < |before| && before[p].Leaf? && |before[p].cells| > 0
    requires var y := before[p].parent;
             y < n && y != p && cut[y] == before[y] && before[y].Internal? && |before[y].children| == |before[y].keys| + 1 && cut[p].parent == y
    requires Lowered(t, p, before[p].parent, cut, idx, waiting)
    requires idx == Bisect(cut[before[p].parent].keys, Last(before[p].cells).key, 0, |cut[before[p].parent].keys|)
    ensures Pending(waiting, g2, t, before[p].parent, idx, k2, n) && LeafWaits(before, g, t, p, i, c, cut, n, j, before[p].parent, waiting, g2)
    ensures LeafAboveKept(before, g, t, p, cut, waiting, before[p].parent, idx)
  {
    hide Inv, NonEmpty, Shape, LeafWaits, AboveLeaf, Insertable, LeafHalved, Pending;
    var w, g1, ip, s := LeafAbove(before, g, t, p, i, c, cut, n, j);
    LeafIndex(before, g, t, p, i, c, cut, n, j, w, g1, ip, s);
    BisectSorted(cut[before[p].parent].keys, Last(before[p].cells).key, 0, |cut[before[p].parent].keys|);
    g2, k2 := LeafWaiting(before, g, t, p, i, c, cut, n, j, w, g1, ip, s, waiting);
    LeafParentKept(before, g, t, p, i, c, cut, n, ip, s, waiting);
  }

  lemma TreeGoesUp(before: seq<Node>, g: View, t: Table, p: nat, i: nat, c: Cell, cut: seq<Node>, n: nat, idx: nat,
                   waiting: seq<Node>, j: nat)
    returns (a: Arrival)
    requires LeafCut(before, g, t, p, i, c, cut, n) && p != t.root && j < |g.order| && g.order[j] == p
    requires p < |before| && before[p].Leaf? && |before[p].cells| > 0
    requires var y := before[p].parent;
             y < n && y != p && cut[y] == before[y] && before[y].Internal? && |before[y].children| == |before[y].keys| + 1 && cut[p].parent == y
    requires Lowered(t, p, before[p].parent, cut, idx, waiting)
    requires idx == Bisect(cut[before[p].parent].keys, Last(before[p].cells).key, 0, |cut[before[p].parent].keys|)
    ensures Goes(before, g, t, p, i, c, cut, n, idx, waiting, a, j)
  {
    hide Arriving, Clear, Insertable, LeafHalved, Pending, LeafWaits, Lowered;
    var g2, k2 := TreeWaits(before, g, t, p, i, c, cut, n, idx, waiting, j);
    a := LeafArrival(before, g, t, p, i, c, cut, n, j, waiting, g2, idx, k2);
    WaitsLevel(before, g, t, p, i, c, cut, n, j, before[p].parent, waiting, g2);
  }

  lemma WaitsLevel(before: seq<Node>, g: View, t: Table, p: nat, i: nat, c: Cell, cut: seq<Node>, n: nat, j: nat, pp: nat,
                   waiting: seq<Node>, g2: View)
    requires LeafWaits(before, g, t, p, i, c, cut, n, j, pp, waiting, g2)
    ensures g2.level == g.level[n := 0]
  {
  }

  lemma LeafEnds(before: seq<Node>, g: View, t: Table, p: nat, i: nat, c: Cell, cut: seq<Node>, n: nat, idx: nat, waiting: seq<Node>,
                 a: Arrival, j: nat, after: seq<Node>, level': map<nat, nat>, view: View, m0: set<nat>, m1: set<nat>, m2: set<nat>)
    returns (g': View)
    requires Pointed(before, g, t, p, i) && p != t.root && LeafHalved(before, t, p, i, c, cut, n)
    requires Lowered(t, p, before[p].parent, cut, idx, waiting) && Goes(before, g, t, p, i, c, cut, n, idx, waiting, a, j)
    requires Arriving(waiting, g.level[n := 0], t, before[p].parent, n, a)
    requires Outcome(waiting, g.level[n := 0], t, before[p].parent, a, after, level', view)
    requires MarksOutcome(waiting, g.level[n := 0], t, before[p].parent, n, a, after, level', m1, m2)
    requires m1 == m0 + {p, n} + if idx < |cut[before[p].parent].keys| then {before[p].parent} else {}
    ensures Taken(before, g, t, p, i, c, after, g')
    ensures Insertable(before, g, t, p, i, c) ==> Settled(before, g, t, p, c, after, g', m0, m2)
  {
    assert Joined(waiting, g.level[n := 0], after, level', t, before[p].parent) && Hooked(after, level', t, 0);
    hide Hooked, Outcome, MarksOutcome, Standing, LeafHalved, Insertable, Arriving, InsertClear, TreeInserted, Taken, PageMarks, LeafWaits, Joined;
    PassedTaken(before, g, t, p, i, c, cut, n, waiting, after, level', j);
    g' := LooseView(level', g.order, j, n);
    if Insertable(before, g, t, p, i, c) {
      LeafPageMarks(before, g, t, p, i, c, cut, n, j, waiting, a.g, a, after, level', m0, m1, m2);
      LeafOutcome(before, g, t, p, i, c, cut, n, j, waiting, a.g, a, after, level', view);
      if InsertClear(before, g, t, p) {
        g' := view;
        InsertedTaken(before, g, t, p, i, c, after, g');
        InsertedMarks(before, g, t, p, c, after, level', view, m0, m2);
      } else {
        TakenAdded(before, g, t, p, i, c, after, g');
        UnclearMarks(before, g, t, p, after, level', g'.level, m0, m2);
      }
    }
  }

  lemma InsertedMarks(before: seq<Node>, g: View, t: Table, p: nat, c: Cell, after: seq<Node>, level': map<nat, nat>, view: View,
                      m0: set<nat>, m2: set<nat>)
    requires PageMarks(before, g, t, p, after, level', m0, m2) && TreeInserted(before, g, after, view, t, c) && Hooked(after, level', t, 0)
    ensures PageMarks(before, g, t, p, after, view.level, m0, m2)
  {
    hide Inv, Framed, PageMarks, Hooked;
    MarksInView(before, g, t, p, after, level', view, m0, m2);
  }

  lemma UnclearMarks(before: seq<Node>, g: View, t: Table, p: nat, after: seq<Node>, level': map<nat, nat>, level2: map<nat, nat>,
                     m0: set<nat>, m2: set<nat>)
    requires PageMarks(before, g, t, p, after, level', m0, m2) && !InsertClear(before, g, t, p)
    ensures PageMarks(before, g, t, p, after, level2, m0, m2)
  {
  }

  lemma TakenAdded(before: seq<Node>, g: View, t: Table, p: nat, i: nat, c: Cell, after: seq<Node>, g': View)
    requires Insertable(before, g, t, p, i, c) && Taken(before, g, t, p, i, c, after, g')
    ensures CellAdded(before, g, after, g', c)
  {
    hide Insertable, Standing;
    PutInOrder(before, g, t, p, i, c, after, g');
  }
}
