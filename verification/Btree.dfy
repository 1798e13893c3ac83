/** The B+-tree operations of src/btree.c on a page store. */
module Btree {
  import opened Layout
  import opened Tree
  import opened TreeLeaf
  import opened TreeHalves
  import opened TreeUp
  import opened TreeContents
  import opened TreeLeafUp
  import opened TreeRuin
  import opened TreeDebt
  import opened TreeInsert
  import opened TreeArrival
  import opened TreeMarks
  import opened TreeSearch
  import opened TreeStanding
  import opened TreeStray

  class PageStore {
    var pages: seq<Node>
    /** The pages to be written back, and those of them that are marked as the source marks them. The
        loop that is added to create_new_root marks what it writes in both. */
    var dirty: set<nat>
    var marked: set<nat>

    constructor ()
      ensures pages == [] && dirty == {} && marked == {}
    {
      pages, dirty, marked := [], {}, {};
    }

    method MarkPageDirty(pg: nat)
      modifies this`dirty, this`marked
      ensures dirty == old(dirty) + {pg} && marked == old(marked) + {pg}
    {
      dirty, marked := dirty + {pg}, marked + {pg};
    }

    /** A mark that the source does not make. */
    method MarkUnnoticed(pg: nat)
      modifies this`dirty
      ensures dirty == old(dirty) + {pg}
    {
      dirty := dirty + {pg};
    }

    /** get_page on the page number num_pages: a page with arbitrary content joins the store. */
    method NewPage() returns (pg: nat)
      modifies this`pages
      ensures pg == |old(pages)| && |pages| == pg + 1 && pages[..pg] == old(pages)
      ensures forall y :: 0 <= y < pg ==> pages[y] == old(pages)[y]
    {
      pg := |pages|;
      var content: Node := *;
      pages := pages + [content];
    }

    static method InternalNodeFindChild(keys: seq<Key>, key: Key) returns (minIdx: nat)
      ensures minIdx == Bisect(keys, key, 0, |keys|)
      ensures minIdx <= |keys| && (SortedKeys(keys) ==> IsLowerBound(keys, key, minIdx))
      ensures key == 0 ==> minIdx == 0
    {
      minIdx := 0;
      var maxIdx := |keys|;
      while minIdx != maxIdx
        invariant minIdx <= maxIdx <= |keys| && (key == 0 ==> minIdx == 0)
        invariant Bisect(keys, key, minIdx, maxIdx) == Bisect(keys, key, 0, |keys|)
        decreases maxIdx - minIdx
      {
        var idx := (minIdx + maxIdx) / 2;
        if keys[idx] >= key { maxIdx := idx; } else { minIdx := idx + 1; }
      }
      if SortedKeys(keys) { BisectSorted(keys, key, 0, |keys|); }
    }

    static method LeafFindCell(cells: seq<Cell>, key: Key) returns (minIdx: nat)
      ensures minIdx == SearchCell(cells, key) && (SortedCells(cells) ==> IsCellLowerBound(cells, key, minIdx))
    {
      minIdx := 0;
      var maxIdx := |cells|;
      while minIdx != maxIdx
        invariant minIdx <= maxIdx <= |cells|
        invariant Bisect(CellKeys(cells), key, minIdx, maxIdx) == SearchCell(cells, key)
        decreases maxIdx - minIdx
      {
        var idx := (minIdx + maxIdx) / 2;
        if cells[idx].key >= key { maxIdx := idx; } else { minIdx := idx + 1; }
      }
      if SortedCells(cells) { BisectSorted(CellKeys(cells), key, 0, |cells|); }
    }

    /** find_node, on any pages whose child pointers lead downwards. */
    method FindNode(t: Table, pg: nat, key: Key, ghost g: View) returns (page: nat, cell: nat)
      requires Walkable(pages, g.level) && pg in g.level
      ensures page == Search(pages, g.level, pg, key) && page < |pages| && cell == SearchCell(pages[page].cells, key)
      ensures Inv(pages, g, t, 0) && g.lo[pg] < key <= g.hi[pg] ==> Found(pages, g, page, cell, key)
      decreases g.level[pg]
    {
      assert Descends(pages, g.level, pg);
      if pages[pg].Leaf? {
        cell := LeafFindCell(pages[pg].cells, key);
        page := pg;
      } else {
        var childIdx := InternalNodeFindChild(pages[pg].keys, key);
        page, cell := FindNode(t, pages[pg].children[childIdx], key, g);
      }
      if Inv(pages, g, t, 0) && g.lo[pg] < key <= g.hi[pg] { SearchFinds(pages, g, t, pg, key); }
    }

    /** The loop that points moved children at their new parent. */
    method Reparent(children: seq<nat>, p: nat)
      requires forall c :: c in children ==> c < |pages|
      modifies this
      ensures |pages| == |old(pages)|
      ensures forall y :: 0 <= y < |pages| ==>
                pages[y] == if y in children then WithParent(old(pages[y]), p) else old(pages[y])
      ensures old(dirty) <= dirty && (forall c :: c in children ==> c in dirty)
      ensures marked == old(marked) + Elems(children)
    {
      var i := 0;
      while i < |children|
        invariant i <= |children| && |pages| == |old(pages)| && old(dirty) <= dirty
        invariant forall y :: 0 <= y < |pages| ==>
                    pages[y] == if y in children[..i] then WithParent(old(pages[y]), p) else old(pages[y])
        invariant (forall c :: c in children[..i] ==> c in dirty) && marked == old(marked) + Elems(children[..i])
      {
        assert children[..i + 1] == children[..i] + [children[i]];
        var cpg := children[i];
        assert cpg in children;
        pages := pages[cpg := WithParent(pages[cpg], p)];
        MarkPageDirty(cpg);
        i := i + 1;
      }
      assert children[..i] == children;
    }

    /** The old root's content moves to a new page, which becomes the left child of the root.
        Children that move along are pointed at their new parent. */
    method CreateNewRoot(t: Table, n: nat, ghost level: map<nat, nat>)
      requires Shape(pages, level) && t.root in level && t.root < |pages| && n < |pages| && n != t.root
      requires pages[t.root].Internal? ==>
                 n !in pages[t.root].children && t.root !in pages[t.root].children
                 && forall c :: c in pages[t.root].children ==> c < |pages|
      requires n in dirty
      modifies this
      ensures NewRoot(old(pages), pages, t.root, n, MaxKey(old(pages), level, t.root))
      ensures old(dirty) <= dirty && Tracked(old(pages), pages, dirty)
      ensures marked == old(marked) + {t.root, |old(pages)|}
                        + if old(pages[t.root]).Internal? then Elems(old(pages[t.root]).children) else {}
    {
      var root := t.root;
      var left := NewPage();
      pages := pages[left := CopiedTo(pages[root], root)];
      ghost var level' := level[left := level[root]];
      CopyMax(old(pages), pages, level, root, left);
      var leftMax := MaxKey(pages, level', left);
      pages := pages[root := Internal(true, 0, [leftMax], [left, n])];
      pages := pages[n := WithParent(pages[n], root)];
      MarkPageDirty(root);
      MarkPageDirty(left);
      if pages[left].Internal? {
        Reparent(pages[left].children, left);
      }
    }

    /** internal_node_insert: child c enters page p. `a` says in what state the tree is. */
    method InternalNodeInsert(t: Table, p: nat, c: nat, ghost level: map<nat, nat>, ghost a: Arrival)
      returns (ghost level': map<nat, nat>, ghost g': View, ghost idx: nat)
      requires Ready(pages, level, t, p, c) && c in dirty
      requires |pages[p].keys| >= INTERNAL_NODE_MAX_KEYS ==> Arriving(pages, level, t, p, c, a)
      modifies this
      ensures old(dirty) <= dirty && Tracked(old(pages), pages, dirty)
      ensures |old(pages[p].keys)| < INTERNAL_NODE_MAX_KEYS ==>
                Entered(old(pages), level, p, c, idx, pages) && marked == old(marked) + {p}
      ensures Arriving(old(pages), level, t, p, c, a) ==>
                && Outcome(old(pages), level, t, p, a, pages, level', g')
                && MarksOutcome(old(pages), level, t, p, c, a, pages, level', old(marked), marked)
      decreases level[t.root] - level[p], if |pages[p].keys| >= INTERNAL_NODE_MAX_KEYS then 3 else 0
    {
      ghost var before := pages;
      assert Descends(pages, level, p);
      var childMax := MaxKey(pages, level, c);
      var index := InternalNodeFindChild(pages[p].keys, childMax);
      idx := index;
      var x := pages[p];
      if |x.keys| >= INTERNAL_NODE_MAX_KEYS {
        level', g' := InternalNodeSplitAndInsert(t, p, c, level, a);
        return;
      }
      var rightChild := x.children[|x.keys|];
      var rightMax := MaxKey(pages, level, rightChild);
      if childMax > rightMax {
        pages := pages[p := x.(keys := x.keys + [rightMax], children := x.children + [c])];
      } else {
        pages := pages[p := x.(keys := x.keys[..index] + [childMax] + x.keys[index..],
                               children := x.children[..index] + [c] + x.children[index..])];
      }
      pages := pages[c := WithParent(pages[c], p)];
      MarkPageDirty(p);
      level', g' := level, NoView;
      assert Entered(before, level, p, c, idx, pages);
      hide Arriving, Outcome, MarksOutcome, Entered, Ready, MaxKey;
      if Arriving(before, level, t, p, c, a) {
        g' := RoomOutcome(before, level, t, p, c, a, idx, pages);
        RoomMarks(before, level, t, p, c, a, idx, pages, old(marked));
      }
    }

    /** Page p keeps the lower half of its cells; the upper half, without the middle key, moves
        to a new page together with the children. */
    method HalveInternalNode(p: nat) returns (n: nat)
      requires p < |pages| && pages[p].Internal? && |pages[p].keys| == INTERNAL_NODE_MAX_KEYS
      requires |pages[p].children| == |pages[p].keys| + 1 && p !in pages[p].children
      requires forall c :: c in pages[p].children ==> c < |pages|
      modifies this
      ensures CutAt(old(pages)[p], old(pages), pages, p, n, SPLIT + 1)
      ensures pages[p].Internal? && |pages[p].keys| == 255 && pages[n].Internal? && |pages[n].keys| == 254
      ensures old(dirty) <= dirty && Tracked(old(pages), pages, dirty) && p in dirty && n in dirty
      ensures marked == old(marked) + Elems(old(pages[p]).children[SPLIT + 1..])
    {
      n := NewPage();
      var x := pages[p];
      var splitIdx := |x.keys| / 2;
      var moved := x.children[splitIdx + 1..];
      assert x == old(pages)[p];
      assert forall c :: c in moved ==> c in x.children;
      pages := pages[n := Internal(false, 0, x.keys[splitIdx + 1..], moved)];
      pages := pages[p := x.(keys := x.keys[..splitIdx], children := x.children[..splitIdx + 1])];
      MarkUnnoticed(p);
      MarkUnnoticed(n);
      assert pages[n].children == moved;
      Reparent(pages[n].children, n);
    }

    /** The new child enters the half that its largest key points to. */
    method InsertIntoHalf(t: Table, p: nat, n: nat, c: nat, ghost before: seq<Node>, ghost level: map<nat, nat>)
      returns (ghost h: nat, ghost idx: nat)
      requires Ready(before, level, t, p, c) && |before[p].keys| == INTERNAL_NODE_MAX_KEYS && level[c] < level[p] && n !in level
      requires CutAt(before[p], before, pages, p, n, SPLIT + 1)
      requires c in dirty
      modifies this
      ensures HalfEntered(before, level, p, c, old(pages), n, h, idx, pages)
      ensures old(dirty) <= dirty && Tracked(old(pages), pages, dirty) && marked == old(marked) + {h}
      decreases level[t.root] - level[p], 1
    {
      ghost var level' := level[n := level[p]];
      CutShape(before, level, p, pages, n);
      assert Descends(before, level, p);
      ghost var l, g';
      if MaxKey(pages, level', c) < MaxKey(pages, level', p) {
        h := p;
        l, g', idx := InternalNodeInsert(t, p, c, level', Plain);
      } else {
        h := n;
        l, g', idx := InternalNodeInsert(t, n, c, level', Plain);
      }
    }

    /** internal_node_split_and_insert: page p is full; its upper half moves to a new page, the
        child enters one of the halves, and the new page goes up to p's parent. */
    method InternalNodeSplitAndInsert(t: Table, p: nat, c: nat, ghost level: map<nat, nat>, ghost a: Arrival)
      returns (ghost level': map<nat, nat>, ghost g': View)
      requires Arriving(pages, level, t, p, c, a) && c in dirty && |pages[p].keys| >= INTERNAL_NODE_MAX_KEYS
      modifies this
      ensures old(dirty) <= dirty && Tracked(old(pages), pages, dirty)
      ensures Outcome(old(pages), level, t, p, a, pages, level', g')
      ensures MarksOutcome(old(pages), level, t, p, c, a, pages, level', old(marked), marked)
      decreases level[t.root] - level[p], 2
    {
      ghost var before := pages;
      FullReady(before, level, t, p, c, a);
      var oldMax := MaxKey(pages, level, p);
      var n := HalveInternalNode(p);
      ghost var mid := pages;
      ghost var h, idx := InsertIntoHalf(t, p, n, c, before, level);
      MakeHalved(before, level, t, p, c, a, mid, n, h, idx, pages);
      HalvedRoot(before, level, t, p, c, a, mid, n, h, idx, pages);
      hide Arriving, Outcome, MarksOutcome, Halved, HalfEntered, CutAt;
      if pages[p].isRoot {
        level', g' := GrowRoot(t, n, before, level, c, a, mid, h, idx, old(marked));
      } else {
        level', g' := PassUp(t, p, n, oldMax, before, level, c, a, mid, h, idx, old(marked));
      }
    }

    /** The halves of the root become the children of a new one. */
    method GrowRoot(t: Table, n: nat, ghost before: seq<Node>, ghost level: map<nat, nat>, ghost c: nat,
                     ghost a: Arrival, ghost mid: seq<Node>, ghost h: nat, ghost idx: nat, ghost marks: set<nat>)
      returns (ghost level': map<nat, nat>, ghost g': View)
      requires Halved(before, level, t, t.root, c, a, mid, n, h, idx, pages) && n in dirty
      requires marked == marks + Elems(before[t.root].children[SPLIT + 1..]) + {h}
      modifies this
      ensures old(dirty) <= dirty && Tracked(old(pages), pages, dirty)
      ensures Outcome(before, level, t, t.root, a, pages, level', g')
      ensures MarksOutcome(before, level, t, t.root, c, a, pages, level', marks, marked)
    {
      ghost var cut := pages;
      hide Arriving, Outcome, MarksOutcome, Halved, HalfEntered, Hooked, Shape, CutAt;
      HalvedRoot(before, level, t, t.root, c, a, mid, n, h, idx, cut);
      HalvedSize(before, level, t, t.root, c, a, mid, n, h, idx, cut);
      CreateNewRoot(t, n, level[n := level[t.root]]);
      level', g' := RootOutcome(before, level, t, c, a, mid, n, h, idx, cut, pages);
      RootMarks(before, level, t, c, a, mid, n, h, idx, cut, pages, level', g', MaxKey(cut, level[n := level[t.root]], t.root), marks, marked);
    }

    /** The upper half enters the parent of the page that was split. */
    method PassUp(t: Table, p: nat, n: nat, oldMax: Key, ghost before: seq<Node>, ghost level: map<nat, nat>, ghost c: nat,
                  ghost a: Arrival, ghost mid: seq<Node>, ghost h: nat, ghost idx: nat, ghost marks: set<nat>)
      returns (ghost level': map<nat, nat>, ghost g': View)
      requires Halved(before, level, t, p, c, a, mid, n, h, idx, pages) && p != t.root
      requires n in dirty && oldMax == MaxKey(before, level, p)
      requires marked == marks + Elems(before[p].children[SPLIT + 1..]) + {h}
      modifies this
      ensures old(dirty) <= dirty && Tracked(old(pages), pages, dirty)
      ensures Outcome(before, level, t, p, a, pages, level', g')
      ensures MarksOutcome(before, level, t, p, c, a, pages, level', marks, marked)
      decreases level[t.root] - level[p], 1
    {
      ghost var level1 := level[n := level[p]];
      ghost var cut := pages;
      ParentPlace(before, level, t, p, c, a, mid, n, h, idx, cut);
      assert Shape(cut, level1) && Shape(before, level) && level[p] < level[t.root] && t.root in level && n !in level;
      hide Arriving, Outcome, MarksOutcome, HalfEntered, Hooked, Halved, Shape, Continues;
      var pp, index := LowerSeparator(t, p, n, oldMax, before, level, c, a, mid, h, idx);
      ghost var waiting := pages;
      ghost var a' := NextArrival(before, level, t, p, c, a, mid, n, h, idx, cut, index, waiting);
      ArrivingReady(waiting, level1, t, pp, n, a');
      hide Passing;
      ghost var last;
      level', g', last := InternalNodeInsert(t, pp, n, level1, a');
      PassOutcome(before, level, t, p, c, a, mid, n, h, idx, cut, index, waiting, a', pages, level', g');
      PassMarks(before, level, t, p, c, a, mid, n, h, idx, cut, index, waiting, a', pages, level', marks, old(marked), marked);
    }

    /** The parent's separator for the page that was split becomes the lower half's largest key. */
    method LowerSeparator(t: Table, p: nat, n: nat, oldMax: Key, ghost before: seq<Node>, ghost level: map<nat, nat>,
                          ghost c: nat, ghost a: Arrival, ghost mid: seq<Node>, ghost h: nat, ghost idx: nat)
      returns (pp: nat, ghost index: nat)
      requires Halved(before, level, t, p, c, a, mid, n, h, idx, pages) && p != t.root && oldMax == MaxKey(before, level, p)
      modifies this
      ensures pp == old(pages)[p].parent && Passing(before, level, t, p, c, a, mid, n, h, idx, old(pages), index, pages)
      ensures old(dirty) <= dirty && Tracked(old(pages), pages, dirty) && marked == old(marked)
    {
      ghost var level1 := level[n := level[p]];
      ghost var cut := pages;
      ParentPlace(before, level, t, p, c, a, mid, n, h, idx, cut);
      hide Arriving, HalfEntered, Hooked;
      pp := pages[p].parent;
      var parent := pages[pp];
      var found := InternalNodeFindChild(parent.keys, oldMax);
      var pmax := MaxKey(pages, level1, p);
      hide Shape, Halved;
      if found < |parent.keys| {
        pages := pages[pp := parent.(keys := parent.keys[found := pmax])];
        MarkUnnoticed(pp);
      }
      index := found;
    }

    /** The temporary buffer of a leaf split: the old cells with the new one in its place. */
    static method CollectCells(cells: seq<Cell>, cell: nat, c: Cell) returns (temp: seq<Cell>)
      requires cell <= |cells|
      ensures temp == WithCell(cells, cell, c)
    {
      temp := [];
      var i := 0;
      while i < |cells| + 1
        invariant i <= |cells| + 1 && temp == WithCell(cells, cell, c)[..i]
      {
        if i == cell {
          temp := temp + [c];
        } else {
          var srcIdx := if i > cell then i - 1 else i;
          temp := temp + [cells[srcIdx]];
        }
        i := i + 1;
      }
    }

    /** A new leaf takes the upper half of the cells, the old one keeps the lower half. */
    method DistributeCells(t: Table, page: nat, cell: nat, key: Key, row: Row) returns (n: nat)
      requires page < |pages| && pages[page].Leaf? && cell <= |pages[page].cells| && |pages[page].cells| == t.cap
      modifies this
      ensures LeafHalved(old(pages), t, page, cell, Cell(key, row), pages, n)
      ensures pages[page].Leaf? && |pages[page].cells| == (t.cap + 1) / 2 && pages[n].Leaf? && |pages[n].cells| == t.cap + 1 - (t.cap + 1) / 2
      ensures old(dirty) <= dirty && Tracked(old(pages), pages, dirty) && n in dirty && n == |old(pages)|
      ensures marked == old(marked) + {page, n}
    {
      var oldNode := pages[page];
      n := NewPage();
      var splitIdx := (t.cap + 1) / 2;
      var temp := CollectCells(oldNode.cells, cell, Cell(key, row));
      pages := pages[n := Leaf(false, oldNode.parent, oldNode.next, temp[splitIdx..])];
      pages := pages[page := oldNode.(cells := temp[..splitIdx], next := n)];
      MarkPageDirty(page);
      MarkPageDirty(n);
    }

    /** leaf_node_split_and_insert: the cells of a full leaf and the new one are collected in a
        buffer and distributed over the leaf and a new one. */
    method LeafNodeSplitAndInsert(t: Table, page: nat, cell: nat, key: Key, row: Row, ghost g: View)
      returns (ghost g': View)
      requires Pointed(pages, g, t, page, cell) && |pages[page].cells| == t.cap
      modifies this
      ensures old(dirty) <= dirty && Tracked(old(pages), pages, dirty)
      ensures Taken(old(pages), g, t, page, cell, Cell(key, row), pages, g')
      ensures Insertable(old(pages), g, t, page, cell, Cell(key, row)) ==>
                Settled(old(pages), g, t, page, Cell(key, row), pages, g', old(marked), marked)
      ensures Straying(old(pages), g, t, page, cell, Cell(key, row)) ==> Strayed(old(pages), t, page, cell, Cell(key, row), pages)
      ensures RoomAbove(old(pages), t, page) ==> Placed(old(pages), g.level, t, page, cell, Cell(key, row), pages)
    {
      assert pages[page].isRoot <==> page == t.root by { assert InPlace(pages, g.level, t, 0, page); }
      assert t.cap >= 1 && (Straying(pages, g, t, page, cell, Cell(key, row)) ==> page != t.root);
      hide Standing, Insertable, LeafHalved, Tracked, Taken, Settled, Straying, Strayed, Placed;
      ghost var before := pages;
      var isRoot := pages[page].isRoot;
      var oldMax := Last(pages[page].cells).key;
      var n := DistributeCells(t, page, cell, key, row);
      if isRoot {
        g' := GrowLeafRoot(t, n, before, g, cell, Cell(key, row), old(marked));
      } else {
        g' := PassLeafUp(t, page, n, oldMax, before, g, cell, Cell(key, row), old(marked));
      }
    }

    /** The halves of a root leaf become the children of a new root. */
    method GrowLeafRoot(t: Table, n: nat, ghost before: seq<Node>, ghost g: View, ghost cell: nat, ghost c: Cell,
                        ghost marks: set<nat>)
      returns (ghost g': View)
      requires Pointed(before, g, t, t.root, cell) && LeafHalved(before, t, t.root, cell, c, pages, n)
      requires n in dirty && marked == marks + {t.root, n}
      modifies this
      ensures old(dirty) <= dirty && Tracked(old(pages), pages, dirty)
      ensures Taken(before, g, t, t.root, cell, c, pages, g')
      ensures Insertable(before, g, t, t.root, cell, c) ==> Settled(before, g, t, t.root, c, pages, g', marks, marked)
    {
      ghost var cut := pages;
      RootLeafLevels(before, t, cell, c, cut, n);
      hide Standing, LeafHalved, Insertable, Shape, Taken, Settled;
      CreateNewRoot(t, n, map[t.root := 0, n := 0]);
      g' := RootEnds(before, g, t, cell, c, cut, n, pages, MaxKey(cut, map[t.root := 0, n := 0], t.root), marks);
    }

    /** The new leaf enters the parent, whose separator for the old leaf becomes its largest key. */
    method PassLeafUp(t: Table, page: nat, n: nat, oldMax: Key, ghost before: seq<Node>, ghost g: View, ghost cell: nat, ghost c: Cell,
                      ghost marks: set<nat>)
      returns (ghost g': View)
      requires Pointed(before, g, t, page, cell) && LeafHalved(before, t, page, cell, c, pages, n) && page != t.root
      requires |before[page].cells| > 0 && oldMax == Last(before[page].cells).key && n in dirty && marked == marks + {page, n}
      modifies this
      ensures old(dirty) <= dirty && Tracked(old(pages), pages, dirty)
      ensures Taken(before, g, t, page, cell, c, pages, g')
      ensures Insertable(before, g, t, page, cell, c) ==> Settled(before, g, t, page, c, pages, g', marks, marked)
      ensures Straying(before, g, t, page, cell, c) ==> Strayed(before, t, page, cell, c, pages)
      ensures RoomAbove(before, t, page) ==> Placed(before, g.level, t, page, cell, c, pages)
    {
      ghost var cut := pages;
      assert page < |cut| && page < |before|;
      hide Pointed, LeafHalved, Insertable, Hooked, Arriving, Outcome, MarksOutcome, Taken, Settled, Straying, Strayed, Placed, Standing, Inv;
      HalvedLeafHooked(before, g, t, page, cell, c, cut, n);
      var parentPg := pages[page].parent;
      var parent := pages[parentPg];
      var oldNodeIdx := InternalNodeFindChild(parent.keys, oldMax);
      var oldNodeMax := Last(pages[page].cells).key;
      if oldNodeIdx < |parent.keys| {
        pages := pages[parentPg := parent.(keys := parent.keys[oldNodeIdx := oldNodeMax])];
        MarkPageDirty(parentPg);
      }
      ghost var waiting, marks1 := pages, marked;
      ghost var a, j := LeafGoesUp(before, g, t, page, cell, c, cut, n, oldNodeIdx, waiting);
      ArrivingReady(waiting, g.level[n := 0], t, parentPg, n, a);
      ghost var level', view, last;
      level', view, last := InternalNodeInsert(t, parentPg, n, g.level[n := 0], a);
      g' := PassedEnds(before, g, t, page, cell, c, cut, n, oldNodeIdx, waiting, a, j, pages, level', view, last, marks, marks1, marked);
    }

    /** leaf_node_insert at a cursor, wherever it points. In a tree, and for an absent key that find_node
        was asked for, the insert ends in a tree exactly when it is clear. */
    method LeafNodeInsert(t: Table, page: nat, cell: nat, key: Key, row: Row, ghost g: View) returns (ghost g': View)
      requires Pointed(pages, g, t, page, cell)
      modifies this
      ensures old(dirty) <= dirty && Tracked(old(pages), pages, dirty)
      ensures Taken(old(pages), g, t, page, cell, Cell(key, row), pages, g')
      ensures Insertable(old(pages), g, t, page, cell, Cell(key, row)) ==>
                Settled(old(pages), g, t, page, Cell(key, row), pages, g', old(marked), marked)
      ensures Straying(old(pages), g, t, page, cell, Cell(key, row)) ==> Strayed(old(pages), t, page, cell, Cell(key, row), pages)
      ensures RoomAbove(old(pages), t, page) ==> Placed(old(pages), g.level, t, page, cell, Cell(key, row), pages)
    {
      assert |pages[page].cells| <= t.cap by { assert LeafStands(pages, g, t, page); }
      ghost var before := pages;
      var num := |pages[page].cells|;
      if num >= t.cap {
        g' := LeafNodeSplitAndInsert(t, page, cell, key, row, g);
        return;
      }
      RoomTaken(before, g, t, page, cell, Cell(key, row));
      assert !Straying(before, g, t, page, cell, Cell(key, row));
      hide Standing, Taken, Insertable, Settled, Straying, Strayed, Placed;
      var cells := pages[page].cells;
      pages := pages[page := pages[page].(cells := cells[..cell] + [Cell(key, row)] + cells[cell..])];
      MarkPageDirty(page);
      g' := g;
      if Insertable(before, g, t, page, cell, Cell(key, row)) {
        RoomSettled(before, g, t, page, cell, Cell(key, row), old(marked));
      }
    }

    /** leaf_node_delete: the cells behind the cursor move down by one. */
    method LeafNodeDelete(t: Table, page: nat, cell: nat, ghost g: View)
      requires Standing(pages, g, t) && page in g.level && page < |pages| && pages[page].Leaf?
      modifies this
      ensures old(dirty) <= dirty && Tracked(old(pages), pages, dirty) && |pages| == |old(pages)|
      ensures Standing(pages, g, t) && (Inv(old(pages), g, t, 0) ==> Inv(pages, g, t, 0))
      ensures forall x :: 0 <= x < |pages| && x != page ==> pages[x] == old(pages)[x]
      ensures var cells := old(pages)[page].cells;
              pages[page] == old(pages)[page].(cells := if cell < |cells| then cells[..cell] + cells[cell + 1..] else cells)
    {
      var cells := pages[page].cells;
      if cell >= |cells| {
        return;
      }
      var fewer := cells[..cell] + cells[cell + 1..];
      assert |cells| <= t.cap by { assert LeafStands(pages, g, t, page); }
      EditStands(pages, g, t, page, fewer);
      if Inv(pages, g, t, 0) {
        assert PageOk(pages, g, t, 0, page);
        LeafEdit(pages, g, t, page, fewer, 0);
      }
      pages := pages[page := pages[page].(cells := fewer)];
      MarkPageDirty(page);
    }
  }
}
