/** What the searches of src/btree.c compute on any pages, in order or not. */
module TreeSearch {
  import opened Layout
  import opened Tree
  import opened TreeContents
  import TreeLeaf

  /** Where the binary search between min and max stops. */
  function Bisect(keys: seq<Key>, key: Key, min: nat, max: nat): (r: nat)
    requires min <= max <= |keys|
    ensures min <= r <= max
    decreases max - min
  {
    if min == max then min
    else
      var idx := (min + max) / 2;
      if keys[idx] >= key then Bisect(keys, key, min, idx) else Bisect(keys, key, idx + 1, max)
  }

  /** In a sorted list that is the first key not below the one searched for. */
  lemma {:induction false} BisectSorted(keys: seq<Key>, key: Key, min: nat, max: nat)
    requires min <= max <= |keys| && SortedKeys(keys)
    requires (forall j :: 0 <= j < min ==> keys[j] < key) && (forall j :: max <= j < |keys| ==> key <= keys[j])
    ensures IsLowerBound(keys, key, Bisect(keys, key, min, max))
    decreases max - min
  {
    if min < max {
      var idx := (min + max) / 2;
      if keys[idx] >= key { BisectSorted(keys, key, min, idx); } else { BisectSorted(keys, key, idx + 1, max); }
    }
  }

  function CellKeys(cells: seq<Cell>): (keys: seq<Key>)
    ensures |keys| == |cells| && forall i :: 0 <= i < |cells| ==> keys[i] == cells[i].key
  {
    seq(|cells|, i requires 0 <= i < |cells| => cells[i].key)
  }

  /** Child pointers can be followed downwards to a leaf. */
  ghost predicate Walkable(pages: seq<Node>, level: map<nat, nat>) {
    && Shape(pages, level)
    && forall x {:trigger pages[x]} :: x in level && x < |pages| && pages[x].Internal? ==>
         |pages[x].children| == |pages[x].keys| + 1
  }

  /** The leaf that find_node comes to. */
  function Search(pages: seq<Node>, ghost level: map<nat, nat>, pg: nat, key: Key): (r: nat)
    requires Walkable(pages, level) && pg in level
    ensures r in level && r < |pages| && pages[r].Leaf?
    decreases level[pg]
  {
    assert Descends(pages, level, pg);
    if pages[pg].Leaf? then pg
    else Search(pages, level, pages[pg].children[Bisect(pages[pg].keys, key, 0, |pages[pg].keys|)], key)
  }

  function SearchCell(cells: seq<Cell>, key: Key): (r: nat)
    ensures r <= |cells|
  {
    Bisect(CellKeys(cells), key, 0, |cells|)
  }

  lemma InvWalkable(pages: seq<Node>, g: View, t: Table, over: nat)
    requires Inv(pages, g, t, over)
    ensures Walkable(pages, g.level)
  {
    InvShape(pages, g, t, over);
    forall x | x in g.level && x < |pages| && pages[x].Internal? ensures |pages[x].children| == |pages[x].keys| + 1 {
      assert PageOk(pages, g, t, over, x);
    }
  }

  /** In a tree it is the leaf whose interval contains the key. */
  lemma {:induction false} SearchFinds(pages: seq<Node>, g: View, t: Table, pg: nat, key: Key)
    requires Inv(pages, g, t, 0) && Walkable(pages, g.level) && pg in g.level && g.lo[pg] < key <= g.hi[pg]
    ensures var page := Search(pages, g.level, pg, key); Found(pages, g, page, SearchCell(pages[page].cells, key), key)
    decreases g.level[pg]
  {
    assert PageOk(pages, g, t, 0, pg) && Descends(pages, g.level, pg);
    if pages[pg].Leaf? {
      var cells := pages[pg].cells;
      BisectSorted(CellKeys(cells), key, 0, |cells|);
    } else {
      var keys := pages[pg].keys;
      assert KeysOk(pages, g, pg);
      BisectSorted(keys, key, 0, |keys|);
      var i := Bisect(keys, key, 0, |keys|);
      assert ChildOk(pages, g, pg, i);
      SearchFinds(pages, g, t, pages[pg].children[i], key);
    }
  }

  /** The way down to the key leads through one of the pages. */
  ghost predicate Through(pages: seq<Node>, level: map<nat, nat>, pg: nat, key: Key, some: set<nat>)
    requires Walkable(pages, level) && pg in level
    decreases level[pg]
  {
    assert Descends(pages, level, pg);
    pg in some
    || (pages[pg].Internal? && Through(pages, level, pages[pg].children[Bisect(pages[pg].keys, key, 0, |pages[pg].keys|)], key, some))
  }

  /** One of the pages has the key in its interval. */
  ghost predicate Within(g: View, some: set<nat>, key: Key) {
    exists x: nat :: x in some && x in g.level && x in g.lo && x in g.hi && g.lo[x] < key <= g.hi[x]
  }

  /** In a tree the search leads through exactly the pages that have the key in their interval. */
  lemma ThroughWithin(pages: seq<Node>, g: View, t: Table, key: Key, some: set<nat>)
    requires Inv(pages, g, t, 0) && Walkable(pages, g.level) && t.root in g.level
    ensures Through(pages, g.level, t.root, key, some) <==> Within(g, some, key)
  {
    TreeLeaf.RootTop(pages, g, t, 0);
    if Through(pages, g.level, t.root, key, some) { ThroughDown(pages, g, t, t.root, key, some); }
    if x: nat :| x in some && x in g.level && x in g.lo && x in g.hi && g.lo[x] < key <= g.hi[x] {
      assert Through(pages, g.level, x, key, some);
      ThroughUp(pages, g, t, x, key, some);
    }
  }

  lemma {:induction false} ThroughDown(pages: seq<Node>, g: View, t: Table, pg: nat, key: Key, some: set<nat>)
    requires Inv(pages, g, t, 0) && Walkable(pages, g.level) && pg in g.level && g.lo[pg] < key <= g.hi[pg]
    requires Through(pages, g.level, pg, key, some)
    ensures Within(g, some, key)
    decreases g.level[pg]
  {
    if pg !in some {
      var i := Bisect(pages[pg].keys, key, 0, |pages[pg].keys|);
      assert Descends(pages, g.level, pg) && PageOk(pages, g, t, 0, pg) && KeysOk(pages, g, pg);
      BisectSorted(pages[pg].keys, key, 0, |pages[pg].keys|);
      assert ChildOk(pages, g, pg, i);
      ThroughDown(pages, g, t, pages[pg].children[i], key, some);
    }
  }

  lemma {:induction false} ThroughUp(pages: seq<Node>, g: View, t: Table, x: nat, key: Key, some: set<nat>)
    requires Inv(pages, g, t, 0) && Walkable(pages, g.level) && x in g.level && g.lo[x] < key <= g.hi[x]
    requires Through(pages, g.level, x, key, some)
    ensures Through(pages, g.level, t.root, key, some)
    decreases if g.level[x] <= g.level[t.root] then g.level[t.root] - g.level[x] else 0
  {
    TreeLeaf.RootTop(pages, g, t, 0);
    if x != t.root {
      TreeLeaf.PageBelowParent(pages, g, t, 0, x);
      var y := pages[x].parent;
      assert PageOk(pages, g, t, 0, y) && KeysOk(pages, g, y) && Descends(pages, g.level, y);
      var j :| 0 <= j < |pages[y].children| && pages[y].children[j] == x;
      assert ChildOk(pages, g, y, j);
      var i := Bisect(pages[y].keys, key, 0, |pages[y].keys|);
      BisectSorted(pages[y].keys, key, 0, |pages[y].keys|);
      assert i == j;
      ThroughUp(pages, g, t, y, key, some);
    }
  }

  lemma CellAtBound(all: seq<Cell>, pos: nat, c: Cell)
    requires SortedCells(all) && IsCellLowerBound(all, c.key, pos)
    ensures c in all <==> pos < |all| && all[pos] == c
  {
    if pos < |all| && all[pos].key == c.key { assert all[pos] in all; }
  }

  /** find_node comes to a cell with the key. */
  ghost predicate Sits(pages: seq<Node>, level: map<nat, nat>, root: nat, key: Key) {
    && Walkable(pages, level) && root in level
    && var cells := pages[Search(pages, level, root, key)].cells;
       SearchCell(cells, key) < |cells| && cells[SearchCell(cells, key)].key == key
  }

  /** find_node comes to the cell when it is asked for its key. */
  predicate Hits(pages: seq<Node>, ghost level: map<nat, nat>, root: nat, c: Cell)
    requires Walkable(pages, level) && root in level
  {
    var cells := pages[Search(pages, level, root, c.key)].cells;
    SearchCell(cells, c.key) < |cells| && cells[SearchCell(cells, c.key)] == c
  }
}
