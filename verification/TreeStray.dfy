/** Which rows the search still comes to after an insert that did not end in a tree: the leaf that was split
    has a parent with room that ends with an empty leaf. get_node_max_key reads 0 there, so the new leaf is
    put behind the empty one, with 0 for a separator. */
module TreeStray {
  import opened Layout
  import opened Tree
  import opened TreeSteps
  import opened TreeLeafUp
  import opened TreeClear
  import opened TreeInsert
  import opened TreeSearch
  import opened TreeDebt
  import opened TreeArrival
  import opened TreeMarks
  import opened TreeStanding
  import TreeLeaf

  /** Leaf p is full, and its parent has room and ends with an empty leaf. */
  ghost predicate Straying(pages: seq<Node>, g: View, t: Table, p: nat, i: nat, c: Cell) {
    && Insertable(pages, g, t, p, i, c) && |pages[p].cells| == t.cap && p != t.root
    && var y := pages[p].parent;
    && y < |pages| && pages[y].Internal? && |pages[y].keys| < INTERNAL_NODE_MAX_KEYS && |pages[y].children| > 0
    && var r := Last(pages[y].children);
    && r < |pages| && pages[r].Leaf? && pages[r].cells == []
  }

  /** Below a parent with room that is just when the insert does not end in a tree. */
  lemma StrayingUnclear(pages: seq<Node>, g: View, t: Table, p: nat, i: nat, c: Cell)
    requires Insertable(pages, g, t, p, i, c) && |pages[p].cells| == t.cap && p != t.root
    requires pages[p].parent < |pages| && pages[pages[p].parent].Internal? && |pages[pages[p].parent].keys| < INTERNAL_NODE_MAX_KEYS
    ensures Straying(pages, g, t, p, i, c) <==> !InsertClear(pages, g, t, p)
  {
    var y := pages[p].parent;
    TreeLeaf.PageBelowParent(pages, g, t, 0, p);
    TreeLeaf.RootTop(pages, g, t, 0);
    InvShape(pages, g, t, 0);
    assert PageOk(pages, g, t, 0, p) && PageOk(pages, g, t, 0, y);
    var r := Last(pages[y].children);
    ChildOfY(pages, g, t, y, |pages[y].children| - 1);
    assert PageOk(pages, g, t, 0, r) && Descends(pages, g.level, y);
    hide Inv, Shape, IsCellLowerBound;
    assert RightLeaf(pages, g.level, r) == r == RightLeaf(pages, g.level, y);
    assert HasParent(pages, g.level, t.root, p);
  }

  lemma StrayRoom(pages: seq<Node>, g: View, t: Table, p: nat, i: nat, c: Cell)
    requires Straying(pages, g, t, p, i, c)
    ensures p < |pages| && pages[p].parent < |pages| && pages[pages[p].parent].Internal?
    ensures |pages[pages[p].parent].keys| < INTERNAL_NODE_MAX_KEYS
  {
  }

  /** The pages after the insert: the separator of p is lowered, and the upper half is the last child. */
  ghost predicate Strayed(before: seq<Node>, t: Table, p: nat, i: nat, c: Cell, after: seq<Node>) {
    && p < |before| && before[p].Leaf? && i <= |before[p].cells| && 0 < SplitAt(t) <= |before[p].cells|
    && var y, n, cells, z := before[p].parent, |before|, WithCell(before[p].cells, i, c), SplitAt(t);
    && y < n && y != p && before[y].Internal?
    && var j := IndexIn(before[y].children, p);
    && j < |before[y].keys|
    && after == before[p := before[p].(cells := cells[..z], next := n)]
                      [y := before[y].(keys := before[y].keys[j := cells[z - 1].key] + [0], children := before[y].children + [n])]
                + [Leaf(false, y, before[p].next, cells[z..])]
  }

  // The binary search over separators in order with a 0 behind them

  /** Of r indices left, all but the last two to be passed, the search looks at the 0 before it looks at the
      separator in front of it. */
  predicate Misses(r: nat)
    decreases r
  {
    if r <= 2 then true else if r <= 4 then false else Misses((r - 1) / 2)
  }

  /** Where the search among m separators in order and a 0 ends, when it should end at s. */
  function Landing(m: nat, s: nat): nat { if s == m || (s + 1 == m && Misses(m + 1)) then m + 1 else s }

  ghost predicate ZeroBehind(keys: seq<Key>, m: nat) { |keys| == m + 1 && SortedKeys(keys[..m]) && keys[m] == 0 }

  lemma {:induction false} BisectPrefix(keys: seq<Key>, key: Key, m: nat, s: nat, min: nat, max: nat)
    requires m <= |keys| && SortedKeys(keys[..m]) && IsLowerBound(keys[..m], key, s) && min <= s <= max <= m
    ensures Bisect(keys, key, min, max) == s
    decreases max - min
  {
    if min < max {
      var idx := (min + max) / 2;
      assert keys[idx] == keys[..m][idx];
      if keys[idx] >= key { BisectPrefix(keys, key, m, s, min, idx); } else { BisectPrefix(keys, key, m, s, idx + 1, max); }
    }
  }

  lemma {:induction false} BisectLanding(keys: seq<Key>, key: Key, m: nat, s: nat, min: nat)
    requires ZeroBehind(keys, m) && key > 0 && IsLowerBound(keys[..m], key, s) && min <= s
    ensures Bisect(keys, key, min, m + 1) == if s == m || (s + 1 == m && Misses(m + 1 - min)) then m + 1 else s
    decreases m - min
  {
    var idx := (min + m + 1) / 2;
    if idx < m {
      assert keys[idx] == keys[..m][idx];
      if keys[idx] >= key { BisectPrefix(keys, key, m, s, min, idx); } else { BisectLanding(keys, key, m, s, idx + 1); }
    }
  }

  // The pages

  /** The leaf that is split, the place of its parent's separator for it, and the key it is lowered to. */
  ghost predicate StrayPlace(before: seq<Node>, g: View, t: Table, p: nat, i: nat, c: Cell, y: nat, j: nat, low: Key) {
    && Inv(before, g, t, 0) && p in g.level && p < |before| && before[p].Leaf? && i <= |before[p].cells|
    && y in g.level && y < |before| && y != p && before[y].Internal? && g.level[y] == 1 && before[p].parent == y
    && |before[y].children| == |before[y].keys| + 1 && SortedKeys(before[y].keys)
    && j == IndexIn(before[y].children, p) && j < |before[y].keys| && before[y].children[j] == p && g.hi[p] == before[y].keys[j]
    && g.lo[p] == (if j == 0 then g.lo[y] else before[y].keys[j - 1])
    && 0 < SplitAt(t) < |WithCell(before[p].cells, i, c)| && low == WithCell(before[p].cells, i, c)[SplitAt(t) - 1].key
    && SortedCells(WithCell(before[p].cells, i, c)) && g.lo[p] < low < g.hi[p]
    && (forall k :: 0 <= k < |WithCell(before[p].cells, i, c)| ==> g.lo[p] < WithCell(before[p].cells, i, c)[k].key <= g.hi[p])
  }

  lemma StrayFacts(before: seq<Node>, g: View, t: Table, p: nat, i: nat, c: Cell) returns (y: nat, j: nat, low: Key)
    requires Straying(before, g, t, p, i, c)
    ensures StrayPlace(before, g, t, p, i, c, y, j, low)
  {
    var cells := WithCell(before[p].cells, i, c);
    y := before[p].parent;
    j := IndexIn(before[y].children, p);
    TreeLeaf.PageBelowParent(before, g, t, 0, p);
    assert PageOk(before, g, t, 0, p) && PageOk(before, g, t, 0, y) && KeysOk(before, g, y);
    assert ChildOk(before, g, y, j);
    hide Inv, PageOk, WithCell;
    StrayCells(before, g, t, p, i, c);
    low := cells[SplitAt(t) - 1].key;
  }

  lemma StrayCells(before: seq<Node>, g: View, t: Table, p: nat, i: nat, c: Cell)
    requires Insertable(before, g, t, p, i, c) && |before[p].cells| == t.cap && g.level[p] == 0
    ensures var cells, z := WithCell(before[p].cells, i, c), SplitAt(t);
            && 0 < z < |cells| && SortedCells(cells) && g.lo[p] < cells[z - 1].key < g.hi[p]
            && forall k :: 0 <= k < |cells| ==> g.lo[p] < cells[k].key <= g.hi[p]
  {
    var cells := WithCell(before[p].cells, i, c);
    PutCell(before, g, t, p, i, c);
    assert PageOk(before, g, t, 0, p);
    hide Inv, PageOk;
    assert forall k :: 0 <= k < |cells| ==> cells[k] == c || cells[k] in before[p].cells;
    assert cells[SplitAt(t) - 1].key < cells[SplitAt(t)].key;
  }

  lemma StrayWalkable(before: seq<Node>, g: View, t: Table, p: nat, i: nat, c: Cell, y: nat, j: nat, low: Key, after: seq<Node>)
    requires StrayPlace(before, g, t, p, i, c, y, j, low) && Strayed(before, t, p, i, c, after)
    ensures Walkable(after, g.level[|before| := 0]) && Walkable(before, g.level) && t.root in g.level
    ensures |before| !in g.level
  {
    InvWalkable(before, g, t, 0);
    assert |before| !in g.level;
    var level := g.level[|before| := 0];
    forall x | x in level
      ensures Descends(after, level, x) && (x < |after| && after[x].Internal? ==> |after[x].children| == |after[x].keys| + 1)
    {
      if x in g.level {
        assert Descends(before, g.level, x) && PageOk(before, g, t, 0, x);
      }
    }
  }

  /** Away from y the search goes its old way. */
  lemma {:induction false} StrayPath(before: seq<Node>, g: View, t: Table, p: nat, i: nat, c: Cell, y: nat, j: nat, low: Key,
                                     after: seq<Node>, level: map<nat, nat>, x: nat, key: Key)
    requires StrayPlace(before, g, t, p, i, c, y, j, low) && Strayed(before, t, p, i, c, after)
    requires level == g.level[|before| := 0] && Walkable(after, level) && Walkable(before, g.level) && x in g.level
    ensures if Through(before, g.level, x, key, {y})
            then Search(after, level, x, key) == Search(after, level, y, key) && Search(before, g.level, x, key) == Search(before, g.level, y, key)
            else Search(after, level, x, key) == Search(before, g.level, x, key)
    decreases g.level[x]
  {
    assert Descends(before, g.level, x) && Descends(after, level, x);
    assert x != y && x != p ==> after[x] == before[x];
    if x != y && before[x].Internal? {
      var k := Bisect(before[x].keys, key, 0, |before[x].keys|);
      StrayPath(before, g, t, p, i, c, y, j, low, after, level, before[x].children[k], key);
    }
  }

  /** The interval of a leaf that is a child of y. */
  lemma ChildOfY(before: seq<Node>, g: View, t: Table, y: nat, q: nat)
    requires Inv(before, g, t, 0) && y in g.level && before[y].Internal? && q < |before[y].children|
    ensures |before[y].children| == |before[y].keys| + 1 && SortedKeys(before[y].keys) && before[y].children[q] in g.level
    ensures var o := before[y].children[q];
            && g.lo[y] <= g.lo[o] < g.hi[o] <= g.hi[y]
            && g.lo[o] == (if q == 0 then g.lo[y] else before[y].keys[q - 1])
            && g.hi[o] == (if q == |before[y].keys| then g.hi[y] else before[y].keys[q])
            && g.level[o] + 1 == g.level[y]
  {
    assert PageOk(before, g, t, 0, y) && KeysOk(before, g, y) && ChildOk(before, g, y, q);
  }

  lemma {:induction false} BisectZero(keys: seq<Key>, min: nat, max: nat)
    requires min <= max <= |keys|
    ensures Bisect(keys, 0, min, max) == min
    decreases max - min
  {
    if min < max { BisectZero(keys, min, (min + max) / 2); }
  }

  /** The lower bound among the old separators, one of which was lowered. */
  lemma LoweredBound(keys: seq<Key>, keys': seq<Key>, j: nat, low: Key, key: Key, q: nat, s: nat)
    requires j < |keys| && SortedKeys(keys) && low < keys[j] && (j > 0 ==> keys[j - 1] < low) && keys' == keys[j := low]
    requires q <= |keys| && (q > 0 ==> keys[q - 1] < key) && (q < |keys| ==> key <= keys[q])
    requires s == if q == j && low < key then j + 1 else q
    ensures SortedKeys(keys') && IsLowerBound(keys', key, s)
  {
    assert IsLowerBound(keys, key, q);
    forall k | 0 <= k < |keys| ensures if k < s then keys'[k] < key else key <= keys'[k] { }
    forall k, l | 0 <= k < l < |keys| ensures keys'[k] < keys'[l] {
      assert keys[k] < keys[l];
      assert j > 0 && k < j - 1 ==> keys[k] < keys[j - 1];
    }
  }

  /** Where the key of a row comes to below y. */
  lemma StrayTurn(keys: seq<Key>, m: nat, j: nat, low: Key, key: Key, q: nat)
    requires m == |keys| && j < m && SortedKeys(keys) && low < keys[j] && (j > 0 ==> keys[j - 1] < low) && q <= m
    requires (q > 0 ==> keys[q - 1] < key) && (q < m ==> key <= keys[q])
    ensures Bisect(keys[j := low] + [0], key, 0, m + 1)
         == if key == 0 then 0 else Landing(m, if q == j && low < key then j + 1 else q)
  {
    var lowered := keys[j := low];
    var keys' := lowered + [0];
    var s := if q == j && low < key then j + 1 else q;
    LoweredBound(keys, lowered, j, low, key, q, s);
    assert keys'[..m] == lowered && keys'[m] == 0 && |keys'| == m + 1;
    hide SortedKeys, IsLowerBound, Landing, Misses;
    assert ZeroBehind(keys', m);
    if key == 0 {
      BisectZero(keys', 0, m + 1);
    } else {
      BisectLanding(keys', key, m, s, 0);
    }
  }

  // The leaves

  lemma StrayLeaf(before: seq<Node>, g: View, t: Table, p: nat, i: nat, c0: Cell, y: nat, j: nat, low: Key, after: seq<Node>, l: nat, c: Cell)
    requires StrayPlace(before, g, t, p, i, c0, y, j, low) && Strayed(before, t, p, i, c0, after)
    requires (l in g.level || l == |before|) && l < |after| && after[l].Leaf?
    ensures var o := if l == |before| then p else l; o in g.level && o < |before| && before[o].Leaf? && SortedCells(after[l].cells)
    ensures var o := if l == |before| then p else l;
            c in after[l].cells ==> g.lo[o] < c.key <= g.hi[o] && (o == p ==> (l == p <==> c.key <= low))
  {
    var cells, z := WithCell(before[p].cells, i, c0), SplitAt(t);
    var o := if l == |before| then p else l;
    assert PageOk(before, g, t, 0, o);
    hide Inv, WithCell, SortedKeys, IndexIn, InternalOk, ParentOk, PageOk;
    if c in after[l].cells {
      var k :| 0 <= k < |after[l].cells| && after[l].cells[k] == c;
      if l == |before| { assert cells[z + k] == c && cells[z - 1].key < cells[z + k].key; }
      if l == p { assert cells[k] == c && (k < z - 1 ==> cells[k].key < cells[z - 1].key); }
    }
  }

  /** No cell is in two leaves. */
  lemma StrayApart(before: seq<Node>, g: View, t: Table, p: nat, i: nat, c0: Cell, y: nat, j: nat, low: Key, after: seq<Node>,
                   l: nat, e: nat, c: Cell)
    requires StrayPlace(before, g, t, p, i, c0, y, j, low) && Strayed(before, t, p, i, c0, after)
    requires (l in g.level || l == |before|) && l < |after| && after[l].Leaf? && c in after[l].cells
    requires (e in g.level || e == |before|) && e < |after| && after[e].Leaf? && e != l
    ensures c !in after[e].cells
  {
    StrayLeaf(before, g, t, p, i, c0, y, j, low, after, l, c);
    StrayLeaf(before, g, t, p, i, c0, y, j, low, after, e, c);
    var o, o' := if l == |before| then p else l, if e == |before| then p else e;
    hide WithCell, SortedCells, Strayed;
    if o != o' { LeavesDisjoint(before, g, t, 0, o, o'); }
  }

  lemma HitsLeaf(pages: seq<Node>, level: map<nat, nat>, root: nat, c: Cell, e: nat)
    requires Walkable(pages, level) && root in level && Search(pages, level, root, c.key) == e && SortedCells(pages[e].cells)
    ensures Hits(pages, level, root, c) <==> c in pages[e].cells
  {
    var cells := pages[e].cells;
    BisectSorted(CellKeys(cells), c.key, 0, |cells|);
    CellAtBound(cells, SearchCell(cells, c.key), c);
  }

  /** A leaf that is no child of y: nothing changed for its rows. */
  lemma StrayElsewhere(before: seq<Node>, g: View, t: Table, p: nat, i: nat, c0: Cell, y: nat, j: nat, low: Key, after: seq<Node>,
                       level: map<nat, nat>, l: nat, c: Cell)
    requires StrayPlace(before, g, t, p, i, c0, y, j, low) && Strayed(before, t, p, i, c0, after)
    requires level == g.level[|before| := 0] && Walkable(after, level) && Walkable(before, g.level) && t.root in g.level
    requires l in g.level && l < |after| && after[l].Leaf? && c in after[l].cells && l !in before[y].children
    ensures Hits(after, level, t.root, c)
  {
    StrayLeaf(before, g, t, p, i, c0, y, j, low, after, l, c);
    assert j < |before[y].children| && p == before[y].children[j];
    assert before[l].Leaf? && l != p && l != |before|;
    var q := Search(before, g.level, t.root, c.key);
    SearchFinds(before, g, t, t.root, c.key);
    if q != l { LeavesDisjoint(before, g, t, 0, q, l); }
    StrayPath(before, g, t, p, i, c0, y, j, low, after, level, t.root, c.key);
    assert Descends(before, g.level, y) && PageOk(before, g, t, 0, y);
    hide Inv, WithCell, SortedCells, Strayed, StrayPlace;
    if Through(before, g.level, t.root, c.key, {y}) {
      BelowY(before, g.level, y, c.key);
    }
    HitsLeaf(after, level, t.root, c, l);
  }

  lemma BelowY(pages: seq<Node>, level: map<nat, nat>, y: nat, key: Key)
    requires Walkable(pages, level) && y in level && y < |pages| && pages[y].Internal? && level[y] == 1
    ensures Bisect(pages[y].keys, key, 0, |pages[y].keys|) < |pages[y].children|
    ensures Search(pages, level, y, key) == pages[y].children[Bisect(pages[y].keys, key, 0, |pages[y].keys|)]
  {
    assert Descends(pages, level, y);
    var e := pages[y].children[Bisect(pages[y].keys, key, 0, |pages[y].keys|)];
    assert Descends(pages, level, e);
  }

  lemma {:induction false} IndexOf(xs: seq<nat>, q: nat)
    requires q < |xs| && forall k :: 0 <= k < q ==> xs[k] != xs[q]
    ensures IndexIn(xs, xs[q]) == q
  {
    if q > 0 { IndexOf(xs[1..], q - 1); }
  }

  lemma ChildIndex(before: seq<Node>, g: View, t: Table, y: nat, q: nat)
    requires Inv(before, g, t, 0) && y in g.level && before[y].Internal? && q < |before[y].children|
    ensures IndexIn(before[y].children, before[y].children[q]) == q && before[y].children[q] < |before|
  {
    ChildOfY(before, g, t, y, q);
    forall k | 0 <= k < q ensures before[y].children[k] != before[y].children[q] {
      if before[y].children[k] == before[y].children[q] { TreeArrival.OneIndex(before, g, t, y, k, q); }
    }
    IndexOf(before[y].children, q);
  }

  /** Where the search goes at y when it should come to leaf l. */
  ghost function Aim(before: seq<Node>, p: nat, l: nat, key: Key): nat
    requires p < |before| && before[p].parent < |before| && before[before[p].parent].Internal?
  {
    var x := before[before[p].parent];
    if key == 0 then 0
    else Landing(|x.keys|, if l == |before| then IndexIn(x.children, p) + 1 else IndexIn(x.children, l))
  }

  /** The search for a key in the interval of y goes on at y. */
  lemma StrayAtY(before: seq<Node>, g: View, t: Table, p: nat, i: nat, c0: Cell, y: nat, j: nat, low: Key, after: seq<Node>,
                 level: map<nat, nat>, key: Key)
    requires StrayPlace(before, g, t, p, i, c0, y, j, low) && Strayed(before, t, p, i, c0, after)
    requires level == g.level[|before| := 0] && Walkable(after, level) && Walkable(before, g.level) && t.root in g.level
    requires y in g.lo && y in g.hi && g.lo[y] < key <= g.hi[y]
    ensures Search(after, level, t.root, key) == Search(after, level, y, key)
  {
    hide WithCell, SortedCells, Strayed;
    ThroughWithin(before, g, t, key, {y});
    assert Within(g, {y}, key) by { assert y in {y}; }
    StrayPath(before, g, t, p, i, c0, y, j, low, after, level, t.root, key);
  }

  /** The index of the old child whose interval holds the keys of leaf l. */
  lemma StrayOld(before: seq<Node>, g: View, t: Table, p: nat, i: nat, c0: Cell, y: nat, j: nat, low: Key, after: seq<Node>,
                 l: nat, c: Cell) returns (q: nat)
    requires StrayPlace(before, g, t, p, i, c0, y, j, low) && Strayed(before, t, p, i, c0, after)
    requires (l in before[y].children && l in g.level) || l == |before|
    requires l < |after| && after[l].Leaf? && c in after[l].cells
    ensures var keys, key := before[y].keys, c.key;
            && q <= |keys| && y in g.lo && y in g.hi && g.lo[y] < key <= g.hi[y]
            && (q > 0 ==> keys[q - 1] < key) && (q < |keys| ==> key <= keys[q])
            && (if q == j && low < key then j + 1 else q) == if l == |before| then j + 1 else IndexIn(before[y].children, l)
    ensures j > 0 ==> before[y].keys[j - 1] < low
    ensures low < before[y].keys[j]
  {
    var xs := before[y].children;
    StrayLeaf(before, g, t, p, i, c0, y, j, low, after, l, c);
    q := if l == |before| then j else IndexIn(xs, l);
    hide Inv, WithCell, SortedCells, Strayed;
    ChildOfY(before, g, t, y, q);
  }

  lemma StrayParent(before: seq<Node>, g: View, t: Table, p: nat, i: nat, c0: Cell, y: nat, j: nat, low: Key, after: seq<Node>)
    requires StrayPlace(before, g, t, p, i, c0, y, j, low) && Strayed(before, t, p, i, c0, after)
    ensures y in g.level && y < |before| && g.level[y] == 1 && before[y].Internal? && before[p].parent == y && p < |before|
    ensures j == IndexIn(before[y].children, p) && j < |before[y].keys| && |before[y].children| == |before[y].keys| + 1
    ensures SortedKeys(before[y].keys) && y < |after| && after[y].Internal?
    ensures after[y].keys == before[y].keys[j := low] + [0] && after[y].children == before[y].children + [|before|]
  {
    hide WithCell, Inv, SortedCells, SortedKeys;
  }

  /** The search for a key of leaf l below y. */
  lemma StrayLands(before: seq<Node>, g: View, t: Table, p: nat, i: nat, c0: Cell, y: nat, j: nat, low: Key, after: seq<Node>,
                   level: map<nat, nat>, l: nat, c: Cell)
    requires StrayPlace(before, g, t, p, i, c0, y, j, low) && Strayed(before, t, p, i, c0, after)
    requires level == g.level[|before| := 0] && Walkable(after, level) && Walkable(before, g.level) && t.root in g.level
    requires l in level && l < |after| && after[l].Leaf? && c in after[l].cells && y < |before| && before[y].Internal?
    requires l in before[y].children || l == |before|
    ensures p < |before| && before[p].parent == y && Aim(before, p, l, c.key) <= |before[y].children|
    ensures Search(after, level, t.root, c.key) == (before[y].children + [|before|])[Aim(before, p, l, c.key)]
  {
    hide *;
    StrayParent(before, g, t, p, i, c0, y, j, low, after);
    var q := StrayOld(before, g, t, p, i, c0, y, j, low, after, l, c);
    StrayAtY(before, g, t, p, i, c0, y, j, low, after, level, c.key);
    var m := |before[y].keys|;
    StrayTurn(before[y].keys, m, j, low, c.key, q);
    BelowY(after, level, y, c.key);
    assert Aim(before, p, l, c.key) == if c.key == 0 then 0 else Landing(m, if l == |before| then j + 1 else IndexIn(before[y].children, l)) by {
      AimIs(before, p, l, c.key);
    }
  }

  lemma AimIs(before: seq<Node>, p: nat, l: nat, key: Key)
    requires p < |before| && before[p].parent < |before| && before[before[p].parent].Internal?
    ensures var x := before[before[p].parent];
            Aim(before, p, l, key)
            == if key == 0 then 0 else Landing(|x.keys|, if l == |before| then IndexIn(x.children, p) + 1 else IndexIn(x.children, l))
  {
  }

  lemma StrayBelow(before: seq<Node>, g: View, t: Table, p: nat, i: nat, c0: Cell, y: nat, j: nat, low: Key, after: seq<Node>,
                   level: map<nat, nat>, l: nat, c: Cell)
    requires StrayPlace(before, g, t, p, i, c0, y, j, low) && Strayed(before, t, p, i, c0, after)
    requires level == g.level[|before| := 0] && Walkable(after, level) && Walkable(before, g.level) && t.root in g.level
    requires l in level && l < |after| && after[l].Leaf? && c in after[l].cells && (l in before[y].children || l == |before|)
    ensures Aim(before, p, l, c.key) <= |before[y].children|
    ensures Hits(after, level, t.root, c) <==> (before[y].children + [|before|])[Aim(before, p, l, c.key)] == l
  {
    StrayLands(before, g, t, p, i, c0, y, j, low, after, level, l, c);
    var e := Search(after, level, t.root, c.key);
    hide Inv, WithCell, SortedCells, Strayed, StrayPlace, Aim;
    StrayLeaf(before, g, t, p, i, c0, y, j, low, after, e, c);
    HitsLeaf(after, level, t.root, c, e);
    if e != l { StrayApart(before, g, t, p, i, c0, y, j, low, after, l, e, c); }
  }

  // The rows

  /** The search does not come to leaf l when it should: to the new leaf, unless the old one stood last or, with
      an unlucky number of separators, next to last before the empty leaf; and to the leaf in front of the empty
      one when the number is unlucky. */
  ghost predicate Overlooked(before: seq<Node>, p: nat, l: nat)
    requires p < |before| && before[p].parent < |before| && before[before[p].parent].Internal?
  {
    var x := before[before[p].parent];
    var m, j := |x.keys|, IndexIn(x.children, p);
    if l == |before| then !(j + 1 == m || (j + 2 == m && Misses(m + 1)))
    else l in x.children && IndexIn(x.children, l) + 1 == m && Misses(m + 1)
  }

  /** After the insert a row is found exactly when its leaf is not overlooked. Key 0 is always found. */
  lemma StrayRows(before: seq<Node>, g: View, t: Table, p: nat, i: nat, c0: Cell, after: seq<Node>, l: nat, c: Cell)
    requires Straying(before, g, t, p, i, c0) && Strayed(before, t, p, i, c0, after)
    requires (l in g.level || l == |before|) && l < |after| && after[l].Leaf? && c in after[l].cells
    ensures var level := g.level[|before| := 0];
            && Walkable(after, level) && t.root in level
            && (Hits(after, level, t.root, c) <==> c.key == 0 || !Overlooked(before, p, l))
  {
    var y, j, low := StrayFacts(before, g, t, p, i, c0);
    StrayWalkable(before, g, t, p, i, c0, y, j, low, after);
    StrayParent(before, g, t, p, i, c0, y, j, low, after);
    var level := g.level[|before| := 0];
    assert after[Last(before[y].children)].cells == [] && Last(before[y].children) != |before| by { EmptyKept(before, g, t, p, i, c0, y, j, low, after); }
    assert Inv(before, g, t, 0);
    hide *;
    if l in before[y].children || l == |before| {
      StrayBelow(before, g, t, p, i, c0, y, j, low, after, level, l, c);
      StrayClosed(before, g, t, p, i, c0, y, j, low, after, l, c);
    } else {
      StrayElsewhere(before, g, t, p, i, c0, y, j, low, after, level, l, c);
      assert !Overlooked(before, p, l) by { NotBelow(before, p, l); }
    }
  }

  lemma NotBelow(before: seq<Node>, p: nat, l: nat)
    requires p < |before| && before[p].parent < |before| && before[before[p].parent].Internal?
    requires l != |before| && l !in before[before[p].parent].children
    ensures !Overlooked(before, p, l)
  {
  }

  lemma EmptyKept(before: seq<Node>, g: View, t: Table, p: nat, i: nat, c0: Cell, y: nat, j: nat, low: Key, after: seq<Node>)
    requires Straying(before, g, t, p, i, c0) && StrayPlace(before, g, t, p, i, c0, y, j, low) && Strayed(before, t, p, i, c0, after)
    ensures var r := Last(before[y].children); r < |before| && after[r].Leaf? && after[r].cells == []
  {
    hide Inv, WithCell, SortedCells, SortedKeys, IsCellLowerBound;
  }

  lemma StrayClosed(before: seq<Node>, g: View, t: Table, p: nat, i: nat, c0: Cell, y: nat, j: nat, low: Key, after: seq<Node>,
                    l: nat, c: Cell)
    requires StrayPlace(before, g, t, p, i, c0, y, j, low) && Strayed(before, t, p, i, c0, after)
    requires (l in g.level || l == |before|) && l < |after| && after[l].Leaf? && c in after[l].cells
    requires y < |before| && before[y].Internal? && (l in before[y].children || l == |before|)
    requires before[y].children != [] && Last(before[y].children) < |after| && after[Last(before[y].children)].Leaf?
             && after[Last(before[y].children)].cells == []
    ensures p < |before| && before[p].parent == y && Aim(before, p, l, c.key) <= |before[y].children|
    ensures (before[y].children + [|before|])[Aim(before, p, l, c.key)] == l <==> c.key == 0 || !Overlooked(before, p, l)
  {
    var xs, m := before[y].children, |before[y].keys|;
    StrayParent(before, g, t, p, i, c0, y, j, low, after);
    StrayLeaf(before, g, t, p, i, c0, y, j, low, after, l, c);
    var q0 := StrayOld(before, g, t, p, i, c0, y, j, low, after, l, c);
    var a := Aim(before, p, l, c.key);
    assert Inv(before, g, t, 0);
    hide Inv, WithCell, SortedCells, SortedKeys, Strayed, StrayPlace;
    if a < |xs| { ChildIndex(before, g, t, y, a); }
    if l != |before| {
      var q := IndexIn(xs, l);
      ChildIndex(before, g, t, y, q);
      assert q != m;
    }
  }

  // The insert

  lemma StrayIndex(before: seq<Node>, g: View, t: Table, p: nat, i: nat, c: Cell, idx: nat)
    requires Straying(before, g, t, p, i, c)
    requires |before[p].cells| > 0 && idx <= |before[before[p].parent].keys|
    requires var keys := before[before[p].parent].keys; idx == Bisect(keys, Last(before[p].cells).key, 0, |keys|)
    ensures idx == IndexIn(before[before[p].parent].children, p)
  {
    var y, j, low := StrayFacts(before, g, t, p, i, c);
    var keys, key := before[y].keys, Last(before[p].cells).key;
    BisectSorted(keys, key, 0, |keys|);
    assert PageOk(before, g, t, 0, p);
    hide Inv, WithCell, SortedCells, SortedKeys;
    assert g.lo[p] < key <= g.hi[p];
    assert IsLowerBound(keys, key, idx) && (j > 0 ==> keys[j - 1] < key) && key <= keys[j];
  }

  /** The halves, and the parent before the new leaf enters it. */
  lemma StrayPages(before: seq<Node>, g: View, t: Table, p: nat, i: nat, c: Cell, y: nat, j: nat, low: Key, cut: seq<Node>, n: nat,
                   waiting: seq<Node>)
    requires Straying(before, g, t, p, i, c) && StrayPlace(before, g, t, p, i, c, y, j, low)
    requires LeafHalved(before, t, p, i, c, cut, n) && Lowered(t, p, y, cut, j, waiting)
    ensures var r, cells := Last(before[y].children), WithCell(before[p].cells, i, c);
            && |waiting| == n + 1 && n == |before| && y < n && p != y && r != p && r < n
            && waiting[r].Leaf? && waiting[r].cells == []
            && waiting[n] == Leaf(false, y, before[p].next, cells[SplitAt(t)..]) && Last(waiting[n].cells).key > 0
            && waiting[y] == before[y].(keys := before[y].keys[j := low])
            && waiting == before[p := before[p].(cells := cells[..SplitAt(t)], next := n)][y := waiting[y]] + [waiting[n]]
  {
    var cells := WithCell(before[p].cells, i, c);
    hide Inv, SortedKeys, IsCellLowerBound, WithCell;
    assert cells[..SplitAt(t)][SplitAt(t) - 1] == cells[SplitAt(t) - 1];
    assert low < cells[|cells| - 1].key && Last(cells[SplitAt(t)..]) == cells[|cells| - 1];
    assert y != Last(before[y].children);
  }

  lemma EntersLast(waiting: seq<Node>, level: map<nat, nat>, y: nat, n: nat, last: nat, after: seq<Node>)
    requires Shape(waiting, level) && n in level && y in level && Entered(waiting, level, y, n, last, after)
    requires waiting[n].Leaf? && waiting[n].parent == y && waiting[n].cells != [] && Last(waiting[n].cells).key > 0
    requires var r := Last(waiting[y].children); r < |waiting| && waiting[r].Leaf? && waiting[r].cells == []
    ensures after == waiting[y := waiting[y].(keys := waiting[y].keys + [0], children := waiting[y].children + [n])]
  {
    assert MaxKey(waiting, level, n) > 0 && MaxKey(waiting, level, Last(waiting[y].children)) == 0;
    hide Shape, MaxKey;
  }

  /** With the parent's old right child empty the new leaf goes behind it. */
  lemma StrayEnters(before: seq<Node>, g: View, t: Table, p: nat, i: nat, c: Cell, cut: seq<Node>, n: nat, idx: nat, waiting: seq<Node>,
                    last: nat, level: map<nat, nat>, after: seq<Node>)
    requires Straying(before, g, t, p, i, c) && LeafHalved(before, t, p, i, c, cut, n) && |before[p].cells| > 0
    requires var keys := before[before[p].parent].keys; idx == Bisect(keys, Last(before[p].cells).key, 0, |keys|)
    requires Lowered(t, p, before[p].parent, cut, idx, waiting)
    requires Shape(waiting, level) && n in level && before[p].parent in level && Entered(waiting, level, before[p].parent, n, last, after)
    ensures Strayed(before, t, p, i, c, after)
  {
    var y, j, low := StrayFacts(before, g, t, p, i, c);
    StrayIndex(before, g, t, p, i, c, idx);
    StrayPages(before, g, t, p, i, c, y, j, low, cut, n, waiting);
    SplitInside(before, g, t, p, i, c, cut, n);
    StrayOrder(before, g, t, p, i, c, y, j, low);
    hide *;
    EntersLast(waiting, level, y, n, last, after);
    StrayedFrom(before, t, p, i, c, y, j, low, waiting, after);
  }

  lemma StrayOrder(before: seq<Node>, g: View, t: Table, p: nat, i: nat, c: Cell, y: nat, j: nat, low: Key)
    requires StrayPlace(before, g, t, p, i, c, y, j, low)
    ensures p < |before| && before[p].Leaf? && i <= |before[p].cells| && y < |before| && y != p && before[y].Internal? && before[p].parent == y
    ensures j == IndexIn(before[y].children, p) && j < |before[y].keys|
    ensures 0 < SplitAt(t) <= |WithCell(before[p].cells, i, c)| && low == WithCell(before[p].cells, i, c)[SplitAt(t) - 1].key
  {
    hide WithCell, IndexIn, Inv;
  }

  lemma StrayedFrom(before: seq<Node>, t: Table, p: nat, i: nat, c: Cell, y: nat, j: nat, low: Key, waiting: seq<Node>, after: seq<Node>)
    requires p < |before| && before[p].Leaf? && i <= |before[p].cells| && y < |before| && y != p && before[y].Internal? && before[p].parent == y
    requires j == IndexIn(before[y].children, p) && j < |before[y].keys| && 0 < SplitAt(t) <= |before[p].cells|
    requires SplitAt(t) <= |WithCell(before[p].cells, i, c)| && low == WithCell(before[p].cells, i, c)[SplitAt(t) - 1].key
    requires var n, cells := |before|, WithCell(before[p].cells, i, c);
             && |waiting| == n + 1 && waiting[n] == Leaf(false, y, before[p].next, cells[SplitAt(t)..])
             && waiting[y] == before[y].(keys := before[y].keys[j := low])
             && waiting == before[p := before[p].(cells := cells[..SplitAt(t)], next := n)][y := waiting[y]] + [waiting[n]]
             && after == waiting[y := waiting[y].(keys := waiting[y].keys + [0], children := waiting[y].children + [n])]
    ensures Strayed(before, t, p, i, c, after)
  {
    hide WithCell, IndexIn, SplitAt;
  }

  lemma SplitInside(before: seq<Node>, g: View, t: Table, p: nat, i: nat, c: Cell, cut: seq<Node>, n: nat)
    requires Insertable(before, g, t, p, i, c) && LeafHalved(before, t, p, i, c, cut, n)
    ensures 0 < SplitAt(t) <= |before[p].cells|
  {
  }

  /** Leaf p is full, and its parent has room. */
  ghost predicate RoomAbove(pages: seq<Node>, t: Table, p: nat) {
    && p < |pages| && pages[p].Leaf? && |pages[p].cells| == t.cap && t.cap > 0 && p != t.root
    && pages[p].parent < |pages| && pages[pages[p].parent].Internal? && |pages[pages[p].parent].keys| < INTERNAL_NODE_MAX_KEYS
  }

  /** The pages after an insert into such a leaf, in order or not: the leaf halved, the separator that the search
      for its old last key finds lowered, and the new leaf in the parent. */
  ghost predicate Placed(before: seq<Node>, level: map<nat, nat>, t: Table, p: nat, i: nat, c: Cell, after: seq<Node>) {
    exists cut, idx: nat, waiting, last: nat {:trigger PlacedBy(before, level, t, p, i, c, after, cut, idx, waiting, last)} ::
      PlacedBy(before, level, t, p, i, c, after, cut, idx, waiting, last)
  }

  ghost predicate PlacedBy(before: seq<Node>, level: map<nat, nat>, t: Table, p: nat, i: nat, c: Cell, after: seq<Node>,
                           cut: seq<Node>, idx: nat, waiting: seq<Node>, last: nat)
  {
    && RoomAbove(before, t, p) && LeafHalved(before, t, p, i, c, cut, |before|)
    && var y, n, level1 := before[p].parent, |before|, level[|before| := 0];
    && idx == Bisect(before[y].keys, Last(before[p].cells).key, 0, |before[y].keys|) && Lowered(t, p, y, cut, idx, waiting)
    && Shape(waiting, level1) && n in level1 && y in level1 && Entered(waiting, level1, y, n, last, after)
  }

  /** How a leaf split ends once the parent has taken the new leaf. */
  lemma PassedEnds(before: seq<Node>, g: View, t: Table, p: nat, i: nat, c: Cell, cut: seq<Node>, n: nat, idx: nat, waiting: seq<Node>,
                   a: Arrival, j: nat, after: seq<Node>, level': map<nat, nat>, view: View, last: nat, m0: set<nat>, m1: set<nat>, m2: set<nat>)
    returns (g': View)
    requires Pointed(before, g, t, p, i) && p != t.root && LeafHalved(before, t, p, i, c, cut, n) && |before[p].cells| > 0
    requires Lowered(t, p, before[p].parent, cut, idx, waiting) && Goes(before, g, t, p, i, c, cut, n, idx, waiting, a, j)
    requires idx == Bisect(cut[before[p].parent].keys, Last(before[p].cells).key, 0, |cut[before[p].parent].keys|)
    requires Arriving(waiting, g.level[n := 0], t, before[p].parent, n, a)
    requires Outcome(waiting, g.level[n := 0], t, before[p].parent, a, after, level', view)
    requires MarksOutcome(waiting, g.level[n := 0], t, before[p].parent, n, a, after, level', m1, m2)
    requires m1 == m0 + {p, n} + if idx < |cut[before[p].parent].keys| then {before[p].parent} else {}
    requires |waiting[before[p].parent].keys| < INTERNAL_NODE_MAX_KEYS ==>
               Entered(waiting, g.level[n := 0], before[p].parent, n, last, after)
    ensures Taken(before, g, t, p, i, c, after, g')
    ensures Insertable(before, g, t, p, i, c) ==> Settled(before, g, t, p, c, after, g', m0, m2)
    ensures Straying(before, g, t, p, i, c) ==> Strayed(before, t, p, i, c, after)
    ensures RoomAbove(before, t, p) ==> Placed(before, g.level, t, p, i, c, after)
  {
    HalvedLeafHooked(before, g, t, p, i, c, cut, n);
    assert Shape(waiting, g.level[n := 0]) && n == |before|;
    if Straying(before, g, t, p, i, c) {
      StrayRoom(before, g, t, p, i, c);
      hide Straying, Strayed, Goes, Arriving, Outcome, MarksOutcome, Pointed, Shape, Entered, LeafHalved;
      StrayEnters(before, g, t, p, i, c, cut, n, idx, waiting, last, g.level[n := 0], after);
    }
    if RoomAbove(before, t, p) {
      hide Straying, Strayed, Goes, Arriving, Outcome, MarksOutcome, Pointed, Shape, Entered, LeafHalved, Lowered;
      assert PlacedBy(before, g.level, t, p, i, c, after, cut, idx, waiting, last);
    }
    hide *;
    g' := LeafEnds(before, g, t, p, i, c, cut, n, idx, waiting, a, j, after, level', view, m0, m1, m2);
  }
}
