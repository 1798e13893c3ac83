/** Small stores on which the code, although repaired, ends in something that is no tree. */
module Failures {
  import opened Layout
  import opened Tree
  import opened TreeContents
  import opened TreeLeafUp
  import opened TreeClear
  import opened TreeRekey
  import opened TreeHalves
  import opened TreeSearch
  import opened TreeStanding
  import opened TreeStray
  import opened TreeInsert
  import opened TreeMarks
  import opened Btree
  import opened Marks
  import Select

  /** Leaves of at most seven cells, as sixteen columns of text give. */
  const T: Table := Table(1, 7)

  function Keyed(keys: seq<Key>): (cells: seq<Cell>)
    ensures |cells| == |keys| && forall i :: 0 <= i < |keys| ==> cells[i] == Cell(keys[i], [])
  {
    seq(|keys|, i requires 0 <= i < |keys| => Cell(keys[i], []))
  }

  /** A root over two leaves. */
  function TwoLeaves(left: seq<Key>, right: seq<Key>): (pages: seq<Node>)
    ensures |pages| == 4 && pages[1] == Internal(true, 0, [10], [2, 3])
    ensures pages[2] == Leaf(false, 1, 3, Keyed(left)) && pages[3] == Leaf(false, 1, 0, Keyed(right))
  {
    [ Leaf(false, 0, 0, []),
      Internal(true, 0, [10], [2, 3]),
      Leaf(false, 1, 3, Keyed(left)),
      Leaf(false, 1, 0, Keyed(right)) ]
  }

  /** A root over a full leaf and a leaf with the cells `right`. */
  function TwoLeafStore(right: seq<Key>): seq<Node> { TwoLeaves([1, 2, 3, 4, 5, 6, 7], right) }

  ghost function TwoLeafView(): View {
    View(map[1 := 1, 2 := 0, 3 := 0], map[1 := -1, 2 := -1, 3 := 10], map[1 := MAX_KEY, 2 := 10, 3 := MAX_KEY],
         map[10 := 1], [2, 3])
  }

  ghost predicate GoodRight(right: seq<Key>) {
    SortedKeys(right) && |right| <= T.cap && forall i :: 0 <= i < |right| ==> 10 < right[i]
  }

  ghost predicate GoodLeft(left: seq<Key>) {
    SortedKeys(left) && |left| <= T.cap && forall i :: 0 <= i < |left| ==> left[i] <= 10
  }

  lemma TwoLeavesTree(left: seq<Key>, right: seq<Key>)
    requires GoodLeft(left) && GoodRight(right)
    ensures Inv(TwoLeaves(left, right), TwoLeafView(), T, 0)
  {
    var pages, g := TwoLeaves(left, right), TwoLeafView();
    TwoLeafPages(left, right);
    assert g.order[0] == 2 && g.order[1] == 3 && 2 in g.order && 3 in g.order;
    hide TwoLeaves, GoodLeft, GoodRight, Keyed;
    assert OrderOk(pages, g);
    hide PageOk, OrderOk;
  }

  lemma TwoLeafTree(right: seq<Key>)
    requires GoodRight(right)
    ensures Inv(TwoLeafStore(right), TwoLeafView(), T, 0)
  {
    TwoLeavesTree([1, 2, 3, 4, 5, 6, 7], right);
  }

  lemma TwoLeafPages(left: seq<Key>, right: seq<Key>)
    requires GoodLeft(left) && GoodRight(right)
    ensures Dom(TwoLeaves(left, right), TwoLeafView()) && PagesOk(TwoLeaves(left, right), TwoLeafView(), T, 0)
  {
    var pages, g := TwoLeaves(left, right), TwoLeafView();
    assert ChildOk(pages, g, 1, 0) && ChildOk(pages, g, 1, 1) && KeysOk(pages, g, 1);
    assert PageOk(pages, g, T, 0, 1);
    hide ChildOk, KeysOk;
    assert PageOk(pages, g, T, 0, 2);
    assert PageOk(pages, g, T, 0, 3);
  }

  /** The bound of AsWritten.NoCascadeBelow is exact: with one row more a leaf below the root can be full. */
  lemma FullLeafAtBound()
    ensures var pages, g := TwoLeafStore([20, 30, 40, 50]), TwoLeafView();
            && Inv(pages, g, T, 0) && MinKeys(pages, g, T) && MinCells(pages, g, T)
            && |Contents(pages, g.order)| == T.cap + SplitAt(T) && 2 in g.level && 2 != T.root && |pages[2].cells| == T.cap
  {
    var pages, g := TwoLeafStore([20, 30, 40, 50]), TwoLeafView();
    TwoLeafTree([20, 30, 40, 50]);
    hide Inv;
    assert Contents(pages, [3]) == CellsAt(pages, 3) + Contents(pages, []);
    assert g.order == [2, 3] && g.order[1..] == [3];
    assert Contents(pages, [2, 3]) == CellsAt(pages, 2) + Contents(pages, [3]);
  }

  /** Key 8 belongs behind the last cell of the full leaf; what matters is whether the other leaf,
      the rightmost below their parent, is empty. */
  lemma TwoLeafInsert(right: seq<Key>)
    requires right == [] || right == [20]
    ensures var pages, g := TwoLeafStore(right), TwoLeafView();
            && Insertable(pages, g, T, 2, 7, Cell(8, [])) && |pages[2].cells| == T.cap
            && (InsertClear(pages, g, T, 2) <==> right != [])
  {
    var pages, g := TwoLeafStore(right), TwoLeafView();
    TwoLeafTree(right);
    InvShape(pages, g, T, 0);
    hide Inv, Shape;
    assert HasParent(pages, g.level, 1, 2);
    assert Descends(pages, g.level, 1) && Descends(pages, g.level, 3) by { TwoLeafDown(right); }
    assert RightLeaf(pages, g.level, 1) == RightLeaf(pages, g.level, 3) == 3;
  }

  lemma TwoLeafDown(right: seq<Key>)
    ensures Descends(TwoLeafStore(right), TwoLeafView().level, 1) && Descends(TwoLeafStore(right), TwoLeafView().level, 3)
  {
  }

  lemma TwoLeafStands(right: seq<Key>)
    requires right == [] || right == [20]
    ensures var pages, g := TwoLeafStore(right), TwoLeafView();
            |pages| == 4 && Standing(pages, g, T) && Pointed(pages, g, T, 2, 7) && 3 in g.level && pages[3].Leaf? && pages[3].cells == Keyed(right)
  {
    TwoLeafTree(right);
    hide Inv;
    InvStands(TwoLeafStore(right), TwoLeafView(), T);
  }

  lemma EmptyRight()
    ensures var pages := TwoLeafStore([20]); TwoLeafStore([]) == pages[3 := pages[3].(cells := pages[3].cells[..0] + pages[3].cells[1..])]
  {
    assert Keyed([]) == [] && |Keyed([20])| == 1;
    var cells := Keyed([20]);
    assert cells[..0] + cells[1..] == [];
  }

  lemma EmptyStrays()
    ensures Straying(TwoLeafStore([]), TwoLeafView(), T, 2, 7, Cell(8, []))
  {
    TwoLeafInsert([]);
    hide Inv, InsertClear, IsCellLowerBound;
  }

  /** Of the keys 1 to 8 the search finds only those that moved to the new leaf. */
  ghost predicate LowerLost(pages: seq<Node>) {
    var level := TwoLeafView().level[4 := 0];
    && Walkable(pages, level)
    && forall k: Key {:trigger Hits(pages, level, 1, Cell(k, []))} :: 1 <= k <= 8 ==> (Hits(pages, level, 1, Cell(k, [])) <==> k > 4)
  }

  lemma EightCells()
    ensures WithCell(TwoLeafStore([])[2].cells, 7, Cell(8, []))
         == [Cell(1, []), Cell(2, []), Cell(3, []), Cell(4, []), Cell(5, []), Cell(6, []), Cell(7, []), Cell(8, [])]
  {
    assert TwoLeafStore([])[2].cells
        == [Cell(1, []), Cell(2, []), Cell(3, []), Cell(4, []), Cell(5, []), Cell(6, []), Cell(7, [])];
  }

  lemma StrayedCell(pages: seq<Node>, k: Key)
    requires Strayed(TwoLeafStore([]), T, 2, 7, Cell(8, []), pages) && 1 <= k <= 8
    ensures var l := if k <= 4 then 2 else 4; l < |pages| && pages[l].Leaf? && Cell(k, []) in pages[l].cells
  {
    var cells := WithCell(TwoLeafStore([])[2].cells, 7, Cell(8, []));
    assert pages[2].cells == cells[..4] && pages[4].cells == cells[4..];
    hide TwoLeafStore, Strayed;
    assert cells == [Cell(1, []), Cell(2, []), Cell(3, []), Cell(4, []), Cell(5, []), Cell(6, []), Cell(7, []), Cell(8, [])] by {
      EightCells();
    }
    assert cells[k - 1] == Cell(k, []);
    hide Keyed, WithCell;
    assert k <= 4 ==> cells[..4][k - 1] == Cell(k, []);
    assert k > 4 ==> cells[4..][k - 5] == Cell(k, []);
  }

  lemma LowerOverlooked()
    ensures |TwoLeafStore([])| == 4 && TwoLeafStore([])[2].parent == 1 && TwoLeafStore([])[1].Internal?
    ensures Overlooked(TwoLeafStore([]), 2, 2) && !Overlooked(TwoLeafStore([]), 2, 4) && 2 in TwoLeafView().level
  {
    assert IndexIn([2, 3], 2) == 0;
  }

  lemma LowerIsLost(pages: seq<Node>)
    requires Strayed(TwoLeafStore([]), T, 2, 7, Cell(8, []), pages)
    ensures LowerLost(pages)
  {
    var before, g, c0 := TwoLeafStore([]), TwoLeafView(), Cell(8, []);
    EmptyStrays();
    LowerOverlooked();
    assert T.root == 1;
    hide Inv, Straying, Strayed, WithCell, Hits, TwoLeafStore, TwoLeafView, Overlooked, Walkable, T;
    forall k: Key | 1 <= k <= 8
      ensures Walkable(pages, g.level[4 := 0]) && (Hits(pages, g.level[4 := 0], 1, Cell(k, [])) <==> k > 4)
    {
      var l := if k <= 4 then 2 else 4;
      StrayedCell(pages, k);
      StrayRows(before, g, T, 2, 7, c0, pages, l, Cell(k, []));
    }
    assert Walkable(pages, g.level[4 := 0]) by { StrayedCell(pages, 1); StrayRows(before, g, T, 2, 7, c0, pages, 2, Cell(1, [])); }
  }

  /** Deleting the one row of the rightmost leaf and then inserting into the full leaf beside it ends
      in a store that is no tree, in which four of the eight rows are not found any more. Without the delete
      the same insert is carried out. */
  method DeleteThenInsert(delete: bool) returns (store: PageStore)
    ensures fresh(store)
    ensures if delete then (forall v, over :: !Inv(store.pages, v, T, over)) && LowerLost(store.pages)
            else exists v :: Inv(store.pages, v, T, 0)
  {
    hide Straying, Strayed, LowerLost, Inv, Insertable, InsertClear, TreeInserted, Standing, Taken, PageMarks, TwoLeafStore, TwoLeafView,
         Keyed, Framed, Tracked, CellAdded;
    store := new PageStore();
    store.pages := TwoLeafStore([20]);
    ghost var g := TwoLeafView();
    TwoLeafInsert([20]);
    TwoLeafInsert([]);
    TwoLeafStands([20]);
    TwoLeafStands([]);
    EmptyStrays();
    if delete {
      EmptyRight();
      store.LeafNodeDelete(T, 3, 0, g);
      assert store.pages == TwoLeafStore([]);
    }
    ghost var was := store.pages;
    ghost var g' := store.LeafNodeInsert(T, 2, 7, 8, [], g);
    if !delete {
      InsertedTree(was, g, store.pages, g', Cell(8, []));
    } else {
      LowerIsLost(store.pages);
    }
  }

  /** Giving the first of two rows a key beyond the second breaks even a table of one leaf. */
  lemma RekeyedPastNeighbour(row: Row)
    ensures var pages := [Leaf(false, 0, 0, []), Leaf(true, 0, 0, [Cell(1, row), Cell(5, row)])];
            && Inv(pages, OneLeafView(), T, 0)
            && Found(pages, OneLeafView(), 1, 0, 1) && Found(pages, OneLeafView(), 1, 2, 9)
            && !StaysPut(pages, 1, 0, 1, 2, 9)
            && Rewritten(pages, 1, 0, Cell(9, row))[1].cells == [Cell(9, row), Cell(5, row)]
            && forall v, over :: !Inv(Rewritten(pages, 1, 0, Cell(9, row)), v, T, over)
  {
    var pages, g := [Leaf(false, 0, 0, []), Leaf(true, 0, 0, [Cell(1, row), Cell(5, row)])], OneLeafView();
    assert PageOk(pages, g, T, 0, 1) && g.order[0] == 1;
    RekeyedTree(pages, g, T, 1, 0, Cell(9, row), 1, 2);
  }

  ghost function OneLeafView(): View { View(map[1 := 0], map[1 := -1], map[1 := MAX_KEY], map[], [1]) }

  // A scan that misses rows

  /** A root over a full leaf and another one; the last cell of the full leaf has the key `last`. */
  function RekeyStore(last: Key): seq<Node> { TwoLeaves([1, 2, 3, 4, 6, 7, last], [20]) }

  /** The key 8 is written over by 0: the table still stands, and key 5 belongs where the search points. */
  lemma RekeyedStands()
    ensures var was, now := RekeyStore(8), RekeyStore(0);
            && now == Rewritten(was, 2, 6, Cell(0, [])) && Standing(now, TwoLeafView(), T) && Pointed(now, TwoLeafView(), T, 2, 4)
            && RoomAbove(now, T, 2)
  {
    var was, now, g := RekeyStore(8), RekeyStore(0), TwoLeafView();
    TwoLeavesTree([1, 2, 3, 4, 6, 7, 8], [20]);
    InvStands(was, g, T);
    var cells := Keyed([1, 2, 3, 4, 6, 7, 8]);
    assert cells[6 := Cell(0, [])] == Keyed([1, 2, 3, 4, 6, 7, 0]);
    assert now == Rewritten(was, 2, 6, Cell(0, []));
    hide Inv, Standing, Keyed, Rewritten;
    EditStands(was, g, T, 2, Keyed([1, 2, 3, 4, 6, 7, 0]));
  }

  /** The old leaf keeps its first four cells. The new one ends with the cell of key 0, which counts as its
      largest; so it becomes the first child. */
  ghost predicate NewLeafFirst(pages: seq<Node>) {
    && |pages| == 5 && pages[1] == Internal(true, 0, [0, 4], [4, 2, 3]) && pages[3] == Leaf(false, 1, 0, Keyed([20]))
    && pages[2] == Leaf(false, 1, 4, Keyed([1, 2, 3, 4])) && pages[4] == Leaf(false, 1, 3, Keyed([5, 6, 7, 0]))
  }

  lemma RekeyHalves(cut: seq<Node>)
    requires LeafHalved(RekeyStore(0), T, 2, 4, Cell(5, []), cut, 4)
    ensures |cut| == 5 && cut[1] == RekeyStore(0)[1] && cut[3] == RekeyStore(0)[3]
    ensures cut[2] == Leaf(false, 1, 4, Keyed([1, 2, 3, 4])) && cut[4] == Leaf(false, 1, 3, Keyed([5, 6, 7, 0]))
  {
    var cells := WithCell(Keyed([1, 2, 3, 4, 6, 7, 0]), 4, Cell(5, []));
    assert cells == Keyed([1, 2, 3, 4, 5, 6, 7, 0]);
    assert cells[..4] == Keyed([1, 2, 3, 4]) && cells[4..] == Keyed([5, 6, 7, 0]);
    assert SplitAt(T) == 4;
  }

  lemma RekeyPlaced(level: map<nat, nat>, after: seq<Node>)
    requires Placed(RekeyStore(0), level, T, 2, 4, Cell(5, []), after)
    ensures NewLeafFirst(after)
  {
    var before := RekeyStore(0);
    var cut: seq<Node>, idx: nat, waiting: seq<Node>, last: nat :| PlacedBy(before, level, T, 2, 4, Cell(5, []), after, cut, idx, waiting, last);
    RekeyHalves(cut);
    assert Last(before[2].cells) == Cell(0, []) && Bisect([10], 0, 0, 1) == 0;
    assert idx == 0 && cut[1].keys == [10] && Last(cut[2].cells).key == 4;
    assert cut[1].keys[0 := 4] == [4] && before[2].parent == 1;
    assert waiting == cut[1 := Internal(true, 0, [4], [2, 3])];
    hide RekeyStore, LeafHalved, Lowered, Shape, RoomAbove;
    assert MaxKey(waiting, level[4 := 0], 4) == 0 && MaxKey(waiting, level[4 := 0], 3) == 20;
    assert last == 0;
  }

  /** From leaf 4 on there are two leaves in the chain. */
  lemma RestOfChain(pages: seq<Node>, g: View, j: nat)
    requires Standing(pages, g, T) && NewLeafFirst(pages) && j < |g.order| && g.order[j] == 4
    ensures Contents(pages, g.order[j..]) == Keyed([5, 6, 7, 0, 20])
  {
    Select.ChainStep(pages, g, T, j);
    assert g.order[j + 1] == 3;
    Select.ChainStep(pages, g, T, j + 1);
    assert |g.order| == j + 2 && g.order[j..] == [4, 3];
    hide Standing;
    assert [4, 3][1..] == [3] && [3][1..] == [] && Contents(pages, [3]) == CellsAt(pages, 3) + Contents(pages, []);
    assert Keyed([5, 6, 7, 0]) + Keyed([20]) == Keyed([5, 6, 7, 0, 20]);
  }

  lemma LeftmostIsNew(pages: seq<Node>, level: map<nat, nat>)
    requires NewLeafFirst(pages) && Shape(pages, level) && 1 in level
    ensures Select.Leftmost(pages, level, 1) == 4
  {
    assert Descends(pages, level, 1) && pages[1].children[0] == 4;
    assert Select.Leftmost(pages, level, 4) == 4;
  }

  lemma RowsAfter(pages: seq<Node>, g: View, rows: seq<Cell>)
    requires Standing(pages, g, T) && NewLeafFirst(pages) && Select.ScanResult(pages, g, T, Select.All, rows)
    ensures rows == Keyed([5, 6, 7, 0, 20])
  {
    var j: nat, cell: nat :| Select.Starts(pages, g, T, Select.All, j, cell)
      && Select.Selected(Contents(pages, g.order), Select.All, Position(pages, g.order, j, cell), rows);
    LeftmostIsNew(pages, g.level);
    Select.WholeTable(pages, g, T, j, rows);
    RestOfChain(pages, g, j);
  }

  /** find_node still comes to the keys that the scan misses. */
  lemma KeysAfter(pages: seq<Node>, level: map<nat, nat>, k: Key)
    requires NewLeafFirst(pages) && Walkable(pages, level) && 1 in level && 1 <= k <= 4
    ensures Sits(pages, level, 1, k)
  {
    assert Descends(pages, level, 1);
    assert Bisect([0, 4], k, 0, 2) == 1;
    assert Search(pages, level, 1, k) == 2;
    var keys := CellKeys(pages[2].cells);
    assert keys == [1, 2, 3, 4];
    BisectSorted(keys, k, 0, 4);
  }

  /** A table of eight rows, an UPDATE of the key 8 to 0, and an INSERT of 5: a SELECT of all rows then prints
      only the half that moved, and the other leaf; the rows 1 to 4 are there and can be selected by key. */
  method RekeyThenInsert() returns (store: PageStore, rows: seq<Cell>, ghost g: View)
    ensures fresh(store) && Standing(store.pages, g, T) && NewLeafFirst(store.pages)
    ensures rows == Keyed([5, 6, 7, 0, 20])
    ensures forall k: Key {:trigger Sits(store.pages, g.level, 1, k)} :: 1 <= k <= 4 ==> Sits(store.pages, g.level, 1, k)
  {
    hide Standing, Taken, Inv, Pointed, Placed, RoomAbove, NewLeafFirst, Insertable, Settled, Straying, Strayed, TwoLeafView, RekeyStore, Keyed,
         Select.ScanResult, Sits, Walkable;
    store := new PageStore();
    store.pages := RekeyStore(8);
    RekeyedStands();
    OldCells();
    store.pages := store.pages[2 := store.pages[2].(cells := store.pages[2].cells[6 := Cell(0, [])])];
    assert store.pages == RekeyStore(0);
    g := store.LeafNodeInsert(T, 2, 4, 5, [], TwoLeafView());
    RekeyPlaced(TwoLeafView().level, store.pages);
    assert Standing(store.pages, g, T) by { TakenStands(RekeyStore(0), TwoLeafView(), Cell(5, []), store.pages, g); }
    StandingWalkable(store.pages, g, T);
    ghost var fetched;
    rows, fetched := Select.ExecuteSelect(store, T, Select.All, g);
    RowsAfter(store.pages, g, rows);
    assert T.root == 1;
    forall k: Key | 1 <= k <= 4 ensures Sits(store.pages, g.level, 1, k) { KeysAfter(store.pages, g.level, k); }
  }

  lemma OldCells()
    ensures |RekeyStore(8)| == 4 && RekeyStore(8)[2].Leaf? && |RekeyStore(8)[2].cells| == 7
    ensures Rewritten(RekeyStore(8), 2, 6, Cell(0, [])) == RekeyStore(8)[2 := RekeyStore(8)[2].(cells := RekeyStore(8)[2].cells[6 := Cell(0, [])])]
  {
  }

  lemma TakenStands(before: seq<Node>, g: View, c: Cell, after: seq<Node>, g': View)
    requires Taken(before, g, T, 2, 4, c, after, g')
    ensures Standing(after, g', T)
  {
    hide Standing;
  }

  // A full root over 511 leaves, the first of them full

  const CHILDREN: nat := INTERNAL_NODE_MAX_KEYS + 1

  function FullRoot(): Node {
    Internal(true, 0, seq(INTERNAL_NODE_MAX_KEYS, j requires 0 <= j < INTERNAL_NODE_MAX_KEYS => 10 * (j + 1)), seq(CHILDREN, j requires 0 <= j => 2 + j))
  }

  function LeafAt(j: nat): Node {
    Leaf(false, 1, if j + 1 < CHILDREN then 3 + j else 0, Keyed(if j == 0 then [1, 2, 3, 4, 5, 6, 7] else if j < CHILDREN then [10 * j + 1] else []))
  }

  function FullRootStore(): (pages: seq<Node>)
    ensures |pages| == CHILDREN + 2 && pages[1] == FullRoot() && forall j :: 0 <= j < CHILDREN ==> pages[2 + j] == LeafAt(j)
  {
    [Leaf(false, 0, 0, []), FullRoot()] + seq(CHILDREN, j requires 0 <= j => LeafAt(j))
  }

  ghost const INDEXED: set<nat> := set x: nat | 1 <= x < CHILDREN + 2
  ghost const SEPARATORS: set<int> := set k: int | 0 <= k < 10 * CHILDREN

  ghost function FullRootView(): (g: View)
    ensures |g.order| == CHILDREN && forall j :: 0 <= j < CHILDREN ==> g.order[j] == 2 + j
    ensures g.level.Keys == g.lo.Keys == g.hi.Keys == INDEXED
  {
    View(map x | x in INDEXED :: if x == 1 then 1 else 0,
         map x | x in INDEXED :: if x <= 2 then -1 else 10 * (x - 2),
         map x | x in INDEXED :: if x == 1 || x == CHILDREN + 1 then MAX_KEY else 10 * (x - 1),
         map k | k in SEPARATORS :: 1,
         seq(CHILDREN, j requires 0 <= j => 2 + j))
  }

  lemma LeafAtCells(j: nat)
    requires j < CHILDREN
    ensures var cells := LeafAt(j).cells;
            && |cells| <= T.cap && SortedCells(cells)
            && forall i :: 0 <= i < |cells| ==>
                 (if j == 0 then -1 else 10 * j) < cells[i].key <= if j + 1 == CHILDREN then MAX_KEY else 10 * (j + 1)
  {
  }

  lemma FullRootLeaf(j: nat)
    requires j < CHILDREN && Dom(FullRootStore(), FullRootView())
    ensures PageOk(FullRootStore(), FullRootView(), T, 0, 2 + j)
  {
    hide FullRootStore, FullRootView, Dom, Keyed, SortedCells;
    var pages, g := FullRootStore(), FullRootView();
    FullRootBounds(1);
    FullRootBounds(2 + j);
    assert pages[2 + j] == LeafAt(j) && pages[1].Internal? && 2 + j in pages[1].children by { assert FullRoot().children[j] == 2 + j; }
    LeafAtCells(j);
    LeafPageOk(pages, g, 2 + j, 1);
  }

  lemma LeafPageOk(pages: seq<Node>, g: View, x: nat, y: nat)
    requires Dom(pages, g) && x in g.level && y in g.level && g.level[x] == 0 && x != T.root && pages[x].Leaf? && !pages[x].isRoot
    requires pages[x].parent == y && pages[y].Internal? && x in pages[y].children
    requires |pages[x].cells| <= T.cap && SortedCells(pages[x].cells)
    requires forall i :: 0 <= i < |pages[x].cells| ==> g.lo[x] < pages[x].cells[i].key <= g.hi[x]
    ensures PageOk(pages, g, T, 0, x)
  {
  }

  lemma FullRootPage()
    requires Dom(FullRootStore(), FullRootView())
    ensures PageOk(FullRootStore(), FullRootView(), T, 0, 1)
  {
    var pages, g := FullRootStore(), FullRootView();
    assert pages[1] == FullRoot() && 1 in g.level && g.level[1] == 1 && FullRoot().isRoot;
    assert |FullRoot().children| == |FullRoot().keys| + 1 == CHILDREN && |FullRoot().keys| <= INTERNAL_NODE_MAX_KEYS;
    assert KeysOk(pages, g, 1);
    hide FullRootStore, FullRootView, FullRoot, KeysOk, ChildOk, Dom, LeafAt;
    forall i | 0 <= i < CHILDREN ensures ChildOk(pages, g, 1, i) { FullRootChild(i); }
  }

  lemma FullRootChild(i: nat)
    requires i < CHILDREN && Dom(FullRootStore(), FullRootView()) && 1 in FullRootView().level
    ensures FullRootStore()[1] == FullRoot() && |FullRoot().children| == |FullRoot().keys| + 1 == CHILDREN
    ensures ChildOk(FullRootStore(), FullRootView(), 1, i)
  {
    FullRootBounds(1);
    FullRootBounds(2 + i);
    assert FullRootStore()[2 + i] == LeafAt(i);
    hide FullRootView, FullRootStore;
  }

  lemma FullRootTree()
    ensures Inv(FullRootStore(), FullRootView(), T, 0)
  {
    var pages, g := FullRootStore(), FullRootView();
    assert Dom(pages, g);
    FullRootPage();
    FullRootOrder();
    FullRootBoundary();
    assert 1 in g.level && g.lo[1] == -1 && g.hi[1] == MAX_KEY;
    hide PageOk, OrderOk, FullRootView, FullRootStore, BoundaryOk, Dom;
    forall x | x in g.level ensures PageOk(pages, g, T, 0, x) {
      if x != 1 { FullRootLeaf(x - 2); }
    }
  }

  lemma FullRootBounds(x: nat)
    requires x in INDEXED
    ensures var g := FullRootView();
            && x in g.level && g.lo[x] == (if x <= 2 then -1 else 10 * (x - 2))
            && g.hi[x] == (if x == 1 || x == CHILDREN + 1 then MAX_KEY else 10 * (x - 1))
            && g.level[x] == if x == 1 then 1 else 0
  {
  }

  lemma FullRootOutside(x: nat, l: nat)
    requires x in INDEXED && l in INDEXED && l != 1
    ensures x in FullRootView().lo && l in FullRootView().lo && l in FullRootView().hi && Outside(FullRootView(), x, l)
  {
    FullRootBounds(x);
    FullRootBounds(l);
    hide FullRootView;
  }

  lemma FullRootBoundary()
    requires Dom(FullRootStore(), FullRootView())
    ensures BoundaryOk(FullRootStore(), FullRootView())
  {
    var pages, g := FullRootStore(), FullRootView();
    hide Dom, FullRootStore, FullRootView;
    assert pages[1] == FullRoot();
    forall x, l | x in g.level && l in g.level && pages[l].Leaf? ensures Outside(g, x, l) {
      FullRootOutside(x, l);
    }
  }

  lemma FullRootListed(x: nat)
    requires x in FullRootView().level && x != 1
    ensures x in FullRootView().order
  {
    assert FullRootView().order[x - 2] == x;
  }

  lemma FullRootChain(i: nat)
    requires i < CHILDREN
    ensures var pages, g := FullRootStore(), FullRootView();
            && g.order[i] == 2 + i && 2 + i in g.level && pages[2 + i].Leaf?
            && pages[2 + i].next == (if i + 1 < CHILDREN then 3 + i else 0)
            && g.lo[2 + i] == (if i == 0 then -1 else 10 * i) && g.hi[2 + i] == if i + 1 == CHILDREN then MAX_KEY else 10 * (i + 1)
  {
    FullRootBounds(2 + i);
    assert FullRootStore()[2 + i] == LeafAt(i);
  }

  ghost predicate ChainLink(pages: seq<Node>, g: View, i: nat) {
    i < |g.order| ==>
      && var l := g.order[i];
      && l in g.level && l in g.lo && l in g.hi && l < |pages| && pages[l].Leaf?
      && pages[l].next == (if i + 1 < |g.order| then g.order[i + 1] else 0)
      && (i + 1 < |g.order| ==> g.order[i + 1] in g.lo && g.hi[l] == g.lo[g.order[i + 1]])
  }

  lemma FullRootLink(i: nat)
    ensures ChainLink(FullRootStore(), FullRootView(), i)
  {
    if i < CHILDREN { FullRootChain(i); }
    if i + 1 < CHILDREN { FullRootChain(i + 1); }
  }

  lemma ChainOrder(pages: seq<Node>, g: View)
    requires Dom(pages, g) && |g.order| >= 1 && forall i: nat {:trigger ChainLink(pages, g, i)} :: ChainLink(pages, g, i)
    requires g.order[0] in g.lo && g.lo[g.order[0]] == -1 && Last(g.order) in g.hi && g.hi[Last(g.order)] == MAX_KEY
    requires forall x {:trigger x in g.order} :: x in g.level && pages[x].Leaf? ==> x in g.order
    ensures OrderOk(pages, g)
  {
    assert ChainLink(pages, g, |g.order| - 1);
    forall i | 0 <= i < |g.order| ensures g.order[i] in g.level && pages[g.order[i]].Leaf? { assert ChainLink(pages, g, i); }
    forall i | 0 <= i < |g.order| - 1
      ensures g.hi[g.order[i]] == g.lo[g.order[i + 1]] && pages[g.order[i]].next == g.order[i + 1]
    {
      assert ChainLink(pages, g, i);
    }
  }

  lemma FullRootOrder()
    requires Dom(FullRootStore(), FullRootView())
    ensures OrderOk(FullRootStore(), FullRootView())
  {
    FullRootChain(0);
    FullRootChain(CHILDREN - 1);
    hide FullRootStore, FullRootView, OrderOk, Dom;
    forall i: nat | true ensures ChainLink(FullRootStore(), FullRootView(), i) { FullRootLink(i); }
    forall x | x in FullRootView().level && FullRootStore()[x].Leaf? ensures x in FullRootView().order { FullRootOnlyLeaf(x); }
    ChainOrder(FullRootStore(), FullRootView());
  }

  lemma FullRootOnlyLeaf(x: nat)
    requires x in FullRootView().level && x < |FullRootStore()| && FullRootStore()[x].Leaf?
    ensures x in FullRootView().order
  {
    if x == 1 { assert false; }
    FullRootListed(x);
  }

  /** The insert into the first leaf goes through, and the upper half of the root is a new page that
      nothing marks. */
  lemma FullRootInsert()
    ensures var pages, g := FullRootStore(), FullRootView();
            && Insertable(pages, g, T, 2, 7, Cell(8, [])) && InsertClear(pages, g, T, 2)
            && InsertMissed(pages, g.level, T, 2) == {CHILDREN + 3}
  {
    var pages, g := FullRootStore(), FullRootView();
    FullRootTree();
    FullRootBounds(1);
    FullRootBounds(2);
    FullRootBounds(2 + SPLIT);
    assert pages[2] == LeafAt(0) && FullRoot().children[0] == 2 && FullRoot().children[SPLIT] == 2 + SPLIT && pages[2 + SPLIT] == LeafAt(SPLIT);
    hide FullRootStore;
    FullRootMissed(pages, g, T, 2);
    InvShape(pages, g, T, 0);
    hide Inv, Shape;
    assert IndexIn(FullRoot().children, 2) == 0;
    assert HasParent(pages, g.level, 1, 2);
    assert Fine(pages, g.level, 2 + SPLIT);
    assert Clear(pages, g.level, 1, 1, 0);
  }

  /** After this insert the store is a tree, but not what is read back from the file. */
  method LoseUpperHalf() returns (store: PageStore, back: seq<Node>)
    ensures fresh(store) && (exists v :: Inv(store.pages, v, T, 0)) && forall v, over :: !Inv(back, v, T, over)
  {
    store := new PageStore();
    store.pages := FullRootStore();
    FullRootInsert();
    ghost var before := store.pages;
    assert Clean(before, before, store.marked);
    hide Inv, InsertClear, Insertable, InsertMissed, FullRootStore, TreeInserted, Clean, Finds;
    ghost var v;
    v, back := InsertThenReopen(store, T, 2, 7, 8, [], store.pages, FullRootView());
    InsertedTree(before, FullRootView(), store.pages, v, Cell(8, []));
  }

  lemma InsertedTree(before: seq<Node>, g: View, after: seq<Node>, g': View, c: Cell)
    requires TreeInserted(before, g, after, g', T, c)
    ensures Inv(after, g', T, 0)
  {
  }
}
