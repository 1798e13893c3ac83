/** Closing after an insert when only the pages are written that the source marks: what is read back
    when the file is opened again. */
module Marks {
  import opened Layout
  import opened Tree
  import opened TreeSteps
  import opened TreeContents
  import opened TreeLeafUp
  import opened TreeClear
  import opened TreeHalves
  import opened TreeSearch
  import opened TreeStanding
  import opened TreeInsert
  import opened TreeMarks
  import opened Btree
  import TreeLeaf
  import TreeArrival

  // The file

  /** A page of zero bytes: an internal page without keys whose right child is page 0. */
  const ZERO: Node := Internal(false, 0, [], [0])

  /** Writing page x of a file; what lies between its end and there reads as zero bytes. */
  function Written(file: seq<Node>, x: nat, page: Node): (r: seq<Node>)
    ensures |r| == if x < |file| then |file| else x + 1
    ensures r[x] == page && forall y :: 0 <= y < |r| && y != x ==> r[y] == if y < |file| then file[y] else ZERO
  {
    if x < |file| then file[x := page] else file + seq(x - |file|, _ => ZERO) + [page]
  }

  /** The file after the marked pages were written over it. */
  ghost predicate Closes(file: seq<Node>, pages: seq<Node>, marks: set<nat>, closed: seq<Node>) {
    && |file| <= |closed| <= |pages|
    && (forall x {:trigger closed[x]} :: 0 <= x < |closed| ==>
          closed[x] == if x in marks then pages[x] else if x < |file| then file[x] else ZERO)
    && (forall x {:trigger x in marks} :: x in marks && x < |pages| ==> x < |closed|)
    && (|closed| > |file| ==> |closed| - 1 in marks)
  }

  /** db_close: the pages below num_pages are written in turn, those that are marked. */
  method CloseMarked(pages: seq<Node>, marks: set<nat>, file: seq<Node>) returns (closed: seq<Node>)
    requires |file| <= |pages|
    ensures Closes(file, pages, marks, closed)
  {
    closed := file;
    var i := 0;
    while i < |pages|
      invariant i <= |pages| && |file| <= |closed| <= |pages|
      invariant forall x {:trigger closed[x]} :: 0 <= x < |closed| ==>
                  closed[x] == if x in marks && x < i then pages[x] else if x < |file| then file[x] else ZERO
      invariant forall x {:trigger x in marks} :: x in marks && x < i ==> x < |closed|
      invariant |closed| > |file| ==> |closed| - 1 in marks && |closed| <= i
    {
      if i in marks { closed := Written(closed, i, pages[i]); }
      i := i + 1;
    }
  }

  /** Pages that are not marked are in the file as they are in memory. */
  ghost predicate Clean(file: seq<Node>, pages: seq<Node>, marks: set<nat>) {
    && |file| <= |pages| && Below(marks, |pages|)
    && forall x {:trigger pages[x]} :: 0 <= x < |pages| && x !in marks ==> x < |file| && file[x] == pages[x]
  }

  lemma CleanAt(file: seq<Node>, pages: seq<Node>, marks: set<nat>, x: nat)
    requires Clean(file, pages, marks) && x < |pages| && x !in marks
    ensures x < |file| && file[x] == pages[x]
  {
    assert pages[x] == pages[x];
  }

  /** A tree, an insert into it, and the file after closing. */
  ghost predicate Reopened(file: seq<Node>, before: seq<Node>, g: View, after: seq<Node>, g': View, t: Table, marks: set<nat>,
                           marks': set<nat>, missed: set<nat>, closed: seq<Node>)
  {
    && Inv(before, g, t, 0) && Inv(after, g', t, 0) && Framed(before, g, after, g') && Clean(file, before, marks)
    && InsertMarked(before, after, g'.level, marks, marks', missed) && Closes(file, after, marks', closed)
    && (forall x :: x in missed && x < |before| ==> x in g.level)
  }

  /** A page that was not missed, or was marked before, is read back as it is in memory. */
  lemma ReadBack(file: seq<Node>, before: seq<Node>, g: View, after: seq<Node>, g': View, t: Table, marks: set<nat>,
                 marks': set<nat>, missed: set<nat>, closed: seq<Node>, x: nat)
    requires Reopened(file, before, g, after, g', t, marks, marks', missed, closed) && x < |after|
    ensures x !in missed || x in marks ==> x < |closed| && closed[x] == after[x]
    ensures x in missed && x !in marks ==>
              x !in marks' && if x < |before| then x < |closed| && closed[x] == before[x] else x < |closed| ==> closed[x] == ZERO
  {
    hide Inv, CutOff;
    if x !in marks' {
      if x !in missed { assert !Differs(before, after, x); }
      if x < |before| && x !in marks { CleanAt(file, before, marks, x); }
    }
  }

  // Whether it is a tree

  /** Above level n everything is read back as it is in memory. */
  ghost predicate IntactAbove(after: seq<Node>, level: map<nat, nat>, closed: seq<Node>, n: nat) {
    forall z {:trigger closed[z]} :: z in level && level[z] > n ==> z < |closed| && z < |after| && closed[z] == after[z]
  }

  lemma {:induction false} TopInView(after: seq<Node>, g': View, t: Table, closed: seq<Node>, n: nat, v: View, over: nat, x: nat)
    requires Inv(after, g', t, 0) && Inv(closed, v, t, over) && IntactAbove(after, g'.level, closed, n)
    requires x in g'.level && g'.level[x] >= n
    ensures x in v.level
    decreases if g'.level[x] <= g'.level[t.root] then g'.level[t.root] - g'.level[x] else 0
  {
    TreeLeaf.RootTop(after, g', t, 0);
    if x != t.root {
      TreeLeaf.PageBelowParent(after, g', t, 0, x);
      var y := after[x].parent;
      TopInView(after, g', t, closed, n, v, over, y);
      assert PageOk(closed, v, t, over, y) && closed[y] == after[y];
      var j :| 0 <= j < |after[y].children| && after[y].children[j] == x;
      assert ChildOk(closed, v, y, j);
    }
  }

  /** The page of a set that lies highest. */
  lemma Topmost(s: set<nat>, level: map<nat, nat>) returns (x: nat)
    requires s != {} && forall y :: y in s ==> y in level
    ensures x in s && forall y :: y in s ==> level[y] <= level[x]
    decreases |s|
  {
    x :| x in s;
    if s != {x} {
      var y := Topmost(s - {x}, level);
      if level[y] > level[x] { x := y; }
    }
  }

  /** In the file a missed page has children that do not name it, or names no parent itself. */
  lemma MissedNotInTree(file: seq<Node>, before: seq<Node>, g: View, after: seq<Node>, g': View, t: Table, marks: set<nat>,
                        marks': set<nat>, missed: set<nat>, closed: seq<Node>, v: View, over: nat, x: nat)
    requires Reopened(file, before, g, after, g', t, marks, marks', missed, closed) && Inv(closed, v, t, over)
    requires x in missed && x !in marks
    ensures x !in v.level
  {
    assert CutOff(before, after, g'.level, marks', x);
    ReadBack(file, before, g, after, g', t, marks, marks', missed, closed, x);
    if x in v.level {
      assert PageOk(closed, v, t, over, x);
      if x < |before| {
        var y := before[x].children[SPLIT + 1];
        assert y in before[x].children[SPLIT + 1..];
        assert y in marks' && ChildOk(closed, v, x, SPLIT + 1) && closed[y].parent == x;
        MovedAway(before, g, after, g', t, x, y);
      }
    }
  }

  /** A child that moved to the upper half has another parent. */
  lemma MovedAway(before: seq<Node>, g: View, after: seq<Node>, g': View, t: Table, x: nat, y: nat)
    requires Inv(before, g, t, 0) && Inv(after, g', t, 0) && Framed(before, g, after, g') && x in g.level && x < |before| && before[x].Internal?
    requires |before[x].children| > SPLIT + 1 && y == before[x].children[SPLIT + 1]
    requires x < |after| && after[x].Internal? && after[x].children == before[x].children[..SPLIT + 1]
    ensures y < |after| && after[y].parent != x
  {
    assert PageOk(before, g, t, 0, x) && ChildOk(before, g, x, SPLIT + 1);
    TreeLeaf.RootTop(before, g, t, 0);
    assert y in g.level && y != t.root;
    assert PageOk(after, g', t, 0, y);
    if after[y].parent == x {
      assert y in after[x].children;
      var k :| 0 <= k < SPLIT + 1 && before[x].children[k] == y;
      TreeArrival.OneIndex(before, g, t, x, k, SPLIT + 1);
    }
  }

  lemma AllReadBack(file: seq<Node>, before: seq<Node>, g: View, after: seq<Node>, g': View, t: Table, marks: set<nat>,
                    marks': set<nat>, missed: set<nat>, closed: seq<Node>)
    requires Reopened(file, before, g, after, g', t, marks, marks', missed, closed) && missed <= marks
    ensures closed == after
  {
    hide Inv, InsertMarked, Clean, Framed;
    forall x: nat | x < |after| ensures x < |closed| && closed[x] == after[x] {
      ReadBack(file, before, g, after, g', t, marks, marks', missed, closed, x);
    }
    if |after| > 0 { ReadBack(file, before, g, after, g', t, marks, marks', missed, closed, |after| - 1); }
    hide Reopened;
    assert |closed| == |after| by { assert |after| > 0 ==> |after| - 1 < |closed|; SameLength(file, before, g, after, g', t, marks, marks', missed, closed); }
  }

  lemma SameLength(file: seq<Node>, before: seq<Node>, g: View, after: seq<Node>, g': View, t: Table, marks: set<nat>,
                   marks': set<nat>, missed: set<nat>, closed: seq<Node>)
    requires Reopened(file, before, g, after, g', t, marks, marks', missed, closed)
    ensures |closed| <= |after|
  {
  }

  /** A missed page that was not marked before is torn from the tree, whatever view one takes. */
  lemma TornTree(file: seq<Node>, before: seq<Node>, g: View, after: seq<Node>, g': View, t: Table, marks: set<nat>,
                 marks': set<nat>, missed: set<nat>, closed: seq<Node>)
    requires Reopened(file, before, g, after, g', t, marks, marks', missed, closed) && !(missed <= marks)
    ensures forall v, over :: !Inv(closed, v, t, over)
  {
    var gone := set x | x in missed && x !in marks;
    var x0 :| x0 in missed && x0 !in marks;
    assert x0 in gone;
    forall x | x in gone ensures x in g'.level { assert CutOff(before, after, g'.level, marks', x); }
    var x := Topmost(gone, g'.level);
    forall z | z in g'.level && g'.level[z] > g'.level[x]
      ensures z < |closed| && z < |after| && closed[z] == after[z]
    {
      assert PageOk(after, g', t, 0, z);
      assert z !in gone;
      ReadBack(file, before, g, after, g', t, marks, marks', missed, closed, z);
    }
    assert Inv(after, g', t, 0) && IntactAbove(after, g'.level, closed, g'.level[x]);
    hide Inv;
    forall v, over | Inv(closed, v, t, over) ensures false {
      TopInView(after, g', t, closed, g'.level[x], v, over, x);
      MissedNotInTree(file, before, g, after, g', t, marks, marks', missed, closed, v, over, x);
    }
  }

  // Which rows are found

  datatype Came = To(page: nat) | Lost

  /** Where find_node comes to, unless it leaves the pages of the table. */
  ghost function Arrive(pages: seq<Node>, level: map<nat, nat>, pg: nat, key: Key): Came
    decreases if pg in level then level[pg] else 0
  {
    if pg !in level || pg >= |pages| then Lost
    else if pages[pg].Leaf? then To(pg)
    else
      var i := Bisect(pages[pg].keys, key, 0, |pages[pg].keys|);
      if i < |pages[pg].children| && pages[pg].children[i] in level && level[pages[pg].children[i]] < level[pg]
      then Arrive(pages, level, pages[pg].children[i], key) else Lost
  }

  /** The search for the key of a cell comes to that cell. */
  ghost predicate Finds(pages: seq<Node>, level: map<nat, nat>, root: nat, c: Cell) {
    var came := Arrive(pages, level, root, c.key);
    && came.To? && came.page < |pages| && pages[came.page].Leaf?
    && var cells := pages[came.page].cells;
       SearchCell(cells, c.key) < |cells| && cells[SearchCell(cells, c.key)] == c
  }

  /** In a tree the search does not get lost. */
  lemma {:induction false} ArriveFinds(pages: seq<Node>, level: map<nat, nat>, pg: nat, key: Key)
    requires Walkable(pages, level) && pg in level
    ensures Arrive(pages, level, pg, key) == To(Search(pages, level, pg, key))
    decreases level[pg]
  {
    assert Descends(pages, level, pg);
    if pages[pg].Internal? {
      ArriveFinds(pages, level, pages[pg].children[Bisect(pages[pg].keys, key, 0, |pages[pg].keys|)], key);
    }
  }

  /** In a tree exactly the cells that are there are found. */
  lemma FindsRows(pages: seq<Node>, g: View, t: Table, c: Cell)
    requires Inv(pages, g, t, 0)
    ensures Finds(pages, g.level, t.root, c) <==> c in Contents(pages, g.order)
  {
    var key := c.key;
    InvWalkable(pages, g, t, 0);
    ArriveFinds(pages, g.level, t.root, key);
    SearchFinds(pages, g, t, t.root, key);
    var page := Search(pages, g.level, t.root, key);
    var j := LeafPlace(pages, g, t, 0, page);
    var i := SearchCell(pages[page].cells, key);
    GlobalLowerBound(pages, g, t, j, i, key);
    ContentsSorted(pages, g, t);
    ContentsSplit(pages, g.order, j);
    CellAtBound(Contents(pages, g.order), Position(pages, g.order, j, i), c);
    assert PageOk(pages, g, t, 0, page);
    hide Inv, Contents;
  }

  /** The missed pages that are new and so not in the file. */
  function LostPages(before: seq<Node>, marks: set<nat>, missed: set<nat>): set<nat> { set x | x in missed && x !in marks && x >= |before| }

  /** A cut page still leads every key that is there to the child it belongs to. */
  lemma OldHalfLeads(before: seq<Node>, after: seq<Node>, g': View, t: Table, marks': set<nat>, x: nat, key: Key)
    requires Inv(after, g', t, 0) && Walkable(after, g'.level) && CutOff(before, after, g'.level, marks', x) && x < |before|
    requires g'.lo[x] < key <= g'.hi[x] && SortedKeys(before[x].keys) && Held(after, g'.level, x, key)
    ensures var i := Bisect(after[x].keys, key, 0, |after[x].keys|);
            Bisect(before[x].keys, key, 0, |before[x].keys|) == i && i < |after[x].children| && before[x].children[i] == after[x].children[i]
  {
    var keys, keys' := before[x].keys, after[x].keys;
    HeldMax(after, g', t, x, key);
    assert PageOk(after, g', t, 0, x) && KeysOk(after, g', x);
    hide Inv, Shape, Fine, MaxKey, Held;
    BisectSorted(keys, key, 0, |keys|);
    BisectSorted(keys', key, 0, |keys'|);
    SameBound(keys, keys', key, Bisect(keys, key, 0, |keys|), Bisect(keys', key, 0, |keys'|));
  }

  lemma SameBound(keys: seq<Key>, keys': seq<Key>, key: Key, i: nat, j: nat)
    requires |keys| > SPLIT && keys' == keys[..SPLIT] && key <= keys[SPLIT] && SortedKeys(keys)
    requires IsLowerBound(keys, key, i) && IsLowerBound(keys', key, j)
    ensures i == j
  {
    assert i < SPLIT ==> keys'[i] == keys[i];
    assert j < SPLIT ==> keys'[j] == keys[j];
  }

  /** The key is in the leaf that the search below x comes to. */
  ghost predicate Held(pages: seq<Node>, level: map<nat, nat>, x: nat, key: Key)
    requires Walkable(pages, level) && x in level
  {
    exists c :: c in pages[Search(pages, level, x, key)].cells && c.key == key
  }

  lemma HeldMax(pages: seq<Node>, g: View, t: Table, x: nat, key: Key)
    requires Inv(pages, g, t, 0) && Walkable(pages, g.level) && x in g.level && g.lo[x] < key <= g.hi[x]
    requires Held(pages, g.level, x, key) && Fine(pages, g.level, x)
    ensures key <= MaxKey(pages, g.level, x)
  {
    var l, r := Search(pages, g.level, x, key), RightLeaf(pages, g.level, x);
    SearchFinds(pages, g, t, x, key);
    RightLeafEnds(pages, g, t, 0, x);
    assert PageOk(pages, g, t, 0, r) && PageOk(pages, g, t, 0, l);
    if l != r { LeavesDisjoint(pages, g, t, 0, l, r); }
    var c :| c in pages[l].cells && c.key == key;
    var k :| 0 <= k < |pages[l].cells| && pages[l].cells[k] == c;
  }

  /** The way down to a row in the file: as in memory, unless it leads through a lost page. */
  lemma {:induction false} WayDown(file: seq<Node>, before: seq<Node>, g: View, after: seq<Node>, g': View, t: Table, marks: set<nat>,
                                   marks': set<nat>, missed: set<nat>, closed: seq<Node>, x: nat, key: Key)
    requires Reopened(file, before, g, after, g', t, marks, marks', missed, closed) && Walkable(after, g'.level)
    requires x in g'.level && g'.lo[x] < key <= g'.hi[x] && Held(after, g'.level, x, key)
    ensures Arrive(closed, g'.level, x, key)
         == if Through(after, g'.level, x, key, LostPages(before, marks, missed)) then Lost else To(Search(after, g'.level, x, key))
    decreases g'.level[x]
  {
    assert Descends(after, g'.level, x) && PageOk(after, g', t, 0, x);
    ReadBack(file, before, g, after, g', t, marks, marks', missed, closed, x);
    if x in LostPages(before, marks, missed) {
      assert 0 !in g'.level;
    } else if after[x].Internal? {
      var i := Bisect(after[x].keys, key, 0, |after[x].keys|);
      assert KeysOk(after, g', x);
      BisectSorted(after[x].keys, key, 0, |after[x].keys|);
      assert ChildOk(after, g', x, i);
      if x in missed && x !in marks {
        assert CutOff(before, after, g'.level, marks', x);
        assert PageOk(before, g, t, 0, x) && KeysOk(before, g, x);
        OldHalfLeads(before, after, g', t, marks', x, key);
      }
      WayDown(file, before, g, after, g', t, marks, marks', missed, closed, after[x].children[i], key);
    } else {
      assert x in missed ==> CutOff(before, after, g'.level, marks', x);
    }
  }

  /** After closing and opening a cell is found exactly when it was there and the way to it does not lead
      through a lost page. */
  lemma FoundAgain(file: seq<Node>, before: seq<Node>, g: View, after: seq<Node>, g': View, t: Table, marks: set<nat>,
                   marks': set<nat>, missed: set<nat>, closed: seq<Node>, c: Cell)
    requires Reopened(file, before, g, after, g', t, marks, marks', missed, closed) && Walkable(after, g'.level) && t.root in g'.level
    ensures Finds(closed, g'.level, t.root, c) <==>
            Finds(after, g'.level, t.root, c) && !Through(after, g'.level, t.root, c.key, LostPages(before, marks, missed))
  {
    var root, key := t.root, c.key;
    ArriveFinds(after, g'.level, root, key);
    var q := Search(after, g'.level, root, key);
    SearchFinds(after, g', t, root, key);
    if Finds(after, g'.level, root, c) {
      assert after[q].cells[SearchCell(after[q].cells, key)] in after[q].cells;
      WayDown(file, before, g, after, g', t, marks, marks', missed, closed, root, key);
      LeafReadBack(file, before, g, after, g', t, marks, marks', missed, closed, q);
    } else if Finds(closed, g'.level, root, c) {
      var l := Arrive(closed, g'.level, root, key).page;
      ArriveInside(closed, g'.level, root, key);
      assert PageOk(after, g', t, 0, l);
      SomeLeaf(file, before, g, after, g', t, marks, marks', missed, closed, l);
      LeafOfKey(after, g', t, l, c);
    }
  }

  lemma {:induction false} ArriveInside(pages: seq<Node>, level: map<nat, nat>, pg: nat, key: Key)
    ensures var came := Arrive(pages, level, pg, key); came.To? ==> came.page in level && came.page < |pages| && pages[came.page].Leaf?
    decreases if pg in level then level[pg] else 0
  {
    if pg in level && pg < |pages| && pages[pg].Internal? {
      var i := Bisect(pages[pg].keys, key, 0, |pages[pg].keys|);
      if i < |pages[pg].children| && pages[pg].children[i] in level && level[pages[pg].children[i]] < level[pg] {
        ArriveInside(pages, level, pages[pg].children[i], key);
      }
    }
  }

  /** Leaves are read back as they are in memory. */
  lemma LeafReadBack(file: seq<Node>, before: seq<Node>, g: View, after: seq<Node>, g': View, t: Table, marks: set<nat>,
                     marks': set<nat>, missed: set<nat>, closed: seq<Node>, l: nat)
    requires Reopened(file, before, g, after, g', t, marks, marks', missed, closed) && l < |after| && after[l].Leaf?
    ensures l < |closed| && closed[l] == after[l]
  {
    ReadBack(file, before, g, after, g', t, marks, marks', missed, closed, l);
    assert l in missed ==> CutOff(before, after, g'.level, marks', l);
  }

  lemma SomeLeaf(file: seq<Node>, before: seq<Node>, g: View, after: seq<Node>, g': View, t: Table, marks: set<nat>,
                 marks': set<nat>, missed: set<nat>, closed: seq<Node>, l: nat)
    requires Reopened(file, before, g, after, g', t, marks, marks', missed, closed) && l < |after| && l < |closed| && closed[l].Leaf?
    ensures closed[l] == after[l]
  {
    ReadBack(file, before, g, after, g', t, marks, marks', missed, closed, l);
    assert l in missed ==> CutOff(before, after, g'.level, marks', l);
  }

  /** A cell in a leaf of a tree is found by the search. */
  lemma LeafOfKey(pages: seq<Node>, g: View, t: Table, l: nat, c: Cell)
    requires Inv(pages, g, t, 0) && l in g.level && pages[l].Leaf? && c in pages[l].cells
    ensures Finds(pages, g.level, t.root, c)
  {
    assert PageOk(pages, g, t, 0, l);
    var i :| 0 <= i < |pages[l].cells| && pages[l].cells[i] == c;
    InvWalkable(pages, g, t, 0);
    ArriveFinds(pages, g.level, t.root, c.key);
    SearchFinds(pages, g, t, t.root, c.key);
    var q := Search(pages, g.level, t.root, c.key);
    if q != l { LeavesDisjoint(pages, g, t, 0, q, l); }
  }

  /** What closing and opening leaves of a tree after an insert: the tree, when all missed pages had their
      marks; otherwise no tree, and of the cells in memory those are found that are not in the interval
      of a lost page. */
  ghost predicate Recovered(before: seq<Node>, after: seq<Node>, g': View, t: Table, marks: set<nat>, missed: set<nat>, closed: seq<Node>) {
    && (if missed <= marks then closed == after else forall v, over :: !Inv(closed, v, t, over))
    && (forall c {:trigger Finds(closed, g'.level, t.root, c)} :: Finds(closed, g'.level, t.root, c) <==>
          c in Contents(after, g'.order) && !Within(g', LostPages(before, marks, missed), c.key))
  }

  lemma RecoveredIff(file: seq<Node>, before: seq<Node>, g: View, after: seq<Node>, g': View, t: Table, marks: set<nat>,
                     marks': set<nat>, missed: set<nat>, closed: seq<Node>)
    requires Reopened(file, before, g, after, g', t, marks, marks', missed, closed)
    ensures Recovered(before, after, g', t, marks, missed, closed)
  {
    InvWalkable(after, g', t, 0);
    TreeLeaf.RootTop(after, g', t, 0);
    var lost := LostPages(before, marks, missed);
    assert Inv(after, g', t, 0);
    hide Inv, Reopened, Walkable, Finds, Through, LostPages, Contents, Within;
    if missed <= marks {
      AllReadBack(file, before, g, after, g', t, marks, marks', missed, closed);
    } else {
      TornTree(file, before, g, after, g', t, marks, marks', missed, closed);
    }
    forall c | true ensures Finds(closed, g'.level, t.root, c) <==> c in Contents(after, g'.order) && !Within(g', lost, c.key) {
      FoundAgain(file, before, g, after, g', t, marks, marks', missed, closed, c);
      ThroughWithin(after, g', t, c.key, lost);
      FindsRows(after, g', t, c);
    }
  }

  /** Pages missed at their old places cost the file its tree, but no row. */
  lemma OldPagesHarmless(before: seq<Node>, after: seq<Node>, g': View, t: Table, marks: set<nat>, missed: set<nat>,
                         closed: seq<Node>, c: Cell)
    requires Recovered(before, after, g', t, marks, missed, closed) && forall x :: x in missed ==> x < |before|
    ensures Finds(closed, g'.level, t.root, c) <==> c in Contents(after, g'.order)
  {
    assert !Within(g', LostPages(before, marks, missed), c.key);
  }

  /** An insert, then closing and opening. The file holds a tree, and then the one in memory, exactly when
      every page that the insert missed had a mark from before. Otherwise find_node still comes to a row
      exactly when its key is not in the interval of a missed page that is new. */
  method InsertThenReopen(store: PageStore, t: Table, page: nat, cell: nat, key: Key, row: Row, file: seq<Node>, ghost g: View)
    returns (ghost g': View, closed: seq<Node>)
    requires Insertable(store.pages, g, t, page, cell, Cell(key, row)) && InsertClear(store.pages, g, t, page)
    requires Clean(file, store.pages, store.marked)
    modifies store
    ensures TreeInserted(old(store.pages), g, store.pages, g', t, Cell(key, row))
    ensures var missed := InsertMissed(old(store.pages), g.level, t, page);
            && ((exists v :: Inv(closed, v, t, 0)) <==> missed <= old(store.marked))
            && Recovered(old(store.pages), store.pages, g', t, old(store.marked), missed, closed)
  {
    ghost var before, marks := store.pages, store.marked;
    InvStands(before, g, t);
    assert PageOk(before, g, t, 0, page);
    ghost var missed := InsertMissed(before, g.level, t, page);
    hide Inv, InsertClear, TreeInserted, InsertMissed, Standing, Clean, PageMarks, Insertable, Taken;
    g' := store.LeafNodeInsert(t, page, cell, key, row, g);
    assert |file| <= |store.pages| by { CleanLength(file, before, marks); }
    closed := CloseMarked(store.pages, store.marked, file);
    IsReopened(file, before, g, store.pages, g', t, page, cell, Cell(key, row), marks, store.marked, closed);
    hide Settled;
    RecoveredIff(file, before, g, store.pages, g', t, marks, store.marked, missed, closed);
    assert (exists v :: Inv(closed, v, t, 0)) <==> missed <= marks by { TreeOnlyIf(before, g, store.pages, g', t, Cell(key, row), marks, missed, closed); }
  }

  lemma TreeOnlyIf(before: seq<Node>, g: View, after: seq<Node>, g': View, t: Table, c: Cell, marks: set<nat>, missed: set<nat>, closed: seq<Node>)
    requires TreeInserted(before, g, after, g', t, c) && Recovered(before, after, g', t, marks, missed, closed)
    ensures (exists v :: Inv(closed, v, t, 0)) <==> missed <= marks
  {
    hide Finds, Within, Contents;
    if missed <= marks { assert Inv(closed, g', t, 0); }
  }

  lemma CleanLength(file: seq<Node>, pages: seq<Node>, marks: set<nat>)
    requires Clean(file, pages, marks)
    ensures |file| <= |pages|
  {
  }

  lemma IsReopened(file: seq<Node>, before: seq<Node>, g: View, after: seq<Node>, g': View, t: Table, page: nat, cell: nat, c: Cell,
                   marks: set<nat>, marks': set<nat>, closed: seq<Node>)
    requires Insertable(before, g, t, page, cell, c) && InsertClear(before, g, t, page) && Clean(file, before, marks)
    requires Settled(before, g, t, page, c, after, g', marks, marks') && Closes(file, after, marks', closed)
    ensures Reopened(file, before, g, after, g', t, marks, marks', InsertMissed(before, g.level, t, page), closed)
  {
    hide Inv, InsertMarked, Closes, InsertClear;
    forall x | x in InsertMissed(before, g.level, t, page) && x < |before| ensures x in g.level {
      InsertMissedHigh(before, g.level, t, page, x);
    }
    hide InsertMissed;
  }

  /** Below a full root: the upper half is missed when the leaf belongs to the lower one, and then it
      is lost for certain, because it is a new page. */
  lemma FullRootMissed(pages: seq<Node>, g: View, t: Table, page: nat)
    requires Inv(pages, g, t, 0) && page in g.level && pages[page].Leaf? && |pages[page].cells| >= t.cap && page != t.root
    requires pages[page].parent == t.root && pages[t.root].Internal? && |pages[t.root].keys| == INTERNAL_NODE_MAX_KEYS
    ensures InsertMissed(pages, g.level, t, page)
         == if IndexIn(pages[t.root].children, page) < SPLIT then {|pages| + 1} else {}
  {
    TreeLeaf.PageBelowParent(pages, g, t, 0, page);
  }

  /** Below a full page that is not the root, and whose parent has room: the upper half is missed when
      the leaf belongs to the lower one, otherwise the lower half, but not if its separator was lowered. */
  lemma FullPageMissed(pages: seq<Node>, g: View, t: Table, page: nat)
    requires Inv(pages, g, t, 0) && page in g.level && pages[page].Leaf? && |pages[page].cells| >= t.cap && page != t.root
    requires var p := pages[page].parent;
             && p in g.level && p != t.root && pages[p].Internal? && |pages[p].keys| == INTERNAL_NODE_MAX_KEYS
             && pages[p].parent in g.level && pages[pages[p].parent].Internal? && |pages[pages[p].parent].keys| < INTERNAL_NODE_MAX_KEYS
    ensures var p := pages[page].parent; var j := IndexIn(pages[p].children, page);
            InsertMissed(pages, g.level, t, page)
            == if j < SPLIT then {|pages| + 1} else if j < |pages[p].keys| then {} else {p}
  {
    TreeLeaf.PageBelowParent(pages, g, t, 0, page);
    var p := pages[page].parent;
    TreeLeaf.PageBelowParent(pages, g, t, 0, p);
    TreeLeaf.RootTop(pages, g, t, 0);
    var j := IndexIn(pages[p].children, page);
    var y := pages[p].parent;
    assert HasParent(pages, g.level, t.root, p) && HasParent(pages, g.level, t.root, page);
    assert Remarked(pages, t.root, y, IndexIn(pages[y].children, p), |pages| + 1) == {};
    assert Missed(pages, g.level, t.root, p, j, |pages| + 1) == {if j < SPLIT then |pages| + 1 else p};
  }
}
