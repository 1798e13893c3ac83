/** SELECT: where a scan starts, which cells it visits, and when it stops (src/statement.c). */
module Select {
  import opened Layout
  import opened Tree
  import opened TreeSteps
  import opened TreeContents
  import opened TreeStanding
  import opened TreeSearch
  import opened TreeRuin
  import opened Btree

  datatype Where = All | Equals(key: Key) | Greater(key: Key) | Less(key: Key)

  predicate Matches(w: Where, k: Key) {
    match w
    case All => true
    case Equals(key) => k == key
    case Greater(key) => k > key
    case Less(key) => k < key
  }

  /** Of equal, greater and less than k exactly one holds; what is less stays so downwards, what is greater upwards. */
  lemma MatchesMeans(k: Key, a: Key, b: Key)
    ensures Matches(All, a)
    ensures Matches(Equals(k), k) && !Matches(Less(k), k) && !Matches(Greater(k), k)
    ensures a < k ==> Matches(Less(k), a) && !Matches(Equals(k), a) && !Matches(Greater(k), a)
    ensures a > k ==> Matches(Greater(k), a) && !Matches(Equals(k), a) && !Matches(Less(k), a)
    ensures a <= b && Matches(Less(k), b) ==> Matches(Less(k), a)
    ensures a <= b && Matches(Greater(k), a) ==> Matches(Greater(k), b)
  {
  }

  /** The cells that satisfy the condition, in the same order. */
  function Filter(cs: seq<Cell>, w: Where): seq<Cell> {
    if cs == [] then []
    else
      var n := |cs| - 1;
      Filter(cs[..n], w) + if Matches(w, cs[n].key) then [cs[n]] else []
  }

  lemma {:induction false} FilterNone(cs: seq<Cell>, w: Where)
    requires forall i :: 0 <= i < |cs| ==> !Matches(w, cs[i].key)
    ensures Filter(cs, w) == []
  {
    if cs != [] { FilterNone(cs[..|cs| - 1], w); }
  }

  lemma {:induction false} FilterRest(cs: seq<Cell>, w: Where, pos: nat)
    requires pos <= |cs| && forall i :: pos <= i < |cs| ==> !Matches(w, cs[i].key)
    ensures Filter(cs[..pos], w) == Filter(cs, w)
    decreases |cs|
  {
    if pos < |cs| {
      FilterRest(cs[..|cs| - 1], w, pos);
      assert cs[..|cs| - 1][..pos] == cs[..pos];
    } else {
      assert cs[..pos] == cs;
    }
  }

  /** Filter keeps exactly the matching cells: nothing else, and all of them. */
  lemma {:induction false} FilterIn(cs: seq<Cell>, w: Where)
    ensures forall c :: c in Filter(cs, w) <==> c in cs && Matches(w, c.key)
  {
    if cs != [] {
      var n := |cs| - 1;
      FilterIn(cs[..n], w);
      assert cs == cs[..n] + [cs[n]];
    }
  }

  lemma {:induction false} FilterExact(cs: seq<Cell>, w: Where)
    ensures forall c :: c in Filter(cs, w) <==> c in cs && Matches(w, c.key)
    ensures SortedCells(cs) ==> SortedCells(Filter(cs, w))
  {
    FilterIn(cs, w);
    if cs != [] {
      var n := |cs| - 1;
      var f := Filter(cs[..n], w);
      FilterExact(cs[..n], w);
      hide Matches;
      assert SortedCells(cs) ==> SortedCells(cs[..n]);
      forall i | 0 <= i < |f| ensures SortedCells(cs) ==> f[i].key < cs[n].key { assert f[i] in cs[..n]; }
    }
  }

  /** The places of the cells that are kept: all places that match, in ascending order, and no others. */
  ghost predicate Keeps(cs: seq<Cell>, w: Where, kept: seq<Cell>, at: seq<nat>) {
    && |at| == |kept| && (forall m {:trigger at[m]} :: 0 <= m < |at| ==> at[m] < |cs| && kept[m] == cs[at[m]] && Matches(w, cs[at[m]].key))
    && (forall m, n :: 0 <= m < n < |at| ==> at[m] < at[n])
    && (forall i {:trigger i in at} :: 0 <= i < |cs| && Matches(w, cs[i].key) ==> i in at)
  }

  /** Whatever the order of the cells: the filter keeps each matching one in its place. */
  lemma {:induction false} FilterKeeps(cs: seq<Cell>, w: Where) returns (at: seq<nat>)
    ensures Keeps(cs, w, Filter(cs, w), at)
  {
    at := [];
    if cs != [] {
      var n := |cs| - 1;
      var was := FilterKeeps(cs[..n], w);
      at := if Matches(w, cs[n].key) then was + [n] else was;
      KeepsNext(cs, w, Filter(cs[..n], w), was);
    }
  }

  lemma KeepsNext(cs: seq<Cell>, w: Where, kept: seq<Cell>, at: seq<nat>)
    requires cs != [] && Keeps(cs[..|cs| - 1], w, kept, at)
    ensures var n := |cs| - 1;
            if Matches(w, cs[n].key) then Keeps(cs, w, kept + [cs[n]], at + [n]) else Keeps(cs, w, kept, at)
  {
    hide Matches;
    var n := |cs| - 1;
    var at' := if Matches(w, cs[n].key) then at + [n] else at;
    forall m | 0 <= m < |at| ensures at[m] < n && kept[m] == cs[at[m]] && Matches(w, cs[at[m]].key) { }
    forall i | 0 <= i < |cs| && Matches(w, cs[i].key) ensures i in at' {
      if i < n {
        assert cs[..n][i] == cs[i] && i in at;
      } else {
        assert at'[|at|] == n;
      }
    }
  }

  lemma {:induction false} FilterConcat(a: seq<Cell>, b: seq<Cell>, w: Where)
    ensures Filter(a + b, w) == Filter(a, w) + Filter(b, w)
    decreases |b|
  {
    if b == [] {
      assert a + b == a;
    } else {
      var n := |b| - 1;
      assert (a + b)[..|a| + n] == a + b[..n] && (a + b)[|a| + n] == b[n];
      FilterConcat(a, b[..n], w);
    }
  }

  lemma {:induction false} FilterAll(cs: seq<Cell>, w: Where)
    requires forall i :: 0 <= i < |cs| ==> Matches(w, cs[i].key)
    ensures Filter(cs, w) == cs
  {
    if cs != [] { FilterAll(cs[..|cs| - 1], w); }
  }

  // Where a scan begins

  /** The leaf that first children lead to. */
  ghost function Leftmost(pages: seq<Node>, level: map<nat, nat>, x: nat): (l: nat)
    requires Shape(pages, level) && x in level
    ensures l in level && l < |pages| && pages[l].Leaf?
    decreases level[x]
  {
    assert Descends(pages, level, x);
    if pages[x].Leaf? then x else Leftmost(pages, level, pages[x].children[0])
  }

  /** In a tree that is the first leaf of the chain. */
  lemma {:induction false} LeftmostFirst(pages: seq<Node>, g: View, t: Table, x: nat)
    requires Inv(pages, g, t, 0) && Shape(pages, g.level) && x in g.level && g.lo[x] == -1
    ensures Leftmost(pages, g.level, x) == g.order[0]
    decreases g.level[x]
  {
    assert PageOk(pages, g, t, 0, x) && Descends(pages, g.level, x);
    if pages[x].Internal? {
      assert ChildOk(pages, g, x, 0);
      LeftmostFirst(pages, g, t, pages[x].children[0]);
    } else {
      var j := LeafPlace(pages, g, t, 0, x);
      if j > 0 { OrderSorted(pages, g, t, 0, 0, j); }
    }
  }

  /** The scan of the whole table begins with the first leaf of the chain. */
  ghost predicate Front(pages: seq<Node>, g: View, t: Table) {
    Shape(pages, g.level) && t.root in g.level && |g.order| > 0 && Leftmost(pages, g.level, t.root) == g.order[0]
  }

  lemma TreeFront(pages: seq<Node>, g: View, t: Table)
    requires Inv(pages, g, t, 0)
    ensures Front(pages, g, t)
  {
    InvShape(pages, g, t, 0);
    LeftmostFirst(pages, g, t, t.root);
  }

  lemma {:induction false} LeftmostKept(pages: seq<Node>, pages': seq<Node>, level: map<nat, nat>, x: nat)
    requires Shape(pages, level) && Shape(pages', level) && x in level && |pages'| == |pages|
    requires forall y {:trigger SameBranch(pages, pages', y)} :: y in level ==> SameBranch(pages, pages', y)
    ensures Leftmost(pages', level, x) == Leftmost(pages, level, x)
    decreases level[x]
  {
    assert Descends(pages, level, x) && Descends(pages', level, x) && SameBranch(pages, pages', x);
    if pages[x].Internal? { LeftmostKept(pages, pages', level, pages[x].children[0]); }
  }

  /** The same children, or a leaf as before. */
  ghost predicate SameBranch(pages: seq<Node>, pages': seq<Node>, y: nat) {
    y < |pages| && y < |pages'| ==>
      pages'[y].Leaf? == pages[y].Leaf? && (pages[y].Internal? ==> pages'[y].children == pages[y].children)
  }

  /** Changing the cells of one leaf changes nothing about it. */
  lemma FrontKept(pages: seq<Node>, pages': seq<Node>, g: View, t: Table, p: nat)
    requires Front(pages, g, t) && Shape(pages', g.level) && p < |pages| == |pages'| && pages[p].Leaf? && pages'[p].Leaf?
    requires forall x :: 0 <= x < |pages| && x != p ==> pages'[x] == pages[x]
    ensures Front(pages', g, t)
  {
    LeftmostKept(pages, pages', g.level, t.root);
  }

  lemma FrontStays(pages: seq<Node>, pages': seq<Node>, g: View, t: Table, p: nat)
    requires Standing(pages', g, t) && p < |pages| == |pages'| && pages[p].Leaf? && pages'[p].Leaf?
    requires forall x :: 0 <= x < |pages| && x != p ==> pages'[x] == pages[x]
    ensures Front(pages, g, t) ==> Front(pages', g, t)
  {
    StandingWalkable(pages', g, t);
    hide Standing;
    if Front(pages, g, t) { FrontKept(pages, pages', g, t, p); }
  }

  /** The pages on the way down from the root through first children. */
  ghost predicate Downwards(pages: seq<Node>, level: map<nat, nat>, root: nat, path: seq<nat>) {
    && root in level && |path| > 0 && path[0] == root
    && (forall i {:trigger path[i]} :: 0 <= i < |path| ==> path[i] in level && level[path[i]] + i == level[root])
    && (forall i {:trigger path[i]} :: 0 <= i < |path| - 1 ==>
          path[i] < |pages| && pages[path[i]].Internal? && |pages[path[i]].children| > 0 && path[i + 1] == pages[path[i]].children[0])
  }

  /** ... down to a leaf. */
  ghost predicate Descent(pages: seq<Node>, level: map<nat, nat>, root: nat, path: seq<nat>) {
    Downwards(pages, level, root, path) && level[Last(path)] == 0
  }

  /** The leftmost leaf, reached through the first child of every page on the way down. */
  method TableStart(store: PageStore, t: Table, ghost g: View) returns (pg: nat, ghost path: seq<nat>)
    requires Standing(store.pages, g, t)
    ensures Descent(store.pages, g.level, t.root, path) && Last(path) == pg
    ensures pg in g.level && pg < |store.pages| && store.pages[pg].Leaf?
    ensures Shape(store.pages, g.level) && t.root in g.level && pg == Leftmost(store.pages, g.level, t.root)
    ensures Inv(store.pages, g, t, 0) ==> pg == g.order[0]
  {
    StandingWalkable(store.pages, g, t);
    pg, path := t.root, [t.root];
    assert InPlace(store.pages, g.level, t, 0, pg);
    while store.pages[pg].Internal?
      invariant pg in g.level && pg < |store.pages|
      invariant Leftmost(store.pages, g.level, pg) == Leftmost(store.pages, g.level, t.root)
      invariant Downwards(store.pages, g.level, t.root, path) && Last(path) == pg
      decreases g.level[pg]
    {
      assert InPlace(store.pages, g.level, t, 0, pg) && Descends(store.pages, g.level, pg);
      pg := store.pages[pg].children[0];
      assert InPlace(store.pages, g.level, t, 0, pg);
      path := path + [pg];
    }
    assert LeafStands(store.pages, g, t, pg);
    if Inv(store.pages, g, t, 0) { TreeFront(store.pages, g, t); }
  }

  /** A cursor at cell `cell` of leaf j stands at position pos of the whole table. */
  ghost predicate CursorAt(pages: seq<Node>, g: View, j: nat, page: nat, cell: nat, pos: nat) {
    && j < |g.order| && g.order[j] == page && page < |pages| && pages[page].Leaf? && cell <= |pages[page].cells|
    && pos == Position(pages, g.order, j, cell) && pos <= |Contents(pages, g.order)|
  }

  lemma CursorHere(pages: seq<Node>, g: View, j: nat, page: nat, cell: nat)
    requires Stands(pages, g, j, page) && cell <= |pages[page].cells|
    ensures CursorAt(pages, g, j, page, cell, Position(pages, g.order, j, cell))
  {
    ContentsSplit(pages, g.order, j);
    hide Contents;
  }

  /** The cell under the cursor, and the step to the next one. */
  lemma CursorCell(pages: seq<Node>, g: View, j: nat, page: nat, cell: nat, pos: nat)
    requires CursorAt(pages, g, j, page, cell, pos) && cell < |pages[page].cells|
    ensures pos < |Contents(pages, g.order)| && Contents(pages, g.order)[pos] == pages[page].cells[cell]
    ensures CursorAt(pages, g, j, page, cell + 1, pos + 1)
  {
    ContentsSplit(pages, g.order, j);
    hide Contents;
  }

  /** The step from the end of a leaf to the next leaf, or off the end of the chain. */
  lemma CursorNext(pages: seq<Node>, g: View, t: Table, j: nat, page: nat, cell: nat, pos: nat)
    requires Standing(pages, g, t) && CursorAt(pages, g, j, page, cell, pos) && cell == |pages[page].cells|
    ensures if j + 1 < |g.order| then
              && pages[page].next == g.order[j + 1] != 0 && CursorAt(pages, g, j + 1, g.order[j + 1], 0, pos)
            else pages[page].next == 0 && pos == |Contents(pages, g.order)|
  {
    ChainStep(pages, g, t, j);
    hide Standing;
    ContentsSplit(pages, g.order, j);
    if j + 1 < |g.order| {
      assert g.order[..j + 1] == g.order[..j] + [page];
      ContentsAppend(pages, g.order[..j], [page]);
      assert Contents(pages, [page]) == CellsAt(pages, page) + Contents(pages, []);
      hide Contents;
      ContentsSplit(pages, g.order, j + 1);
    } else {
      assert g.order[j + 1..] == [];
    }
  }

  /** The cursor is in leaf j of the chain. */
  ghost predicate Stands(pages: seq<Node>, g: View, j: nat, page: nat) {
    j < |g.order| && g.order[j] == page && page < |pages| && pages[page].Leaf?
  }

  /** The next leaf of the chain. */
  lemma ChainStep(pages: seq<Node>, g: View, t: Table, j: nat)
    requires Standing(pages, g, t) && j < |g.order|
    ensures Link(pages, g.order, j) && g.order[j] in g.level
    ensures if j + 1 < |g.order| then Stands(pages, g, j + 1, pages[g.order[j]].next) && pages[g.order[j]].next != 0
            else pages[g.order[j]].next == 0
  {
    assert Link(pages, g.order, j);
    if j + 1 < |g.order| {
      assert Link(pages, g.order, j + 1) && InPlace(pages, g.level, t, 0, g.order[j + 1]);
    }
  }

  /** Where the scan for a condition begins: for `=` and `>` where find_node comes to, otherwise at the
      leftmost leaf. */
  ghost predicate Starts(pages: seq<Node>, g: View, t: Table, w: Where, j: nat, cell: nat) {
    && Walkable(pages, g.level) && t.root in g.level && j < |g.order|
    && if w.All? || w.Less? then g.order[j] == Leftmost(pages, g.level, t.root) && cell == 0
       else g.order[j] == Search(pages, g.level, t.root, w.key) && cell == SearchCell(pages[g.order[j]].cells, w.key)
  }

  method ScanStart(store: PageStore, t: Table, w: Where, ghost g: View)
    returns (page: nat, cell: nat, ghost j: nat, ghost path: seq<nat>)
    requires Standing(store.pages, g, t)
    ensures Stands(store.pages, g, j, page) && Starts(store.pages, g, t, w, j, cell) && cell <= |store.pages[page].cells|
    ensures w.All? || w.Less? ==> Descent(store.pages, g.level, t.root, path)
  {
    StandingWalkable(store.pages, g, t);
    path := [];
    if w.All? || w.Less? {
      page, path := TableStart(store, t, g);
      cell := 0;
    } else {
      page, cell := store.FindNode(t, t.root, w.key, g);
    }
    j := StandingPlace(store.pages, g, t, page);
  }

  // What a scan prints

  /** The cells from `start` on are looked at up to pos, and what was printed of them. */
  ghost predicate Scanned(all: seq<Cell>, w: Where, start: nat, pos: nat, rows: seq<Cell>) {
    && start <= pos <= |all|
    && match w
       case All => rows == all[start..pos]
       case Less(k) => rows == all[start..pos] && forall i :: start <= i < pos ==> all[i].key < k
       case Equals(k) => rows == all[start..pos] && forall i :: start <= i < pos ==> all[i].key == k
       case Greater(k) => rows == Filter(all[start..pos], w)
  }

  /** The scan ends with the table, for `<` at the first key not below, for `=` at the first other key. */
  ghost predicate Ends(all: seq<Cell>, w: Where, pos: nat) {
    pos == |all| || (pos < |all| && ((w.Less? && all[pos].key >= w.key) || (w.Equals? && all[pos].key != w.key)))
  }

  ghost predicate Selected(all: seq<Cell>, w: Where, start: nat, rows: seq<Cell>) {
    exists pos: nat {:trigger Scanned(all, w, start, pos, rows)} :: Scanned(all, w, start, pos, rows) && Ends(all, w, pos)
  }

  /** What SELECT prints, be the table in order or not. */
  ghost predicate ScanResult(pages: seq<Node>, g: View, t: Table, w: Where, rows: seq<Cell>) {
    exists j: nat, cell: nat {:trigger Starts(pages, g, t, w, j, cell)} ::
      Starts(pages, g, t, w, j, cell) && Selected(Contents(pages, g.order), w, Position(pages, g.order, j, cell), rows)
  }

  /** A scan prints one thing only. */
  lemma SelectedOnce(all: seq<Cell>, w: Where, start: nat, a: seq<Cell>, b: seq<Cell>)
    requires Selected(all, w, start, a) && Selected(all, w, start, b)
    ensures a == b
  {
    var p: nat :| Scanned(all, w, start, p, a) && Ends(all, w, p);
    var q: nat :| Scanned(all, w, start, q, b) && Ends(all, w, q);
    EndsLate(all, w, start, p, q, b);
    EndsLate(all, w, start, q, p, a);
  }

  lemma EndsLate(all: seq<Cell>, w: Where, start: nat, p: nat, q: nat, rows: seq<Cell>)
    requires Ends(all, w, p) && Scanned(all, w, start, q, rows) && start <= p
    ensures q <= p
  {
    assert forall i {:trigger Ends(all, w, i)} :: start <= i < q ==> !Ends(all, w, i);
  }

  /** Without a condition: the chain from the leftmost leaf on. That is the whole chain exactly when no
      cell lies in the leaves before it. */
  lemma WholeTable(pages: seq<Node>, g: View, t: Table, j: nat, rows: seq<Cell>)
    requires Starts(pages, g, t, All, j, 0) && Selected(Contents(pages, g.order), All, Position(pages, g.order, j, 0), rows)
    ensures rows == Contents(pages, g.order[j..])
    ensures rows == Contents(pages, g.order) <==> Contents(pages, g.order[..j]) == []
  {
    var all, before := Contents(pages, g.order), Contents(pages, g.order[..j]);
    assert g.order == g.order[..j] + g.order[j..];
    ContentsAppend(pages, g.order[..j], g.order[j..]);
    hide Contents;
    assert all[|before|..] == Contents(pages, g.order[j..]);
    var pos: nat :| Scanned(all, All, |before|, pos, rows) && Ends(all, All, pos);
    assert pos == |all|;
  }

  /** In particular when the leftmost leaf is the first of the chain. */
  lemma FrontWhole(pages: seq<Node>, g: View, t: Table, rows: seq<Cell>)
    requires Standing(pages, g, t) && Front(pages, g, t) && ScanResult(pages, g, t, All, rows)
    ensures rows == Contents(pages, g.order)
  {
    var j: nat, cell: nat :| Starts(pages, g, t, All, j, cell)
      && Selected(Contents(pages, g.order), All, Position(pages, g.order, j, cell), rows);
    assert j == 0 by { assert g.order[j] == g.order[0]; }
    assert g.order[..0] == [];
    WholeTable(pages, g, t, j, rows);
  }

  /** In a tree the rows are those of the full scan that match. */
  lemma TreeResult(pages: seq<Node>, g: View, t: Table, w: Where, j: nat, cell: nat, rows: seq<Cell>)
    requires Inv(pages, g, t, 0) && Starts(pages, g, t, w, j, cell)
    requires Selected(Contents(pages, g.order), w, Position(pages, g.order, j, cell), rows)
    ensures rows == Filter(Contents(pages, g.order), w)
    ensures w.All? || w.Less? ==> j == 0
  {
    var all, start := Contents(pages, g.order), Position(pages, g.order, j, cell);
    if w.All? || w.Less? {
      TreeFront(pages, g, t);
      if j > 0 { OrderSorted(pages, g, t, 0, 0, j); }
      assert g.order[..0] == [];
      assert start == 0;
    } else {
      SearchFinds(pages, g, t, t.root, w.key);
      GlobalLowerBound(pages, g, t, j, cell, w.key);
    }
    ContentsSorted(pages, g, t);
    hide *;
    SortedResult(all, w, start, rows);
  }

  lemma SortedResult(all: seq<Cell>, w: Where, start: nat, rows: seq<Cell>)
    requires SortedCells(all) && Selected(all, w, start, rows)
    requires if w.All? || w.Less? then start == 0 else IsCellLowerBound(all, w.key, start)
    ensures rows == Filter(all, w)
  {
    var pos: nat :| Scanned(all, w, start, pos, rows) && Ends(all, w, pos);
    assert w.Equals? ==> IsCellLowerBound(all, w.key, start);
    hide *;
    ScannedFilter(all, w, start, pos, rows);
    StartOut(all, w, start);
    RestOut(all, w, start, pos);
    FilterMiddle(all[..start], all[start..pos], all[pos..], w);
    CutTwice(all, start, pos);
  }

  lemma CutTwice(all: seq<Cell>, start: nat, pos: nat)
    requires start <= pos <= |all|
    ensures all[..start] + all[start..pos] + all[pos..] == all
  {
  }

  lemma FilterMiddle(a: seq<Cell>, b: seq<Cell>, c: seq<Cell>, w: Where)
    requires forall i :: 0 <= i < |a| ==> !Matches(w, a[i].key)
    requires forall i :: 0 <= i < |c| ==> !Matches(w, c[i].key)
    ensures Filter(a + b + c, w) == Filter(b, w)
  {
    FilterNone(a, w);
    FilterNone(c, w);
    hide *;
    FilterConcat(a + b, c, w);
    FilterConcat(a, b, w);
  }

  lemma ScannedFilter(all: seq<Cell>, w: Where, start: nat, pos: nat, rows: seq<Cell>)
    requires Scanned(all, w, start, pos, rows)
    ensures start <= pos <= |all| && rows == Filter(all[start..pos], w)
  {
    if !w.Greater? { FilterAll(all[start..pos], w); }
  }

  lemma StartOut(all: seq<Cell>, w: Where, start: nat)
    requires if w.All? || w.Less? then start == 0 else IsCellLowerBound(all, w.key, start)
    ensures start <= |all| ==> forall i :: 0 <= i < |all[..start]| ==> !Matches(w, all[..start][i].key)
  {
  }

  lemma RestOut(all: seq<Cell>, w: Where, start: nat, pos: nat)
    requires SortedCells(all) && start <= pos <= |all| && Ends(all, w, pos)
    requires w.Equals? ==> IsCellLowerBound(all, w.key, start)
    ensures forall i :: 0 <= i < |all[pos..]| ==> !Matches(w, all[pos..][i].key)
  {
    forall i | 0 <= i < |all[pos..]| ensures !Matches(w, all[pos..][i].key) {
      assert all[pos..][i] == all[pos + i] && all[pos].key <= all[pos + i].key;
    }
  }

  // The loop

  /** What the scan does with a key: print the row, pass over it, or break off. */
  datatype Verdict = Print | Skip | Stop

  function Judge(w: Where, key: Key): Verdict {
    match w
    case All => Print
    case Equals(k) => if key != k then Stop else Print
    case Greater(k) => if key <= k then Skip else Print
    case Less(k) => if key >= k then Stop else Print
  }

  /** Printing, passing over and breaking off do what the condition says with the next cell. */
  lemma JudgeRight(all: seq<Cell>, w: Where, start: nat, pos: nat, rows: seq<Cell>)
    requires Scanned(all, w, start, pos, rows) && pos < |all|
    ensures match Judge(w, all[pos].key)
            case Print => Scanned(all, w, start, pos + 1, rows + [all[pos]])
            case Skip => Scanned(all, w, start, pos + 1, rows)
            case Stop => Ends(all, w, pos)
  {
    assert all[start..pos + 1] == all[start..pos] + [all[pos]];
    FilterConcat(all[start..pos], [all[pos]], w);
    var one := [all[pos]];
    assert one[..0] == [] && Filter(one, w) == Filter(one[..0], w) + if Matches(w, one[0].key) then [one[0]] else [];
  }

  /** The state of a scan: where the cursor stands, and that the rows so far are right. */
  ghost predicate Scanning(pages: seq<Node>, g: View, w: Where, start: nat, j: nat, page: nat, cell: nat, rows: seq<Cell>) {
    && j < |g.order| && CursorAt(pages, g, j, page, cell, Position(pages, g.order, j, cell))
    && Scanned(Contents(pages, g.order), w, start, Position(pages, g.order, j, cell), rows)
  }

  lemma ScanBegins(pages: seq<Node>, g: View, w: Where, j: nat, page: nat, cell: nat)
    requires Stands(pages, g, j, page) && cell <= |pages[page].cells|
    ensures Scanning(pages, g, w, Position(pages, g.order, j, cell), j, page, cell, [])
  {
    CursorHere(pages, g, j, page, cell);
    hide Contents;
    var all, pos := Contents(pages, g.order), Position(pages, g.order, j, cell);
    assert all[pos..pos] == [];
  }

  lemma ScanNext(pages: seq<Node>, g: View, t: Table, w: Where, start: nat, j: nat, page: nat, cell: nat, rows: seq<Cell>)
    requires Standing(pages, g, t) && Scanning(pages, g, w, start, j, page, cell, rows)
    requires page < |pages| && pages[page].Leaf? && cell >= |pages[page].cells|
    ensures if j + 1 < |g.order| then
              && pages[page].next == g.order[j + 1] != 0 && g.order[j + 1] < |pages| && pages[g.order[j + 1]].Leaf?
              && Scanning(pages, g, w, start, j + 1, g.order[j + 1], 0, rows)
            else pages[page].next == 0 && Selected(Contents(pages, g.order), w, start, rows)
  {
    var pos := Position(pages, g.order, j, cell);
    CursorNext(pages, g, t, j, page, cell, pos);
    hide Standing, Contents, Scanned;
    if j + 1 >= |g.order| { assert Ends(Contents(pages, g.order), w, pos); }
  }

  lemma ScanCell(pages: seq<Node>, g: View, w: Where, start: nat, j: nat, page: nat, cell: nat, rows: seq<Cell>)
    requires Scanning(pages, g, w, start, j, page, cell, rows)
    requires page < |pages| && pages[page].Leaf? && cell < |pages[page].cells|
    ensures var c := pages[page].cells[cell];
            match Judge(w, c.key)
            case Print => Scanning(pages, g, w, start, j, page, cell + 1, rows + [c])
            case Skip => Scanning(pages, g, w, start, j, page, cell + 1, rows)
            case Stop => Selected(Contents(pages, g.order), w, start, rows)
    ensures pages[page].cells[cell] in Contents(pages, g.order)
  {
    var pos := Position(pages, g.order, j, cell);
    CursorCell(pages, g, j, page, cell, pos);
    JudgeRight(Contents(pages, g.order), w, start, pos, rows);
    assert Position(pages, g.order, j, cell + 1) == pos + 1;
    hide Contents, Filter, Judge, Scanned, Ends;
  }

  /** The pages fetched: those on the way to the first leaf, and all leaves. */
  ghost predicate FullScan(pages: seq<Node>, g: View, t: Table, fetched: seq<nat>) {
    exists path :: Descent(pages, g.level, t.root, path) && Elems(fetched) == Elems(path + g.order)
  }

  /** What one turn of the scanning loop does. */
  datatype Turn = Finished | Moved | Passed | Printed(c: Cell)

  /** The cells between the cursor and the end of its leaf. */
  ghost function Left(pages: seq<Node>, page: nat, cell: nat): nat {
    if page < |pages| && pages[page].Leaf? && cell <= |pages[page].cells| then |pages[page].cells| - cell else 0
  }

  /** One turn: on to the next leaf, or the cell under the cursor is judged. */
  method ScanTurn(store: PageStore, t: Table, w: Where, page: nat, cell: nat,
                  ghost g: View, ghost start: nat, ghost j: nat, ghost rows: seq<Cell>)
    returns (turn: Turn, page': nat, cell': nat, ghost j': nat)
    requires Standing(store.pages, g, t) && Scanning(store.pages, g, w, start, j, page, cell, rows)
    ensures match turn
            case Finished => Selected(Contents(store.pages, g.order), w, start, rows)
            case Moved => Scanning(store.pages, g, w, start, j', page', cell', rows)
            case Passed => Scanning(store.pages, g, w, start, j', page', cell', rows)
            case Printed(c) => Scanning(store.pages, g, w, start, j', page', cell', rows + [c]) && c in Contents(store.pages, g.order)
    ensures j < |g.order| && g.order[j] == page && (turn.Finished? || j' < |g.order|)
    ensures (turn.Moved? ==> j' == j + 1) && (turn.Finished? && w.All? ==> j + 1 == |g.order|)
    ensures turn.Passed? || turn.Printed? ==> j' == j && Left(store.pages, page', cell') < Left(store.pages, page, cell)
  {
    var pages := store.pages;
    page', cell', j' := page, cell, j;
    assert CursorAt(pages, g, j, page, cell, Position(pages, g.order, j, cell));
    if cell >= |pages[page].cells| {
      ScanNext(pages, g, t, w, start, j, page, cell, rows);
      ChainStep(pages, g, t, j);
      hide Standing, Scanning, Contents, Scanned, Judge;
      if pages[page].next == 0 { return Finished, page, cell, j; }
      return Moved, pages[page].next, 0, j + 1;
    }
    ScanCell(pages, g, w, start, j, page, cell, rows);
    hide Standing, Contents, Scanned, Selected, Scanning;
    var verdict := Judge(w, pages[page].cells[cell].key);
    match verdict
    case Stop => turn := Finished;
    case Skip => turn, cell' := Passed, cell + 1;
    case Print => turn, cell' := Printed(pages[page].cells[cell]), cell + 1;
  }

  /** The scan from a cursor onwards. Every turn fetches the page it looks at. */
  method ScanRows(store: PageStore, t: Table, w: Where, page0: nat, cell0: nat, ghost g: View, ghost j0: nat)
    returns (rows: seq<Cell>, ghost visited: seq<nat>)
    requires Standing(store.pages, g, t) && Stands(store.pages, g, j0, page0) && cell0 <= |store.pages[page0].cells|
    ensures Selected(Contents(store.pages, g.order), w, Position(store.pages, g.order, j0, cell0), rows)
    ensures w.All? && j0 == 0 ==> Elems(visited) == Elems(g.order)
  {
    var page: nat, cell: nat := page0, cell0;
    ghost var j := j0;
    ghost var start := Position(store.pages, g.order, j0, cell0);
    ScanBegins(store.pages, g, w, j0, page0, cell0);
    rows, visited := [], [];
    hide Contents, Filter, Scanning, Standing, Selected;
    while true
      invariant Scanning(store.pages, g, w, start, j, page, cell, rows)
      invariant j < |g.order| && (forall x :: x in visited ==> x in g.order)
      invariant j0 == 0 ==> forall i :: 0 <= i < j && i < |g.order| ==> g.order[i] in visited
      decreases |g.order| - j, Left(store.pages, page, cell)
    {
      var turn;
      visited := visited + [page];
      turn, page, cell, j := ScanTurn(store, t, w, page, cell, g, start, j, rows);
      match turn
      case Finished => break;
      case Printed(c) => rows := rows + [c];
      case _ =>
    }
  }

  /** The loop of execute_select: be the table in order or not, the rows are those that the scan of the chain
      from its starting point comes to. In a tree they are those of a full scan that satisfy the condition on
      the stored key, in the same order, although it starts late and stops early. */
  method ExecuteSelect(store: PageStore, t: Table, w: Where, ghost g: View) returns (rows: seq<Cell>, ghost fetched: seq<nat>)
    requires Standing(store.pages, g, t)
    ensures ScanResult(store.pages, g, t, w, rows)
    ensures Inv(store.pages, g, t, 0) ==>
              rows == Filter(Contents(store.pages, g.order), w) && (w.All? ==> FullScan(store.pages, g, t, fetched))
  {
    var page: nat, cell: nat;
    ghost var j: nat, path: seq<nat>, visited;
    page, cell, j, path := ScanStart(store, t, w, g);
    rows, visited := ScanRows(store, t, w, page, cell, g, j);
    fetched := path + visited;
    assert Elems(fetched) == Elems(path) + Elems(visited) && Elems(path + g.order) == Elems(path) + Elems(g.order);
    if Inv(store.pages, g, t, 0) { TreeResult(store.pages, g, t, w, j, cell, rows); }
  }
}
