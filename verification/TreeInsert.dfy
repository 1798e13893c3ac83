/** What the insert operations achieve, and why: the states between their steps. */
module TreeInsert {
  import opened Layout
  import opened Tree
  import opened TreeSteps
  import opened TreeSplit
  import opened TreeLeaf
  import opened TreeCascade
  import opened TreeHalves
  import opened TreeUp
  import opened TreeContents
  import opened TreeLeafUp
  import opened TreeClear
  import opened TreeDebt

  /** Every page that differs from before, or is new, is marked dirty. */
  ghost predicate Tracked(before: seq<Node>, after: seq<Node>, dirty: set<nat>) {
    && |before| <= |after|
    && forall x :: 0 <= x < |after| && (x >= |before| || after[x] != before[x]) ==> x in dirty
  }

  ghost predicate Framed(before: seq<Node>, g: View, after: seq<Node>, g': View) { Aside(before, g.level, after, g'.level) }

  ghost predicate SameLeaves(before: seq<Node>, after: seq<Node>, order: seq<nat>) {
    forall i :: 0 <= i < |order| ==>
                  && order[i] < |before| && order[i] < |after| && before[order[i]].Leaf? && after[order[i]].Leaf?
                  && after[order[i]].cells == before[order[i]].cells
  }

  /** Internal pages other than the root are at least half full. */
  ghost predicate MinKeys(pages: seq<Node>, g: View, t: Table) {
    forall x {:trigger pages[x]} :: x in g.level && x < |pages| && pages[x].Internal? ==>
      |pages[x].keys| >= if x == t.root then 1 else SPLIT - 1
  }

  /** What the cascade above the leaves achieves. */
  ghost predicate Cascaded(before: seq<Node>, g: View, after: seq<Node>, g': View, t: Table) {
    && Inv(after, g', t, 0) && g'.order == g.order && SameLeaves(before, after, g.order)
    && Framed(before, g, after, g') && (MinKeys(before, g, t) ==> MinKeys(after, g', t))
  }

  /** What the code needs to put child c into page p without looking further. */
  ghost predicate Ready(pages: seq<Node>, level: map<nat, nat>, t: Table, p: nat, c: nat) {
    && Shape(pages, level) && p in level && c in level && t.root in level && level[p] <= level[t.root]
    && p != c && p < |pages| && c < |pages|
    && pages[p].Internal? && |pages[p].children| == |pages[p].keys| + 1
    && |pages[p].keys| <= INTERNAL_NODE_MAX_KEYS
  }

  /** With room in the parent, the code produces exactly the store that was pending. */
  lemma RoomStore(before: seq<Node>, g: View, t: Table, p: nat, i: nat, k: Key, c: nat, idx: nat)
    requires Pending(before, g, t, p, i, k, c) && Ready(before, g.level, t, p, c)
    requires Last(before[p].children) in g.level && Fine(before, g.level, Last(before[p].children))
    requires Searched(before[p].keys, MaxKey(before, g.level, c), idx)
    ensures Inserted(before[p], c, MaxKey(before, g.level, c), MaxKey(before, g.level, Last(before[p].children)), idx)
         == WithNewChild(before[p], i, k, c)
  {
    var v := Virtual(before, p, i, k, c);
    PendingPlace(before, g, t, p, i, k, c);
    BelowMax(before, g, t, p, i, k, c, c);
    BelowMax(before, g, t, p, i, k, c, Last(before[p].children));
    hide Inv, Shape, Fine;
    InsertedInPlace(before[p], i, k, c, MaxKey(v, g.level, c), MaxKey(v, g.level, Last(before[p].children)), idx);
  }

  lemma RoomCascaded(before: seq<Node>, g: View, t: Table, p: nat, i: nat, k: Key, c: nat, idx: nat)
    requires Pending(before, g, t, p, i, k, c) && |before[p].keys| < INTERNAL_NODE_MAX_KEYS
    requires Ready(before, g.level, t, p, c) && Last(before[p].children) in g.level
    requires Fine(before, g.level, Last(before[p].children)) && Searched(before[p].keys, MaxKey(before, g.level, c), idx)
    ensures var after := before[p := Inserted(before[p], c, MaxKey(before, g.level, c),
                                              MaxKey(before, g.level, Last(before[p].children)), idx)]
                               [c := WithParent(before[c], p)];
            Cascaded(before, g, after, g, t)
  {
    RoomStore(before, g, t, p, i, k, c, idx);
    InvOverFits(Virtual(before, p, i, k, c), g, t, p);
    RoomFramed(before, g, t, p, i, k, c);
  }

  lemma RoomFramed(before: seq<Node>, g: View, t: Table, p: nat, i: nat, k: Key, c: nat)
    requires Pending(before, g, t, p, i, k, c)
    ensures var after := Virtual(before, p, i, k, c);
            && SameLeaves(before, after, g.order) && Framed(before, g, after, g)
            && (MinKeys(before, g, t) ==> MinKeys(after, g, t))
  {
    var after := Virtual(before, p, i, k, c);
    hide Inv, Shape;
    forall a | 0 <= a < |g.order|
      ensures g.order[a] < |before| && before[g.order[a]].Leaf? && after[g.order[a]].Leaf?
      ensures after[g.order[a]].cells == before[g.order[a]].cells
    {
      assert g.order[a] < |before| && before[g.order[a]].Leaf?;
    }
    if MinKeys(before, g, t) {
      forall x | x in g.level && x < |after| && after[x].Internal?
        ensures |after[x].keys| >= if x == t.root then 1 else SPLIT - 1
      {
        assert before[x].Internal?;
      }
    }
  }

  /** The keys that decide which half receives the child. */
  lemma MidMaxes(before: seq<Node>, mid: seq<Node>, g: View, t: Table, p: nat, i: nat, k: Key, c: nat, n: nat)
    requires FullPending(before, g, t, p, i, k, c)
    requires CutAt(before[p], before, mid, p, n, SPLIT + 1)
    requires n !in g.level && Shape(mid, g.level[n := g.level[p]])
    ensures var v := Virtual(before, p, i, k, c); var level := g.level[n := g.level[p]];
            && before[p].children[SPLIT] in g.level && Last(before[p].children) in g.level
            && MaxKey(mid, level, c) == MaxKey(v, g.level, c)
            && MaxKey(mid, level, p) == MaxKey(mid, level, before[p].children[SPLIT])
                                     == MaxKey(v, g.level, before[p].children[SPLIT])
            && MaxKey(mid, level, Last(before[p].children)) == MaxKey(v, g.level, Last(before[p].children))
            && Last(mid[p].children) == before[p].children[SPLIT] && Last(mid[n].children) == Last(before[p].children)
            && SortedKeys(mid[p].keys) && SortedKeys(mid[n].keys)
  {
    hide Inv, Fine;
    PendingFresh(before, g, t, p, i, k, c);
    OldChild(before, g, t, p, i, k, c, SPLIT);
    OldChild(before, g, t, p, i, k, c, |before[p].keys|);
    MidMax(before, mid, g, t, p, i, k, c, n, c);
    MidMax(before, mid, g, t, p, i, k, c, n, before[p].children[SPLIT]);
    MidMax(before, mid, g, t, p, i, k, c, n, Last(before[p].children));
    PendingPlace(before, g, t, p, i, k, c);
  }

  /** The pending page as a page that was cut. */
  lemma PendingCut(before: seq<Node>, g: View, t: Table, p: nat, i: nat, k: Key, c: nat, cut: seq<Node>, n: nat)
    requires FullPending(before, g, t, p, i, k, c)
    requires var v := Virtual(before, p, i, k, c); CutAt(v[p], v, cut, p, n, SplitSize(i))
    ensures WasCut(Virtual(before, p, i, k, c), g, t, p, SplitSize(i), cut, n)
    ensures n !in g.level && n + 1 !in g.level && t.root in g.level && t.root < n
    ensures cut[p].isRoot <==> p == t.root
  {
    var v := Virtual(before, p, i, k, c);
    assert PageOk(v, g, t, p, p);
    PendingChild(before, g, t, p, i, k, c, 0);
  }

  /** The largest key of page p before its split lies in p's interval. */
  lemma OldMaxBounds(before: seq<Node>, g: View, t: Table, p: nat, i: nat, k: Key, c: nat)
    requires FullPending(before, g, t, p, i, k, c) && Shape(before, g.level) && Fine(before, g.level, p)
    ensures g.lo[p] < MaxKey(before, g.level, p) <= g.hi[p]
  {
    var v := Virtual(before, p, i, k, c);
    var x := before[p];
    var r := Last(x.children);
    assert Descends(before, g.level, p);
    BelowMax(before, g, t, p, i, k, c, r);
    var j := if i < |x.keys| then |x.keys| + 1 else |x.keys|;
    PendingChild(before, g, t, p, i, k, c, j);
    assert v[p].children[j] == r;
    assert PageOk(v, g, t, p, p) && KeysOk(v, g, p) && ChildOk(v, g, p, j);
  }

  /** A pending insert can be carried out. */
  lemma PendingReady(pages: seq<Node>, g: View, t: Table, p: nat, i: nat, k: Key, c: nat)
    requires Pending(pages, g, t, p, i, k, c)
    ensures Ready(pages, g.level, t, p, c)
  {
    var v := Virtual(pages, p, i, k, c);
    PendingPlace(pages, g, t, p, i, k, c);
    RootTop(v, g, t, p);
    forall j | 0 <= j < |pages[p].children|
      ensures pages[p].children[j] in g.level && g.level[pages[p].children[j]] < g.level[p]
    {
      OldChild(pages, g, t, p, i, k, c, j);
    }
    forall x | x in g.level ensures Descends(pages, g.level, x) {
      assert Descends(v, g.level, x);
    }
  }

  /** How the store after the cut relates to the one before it. */
  ghost predicate CutFramed(before: seq<Node>, g: View, t: Table, p: nat, cut: seq<Node>, n: nat) {
    && n == |before| && |cut| == n + 1 && n !in g.level && p in g.level && p < n
    && SameLeaves(before, cut, g.order)
    && (forall x :: 0 <= x < n && x !in g.level ==> cut[x] == before[x])
    && (forall x :: 0 <= x < n && x != p && before[x].Internal? ==> cut[x].Internal? && cut[x].keys == before[x].keys)
    && (forall x :: 0 <= x < n && before[x].Leaf? ==> cut[x].Leaf?)
    && cut[p].Internal? && cut[n].Internal? && |cut[p].keys| >= SPLIT - 1 && |cut[n].keys| >= SPLIT - 1
  }

  lemma CutPage(before: seq<Node>, g: View, t: Table, p: nat, i: nat, k: Key, c: nat, cut: seq<Node>, n: nat, x: nat)
    requires FullPending(before, g, t, p, i, k, c)
    requires var v := Virtual(before, p, i, k, c); CutAt(v[p], v, cut, p, n, SplitSize(i))
    requires x < n
    ensures cut[x].Leaf? == before[x].Leaf?
    ensures cut[x].Leaf? ==> cut[x].cells == before[x].cells
    ensures cut[x].Internal? && x != p ==> cut[x].keys == before[x].keys
    ensures x !in g.level ==> cut[x] == before[x]
  {
    var v := Virtual(before, p, i, k, c);
    MovedBelow(v, g, t, p);
    assert x in v[p].children[SplitSize(i)..] ==> x in v[p].children;
  }

  lemma CutFrame(before: seq<Node>, g: View, t: Table, p: nat, i: nat, k: Key, c: nat, cut: seq<Node>, n: nat)
    requires FullPending(before, g, t, p, i, k, c)
    requires var v := Virtual(before, p, i, k, c); CutAt(v[p], v, cut, p, n, SplitSize(i))
    requires n !in g.level
    ensures CutFramed(before, g, t, p, cut, n)
  {
    forall x | 0 <= x < n
      ensures cut[x].Leaf? == before[x].Leaf?
      ensures cut[x].Leaf? ==> cut[x].cells == before[x].cells
      ensures cut[x].Internal? && x != p ==> cut[x].keys == before[x].keys
      ensures x !in g.level ==> cut[x] == before[x]
    {
      CutPage(before, g, t, p, i, k, c, cut, n, x);
    }
    hide Inv;
    forall j | 0 <= j < |g.order|
      ensures g.order[j] < n && before[g.order[j]].Leaf? && cut[g.order[j]].Leaf?
    {
      assert g.order[j] < |before| && before[g.order[j]].Leaf?;
    }
  }

  lemma RootCutChildren(v: seq<Node>, g: View, t: Table, q: nat, cut: seq<Node>, n: nat)
    requires WasCut(v, g, t, t.root, q, cut, n) && n !in g.level
    ensures n !in cut[t.root].children && t.root !in cut[t.root].children
    ensures forall c :: c in cut[t.root].children ==> c < |cut| && c in g.level
  {
    MovedBelow(v, g, t, t.root);
    assert forall y :: y in v[t.root].children[..q] ==> y in v[t.root].children;
  }

  lemma RootCascaded(before: seq<Node>, g: View, t: Table, i: nat, k: Key, c: nat, cut: seq<Node>, n: nat,
                     after: seq<Node>, m: Key, g': View)
    requires CutFramed(before, g, t, t.root, cut, n) && t.root in g.level && n + 1 !in g.level
    requires forall y :: y in cut[t.root].children ==> y in g.level
    requires NewRoot(cut, after, t.root, n, m)
    requires Inv(after, g', t, 0) && g'.order == g.order
    requires g'.level.Keys == g.level.Keys + {n, n + 1}
    ensures Cascaded(before, g, after, g', t)
  {
    forall j | 0 <= j < |g.order|
      ensures g.order[j] < |before| && before[g.order[j]].Leaf? && after[g.order[j]].Leaf?
      ensures after[g.order[j]].cells == before[g.order[j]].cells
    {
      assert cut[g.order[j]].Leaf?;
    }
    if MinKeys(before, g, t) {
      forall x | x in g'.level && x < |after| && after[x].Internal?
        ensures |after[x].keys| >= if x == t.root then 1 else SPLIT - 1
      {
        if x < n && x != t.root { assert before[x].Internal? && |before[x].keys| >= SPLIT - 1; }
      }
    }
  }

  /** The parent of the page that was cut is in order, and the search in it finds the page. */
  lemma IndexAbove(before: seq<Node>, g: View, t: Table, p: nat, i: nat, k: Key, c: nat, cut: seq<Node>, n: nat, ip: nat)
    requires FullPending(before, g, t, p, i, k, c) && Shape(before, g.level) && p != t.root && Fine(before, g.level, p)
    requires var v := Virtual(before, p, i, k, c); CutAt(v[p], v, cut, p, n, SplitSize(i))
    requires var v := Virtual(before, p, i, k, c); var pp := v[p].parent;
             && pp < |v| && v[pp].Internal? && cut[pp] == v[pp] && pp in g.level && ip < |v[pp].children| && v[pp].children[ip] == p
    ensures var pp := cut[p].parent;
            && pp < |cut| && cut[pp].Internal? && SortedKeys(cut[pp].keys)
            && forall idx: nat :: IsLowerBound(cut[pp].keys, MaxKey(before, g.level, p), idx) ==> idx == ip
  {
    var v := Virtual(before, p, i, k, c);
    var pp := v[p].parent;
    OldMaxBounds(before, g, t, p, i, k, c);
    assert PageOk(v, g, t, p, pp) && KeysOk(v, g, pp) && ChildOk(v, g, pp, ip);
    forall idx: nat | IsLowerBound(cut[pp].keys, MaxKey(before, g.level, p), idx) ensures idx == ip {
      FindsChild(v, g, pp, ip, MaxKey(before, g.level, p), idx);
    }
  }

  /** What waits for the parent is the largest key below the lower half. */
  lemma CutMax(v: seq<Node>, g: View, t: Table, p: nat, q: nat, cut: seq<Node>, n: nat, w: seq<Node>, g1: View, ip: nat, pmax: Key)
    requires p < |v| && v[p].Internal? && |v[p].children| == |v[p].keys| + 1 && 1 <= q <= |v[p].keys| && p in g.level && n !in g.level
    requires CutAt(v[p], v, cut, p, n, q) && AboveCut(v, g, t, p, q, cut, n, w, g1, ip)
    requires Shape(cut, g.level[n := g.level[p]]) && pmax == MaxKey(cut, g.level[n := g.level[p]], p)
    ensures pmax == MaxKey(w, g1.level, p)
    ensures Fine(cut, g.level[n := g.level[p]], p) <==> Fine(w, g1.level, p)
    ensures Fine(cut, g.level[n := g.level[p]], n) <==> Fine(w, g1.level, n)
  {
    assert Dom(w, g1) && |w| == |cut|;
    hide Inv, Fine;
    RightLeafFrame(cut, w, g.level[n := g.level[p]], g1.level, p);
    RightLeafFrame(cut, w, g.level[n := g.level[p]], g1.level, n);
  }

  lemma GoUpFrom(before: seq<Node>, g: View, t: Table, p: nat, i: nat, k: Key, c: nat, cut: seq<Node>, n: nat,
                 w: seq<Node>, g1: View, ip: nat, pmax: Key, waiting: seq<Node>)
    returns (g2: View, k2: Key)
    requires FullPending(before, g, t, p, i, k, c) && p != t.root
    requires n !in g.level && Shape(cut, g.level[n := g.level[p]]) && pmax == MaxKey(cut, g.level[n := g.level[p]], p)
    requires Fine(cut, g.level[n := g.level[p]], p) && Fine(cut, g.level[n := g.level[p]], n)
    requires var v := Virtual(before, p, i, k, c); CutAt(v[p], v, cut, p, n, SplitSize(i))
    requires var v := Virtual(before, p, i, k, c); var pp := v[p].parent; AboveCut(v, g, t, p, SplitSize(i), cut, n, w, g1, ip)
    requires var pp := cut[p].parent; var x := cut[pp];
             waiting == if ip < |x.keys| then cut[pp := x.(keys := x.keys[ip := pmax])] else cut
    ensures Pending(waiting, g2, t, cut[p].parent, ip, k2, n)
    ensures g2.order == g.order && g2.level == g.level[n := g.level[p]]
  {
    hide Inv, Fine;
    var v := Virtual(before, p, i, k, c);
    var pp := v[p].parent;
    CutMax(v, g, t, p, SplitSize(i), cut, n, w, g1, ip, pmax);
    assert p != t.root && p in g.level && cut[p].parent == pp && cut[pp] == v[pp];
    hide Inv, Shape, Fine, FullPending, CutAt, Virtual;
    g2, k2 := GoUp(w, g1, t, p, n, pp, ip, cut[pp], v[p].keys[SplitSize(i) - 1], waiting, pmax);
  }

  lemma CutCascaded(before: seq<Node>, g: View, t: Table, p: nat, cut: seq<Node>, n: nat, pp: nat,
                    waiting: seq<Node>, g2: View, after: seq<Node>, g': View)
    requires CutFramed(before, g, t, p, cut, n) && p != t.root && t.root < n
    requires |waiting| == |cut| && pp < n && cut[pp].Internal? && waiting[pp].Internal? && pp in g.level
    requires |waiting[pp].keys| == |cut[pp].keys| && waiting == cut[pp := waiting[pp]]
    requires g2.order == g.order && g2.level == g.level[n := g.level[p]]
    requires Cascaded(waiting, g2, after, g', t)
    ensures Cascaded(before, g, after, g', t)
  {
    forall j | 0 <= j < |g.order|
      ensures g.order[j] < |before| && g.order[j] < |after| && before[g.order[j]].Leaf? && after[g.order[j]].Leaf?
      ensures after[g.order[j]].cells == before[g.order[j]].cells
    {
      assert cut[g.order[j]].Leaf? && waiting[g.order[j]].Leaf?;
    }
    if MinKeys(before, g, t) {
      forall x | x in g2.level && x < |waiting| && waiting[x].Internal?
        ensures |waiting[x].keys| >= if x == t.root then 1 else SPLIT - 1
      {
        if x < n && x != p { assert before[x].Internal?; }
      }
    }
  }

  lemma RootFinished(before: seq<Node>, g: View, t: Table, i: nat, k: Key, c: nat, cut: seq<Node>, n: nat, after: seq<Node>)
    returns (g': View)
    requires FullPending(before, g, t, t.root, i, k, c) && n !in g.level
    requires var v := Virtual(before, t.root, i, k, c); CutAt(v[t.root], v, cut, t.root, n, SplitSize(i))
    requires CutFramed(before, g, t, t.root, cut, n) && Shape(cut, g.level[n := g.level[t.root]])
    requires Fine(cut, g.level[n := g.level[t.root]], t.root)
    requires NewRoot(cut, after, t.root, n, MaxKey(cut, g.level[n := g.level[t.root]], t.root))
    ensures Cascaded(before, g, after, g', t)
  {
    hide Inv, Shape, Cascaded, CutFramed;
    var v := Virtual(before, t.root, i, k, c);
    var m := MaxKey(cut, g.level[n := g.level[t.root]], t.root);
    PendingCut(before, g, t, t.root, i, k, c, cut, n);
    RootCutChildren(v, g, t, SplitSize(i), cut, n);
    g' := AfterCutRoot(v, g, t, SplitSize(i), cut, n, after, m);
    RootCascaded(before, g, t, i, k, c, cut, n, after, m, g');
  }

  /** Leaves other than the root are at least half full. */
  ghost predicate MinCells(pages: seq<Node>, g: View, t: Table) {
    forall i :: 0 <= i < |g.order| ==>
                  g.order[i] == t.root ||
                  (g.order[i] < |pages| && pages[g.order[i]].Leaf? && |pages[g.order[i]].cells| >= SplitAt(t))
  }

  /** The table holds what it held before and the new cell, in its place in key order. */
  ghost predicate CellAdded(before: seq<Node>, g: View, after: seq<Node>, g': View, c: Cell) {
    var had := Contents(before, g.order);
    exists pos: nat {:trigger IsCellLowerBound(had, c.key, pos)} ::
      IsCellLowerBound(had, c.key, pos) && Contents(after, g'.order) == WithCell(had, pos, c)
  }

  /** Nothing is empty, or the table is a single leaf. */
  ghost predicate NoEmptyLeaf(pages: seq<Node>, g: View) {
    |g.order| == 1 || NonEmpty(pages, g)
  }

  /** What a completed insert achieves. */
  ghost predicate TreeInserted(before: seq<Node>, g: View, after: seq<Node>, g': View, t: Table, c: Cell) {
    && Inv(after, g', t, 0) && Framed(before, g, after, g') && CellAdded(before, g, after, g', c)
    && (MinKeys(before, g, t) ==> MinKeys(after, g', t))
    && (MinCells(before, g, t) ==> MinCells(after, g', t))
    && (NoEmptyLeaf(before, g) ==> NonEmpty(after, g'))
  }

  /** An insert into this leaf will end in a tree: the leaf has room, or it is the root, or the pages
      that a split of it may reach are clear. */
  ghost predicate InsertClear(pages: seq<Node>, g: View, t: Table, page: nat) {
    && page < |pages| && pages[page].Leaf?
    && (|pages[page].cells| < t.cap || page == t.root
        || (Shape(pages, g.level) && t.root in g.level && page in g.level && LeafClear(pages, g.level, t.root, page)))
  }

  lemma AddedFromEdit(before: seq<Node>, g: View, t: Table, after: seq<Node>, g': View, j: nat, mid: seq<nat>,
                      i: nat, c: Cell)
    requires j < |g.order| && Insertable(before, g, t, g.order[j], i, c)
    requires g'.order == g.order[..j] + mid + g.order[j + 1..]
    requires forall a :: 0 <= a < |g.order| && a != j ==> CellsAt(after, g.order[a]) == CellsAt(before, g.order[a])
    requires Contents(after, mid) == WithCell(CellsAt(before, g.order[j]), i, c)
    ensures CellAdded(before, g, after, g', c)
  {
    GlobalLowerBound(before, g, t, j, i, c.key);
    ContentsEdit(before, after, g.order, g'.order, j, mid, i, c);
  }

  /** An insert into a leaf with room. */
  lemma RoomInserted(before: seq<Node>, g: View, t: Table, p: nat, i: nat, c: Cell)
    requires Insertable(before, g, t, p, i, c) && |before[p].cells| < t.cap
    ensures TreeInserted(before, g, before[p := before[p].(cells := WithCell(before[p].cells, i, c))], g, t, c)
  {
    var after := before[p := before[p].(cells := WithCell(before[p].cells, i, c))];
    PutCell(before, g, t, p, i, c);
    var j := LeafPlace(before, g, t, 0, p);
    OrderDistinct(before, g, t, 0, j);
    assert g.order == g.order[..j] + [p] + g.order[j + 1..];
    assert Contents(after, [p]) == CellsAt(after, p) + Contents(after, []);
    AddedFromEdit(before, g, t, after, g, j, [p], i, c);
  }

  lemma RootLeafLevels(before: seq<Node>, t: Table, i: nat, c: Cell, cut: seq<Node>, n: nat)
    requires LeafHalved(before, t, t.root, i, c, cut, n) && t.cap >= 1
    ensures t.root < n && Shape(cut, map[t.root := 0, n := 0])
    ensures MaxKey(cut, map[t.root := 0, n := 0], t.root) == WithCell(before[t.root].cells, i, c)[SplitAt(t) - 1].key
  {
    assert |WithCell(before[t.root].cells, i, c)| == t.cap + 1;
  }

  /** The split of a full root leaf. */
  lemma RootLeafInserted(before: seq<Node>, g: View, t: Table, i: nat, c: Cell, cut: seq<Node>, n: nat, after: seq<Node>)
    returns (g': View)
    requires LeafCut(before, g, t, t.root, i, c, cut, n)
    requires NewRoot(cut, after, t.root, n, WithCell(before[t.root].cells, i, c)[SplitAt(t) - 1].key)
    ensures TreeInserted(before, g, after, g', t, c)
  {
    g' := LeafRoot(before, g, t, i, c, cut, n, after);
    RootLeafAdded(before, g, t, i, c, cut, n, after, g');
    RootLeafMins(before, g, t, i, c, cut, n, after, g');
    assert n == |before|;
    hide Inv, CellAdded, Contents, Insertable, MinCells, MinKeys, NonEmpty, WithCell;
  }

  lemma RootLeafAdded(before: seq<Node>, g: View, t: Table, i: nat, c: Cell, cut: seq<Node>, n: nat, after: seq<Node>, g': View)
    requires LeafCut(before, g, t, t.root, i, c, cut, n)
    requires NewRoot(cut, after, t.root, n, WithCell(before[t.root].cells, i, c)[SplitAt(t) - 1].key)
    requires g.order == [t.root] && g'.order == [n + 1, n]
    ensures CellAdded(before, g, after, g', c)
  {
    SplitKey(before, g, t, t.root, i, c, cut, n);
    RootLeafCells(before, g, t, i, c, cut, n, after);
    assert g'.order == g.order[..0] + [n + 1, n] + g.order[1..];
    assert Insertable(before, g, t, g.order[0], i, c);
    hide Inv, Contents, WithCell, NewRoot, LeafCut;
    AddedFromEdit(before, g, t, after, g', 0, [n + 1, n], i, c);
  }

  lemma RootLeafMins(before: seq<Node>, g: View, t: Table, i: nat, c: Cell, cut: seq<Node>, n: nat, after: seq<Node>, g': View)
    requires LeafCut(before, g, t, t.root, i, c, cut, n)
    requires NewRoot(cut, after, t.root, n, WithCell(before[t.root].cells, i, c)[SplitAt(t) - 1].key)
    requires g'.order == [n + 1, n] && g'.level.Keys == {t.root, n, n + 1}
    ensures MinKeys(after, g', t) && MinCells(after, g', t) && NonEmpty(after, g')
  {
    SplitKey(before, g, t, t.root, i, c, cut, n);
    hide Inv, Insertable, SortedCells, WithCell;
  }

  lemma RootLeafCells(before: seq<Node>, g: View, t: Table, i: nat, c: Cell, cut: seq<Node>, n: nat, after: seq<Node>)
    requires LeafCut(before, g, t, t.root, i, c, cut, n) && 0 < SplitAt(t) <= t.cap
    requires |WithCell(before[t.root].cells, i, c)| == t.cap + 1
    requires NewRoot(cut, after, t.root, n, WithCell(before[t.root].cells, i, c)[SplitAt(t) - 1].key)
    ensures Contents(after, [n + 1, n]) == WithCell(CellsAt(before, t.root), i, c)
  {
    assert i <= |before[t.root].cells|;
    hide Inv, IsCellLowerBound, WithCell;
    var cells := WithCell(before[t.root].cells, i, c);
    assert [n + 1, n][1..] == [n];
    assert Contents(after, [n]) == CellsAt(after, n) + Contents(after, []);
    assert cells == cells[..SplitAt(t)] + cells[SplitAt(t)..];
  }

  /** The halves of leaf p are in place and n waits in the parent pp. */
  ghost predicate LeafWaits(before: seq<Node>, g: View, t: Table, p: nat, i: nat, c: Cell, cut: seq<Node>, n: nat, j: nat,
                            pp: nat, waiting: seq<Node>, g2: View)
  {
    && LeafCut(before, g, t, p, i, c, cut, n) && p != t.root
    && j < |g.order| && g.order[j] == p
    && pp < n && before[pp].Internal? && |waiting| == |cut|
    && waiting[pp].Internal? && waiting == cut[pp := waiting[pp]]
    && pp in g.level && |waiting[pp].keys| == |before[pp].keys|
    && g2.order == g.order[..j + 1] + [n] + g.order[j + 1..] && g2.level == g.level[n := 0]
    && (NonEmpty(before, g) ==> NonEmpty(waiting, g2))
  }

  /** ... and the cascade has run. */
  ghost predicate LeafPassed(before: seq<Node>, g: View, t: Table, p: nat, i: nat, c: Cell, cut: seq<Node>, n: nat, j: nat,
                             pp: nat, waiting: seq<Node>, g2: View, after: seq<Node>, g': View)
  {
    LeafWaits(before, g, t, p, i, c, cut, n, j, pp, waiting, g2) && Cascaded(waiting, g2, after, g', t)
  }

  lemma LeafMinKeys(before: seq<Node>, g: View, t: Table, p: nat, i: nat, c: Cell, cut: seq<Node>, n: nat, j: nat,
                    pp: nat, waiting: seq<Node>, g2: View, after: seq<Node>, g': View)
    requires LeafPassed(before, g, t, p, i, c, cut, n, j, pp, waiting, g2, after, g')
    ensures MinKeys(before, g, t) ==> MinKeys(after, g', t)
  {
    hide Inv, NonEmpty;
    if MinKeys(before, g, t) {
      forall x | x in g2.level && x < |waiting| && waiting[x].Internal?
        ensures |waiting[x].keys| >= if x == t.root then 1 else SPLIT - 1
      {
        assert before[x].Internal?;
      }
    }
  }

  lemma LeafMinCells(before: seq<Node>, g: View, t: Table, p: nat, i: nat, c: Cell, cut: seq<Node>, n: nat, j: nat,
                     pp: nat, waiting: seq<Node>, g2: View, after: seq<Node>, g': View)
    requires LeafPassed(before, g, t, p, i, c, cut, n, j, pp, waiting, g2, after, g')
    ensures MinCells(before, g, t) ==> MinCells(after, g', t)
  {
    hide Inv, NonEmpty, MinKeys, Framed;
    SplitKey(before, g, t, p, i, c, cut, n);
    if MinCells(before, g, t) {
      forall a | 0 <= a < |g'.order|
        ensures g'.order[a] == t.root ||
                (g'.order[a] < |after| && after[g'.order[a]].Leaf? && |after[g'.order[a]].cells| >= SplitAt(t))
      {
        assert g2.order[a] == if a <= j then g.order[a] else if a == j + 1 then n else g.order[a - 1];
      }
    }
  }

  lemma LeafNonEmpty(before: seq<Node>, g: View, t: Table, p: nat, i: nat, c: Cell, cut: seq<Node>, n: nat, j: nat,
                     pp: nat, waiting: seq<Node>, g2: View, after: seq<Node>, g': View)
    requires LeafPassed(before, g, t, p, i, c, cut, n, j, pp, waiting, g2, after, g')
    ensures NoEmptyLeaf(before, g) ==> NonEmpty(after, g')
  {
    hide Inv, MinKeys, Framed;
    SplitKey(before, g, t, p, i, c, cut, n);
    if NoEmptyLeaf(before, g) {
      assert NonEmpty(before, g) && NonEmpty(waiting, g2);
      forall a | 0 <= a < |g'.order|
        ensures g'.order[a] < |after| && after[g'.order[a]].Leaf? && |after[g'.order[a]].cells| > 0
      {
        assert g2.order[a] < |waiting| && waiting[g2.order[a]].Leaf? && |waiting[g2.order[a]].cells| > 0;
      }
    }
  }

  lemma LeafCellAdded(before: seq<Node>, g: View, t: Table, p: nat, i: nat, c: Cell, cut: seq<Node>, n: nat, j: nat,
                      pp: nat, waiting: seq<Node>, g2: View, after: seq<Node>, g': View)
    requires LeafPassed(before, g, t, p, i, c, cut, n, j, pp, waiting, g2, after, g')
    ensures CellAdded(before, g, after, g', c)
  {
    SplitKey(before, g, t, p, i, c, cut, n);
    OrderDistinct(before, g, t, 0, j);
    hide Inv, NonEmpty;
    LeafInsertedCells(before, g, t, p, i, c, cut, n, j, pp, waiting, g2, after);
    AddedFromEdit(before, g, t, after, g', j, [p, n], i, c);
  }

  /** What is left of the insert once the halves of a leaf are in place and n waits in the parent. */
  lemma LeafInserted(before: seq<Node>, g: View, t: Table, p: nat, i: nat, c: Cell, cut: seq<Node>, n: nat, j: nat,
                     pp: nat, waiting: seq<Node>, g2: View, after: seq<Node>, g': View)
    requires LeafPassed(before, g, t, p, i, c, cut, n, j, pp, waiting, g2, after, g')
    ensures TreeInserted(before, g, after, g', t, c)
  {
    LeafCellAdded(before, g, t, p, i, c, cut, n, j, pp, waiting, g2, after, g');
    LeafMinKeys(before, g, t, p, i, c, cut, n, j, pp, waiting, g2, after, g');
    LeafMinCells(before, g, t, p, i, c, cut, n, j, pp, waiting, g2, after, g');
    LeafNonEmpty(before, g, t, p, i, c, cut, n, j, pp, waiting, g2, after, g');
    LeafFramed(before, g, t, p, i, c, cut, n, j, pp, waiting, g2, after, g');
    hide Inv, NonEmpty, MinKeys, MinCells, CellAdded, LeafCut, LeafWaits, Framed, SameLeaves;
  }

  lemma LeafFramed(before: seq<Node>, g: View, t: Table, p: nat, i: nat, c: Cell, cut: seq<Node>, n: nat, j: nat,
                   pp: nat, waiting: seq<Node>, g2: View, after: seq<Node>, g': View)
    requires LeafPassed(before, g, t, p, i, c, cut, n, j, pp, waiting, g2, after, g')
    ensures Framed(before, g, after, g')
  {
    assert p in g.level && n == |before|;
    hide Inv, NonEmpty, MinKeys, MinCells, SameLeaves, Insertable, WithCell;
  }

  /** The search for the old largest key finds the split leaf in its parent. */
  lemma LeafIndex(before: seq<Node>, g: View, t: Table, p: nat, i: nat, c: Cell, cut: seq<Node>, n: nat, j: nat,
                  w: seq<Node>, g1: View, ip: nat, s: Key)
    requires LeafCut(before, g, t, p, i, c, cut, n) && j < |g.order|
    requires AboveLeaf(before, g, t, p, i, c, cut, n, j, w, g1, ip, s)
    ensures var pp := cut[p].parent;
            && pp < |cut| && cut[pp].Internal? && SortedKeys(cut[pp].keys)
            && |before[p].cells| > 0 && |cut[p].cells| > 0 && Last(cut[p].cells).key == s
            && before[p].parent == pp && pp < |before| && before[pp].Internal?
            && ip < |before[pp].children| && before[pp].children[ip] == p
            && forall idx: nat :: IsLowerBound(cut[pp].keys, Last(before[p].cells).key, idx) ==> idx == ip
  {
    var pp := before[p].parent;
    SplitKey(before, g, t, p, i, c, cut, n);
    assert PageOk(before, g, t, 0, p);
    forall idx: nat | IsLowerBound(cut[pp].keys, Last(before[p].cells).key, idx) ensures idx == ip {
      FindsChild(before, g, pp, ip, Last(before[p].cells).key, idx);
    }
  }

  lemma LeafParentKept(before: seq<Node>, g: View, t: Table, p: nat, i: nat, c: Cell, cut: seq<Node>, n: nat,
                       ip: nat, s: Key, waiting: seq<Node>)
    requires LeafCut(before, g, t, p, i, c, cut, n)
    requires var pp := before[p].parent;
             pp < n && pp != p && cut[pp] == before[pp] && before[pp].Internal? && ip <= |before[pp].keys|
    requires var pp := before[p].parent; var x := before[pp];
             waiting == if ip < |x.keys| then cut[pp := x.(keys := x.keys[ip := s])] else cut
    ensures var pp := before[p].parent; var x := before[pp];
            && |waiting| == |cut| && waiting[pp] == x.(keys := if ip < |x.keys| then x.keys[ip := s] else x.keys)
            && waiting == cut[pp := waiting[pp]]
            && forall y :: 0 <= y < |cut| && y != pp ==> waiting[y] == cut[y]
  {
    hide Inv, Insertable, WithCell;
  }

  /** The parent of a leaf that was split: its separator is updated and the new leaf is pending. */
  lemma LeafWaiting(before: seq<Node>, g: View, t: Table, p: nat, i: nat, c: Cell, cut: seq<Node>, n: nat, j: nat,
                    w: seq<Node>, g1: View, ip: nat, s: Key, waiting: seq<Node>)
    returns (g2: View, k2: Key)
    requires LeafCut(before, g, t, p, i, c, cut, n) && p != t.root && j < |g.order| && g.order[j] == p
    requires AboveLeaf(before, g, t, p, i, c, cut, n, j, w, g1, ip, s)
    requires var pp := before[p].parent; var x := before[pp];
             waiting == if ip < |x.keys| then cut[pp := x.(keys := x.keys[ip := s])] else cut
    ensures Pending(waiting, g2, t, before[p].parent, ip, k2, n)
    ensures LeafWaits(before, g, t, p, i, c, cut, n, j, before[p].parent, waiting, g2)
  {
    hide Inv, ChildOk, KeysOk, WithCell;
    var pp := before[p].parent;
    LeafIsWaiting(before, g, t, p, i, c, cut, n, j, w, g1, ip, s, waiting);
    LeafParentKept(before, g, t, p, i, c, cut, n, ip, s, waiting);
    assert n !in g.level && g1.level == g.level[n := 0] && g1.order == g.order[..j + 1] + [n] + g.order[j + 1..] && pp in g.level;
    SplitKeepsNonEmpty(before, g, t, p, i, c, cut, n, j, waiting, g1.order);
    hide Inv, NonEmpty, Shape, ChildOk, KeysOk, Insertable, WithCell, Waiting, AboveLeaf;
    g2, k2 := GoUp(w, g1, t, p, n, pp, ip, before[pp], s, waiting, s);
  }

  lemma SplitKeepsNonEmpty(before: seq<Node>, g: View, t: Table, p: nat, i: nat, c: Cell, cut: seq<Node>, n: nat, j: nat,
                           waiting: seq<Node>, order: seq<nat>)
    requires LeafCut(before, g, t, p, i, c, cut, n) && j < |g.order| && g.order[j] == p
    requires order == g.order[..j + 1] + [n] + g.order[j + 1..] && |waiting| == |cut|
    requires before[p].parent < |cut| && cut[before[p].parent].Internal? && waiting == cut[before[p].parent := waiting[before[p].parent]]
    ensures NonEmpty(before, g) ==>
              forall a :: 0 <= a < |order| ==> order[a] < |waiting| && waiting[order[a]].Leaf? && |waiting[order[a]].cells| > 0
  {
    SplitKey(before, g, t, p, i, c, cut, n);
    hide Inv, Insertable, WithCell;
    if NonEmpty(before, g) { SplitNonEmpty(before, g, t, p, i, c, cut, n, j, waiting, order); }
  }

  lemma LeafIsWaiting(before: seq<Node>, g: View, t: Table, p: nat, i: nat, c: Cell, cut: seq<Node>, n: nat, j: nat,
                      w: seq<Node>, g1: View, ip: nat, s: Key, waiting: seq<Node>)
    requires LeafCut(before, g, t, p, i, c, cut, n) && p != t.root && j < |g.order| && g.order[j] == p
    requires AboveLeaf(before, g, t, p, i, c, cut, n, j, w, g1, ip, s)
    requires var pp := before[p].parent; var x := before[pp];
             waiting == if ip < |x.keys| then cut[pp := x.(keys := x.keys[ip := s])] else cut
    ensures Waiting(w, g1, t, p, n, before[p].parent, ip, before[before[p].parent], s, waiting, s)
  {
    LeafSpots(before, g, t, p, i, c, cut, n, j, w, g1, ip, s, waiting);
    hide Inv, NonEmpty, Shape, ChildOk, KeysOk, Insertable, WithCell, SortedCells, LeafCut;
    LeafTop(w, g1.level, p);
    LeafTop(w, g1.level, n);
  }

  /** Where w and the store of the code agree. */
  lemma LeafSpots(before: seq<Node>, g: View, t: Table, p: nat, i: nat, c: Cell, cut: seq<Node>, n: nat, j: nat,
                  w: seq<Node>, g1: View, ip: nat, s: Key, waiting: seq<Node>)
    requires LeafCut(before, g, t, p, i, c, cut, n) && p != t.root && j < |g.order| && g.order[j] == p
    requires AboveLeaf(before, g, t, p, i, c, cut, n, j, w, g1, ip, s)
    requires var pp := before[p].parent; var x := before[pp];
             waiting == if ip < |x.keys| then cut[pp := x.(keys := x.keys[ip := s])] else cut
    ensures var pp := before[p].parent; var x := before[pp];
            && pp in g1.level && n in g1.level && p in g1.level && n != pp && pp < |w| && n < |w| && p < |w|
            && |waiting| == |w| && w[pp] == WithChild(x, ip, s, n)
            && w[n].parent == pp && waiting[n] == WithParent(w[n], waiting[n].parent)
            && waiting[pp] == x.(keys := if ip < |x.keys| then x.keys[ip := s] else x.keys)
            && w[p].Leaf? && |w[p].cells| > 0 && Last(w[p].cells).key == s && w[n].Leaf? && |w[n].cells| > 0
            && forall y :: 0 <= y < |w| && y != pp && y != n ==> waiting[y] == w[y]
  {
    hide Inv, NonEmpty, Shape, ChildOk, KeysOk;
    SplitKey(before, g, t, p, i, c, cut, n);
    LeafParentKept(before, g, t, p, i, c, cut, n, ip, s, waiting);
    assert p in g.level && p < n;
    hide Inv, NonEmpty, Shape, ChildOk, KeysOk, Insertable, WithCell, SortedCells;
  }

  lemma LeafTop(pages: seq<Node>, level: map<nat, nat>, x: nat)
    requires Shape(pages, level) && x in level && x < |pages| && pages[x].Leaf? && |pages[x].cells| > 0
    ensures MaxKey(pages, level, x) == Last(pages[x].cells).key && Fine(pages, level, x)
  {
    assert Descends(pages, level, x);
  }

  lemma LeafInsertedCells(before: seq<Node>, g: View, t: Table, p: nat, i: nat, c: Cell, cut: seq<Node>, n: nat, j: nat,
                          pp: nat, waiting: seq<Node>, g2: View, after: seq<Node>)
    requires LeafCut(before, g, t, p, i, c, cut, n) && p != t.root
    requires j < |g.order| && g.order[j] == p
    requires forall a :: 0 <= a < |g.order| && a != j ==> g.order[a] != p
    requires pp < n && before[pp].Internal? && |waiting| == |cut| && waiting == cut[pp := waiting[pp]] && waiting[pp].Internal?
    requires g2.order == g.order[..j + 1] + [n] + g.order[j + 1..] && n !in g.level
    requires SameLeaves(waiting, after, g2.order) && |WithCell(before[p].cells, i, c)| == t.cap + 1
    ensures g2.order == g.order[..j] + [p, n] + g.order[j + 1..]
    ensures forall a :: 0 <= a < |g.order| && a != j ==> CellsAt(after, g.order[a]) == CellsAt(before, g.order[a])
    ensures Contents(after, [p, n]) == WithCell(CellsAt(before, p), i, c)
  {
    var cells := WithCell(before[p].cells, i, c);
    forall a | 0 <= a < |g.order| && a != j ensures CellsAt(after, g.order[a]) == CellsAt(before, g.order[a]) {
      var a' := if a <= j then a else a + 1;
      assert g2.order[a'] == g.order[a];
      assert waiting[g.order[a]] == cut[g.order[a]];
    }
    assert g2.order[j] == p && g2.order[j + 1] == n;
    assert cells == cells[..SplitAt(t)] + cells[SplitAt(t)..];
    assert [p, n][1..] == [n];
    assert Contents(after, [n]) == CellsAt(after, n) + Contents(after, []);
  }

  /** The copy of the root has the root's largest key. */
  lemma CopyMax(before: seq<Node>, pages: seq<Node>, level: map<nat, nat>, root: nat, left: nat)
    requires Shape(before, level) && root in level && root < |before| && left == |before|
    requires |pages| == left + 1 && pages[..left] == before && pages[left] == CopiedTo(before[root], root)
    ensures left !in level && Shape(pages, level[left := level[root]])
    ensures MaxKey(pages, level[left := level[root]], left) == MaxKey(before, level, root)
  {
    var level' := level[left := level[root]];
    forall x | x in level ensures x < left { assert Descends(before, level, x); }
    assert Descends(before, level, root);
    forall x | x in level' ensures Descends(pages, level', x) {
      if x != left { assert Descends(before, level, x); }
    }
    assert Descends(pages, level', left);
    if before[root].Internal? {
      RightLeafFrame(before, pages, level, level', Last(before[root].children));
    }
  }
}
