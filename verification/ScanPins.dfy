/** The frames a full scan needs: SELECT fetches the pages on its way and never unpins one. */
module ScanPins {
  import opened Layout
  import opened Tree
  import opened TreeSteps
  import opened Select
  import opened Paging
  import opened PagingRuns

  lemma PathFrom(pages: seq<Node>, level: map<nat, nat>, root: nat, path: seq<nat>)
    requires Downwards(pages, level, root, path)
    ensures |path| > 0 && root in level
    ensures forall i {:trigger path[i]} :: 0 <= i < |path| ==> path[i] in level && level[path[i]] + i == level[root]
    ensures forall i, j :: 0 <= i < j < |path| ==> path[i] != path[j]
  {
    assert forall i, j :: 0 <= i < j < |path| ==> level[path[i]] > level[path[j]];
  }

  lemma OrderLevels(pages: seq<Node>, g: View, t: Table, i: nat)
    requires Inv(pages, g, t, 0) && i < |g.order|
    ensures g.order[i] in g.level && g.level[g.order[i]] == 0
    ensures forall j :: i < j < |g.order| ==> g.order[i] != g.order[j]
  {
    assert PageOk(pages, g, t, 0, g.order[i]);
    forall j | i < j < |g.order| ensures g.order[i] != g.order[j] { OrderSorted(pages, g, t, 0, i, j); }
  }

  lemma PathAndLeaves(path: seq<nat>, order: seq<nat>, level: map<nat, nat>, root: nat, pages: seq<Node>)
    requires Descent(pages, level, root, path) && Last(path) in order
    requires forall i {:trigger order[i]} :: 0 <= i < |order| ==> order[i] in level && level[order[i]] == 0
    requires forall i, j :: 0 <= i < j < |order| ==> order[i] != order[j]
    ensures |Elems(path + order)| == level[root] + |order|
  {
    assert Downwards(pages, level, root, path) && level[Last(path)] == 0;
    PathFrom(pages, level, root, path);
    hide *;
    var h := |path| - 1;
    LastIs(path);
    assert level[path[h]] + h == level[root];
    WayDistinct(path, order, level, root);
    DistinctIn(order);
    WayAndLeaves(path[..h], path[h], order);
  }

  lemma WayDistinct(path: seq<nat>, order: seq<nat>, level: map<nat, nat>, root: nat)
    requires |path| > 0 && root in level
    requires forall i {:trigger path[i]} :: 0 <= i < |path| ==> path[i] in level && level[path[i]] + i == level[root]
    requires forall i, j :: 0 <= i < j < |path| ==> path[i] != path[j]
    requires forall i {:trigger order[i]} :: 0 <= i < |order| ==> order[i] in level && level[order[i]] == 0
    requires level[path[|path| - 1]] == 0
    ensures forall i :: 0 <= i < |path| - 1 ==> path[i] !in order
    ensures |Elems(path[..|path| - 1])| == |path| - 1
  {
    hide *;
    forall i | 0 <= i < |path| - 1 ensures path[i] !in order {
      assert level[path[i]] + i == level[root] == level[path[|path| - 1]] + |path| - 1;
    }
    DistinctIn(path[..|path| - 1]);
  }

  lemma LastIs(path: seq<nat>)
    requires |path| > 0
    ensures Last(path) == path[|path| - 1] && path == path[..|path| - 1] + [path[|path| - 1]]
  {
  }

  lemma WayAndLeaves(way: seq<nat>, end: nat, order: seq<nat>)
    requires end in order && forall i :: 0 <= i < |way| ==> way[i] !in order
    ensures |Elems(way + [end] + order)| == |Elems(way)| + |Elems(order)|
  {
    assert Elems(way + [end] + order) == Elems(way) + Elems(order);
    assert Elems(way) !! Elems(order);
    hide Elems;
    PinsAndScan(Elems(way), Elems(order));
  }

  /** A scan of a tree of height h fetches its h internal pages on the way down and every leaf. */
  lemma FullScanPages(pages: seq<Node>, g: View, t: Table, fetched: seq<nat>)
    requires Inv(pages, g, t, 0) && FullScan(pages, g, t, fetched)
    ensures t.root in g.level && |Elems(fetched)| == g.level[t.root] + |g.order|
    ensures forall x :: x in fetched ==> x in g.level && x < |pages|
  {
    var path :| Descent(pages, g.level, t.root, path) && Elems(fetched) == Elems(path + g.order);
    assert PageOk(pages, g, t, 0, Last(path));
    assert Last(path) in g.order;
    forall i | 0 <= i < |g.order|
      ensures g.order[i] in g.level && g.level[g.order[i]] == 0 && forall j :: i < j < |g.order| ==> g.order[i] != g.order[j]
    {
      OrderLevels(pages, g, t, i);
    }
    assert Dom(pages, g);
    hide Inv;
    PathAndLeaves(path, g.order, g.level, t.root, pages);
    forall x | x in fetched ensures x in g.level {
      assert x in Elems(path + g.order);
    }
  }

  /** A SELECT of all rows goes through exactly when the pages pinned before and the pages of the scan together
      do not exceed the number of frames; then the pages of the scan stay pinned. On a table of which no page is
      pinned, its height and the number of its leaves add to the pinned pages; a scan of pages that an earlier
      one left pinned always goes through. */
  method FetchScan(p: Pager, fetched: seq<nat>, junk: seq<Page>, ghost n: nat, ghost pages: seq<Node>, ghost g: View, ghost t: Table)
    returns (running: bool)
    requires Inv(pages, g, t, 0) && FullScan(pages, g, t, fetched) && |pages| <= TABLE_MAX_PAGES
    requires p.Valid() && |Abstract(p).pins| == TABLE_MAX_PAGES && |junk| == |fetched| && Timely(p, n) && n + |fetched| < NO_TIME
    requires forall x :: 0 <= x < TABLE_MAX_PAGES ==> Abstract(p).pins[x] + |fetched| < NO_TIME
    modifies p, p.frames, p.lastUsed, p.isDirty, p.pinned, p.Frames()
    ensures p.Valid() && t.root in g.level
    ensures running <==> |PinnedPages(old(Abstract(p))) + Elems(fetched)| <= p.capacity
    ensures running ==> PinnedPages(Abstract(p)) == PinnedPages(old(Abstract(p))) + Elems(fetched)
    ensures var pins := PinnedPages(old(Abstract(p)));
            && (Elems(fetched) !! pins ==> (running <==> |pins| + g.level[t.root] + |g.order| <= p.capacity))
            && (Elems(fetched) <= pins ==> running)
  {
    FullScanPages(pages, g, t, fetched);
    forall i | 0 <= i < |fetched| ensures fetched[i] < TABLE_MAX_PAGES { assert fetched[i] in fetched; }
    ghost var pins := PinnedPages(Abstract(p));
    PinsAndFrames(p);
    PinsAndScan(pins, Elems(fetched));
    hide Inv, FullScan, PinnedPages, Timely, Elems;
    var answers;
    answers, running := FetchAll(p, fetched, junk, n);
  }

  lemma PinsAndScan(pins: set<nat>, scan: set<nat>)
    ensures scan !! pins ==> |pins + scan| == |pins| + |scan|
    ensures scan <= pins ==> pins + scan == pins
  {
  }
}
