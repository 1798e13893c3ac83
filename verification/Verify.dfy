/** verify_btree, the structural self-check of src/btree.c: what it accepts, that it accepts every
    tree that satisfies the invariant, and what acceptance guarantees. */
module Verify {
  import opened Layout
  import opened Tree
  import opened TreeOrder

  /** A key bound that may be absent (a null pointer in the source). */
  datatype Bound = Unbounded | At(key: Key)

  ghost predicate AtLeast(k: Key, b: Bound) { b.At? ==> b.key <= k }
  ghost predicate AtMost(k: Key, b: Bound) { b.At? ==> k <= b.key }

  /** Every internal page of the tree has one child more than keys. */
  ghost predicate Wide(pages: seq<Node>, level: map<nat, nat>) {
    forall x :: x in level && x < |pages| && pages[x].Internal? ==> |pages[x].children| == |pages[x].keys| + 1
  }

  function LowFor(keys: seq<Key>, i: nat, low: Bound): Bound
    requires i <= |keys|
  {
    if i == 0 then low else if i < |keys| then Unbounded else At(keys[i - 1])
  }

  function HighFor(keys: seq<Key>, i: nat, high: Bound): Bound
    requires i <= |keys|
  {
    if i < |keys| then At(keys[i]) else high
  }

  /** What the check asks of a page and everything below it. */
  ghost predicate Accepts(pages: seq<Node>, level: map<nat, nat>, x: nat, parent: nat, low: Bound, high: Bound)
    requires Shape(pages, level) && Wide(pages, level) && x in level
    decreases level[x]
  {
    assert Descends(pages, level, x);
    && (pages[x].parent == parent || pages[x].isRoot)
    && if pages[x].Leaf? then
         var cells := pages[x].cells;
         && (forall i :: 0 <= i < |cells| ==> AtLeast(cells[i].key, low) && AtMost(cells[i].key, high))
         && (forall i :: 0 < i < |cells| ==> cells[i - 1].key <= cells[i].key)
       else
         var keys := pages[x].keys;
         && (forall i :: 0 < i < |keys| ==> keys[i - 1] <= keys[i])
         && (forall i :: 0 <= i < |pages[x].children| ==>
               Accepts(pages, level, pages[x].children[i], x, LowFor(keys, i, low), HighFor(keys, i, high)))
  }

  method VerifyNode(pages: seq<Node>, pg: nat, parentPg: nat, minKey: Bound, maxKey: Bound, ghost level: map<nat, nat>)
    returns (ok: bool)
    requires Shape(pages, level) && Wide(pages, level) && pg in level
    ensures ok <==> Accepts(pages, level, pg, parentPg, minKey, maxKey)
    ensures ok <==> AllRightBelow(pages, pg, parentPg, minKey, maxKey)
    decreases level[pg]
  {
    AcceptsBelow(pages, level, pg, parentPg, minKey, maxKey);
    assert Descends(pages, level, pg);
    hide AllRightBelow;
    var node := pages[pg];
    if node.parent != parentPg && !node.isRoot {
      return false;
    }
    if node.Leaf? {
      ok := VerifyLeaf(node.cells, minKey, maxKey);
      return;
    }
    var num := |node.keys|;
    var i := 0;
    while i < num
      invariant i <= num
      invariant forall j :: 0 <= j < i ==>
                  Accepts(pages, level, node.children[j], pg, LowFor(node.keys, j, minKey), HighFor(node.keys, j, maxKey))
      invariant forall j :: 0 < j < i ==> node.keys[j - 1] <= node.keys[j]
    {
      var k := node.keys[i];
      var childOk := VerifyNode(pages, node.children[i], pg, if i == 0 then minKey else Unbounded, At(k), level);
      if !childOk { return false; }
      if i > 0 && k < node.keys[i - 1] { return false; }
      i := i + 1;
    }
    ok := VerifyNode(pages, node.children[num], pg, if num > 0 then At(node.keys[num - 1]) else minKey, maxKey, level);
  }

  method VerifyLeaf(cells: seq<Cell>, minKey: Bound, maxKey: Bound) returns (ok: bool)
    ensures ok <==>
            && (forall i :: 0 <= i < |cells| ==> AtLeast(cells[i].key, minKey) && AtMost(cells[i].key, maxKey))
            && (forall i :: 0 < i < |cells| ==> cells[i - 1].key <= cells[i].key)
  {
    var i := 0;
    while i < |cells|
      invariant i <= |cells|
      invariant forall j :: 0 <= j < i ==> AtLeast(cells[j].key, minKey) && AtMost(cells[j].key, maxKey)
      invariant forall j :: 0 < j < i ==> cells[j - 1].key <= cells[j].key
    {
      var k := cells[i].key;
      if minKey.At? && k < minKey.key { return false; }
      if maxKey.At? && k > maxKey.key { return false; }
      if i > 0 && k < cells[i - 1].key { return false; }
      i := i + 1;
    }
    ok := true;
  }

  // What is checked, page by page

  /** A way down from a page: turns[k] says which child of xs[k] is taken. */
  ghost predicate Way(pages: seq<Node>, x: nat, xs: seq<nat>, turns: seq<nat>) {
    && |xs| == |turns| + 1 && xs[0] == x
    && (forall k {:trigger xs[k]} :: 0 <= k < |xs| ==> xs[k] < |pages|)
    && (forall k {:trigger turns[k]} :: 0 <= k < |turns| ==> Step(pages, xs[k], turns[k], xs[k + 1]))
  }

  ghost predicate Step(pages: seq<Node>, x: nat, i: nat, y: nat) {
    && x < |pages| && pages[x].Internal? && |pages[x].children| == |pages[x].keys| + 1
    && i < |pages[x].children| && y == pages[x].children[i]
  }

  /** From step k on the way always takes the last child. */
  ghost predicate LastFrom(pages: seq<Node>, xs: seq<nat>, turns: seq<nat>, k: nat) {
    |xs| == |turns| + 1 && forall m {:trigger turns[m]} :: k <= m < |turns| ==>
      xs[m] < |pages| && pages[xs[m]].Internal? && turns[m] == |pages[xs[m]].keys|
  }

  /** From step k on the way always takes the first child. */
  ghost predicate FirstFrom(turns: seq<nat>, k: nat) {
    forall m {:trigger turns[m]} :: k <= m < |turns| ==> turns[m] == 0
  }

  ghost predicate CellsAtMost(cells: seq<Cell>, k: Key) { forall i :: 0 <= i < |cells| ==> cells[i].key <= k }
  ghost predicate CellsAtLeast(cells: seq<Cell>, k: Key) { forall i :: 0 <= i < |cells| ==> k <= cells[i].key }

  /** No cell of the leaf at the end of the way is above the separator that it was reached by at step k, when
      from there on every step takes the last child. */
  ghost predicate UpperKept(pages: seq<Node>, xs: seq<nat>, turns: seq<nat>, k: nat, cells: seq<Cell>)
    requires k < |turns| && k < |xs|
  {
    xs[k] < |pages| && pages[xs[k]].Internal? && turns[k] < |pages[xs[k]].keys| && LastFrom(pages, xs, turns, k + 1) ==>
      CellsAtMost(cells, pages[xs[k]].keys[turns[k]])
  }

  /** No cell is below the last separator, when step k takes the last child and from there on every step the first. */
  ghost predicate LowerKept(pages: seq<Node>, xs: seq<nat>, turns: seq<nat>, k: nat, cells: seq<Cell>)
    requires k < |turns| && k < |xs|
  {
    xs[k] < |pages| && pages[xs[k]].Internal? && turns[k] == |pages[xs[k]].keys| > 0 && FirstFrom(turns, k + 1) ==>
      CellsAtLeast(cells, Last(pages[xs[k]].keys))
  }

  /** What holds of the page at the end of a way: it names the page before it as its parent, unless it is
      flagged as a root; separators do not fall; the cells of a leaf do not fall either, and keep to the
      separators that lead there. */
  ghost predicate PageRight(pages: seq<Node>, parent: nat, xs: seq<nat>, turns: seq<nat>)
    requires |xs| == |turns| + 1 && xs[|turns|] < |pages|
  {
    var x := pages[xs[|turns|]];
    && (x.isRoot || x.parent == if turns == [] then parent else xs[|turns| - 1])
    && if x.Internal? then forall i :: 0 < i < |x.keys| ==> x.keys[i - 1] <= x.keys[i]
       else
         && (forall i :: 0 < i < |x.cells| ==> x.cells[i - 1].key <= x.cells[i].key)
         && (forall k {:trigger UpperKept(pages, xs, turns, k, x.cells)} :: 0 <= k < |turns| ==> UpperKept(pages, xs, turns, k, x.cells))
         && (forall k {:trigger LowerKept(pages, xs, turns, k, x.cells)} :: 0 <= k < |turns| ==> LowerKept(pages, xs, turns, k, x.cells))
  }

  ghost predicate AllRight(pages: seq<Node>, root: nat) {
    forall xs, turns {:trigger Way(pages, root, xs, turns)} :: Way(pages, root, xs, turns) ==> PageRight(pages, 0, xs, turns)
  }

  /** The same below a page in the middle of the tree, with the bounds that are handed down to it. */
  ghost predicate RightBelow(pages: seq<Node>, parent: nat, low: Bound, high: Bound, xs: seq<nat>, turns: seq<nat>)
    requires |xs| == |turns| + 1 && xs[|turns|] < |pages|
  {
    var x := pages[xs[|turns|]];
    && PageRight(pages, parent, xs, turns)
    && (x.Leaf? && high.At? && LastFrom(pages, xs, turns, 0) ==> CellsAtMost(x.cells, high.key))
    && (x.Leaf? && low.At? && FirstFrom(turns, 0) ==> CellsAtLeast(x.cells, low.key))
  }

  ghost predicate AllRightBelow(pages: seq<Node>, x: nat, parent: nat, low: Bound, high: Bound) {
    forall xs, turns {:trigger Way(pages, x, xs, turns)} :: Way(pages, x, xs, turns) ==> RightBelow(pages, parent, low, high, xs, turns)
  }

  /** A way of at least one step, seen from its second page. */
  lemma WayRest(pages: seq<Node>, x: nat, xs: seq<nat>, turns: seq<nat>)
    requires Way(pages, x, xs, turns) && |turns| > 0
    ensures Step(pages, x, turns[0], xs[1]) && Way(pages, xs[1], xs[1..], turns[1..])
  {
    var ys, rest := xs[1..], turns[1..];
    forall k | 0 <= k < |rest| ensures Step(pages, ys[k], rest[k], ys[k + 1]) { assert rest[k] == turns[k + 1]; }
  }

  lemma LongerWay(pages: seq<Node>, x: nat, i: nat, ys: seq<nat>, rest: seq<nat>)
    requires x < |pages| && |ys| > 0 && Step(pages, x, i, ys[0]) && Way(pages, ys[0], ys, rest)
    ensures Way(pages, x, [x] + ys, [i] + rest)
  {
    var xs, turns := [x] + ys, [i] + rest;
    forall k | 0 <= k < |turns| ensures Step(pages, xs[k], turns[k], xs[k + 1]) {
      if k > 0 { assert turns[k] == rest[k - 1]; }
    }
  }

  lemma FromLater(pages: seq<Node>, xs: seq<nat>, turns: seq<nat>, k: nat)
    requires |xs| == |turns| + 1 && |turns| > 0
    ensures LastFrom(pages, xs, turns, k + 1) <==> LastFrom(pages, xs[1..], turns[1..], k)
    ensures FirstFrom(turns, k + 1) <==> FirstFrom(turns[1..], k)
  {
    var ys, rest := xs[1..], turns[1..];
    if LastFrom(pages, xs, turns, k + 1) {
      forall m | k <= m < |rest| ensures ys[m] < |pages| && pages[ys[m]].Internal? && rest[m] == |pages[ys[m]].keys| { assert rest[m] == turns[m + 1]; }
    }
    if LastFrom(pages, ys, rest, k) {
      forall m | k + 1 <= m < |turns| ensures xs[m] < |pages| && pages[xs[m]].Internal? && turns[m] == |pages[xs[m]].keys| { assert turns[m] == rest[m - 1]; }
    }
    if FirstFrom(turns, k + 1) { forall m | k <= m < |rest| ensures rest[m] == 0 { assert rest[m] == turns[m + 1]; } }
    if FirstFrom(rest, k) { forall m | k + 1 <= m < |turns| ensures turns[m] == 0 { assert turns[m] == rest[m - 1]; } }
  }

  lemma FromFirst(pages: seq<Node>, xs: seq<nat>, turns: seq<nat>)
    requires |xs| == |turns| + 1 && |turns| > 0
    ensures LastFrom(pages, xs, turns, 0) <==>
            xs[0] < |pages| && pages[xs[0]].Internal? && turns[0] == |pages[xs[0]].keys| && LastFrom(pages, xs, turns, 1)
    ensures FirstFrom(turns, 0) <==> turns[0] == 0 && FirstFrom(turns, 1)
  {
    var t := turns[0];
    if LastFrom(pages, xs, turns, 0) {
      assert t == |pages[xs[0]].keys|;
      forall m | 1 <= m < |turns| ensures xs[m] < |pages| && pages[xs[m]].Internal? && turns[m] == |pages[xs[m]].keys| {
        var u := turns[m];
      }
    }
    if xs[0] < |pages| && pages[xs[0]].Internal? && t == |pages[xs[0]].keys| && LastFrom(pages, xs, turns, 1) {
      forall m | 0 <= m < |turns| ensures xs[m] < |pages| && pages[xs[m]].Internal? && turns[m] == |pages[xs[m]].keys| {
        var u := turns[m];
      }
    }
  }

  ghost predicate UppersKept(pages: seq<Node>, high: Bound, xs: seq<nat>, turns: seq<nat>, cells: seq<Cell>)
    requires |xs| == |turns| + 1
  {
    && (forall k {:trigger UpperKept(pages, xs, turns, k, cells)} :: 0 <= k < |turns| ==> UpperKept(pages, xs, turns, k, cells))
    && (high.At? && LastFrom(pages, xs, turns, 0) ==> CellsAtMost(cells, high.key))
  }

  ghost predicate LowersKept(pages: seq<Node>, low: Bound, xs: seq<nat>, turns: seq<nat>, cells: seq<Cell>)
    requires |xs| == |turns| + 1
  {
    && (forall k {:trigger LowerKept(pages, xs, turns, k, cells)} :: 0 <= k < |turns| ==> LowerKept(pages, xs, turns, k, cells))
    && (low.At? && FirstFrom(turns, 0) ==> CellsAtLeast(cells, low.key))
  }

  lemma KeptLater(pages: seq<Node>, xs: seq<nat>, turns: seq<nat>, cells: seq<Cell>, k: nat)
    requires |xs| == |turns| + 1 && k + 1 < |turns|
    ensures UpperKept(pages, xs[1..], turns[1..], k, cells) <==> UpperKept(pages, xs, turns, k + 1, cells)
    ensures LowerKept(pages, xs[1..], turns[1..], k, cells) <==> LowerKept(pages, xs, turns, k + 1, cells)
  {
    FromLater(pages, xs, turns, k + 1);
    hide LastFrom, FirstFrom, CellsAtMost, CellsAtLeast;
  }

  lemma UppersRest(pages: seq<Node>, x: nat, high: Bound, xs: seq<nat>, turns: seq<nat>, cells: seq<Cell>)
    requires |xs| == |turns| + 1 && |turns| > 0 && xs[0] == x && Step(pages, x, turns[0], xs[1])
    ensures UppersKept(pages, high, xs, turns, cells)
       <==> UppersKept(pages, HighFor(pages[x].keys, turns[0], high), xs[1..], turns[1..], cells)
  {
    var ys, rest := xs[1..], turns[1..];
    FromLater(pages, xs, turns, 0);
    FromFirst(pages, xs, turns);
    forall k | 0 <= k < |rest| ensures UpperKept(pages, ys, rest, k, cells) <==> UpperKept(pages, xs, turns, k + 1, cells) {
      KeptLater(pages, xs, turns, cells, k);
    }
    var first := UpperKept(pages, xs, turns, 0, cells);
    assert first <==> (turns[0] < |pages[x].keys| && LastFrom(pages, ys, rest, 0) ==> CellsAtMost(cells, pages[x].keys[turns[0]]));
    hide LastFrom, CellsAtMost, UpperKept;
    if UppersKept(pages, HighFor(pages[x].keys, turns[0], high), ys, rest, cells) {
      forall k | 0 <= k < |turns| ensures UpperKept(pages, xs, turns, k, cells) {
        if k > 0 { assert UpperKept(pages, ys, rest, k - 1, cells); }
      }
    }
  }

  lemma LowersRest(pages: seq<Node>, x: nat, low: Bound, xs: seq<nat>, turns: seq<nat>, cells: seq<Cell>)
    requires |xs| == |turns| + 1 && |turns| > 0 && xs[0] == x && Step(pages, x, turns[0], xs[1])
    ensures LowersKept(pages, low, xs, turns, cells)
       <==> LowersKept(pages, LowFor(pages[x].keys, turns[0], low), xs[1..], turns[1..], cells)
  {
    var ys, rest := xs[1..], turns[1..];
    FromLater(pages, xs, turns, 0);
    FromFirst(pages, xs, turns);
    forall k | 0 <= k < |rest| ensures LowerKept(pages, ys, rest, k, cells) <==> LowerKept(pages, xs, turns, k + 1, cells) {
      KeptLater(pages, xs, turns, cells, k);
    }
    var first := LowerKept(pages, xs, turns, 0, cells);
    assert first <==> (turns[0] == |pages[x].keys| > 0 && FirstFrom(rest, 0) ==> CellsAtLeast(cells, Last(pages[x].keys)));
    hide FirstFrom, CellsAtLeast, LowerKept;
    if LowersKept(pages, LowFor(pages[x].keys, turns[0], low), ys, rest, cells) {
      forall k | 0 <= k < |turns| ensures LowerKept(pages, xs, turns, k, cells) {
        if k > 0 { assert LowerKept(pages, ys, rest, k - 1, cells); }
      }
    }
  }

  /** What is asked at the end of a way does not depend on where the way is said to begin. */
  lemma RightRest(pages: seq<Node>, x: nat, parent: nat, low: Bound, high: Bound, xs: seq<nat>, turns: seq<nat>)
    requires Way(pages, x, xs, turns) && |turns| > 0
    ensures Step(pages, x, turns[0], xs[1]) && Way(pages, xs[1], xs[1..], turns[1..])
    ensures RightBelow(pages, parent, low, high, xs, turns)
       <==> RightBelow(pages, x, LowFor(pages[x].keys, turns[0], low), HighFor(pages[x].keys, turns[0], high), xs[1..], turns[1..])
  {
    WayRest(pages, x, xs, turns);
    var cells := if pages[xs[|turns|]].Leaf? then pages[xs[|turns|]].cells else [];
    assert xs[1..][|turns[1..]|] == xs[|turns|];
    UppersRest(pages, x, high, xs, turns, cells);
    LowersRest(pages, x, low, xs, turns, cells);
    hide UpperKept, LowerKept, LastFrom, FirstFrom, CellsAtMost, CellsAtLeast, LowFor, HighFor;
  }

  lemma {:induction false} AcceptedWay(pages: seq<Node>, level: map<nat, nat>, x: nat, parent: nat, low: Bound, high: Bound,
                                       xs: seq<nat>, turns: seq<nat>)
    requires Shape(pages, level) && Wide(pages, level) && x in level && Accepts(pages, level, x, parent, low, high)
    requires Way(pages, x, xs, turns)
    ensures RightBelow(pages, parent, low, high, xs, turns)
    decreases |turns|
  {
    assert Descends(pages, level, x);
    if |turns| > 0 {
      RightRest(pages, x, parent, low, high, xs, turns);
      var i := turns[0];
      assert Accepts(pages, level, pages[x].children[i], x, LowFor(pages[x].keys, i, low), HighFor(pages[x].keys, i, high));
      hide Accepts, RightBelow, Way;
      AcceptedWay(pages, level, xs[1], x, LowFor(pages[x].keys, i, low), HighFor(pages[x].keys, i, high), xs[1..], turns[1..]);
    }
  }

  lemma NoTurns(pages: seq<Node>, x: nat)
    requires x < |pages|
    ensures Way(pages, x, [x], [])
  {
  }

  /** The ways that lead through child i. */
  lemma RightChild(pages: seq<Node>, x: nat, parent: nat, low: Bound, high: Bound, i: nat)
    requires x < |pages| && pages[x].Internal? && |pages[x].children| == |pages[x].keys| + 1 && i < |pages[x].children|
    requires AllRightBelow(pages, x, parent, low, high)
    ensures AllRightBelow(pages, pages[x].children[i], x, LowFor(pages[x].keys, i, low), HighFor(pages[x].keys, i, high))
  {
    hide RightBelow;
    forall ys, rest | Way(pages, pages[x].children[i], ys, rest)
      ensures RightBelow(pages, x, LowFor(pages[x].keys, i, low), HighFor(pages[x].keys, i, high), ys, rest)
    {
      LongerWay(pages, x, i, ys, rest);
      RightRest(pages, x, parent, low, high, [x] + ys, [i] + rest);
      assert ([x] + ys)[1..] == ys && ([i] + rest)[1..] == rest;
    }
  }

  lemma {:induction false} RightAccepted(pages: seq<Node>, level: map<nat, nat>, x: nat, parent: nat, low: Bound, high: Bound)
    requires Shape(pages, level) && Wide(pages, level) && x in level && AllRightBelow(pages, x, parent, low, high)
    ensures Accepts(pages, level, x, parent, low, high)
    decreases level[x]
  {
    assert Descends(pages, level, x);
    NoTurns(pages, x);
    assert RightBelow(pages, parent, low, high, [x], []);
    if pages[x].Internal? {
      forall i | 0 <= i < |pages[x].children|
        ensures Accepts(pages, level, pages[x].children[i], x, LowFor(pages[x].keys, i, low), HighFor(pages[x].keys, i, high))
      {
        RightChild(pages, x, parent, low, high, i);
        RightAccepted(pages, level, pages[x].children[i], x, LowFor(pages[x].keys, i, low), HighFor(pages[x].keys, i, high));
      }
    }
  }

  /** The recursion of verify_node accepts exactly the pages below which everything is right. */
  lemma AcceptsBelow(pages: seq<Node>, level: map<nat, nat>, x: nat, parent: nat, low: Bound, high: Bound)
    requires Shape(pages, level) && Wide(pages, level) && x in level
    ensures Accepts(pages, level, x, parent, low, high) <==> AllRightBelow(pages, x, parent, low, high)
  {
    hide Accepts, RightBelow, Way;
    if Accepts(pages, level, x, parent, low, high) {
      forall xs, turns | Way(pages, x, xs, turns) ensures |xs| == |turns| + 1 && xs[|turns|] < |pages| && RightBelow(pages, parent, low, high, xs, turns) {
        WayEnd(pages, x, xs, turns);
        AcceptedWay(pages, level, x, parent, low, high, xs, turns);
      }
    }
    if AllRightBelow(pages, x, parent, low, high) { RightAccepted(pages, level, x, parent, low, high); }
  }

  lemma WayEnd(pages: seq<Node>, x: nat, xs: seq<nat>, turns: seq<nat>)
    requires Way(pages, x, xs, turns)
    ensures |xs| == |turns| + 1 && xs[|turns|] < |pages|
  {
  }

  lemma AcceptsMeans(pages: seq<Node>, level: map<nat, nat>, root: nat)
    requires Shape(pages, level) && Wide(pages, level) && root in level
    ensures Accepts(pages, level, root, 0, Unbounded, Unbounded) <==> AllRight(pages, root)
  {
    AcceptsBelow(pages, level, root, 0, Unbounded, Unbounded);
    hide Accepts, PageRight;
  }

  /** No false alarms: a tree that satisfies the invariant is accepted. */
  lemma {:induction false} InvAccepts(pages: seq<Node>, g: View, t: Table, x: nat, parent: nat, low: Bound, high: Bound)
    requires Inv(pages, g, t, 0) && Shape(pages, g.level) && Wide(pages, g.level) && x in g.level
    requires x == t.root || pages[x].parent == parent
    requires low.At? ==> low.key <= g.lo[x] + 1
    requires high.At? ==> g.hi[x] <= high.key
    ensures Accepts(pages, g.level, x, parent, low, high)
    decreases g.level[x]
  {
    assert PageOk(pages, g, t, 0, x);
    assert Descends(pages, g.level, x);
    if pages[x].Internal? {
      var keys := pages[x].keys;
      assert KeysOk(pages, g, x);
      forall i | 0 <= i < |pages[x].children|
        ensures Accepts(pages, g.level, pages[x].children[i], x, LowFor(keys, i, low), HighFor(keys, i, high))
      {
        assert ChildOk(pages, g, x, i);
        InvAccepts(pages, g, t, pages[x].children[i], x, LowFor(keys, i, low), HighFor(keys, i, high));
      }
    }
  }

  /** verify_btree returns true exactly when every page that can be reached is right, and so on every tree
      that satisfies the invariant. */
  method VerifyBtree(pages: seq<Node>, t: Table, ghost level: map<nat, nat>) returns (ok: bool)
    requires Shape(pages, level) && Wide(pages, level) && t.root in level
    ensures ok <==> AllRight(pages, t.root)
    ensures forall g :: Inv(pages, g, t, 0) && g.level == level ==> ok
  {
    ok := VerifyNode(pages, t.root, 0, Unbounded, Unbounded, level);
    AcceptsMeans(pages, level, t.root);
    forall g | Inv(pages, g, t, 0) && g.level == level
      ensures Accepts(pages, level, t.root, 0, Unbounded, Unbounded)
    {
      InvAccepts(pages, g, t, t.root, 0, Unbounded, Unbounded);
    }
  }

  /** What acceptance guarantees: every leaf below an accepted page is in nondecreasing key order.
      (Bounds are weaker: the keys of an inner page are not compared with the bound handed down.) */
  lemma {:induction false} AcceptedLeaves(pages: seq<Node>, level: map<nat, nat>, x: nat, parent: nat, low: Bound, high: Bound)
    requires Shape(pages, level) && Wide(pages, level) && x in level && Accepts(pages, level, x, parent, low, high)
    ensures forall l :: l in LeavesUnder(pages, level, x) ==>
              && l in level && l < |pages| && pages[l].Leaf?
              && (forall i, j :: 0 <= i < j < |pages[l].cells| ==> pages[l].cells[i].key <= pages[l].cells[j].key)
    decreases level[x], 1, 0
  {
    assert Descends(pages, level, x);
    if pages[x].Internal? {
      assert pages[x].children[0..] == pages[x].children;
      AcceptedChildren(pages, level, x, parent, low, high, 0);
    } else {
      Nondecreasing(pages[x].cells);
    }
  }

  lemma {:induction false} Nondecreasing(cells: seq<Cell>)
    requires forall i :: 0 < i < |cells| ==> cells[i - 1].key <= cells[i].key
    ensures forall i, j :: 0 <= i < j < |cells| ==> cells[i].key <= cells[j].key
  {
    if cells != [] {
      var rest := cells[..|cells| - 1];
      Nondecreasing(rest);
      forall i, j | 0 <= i < j < |cells| ensures cells[i].key <= cells[j].key {
        if j == |cells| - 1 {
          assert rest[i].key <= Last(rest).key <= cells[j].key;
        } else {
          assert rest[i].key <= rest[j].key;
        }
      }
    }
  }

  lemma {:induction false} AcceptedChildren(pages: seq<Node>, level: map<nat, nat>, x: nat, parent: nat, low: Bound, high: Bound,
                                            i: nat)
    requires Shape(pages, level) && Wide(pages, level) && x in level && Accepts(pages, level, x, parent, low, high)
    requires x < |pages| && pages[x].Internal? && i <= |pages[x].children|
    requires forall j :: i <= j < |pages[x].children| ==> pages[x].children[j] in level && level[pages[x].children[j]] < level[x]
    ensures forall l :: l in LeavesOf(pages, level, pages[x].children[i..], level[x]) ==>
              && l in level && l < |pages| && pages[l].Leaf?
              && (forall a, b :: 0 <= a < b < |pages[l].cells| ==> pages[l].cells[a].key <= pages[l].cells[b].key)
    decreases level[x], 0, |pages[x].children| - i
  {
    assert Descends(pages, level, x);
    var cs := pages[x].children;
    if i < |cs| {
      AcceptedLeaves(pages, level, cs[i], x, LowFor(pages[x].keys, i, low), HighFor(pages[x].keys, i, high));
      AcceptedChildren(pages, level, x, parent, low, high, i + 1);
      assert cs[i..][1..] == cs[i + 1..];
    }
  }
}
