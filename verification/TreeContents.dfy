/** The cells of a tree in chain order, and what edits of one leaf do to them. */
module TreeContents {
  import opened Layout
  import opened Tree

  ghost function CellsAt(pages: seq<Node>, x: nat): seq<Cell> {
    if x < |pages| && pages[x].Leaf? then pages[x].cells else []
  }

  /** All cells of the leaves `order`, left to right. */
  ghost function Contents(pages: seq<Node>, order: seq<nat>): seq<Cell> {
    if order == [] then [] else CellsAt(pages, order[0]) + Contents(pages, order[1..])
  }

  lemma AppendTail<T>(a: seq<T>, b: seq<T>)
    requires a != []
    ensures (a + b)[1..] == a[1..] + b && (a + b)[0] == a[0]
  {
  }

  lemma Regrouped<T>(x: seq<T>, y: seq<T>, z: seq<T>)
    ensures x + (y + z) == x + y + z
  {
  }

  lemma {:induction false} ContentsAppend(pages: seq<Node>, a: seq<nat>, b: seq<nat>)
    ensures Contents(pages, a + b) == Contents(pages, a) + Contents(pages, b)
  {
    if a == [] {
      assert a + b == b;
    } else {
      ContentsAppend(pages, a[1..], b);
      AppendTail(a, b);
      var x, y, z := CellsAt(pages, a[0]), Contents(pages, a[1..]), Contents(pages, b);
      assert Contents(pages, a + b) == x + (y + z);
      assert Contents(pages, a) == x + y;
      hide Contents, CellsAt;
      Regrouped(x, y, z);
    }
  }

  lemma {:induction false} ContentsFrame(pages: seq<Node>, pages': seq<Node>, order: seq<nat>)
    requires forall i :: 0 <= i < |order| ==> CellsAt(pages', order[i]) == CellsAt(pages, order[i])
    ensures Contents(pages', order) == Contents(pages, order)
  {
    if order != [] { 
      assert CellsAt(pages', order[0]) == CellsAt(pages, order[0]);
      ContentsFrame(pages, pages', order[1..]);
    }
  }

  lemma ContentsSplit(pages: seq<Node>, order: seq<nat>, j: nat)
    requires j < |order|
    ensures Contents(pages, order)
         == Contents(pages, order[..j]) + CellsAt(pages, order[j]) + Contents(pages, order[j + 1..])
  {
    assert order == order[..j] + ([order[j]] + order[j + 1..]);
    ContentsAppend(pages, order[..j], [order[j]] + order[j + 1..]);
    assert ([order[j]] + order[j + 1..])[1..] == order[j + 1..];
  }

  /** Leaf j is replaced by the leaves `mid`; the other leaves keep their cells. */
  lemma ContentsReplace(pages: seq<Node>, pages': seq<Node>, order: seq<nat>, j: nat, mid: seq<nat>)
    requires j < |order|
    requires forall i :: 0 <= i < |order| && i != j ==> CellsAt(pages', order[i]) == CellsAt(pages, order[i])
    ensures Contents(pages', order[..j] + mid + order[j + 1..])
         == Contents(pages, order[..j]) + Contents(pages', mid) + Contents(pages, order[j + 1..])
  {
    ContentsFrame(pages, pages', order[..j]);
    ContentsFrame(pages, pages', order[j + 1..]);
    ContentsAppend(pages', order[..j] + mid, order[j + 1..]);
    ContentsAppend(pages', order[..j], mid);
  }

  /** Where the cells of the chain lie: everything in order[..j] is at most hi, and so on. */
  lemma {:induction false} ContentsBelow(pages: seq<Node>, g: View, t: Table, j: nat)
    requires Inv(pages, g, t, 0) && j < |g.order|
    ensures SortedCells(Contents(pages, g.order[..j]))
    ensures forall c :: c in Contents(pages, g.order[..j]) ==> c.key <= g.lo[g.order[j]]
  {
    if j == 0 {
    } else {
      ContentsBelow(pages, g, t, j - 1);
      assert PageOk(pages, g, t, 0, g.order[j - 1]);
      assert g.order[..j] == g.order[..j - 1] + [g.order[j - 1]];
      ContentsAppend(pages, g.order[..j - 1], [g.order[j - 1]]);
      assert Contents(pages, [g.order[j - 1]]) == CellsAt(pages, g.order[j - 1]);
      var a, b := Contents(pages, g.order[..j - 1]), CellsAt(pages, g.order[j - 1]);
      forall x, y | 0 <= x < y < |a + b| ensures Contents(pages, g.order[..j])[x].key < Contents(pages, g.order[..j])[y].key {
        if x < |a| { assert a[x] in a; }
      }
      forall c | c in Contents(pages, g.order[..j]) ensures c.key <= g.lo[g.order[j]] {
        if c in a {} else { assert c in b; }
      }
    }
  }

  /** The chain lists every cell of the tree once, in ascending key order. */
  lemma ContentsSorted(pages: seq<Node>, g: View, t: Table)
    requires Inv(pages, g, t, 0)
    ensures SortedCells(Contents(pages, g.order))
  {
    var j := |g.order| - 1;
    ContentsBelow(pages, g, t, j);
    assert PageOk(pages, g, t, 0, g.order[j]);
    ContentsSplit(pages, g.order, j);
    var a, b := Contents(pages, g.order[..j]), CellsAt(pages, g.order[j]);
    assert g.order[j + 1..] == [];
    assert Contents(pages, g.order) == a + b;
    forall x, y | 0 <= x < y < |a + b| ensures Contents(pages, g.order)[x].key < Contents(pages, g.order)[y].key {
      if x < |a| { assert a[x] in a; }
    }
  }

  lemma {:induction false} ContentsAbove(pages: seq<Node>, g: View, t: Table, j: nat)
    requires Inv(pages, g, t, 0) && j < |g.order|
    ensures forall c :: c in Contents(pages, g.order[j + 1..]) ==> g.hi[g.order[j]] < c.key
    decreases |g.order| - j
  {
    if j + 1 < |g.order| {
      ContentsAbove(pages, g, t, j + 1);
      assert PageOk(pages, g, t, 0, g.order[j + 1]);
      var rest := g.order[j + 1..];
      assert rest[1..] == g.order[j + 2..];
      assert Contents(pages, rest) == CellsAt(pages, rest[0]) + Contents(pages, rest[1..]);
    }
  }

  /** A cursor for a key, as find_node returns it. */
  ghost predicate Found(pages: seq<Node>, g: View, page: nat, cell: nat, key: Key) {
    && page in g.level && page in g.lo && page in g.hi && page < |pages| && pages[page].Leaf?
    && g.lo[page] < key <= g.hi[page] && IsCellLowerBound(pages[page].cells, key, cell)
  }

  lemma {:induction false} LowerBound(cells: seq<Cell>, key: Key) returns (i: nat)
    requires SortedCells(cells)
    ensures IsCellLowerBound(cells, key, i)
  {
    i := 0;
    while i < |cells| && cells[i].key < key
      invariant i <= |cells| && forall j :: 0 <= j < i ==> cells[j].key < key
    {
      i := i + 1;
    }
  }

  /** Every key has a cursor. */
  lemma SomeFound(pages: seq<Node>, g: View, t: Table, key: Key) returns (page: nat, cell: nat)
    requires Inv(pages, g, t, 0)
    ensures Found(pages, g, page, cell, key)
  {
    var j := 0;
    while g.hi[g.order[j]] < key
      invariant j < |g.order| && g.lo[g.order[j]] < key
      decreases |g.order| - j
    {
      j := j + 1;
    }
    page := g.order[j];
    assert PageOk(pages, g, t, 0, page);
    cell := LowerBound(pages[page].cells, key);
  }

  /** The position in the chain of cell i of leaf j. */
  ghost function Position(pages: seq<Node>, order: seq<nat>, j: nat, i: nat): nat
    requires j < |order|
  {
    |Contents(pages, order[..j])| + i
  }

  lemma LowerBoundOfThree(a: seq<Cell>, b: seq<Cell>, c: seq<Cell>, key: Key, i: nat)
    requires forall x :: x in a ==> x.key < key
    requires forall x :: x in c ==> key < x.key
    requires IsCellLowerBound(b, key, i)
    ensures IsCellLowerBound(a + b + c, key, |a| + i)
  {
    var all := a + b + c;
    forall x | 0 <= x < |a| + i ensures all[x].key < key {
      if x < |a| { assert a[x] in a; }
    }
    forall x | |a| + i <= x < |all| ensures key <= all[x].key {
      if x >= |a| + |b| { assert all[x] == c[x - |a| - |b|]; assert c[x - |a| - |b|] in c; }
    }
  }

  lemma FoundInThree(a: seq<Cell>, b: seq<Cell>, c: seq<Cell>, key: Key, i: nat)
    requires forall x :: x in a ==> x.key < key
    requires forall x :: x in c ==> key < x.key
    requires IsCellLowerBound(b, key, i) && SortedCells(b)
    ensures (exists x :: x in a + b + c && x.key == key) <==> i < |b| && b[i].key == key
  {
    if i < |b| && b[i].key == key {
      assert (a + b + c)[|a| + i] == b[i];
    }
    if x :| x in a + b + c && x.key == key {
      assert x in b;
      var y :| 0 <= y < |b| && b[y] == x;
    }
  }

  /** In the leaf whose interval contains the key, the place found by binary search is the lower
      bound of the key in the whole chain, and the key is present iff it sits there. */
  lemma GlobalLowerBound(pages: seq<Node>, g: View, t: Table, j: nat, i: nat, key: Key)
    requires Inv(pages, g, t, 0) && j < |g.order|
    requires g.lo[g.order[j]] < key <= g.hi[g.order[j]]
    requires IsCellLowerBound(CellsAt(pages, g.order[j]), key, i)
    ensures IsCellLowerBound(Contents(pages, g.order), key, Position(pages, g.order, j, i))
    ensures (exists x :: x in Contents(pages, g.order) && x.key == key) <==>
            i < |CellsAt(pages, g.order[j])| && CellsAt(pages, g.order[j])[i].key == key
  {
    ContentsBelow(pages, g, t, j);
    ContentsAbove(pages, g, t, j);
    ContentsSplit(pages, g.order, j);
    assert PageOk(pages, g, t, 0, g.order[j]);
    var a, b, c := Contents(pages, g.order[..j]), CellsAt(pages, g.order[j]), Contents(pages, g.order[j + 1..]);
    LowerBoundOfThree(a, b, c, key, i);
    FoundInThree(a, b, c, key, i);
  }
}
