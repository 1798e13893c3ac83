/** The insert path of src/btree.c as it is written, on the layout it is written for, and exactly
    when it does what Btree proves of the repaired code. */
module AsWritten {
  import opened Layout
  import opened Tree
  import opened TreeSteps
  import opened TreeContents
  import opened TreeLeafUp
  import opened TreeCascade
  import opened TreeInsert
  import Balance
  import TablesOnPages
  import TreeUp

  /** An internal page: 510 (child, key) cells, of which the first numKeys are in use, and the
      right child in a slot of its own. */
  datatype Raw = Raw(numKeys: nat, rightChild: nat, child: seq<nat>, key: seq<Key>)

  /** The node a page stands for; cells behind numKeys do not matter to it. */
  function Decode(r: Raw, isRoot: bool, parent: nat): (x: Node)
    requires r.numKeys <= |r.child| && r.numKeys <= |r.key|
    ensures x.Internal? && |x.children| == |x.keys| + 1
  {
    Internal(isRoot, parent, r.key[..r.numKeys], r.child[..r.numKeys] + [r.rightChild])
  }

  /** The elements from index up to n - 1 one place further on, over element n. */
  function MovedUp<T>(s: seq<T>, index: nat, n: nat): (r: seq<T>)
    requires index <= n < |s|
    ensures |r| == |s|
  {
    if index < n then s[..index + 1] + s[index..n] + s[n + 1..] else s
  }

  lemma MovedThenSet<T>(s: seq<T>, index: nat, n: nat, x: T)
    requires index <= n < |s|
    ensures index < n ==> MovedUp(s, index, n)[index := x] == s[..index] + [x] + s[index..n] + s[n + 1..]
    ensures index == n ==> MovedUp(s, index, n) == s
  {
  }

  /** What internal_node_insert leaves in the page. */
  function Written(r: Raw, c: nat, childMax: Key, rightMax: Key, index: nat): Raw
    requires r.numKeys < |r.child| == |r.key| && index <= r.numKeys
  {
    var n := r.numKeys;
    if childMax > rightMax then Raw(n + 1, c, r.child, r.key[n := rightMax])
    else if index == n then Raw(n + 1, c, r.child, r.key[n := childMax])
    else Raw(n + 1, r.rightChild, r.child[..index] + [c] + r.child[index..n] + r.child[n + 1..], r.key[index := childMax])
  }

  class InternalPage {
    var numKeys: nat
    var rightChild: nat
    const child: array<nat>
    const key: array<Key>

    constructor ()
      ensures Valid() && numKeys == 0 && fresh(child) && fresh(key)
    {
      numKeys, rightChild := 0, 0;
      child := new nat[INTERNAL_NODE_MAX_KEYS](_ => 0);
      key := new Key[INTERNAL_NODE_MAX_KEYS](_ => 0);
    }

    ghost predicate Valid()
      reads this
    {
      child.Length == key.Length == INTERNAL_NODE_MAX_KEYS && numKeys <= INTERNAL_NODE_MAX_KEYS
    }

    ghost function Snapshot(): Raw
      reads this, child, key
    {
      Raw(numKeys, rightChild, child[..], key[..])
    }

    /** A write through internal_node_child: the child behind the last key is the right child. */
    method SetChild(i: nat, pg: nat)
      requires Valid() && i <= numKeys
      modifies this`rightChild, child
      ensures rightChild == if i == numKeys then pg else old(rightChild)
      ensures child[..] == if i == numKeys then old(child[..]) else old(child[..])[i := pg]
    {
      if i == numKeys { rightChild := pg; } else { child[i] := pg; }
    }

    /** internal_node_insert as written. */
    method InsertAsWritten(c: nat, childMax: Key, rightMax: Key, index: nat)
      requires Valid() && numKeys < INTERNAL_NODE_MAX_KEYS && index <= numKeys
      modifies this, child, key
      ensures Valid() && Snapshot() == Written(old(Snapshot()), c, childMax, rightMax, index)
    {
      var n := numKeys;
      if childMax > rightMax {
        SetChild(n, rightChild);
        key[n] := rightMax;
        rightChild := c;
      } else {
        MovedThenSet(child[..], index, n, c);
        hide MovedUp;
        ShiftChildren(index);
        SetChild(index, c);
        key[index] := childMax;
      }
      numKeys := n + 1;
    }

    /** The shift as written moves the child words only. */
    method ShiftChildren(index: nat)
      requires Valid() && numKeys < INTERNAL_NODE_MAX_KEYS && index <= numKeys
      modifies child
      ensures child[..] == MovedUp(old(child[..]), index, numKeys)
    {
      ghost var was := child[..];
      var i := numKeys;
      while i > index
        invariant index <= i <= numKeys
        invariant forall j {:trigger child[j]} :: 0 <= j <= i || numKeys < j < child.Length ==> child[j] == was[j]
        invariant forall j {:trigger child[j]} :: i < j <= numKeys ==> child[j] == was[j - 1]
      {
        child[i] := child[i - 1];
        i := i - 1;
      }
      ghost var want := MovedUp(was, index, numKeys);
      assert forall j {:trigger child[j]} :: 0 <= j < child.Length ==> child[j] == want[j];
    }

    /** internal_node_insert as intended: the old right child gets a cell of its own, and the shift
        moves whole cells. */
    method InsertRepaired(c: nat, childMax: Key, rightMax: Key, index: nat)
      requires Valid() && numKeys < INTERNAL_NODE_MAX_KEYS && index <= numKeys
      modifies this, child, key
      ensures Valid()
      ensures forall isRoot, parent :: Decode(Snapshot(), isRoot, parent)
                                    == Inserted(old(Decode(Snapshot(), isRoot, parent)), c, childMax, rightMax, index)
    {
      var n := numKeys;
      ghost var was := Snapshot();
      if childMax > rightMax {
        child[n], key[n] := rightChild, rightMax;
        rightChild := c;
      } else {
        ShiftCells(index);
        child[index], key[index] := c, childMax;
      }
      numKeys := n + 1;
      MadeRoom(was, Snapshot(), c, childMax, rightMax, index);
    }

    /** The cells from index on move up by one. */
    method ShiftCells(index: nat)
      requires Valid() && numKeys < INTERNAL_NODE_MAX_KEYS && index <= numKeys
      modifies child, key
      ensures child[..] == MovedUp(old(child[..]), index, numKeys) && key[..] == MovedUp(old(key[..]), index, numKeys)
    {
      var n := numKeys;
      ghost var wasChild, wasKey := child[..], key[..];
      var i := n;
      while i > index
        invariant index <= i <= n
        invariant forall j {:trigger child[j]} :: 0 <= j <= i || n < j < child.Length ==> child[j] == wasChild[j]
        invariant forall j {:trigger key[j]} :: 0 <= j <= i || n < j < key.Length ==> key[j] == wasKey[j]
        invariant forall j {:trigger child[j]} :: i < j <= n ==> child[j] == wasChild[j - 1]
        invariant forall j {:trigger key[j]} :: i < j <= n ==> key[j] == wasKey[j - 1]
        modifies child, key
      {
        child[i], key[i] := child[i - 1], key[i - 1];
        i := i - 1;
      }
      ghost var children, keys := MovedUp(wasChild, index, n), MovedUp(wasKey, index, n);
      assert forall j {:trigger child[j]} :: 0 <= j < child.Length ==> child[j] == children[j];
      assert forall j {:trigger key[j]} :: 0 <= j < key.Length ==> key[j] == keys[j];
    }
  }

  /** Cells in their places make the intended node. */
  lemma MadeRoom(r: Raw, r': Raw, c: nat, childMax: Key, rightMax: Key, index: nat)
    requires r.numKeys < |r.child| == |r.key| == |r'.child| == |r'.key| && index <= r.numKeys && r'.numKeys == r.numKeys + 1
    requires if childMax > rightMax then
               && r'.child == r.child[r.numKeys := r.rightChild] && r'.key == r.key[r.numKeys := rightMax]
               && r'.rightChild == c
             else
               && r'.child == MovedUp(r.child, index, r.numKeys)[index := c]
               && r'.key == MovedUp(r.key, index, r.numKeys)[index := childMax] && r'.rightChild == r.rightChild
    ensures forall isRoot, parent :: Decode(r', isRoot, parent) == Inserted(Decode(r, isRoot, parent), c, childMax, rightMax, index)
  {
    var n := r.numKeys;
    var keys, children := r.key[..n], r.child[..n] + [r.rightChild];
    if childMax > rightMax {
      assert r'.key[..n + 1] == keys + [rightMax];
      assert r'.child[..n + 1] + [c] == children + [c];
    } else {
      assert r'.key[..n + 1] == keys[..index] + [childMax] + keys[index..];
      assert r'.child[..n + 1] + [r.rightChild] == children[..index] + [c] + children[index..];
    }
  }

  /** When the page as written is the page as intended: only if the bytes behind the last cell
      happen to hold what the code fails to write. */
  ghost predicate Lucky(r: Raw, c: nat, childMax: Key, rightMax: Key, index: nat)
    requires r.numKeys < |r.child| == |r.key| && index <= r.numKeys
  {
    var n := r.numKeys;
    if childMax > rightMax then r.child[n] == r.rightChild
    else if index == n then r.child[n] == c == r.rightChild
    else forall j :: index < j <= n ==> r.key[j] == r.key[j - 1]
  }

  lemma AsWrittenIsIntended(r: Raw, c: nat, childMax: Key, rightMax: Key, index: nat, isRoot: bool, parent: nat)
    requires r.numKeys < |r.child| == |r.key| && index <= r.numKeys
    ensures Decode(Written(r, c, childMax, rightMax, index), isRoot, parent)
         == Inserted(Decode(r, isRoot, parent), c, childMax, rightMax, index)
        <==> Lucky(r, c, childMax, rightMax, index)
  {
    if childMax > rightMax || index == r.numKeys {
      IntendedAtEnd(r, c, childMax, rightMax, index, isRoot, parent);
    } else {
      IntendedInside(r, c, childMax, rightMax, index, isRoot, parent);
    }
  }

  lemma IntendedAtEnd(r: Raw, c: nat, childMax: Key, rightMax: Key, index: nat, isRoot: bool, parent: nat)
    requires r.numKeys < |r.child| == |r.key| && index <= r.numKeys && (childMax > rightMax || index == r.numKeys)
    ensures Decode(Written(r, c, childMax, rightMax, index), isRoot, parent)
         == Inserted(Decode(r, isRoot, parent), c, childMax, rightMax, index)
        <==> Lucky(r, c, childMax, rightMax, index)
  {
    var n := r.numKeys;
    var got, want := Decode(Written(r, c, childMax, rightMax, index), isRoot, parent),
                     Inserted(Decode(r, isRoot, parent), c, childMax, rightMax, index);
    assert got.keys == want.keys;
    assert got.children == r.child[..n] + [r.child[n], c];
    assert want.children == r.child[..n] + if childMax > rightMax then [r.rightChild, c] else [c, r.rightChild];
    assert got.children[n] == r.child[n] && got.children[n + 1] == c;
    assert want.children[n] == (if childMax > rightMax then r.rightChild else c);
    assert want.children[n + 1] == (if childMax > rightMax then c else r.rightChild);
  }

  lemma IntendedInside(r: Raw, c: nat, childMax: Key, rightMax: Key, index: nat, isRoot: bool, parent: nat)
    requires r.numKeys < |r.child| == |r.key| && index < r.numKeys && childMax <= rightMax
    ensures Decode(Written(r, c, childMax, rightMax, index), isRoot, parent)
         == Inserted(Decode(r, isRoot, parent), c, childMax, rightMax, index)
        <==> Lucky(r, c, childMax, rightMax, index)
  {
    var n := r.numKeys;
    var got, want := Decode(Written(r, c, childMax, rightMax, index), isRoot, parent),
                     Inserted(Decode(r, isRoot, parent), c, childMax, rightMax, index);
    assert got.children == want.children;
    forall j | 0 <= j <= n
      ensures got.keys[j] == (if j == index then childMax else r.key[j])
      ensures want.keys[j] == (if j < index then r.key[j] else if j == index then childMax else r.key[j - 1])
    {
    }
    if Lucky(r, c, childMax, rightMax, index) { assert got.keys == want.keys; }
  }

  /** In a page in order this leaves next to nothing: a new right child whose predecessor's page
      number already stands in the unused cell, or a child just before the last key when the
      unused cell repeats that key. A child at index num_keys is always lost. */
  lemma LuckyInOrder(r: Raw, c: nat, childMax: Key, rightMax: Key, index: nat)
    requires r.numKeys < |r.child| == |r.key| && index <= r.numKeys && SortedKeys(r.key[..r.numKeys]) && c != r.rightChild
    ensures Lucky(r, c, childMax, rightMax, index) <==>
            if childMax > rightMax then r.child[r.numKeys] == r.rightChild
            else index + 1 == r.numKeys && r.key[r.numKeys] == r.key[r.numKeys - 1]
  {
    var n := r.numKeys;
    if childMax <= rightMax && index + 1 < n {
      assert r.key[..n][n - 2] < r.key[..n][n - 1];
    }
  }

  /** A page whose unused cells are zero, as a fresh one is. */
  function Fresh(children: seq<nat>, keys: seq<Key>, rightChild: nat): (r: Raw)
    requires |children| == |keys| <= INTERNAL_NODE_MAX_KEYS
    ensures r.numKeys == |keys| && |r.child| == |r.key| == INTERNAL_NODE_MAX_KEYS
  {
    var unused := INTERNAL_NODE_MAX_KEYS - |keys|;
    Raw(|keys|, rightChild, children + seq(unused, _ => 0), keys + seq(unused, _ => 0))
  }

  /** No tree contains page x with this content. */
  ghost predicate Impossible(node: Node) {
    forall pages: seq<Node>, g: View, t: Table, over: nat, x: nat ::
      x in g.level && x < |pages| && pages[x] == node ==> !Inv(pages, g, t, over)
  }

  lemma NodeInTree(pages: seq<Node>, g: View, t: Table, over: nat, x: nat)
    requires Inv(pages, g, t, over) && x in g.level && pages[x].Internal?
    ensures SortedKeys(pages[x].keys) && 0 !in pages[x].children
  {
    assert PageOk(pages, g, t, over, x) && KeysOk(pages, g, x);
    forall i | 0 <= i < |pages[x].children| ensures pages[x].children[i] != 0 { assert ChildOk(pages, g, x, i); }
  }

  lemma ImpossibleNode(node: Node)
    requires node.Internal? && (0 in node.children || !SortedKeys(node.keys))
    ensures Impossible(node)
  {
    forall pages: seq<Node>, g: View, t: Table, over: nat, x: nat | x in g.level && x < |pages| && pages[x] == node
      ensures !Inv(pages, g, t, over)
    {
      if Inv(pages, g, t, over) { NodeInTree(pages, g, t, over, x); }
    }
  }

  /** The page an insert finds, and the one it leaves, both as nodes of the tree. */
  ghost predicate Turns(r: Raw, c: nat, childMax: Key, rightMax: Key, index: nat, node: Node)
    requires r.numKeys < |r.child| == |r.key| && index <= r.numKeys
  {
    Decode(Written(r, c, childMax, rightMax, index), true, 0) == node
  }

  /** A fresh page in order for which the code goes wrong in each of the three ways: behind the last
      key and in the last place a page number is lost, further left a key is. What is left can be in
      no tree. */
  lemma AsWrittenGoesWrong()
    ensures var r := Fresh([5, 6], [10, 20], 7);
            && Decode(r, true, 0) == Internal(true, 0, [10, 20], [5, 6, 7])
            && Turns(r, 8, 40, 30, 2, Internal(true, 0, [10, 20, 30], [5, 6, 0, 8]))
            && Turns(r, 8, 25, 30, 2, Internal(true, 0, [10, 20, 25], [5, 6, 0, 8]))
            && Turns(r, 8, 5, 30, 0, Internal(true, 0, [5, 20, 0], [8, 5, 6, 7]))
    ensures Impossible(Internal(true, 0, [10, 20, 30], [5, 6, 0, 8]))
         && Impossible(Internal(true, 0, [10, 20, 25], [5, 6, 0, 8])) && Impossible(Internal(true, 0, [5, 20, 0], [8, 5, 6, 7]))
  {
    var r := Fresh([5, 6], [10, 20], 7);
    assert r.child[..2] == [5, 6] && r.key[..2] == [10, 20] && r.child[2] == 0 && r.key[2] == 0;
    FreshWritten(r);
    hide Decode, Written, Fresh, Impossible;
    ImpossibleNode(Internal(true, 0, [10, 20, 30], [5, 6, 0, 8]));
    ImpossibleNode(Internal(true, 0, [10, 20, 25], [5, 6, 0, 8]));
    var keys: seq<Key> := [5, 20, 0];
    assert keys[1] > keys[2];
    ImpossibleNode(Internal(true, 0, keys, [8, 5, 6, 7]));
  }

  lemma FreshWritten(r: Raw)
    requires r.numKeys == 2 && r.rightChild == 7 && |r.child| == |r.key| == INTERNAL_NODE_MAX_KEYS
    requires r.child[..2] == [5, 6] && r.key[..2] == [10, 20] && r.child[2] == 0 && r.key[2] == 0
    ensures Turns(r, 8, 40, 30, 2, Internal(true, 0, [10, 20, 30], [5, 6, 0, 8]))
    ensures Turns(r, 8, 25, 30, 2, Internal(true, 0, [10, 20, 25], [5, 6, 0, 8]))
    ensures Turns(r, 8, 5, 30, 0, Internal(true, 0, [5, 20, 0], [8, 5, 6, 7]))
  {
    assert r.child[..3] == r.child[..2] + [r.child[2]] && r.key[..3] == r.key[..2] + [r.key[2]];
    var w1, w2, w3 := Written(r, 8, 40, 30, 2), Written(r, 8, 25, 30, 2), Written(r, 8, 5, 30, 0);
    assert w1.key[..3] == [10, 20, 30] && w1.child[..3] == [5, 6, 0];
    assert w2.key[..3] == [10, 20, 25] && w2.child[..3] == [5, 6, 0];
    assert r.child[..2][0] == r.child[0] && r.child[..2][1] == r.child[1] && r.key[..2][1] == r.key[1];
    assert w3.key[..3] == [5, 20, 0] && w3.child[..3] == [8, 5, 6];
  }

  /** create_new_root as written: the children of the old root are not told about the copy. */
  ghost predicate RootAsWritten(pages: seq<Node>, pages': seq<Node>, root: nat, n: nat, m: Key) {
    var left := |pages|;
    && root < left && n < left && n != root && |pages'| == left + 1
    && pages'[left] == CopiedTo(pages[root], root)
    && pages'[root] == Internal(true, 0, [m], [left, n])
    && pages'[n] == WithParent(pages[n], root)
    && (forall y :: 0 <= y < left && y != root && y != n ==> pages'[y] == pages[y])
  }

  lemma FirstGrandchild(pages: seq<Node>, g: View, t: Table, over: nat)
    requires Inv(pages, g, t, over) && t.root < |pages| && pages[t.root].Internal?
    ensures |pages[t.root].children| > 0
    ensures var x := pages[t.root].children[0];
            x < |pages| && (pages[x].Internal? ==>
              |pages[x].children| > 0 && pages[x].children[0] < |pages| && pages[pages[x].children[0]].parent == x)
  {
    assert PageOk(pages, g, t, over, t.root) && ChildOk(pages, g, t.root, 0);
    var x := pages[t.root].children[0];
    assert PageOk(pages, g, t, over, x);
    if pages[x].Internal? { assert ChildOk(pages, g, x, 0); }
  }

  /** The split of a root leaf ends as intended: there are no children to tell. */
  lemma LeafRootAsWritten(before: seq<Node>, g: View, t: Table, i: nat, c: Cell, cut: seq<Node>, n: nat, after: seq<Node>)
    returns (g': View)
    requires LeafCut(before, g, t, t.root, i, c, cut, n)
    requires RootAsWritten(cut, after, t.root, n, WithCell(before[t.root].cells, i, c)[SplitAt(t) - 1].key)
    ensures TreeInserted(before, g, after, g', t, c)
  {
    g' := RootLeafInserted(before, g, t, i, c, cut, n, after);
  }

  /** The halves of an internal root, whose pages v held the new child and whose upper half moved to
      page n, below the new root that the code as written makes: never a tree, whatever view one
      takes of the store and whatever separator was written. */
  lemma InternalRootAsWritten(v: seq<Node>, g: View, t: Table, q: nat, cut: seq<Node>, n: nat, after: seq<Node>, m: Key)
    requires TreeUp.WasCut(v, g, t, t.root, q, cut, n) && RootAsWritten(cut, after, t.root, n, m)
    ensures forall g', over :: !Inv(after, g', t, over)
  {
    var left := |cut|;
    var c := v[t.root].children[0];
    assert PageOk(v, g, t, t.root, t.root) && ChildOk(v, g, t.root, 0);
    assert cut[t.root].children[0] == c;
    assert after[left].children[0] == c;
    assert after[c].parent != left by {
      if c in v[t.root].children[q..] { assert c < |v|; }
    }
    forall g', over | Inv(after, g', t, over) ensures false {
      FirstGrandchild(after, g', t, over);
    }
  }

  /** Where the separator written without the guard of the leaf split lands. */
  const CELLS_AT: nat := 14
  const CELL_SIZE: nat := 8

  function KeyOffset(idx: nat): nat { CELLS_AT + idx * CELL_SIZE + 4 }

  /** In a page that can hold 510 keys, the key of cell idx fits the page unless idx is 510, which
      is what the search returns for the rightmost child of a full parent. */
  lemma SeparatorInPage(keys: seq<Key>, oldMax: Key, idx: nat)
    requires |keys| <= INTERNAL_NODE_MAX_KEYS && SortedKeys(keys) && IsLowerBound(keys, oldMax, idx)
    ensures KeyOffset(idx) + 4 <= PAGE_SIZE <==>
            !(|keys| == INTERNAL_NODE_MAX_KEYS && forall j :: 0 <= j < |keys| ==> keys[j] < oldMax)
  {
    if idx < |keys| { assert !(keys[idx] < oldMax); }
  }

  /** Up to this size no leaf below the root is full in a table that no DELETE has touched, so an
      insert writes no internal page but a new root. */
  lemma NoCascadeBelow(pages: seq<Node>, g: View, t: Table, page: nat)
    requires Inv(pages, g, t, 0) && MinKeys(pages, g, t) && MinCells(pages, g, t)
    requires |Contents(pages, g.order)| < t.cap + SplitAt(t)
    requires page in g.level && pages[page].Leaf? && page != t.root
    ensures |pages[page].cells| < t.cap
  {
    var j := LeafPlace(pages, g, t, 0, page);
    ContentsSplit(pages, g.order, j);
    var a, b := g.order[..j], g.order[j + 1..];
    TablesOnPages.TwoLeaves(pages, g, t, page);
    assert PageOk(pages, g, t, 0, t.root);
    forall i | 0 <= i < |g.order| ensures |CellsAt(pages, g.order[i])| >= SplitAt(t) {
      assert g.order[i] in g.level;
    }
    Balance.ManyCells(pages, a, SplitAt(t));
    Balance.ManyCells(pages, b, SplitAt(t));
    assert |a| + |b| >= 1;
  }
}
