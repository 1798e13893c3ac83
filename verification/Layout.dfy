/** The contents of a page as the B+-tree sees it, and the constants that bound it
    (include/common.h). Typed node fields stand for the byte offsets of the C accessors. */
module Layout {

  const MAX_KEY: int := 0xFFFF_FFFF
  const INTERNAL_NODE_MAX_KEYS: nat := 510
  const PAGE_SIZE: nat := 4096
  const LEAF_NODE_HEADER_SIZE: nat := 14
  const KEY_SIZE: nat := 4

  /** A uint32_t key. */
  type Key = k: int | 0 <= k <= 0xFFFF_FFFF

  type Byte = b: int | 0 <= b < 256

  type Row = seq<Byte>

  datatype Cell = Cell(key: Key, row: Row)

  /** `children` lists the children from left to right: the child of every (child, key)
      cell, then the separate right-child slot. */
  datatype Node =
    | Leaf(isRoot: bool, parent: nat, next: nat, cells: seq<Cell>)
    | Internal(isRoot: bool, parent: nat, keys: seq<Key>, children: seq<nat>)

  function WithParent(x: Node, p: nat): (r: Node)
    ensures r.parent == p && r.isRoot == x.isRoot && r.Leaf? == x.Leaf?
    ensures x.Leaf? ==> r.next == x.next && r.cells == x.cells
    ensures x.Internal? ==> r.keys == x.keys && r.children == x.children
  {
    x.(parent := p)
  }

  /** A copy of root x that is to become a child of page p. */
  function CopiedTo(x: Node, p: nat): (r: Node)
    ensures r.parent == p && !r.isRoot && r.Leaf? == x.Leaf?
    ensures x.Leaf? ==> r.next == x.next && r.cells == x.cells
    ensures x.Internal? ==> r.keys == x.keys && r.children == x.children
  {
    x.(isRoot := false, parent := p)
  }

  ghost predicate SortedKeys(ks: seq<Key>) {
    forall i, j :: 0 <= i < j < |ks| ==> ks[i] < ks[j]
  }

  ghost predicate SortedCells(cs: seq<Cell>) {
    forall i, j :: 0 <= i < j < |cs| ==> cs[i].key < cs[j].key
  }

  /** `idx` is where a binary search for the first key >= k must stop. */
  ghost predicate IsLowerBound(ks: seq<Key>, k: Key, idx: nat) {
    && idx <= |ks|
    && (forall j :: 0 <= j < idx ==> ks[j] < k)
    && (forall j :: idx <= j < |ks| ==> k <= ks[j])
  }

  ghost predicate IsCellLowerBound(cs: seq<Cell>, k: Key, idx: nat) {
    && idx <= |cs|
    && (forall j :: 0 <= j < idx ==> cs[j].key < k)
    && (forall j :: idx <= j < |cs| ==> k <= cs[j].key)
  }

  function Elems(s: seq<nat>): set<nat> { set x | x in s }

  /** Where x stands in a list, or behind its end. */
  function IndexIn(s: seq<nat>, x: nat): (i: nat)
    ensures i <= |s| && x !in s[..i] && (i < |s| ==> s[i] == x)
  {
    if s == [] || s[0] == x then 0
    else
      var i := IndexIn(s[1..], x);
      assert s[..i + 1] == [s[0]] + s[1..][..i];
      i + 1
  }

  function LeafNodeCellSize(rowSize: nat): nat { KEY_SIZE + rowSize }

  function LeafNodeMaxCells(rowSize: nat): nat {
    (PAGE_SIZE - LEAF_NODE_HEADER_SIZE) / LeafNodeCellSize(rowSize)
  }
}
