/** The split of a full internal page. The code halves the page first and then inserts the new
    child into one half; this module shows that the outcome is the page that already held the
    child, cut in two. */
module TreeHalves {
  import opened Layout
  import opened Tree
  import opened TreeCascade

  const SPLIT: nat := INTERNAL_NODE_MAX_KEYS / 2

  /** q children of x stay in p, the others go to n and point there. */
  ghost predicate CutAt(x: Node, pages: seq<Node>, pages': seq<Node>, p: nat, n: nat, q: nat)
    requires x.Internal? && |x.children| == |x.keys| + 1 && 1 <= q <= |x.keys|
  {
    && p < |pages| && n == |pages| && |pages'| == |pages| + 1
    && pages'[p] == x.(keys := x.keys[..q - 1], children := x.children[..q])
    && pages'[n] == Internal(false, 0, x.keys[q..], x.children[q..])
    && (forall y :: 0 <= y < |pages| && y != p ==>
          pages'[y] == if y in x.children[q..] then WithParent(pages[y], n) else pages[y])
  }

  /** A full page with child c pending behind child i. */
  ghost predicate FullPending(pages: seq<Node>, g: View, t: Table, p: nat, i: nat, k: Key, c: nat) {
    Pending(pages, g, t, p, i, k, c) && |pages[p].keys| == INTERNAL_NODE_MAX_KEYS
  }

  function SplitSize(i: nat): nat { if i < SPLIT then SPLIT + 2 else SPLIT + 1 }

  lemma HalvesLeft(x: Node, i: nat, k: Key, c: nat)
    requires x.Internal? && |x.keys| == INTERNAL_NODE_MAX_KEYS && |x.children| == |x.keys| + 1 && i <= |x.keys|
    ensures var v := WithNewChild(x, i, k, c); var q := SplitSize(i);
            var left := x.(keys := x.keys[..SPLIT], children := x.children[..SPLIT + 1]);
            && v.keys[..q - 1] == (if i < SPLIT then WithNewChild(left, i, k, c).keys else left.keys)
            && v.children[..q] == (if i < SPLIT then WithNewChild(left, i, k, c).children else left.children)
  {
    HalvesLeftKeys(x, i, k, c);
    PutBefore(x.children, i + 1, c, SplitSize(i));
  }

  lemma HalvesLeftKeys(x: Node, i: nat, k: Key, c: nat)
    requires x.Internal? && |x.keys| == INTERNAL_NODE_MAX_KEYS && |x.children| == |x.keys| + 1 && i <= |x.keys|
    ensures WithNewChild(x, i, k, c).keys[..SplitSize(i) - 1] ==
            if i < SPLIT then WithNewChild(x.(keys := x.keys[..SPLIT], children := x.children[..SPLIT + 1]), i, k, c).keys
            else x.keys[..SPLIT]
  {
    PutBefore(x.keys, if i < |x.keys| then i + 1 else i, k, SplitSize(i) - 1);
  }

  /** A sequence with one element put in, up to position d. */
  lemma PutBefore<T>(s: seq<T>, j: nat, a: T, d: nat)
    requires j <= |s| && d <= |s|
    ensures d <= j ==> (s[..j] + [a] + s[j..])[..d] == s[..d]
    ensures j < d ==> (s[..j] + [a] + s[j..])[..d] == s[..d - 1][..j] + [a] + s[..d - 1][j..]
  {
  }

  /** A sequence with one element put in, from behind position d on. */
  lemma PutTail<T>(s: seq<T>, j: nat, a: T, d: nat)
    requires d <= j <= |s|
    ensures (s[..j] + [a] + s[j..])[d..] == s[d..][..j - d] + [a] + s[d..][j - d..]
  {
  }

  lemma PutHead<T>(s: seq<T>, j: nat, a: T, d: nat)
    requires j <= |s| && d <= |s|
    ensures d <= j ==> (s[..j] + [a] + s[j..])[..d] == s[..d]
    ensures j < d ==> (s[..j] + [a] + s[j..])[d..] == s[d - 1..]
  {
  }

  lemma HalvesRight(x: Node, i: nat, k: Key, c: nat)
    requires x.Internal? && |x.keys| == INTERNAL_NODE_MAX_KEYS && |x.children| == |x.keys| + 1 && i <= |x.keys|
    ensures var v := WithNewChild(x, i, k, c); var q := SplitSize(i);
            var right := Internal(false, 0, x.keys[SPLIT + 1..], x.children[SPLIT + 1..]);
            && v.keys[q..] == (if i < SPLIT then right.keys else if i == SPLIT then [k] + right.keys
                               else WithNewChild(right, i - SPLIT - 1, k, c).keys)
            && v.children[q..] == (if i < SPLIT then right.children else if i == SPLIT then [c] + right.children
                                   else WithNewChild(right, i - SPLIT - 1, k, c).children)
  {
    HalvesRightKeys(x, i, k, c);
    if i < SPLIT {
      PutHead(x.children, i + 1, c, SPLIT + 2);
    } else {
      PutTail(x.children, i + 1, c, SPLIT + 1);
    }
  }

  lemma HalvesRightKeys(x: Node, i: nat, k: Key, c: nat)
    requires x.Internal? && |x.keys| == INTERNAL_NODE_MAX_KEYS && |x.children| == |x.keys| + 1 && i <= |x.keys|
    ensures WithNewChild(x, i, k, c).keys[SplitSize(i)..] ==
            if i < SPLIT then x.keys[SPLIT + 1..] else if i == SPLIT then [k] + x.keys[SPLIT + 1..]
            else WithNewChild(Internal(false, 0, x.keys[SPLIT + 1..], x.children[SPLIT + 1..]), i - SPLIT - 1, k, c).keys
  {
    var j := if i < |x.keys| then i + 1 else i;
    if i < SPLIT {
      PutHead(x.keys, j, k, SPLIT + 2);
    } else {
      PutTail(x.keys, j, k, SPLIT + 1);
    }
  }

  /** The children that move are those of the old right half, and the new one if it goes right. */
  lemma HalvesMoved(x: Node, i: nat, k: Key, c: nat, y: nat)
    requires x.Internal? && |x.keys| == INTERNAL_NODE_MAX_KEYS && |x.children| == |x.keys| + 1 && i <= |x.keys|
    ensures y in WithNewChild(x, i, k, c).children[SplitSize(i)..] <==>
            y in x.children[SPLIT + 1..] || (i >= SPLIT && y == c)
  {
    HalvesRight(x, i, k, c);
    if i > SPLIT {
      var r := x.children[SPLIT + 1..];
      assert r == r[..i - SPLIT] + r[i - SPLIT..];
    }
  }

  lemma OldChild(pages: seq<Node>, g: View, t: Table, p: nat, i: nat, k: Key, c: nat, j: nat)
    requires Pending(pages, g, t, p, i, k, c) && j <= |pages[p].keys|
    ensures var y := pages[p].children[j]; y in g.level && y != c && g.level[y] + 1 == g.level[p]
  {
    var v := Virtual(pages, p, i, k, c);
    var j' := if j <= i then j else j + 1;
    PendingChild(pages, g, t, p, i, k, c, j');
    PendingChild(pages, g, t, p, i, k, c, i + 1);
    assert v[p].children[j'] == pages[p].children[j] && v[p].children[i + 1] == c;
    if j' < i + 1 { assert v[p].keys[j'] <= v[p].keys[i]; } else { assert v[p].keys[i + 1] <= v[p].keys[j' - 1]; }
  }

  /** The new child is not yet among the children of p. */
  lemma PendingFresh(pages: seq<Node>, g: View, t: Table, p: nat, i: nat, k: Key, c: nat)
    requires Pending(pages, g, t, p, i, k, c)
    ensures c !in pages[p].children && p !in pages[p].children && g.level[c] + 1 == g.level[p]
  {
    var v := Virtual(pages, p, i, k, c);
    forall j | 0 <= j < |pages[p].children|
      ensures pages[p].children[j] != c && pages[p].children[j] != p
    {
      OldChild(pages, g, t, p, i, k, c, j);
    }
    PendingChild(pages, g, t, p, i, k, c, i + 1);
    assert v[p].children[i + 1] == c;
  }

  /** Below page p the pending child changes nothing. */
  lemma BelowBodies(pages: seq<Node>, g: View, t: Table, p: nat, i: nat, k: Key, c: nat, x: nat)
    requires Pending(pages, g, t, p, i, k, c) && Shape(pages, g.level)
    requires x in g.level && (x == c || x in pages[p].children)
    ensures g.level[x] < g.level[p] && Shape(Virtual(pages, p, i, k, c), g.level)
    ensures forall z {:trigger SameBody(Virtual(pages, p, i, k, c), pages, z)} :: z in g.level && g.level[z] <= g.level[x] ==>
              SameBody(Virtual(pages, p, i, k, c), pages, z)
  {
    if x == c {
      PendingFresh(pages, g, t, p, i, k, c);
    } else {
      var j :| 0 <= j < |pages[p].children| && pages[p].children[j] == x;
      OldChild(pages, g, t, p, i, k, c, j);
    }
    hide Inv, Fine, MaxKey;
    forall z | z in g.level && g.level[z] <= g.level[x] ensures SameBody(Virtual(pages, p, i, k, c), pages, z) {
      assert Descends(pages, g.level, z);
    }
  }

  lemma BelowMax(pages: seq<Node>, g: View, t: Table, p: nat, i: nat, k: Key, c: nat, x: nat)
    requires Pending(pages, g, t, p, i, k, c) && Shape(pages, g.level)
    requires x in g.level && (x == c || x in pages[p].children)
    ensures g.level[x] < g.level[p]
    ensures MaxKey(pages, g.level, x) == MaxKey(Virtual(pages, p, i, k, c), g.level, x)
    ensures Fine(pages, g.level, x) <==> Fine(Virtual(pages, p, i, k, c), g.level, x)
  {
    assert p < |pages| && c < |pages| && pages[p].Internal? && |pages[p].children| == |pages[p].keys| + 1 && i <= |pages[p].keys|;
    hide *;
    BelowBodies(pages, g, t, p, i, k, c, x);
    RightLeafFrame(Virtual(pages, p, i, k, c), pages, g.level, g.level, x);
  }

  /** After the cut, before the child is in: the pages below are as they were. */
  lemma MidMax(pages: seq<Node>, mid: seq<Node>, g: View, t: Table, p: nat, i: nat, k: Key, c: nat, n: nat, x: nat)
    requires FullPending(pages, g, t, p, i, k, c)
    requires CutAt(pages[p], pages, mid, p, n, SPLIT + 1)
    requires n !in g.level && Shape(mid, g.level[n := g.level[p]])
    requires x in g.level && g.level[x] < g.level[p]
    ensures MaxKey(mid, g.level[n := g.level[p]], x) == MaxKey(Virtual(pages, p, i, k, c), g.level, x)
    ensures Fine(mid, g.level[n := g.level[p]], x) <==> Fine(Virtual(pages, p, i, k, c), g.level, x)
  {
    RightLeafFrame(Virtual(pages, p, i, k, c), mid, g.level, g.level[n := g.level[p]], x);
  }

  /** The half that the new child of full page x belongs to ends with a leaf that is not empty. */
  ghost predicate HalfFine(pages: seq<Node>, level: map<nat, nat>, x: Node, i: nat)
    requires Shape(pages, level) && x.Internal? && |x.children| > SPLIT
    requires x.children[SPLIT] in level && Last(x.children) in level
  {
    Fine(pages, level, if i < SPLIT then x.children[SPLIT] else Last(x.children))
  }

  lemma MiddleAndLast(pages: seq<Node>, g: View, t: Table, p: nat, i: nat, k: Key, c: nat)
    requires FullPending(pages, g, t, p, i, k, c)
    ensures pages[p].children[SPLIT] in g.level && Last(pages[p].children) in g.level
    ensures Shape(Virtual(pages, p, i, k, c), g.level)
  {
    OldChild(pages, g, t, p, i, k, c, SPLIT);
    OldChild(pages, g, t, p, i, k, c, |pages[p].keys|);
  }

  /** The largest keys the code compares while it places c, and what they imply. */
  lemma MidCompare(pages: seq<Node>, g: View, t: Table, p: nat, i: nat, k: Key, c: nat)
    requires FullPending(pages, g, t, p, i, k, c)
    requires pages[p].children[SPLIT] in g.level && Last(pages[p].children) in g.level
    requires HalfFine(Virtual(pages, p, i, k, c), g.level, pages[p], i)
    ensures var v := Virtual(pages, p, i, k, c); var x := pages[p];
            var cm := MaxKey(v, g.level, c); var lm := MaxKey(v, g.level, x.children[SPLIT]);
            && (cm < lm <==> i < SPLIT)
            && (i == SPLIT ==> cm == k < x.keys[SPLIT + 1] && cm <= MaxKey(v, g.level, Last(x.children)))
  {
    var v := Virtual(pages, p, i, k, c);
    var x := pages[p];
    PendingPlace(pages, g, t, p, i, k, c);
    PendingChild(pages, g, t, p, i, k, c, i + 1);
    assert v[p].children[i + 1] == c;
    var r := if i < SPLIT then SPLIT + 1 else SPLIT;
    PendingChild(pages, g, t, p, i, k, c, r);
    assert v[p].children[r] == x.children[SPLIT];
    RightLeafEnds(v, g, t, p, x.children[SPLIT]);
    if i < SPLIT {
      assert v[p].keys[i + 1] == k;
      assert i + 1 < SPLIT ==> v[p].keys[i + 1] < v[p].keys[SPLIT];
    } else {
      assert i > SPLIT ==> v[p].keys[SPLIT] < v[p].keys[i];
    }
  }

  /** Node x, its half, and what is known about the place of the pending child in x. */
  ghost predicate HalfPlace(x: Node, half: Node, i: nat, k: Key, cm: Key, rm: Key, all: Key, idx: nat) {
    && x.Internal? && |x.keys| == INTERNAL_NODE_MAX_KEYS && |x.children| == |x.keys| + 1 && i <= |x.keys|
    && SortedKeys(x.keys) && FindsPlace(x, i, k, cm, all)
    && (i < SPLIT ==> cm <= rm) && (i >= SPLIT ==> rm == all)
    && (i == SPLIT ==> cm == k < x.keys[SPLIT + 1] && cm <= rm)
    && half.Internal? && |half.children| == |half.keys| + 1
    && (if i < SPLIT then half.keys == x.keys[..SPLIT] && half.children == x.children[..SPLIT + 1]
        else half.keys == x.keys[SPLIT + 1..] && half.children == x.children[SPLIT + 1..])
    && IsLowerBound(half.keys, cm, idx)
  }

  lemma WithNewChildBody(x: Node, y: Node, i: nat, k: Key, c: nat)
    requires x.Internal? && y.Internal? && x.keys == y.keys && x.children == y.children
    requires |x.children| == |x.keys| + 1 && i <= |x.keys|
    ensures WithNewChild(x, i, k, c).keys == WithNewChild(y, i, k, c).keys
    ensures WithNewChild(x, i, k, c).children == WithNewChild(y, i, k, c).children
  {
  }

  lemma HalfInsertedLeft(x: Node, half: Node, i: nat, k: Key, c: nat, cm: Key, rm: Key, all: Key, idx: nat)
    requires HalfPlace(x, half, i, k, cm, rm, all, idx) && i < SPLIT
    ensures var r := Inserted(half, c, cm, rm, idx); var v := WithNewChild(x, i, k, c); var q := SplitSize(i);
            r.keys == v.keys[..q - 1] && r.children == v.children[..q]
  {
    HalvesLeft(x, i, k, c);
    InsertedInPlace(half, i, k, c, cm, rm, idx);
  }

  lemma HalfFinds(x: Node, half: Node, i: nat, k: Key, cm: Key, rm: Key, all: Key, idx: nat)
    requires HalfPlace(x, half, i, k, cm, rm, all, idx) && i > SPLIT
    ensures SortedKeys(half.keys) && i - SPLIT - 1 <= |half.keys|
    ensures FindsPlace(half, i - SPLIT - 1, k, cm, rm)
  {
    assert half.keys == x.keys[SPLIT + 1..];
  }

  lemma HalfInsertedRight(x: Node, half: Node, i: nat, k: Key, c: nat, cm: Key, rm: Key, all: Key, idx: nat)
    requires HalfPlace(x, half, i, k, cm, rm, all, idx) && i > SPLIT
    ensures var r := Inserted(half, c, cm, rm, idx); var v := WithNewChild(x, i, k, c); var q := SplitSize(i);
            r.keys == v.keys[q..] && r.children == v.children[q..]
  {
    HalfFinds(x, half, i, k, cm, rm, all, idx);
    hide WithNewChild, Inserted, SortedKeys, FindsPlace;
    HalvesRight(x, i, k, c);
    InsertedInPlace(half, i - SPLIT - 1, k, c, cm, rm, idx);
    WithNewChildBody(half, Internal(false, 0, half.keys, half.children), i - SPLIT - 1, k, c);
  }

  lemma HalfInsertedFront(x: Node, half: Node, i: nat, k: Key, c: nat, cm: Key, rm: Key, all: Key, idx: nat)
    requires HalfPlace(x, half, i, k, cm, rm, all, idx) && i == SPLIT
    ensures var r := Inserted(half, c, cm, rm, idx); var v := WithNewChild(x, i, k, c); var q := SplitSize(i);
            r.keys == v.keys[q..] && r.children == v.children[q..]
  {
    HalvesRight(x, i, k, c);
    assert half.keys[0] == x.keys[SPLIT + 1];
    assert idx == 0;
    assert half.keys[..0] == [] && half.keys[0..] == half.keys;
    assert half.children[..0] == [] && half.children[0..] == half.children;
  }

  /** The half that receives the child finds its place, and ends up as its half of the full node. */
  lemma HalfInserted(x: Node, half: Node, i: nat, k: Key, c: nat, cm: Key, rm: Key, all: Key, idx: nat)
    requires HalfPlace(x, half, i, k, cm, rm, all, idx)
    ensures var r := Inserted(half, c, cm, rm, idx); var v := WithNewChild(x, i, k, c); var q := SplitSize(i);
            if i < SPLIT then r.keys == v.keys[..q - 1] && r.children == v.children[..q]
            else r.keys == v.keys[q..] && r.children == v.children[q..]
  {
    if i < SPLIT { HalfInsertedLeft(x, half, i, k, c, cm, rm, all, idx); }
    else if i == SPLIT { HalfInsertedFront(x, half, i, k, c, cm, rm, all, idx); }
    else { HalfInsertedRight(x, half, i, k, c, cm, rm, all, idx); }
  }

  /** The pages other than the two halves after cut and insertion. */
  lemma CutOthers(pages: seq<Node>, mid: seq<Node>, pages': seq<Node>, g: View, t: Table,
                  p: nat, i: nat, k: Key, c: nat, n: nat, h: nat, y: nat)
    requires FullPending(pages, g, t, p, i, k, c)
    requires CutAt(pages[p], pages, mid, p, n, SPLIT + 1)
    requires h == if i < SPLIT then p else n
    requires |pages'| == |mid| && pages'[c] == WithParent(mid[c], h)
    requires forall y :: 0 <= y < |mid| && y != h && y != c ==> pages'[y] == mid[y]
    requires y < |pages| && y != p
    ensures var v := Virtual(pages, p, i, k, c);
            pages'[y] == if y in v[p].children[SplitSize(i)..] then WithParent(v[y], n) else v[y]
  {
    HalvesMoved(pages[p], i, k, c, y);
    PendingFresh(pages, g, t, p, i, k, c);
  }

  /** The two halves after cut and insertion. */
  lemma CutHalves(x: Node, left: Node, right: Node, i: nat, k: Key, c: nat, cm: Key, rm: Key, all: Key, idx: nat)
    requires HalfPlace(x, if i < SPLIT then left else right, i, k, cm, rm, all, idx)
    requires left == x.(keys := x.keys[..SPLIT], children := x.children[..SPLIT + 1])
    requires right == Internal(false, 0, x.keys[SPLIT + 1..], x.children[SPLIT + 1..])
    ensures var v := WithNewChild(x, i, k, c); var q := SplitSize(i);
            && (if i < SPLIT then Inserted(left, c, cm, rm, idx) else left)
               == x.(keys := v.keys[..q - 1], children := v.children[..q])
            && (if i < SPLIT then right else Inserted(right, c, cm, rm, idx))
               == Internal(false, 0, v.keys[q..], v.children[q..])
  {
    HalfInserted(x, if i < SPLIT then left else right, i, k, c, cm, rm, all, idx);
    if i < SPLIT { HalvesRight(x, i, k, c); } else { HalvesLeft(x, i, k, c); }
  }

  lemma PlaceInHalf(pages: seq<Node>, mid: seq<Node>, g: View, t: Table,
                    p: nat, i: nat, k: Key, c: nat, n: nat, h: nat, cm: Key, rm: Key, idx: nat) returns (all: Key)
    requires FullPending(pages, g, t, p, i, k, c)
    requires CutAt(pages[p], pages, mid, p, n, SPLIT + 1)
    requires h == if i < SPLIT then p else n
    requires cm == MaxKey(Virtual(pages, p, i, k, c), g.level, c)
    requires pages[p].children[SPLIT] in g.level && Last(pages[p].children) in g.level
    requires HalfFine(Virtual(pages, p, i, k, c), g.level, pages[p], i)
    requires Last(mid[h].children) in g.level
    requires rm == MaxKey(Virtual(pages, p, i, k, c), g.level, Last(mid[h].children))
    requires IsLowerBound(mid[h].keys, cm, idx)
    ensures HalfPlace(pages[p], mid[h], i, k, cm, rm, all, idx)
  {
    hide Inv, Shape, Fine;
    var v := Virtual(pages, p, i, k, c);
    var x := pages[p];
    PendingPlace(pages, g, t, p, i, k, c);
    MidCompare(pages, g, t, p, i, k, c);
    all := if i < SPLIT then rm else MaxKey(v, g.level, Last(x.children));
    hide MaxKey, Virtual;
  }

  /** Inserting the child into its half after the cut gives the cut of the page that holds it. */
  lemma CutThenInsert(pages: seq<Node>, mid: seq<Node>, pages': seq<Node>, g: View, t: Table,
                      p: nat, i: nat, k: Key, c: nat, n: nat, h: nat, cm: Key, rm: Key, idx: nat)
    requires FullPending(pages, g, t, p, i, k, c)
    requires CutAt(pages[p], pages, mid, p, n, SPLIT + 1)
    requires h == if i < SPLIT then p else n
    requires cm == MaxKey(Virtual(pages, p, i, k, c), g.level, c)
    requires pages[p].children[SPLIT] in g.level && Last(pages[p].children) in g.level
    requires HalfFine(Virtual(pages, p, i, k, c), g.level, pages[p], i)
    requires Last(mid[h].children) in g.level
    requires rm == MaxKey(Virtual(pages, p, i, k, c), g.level, Last(mid[h].children))
    requires IsLowerBound(mid[h].keys, cm, idx)
    requires pages' == mid[h := Inserted(mid[h], c, cm, rm, idx)][c := WithParent(mid[c], h)]
    ensures var v := Virtual(pages, p, i, k, c); CutAt(v[p], v, pages', p, n, SplitSize(i))
  {
    hide Inv, Shape, Fine, HalfPlace, FindsPlace, SortedKeys, MaxKey, Virtual, IsLowerBound;
    var x := pages[p];
    PendingPlace(pages, g, t, p, i, k, c);
    var all := PlaceInHalf(pages, mid, g, t, p, i, k, c, n, h, cm, rm, idx);
    CutHalves(x, mid[p], mid[n], i, k, c, cm, rm, all, idx);
    CutRest(pages, mid, pages', g, t, p, i, k, c, n, h);
  }

  lemma CutRest(pages: seq<Node>, mid: seq<Node>, pages': seq<Node>, g: View, t: Table,
                p: nat, i: nat, k: Key, c: nat, n: nat, h: nat)
    requires FullPending(pages, g, t, p, i, k, c)
    requires CutAt(pages[p], pages, mid, p, n, SPLIT + 1)
    requires h == if i < SPLIT then p else n
    requires |pages'| == |mid| && pages'[c] == WithParent(mid[c], h)
    requires forall y :: 0 <= y < |mid| && y != h && y != c ==> pages'[y] == mid[y]
    requires var v := WithNewChild(pages[p], i, k, c); var q := SplitSize(i);
             && pages'[p] == v.(keys := v.keys[..q - 1], children := v.children[..q])
             && pages'[n] == Internal(false, 0, v.keys[q..], v.children[q..])
    ensures var v := Virtual(pages, p, i, k, c); CutAt(v[p], v, pages', p, n, SplitSize(i))
  {
    var v := Virtual(pages, p, i, k, c);
    forall y | 0 <= y < |v| && y != p
      ensures pages'[y] == if y in v[p].children[SplitSize(i)..] then WithParent(v[y], n) else v[y]
    {
      CutOthers(pages, mid, pages', g, t, p, i, k, c, n, h, y);
    }
  }

  /** Cutting a page loses nothing: the halves list its children in the old order, and the key that
      is dropped still separates them. */
  lemma HalvesConserve(x: Node, pages: seq<Node>, pages': seq<Node>, p: nat, n: nat, q: nat)
    requires x.Internal? && |x.children| == |x.keys| + 1 && 1 <= q <= |x.keys| && CutAt(x, pages, pages', p, n, q)
    requires SortedKeys(x.keys)
    ensures pages'[p].children + pages'[n].children == x.children
    ensures pages'[p].keys + [x.keys[q - 1]] + pages'[n].keys == x.keys
    ensures forall k :: k in pages'[p].keys ==> k < x.keys[q - 1]
    ensures forall k :: k in pages'[n].keys ==> x.keys[q - 1] < k
    ensures |x.keys| == 510 && q == SPLIT + 1 ==> |pages'[p].keys| == 255 && |pages'[n].keys| == 254
  {
  }
}
