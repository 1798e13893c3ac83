/** What an insert does that is not clear to go: the store keeps the shape of a tree, pages under
    their parents, but a page in it is bad in a way that no view of the store can put right. */
module TreeRuin {
  import opened Layout
  import opened Tree
  import opened TreeCascade
  import opened TreeHalves
  import opened TreeUp

  /** Page x hangs below a page one level higher that lists it among its children. */
  ghost predicate Under(pages: seq<Node>, level: map<nat, nat>, x: nat)
    requires x < |pages| && x in level
  {
    var y := pages[x].parent;
    y in level && y < |pages| && pages[y].Internal? && x in pages[y].children && level[y] == level[x] + 1
  }

  /** Page x of a tree whose separators and cells may be out of order; c is not below the root yet. */
  ghost predicate InPlace(pages: seq<Node>, level: map<nat, nat>, t: Table, c: nat, x: nat) {
    && 0 < x < |pages| && x in level && t.root in level
    && (pages[x].isRoot <==> x == t.root)
    && level[x] <= level[t.root] && (x != t.root && x != c ==> level[x] < level[t.root])
    && (x != t.root && x != c ==> Under(pages, level, x))
    && (pages[x].Internal? ==>
          && |pages[x].children| == |pages[x].keys| + 1 && |pages[x].keys| <= INTERNAL_NODE_MAX_KEYS
          && forall j :: 0 <= j < |pages[x].children| ==>
               pages[x].children[j] in level && level[pages[x].children[j]] + 1 == level[x])
  }

  /** The pages in `level` hang together, but for page c, which waits; 0 means that none waits. */
  ghost predicate Hooked(pages: seq<Node>, level: map<nat, nat>, t: Table, c: nat) {
    && t.root in level && t.root != c
    && forall x {:trigger InPlace(pages, level, t, c, x)} :: x in level ==> InPlace(pages, level, t, c, x)
  }

  lemma HookedShape(pages: seq<Node>, level: map<nat, nat>, t: Table, c: nat)
    requires Hooked(pages, level, t, c)
    ensures Shape(pages, level)
  {
    forall x | x in level ensures Descends(pages, level, x) { assert InPlace(pages, level, t, c, x); }
  }

  /** The same page but for its parent pointer. */
  ghost predicate SameContent(pages: seq<Node>, pages': seq<Node>, x: nat) {
    x < |pages| && x < |pages'| && WithParent(pages'[x], 0) == WithParent(pages[x], 0)
  }

  /** Other pages are left alone, no page becomes a leaf or ceases to be one, and new pages are internal. */
  ghost predicate Grown(before: seq<Node>, level: map<nat, nat>, after: seq<Node>, level': map<nat, nat>) {
    && Aside(before, level, after, level')
    && (forall x {:trigger after[x]} :: x in level' && x < |after| ==>
          if x in level then x < |before| && after[x].Leaf? == before[x].Leaf? else after[x].Internal?)
  }

  lemma GrownTwice(a: seq<Node>, level: map<nat, nat>, b: seq<Node>, level1: map<nat, nat>, c: seq<Node>, level2: map<nat, nat>)
    requires Grown(a, level, b, level1) && Grown(b, level1, c, level2)
    ensures Grown(a, level, c, level2)
  {
    forall x | x in level2 && x < |c|
      ensures if x in level then x < |a| && c[x].Leaf? == a[x].Leaf? else c[x].Internal?
    {
      if x in level1 { assert x < |b| && c[x].Leaf? == b[x].Leaf?; }
    }
  }

  /** Child c has found a place at page p or above; below p nothing but parent pointers changed. */
  ghost predicate Joined(before: seq<Node>, level: map<nat, nat>, after: seq<Node>, level': map<nat, nat>, t: Table, p: nat) {
    && Hooked(after, level', t, 0) && Grown(before, level, after, level') && p in level
    && forall x {:trigger SameContent(before, after, x)} :: x in level && level[x] < level[p] ==>
         SameContent(before, after, x) && level'[x] == level[x]
  }

  /** Separators out of order, or a first separator 0 above a child that has separators itself. */
  ghost predicate BadNode(x: Node, first: Node) {
    x.Internal? && (!SortedKeys(x.keys) || (|x.keys| > 0 && x.keys[0] == 0 && first.Internal? && |first.keys| > 0))
  }

  ghost predicate Bad(pages: seq<Node>, x: nat) {
    && x < |pages| && pages[x].Internal? && |pages[x].children| > 0 && pages[x].children[0] < |pages|
    && BadNode(pages[x], pages[pages[x].children[0]])
  }

  ghost predicate Ruined(pages: seq<Node>, level: map<nat, nat>, t: Table) {
    Hooked(pages, level, t, 0) && exists x {:trigger Bad(pages, x)} :: x in level && Bad(pages, x)
  }

  /** In any view the pages that hang together belong to the tree. */
  lemma {:induction false} HookedInView(pages: seq<Node>, level: map<nat, nat>, t: Table, g: View, over: nat, x: nat)
    requires Hooked(pages, level, t, 0) && Inv(pages, g, t, over) && x in level
    ensures x in g.level
    decreases if t.root in level && x in level && level[x] <= level[t.root] then level[t.root] - level[x] else 0
  {
    assert InPlace(pages, level, t, 0, x);
    if x != t.root {
      var y := pages[x].parent;
      assert InPlace(pages, level, t, 0, y);
      HookedInView(pages, level, t, g, over, y);
      assert PageOk(pages, g, t, over, y);
      var j :| 0 <= j < |pages[y].children| && pages[y].children[j] == x;
      assert ChildOk(pages, g, y, j);
    }
  }

  /** No view makes a page with a bad node a page of a tree. */
  lemma BadNotInTree(pages: seq<Node>, g: View, t: Table, over: nat, x: nat)
    requires Inv(pages, g, t, over) && x in g.level
    ensures !Bad(pages, x)
  {
    assert PageOk(pages, g, t, over, x);
    if pages[x].Internal? {
      assert KeysOk(pages, g, x);
      assert ChildOk(pages, g, x, 0);
      var c := pages[x].children[0];
      assert PageOk(pages, g, t, over, c);
      if pages[c].Internal? && |pages[c].keys| > 0 && |pages[x].keys| > 0 {
        assert KeysOk(pages, g, c);
        assert pages[c].keys[0] < g.hi[c] == pages[x].keys[0];
      }
    }
  }

  /** A ruined store is not a tree, whatever view one takes of it. */
  lemma RuinedIsNoTree(pages: seq<Node>, level: map<nat, nat>, t: Table)
    requires Ruined(pages, level, t)
    ensures forall g, over :: !Inv(pages, g, t, over)
  {
    var x :| x in level && Bad(pages, x);
    forall g, over | Inv(pages, g, t, over) ensures false {
      HookedInView(pages, level, t, g, over, x);
      BadNotInTree(pages, g, t, over, x);
    }
  }

  /** What went wrong below p stays wrong. */
  lemma BadStays(before: seq<Node>, level: map<nat, nat>, after: seq<Node>, level': map<nat, nat>, t: Table, p: nat, x: nat)
    requires Joined(before, level, after, level', t, p) && Shape(before, level)
    requires x in level && level[x] < level[p] && Bad(before, x)
    ensures Ruined(after, level', t)
  {
    assert Descends(before, level, x);
    assert SameContent(before, after, x) && SameContent(before, after, before[x].children[0]);
    assert Bad(after, x);
  }

  // The structure of each step

  lemma PendingHooked(pages: seq<Node>, g: View, t: Table, p: nat, i: nat, k: Key, c: nat)
    requires Pending(pages, g, t, p, i, k, c)
    ensures Hooked(pages, g.level, t, c) && g.level[c] + 1 == g.level[p] && g.level[p] <= g.level[t.root]
  {
    var v := Virtual(pages, p, i, k, c);
    TreeLeaf.RootTop(v, g, t, p);
    PendingFresh(pages, g, t, p, i, k, c);
    assert PageOk(v, g, t, p, c) && PageOk(v, g, t, p, p);
    forall x | x in g.level ensures InPlace(pages, g.level, t, c, x) {
      PendingInPlace(pages, g, t, p, i, k, c, x);
    }
  }

  lemma PendingInPlace(pages: seq<Node>, g: View, t: Table, p: nat, i: nat, k: Key, c: nat, x: nat)
    requires Pending(pages, g, t, p, i, k, c) && x in g.level
    requires c !in pages[p].children && p !in pages[p].children && g.level[c] + 1 == g.level[p]
    requires forall x :: x in g.level && x != t.root ==> g.level[x] < g.level[t.root]
    ensures InPlace(pages, g.level, t, c, x)
  {
    var v := Virtual(pages, p, i, k, c);
    assert PageOk(v, g, t, p, x);
    if x != t.root {
      TreeLeaf.PageBelowParent(v, g, t, p, x);
      if x != c && v[x].parent == p {
        assert x in pages[p].children[..i + 1] || x in pages[p].children[i + 1..];
      }
    }
    if pages[x].Internal? {
      forall j | 0 <= j < |pages[x].children|
        ensures pages[x].children[j] in g.level && g.level[pages[x].children[j]] + 1 == g.level[x]
      {
        if x == p { OldChild(pages, g, t, p, i, k, c, j); } else { assert ChildOk(v, g, x, j); }
      }
    }
  }

  /** A page with room takes the child. */
  lemma RoomJoined(before: seq<Node>, level: map<nat, nat>, t: Table, p: nat, c: nat, after: seq<Node>)
    requires Hooked(before, level, t, c) && p in level && c in level && p != c && p < |before| && before[p].Internal?
    requires level[c] + 1 == level[p] && |after| == |before| && c < |before|
    requires after[p].Internal? && after[p] == before[p].(keys := after[p].keys, children := after[p].children)
    requires |after[p].children| == |after[p].keys| + 1 && |after[p].keys| <= INTERNAL_NODE_MAX_KEYS
    requires forall y :: y in after[p].children <==> y in before[p].children || y == c
    requires after[c] == WithParent(before[c], p)
    requires forall y :: 0 <= y < |before| && y != p && y != c ==> after[y] == before[y]
    ensures Joined(before, level, after, level, t, p)
  {
    assert InPlace(before, level, t, c, p) && InPlace(before, level, t, c, c);
    forall x | x in level ensures InPlace(after, level, t, 0, x) && x < |before| {
      assert InPlace(before, level, t, c, x);
      if x == p {
        forall j | 0 <= j < |after[p].children|
          ensures after[p].children[j] in level && level[after[p].children[j]] + 1 == level[p]
        {
          var y := after[p].children[j];
          assert y in after[p].children;
          if y != c { var j' :| 0 <= j' < |before[p].children| && before[p].children[j'] == y; }
        }
      }
    }
  }

  lemma InsertedChildren(x: Node, c: nat, childMax: Key, rightMax: Key, idx: nat)
    requires x.Internal? && |x.children| == |x.keys| + 1 && idx <= |x.keys|
    ensures forall y :: y in Inserted(x, c, childMax, rightMax, idx).children <==> y in x.children || y == c
  {
    assert x.children == x.children[..idx] + x.children[idx..];
  }

  /** A full page is cut in two and one of the halves takes the child; the new page waits. */
  lemma HalvesHooked(before: seq<Node>, level: map<nat, nat>, t: Table, p: nat, c: nat, mid: seq<Node>, n: nat, h: nat,
                     cut: seq<Node>)
    requires Hooked(before, level, t, c) && p in level && c in level && p != c && p < |before| && before[p].Internal?
    requires level[c] + 1 == level[p] && c < |before|
    requires |before[p].children| == |before[p].keys| + 1 && |before[p].keys| == INTERNAL_NODE_MAX_KEYS
    requires CutAt(before[p], before, mid, p, n, SPLIT + 1) && n !in level && (h == p || h == n)
    requires |cut| == |mid| && cut[h].Internal? && cut[h] == mid[h].(keys := cut[h].keys, children := cut[h].children)
    requires |cut[h].children| == |cut[h].keys| + 1 && |cut[h].keys| <= INTERNAL_NODE_MAX_KEYS
    requires forall y :: y in cut[h].children <==> y in mid[h].children || y == c
    requires cut[c] == WithParent(mid[c], h)
    requires forall y :: 0 <= y < |mid| && y != h && y != c ==> cut[y] == mid[y]
    ensures Hooked(cut, level[n := level[p]], t, n)
    ensures forall x {:trigger SameContent(before, cut, x)} :: x in level && level[x] < level[p] ==> SameContent(before, cut, x)
  {
    var level' := level[n := level[p]];
    assert InPlace(before, level, t, c, p) && InPlace(before, level, t, c, c);
    forall x | x in level' ensures InPlace(cut, level', t, n, x) {
      HalvesInPlace(before, level, t, p, c, mid, n, h, cut, x);
    }
    forall x | x in level && level[x] < level[p] ensures SameContent(before, cut, x) {
      assert InPlace(before, level, t, c, x);
    }
  }

  lemma HalvesInPlace(before: seq<Node>, level: map<nat, nat>, t: Table, p: nat, c: nat, mid: seq<Node>, n: nat, h: nat,
                      cut: seq<Node>, x: nat)
    requires Hooked(before, level, t, c) && p in level && c in level && p != c && p < |before| && before[p].Internal?
    requires level[c] + 1 == level[p] && c < |before|
    requires |before[p].children| == |before[p].keys| + 1 && |before[p].keys| == INTERNAL_NODE_MAX_KEYS
    requires CutAt(before[p], before, mid, p, n, SPLIT + 1) && n !in level && (h == p || h == n)
    requires |cut| == |mid| && cut[h].Internal? && cut[h] == mid[h].(keys := cut[h].keys, children := cut[h].children)
    requires |cut[h].children| == |cut[h].keys| + 1 && |cut[h].keys| <= INTERNAL_NODE_MAX_KEYS
    requires forall y :: y in cut[h].children <==> y in mid[h].children || y == c
    requires cut[c] == WithParent(mid[c], h)
    requires forall y :: 0 <= y < |mid| && y != h && y != c ==> cut[y] == mid[y]
    requires x in level || x == n
    ensures InPlace(cut, level[n := level[p]], t, n, x)
  {
    var level' := level[n := level[p]];
    var cs := before[p].children;
    assert InPlace(before, level, t, c, p) && InPlace(before, level, t, c, c);
    assert cs == cs[..SPLIT + 1] + cs[SPLIT + 1..];
    if x != n {
      assert InPlace(before, level, t, c, x);
      if x in cs[SPLIT + 1..] { var j :| 0 <= j < |cs| && cs[j] == x; }
    }
    if cut[x].Internal? {
      forall j | 0 <= j < |cut[x].children|
        ensures cut[x].children[j] in level && level[cut[x].children[j]] + 1 == level'[x]
      {
        var y := cut[x].children[j];
        if x == p || x == n {
          if y != c { assert y in cs; var j' :| 0 <= j' < |cs| && cs[j'] == y; }
        }
      }
    }
  }

  /** A new root over the halves of the old one. */
  lemma NewRootHooked(cut: seq<Node>, level: map<nat, nat>, t: Table, n: nat, after: seq<Node>, m: Key)
    requires Hooked(cut, level, t, n) && n in level && level[n] == level[t.root] && t.root < |cut| && cut[t.root].Internal?
    requires NewRoot(cut, after, t.root, n, m) && |cut| !in level
    ensures Hooked(after, level[|cut| := level[t.root]][t.root := level[t.root] + 1], t, 0)
    ensures Grown(cut, level, after, level[|cut| := level[t.root]][t.root := level[t.root] + 1])
    ensures forall x {:trigger SameContent(cut, after, x)} :: x in level && x != t.root ==> SameContent(cut, after, x)
  {
    var left := |cut|;
    var level' := level[left := level[t.root]][t.root := level[t.root] + 1];
    assert InPlace(cut, level, t, n, t.root) && InPlace(cut, level, t, n, n);
    forall x | x in level' ensures InPlace(after, level', t, 0, x) {
      if x in level { assert InPlace(cut, level, t, n, x); }
    }
    NewRootGrown(cut, level, t, n, after, m);
    hide InPlace, Aside;
  }

  lemma NewRootGrown(cut: seq<Node>, level: map<nat, nat>, t: Table, n: nat, after: seq<Node>, m: Key)
    requires Hooked(cut, level, t, n) && n in level && level[n] == level[t.root] && t.root < |cut| && cut[t.root].Internal?
    requires NewRoot(cut, after, t.root, n, m) && |cut| !in level
    ensures Grown(cut, level, after, level[|cut| := level[t.root]][t.root := level[t.root] + 1])
    ensures forall x {:trigger SameContent(cut, after, x)} :: x in level && x != t.root ==> SameContent(cut, after, x)
  {
    assert InPlace(cut, level, t, n, t.root) && InPlace(cut, level, t, n, n);
    forall x | x in level && x != t.root ensures SameContent(cut, after, x) { assert InPlace(cut, level, t, n, x); }
    forall x | x in level ensures x < |cut| { assert InPlace(cut, level, t, n, x); }
  }
}
