/** What a split hands to the level above: a pending insert in the parent, or a new root. */
module TreeUp {
  import opened Layout
  import opened Tree
  import opened TreeSteps
  import opened TreeSplit
  import opened TreeLeaf
  import opened TreeCascade
  import opened TreeHalves

  /** The place of page p in its parent. */
  lemma ChildIndex(pages: seq<Node>, g: View, t: Table, over: nat, p: nat) returns (ip: nat)
    requires Inv(pages, g, t, over) && p in g.level && p != t.root
    ensures var pp := pages[p].parent;
            && pp in g.level && pages[pp].Internal? && g.level[pp] == g.level[p] + 1
            && InternalOk(pages, g, over, pp) && ip < |pages[pp].children| && pages[pp].children[ip] == p
            && ChildOk(pages, g, pp, ip)
  {
    PageBelowParent(pages, g, t, over, p);
    var pp := pages[p].parent;
    assert PageOk(pages, g, t, over, pp);
    ip :| 0 <= ip < |pages[pp].children| && pages[pp].children[ip] == p;
    assert ChildOk(pages, g, pp, ip);
  }

  /** Any key inside the interval of child ip leads the binary search to ip. */
  lemma FindsChild(pages: seq<Node>, g: View, pp: nat, ip: nat, key: Key, idx: nat)
    requires Dom(pages, g) && pp in g.level && pages[pp].Internal?
    requires |pages[pp].children| == |pages[pp].keys| + 1 && ip < |pages[pp].children|
    requires ChildOk(pages, g, pp, ip) && KeysOk(pages, g, pp)
    requires g.lo[pages[pp].children[ip]] < key <= g.hi[pages[pp].children[ip]]
    requires IsLowerBound(pages[pp].keys, key, idx)
    ensures idx == ip
  {
    assert ip > 0 ==> pages[pp].keys[ip - 1] < key;
    assert ip < |pages[pp].keys| ==> key <= pages[pp].keys[ip];
  }

  /** A page that was cut in two, before its parent knows. */
  ghost predicate WasCut(v: seq<Node>, g: View, t: Table, p: nat, q: nat, cut: seq<Node>, n: nat) {
    && Inv(v, g, t, p) && p in g.level && v[p].Internal?
    && |v[p].children| == |v[p].keys| + 1 && 1 <= q <= |v[p].keys|
    && q - 1 <= INTERNAL_NODE_MAX_KEYS && |v[p].keys| - q <= INTERNAL_NODE_MAX_KEYS
    && CutAt(v[p], v, cut, p, n, q)
  }

  /** Store w, in which the parent pp of page p already holds the new page n behind child ip. */
  ghost predicate AboveCut(v: seq<Node>, g: View, t: Table, p: nat, q: nat, cut: seq<Node>, n: nat,
                           w: seq<Node>, g1: View, ip: nat)
    requires p < |v| && v[p].Internal? && 1 <= q <= |v[p].keys| && p in g.level && |cut| == n + 1
  {
    var pp := v[p].parent;
    && pp < n && pp < |v| && pp in g.level && cut[pp] == v[pp] && v[pp].Internal? && pp != n && pp != p
    && |v[pp].children| == |v[pp].keys| + 1 && |v[pp].keys| <= INTERNAL_NODE_MAX_KEYS
    && ip < |v[pp].children| && v[pp].children[ip] == p && g.level[pp] == g.level[p] + 1
    && w == cut[n := WithParent(cut[n], pp)][pp := WithChild(v[pp], ip, v[p].keys[q - 1], n)]
    && n !in g.level && g1.level == g.level[n := g.level[p]] && g1.order == g.order
    && Inv(w, g1, t, pp) && Shape(w, g1.level)
  }

  lemma AfterCut(v: seq<Node>, g: View, t: Table, p: nat, q: nat, cut: seq<Node>, n: nat)
    returns (w: seq<Node>, g1: View, ip: nat)
    requires WasCut(v, g, t, p, q, cut, n) && p != t.root
    ensures AboveCut(v, g, t, p, q, cut, n, w, g1, ip)
  {
    var v2 := v + [cut[n]];
    var pp := v[p].parent;
    InvExtend(v, g, t, p, cut[n]);
    ip := ChildIndex(v2, g, t, p, p);
    assert PageOk(v2, g, t, p, p);
    assert PageOk(v2, g, t, p, pp);
    assert ChildOk(v2, g, pp, ip);
    w := cut[n := WithParent(cut[n], pp)][pp := WithChild(v[pp], ip, v[p].keys[q - 1], n)];
    MovedBelow(v2, g, t, p);
    assert KeysOk(v2, g, p);
    assert InternalSplit(v2, w, g, t, p, p, n, q, pp, ip);
    hide Inv;
    SplitInternal(v2, w, g, t, p, p, n, q, pp, ip);
    g1 := SplitInternalView(g, v[p].keys, p, n, q, pp);
    InvShape(w, g1, t, pp);
  }

  /** The children of p lie a level below it. */
  lemma MovedBelow(pages: seq<Node>, g: View, t: Table, p: nat)
    requires Inv(pages, g, t, p) && p in g.level && pages[p].Internal?
    ensures forall c :: c in pages[p].children ==> c in g.level && g.level[c] + 1 == g.level[p]
  {
    assert PageOk(pages, g, t, p, p);
    forall i | 0 <= i < |pages[p].children|
      ensures pages[p].children[i] in g.level && g.level[pages[p].children[i]] + 1 == g.level[p]
    {
      assert ChildOk(pages, g, p, i);
    }
  }

  /** What create_new_root makes of the two halves: a copy of the root becomes its left child. */
  ghost predicate NewRoot(pages: seq<Node>, pages': seq<Node>, root: nat, n: nat, m: Key) {
    var left := |pages|;
    && root < left && n < left && n != root && |pages'| == left + 1
    && pages'[left] == CopiedTo(pages[root], root)
    && pages'[root] == Internal(true, 0, [m], [left, n])
    && pages'[n] == WithParent(pages[n], root)
    && (forall y :: 0 <= y < left && y != root && y != n ==>
          pages'[y] == if pages[root].Internal? && y in pages[root].children
                       then WithParent(pages[y], left) else pages[y])
  }

  /** The store in which the root has been raised over page `left`. */
  lemma MakeRaised(pages: seq<Node>, g: View, t: Table, over: nat, left: nat) returns (r: seq<Node>)
    requires Inv(pages, g, t, over) && (over == t.root || over == 0)
    requires left !in g.level && 0 < left < |pages|
    ensures RootRaised(pages, r, g, t, over, left) && |r| == |pages|
  {
    r := seq(|pages|, y requires 0 <= y < |pages| =>
      if y == left then CopiedTo(pages[t.root], t.root)
      else if y == t.root then Internal(true, 0, [], [left])
      else if pages[t.root].Internal? && y in pages[t.root].children then WithParent(pages[y], left) else pages[y]);
  }

  /** The root is cut, and `after` is what create_new_root makes of it. */
  ghost predicate RootCut(v: seq<Node>, g: View, t: Table, q: nat, cut: seq<Node>, n: nat, after: seq<Node>, m: Key) {
    WasCut(v, g, t, t.root, q, cut, n) && NewRoot(cut, after, t.root, n, m) && n !in g.level && n + 1 !in g.level
  }

  lemma CutRootHalves(v: seq<Node>, g: View, t: Table, q: nat, cut: seq<Node>, n: nat, after: seq<Node>, m: Key,
                      v2: seq<Node>, r: seq<Node>, w: seq<Node>)
    requires RootCut(v, g, t, q, cut, n, after, m)
    requires v2 == v + [cut[n]] + [after[n + 1]] && RootRaised(v2, r, g, t, t.root, n + 1)
    requires w == after[t.root := WithChild(r[t.root], 0, v[t.root].keys[q - 1], n)]
    ensures |w| == |r| && t.root < n && r[n + 1].Internal? && r[n + 1].children == v[t.root].children
    ensures r[n + 1].keys == v[t.root].keys
    ensures InternalHalves(r, w, n + 1, n, q, t.root)
  {
    var cs := v[t.root].children;
    assert v2[t.root] == v[t.root];
    forall y | 0 <= y < |r| && y != n + 1 && y != n && y != t.root
      ensures w[y] == if y in cs[q..] then WithParent(r[y], n) else r[y]
    {
      assert y in cs <==> y in cs[..q] || y in cs[q..] by { assert cs == cs[..q] + cs[q..]; }
      CutRootPage(v, g, t, q, cut, n, after, m, y);
    }
  }

  lemma CutRootPage(v: seq<Node>, g: View, t: Table, q: nat, cut: seq<Node>, n: nat, after: seq<Node>, m: Key, y: nat)
    requires RootCut(v, g, t, q, cut, n, after, m)
    requires y < n && y != t.root
    ensures var cs := v[t.root].children;
            after[y] == if y in cs[q..] then WithParent(v[y], n)
                        else if y in cs[..q] then WithParent(v[y], n + 1) else v[y]
  {
    var cs := v[t.root].children;
    MovedBelow(v, g, t, t.root);
    assert PageOk(v, g, t, t.root, t.root);
    forall i, j | 0 <= i < q <= j < |cs| ensures cs[i] != cs[j] {
      assert ChildOk(v, g, t.root, i) && ChildOk(v, g, t.root, j);
      assert v[t.root].keys[i] <= v[t.root].keys[j - 1];
    }
    assert cut[t.root].children == cs[..q];
  }

  lemma CutRootSplit(v: seq<Node>, g: View, t: Table, q: nat, cut: seq<Node>, n: nat, after: seq<Node>, m: Key,
                     v2: seq<Node>, r: seq<Node>, w: seq<Node>)
    requires RootCut(v, g, t, q, cut, n, after, m)
    requires v2 == v + [cut[n]] + [after[n + 1]] && RootRaised(v2, r, g, t, t.root, n + 1)
    requires Inv(r, RaisedView(g, v2, t, n + 1), t, n + 1)
    requires w == after[t.root := WithChild(r[t.root], 0, v[t.root].keys[q - 1], n)]
    ensures InternalSplit(r, w, RaisedView(g, v2, t, n + 1), t, n + 1, n + 1, n, q, t.root, 0)
  {
    var left := n + 1;
    var g' := RaisedView(g, v2, t, left);
    CutRootHalves(v, g, t, q, cut, n, after, m, v2, r, w);
    assert PageOk(r, g', t, left, left);
    assert PageOk(r, g', t, left, t.root);
    assert KeysOk(r, g', left);
  }

  lemma CutRootRaised(v: seq<Node>, g: View, t: Table, q: nat, cut: seq<Node>, n: nat, after: seq<Node>, m: Key)
    returns (v2: seq<Node>, r: seq<Node>)
    requires RootCut(v, g, t, q, cut, n, after, m)
    ensures v2 == v + [cut[n]] + [after[n + 1]] && RootRaised(v2, r, g, t, t.root, n + 1)
    ensures Inv(r, RaisedView(g, v2, t, n + 1), t, n + 1) && |r| == |after|
  {
    assert Inv(v, g, t, t.root) && |v| == n && |cut| == n + 1 && |after| == n + 2 && n + 1 !in g.level;
    hide *;
    v2 := v + [cut[n]] + [after[n + 1]];
    InvExtend(v, g, t, t.root, cut[n]);
    InvExtend(v + [cut[n]], g, t, t.root, after[n + 1]);
    r := MakeRaised(v2, g, t, t.root, n + 1);
    RaiseRoot(v2, r, g, t, t.root, n + 1);
  }

  /** Raising the root and then splitting its copy leads to `after`, up to the root's key. */
  lemma CutRootTree(v: seq<Node>, g: View, t: Table, q: nat, cut: seq<Node>, n: nat, after: seq<Node>, m: Key)
    returns (w: seq<Node>, g2: View)
    requires RootCut(v, g, t, q, cut, n, after, m)
    ensures Inv(w, g2, t, t.root) && g2.order == g.order
    ensures g2.level == g.level[n + 1 := g.level[t.root]][t.root := g.level[t.root] + 1][n := g.level[t.root]]
    ensures |w| == |after| && w[t.root].Internal? && |w[t.root].keys| == 1 && w[t.root].children == [n + 1, n]
    ensures after == w[t.root := w[t.root].(keys := [m])]
  {
    var left := n + 1;
    hide Inv;
    var v2, r := CutRootRaised(v, g, t, q, cut, n, after, m);
    w := after[t.root := WithChild(r[t.root], 0, v[t.root].keys[q - 1], n)];
    CutRootSplit(v, g, t, q, cut, n, after, m, v2, r, w);
    hide Inv, RootRaised;
    var g1 := RaisedView(g, v2, t, left);
    SplitInternal(r, w, g1, t, left, left, n, q, t.root, 0);
    g2 := SplitInternalView(g1, r[left].keys, left, n, q, t.root);
  }

  lemma AfterCutRoot(v: seq<Node>, g: View, t: Table, q: nat, cut: seq<Node>, n: nat, after: seq<Node>, m: Key)
    returns (g': View)
    requires RootCut(v, g, t, q, cut, n, after, m)
    requires Shape(cut, g.level[n := g.level[t.root]]) && m == MaxKey(cut, g.level[n := g.level[t.root]], t.root)
    requires Fine(cut, g.level[n := g.level[t.root]], t.root)
    ensures Inv(after, g', t, 0) && g'.order == g.order
    ensures g'.level == g.level[n + 1 := g.level[t.root]][t.root := g.level[t.root] + 1][n := g.level[t.root]]
  {
    var left := n + 1;
    assert t.root in g.level && n !in g.level && n + 1 !in g.level && t.root < n;
    hide RootCut, Inv, Shape, NewRoot, WasCut;
    var w, g2 := CutRootTree(v, g, t, q, cut, n, after, m);
    InvShape(w, g2, t, t.root);
    CutLeaves(v, g, t, q, cut, n, after, m, w);
    RootInternal(w, g2, t, t.root);
    LeftMax(cut, g.level[n := g.level[t.root]], w, g2.level, t.root, left);
    hide SameBody, InternalOk, Fine;
    var l, s' := TightenMax(w, g2, t, t.root, t.root, 0);
    g' := RenamedView(g2, w[t.root].keys[0], s', t.root);
    assert s' == m && w[t.root].keys[0 := m] == [m];
    InvOverFits(after, g', t, t.root);
  }

  lemma RootInternal(pages: seq<Node>, g: View, t: Table, over: nat)
    requires Inv(pages, g, t, over) && pages[t.root].Internal?
    ensures InternalOk(pages, g, over, t.root)
  {
    assert PageOk(pages, g, t, over, t.root);
  }

  lemma CutLeaves(v: seq<Node>, g: View, t: Table, q: nat, cut: seq<Node>, n: nat, after: seq<Node>, m: Key, w: seq<Node>)
    requires RootCut(v, g, t, q, cut, n, after, m)
    requires |w| == |after| && after[t.root].Internal? && w[t.root].Internal? && w == after[t.root := w[t.root]]
    ensures forall y :: y in g.level && g.level[y] < g.level[t.root] ==> SameBody(cut, w, y)
    ensures cut[t.root].Internal? && w[n + 1].Internal? && w[n + 1].children == cut[t.root].children
  {
    forall y | 0 <= y < n && y != t.root ensures SameBody(v, cut, y) && SameBody(cut, w, y) {}
  }

  /** The copy of the root has the largest key that the root had. */
  lemma LeftMax(cut: seq<Node>, level: map<nat, nat>, w: seq<Node>, level': map<nat, nat>, root: nat, left: nat)
    requires Shape(cut, level) && Shape(w, level') && root in level && left in level'
    requires root < |cut| && left < |w|
    requires cut[root].Internal? && w[left].Internal? && w[left].children == cut[root].children
    requires level.Keys <= level'.Keys
    requires forall y :: y in level && level[y] < level[root] ==> SameBody(cut, w, y)
    ensures MaxKey(w, level', left) == MaxKey(cut, level, root) && (Fine(w, level', left) <==> Fine(cut, level, root))
  {
    assert Descends(cut, level, root) && Descends(w, level', left);
    RightLeafFrame(cut, w, level, level', Last(cut[root].children));
  }
}
