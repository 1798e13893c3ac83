/** Splitting a page: its right half moves to page n and the parent receives the new separator.
    The parent may end up with one entry too many; it is then the page `over` its size. */
module TreeSplit {
  import opened Layout
  import opened Tree
  import opened TreeSteps

  /** Node `x` with separator s and child n put in behind its child i. */
  function WithChild(x: Node, i: nat, s: Key, n: nat): (r: Node)
    requires x.Internal? && |x.children| == |x.keys| + 1 && i <= |x.keys|
    ensures r.Internal? && |r.children| == |r.keys| + 1 == |x.keys| + 2
  {
    x.(keys := x.keys[..i] + [s] + x.keys[i..], children := x.children[..i + 1] + [n] + x.children[i + 1..])
  }

  /** p keeps (lo, s] and n takes (s, hi]. */
  ghost function SplitBounds(g: View, p: nat, n: nat, s: Key): View
    requires p in g.level && p in g.hi
  {
    g.(level := g.level[n := g.level[p]], lo := g.lo[n := s], hi := g.hi[p := s][n := g.hi[p]])
  }

  /** Page p is child ip of pp, and s cuts its interval in two. */
  ghost predicate Splittable(pages: seq<Node>, g: View, t: Table, over: nat, p: nat, n: nat, pp: nat, ip: nat, s: Key)
  {
    && Inv(pages, g, t, over) && (over == p || over == 0)
    && p in g.level && p != t.root && n !in g.level && 0 < n < |pages|
    && pp == pages[p].parent && pp in g.level && pages[pp].Internal? && ip < |pages[pp].children|
    && pages[pp].children[ip] == p
    && g.lo[p] < s < g.hi[p]
  }

  /** The parent after the split is in order, with the new separator and child in place. */
  ghost predicate ParentSplit(pages: seq<Node>, pages': seq<Node>, g: View, p: nat, n: nat, pp: nat, ip: nat, s: Key)
    requires p < |pages| && n < |pages| && pp < |pages| && pages[pp].Internal?
    requires |pages[pp].children| == |pages[pp].keys| + 1 && ip < |pages[pp].children|
  {
    && |pages'| == |pages|
    && pages'[pp] == WithChild(pages[pp], ip, s, n)
    && pages'[p].parent == pages[p].parent
    && pages'[n].parent == pp && !pages'[n].isRoot
  }

  lemma ParentDistinct(pages: seq<Node>, g: View, t: Table, over: nat, p: nat, n: nat, pp: nat, ip: nat, s: Key)
    requires Splittable(pages, g, t, over, p, n, pp, ip, s)
    ensures PageOk(pages, g, t, over, pp) && InternalOk(pages, g, over, pp) && ChildOk(pages, g, pp, ip)
    ensures p != pp && n != p && n != pp && g.level[pp] == g.level[p] + 1
    ensures forall i :: 0 <= i < |pages[pp].children| && i != ip ==> pages[pp].children[i] != p
  {
    assert PageOk(pages, g, t, over, pp);
    assert ChildOk(pages, g, pp, ip);
    forall i | 0 <= i < |pages[pp].children| && i != ip ensures pages[pp].children[i] != p {
      assert ChildOk(pages, g, pp, i);
    }
  }

  lemma SplitChildLeft(pages: seq<Node>, pages': seq<Node>, g: View, g': View, t: Table, over: nat,
                         p: nat, n: nat, pp: nat, ip: nat, s: Key, i: nat)
    requires Splittable(pages, g, t, over, p, n, pp, ip, s)
    requires InternalOk(pages, g, over, pp) && ParentSplit(pages, pages', g, p, n, pp, ip, s)
    requires forall c :: c in pages[pp].children ==> c < |pages'| && pages'[c].parent == pp
    requires g' == SplitBounds(g, p, n, s).(owner := g'.owner, order := g'.order) && Dom(pages', g')
    requires i < |pages'[pp].children| && i <= ip
    ensures pp in g'.level && ChildOk(pages', g', pp, i)
  {
    ParentDistinct(pages, g, t, over, p, n, pp, ip, s);
    assert ChildOk(pages, g, pp, i);
    hide Inv, PageOk, KeysOk, InternalOk;
    assert pages'[pp].children[i] == pages[pp].children[i];
  }

  lemma SplitChildNew(pages: seq<Node>, pages': seq<Node>, g: View, g': View, t: Table, over: nat,
                         p: nat, n: nat, pp: nat, ip: nat, s: Key, i: nat)
    requires Splittable(pages, g, t, over, p, n, pp, ip, s)
    requires InternalOk(pages, g, over, pp) && ParentSplit(pages, pages', g, p, n, pp, ip, s)
    requires forall c :: c in pages[pp].children ==> c < |pages'| && pages'[c].parent == pp
    requires g' == SplitBounds(g, p, n, s).(owner := g'.owner, order := g'.order) && Dom(pages', g')
    requires i < |pages'[pp].children| && i == ip + 1
    ensures pp in g'.level && ChildOk(pages', g', pp, i)
  {
    ParentDistinct(pages, g, t, over, p, n, pp, ip, s);
    hide Inv, PageOk, KeysOk, InternalOk;
    assert pages'[pp].children[i] == n && pages'[pp].keys[ip] == s;
  }

  lemma SplitChildRight(pages: seq<Node>, pages': seq<Node>, g: View, g': View, t: Table, over: nat,
                         p: nat, n: nat, pp: nat, ip: nat, s: Key, i: nat)
    requires Splittable(pages, g, t, over, p, n, pp, ip, s)
    requires InternalOk(pages, g, over, pp) && ParentSplit(pages, pages', g, p, n, pp, ip, s)
    requires forall c :: c in pages[pp].children ==> c < |pages'| && pages'[c].parent == pp
    requires g' == SplitBounds(g, p, n, s).(owner := g'.owner, order := g'.order) && Dom(pages', g')
    requires i < |pages'[pp].children| && i > ip + 1
    ensures pp in g'.level && ChildOk(pages', g', pp, i)
  {
    ParentDistinct(pages, g, t, over, p, n, pp, ip, s);
    assert ChildOk(pages, g, pp, i - 1);
    hide Inv, PageOk, KeysOk, InternalOk;
    assert pages'[pp].children[i] == pages[pp].children[i - 1];
  }

  lemma SplitParentChild(pages: seq<Node>, pages': seq<Node>, g: View, g': View, t: Table, over: nat,
                         p: nat, n: nat, pp: nat, ip: nat, s: Key, i: nat)
    requires Splittable(pages, g, t, over, p, n, pp, ip, s)
    requires InternalOk(pages, g, over, pp) && ParentSplit(pages, pages', g, p, n, pp, ip, s)
    requires forall c :: c in pages[pp].children ==> c < |pages'| && pages'[c].parent == pp
    requires g' == SplitBounds(g, p, n, s).(owner := g'.owner, order := g'.order) && Dom(pages', g')
    requires i < |pages'[pp].children|
    ensures pp in g'.level && ChildOk(pages', g', pp, i)
  {
    hide *;
    if i <= ip {
      SplitChildLeft(pages, pages', g, g', t, over, p, n, pp, ip, s, i);
    } else if i == ip + 1 {
      SplitChildNew(pages, pages', g, g', t, over, p, n, pp, ip, s, i);
    } else {
      SplitChildRight(pages, pages', g, g', t, over, p, n, pp, ip, s, i);
    }
  }

  lemma SplitParent(pages: seq<Node>, pages': seq<Node>, g: View, g': View, t: Table, over: nat,
                    p: nat, n: nat, pp: nat, ip: nat, s: Key)
    requires Splittable(pages, g, t, over, p, n, pp, ip, s)
    requires InternalOk(pages, g, over, pp) && ParentSplit(pages, pages', g, p, n, pp, ip, s)
    requires forall c :: c in pages[pp].children ==> c < |pages'| && pages'[c].parent == pp
    requires g' == SplitBounds(g, p, n, s).(owner := g'.owner, order := g'.order) && Dom(pages', g')
    requires s in g'.owner && g'.owner[s] == pp
    requires forall k :: k in pages[pp].keys ==> k in g'.owner && g'.owner[k] == pp
    ensures pp in g'.level && InternalOk(pages', g', pp, pp)
  {
    ParentDistinct(pages, g, t, over, p, n, pp, ip, s);
    forall i | 0 <= i < |pages'[pp].children| ensures ChildOk(pages', g', pp, i) {
      SplitParentChild(pages, pages', g, g', t, over, p, n, pp, ip, s, i);
    }
    SplitParentKeys(pages, pages', g, g', t, over, p, n, pp, ip, s);
    hide Inv, PageOk, KeysOk, ChildOk;
  }

  lemma SplitParentKeys(pages: seq<Node>, pages': seq<Node>, g: View, g': View, t: Table, over: nat,
                        p: nat, n: nat, pp: nat, ip: nat, s: Key)
    requires Splittable(pages, g, t, over, p, n, pp, ip, s)
    requires InternalOk(pages, g, over, pp) && ParentSplit(pages, pages', g, p, n, pp, ip, s)
    requires g' == SplitBounds(g, p, n, s).(owner := g'.owner, order := g'.order) && Dom(pages', g')
    requires s in g'.owner && g'.owner[s] == pp
    requires forall k :: k in pages[pp].keys ==> k in g'.owner && g'.owner[k] == pp
    ensures pp in g'.level && KeysOk(pages', g', pp)
  {
    ParentDistinct(pages, g, t, over, p, n, pp, ip, s);
    assert KeysOk(pages, g, pp) && ChildOk(pages, g, pp, ip);
    assert g.lo[pp] < s < g.hi[pp];
    hide Inv, PageOk, InternalOk;
    KeyBetween(pages[pp].keys, ip, s);
    hide SortedKeys;
    forall i | 0 <= i < |pages'[pp].keys| ensures pages'[pp].keys[i] == s || pages'[pp].keys[i] in pages[pp].keys {}
  }

  lemma KeyBetween(keys: seq<Key>, i: nat, s: Key)
    requires SortedKeys(keys) && i <= |keys| && (i > 0 ==> keys[i - 1] < s) && (i < |keys| ==> s < keys[i])
    ensures SortedKeys(keys[..i] + [s] + keys[i..])
  {
    assert forall a :: 0 <= a < i ==> keys[a] < s;
    assert forall a :: i <= a < |keys| ==> s < keys[a];
  }

  ghost predicate InternalHalves(pages: seq<Node>, pages': seq<Node>, p: nat, n: nat, q: nat, pp: nat)
    requires p < |pages| && n < |pages| && pp < |pages| && |pages'| == |pages|
    requires pages[p].Internal? && |pages[p].children| == |pages[p].keys| + 1 && 1 <= q < |pages[p].children|
  {
    var x := pages[p];
    && pages'[p] == x.(keys := x.keys[..q - 1], children := x.children[..q])
    && pages'[n] == Internal(false, pp, x.keys[q..], x.children[q..])
    && (forall y :: 0 <= y < |pages| && y != p && y != n && y != pp ==>
          pages'[y] == if y in x.children[q..] then WithParent(pages[y], n) else pages[y])
  }

  ghost function SplitInternalView(g: View, keys: seq<Key>, p: nat, n: nat, q: nat, pp: nat): View
    requires p in g.level && p in g.hi && 1 <= q <= |keys|
  {
    SplitBounds(g, p, n, keys[q - 1]).(owner :=
      map k | k in g.owner :: if k == keys[q - 1] then pp else if k in keys[q..] then n else g.owner[k])
  }

  /** Everything `SplitInternal` assumes: q children stay in p, the others move to n. */
  ghost predicate InternalSplit(pages: seq<Node>, pages': seq<Node>, g: View, t: Table, over: nat,
                                p: nat, n: nat, q: nat, pp: nat, ip: nat)
  {
    && p < |pages| && pages[p].Internal? && |pages[p].children| == |pages[p].keys| + 1
    && 1 <= q <= |pages[p].keys| && |pages'| == |pages|
    && Splittable(pages, g, t, over, p, n, pp, ip, pages[p].keys[q - 1])
    && InternalOk(pages, g, over, pp) && InternalOk(pages, g, over, p)
    && ParentSplit(pages, pages', g, p, n, pp, ip, pages[p].keys[q - 1])
    && InternalHalves(pages, pages', p, n, q, pp)
    && q - 1 <= INTERNAL_NODE_MAX_KEYS && |pages[p].keys| - q <= INTERNAL_NODE_MAX_KEYS
  }

  lemma SplitInternalChildren(pages: seq<Node>, pages': seq<Node>, g: View, t: Table, over: nat,
                              p: nat, n: nat, q: nat, pp: nat, ip: nat)
    requires InternalSplit(pages, pages', g, t, over, p, n, q, pp, ip)
    ensures forall i, j :: 0 <= i < j < |pages[p].children| ==> pages[p].children[i] != pages[p].children[j]
    ensures forall c :: c in pages[p].children ==> c in g.level && g.level[c] + 1 == g.level[p] && pages[c].parent == p
    ensures p !in pages[p].children && n !in pages[p].children && pp !in pages[p].children
    ensures forall c :: c in pages[pp].children ==> c in g.level && pages'[c].parent == pp
  {
    ParentDistinct(pages, g, t, over, p, n, pp, ip, pages[p].keys[q - 1]);
    forall i | 0 <= i < |pages[p].children|
      ensures var c := pages[p].children[i]; c in g.level && g.level[c] + 1 == g.level[p] && pages[c].parent == p
      ensures g.hi[pages[p].children[i]] == (if i == |pages[p].keys| then g.hi[p] else pages[p].keys[i])
    {
      assert ChildOk(pages, g, p, i);
    }
    assert KeysOk(pages, g, p);
    forall i | 0 <= i < |pages[pp].children|
      ensures var c := pages[pp].children[i]; c in g.level && g.level[c] == g.level[p] && pages'[c].parent == pp
    {
      assert ChildOk(pages, g, pp, i);
    }
  }

  lemma SplitInternalLeft(pages: seq<Node>, pages': seq<Node>, g: View, g': View, t: Table, over: nat,
                          p: nat, n: nat, q: nat, pp: nat, ip: nat)
    requires InternalSplit(pages, pages', g, t, over, p, n, q, pp, ip)
    requires g' == SplitInternalView(g, pages[p].keys, p, n, q, pp) && Dom(pages', g')
    ensures p in g'.level && InternalOk(pages', g', pp, p)
  {
    ParentDistinct(pages, g, t, over, p, n, pp, ip, pages[p].keys[q - 1]);
    SplitInternalChildren(pages, pages', g, t, over, p, n, q, pp, ip);
    var cs := pages[p].children;
    assert KeysOk(pages, g, p);
    forall i | 0 <= i < q ensures ChildOk(pages', g', p, i) {
      assert ChildOk(pages, g, p, i);
      assert cs[i] !in cs[q..];
    }
    assert KeysOk(pages', g', p) by {
      forall i | 0 <= i < q - 1 ensures pages[p].keys[i] !in pages[p].keys[q..] {}
    }
  }

  lemma SplitInternalRight(pages: seq<Node>, pages': seq<Node>, g: View, g': View, t: Table, over: nat,
                           p: nat, n: nat, q: nat, pp: nat, ip: nat)
    requires InternalSplit(pages, pages', g, t, over, p, n, q, pp, ip)
    requires g' == SplitInternalView(g, pages[p].keys, p, n, q, pp) && Dom(pages', g')
    ensures n in g'.level && InternalOk(pages', g', pp, n)
  {
    ParentDistinct(pages, g, t, over, p, n, pp, ip, pages[p].keys[q - 1]);
    SplitInternalChildren(pages, pages', g, t, over, p, n, q, pp, ip);
    var cs := pages[p].children;
    assert KeysOk(pages, g, p);
    forall i | 0 <= i < |cs| - q ensures ChildOk(pages', g', n, i) {
      assert ChildOk(pages, g, p, q + i);
      assert cs[q + i] == cs[q..][i];
    }
    assert KeysOk(pages', g', n) by {
      forall i | 0 <= i < |pages[p].keys| - q
        ensures pages'[n].keys[i] == pages[p].keys[q + i] && pages'[n].keys[i] in pages[p].keys[q..] {}
    }
  }

  lemma SplitInternalOtherParent(pages: seq<Node>, pages': seq<Node>, g: View, g': View, t: Table, over: nat,
                                 p: nat, n: nat, q: nat, pp: nat, ip: nat, x: nat)
    requires InternalSplit(pages, pages', g, t, over, p, n, q, pp, ip)
    requires g' == SplitInternalView(g, pages[p].keys, p, n, q, pp)
    requires x in g.level && x != p && x != pp && x != t.root
    ensures ParentOk(pages', g', x)
  {
    ParentDistinct(pages, g, t, over, p, n, pp, ip, pages[p].keys[q - 1]);
    SplitInternalChildren(pages, pages', g, t, over, p, n, q, pp, ip);
    assert PageOk(pages, g, t, over, x);
    if pages[x].parent == p {
      assert x in pages[p].children[..q] || x in pages[p].children[q..];
    } else if pages[x].parent == pp {
      assert x in pages[pp].children[..ip + 1] || x in pages[pp].children[ip + 1..];
    }
  }

  lemma SplitInternalOtherKeys(pages: seq<Node>, pages': seq<Node>, g: View, g': View, t: Table, over: nat,
                               p: nat, n: nat, q: nat, pp: nat, ip: nat, x: nat)
    requires InternalSplit(pages, pages', g, t, over, p, n, q, pp, ip)
    requires g' == SplitInternalView(g, pages[p].keys, p, n, q, pp) && Dom(pages', g')
    requires x in g.level && x != p && x != pp && pages[x].Internal? && KeysOk(pages, g, x)
    ensures x in g'.level && pages'[x].Internal? && KeysOk(pages', g', x)
  {
    assert KeysOk(pages, g, p);
  }

  lemma SplitInternalOtherChild(pages: seq<Node>, pages': seq<Node>, g: View, g': View, t: Table, over: nat,
                                p: nat, n: nat, q: nat, pp: nat, ip: nat, x: nat, i: nat)
    requires InternalSplit(pages, pages', g, t, over, p, n, q, pp, ip)
    requires g' == SplitInternalView(g, pages[p].keys, p, n, q, pp) && Dom(pages', g')
    requires x in g.level && x != p && x != pp && pages[x].Internal? && InternalOk(pages, g, over, x)
    requires i < |pages[x].children|
    ensures x in g'.level && pages'[x].Internal? && pages'[x].keys == pages[x].keys
    ensures pages'[x].children == pages[x].children && ChildOk(pages', g', x, i)
  {
    ParentDistinct(pages, g, t, over, p, n, pp, ip, pages[p].keys[q - 1]);
    SplitInternalChildren(pages, pages', g, t, over, p, n, q, pp, ip);
    assert ChildOk(pages, g, x, i);
  }

  /** Pages that are neither half nor the parent. */
  lemma SplitInternalOther(pages: seq<Node>, pages': seq<Node>, g: View, g': View, t: Table, over: nat,
                           p: nat, n: nat, q: nat, pp: nat, ip: nat, x: nat)
    requires InternalSplit(pages, pages', g, t, over, p, n, q, pp, ip)
    requires g' == SplitInternalView(g, pages[p].keys, p, n, q, pp) && Dom(pages', g')
    requires x in g.level && x != p && x != pp
    ensures PageOk(pages', g', t, pp, x)
  {
    assert PageOk(pages, g, t, over, x);
    if x != t.root {
      SplitInternalOtherParent(pages, pages', g, g', t, over, p, n, q, pp, ip, x);
    }
    if pages[x].Internal? {
      SplitInternalOtherKeys(pages, pages', g, g', t, over, p, n, q, pp, ip, x);
      forall i | 0 <= i < |pages[x].children| ensures ChildOk(pages', g', x, i) {
        SplitInternalOtherChild(pages, pages', g, g', t, over, p, n, q, pp, ip, x, i);
      }
      assert InternalOk(pages', g', pp, x);
    } else {
      assert LeafOk(pages', g', t, pp, x);
    }
  }

  lemma SplitInternalOrder(pages: seq<Node>, pages': seq<Node>, g: View, g': View, t: Table, over: nat,
                           p: nat, n: nat, q: nat, pp: nat, ip: nat)
    requires InternalSplit(pages, pages', g, t, over, p, n, q, pp, ip)
    requires g' == SplitInternalView(g, pages[p].keys, p, n, q, pp) && Dom(pages', g')
    ensures OrderOk(pages', g')
  {
    ParentDistinct(pages, g, t, over, p, n, pp, ip, pages[p].keys[q - 1]);
    OrderFrame(pages, g, pages', g');
  }

  lemma SplitInternalBoundary(pages: seq<Node>, pages': seq<Node>, g: View, g': View, t: Table, over: nat,
                              p: nat, n: nat, q: nat, pp: nat, ip: nat)
    requires InternalSplit(pages, pages', g, t, over, p, n, q, pp, ip)
    requires g' == SplitInternalView(g, pages[p].keys, p, n, q, pp) && Dom(pages', g')
    ensures BoundaryOk(pages', g')
  {
    forall x, l | x in g'.level && l in g'.level && pages'[l].Leaf? ensures Outside(g', x, l) {
      assert l != p && l != n && pages[l].Leaf?;
      if x == n {
        SeparatorsClear(pages, g, t, over, p, q - 1, l);
      } else {
        assert Outside(g, x, l);
      }
    }
  }

  /** Splitting an internal page keeps the tree in order. */
  lemma SplitInternal(pages: seq<Node>, pages': seq<Node>, g: View, t: Table, over: nat,
                      p: nat, n: nat, q: nat, pp: nat, ip: nat)
    requires InternalSplit(pages, pages', g, t, over, p, n, q, pp, ip)
    ensures Inv(pages', SplitInternalView(g, pages[p].keys, p, n, q, pp), t, pp)
  {
    var g' := SplitInternalView(g, pages[p].keys, p, n, q, pp);
    var s := pages[p].keys[q - 1];
    ParentDistinct(pages, g, t, over, p, n, pp, ip, s);
    assert Dom(pages', g');
    SplitInternalChildren(pages, pages', g, t, over, p, n, q, pp, ip);
    assert KeysOk(pages, g, p) && KeysOk(pages, g, pp);
    SplitParent(pages, pages', g, g', t, over, p, n, pp, ip, s);
    SplitInternalLeft(pages, pages', g, g', t, over, p, n, q, pp, ip);
    SplitInternalRight(pages, pages', g, g', t, over, p, n, q, pp, ip);
    SplitInternalOrder(pages, pages', g, g', t, over, p, n, q, pp, ip);
    SplitInternalBoundary(pages, pages', g, g', t, over, p, n, q, pp, ip);
    assert PageOk(pages, g, t, over, p);
    forall x | x in g'.level ensures PageOk(pages', g', t, pp, x) {
      if x == p {
        assert x in pages'[pp].children by { assert pages'[pp].children[ip] == p; }
      } else if x == n {
        assert x in pages'[pp].children by { assert pages'[pp].children[ip + 1] == n; }
      } else if x == pp {
        SplitParentUp(pages, pages', g, g', t, over, p, n, q, pp, ip);
      } else {
        SplitInternalOther(pages, pages', g, g', t, over, p, n, q, pp, ip, x);
      }
    }
  }

  /** The parent keeps its own parent. */
  lemma SplitParentUp(pages: seq<Node>, pages': seq<Node>, g: View, g': View, t: Table, over: nat,
                      p: nat, n: nat, q: nat, pp: nat, ip: nat)
    requires InternalSplit(pages, pages', g, t, over, p, n, q, pp, ip)
    requires g' == SplitInternalView(g, pages[p].keys, p, n, q, pp) && Dom(pages', g')
    requires InternalOk(pages', g', pp, pp)
    ensures PageOk(pages', g', t, pp, pp)
  {
    assert PageOk(pages, g, t, over, pp);
    if pp != t.root {
      var y := pages[pp].parent;
      assert PageOk(pages, g, t, over, y);
      assert ChildOk(pages, g, pp, ip);
      var j :| 0 <= j < |pages[y].children| && pages[y].children[j] == pp;
      assert ChildOk(pages, g, y, j);
      SplitInternalChildren(pages, pages', g, t, over, p, n, q, pp, ip);
      assert pages'[y].children == pages[y].children;
    }
  }
}
