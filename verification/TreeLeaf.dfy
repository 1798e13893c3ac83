/** Edits of a leaf, the leaf split, and raising the root. */
module TreeLeaf {
  import opened Layout
  import opened Tree
  import opened TreeSteps
  import opened TreeSplit

  /** Any new content of leaf p that stays sorted and inside its interval keeps the tree in order. */
  lemma LeafEditPage(pages: seq<Node>, g: View, t: Table, p: nat, cells: seq<Cell>, over: nat, x: nat)
    requires Inv(pages, g, t, 0) && p in g.level && pages[p].Leaf? && (over == 0 || over == p) && x in g.level
    requires SortedCells(cells) && |cells| <= t.cap + (if p == over then 1 else 0)
    requires forall i :: 0 <= i < |cells| ==> g.lo[p] < cells[i].key <= g.hi[p]
    ensures var pages' := pages[p := pages[p].(cells := cells)]; Dom(pages', g) && PageOk(pages', g, t, over, x)
  {
    var pages' := pages[p := pages[p].(cells := cells)];
    assert PageOk(pages, g, t, 0, x);
    hide OrderOk, BoundaryOk, PagesOk;
    if pages[x].Internal? {
      assert KeysOk(pages', g, x) by { assert KeysOk(pages, g, x); }
      forall i | 0 <= i < |pages[x].children| ensures ChildOk(pages', g, x, i) {
        assert ChildOk(pages, g, x, i);
      }
    }
  }

  lemma LeafEditOrder(pages: seq<Node>, g: View, t: Table, p: nat, cells: seq<Cell>)
    requires Inv(pages, g, t, 0) && p in g.level && pages[p].Leaf?
    ensures var pages' := pages[p := pages[p].(cells := cells)]; Dom(pages', g) && OrderOk(pages', g) && BoundaryOk(pages', g)
  {
    var pages' := pages[p := pages[p].(cells := cells)];
    hide PagesOk;
    OrderFrame(pages, g, pages', g);
    hide OrderOk;
    forall x, l | x in g.level && l in g.level && pages'[l].Leaf? ensures Outside(g, x, l) { assert pages[l].Leaf?; }
  }

  lemma LeafEdit(pages: seq<Node>, g: View, t: Table, p: nat, cells: seq<Cell>, over: nat)
    requires Inv(pages, g, t, 0) && p in g.level && pages[p].Leaf? && (over == 0 || over == p)
    requires SortedCells(cells) && |cells| <= t.cap + (if p == over then 1 else 0)
    requires forall i :: 0 <= i < |cells| ==> g.lo[p] < cells[i].key <= g.hi[p]
    ensures Inv(pages[p := pages[p].(cells := cells)], g, t, over)
  {
    LeafEditOrder(pages, g, t, p, cells);
    hide PageOk, OrderOk, BoundaryOk, SortedCells;
    forall x | x in g.level ensures PageOk(pages[p := pages[p].(cells := cells)], g, t, over, x) {
      LeafEditPage(pages, g, t, p, cells, over, x);
    }
  }

  /** Leaf p keeps its first z cells, n takes the others and the place behind p in the chain. */
  ghost predicate LeafSplit(pages: seq<Node>, pages': seq<Node>, g: View, t: Table,
                            p: nat, n: nat, z: nat, pp: nat, ip: nat, j: nat)
  {
    && p < |pages| && pages[p].Leaf? && 0 < z < |pages[p].cells|
    && z <= t.cap && |pages[p].cells| - z <= t.cap && |pages'| == |pages|
    && Splittable(pages, g, t, p, p, n, pp, ip, pages[p].cells[z - 1].key)
    && InternalOk(pages, g, p, pp)
    && j < |g.order| && g.order[j] == p
    && pages' == pages[p := pages[p].(cells := pages[p].cells[..z], next := n)]
                      [n := Leaf(false, pp, pages[p].next, pages[p].cells[z..])]
                      [pp := WithChild(pages[pp], ip, pages[p].cells[z - 1].key, n)]
  }

  ghost function SplitLeafView(g: View, p: nat, n: nat, s: Key, pp: nat, j: nat): View
    requires p in g.level && p in g.hi && j < |g.order|
  {
    SplitBounds(g, p, n, s).(owner := g.owner[s := pp], order := g.order[..j + 1] + [n] + g.order[j + 1..])
  }

  lemma SplitLeafOther(pages: seq<Node>, pages': seq<Node>, g: View, g': View, t: Table,
                       p: nat, n: nat, z: nat, pp: nat, ip: nat, j: nat, x: nat)
    requires LeafSplit(pages, pages', g, t, p, n, z, pp, ip, j)
    requires g' == SplitLeafView(g, p, n, pages[p].cells[z - 1].key, pp, j) && Dom(pages', g')
    requires x in g.level && x != p && x != pp
    ensures PageOk(pages', g', t, pp, x)
  {
    ParentDistinct(pages, g, t, p, p, n, pp, ip, pages[p].cells[z - 1].key);
    assert PageOk(pages, g, t, p, x);
    if x != t.root && pages[x].parent == pp {
      assert x in pages[pp].children[..ip + 1] || x in pages[pp].children[ip + 1..];
    }
    if pages[x].Internal? {
      SplitLeafOtherInternal(pages, pages', g, g', t, p, n, z, pp, ip, j, x);
    }
  }

  lemma SplitLeafOtherInternal(pages: seq<Node>, pages': seq<Node>, g: View, g': View, t: Table,
                               p: nat, n: nat, z: nat, pp: nat, ip: nat, j: nat, x: nat)
    requires LeafSplit(pages, pages', g, t, p, n, z, pp, ip, j)
    requires g' == SplitLeafView(g, p, n, pages[p].cells[z - 1].key, pp, j) && Dom(pages', g')
    requires x in g.level && x != p && x != pp && pages[x].Internal? && InternalOk(pages, g, p, x)
    ensures pages'[x] == pages[x] && x in g'.level && InternalOk(pages', g', pp, x)
  {
    ParentDistinct(pages, g, t, p, p, n, pp, ip, pages[p].cells[z - 1].key);
    assert KeysOk(pages', g', x) by {
      assert KeysOk(pages, g, x);
      forall i | 0 <= i < |pages[x].keys| ensures pages[x].keys[i] != pages[p].cells[z - 1].key {
        SeparatorsClear(pages, g, t, p, x, i, p);
      }
    }
    forall i | 0 <= i < |pages[x].children| ensures ChildOk(pages', g', x, i) {
      assert ChildOk(pages, g, x, i);
    }
  }

  lemma SplitLeafHalves(pages: seq<Node>, pages': seq<Node>, g: View, g': View, t: Table,
                        p: nat, n: nat, z: nat, pp: nat, ip: nat, j: nat)
    requires LeafSplit(pages, pages', g, t, p, n, z, pp, ip, j)
    requires g' == SplitLeafView(g, p, n, pages[p].cells[z - 1].key, pp, j) && Dom(pages', g')
    ensures PageOk(pages', g', t, pp, p) && n in g'.level && PageOk(pages', g', t, pp, n)
  {
    ParentDistinct(pages, g, t, p, p, n, pp, ip, pages[p].cells[z - 1].key);
    assert PageOk(pages, g, t, p, p);
    assert pages'[pp].children[ip] == p && pages'[pp].children[ip + 1] == n;
    hide OrderOk, BoundaryOk, PagesOk, ChildOk, KeysOk;
    assert LeafOk(pages', g', t, pp, p) && LeafOk(pages', g', t, pp, n);
  }

  lemma SplitLeafParent(pages: seq<Node>, pages': seq<Node>, g: View, g': View, t: Table,
                        p: nat, n: nat, z: nat, pp: nat, ip: nat, j: nat)
    requires LeafSplit(pages, pages', g, t, p, n, z, pp, ip, j)
    requires g' == SplitLeafView(g, p, n, pages[p].cells[z - 1].key, pp, j) && Dom(pages', g')
    ensures PageOk(pages', g', t, pp, pp)
  {
    var s := pages[p].cells[z - 1].key;
    ParentDistinct(pages, g, t, p, p, n, pp, ip, s);
    assert PageOk(pages, g, t, p, pp) && KeysOk(pages, g, pp);
    forall c | c in pages[pp].children ensures c < |pages'| && pages'[c].parent == pp {
      var i :| 0 <= i < |pages[pp].children| && pages[pp].children[i] == c;
      assert ChildOk(pages, g, pp, i);
    }
    SplitParent(pages, pages', g, g', t, p, p, n, pp, ip, s);
  }

  lemma OrderDistinct(pages: seq<Node>, g: View, t: Table, over: nat, j: nat)
    requires Inv(pages, g, t, over) && j < |g.order|
    ensures forall i :: 0 <= i < |g.order| && i != j ==> g.order[i] != g.order[j]
  {
    forall i | 0 <= i < |g.order| && i != j ensures g.order[i] != g.order[j] {
      if i < j { OrderSorted(pages, g, t, over, i, j); } else { OrderSorted(pages, g, t, over, j, i); }
    }
  }

  /** Positions up to j stay, n follows, the rest moves up by one. */
  lemma OrderShift(g: View, g': View, n: nat, j: nat)
    requires j < |g.order| && g'.order == g.order[..j + 1] + [n] + g.order[j + 1..]
    ensures |g'.order| == |g.order| + 1
    ensures forall i :: 0 <= i <= j ==> g'.order[i] == g.order[i]
    ensures g'.order[j + 1] == n
    ensures forall i :: j + 1 < i <= |g.order| ==> g'.order[i] == g.order[i - 1]
  {
  }

  lemma SplitLeafLink(pages: seq<Node>, pages': seq<Node>, g: View, g': View, t: Table,
                      p: nat, n: nat, z: nat, pp: nat, ip: nat, j: nat, i: nat)
    requires LeafSplit(pages, pages', g, t, p, n, z, pp, ip, j)
    requires g' == SplitLeafView(g, p, n, pages[p].cells[z - 1].key, pp, j) && Dom(pages', g')
    requires i <= |g.order| && |g'.order| == |g.order| + 1
    ensures LinkOk(pages', g', i)
  {
    OrderDistinct(pages, g, t, p, j);
    OrderShift(g, g', n, j);
    SplitLeafNexts(pages, pages', g, t, p, n, z, pp, ip, j);
    assert OrderOk(pages, g) && p in g.level && g' == SplitLeafView(g, p, n, pages[p].cells[z - 1].key, pp, j);
    hide Inv, LeafSplit;
  }

  /** The chain after the split: n stands behind p. */
  lemma SplitLeafNexts(pages: seq<Node>, pages': seq<Node>, g: View, t: Table,
                       p: nat, n: nat, z: nat, pp: nat, ip: nat, j: nat)
    requires LeafSplit(pages, pages', g, t, p, n, z, pp, ip, j)
    ensures n < |pages| && n !in g.level && p in g.level && pages[p].Leaf?
    ensures pages'[p].Leaf? && pages'[p].next == n && pages'[n].Leaf? && pages'[n].next == pages[p].next
    ensures forall l :: l in g.level && l != p ==>
              l < |pages| && (pages[l].Leaf? ==> pages'[l].Leaf? && pages'[l].next == pages[l].next)
  {
    ParentDistinct(pages, g, t, p, p, n, pp, ip, pages[p].cells[z - 1].key);
    hide PagesOk, BoundaryOk, OrderOk, PageOk, InternalOk, ChildOk;
  }

  lemma SplitLeafAll(pages: seq<Node>, pages': seq<Node>, g: View, g': View, t: Table,
                     p: nat, n: nat, z: nat, pp: nat, ip: nat, j: nat)
    requires LeafSplit(pages, pages', g, t, p, n, z, pp, ip, j)
    requires g' == SplitLeafView(g, p, n, pages[p].cells[z - 1].key, pp, j) && Dom(pages', g')
    ensures forall l :: l in g'.level && pages'[l].Leaf? ==> l in g'.order
  {
    ParentDistinct(pages, g, t, p, p, n, pp, ip, pages[p].cells[z - 1].key);
    forall l | l in g'.level && pages'[l].Leaf? ensures l in g'.order {
      if l == n { assert g'.order[j + 1] == n; }
      else {
        assert l in g.order;
        assert l in g.order[..j + 1] || l in g.order[j + 1..];
      }
    }
  }

  lemma SplitLeafOrder(pages: seq<Node>, pages': seq<Node>, g: View, g': View, t: Table,
                       p: nat, n: nat, z: nat, pp: nat, ip: nat, j: nat)
    requires LeafSplit(pages, pages', g, t, p, n, z, pp, ip, j)
    requires g' == SplitLeafView(g, p, n, pages[p].cells[z - 1].key, pp, j) && Dom(pages', g')
    ensures OrderOk(pages', g')
  {
    OrderShift(g, g', n, j);
    assert |g'.order| == |g.order| + 1;
    hide Inv, LeafSplit, SplitLeafView, SplitBounds, LinkOk;
    SplitLeafAll(pages, pages', g, g', t, p, n, z, pp, ip, j);
    forall i | 0 <= i <= |g.order| ensures LinkOk(pages', g', i) {
      SplitLeafLink(pages, pages', g, g', t, p, n, z, pp, ip, j, i);
    }
    OrderFromLinks(pages', g');
  }

  lemma SplitLeafBoundary(pages: seq<Node>, pages': seq<Node>, g: View, g': View, t: Table,
                          p: nat, n: nat, z: nat, pp: nat, ip: nat, j: nat)
    requires LeafSplit(pages, pages', g, t, p, n, z, pp, ip, j)
    requires g' == SplitLeafView(g, p, n, pages[p].cells[z - 1].key, pp, j) && Dom(pages', g')
    ensures BoundaryOk(pages', g')
  {
    ParentDistinct(pages, g, t, p, p, n, pp, ip, pages[p].cells[z - 1].key);
    forall x, l | x in g'.level && l in g'.level && pages'[l].Leaf? ensures Outside(g', x, l) {
      var x0, l0 := if x == n then p else x, if l == n then p else l;
      assert Outside(g, x0, l0);
      if x0 == p && l0 != p { LeavesDisjoint(pages, g, t, p, p, l0); }
    }
  }

  /** Splitting a leaf keeps the tree in order. */
  lemma SplitLeaf(pages: seq<Node>, pages': seq<Node>, g: View, t: Table,
                  p: nat, n: nat, z: nat, pp: nat, ip: nat, j: nat)
    requires LeafSplit(pages, pages', g, t, p, n, z, pp, ip, j)
    ensures Inv(pages', SplitLeafView(g, p, n, pages[p].cells[z - 1].key, pp, j), t, pp)
  {
    var g' := SplitLeafView(g, p, n, pages[p].cells[z - 1].key, pp, j);
    ParentDistinct(pages, g, t, p, p, n, pp, ip, pages[p].cells[z - 1].key);
    assert Dom(pages', g');
    SplitLeafHalves(pages, pages', g, g', t, p, n, z, pp, ip, j);
    SplitLeafParent(pages, pages', g, g', t, p, n, z, pp, ip, j);
    SplitLeafOrder(pages, pages', g, g', t, p, n, z, pp, ip, j);
    SplitLeafBoundary(pages, pages', g, g', t, p, n, z, pp, ip, j);
    forall x | x in g'.level ensures PageOk(pages', g', t, pp, x) {
      if x != p && x != n && x != pp {
        SplitLeafOther(pages, pages', g, g', t, p, n, z, pp, ip, j, x);
      }
    }
  }

  /** The root's content moves to page `left`, the root becomes an internal page above it,
      and the children that moved along point to `left`. */
  ghost predicate RootRaised(pages: seq<Node>, pages': seq<Node>, g: View, t: Table, over: nat, left: nat)
  {
    && Inv(pages, g, t, over) && (over == t.root || over == 0)
    && left !in g.level && 0 < left < |pages| && |pages'| == |pages|
    && pages'[left] == CopiedTo(pages[t.root], t.root)
    && pages'[t.root] == Internal(true, 0, [], [left])
    && (forall y :: 0 <= y < |pages| && y != left && y != t.root ==>
          pages'[y] == if pages[t.root].Internal? && y in pages[t.root].children
                       then WithParent(pages[y], left) else pages[y])
  }

  ghost function RaisedView(g: View, pages: seq<Node>, t: Table, left: nat): View
    requires t.root in g.level && t.root < |pages|
  {
    g.(level := g.level[left := g.level[t.root]][t.root := g.level[t.root] + 1],
       lo := g.lo[left := -1], hi := g.hi[left := MAX_KEY],
       owner := map k | k in g.owner :: if g.owner[k] == t.root then left else g.owner[k],
       order := if pages[t.root].Leaf? then [left] else g.order)
  }

  lemma Highest(level: map<nat, nat>) returns (m: nat)
    requires level.Keys != {}
    ensures m in level && forall x :: x in level ==> level[x] <= level[m]
  {
    m :| m in level;
    var rest := level.Keys - {m};
    while rest != {}
      invariant m in level && rest <= level.Keys
      invariant forall x :: x in level && x !in rest ==> level[x] <= level[m]
    {
      var y :| y in rest;
      rest := rest - {y};
      if level[y] > level[m] { m := y; }
    }
  }

  /** No page is as high as the root. */
  lemma RootTop(pages: seq<Node>, g: View, t: Table, over: nat)
    requires Inv(pages, g, t, over)
    ensures forall x :: x in g.level && x != t.root ==> g.level[x] < g.level[t.root]
  {
    var m := Highest(g.level);
    forall x | x in g.level && x != t.root ensures g.level[x] < g.level[m] {
      PageBelowParent(pages, g, t, over, x);
    }
  }

  lemma PageBelowParent(pages: seq<Node>, g: View, t: Table, over: nat, x: nat)
    requires Inv(pages, g, t, over) && x in g.level && x != t.root
    ensures var y := pages[x].parent;
            y in g.level && pages[y].Internal? && x in pages[y].children && g.level[y] == g.level[x] + 1
  {
    var y := pages[x].parent;
    assert PageOk(pages, g, t, over, x);
    assert PageOk(pages, g, t, over, y);
    var i :| 0 <= i < |pages[y].children| && pages[y].children[i] == x;
    assert ChildOk(pages, g, y, i);
  }

  /** When the root is a leaf it is the only leaf. */
  lemma RootLeafAlone(pages: seq<Node>, g: View, t: Table, over: nat)
    requires Inv(pages, g, t, over) && pages[t.root].Leaf?
    ensures g.order == [t.root] && g.level.Keys == {t.root} && pages[t.root].next == 0
  {
    assert PageOk(pages, g, t, over, t.root);
    RootTop(pages, g, t, over);
    assert t.root in g.order;
    if |g.order| > 1 { OrderSorted(pages, g, t, over, 0, 1); }
  }


  lemma RaiseChildren(pages: seq<Node>, pages': seq<Node>, g: View, t: Table, over: nat, left: nat)
    requires RootRaised(pages, pages', g, t, over, left) && pages[t.root].Internal?
    ensures PageOk(pages, g, t, over, t.root)
    ensures |pages[t.root].children| == |pages[t.root].keys| + 1
    ensures forall c :: c in pages[t.root].children ==>
              c in g.level && c != t.root && pages[c].parent == t.root && pages'[c] == WithParent(pages[c], left)
  {
    assert PageOk(pages, g, t, over, t.root);
    forall i | 0 <= i < |pages[t.root].children|
      ensures var c := pages[t.root].children[i];
              c in g.level && g.level[c] + 1 == g.level[t.root] && pages[c].parent == t.root
    {
      assert ChildOk(pages, g, t.root, i);
    }
  }

  lemma RaiseTop(pages: seq<Node>, pages': seq<Node>, g: View, g': View, t: Table, over: nat, left: nat, over': nat)
    requires RootRaised(pages, pages', g, t, over, left) && over' == (if over == 0 then 0 else left)
    requires g' == RaisedView(g, pages, t, left) && Dom(pages', g')
    ensures PageOk(pages', g', t, over', t.root) && PageOk(pages', g', t, over', left)
  {
    assert PageOk(pages, g, t, over, t.root);
    assert ChildOk(pages', g', t.root, 0);
    if pages[t.root].Leaf? {
      assert LeafOk(pages', g', t, over', left);
    } else {
      RaiseChildren(pages, pages', g, t, over, left);
      assert KeysOk(pages', g', left) by { assert KeysOk(pages, g, t.root); }
      forall i | 0 <= i < |pages'[left].children| ensures ChildOk(pages', g', left, i) {
        assert ChildOk(pages, g, t.root, i);
      }
    }
  }

  lemma RaiseOther(pages: seq<Node>, pages': seq<Node>, g: View, g': View, t: Table, over: nat, left: nat, over': nat, x: nat)
    requires RootRaised(pages, pages', g, t, over, left) && over' == (if over == 0 then 0 else left)
    requires g' == RaisedView(g, pages, t, left) && Dom(pages', g') && pages[t.root].Internal?
    requires x in g.level && x != t.root
    ensures PageOk(pages', g', t, over', x)
  {
    RaiseChildren(pages, pages', g, t, over, left);
    PageBelowParent(pages, g, t, over, x);
    assert PageOk(pages, g, t, over, x);
    hide OrderOk, BoundaryOk;
    if pages[x].Internal? {
      RaiseOtherInternal(pages, pages', g, g', t, over, left, over', x);
    }
  }

  lemma RaiseOtherInternal(pages: seq<Node>, pages': seq<Node>, g: View, g': View, t: Table, over: nat, left: nat, over': nat, x: nat)
    requires RootRaised(pages, pages', g, t, over, left) && over' == (if over == 0 then 0 else left)
    requires g' == RaisedView(g, pages, t, left) && Dom(pages', g') && pages[t.root].Internal?
    requires x in g.level && x != t.root && pages[x].Internal? && InternalOk(pages, g, over, x)
    ensures x in g'.level && pages'[x].Internal? && InternalOk(pages', g', over', x)
  {
    RaiseChildren(pages, pages', g, t, over, left);
    RootTop(pages, g, t, over);
    hide OrderOk, BoundaryOk, PagesOk, PageOk, SortedKeys;
    assert KeysOk(pages', g', x) by { assert KeysOk(pages, g, x); }
    hide KeysOk;
    forall i | 0 <= i < |pages[x].children| ensures ChildOk(pages', g', x, i) {
      assert ChildOk(pages, g, x, i);
    }
  }

  lemma RaiseRest(pages: seq<Node>, pages': seq<Node>, g: View, g': View, t: Table, over: nat, left: nat)
    requires RootRaised(pages, pages', g, t, over, left)
    requires g' == RaisedView(g, pages, t, left) && Dom(pages', g')
    ensures OrderOk(pages', g') && BoundaryOk(pages', g')
  {
    hide PagesOk, PageOk;
    if pages[t.root].Leaf? {
      RootLeafAlone(pages, g, t, over);
      hide Inv;
    } else {
      OrderFrame(pages, g, pages', g');
      hide OrderOk, BoundaryOk, Inv;
      RaiseBoundary(pages, pages', g, g', t, over, left);
    }
  }

  lemma RaiseBoundary(pages: seq<Node>, pages': seq<Node>, g: View, g': View, t: Table, over: nat, left: nat)
    requires RootRaised(pages, pages', g, t, over, left) && pages[t.root].Internal?
    requires g' == RaisedView(g, pages, t, left) && Dom(pages', g')
    ensures BoundaryOk(pages', g')
  {
    hide PagesOk, OrderOk;
    forall x, l | x in g'.level && l in g'.level && pages'[l].Leaf? ensures Outside(g', x, l) {
      assert Outside(g, if x == left then t.root else x, l);
    }
  }

  /** Raising the root keeps the tree in order. */
  lemma RaiseRoot(pages: seq<Node>, pages': seq<Node>, g: View, t: Table, over: nat, left: nat)
    requires RootRaised(pages, pages', g, t, over, left)
    ensures Inv(pages', RaisedView(g, pages, t, left), t, if over == 0 then 0 else left)
  {
    var g' := RaisedView(g, pages, t, left);
    var over' := if over == 0 then 0 else left;
    assert Dom(pages', g');
    RaiseTop(pages, pages', g, g', t, over, left, over');
    RaiseRest(pages, pages', g, g', t, over, left);
    forall x | x in g'.level ensures PageOk(pages', g', t, over', x) {
      if x != t.root && x != left {
        if pages[t.root].Leaf? { RootLeafAlone(pages, g, t, over); }
        RaiseOther(pages, pages', g, g', t, over, left, over', x);
      }
    }
  }
}
