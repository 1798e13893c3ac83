/** When an insert that must split a leaf below the root ends in a tree again. get_node_max_key
    finds no key at an empty leaf, so certain pages on the way up must end with a leaf that is not
    empty; `Clear` lists them. */
module TreeClear {
  import opened Layout
  import opened Tree
  import TreeHalves

  /** Page y is the parent that page p names, higher up in the tree. */
  ghost predicate HasParent(pages: seq<Node>, level: map<nat, nat>, root: nat, p: nat)
    requires p < |pages| && p in level && root in level
  {
    var y := pages[p].parent;
    y in level && y < |pages| && pages[y].Internal? && level[p] < level[y] <= level[root]
  }

  /** Page p may receive a new child behind its child i. With room in p, p must end with a leaf that
      is not empty. When p is full, so must its lower half; its upper half must when the child goes
      there or when p is not the root, and then the parent must be clear as well. */
  ghost predicate Clear(pages: seq<Node>, level: map<nat, nat>, root: nat, p: nat, i: nat)
    requires Shape(pages, level) && root in level && p in level && level[p] <= level[root]
    decreases level[root] - level[p]
  {
    assert Descends(pages, level, p);
    && pages[p].Internal?
    && if |pages[p].keys| < INTERNAL_NODE_MAX_KEYS then Fine(pages, level, p)
       else
         && |pages[p].children| > TreeHalves.SPLIT && Fine(pages, level, pages[p].children[TreeHalves.SPLIT])
         && if p == root then i < TreeHalves.SPLIT || Fine(pages, level, p)
            else
              && Fine(pages, level, p) && HasParent(pages, level, root, p)
              && Clear(pages, level, root, pages[p].parent, IndexIn(pages[pages[p].parent].children, p))
  }

  /** A leaf below the root may be split. */
  ghost predicate LeafClear(pages: seq<Node>, level: map<nat, nat>, root: nat, leaf: nat)
    requires Shape(pages, level) && root in level && leaf in level && leaf < |pages|
  {
    && HasParent(pages, level, root, leaf)
    && Clear(pages, level, root, pages[leaf].parent, IndexIn(pages[pages[leaf].parent].children, leaf))
  }

  /** Only the content of page p changes, and p ends with a nonempty leaf before and after. */
  lemma {:induction false} FineFrame(pages: seq<Node>, pages': seq<Node>, level: map<nat, nat>, level': map<nat, nat>,
                                     p: nat, x: nat)
    requires Shape(pages, level) && Shape(pages', level') && level.Keys <= level'.Keys && x in level
    requires forall y {:trigger SameBody(pages, pages', y)} :: y in level && y != p ==> SameBody(pages, pages', y)
    requires p in level && p in level' && Fine(pages, level, p) && Fine(pages', level', p)
    ensures Fine(pages, level, x) <==> Fine(pages', level', x)
    decreases level[x]
  {
    assert Descends(pages, level, x) && Descends(pages', level', x);
    if x != p {
      assert SameBody(pages, pages', x);
      if pages[x].Internal? { FineFrame(pages, pages', level, level', p, Last(pages[x].children)); }
    }
  }

  /** Pages above p: the same children, as many keys, the same parent. */
  ghost predicate AboveKept(pages: seq<Node>, pages': seq<Node>, level: map<nat, nat>, root: nat, y: nat) {
    && y < |pages| && y < |pages'| && pages[y].parent == pages'[y].parent && pages[y].Leaf? == pages'[y].Leaf?
    && (pages[y].Internal? ==> pages'[y].children == pages[y].children && |pages'[y].keys| == |pages[y].keys|)
    && y in level && root in level && (y != root ==> HasParent(pages, level, root, y))
  }

  lemma {:induction false} ClearKept(pages: seq<Node>, pages': seq<Node>, level: map<nat, nat>, level': map<nat, nat>,
                                     root: nat, p: nat, y: nat, i: nat)
    requires Shape(pages, level) && Shape(pages', level') && level.Keys <= level'.Keys
    requires root in level && y in level && level[y] <= level[root]
    requires forall x :: x in level ==> level'[x] == level[x]
    requires forall z {:trigger SameBody(pages, pages', z)} :: z in level && z != p ==> SameBody(pages, pages', z)
    requires forall z {:trigger AboveKept(pages, pages', level, root, z)} :: z in level && level[z] >= level[y] ==>
               AboveKept(pages, pages', level, root, z)
    requires p in level && Fine(pages, level, p) && Fine(pages', level', p)
    ensures Clear(pages, level, root, y, i) <==> Clear(pages', level', root, y, i)
    decreases level[root] - level[y]
  {
    assert AboveKept(pages, pages', level, root, y) && Descends(pages, level, y) && Descends(pages', level', y);
    FineFrame(pages, pages', level, level', p, y);
    if pages[y].Internal? && |pages[y].children| > TreeHalves.SPLIT {
      FineFrame(pages, pages', level, level', p, pages[y].children[TreeHalves.SPLIT]);
    }
    if y != root {
      assert AboveKept(pages, pages', level, root, pages[y].parent);
      ClearKept(pages, pages', level, level', root, p, pages[y].parent, IndexIn(pages[pages[y].parent].children, y));
    }
  }

  /** Every page but the root names its parent, and internal pages have one child more than keys. */
  ghost predicate Upward(pages: seq<Node>, level: map<nat, nat>, root: nat) {
    && Shape(pages, level) && root in level
    && forall x {:trigger pages[x]} :: x in level ==>
         && x < |pages| && level[x] <= level[root] && (x != root ==> HasParent(pages, level, root, x))
         && (pages[x].Internal? ==> |pages[x].children| == |pages[x].keys| + 1)
  }

  /** Follow the last children down to a leaf. */
  method EndsFine(pages: seq<Node>, x: nat, ghost level: map<nat, nat>) returns (fine: bool)
    requires Shape(pages, level) && x in level && x < |pages|
    ensures fine <==> Fine(pages, level, x)
  {
    var y := x;
    assert Descends(pages, level, y);
    while pages[y].Internal?
      invariant y in level && y < |pages| && (Fine(pages, level, x) <==> Fine(pages, level, y))
      decreases level[y]
    {
      assert Descends(pages, level, y);
      y := Last(pages[y].children);
      assert Descends(pages, level, y);
    }
    fine := |pages[y].cells| > 0;
  }

  /** Whether page p0 may receive a child behind its child i0. */
  method IsClear(pages: seq<Node>, root: nat, p0: nat, i0: nat, ghost level: map<nat, nat>) returns (clear: bool)
    requires Upward(pages, level, root) && p0 in level && p0 < |pages| && level[p0] <= level[root]
    ensures clear <==> Clear(pages, level, root, p0, i0)
  {
    var p: nat, i: nat := p0, i0;
    while true
      invariant p in level && p < |pages| && level[p] <= level[root]
      invariant (Clear(pages, level, root, p0, i0) <==> Clear(pages, level, root, p, i))
      decreases level[root] - level[p]
    {
      assert Descends(pages, level, p);
      if pages[p].Leaf? { return false; }
      var fine := EndsFine(pages, p, level);
      if |pages[p].keys| < INTERNAL_NODE_MAX_KEYS { return fine; }
      var middle := pages[p].children[TreeHalves.SPLIT];
      assert Descends(pages, level, middle);
      var lower := EndsFine(pages, middle, level);
      if !lower { return false; }
      if p == root { return i < TreeHalves.SPLIT || fine; }
      if !fine { return false; }
      var y := pages[p].parent;
      p, i := y, IndexIn(pages[y].children, p);
    }
  }

  /** Without empty leaves everything is clear. */
  lemma {:induction false} AllFineClear(pages: seq<Node>, level: map<nat, nat>, root: nat, p: nat, i: nat)
    requires Upward(pages, level, root) && p in level && p < |pages| && pages[p].Internal?
    requires forall x :: x in level ==> Fine(pages, level, x)
    ensures Clear(pages, level, root, p, i)
    decreases level[root] - level[p]
  {
    assert Descends(pages, level, p);
    if |pages[p].keys| >= INTERNAL_NODE_MAX_KEYS && p != root {
      AllFineClear(pages, level, root, pages[p].parent, IndexIn(pages[pages[p].parent].children, p));
    }
  }
}
