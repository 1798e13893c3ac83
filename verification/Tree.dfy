/** The B+-tree invariant over a flat page store. A `View` is a ghost map of one table's tree:
    for every page its height above the leaves and the key interval (lo, hi] it is responsible
    for, the node that owns every separator, and the leaves from left to right. All clauses are
    local to a page, so a step of the insert cascade only disturbs the pages it touches. */
module Tree {
  import opened Layout

  /** What stays fixed for a table: its root page and the capacity of a leaf. */
  datatype Table = Table(root: nat, cap: nat)

  datatype View = View(level: map<nat, nat>, lo: map<nat, int>, hi: map<nat, int>,
                       owner: map<int, nat>, order: seq<nat>)

  /** Every page of the tree is a real page with a nonempty interval. */
  ghost predicate Dom(pages: seq<Node>, g: View) {
    && g.lo.Keys == g.level.Keys && g.hi.Keys == g.level.Keys
    && forall x :: x in g.level ==> 0 < x < |pages| && -1 <= g.lo[x] < g.hi[x] <= MAX_KEY
  }

  ghost predicate ParentOk(pages: seq<Node>, g: View, x: nat)
    requires x < |pages|
  {
    var y := pages[x].parent;
    y in g.level && y < |pages| && pages[y].Internal? && x in pages[y].children
  }

  /** The interval of child `i` lies between the separators beside it. */
  ghost predicate ChildOk(pages: seq<Node>, g: View, x: nat, i: nat)
    requires Dom(pages, g) && x in g.level && pages[x].Internal?
    requires |pages[x].children| == |pages[x].keys| + 1 && i < |pages[x].children|
  {
    var c := pages[x].children[i];
    && c in g.level
    && g.level[c] + 1 == g.level[x]
    && pages[c].parent == x
    && g.lo[c] == (if i == 0 then g.lo[x] else pages[x].keys[i - 1])
    && g.hi[c] == (if i == |pages[x].keys| then g.hi[x] else pages[x].keys[i])
  }

  ghost predicate LeafOk(pages: seq<Node>, g: View, t: Table, over: nat, x: nat)
    requires Dom(pages, g) && x in g.level && pages[x].Leaf?
  {
    var cells := pages[x].cells;
    && g.level[x] == 0
    && |cells| <= t.cap + (if x == over then 1 else 0)
    && SortedCells(cells)
    && (forall i :: 0 <= i < |cells| ==> g.lo[x] < cells[i].key <= g.hi[x])
  }

  ghost predicate KeysOk(pages: seq<Node>, g: View, x: nat)
    requires Dom(pages, g) && x in g.level && pages[x].Internal?
  {
    var keys := pages[x].keys;
    && SortedKeys(keys)
    && (forall i :: 0 <= i < |keys| ==>
          g.lo[x] < keys[i] < g.hi[x] && keys[i] in g.owner && g.owner[keys[i]] == x)
  }

  ghost predicate InternalOk(pages: seq<Node>, g: View, over: nat, x: nat)
    requires Dom(pages, g) && x in g.level && pages[x].Internal?
  {
    && g.level[x] >= 1
    && |pages[x].children| == |pages[x].keys| + 1
    && |pages[x].keys| <= INTERNAL_NODE_MAX_KEYS + (if x == over then 1 else 0)
    && KeysOk(pages, g, x)
    && (forall i {:trigger ChildOk(pages, g, x, i)} :: 0 <= i < |pages[x].children| ==> ChildOk(pages, g, x, i))
  }

  ghost predicate PageOk(pages: seq<Node>, g: View, t: Table, over: nat, x: nat)
    requires Dom(pages, g) && x in g.level
  {
    && (pages[x].isRoot <==> x == t.root)
    && (x != t.root ==> ParentOk(pages, g, x))
    && (if pages[x].Leaf? then LeafOk(pages, g, t, over, x) else InternalOk(pages, g, over, x))
  }

  /** The chain of `next` pointers visits the leaves in key order, their intervals tile the
      key space, and it ends with page number 0. */
  ghost predicate OrderOk(pages: seq<Node>, g: View)
    requires Dom(pages, g)
  {
    var n := |g.order|;
    && n >= 1
    && (forall i :: 0 <= i < n ==> g.order[i] in g.level && pages[g.order[i]].Leaf?)
    && g.lo[g.order[0]] == -1
    && g.hi[g.order[n - 1]] == MAX_KEY
    && pages[g.order[n - 1]].next == 0
    && (forall i :: 0 <= i < n - 1 ==>
          g.hi[g.order[i]] == g.lo[g.order[i + 1]] && pages[g.order[i]].next == g.order[i + 1])
    && (forall x {:trigger x in g.order} :: x in g.level && pages[x].Leaf? ==> x in g.order)
  }

  /** No page starts strictly inside a leaf's interval. */
  ghost predicate Outside(g: View, x: nat, l: nat)
    requires x in g.lo && l in g.lo && l in g.hi
  {
    g.lo[x] <= g.lo[l] || g.hi[l] <= g.lo[x]
  }

  ghost predicate BoundaryOk(pages: seq<Node>, g: View)
    requires Dom(pages, g)
  {
    forall x, l {:trigger Outside(g, x, l)} ::
      x in g.level && l in g.level && pages[l].Leaf? ==> Outside(g, x, l)
  }

  ghost predicate PagesOk(pages: seq<Node>, g: View, t: Table, over: nat)
    requires Dom(pages, g)
  {
    forall x {:trigger PageOk(pages, g, t, over, x)} :: x in g.level ==> PageOk(pages, g, t, over, x)
  }

  /** `over` names the one page that may hold one entry more than fits, while an insert is
      on its way through it; page 0 is the catalog, so 0 means none. */
  ghost predicate Inv(pages: seq<Node>, g: View, t: Table, over: nat)
  {
    && Dom(pages, g)
    && t.root in g.level && g.lo[t.root] == -1 && g.hi[t.root] == MAX_KEY
    && PagesOk(pages, g, t, over)
    && OrderOk(pages, g)
    && BoundaryOk(pages, g)
  }

  ghost predicate Descends(pages: seq<Node>, level: map<nat, nat>, x: nat) {
    && x in level && x < |pages|
    && (pages[x].Internal? ==>
          |pages[x].children| > 0 &&
          forall i :: 0 <= i < |pages[x].children| ==>
                        pages[x].children[i] in level && level[pages[x].children[i]] < level[x])
  }

  /** Enough of the invariant to follow child pointers downwards. */
  ghost predicate Shape(pages: seq<Node>, level: map<nat, nat>)
  {
    forall x {:trigger Descends(pages, level, x)} :: x in level ==> Descends(pages, level, x)
  }

  /** Pages outside the tree are left alone, and pages join it only when they are new. */
  ghost predicate Aside(before: seq<Node>, level: map<nat, nat>, after: seq<Node>, level': map<nat, nat>) {
    && |before| <= |after|
    && (forall x :: 0 <= x < |before| && x !in level ==> after[x] == before[x])
    && level.Keys <= level'.Keys
    && (forall x :: x in level' ==> x in level || |before| <= x)
  }

  function Last<T>(s: seq<T>): T
    requires |s| > 0
  {
    s[|s| - 1]
  }

  /** get_node_max_key: the last key of the rightmost leaf below x, and 0 when it is empty. */
  function MaxKey(pages: seq<Node>, ghost level: map<nat, nat>, x: nat): Key
    requires Shape(pages, level) && x in level
    decreases level[x]
  {
    assert Descends(pages, level, x);
    if pages[x].Internal? then MaxKey(pages, level, Last(pages[x].children))
    else if |pages[x].cells| == 0 then 0
    else Last(pages[x].cells).key
  }

  ghost function RightLeaf(pages: seq<Node>, level: map<nat, nat>, x: nat): (l: nat)
    requires Shape(pages, level) && x in level
    ensures l in level && l < |pages| && pages[l].Leaf? && level[l] <= level[x]
    decreases level[x]
  {
    assert Descends(pages, level, x);
    if pages[x].Internal? then RightLeaf(pages, level, Last(pages[x].children)) else x
  }

  /** get_node_max_key finds a key at x: the leaf it looks at is not empty. */
  ghost predicate Fine(pages: seq<Node>, level: map<nat, nat>, x: nat)
    requires Shape(pages, level) && x in level
  {
    |pages[RightLeaf(pages, level, x)].cells| > 0
  }

  lemma InvShape(pages: seq<Node>, g: View, t: Table, over: nat)
    requires Inv(pages, g, t, over)
    ensures Shape(pages, g.level)
  {
    forall x | x in g.level ensures Descends(pages, g.level, x) {
      assert PageOk(pages, g, t, over, x);
      if pages[x].Internal? {
        forall i | 0 <= i < |pages[x].children|
          ensures pages[x].children[i] in g.level && g.level[pages[x].children[i]] < g.level[x]
        {
          assert ChildOk(pages, g, x, i);
        }
      }
    }
  }

  /** The rightmost leaf below x ends where x ends. */
  lemma {:induction false} RightLeafEnds(pages: seq<Node>, g: View, t: Table, over: nat, x: nat)
    requires Inv(pages, g, t, over) && x in g.level && Shape(pages, g.level)
    ensures var l := RightLeaf(pages, g.level, x);
            && l in g.order && l in g.level && l < |pages| && pages[l].Leaf?
            && g.hi[l] == g.hi[x] && g.lo[x] <= g.lo[l]
            && MaxKey(pages, g.level, x) == (if |pages[l].cells| == 0 then 0 else Last(pages[l].cells).key)
    decreases g.level[x]
  {
    assert PageOk(pages, g, t, over, x);
    assert Descends(pages, g.level, x);
    if pages[x].Internal? {
      var n := |pages[x].keys|;
      assert ChildOk(pages, g, x, n);
      RightLeafEnds(pages, g, t, over, pages[x].children[n]);
    }
  }

  ghost predicate SameBody(pages: seq<Node>, pages': seq<Node>, y: nat) {
    && y < |pages| && y < |pages'|
    && ((pages[y].Leaf? && pages'[y].Leaf? && pages[y].cells == pages'[y].cells)
        || (pages[y].Internal? && pages'[y].Internal? && pages[y].children == pages'[y].children))
  }

  /** Two stores that agree below x have the same rightmost leaf there. */
  lemma {:induction false} RightLeafFrame(pages: seq<Node>, pages': seq<Node>,
                                          level: map<nat, nat>, level': map<nat, nat>, x: nat)
    requires Shape(pages, level) && Shape(pages', level') && x in level && x in level'
    requires level.Keys <= level'.Keys
    requires forall y {:trigger SameBody(pages, pages', y)} ::
               y in level && level[y] <= level[x] ==> SameBody(pages, pages', y)
    ensures RightLeaf(pages', level', x) == RightLeaf(pages, level, x)
    ensures MaxKey(pages', level', x) == MaxKey(pages, level, x) && (Fine(pages', level', x) <==> Fine(pages, level, x))
    decreases level[x]
  {
    assert Descends(pages, level, x) && Descends(pages', level', x);
    assert SameBody(pages, pages', x);
    if pages[x].Internal? {
      RightLeafFrame(pages, pages', level, level', Last(pages[x].children));
    }
  }
}
