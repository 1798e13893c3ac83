/** An insert on its way up: the parent has not yet received the new child. The pending state is
    described by the `Virtual` store, in which the parent already holds it. */
module TreeCascade {
  import opened Layout
  import opened Tree
  import opened TreeSteps
  import opened TreeSplit

  /** Node x with child c behind child i. Separator i of x already bounds child i, so the new
      key k goes behind it; when child i is the right child, k separates it from c. */
  function WithNewChild(x: Node, i: nat, k: Key, c: nat): (r: Node)
    requires x.Internal? && |x.children| == |x.keys| + 1 && i <= |x.keys|
    ensures r.Internal? && |r.children| == |r.keys| + 1 == |x.keys| + 2
  {
    var j := if i < |x.keys| then i + 1 else i;
    x.(keys := x.keys[..j] + [k] + x.keys[j..], children := x.children[..i + 1] + [c] + x.children[i + 1..])
  }

  function Virtual(pages: seq<Node>, p: nat, i: nat, k: Key, c: nat): seq<Node>
    requires p < |pages| && c < |pages| && pages[p].Internal?
    requires |pages[p].children| == |pages[p].keys| + 1 && i <= |pages[p].keys|
  {
    pages[p := WithNewChild(pages[p], i, k, c)][c := WithParent(pages[c], p)]
  }

  /** No leaf is empty. */
  ghost predicate NonEmpty(pages: seq<Node>, g: View) {
    forall i :: 0 <= i < |g.order| ==> g.order[i] < |pages| && pages[g.order[i]].Leaf? && |pages[g.order[i]].cells| > 0
  }

  /** Page p is about to receive child c behind its child i; k is the key that goes with it. The
      largest keys of c and of child i are known. */
  ghost predicate Pending(pages: seq<Node>, g: View, t: Table, p: nat, i: nat, k: Key, c: nat) {
    && p < |pages| && c < |pages| && p != c && pages[p].Internal? && p in g.level
    && |pages[p].children| == |pages[p].keys| + 1 && i <= |pages[p].keys| <= INTERNAL_NODE_MAX_KEYS
    && Inv(Virtual(pages, p, i, k, c), g, t, p)
    && Shape(Virtual(pages, p, i, k, c), g.level)
    && c in g.level && pages[p].children[i] in g.level
    && Fine(Virtual(pages, p, i, k, c), g.level, c) && Fine(Virtual(pages, p, i, k, c), g.level, pages[p].children[i])
    && k == MaxKey(Virtual(pages, p, i, k, c), g.level, if i < |pages[p].keys| then c else pages[p].children[i])
  }

  lemma MaxKeyBounds(pages: seq<Node>, g: View, t: Table, over: nat, x: nat)
    requires Inv(pages, g, t, over) && x in g.level && Shape(pages, g.level) && Fine(pages, g.level, x)
    ensures g.lo[x] < MaxKey(pages, g.level, x) <= g.hi[x]
    ensures var l := RightLeaf(pages, g.level, x);
            && l in g.level && pages[l].Leaf? && g.hi[l] == g.hi[x] && |pages[l].cells| > 0
            && MaxKey(pages, g.level, x) == Last(pages[l].cells).key
  {
    RightLeafEnds(pages, g, t, over, x);
    assert PageOk(pages, g, t, over, RightLeaf(pages, g.level, x));
  }

  lemma InvExtend(pages: seq<Node>, g: View, t: Table, over: nat, x: Node)
    requires Inv(pages, g, t, over)
    ensures Inv(pages + [x], g, t, over)
  {
    var pages' := pages + [x];
    assert Dom(pages', g);
    forall y | y in g.level ensures PageOk(pages', g, t, over, y) {
      assert PageOk(pages, g, t, over, y);
      if pages[y].Internal? {
        assert KeysOk(pages', g, y) by { assert KeysOk(pages, g, y); }
        forall i | 0 <= i < |pages[y].children| ensures ChildOk(pages', g, y, i) {
          assert ChildOk(pages, g, y, i);
        }
      }
    }
    OrderFrame(pages, g, pages', g);
    forall y, l | y in g.level && l in g.level && pages'[l].Leaf? ensures Outside(g, y, l) {
      assert pages[l].Leaf?;
    }
  }

  lemma InvOverFits(pages: seq<Node>, g: View, t: Table, over: nat)
    requires Inv(pages, g, t, over)
    requires over in g.level ==> pages[over].Internal? && |pages[over].keys| <= INTERNAL_NODE_MAX_KEYS
    ensures Inv(pages, g, t, 0)
  {
    forall y | y in g.level ensures PageOk(pages, g, t, 0, y) {
      assert PageOk(pages, g, t, over, y);
      if pages[y].Internal? {
        forall i | 0 <= i < |pages[y].children| ensures ChildOk(pages, g, y, i) {}
      }
    }
  }

  /** What the code writes into a parent that has room: `idx` is where the binary search for the
      child's largest key stops, `rightMax` the largest key below the right child. */
  function Inserted(x: Node, c: nat, childMax: Key, rightMax: Key, idx: nat): Node
    requires x.Internal? && |x.children| == |x.keys| + 1 && idx <= |x.keys|
  {
    if childMax > rightMax then x.(keys := x.keys + [rightMax], children := x.children + [c])
    else x.(keys := x.keys[..idx] + [childMax] + x.keys[idx..],
            children := x.children[..idx] + [c] + x.children[idx..])
  }

  /** The pending child of `x` in terms of key order alone: what a parent needs to know so that
      the binary search and the comparison with the right child find the right place. */
  ghost predicate FindsPlace(x: Node, i: nat, k: Key, childMax: Key, rightMax: Key)
    requires x.Internal? && i <= |x.keys|
  {
    && (if i < |x.keys| then k == childMax && x.keys[i] < k && childMax <= rightMax
        else k == rightMax && childMax > rightMax)
    && (i + 1 < |x.keys| ==> k < x.keys[i + 1])
  }

  lemma InsertedInPlace(x: Node, i: nat, k: Key, c: nat, childMax: Key, rightMax: Key, idx: nat)
    requires x.Internal? && |x.children| == |x.keys| + 1 && i <= |x.keys| && SortedKeys(x.keys)
    requires FindsPlace(x, i, k, childMax, rightMax)
    requires IsLowerBound(x.keys, childMax, idx)
    ensures Inserted(x, c, childMax, rightMax, idx) == WithNewChild(x, i, k, c)
  {
    if i < |x.keys| {
      assert idx == i + 1;
    } else {
      assert x.children == x.children[..i + 1];
      assert x.keys == x.keys[..i] && x.keys[i..] == [];
    }
  }

  /** What the pending state says about the places of p and its children. */
  lemma PendingChild(pages: seq<Node>, g: View, t: Table, p: nat, i: nat, k: Key, c: nat, j: nat)
    requires Pending(pages, g, t, p, i, k, c)
    requires j <= |pages[p].keys| + 1
    ensures var v := Virtual(pages, p, i, k, c);
            && |v[p].keys| == |pages[p].keys| + 1 && |v[p].children| == |pages[p].children| + 1
            && ChildOk(v, g, p, j) && SortedKeys(v[p].keys)
            && v[p].children[j] in g.level
            && (Fine(v, g.level, v[p].children[j]) ==>
                  g.lo[v[p].children[j]] < MaxKey(v, g.level, v[p].children[j]) <= g.hi[v[p].children[j]])
            && (j > 0 ==> g.lo[v[p].children[j]] == v[p].keys[j - 1])
            && (j < |v[p].keys| ==> g.hi[v[p].children[j]] == v[p].keys[j])
  {
    var v := Virtual(pages, p, i, k, c);
    assert PageOk(v, g, t, p, p);
    assert ChildOk(v, g, p, j);
    if Fine(v, g.level, v[p].children[j]) { MaxKeyBounds(v, g, t, p, v[p].children[j]); }
  }

  /** In a pending state the code finds the place of the new child, provided that it finds a largest
      key at the right child. */
  lemma PendingPlace(pages: seq<Node>, g: View, t: Table, p: nat, i: nat, k: Key, c: nat)
    requires Pending(pages, g, t, p, i, k, c)
    ensures var v := Virtual(pages, p, i, k, c); var x := pages[p];
            && Last(x.children) in g.level
            && (Fine(v, g.level, Last(x.children)) ==>
                  FindsPlace(x, i, k, MaxKey(v, g.level, c), MaxKey(v, g.level, Last(x.children))))
            && (i < |x.keys| ==> FindsPlace(x, i, k, MaxKey(v, g.level, c), MaxKey(v, g.level, c)))
            && SortedKeys(x.keys)
  {
    var v := Virtual(pages, p, i, k, c);
    var x := pages[p];
    var n := |x.keys|;
    PendingChild(pages, g, t, p, i, k, c, i + 1);
    assert v[p].children[i + 1] == c;
    var r := if i < n then n + 1 else n;
    PendingChild(pages, g, t, p, i, k, c, r);
    assert v[p].children[r] == Last(x.children);
    if i < n {
      assert v[p].keys[i] == x.keys[i] && v[p].keys[i + 1] == k;
      assert i + 1 < n ==> v[p].keys[i + 2] == x.keys[i + 1];
      forall a, b | 0 <= a < b < n ensures x.keys[a] < x.keys[b] {
        assert x.keys[a] == v[p].keys[if a <= i then a else a + 1];
        assert x.keys[b] == v[p].keys[if b <= i then b else b + 1];
      }
    } else {
      assert v[p].keys[i] == k;
      forall a, b | 0 <= a < b < n ensures x.keys[a] < x.keys[b] {
        assert x.keys[a] == v[p].keys[a] && x.keys[b] == v[p].keys[b];
      }
    }
  }

  ghost predicate SameMax(pages: seq<Node>, pages': seq<Node>, level: map<nat, nat>, y: nat)
    requires Shape(pages, level) && Shape(pages', level) && y in level
  {
    MaxKey(pages', level, y) == MaxKey(pages, level, y) && (Fine(pages', level, y) <==> Fine(pages, level, y))
  }

  lemma TightenMax(pages: seq<Node>, g: View, t: Table, over: nat, x: nat, j: nat)
    returns (l: nat, s': Key)
    requires Inv(pages, g, t, over) && Shape(pages, g.level)
    requires x in g.level && pages[x].Internal? && j < |pages[x].keys| && InternalOk(pages, g, over, x)
    requires pages[x].children[j] in g.level && Fine(pages, g.level, pages[x].children[j])
    ensures pages[x].children[j] in g.level && s' == MaxKey(pages, g.level, pages[x].children[j])
    ensures Tightenable(pages, g, t, over, x, j, l, s')
    ensures var pages' := Tightened(pages, x, j, s');
            var g' := RenamedView(g, pages[x].keys[j], s', x);
            && Inv(pages', g', t, over) && Shape(pages', g.level)
            && (forall y {:trigger SameMax(pages, pages', g.level, y)} :: y in g.level ==> SameMax(pages, pages', g.level, y))
  {
    assert ChildOk(pages, g, x, j);
    var c := pages[x].children[j];
    MaxKeyBounds(pages, g, t, over, c);
    l, s' := RightLeaf(pages, g.level, c), MaxKey(pages, g.level, c);
    Tighten(pages, g, t, over, x, j, l, s');
    var pages' := Tightened(pages, x, j, s');
    InvShape(pages', RenamedView(g, pages[x].keys[j], s', x), t, over);
    hide Inv, Fine;
    TightenedMax(pages, g.level, x, j, s');
  }

  lemma TightenedMax(pages: seq<Node>, level: map<nat, nat>, x: nat, j: nat, s': Key)
    requires x < |pages| && pages[x].Internal? && j < |pages[x].keys|
    requires Shape(pages, level) && Shape(Tightened(pages, x, j, s'), level)
    ensures forall y {:trigger SameMax(pages, Tightened(pages, x, j, s'), level, y)} :: y in level ==>
              SameMax(pages, Tightened(pages, x, j, s'), level, y)
  {
    var pages' := Tightened(pages, x, j, s');
    forall y | y in level ensures SameBody(pages, pages', y) { assert Descends(pages, level, y); }
    hide Fine, MaxKey;
    forall y | y in level ensures SameMax(pages, pages', level, y) {
      RightLeafFrame(pages, pages', level, level, y);
    }
  }

  /** The parent node that `GoUp` leaves pending, seen from both sides. */
  lemma GoUpNode(orig: Node, ip: nat, s: Key, pmax: Key, m: Key, n: nat)
    requires orig.Internal? && |orig.children| == |orig.keys| + 1 && ip <= |orig.keys|
    ensures var w := WithChild(orig, ip, s, n);
            var x := orig.(keys := if ip < |orig.keys| then orig.keys[ip := pmax] else orig.keys);
            && |w.keys| == |orig.keys| + 1 && |w.children| == |orig.children| + 1
            && w.children[ip] == orig.children[ip] && w.children[ip + 1] == n
            && (if ip < |orig.keys|
                then WithNewChild(x, ip, m, n) == w.(keys := w.keys[ip := pmax][ip + 1 := m])
                else WithNewChild(x, ip, pmax, n) == w.(keys := w.keys[ip := pmax]))
  {
    if ip < |orig.keys| {
      var x := orig.keys[ip := pmax];
      assert x[..ip + 1] + [m] + x[ip + 1..] == (orig.keys[..ip] + [s] + orig.keys[ip..])[ip := pmax][ip + 1 := m];
    }
  }

  /** The state of the store while n waits to enter its parent pp, whose node was `orig`. */
  ghost predicate Waiting(w: seq<Node>, g: View, t: Table, p: nat, n: nat, pp: nat, ip: nat, orig: Node, s: Key,
                          pages: seq<Node>, pmax: Key)
  {
    && Inv(w, g, t, pp) && Shape(w, g.level)
    && pp in g.level && n in g.level && p in g.level && n != pp
    && Fine(w, g.level, p) && Fine(w, g.level, n)
    && orig.Internal? && |orig.children| == |orig.keys| + 1 && |orig.keys| <= INTERNAL_NODE_MAX_KEYS
    && ip <= |orig.keys| && orig.children[ip] == p
    && w[pp] == WithChild(orig, ip, s, n) && w[n].parent == pp
    && pmax == MaxKey(w, g.level, p)
    && |pages| == |w| && pages[n] == WithParent(w[n], pages[n].parent)
    && pages[pp] == orig.(keys := if ip < |orig.keys| then orig.keys[ip := pmax] else orig.keys)
    && (forall y :: 0 <= y < |w| && y != pp && y != n ==> pages[y] == w[y])
  }

  lemma PendingFrom(w: seq<Node>, g: View, t: Table, n: nat, pp: nat, ip: nat, pages: seq<Node>, k: Key)
    requires Inv(w, g, t, pp) && Shape(w, g.level)
    requires pp in g.level && n in g.level && n != pp && |pages| == |w| && pages[pp].Internal?
    requires |pages[pp].children| == |pages[pp].keys| + 1 && ip <= |pages[pp].keys| <= INTERNAL_NODE_MAX_KEYS
    requires w == Virtual(pages, pp, ip, k, n) && pages[pp].children[ip] in g.level
    requires Fine(w, g.level, n) && Fine(w, g.level, pages[pp].children[ip])
    requires k == MaxKey(w, g.level, if ip < |pages[pp].keys| then n else pages[pp].children[ip])
    ensures Pending(pages, g, t, pp, ip, k, n)
  {
  }

  /** After a split of page p into p and n the work moves to their parent: its separator for p
      becomes p's largest key, and n is pending there. */
  lemma GoUp(w: seq<Node>, g: View, t: Table, p: nat, n: nat, pp: nat, ip: nat, orig: Node, s: Key,
             pages: seq<Node>, pmax: Key)
    returns (g': View, k: Key)
    requires Waiting(w, g, t, p, n, pp, ip, orig, s, pages, pmax)
    ensures Pending(pages, g', t, pp, ip, k, n)
    ensures g'.order == g.order && g'.level == g.level
  {
    assert PageOk(w, g, t, pp, pp);
    GoUpNode(orig, ip, s, pmax, 0, n);
    hide Inv, Fine, WithChild;
    var l, s' := TightenMax(w, g, t, pp, pp, ip);
    var w1 := Tightened(w, pp, ip, s');
    assert SameMax(w, w1, g.level, n) && SameMax(w, w1, g.level, p);
    var g1 := RenamedView(g, w[pp].keys[ip], s', pp);
    if ip < |orig.keys| {
      g', k := GoUpMiddle(w1, g1, t, n, pp, ip, orig, s, pages, pmax);
    } else {
      g', k := g1, s';
      GoUpStore(w1, n, pp, ip, orig, s, pages, pmax, k);
      PendingFrom(w1, g1, t, n, pp, ip, pages, k);
    }
  }

  /** The store while n waits, once the parent's separator for child ip is pmax. */
  ghost predicate WaitingStore(w1: seq<Node>, n: nat, pp: nat, ip: nat, orig: Node, s: Key, pages: seq<Node>, pmax: Key)
  {
    && orig.Internal? && |orig.children| == |orig.keys| + 1 && |orig.keys| <= INTERNAL_NODE_MAX_KEYS
    && ip <= |orig.keys| && n != pp && |w1| == |pages| && n < |w1| && pp < |w1|
    && w1[pp] == (var x := WithChild(orig, ip, s, n); x.(keys := x.keys[ip := pmax]))
    && pages[n] == WithParent(w1[n], pages[n].parent) && w1[n].parent == pp
    && pages[pp] == orig.(keys := if ip < |orig.keys| then orig.keys[ip := pmax] else orig.keys)
    && (forall y :: 0 <= y < |w1| && y != pp && y != n ==> pages[y] == w1[y])
  }

  lemma GoUpStore(w1: seq<Node>, n: nat, pp: nat, ip: nat, orig: Node, s: Key, pages: seq<Node>, pmax: Key, m: Key)
    requires WaitingStore(w1, n, pp, ip, orig, s, pages, pmax)
    requires ip == |orig.keys| ==> m == pmax
    ensures Virtual(pages, pp, ip, m, n) == if ip < |orig.keys| then Tightened(w1, pp, ip + 1, m) else w1
  {
    GoUpNode(orig, ip, s, pmax, m, n);
  }

  lemma GoUpMiddle(w1: seq<Node>, g1: View, t: Table, n: nat, pp: nat, ip: nat, orig: Node, s: Key,
                   pages: seq<Node>, pmax: Key)
    returns (g': View, k: Key)
    requires Inv(w1, g1, t, pp) && Shape(w1, g1.level)
    requires pp in g1.level && n in g1.level && Fine(w1, g1.level, n)
    requires WaitingStore(w1, n, pp, ip, orig, s, pages, pmax)
    requires ip < |orig.keys| && orig.children[ip] in g1.level && Fine(w1, g1.level, orig.children[ip])
    ensures Pending(pages, g', t, pp, ip, k, n)
    ensures g'.order == g1.order && g'.level == g1.level
  {
    assert PageOk(w1, g1, t, pp, pp);
    GoUpNode(orig, ip, s, pmax, 0, n);
    hide Inv, Fine, WithChild;
    var l, m := TightenMax(w1, g1, t, pp, pp, ip + 1);
    assert SameMax(w1, Tightened(w1, pp, ip + 1, m), g1.level, n);
    assert SameMax(w1, Tightened(w1, pp, ip + 1, m), g1.level, orig.children[ip]);
    g', k := RenamedView(g1, w1[pp].keys[ip + 1], m, pp), m;
    GoUpStore(w1, n, pp, ip, orig, s, pages, pmax, m);
    PendingFrom(Tightened(w1, pp, ip + 1, m), g', t, n, pp, ip, pages, k);
  }
}
