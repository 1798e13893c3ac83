/** A page that reads as 0, seen from the pages above it. The tree as it was serves as reference:
    above the page nothing has changed, and beside it neither. */
module TreeDebtUp {
  import opened Layout
  import opened Tree
  import opened TreeCascade
  import opened TreeHalves
  import opened TreeUp
  import opened TreeRuin
  import opened TreeDebt

  /** Page y lies in the part of the key space that page q is responsible for. */
  ghost predicate Beneath(g: View, y: nat, q: nat)
    requires y in g.lo && y in g.hi && q in g.lo && q in g.hi
  {
    g.lo[q] <= g.lo[y] && g.hi[y] <= g.hi[q]
  }

  ghost predicate Beside(r: seq<Node>, g: View, pages: seq<Node>, y: nat, q: nat)
    requires y in g.lo && y in g.hi && q in g.lo && q in g.hi
  {
    SameBody(r, pages, y) || Beneath(g, y, q)
  }

  ghost predicate Alike(r: seq<Node>, pages: seq<Node>, y: nat) { y < |r| && y < |pages| && pages[y] == r[y] }

  /** Store `pages` is tree r except for what lies beneath page q; above q it is r itself, but for
      page `but`. */
  ghost predicate Likeness(r: seq<Node>, g: View, t: Table, over: nat, pages: seq<Node>, level: map<nat, nat>, q: nat, but: nat) {
    && Inv(r, g, t, over) && Shape(pages, level) && q in g.level && g.level.Keys <= level.Keys
    && (forall y :: y in g.level ==> level[y] == g.level[y])
    && (over in g.level ==> g.level[over] <= g.level[q])
    && (forall y {:trigger Alike(r, pages, y)} :: y in g.level && g.level[y] > g.level[q] && y != but ==> Alike(r, pages, y))
    && (forall y {:trigger Beside(r, g, pages, y, q)} :: y in g.level && g.level[y] <= g.level[q] ==> Beside(r, g, pages, y, q))
    && q < |pages| && pages[q].parent == r[q].parent
  }

  /** Beside q the largest keys are those of the reference. */
  lemma {:induction false} BesideMax(r: seq<Node>, g: View, t: Table, over: nat, pages: seq<Node>, level: map<nat, nat>, q: nat,
                                     but: nat, x: nat)
    requires Likeness(r, g, t, over, pages, level, q, but) && Shape(r, g.level) && x in g.level && g.level[x] <= g.level[q]
    requires g.hi[x] <= g.lo[q] || g.hi[q] <= g.lo[x]
    ensures MaxKey(pages, level, x) == MaxKey(r, g.level, x)
    decreases g.level[x]
  {
    assert PageOk(r, g, t, over, x);
    assert Descends(r, g.level, x) && Descends(pages, level, x);
    assert Beside(r, g, pages, x, q);
    assert g.lo[x] < g.hi[x] && g.lo[q] < g.hi[q];
    if r[x].Internal? {
      var n := |r[x].keys|;
      assert ChildOk(r, g, x, n);
      assert n > 0 ==> KeysOk(r, g, x);
      BesideMax(r, g, t, over, pages, level, q, but, r[x].children[n]);
    }
  }

  /** A largest key that is not 0 lies in the page's interval. */
  lemma RealMax(r: seq<Node>, g: View, t: Table, over: nat, x: nat)
    requires Inv(r, g, t, over) && Shape(r, g.level) && x in g.level && MaxKey(r, g.level, x) > 0
    ensures g.lo[x] < MaxKey(r, g.level, x) <= g.hi[x]
  {
    RightLeafEnds(r, g, t, over, x);
    assert PageOk(r, g, t, over, RightLeaf(r, g.level, x));
  }

  /** Page p waits for child c behind its child i, which reads as 0. */
  ghost predicate Debt(pages: seq<Node>, level: map<nat, nat>, t: Table, p: nat, c: nat, r: seq<Node>, g: View, over: nat, i: nat) {
    && Inv(r, g, t, over) && p in g.level && p < |r| && r[p].Internal? && i < |r[p].children|
    && |r[p].children| == |r[p].keys| + 1 && p < |pages| && pages[p].Internal?
    && pages[p] == r[p].(keys := if i < |r[p].keys| then r[p].keys[i := 0] else r[p].keys)
    && var q := r[p].children[i];
       && q in g.level && g.level[q] + 1 == g.level[p]
       && Likeness(r, g, t, over, pages, level, q, p) && ZeroChild(pages, level, p, i)
       && c in level && c != p && c < |pages| && c !in g.level && g.lo[q] < MaxKey(pages, level, c) <= g.hi[q] && MaxKey(pages, level, c) > 0
  }

  /** The page above one that reads as 0: its separator for it becomes 0, and it waits in turn. */
  lemma DebtUp(r: seq<Node>, g: View, t: Table, over: nat, cut: seq<Node>, level: map<nat, nat>, p: nat, n: nat, o: Key, idx: nat)
    returns (ip: nat)
    requires Likeness(r, g, t, over, cut, level, p, p) && p != t.root && p < |cut| && cut[p].Internal? && |cut[p].keys| > 0
    requires MaxKey(cut, level, p) == 0 && n in level && n !in g.level && n < |cut|
    requires 0 < MaxKey(cut, level, n) && g.lo[p] < MaxKey(cut, level, n) <= g.hi[p]
    requires g.lo[p] < o <= g.hi[p]
    requires var pp := cut[p].parent; pp < |cut| && cut[pp].Internal? && pp != n && Searched(cut[pp].keys, o, idx)
    ensures var pp := cut[p].parent; var x := cut[pp];
            && ip == idx
            && var waiting := if idx < |x.keys| then cut[pp := x.(keys := x.keys[idx := 0])] else cut;
               Debt(waiting, level, t, pp, n, r, g, over, ip)
  {
    ip := ChildIndex(r, g, t, over, p);
    var pp := r[p].parent;
    assert PageOk(r, g, t, over, pp) && KeysOk(r, g, pp) && ChildOk(r, g, pp, ip);
    assert Alike(r, cut, pp);
    FindsChild(r, g, pp, ip, o, idx);
    var x := cut[pp];
    var waiting := if idx < |x.keys| then cut[pp := x.(keys := x.keys[idx := 0])] else cut;
    WaitingMax(cut, level, pp, waiting);
    WaitingLike(r, g, t, over, cut, level, p, pp, waiting);
  }

  lemma WaitingMax(cut: seq<Node>, level: map<nat, nat>, pp: nat, waiting: seq<Node>)
    requires Shape(cut, level) && |waiting| == |cut| && pp < |cut| && cut[pp].Internal? && waiting[pp].Internal?
    requires waiting == cut[pp := waiting[pp]] && waiting[pp].children == cut[pp].children
    ensures Shape(waiting, level)
    ensures forall y :: y in level ==> MaxKey(waiting, level, y) == MaxKey(cut, level, y)
  {
    forall y | y in level ensures Descends(waiting, level, y) && SameBody(cut, waiting, y) { assert Descends(cut, level, y); }
    forall y | y in level ensures MaxKey(waiting, level, y) == MaxKey(cut, level, y) {
      RightLeafFrame(cut, waiting, level, level, y);
    }
  }

  lemma WaitingLike(r: seq<Node>, g: View, t: Table, over: nat, cut: seq<Node>, level: map<nat, nat>, p: nat, pp: nat, waiting: seq<Node>)
    requires Likeness(r, g, t, over, cut, level, p, p) && Shape(waiting, level)
    requires pp in g.level && g.level[pp] > g.level[p] && |waiting| == |cut| && pp < |cut| && waiting == cut[pp := waiting[pp]]
    ensures Likeness(r, g, t, over, waiting, level, p, pp)
  {
    forall y | y in g.level && g.level[y] <= g.level[p] ensures Beside(r, g, waiting, y, p) {
      assert Beside(r, g, cut, y, p);
    }
    forall y | y in g.level && g.level[y] > g.level[p] && y != pp ensures Alike(r, waiting, y) {
      assert Alike(r, cut, y);
    }
  }

  /** What a debt says about the keys that decide where the child goes. */
  lemma DebtKeys(pages: seq<Node>, level: map<nat, nat>, t: Table, p: nat, c: nat, r: seq<Node>, g: View, over: nat, i: nat, j: nat)
    requires Debt(pages, level, t, p, c, r, g, over, i) && j < |r[p].children| && j != i
    ensures r[p].children[j] in level && level[r[p].children[j]] < level[p]
    ensures var m := MaxKey(pages, level, r[p].children[j]);
            && (m > 0 ==> g.lo[p] < m <= g.hi[p])
            && (j < i ==> m <= MaxKey(pages, level, c))
    ensures g.lo[p] < MaxKey(pages, level, c) <= g.hi[p]
  {
    InvShape(r, g, t, over);
    assert PageOk(r, g, t, over, p) && KeysOk(r, g, p) && ChildOk(r, g, p, i) && ChildOk(r, g, p, j);
    var q, x := r[p].children[i], r[p].children[j];
    assert if j < i then g.hi[x] <= g.lo[q] else g.hi[q] <= g.lo[x] by {
      if j + 1 < i { assert r[p].keys[j] < r[p].keys[i - 1]; }
      if i + 1 < j { assert r[p].keys[i] < r[p].keys[j - 1]; }
    }
    BesideMax(r, g, t, over, pages, level, q, p, x);
    if MaxKey(r, g.level, x) > 0 { RealMax(r, g, t, over, x); }
  }

  /** The cut of page p leaves other pages their content, and those at its height or above all they have. */
  lemma CutKeeps(before: seq<Node>, level: map<nat, nat>, p: nat, c: nat, mid: seq<Node>, n: nat, h: nat, idx: nat, cut: seq<Node>, y: nat)
    requires Shape(before, level) && c in level && p in level && HalfEntered(before, level, p, c, mid, n, h, idx, cut)
    requires y in level
    ensures y != p ==> SameBody(before, cut, y)
    ensures y < |before| && y < |cut|
    ensures level[y] >= level[p] && y != p ==> cut[y] == before[y]
    ensures cut[p].parent == before[p].parent && cut[p].Internal? && |cut[p].keys| > 0
  {
    assert Descends(before, level, p) && Descends(before, level, y);
    assert forall x :: x in before[p].children[SPLIT + 1..] ==> x in before[p].children;
    hide Searched, MaxKey, Shape;
  }

  /** Full page p was cut; what lies beneath it, and its new half, are all that differ from r. */
  lemma CutLike(before: seq<Node>, level: map<nat, nat>, t: Table, p: nat, c: nat, r: seq<Node>, g: View, over: nat, i: nat,
                mid: seq<Node>, n: nat, h: nat, idx: nat, cut: seq<Node>)
    requires Debt(before, level, t, p, c, r, g, over, i) && Shape(before, level)
    requires HalfEntered(before, level, p, c, mid, n, h, idx, cut) && Shape(cut, level[n := level[p]])
    ensures Likeness(r, g, t, over, cut, level[n := level[p]], p, p)
  {
    var level' := level[n := level[p]];
    var q := r[p].children[i];
    assert PageOk(r, g, t, over, p) && ChildOk(r, g, p, i) && KeysOk(r, g, p);
    assert g.lo[p] <= g.lo[q] && g.hi[q] <= g.hi[p];
    forall y | y in g.level && g.level[y] <= g.level[p] ensures Beside(r, g, cut, y, p) {
      CutBeside(before, level, t, p, c, r, g, over, i, mid, n, h, idx, cut, y);
    }
    forall y | y in g.level && g.level[y] > g.level[p] ensures Alike(r, cut, y) {
      CutKeeps(before, level, p, c, mid, n, h, idx, cut, y);
      assert Alike(r, before, y);
    }
    CutKeeps(before, level, p, c, mid, n, h, idx, cut, p);
    hide HalfEntered, ZeroChild, PageOk, ChildOk, KeysOk;
  }

  lemma CutBeside(before: seq<Node>, level: map<nat, nat>, t: Table, p: nat, c: nat, r: seq<Node>, g: View, over: nat, i: nat,
                  mid: seq<Node>, n: nat, h: nat, idx: nat, cut: seq<Node>, y: nat)
    requires Debt(before, level, t, p, c, r, g, over, i) && Shape(before, level)
    requires HalfEntered(before, level, p, c, mid, n, h, idx, cut)
    requires var q := r[p].children[i]; g.lo[p] <= g.lo[q] && g.hi[q] <= g.hi[p]
    requires y in g.level && g.level[y] <= g.level[p]
    ensures Beside(r, g, cut, y, p)
  {
    var q := r[p].children[i];
    CutKeeps(before, level, p, c, mid, n, h, idx, cut, y);
    hide HalfEntered, ZeroChild, PageOk, ChildOk, KeysOk, Shape;
    if y != p {
      if g.level[y] <= g.level[q] { assert Beside(r, g, before, y, q); } else { assert Alike(r, before, y); }
    }
  }

  /** The lower half of p reads as 0, the upper half as a key of p's interval: the debt goes up. */
  ghost predicate Passed(before: seq<Node>, level: map<nat, nat>, p: nat, n: nat, cut: seq<Node>, r: seq<Node>, g: View, t: Table, over: nat)
    requires Shape(before, level) && p in level
  {
    var level' := level[n := level[p]];
    && Likeness(r, g, t, over, cut, level', p, p) && n !in g.level && p < |cut| && cut[p].Internal? && |cut[p].keys| > 0
    && MaxKey(cut, level', p) == 0 < MaxKey(cut, level', n) && g.lo[p] < MaxKey(cut, level', n) <= g.hi[p]
    && g.lo[p] < MaxKey(before, level, p) <= g.hi[p]
  }

  lemma DebtAtFull(before: seq<Node>, level: map<nat, nat>, t: Table, p: nat, c: nat, r: seq<Node>, g: View, over: nat, i: nat,
                   mid: seq<Node>, n: nat, h: nat, idx: nat, cut: seq<Node>)
    requires Debt(before, level, t, p, c, r, g, over, i) && Shape(before, level)
    requires HalfEntered(before, level, p, c, mid, n, h, idx, cut) && Shape(cut, level[n := level[p]])
    ensures Bad(cut, p) || Bad(cut, n) || Passed(before, level, p, n, cut, r, g, t, over)
  {
    assert Descends(before, level, p);
    if i == |before[p].keys| { DebtKeys(before, level, t, p, c, r, g, over, i, SPLIT); }
    ZeroChildCut(before, level, p, i, c, mid, n, h, idx, cut);
    if i != |before[p].keys| { DebtKeys(before, level, t, p, c, r, g, over, i, |before[p].keys|); }
    CutLike(before, level, t, p, c, r, g, over, i, mid, n, h, idx, cut);
    CutKeeps(before, level, p, c, mid, n, h, idx, cut, p);
    if i == |before[p].keys| {
      EmptyUpperHalf(before, level, p, c, mid, n, h, idx, cut);
    }
    hide HalfEntered, ZeroChild, Likeness, Inv;
  }

  /** The same when page p was in order and its lower half ends with an empty leaf. */
  lemma PendingAtFull(before: seq<Node>, g: View, t: Table, p: nat, i: nat, k: Key, c: nat, mid: seq<Node>, n: nat, h: nat, idx: nat,
                      cut: seq<Node>)
    requires FullPending(before, g, t, p, i, k, c) && Shape(before, g.level)
    requires HalfEntered(before, g.level, p, c, mid, n, h, idx, cut) && Shape(cut, g.level[n := g.level[p]])
    requires !Fine(before, g.level, before[p].children[SPLIT])
    ensures MaxKey(cut, g.level[n := g.level[p]], p) == 0
    ensures Bad(cut, n) || Passed(before, g.level, p, n, cut, Virtual(before, p, i, k, c), g, t, p)
  {
    var v := Virtual(before, p, i, k, c);
    PendingKeys(before, g, t, p, i, k, c);
    EmptyLowerCut(before, g.level, p, c, mid, n, h, idx, cut);
    PendingLike(before, g, t, p, i, k, c, mid, n, h, idx, cut);
    CutKeeps(before, g.level, p, c, mid, n, h, idx, cut, p);
    assert Descends(before, g.level, p);
    hide HalfEntered, Likeness, Inv, Virtual;
  }

  /** Child j of the page that is to hold c, as the code reads it. */
  lemma PendingRead(before: seq<Node>, g: View, t: Table, p: nat, i: nat, k: Key, c: nat, j: nat, y: nat)
    requires Pending(before, g, t, p, i, k, c) && Shape(before, g.level) && j <= |before[p].keys| + 1
    requires y == Virtual(before, p, i, k, c)[p].children[j] && (y == c || y in before[p].children)
    ensures y in g.level && g.level[y] < g.level[p] && g.lo[p] <= g.lo[y] && g.hi[y] <= g.hi[p]
    ensures var m := MaxKey(before, g.level, y);
            && (m > 0 || Fine(before, g.level, y) ==> g.lo[y] < m <= g.hi[y]) && (!Fine(before, g.level, y) ==> m == 0)
  {
    var v := Virtual(before, p, i, k, c);
    PendingChild(before, g, t, p, i, k, c, j);
    BelowMax(before, g, t, p, i, k, c, y);
    RightLeafEnds(v, g, t, p, y);
    assert PageOk(v, g, t, p, p) && KeysOk(v, g, p) && ChildOk(v, g, p, j);
  }

  /** Children further right are responsible for larger keys. */
  lemma PendingOrder(before: seq<Node>, g: View, t: Table, p: nat, i: nat, k: Key, c: nat, a: nat, b: nat)
    requires Pending(before, g, t, p, i, k, c) && a < b <= |before[p].keys| + 1
    ensures var cs := Virtual(before, p, i, k, c)[p].children;
            cs[a] in g.level && cs[b] in g.level && g.hi[cs[a]] <= g.lo[cs[b]]
  {
    PendingChild(before, g, t, p, i, k, c, a);
    PendingChild(before, g, t, p, i, k, c, b);
    var v := Virtual(before, p, i, k, c);
    if a + 1 < b { assert v[p].keys[a] < v[p].keys[b - 1]; }
  }

  /** The largest keys of a pending child and of its siblings. */
  lemma PendingKeys(before: seq<Node>, g: View, t: Table, p: nat, i: nat, k: Key, c: nat)
    requires FullPending(before, g, t, p, i, k, c) && Shape(before, g.level)
    ensures before[p].children[SPLIT] in g.level && Last(before[p].children) in g.level
    ensures var cm, mx, last := MaxKey(before, g.level, c), MaxKey(before, g.level, before[p].children[SPLIT]),
                                MaxKey(before, g.level, Last(before[p].children));
            && 0 < cm && g.lo[p] < cm <= g.hi[p] && (last > 0 ==> g.lo[p] < last <= g.hi[p])
            && (i >= SPLIT ==> mx <= cm) && (!Fine(before, g.level, before[p].children[SPLIT]) ==> mx == 0)
            && (!Fine(before, g.level, Last(before[p].children)) ==> last == 0)
            && (i < SPLIT && Fine(before, g.level, before[p].children[SPLIT]) ==> cm < mx)
  {
    var x := before[p];
    var v := Virtual(before, p, i, k, c);
    var m, l := if i < SPLIT then SPLIT + 1 else SPLIT, if i < |x.keys| then |x.keys| + 1 else |x.keys|;
    MiddleAndLast(before, g, t, p, i, k, c);
    assert v[p].children[i] == x.children[i];
    assert v[p].children[i + 1] == c && v[p].children[m] == x.children[SPLIT] && v[p].children[l] == Last(x.children);
    PendingRead(before, g, t, p, i, k, c, i, x.children[i]);
    PendingRead(before, g, t, p, i, k, c, i + 1, c);
    PendingRead(before, g, t, p, i, k, c, m, x.children[SPLIT]);
    PendingRead(before, g, t, p, i, k, c, l, Last(x.children));
    BelowMax(before, g, t, p, i, k, c, c);
    PendingOrder(before, g, t, p, i, k, c, i, i + 1);
    if i < SPLIT { PendingOrder(before, g, t, p, i, k, c, i + 1, m); } else { PendingOrder(before, g, t, p, i, k, c, m, i + 1); }
    PendingBase(before, g, t, p, i, k, c);
  }

  lemma PendingBase(before: seq<Node>, g: View, t: Table, p: nat, i: nat, k: Key, c: nat)
    requires Pending(before, g, t, p, i, k, c)
    ensures c in g.level && before[p].children[i] in g.level && g.lo[before[p].children[i]] >= -1 && g.lo[c] >= 0
  {
    PendingChild(before, g, t, p, i, k, c, i + 1);
    PendingChild(before, g, t, p, i, k, c, i);
    var v := Virtual(before, p, i, k, c);
    assert v[p].children[i + 1] == c && v[p].children[i] == before[p].children[i];
  }

  lemma PendingLike(before: seq<Node>, g: View, t: Table, p: nat, i: nat, k: Key, c: nat, mid: seq<Node>, n: nat, h: nat, idx: nat,
                    cut: seq<Node>)
    requires FullPending(before, g, t, p, i, k, c) && Shape(before, g.level)
    requires HalfEntered(before, g.level, p, c, mid, n, h, idx, cut) && Shape(cut, g.level[n := g.level[p]])
    ensures Likeness(Virtual(before, p, i, k, c), g, t, p, cut, g.level[n := g.level[p]], p, p)
  {
    var v := Virtual(before, p, i, k, c);
    forall y | y in g.level
      ensures g.level[y] <= g.level[p] ==> Beside(v, g, cut, y, p)
      ensures g.level[y] > g.level[p] ==> Alike(v, cut, y)
    {
      PendingBeside(before, g, t, p, i, k, c, mid, n, h, idx, cut, y);
    }
    CutKeeps(before, g.level, p, c, mid, n, h, idx, cut, p);
    hide Inv, Shape, Fine, HalfEntered, Beside, Alike;
  }

  lemma PendingBeside(before: seq<Node>, g: View, t: Table, p: nat, i: nat, k: Key, c: nat, mid: seq<Node>, n: nat, h: nat,
                      idx: nat, cut: seq<Node>, y: nat)
    requires FullPending(before, g, t, p, i, k, c) && Shape(before, g.level) && y in g.level
    requires HalfEntered(before, g.level, p, c, mid, n, h, idx, cut) && Shape(cut, g.level[n := g.level[p]])
    ensures y in g.lo && y in g.hi && p in g.lo && p in g.hi
    ensures g.level[y] <= g.level[p] ==> Beside(Virtual(before, p, i, k, c), g, cut, y, p)
    ensures g.level[y] > g.level[p] ==> Alike(Virtual(before, p, i, k, c), cut, y)
  {
    CutKeeps(before, g.level, p, c, mid, n, h, idx, cut, y);
    hide Shape, Fine, HalfEntered, PagesOk, OrderOk, BoundaryOk;
    assert y != p ==> SameBody(Virtual(before, p, i, k, c), before, y);
  }
}
