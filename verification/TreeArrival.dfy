/** A child arrives at a page: in what state the tree is then, and how the insert ends. */
module TreeArrival {
  import opened Layout
  import opened Tree
  import opened TreeCascade
  import opened TreeHalves
  import opened TreeUp
  import opened TreeLeafUp
  import opened TreeClear
  import opened TreeRuin
  import opened TreeDebt
  import opened TreeDebtUp
  import opened TreeInsert

  /** Nothing is known but the shape; the page is in order and waits for the child behind child i;
      page x below is bad; the child reads as 0; child i reads as 0. */
  datatype Arrival =
    | Plain
    | InOrder(g: View, i: nat, k: Key)
    | BadBelow(x: nat)
    | ZeroAbove
    | ZeroBelow(r: seq<Node>, v: View, over: nat, j: nat)

  ghost const NoView: View := View(map[], map[], map[], map[], [])

  ghost predicate Arrives(pages: seq<Node>, level: map<nat, nat>, t: Table, p: nat, c: nat, a: Arrival)
    requires Shape(pages, level) && p in level && c in level
  {
    match a
    case Plain => true
    case InOrder(g, i, k) => level == g.level && Pending(pages, g, t, p, i, k, c)
    case BadBelow(x) => x in level && level[x] < level[p] && Bad(pages, x)
    case ZeroAbove => MaxKey(pages, level, c) == 0 && HasKeys(pages, c)
    case ZeroBelow(r, v, over, j) => Debt(pages, level, t, p, c, r, v, over, j)
  }

  /** The insert will end in a tree. */
  ghost predicate Good(pages: seq<Node>, level: map<nat, nat>, t: Table, p: nat, a: Arrival)
    requires Shape(pages, level) && p in level && t.root in level && level[p] <= level[t.root]
  {
    a.InOrder? && Clear(pages, level, t.root, p, a.i)
  }

  /** The insert will not end in a tree. */
  ghost predicate Doomed(pages: seq<Node>, level: map<nat, nat>, t: Table, p: nat, a: Arrival)
    requires Shape(pages, level) && p in level && t.root in level && level[p] <= level[t.root]
  {
    !a.Plain? && !Good(pages, level, t, p, a)
  }

  /** How the insert of a child at page p ended. */
  ghost predicate Outcome(before: seq<Node>, level: map<nat, nat>, t: Table, p: nat, a: Arrival,
                          after: seq<Node>, level': map<nat, nat>, g': View)
    requires Shape(before, level) && p in level && t.root in level && level[p] <= level[t.root]
  {
    && Joined(before, level, after, level', t, p)
    && (Good(before, level, t, p, a) ==> Cascaded(before, a.g, after, g', t))
    && (Doomed(before, level, t, p, a) ==> Ruined(after, level', t))
  }

  /** Everything the code may rely on when child c arrives at page p. */
  ghost predicate Arriving(pages: seq<Node>, level: map<nat, nat>, t: Table, p: nat, c: nat, a: Arrival) {
    && Ready(pages, level, t, p, c) && Hooked(pages, level, t, c) && level[c] + 1 == level[p] && Arrives(pages, level, t, p, c, a)
  }

  // A page with room

  lemma RoomOutcome(before: seq<Node>, level: map<nat, nat>, t: Table, p: nat, c: nat, a: Arrival, idx: nat, after: seq<Node>)
    returns (g': View)
    requires Arriving(before, level, t, p, c, a) && |before[p].keys| < INTERNAL_NODE_MAX_KEYS
    requires Entered(before, level, p, c, idx, after)
    ensures Outcome(before, level, t, p, a, after, level, g')
  {
    var x := before[p];
    var cm, rm := MaxKey(before, level, c), MaxKey(before, level, Last(x.children));
    assert Descends(before, level, p) && Descends(before, level, x.children[0]);
    InsertedChildren(x, c, cm, rm, idx);
    RoomJoined(before, level, t, p, c, after);
    g' := if a.InOrder? then a.g else NoView;
    if Good(before, level, t, p, a) {
      RoomCascaded(before, a.g, t, p, a.i, a.k, c, idx);
    } else if !a.Plain? {
      RoomRuined(before, level, t, p, c, a, idx, after);
    }
  }

  lemma RoomRuined(before: seq<Node>, level: map<nat, nat>, t: Table, p: nat, c: nat, a: Arrival, idx: nat, after: seq<Node>)
    requires Arriving(before, level, t, p, c, a) && |before[p].keys| < INTERNAL_NODE_MAX_KEYS
    requires Entered(before, level, p, c, idx, after) && Joined(before, level, after, level, t, p)
    requires Doomed(before, level, t, p, a)
    ensures Ruined(after, level, t)
  {
    var x := before[p];
    assert Descends(before, level, p) && Descends(before, level, x.children[0]);
    match a
    case BadBelow(y) => BadStays(before, level, after, level, t, p, y);
    case ZeroAbove => EnteredBad(before, level, p, c, idx, after);
    case ZeroBelow(r, v, over, j) => ZeroChildEntered(before, level, p, j, c, idx, after);
    case InOrder(g, i, k) =>
      EmptyRightRead(before, g, t, p, i, k, c);
      EnteredBehindEmpty(before, level, p, c, idx, after);
  }

  /** A page with room that is not clear: its last child reads as 0, the new child does not. */
  lemma EmptyRightRead(before: seq<Node>, g: View, t: Table, p: nat, i: nat, k: Key, c: nat)
    requires Pending(before, g, t, p, i, k, c) && Shape(before, g.level) && !Fine(before, g.level, p)
    ensures Last(before[p].children) in g.level && MaxKey(before, g.level, Last(before[p].children)) == 0
    ensures MaxKey(before, g.level, c) > 0 && |before[p].keys| > 0
  {
    var x := before[p];
    var v := Virtual(before, p, i, k, c);
    var n := |x.keys|;
    assert Descends(before, g.level, p);
    var l := if i < n then n + 1 else n;
    assert v[p].children[l] == Last(x.children) && v[p].children[i + 1] == c && v[p].children[i] == x.children[i];
    PendingRead(before, g, t, p, i, k, c, l, Last(x.children));
    PendingRead(before, g, t, p, i, k, c, i + 1, c);
    BelowMax(before, g, t, p, i, k, c, c);
    BelowMax(before, g, t, p, i, k, c, x.children[i]);
    PendingBase(before, g, t, p, i, k, c);
  }

  // A full page

  /** Full page p was cut into p and n, and child c has entered half h. */
  ghost predicate Halved(before: seq<Node>, level: map<nat, nat>, t: Table, p: nat, c: nat, a: Arrival,
                         mid: seq<Node>, n: nat, h: nat, idx: nat, cut: seq<Node>)
  {
    && Arriving(before, level, t, p, c, a) && HalfEntered(before, level, p, c, mid, n, h, idx, cut)
    && Hooked(cut, level[n := level[p]], t, n) && Shape(cut, level[n := level[p]]) && n < |cut|
    && forall x {:trigger SameContent(before, cut, x)} :: x in level && level[x] < level[p] ==> SameContent(before, cut, x)
  }

  lemma MakeHalved(before: seq<Node>, level: map<nat, nat>, t: Table, p: nat, c: nat, a: Arrival,
                   mid: seq<Node>, n: nat, h: nat, idx: nat, cut: seq<Node>)
    requires Arriving(before, level, t, p, c, a) && HalfEntered(before, level, p, c, mid, n, h, idx, cut)
    ensures Halved(before, level, t, p, c, a, mid, n, h, idx, cut)
  {
    var level' := level[n := level[p]];
    InsertedChildren(mid[h], c, MaxKey(mid, level', c), MaxKey(mid, level', Last(mid[h].children)), idx);
    hide Shape, Inserted, MaxKey, Searched;
    HalvesHooked(before, level, t, p, c, mid, n, h, cut);
    HookedShape(cut, level', t, n);
  }

  /** The half that takes the child is fine: the outcome is the page that holds the child, cut. */
  lemma HalvedInOrder(before: seq<Node>, level: map<nat, nat>, t: Table, p: nat, c: nat, a: Arrival,
                      mid: seq<Node>, n: nat, h: nat, idx: nat, cut: seq<Node>)
    requires Halved(before, level, t, p, c, a, mid, n, h, idx, cut) && a.InOrder?
    requires HalfFine(before, level, before[p], a.i)
    ensures FullPending(before, a.g, t, p, a.i, a.k, c)
    ensures var v := Virtual(before, p, a.i, a.k, c); CutAt(v[p], v, cut, p, n, SplitSize(a.i))
    ensures h == if a.i < SPLIT then p else n
  {
    var g, i, k := a.g, a.i, a.k;
    assert FullPending(before, g, t, p, i, k, c);
    BelowMax(before, g, t, p, i, k, c, before[p].children[SPLIT]);
    BelowMax(before, g, t, p, i, k, c, Last(before[p].children));
    PendingKeys(before, g, t, p, i, k, c);
    HalfGoes(before, level, p, c, mid, n, h, idx, cut);
    CutShape(before, level, p, mid, n);
    MidMaxes(before, mid, g, t, p, i, k, c, n);
    hide Inv, Shape, Fine, Hooked;
    CutThenInsert(before, mid, cut, g, t, p, i, k, c, n, h, MaxKey(mid, level[n := level[p]], c),
                  MaxKey(mid, level[n := level[p]], Last(mid[h].children)), idx);
  }

  /** Whether the halves end with nonempty leaves. */
  lemma HalvesFine(before: seq<Node>, level: map<nat, nat>, t: Table, p: nat, c: nat, a: Arrival,
                   mid: seq<Node>, n: nat, h: nat, idx: nat, cut: seq<Node>)
    requires Halved(before, level, t, p, c, a, mid, n, h, idx, cut)
    ensures Fine(cut, level[n := level[p]], p) <==> Fine(before, level, before[p].children[SPLIT])
    ensures Fine(before, level, c) && Fine(before, level, Last(before[p].children)) ==> Fine(cut, level[n := level[p]], n)
  {
    var level' := level[n := level[p]];
    HalfGoes(before, level, p, c, mid, n, h, idx, cut);
    HalfEnds(mid, level', h, c, idx, cut, p);
    HalfEnds(mid, level', h, c, idx, cut, n);
    assert Descends(cut, level', p) && Descends(cut, level', n);
    hide Entered, Hooked, Searched, CutAt, Arriving;
    SameFine(before, level, p, n, cut, before[p].children[SPLIT]);
    SameFine(before, level, p, n, cut, Last(before[p].children));
    SameFine(before, level, p, n, cut, c);
  }

  lemma SameFine(before: seq<Node>, level: map<nat, nat>, p: nat, n: nat, cut: seq<Node>, x: nat)
    requires Shape(before, level) && p in level && n !in level && Shape(cut, level[n := level[p]])
    requires forall x {:trigger SameContent(before, cut, x)} :: x in level && level[x] < level[p] ==> SameContent(before, cut, x)
    requires x in level && level[x] < level[p]
    ensures Fine(cut, level[n := level[p]], x) <==> Fine(before, level, x)
    ensures MaxKey(cut, level[n := level[p]], x) == MaxKey(before, level, x)
  {
    forall y | y in level && level[y] <= level[x] ensures SameBody(before, cut, y) { assert SameContent(before, cut, y); }
    RightLeafFrame(before, cut, level, level[n := level[p]], x);
  }

  // ... that is the root

  lemma RootOutcome(before: seq<Node>, level: map<nat, nat>, t: Table, c: nat, a: Arrival,
                    mid: seq<Node>, n: nat, h: nat, idx: nat, cut: seq<Node>, after: seq<Node>)
    returns (level': map<nat, nat>, g': View)
    requires Halved(before, level, t, t.root, c, a, mid, n, h, idx, cut)
    requires NewRoot(cut, after, t.root, n, MaxKey(cut, level[n := level[t.root]], t.root))
    ensures Outcome(before, level, t, t.root, a, after, level', g')
  {
    var level1 := level[n := level[t.root]];
    level' := level1[n + 1 := level[t.root]][t.root := level[t.root] + 1];
    HalvedSize(before, level, t, t.root, c, a, mid, n, h, idx, cut);
    HalvedGrown(before, level, t, t.root, c, a, mid, n, h, idx, cut);
    RootJoined(before, level, t, n, cut, after, MaxKey(cut, level1, t.root));
    g' := NoView;
    if Good(before, level, t, t.root, a) {
      g' := RootGood(before, level, t, c, a, mid, n, h, idx, cut, after);
    } else if !a.Plain? {
      RootRuined(before, level, t, c, a, mid, n, h, idx, cut, after);
    }
  }

  lemma RootJoined(before: seq<Node>, level: map<nat, nat>, t: Table, n: nat, cut: seq<Node>, after: seq<Node>, m: Key)
    requires t.root in level && n !in level && n + 1 !in level && |cut| == n + 1 && t.root < |cut| && cut[t.root].Internal?
    requires Hooked(cut, level[n := level[t.root]], t, n) && NewRoot(cut, after, t.root, n, m)
    requires Grown(before, level, cut, level[n := level[t.root]])
    requires forall x {:trigger SameContent(before, cut, x)} :: x in level && level[x] < level[t.root] ==> SameContent(before, cut, x)
    ensures Joined(before, level, after, level[n := level[t.root]][n + 1 := level[t.root]][t.root := level[t.root] + 1], t, t.root)
  {
    NewRootHooked(cut, level[n := level[t.root]], t, n, after, m);
    hide Hooked, NewRoot, Grown;
    GrownTwice(before, level, cut, level[n := level[t.root]], after,
               level[n := level[t.root]][n + 1 := level[t.root]][t.root := level[t.root] + 1]);
    forall x | x in level && level[x] < level[t.root] ensures SameContent(before, after, x) {
      assert SameContent(before, cut, x) && SameContent(cut, after, x);
      SameTwice(before, cut, after, x);
    }
  }

  lemma SameTwice(pages: seq<Node>, pages1: seq<Node>, pages2: seq<Node>, x: nat)
    requires SameContent(pages, pages1, x) && SameContent(pages1, pages2, x)
    ensures SameContent(pages, pages2, x)
  {
  }

  /** A cut writes no page outside the tree. */
  lemma HalvedGrown(before: seq<Node>, level: map<nat, nat>, t: Table, p: nat, c: nat, a: Arrival,
                    mid: seq<Node>, n: nat, h: nat, idx: nat, cut: seq<Node>)
    requires Halved(before, level, t, p, c, a, mid, n, h, idx, cut)
    ensures Grown(before, level, cut, level[n := level[p]])
  {
    HalvedNew(before, level, t, p, c, a, mid, n, h, idx, cut);
    hide Halved;
    forall x: nat | x < |before| ensures cut[x].Leaf? == before[x].Leaf? && (x !in level ==> cut[x] == before[x]) {
      HalvedPage(before, level, t, p, c, a, mid, n, h, idx, cut, x);
    }
  }

  lemma HalvedNew(before: seq<Node>, level: map<nat, nat>, t: Table, p: nat, c: nat, a: Arrival,
                  mid: seq<Node>, n: nat, h: nat, idx: nat, cut: seq<Node>)
    requires Halved(before, level, t, p, c, a, mid, n, h, idx, cut)
    ensures n == |before| && |cut| == n + 1 && cut[n].Internal? && p in level && forall x :: x in level ==> x < |before|
  {
    hide Searched, MaxKey, Shape, SameContent, InPlace, Arrives, Clear;
    assert cut[n].Internal?;
    HookedBelow(before, level, t, c);
  }

  lemma HookedBelow(pages: seq<Node>, level: map<nat, nat>, t: Table, c: nat)
    requires Hooked(pages, level, t, c)
    ensures forall x :: x in level ==> x < |pages|
  {
    forall x | x in level ensures x < |pages| { assert InPlace(pages, level, t, c, x); }
  }

  lemma HalvedPage(before: seq<Node>, level: map<nat, nat>, t: Table, p: nat, c: nat, a: Arrival,
                   mid: seq<Node>, n: nat, h: nat, idx: nat, cut: seq<Node>, x: nat)
    requires Halved(before, level, t, p, c, a, mid, n, h, idx, cut) && x < |before|
    ensures n == |before| && |cut| == n + 1 && cut[x].Leaf? == before[x].Leaf? && (x !in level ==> cut[x] == before[x])
  {
    assert InPlace(before, level, t, c, p) && InPlace(before, level, t, c, c);
    var moved := before[p].children[SPLIT + 1..];
    assert x in moved ==> x in before[p].children;
    assert mid[x].Leaf? == before[x].Leaf? && (x !in level ==> mid[x] == before[x]);
    hide Hooked, Searched, MaxKey, Shape, Arriving, SameContent, CutAt;
  }

  lemma HalvedSize(before: seq<Node>, level: map<nat, nat>, t: Table, p: nat, c: nat, a: Arrival,
                   mid: seq<Node>, n: nat, h: nat, idx: nat, cut: seq<Node>)
    requires Halved(before, level, t, p, c, a, mid, n, h, idx, cut)
    ensures |cut| == n + 1 && n + 1 !in level && p < |cut| && cut[p].Internal?
  {
    forall y | y in level ensures y < n { assert Descends(before, level, y); }
    CutKeeps(before, level, p, c, mid, n, h, idx, cut, p);
  }

  lemma RootGood(before: seq<Node>, level: map<nat, nat>, t: Table, c: nat, a: Arrival,
                 mid: seq<Node>, n: nat, h: nat, idx: nat, cut: seq<Node>, after: seq<Node>)
    returns (g': View)
    requires Halved(before, level, t, t.root, c, a, mid, n, h, idx, cut)
    requires NewRoot(cut, after, t.root, n, MaxKey(cut, level[n := level[t.root]], t.root))
    requires Good(before, level, t, t.root, a)
    ensures Cascaded(before, a.g, after, g', t)
  {
    assert Descends(before, level, t.root);
    assert HalfFine(before, level, before[t.root], a.i);
    HalvedInOrder(before, level, t, t.root, c, a, mid, n, h, idx, cut);
    HalvesFine(before, level, t, t.root, c, a, mid, n, h, idx, cut);
    hide Hooked, HalfEntered, Clear;
    CutFrame(before, a.g, t, t.root, a.i, a.k, c, cut, n);
    g' := RootFinished(before, a.g, t, a.i, a.k, c, cut, n, after);
  }

  lemma RootRuined(before: seq<Node>, level: map<nat, nat>, t: Table, c: nat, a: Arrival,
                   mid: seq<Node>, n: nat, h: nat, idx: nat, cut: seq<Node>, after: seq<Node>)
    requires Halved(before, level, t, t.root, c, a, mid, n, h, idx, cut)
    requires NewRoot(cut, after, t.root, n, MaxKey(cut, level[n := level[t.root]], t.root))
    requires Doomed(before, level, t, t.root, a)
    requires Joined(before, level, after, level[n := level[t.root]][n + 1 := level[t.root]][t.root := level[t.root] + 1], t, t.root)
    ensures Ruined(after, level[n := level[t.root]][n + 1 := level[t.root]][t.root := level[t.root] + 1], t)
  {
    var level' := level[n := level[t.root]][n + 1 := level[t.root]][t.root := level[t.root] + 1];
    if a.BadBelow? {
      BadStays(before, level, after, level', t, t.root, a.x);
    } else {
      RootVerdict(before, level, t, c, a, mid, n, h, idx, cut);
      assert Descends(before, level, t.root);
      CutKeeps(before, level, t.root, c, mid, n, h, idx, cut, t.root);
      RootBad(cut, level[n := level[t.root]], t, n, after);
    }
  }

  /** A bad half of the root, or a lower half that reads as 0, makes for a bad page below or at the new root. */
  lemma RootBad(cut: seq<Node>, level: map<nat, nat>, t: Table, n: nat, after: seq<Node>)
    requires Hooked(cut, level, t, n) && Shape(cut, level) && n in level && t.root < |cut| && cut[t.root].Internal? && |cut[t.root].keys| > 0
    requires level[n] == level[t.root] && n + 1 == |cut|
    requires NewRoot(cut, after, t.root, n, MaxKey(cut, level, t.root))
    requires Bad(cut, t.root) || Bad(cut, n) || MaxKey(cut, level, t.root) == 0
    ensures Bad(after, n + 1) || Bad(after, n) || Bad(after, t.root)
  {
    assert Descends(cut, level, t.root) && Descends(cut, level, n);
    if Bad(cut, t.root) {
      assert Bad(after, n + 1);
    } else if Bad(cut, n) {
      var f := cut[n].children[0];
      assert f in level && level[f] < level[n] && Descends(cut, level, f);
      assert Bad(after, n);
    } else {
      assert Bad(after, t.root);
    }
  }

  lemma RootVerdict(before: seq<Node>, level: map<nat, nat>, t: Table, c: nat, a: Arrival,
                    mid: seq<Node>, n: nat, h: nat, idx: nat, cut: seq<Node>)
    requires Halved(before, level, t, t.root, c, a, mid, n, h, idx, cut)
    requires Doomed(before, level, t, t.root, a) && !a.BadBelow?
    ensures Bad(cut, t.root) || Bad(cut, n) || MaxKey(cut, level[n := level[t.root]], t.root) == 0
  {
    var p := t.root;
    assert Descends(before, level, p);
    match a
    case ZeroAbove => ZeroAboveCut(before, level, p, c, mid, n, h, idx, cut);
    case ZeroBelow(r, v, over, j) => DebtAtFull(before, level, t, p, c, r, v, over, j, mid, n, h, idx, cut);
    case InOrder(g, i, k) =>
      PendingKeys(before, g, t, p, i, k, c);
      if !Fine(before, level, before[p].children[SPLIT]) {
        PendingAtFull(before, g, t, p, i, k, c, mid, n, h, idx, cut);
      } else {
        EmptyUpperHalf(before, level, p, c, mid, n, h, idx, cut);
      }
  }

  /** A child that reads as 0 becomes the first child of a half. */
  lemma ZeroAboveCut(before: seq<Node>, level: map<nat, nat>, p: nat, c: nat, mid: seq<Node>, n: nat, h: nat, idx: nat, cut: seq<Node>)
    requires Shape(before, level) && c in level && p in level && HalfEntered(before, level, p, c, mid, n, h, idx, cut)
    requires MaxKey(before, level, c) == 0 && HasKeys(before, c)
    ensures Bad(cut, h)
  {
    var level' := level[n := level[p]];
    HalfGoes(before, level, p, c, mid, n, h, idx, cut);
    assert Descends(mid, level', h) && Descends(before, level, c);
    assert mid[h].children[0] in level' && level'[mid[h].children[0]] < level'[h];
    EnteredBad(mid, level', h, c, idx, cut);
  }

  // ... below the root

  /** The parent's separator for page p was changed; n waits. */
  ghost predicate Passing(before: seq<Node>, level: map<nat, nat>, t: Table, p: nat, c: nat, a: Arrival,
                          mid: seq<Node>, n: nat, h: nat, idx: nat, cut: seq<Node>, index: nat, waiting: seq<Node>)
  {
    && Halved(before, level, t, p, c, a, mid, n, h, idx, cut) && p != t.root
    && var pp := cut[p].parent;
       && pp < |cut| && cut[pp].Internal? && pp in level && pp != n && pp != p
       && Searched(cut[pp].keys, MaxKey(before, level, p), index)
       && waiting == if index < |cut[pp].keys|
                     then cut[pp := cut[pp].(keys := cut[pp].keys[index := MaxKey(cut, level[n := level[p]], p)])] else cut
  }

  /** What the code may rely on at the parent. */
  lemma ParentPlace(before: seq<Node>, level: map<nat, nat>, t: Table, p: nat, c: nat, a: Arrival,
                    mid: seq<Node>, n: nat, h: nat, idx: nat, cut: seq<Node>)
    requires Halved(before, level, t, p, c, a, mid, n, h, idx, cut) && p != t.root
    ensures var pp := cut[p].parent;
            && pp < |cut| && cut[pp].Internal? && pp in level && pp != n && pp != p && level[pp] == level[p] + 1 && n != p
            && before[p].parent == pp && cut[pp] == before[pp] && p in cut[pp].children && level[pp] <= level[t.root]
            && |cut[pp].children| == |cut[pp].keys| + 1 && |cut[pp].keys| <= INTERNAL_NODE_MAX_KEYS
            && cut[n].Internal? && |cut[n].keys| > 0 && cut[p].Internal? && |cut[p].keys| > 0
  {
    var level1 := level[n := level[p]];
    assert InPlace(before, level, t, c, p) && p != c;
    var pp := before[p].parent;
    assert InPlace(before, level, t, c, pp);
    assert InPlace(cut, level1, t, n, p) && InPlace(cut, level1, t, n, pp);
    CutKeeps(before, level, p, c, mid, n, h, idx, cut, p);
    CutKeeps(before, level, p, c, mid, n, h, idx, cut, pp);
    assert |mid[n].keys| > 0;
  }

  lemma HookedKeys(cut: seq<Node>, level: map<nat, nat>, t: Table, c: nat, pp: nat, waiting: seq<Node>)
    requires Hooked(cut, level, t, c) && pp < |cut| && cut[pp].Internal? && |waiting| == |cut| && waiting == cut[pp := waiting[pp]]
    requires waiting[pp].Internal? && waiting[pp] == cut[pp].(keys := waiting[pp].keys) && |waiting[pp].keys| == |cut[pp].keys|
    ensures Hooked(waiting, level, t, c)
  {
    forall x | x in level ensures InPlace(waiting, level, t, c, x) { assert InPlace(cut, level, t, c, x); }
  }

  lemma WaitingReady(before: seq<Node>, level: map<nat, nat>, t: Table, p: nat, c: nat, a: Arrival,
                     mid: seq<Node>, n: nat, h: nat, idx: nat, cut: seq<Node>, index: nat, waiting: seq<Node>)
    requires Passing(before, level, t, p, c, a, mid, n, h, idx, cut, index, waiting)
    ensures Shape(waiting, level[n := level[p]])
    ensures Arriving(waiting, level[n := level[p]], t, cut[p].parent, n, Plain)
    ensures n in level[n := level[p]] && MaxKey(waiting, level[n := level[p]], n) == MaxKey(cut, level[n := level[p]], n)
  {
    var level1 := level[n := level[p]];
    var pp := cut[p].parent;
    ParentPlace(before, level, t, p, c, a, mid, n, h, idx, cut);
    HookedKeys(cut, level1, t, n, pp, waiting);
    WaitingMax(cut, level1, pp, waiting);
    assert InPlace(waiting, level1, t, n, n) && InPlace(waiting, level1, t, n, pp);
  }

  /** Good news stays good, bad news stays bad. */
  ghost predicate Continues(before: seq<Node>, level: map<nat, nat>, t: Table, p: nat, a: Arrival, n: nat, pp: nat,
                            waiting: seq<Node>, a': Arrival)
    requires Shape(before, level) && p in level && t.root in level && level[p] <= level[t.root]
    requires var level1 := level[n := level[p]]; Shape(waiting, level1) && pp in level1 && t.root in level1 && level1[pp] <= level1[t.root]
  {
    var level1 := level[n := level[p]];
    && (Doomed(before, level, t, p, a) ==> Doomed(waiting, level1, t, pp, a'))
    && (Good(before, level, t, p, a) ==>
          && Good(waiting, level1, t, pp, a') && a'.g.order == a.g.order && a'.g.level == level1
          && Descends(before, level, p) && before[p].Internal? && |before[p].children| > SPLIT
          && before[p].children[SPLIT] in level && HalfFine(before, level, before[p], a.i)
          && pp < |before| && before[pp].Internal? && a'.i == IndexIn(before[pp].children, p))
  }

  /** What arrives at the parent once page p was cut. */
  lemma NextArrival(before: seq<Node>, level: map<nat, nat>, t: Table, p: nat, c: nat, a: Arrival,
                    mid: seq<Node>, n: nat, h: nat, idx: nat, cut: seq<Node>, index: nat, waiting: seq<Node>)
    returns (a': Arrival)
    requires Passing(before, level, t, p, c, a, mid, n, h, idx, cut, index, waiting)
    ensures Arriving(waiting, level[n := level[p]], t, cut[p].parent, n, a')
    ensures Continues(before, level, t, p, a, n, cut[p].parent, waiting, a')
    ensures Good(before, level, t, p, a) ==> a'.InOrder? && a'.i == index
  {
    hide Inv, Hooked, CutAt, Entered, Debt;
    WaitingReady(before, level, t, p, c, a, mid, n, h, idx, cut, index, waiting);
    assert Descends(before, level, p);
    if a.Plain? {
      a' := Plain;
    } else if a.InOrder? && Fine(before, level, before[p].children[SPLIT]) && Fine(before, level, p) {
      a' := NextInOrder(before, level, t, p, c, a, mid, n, h, idx, cut, index, waiting);
    } else {
      a' := NextDoomed(before, level, t, p, c, a, mid, n, h, idx, cut, index, waiting);
    }
  }

  lemma NextDoomed(before: seq<Node>, level: map<nat, nat>, t: Table, p: nat, c: nat, a: Arrival,
                   mid: seq<Node>, n: nat, h: nat, idx: nat, cut: seq<Node>, index: nat, waiting: seq<Node>)
    returns (a': Arrival)
    requires Passing(before, level, t, p, c, a, mid, n, h, idx, cut, index, waiting) && !a.Plain?
    requires Shape(waiting, level[n := level[p]]) && before[p].children[SPLIT] in level
    requires a.InOrder? ==> !Fine(before, level, before[p].children[SPLIT]) || !Fine(before, level, p)
    ensures a'.BadBelow? || a'.ZeroAbove? || a'.ZeroBelow?
    ensures cut[p].parent in level && n in level[n := level[p]] && Arrives(waiting, level[n := level[p]], t, cut[p].parent, n, a')
  {
    var level1 := level[n := level[p]];
    WaitingReady(before, level, t, p, c, a, mid, n, h, idx, cut, index, waiting);
    ParentPlace(before, level, t, p, c, a, mid, n, h, idx, cut);
    if a.BadBelow? {
      a' := a;
      BadHalfWaits(before, level, t, p, c, a, mid, n, h, idx, cut, index, waiting, a.x);
    } else {
      var r, v, over := FullVerdict(before, level, t, p, c, a, mid, n, h, idx, cut);
      if Bad(cut, p) || Bad(cut, n) {
        a' := BadBelow(if Bad(cut, p) then p else n);
        BadHalfWaits(before, level, t, p, c, a, mid, n, h, idx, cut, index, waiting, a'.x);
      } else if MaxKey(cut, level1, n) == 0 {
        a' := ZeroAbove;
      } else {
        var ip := DebtUp(r, v, t, over, cut, level1, p, n, MaxKey(before, level, p), index);
        a' := ZeroBelow(r, v, over, ip);
      }
    }
  }

  lemma BadAsBefore(before: seq<Node>, level: map<nat, nat>, t: Table, p: nat, c: nat, a: Arrival,
                    mid: seq<Node>, n: nat, h: nat, idx: nat, cut: seq<Node>, x: nat)
    requires Halved(before, level, t, p, c, a, mid, n, h, idx, cut) && x in level && p in level && level[x] < level[p] && Bad(before, x)
    ensures Bad(cut, x)
  {
    assert Descends(before, level, x);
    hide Hooked, Arriving, HalfEntered;
    assert SameContent(before, cut, x) && SameContent(before, cut, before[x].children[0]);
  }

  lemma BadHalfWaits(before: seq<Node>, level: map<nat, nat>, t: Table, p: nat, c: nat, a: Arrival,
                     mid: seq<Node>, n: nat, h: nat, idx: nat, cut: seq<Node>, index: nat, waiting: seq<Node>, x: nat)
    requires Passing(before, level, t, p, c, a, mid, n, h, idx, cut, index, waiting)
    requires ((x == p || x == n) && Bad(cut, x)) || (x in level && level[x] < level[p] && Bad(before, x))
    ensures x in level[n := level[p]] && level[n := level[p]][x] < level[n := level[p]][cut[p].parent] && Bad(waiting, x)
  {
    var level1 := level[n := level[p]];
    var pp := cut[p].parent;
    ParentPlace(before, level, t, p, c, a, mid, n, h, idx, cut);
    if x in level && level[x] < level[p] && Bad(before, x) { BadAsBefore(before, level, t, p, c, a, mid, n, h, idx, cut, x); }
    assert Descends(cut, level1, x);
    hide Halved, Shape, Hooked, BadNode;
    var f := cut[x].children[0];
    assert f in level1 && level1[f] < level1[x];
  }

  /** What became of a full page that should not have been split. */
  lemma FullVerdict(before: seq<Node>, level: map<nat, nat>, t: Table, p: nat, c: nat, a: Arrival,
                    mid: seq<Node>, n: nat, h: nat, idx: nat, cut: seq<Node>)
    returns (r: seq<Node>, v: View, over: nat)
    requires Halved(before, level, t, p, c, a, mid, n, h, idx, cut) && !a.Plain? && !a.BadBelow?
    requires before[p].children[SPLIT] in level
    requires a.InOrder? ==> !Fine(before, level, before[p].children[SPLIT]) || !Fine(before, level, p)
    ensures Bad(cut, p) || Bad(cut, n) || MaxKey(cut, level[n := level[p]], n) == 0 || Passed(before, level, p, n, cut, r, v, t, over)
  {
    r, v, over := before, NoView, 0;
    assert Descends(before, level, p);
    match a
    case ZeroAbove => ZeroAboveCut(before, level, p, c, mid, n, h, idx, cut);
    case ZeroBelow(r0, v0, over0, j) =>
      r, v, over := r0, v0, over0;
      DebtAtFull(before, level, t, p, c, r, v, over, j, mid, n, h, idx, cut);
    case InOrder(g, i, k) =>
      PendingKeys(before, g, t, p, i, k, c);
      if !Fine(before, level, before[p].children[SPLIT]) {
        r, v, over := Virtual(before, p, i, k, c), g, p;
        PendingAtFull(before, g, t, p, i, k, c, mid, n, h, idx, cut);
      } else if i >= SPLIT {
        EmptyUpperHalf(before, level, p, c, mid, n, h, idx, cut);
      } else {
        HalfReads(before, level, p, c, mid, n, h, idx, cut);
      }
  }

  /** The halves of a page that was in order, both ending with nonempty leaves: the parent is in
      order as well and waits for the upper half. */
  lemma NextInOrder(before: seq<Node>, level: map<nat, nat>, t: Table, p: nat, c: nat, a: Arrival,
                    mid: seq<Node>, n: nat, h: nat, idx: nat, cut: seq<Node>, index: nat, waiting: seq<Node>)
    returns (a': Arrival)
    requires Passing(before, level, t, p, c, a, mid, n, h, idx, cut, index, waiting) && a.InOrder?
    requires before[p].children[SPLIT] in level && Fine(before, level, before[p].children[SPLIT]) && Fine(before, level, p)
    requires Shape(waiting, level[n := level[p]])
    ensures a'.InOrder? && a'.g.order == a.g.order && a'.g.level == level[n := level[p]]
    ensures cut[p].parent in level && n in level[n := level[p]] && Arrives(waiting, level[n := level[p]], t, cut[p].parent, n, a')
    ensures level[cut[p].parent] <= level[t.root] && t.root in level
    ensures Clear(before, level, t.root, p, a.i) <==> Clear(waiting, level[n := level[p]], t.root, cut[p].parent, a'.i)
    ensures cut[p].parent < |before| && before[cut[p].parent].Internal? && a'.i == IndexIn(before[cut[p].parent].children, p)
    ensures a'.i == index
  {
    var g, i, k := a.g, a.i, a.k;
    var pp := cut[p].parent;
    assert Descends(before, level, p);
    ParentPlace(before, level, t, p, c, a, mid, n, h, idx, cut);
    HalvedInOrder(before, level, t, p, c, a, mid, n, h, idx, cut);
    HalvesFine(before, level, t, p, c, a, mid, n, h, idx, cut);
    BelowMax(before, g, t, p, i, k, c, c);
    var ip, g2, k2 := NextPending(before, level, t, p, c, a, mid, n, h, idx, cut, index, waiting);
    a' := InOrder(g2, ip, k2);
    NextClear(before, level, t, p, c, a, mid, n, h, idx, cut, index, waiting, ip);
  }

  lemma NextPending(before: seq<Node>, level: map<nat, nat>, t: Table, p: nat, c: nat, a: Arrival,
                    mid: seq<Node>, n: nat, h: nat, idx: nat, cut: seq<Node>, index: nat, waiting: seq<Node>)
    returns (ip: nat, g2: View, k2: Key)
    requires Passing(before, level, t, p, c, a, mid, n, h, idx, cut, index, waiting) && a.InOrder?
    requires FullPending(before, a.g, t, p, a.i, a.k, c) && Fine(before, level, p)
    requires var v := Virtual(before, p, a.i, a.k, c); CutAt(v[p], v, cut, p, n, SplitSize(a.i))
    requires Fine(cut, level[n := level[p]], p) && Fine(cut, level[n := level[p]], n)
    ensures Pending(waiting, g2, t, cut[p].parent, ip, k2, n)
    ensures g2.order == a.g.order && g2.level == level[n := level[p]]
    ensures before[p].parent < |before| && before[before[p].parent].Internal?
    ensures ip == IndexIn(before[before[p].parent].children, p) == index
  {
    var g, i, k := a.g, a.i, a.k;
    var v := Virtual(before, p, i, k, c);
    ParentPlace(before, level, t, p, c, a, mid, n, h, idx, cut);
    PendingCut(before, g, t, p, i, k, c, cut, n);
    var w, g1;
    w, g1, ip := AfterCut(v, g, t, p, SplitSize(i), cut, n);
    IndexAbove(before, g, t, p, i, k, c, cut, n, ip);
    SamePlace(before, g, t, p, i, k, c, cut, n);
    hide Inv, Fine, Halved, Likeness, Clear;
    g2, k2 := GoUpFrom(before, g, t, p, i, k, c, cut, n, w, g1, ip, MaxKey(cut, level[n := level[p]], p), waiting);
  }

  /** The first place of p among its parent's children is where the search finds it. */
  lemma SamePlace(before: seq<Node>, g: View, t: Table, p: nat, i: nat, k: Key, c: nat, cut: seq<Node>, n: nat)
    requires FullPending(before, g, t, p, i, k, c) && Shape(before, g.level) && p != t.root && Fine(before, g.level, p)
    requires var v := Virtual(before, p, i, k, c); CutAt(v[p], v, cut, p, n, SplitSize(i))
    requires var pp := cut[p].parent; pp < |before| && pp < |cut| && cut[pp] == before[pp] && before[pp].Internal? && pp in g.level && pp != p && pp != c
    requires p in cut[cut[p].parent].children && before[p].parent == cut[p].parent
    ensures forall idx: nat :: IsLowerBound(cut[cut[p].parent].keys, MaxKey(before, g.level, p), idx) ==>
              idx == IndexIn(before[before[p].parent].children, p)
  {
    IndexAbove(before, g, t, p, i, k, c, cut, n, IndexIn(before[before[p].parent].children, p));
  }

  lemma NextClear(before: seq<Node>, level: map<nat, nat>, t: Table, p: nat, c: nat, a: Arrival,
                  mid: seq<Node>, n: nat, h: nat, idx: nat, cut: seq<Node>, index: nat, waiting: seq<Node>, ip: nat)
    requires Shape(before, level) && p in level && t.root in level && level[p] <= level[t.root]
    requires Shape(cut, level[n := level[p]]) && Shape(waiting, level[n := level[p]]) && Fine(cut, level[n := level[p]], p)
    requires p < |before| && before[p].Internal? && |before[p].children| > SPLIT && before[p].children[SPLIT] in level
    requires Fine(before, level, before[p].children[SPLIT]) && Fine(before, level, p)
    requires before[p].parent < |before| && before[before[p].parent].Internal? && ip == IndexIn(before[before[p].parent].children, p)
    requires p < |cut| && n !in level && cut[p].parent in level && level[cut[p].parent] <= level[t.root]
    requires Passing(before, level, t, p, c, a, mid, n, h, idx, cut, index, waiting) && a.InOrder?
    ensures Clear(before, level, t.root, p, a.i) <==> Clear(waiting, level[n := level[p]], t.root, cut[p].parent, ip)
  {
    hide Inv, Hooked, CutAt, Entered;
    var level1 := level[n := level[p]];
    var pp := cut[p].parent;
    ParentPlace(before, level, t, p, c, a, mid, n, h, idx, cut);
    assert Descends(before, level, p);
    assert HasParent(before, level, t.root, p);
    forall z | z in level
      ensures z != p ==> SameBody(before, waiting, z)
      ensures level[z] >= level[pp] ==> AboveKept(before, waiting, level, t.root, z)
    {
      PageWaiting(before, level, t, p, c, a, mid, n, h, idx, cut, index, waiting, z);
    }
    WaitingFine(cut, level1, pp, waiting, p);
    hide Passing, AboveKept, SameBody;
    ClearKept(before, waiting, level, level1, t.root, p, pp, ip);
  }

  /** A page before the cut and while the upper half waits. */
  lemma PageWaiting(before: seq<Node>, level: map<nat, nat>, t: Table, p: nat, c: nat, a: Arrival,
                    mid: seq<Node>, n: nat, h: nat, idx: nat, cut: seq<Node>, index: nat, waiting: seq<Node>, z: nat)
    requires Passing(before, level, t, p, c, a, mid, n, h, idx, cut, index, waiting) && z in level
    ensures z != p ==> SameBody(before, waiting, z)
    ensures level[z] > level[p] ==> AboveKept(before, waiting, level, t.root, z)
  {
    ParentPlace(before, level, t, p, c, a, mid, n, h, idx, cut);
    CutKeeps(before, level, p, c, mid, n, h, idx, cut, z);
    if level[z] > level[p] { HookedParent(before, level, t, c, z); }
    hide HalfEntered, Hooked, Shape, MaxKey, Searched;
  }

  lemma HookedParent(before: seq<Node>, level: map<nat, nat>, t: Table, c: nat, z: nat)
    requires Hooked(before, level, t, c) && z in level && c in level && level[c] < level[z]
    ensures z < |before| && (z != t.root ==> HasParent(before, level, t.root, z))
  {
    assert InPlace(before, level, t, c, z);
    if z != t.root { assert InPlace(before, level, t, c, before[z].parent); }
  }

  lemma WaitingFine(cut: seq<Node>, level: map<nat, nat>, pp: nat, waiting: seq<Node>, x: nat)
    requires Shape(cut, level) && Shape(waiting, level) && |waiting| == |cut| && pp < |cut| && cut[pp].Internal? && waiting[pp].Internal?
    requires waiting == cut[pp := waiting[pp]] && waiting[pp].children == cut[pp].children && x in level
    ensures Fine(waiting, level, x) <==> Fine(cut, level, x)
  {
    forall y | y in level ensures SameBody(cut, waiting, y) { assert Descends(cut, level, y); }
    RightLeafFrame(cut, waiting, level, level, x);
  }

  /** The insert at the parent ended; what that means for the one at page p. */
  lemma PassOutcome(before: seq<Node>, level: map<nat, nat>, t: Table, p: nat, c: nat, a: Arrival,
                    mid: seq<Node>, n: nat, h: nat, idx: nat, cut: seq<Node>, index: nat, waiting: seq<Node>, a': Arrival,
                    after: seq<Node>, level': map<nat, nat>, g': View)
    requires Passing(before, level, t, p, c, a, mid, n, h, idx, cut, index, waiting)
    requires Arriving(waiting, level[n := level[p]], t, cut[p].parent, n, a')
    requires Continues(before, level, t, p, a, n, cut[p].parent, waiting, a')
    requires Outcome(waiting, level[n := level[p]], t, cut[p].parent, a', after, level', g')
    ensures Outcome(before, level, t, p, a, after, level', g')
  {
    ParentPlace(before, level, t, p, c, a, mid, n, h, idx, cut);
    PassJoined(before, level, t, p, c, a, mid, n, h, idx, cut, index, waiting, after, level');
    if Good(before, level, t, p, a) {
      PassGood(before, level, t, p, c, a, mid, n, h, idx, cut, index, waiting, a'.g, after, g');
    }
  }

  lemma PassingGrown(before: seq<Node>, level: map<nat, nat>, t: Table, p: nat, c: nat, a: Arrival,
                     mid: seq<Node>, n: nat, h: nat, idx: nat, cut: seq<Node>, index: nat, waiting: seq<Node>)
    requires Passing(before, level, t, p, c, a, mid, n, h, idx, cut, index, waiting)
    ensures Grown(cut, level[n := level[p]], waiting, level[n := level[p]])
  {
    ParentPlace(before, level, t, p, c, a, mid, n, h, idx, cut);
    HookedBelow(cut, level[n := level[p]], t, n);
    hide Arriving, HalfEntered, Shape, MaxKey, Hooked, Searched, SameContent, InPlace;
  }

  lemma PassJoined(before: seq<Node>, level: map<nat, nat>, t: Table, p: nat, c: nat, a: Arrival,
                   mid: seq<Node>, n: nat, h: nat, idx: nat, cut: seq<Node>, index: nat, waiting: seq<Node>,
                   after: seq<Node>, level': map<nat, nat>)
    requires Passing(before, level, t, p, c, a, mid, n, h, idx, cut, index, waiting)
    requires Joined(waiting, level[n := level[p]], after, level', t, cut[p].parent)
    ensures Joined(before, level, after, level', t, p)
  {
    ParentPlace(before, level, t, p, c, a, mid, n, h, idx, cut);
    HalvedGrown(before, level, t, p, c, a, mid, n, h, idx, cut);
    assert Grown(cut, level[n := level[p]], waiting, level[n := level[p]]) by {
      PassingGrown(before, level, t, p, c, a, mid, n, h, idx, cut, index, waiting);
    }
    hide Arriving, HalfEntered, Shape, MaxKey, Hooked, Searched, Grown;
    GrownTwice(before, level, cut, level[n := level[p]], waiting, level[n := level[p]]);
    GrownTwice(before, level, waiting, level[n := level[p]], after, level');
    forall x | x in level && level[x] < level[p] ensures SameContent(before, after, x) && level'[x] == level[x] {
      assert SameContent(before, cut, x) && SameContent(waiting, after, x);
    }
  }

  lemma PassGood(before: seq<Node>, level: map<nat, nat>, t: Table, p: nat, c: nat, a: Arrival,
                 mid: seq<Node>, n: nat, h: nat, idx: nat, cut: seq<Node>, index: nat, waiting: seq<Node>,
                 g2: View, after: seq<Node>, g': View)
    requires Passing(before, level, t, p, c, a, mid, n, h, idx, cut, index, waiting) && a.InOrder?
    requires before[p].children[SPLIT] in level && HalfFine(before, level, before[p], a.i)
    requires g2.order == a.g.order && g2.level == level[n := level[p]] && Cascaded(waiting, g2, after, g', t)
    ensures Cascaded(before, a.g, after, g', t)
  {
    hide Inv, Hooked, CutAt, Entered, Cascaded;
    ParentPlace(before, level, t, p, c, a, mid, n, h, idx, cut);
    HalvedInOrder(before, level, t, p, c, a, mid, n, h, idx, cut);
    CutFrame(before, a.g, t, p, a.i, a.k, c, cut, n);
    PendingCut(before, a.g, t, p, a.i, a.k, c, cut, n);
    hide Inv, Fine, Halved, Cascaded, CutFramed, FullPending;
    CutCascaded(before, a.g, t, p, cut, n, cut[p].parent, waiting, g2, after, g');
  }

  /** What the code asks of a full page before it cuts it. */
  lemma FullReady(before: seq<Node>, level: map<nat, nat>, t: Table, p: nat, c: nat, a: Arrival)
    requires Arriving(before, level, t, p, c, a) && |before[p].keys| >= INTERNAL_NODE_MAX_KEYS
    ensures p !in before[p].children && (forall y :: y in before[p].children ==> y < |before|)
    ensures |before[p].keys| == INTERNAL_NODE_MAX_KEYS && |before| !in level
  {
    assert Descends(before, level, p);
    forall y | y in level ensures y < |before| { assert Descends(before, level, y); }
    forall y | y in before[p].children ensures y < |before| && y != p {
      var j :| 0 <= j < |before[p].children| && before[p].children[j] == y;
    }
  }

  lemma ArrivingReady(pages: seq<Node>, level: map<nat, nat>, t: Table, p: nat, c: nat, a: Arrival)
    requires Arriving(pages, level, t, p, c, a)
    ensures Ready(pages, level, t, p, c)
  {
  }

  /** What the code asks of the halves. */
  lemma HalvedRoot(before: seq<Node>, level: map<nat, nat>, t: Table, p: nat, c: nat, a: Arrival,
                   mid: seq<Node>, n: nat, h: nat, idx: nat, cut: seq<Node>)
    requires Halved(before, level, t, p, c, a, mid, n, h, idx, cut)
    ensures p < |cut| && n < |cut| && n != p && p in level && (cut[p].isRoot <==> p == t.root) && Shape(cut, level[n := level[p]])
    ensures cut[p].Internal? && n !in cut[p].children && p !in cut[p].children && forall y :: y in cut[p].children ==> y < |cut|
  {
    var level1 := level[n := level[p]];
    HalvedSize(before, level, t, p, c, a, mid, n, h, idx, cut);
    assert InPlace(cut, level1, t, n, p) && Descends(cut, level1, p);
    forall y | y in cut[p].children ensures y < |cut| && y != p && y != n {
      var j :| 0 <= j < |cut[p].children| && cut[p].children[j] == y;
      assert Descends(cut, level1, y);
    }
  }

  // From the leaf

  /** The upper half of a leaf arrives at the parent. */
  lemma LeafArrival(before: seq<Node>, g: View, t: Table, p: nat, i: nat, c: Cell, cut: seq<Node>, n: nat, j: nat,
                    waiting: seq<Node>, g2: View, ip: nat, k2: Key)
    returns (a: Arrival)
    requires p < |before| && LeafWaits(before, g, t, p, i, c, cut, n, j, before[p].parent, waiting, g2)
    requires Pending(waiting, g2, t, before[p].parent, ip, k2, n)
    requires waiting[before[p].parent].children == before[before[p].parent].children
    requires waiting[before[p].parent].parent == before[before[p].parent].parent
    requires ip < |before[before[p].parent].children| && before[before[p].parent].children[ip] == p
    ensures a == InOrder(g2, ip, k2) && Arriving(waiting, g2.level, t, before[p].parent, n, a)
    ensures Good(waiting, g2.level, t, before[p].parent, a) <==> InsertClear(before, g, t, p)
  {
    a := InOrder(g2, ip, k2);
    PendingReady(waiting, g2, t, before[p].parent, ip, k2, n);
    PendingHooked(waiting, g2, t, before[p].parent, ip, k2, n);
    InvShape(before, g, t, 0);
    LeafStillClear(before, g, t, p, i, c, cut, n, j, waiting, g2, ip);
  }

  lemma LeafStillClear(before: seq<Node>, g: View, t: Table, p: nat, i: nat, c: Cell, cut: seq<Node>, n: nat, j: nat,
                       waiting: seq<Node>, g2: View, ip: nat)
    requires p < |before| && LeafWaits(before, g, t, p, i, c, cut, n, j, before[p].parent, waiting, g2)
    requires Shape(before, g.level) && Shape(waiting, g2.level) && t.root in g.level && g2.level[before[p].parent] <= g2.level[t.root]
    requires waiting[before[p].parent].children == before[before[p].parent].children
    requires waiting[before[p].parent].parent == before[before[p].parent].parent
    requires ip < |before[before[p].parent].children| && before[before[p].parent].children[ip] == p
    ensures Clear(waiting, g2.level, t.root, before[p].parent, ip) <==> LeafClear(before, g.level, t.root, p)
  {
    var pp := before[p].parent;
    SplitKey(before, g, t, p, i, c, cut, n);
    assert Insertable(before, g, t, p, i, c);
    TreeLeaf.PageBelowParent(before, g, t, 0, p);
    TreeLeaf.RootTop(before, g, t, 0);
    OneIndex(before, g, t, pp, IndexIn(before[pp].children, p), ip);
    forall z | z in g.level && z != p ensures SameBody(before, waiting, z) { assert Descends(before, g.level, z); }
    forall z | z in g.level && g.level[z] >= g.level[pp] ensures AboveKept(before, waiting, g.level, t.root, z) {
      if z != t.root { TreeLeaf.PageBelowParent(before, g, t, 0, z); }
    }
    LeafTop(before, g.level, p);
    LeafTop(waiting, g2.level, p);
    ClearKept(before, waiting, g.level, g2.level, t.root, p, pp, ip);
  }

  lemma OneIndex(pages: seq<Node>, g: View, t: Table, x: nat, i: nat, j: nat)
    requires Inv(pages, g, t, 0) && x in g.level && pages[x].Internal?
    requires i < |pages[x].children| && j < |pages[x].children| && pages[x].children[i] == pages[x].children[j]
    ensures i == j
  {
    assert PageOk(pages, g, t, 0, x);
    assert ChildOk(pages, g, x, i) && ChildOk(pages, g, x, j) && KeysOk(pages, g, x);
  }

  lemma LeafOutcome(before: seq<Node>, g: View, t: Table, p: nat, i: nat, c: Cell, cut: seq<Node>, n: nat, j: nat,
                    waiting: seq<Node>, g2: View, a: Arrival, after: seq<Node>, level': map<nat, nat>, g': View)
    requires p < |before| && LeafWaits(before, g, t, p, i, c, cut, n, j, before[p].parent, waiting, g2) && a.InOrder? && a.g == g2
    requires Arriving(waiting, g2.level, t, before[p].parent, n, a)
    requires Good(waiting, g2.level, t, before[p].parent, a) <==> InsertClear(before, g, t, p)
    requires Outcome(waiting, g2.level, t, before[p].parent, a, after, level', g')
    ensures if InsertClear(before, g, t, p) then TreeInserted(before, g, after, g', t, c)
            else forall v, over :: !Inv(after, v, t, over)
  {
    if InsertClear(before, g, t, p) {
      LeafInserted(before, g, t, p, i, c, cut, n, j, before[p].parent, waiting, g2, after, g');
    } else {
      RuinedIsNoTree(after, level', t);
    }
  }
}
