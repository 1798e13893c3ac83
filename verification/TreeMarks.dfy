/** Which changed pages an insert leaves without a mark when internal_node_split_and_insert marks
    what the source marks: the moved children, and through internal_node_insert the half that takes
    the new child, but not the other half. */
module TreeMarks {
  import opened Layout
  import opened Tree
  import opened TreeCascade
  import opened TreeHalves
  import opened TreeUp
  import opened TreeLeafUp
  import opened TreeClear
  import opened TreeRuin
  import opened TreeDebt
  import opened TreeDebtUp
  import opened TreeInsert
  import opened TreeArrival
  import TreeLeaf

  /** When a child c arrives behind child i of a full page p, these pages get a new parent pointer,
      and a mark with it. */
  function Remarked(pages: seq<Node>, root: nat, p: nat, i: nat, c: nat): set<nat>
    requires p < |pages| && pages[p].Internal?
  {
    if |pages[p].keys| < INTERNAL_NODE_MAX_KEYS || |pages[p].children| <= SPLIT then {}
    else if p == root then Elems(pages[p].children) + if i < SPLIT then {c} else {}
    else Elems(pages[p].children[SPLIT + 1..])
  }

  /** The pages left without a mark when a child arrives behind child i of page p; n is the next free
      page. With room there are none. The cut root is marked by create_new_root. Otherwise it is the
      half that the child did not enter, unless the cut of the parent marks that as well. */
  ghost function Missed(pages: seq<Node>, level: map<nat, nat>, root: nat, p: nat, i: nat, n: nat): set<nat>
    requires root in level && p in level && p < |pages| && pages[p].Internal?
    decreases if level[p] <= level[root] then level[root] - level[p] else 0
  {
    if |pages[p].keys| < INTERNAL_NODE_MAX_KEYS then {}
    else if p == root then if i < SPLIT then {n} else {}
    else if !HasParent(pages, level, root, p) then {}
    else
      var y := pages[p].parent;
      var j := IndexIn(pages[y].children, p);
      ({if i < SPLIT then n else p} - Remarked(pages, root, y, j, n)) + Missed(pages, level, root, y, j, n + 1)
  }

  lemma {:induction false} MissedHigh(pages: seq<Node>, level: map<nat, nat>, root: nat, p: nat, i: nat, n: nat, x: nat)
    requires root in level && p in level && p < |pages| && pages[p].Internal?
    requires x in Missed(pages, level, root, p, i, n)
    ensures x >= n || (x in level && level[x] >= level[p] && x < |pages| && pages[x].Internal?)
    decreases if level[p] <= level[root] then level[root] - level[p] else 0
  {
    if p != root {
      var y := pages[p].parent;
      var j := IndexIn(pages[y].children, p);
      if x in Missed(pages, level, root, y, j, n + 1) { MissedHigh(pages, level, root, y, j, n + 1, x); }
    }
  }

  lemma {:induction false} MissedKept(pages: seq<Node>, pages': seq<Node>, level: map<nat, nat>, level': map<nat, nat>,
                                      root: nat, y: nat, i: nat, n: nat)
    requires root in level && y in level && y < |pages| && pages[y].Internal? && y < |pages'| && pages'[y].Internal?
    requires level.Keys <= level'.Keys && forall x :: x in level ==> level'[x] == level[x]
    requires level[y] <= level[root]
    requires forall z {:trigger AboveKept(pages, pages', level, root, z)} :: z in level && level[z] >= level[y] ==>
               AboveKept(pages, pages', level, root, z)
    ensures Missed(pages', level', root, y, i, n) == Missed(pages, level, root, y, i, n)
    decreases level[root] - level[y]
  {
    assert AboveKept(pages, pages', level, root, y);
    if y != root {
      var z := pages[y].parent;
      assert AboveKept(pages, pages', level, root, z);
      var j := IndexIn(pages[z].children, y);
      MissedKept(pages, pages', level, level', root, z, j, n + 1);
    }
  }

  /** Page x was cut and has kept its lower half: the pages of the upper half are marked, and every key
      below x is one that the old separators would have led there as well. Or it is a new page. */
  ghost predicate CutOff(before: seq<Node>, after: seq<Node>, level': map<nat, nat>, marks': set<nat>, x: nat) {
    && x < |after| && after[x].Internal? && Shape(after, level') && x in level'
    && (x < |before| ==>
          && before[x].Internal? && |before[x].keys| == INTERNAL_NODE_MAX_KEYS && |before[x].children| == |before[x].keys| + 1
          && after[x].keys == before[x].keys[..SPLIT] && after[x].children == before[x].children[..SPLIT + 1]
          && Elems(before[x].children[SPLIT + 1..]) <= marks'
          && Fine(after, level', x) && MaxKey(after, level', x) <= before[x].keys[SPLIT])
  }

  ghost predicate Differs(before: seq<Node>, after: seq<Node>, x: nat) {
    x < |after| && (x >= |before| || after[x] != before[x])
  }

  ghost predicate Below(marks: set<nat>, n: nat) { forall x :: x in marks ==> x < n }

  /** Child c arrived behind child i of page p; then a changed page is without a mark exactly when it
      is missed and had none before. Page c has its marks from elsewhere. */
  ghost predicate Marking(before: seq<Node>, level: map<nat, nat>, t: Table, p: nat, c: nat, i: nat, after: seq<Node>,
                          level': map<nat, nat>, marks: set<nat>, marks': set<nat>)
    requires t.root in level && p in level && p < |before| && before[p].Internal?
  {
    var missed := Missed(before, level, t.root, p, i, |before|);
    && marks <= marks'
    && (forall x {:trigger Differs(before, after, x)} :: Differs(before, after, x) && x != c ==> x in marks' || x in missed)
    && (forall x :: x in missed ==> CutOff(before, after, level', marks', x) && (x in marks' ==> x in marks))
    && (p in marks' || p in missed)
    && Remarked(before, t.root, p, i, c) <= marks'
    && (forall x :: x in level && level[x] < level[p] && x in marks' ==> x in marks || x in Remarked(before, t.root, p, i, c))
  }

  ghost predicate MarksOutcome(before: seq<Node>, level: map<nat, nat>, t: Table, p: nat, c: nat, a: Arrival, after: seq<Node>,
                               level': map<nat, nat>, marks: set<nat>, marks': set<nat>)
    requires Shape(before, level) && t.root in level && p in level && level[p] <= level[t.root] && p < |before| && before[p].Internal?
  {
    Good(before, level, t, p, a) && Below(marks, |before|) ==> Marking(before, level, t, p, c, a.i, after, level', marks, marks')
  }

  // A page with room

  lemma RoomMarks(before: seq<Node>, level: map<nat, nat>, t: Table, p: nat, c: nat, a: Arrival, idx: nat, after: seq<Node>,
                  marks: set<nat>)
    requires Arriving(before, level, t, p, c, a) && |before[p].keys| < INTERNAL_NODE_MAX_KEYS
    requires Entered(before, level, p, c, idx, after)
    ensures MarksOutcome(before, level, t, p, c, a, after, level, marks, marks + {p})
  {
    hide Inserted, MaxKey, Searched, Clear, Arrives, Hooked;
    assert Descends(before, level, p);
  }

  // A page below the root is cut, and its upper half is passed on to the parent

  /** Separator j may have become smaller, the others stay. */
  ghost predicate Lowers(keys: seq<Key>, keys': seq<Key>, j: nat) {
    && |keys'| == |keys| && (forall k :: 0 <= k < |keys| && k != j ==> keys'[k] == keys[k])
    && (j < |keys| ==> keys'[j] <= keys[j])
  }

  /** The lower half of page p, which keeps what stood there. */
  ghost predicate LowerHalf(before: seq<Node>, p: nat, waiting: seq<Node>, level: map<nat, nat>)
    requires p < |before| && before[p].Internal? && |before[p].keys| == INTERNAL_NODE_MAX_KEYS && |before[p].children| > SPLIT
  {
    && p < |waiting| && waiting[p].Internal? && p in level && Shape(waiting, level)
    && waiting[p].keys == before[p].keys[..SPLIT] && waiting[p].children == before[p].children[..SPLIT + 1]
    && Fine(waiting, level, p) && MaxKey(waiting, level, p) <= before[p].keys[SPLIT]
  }

  /** What is known when the parent is done. */
  ghost predicate Passage(before: seq<Node>, level: map<nat, nat>, t: Table, p: nat, c: nat, i: nat, n: nat, h: nat,
                          waiting: seq<Node>, after: seq<Node>, level': map<nat, nat>, m0: set<nat>, m1: set<nat>, m2: set<nat>)
  {
    && t.root in level && p in level && p != t.root && p < |before| && before[p].Internal?
    && |before[p].keys| == INTERNAL_NODE_MAX_KEYS && |before[p].children| == |before[p].keys| + 1
    && HasParent(before, level, t.root, p) && level[before[p].parent] == level[p] + 1
    && n == |before| && |waiting| == n + 1 && n !in level && (forall x :: x in level ==> x < n)
    && h == (if i < SPLIT then p else n)
    && c in level && level[c] < level[p]
    && (forall x :: x in before[p].children ==> x in level && level[x] < level[p])
    && (forall x {:trigger Differs(before, waiting, x)} :: Differs(before, waiting, x) ==>
          x == p || x == n || x == before[p].parent || x == c || x in before[p].children[SPLIT + 1..])
    && (i >= SPLIT ==> LowerHalf(before, p, waiting, level[n := level[p]])) && waiting[n].Internal?
    && (forall z {:trigger AboveKept(before, waiting, level, t.root, z)} :: z in level && level[z] > level[p] ==>
          AboveKept(before, waiting, level, t.root, z))
    && m1 == m0 + Elems(before[p].children[SPLIT + 1..]) + {h} && Below(m0, n)
    && Joined(waiting, level[n := level[p]], after, level', t, before[p].parent)
    && var y := before[p].parent;
       && p in before[y].children && n !in before[y].children
       && (forall x :: x in before[y].children ==> x in level && level[x] == level[p])
       && y < |waiting| && waiting[y].Internal? && waiting[y].children == before[y].children
       && Lowers(before[y].keys, waiting[y].keys, IndexIn(before[y].children, p))
       && Marking(waiting, level[n := level[p]], t, y, n, IndexIn(before[y].children, p), after, level', m1, m2)
  }

  /** A missed page above the cut: its lower half is as it was. */
  ghost predicate HeadKept(before: seq<Node>, waiting: seq<Node>, x: nat) {
    && x < |before| && x < |waiting| && before[x].Internal? && waiting[x].Internal?
    && waiting[x].children == before[x].children && |waiting[x].keys| == |before[x].keys|
    && (|before[x].keys| > SPLIT ==>
          waiting[x].keys[..SPLIT] == before[x].keys[..SPLIT] && waiting[x].keys[SPLIT] <= before[x].keys[SPLIT])
  }

  lemma LowersHead(before: seq<Node>, waiting: seq<Node>, y: nat, j: nat)
    requires y < |before| && y < |waiting| && before[y].Internal? && waiting[y].Internal? && waiting[y].children == before[y].children
    requires Lowers(before[y].keys, waiting[y].keys, j) && j >= SPLIT
    ensures HeadKept(before, waiting, y)
  {
    if |before[y].keys| > SPLIT { assert waiting[y].keys[..SPLIT] == before[y].keys[..SPLIT]; }
  }

  /** A page is missed at its own cut only when the child did not stay in it. */
  lemma MissedOwn(pages: seq<Node>, level: map<nat, nat>, root: nat, p: nat, i: nat, n: nat)
    requires root in level && p in level && p < |pages| && pages[p].Internal? && p < n
    requires p in Missed(pages, level, root, p, i, n)
    ensures i >= SPLIT
  {
    if p != root && HasParent(pages, level, root, p) {
      var y := pages[p].parent;
      var j := IndexIn(pages[y].children, p);
      if p in Missed(pages, level, root, y, j, n + 1) { MissedHigh(pages, level, root, y, j, n + 1, p); }
    }
  }

  /** The same pages, seen from before and from the parent. */
  lemma PassedMissed(before: seq<Node>, level: map<nat, nat>, t: Table, p: nat, c: nat, i: nat, n: nat, h: nat,
                     waiting: seq<Node>, after: seq<Node>, level': map<nat, nat>, m0: set<nat>, m1: set<nat>, m2: set<nat>)
    requires Passage(before, level, t, p, c, i, n, h, waiting, after, level', m0, m1, m2)
    ensures var y := before[p].parent; var j := IndexIn(before[y].children, p);
            var up, saved := Missed(waiting, level[n := level[p]], t.root, y, j, n + 1), Remarked(waiting, t.root, y, j, n);
            && Missed(before, level, t.root, p, i, n) == ({if i < SPLIT then n else p} - saved) + up
            && saved == Remarked(before, t.root, y, j, n)
            && forall x :: x in up ==> x > n || (x in level && level[x] > level[p] && x < n && HeadKept(before, waiting, x))
  {
    hide Marking, Differs, SameContent, IndexIn, CutOff, Joined, LowerHalf;
    var y := before[p].parent;
    var j := IndexIn(before[y].children, p);
    assert AboveKept(before, waiting, level, t.root, y);
    MissedKept(before, waiting, level, level[n := level[p]], t.root, y, j, n + 1);
    forall x | x in Missed(before, level, t.root, y, j, n + 1)
      ensures x > n || (x in level && level[x] > level[p] && x < n && HeadKept(before, waiting, x))
    {
      MissedAbove(before, level, t, p, c, i, n, h, waiting, after, level', m0, m1, m2, x);
    }
    hide AboveKept, HasParent, HeadKept;
  }

  lemma MissedAbove(before: seq<Node>, level: map<nat, nat>, t: Table, p: nat, c: nat, i: nat, n: nat, h: nat,
                    waiting: seq<Node>, after: seq<Node>, level': map<nat, nat>, m0: set<nat>, m1: set<nat>, m2: set<nat>, x: nat)
    requires Passage(before, level, t, p, c, i, n, h, waiting, after, level', m0, m1, m2)
    requires var y := before[p].parent; x in Missed(before, level, t.root, y, IndexIn(before[y].children, p), n + 1)
    ensures x > n || (x in level && level[x] > level[p] && x < n && HeadKept(before, waiting, x))
  {
    hide Marking, SameContent, CutOff, Joined, LowerHalf, IndexIn, Missed;
    var y := before[p].parent;
    var j := IndexIn(before[y].children, p);
    MissedHigh(before, level, t.root, y, j, n + 1, x);
    if x <= n {
      assert AboveKept(before, waiting, level, t.root, x);
      if x == y {
        MissedOwn(before, level, t.root, y, j, n + 1);
        LowersHead(before, waiting, y, j);
      } else {
        assert x != c && x !in before[p].children && x != p;
        assert forall z :: z in before[p].children[SPLIT + 1..] ==> z in before[p].children;
        assert !Differs(before, waiting, x);
      }
    }
  }

  lemma PassageMarks(before: seq<Node>, level: map<nat, nat>, t: Table, p: nat, c: nat, i: nat, n: nat, h: nat,
                     waiting: seq<Node>, after: seq<Node>, level': map<nat, nat>, m0: set<nat>, m1: set<nat>, m2: set<nat>)
    requires Passage(before, level, t, p, c, i, n, h, waiting, after, level', m0, m1, m2)
    ensures Marking(before, level, t, p, c, i, after, level', m0, m2)
  {
    PassedMissed(before, level, t, p, c, i, n, h, waiting, after, level', m0, m1, m2);
    var missed := Missed(before, level, t.root, p, i, n);
    forall x: nat | Differs(before, after, x) && x != c ensures x in m2 || x in missed {
      PassedChange(before, level, t, p, c, i, n, h, waiting, after, level', m0, m1, m2, x);
    }
    forall x | x in missed ensures CutOff(before, after, level', m2, x) && (x in m2 ==> x in m0) {
      PassedMiss(before, level, t, p, c, i, n, h, waiting, after, level', m0, m1, m2, x);
    }
    hide Missed, AboveKept, Differs, CutOff, Joined, LowerHalf, HeadKept, Lowers;
    forall x | x in level && level[x] < level[p] && x in m2 ensures x in m0 || x in Remarked(before, t.root, p, i, c) {
    }
  }

  lemma PassedChange(before: seq<Node>, level: map<nat, nat>, t: Table, p: nat, c: nat, i: nat, n: nat, h: nat,
                     waiting: seq<Node>, after: seq<Node>, level': map<nat, nat>, m0: set<nat>, m1: set<nat>, m2: set<nat>, x: nat)
    requires Passage(before, level, t, p, c, i, n, h, waiting, after, level', m0, m1, m2)
    requires Differs(before, after, x) && x != c
    ensures x in m2 || x in Missed(before, level, t.root, p, i, n)
  {
    PassedMissed(before, level, t, p, c, i, n, h, waiting, after, level', m0, m1, m2);
    hide Missed, AboveKept, CutOff, Remarked, Joined, LowerHalf, HeadKept, Lowers, Differs, HasParent, IndexIn;
    var y := before[p].parent;
    var up := Missed(waiting, level[n := level[p]], t.root, y, IndexIn(before[y].children, p), n + 1);
    assert Differs(waiting, after, x) && x != n ==> x in m2 || x in up;
    hide Marking;
    assert Differs(before, waiting, x) || Differs(waiting, after, x) by { DiffersTwice(before, waiting, after, x); }
  }

  lemma DiffersTwice(before: seq<Node>, waiting: seq<Node>, after: seq<Node>, x: nat)
    requires Differs(before, after, x) && |before| <= |waiting|
    ensures Differs(before, waiting, x) || Differs(waiting, after, x)
  {
  }

  lemma PassedMiss(before: seq<Node>, level: map<nat, nat>, t: Table, p: nat, c: nat, i: nat, n: nat, h: nat,
                   waiting: seq<Node>, after: seq<Node>, level': map<nat, nat>, m0: set<nat>, m1: set<nat>, m2: set<nat>, x: nat)
    requires Passage(before, level, t, p, c, i, n, h, waiting, after, level', m0, m1, m2)
    requires x in Missed(before, level, t.root, p, i, n)
    ensures CutOff(before, after, level', m2, x) && (x in m2 ==> x in m0)
  {
    PassedMissed(before, level, t, p, c, i, n, h, waiting, after, level', m0, m1, m2);
    var y := before[p].parent;
    var up := Missed(waiting, level[n := level[p]], t.root, y, IndexIn(before[y].children, p), n + 1);
    hide *;
    if x in up {
      UpMiss(before, level, t, p, c, i, n, h, waiting, after, level', m0, m1, m2, x);
    } else {
      OwnMiss(before, level, t, p, c, i, n, h, waiting, after, level', m0, m1, m2, x);
    }
  }

  lemma UpMiss(before: seq<Node>, level: map<nat, nat>, t: Table, p: nat, c: nat, i: nat, n: nat, h: nat,
               waiting: seq<Node>, after: seq<Node>, level': map<nat, nat>, m0: set<nat>, m1: set<nat>, m2: set<nat>, x: nat)
    requires Passage(before, level, t, p, c, i, n, h, waiting, after, level', m0, m1, m2)
    requires var y := before[p].parent;
             x in Missed(waiting, level[n := level[p]], t.root, y, IndexIn(before[y].children, p), n + 1)
    ensures CutOff(before, after, level', m2, x) && (x in m2 ==> x in m0)
  {
    hide Missed, AboveKept, Remarked, SameContent, HasParent, Differs, IndexIn, CutOff, Joined, LowerHalf, HeadKept, Lowers;
    PassedMissed(before, level, t, p, c, i, n, h, waiting, after, level', m0, m1, m2);
    var moved := before[p].children[SPLIT + 1..];
    assert forall y :: y in moved ==> y in before[p].children;
    assert x != p && x != n && x !in moved;
    CutTwice(before, waiting, after, level', m2, x);
  }

  lemma CutTwice(before: seq<Node>, waiting: seq<Node>, after: seq<Node>, level': map<nat, nat>, marks: set<nat>, x: nat)
    requires |waiting| == |before| + 1 && CutOff(waiting, after, level', marks, x)
    requires x > |before| || HeadKept(before, waiting, x)
    ensures CutOff(before, after, level', marks, x)
  {
    hide Shape, MaxKey, Fine;
  }

  lemma OwnMiss(before: seq<Node>, level: map<nat, nat>, t: Table, p: nat, c: nat, i: nat, n: nat, h: nat,
                waiting: seq<Node>, after: seq<Node>, level': map<nat, nat>, m0: set<nat>, m1: set<nat>, m2: set<nat>, x: nat)
    requires Passage(before, level, t, p, c, i, n, h, waiting, after, level', m0, m1, m2)
    requires x == (if i < SPLIT then n else p)
    requires x !in Remarked(before, t.root, before[p].parent, IndexIn(before[before[p].parent].children, p), n)
    ensures CutOff(before, after, level', m2, x) && (x in m2 ==> x in m0)
  {
    hide Missed, AboveKept, Remarked, Differs, HeadKept, Lowers, IndexIn, CutOff;
    PassedMissed(before, level, t, p, c, i, n, h, waiting, after, level', m0, m1, m2);
    assert x in level[n := level[p]];
    OwnCut(before, level, t, p, i, n, waiting, after, level', m2, before[p].parent);
  }

  /** The half that did not take the child, once the parent is done. */
  lemma OwnCut(before: seq<Node>, level: map<nat, nat>, t: Table, p: nat, i: nat, n: nat, waiting: seq<Node>, after: seq<Node>,
               level': map<nat, nat>, m2: set<nat>, y: nat)
    requires p in level && y in level && level[y] > level[p] && n !in level && n == |before| && n < |waiting| && p < |before|
    requires before[p].Internal? && |before[p].keys| == INTERNAL_NODE_MAX_KEYS && |before[p].children| == |before[p].keys| + 1
    requires Joined(waiting, level[n := level[p]], after, level', t, y) && waiting[n].Internal?
    requires i >= SPLIT ==> LowerHalf(before, p, waiting, level[n := level[p]])
    requires Elems(before[p].children[SPLIT + 1..]) <= m2
    ensures CutOff(before, after, level', m2, if i < SPLIT then n else p)
  {
    var level1 := level[n := level[p]];
    assert SameContent(waiting, after, n) && (i >= SPLIT ==> SameContent(waiting, after, p));
    HookedShape(after, level', t, 0);
    hide Hooked;
    if i >= SPLIT {
      forall z | z in level1 && level1[z] <= level1[p] ensures SameBody(waiting, after, z) { assert SameContent(waiting, after, z); }
      RightLeafFrame(waiting, after, level1, level', p);
    }
  }

  /** The pages that a cut of p changes, before the parent is told. */
  lemma CutDiffers(before: seq<Node>, level: map<nat, nat>, t: Table, p: nat, c: nat, a: Arrival,
                   mid: seq<Node>, n: nat, h: nat, idx: nat, cut: seq<Node>)
    requires Halved(before, level, t, p, c, a, mid, n, h, idx, cut)
    ensures n == |before| && |cut| == n + 1
    ensures forall x {:trigger Differs(before, cut, x)} :: Differs(before, cut, x) ==>
              x == p || x == n || x == c || x in before[p].children[SPLIT + 1..]
    ensures p < |cut| && cut[p].Internal? && |cut[p].keys| < INTERNAL_NODE_MAX_KEYS && cut[n].Internal? && |cut[n].keys| > 0
    ensures forall y :: y in cut[p].children <==> y in before[p].children[..SPLIT + 1] || (h == p && y == c)
  {
    InsertedChildren(mid[h], c, MaxKey(mid, level[n := level[p]], c), MaxKey(mid, level[n := level[p]], Last(mid[h].children)), idx);
    hide MaxKey, Searched, Hooked, Arriving, SameContent;
  }

  /** In a tree, the children of a page are a level below it. */
  lemma ArrivingChildren(before: seq<Node>, level: map<nat, nat>, t: Table, p: nat, c: nat, a: Arrival)
    requires Arriving(before, level, t, p, c, a)
    ensures forall x :: x in before[p].children ==> x in level && level[x] + 1 == level[p]
    ensures forall x :: x in level ==> x < |before|
    ensures forall y {:trigger before[y].children} :: y in level && before[y].Internal? ==>
              forall x :: x in before[y].children ==> x in level && level[x] + 1 == level[y]
  {
    forall x | x in level ensures x < |before| { assert InPlace(before, level, t, c, x); }
    forall y | y in level && before[y].Internal?
      ensures forall x :: x in before[y].children ==> x in level && level[x] + 1 == level[y]
    {
      assert InPlace(before, level, t, c, y);
    }
  }

  /** Where the child went. */
  lemma GoodRootHalf(before: seq<Node>, level: map<nat, nat>, t: Table, c: nat, a: Arrival,
                     mid: seq<Node>, n: nat, h: nat, idx: nat, cut: seq<Node>)
    requires Halved(before, level, t, t.root, c, a, mid, n, h, idx, cut) && Good(before, level, t, t.root, a)
    ensures h == if a.i < SPLIT then t.root else n
  {
    assert Descends(before, level, t.root);
    assert HalfFine(before, level, before[t.root], a.i);
    HalvedInOrder(before, level, t, t.root, c, a, mid, n, h, idx, cut);
  }

  /** The root was cut. */
  lemma RootMarks(before: seq<Node>, level: map<nat, nat>, t: Table, c: nat, a: Arrival,
                  mid: seq<Node>, n: nat, h: nat, idx: nat, cut: seq<Node>, after: seq<Node>, level': map<nat, nat>, g': View, key: Key,
                  m0: set<nat>, m2: set<nat>)
    requires Halved(before, level, t, t.root, c, a, mid, n, h, idx, cut) && NewRoot(cut, after, t.root, n, key)
    requires m2 == m0 + Elems(before[t.root].children[SPLIT + 1..]) + {h} + {t.root, n + 1} + Elems(cut[t.root].children)
    requires Outcome(before, level, t, t.root, a, after, level', g')
    ensures MarksOutcome(before, level, t, t.root, c, a, after, level', m0, m2)
  {
    var all := before[t.root].children;
    assert Hooked(after, level', t, 0);
    hide Outcome;
    CutDiffers(before, level, t, t.root, c, a, mid, n, h, idx, cut);
    ArrivingChildren(before, level, t, t.root, c, a);
    assert all == all[..SPLIT + 1] + all[SPLIT + 1..] && n !in all;
    HookedShape(after, level', t, 0);
    assert n in level' by { assert InPlace(after, level', t, 0, t.root) && after[t.root].children[1] == n; }
    hide Good, CutAt, Shape, NewRoot, MaxKey, Searched, Entered, Hooked, Arrives, SameContent;
    if Good(before, level, t, t.root, a) && Below(m0, |before|) {
      GoodRootHalf(before, level, t, c, a, mid, n, h, idx, cut);
      RootMarking(before, level, t, c, a.i, n, h, cut, after, level', key, m0, m2);
    }
  }

  lemma RootMarking(before: seq<Node>, level: map<nat, nat>, t: Table, c: nat, i: nat, n: nat, h: nat, cut: seq<Node>,
                    after: seq<Node>, level': map<nat, nat>, key: Key, m0: set<nat>, m2: set<nat>)
    requires t.root in level && t.root < |before| && before[t.root].Internal? && c in level && c != t.root
    requires n in level' && Shape(after, level')
    requires |before[t.root].keys| == INTERNAL_NODE_MAX_KEYS && |before[t.root].children| == |before[t.root].keys| + 1
    requires n == |before| && |cut| == n + 1 && cut[t.root].Internal? && NewRoot(cut, after, t.root, n, key)
    requires cut[n].Internal? && |cut[n].keys| > 0 && n !in before[t.root].children && c != n && Below(m0, n)
    requires h == if i < SPLIT then t.root else n
    requires forall x {:trigger Differs(before, cut, x)} :: Differs(before, cut, x) ==>
               x == t.root || x == n || x == c || x in before[t.root].children[SPLIT + 1..]
    requires forall y :: y in cut[t.root].children <==> y in before[t.root].children[..SPLIT + 1] || (h == t.root && y == c)
    requires forall y :: y in before[t.root].children <==>
               y in before[t.root].children[..SPLIT + 1] || y in before[t.root].children[SPLIT + 1..]
    requires forall x :: x in level ==> x < n
    requires m2 == m0 + Elems(before[t.root].children[SPLIT + 1..]) + {h} + {t.root, n + 1} + Elems(cut[t.root].children)
    ensures Marking(before, level, t, t.root, c, i, after, level', m0, m2)
  {
    var missed := Missed(before, level, t.root, t.root, i, n);
    forall x: nat | Differs(before, after, x) && x != c ensures x in m2 || x in missed {
      assert Differs(before, cut, x) || x >= n || x == t.root || x in cut[t.root].children;
    }
  }

  lemma PassMarks(before: seq<Node>, level: map<nat, nat>, t: Table, p: nat, c: nat, a: Arrival,
                  mid: seq<Node>, n: nat, h: nat, idx: nat, cut: seq<Node>, index: nat, waiting: seq<Node>, a': Arrival,
                  after: seq<Node>, level': map<nat, nat>, m0: set<nat>, m1: set<nat>, m2: set<nat>)
    requires Passing(before, level, t, p, c, a, mid, n, h, idx, cut, index, waiting)
    requires Arriving(waiting, level[n := level[p]], t, cut[p].parent, n, a')
    requires Continues(before, level, t, p, a, n, cut[p].parent, waiting, a')
    requires Good(before, level, t, p, a) ==> a'.InOrder? && a'.i == index
    requires Joined(waiting, level[n := level[p]], after, level', t, cut[p].parent)
    requires m1 == m0 + Elems(before[p].children[SPLIT + 1..]) + {h}
    requires MarksOutcome(waiting, level[n := level[p]], t, cut[p].parent, n, a', after, level', m1, m2)
    ensures MarksOutcome(before, level, t, p, c, a, after, level', m0, m2)
  {
    if Good(before, level, t, p, a) && Below(m0, |before|) {
      PassIsPassage(before, level, t, p, c, a, mid, n, h, idx, cut, index, waiting, a', after, level', m0, m1, m2);
      hide *;
      PassageMarks(before, level, t, p, c, a.i, n, h, waiting, after, level', m0, m1, m2);
    }
  }

  lemma PassIsPassage(before: seq<Node>, level: map<nat, nat>, t: Table, p: nat, c: nat, a: Arrival,
                      mid: seq<Node>, n: nat, h: nat, idx: nat, cut: seq<Node>, index: nat, waiting: seq<Node>, a': Arrival,
                      after: seq<Node>, level': map<nat, nat>, m0: set<nat>, m1: set<nat>, m2: set<nat>)
    requires Passing(before, level, t, p, c, a, mid, n, h, idx, cut, index, waiting)
    requires Arriving(waiting, level[n := level[p]], t, cut[p].parent, n, a')
    requires Continues(before, level, t, p, a, n, cut[p].parent, waiting, a') && Good(before, level, t, p, a) && Below(m0, |before|)
    requires a'.InOrder? && a'.i == index
    requires Joined(waiting, level[n := level[p]], after, level', t, cut[p].parent)
    requires m1 == m0 + Elems(before[p].children[SPLIT + 1..]) + {h}
    requires MarksOutcome(waiting, level[n := level[p]], t, cut[p].parent, n, a', after, level', m1, m2)
    ensures Passage(before, level, t, p, c, a.i, n, h, waiting, after, level', m0, m1, m2)
  {
    hide Hooked, Shape, HalfEntered, Arrives, AboveKept, Good, Marking, SameContent, MarksOutcome, Differs, Searched, LowerHalf, Lowers;
    ParentPlace(before, level, t, p, c, a, mid, n, h, idx, cut);
    PassPlace(before, level, t, p, c, a);
    PassKept(before, level, t, p, c, a, mid, n, h, idx, cut, index, waiting);
    PassFull(before, level, p, c, mid, n, h, idx, cut);
    ContinuesIndex(before, level, t, p, a, n, cut[p].parent, waiting, a');
    hide Continues;
    PassHalf(before, level, t, p, c, a, mid, n, h, idx, cut, cut[p].parent, waiting, a');
    PassMarking(before, level, t, p, a, n, cut[p].parent, waiting, a', after, level', m0, m1, m2, h);
    PassLower(before, level, t, p, c, a, mid, n, h, idx, cut, index, waiting, a');
    hide Arriving, Halved, Passing, Joined;
  }

  lemma ContinuesIndex(before: seq<Node>, level: map<nat, nat>, t: Table, p: nat, a: Arrival, n: nat, pp: nat,
                       waiting: seq<Node>, a': Arrival)
    requires Shape(before, level) && p in level && t.root in level && level[p] <= level[t.root] && Good(before, level, t, p, a)
    requires var level1 := level[n := level[p]]; Shape(waiting, level1) && pp in level1 && t.root in level1 && level1[pp] <= level1[t.root]
    requires Continues(before, level, t, p, a, n, pp, waiting, a')
    ensures pp < |before| && before[pp].Internal? && a'.i == IndexIn(before[pp].children, p)
    ensures p < |before| && before[p].Internal? && |before[p].children| > SPLIT && before[p].children[SPLIT] in level
    ensures HalfFine(before, level, before[p], a.i)
  {
    hide Good, Doomed, Shape, HalfFine;
  }

  /** The lower half, and the separator it gets in the parent. */
  lemma PassLower(before: seq<Node>, level: map<nat, nat>, t: Table, p: nat, c: nat, a: Arrival,
                  mid: seq<Node>, n: nat, h: nat, idx: nat, cut: seq<Node>, index: nat, waiting: seq<Node>, a': Arrival)
    requires Passing(before, level, t, p, c, a, mid, n, h, idx, cut, index, waiting) && Good(before, level, t, p, a)
    requires before[p].parent < |before| && before[before[p].parent].Internal? && index == IndexIn(before[before[p].parent].children, p)
    requires p < |before| && before[p].Internal? && |before[p].keys| == INTERNAL_NODE_MAX_KEYS && |before[p].children| > SPLIT
    requires before[p].children[SPLIT] in level && HalfFine(before, level, before[p], a.i)
    requires before[p].parent < |waiting| && waiting[before[p].parent].Internal?
    ensures a.i >= SPLIT ==> LowerHalf(before, p, waiting, level[n := level[p]])
    ensures Lowers(before[before[p].parent].keys, waiting[before[p].parent].keys, index)
  {
    hide HalfEntered, Inv, Arriving, FullPending, SameContent, MaxKey, Fine, Hooked, Shape;
    ParentPlace(before, level, t, p, c, a, mid, n, h, idx, cut);
    HalvedInOrder(before, level, t, p, c, a, mid, n, h, idx, cut);
    ParentNotChild(before, level, t, p, c, a);
    SeparatorAbove(before, a.g, t, p, a.i, a.k, c, cut[p].parent, index);
    LowerReads(before, level, t, p, c, a, mid, n, h, idx, cut);
    hide Halved, Good, HalfFine;
    LowerWaits(before, level[n := level[p]], p, a.i, cut[p].parent, cut, index, waiting);
  }

  lemma LowerWaits(before: seq<Node>, level: map<nat, nat>, p: nat, i: nat, pp: nat, cut: seq<Node>, index: nat, waiting: seq<Node>)
    requires p < |before| && before[p].Internal? && |before[p].keys| == INTERNAL_NODE_MAX_KEYS && |before[p].children| > SPLIT
    requires Shape(cut, level) && p in level && p < |cut| && cut[p].Internal? && pp != p && pp < |cut| && pp < |before| && cut[pp].Internal?
    requires cut[pp] == before[pp]
    requires waiting == if index < |cut[pp].keys| then cut[pp := cut[pp].(keys := cut[pp].keys[index := MaxKey(cut, level, p)])] else cut
    requires Fine(cut, level, p) && (index < |before[pp].keys| ==> MaxKey(cut, level, p) <= before[pp].keys[index])
    requires i >= SPLIT ==>
               && cut[p].keys == before[p].keys[..SPLIT] && cut[p].children == before[p].children[..SPLIT + 1]
               && MaxKey(cut, level, p) <= before[p].keys[SPLIT]
    ensures i >= SPLIT ==> LowerHalf(before, p, waiting, level)
    ensures waiting[pp].Internal? && Lowers(before[pp].keys, waiting[pp].keys, index)
  {
    WaitingMax(cut, level, pp, waiting);
    WaitingFine(cut, level, pp, waiting, p);
    hide Shape, Fine, MaxKey;
  }

  lemma ParentNotChild(before: seq<Node>, level: map<nat, nat>, t: Table, p: nat, c: nat, a: Arrival)
    requires Arriving(before, level, t, p, c, a) && p != t.root
    ensures before[p].parent != c && p in level
  {
    assert InPlace(before, level, t, c, p);
  }

  /** What the lower half reads as, below the separator that was dropped. */
  lemma LowerReads(before: seq<Node>, level: map<nat, nat>, t: Table, p: nat, c: nat, a: Arrival,
                   mid: seq<Node>, n: nat, h: nat, idx: nat, cut: seq<Node>)
    requires Halved(before, level, t, p, c, a, mid, n, h, idx, cut) && Good(before, level, t, p, a)
    requires FullPending(before, a.g, t, p, a.i, a.k, c) && h == (if a.i < SPLIT then p else n)
    ensures p in a.g.hi && MaxKey(cut, level[n := level[p]], p) <= a.g.hi[p]
    ensures p < |cut| && p < |before| && before[p].Internal? && cut[p].Internal? && |before[p].keys| == INTERNAL_NODE_MAX_KEYS
    ensures Fine(cut, level[n := level[p]], p)
    ensures a.i >= SPLIT ==>
              && cut[p].keys == before[p].keys[..SPLIT] && |before[p].children| > SPLIT && cut[p].children == before[p].children[..SPLIT + 1]
              && MaxKey(cut, level[n := level[p]], p) <= before[p].keys[SPLIT]
  {
    assert Descends(before, level, p);
    HalfReads(before, level, p, c, mid, n, h, idx, cut);
    HalvesFine(before, level, t, p, c, a, mid, n, h, idx, cut);
    MiddleBelow(before, a.g, t, p, a.i, a.k, c);
    hide Hooked, MaxKey, Searched, Clear, Inv, Fine;
  }

  /** The child at the split ends below the separator behind it. */
  lemma MiddleBelow(before: seq<Node>, g: View, t: Table, p: nat, i: nat, k: Key, c: nat)
    requires FullPending(before, g, t, p, i, k, c) && Shape(before, g.level)
    ensures before[p].children[SPLIT] in g.level && p in g.hi
    ensures Fine(before, g.level, before[p].children[SPLIT]) ==>
              && MaxKey(before, g.level, before[p].children[SPLIT]) <= g.hi[p]
              && (i >= SPLIT ==> MaxKey(before, g.level, before[p].children[SPLIT]) <= before[p].keys[SPLIT])
  {
    assert p in g.hi;
    hide Inv;
    var v := Virtual(before, p, i, k, c);
    var x := before[p];
    var j := if i < SPLIT then SPLIT + 1 else SPLIT;
    MiddleAndLast(before, g, t, p, i, k, c);
    assert v[p].children[j] == x.children[SPLIT];
    PendingRead(before, g, t, p, i, k, c, j, x.children[SPLIT]);
    PendingChild(before, g, t, p, i, k, c, j);
    if i >= SPLIT { assert v[p].keys[SPLIT] == x.keys[SPLIT]; }
  }

  /** The interval of a full page ends with its separator in the parent. */
  lemma SeparatorAbove(before: seq<Node>, g: View, t: Table, p: nat, i: nat, k: Key, c: nat, pp: nat, index: nat)
    requires FullPending(before, g, t, p, i, k, c) && p != t.root && before[p].parent == pp
    requires pp < |before| && pp != p && pp != c && before[pp].Internal? && index == IndexIn(before[pp].children, p) && p in before[pp].children
    requires |before[pp].children| == |before[pp].keys| + 1
    ensures p in g.hi && (index < |before[pp].keys| ==> g.hi[p] == before[pp].keys[index])
  {
    var v := Virtual(before, p, i, k, c);
    assert PageOk(v, g, t, p, p);
    assert PageOk(v, g, t, p, pp);
    IndexFound(before[pp].children, p);
    assert v[pp].children[index] == p;
    assert ChildOk(v, g, pp, index);
  }

  lemma IndexFound(s: seq<nat>, x: nat)
    requires x in s
    ensures IndexIn(s, x) < |s|
  {
    assert s[..|s|] == s;
  }

  lemma PassFull(before: seq<Node>, level: map<nat, nat>, p: nat, c: nat, mid: seq<Node>, n: nat, h: nat, idx: nat, cut: seq<Node>)
    requires Shape(before, level) && c in level && p in level && HalfEntered(before, level, p, c, mid, n, h, idx, cut)
    ensures level[c] < level[p] && |before[p].keys| == INTERNAL_NODE_MAX_KEYS && p < |before| && before[p].Internal?
    ensures |before[p].children| == |before[p].keys| + 1 && n !in level
  {
    hide Shape, MaxKey, CutAt, Entered;
  }

  lemma PassPlace(before: seq<Node>, level: map<nat, nat>, t: Table, p: nat, c: nat, a: Arrival)
    requires Arriving(before, level, t, p, c, a) && p != t.root
    ensures HasParent(before, level, t.root, p)
    ensures forall x :: x in before[p].children ==> x in level && level[x] < level[p]
    ensures forall x :: x in level ==> x < |before|
    ensures forall x :: x in before[before[p].parent].children ==> x in level && level[x] + 1 == level[before[p].parent]
  {
    ArrivingChildren(before, level, t, p, c, a);
    HookedParent(before, level, t, c, p);
  }

  lemma PassHalf(before: seq<Node>, level: map<nat, nat>, t: Table, p: nat, c: nat, a: Arrival,
                 mid: seq<Node>, n: nat, h: nat, idx: nat, cut: seq<Node>, pp: nat, waiting: seq<Node>, a': Arrival)
    requires Halved(before, level, t, p, c, a, mid, n, h, idx, cut) && Good(before, level, t, p, a)
    requires Shape(waiting, level[n := level[p]]) && pp in level[n := level[p]] && t.root in level[n := level[p]]
    requires level[n := level[p]][pp] <= level[n := level[p]][t.root]
    requires Continues(before, level, t, p, a, n, pp, waiting, a')
    ensures h == (if a.i < SPLIT then p else n)
  {
    hide Shape, Clear, Doomed, Hooked;
    HalvedInOrder(before, level, t, p, c, a, mid, n, h, idx, cut);
  }

  lemma PassMarking(before: seq<Node>, level: map<nat, nat>, t: Table, p: nat, a: Arrival, n: nat, pp: nat,
                    waiting: seq<Node>, a': Arrival, after: seq<Node>, level': map<nat, nat>, m0: set<nat>, m1: set<nat>,
                    m2: set<nat>, h: nat)
    requires Shape(before, level) && p in level && t.root in level && level[p] <= level[t.root] && Good(before, level, t, p, a)
    requires var level1 := level[n := level[p]]; Shape(waiting, level1) && pp in level1 && t.root in level1 && level1[pp] <= level1[t.root]
    requires Continues(before, level, t, p, a, n, pp, waiting, a')
    requires n == |before| && |waiting| == n + 1 && Below(m0, n) && m1 == m0 + Elems(before[p].children[SPLIT + 1..]) + {h} && (h == p || h == n)
    requires (forall x :: x in before[p].children ==> x < n) && pp < |waiting| && waiting[pp].Internal? && p < |before| && before[p].Internal?
    requires MarksOutcome(waiting, level[n := level[p]], t, pp, n, a', after, level', m1, m2)
    ensures pp < |before| && before[pp].Internal?
    ensures Marking(waiting, level[n := level[p]], t, pp, n, IndexIn(before[pp].children, p), after, level', m1, m2)
  {
    hide Good, Doomed, Marking, HalfFine, Shape;
    assert Below(m1, n + 1) by {
      var moved := before[p].children[SPLIT + 1..];
      forall x | x in m1 ensures x < n + 1 {
        if x in Elems(moved) { assert x in moved && x in before[p].children; }
      }
    }
  }

  /** From before the cut to the wait. */
  /** What the cut of p has changed when its upper half waits for a place in the parent. */
  ghost predicate HalfWaits(before: seq<Node>, level: map<nat, nat>, t: Table, p: nat, c: nat, n: nat, waiting: seq<Node>) {
    && n == |before| && |waiting| == n + 1 && p < n && before[p].Internal? && |before[p].children| > SPLIT && p in level
    && (forall x {:trigger Differs(before, waiting, x)} :: Differs(before, waiting, x) ==>
          x == p || x == n || x == before[p].parent || x == c || x in before[p].children[SPLIT + 1..])
    && waiting[p].Internal? && |waiting[p].keys| < INTERNAL_NODE_MAX_KEYS && waiting[n].Internal? && |waiting[n].keys| > 0
    && before[p].parent < n && before[before[p].parent].Internal? && waiting[before[p].parent].Internal?
    && waiting[before[p].parent].children == before[before[p].parent].children
    && (forall z {:trigger AboveKept(before, waiting, level, t.root, z)} :: z in level && level[z] > level[p] ==>
          AboveKept(before, waiting, level, t.root, z))
  }

  lemma PassKept(before: seq<Node>, level: map<nat, nat>, t: Table, p: nat, c: nat, a: Arrival,
                 mid: seq<Node>, n: nat, h: nat, idx: nat, cut: seq<Node>, index: nat, waiting: seq<Node>)
    requires Passing(before, level, t, p, c, a, mid, n, h, idx, cut, index, waiting)
    ensures HalfWaits(before, level, t, p, c, n, waiting)
  {
    ParentPlace(before, level, t, p, c, a, mid, n, h, idx, cut);
    CutDiffers(before, level, t, p, c, a, mid, n, h, idx, cut);
    forall z | z in level && level[z] > level[p] ensures AboveKept(before, waiting, level, t.root, z) {
      PageWaiting(before, level, t, p, c, a, mid, n, h, idx, cut, index, waiting, z);
    }
    hide Halved, AboveKept, MaxKey, Searched;
    forall x: nat | Differs(before, waiting, x)
      ensures x == p || x == n || x == before[p].parent || x == c || x in before[p].children[SPLIT + 1..]
    {
      assert Differs(before, cut, x) || x == before[p].parent;
    }
  }

  // From the leaf

  /** The pages that an insert into this leaf changes and leaves without a mark. The parent of the leaf
      is marked when its separator is lowered. */
  ghost function InsertMissed(pages: seq<Node>, level: map<nat, nat>, t: Table, page: nat): set<nat>
    requires page in level && page < |pages| && pages[page].Leaf? && t.root in level
  {
    if |pages[page].cells| < t.cap || page == t.root || !HasParent(pages, level, t.root, page) then {}
    else
      var y := pages[page].parent;
      var j := IndexIn(pages[y].children, page);
      Missed(pages, level, t.root, y, j, |pages| + 1) - if j < |pages[y].keys| then {y} else {}
  }

  /** A changed page is marked unless it is missed; a missed page is marked only if it was before. */
  ghost predicate InsertMarked(before: seq<Node>, after: seq<Node>, level': map<nat, nat>, marks: set<nat>, marks': set<nat>,
                               missed: set<nat>)
  {
    && marks <= marks'
    && (forall x {:trigger Differs(before, after, x)} :: Differs(before, after, x) ==> x in marks' || x in missed)
    && forall x :: x in missed ==> CutOff(before, after, level', marks', x) && (x in marks' ==> x in marks)
  }

  /** How a clear insert of leaf_node_insert marks pages. */
  ghost predicate PageMarks(before: seq<Node>, g: View, t: Table, page: nat, after: seq<Node>, level': map<nat, nat>, marks: set<nat>,
                            marks': set<nat>)
  {
    && page in g.level && page < |before| && before[page].Leaf? && t.root in g.level
    && (InsertClear(before, g, t, page) && Below(marks, |before|) ==>
          InsertMarked(before, after, level', marks, marks', InsertMissed(before, g.level, t, page)))
  }

  lemma LeafPageMarks(before: seq<Node>, g: View, t: Table, p: nat, i: nat, c: Cell, cut: seq<Node>, n: nat, j: nat,
                      waiting: seq<Node>, g2: View, a: Arrival, after: seq<Node>, level': map<nat, nat>, m0: set<nat>, m1: set<nat>, m2: set<nat>)
    requires p < |before| && LeafWaits(before, g, t, p, i, c, cut, n, j, before[p].parent, waiting, g2) && a.InOrder? && a.g == g2
    requires Arriving(waiting, g2.level, t, before[p].parent, n, a)
    requires Good(waiting, g2.level, t, before[p].parent, a) <==> InsertClear(before, g, t, p)
    requires LeafAboveKept(before, g, t, p, cut, waiting, before[p].parent, a.i)
    requires m1 == m0 + {p, n} + if a.i < |before[before[p].parent].keys| then {before[p].parent} else {}
    requires MarksOutcome(waiting, g2.level, t, before[p].parent, n, a, after, level', m1, m2)
    ensures PageMarks(before, g, t, p, after, level', m0, m2)
  {
    hide Good, InsertClear, MarksOutcome, Arriving;
    assert Insertable(before, g, t, p, i, c);
    hide LeafAboveKept;
    if InsertClear(before, g, t, p) && Below(m0, |before|) {
      LeafMarks(before, g, t, p, i, c, cut, n, j, waiting, g2, a, after, level', m0, m1, m2);
    }
  }

  lemma LeafMarks(before: seq<Node>, g: View, t: Table, p: nat, i: nat, c: Cell, cut: seq<Node>, n: nat, j: nat,
                  waiting: seq<Node>, g2: View, a: Arrival, after: seq<Node>, level': map<nat, nat>, m0: set<nat>, m1: set<nat>, m2: set<nat>)
    requires p < |before| && LeafWaits(before, g, t, p, i, c, cut, n, j, before[p].parent, waiting, g2) && a.InOrder? && a.g == g2
    requires Arriving(waiting, g2.level, t, before[p].parent, n, a) && Good(waiting, g2.level, t, before[p].parent, a)
    requires LeafAboveKept(before, g, t, p, cut, waiting, before[p].parent, a.i)
    requires Below(m0, n)
    requires m1 == m0 + {p, n} + if a.i < |before[before[p].parent].keys| then {before[p].parent} else {}
    requires MarksOutcome(waiting, g2.level, t, before[p].parent, n, a, after, level', m1, m2)
    ensures p in g.level && before[p].Leaf? && t.root in g.level
    ensures InsertMarked(before, after, level', m0, m2, InsertMissed(before, g.level, t, p))
  {
    var y := before[p].parent;
    hide Good, Inv, Shape, Hooked, Arrives, IndexIn, Missed, HasParent, Clear;
    LeafMissedKept(before, g, t, p, i, c, cut, n, j, waiting, g2, a.i);
    hide LeafWaits, InsertMissed;
    assert Below(m1, |waiting|);
    assert Marking(waiting, g2.level, t, y, n, a.i, after, level', m1, m2);
    hide Arriving, LeafAboveKept, MarksOutcome;
    LeafMarking(before, g2.level, t, p, y, n, a.i, waiting, after, level', InsertMissed(before, g.level, t, p), m0, m1, m2);
  }

  lemma LeafMarking(before: seq<Node>, level: map<nat, nat>, t: Table, p: nat, y: nat, n: nat, ip: nat, waiting: seq<Node>,
                    after: seq<Node>, level': map<nat, nat>, missed: set<nat>, m0: set<nat>, m1: set<nat>, m2: set<nat>)
    requires n == |before| && |waiting| == n + 1 && t.root in level && y in level && y < n && before[y].Internal? && waiting[y].Internal?
    requires missed == Missed(waiting, level, t.root, y, ip, n + 1) - (if ip < |before[y].keys| then {y} else {})
    requires forall x {:trigger Differs(before, waiting, x)} :: Differs(before, waiting, x) ==>
               x == p || x == n || (x == y && ip < |before[y].keys|)
    requires forall x :: x in missed ==>
               x != p && x != n && (x > n || (x < n && waiting[x] == before[x]))
    requires m1 == m0 + {p, n} + if ip < |before[y].keys| then {y} else {}
    requires Marking(waiting, level, t, y, n, ip, after, level', m1, m2)
    ensures InsertMarked(before, after, level', m0, m2, missed)
  {
    hide Missed, Remarked, Shape, MaxKey, Fine;
    forall x | x in missed ensures CutOff(before, after, level', m2, x) { assert CutOff(waiting, after, level', m2, x); }
    hide CutOff;
    forall x: nat | Differs(before, after, x) ensures x in m2 || x in missed {
      assert Differs(before, waiting, x) || Differs(waiting, after, x);
    }
  }

  /** What the search in the parent and the write to it keep. */
  ghost predicate LeafAboveKept(before: seq<Node>, g: View, t: Table, p: nat, cut: seq<Node>, waiting: seq<Node>, y: nat, ip: nat) {
    && y < |before| && y < |cut| && y < |waiting| && before[y].Internal? && cut[y] == before[y] && |waiting| == |cut|
    && (forall z :: 0 <= z < |cut| && z != y ==> waiting[z] == cut[z])
    && (ip >= |before[y].keys| ==> waiting[y] == cut[y])
    && waiting[y].Internal? && waiting[y] == before[y].(keys := waiting[y].keys) && |waiting[y].keys| == |before[y].keys|
    && ip < |before[y].children| && before[y].children[ip] == p
  }

  lemma LeafMissedKept(before: seq<Node>, g: View, t: Table, p: nat, i: nat, c: Cell, cut: seq<Node>, n: nat, j: nat,
                       waiting: seq<Node>, g2: View, ip: nat)
    requires p < |before| && LeafWaits(before, g, t, p, i, c, cut, n, j, before[p].parent, waiting, g2)
    requires LeafAboveKept(before, g, t, p, cut, waiting, before[p].parent, ip) && Shape(waiting, g2.level)
    ensures var y := before[p].parent;
            && n == |before| && |waiting| == n + 1 && p in g.level && before[p].Leaf? && t.root in g.level && y in g2.level && t.root in g2.level
            && InsertMissed(before, g.level, t, p)
               == Missed(waiting, g2.level, t.root, y, ip, n + 1) - (if ip < |before[y].keys| then {y} else {})
            && (forall x {:trigger Differs(before, waiting, x)} :: Differs(before, waiting, x) ==>
                  x == p || x == n || (x == y && ip < |before[y].keys|))
            && forall x :: x in InsertMissed(before, g.level, t, p) ==>
                 x != p && x != n && (x > n || (x < n && waiting[x] == before[x]))
  {
    var y := before[p].parent;
    SplitKey(before, g, t, p, i, c, cut, n);
    assert Insertable(before, g, t, p, i, c);
    hide Inv, WithCell, NonEmpty, SortedCells, IsCellLowerBound, Shape, Fine;
    LeafAboves(before, g, t, p, cut, n, waiting, ip);
    hide Insertable;
    MissedKept(before, waiting, g.level, g2.level, t.root, y, ip, n + 1);
    forall x | x in Missed(before, g.level, t.root, y, ip, n + 1)
      ensures x > n || (x < n && x != p && (waiting[x] == before[x] || (x == y && ip < |before[y].keys|)))
    {
      MissedHigh(before, g.level, t.root, y, ip, n + 1, x);
    }
    hide LeafAboveKept, LeafHalved, AboveKept;
  }

  lemma LeafAboves(before: seq<Node>, g: View, t: Table, p: nat, cut: seq<Node>, n: nat, waiting: seq<Node>, ip: nat)
    requires p < |before| && Inv(before, g, t, 0) && p in g.level && p != t.root && before[p].Leaf? && n == |before| && |cut| == n + 1
    requires forall z :: 0 <= z < n && z != p ==> cut[z] == before[z]
    requires LeafAboveKept(before, g, t, p, cut, waiting, before[p].parent, ip)
    ensures var y := before[p].parent;
            && t.root in g.level && HasParent(before, g.level, t.root, p) && y in g.level && g.level[y] <= g.level[t.root]
            && ip == IndexIn(before[y].children, p) && p < n && g.level[p] < g.level[y]
            && forall z {:trigger AboveKept(before, waiting, g.level, t.root, z)} :: z in g.level && g.level[z] >= g.level[y] ==>
                 AboveKept(before, waiting, g.level, t.root, z)
  {
    var y := before[p].parent;
    TreeLeaf.PageBelowParent(before, g, t, 0, p);
    TreeLeaf.RootTop(before, g, t, 0);
    InvShape(before, g, t, 0);
    OneIndex(before, g, t, y, IndexIn(before[y].children, p), ip);
    forall z | z in g.level && g.level[z] >= g.level[y] ensures AboveKept(before, waiting, g.level, t.root, z) {
      if z != t.root { TreeLeaf.PageBelowParent(before, g, t, 0, z); }
      assert Descends(before, g.level, z);
    }
  }

  /** The rightmost leaf does not depend on the levels used to find it. */
  lemma {:induction false} LevelFree(pages: seq<Node>, level: map<nat, nat>, level': map<nat, nat>, x: nat)
    requires Shape(pages, level) && Shape(pages, level') && x in level && x in level'
    ensures RightLeaf(pages, level, x) == RightLeaf(pages, level', x) && MaxKey(pages, level, x) == MaxKey(pages, level', x)
    decreases level[x]
  {
    assert Descends(pages, level, x) && Descends(pages, level', x);
    if pages[x].Internal? { LevelFree(pages, level, level', Last(pages[x].children)); }
  }

  lemma MarksInView(before: seq<Node>, g: View, t: Table, page: nat, after: seq<Node>, level': map<nat, nat>, view: View,
                    m0: set<nat>, m1: set<nat>)
    requires PageMarks(before, g, t, page, after, level', m0, m1) && Inv(after, view, t, 0) && Hooked(after, level', t, 0)
    ensures PageMarks(before, g, t, page, after, view.level, m0, m1)
  {
    InvShape(after, view, t, 0);
    hide Inv, InsertClear, Shape, MaxKey, Hooked;
    if InsertClear(before, g, t, page) && Below(m0, |before|) {
      var missed := InsertMissed(before, g.level, t, page);
      assert InsertMarked(before, after, level', m0, m1, missed);
      forall x | x in missed ensures CutOff(before, after, view.level, m1, x) {
        assert CutOff(before, after, level', m1, x);
        HookedInView(after, level', t, view, 0, x);
        if x < |before| { LevelFree(after, level', view.level, x); }
      }
      hide CutOff, InsertMissed;
    }
  }

  lemma InsertMissedHigh(pages: seq<Node>, level: map<nat, nat>, t: Table, page: nat, x: nat)
    requires page in level && page < |pages| && pages[page].Leaf? && t.root in level
    requires x in InsertMissed(pages, level, t, page)
    ensures x >= |pages| || (x in level && level[x] > level[page])
  {
    var y := pages[page].parent;
    MissedHigh(pages, level, t.root, y, IndexIn(pages[y].children, page), |pages| + 1, x);
  }

  lemma RootPageMarks(before: seq<Node>, g: View, t: Table, i: nat, c: Cell, cut: seq<Node>, n: nat, after: seq<Node>, level': map<nat, nat>, key: Key,
                      m0: set<nat>)
    requires LeafCut(before, g, t, t.root, i, c, cut, n) && NewRoot(cut, after, t.root, n, key)
    ensures PageMarks(before, g, t, t.root, after, level', m0, m0 + {t.root, n} + {t.root, |cut|}) && InsertClear(before, g, t, t.root)
  {
    RootLeafMarks(before, g, t, i, c, cut, n, after, level', key, m0);
    hide InsertMissed, InsertMarked, NewRoot, Insertable;
  }

  lemma RootLeafMarks(before: seq<Node>, g: View, t: Table, i: nat, c: Cell, cut: seq<Node>, n: nat, after: seq<Node>, level': map<nat, nat>, key: Key,
                      m0: set<nat>)
    requires LeafCut(before, g, t, t.root, i, c, cut, n) && NewRoot(cut, after, t.root, n, key)
    ensures t.root < |before| && before[t.root].Leaf? && t.root in g.level
    ensures InsertMarked(before, after, level', m0, m0 + {t.root, n} + {t.root, n + 1}, InsertMissed(before, g.level, t, t.root))
  {
    assert Insertable(before, g, t, t.root, i, c);
    hide Inv, Insertable, WithCell;
  }
}
