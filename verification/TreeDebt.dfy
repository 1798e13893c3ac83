/** How an empty leaf on the way up spoils an insert: get_node_max_key gives 0 for it, and the 0
    ends up as a separator, or sends a page to the wrong place. */
module TreeDebt {
  import opened Layout
  import opened Tree
  import opened TreeCascade
  import opened TreeHalves
  import opened TreeRuin

  // Single nodes

  /** Taking another child does not mend a bad node. */
  lemma BadInserted(x: Node, first: Node, c: nat, cm: Key, rm: Key, idx: nat)
    requires x.Internal? && |x.children| == |x.keys| + 1 && idx <= |x.keys| && BadNode(x, first)
    ensures var r := Inserted(x, c, cm, rm, idx);
            !SortedKeys(r.keys) || (|r.keys| > 0 && r.keys[0] == 0 && r.children[0] == x.children[0] && first.Internal? && |first.keys| > 0)
  {
    var r := Inserted(x, c, cm, rm, idx);
    if !SortedKeys(x.keys) {
      var a, b :| 0 <= a < b < |x.keys| && x.keys[a] >= x.keys[b];
      if cm > rm {
        assert r.keys[a] == x.keys[a] && r.keys[b] == x.keys[b];
      } else {
        assert r.keys[if a < idx then a else a + 1] == x.keys[a] && r.keys[if b < idx then b else b + 1] == x.keys[b];
      }
    } else if cm <= rm && idx == 0 {
      assert r.keys[0] == cm && r.keys[1] == x.keys[0];
    } else {
      assert r.keys[0] == x.keys[0] && r.children[0] == x.children[0];
    }
  }

  /** A child whose largest key reads as 0 becomes the first child, below separator 0. */
  lemma FrontInserted(x: Node, c: nat, rm: Key)
    requires x.Internal? && |x.children| == |x.keys| + 1
    ensures var r := Inserted(x, c, 0, rm, 0); |r.keys| > 0 && r.keys[0] == 0 && r.children[0] == c
  {
  }

  /** A right child whose largest key reads as 0 gets that as its separator. */
  lemma AppendedZero(x: Node, c: nat, cm: Key, idx: nat)
    requires x.Internal? && |x.children| == |x.keys| + 1 && idx <= |x.keys| && cm > 0
    ensures var r := Inserted(x, c, cm, 0, idx);
            if |x.keys| > 0 then !SortedKeys(r.keys) else |r.keys| > 0 && r.keys[0] == 0 && r.children[0] == x.children[0]
  {
    var r := Inserted(x, c, cm, 0, idx);
    if |x.keys| > 0 { assert r.keys[|x.keys| - 1] >= 0 == r.keys[|x.keys|]; }
  }

  // A page with room

  /** The search result that the code works with. */
  ghost predicate Searched(keys: seq<Key>, key: Key, idx: nat) {
    && idx <= |keys| && (SortedKeys(keys) ==> IsLowerBound(keys, key, idx)) && (key == 0 ==> idx == 0)
  }

  /** Child c has entered page p, which had room. */
  ghost predicate Entered(before: seq<Node>, level: map<nat, nat>, p: nat, c: nat, idx: nat, after: seq<Node>)
    requires Shape(before, level) && c in level && p in level
  {
    && p != c && p < |before| && c < |before| && before[p].Internal? && |before[p].children| == |before[p].keys| + 1
    && Last(before[p].children) in level
    && Searched(before[p].keys, MaxKey(before, level, c), idx)
    && after == before[p := Inserted(before[p], c, MaxKey(before, level, c), MaxKey(before, level, Last(before[p].children)), idx)]
                      [c := WithParent(before[c], p)]
  }

  /** Page p has a child i that reads as empty although it has separators; where p has a separator
      for it, that has become 0. */
  ghost predicate ZeroChild(pages: seq<Node>, level: map<nat, nat>, p: nat, i: nat)
    requires Shape(pages, level)
  {
    && p < |pages| && pages[p].Internal? && |pages[p].children| == |pages[p].keys| + 1 && i < |pages[p].children|
    && (i < |pages[p].keys| ==> pages[p].keys[i] == 0)
    && var q := pages[p].children[i];
       q in level && q < |pages| && pages[q].Internal? && |pages[q].keys| > 0 && MaxKey(pages, level, q) == 0
  }

  ghost predicate HasKeys(pages: seq<Node>, c: nat) { c < |pages| && pages[c].Internal? && |pages[c].keys| > 0 }

  lemma EnteredBad(before: seq<Node>, level: map<nat, nat>, p: nat, c: nat, idx: nat, after: seq<Node>)
    requires Shape(before, level) && c in level && p in level && Entered(before, level, p, c, idx, after)
    requires Bad(before, p) || (MaxKey(before, level, c) == 0 && HasKeys(before, c))
    requires before[p].children[0] != p
    ensures Bad(after, p)
  {
    var x := before[p];
    var cm, rm := MaxKey(before, level, c), MaxKey(before, level, Last(x.children));
    if Bad(before, p) {
      BadInserted(x, before[x.children[0]], c, cm, rm, idx);
    } else {
      FrontInserted(x, c, rm);
    }
  }

  /** A right child that reads as 0 spoils the separators. */
  lemma EnteredBehindEmpty(before: seq<Node>, level: map<nat, nat>, p: nat, c: nat, idx: nat, after: seq<Node>)
    requires Shape(before, level) && c in level && p in level && Entered(before, level, p, c, idx, after)
    requires MaxKey(before, level, Last(before[p].children)) == 0 < MaxKey(before, level, c)
    requires |before[p].keys| > 0 || HasKeys(before, before[p].children[0])
    requires before[p].children[0] != p && before[p].children[0] < |before|
    ensures Bad(after, p)
  {
    AppendedZero(before[p], c, MaxKey(before, level, c), idx);
  }

  lemma ZeroChildEntered(before: seq<Node>, level: map<nat, nat>, p: nat, i: nat, c: nat, idx: nat, after: seq<Node>)
    requires Shape(before, level) && c in level && p in level && Entered(before, level, p, c, idx, after)
    requires ZeroChild(before, level, p, i) && MaxKey(before, level, c) > 0
    requires before[p].children[0] != p && before[p].children[0] < |before|
    ensures Bad(after, p)
  {
    if i < |before[p].keys| {
      ZeroChildBad(before, level, p, i);
      EnteredBad(before, level, p, c, idx, after);
    } else {
      EnteredBehindEmpty(before, level, p, c, idx, after);
    }
  }

  lemma ZeroChildBad(pages: seq<Node>, level: map<nat, nat>, p: nat, i: nat)
    requires Shape(pages, level) && ZeroChild(pages, level, p, i) && i < |pages[p].keys| && pages[p].children[0] < |pages|
    ensures Bad(pages, p)
  {
    if i > 0 { assert pages[p].keys[i - 1] >= pages[p].keys[i]; }
  }

  // A full page

  /** Full page p was cut into p and n, and the code chose half h for child c. */
  ghost predicate HalfEntered(before: seq<Node>, level: map<nat, nat>, p: nat, c: nat, mid: seq<Node>, n: nat, h: nat, idx: nat,
                              cut: seq<Node>)
    requires Shape(before, level) && c in level && p in level
  {
    && p != c && p < |before| && c < |before| && before[p].Internal? && n !in level
    && |before[p].children| == |before[p].keys| + 1 && |before[p].keys| == INTERNAL_NODE_MAX_KEYS
    && before[p].children[SPLIT] in level && Last(before[p].children) in level && level[c] < level[p]
    && CutAt(before[p], before, mid, p, n, SPLIT + 1)
    && var level' := level[n := level[p]];
       && Shape(mid, level') && h == (if MaxKey(mid, level', c) < MaxKey(mid, level', p) then p else n)
       && Entered(mid, level', h, c, idx, cut)
  }

  /** A page cut in two leaves a store that can be followed downwards. */
  lemma CutShape(before: seq<Node>, level: map<nat, nat>, p: nat, mid: seq<Node>, n: nat)
    requires Shape(before, level) && p in level && p < |before| && before[p].Internal? && n !in level
    requires |before[p].children| == |before[p].keys| + 1 && SPLIT + 1 <= |before[p].keys|
    requires CutAt(before[p], before, mid, p, n, SPLIT + 1)
    ensures Shape(mid, level[n := level[p]])
  {
    assert Descends(before, level, p);
    var level' := level[n := level[p]];
    forall x | x in level' ensures Descends(mid, level', x) {
      if x != n { assert Descends(before, level, x); }
    }
  }

  /** Below the page that is cut all largest keys stay what they were. */
  lemma CutMaxes(before: seq<Node>, level: map<nat, nat>, p: nat, mid: seq<Node>, n: nat, x: nat)
    requires Shape(before, level) && p in level && p < |before| && before[p].Internal? && n !in level
    requires |before[p].children| == |before[p].keys| + 1 && SPLIT + 1 <= |before[p].keys|
    requires CutAt(before[p], before, mid, p, n, SPLIT + 1) && Shape(mid, level[n := level[p]])
    requires x in level && level[x] < level[p]
    ensures MaxKey(mid, level[n := level[p]], x) == MaxKey(before, level, x)
  {
    forall y | y in level && level[y] <= level[x] ensures SameBody(before, mid, y) { assert Descends(before, level, y); }
    RightLeafFrame(before, mid, level, level[n := level[p]], x);
  }

  /** Where the child goes. */
  lemma HalfGoes(before: seq<Node>, level: map<nat, nat>, p: nat, c: nat, mid: seq<Node>, n: nat, h: nat, idx: nat, cut: seq<Node>)
    requires Shape(before, level) && c in level && p in level && HalfEntered(before, level, p, c, mid, n, h, idx, cut)
    ensures var level' := level[n := level[p]];
            var cm, mx, last := MaxKey(before, level, c), MaxKey(before, level, before[p].children[SPLIT]),
                                MaxKey(before, level, Last(before[p].children));
            && MaxKey(mid, level', c) == cm && Last(mid[p].children) == before[p].children[SPLIT]
            && Last(mid[n].children) == Last(before[p].children)
            && MaxKey(mid, level', Last(mid[p].children)) == mx && MaxKey(mid, level', Last(mid[n].children)) == last
            && h == (if cm < mx then p else n)
            && level[before[p].children[SPLIT]] < level[p] && level[Last(before[p].children)] < level[p]
  {
    var level' := level[n := level[p]];
    var x := before[p];
    assert Descends(before, level, p) && Descends(mid, level', p);
    CutMaxes(before, level, p, mid, n, c);
    CutMaxes(before, level, p, mid, n, x.children[SPLIT]);
    CutMaxes(before, level, p, mid, n, Last(x.children));
  }

  /** What the two halves read as afterwards. */
  lemma HalfReads(before: seq<Node>, level: map<nat, nat>, p: nat, c: nat, mid: seq<Node>, n: nat, h: nat, idx: nat, cut: seq<Node>)
    requires Shape(before, level) && c in level && p in level && HalfEntered(before, level, p, c, mid, n, h, idx, cut)
    requires Shape(cut, level[n := level[p]])
    ensures var level' := level[n := level[p]];
            var cm, mx, last := MaxKey(before, level, c), MaxKey(before, level, before[p].children[SPLIT]),
                                MaxKey(before, level, Last(before[p].children));
            && h == (if cm < mx then p else n)
            && MaxKey(cut, level', p) == mx
            && MaxKey(cut, level', n) == (if h == n && cm > last then cm else last)
  {
    var level' := level[n := level[p]];
    var x := before[p];
    HalfGoes(before, level, p, c, mid, n, h, idx, cut);
    EnteredMax(mid, level', p, n, h, c, idx, cut, c);
    EnteredMax(mid, level', p, n, h, c, idx, cut, x.children[SPLIT]);
    EnteredMax(mid, level', p, n, h, c, idx, cut, Last(x.children));
    hide CutAt, Searched;
    HalfEnds(mid, level', h, c, idx, cut, p);
    HalfEnds(mid, level', h, c, idx, cut, n);
  }

  /** The last child of half a. */
  lemma HalfEnds(mid: seq<Node>, level: map<nat, nat>, h: nat, c: nat, idx: nat, cut: seq<Node>, a: nat)
    requires Shape(mid, level) && Shape(cut, level) && c in level && h in level && a in level
    requires level[c] < level[h] == level[a] && Entered(mid, level, h, c, idx, cut)
    requires a < |mid| && mid[a].Internal? && |mid[a].children| > 0
    ensures a < |cut| && cut[a].Internal? && |cut[a].children| > 0 && Last(cut[a].children) in level
    ensures Last(cut[a].children) == if h == a && MaxKey(mid, level, c) > MaxKey(mid, level, Last(mid[h].children))
                                     then c else Last(mid[a].children)
    ensures MaxKey(cut, level, a) == MaxKey(cut, level, Last(cut[a].children))
  {
    assert Descends(cut, level, a) && c != a;
    hide Searched, Shape;
    if a == h {
      var x := mid[h];
      assert |x.children| > 0;
    }
  }

  lemma EnteredMax(mid: seq<Node>, level: map<nat, nat>, p: nat, n: nat, h: nat, c: nat, idx: nat, cut: seq<Node>, y: nat)
    requires Shape(mid, level) && Shape(cut, level) && c in level && h in level && (h == p || h == n) && p in level && n in level
    requires level[p] == level[n] && Entered(mid, level, h, c, idx, cut) && y in level && level[y] < level[p]
    ensures MaxKey(cut, level, y) == MaxKey(mid, level, y)
  {
    forall z | z in level && level[z] <= level[y] ensures SameBody(mid, cut, z) { assert Descends(mid, level, z); }
    RightLeafFrame(mid, cut, level, level, y);
  }

  /** The child went behind a right half that reads as 0. */
  lemma EmptyUpperHalf(before: seq<Node>, level: map<nat, nat>, p: nat, c: nat, mid: seq<Node>, n: nat, h: nat, idx: nat, cut: seq<Node>)
    requires Shape(before, level) && c in level && p in level && HalfEntered(before, level, p, c, mid, n, h, idx, cut)
    requires MaxKey(before, level, Last(before[p].children)) == 0 < MaxKey(before, level, c)
    requires MaxKey(before, level, before[p].children[SPLIT]) <= MaxKey(before, level, c)
    ensures Bad(cut, n)
  {
    HalfGoes(before, level, p, c, mid, n, h, idx, cut);
    var level' := level[n := level[p]];
    assert Descends(mid, level', n) && mid[n].children[0] in level && Descends(mid, level', mid[n].children[0]);
    EnteredBehindEmpty(mid, level', n, c, idx, cut);
  }

  /** A bad half stays bad, whether it receives the child or not. */
  lemma HalfStaysBad(mid: seq<Node>, level: map<nat, nat>, p: nat, n: nat, h: nat, c: nat, idx: nat, cut: seq<Node>, a: nat)
    requires Shape(mid, level) && c in level && h in level && p in level && n in level && p != n && (h == p || h == n)
    requires level[c] < level[p] == level[n] && Entered(mid, level, h, c, idx, cut) && (a == p || a == n) && Bad(mid, a)
    ensures Bad(cut, a)
  {
    assert Descends(mid, level, a);
    var f := mid[a].children[0];
    assert f in level && level[f] < level[a];
    if a == h { EnteredBad(mid, level, h, c, idx, cut); }
  }

  lemma ZeroChildHalves(before: seq<Node>, level: map<nat, nat>, p: nat, i: nat, mid: seq<Node>, n: nat)
    requires Shape(before, level) && p in level && ZeroChild(before, level, p, i) && n !in level
    requires |before[p].keys| == INTERNAL_NODE_MAX_KEYS && i < |before[p].keys| && i != SPLIT
    requires CutAt(before[p], before, mid, p, n, SPLIT + 1)
    ensures if i < SPLIT then Bad(mid, p) else Bad(mid, n)
  {
    var x := before[p];
    assert Descends(before, level, p) && Descends(before, level, x.children[0]) && Descends(before, level, x.children[SPLIT + 1]);
    if i < SPLIT {
      assert mid[p].keys[i] == 0 && mid[p].children[0] == x.children[0];
      if i > 0 { assert mid[p].keys[i - 1] >= mid[p].keys[i]; }
    } else {
      assert mid[n].keys[i - SPLIT - 1] == 0 && mid[n].children[0] == x.children[SPLIT + 1];
      if i > SPLIT + 1 { assert mid[n].keys[i - SPLIT - 2] >= mid[n].keys[i - SPLIT - 1]; }
    }
  }

  /** A full page with a child that reads as 0: a half is bad, or the lower half reads as 0 and the
      upper one as a key found below. */
  lemma ZeroChildCut(before: seq<Node>, level: map<nat, nat>, p: nat, i: nat, c: nat, mid: seq<Node>, n: nat, h: nat, idx: nat,
                     cut: seq<Node>)
    requires Shape(before, level) && c in level && p in level && HalfEntered(before, level, p, c, mid, n, h, idx, cut)
    requires Shape(cut, level[n := level[p]])
    requires ZeroChild(before, level, p, i) && MaxKey(before, level, c) > 0
    requires i == |before[p].keys| ==> MaxKey(before, level, before[p].children[SPLIT]) <= MaxKey(before, level, c)
    ensures Bad(cut, p) || Bad(cut, n) || HalvesRead(before, level, p, c, n, cut)
  {
    var level' := level[n := level[p]];
    HalfReads(before, level, p, c, mid, n, h, idx, cut);
    if i == |before[p].keys| {
      EmptyUpperHalf(before, level, p, c, mid, n, h, idx, cut);
    } else if i != SPLIT {
      ZeroChildHalves(before, level, p, i, mid, n);
      HalfStaysBad(mid, level', p, n, h, c, idx, cut, if i < SPLIT then p else n);
    } else {
      EmptyLowerCut(before, level, p, c, mid, n, h, idx, cut);
    }
  }

  /** The lower half reads as 0, the upper half as the new child or as the old last child. */
  ghost predicate HalvesRead(before: seq<Node>, level: map<nat, nat>, p: nat, c: nat, n: nat, cut: seq<Node>)
    requires Shape(before, level) && c in level && p in level && Shape(cut, level[n := level[p]])
  {
    var level' := level[n := level[p]];
    && p < |before| && before[p].Internal? && |before[p].children| > 0 && Last(before[p].children) in level
    && MaxKey(cut, level', p) == 0 < MaxKey(cut, level', n) && MaxKey(before, level, Last(before[p].children)) > 0
    && (MaxKey(cut, level', n) == MaxKey(before, level, c) || MaxKey(cut, level', n) == MaxKey(before, level, Last(before[p].children)))
  }

  /** A full page whose lower half ends with an empty leaf. */
  lemma EmptyLowerCut(before: seq<Node>, level: map<nat, nat>, p: nat, c: nat, mid: seq<Node>, n: nat, h: nat, idx: nat, cut: seq<Node>)
    requires Shape(before, level) && c in level && p in level && HalfEntered(before, level, p, c, mid, n, h, idx, cut)
    requires Shape(cut, level[n := level[p]])
    requires MaxKey(before, level, before[p].children[SPLIT]) == 0 < MaxKey(before, level, c)
    ensures Bad(cut, n) || HalvesRead(before, level, p, c, n, cut)
    ensures MaxKey(cut, level[n := level[p]], p) == 0
  {
    HalfReads(before, level, p, c, mid, n, h, idx, cut);
    if MaxKey(before, level, Last(before[p].children)) == 0 { EmptyUpperHalf(before, level, p, c, mid, n, h, idx, cut); }
  }
}
