/** Least recently used: which pages the pool holds when every page is unpinned before the next
    is fetched, and how that depends on the number of frames. */
module Lru {
  import opened Layout
  import opened Paging
  import PagingRuns

  function Without(s: seq<nat>, x: nat): (r: seq<nat>)
    ensures forall y :: y in r <==> y in s && y != x
  {
    if s == [] then [] else if s[0] == x then Without(s[1..], x) else [s[0]] + Without(s[1..], x)
  }

  /** The distinct pages of a sequence of accesses, the most recent first. */
  function Recent(trace: seq<nat>): (r: seq<nat>)
    ensures forall y :: y in r <==> y in trace
  {
    if trace == [] then []
    else
      var n := |trace| - 1;
      assert trace == trace[..n] + [trace[n]];
      [trace[n]] + Without(Recent(trace[..n]), trace[n])
  }

  ghost predicate Distinct(s: seq<nat>) { forall i, j :: 0 <= i < j < |s| ==> s[i] != s[j] }

  function First(s: seq<nat>, k: nat): seq<nat> { if |s| <= k then s else s[..k] }

  lemma WithoutDistinct(s: seq<nat>, x: nat)
    requires Distinct(s)
    ensures Distinct(Without(s, x))
  {
    var at := IndexIn(s, x);
    WithoutAt(s, x, at);
    if at < |s| { DropDistinct(s, at); }
  }

  lemma DropDistinct(s: seq<nat>, at: nat)
    requires Distinct(s) && at < |s|
    ensures Distinct(s[..at] + s[at + 1..])
  {
  }

  lemma PutDistinct(x: nat, s: seq<nat>)
    requires Distinct(s) && x !in s
    ensures Distinct([x] + s)
  {
  }

  lemma {:induction false} RecentDistinct(trace: seq<nat>)
    ensures Distinct(Recent(trace))
  {
    if trace != [] {
      var n := |trace| - 1;
      RecentDistinct(trace[..n]);
      WithoutDistinct(Recent(trace[..n]), trace[n]);
      PutDistinct(trace[n], Without(Recent(trace[..n]), trace[n]));
    }
  }

  /** Up to the removed page nothing moves; behind it everything moves up by one. */
  lemma {:induction false} WithoutAt(s: seq<nat>, x: nat, at: nat)
    requires Distinct(s) && at <= |s| && x !in s[..at] && (at < |s| ==> s[at] == x)
    ensures Without(s, x) == if at < |s| then s[..at] + s[at + 1..] else s
  {
    if s != [] {
      DistinctTail(s, x, at);
      if at == 0 {
        WithoutAt(s[1..], x, |s| - 1);
      } else {
        WithoutAt(s[1..], x, at - 1);
        ConsAround(s, at);
      }
    }
  }

  lemma DistinctTail(s: seq<nat>, x: nat, at: nat)
    requires Distinct(s) && s != [] && at <= |s| && x !in s[..at] && (at < |s| ==> s[at] == x)
    ensures Distinct(s[1..]) && if at == 0 then s[0] == x && x !in s[1..] else s[0] != x && x !in s[1..][..at - 1]
  {
    if at == 0 {
      assert x !in s[1..];
    } else {
      assert s[0] == s[..at][0];
      assert s[1..][..at - 1] == s[..at][1..];
    }
  }

  lemma ConsAround(s: seq<nat>, at: nat)
    requires 0 < at <= |s|
    ensures [s[0]] + s[1..] == s
    ensures at < |s| ==> [s[0]] + (s[1..][..at - 1] + s[1..][at..]) == s[..at] + s[at + 1..]
  {
  }

  function After(trace: seq<nat>, i: nat): set<nat>
    requires i < |trace|
  {
    set j | i < j < |trace| :: trace[j]
  }

  /** What the list means: page x, last accessed at i, stands behind exactly the pages that were
      accessed after i. */
  lemma {:induction false} RecentMeans(trace: seq<nat>, i: nat)
    returns (at: nat)
    requires i < |trace| && trace[i] !in After(trace, i)
    ensures at < |Recent(trace)| && Recent(trace)[at] == trace[i]
    ensures Elems(Recent(trace)[..at]) == After(trace, i) && at == |After(trace, i)|
    decreases |trace|
  {
    var n := |trace| - 1;
    var x, last, prior := trace[i], trace[n], Recent(trace[..n]);
    if i == n {
      at := 0;
      assert After(trace, i) == {};
    } else {
      assert last in After(trace, i);
      assert After(trace, i) == After(trace[..n], i) + {last};
      var at0 := RecentMeans(trace[..n], i);
      RecentDistinct(trace[..n]);
      at := Shifted(prior, last, at0);
    }
    RecentDistinct(trace);
    DistinctSize(Recent(trace)[..at]);
  }

  /** The place of page prior[at0] after an access to another page. */
  lemma Shifted(prior: seq<nat>, last: nat, at0: nat) returns (at: nat)
    requires Distinct(prior) && at0 < |prior| && prior[at0] != last
    ensures var all := [last] + Without(prior, last);
            at < |all| && all[at] == prior[at0] && Elems(all[..at]) == Elems(prior[..at0]) + {last}
  {
    var all := [last] + Without(prior, last);
    var k := IndexIn(prior, last);
    WithoutAt(prior, last, k);
    hide IndexIn, Without, Elems, Distinct;
    if k < at0 {
      at := at0;
      var head, tail := prior[..k], prior[k + 1..at0];
      assert all[..at] == [last] + head + tail;
      assert prior[..at0] == head + [last] + tail;
    } else {
      at := at0 + 1;
      assert all[..at] == [last] + prior[..at0];
    }
  }

  lemma {:induction false} DistinctSize(s: seq<nat>)
    requires Distinct(s)
    ensures |Elems(s)| == |s|
  {
    if s != [] {
      var n := |s| - 1;
      DistinctSize(s[..n]);
      assert s == s[..n] + [s[n]];
      assert s[n] !in s[..n];
      assert Elems(s) == Elems(s[..n]) + {s[n]};
    }
  }

  function Touched(recent: seq<nat>, pg: nat): seq<nat> { [pg] + Without(recent, pg) }

  /** How the first k change when a page is accessed: it moves up, or it pushes out the last. */
  lemma FirstTouchedHit(recent: seq<nat>, pg: nat, k: nat)
    requires Distinct(recent) && pg in First(recent, k)
    ensures var f := First(recent, k); var at := IndexIn(f, pg);
            at < |f| && First(Touched(recent, pg), k) == [pg] + (f[..at] + f[at + 1..])
  {
    var f, at := First(recent, k), IndexIn(recent, pg);
    PlaceInFirst(recent, pg, k);
    WithoutAt(recent, pg, at);
    assert at == IndexIn(f, pg) < |f| && Touched(recent, pg) == [pg] + (recent[..at] + recent[at + 1..]);
    assert if |recent| <= k then f == recent else f == recent[..k] && at < k;
    hide IndexIn, Without, Distinct, Touched;
    if |recent| > k {
      FirstOfRemoved(pg, recent, at, k);
    }
  }

  lemma FirstOfRemoved(x: nat, s: seq<nat>, at: nat, k: nat)
    requires at < k < |s|
    ensures ([x] + (s[..at] + s[at + 1..]))[..k] == [x] + (s[..k][..at] + s[..k][at + 1..])
  {
    var a, b := s[..at], s[at + 1..];
    assert s[..k][..at] == a;
    assert s[..k][at + 1..] == b[..k - 1 - at];
    assert (a + b)[..k - 1] == a + b[..k - 1 - at];
  }

  lemma FirstTouchedMiss(recent: seq<nat>, pg: nat, k: nat)
    requires Distinct(recent) && k > 0 && pg !in First(recent, k)
    ensures First(Touched(recent, pg), k) == [pg] + if |recent| < k then recent else recent[..k - 1]
  {
    var at := IndexIn(recent, pg);
    WithoutAt(recent, pg, at);
    hide IndexIn, Without, Distinct;
    forall i | 0 <= i < k && i < |recent| ensures recent[i] != pg {
      assert First(recent, k)[i] == recent[i];
    }
  }

  lemma PlaceInFirst(recent: seq<nat>, pg: nat, k: nat)
    requires Distinct(recent) && pg in First(recent, k)
    ensures IndexIn(First(recent, k), pg) == IndexIn(recent, pg) < |First(recent, k)|
  {
    var f := First(recent, k);
    var i, j := IndexIn(f, pg), IndexIn(recent, pg);
    assert f[i] == pg == recent[i] == recent[j];
  }

  /** The pool holds the first pages of the list; their timestamps fall along it; none is pinned. */
  ghost predicate Holds(frames: seq<Frame?>, pinned: seq<nat>, lastUsed: seq<nat>, held: seq<nat>) {
    && |frames| == |pinned| == |lastUsed| && Distinct(held)
    && (forall i :: 0 <= i < |frames| ==> pinned[i] == 0 && (frames[i] != null <==> i in held))
    && Falls(lastUsed, held)
  }

  ghost predicate Falls(lastUsed: seq<nat>, held: seq<nat>) {
    && (forall i :: 0 <= i < |held| ==> held[i] < |lastUsed|)
    && (forall i, j :: 0 <= i < j < |held| ==> lastUsed[held[i]] > lastUsed[held[j]])
  }

  lemma FallsWithout(lastUsed: seq<nat>, held: seq<nat>, at: nat)
    requires Falls(lastUsed, held) && at < |held|
    ensures Falls(lastUsed, held[..at] + held[at + 1..])
  {
    var rest := held[..at] + held[at + 1..];
    forall i | 0 <= i < |rest| ensures rest[i] == held[if i < at then i else i + 1] {}
  }

  lemma FallsFrom(lastUsed: seq<nat>, pg: nat, rest: seq<nat>, now: nat)
    requires Falls(lastUsed, rest) && pg !in rest && pg < |lastUsed|
    requires forall i :: 0 <= i < |rest| ==> lastUsed[rest[i]] < now
    ensures Falls(lastUsed[pg := now], [pg] + rest)
  {
    var all, u := [pg] + rest, lastUsed[pg := now];
    forall i | 0 <= i < |all| ensures all[i] < |u| && u[all[i]] == if i == 0 then now else lastUsed[rest[i - 1]] {
      if i > 0 { assert all[i] == rest[i - 1] && rest[i - 1] in rest; }
    }
  }

  lemma HeldCount(frames: seq<Frame?>, pinned: seq<nat>, lastUsed: seq<nat>, held: seq<nat>)
    requires Holds(frames, pinned, lastUsed, held)
    ensures |ResidentIn(frames)| == |held|
  {
    DistinctSize(held);
    assert ResidentIn(frames) == Elems(held);
  }

  /** The page that was used longest ago is the victim. */
  lemma VictimIsLast(frames: seq<Frame?>, pinned: seq<nat>, lastUsed: seq<nat>, held: seq<nat>, timer: nat, victim: nat)
    requires Holds(frames, pinned, lastUsed, held) && StampedIn(frames, lastUsed, timer) && held != []
    requires Chosen(frames, pinned, lastUsed, victim)
    ensures victim == held[|held| - 1]
  {
    var last := held[|held| - 1];
    assert last in held;
    VictimUnique(frames, pinned, lastUsed, timer, victim, last);
    assert victim in held;
    var i :| 0 <= i < |held| && held[i] == victim;
  }

  /** Stamping a page moves it to the head of a held list from which it was taken. */
  lemma HoldsNext(frames: seq<Frame?>, frames': seq<Frame?>, pinned: seq<nat>, lastUsed: seq<nat>, held: seq<nat>,
                  timer: nat, pg: nat, rest: seq<nat>, at: nat)
    requires Holds(frames, pinned, lastUsed, held) && StampedIn(frames, lastUsed, timer)
    requires pg < |frames| == |frames'| && at <= |held| && pg !in rest
    requires if at < |held| then rest == held[..at] + held[at + 1..] else rest == held
    requires forall i :: 0 <= i < |frames| ==> (frames'[i] != null <==> i == pg || i in rest)
    ensures Holds(frames', pinned, lastUsed[pg := timer + 1], [pg] + rest)
  {
    if at < |held| { DropDistinct(held, at); }
    PutDistinct(pg, rest);
    forall y | y in rest ensures y in held {
      assert at < |held| ==> y in held[..at] || y in held[at + 1..];
    }
    if at < |held| { FallsWithout(lastUsed, held, at); }
    forall i | 0 <= i < |rest| ensures rest[i] < |frames| && lastUsed[rest[i]] <= timer {
      assert rest[i] in held;
    }
    hide StampedIn;
    FallsFrom(lastUsed, pg, rest, timer + 1);
  }

  /** What get_page does to the frames. */
  ghost predicate Fetched(frames: seq<Frame?>, frames': seq<Frame?>, pinned: seq<nat>, lastUsed: seq<nat>, pg: nat, capacity: nat,
                          victim: nat)
  {
    && pg < |frames| == |frames'| && frames'[pg] != null
    && if frames[pg] != null then frames' == frames
       else if |ResidentIn(frames)| < capacity then frames' == frames[pg := frames'[pg]]
       else Chosen(frames, pinned, lastUsed, victim) && victim < |frames| && frames' == frames[victim := null][pg := frames'[pg]]
  }

  lemma HitHolds(frames: seq<Frame?>, frames': seq<Frame?>, pinned: seq<nat>, lastUsed: seq<nat>, recent: seq<nat>,
                 timer: nat, pg: nat, capacity: nat, victim: nat)
    requires Holds(frames, pinned, lastUsed, First(recent, capacity)) && StampedIn(frames, lastUsed, timer)
    requires Distinct(recent) && capacity > 0 && Fetched(frames, frames', pinned, lastUsed, pg, capacity, victim)
    requires frames[pg] != null
    ensures Holds(frames', pinned, lastUsed[pg := timer + 1], First(Touched(recent, pg), capacity))
  {
    var f := First(recent, capacity);
    assert pg in f;
    FirstTouchedHit(recent, pg, capacity);
    var at := IndexIn(f, pg);
    var rest := f[..at] + f[at + 1..];
    hide Touched, First, StampedIn, ResidentIn, IndexIn;
    assert f == f[..at] + [pg] + f[at + 1..];
    assert pg !in rest;
    HoldsNext(frames, frames', pinned, lastUsed, f, timer, pg, rest, at);
  }

  lemma MissHolds(frames: seq<Frame?>, frames': seq<Frame?>, pinned: seq<nat>, lastUsed: seq<nat>, recent: seq<nat>,
                  timer: nat, pg: nat, capacity: nat, victim: nat)
    requires Holds(frames, pinned, lastUsed, First(recent, capacity)) && StampedIn(frames, lastUsed, timer)
    requires Distinct(recent) && capacity > 0 && Fetched(frames, frames', pinned, lastUsed, pg, capacity, victim)
    requires frames[pg] == null
    ensures Holds(frames', pinned, lastUsed[pg := timer + 1], First(Touched(recent, pg), capacity))
  {
    var f := First(recent, capacity);
    assert pg !in f;
    FirstTouchedMiss(recent, pg, capacity);
    HeldCount(frames, pinned, lastUsed, f);
    if |recent| < capacity {
      hide Touched, StampedIn, ResidentIn;
      HoldsNext(frames, frames', pinned, lastUsed, f, timer, pg, f, |f|);
    } else {
      assert f == recent[..capacity] && f[..capacity - 1] == recent[..capacity - 1];
      hide Touched, First, ResidentIn;
      EvictHolds(frames, frames', pinned, lastUsed, f, timer, pg, victim);
    }
  }

  /** The last of the list makes room for the page that is fetched. */
  lemma EvictHolds(frames: seq<Frame?>, frames': seq<Frame?>, pinned: seq<nat>, lastUsed: seq<nat>, f: seq<nat>,
                   timer: nat, pg: nat, victim: nat)
    requires Holds(frames, pinned, lastUsed, f) && StampedIn(frames, lastUsed, timer) && f != [] && pg !in f
    requires pg < |frames| == |frames'| && frames'[pg] != null && Chosen(frames, pinned, lastUsed, victim)
    requires victim < |frames| && frames' == frames[victim := null][pg := frames'[pg]]
    ensures Holds(frames', pinned, lastUsed[pg := timer + 1], [pg] + f[..|f| - 1])
  {
    VictimIsLast(frames, pinned, lastUsed, f, timer, victim);
    var n := |f| - 1;
    var rest := f[..n] + f[n + 1..];
    assert rest == f[..n];
    assert f == rest + [victim];
    assert victim !in rest by { assert Distinct(f); }
    hide StampedIn, Chosen;
    HoldsNext(frames, frames', pinned, lastUsed, f, timer, pg, rest, n);
  }

  /** How many accesses of a run do not find their page among the k most recent ones. */
  function Faults(trace: seq<nat>, k: nat): nat {
    if trace == [] then 0
    else
      var n := |trace| - 1;
      Faults(trace[..n], k) + if trace[n] in First(Recent(trace[..n]), k) then 0 else 1
  }

  /** Page y was accessed, and since then fewer than k different pages were. */
  ghost predicate Lately(trace: seq<nat>, y: nat, k: nat) {
    exists i {:trigger After(trace, i)} :: 0 <= i < |trace| && trace[i] == y && |After(trace, i)| < k
  }

  lemma {:induction false} LastAccess(trace: seq<nat>, i: nat) returns (last: nat)
    requires i < |trace|
    ensures i <= last < |trace| && trace[last] == trace[i] && trace[i] !in After(trace, last) && |After(trace, last)| <= |After(trace, i)|
    decreases |trace| - i
  {
    last := i;
    if trace[i] in After(trace, i) {
      var j :| i < j < |trace| && trace[j] == trace[i];
      last := LastAccess(trace, j);
      assert After(trace, j) <= After(trace, i);
      PagingRuns.SmallerSet(After(trace, j), After(trace, i));
    }
  }

  /** The first k of the recency list are the pages accessed lately. */
  lemma HeldMeans(trace: seq<nat>, y: nat, k: nat)
    ensures y in First(Recent(trace), k) <==> Lately(trace, y, k)
  {
    var all := Recent(trace);
    RecentDistinct(trace);
    if y in First(all, k) {
      var p :| 0 <= p < |First(all, k)| && First(all, k)[p] == y;
      assert all[p] == y && y in trace;
      var i :| 0 <= i < |trace| && trace[i] == y;
      var last := LastAccess(trace, i);
      var at := RecentMeans(trace, last);
      assert at == p;
      assert |After(trace, last)| < k;
    }
    if i :| 0 <= i < |trace| && trace[i] == y && |After(trace, i)| < k {
      var last := LastAccess(trace, i);
      var at := RecentMeans(trace, last);
      assert First(all, k)[at] == y;
    }
  }

  /** The page of access i was not accessed lately before. */
  ghost predicate Missing(trace: seq<nat>, i: nat, k: nat) { i < |trace| && !Lately(trace[..i], trace[i], k) }

  ghost function FaultSet(trace: seq<nat>, k: nat): set<nat> { set i | 0 <= i < |trace| && Missing(trace, i, k) }

  lemma FaultSetNext(trace: seq<nat>, k: nat)
    requires trace != []
    ensures var n := |trace| - 1;
            |FaultSet(trace, k)| == |FaultSet(trace[..n], k)| + if Lately(trace[..n], trace[n], k) then 0 else 1
  {
    var n := |trace| - 1;
    hide Lately;
    forall i: nat | i < n ensures Missing(trace[..n], i, k) <==> Missing(trace, i, k) { assert trace[..n][..i] == trace[..i]; }
    var more := if Missing(trace, n, k) then {n} else {};
    assert Missing(trace, n, k) <==> !Lately(trace[..n], trace[n], k);
    hide Missing;
    assert FaultSet(trace, k) == FaultSet(trace[..n], k) + more;
    assert n !in FaultSet(trace[..n], k);
  }

  /** The faults counted are the accesses to pages that were not accessed lately. */
  lemma {:induction false} FaultsMeans(trace: seq<nat>, k: nat)
    ensures Faults(trace, k) == |FaultSet(trace, k)|
  {
    hide Lately, First, Recent, FaultSet;
    if trace == [] {
      NoFaults(k);
    } else {
      var n := |trace| - 1;
      FaultsMeans(trace[..n], k);
      HeldMeans(trace[..n], trace[n], k);
      FaultSetNext(trace, k);
    }
  }

  lemma NoFaults(k: nat)
    ensures FaultSet([], k) == {}
  {
  }

  /** The stack property: a smaller pool holds a part of what a larger one holds, at every moment
      of every run, and so has no fewer faults. */
  lemma {:induction false} Inclusion(trace: seq<nat>, small: nat, large: nat)
    requires small <= large
    ensures forall y :: y in First(Recent(trace), small) ==> y in First(Recent(trace), large)
    ensures Faults(trace, large) <= Faults(trace, small)
  {
    var r := Recent(trace);
    forall y | y in First(r, small) ensures y in First(r, large) {
      var i :| 0 <= i < |First(r, small)| && First(r, small)[i] == y;
      assert First(r, large)[i] == y;
    }
    if trace != [] {
      Inclusion(trace[..|trace| - 1], small, large);
    }
  }

  /** Fetch pages one after the other, unpinning each before the next. */
  method AccessAll(p: Pager, trace: seq<nat>, junk: Page) returns (faults: nat)
    requires p.Valid() && p.Stamped() && p.timer == 0 && p.unmarked == {}
    requires Holds(p.frames[..], p.pinned[..], p.lastUsed[..], [])
    requires |trace| < NO_TIME && forall i :: 0 <= i < |trace| ==> trace[i] < TABLE_MAX_PAGES
    modifies p, p.frames, p.lastUsed, p.isDirty, p.pinned
    ensures p.Valid() && Holds(p.frames[..], p.pinned[..], p.lastUsed[..], First(Recent(trace), p.capacity))
    ensures forall i :: 0 <= i < TABLE_MAX_PAGES ==> (p.frames[i] != null <==> i in First(Recent(trace), p.capacity))
    ensures forall i :: 0 <= i < TABLE_MAX_PAGES ==> (p.frames[i] != null <==> Lately(trace, i, p.capacity))
    ensures faults == Faults(trace, p.capacity) == |FaultSet(trace, p.capacity)|
  {
    hide Recent, Faults, Touched, First, Holds, StampedIn;
    TraceStart(trace, p.capacity);
    faults := 0;
    var k := 0;
    while k < |trace|
      invariant k <= |trace| && p.Valid() && p.Stamped() && p.timer == k && p.unmarked == {}
      invariant p.frames == old(p.frames) && p.lastUsed == old(p.lastUsed) && p.isDirty == old(p.isDirty) && p.pinned == old(p.pinned)
      invariant Holds(p.frames[..], p.pinned[..], p.lastUsed[..], First(Recent(trace[..k]), p.capacity))
      invariant faults == Faults(trace[..k], p.capacity)
    {
      TraceStep(trace, k, p.capacity);
      var fault := Access(p, trace[k], junk, trace[..k]);
      faults := faults + fault;
      k := k + 1;
    }
    assert trace[..k] == trace;
    FaultsMeans(trace, p.capacity);
    forall y: nat | true ensures y in First(Recent(trace), p.capacity) <==> Lately(trace, y, p.capacity) { HeldMeans(trace, y, p.capacity); }
    HoldsMeans(p.frames[..], p.pinned[..], p.lastUsed[..], First(Recent(trace), p.capacity));
  }

  lemma HoldsMeans(frames: seq<Frame?>, pinned: seq<nat>, lastUsed: seq<nat>, held: seq<nat>)
    requires Holds(frames, pinned, lastUsed, held)
    ensures forall i :: 0 <= i < |frames| ==> (frames[i] != null <==> i in held)
  {
  }

  lemma TraceStart(trace: seq<nat>, capacity: nat)
    ensures First(Recent(trace[..0]), capacity) == [] && Faults(trace[..0], capacity) == 0
  {
  }

  lemma TraceStep(trace: seq<nat>, k: nat, capacity: nat)
    requires k < |trace|
    ensures Recent(trace[..k + 1]) == Touched(Recent(trace[..k]), trace[k])
    ensures Faults(trace[..k + 1], capacity)
         == Faults(trace[..k], capacity) + if trace[k] in First(Recent(trace[..k]), capacity) then 0 else 1
  {
    assert trace[..k + 1][..k] == trace[..k];
  }

  lemma Settled(frames: seq<Frame?>, frames': seq<Frame?>, pinned: seq<nat>, pinned': seq<nat>, lastUsed: seq<nat>,
                lastUsed': seq<nat>, recent: seq<nat>, timer: nat, pg: nat, capacity: nat, victim: nat)
    requires Holds(frames, pinned, lastUsed, First(recent, capacity)) && StampedIn(frames, lastUsed, timer)
    requires Distinct(recent) && capacity > 0 && Fetched(frames, frames', pinned, lastUsed, pg, capacity, victim)
    requires lastUsed' == lastUsed[pg := timer + 1] && pinned' == pinned[pg := pinned[pg]]
    ensures Holds(frames', pinned', lastUsed', First(Touched(recent, pg), capacity))
  {
    assert pinned' == pinned;
    if frames[pg] != null {
      HitHolds(frames, frames', pinned, lastUsed, recent, timer, pg, capacity, victim);
    } else {
      MissHolds(frames, frames', pinned, lastUsed, recent, timer, pg, capacity, victim);
    }
  }

  /** A pool without pins always has a frame to give. */
  lemma AlwaysRoom(frames: seq<Frame?>, pinned: seq<nat>, lastUsed: seq<nat>, held: seq<nat>, timer: nat)
    requires Holds(frames, pinned, lastUsed, held) && StampedIn(frames, lastUsed, timer) && held != []
    ensures exists i :: Candidate(frames, pinned, lastUsed, i)
  {
    assert held[0] in held && Candidate(frames, pinned, lastUsed, held[0]);
  }

  method FetchUnpinned(p: Pager, pg: nat, junk: Page) returns (ghost victim: nat)
    requires p.Valid() && p.Stamped() && p.unmarked == {} && p.timer + 1 < NO_TIME && pg < TABLE_MAX_PAGES && p.pinned[pg] == 0
    requires p.numPagesInMemory >= p.capacity ==> exists i :: Candidate(p.frames[..], p.pinned[..], p.lastUsed[..], i)
    modifies p, p.frames, p.lastUsed, p.isDirty, p.pinned
    ensures p.Valid() && p.Stamped() && p.unmarked == {} && p.timer == old(p.timer) + 1
    ensures p.frames == old(p.frames) && p.lastUsed == old(p.lastUsed) && p.isDirty == old(p.isDirty) && p.pinned == old(p.pinned)
    ensures Fetched(old(p.frames[..]), p.frames[..], old(p.pinned[..]), old(p.lastUsed[..]), pg, p.capacity, victim)
    ensures p.lastUsed[..] == old(p.lastUsed[..])[pg := p.timer] && p.pinned[..] == old(p.pinned[..])[pg := old(p.pinned[pg])]
  {
    hide StampedIn, Candidate, Chosen, ResidentIn;
    var frame;
    frame, victim := p.GetPage(pg, junk);
    p.Unpin(pg);
  }

  /** One access; `past` are the ones before it. */
  method Access(p: Pager, pg: nat, junk: Page, ghost past: seq<nat>) returns (fault: nat)
    requires p.Valid() && p.Stamped() && p.unmarked == {} && p.timer + 1 < NO_TIME && pg < TABLE_MAX_PAGES
    requires Holds(p.frames[..], p.pinned[..], p.lastUsed[..], First(Recent(past), p.capacity))
    modifies p, p.frames, p.lastUsed, p.isDirty, p.pinned
    ensures p.Valid() && p.Stamped() && p.unmarked == {} && p.timer == old(p.timer) + 1
    ensures p.frames == old(p.frames) && p.lastUsed == old(p.lastUsed) && p.isDirty == old(p.isDirty) && p.pinned == old(p.pinned)
    ensures Holds(p.frames[..], p.pinned[..], p.lastUsed[..], First(Touched(Recent(past), pg), p.capacity))
    ensures fault == if pg in First(Recent(past), p.capacity) then 0 else 1
  {
    ghost var held := First(Recent(past), p.capacity);
    fault := if p.frames[pg] == null then 1 else 0;
    RecentDistinct(past);
    HeldCount(p.frames[..], p.pinned[..], p.lastUsed[..], held);
    if held != [] { AlwaysRoom(p.frames[..], p.pinned[..], p.lastUsed[..], held, p.timer); }
    assert held == [] ==> p.numPagesInMemory == 0;
    assert p.pinned[pg] == 0;
    hide StampedIn, Candidate, Distinct, Falls, Chosen, ResidentIn, Holds, First, Recent, Touched, Fetched;
    ghost var frames, pinned, lastUsed := p.frames[..], p.pinned[..], p.lastUsed[..];
    ghost var victim := FetchUnpinned(p, pg, junk);
    Settled(frames, p.frames[..], pinned, p.pinned[..], lastUsed, p.lastUsed[..], Recent(past), old(p.timer), pg, p.capacity, victim);
  }

  /** The pages 0, 1, ..., n - 1. */
  function Ascending(n: nat): seq<nat> { seq(n, i => i) }

  lemma {:induction false} RecentAscending(n: nat)
    ensures |Recent(Ascending(n))| == n
    ensures forall i :: 0 <= i < n ==> Recent(Ascending(n))[i] == n - 1 - i
  {
    if n > 0 {
      RecentAscending(n - 1);
      RecentDistinct(Ascending(n - 1));
      assert Ascending(n)[..n - 1] == Ascending(n - 1) && Ascending(n)[n - 1] == n - 1;
      WithoutAt(Recent(Ascending(n - 1)), n - 1, n - 1);
    }
  }

  /** Fetching one page more than there are frames evicts the first one, and no other. */
  lemma FirstGoes(capacity: nat, page: nat)
    requires capacity > 0 && page <= capacity
    ensures page in First(Recent(Ascending(capacity + 1)), capacity) <==> page != 0
  {
    RecentAscending(capacity + 1);
    var r := Recent(Ascending(capacity + 1));
    if page > 0 {
      assert First(r, capacity)[capacity - page] == page;
    }
  }
}
