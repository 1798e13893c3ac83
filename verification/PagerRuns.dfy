/** Whole runs of the buffer pool, compared with a plain array of pages that is read and written
    directly. */
module PagingRuns {
  import opened Layout
  import opened Paging

  datatype Op = Get(pg: nat) | Put(pg: nat, data: Page) | Mark(pg: nat) | Unpin(pg: nat) | UnpinAll | Flush(pg: nat)

  /** The plain array, and what callers owe: how often each page is pinned, which pages they have
      changed without marking them dirty. */
  datatype Flat = Flat(content: map<nat, Page>, pins: seq<nat>, unmarked: set<nat>)

  /** The rules for callers: change only pages that are pinned, mark a change before unpinning. */
  predicate May(f: Flat, op: Op)
    requires |f.pins| == TABLE_MAX_PAGES
  {
    match op
    case Get(pg) => pg < TABLE_MAX_PAGES && f.pins[pg] < NO_TIME
    case Put(pg, _) => pg < TABLE_MAX_PAGES && f.pins[pg] > 0
    case Mark(pg) => pg < TABLE_MAX_PAGES && pg in f.content
    case Unpin(pg) => pg < TABLE_MAX_PAGES && pg !in f.unmarked
    case UnpinAll => f.unmarked == {}
    case Flush(pg) => pg < TABLE_MAX_PAGES
  }

  function Step(f: Flat, op: Op): (r: Flat)
    requires |f.pins| == TABLE_MAX_PAGES
    ensures |r.pins| == TABLE_MAX_PAGES
  {
    if !May(f, op) then f else
    match op
    case Get(pg) => f.(pins := f.pins[pg := f.pins[pg] + 1])
    case Put(pg, data) => f.(content := f.content[pg := data], unmarked := f.unmarked + {pg})
    case Mark(pg) => f.(unmarked := f.unmarked - {pg})
    case Unpin(pg) => f.(pins := f.pins[pg := if f.pins[pg] > 0 then f.pins[pg] - 1 else 0])
    case UnpinAll => f.(pins := seq(TABLE_MAX_PAGES, i => 0))
    case Flush(_) => f
  }

  /** The plain array before operation i. */
  function Before(f: Flat, ops: seq<Op>, i: nat): (r: Flat)
    requires |f.pins| == TABLE_MAX_PAGES && i <= |ops|
    ensures |r.pins| == TABLE_MAX_PAGES
  {
    if i == 0 then f else Step(Before(f, ops, i - 1), ops[i - 1])
  }

  ghost predicate Legal(f: Flat, ops: seq<Op>)
    requires |f.pins| == TABLE_MAX_PAGES
  {
    forall i {:trigger Before(f, ops, i)} :: 0 <= i < |ops| ==> May(Before(f, ops, i), ops[i])
  }

  datatype Answer = Nothing | Content(data: Page)

  /** Every answer is what the plain array holds at that moment, where that is determined. */
  ghost predicate Agrees(f: Flat, ops: seq<Op>, answers: seq<Answer>)
    requires |f.pins| == TABLE_MAX_PAGES && |answers| <= |ops|
  {
    forall i {:trigger answers[i]} :: 0 <= i < |answers| && ops[i].Get? ==>
      answers[i].Content? && (ops[i].pg in Before(f, ops, i).content ==> answers[i].data == Before(f, ops, i).content[ops[i].pg])
  }

  predicate Puts(op: Op, pg: nat) {
    op.Put? && op.pg == pg
  }

  /** None of the operations from..to gives page pg a content. */
  ghost predicate Untouched(ops: seq<Op>, from: nat, to: nat, pg: nat)
    requires to <= |ops|
  {
    forall k :: from <= k < to ==> !Puts(ops[k], pg)
  }

  /** Page pg of `content` is what it was last given among the first i operations, or what it was in
      `start` when it was given nothing. */
  ghost predicate LastGiven(content: map<nat, Page>, start: map<nat, Page>, ops: seq<Op>, i: nat, pg: nat)
    requires i <= |ops|
  {
    && (forall j :: 0 <= j < i && Puts(ops[j], pg) && Untouched(ops, j + 1, i, pg) ==>
          pg in content && content[pg] == ops[j].data)
    && (Untouched(ops, 0, i, pg) ==> (pg in content <==> pg in start) && (pg in start ==> content[pg] == start[pg]))
  }

  /** The plain array holds in every page what it was last given. */
  lemma {:induction false} ContentGiven(f: Flat, ops: seq<Op>, i: nat, pg: nat)
    requires |f.pins| == TABLE_MAX_PAGES && i <= |ops| && Legal(f, ops)
    ensures LastGiven(Before(f, ops, i).content, f.content, ops, i, pg)
  {
    hide Step, May, Puts;
    if i > 0 {
      ContentGiven(f, ops, i - 1, pg);
      var was := Before(f, ops, i - 1);
      assert May(was, ops[i - 1]);
      StepGives(was, ops[i - 1], pg);
      GivenNext(was.content, Step(was, ops[i - 1]).content, f.content, ops, i, pg);
    }
  }

  lemma StepGives(f: Flat, op: Op, pg: nat)
    requires |f.pins| == TABLE_MAX_PAGES && May(f, op)
    ensures var now := Step(f, op).content;
            if Puts(op, pg) then pg in now && now[pg] == op.data
            else (pg in now <==> pg in f.content) && (pg in now ==> now[pg] == f.content[pg])
  {
  }

  lemma UntouchedBefore(ops: seq<Op>, from: nat, to: nat, pg: nat)
    requires from < to <= |ops| && Untouched(ops, from, to, pg)
    ensures Untouched(ops, from, to - 1, pg) && !Puts(ops[to - 1], pg)
  {
    hide Puts;
  }

  lemma GivenNext(was: map<nat, Page>, now: map<nat, Page>, start: map<nat, Page>, ops: seq<Op>, i: nat, pg: nat)
    requires 0 < i <= |ops| && LastGiven(was, start, ops, i - 1, pg)
    requires if Puts(ops[i - 1], pg) then pg in now && now[pg] == ops[i - 1].data
             else (pg in now <==> pg in was) && (pg in now ==> now[pg] == was[pg])
    ensures LastGiven(now, start, ops, i, pg)
  {
    hide Untouched;
    forall j | 0 <= j < i && Puts(ops[j], pg) && Untouched(ops, j + 1, i, pg)
      ensures pg in now && now[pg] == ops[j].data
    {
      if j < i - 1 { UntouchedBefore(ops, j + 1, i, pg); }
    }
    if Untouched(ops, 0, i, pg) { UntouchedBefore(ops, 0, i, pg); }
  }

  /** Every page fetched shows what it was last given, or what the file held. */
  ghost predicate Shown(start: map<nat, Page>, ops: seq<Op>, answers: seq<Answer>)
    requires |answers| <= |ops|
  {
    forall i :: 0 <= i < |answers| && ops[i].Get? ==> FetchShown(start, ops, i, answers[i])
  }

  ghost predicate FetchShown(start: map<nat, Page>, ops: seq<Op>, i: nat, answer: Answer)
    requires i < |ops| && ops[i].Get?
  {
    && (forall j :: 0 <= j < i && Puts(ops[j], ops[i].pg) && Untouched(ops, j + 1, i, ops[i].pg) ==>
          answer == Content(ops[j].data))
    && (ops[i].pg in start && Untouched(ops, 0, i, ops[i].pg) ==> answer == Content(start[ops[i].pg]))
  }

  lemma AgreesShown(f: Flat, ops: seq<Op>, answers: seq<Answer>)
    requires |f.pins| == TABLE_MAX_PAGES && |answers| <= |ops| && Legal(f, ops) && Agrees(f, ops, answers)
    ensures Shown(f.content, ops, answers)
  {
    hide Step, May, Puts, Untouched, Before, Legal, LastGiven, FetchShown;
    forall i | 0 <= i < |answers| && ops[i].Get? ensures FetchShown(f.content, ops, i, answers[i]) {
      ContentGiven(f, ops, i, ops[i].pg);
      GivenShown(Before(f, ops, i).content, f.content, ops, i, answers[i]);
    }
  }

  lemma GivenShown(content: map<nat, Page>, start: map<nat, Page>, ops: seq<Op>, i: nat, answer: Answer)
    requires i < |ops| && ops[i].Get? && LastGiven(content, start, ops, i, ops[i].pg)
    requires answer.Content? && (ops[i].pg in content ==> answer.data == content[ops[i].pg])
    ensures FetchShown(start, ops, i, answer)
  {
    hide Untouched;
  }

  ghost function Abstract(p: Pager): Flat
    reads p, p.pinned
  {
    Flat(p.flat, p.pinned[..], p.unmarked)
  }

  /** Every frame is in use, and none may be evicted. */
  ghost predicate Exhausted(p: Pager)
    reads p, p.frames, p.pinned, p.lastUsed
  {
    p.numPagesInMemory >= p.capacity && forall i :: !Candidate(p.frames[..], p.pinned[..], p.lastUsed[..], i)
  }

  /** The pool has handed out at most n pages since it was opened. */
  ghost predicate Timely(p: Pager, n: nat)
    reads p, p.frames, p.lastUsed
  {
    p.Stamped() && p.timer <= n
  }

  ghost predicate LastingStamps(p: Pager)
    reads p, p.frames, p.lastUsed
  {
    StampedIn(p.frames[..], p.lastUsed[..], NO_TIME - 1)
  }

  lemma LastingTime(frames: seq<Frame?>, lastUsed: seq<nat>, timer: nat)
    requires StampedIn(frames, lastUsed, timer)
    ensures StampedIn(frames, lastUsed, NO_TIME - 1)
  {
  }

  /** One operation of the pool; `running` is false when the program gave up for want of a frame. */
  method Perform(p: Pager, op: Op, junk: Page, ghost n: nat) returns (answer: Answer, running: bool)
    requires p.Valid() && |Abstract(p).pins| == TABLE_MAX_PAGES && May(Abstract(p), op)
    modifies p, p.frames, p.lastUsed, p.isDirty, p.pinned, p.Frames()
    ensures p.Valid() && p.frames == old(p.frames) && p.lastUsed == old(p.lastUsed) && p.isDirty == old(p.isDirty)
    ensures p.pinned == old(p.pinned)
    ensures forall i :: 0 <= i < TABLE_MAX_PAGES && p.frames[i] != null ==> p.frames[i] == old(p.frames[i]) || fresh(p.frames[i])
    ensures running ==> Abstract(p) == Step(old(Abstract(p)), op)
    ensures running && op.Get? ==> answer.Content? && (op.pg in old(p.flat) ==> answer.data == old(p.flat)[op.pg])
    ensures !running ==> op.Get? && Exhausted(p) && Abstract(p) == old(Abstract(p)) && op.pg !in PinnedPages(Abstract(p))
    ensures old(Timely(p, n)) && n + 1 < NO_TIME ==> if running then Timely(p, n + 1) else LastingStamps(p)
  {
    answer, running := Nothing, true;
    match op
    case Get(pg) =>
      answer, running := PerformGet(p, pg, junk, n);
    case Put(pg, data) =>
      p.Store(pg, p.frames[pg], data);
    case Mark(pg) =>
      assert p.PageKept(pg);
      p.MarkDirty(pg);
    case Unpin(pg) =>
      p.Unpin(pg);
    case UnpinAll =>
      p.UnpinAll();
      assert p.pinned[..] == seq(TABLE_MAX_PAGES, i => 0);
    case Flush(pg) =>
      p.Flush(pg);
  }

  function PinnedPages(f: Flat): (r: set<nat>)
    ensures forall i :: i in r <==> 0 <= i < |f.pins| && f.pins[i] > 0
  {
    set i: nat | i < |f.pins| && f.pins[i] > 0
  }

  lemma SmallerSet(a: set<nat>, b: set<nat>)
    requires a <= b
    ensures |a| <= |b|
    ensures |a| < |b| ==> exists x :: x in b && x !in a
  {
    assert b == a + (b - a);
    if |a| < |b| { var x :| x in b - a; }
  }

  /** Pinned pages are resident, so there are no more of them than frames; and as long as fewer
      pages are pinned than there are frames, one can be evicted. */
  lemma PinsAndFrames(p: Pager)
    requires p.Valid()
    ensures |PinnedPages(Abstract(p))| <= p.capacity
    ensures |PinnedPages(Abstract(p))| < p.capacity && LastingStamps(p) ==> !Exhausted(p)
  {
    var pins, res := PinnedPages(Abstract(p)), ResidentIn(p.frames[..]);
    forall i | i in pins ensures i in res { assert p.pinned[i] > 0 && p.frames[i] != null; }
    SmallerSet(pins, res);
    if |pins| < p.capacity && LastingStamps(p) && p.numPagesInMemory >= p.capacity {
      var i :| i in res && i !in pins;
      assert Candidate(p.frames[..], p.pinned[..], p.lastUsed[..], i);
    }
  }

  method PerformGet(p: Pager, pg: nat, junk: Page, ghost n: nat) returns (answer: Answer, running: bool)
    requires p.Valid() && |Abstract(p).pins| == TABLE_MAX_PAGES && May(Abstract(p), Get(pg))
    modifies p, p.frames, p.lastUsed, p.isDirty, p.pinned
    ensures p.Valid() && p.frames == old(p.frames) && p.lastUsed == old(p.lastUsed) && p.isDirty == old(p.isDirty)
    ensures p.pinned == old(p.pinned)
    ensures forall i :: 0 <= i < TABLE_MAX_PAGES && p.frames[i] != null ==> p.frames[i] == old(p.frames[i]) || fresh(p.frames[i])
    ensures running ==> Abstract(p) == Step(old(Abstract(p)), Get(pg))
    ensures running ==> answer.Content? && (pg in old(p.flat) ==> answer.data == old(p.flat)[pg])
    ensures !running ==> Exhausted(p) && Abstract(p) == old(Abstract(p)) && pg !in PinnedPages(Abstract(p))
    ensures old(Timely(p, n)) && n + 1 < NO_TIME ==> if running then Timely(p, n + 1) else LastingStamps(p)
  {
    hide Candidate, ResidentIn, StampedIn;
    var frame, victim := p.GetPage(pg, junk);
    if frame == null {
      assert p.pinned[pg] == 0;
      if old(Timely(p, n)) { LastingTime(p.frames[..], p.lastUsed[..], old(p.timer)); }
      return Nothing, false;
    }
    return Content(frame.data), true;
  }

  /** A run, up to the first operation for which there is no frame. */
  method Replay(p: Pager, ops: seq<Op>, junk: seq<Page>, ghost n: nat) returns (answers: seq<Answer>, running: bool)
    requires p.Valid() && |Abstract(p).pins| == TABLE_MAX_PAGES && Legal(Abstract(p), ops) && |junk| == |ops|
    modifies p, p.frames, p.lastUsed, p.isDirty, p.pinned, p.Frames()
    ensures p.Valid() && |answers| <= |ops| && Agrees(old(Abstract(p)), ops, answers)
    ensures running ==> |answers| == |ops| && Abstract(p) == Before(old(Abstract(p)), ops, |ops|)
    ensures !running ==> |answers| < |ops| && ops[|answers|].Get? && Exhausted(p)
                         && ops[|answers|].pg !in PinnedPages(Before(old(Abstract(p)), ops, |answers|))
    ensures p.frames == old(p.frames) && p.lastUsed == old(p.lastUsed) && p.isDirty == old(p.isDirty) && p.pinned == old(p.pinned)
    ensures forall k {:trigger Before(old(Abstract(p)), ops, k)} :: 0 <= k <= |answers| ==>
              |PinnedPages(Before(old(Abstract(p)), ops, k))| <= p.capacity
    ensures !running && old(Timely(p, n)) && n + |ops| < NO_TIME ==>
              |PinnedPages(Before(old(Abstract(p)), ops, |answers|))| == p.capacity
  {
    ghost var f := Abstract(p);
    answers, running := [], true;
    hide Step, May, PinnedPages, StampedIn, Candidate, ResidentIn, Timely, LastingStamps, Exhausted;
    while |answers| < |ops|
      invariant p.Valid() && |answers| <= |ops| && Agrees(f, ops, answers)
      invariant Abstract(p) == Before(f, ops, |answers|)
      invariant forall k {:trigger Before(f, ops, k)} :: 0 <= k < |answers| ==> |PinnedPages(Before(f, ops, k))| <= p.capacity
      invariant old(Timely(p, n)) && n + |ops| < NO_TIME ==> Timely(p, n + |answers|)
      invariant p.frames == old(p.frames) && p.lastUsed == old(p.lastUsed) && p.isDirty == old(p.isDirty) && p.pinned == old(p.pinned)
      invariant forall i :: 0 <= i < TABLE_MAX_PAGES && p.frames[i] != null ==> p.frames[i] == old(p.frames[i]) || fresh(p.frames[i])
      decreases |ops| - |answers|
    {
      var i := |answers|;
      PinsAndFrames(p);
      assert May(Before(f, ops, i), ops[i]);
      assert Before(f, ops, i + 1) == Step(Before(f, ops, i), ops[i]);
      var answer, more := Perform(p, ops[i], junk[i], n + i);
      if !more {
        PinsAndFrames(p);
        return answers, false;
      }
      answers := answers + [answer];
    }
    PinsAndFrames(p);
  }

  /** From opening a file to closing it: the answers are those of the plain array, and the file
      ends up equal to it. */
  method Session(capacity: nat, disk: map<nat, Page>, length: nat, ops: seq<Op>, junk: seq<Page>)
    returns (answers: seq<Answer>, disk': map<nat, Page>, running: bool)
    requires capacity > 0 && length <= TABLE_MAX_PAGES && (forall i :: i in disk ==> i < length)
    requires var f := Flat(disk, seq(TABLE_MAX_PAGES, i => 0), {});
             Legal(f, ops) && |junk| == |ops| && Before(f, ops, |ops|).unmarked == {}
    ensures var f := Flat(disk, seq(TABLE_MAX_PAGES, i => 0), {});
            && |answers| <= |ops| && Agrees(f, ops, answers)
            && (running ==> |answers| == |ops| && disk' == Before(f, ops, |ops|).content)
            && (forall k {:trigger Before(f, ops, k)} :: 0 <= k <= |answers| ==> |PinnedPages(Before(f, ops, k))| <= capacity)
            && (!running && |ops| < NO_TIME ==> |PinnedPages(Before(f, ops, |answers|))| == capacity)
    ensures Shown(disk, ops, answers) && (running ==> forall pg :: LastGiven(disk', disk, ops, |ops|, pg))
  {
    ghost var f := Flat(disk, seq(TABLE_MAX_PAGES, i => 0), {});
    hide Step, May, Puts, Shown, LastGiven;
    var p := new Pager(capacity, disk, length);
    assert p.pinned[..] == seq(TABLE_MAX_PAGES, i => 0);
    answers, running := Replay(p, ops, junk, 0);
    if running {
      p.CloseDatabase();
    }
    disk' := p.disk;
    AgreesShown(f, ops, answers);
    if running {
      forall pg ensures LastGiven(disk', disk, ops, |ops|, pg) { ContentGiven(f, ops, |ops|, pg); }
    }
  }

  function Gets(pgs: seq<nat>): (ops: seq<Op>)
    ensures |ops| == |pgs| && forall i :: 0 <= i < |pgs| ==> ops[i] == Get(pgs[i])
  {
    seq(|pgs|, i requires 0 <= i < |pgs| => Get(pgs[i]))
  }

  /** Fetching pages pins them, and nothing else. */
  lemma {:induction false} GetsPin(f: Flat, pgs: seq<nat>, k: nat)
    requires |f.pins| == TABLE_MAX_PAGES && k <= |pgs| && Legal(f, Gets(pgs))
    ensures PinnedPages(Before(f, Gets(pgs), k)) == PinnedPages(f) + Elems(pgs[..k])
  {
    if k > 0 {
      GetsPin(f, pgs, k - 1);
      assert May(Before(f, Gets(pgs), k - 1), Gets(pgs)[k - 1]);
      assert pgs[..k] == pgs[..k - 1] + [pgs[k - 1]];
    }
  }

  lemma {:induction false} DistinctIn(pgs: seq<nat>)
    requires forall i, j :: 0 <= i < j < |pgs| ==> pgs[i] != pgs[j]
    ensures |Elems(pgs)| == |pgs|
  {
    if pgs != [] {
      var n := |pgs| - 1;
      DistinctIn(pgs[..n]);
      assert Elems(pgs) == Elems(pgs[..n]) + {pgs[n]};
    }
  }

  /** Pages whose pins stay below the limit of the counter may be fetched. */
  lemma {:induction false} GetsLegal(f: Flat, pgs: seq<nat>, k: nat)
    requires |f.pins| == TABLE_MAX_PAGES && k <= |pgs|
    requires forall i :: 0 <= i < |pgs| ==> pgs[i] < TABLE_MAX_PAGES
    requires forall x :: 0 <= x < TABLE_MAX_PAGES ==> f.pins[x] + |pgs| < NO_TIME
    ensures forall i {:trigger Before(f, Gets(pgs), i)} :: 0 <= i < k ==> May(Before(f, Gets(pgs), i), Gets(pgs)[i])
    ensures forall x :: 0 <= x < TABLE_MAX_PAGES ==> Before(f, Gets(pgs), k).pins[x] <= f.pins[x] + k
  {
    if k > 0 { GetsLegal(f, pgs, k - 1); }
  }

  /** Pages fetched one after another, as the SELECT and CREATE statements do, without an unpin: this
      goes through exactly when the pool has a frame for every page that is pinned in the end. */
  method FetchAll(p: Pager, pgs: seq<nat>, junk: seq<Page>, ghost n: nat) returns (answers: seq<Answer>, running: bool)
    requires p.Valid() && |Abstract(p).pins| == TABLE_MAX_PAGES && |junk| == |pgs| && Timely(p, n) && n + |pgs| < NO_TIME
    requires forall i :: 0 <= i < |pgs| ==> pgs[i] < TABLE_MAX_PAGES
    requires forall x :: 0 <= x < TABLE_MAX_PAGES ==> Abstract(p).pins[x] + |pgs| < NO_TIME
    modifies p, p.frames, p.lastUsed, p.isDirty, p.pinned, p.Frames()
    ensures p.Valid() && |answers| <= |pgs| && Agrees(old(Abstract(p)), Gets(pgs), answers)
    ensures running <==> |PinnedPages(old(Abstract(p))) + Elems(pgs)| <= p.capacity
    ensures running ==> PinnedPages(Abstract(p)) == PinnedPages(old(Abstract(p))) + Elems(pgs)
  {
    ghost var f := Abstract(p);
    GetsLegal(f, pgs, |pgs|);
    hide May, Step, Timely, PinnedPages, Exhausted;
    answers, running := Replay(p, Gets(pgs), junk, n);
    GetsPin(f, pgs, |answers|);
    if running {
      assert pgs[..|pgs|] == pgs;
    } else {
      NoFrameLeft(PinnedPages(f), pgs, |answers|);
    }
  }

  lemma NoFrameLeft(pins: set<nat>, pgs: seq<nat>, k: nat)
    requires k < |pgs| && pgs[k] !in pins + Elems(pgs[..k])
    ensures |pins + Elems(pgs)| > |pins + Elems(pgs[..k])|
  {
    var some := pins + Elems(pgs[..k]);
    assert |some + {pgs[k]}| == |some| + 1;
    SmallerSet(some + {pgs[k]}, pins + Elems(pgs));
  }

  /** For distinct pages none of which is pinned, their number counts. */
  lemma FreshPins(f: Flat, pgs: seq<nat>)
    requires |f.pins| == TABLE_MAX_PAGES && forall i, j :: 0 <= i < j < |pgs| ==> pgs[i] != pgs[j]
    requires forall i :: 0 <= i < |pgs| ==> pgs[i] !in PinnedPages(f)
    ensures |PinnedPages(f) + Elems(pgs)| == |PinnedPages(f)| + |pgs|
  {
    DistinctIn(pgs);
    assert PinnedPages(f) !! Elems(pgs);
  }

  /** The split of a full internal page fetches its moved children, 255 of them. */
  lemma InternalSplitTooLarge(f: Flat, moved: seq<nat>)
    requires |f.pins| == TABLE_MAX_PAGES
    requires |moved| == INTERNAL_NODE_MAX_KEYS - INTERNAL_NODE_MAX_KEYS / 2
    requires forall i, j :: 0 <= i < j < |moved| ==> moved[i] != moved[j]
    ensures |PinnedPages(f) + Elems(moved)| > MAX_PAGES_IN_MEMORY
  {
    DistinctIn(moved);
    SmallerSet(Elems(moved), PinnedPages(f) + Elems(moved));
  }
}
