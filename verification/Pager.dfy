/** The buffer pool of src/pager.c: a bounded set of page frames in front of the database file.
    Callers change pages through the frames they are handed. The ghost map `flat` is the simple
    array of pages the pool stands for: for every page whose content is determined, the content
    last given to it. */
module Paging {
  import opened Layout

  const TABLE_MAX_PAGES: nat := 1000
  const MAX_PAGES_IN_MEMORY: nat := 100
  const NO_TIME: nat := 0xFFFF_FFFF

  type Page = seq<Byte>

  function Next32(n: nat): nat { (n + 1) % 0x1_0000_0000 }

  /** The memory of one page. */
  class Frame {
    var data: Page

    constructor (data: Page)
      ensures this.data == data
    {
      this.data := data;
    }
  }

  /** A page that may be evicted. */
  predicate Candidate(frames: seq<Frame?>, pinned: seq<nat>, lastUsed: seq<nat>, i: nat) {
    i < |frames| == |pinned| == |lastUsed| && frames[i] != null && pinned[i] == 0 && lastUsed[i] < NO_TIME
  }

  /** The victim: an unpinned resident page that was used least recently; NO_TIME when there is none. */
  ghost predicate Chosen(frames: seq<Frame?>, pinned: seq<nat>, lastUsed: seq<nat>, victim: nat) {
    if victim == NO_TIME then forall i: nat :: !Candidate(frames, pinned, lastUsed, i)
    else
      && Candidate(frames, pinned, lastUsed, victim)
      && forall i: nat :: Candidate(frames, pinned, lastUsed, i) ==> lastUsed[victim] <= lastUsed[i]
  }

  /** Timestamps of resident pages are distinct and in the past; the timer has not wrapped. */
  ghost predicate StampedIn(frames: seq<Frame?>, lastUsed: seq<nat>, timer: nat) {
    && |frames| == |lastUsed| && timer < NO_TIME
    && (forall i :: 0 <= i < |frames| && frames[i] != null ==> lastUsed[i] <= timer)
    && (forall i, j :: 0 <= i < j < |frames| && frames[i] != null && frames[j] != null ==> lastUsed[i] != lastUsed[j])
  }

  /** The page that was just used gets the one largest timestamp. */
  lemma StampedNext(frames: seq<Frame?>, frames': seq<Frame?>, lastUsed: seq<nat>, timer: nat, pg: nat)
    requires StampedIn(frames, lastUsed, timer) && timer + 1 < NO_TIME && pg < |frames| == |frames'|
    requires forall i :: 0 <= i < |frames| && i != pg && frames'[i] != null ==> frames[i] != null
    ensures StampedIn(frames', lastUsed[pg := timer + 1], timer + 1)
  {
  }

  /** With distinct timestamps the victim is the one oldest of the unpinned pages. */
  lemma VictimUnique(frames: seq<Frame?>, pinned: seq<nat>, lastUsed: seq<nat>, timer: nat, victim: nat, i: nat)
    requires StampedIn(frames, lastUsed, timer) && |pinned| == |frames|
    requires Chosen(frames, pinned, lastUsed, victim)
    requires i < |frames| && frames[i] != null && pinned[i] == 0
    ensures victim < |frames| && frames[victim] != null && pinned[victim] == 0
    ensures i != victim ==> lastUsed[victim] < lastUsed[i]
  {
    assert Candidate(frames, pinned, lastUsed, i);
  }

  function ResidentIn(frames: seq<Frame?>): (r: set<nat>)
    ensures forall i :: i in r <==> 0 <= i < |frames| && frames[i] != null
  {
    set i: nat | i < |frames| && frames[i] != null
  }

  lemma ResidentDrop(frames: seq<Frame?>, i: nat)
    requires i < |frames| && frames[i] != null
    ensures |ResidentIn(frames[i := null])| == |ResidentIn(frames)| - 1
  {
    assert ResidentIn(frames[i := null]) == ResidentIn(frames) - {i};
  }

  lemma ResidentAdd(frames: seq<Frame?>, i: nat, f: Frame)
    requires i < |frames| && frames[i] == null
    ensures |ResidentIn(frames[i := f])| == |ResidentIn(frames)| + 1
  {
    assert ResidentIn(frames[i := f]) == ResidentIn(frames) + {i};
  }

  class Pager {
    const capacity: nat
    var disk: map<nat, Page>
    var frames: array<Frame?>
    var lastUsed: array<nat>
    var isDirty: array<bool>
    var pinned: array<nat>
    var numPages: nat
    var numPagesInMemory: nat
    var timer: nat
    ghost var flat: map<nat, Page>
    /** Pages changed through their frame and not yet marked dirty. */
    ghost var unmarked: set<nat>

    ghost predicate Shaped()
      reads this`frames, this`lastUsed, this`isDirty, this`pinned
    {
      && frames.Length == lastUsed.Length == isDirty.Length == pinned.Length == TABLE_MAX_PAGES
      && lastUsed != pinned
    }

    ghost function Frames(): set<Frame>
      reads this`frames, frames
    {
      set i: nat | i < frames.Length && frames[i] != null :: frames[i]
    }

    /** Accounting: the number of frames in use, and where they may be. */
    ghost predicate Accounted()
      reads this`frames, this`lastUsed, this`isDirty, this`pinned, this`numPages, this`numPagesInMemory
      reads frames, lastUsed, pinned
      requires Shaped()
    {
      && numPagesInMemory == |ResidentIn(frames[..])| <= capacity && 0 < capacity
      && numPages <= TABLE_MAX_PAGES
      && (forall i :: 0 <= i < TABLE_MAX_PAGES && frames[i] != null ==> i < numPages)
      && (forall i, j :: 0 <= i < j < TABLE_MAX_PAGES && frames[i] != null && frames[j] != null ==> frames[i] != frames[j])
      && (forall i :: 0 <= i < TABLE_MAX_PAGES ==> lastUsed[i] <= NO_TIME)
      && (forall i :: 0 <= i < TABLE_MAX_PAGES && pinned[i] > 0 ==> frames[i] != null)
    }

    /** Page i: resident frames hold its content, and so does the disk unless it is dirty. */
    ghost predicate PageKept(i: nat)
      reads this`frames, this`lastUsed, this`isDirty, this`pinned, this`flat, this`unmarked, this`disk, this`numPages
      reads frames, isDirty, pinned, Frames()
      requires Shaped() && i < TABLE_MAX_PAGES
    {
      && (i in unmarked ==> frames[i] != null && pinned[i] > 0 && i in flat)
      && (i in flat ==> i < numPages)
      && (i in flat && frames[i] != null ==> frames[i].data == flat[i])
      && (i in flat && (frames[i] == null || (!isDirty[i] && i !in unmarked)) ==> i in disk && disk[i] == flat[i])
      && (frames[i] != null && isDirty[i] ==> i in flat)
      && (i in disk ==> i in flat)
    }

    ghost predicate Kept()
      reads this`frames, this`lastUsed, this`isDirty, this`pinned, this`flat, this`unmarked, this`disk, this`numPages
      reads frames, isDirty, pinned, Frames()
    {
      && Shaped()
      && (forall i {:trigger PageKept(i)} :: 0 <= i < TABLE_MAX_PAGES ==> PageKept(i))
      && (forall i :: i in flat ==> i < TABLE_MAX_PAGES) && (forall i :: i in unmarked ==> i < TABLE_MAX_PAGES)
      && (forall i :: i in disk ==> i < TABLE_MAX_PAGES)
    }

    ghost predicate Valid()
      reads this, frames, lastUsed, isDirty, pinned, Frames()
    {
      Kept() && Accounted()
    }

    ghost predicate Stamped()
      reads this`frames, this`lastUsed, this`timer, frames, lastUsed
    {
      StampedIn(frames[..], lastUsed[..], timer)
    }

    /** pager_open on a file whose readable pages are `disk`, all below `length`. */
    constructor (capacity: nat, disk: map<nat, Page>, length: nat)
      requires capacity > 0 && length <= TABLE_MAX_PAGES && forall i :: i in disk ==> i < length
      ensures Valid() && Stamped() && fresh(frames) && fresh(lastUsed) && fresh(isDirty) && fresh(pinned)
      ensures flat == disk == this.disk && unmarked == {} && numPages == length && this.capacity == capacity
      ensures timer == 0 && ResidentIn(frames[..]) == {} && forall i :: 0 <= i < TABLE_MAX_PAGES ==> pinned[i] == 0
    {
      this.capacity, this.disk, this.numPages := capacity, disk, length;
      this.numPagesInMemory, this.timer, this.flat, this.unmarked := 0, 0, disk, {};
      frames := new Frame?[TABLE_MAX_PAGES](i => null);
      lastUsed := new nat[TABLE_MAX_PAGES](i => 0);
      isDirty := new bool[TABLE_MAX_PAGES](i => false);
      pinned := new nat[TABLE_MAX_PAGES](i => 0);
      new;
      assert forall i :: 0 <= i < TABLE_MAX_PAGES ==> frames[i] == null && pinned[i] == 0 && lastUsed[i] == 0;
      assert ResidentIn(frames[..]) == {};
      forall i | 0 <= i < TABLE_MAX_PAGES ensures PageKept(i) {}
    }

    /** pager_flush: a dirty resident page is written to the file. */
    method Flush(pg: nat)
      requires Kept() && pg < TABLE_MAX_PAGES
      modifies this`disk, isDirty
      ensures Kept() && (old(Accounted()) ==> Accounted())
      ensures disk == if frames[pg] != null && old(isDirty[pg]) then old(disk)[pg := frames[pg].data] else old(disk)
      ensures isDirty[..] == if frames[pg] != null && old(isDirty[pg]) then old(isDirty[..])[pg := false] else old(isDirty[..])
    {
      assert PageKept(pg);
      if frames[pg] != null && isDirty[pg] {
        disk := disk[pg := frames[pg].data];
        isDirty[pg] := false;
        forall i | 0 <= i < TABLE_MAX_PAGES ensures PageKept(i) { assert old(PageKept(i)); }
      }
    }

    /** The scan for an unpinned page that was least recently used. */
    method FindVictim() returns (victim: nat)
      requires Valid()
      ensures Valid() && (Stamped() <==> old(Stamped()))
      ensures Chosen(frames[..], pinned[..], lastUsed[..], victim)
    {
      ghost var f, p, u := frames[..], pinned[..], lastUsed[..];
      victim := NO_TIME;
      var minTime := NO_TIME;
      var i := 0;
      while i < TABLE_MAX_PAGES
        invariant i <= TABLE_MAX_PAGES
        invariant victim == NO_TIME ==> minTime == NO_TIME && forall j :: 0 <= j < i ==> !Candidate(f, p, u, j)
        invariant victim != NO_TIME ==> victim < i && Candidate(f, p, u, victim) && minTime == u[victim]
        invariant forall j :: 0 <= j < i && Candidate(f, p, u, j) ==> minTime <= u[j]
      {
        if frames[i] != null && pinned[i] == 0 && lastUsed[i] < minTime {
          minTime := lastUsed[i];
          victim := i;
        }
        i := i + 1;
      }
    }

    /** What the malloc'd memory of a page holds after the read from the file, if there is one. */
    function Loaded(pg: nat, junk: Page): Page
      reads this
    {
      if pg < numPages && pg in disk then disk[pg] else junk
    }

    /** Make room for one more page. */
    method Evict() returns (victim: nat)
      requires Valid() && numPagesInMemory >= capacity
      modifies this`disk, this`numPagesInMemory, isDirty, frames
      ensures Valid() && (old(Stamped()) ==> Stamped())
      ensures Chosen(old(frames[..]), old(pinned[..]), old(lastUsed[..]), victim)
      ensures victim == NO_TIME ==> frames[..] == old(frames[..]) && disk == old(disk) && numPagesInMemory == old(numPagesInMemory)
      ensures victim != NO_TIME ==> frames[..] == old(frames[..])[victim := null] && numPagesInMemory < capacity
      ensures victim != NO_TIME ==>
                disk == if old(isDirty[victim]) then old(disk)[victim := old(frames[victim].data)] else old(disk)
    {
      victim := FindVictim();
      if victim == NO_TIME { return; }
      assert PageKept(victim);
      Flush(victim);
      ResidentDrop(frames[..], victim);
      label before:
      frames[victim] := null;
      numPagesInMemory := numPagesInMemory - 1;
      assert frames[..] == old(frames[..])[victim := null];
      forall i | 0 <= i < TABLE_MAX_PAGES ensures PageKept(i) { assert old@before(PageKept(i)); }
    }

    /** get_page: the frame of a page, pinned once more. The null result stands for the exit with
        "buffer pool full and all pages are pinned". `junk` is what fresh memory happens to hold. */
    method GetPage(pg: nat, junk: Page) returns (frame: Frame?, ghost victim: nat)
      requires Valid() && pg < TABLE_MAX_PAGES && pinned[pg] < NO_TIME
      modifies this`disk, this`numPages, this`numPagesInMemory, this`timer, frames, lastUsed, isDirty, pinned
      ensures Valid() && timer == Next32(old(timer))
      ensures old(Stamped()) && old(timer) + 1 < NO_TIME && frame != null ==> Stamped()
      ensures frame == null <==> && old(frames[pg]) == null && old(numPagesInMemory) >= capacity
                                 && forall i :: !Candidate(old(frames[..]), old(pinned[..]), old(lastUsed[..]), i)
      ensures frame == null ==> && frames[..] == old(frames[..]) && pinned[..] == old(pinned[..])
                                && lastUsed[..] == old(lastUsed[..]) && disk == old(disk) && numPages == old(numPages)
      ensures forall i :: 0 <= i < TABLE_MAX_PAGES && frames[i] != null ==> frames[i] == old(frames[i]) || fresh(frames[i])
      ensures frame != null ==> frames[pg] == frame && (pg in flat ==> frame.data == flat[pg])
      ensures frame != null ==> pinned[..] == old(pinned[..])[pg := old(pinned[pg]) + 1]
      ensures frame != null ==> lastUsed[..] == old(lastUsed[..])[pg := timer]
      ensures frame != null ==> numPages == if pg < old(numPages) then old(numPages) else pg + 1
      ensures forall i :: 0 <= i < TABLE_MAX_PAGES && old(pinned[i]) > 0 ==> frames[i] == old(frames[i])
      ensures old(frames[pg]) != null ==> frames[..] == old(frames[..]) && disk == old(disk)
      ensures old(frames[pg]) == null && old(numPagesInMemory) < capacity ==>
                fresh(frame) && frames[..] == old(frames[..])[pg := frame] && disk == old(disk)
      ensures old(frames[pg]) == null && old(numPagesInMemory) >= capacity ==>
                Chosen(old(frames[..]), old(pinned[..]), old(lastUsed[..]), victim)
      ensures old(frames[pg]) == null && old(numPagesInMemory) >= capacity && frame != null ==>
                fresh(frame) && victim < TABLE_MAX_PAGES && frames[..] == old(frames[..])[victim := null][pg := frame]
    {
      hide StampedIn, Candidate, Chosen, ResidentIn;
      timer := Next32(timer);
      forall i | 0 <= i < TABLE_MAX_PAGES ensures PageKept(i) { assert old(PageKept(i)); }
      var ok;
      ok, victim := BringIn(pg, junk);
      if !ok { return null, victim; }
      Stamp(pg);
      assert PageKept(pg);
      frame := frames[pg];
      if old(Stamped()) && old(timer) + 1 < NO_TIME {
        StampedNext(old(frames[..]), frames[..], old(lastUsed[..]), old(timer), pg);
      }
    }

    /** The page is in memory afterwards, unless there is no room. */
    method BringIn(pg: nat, junk: Page) returns (ok: bool, ghost victim: nat)
      requires Valid() && pg < TABLE_MAX_PAGES
      modifies this`disk, this`numPages, this`numPagesInMemory, frames, isDirty
      ensures Valid()
      ensures !ok <==> && old(frames[pg]) == null && old(numPagesInMemory) >= capacity
                       && forall i :: !Candidate(old(frames[..]), old(pinned[..]), old(lastUsed[..]), i)
      ensures !ok ==> frames[..] == old(frames[..]) && disk == old(disk) && numPages == old(numPages)
      ensures ok ==> frames[pg] != null && numPages == if pg < old(numPages) then old(numPages) else pg + 1
      ensures old(frames[pg]) != null ==> frames[..] == old(frames[..]) && disk == old(disk)
      ensures old(frames[pg]) == null && old(numPagesInMemory) < capacity ==>
                fresh(frames[pg]) && frames[..] == old(frames[..])[pg := frames[pg]] && disk == old(disk)
      ensures old(frames[pg]) == null && old(numPagesInMemory) >= capacity ==>
                Chosen(old(frames[..]), old(pinned[..]), old(lastUsed[..]), victim)
      ensures old(frames[pg]) == null && old(numPagesInMemory) >= capacity && ok ==>
                fresh(frames[pg]) && victim < TABLE_MAX_PAGES && frames[..] == old(frames[..])[victim := null][pg := frames[pg]]
    {
      victim := NO_TIME;
      if frames[pg] != null {
        assert PageKept(pg);
        return true, victim;
      }
      if numPagesInMemory >= capacity {
        var evicted := Evict();
        victim := evicted;
        if evicted == NO_TIME { return false, victim; }
      }
      Load(pg, junk);
      ok := true;
    }

    /** The page was used just now and is pinned once more. */
    method Stamp(pg: nat)
      requires Valid() && pg < TABLE_MAX_PAGES && frames[pg] != null && timer <= NO_TIME && pinned[pg] < NO_TIME
      modifies lastUsed, pinned
      ensures Valid() && lastUsed[..] == old(lastUsed[..])[pg := timer] && pinned[..] == old(pinned[..])[pg := old(pinned[pg]) + 1]
    {
      lastUsed[pg] := timer;
      pinned[pg] := Next32(pinned[pg]);
      forall i | 0 <= i < TABLE_MAX_PAGES ensures PageKept(i) { assert old(PageKept(i)); }
    }

    /** A frame is allocated and filled, and joins the pool. */
    method Load(pg: nat, junk: Page)
      requires Valid() && pg < TABLE_MAX_PAGES && frames[pg] == null && numPagesInMemory < capacity
      modifies this`numPages, this`numPagesInMemory, frames, isDirty
      ensures Valid() && fresh(frames[pg])
      ensures frames[..] == old(frames[..])[pg := frames[pg]] && isDirty[..] == old(isDirty[..])[pg := false]
      ensures numPages == if pg < old(numPages) then old(numPages) else pg + 1
    {
      assert PageKept(pg);
      var page := new Frame(Loaded(pg, junk));
      ResidentAdd(frames[..], pg, page);
      frames[pg] := page;
      isDirty[pg] := false;
      numPagesInMemory := numPagesInMemory + 1;
      if pg >= numPages {
        numPages := pg + 1;
      }
      assert frames[..] == old(frames[..])[pg := page];
      forall i | 0 <= i < TABLE_MAX_PAGES ensures PageKept(i) { assert old(PageKept(i)); }
    }

    /** A caller changes a page through the frame it was handed. */
    method Store(pg: nat, frame: Frame, data: Page)
      requires Valid() && pg < TABLE_MAX_PAGES && frames[pg] == frame && pinned[pg] > 0
      modifies frame, this`flat, this`unmarked
      ensures Valid() && flat == old(flat)[pg := data] && unmarked == old(unmarked) + {pg} && frame.data == data
    {
      assert PageKept(pg);
      frame.data := data;
      flat := flat[pg := data];
      unmarked := unmarked + {pg};
      forall i | 0 <= i < TABLE_MAX_PAGES ensures PageKept(i) { assert old(PageKept(i)); }
    }

    /** mark_page_dirty. From now on the content of the page counts. */
    method MarkDirty(pg: nat)
      requires Valid() && pg < TABLE_MAX_PAGES
      modifies isDirty, this`flat, this`unmarked
      ensures Valid() && unmarked == old(unmarked) - {pg} && isDirty[..] == old(isDirty[..])[pg := true]
      ensures flat == if frames[pg] != null then old(flat)[pg := frames[pg].data] else old(flat)
    {
      assert PageKept(pg);
      isDirty[pg] := true;
      if frames[pg] != null {
        flat := flat[pg := frames[pg].data];
      }
      unmarked := unmarked - {pg};
      forall i | 0 <= i < TABLE_MAX_PAGES ensures PageKept(i) { assert old(PageKept(i)); }
      assert old(flat).Keys <= flat.Keys;
    }

    /** unpin_page */
    method Unpin(pg: nat)
      requires Valid() && pg < TABLE_MAX_PAGES && pg !in unmarked
      modifies pinned
      ensures Valid() && pinned[..] == old(pinned[..])[pg := if old(pinned[pg]) > 0 then old(pinned[pg]) - 1 else 0]
    {
      if pinned[pg] > 0 {
        pinned[pg] := pinned[pg] - 1;
      }
      forall i | 0 <= i < TABLE_MAX_PAGES ensures PageKept(i) { assert old(PageKept(i)); }
    }

    /** unpin_page_all */
    method UnpinAll()
      requires Valid() && unmarked == {}
      modifies pinned
      ensures Valid() && forall i :: 0 <= i < TABLE_MAX_PAGES ==> pinned[i] == 0
    {
      var i := 0;
      while i < TABLE_MAX_PAGES
        invariant i <= TABLE_MAX_PAGES && forall j :: 0 <= j < i ==> pinned[j] == 0
      {
        pinned[i] := 0;
        i := i + 1;
      }
      forall i | 0 <= i < TABLE_MAX_PAGES ensures PageKept(i) { assert old(PageKept(i)); }
    }

    /** pager_close leaves on the disk the last content given to every page, and nothing else. */
    method Close()
      requires Valid() && unmarked == {}
      modifies this`disk, isDirty, frames
      ensures disk == flat
    {
      var i := 0;
      while i < TABLE_MAX_PAGES
        invariant i <= TABLE_MAX_PAGES && Kept() && forall j :: 0 <= j < i ==> frames[j] == null
      {
        if frames[i] != null {
          Flush(i);
          label before:
          assert PageKept(i);
          frames[i] := null;
          forall j | 0 <= j < TABLE_MAX_PAGES ensures PageKept(j) { assert old@before(PageKept(j)); }
        }
        i := i + 1;
      }
      forall k | k in flat ensures k in disk && disk[k] == flat[k] { assert PageKept(k); }
      forall k | k in disk ensures k in flat { assert k < TABLE_MAX_PAGES ==> PageKept(k); }
    }

    /** The flushing of db_close goes only over the pages of the file; that is enough. */
    method CloseDatabase()
      requires Valid() && unmarked == {}
      modifies this`disk, isDirty
      ensures disk == flat
    {
      var i := 0;
      while i < numPages
        invariant i <= numPages && Valid() && forall j :: 0 <= j < i ==> frames[j] == null || !isDirty[j]
      {
        Flush(i);
        i := i + 1;
      }
      forall k | k in flat ensures k in disk && disk[k] == flat[k] { assert PageKept(k); }
      forall k | k in disk ensures k in flat { assert k < TABLE_MAX_PAGES ==> PageKept(k); }
    }
  }
}
