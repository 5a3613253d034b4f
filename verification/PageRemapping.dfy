/** What moving a run of pages to another place does to an address space. */
module PageRemapping {
  import opened Basics
  import opened PageTableShape
  import opened PageCounts
  import opened PageSpace
  import opened PageMapping
  import opened PageGrowth
  import opened PageUnmapping

  /** Move `count` pages from `from` on to `start` on, with new flags. */
  datatype Move = Move(start: nat, from: nat, count: nat, flags: nat) {
    /** Where the page moved to `v` comes from. */
    function Source(v: int): nat {
      if start <= v then from + (v - start) else 0
    }
  }

  /** The frame that page `v` had. */
  ghost function FrameAt(pages: map<nat, Entry>, v: nat): Option<nat> {
    if v in pages then Some(pages[v].frame) else None
  }

  /** The entry that page `v` gets from the first `k` pages moved. */
  ghost function Arrival(pages: map<nat, Entry>, m: Move, k: nat, v: int): Entry {
    if m.start <= v < m.start + k && m.Source(v) in pages then Entry(pages[m.Source(v)].frame, m.flags) else UNUSED
  }

  /** The new mappings of the first `k` pages moved: page start + i gets the frame from + i had. */
  ghost function Moved(pages: map<nat, Entry>, m: Move, k: nat): map<nat, Entry> {
    map v: nat | m.start <= v < m.start + k && m.Source(v) in pages :: Arrival(pages, m, k, v)
  }

  /** The old range gone and the first `k` pages of it back in their new place. */
  ghost function Relocated(pages: map<nat, Entry>, m: Move, k: nat): map<nat, Entry> {
    Without(pages, m.from, m.from + m.count) + Moved(pages, m, k)
  }

  /** Beyond `ext0`, one reference is held for each frame in `pending`, and none to a frame managed since. */
  ghost predicate Owing(ext0: Counts, ext: Counts, pending: multiset<Option<nat>>) {
    && (forall f | f in ext0 :: f in ext && ext[f] == ext0[f] + pending[Some(f)])
    && (forall f | f in ext && f !in ext0 :: ext[f] == 0)
  }

  /** The frames of the pages of [from, end), one for each page. */
  ghost function Owed(pages: map<nat, Entry>, from: nat, end: nat): multiset<Option<nat>>
    decreases end - from
  {
    if from >= end then multiset{} else multiset{FrameAt(pages, from)} + Owed(pages, from + 1, end)
  }

  /** The frames read off the old range, page by page. */
  ghost predicate Gathered(pages: map<nat, Entry>, m: Move, frames: seq<Option<nat>>) {
    forall i | 0 <= i < |frames| :: frames[i] == FrameAt(pages, m.from + i)
  }

  lemma OwingMore(ext0: Counts, ext: Counts, frames: seq<Option<nat>>, f: nat)
    requires Owing(ext0, ext, multiset(frames)) && (f in ext ==> f in ext0)
    ensures Owing(ext0, Inc(ext, f), multiset(frames + [Some(f)]))
  {
  }

  lemma OwingKept(ext0: Counts, ext: Counts, ext': Counts, pending: multiset<Option<nat>>)
    requires Owing(ext0, ext, pending) && SameHolders(ext, ext')
    ensures Owing(ext0, ext', pending)
  {
  }

  lemma OwingNone(ext0: Counts, ext: Counts, frames: seq<Option<nat>>)
    requires Owing(ext0, ext, multiset(frames))
    ensures Owing(ext0, ext, multiset(frames + [None]))
  {
  }

  /** Paying back what is owed for the first of the frames left. */
  lemma OwingLess(ext0: Counts, ext: Counts, frames: seq<Option<nat>>, i: nat)
    requires i < |frames| && Owing(ext0, ext, multiset(frames[i..]))
    ensures frames[i].None? ==> Owing(ext0, ext, multiset(frames[i + 1..]))
    ensures frames[i].Some? ==> Owing(ext0, Dec(ext, frames[i].value), multiset(frames[i + 1..]))
    ensures frames[i].Some? && frames[i].value in ext0 ==> frames[i].value in ext && ext[frames[i].value] > 0
  {
    assert frames[i..] == [frames[i]] + frames[i + 1..];
  }

  lemma FrameNotPooled(s: Space, v: nat)
    requires Inv(s) && v in View(s)
    ensures View(s)[v].frame !in s.pool
  {
    Unfold(s);
  }

  lemma SameManaged(s: Space)
    requires Inv(s)
    ensures s.ext.Keys == s.refs.Keys
  {
    Unfold(s);
  }

  lemma MoveNone(pages: map<nat, Entry>, m: Move)
    ensures Relocated(pages, m, 0) == Without(pages, m.from, m.from + m.count)
  {
    assert Moved(pages, m, 0) == map[];
  }

  lemma MoveStep(pages: map<nat, Entry>, m: Move, k: nat)
    requires k < m.count
    ensures Relocated(pages, m, k + 1) ==
            if m.from + k in pages
            then Relocated(pages, m, k)[m.start + k := Entry(pages[m.from + k].frame, m.flags)]
            else Relocated(pages, m, k)
  {
    var v := m.start + k;
    assert m.Source(v) == m.from + k;
    assert Moved(pages, m, k + 1) ==
           if m.from + k in pages then Moved(pages, m, k)[v := Entry(pages[m.from + k].frame, m.flags)]
           else Moved(pages, m, k);
  }

  lemma WithoutMore(pages: map<nat, Entry>, from: nat, i: nat)
    ensures Without(Without(pages, from, from + i), from + i, from + i + 1) == Without(pages, from, from + i + 1)
    ensures from + i !in pages ==> Without(pages, from, from + i + 1) == Without(pages, from, from + i)
  {
  }

  /** The parts of `GatherDone` and `PlaceDone`; see `Unit` in Basics. */
  datatype Side = Ledger | Layout

  ghost predicate GatheredIn(side: Side, s0: Space, s: Space, m: Move, frames: seq<Option<nat>>) {
    && (side.Ledger? ==>
          && Inv(s) && s.pool == s0.pool && s.refs.Keys == s0.refs.Keys && s.lent <= s0.lent
          && Owing(s0.ext, s.ext, multiset(frames))
          && (FreeListSafe(s0.refs, s0.freePages) ==> FreeListSafe(s.refs, s.freePages)))
    && (side.Layout? ==>
          && View(s) == Without(View(s0), m.from, m.from + |frames|) && Gathered(View(s0), m, frames)
          && (Trimmed(s0) ==> Trimmed(s)))
  }

  /** The first |frames| pages of the old range are unmapped and their frames noted and referenced. */
  ghost predicate GatherDone(s0: Space, s: Space, m: Move, frames: seq<Option<nat>>) {
    forall side: Side :: GatheredIn(side, s0, s, m, frames)
  }

  lemma GatherInv(s0: Space, s: Space, m: Move, frames: seq<Option<nat>>)
    requires GatherDone(s0, s, m, frames)
    ensures Inv(s)
  {
    assert GatheredIn(Ledger, s0, s, m, frames);
  }

  lemma GatherStart(s: Space, m: Move)
    requires Inv(s)
    ensures GatherDone(s, s, m, [])
  {
    assert Without(View(s), m.from, m.from) == View(s);
  }

  lemma GatherMiss(s0: Space, s: Space, m: Move, frames: seq<Option<nat>>)
    requires GatherDone(s0, s, m, frames) && m.from + |frames| !in View(s)
    ensures GatherDone(s0, s, m, frames + [None])
  {
    GatherMissLedger(s0, s, m, frames);
    assert GatheredIn(Layout, s0, s, m, frames);
    LayoutStep(View(s0), View(s), m, frames);
  }

  lemma GatherMissLedger(s0: Space, s: Space, m: Move, frames: seq<Option<nat>>)
    requires GatherDone(s0, s, m, frames)
    ensures GatheredIn(Ledger, s0, s, m, frames + [None])
  {
    assert GatheredIn(Ledger, s0, s, m, frames);
    OwingNone(s0.ext, s.ext, frames);
  }

  /** Reading the next page of the old range, and unmapping it if it was mapped. */
  lemma LayoutStep(pages0: map<nat, Entry>, pages: map<nat, Entry>, m: Move, frames: seq<Option<nat>>)
    requires pages == Without(pages0, m.from, m.from + |frames|) && Gathered(pages0, m, frames)
    ensures Gathered(pages0, m, frames + [FrameAt(pages, m.from + |frames|)])
    ensures Without(pages, m.from + |frames|, m.from + |frames| + 1) == Without(pages0, m.from, m.from + |frames| + 1)
    ensures m.from + |frames| !in pages ==> pages == Without(pages0, m.from, m.from + |frames| + 1)
  {
    WithoutMore(pages0, m.from, |frames|);
  }

  /** Page `v` is unmapped and one reference to its frame taken. */
  ghost predicate Taken(s: Space, s': Space, v: nat)
    requires v in View(s)
  {
    var s1 := Referenced(s, View(s)[v].frame);
    Inv(s') && Shrunk(s1, s') && View(s') == Without(View(s1), v, v + 1) && (Trimmed(s1) ==> Trimmed(s'))
  }

  lemma GatherHit(s0: Space, s: Space, s': Space, m: Move, frames: seq<Option<nat>>)
    requires Inv(s0) && GatherDone(s0, s, m, frames) && m.from + |frames| in View(s)
    requires Taken(s, s', m.from + |frames|)
    ensures GatherDone(s0, s', m, frames + [Some(View(s)[m.from + |frames|].frame)])
  {
    GatherHitLedger(s0, s, s', m, frames);
    GatherHitLayout(s0, s, s', m, frames);
  }

  lemma GatherHitLedger(s0: Space, s: Space, s': Space, m: Move, frames: seq<Option<nat>>)
    requires Inv(s0) && GatherDone(s0, s, m, frames) && m.from + |frames| in View(s)
    requires Inv(s') && Shrunk(Referenced(s, View(s)[m.from + |frames|].frame), s')
    ensures GatheredIn(Ledger, s0, s', m, frames + [Some(View(s)[m.from + |frames|].frame)])
  {
    var v := m.from + |frames|;
    assert GatheredIn(Ledger, s0, s, m, frames);
    SameManaged(s0);
    SameManaged(s);
    OwingMore(s0.ext, s.ext, frames, View(s)[v].frame);
    NamedNotFree(s, v);
    ReferencedKeeps(s, View(s)[v].frame);
  }

  lemma GatherHitLayout(s0: Space, s: Space, s': Space, m: Move, frames: seq<Option<nat>>)
    requires GatherDone(s0, s, m, frames) && m.from + |frames| in View(s)
    requires var v := m.from + |frames|; View(s') == Without(View(s), v, v + 1)
    requires Trimmed(Referenced(s, View(s)[m.from + |frames|].frame)) ==> Trimmed(s')
    ensures GatheredIn(Layout, s0, s', m, frames + [Some(View(s)[m.from + |frames|].frame)])
  {
    assert GatheredIn(Layout, s0, s, m, frames);
    LayoutStep(View(s0), View(s), m, frames);
    if Trimmed(s) {
      SameTables(s, View(s)[m.from + |frames|].frame);
    }
  }

  lemma SameTables(s: Space, f: nat)
    requires Trimmed(s)
    ensures Trimmed(Referenced(s, f))
  {
    var s1 := Referenced(s, f);
    forall n | n in s1.dir && n != ROOT ensures Busy(s1, n) {
      TrimmedBusy(s, n);
      assert Busy(s, n);
    }
  }

  ghost predicate PlacedIn(side: Side, s0: Space, s: Space, m: Move, frames: seq<Option<nat>>, k: nat)
    requires k <= |frames|
  {
    && (side.Ledger? ==>
          && Inv(s) && FromPool(s0, s) && s.lent <= s0.lent && Owing(s0.ext, s.ext, multiset(frames[k..]))
          && (FreeListSafe(s0.refs, s0.freePages) ==> FreeListSafe(s.refs, s.freePages)))
    && (side.Layout? ==> View(s) == Relocated(View(s0), m, k))
  }

  /** The first `k` of the frames gathered are back in the tree and owe nothing any more. */
  ghost predicate PlaceDone(s0: Space, s: Space, m: Move, frames: seq<Option<nat>>, k: nat)
    requires k <= |frames|
  {
    forall side: Side :: PlacedIn(side, s0, s, m, frames, k)
  }

  lemma PlaceInv(s0: Space, s: Space, m: Move, frames: seq<Option<nat>>, k: nat)
    requires k <= |frames| && PlaceDone(s0, s, m, frames, k)
    ensures Inv(s)
  {
    assert PlacedIn(Ledger, s0, s, m, frames, k);
  }

  lemma PlaceStart(s0: Space, s: Space, m: Move, frames: seq<Option<nat>>)
    requires |frames| == m.count && GatherDone(s0, s, m, frames)
    ensures PlaceDone(s0, s, m, frames, 0) && Gathered(View(s0), m, frames)
    ensures Trimmed(s0) ==> Trimmed(s)
  {
    PlaceStartLedger(s0, s, m, frames);
    assert GatheredIn(Layout, s0, s, m, frames);
    MoveNone(View(s0), m);
  }

  lemma PlaceStartLedger(s0: Space, s: Space, m: Move, frames: seq<Option<nat>>)
    requires GatherDone(s0, s, m, frames)
    ensures PlacedIn(Ledger, s0, s, m, frames, 0)
  {
    assert GatheredIn(Ledger, s0, s, m, frames);
    assert frames[0..] == frames;
  }

  lemma PlaceMiss(s0: Space, s: Space, m: Move, frames: seq<Option<nat>>, k: nat)
    requires k < |frames| == m.count && PlaceDone(s0, s, m, frames, k)
    requires Gathered(View(s0), m, frames) && frames[k].None?
    ensures PlaceDone(s0, s, m, frames, k + 1)
  {
    PlaceMissLedger(s0, s, m, frames, k);
    PlaceMissLayout(s0, s, m, frames, k);
  }

  lemma PlaceMissLayout(s0: Space, s: Space, m: Move, frames: seq<Option<nat>>, k: nat)
    requires k < |frames| == m.count && PlaceDone(s0, s, m, frames, k)
    requires Gathered(View(s0), m, frames) && frames[k].None?
    ensures PlacedIn(Layout, s0, s, m, frames, k + 1)
  {
    assert PlacedIn(Layout, s0, s, m, frames, k);
    assert frames[k] == FrameAt(View(s0), m.from + k);
    MoveStep(View(s0), m, k);
  }

  lemma PlaceMissLedger(s0: Space, s: Space, m: Move, frames: seq<Option<nat>>, k: nat)
    requires k < |frames| && PlaceDone(s0, s, m, frames, k) && frames[k].None?
    ensures PlacedIn(Ledger, s0, s, m, frames, k + 1)
  {
    assert PlacedIn(Ledger, s0, s, m, frames, k);
    OwingLess(s0.ext, s.ext, frames, k);
  }

  /** A frame still owed for is in nobody's pool, referenced, and on no free list. */
  lemma PlaceReady(s0: Space, s: Space, m: Move, frames: seq<Option<nat>>, k: nat)
    requires k < |frames| == m.count && Inv(s0) && PlaceDone(s0, s, m, frames, k)
    requires Gathered(View(s0), m, frames) && frames[k].Some?
    ensures var f := frames[k].value;
            && Inv(s) && f !in s.pool && f !in s0.pool
            && (f in s.refs ==> f in s.ext && s.ext[f] > 0)
            && (FreeListSafe(s.refs, s.freePages) ==> f !in s.freePages)
  {
    var f := frames[k].value;
    assert PlacedIn(Ledger, s0, s, m, frames, k);
    assert frames[k] == FrameAt(View(s0), m.from + k);
    FrameNotPooled(s0, m.from + k);
    SameManaged(s0);
    SameManaged(s);
    OwingLess(s0.ext, s.ext, frames, k);
    if f in s.refs {
      HolderCounts(s, f);
    }
  }

  /** Mapping the page at its new place and dropping the reference held for it. */
  lemma PlaceHit(s0: Space, s: Space, s1: Space, m: Move, frames: seq<Option<nat>>, k: nat, job: Job, res: bool)
    requires k < |frames| == m.count && Inv(s0) && PlaceDone(s0, s, m, frames, k)
    requires Gathered(View(s0), m, frames) && frames[k].Some?
    requires job == Job(m.start + k, m.start + k + 1, frames[k].value, m.flags, false) && Done(s, s1, job, job.end, res)
    ensures Inv(s1) && (frames[k].value in s1.ext ==> s1.ext[frames[k].value] > 0)
    ensures PlaceDone(s0, Dereferenced(s1, frames[k].value), m, frames, k + 1)
  {
    PlaceInv(s0, s, m, frames, k);
    OneDone(s, s1, job, res);
    PlaceHitLedger(s0, s, s1, m, frames, k);
    PlaceHitLayout(s0, s, s1, m, frames, k);
  }

  lemma PlaceHitLayout(s0: Space, s: Space, s1: Space, m: Move, frames: seq<Option<nat>>, k: nat)
    requires k < |frames| == m.count && PlaceDone(s0, s, m, frames, k)
    requires Gathered(View(s0), m, frames) && frames[k].Some?
    requires View(s1) == View(s)[m.start + k := Entry(frames[k].value, m.flags)]
    ensures PlacedIn(Layout, s0, Dereferenced(s1, frames[k].value), m, frames, k + 1)
  {
    assert PlacedIn(Layout, s0, s, m, frames, k);
    MoveStep(View(s0), m, k);
    assert frames[k] == FrameAt(View(s0), m.from + k);
  }

  lemma PlaceHitLedger(s0: Space, s: Space, s1: Space, m: Move, frames: seq<Option<nat>>, k: nat)
    requires k < |frames| == m.count && Inv(s0) && PlaceDone(s0, s, m, frames, k)
    requires Gathered(View(s0), m, frames) && frames[k].Some?
    requires Inv(s1) && SameHolders(s.ext, s1.ext) && FromPool(s, s1) && s1.lent <= s.lent
    requires FreeListSafe(s.refs, s.freePages) && frames[k].value !in s.freePages ==>
               FreeListSafe(s1.refs, s1.freePages)
    ensures frames[k].value in s1.ext ==> s1.ext[frames[k].value] > 0
    ensures PlacedIn(Ledger, s0, Dereferenced(s1, frames[k].value), m, frames, k + 1)
  {
    assert PlacedIn(Ledger, s0, s, m, frames, k);
    PlaceReady(s0, s, m, frames, k);
    SameManaged(s1);
    OwingKept(s0.ext, s.ext, s1.ext, multiset(frames[k..]));
    OwingLess(s0.ext, s1.ext, frames, k);
    DereferencedKeeps(s1, frames[k].value);
  }

  lemma PlaceFail(s0: Space, s: Space, s1: Space, m: Move, frames: seq<Option<nat>>, k: nat, job: Job, res: bool)
    requires k < |frames| && PlaceDone(s0, s, m, frames, k)
    requires job.start <= job.end && Done(s, s1, job, job.start, res)
    ensures PlaceDone(s0, s1, m, frames, k)
  {
    PlaceInv(s0, s, m, frames, k);
    NoneDone(s, s1, job, res);
    PlaceFailLedger(s0, s, s1, m, frames, k);
    assert PlacedIn(Layout, s0, s, m, frames, k);
  }

  lemma PlaceFailLedger(s0: Space, s: Space, s1: Space, m: Move, frames: seq<Option<nat>>, k: nat)
    requires k < |frames| && PlaceDone(s0, s, m, frames, k)
    requires Inv(s1) && SameHolders(s.ext, s1.ext) && FromPool(s, s1) && s1.lent <= s.lent
    requires FreeListSafe(s.refs, s.freePages) ==> FreeListSafe(s1.refs, s1.freePages)
    ensures PlacedIn(Ledger, s0, s1, m, frames, k)
  {
    assert PlacedIn(Ledger, s0, s, m, frames, k);
    OwingKept(s0.ext, s.ext, s1.ext, multiset(frames[k..]));
  }

  lemma FirstAndRest(frames: seq<Option<nat>>)
    requires frames != []
    ensures multiset(frames) == multiset{frames[0]} + multiset(frames[1..])
  {
    assert frames == [frames[0]] + frames[1..];
  }

  lemma {:induction false} OwedIs(pages: map<nat, Entry>, from: nat, end: nat, frames: seq<Option<nat>>)
    requires end == from + |frames| && forall i | 0 <= i < |frames| :: frames[i] == FrameAt(pages, from + i)
    ensures multiset(frames) == Owed(pages, from, end)
    decreases |frames|
  {
    if from < end {
      FirstAndRest(frames);
      OwedIs(pages, from + 1, end, frames[1..]);
    }
  }

  lemma GatheredRest(pages: map<nat, Entry>, m: Move, frames: seq<Option<nat>>, k: nat)
    requires k <= |frames| && Gathered(pages, m, frames)
    ensures multiset(frames[k..]) == Owed(pages, m.from + k, m.from + |frames|)
  {
    OwedIs(pages, m.from + k, m.from + |frames|, frames[k..]);
  }

  ghost predicate NamedIn(pages: map<nat, Entry>, from: nat, end: nat, f: nat) {
    exists v | v in pages && from <= v < end :: pages[v].frame == f
  }

  /** The frames still owed are those of the pages not yet placed. */
  lemma {:induction false} OwedNames(pages: map<nat, Entry>, from: nat, end: nat, f: nat)
    ensures Owed(pages, from, end)[Some(f)] > 0 <==> NamedIn(pages, from, end, f)
    decreases end - from
  {
    if from < end {
      OwedNames(pages, from + 1, end, f);
      NamedStep(pages, from, end, f);
      var first := multiset{FrameAt(pages, from)};
      assert first[Some(f)] > 0 <==> FrameAt(pages, from) == Some(f);
      assert Owed(pages, from, end)[Some(f)] == first[Some(f)] + Owed(pages, from + 1, end)[Some(f)];
    }
  }

  lemma NamedStep(pages: map<nat, Entry>, from: nat, end: nat, f: nat)
    requires from < end
    ensures NamedIn(pages, from, end, f) <==> FrameAt(pages, from) == Some(f) || NamedIn(pages, from + 1, end, f)
  {
  }

  /** Giving up keeps the outside references as they were exactly when no page still to be placed had a managed
      frame. */
  lemma LeakIff(s0: Space, s: Space, from: nat, end: nat)
    requires Inv(s0) && Owing(s0.ext, s.ext, Owed(View(s0), from, end))
    ensures SameHolders(s0.ext, s.ext) <==> NoneManaged(s0, from, end)
  {
    SameManaged(s0);
    forall f | f in s0.ext ensures s.ext[f] == s0.ext[f] <==> !NamedIn(View(s0), from, end, f) {
      OwedNames(View(s0), from, end, f);
    }
  }

  lemma PlaceOwing(s0: Space, s: Space, m: Move, frames: seq<Option<nat>>, k: nat)
    requires k <= |frames| == m.count && PlaceDone(s0, s, m, frames, k) && Gathered(View(s0), m, frames)
    ensures Owing(s0.ext, s.ext, Owed(View(s0), m.from + k, m.from + m.count))
  {
    assert PlacedIn(Ledger, s0, s, m, frames, k);
    GatheredRest(View(s0), m, frames, k);
  }

  /** No page of [from, end) names a managed frame. */
  ghost predicate NoneManaged(s: Space, from: nat, end: nat) {
    forall v | v in View(s) && from <= v < end :: View(s)[v].frame !in s.refs
  }

  lemma PlaceResult(s0: Space, s: Space, m: Move, frames: seq<Option<nat>>, k: nat)
    requires k <= |frames| && PlaceDone(s0, s, m, frames, k)
    ensures Inv(s) && View(s) == Relocated(View(s0), m, k) && FromPool(s0, s) && s.lent <= s0.lent
    ensures FreeListSafe(s0.refs, s0.freePages) ==> FreeListSafe(s.refs, s.freePages)
  {
    assert PlacedIn(Ledger, s0, s, m, frames, k) && PlacedIn(Layout, s0, s, m, frames, k);
  }

  lemma PlaceDebts(s0: Space, s: Space, m: Move, frames: seq<Option<nat>>, k: nat)
    requires Inv(s0) && k <= |frames| == m.count && PlaceDone(s0, s, m, frames, k) && Gathered(View(s0), m, frames)
    ensures Owing(s0.ext, s.ext, Owed(View(s0), m.from + k, m.from + m.count))
    ensures SameHolders(s0.ext, s.ext) <==> NoneManaged(s0, m.from + k, m.from + m.count)
  {
    PlaceOwing(s0, s, m, frames, k);
    LeakIff(s0, s, m.from + k, m.from + m.count);
  }

  /** What `Starved` says; see `Unit` in Basics. */
  ghost predicate StarvedIn(u: Unit, s: Space, v: nat) {
    && s.pool == [] && Node(1, Prefix(v, 1)) !in s.dir
    && s.dir.Keys <= {ROOT} + TablesOf(View(s)) + Needed(v, v + 1)
  }

  /** The pool ran dry while page `v` was mapped: a table of `v` is missing, and every empty table is one of `v`. */
  ghost predicate Starved(s: Space, v: nat) {
    forall u: Unit :: StarvedIn(u, s, v)
  }

  lemma StarvedAt(s: Space, s1: Space, job: Job, res: bool)
    requires Inv(s) && Trimmed(s) && Done(s, s1, job, job.start, res) && Ended(s1, job, job.start, false)
    ensures Starved(s1, job.start)
  {
    assert DoneIn(Extent, s, s1, job, job.start, res);
    NoneDone(s, s1, job, res);
    TrimmedTables(s);
  }

  lemma TablesOfMore(pages: map<nat, Entry>, v: nat, e: Entry)
    ensures TablesOf(pages[v := e]) == TablesOf(pages) + Needed(v, v + 1)
  {
    var all := pages[v := e];
    forall n | n in TablesOf(pages) + Needed(v, v + 1) ensures n in TablesOf(all) {
      var u: nat, level: nat :| (u in pages || u == v) && 1 <= level <= 3 && n == Node(level, Prefix(u, level));
      assert u in all;
    }
    forall n | n in TablesOf(all) ensures n in TablesOf(pages) + Needed(v, v + 1) {
      var u: nat, level: nat :| u in all && 1 <= level <= 3 && n == Node(level, Prefix(u, level));
      assert u in pages || v <= u < v + 1;
    }
  }

  lemma TablesOfMonotone(pages: map<nat, Entry>, pages': map<nat, Entry>)
    requires pages.Keys <= pages'.Keys
    ensures Size(TablesOf(pages)) <= Size(TablesOf(pages'))
  {
    SizeIs(TablesOf(pages));
    SizeIs(TablesOf(pages'));
    forall n | n in TablesOf(pages) ensures n in TablesOf(pages') {
      var v: nat, level: nat :| v in pages && 1 <= level <= 3 && n == Node(level, Prefix(v, level));
      assert v in pages';
    }
    SubsetSize(TablesOf(pages), TablesOf(pages'));
  }

  lemma RootLack(c: set<Node>, n: Node, tables: set<Node>)
    requires c <= {ROOT} + tables && n in tables && n !in c && ROOT !in tables
    ensures |c| < 1 + |tables|
  {
    LackSize(c, n, {ROOT}, tables);
    assert tables - {ROOT} == tables;
  }

  /** Too few pages for the tables of page `v`. */
  lemma StarvedSize(s: Space, v: nat, e: Entry)
    requires Starved(s, v)
    ensures |s.dir| < 1 + Size(TablesOf(View(s)[v := e]))
  {
    SizeIs(TablesOf(View(s)[v := e]));
    assert StarvedIn(Unit, s, v);
    TablesOfMore(View(s), v, e);
    OnTheWay(v, v + 1, v, 1);
    RootLack(s.dir.Keys, Node(1, Prefix(v, 1)), TablesOf(View(s)[v := e]));
  }

  lemma RelocatedKeys(pages: map<nat, Entry>, m: Move, k: nat, k': nat)
    requires k <= k'
    ensures Relocated(pages, m, k).Keys <= Relocated(pages, m, k').Keys
  {
  }

  /** The pages and tables a move can draw on: those left standing with the old range gone, and the pool. */
  ghost function Supply(s0: Space, m: Move): nat {
    Size(TablesOf(Without(View(s0), m.from, m.from + m.count))) + |s0.pool|
  }

  /** What `Affordable` says; see `Unit` in Basics. */
  ghost predicate AffordableIn(u: Unit, s0: Space, m: Move) {
    Size(TablesOf(Relocated(View(s0), m, m.count))) <= Supply(s0, m)
  }

  /** The tables that the pages need in their new place can be supplied. */
  ghost predicate Affordable(s0: Space, m: Move) {
    forall u: Unit :: AffordableIn(u, s0, m)
  }

  /** The first `k` pages moved need the whole supply. */
  ghost predicate Spent(s0: Space, m: Move, k: nat) {
    Size(TablesOf(Relocated(View(s0), m, k))) == Supply(s0, m)
  }

  /** The supply lasts for the first `k` pages moved and not for one more. */
  ghost predicate StopsAt(s0: Space, m: Move, k: nat) {
    && Size(TablesOf(Relocated(View(s0), m, k))) <= Supply(s0, m)
    && Supply(s0, m) < Size(TablesOf(Relocated(View(s0), m, k + 1)))
  }

  lemma SupplyIs(s0: Space, s1: Space, s: Space, m: Move, frames: seq<Option<nat>>)
    requires |frames| == m.count && GatherDone(s0, s1, m, frames) && Trimmed(s0) && Balanced(s1, s)
    ensures |s.dir| + |s.pool| == 1 + Supply(s0, m)
  {
    GatheredPages(s0, s1, m, frames);
    SupplyOf(s0, s1, m);
    GatheredTables(s0, s1, m, frames);
    GatheredBalance(s0, s1, s, m, frames);
  }

  lemma SupplyOf(s0: Space, s1: Space, m: Move)
    requires View(s1) == Without(View(s0), m.from, m.from + m.count)
    ensures Supply(s0, m) == Size(TablesOf(View(s1))) + |s0.pool|
  {
  }

  lemma GatheredTables(s0: Space, s1: Space, m: Move, frames: seq<Option<nat>>)
    requires |frames| == m.count && GatherDone(s0, s1, m, frames) && Trimmed(s0)
    ensures |s1.dir| == 1 + Size(TablesOf(View(s1)))
  {
    GatheredPages(s0, s1, m, frames);
    GatherInv(s0, s1, m, frames);
    TrimmedCount(s1);
  }

  lemma GatheredBalance(s0: Space, s1: Space, s: Space, m: Move, frames: seq<Option<nat>>)
    requires GatherDone(s0, s1, m, frames) && Balanced(s1, s)
    ensures |s.dir| + |s.pool| == |s1.dir| + |s0.pool|
  {
    assert GatheredIn(Ledger, s0, s1, m, frames);
    assert BalancedIn(Unit, s1, s);
  }

  lemma GatheredPages(s0: Space, s1: Space, m: Move, frames: seq<Option<nat>>)
    requires |frames| == m.count && GatherDone(s0, s1, m, frames) && Trimmed(s0)
    ensures Trimmed(s1) && View(s1) == Without(View(s0), m.from, m.from + m.count)
  {
    assert GatheredIn(Layout, s0, s1, m, frames);
  }

  lemma NextPlace(pages0: map<nat, Entry>, pages: map<nat, Entry>, m: Move, k: nat, e: Entry)
    requires pages == Relocated(pages0, m, k) && k < m.count && m.from + k in pages0
    requires e == Entry(pages0[m.from + k].frame, m.flags)
    ensures pages[m.start + k := e] == Relocated(pages0, m, k + 1)
  {
    MoveStep(pages0, m, k);
  }

  lemma NextSize(pages0: map<nat, Entry>, pages: map<nat, Entry>, m: Move, k: nat, e: Entry)
    requires pages == Relocated(pages0, m, k) && k < m.count && m.from + k in pages0
    requires e == Entry(pages0[m.from + k].frame, m.flags)
    ensures Size(TablesOf(pages[m.start + k := e])) <= Size(TablesOf(Relocated(pages0, m, m.count)))
  {
    NextPlace(pages0, pages, m, k, e);
    RelocatedKeys(pages0, m, k + 1, m.count);
    TablesOfMonotone(pages[m.start + k := e], Relocated(pages0, m, m.count));
  }

  lemma MoveLacks(s0: Space, s: Space, m: Move, k: nat)
    requires View(s) == Relocated(View(s0), m, k) && |s.dir| == 1 + Supply(s0, m)
    requires k < m.count && m.from + k in View(s0) && Starved(s, m.start + k)
    ensures !Affordable(s0, m) && Supply(s0, m) < Size(TablesOf(Relocated(View(s0), m, k + 1)))
  {
    var e := Entry(View(s0)[m.from + k].frame, m.flags);
    StarvedSize(s, m.start + k, e);
    NextSize(View(s0), View(s), m, k, e);
    NextPlace(View(s0), View(s), m, k, e);
    assert !AffordableIn(Unit, s0, m);
  }

  /** A move stops at one page only, so how far it gets follows from the pages and the supply. */
  lemma StopUnique(s0: Space, m: Move, k: nat, k': nat)
    requires StopsAt(s0, m, k) && StopsAt(s0, m, k')
    ensures k == k'
  {
    if k < k' {
      StopsBefore(s0, m, k, k');
    } else if k' < k {
      StopsBefore(s0, m, k', k);
    }
  }

  lemma StopsBefore(s0: Space, m: Move, k: nat, k': nat)
    requires StopsAt(s0, m, k) && k < k'
    ensures !StopsAt(s0, m, k')
  {
    MoreTables(View(s0), m, k + 1, k');
  }

  lemma MoreTables(pages: map<nat, Entry>, m: Move, k: nat, k': nat)
    requires k <= k'
    ensures Size(TablesOf(Relocated(pages, m, k))) <= Size(TablesOf(Relocated(pages, m, k')))
  {
    RelocatedKeys(pages, m, k, k');
    TablesOfMonotone(Relocated(pages, m, k), Relocated(pages, m, k'));
  }

  /** With no empty tables to start with, a move succeeds exactly when the tables that the pages need in their new
      place can be supplied. A move given up stops at the page for which the supply no longer lasts, and leaves no empty
      table exactly when the supply is used up. */
  lemma MoveIff(s0: Space, s1: Space, s: Space, m: Move, frames: seq<Option<nat>>, k: nat, ok: bool)
    requires |frames| == m.count && GatherDone(s0, s1, m, frames) && Trimmed(s0) && Balanced(s1, s)
    requires k <= m.count && (ok ==> k == m.count) && PlaceDone(s0, s, m, frames, k) && Gathered(View(s0), m, frames)
    requires !ok ==> k < m.count && frames[k].Some? && s.pool == [] && Starved(s, m.start + k)
    ensures ok <==> Affordable(s0, m)
    ensures !ok ==> StopsAt(s0, m, k) && (Trimmed(s) <==> Spent(s0, m, k))
  {
    PlaceResult(s0, s, m, frames, k);
    SupplyIs(s0, s1, s, m, frames);
    TrimmedCount(s);
    if !ok {
      MoveLacks(s0, s, m, k);
    }
  }

  /** The parts of `MoveResult`; see `Unit` in Basics. */
  datatype Report = Lists | Debts | Debtless | Placement

  ghost predicate MoveResultIn(report: Report, s0: Space, s: Space, m: Move, k: nat, ok: bool) {
    && (report.Lists? ==>
          && Inv(s) && FromPool(s0, s) && s.lent <= s0.lent
          && (FreeListSafe(s0.refs, s0.freePages) ==> FreeListSafe(s.refs, s.freePages)))
    && (report.Debts? ==> Owing(s0.ext, s.ext, Owed(View(s0), m.from + k, m.from + m.count)))
    && (report.Debtless? ==>
          (SameHolders(s0.ext, s.ext) <==> NoneManaged(s0, m.from + k, m.from + m.count)))
    && (report.Placement? ==>
          && View(s) == Relocated(View(s0), m, k)
          && (Trimmed(s0) ==>
                && (ok <==> Affordable(s0, m)) && (ok || StopsAt(s0, m, k))
                && (Trimmed(s) <==> ok || Spent(s0, m, k))))
  }

  /** The old range is gone and its first `k` pages are in their new place. One reference more is held for each managed
      frame of the other pages, so the outside references are what they were exactly when there is none. The free list
      stays sound. With no empty table to start with, the move is completed exactly when the tables it needs can be
      supplied. A move given up stops at the page for which the supply no longer lasts, and leaves no empty table
      exactly when the pages placed need the whole supply. */
  ghost predicate MoveResult(s0: Space, s: Space, m: Move, k: nat, ok: bool) {
    forall report: Report :: MoveResultIn(report, s0, s, m, k, ok)
  }

  lemma MoveLedger(s0: Space, s: Space, m: Move, frames: seq<Option<nat>>, k: nat, ok: bool)
    requires Inv(s0) && k <= |frames| == m.count && PlaceDone(s0, s, m, frames, k) && Gathered(View(s0), m, frames)
    ensures MoveResultIn(Lists, s0, s, m, k, ok)
    ensures MoveResultIn(Debts, s0, s, m, k, ok) && MoveResultIn(Debtless, s0, s, m, k, ok)
  {
    PlaceResult(s0, s, m, frames, k);
    PlaceDebts(s0, s, m, frames, k);
  }

  lemma SameTablesDropped(s: Space, f: nat)
    requires Trimmed(s)
    ensures Trimmed(Dereferenced(s, f))
  {
    var s1 := Dereferenced(s, f);
    forall n | n in s1.dir && n != ROOT ensures Busy(s1, n) {
      TrimmedBusy(s, n);
      assert Busy(s, n);
    }
  }
}
