/** What mapping a run of pages onto a run of frames does to an address space. */
module PageMapping {
  import opened Basics
  import opened PageTableShape
  import opened PageCounts
  import opened PageSpace

  /** Map pages [start, end) onto the frames from `phys` on. */
  datatype Job = Job(start: nat, end: nat, phys: nat, flags: nat, kernel: bool) {
    function Frame(v: nat): nat
      requires start <= v
    {
      phys + (v - start)
    }
  }

  /** The entry that the job makes for page `v` below `cur`. */
  ghost function Made(job: Job, cur: nat, v: int): Entry {
    if job.start <= v < cur then Entry(job.Frame(v), job.flags) else UNUSED
  }

  /** The mapping of the pages of the job below `cur`. */
  ghost function Run(job: Job, cur: nat): map<nat, Entry> {
    map v: nat | job.start <= v < cur :: Made(job, cur, v)
  }

  /** What the page pool needs to know of a job: it does not reach into the pool's own pages, and
      kernel mappings, which take no references, only name frames the pool does not manage. */
  ghost predicate Admissible(s: Space, job: Job) {
    && job.start <= job.end <= PAGE_LIMIT && job.flags > 0
    && forall v | job.start <= v < job.end :: job.Frame(v) !in s.pool && (job.kernel ==> job.Frame(v) !in s.refs)
  }

  /** The frame for page `v` is not managed, or is lent out, or has a holder that the mapping of the
      pages before `v` does not overwrite. */
  ghost predicate Held(s: Space, job: Job, v: nat)
    requires job.start <= v
  {
    var f := job.Frame(v);
    f in s.refs ==>
      || f in s.lent
      || (f in s.ext && s.ext[f] > 0)
      || f in s.dir.Values
      || exists u | u in View(s) && !(job.start <= u < v) :: View(s)[u].frame == f
  }

  ghost predicate AllHeld(s: Space, job: Job, cut: nat) {
    forall v | job.start <= v < cut :: Held(s, job, v)
  }

  ghost predicate AnyMapped(pages: map<nat, Entry>, start: nat, end: nat) {
    exists v | start <= v < end :: v in pages
  }

  /** A table has something under it. */
  ghost predicate Busy(s: Space, n: Node) {
    exists c: Node {:trigger c.Parent()} :: c.Parent() == n && (c in s.dir || (c.level == 0 && c.prefix in View(s)))
  }

  /** Every table added since `s0`, outside `path`, has something under it. */
  ghost predicate NewBusy(s0: Space, s: Space, path: set<Node>) {
    forall n | n in s.dir && n !in s0.dir && n !in path :: Busy(s, n)
  }

  ghost predicate Extends<K(!new), V>(m: map<K, V>, m': map<K, V>) {
    forall k | k in m :: k in m' && m'[k] == m[k]
  }

  /** The references held outside the page table are what they were, and nobody outside holds a frame that became
      managed since. */
  ghost predicate SameHolders(ext0: Counts, ext: Counts) {
    Extends(ext0, ext) && forall f | f in ext && f !in ext0 :: ext[f] == 0
  }

  /** The tables on the way to the pages of [start, end), the root aside. */
  ghost function Needed(start: nat, end: nat): set<Node> {
    set v: nat, level: nat | start <= v < end && 1 <= level <= 3 :: Node(level, Prefix(v, level))
  }

  lemma OnTheWay(start: nat, end: nat, v: nat, level: nat)
    requires start <= v < end && 1 <= level <= 3
    ensures Node(level, Prefix(v, level)) in Needed(start, end)
  {
  }

  lemma NeededGrows(start: nat, cur: nat, end: nat)
    requires cur <= end
    ensures Needed(start, cur) <= Needed(start, end)
  {
  }

  /** Only tables for the pages up to `cur` were added, each from a page of the pool. */
  ghost predicate Confined(s0: Space, s: Space, start: nat, cur: nat) {
    && s.dir.Keys <= s0.dir.Keys + Needed(start, cur + 1)
    && |s.dir| + |s.pool| == |s0.dir| + |s0.pool|
  }

  /** Pages only leave the pool, and only such pages become managed. */
  ghost predicate FromPool(s0: Space, s: Space) {
    && (forall f | f in s.pool :: f in s0.pool)
    && (forall f | f in s.refs :: f in s0.refs || f in s0.pool)
  }

  /** Growing the tree: tables and managed frames are kept, new ones come from the pool. */
  ghost predicate Grown(s0: Space, s: Space) {
    && s.root == s0.root
    && Extends(s0.dir, s.dir) && s0.refs.Keys <= s.refs.Keys && SameHolders(s0.ext, s.ext)
    && FromPool(s0, s)
    && (forall n | n in s.dir :: n in s0.dir || s.dir[n] !in s0.refs)
    && s0.freePages <= s.freePages
  }

  /** The parts of `Done`; see `Unit` in Basics. */
  datatype Aspect = Growth | Extent | Contents | Books

  ghost predicate DoneIn(a: Aspect, s0: Space, s: Space, job: Job, cur: nat, res: bool) {
    && (a.Growth? ==> Inv(s) && Grown(s0, s))
    && (a.Extent? ==> Confined(s0, s, job.start, cur))
    && (a.Contents? ==> View(s) == View(s0) + Run(job, cur) && res == AnyMapped(View(s0), job.start, cur))
    && (a.Books? ==> Ledger(s0, s, job, cur))
  }

  /** The job has been done for exactly the pages below `cur`. */
  ghost predicate Done(s0: Space, s: Space, job: Job, cur: nat, res: bool) {
    forall a: Aspect :: DoneIn(a, s0, s, job, cur, res)
  }

  lemma DoneSoFar(s0: Space, s: Space, job: Job, cur: nat, res: bool)
    requires Done(s0, s, job, cur, res)
    ensures Inv(s) && Grown(s0, s) && View(s) == View(s0) + Run(job, cur) && Ledger(s0, s, job, cur)
    ensures res == AnyMapped(View(s0), job.start, cur)
  {
    assert DoneIn(Growth, s0, s, job, cur, res) && DoneIn(Contents, s0, s, job, cur, res);
    assert DoneIn(Books, s0, s, job, cur, res);
  }

  lemma DoneInv(s0: Space, s: Space, job: Job, cur: nat, res: bool)
    requires Done(s0, s, job, cur, res)
    ensures Inv(s)
  {
    assert DoneIn(Growth, s0, s, job, cur, res);
  }

  /** The next page of the job can be installed. */
  lemma NextFrame(s0: Space, s: Space, job: Job, cur: nat, res: bool)
    requires Admissible(s0, job) && job.start <= cur < job.end && Done(s0, s, job, cur, res)
    ensures Inv(s) && job.Frame(cur) !in s.pool && (job.kernel ==> job.Frame(cur) !in s.refs)
  {
    DoneSoFar(s0, s, job, cur, res);
  }

  lemma NothingDone(s: Space, job: Job)
    requires Inv(s)
    ensures Done(s, s, job, job.start, false)
  {
    assert Run(job, job.start) == map[];
  }

  /** Lent pages leave the books only when mapped. */
  ghost predicate LentLeft(s0: Space, s: Space, job: Job, cur: nat) {
    && (forall f | f in s0.lent :: f in s.lent || job.phys <= f < job.phys + (cur - job.start))
    && s.lent <= s0.lent
  }

  /** The frames that were not held at their turn. */
  ghost predicate LostListed(s0: Space, s: Space, job: Job, cur: nat) {
    forall v | job.start <= v < cur && !Held(s0, job, v) :: job.Frame(v) in s.freePages
  }

  /** As long as every frame was held at its turn the free list stays sound, and a frame that was not is left on it. */
  ghost predicate Ledger(s0: Space, s: Space, job: Job, cur: nat) {
    && LentLeft(s0, s, job, cur)
    && (FreeListSafe(s0.refs, s0.freePages) && AllHeld(s0, job, cur) ==> FreeListSafe(s.refs, s.freePages))
    && LostListed(s0, s, job, cur)
  }

  /** Replacing the leaf entry of page `v`: what one turn of the innermost loop does. */
  ghost predicate Installed(s: Space, s': Space, v: nat, e: Entry) {
    && Inv(s') && View(s') == View(s)[v := e]
    && s'.root == s.root && s'.dir == s.dir && s'.pool == s.pool && s'.ext == s.ext && s'.refs.Keys == s.refs.Keys
    && s.freePages <= s'.freePages && s'.lent == s.lent - {e.frame}
    && (FreeListSafe(s.refs, s.freePages) && e.frame !in s.freePages ==> FreeListSafe(s'.refs, s'.freePages))
  }

  lemma Unmanaged(s: Space, f: nat)
    requires Inv(s) && f !in s.refs
    ensures f !in s.ext && f !in s.lent
  {
    Unfold(s);
  }

  /** The first half of replacing the entry of page `v`: a new reference to `f`, the old entry dropped. */
  ghost function Cleared(s: Space, v: nat, f: nat, kernel: bool): Space
    requires Node(0, v).Parent() in s.dir && s.dir[Node(0, v).Parent()] in s.mem
  {
    var s1 := if kernel then s else Referenced(s, f);
    if v in View(s) then Unmapped(s1, v) else s1
  }

  lemma ClearedKeeps(s: Space, v: nat, f: nat, kernel: bool)
    requires Inv(s) && Node(0, v).Parent() in s.dir && (kernel ==> f !in s.refs)
    ensures s.dir[Node(0, v).Parent()] in s.mem
    ensures var s2 := Cleared(s, v, f, kernel);
            && Inv(s2) && View(s2) == View(s) - {v}
            && s2.root == s.root && s2.dir == s.dir && s2.pool == s.pool && s2.refs.Keys == s.refs.Keys
            && s2.ext == (if kernel then s.ext else Inc(s.ext, f)) && s2.lent == s.lent - {f}
            && s.freePages <= s2.freePages
            && (FreeListSafe(s.refs, s.freePages) && f !in s.freePages ==> FreeListSafe(s2.refs, s2.freePages))
  {
    LeafUsed(s, v);
    if kernel {
      Unmanaged(s, f);
    }
    ReferencedKeeps(s, f);
    var s1 := if kernel then s else Referenced(s, f);
    if v in View(s) {
      UnmappedKeeps(s1, v);
    }
  }

  /** Taking a reference, dropping the old entry and writing the new one install the new entry. */
  lemma InstallSteps(s: Space, v: nat, e: Entry, kernel: bool)
    requires Inv(s) && Node(0, v).Parent() in s.dir && !e.Unused() && e.frame !in s.pool
    requires kernel ==> e.frame !in s.refs
    ensures s.dir[Node(0, v).Parent()] in s.mem
    ensures var s2 := Cleared(s, v, e.frame, kernel);
            s2.dir == s.dir && s.dir[Node(0, v).Parent()] in s2.mem && Installed(s, Mapped(s2, v, e), v, e)
  {
    ClearedKeeps(s, v, e.frame, kernel);
    if kernel {
      Unmanaged(s, e.frame);
    }
    var s2 := Cleared(s, v, e.frame, kernel);
    MappedKeeps(s2, v, e);
    assert (View(s) - {v})[v := e] == View(s)[v := e];
  }

  /** Adding at most the table of `c`: the pages mapped, the lent pages and the free list stay as they were. */
  ghost predicate TableAdded(s: Space, s': Space, c: Node) {
    && Inv(s') && View(s') == View(s) && Grown(s, s') && s'.lent == s.lent && s'.freePages == s.freePages
    && s'.dir.Keys <= s.dir.Keys + {c} && |s'.dir| + |s'.pool| == |s.dir| + |s.pool|
    && (FreeListSafe(s.refs, s.freePages) ==> FreeListSafe(s'.refs, s'.freePages))
  }

  lemma HolderCounts(s: Space, f: nat)
    requires Inv(s) && f in s.refs
    requires (f in s.ext && s.ext[f] > 0) || f in s.dir.Values || exists u | u in View(s) :: View(s)[u].frame == f
    ensures s.refs[f] > 0
  {
    Unfold(s);
    if u :| u in View(s) && View(s)[u].frame == f {
      NamedIsCounted(s.refs, s.ext, View(s), s.dir, u);
    }
  }

  lemma NoHolderCounts(s: Space, f: nat)
    requires Inv(s) && f in s.refs && f !in s.lent
    requires f in s.ext && s.ext[f] == 0 && f !in s.dir.Values && forall u | u in View(s) :: View(s)[u].frame != f
    ensures f in s.freePages
  {
    Unfold(s);
    assert Naming(View(s), f) == {};
  }

  /** At its turn a held frame is not on the free list, and a managed frame not held is. */
  lemma TurnOf(s0: Space, s: Space, job: Job, cur: nat, res: bool)
    requires Inv(s0) && Admissible(s0, job) && job.start <= cur < job.end && Done(s0, s, job, cur, res)
    ensures Held(s0, job, cur) && FreeListSafe(s.refs, s.freePages) ==> job.Frame(cur) !in s.freePages
    ensures !Held(s0, job, cur) ==> job.Frame(cur) in s.freePages
  {
    var f := job.Frame(cur);
    Unfold(s0);
    DoneSoFar(s0, s, job, cur, res);
    if !Held(s0, job, cur) {
      forall u | u in View(s) ensures View(s)[u].frame != f {
        if !(job.start <= u < cur) {
          assert u in View(s0);
        }
      }
      assert f in s0.ext && s0.ext[f] == 0;
      NoHolderCounts(s, f);
    } else if f in s.refs {
      assert f in s0.refs;
      if f in s0.lent {
        Unfold(s);
      } else {
        if u :| u in View(s0) && !(job.start <= u < cur) && View(s0)[u].frame == f {
          assert u in View(s) && View(s)[u].frame == f;
        }
        if f in s0.dir.Values {
          var n :| n in s0.dir && s0.dir[n] == f;
          assert n in s.dir;
        }
        HolderCounts(s, f);
      }
    }
  }

  lemma InstalledKeeps(s0: Space, s: Space, s': Space, job: Job, cur: nat, res: bool)
    requires Inv(s0) && Admissible(s0, job) && job.start <= cur < job.end && Done(s0, s, job, cur, res)
    requires Installed(s, s', cur, Entry(job.Frame(cur), job.flags))
    ensures Done(s0, s', job, cur + 1, res || cur in View(s))
  {
    InstalledGrowth(s0, s, s', job, cur, res);
    InstalledExtent(s0, s, s', job, cur, res);
    InstalledContents(s0, s, s', job, cur, res);
    InstalledLedger(s0, s, s', job, cur, res);
  }

  lemma InstalledGrowth(s0: Space, s: Space, s': Space, job: Job, cur: nat, res: bool)
    requires job.start <= cur && Done(s0, s, job, cur, res)
    requires Installed(s, s', cur, Entry(job.Frame(cur), job.flags))
    ensures DoneIn(Growth, s0, s', job, cur + 1, res || cur in View(s))
  {
    assert DoneIn(Growth, s0, s, job, cur, res);
  }

  lemma InstalledExtent(s0: Space, s: Space, s': Space, job: Job, cur: nat, res: bool)
    requires job.start <= cur && Done(s0, s, job, cur, res)
    requires Installed(s, s', cur, Entry(job.Frame(cur), job.flags))
    ensures DoneIn(Extent, s0, s', job, cur + 1, res || cur in View(s))
  {
    assert DoneIn(Extent, s0, s, job, cur, res);
    NeededGrows(job.start, cur + 1, cur + 2);
  }

  lemma InstalledContents(s0: Space, s: Space, s': Space, job: Job, cur: nat, res: bool)
    requires job.start <= cur && Done(s0, s, job, cur, res)
    requires Installed(s, s', cur, Entry(job.Frame(cur), job.flags))
    ensures DoneIn(Contents, s0, s', job, cur + 1, res || cur in View(s))
  {
    assert DoneIn(Contents, s0, s, job, cur, res);
    RunStep(View(s0), job, cur);
    assert cur in View(s) <==> cur in View(s0);
    if cur in View(s0) {
      assert job.start <= cur < cur + 1;
    }
  }

  lemma RunStep(pages: map<nat, Entry>, job: Job, cur: nat)
    requires job.start <= cur
    ensures (pages + Run(job, cur))[cur := Entry(job.Frame(cur), job.flags)] == pages + Run(job, cur + 1)
  {
  }

  lemma InstalledLedger(s0: Space, s: Space, s': Space, job: Job, cur: nat, res: bool)
    requires Inv(s0) && Admissible(s0, job) && job.start <= cur < job.end && Done(s0, s, job, cur, res)
    requires Installed(s, s', cur, Entry(job.Frame(cur), job.flags))
    ensures DoneIn(Books, s0, s', job, cur + 1, res || cur in View(s))
  {
    assert DoneIn(Books, s0, s, job, cur, res);
    TurnOf(s0, s, job, cur, res);
    LentStep(s0, s, s', job, cur);
    LostStep(s0, s, s', job, cur);
    assert AllHeld(s0, job, cur + 1) ==> AllHeld(s0, job, cur) && Held(s0, job, cur);
  }

  lemma LentStep(s0: Space, s: Space, s': Space, job: Job, cur: nat)
    requires job.start <= cur && LentLeft(s0, s, job, cur) && s'.lent == s.lent - {job.Frame(cur)}
    ensures LentLeft(s0, s', job, cur + 1)
  {
  }

  lemma LostStep(s0: Space, s: Space, s': Space, job: Job, cur: nat)
    requires job.start <= cur && LostListed(s0, s, job, cur) && s.freePages <= s'.freePages
    requires !Held(s0, job, cur) ==> job.Frame(cur) in s.freePages
    ensures LostListed(s0, s', job, cur + 1)
  {
  }

  lemma TableAddedKeeps(s0: Space, s: Space, s': Space, job: Job, cur: nat, level: nat, res: bool)
    requires job.start <= cur && Done(s0, s, job, cur, res) && 1 <= level <= 3
    requires TableAdded(s, s', Node(level, Prefix(cur, level)))
    ensures Done(s0, s', job, cur, res)
  {
    TableAddedGrowth(s0, s, s', job, cur, level, res);
    TableAddedExtent(s0, s, s', job, cur, level, res);
    TableAddedBooks(s0, s, s', job, cur, level, res);
    assert DoneIn(Contents, s0, s, job, cur, res);
  }

  lemma TableAddedBooks(s0: Space, s: Space, s': Space, job: Job, cur: nat, level: nat, res: bool)
    requires job.start <= cur && Done(s0, s, job, cur, res) && TableAdded(s, s', Node(level, Prefix(cur, level)))
    ensures DoneIn(Books, s0, s', job, cur, res)
  {
    assert DoneIn(Books, s0, s, job, cur, res);
  }

  lemma TableAddedGrowth(s0: Space, s: Space, s': Space, job: Job, cur: nat, level: nat, res: bool)
    requires Done(s0, s, job, cur, res) && TableAdded(s, s', Node(level, Prefix(cur, level)))
    ensures DoneIn(Growth, s0, s', job, cur, res)
  {
    assert DoneIn(Growth, s0, s, job, cur, res);
  }

  lemma TableAddedExtent(s0: Space, s: Space, s': Space, job: Job, cur: nat, level: nat, res: bool)
    requires job.start <= cur && Done(s0, s, job, cur, res) && 1 <= level <= 3
    requires TableAdded(s, s', Node(level, Prefix(cur, level)))
    ensures DoneIn(Extent, s0, s', job, cur, res)
  {
    assert DoneIn(Extent, s0, s, job, cur, res);
    OnTheWay(job.start, cur + 1, cur, level);
  }

  /** Once mapped, the free list is sound exactly when every frame was held at its turn. */
  lemma SafeIffHeld(s0: Space, s: Space, job: Job, cut: nat, res: bool)
    requires Inv(s0) && FreeListSafe(s0.refs, s0.freePages) && Done(s0, s, job, cut, res)
    ensures FreeListSafe(s.refs, s.freePages) <==> AllHeld(s0, job, cut)
  {
    DoneSoFar(s0, s, job, cut, res);
    forall v | job.start <= v < cut && !Held(s0, job, v)
      ensures !FreeListSafe(s.refs, s.freePages)
    {
      assert View(s)[v].frame == job.Frame(v);
      HolderCounts(s, job.Frame(v));
    }
  }

  /** Mapping pages into the leaf table of `n` gives it, and nothing less than before, something under it. */
  lemma LeafBusy(s0: Space, s: Space, s': Space, v: nat, path: set<Node>)
    requires s'.dir == s.dir && View(s).Keys <= View(s').Keys && v in View(s')
    requires NewBusy(s0, s, path + {Node(1, Prefix(v, 1))})
    ensures NewBusy(s0, s', path)
  {
    assert Node(0, v).Parent() == Node(1, Prefix(v, 1));
    forall n | n in s'.dir && n !in s0.dir && n !in path ensures Busy(s', n) {
      if n != Node(1, Prefix(v, 1)) {
        assert Busy(s, n);
      }
    }
  }

  /** Adding at most the table of `c` leaves every other new table with something under it. */
  lemma TableAddedBusy(s0: Space, s: Space, s': Space, c: Node, path: set<Node>)
    requires TableAdded(s, s', c) && NewBusy(s0, s, path)
    ensures NewBusy(s0, s', path + {c})
  {
    forall n | n in s'.dir && n !in s0.dir && n !in path + {c} ensures Busy(s', n) {
      assert Busy(s, n);
    }
  }

  lemma DirectoryBusy(s0: Space, s: Space, c: Node, path: set<Node>)
    requires c in s.dir && NewBusy(s0, s, path + {c.Parent()})
    ensures NewBusy(s0, s, path)
  {
    forall n | n in s.dir && n !in s0.dir && n !in path ensures Busy(s, n) {
      if n == c.Parent() {
        assert Busy(s, c.Parent());
      }
    }
  }

  lemma ViewGrows(s0: Space, s: Space, s': Space, job: Job, cur: nat, res: bool, cur': nat, res': bool)
    requires job.start <= cur < cur' && Done(s0, s, job, cur, res) && Done(s0, s', job, cur', res')
    ensures View(s).Keys <= View(s').Keys && cur in View(s')
  {
    DoneSoFar(s0, s, job, cur, res);
    DoneSoFar(s0, s', job, cur', res');
  }

  /** What `Trimmed` says; see `Unit` in Basics. */
  ghost predicate TrimmedIn(u: Unit, s: Space) {
    forall n | n in s.dir && n != ROOT :: Busy(s, n)
  }

  /** No table but the root is empty. */
  ghost predicate Trimmed(s: Space) {
    forall u: Unit :: TrimmedIn(u, s)
  }

  lemma TrimmedBusy(s: Space, n: Node)
    requires Trimmed(s) && n in s.dir && n != ROOT
    ensures Busy(s, n)
  {
    assert TrimmedIn(Unit, s);
  }

  lemma DoneTrimmed(s0: Space, s: Space, job: Job, res: bool)
    requires job.start <= job.end && Done(s0, s, job, job.end, res) && NewBusy(s0, s, {}) && Trimmed(s0)
    ensures Trimmed(s)
  {
    DoneSoFar(s0, s, job, job.end, res);
    forall n | n in s.dir && n != ROOT ensures Busy(s, n) {
      if n in s0.dir {
        TrimmedBusy(s0, n);
      }
    }
  }

  /** The pages of the job below `cut` are mapped onto their frames and all others are as they were;
      `cut` is the end of the job unless the pool ran dry. */
  ghost predicate JobResult(s0: Space, s: Space, job: Job, cut: nat) {
    && Inv(s) && View(s) == View(s0) + Run(job, cut) && SameHolders(s0.ext, s.ext) && FromPool(s0, s)
    && s.lent <= s0.lent
  }

  lemma JobDone(s0: Space, s: Space, job: Job, cut: nat, res: bool)
    requires Inv(s0) && job.start <= cut <= job.end && Done(s0, s, job, cut, res)
    ensures JobResult(s0, s, job, cut)
    ensures res == AnyMapped(View(s0), job.start, cut)
    ensures FreeListSafe(s0.refs, s0.freePages) ==>
              (FreeListSafe(s.refs, s.freePages) <==> AllHeld(s0, job, cut))
  {
    DoneSoFar(s0, s, job, cut, res);
    if FreeListSafe(s0.refs, s0.freePages) {
      SafeIffHeld(s0, s, job, cut, res);
    }
  }

  /** For a single page the frame is held at its turn exactly when it is not on the free list. */
  lemma HeldSingle(s: Space, job: Job)
    requires Inv(s) && FreeListSafe(s.refs, s.freePages)
    ensures Held(s, job, job.start) <==> job.phys !in s.freePages
  {
    Unfold(s);
    var f := job.phys;
    if f in s.refs && f !in s.lent {
      if (f in s.ext && s.ext[f] > 0) || f in s.dir.Values || exists u | u in View(s) :: View(s)[u].frame == f {
        HolderCounts(s, f);
      } else {
        NoHolderCounts(s, f);
      }
    }
  }

  /** What mapping a single page means. */
  lemma OneDone(s0: Space, s: Space, job: Job, res: bool)
    requires Inv(s0) && job.end == job.start + 1 && Done(s0, s, job, job.end, res)
    ensures Inv(s) && SameHolders(s0.ext, s.ext) && FromPool(s0, s) && s.lent <= s0.lent
    ensures View(s) == View(s0)[job.start := Entry(job.phys, job.flags)] && res == (job.start in View(s0))
    ensures FreeListSafe(s0.refs, s0.freePages) ==>
              (FreeListSafe(s.refs, s.freePages) <==> job.phys !in s0.freePages)
  {
    assert DoneIn(Growth, s0, s, job, job.end, res);
    assert DoneIn(Books, s0, s, job, job.end, res);
    OneContents(s0, s, job, res);
    OneHeld(s0, s, job, res);
  }

  lemma OneContents(s0: Space, s: Space, job: Job, res: bool)
    requires job.end == job.start + 1 && Done(s0, s, job, job.end, res)
    ensures View(s) == View(s0)[job.start := Entry(job.phys, job.flags)] && res == (job.start in View(s0))
  {
    assert DoneIn(Contents, s0, s, job, job.end, res);
    RunOne(View(s0), View(s), job, res);
  }

  lemma RunOne(pages0: map<nat, Entry>, pages: map<nat, Entry>, job: Job, res: bool)
    requires job.end == job.start + 1 && pages == pages0 + Run(job, job.end)
    requires res == AnyMapped(pages0, job.start, job.end)
    ensures pages == pages0[job.start := Entry(job.phys, job.flags)] && res == (job.start in pages0)
  {
    assert Run(job, job.end) == map[job.start := Entry(job.phys, job.flags)];
    assert job.start in pages0 ==> AnyMapped(pages0, job.start, job.end);
  }

  lemma OneHeld(s0: Space, s: Space, job: Job, res: bool)
    requires Inv(s0) && job.end == job.start + 1 && Done(s0, s, job, job.end, res)
    ensures FreeListSafe(s0.refs, s0.freePages) ==>
              (FreeListSafe(s.refs, s.freePages) <==> job.phys !in s0.freePages)
  {
    if FreeListSafe(s0.refs, s0.freePages) {
      SafeIffHeld(s0, s, job, job.end, res);
      HeldSingle(s0, job);
      assert AllHeld(s0, job, job.end) <==> Held(s0, job, job.start);
    }
  }

  /** What giving up before the first page means. */
  lemma NoneDone(s0: Space, s: Space, job: Job, res: bool)
    requires Inv(s0) && job.start <= job.end && Done(s0, s, job, job.start, res)
    ensures Inv(s) && SameHolders(s0.ext, s.ext) && View(s) == View(s0) && FromPool(s0, s) && s.lent <= s0.lent
    ensures FreeListSafe(s0.refs, s0.freePages) ==> FreeListSafe(s.refs, s.freePages)
  {
    assert DoneIn(Growth, s0, s, job, job.start, res);
    JobDone(s0, s, job, job.start, res);
    assert Run(job, job.start) == map[];
  }
}
