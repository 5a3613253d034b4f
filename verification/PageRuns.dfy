/** Whole runs of calls on one address space: what the reference counts and the free list hold at their end. */
module PageRuns {
  import opened Basics
  import opened PageTableShape
  import opened PageCounts
  import opened PageSpace
  import opened PageMapping
  import opened PageGrowth
  import opened PageUnmapping
  import opened PageRemapping
  import opened PageWalk
  import opened PageTables

  datatype Call =
    | Alloc(incrRef: bool)
    | Retain(f: nat)
    | Drop(f: nat)
    | MapOne(vaddr: nat, phyAddr: nat, flags: nat)
    | MapRange(start: nat, end: nat, physical: nat, flags: nat, kernel: bool)
    | UnmapRange(start: nat, end: nat)
    | MoveRange(start: nat, end: nat, oldStart: nat, flags: nat)
    | Protect(start: nat, end: nat, flags: nat, failFast: bool)
    | Reclaim
  {
    function Job(): Job
      requires MapRange?
    {
      MapJob(start, end, physical, flags, kernel)
    }

    function Move(): PageRemapping.Move
      requires MoveRange? && start <= end
    {
      PageRemapping.Move(start / PAGE_SIZE, oldStart / PAGE_SIZE, PagesOf(end - start), flags)
    }
  }

  // What a client may ask for. A call it may not make is not made.

  ghost predicate MayMapOne(pool: seq<nat>, c: Call)
    requires c.MapOne?
  {
    c.vaddr < PAGE_LIMIT * PAGE_SIZE && c.phyAddr % PAGE_SIZE == 0 && c.flags > 0 && c.phyAddr / PAGE_SIZE !in pool
  }

  ghost predicate MayMapRange(pool: seq<nat>, refs: Counts, c: Call)
    requires c.MapRange?
  {
    && c.end <= UPPER_BOTTOM && c.physical % PAGE_SIZE == 0
    && MayMap(pool, refs, c.start, c.end, c.physical, c.flags, c.kernel)
  }

  ghost predicate MayMove(c: Call)
    requires c.MoveRange?
  {
    && c.flags > 0 && c.end <= PAGE_LIMIT * PAGE_SIZE && c.oldStart + (c.end - c.start) <= PAGE_LIMIT * PAGE_SIZE
  }

  ghost predicate MayProtect(c: Call)
    requires c.Protect?
  {
    c.flags > 0 && Canonical(c.start) && c.end <= LOWER_TOP
  }

  /** The call gives no frame a mapping or a reference that has lost its last one. */
  ghost predicate Careful(s: Space, c: Call) {
    match c
    case Retain(f) => f !in s.freePages
    case MapOne(_, phyAddr, _) => phyAddr / PAGE_SIZE !in s.freePages
    case MapRange(_, _, _, _, _) => AllHeld(s, c.Job(), c.Job().end)
    case _ => true
  }

  /** The pool has a page for every table that the call has to add. */
  ghost predicate Supplied(s: Space, c: Call) {
    match c
    case MapOne(vaddr, _, _) => !Short(s, vaddr / PAGE_SIZE, vaddr / PAGE_SIZE + 1)
    case MapRange(_, _, _, _, _) => !Short(s, c.Job().start, c.Job().end)
    case MoveRange(start, end, _, _) => start <= end ==> Affordable(s, c.Move())
    case _ => true
  }

  /** The references that the client holds after the call. */
  ghost function Holding(s: Space, c: Call, mine: multiset<nat>): multiset<nat> {
    match c
    case Alloc(incrRef) => if incrRef && s.pool != [] then mine + multiset{s.pool[0]} else mine
    case Retain(f) => if f in s.refs then mine + multiset{f} else mine
    case Drop(f) => mine - multiset{f}
    case _ => mine
  }

  /** The parts of `Accounts`; see `Unit` in Basics. */
  datatype Account = Balance | Unused

  ghost predicate AccountsIn(a: Account, s: Space, mine: multiset<nat>, stranded: multiset<Option<nat>>) {
    && (a.Balance? ==> Inv(s) && forall f | f in s.ext :: s.ext[f] == mine[f] + stranded[Some(f)])
    && (a.Unused? ==> forall f | f in s.pool :: mine[f] == 0 && stranded[Some(f)] == 0)
  }

  /** The outside references are exactly those the client holds and those that failed moves left behind. */
  ghost predicate Accounts(s: Space, mine: multiset<nat>, stranded: multiset<Option<nat>>) {
    forall a: Account :: AccountsIn(a, s, mine, stranded)
  }

  lemma AccountsInv(s: Space, mine: multiset<nat>, stranded: multiset<Option<nat>>)
    requires Accounts(s, mine, stranded)
    ensures Inv(s)
  {
    assert AccountsIn(Balance, s, mine, stranded);
  }

  lemma Opened(s: Space, mine: multiset<nat>, stranded: multiset<Option<nat>>)
    requires Accounts(s, mine, stranded)
    ensures Inv(s) && s.ext.Keys == s.refs.Keys
    ensures forall f | f in s.ext :: s.ext[f] == mine[f] + stranded[Some(f)]
    ensures forall f | f in s.pool :: mine[f] == 0 && stranded[Some(f)] == 0 && f !in s.refs
  {
    assert AccountsIn(Balance, s, mine, stranded) && AccountsIn(Unused, s, mine, stranded);
    Unfold(s);
  }

  /** A call that leaves the outside references alone keeps the accounts. */
  lemma SameAccounts(s: Space, s': Space, mine: multiset<nat>, stranded: multiset<Option<nat>>)
    requires Accounts(s, mine, stranded) && Inv(s') && SameHolders(s.ext, s'.ext) && FromPool(s, s')
    ensures Accounts(s', mine, stranded)
  {
    Opened(s, mine, stranded);
    SameManaged(s');
  }

  lemma AllocAccounts(s: Space, incrRef: bool, mine: multiset<nat>, stranded: multiset<Option<nat>>)
    requires Accounts(s, mine, stranded) && s.pool != []
    ensures Accounts(Allocated(s, incrRef), Holding(s, Alloc(incrRef), mine), stranded)
  {
    Opened(s, mine, stranded);
    AllocatedKeeps(s, incrRef);
    Unfold(s);
    assert s.pool[0] in s.pool;
  }

  lemma RetainAccounts(s: Space, f: nat, mine: multiset<nat>, stranded: multiset<Option<nat>>)
    requires Accounts(s, mine, stranded)
    ensures Accounts(Referenced(s, f), Holding(s, Retain(f), mine), stranded)
  {
    Opened(s, mine, stranded);
    ReferencedKeeps(s, f);
  }

  lemma DropAccounts(s: Space, f: nat, mine: multiset<nat>, stranded: multiset<Option<nat>>)
    requires Accounts(s, mine, stranded) && f in mine
    ensures f in s.ext ==> s.ext[f] > 0
    ensures Accounts(Dereferenced(s, f), Holding(s, Drop(f), mine), stranded)
  {
    Opened(s, mine, stranded);
    DereferencedKeeps(s, f);
  }

  /** Frames in the pool are owed to nobody. */
  lemma OwedUnpooled(s: Space, from: nat, end: nat, f: nat)
    requires Inv(s) && f in s.pool
    ensures Owed(View(s), from, end)[Some(f)] == 0
  {
    OwedNames(View(s), from, end, f);
    PoolUnseen(s, f);
  }

  lemma OwingAccounts(s: Space, s': Space, from: nat, end: nat, mine: multiset<nat>, stranded: multiset<Option<nat>>)
    requires Accounts(s, mine, stranded) && Inv(s') && FromPool(s, s')
    requires Owing(s.ext, s'.ext, Owed(View(s), from, end))
    ensures Accounts(s', mine, stranded + Owed(View(s), from, end))
  {
    AccountsInv(s, mine, stranded);
    forall f | f in s.pool ensures Owed(View(s), from, end)[Some(f)] == 0 {
      OwedUnpooled(s, from, end, f);
    }
    OwingStep(s, s', Owed(View(s), from, end), mine, stranded);
  }

  lemma OwingStep(s: Space, s': Space, owed: multiset<Option<nat>>, mine: multiset<nat>,
                  stranded: multiset<Option<nat>>)
    requires Accounts(s, mine, stranded) && Inv(s') && FromPool(s, s') && Owing(s.ext, s'.ext, owed)
    requires forall f | f in s.pool :: owed[Some(f)] == 0
    ensures Accounts(s', mine, stranded + owed)
  {
    Opened(s, mine, stranded);
    SameManaged(s');
  }

  lemma ReclaimAccounts(s: Space, s': Space, mine: multiset<nat>, stranded: multiset<Option<nat>>)
    requires Accounts(s, mine, stranded) && FreeListSafe(s.refs, s.freePages)
    requires Inv(s') && Extends(s'.ext, s.ext) && forall f | f in s'.pool :: f in s.pool || f in s.freePages
    ensures Accounts(s', mine, stranded)
  {
    Opened(s, mine, stranded);
    Unfold(s);
  }

  lemma SameTree(s: Space, s': Space)
    requires Trimmed(s) && s'.dir == s.dir && View(s').Keys == View(s).Keys
    ensures Trimmed(s')
  {
    forall n | n in s'.dir && n != ROOT ensures Busy(s', n) {
      TrimmedBusy(s, n);
      assert Busy(s, n);
    }
  }

  // What each call does to the address space. A call that is not made, or is refused, does nothing.

  /** One page mapped, or, if there are too few pages for tables, none and the pool used up. */
  ghost predicate MapsOne(s: Space, c: Call, s': Space)
    requires c.MapOne?
  {
    var v := c.vaddr / PAGE_SIZE;
    if !MayMapOne(s.pool, c) then s' == s
    else
      && Inv(s') && SameHolders(s.ext, s'.ext) && FromPool(s, s') && Balanced(s, s') && s'.lent <= s.lent
      && if Short(s, v, v + 1) then
           && View(s') == View(s) && s'.pool == []
           && (FreeListSafe(s.refs, s.freePages) ==> FreeListSafe(s'.refs, s'.freePages))
           && (Trimmed(s) ==> (Trimmed(s') <==> s.pool == []))
         else
           && View(s') == View(s)[v := Entry(c.phyAddr / PAGE_SIZE, c.flags)]
           && (FreeListSafe(s.refs, s.freePages) ==>
                 (FreeListSafe(s'.refs, s'.freePages) <==> c.phyAddr / PAGE_SIZE !in s.freePages))
           && (Trimmed(s) ==> Trimmed(s'))
  }

  /** The pages below `cut` mapped, which is the end of the range, or the first page for which there are too few pages
      for tables. */
  ghost predicate MapsTo(s: Space, c: Call, cut: nat, s': Space)
    requires c.MapRange?
  {
    var job := c.Job();
    if !MayMapRange(s.pool, s.refs, c) || c.start % PAGE_SIZE != 0 || c.end % PAGE_SIZE != 0 || c.end < c.start
       || c.start >= LOWER_TOP then s' == s
    else
      && job.start <= cut <= job.end && JobResult(s, s', job, cut) && Balanced(s, s')
      && (FreeListSafe(s.refs, s.freePages) ==> (FreeListSafe(s'.refs, s'.freePages) <==> AllHeld(s, job, cut)))
      && if Short(s, job.start, job.end) then
           && cut < job.end && s'.pool == [] && !Short(s, job.start, cut) && Short(s, job.start, cut + 1)
           && (Trimmed(s) ==> (Trimmed(s') <==> JustEnough(s, job.start, cut)))
         else cut == job.end && (Trimmed(s) ==> Trimmed(s'))
  }

  ghost predicate Unmaps(s: Space, c: Call, s': Space)
    requires c.UnmapRange?
  {
    if c.end > PAGE_LIMIT * PAGE_SIZE || c.start % PAGE_SIZE != 0 || c.end % PAGE_SIZE != 0 then s' == s
    else
      && Inv(s') && Shrunk(s, s') && View(s') == Without(View(s), c.start / PAGE_SIZE, c.end / PAGE_SIZE)
      && (Trimmed(s) ==> Trimmed(s'))
  }

  /** A move is asked for, and its addresses are in order. */
  ghost predicate Moving(c: Call) {
    c.MoveRange? && MayMove(c) && c.start % PAGE_SIZE == 0 && c.oldStart % PAGE_SIZE == 0 && c.start <= c.end
  }

  /** The old range gone and its first `k` pages in their new place, which is all of them, or the pool is used up. */
  ghost predicate MovesBy(s: Space, c: Call, k: nat, s': Space)
    requires c.MoveRange?
  {
    if !Moving(c) then s' == s
    else
      var m := c.Move();
      k <= m.count && MoveResult(s, s', m, k, k == m.count) && (k < m.count ==> s'.pool == [])
  }

  /** New flags on the pages visited, and nothing else. */
  ghost predicate Protects(s: Space, c: Call, s': Space)
    requires c.Protect?
  {
    if !MayProtect(c) || c.start % PAGE_SIZE != 0 || c.end % PAGE_SIZE != 0 || c.end < c.start then s' == s
    else
      && Inv(s') && s' == Space(s.root, s'.mem, s.refs, s.pool, s.freePages, s.dir, s.ext, s.lent)
      && exists r, visited ::
           && Visits(s.dir, View(s), Scan(c.start / PAGE_SIZE, c.end / PAGE_SIZE, c.failFast), r, visited)
           && View(s') == Reflagged(View(s), visited, c.flags)
  }

  /** The free pages back in the pool, and no page mapped otherwise. */
  ghost predicate Reclaims(s: Space, s': Space) {
    if !FreeListSafe(s.refs, s.freePages) then s' == s
    else
      && Inv(s') && FreeListSafe(s'.refs, []) && Extends(s'.ext, s.ext)
      && s' == Space(s.root, s.mem, s'.refs, s'.pool, [], s.dir, s'.ext, s.lent)
      && multiset(s'.pool) == multiset(s.pool) + multiset(s.freePages)
  }

  /** What `Follows` says; see `Unit` in Basics. */
  ghost predicate FollowsIn(u: Unit, s: Space, c: Call, mine: multiset<nat>, stop: nat, s': Space) {
    match c
    case Alloc(incrRef) => s' == if s.pool == [] then s else Allocated(s, incrRef)
    case Retain(f) => s' == if f in s.pool then s else Referenced(s, f)
    case Drop(f) => s' == if f in mine then Dereferenced(s, f) else s
    case MapOne(_, _, _) => MapsOne(s, c, s')
    case MapRange(_, _, _, _, _) => MapsTo(s, c, stop, s')
    case UnmapRange(_, _) => Unmaps(s, c, s')
    case MoveRange(_, _, _, _) => MovesBy(s, c, stop, s')
    case Protect(_, _, _, _) => Protects(s, c, s')
    case Reclaim => Reclaims(s, s')
  }

  /** `s'` is what the call makes of `s` for a client who holds `mine`. The mapping or the move of a range ends at
      `stop`. */
  ghost predicate Follows(s: Space, c: Call, mine: multiset<nat>, stop: nat, s': Space) {
    forall u: Unit :: FollowsIn(u, s, c, mine, stop, s')
  }

  /** The frames of the pages that a move did not place. */
  ghost function Unplaced(s: Space, m: Move, k: nat): multiset<Option<nat>> {
    Owed(View(s), m.from + k, m.from + m.count)
  }

  /** The references that the call leaves to nobody. */
  ghost function Leaves(s: Space, c: Call, stop: nat): multiset<Option<nat>> {
    if Moving(c) then Unplaced(s, c.Move(), stop) else multiset{}
  }

  /** What one call does to the client's side of the books. */
  ghost predicate Stepped(s: Space, c: Call, s': Space, mine: multiset<nat>, stranded: multiset<Option<nat>>,
                          stop: nat) {
    && Accounts(s', Holding(s, c, mine), stranded + Leaves(s, c, stop))
    && (Careful(s, c) && FreeListSafe(s.refs, s.freePages) ==> FreeListSafe(s'.refs, s'.freePages))
    && (Supplied(s, c) && Trimmed(s) ==> Trimmed(s') && Leaves(s, c, stop) == multiset{})
    && (c != Alloc(false) ==> s'.lent <= s.lent)
  }

  lemma NothingLeft(s: Space, c: Call, stop: nat, stranded: multiset<Option<nat>>)
    requires !Moving(c)
    ensures Leaves(s, c, stop) == multiset{} && stranded + Leaves(s, c, stop) == stranded
  {
  }

  lemma AllocStep(s: Space, c: Call, s': Space, mine: multiset<nat>, stranded: multiset<Option<nat>>, stop: nat)
    requires c.Alloc? && Accounts(s, mine, stranded) && s' == if s.pool == [] then s else Allocated(s, c.incrRef)
    ensures Stepped(s, c, s', mine, stranded, stop)
  {
    NothingLeft(s, c, stop, stranded);
    AccountsInv(s, mine, stranded);
    if s.pool != [] {
      AllocAccounts(s, c.incrRef, mine, stranded);
      AllocatedKeeps(s, c.incrRef);
      if Trimmed(s) {
        SameTree(s, s');
      }
    }
  }

  lemma RetainStep(s: Space, c: Call, s': Space, mine: multiset<nat>, stranded: multiset<Option<nat>>, stop: nat)
    requires c.Retain? && Accounts(s, mine, stranded) && s' == if c.f in s.pool then s else Referenced(s, c.f)
    ensures Stepped(s, c, s', mine, stranded, stop)
  {
    NothingLeft(s, c, stop, stranded);
    Opened(s, mine, stranded);
    if c.f !in s.pool {
      RetainAccounts(s, c.f, mine, stranded);
      ReferencedKeeps(s, c.f);
      if Trimmed(s) {
        SameTree(s, s');
      }
    }
  }

  lemma DropStep(s: Space, c: Call, s': Space, mine: multiset<nat>, stranded: multiset<Option<nat>>, stop: nat)
    requires c.Drop? && Accounts(s, mine, stranded) && s' == if c.f in mine then Dereferenced(s, c.f) else s
    ensures Stepped(s, c, s', mine, stranded, stop)
  {
    NothingLeft(s, c, stop, stranded);
    AccountsInv(s, mine, stranded);
    if c.f in mine {
      DropAccounts(s, c.f, mine, stranded);
      DereferencedKeeps(s, c.f);
      if Trimmed(s) {
        SameTablesDropped(s, c.f);
      }
    } else {
      assert mine - multiset{c.f} == mine;
    }
  }

  lemma MapOneStep(s: Space, c: Call, s': Space, mine: multiset<nat>, stranded: multiset<Option<nat>>, stop: nat)
    requires c.MapOne? && Accounts(s, mine, stranded) && MapsOne(s, c, s')
    ensures Stepped(s, c, s', mine, stranded, stop)
  {
    NothingLeft(s, c, stop, stranded);
    if s' != s {
      SameAccounts(s, s', mine, stranded);
    }
  }

  lemma MapRangeStep(s: Space, c: Call, s': Space, mine: multiset<nat>, stranded: multiset<Option<nat>>, stop: nat)
    requires c.MapRange? && Accounts(s, mine, stranded) && MapsTo(s, c, stop, s')
    ensures Stepped(s, c, s', mine, stranded, stop)
  {
    NothingLeft(s, c, stop, stranded);
    if s' != s {
      SameAccounts(s, s', mine, stranded);
    }
  }

  lemma UnmapStep(s: Space, c: Call, s': Space, mine: multiset<nat>, stranded: multiset<Option<nat>>, stop: nat)
    requires c.UnmapRange? && Accounts(s, mine, stranded) && Unmaps(s, c, s')
    ensures Stepped(s, c, s', mine, stranded, stop)
  {
    NothingLeft(s, c, stop, stranded);
    if s' != s {
      SameAccounts(s, s', mine, stranded);
    }
  }

  lemma MoveRangeStep(s: Space, c: Call, s': Space, mine: multiset<nat>, stranded: multiset<Option<nat>>, stop: nat)
    requires c.MoveRange? && Accounts(s, mine, stranded) && MovesBy(s, c, stop, s')
    ensures Stepped(s, c, s', mine, stranded, stop)
  {
    if Moving(c) {
      MovingStep(s, s', c.Move(), stop, mine, stranded);
    } else {
      NothingLeft(s, c, stop, stranded);
    }
  }

  lemma MovingStep(s: Space, s': Space, m: Move, k: nat, mine: multiset<nat>, stranded: multiset<Option<nat>>)
    requires Accounts(s, mine, stranded) && MoveResult(s, s', m, k, k == m.count)
    ensures Accounts(s', mine, stranded + Unplaced(s, m, k)) && s'.lent <= s.lent
    ensures FreeListSafe(s.refs, s.freePages) ==> FreeListSafe(s'.refs, s'.freePages)
    ensures Affordable(s, m) && Trimmed(s) ==> Trimmed(s') && Unplaced(s, m, k) == multiset{}
  {
    MoveAccounts(s, s', m, k, mine, stranded);
    MoveCompleted(s, s', m, k);
  }

  lemma MoveAccounts(s: Space, s': Space, m: Move, k: nat, mine: multiset<nat>, stranded: multiset<Option<nat>>)
    requires Accounts(s, mine, stranded) && MoveResult(s, s', m, k, k == m.count)
    ensures Accounts(s', mine, stranded + Unplaced(s, m, k)) && s'.lent <= s.lent
    ensures FreeListSafe(s.refs, s.freePages) ==> FreeListSafe(s'.refs, s'.freePages)
  {
    assert MoveResultIn(Lists, s, s', m, k, k == m.count) && MoveResultIn(Debts, s, s', m, k, k == m.count);
    OwingAccounts(s, s', m.from + k, m.from + m.count, mine, stranded);
  }

  lemma MoveCompleted(s: Space, s': Space, m: Move, k: nat)
    requires MoveResult(s, s', m, k, k == m.count)
    ensures Affordable(s, m) && Trimmed(s) ==> Trimmed(s') && Unplaced(s, m, k) == multiset{}
  {
    assert MoveResultIn(Placement, s, s', m, k, k == m.count);
  }

  lemma ProtectStep(s: Space, c: Call, s': Space, mine: multiset<nat>, stranded: multiset<Option<nat>>, stop: nat)
    requires c.Protect? && Accounts(s, mine, stranded) && Protects(s, c, s')
    ensures Stepped(s, c, s', mine, stranded, stop)
  {
    NothingLeft(s, c, stop, stranded);
    if s' != s {
      SameAccounts(s, s', mine, stranded);
      if Trimmed(s) {
        SameTree(s, s');
      }
    }
  }

  lemma ReclaimStep(s: Space, c: Call, s': Space, mine: multiset<nat>, stranded: multiset<Option<nat>>, stop: nat)
    requires c.Reclaim? && Accounts(s, mine, stranded) && Reclaims(s, s')
    ensures Stepped(s, c, s', mine, stranded, stop)
  {
    NothingLeft(s, c, stop, stranded);
    if FreeListSafe(s.refs, s.freePages) {
      forall f | f in s'.pool ensures f in s.pool || f in s.freePages {
        assert f in multiset(s'.pool);
      }
      ReclaimAccounts(s, s', mine, stranded);
      if Trimmed(s) {
        SameTree(s, s');
      }
    }
  }

  /** Whatever the call, the books go on agreeing with the address space. */
  lemma StepBooks(s: Space, c: Call, s': Space, mine: multiset<nat>, stranded: multiset<Option<nat>>, stop: nat)
    requires Accounts(s, mine, stranded) && Follows(s, c, mine, stop, s')
    ensures Stepped(s, c, s', mine, stranded, stop)
  {
    assert FollowsIn(Unit, s, c, mine, stop, s');
    match c
    case Alloc(_) => AllocStep(s, c, s', mine, stranded, stop);
    case Retain(_) => RetainStep(s, c, s', mine, stranded, stop);
    case Drop(_) => DropStep(s, c, s', mine, stranded, stop);
    case MapOne(_, _, _) => MapOneStep(s, c, s', mine, stranded, stop);
    case MapRange(_, _, _, _, _) => MapRangeStep(s, c, s', mine, stranded, stop);
    case UnmapRange(_, _) => UnmapStep(s, c, s', mine, stranded, stop);
    case MoveRange(_, _, _, _) => MoveRangeStep(s, c, s', mine, stranded, stop);
    case Protect(_, _, _, _) => ProtectStep(s, c, s', mine, stranded, stop);
    case Reclaim => ReclaimStep(s, c, s', mine, stranded, stop);
  }

  // Runs.

  /** The references that the client holds at the end of a run whose states are `trace`. */
  ghost function Holdings(trace: seq<Space>, calls: seq<Call>): multiset<nat>
    requires |trace| > |calls|
  {
    if calls == [] then multiset{}
    else
      var n := |calls| - 1;
      Holding(trace[n], calls[n], Holdings(trace, calls[..n]))
  }

  /** The references that the calls of the run have left to nobody. */
  ghost function Left(trace: seq<Space>, calls: seq<Call>, stops: seq<nat>): multiset<Option<nat>>
    requires |trace| > |calls| && |stops| >= |calls|
  {
    if calls == [] then multiset{}
    else
      var n := |calls| - 1;
      Left(trace, calls[..n], stops) + Leaves(trace[n], calls[n], stops[n])
  }

  /** The pages of the pool and the root are different pages. */
  ghost predicate Fresh(root: nat, pool: seq<nat>) {
    root !in pool && forall i, j | 0 <= i < j < |pool| :: pool[i] != pool[j]
  }

  /** What `Traced` says of the steps; see `Unit` in Basics. */
  ghost predicate TracedIn(u: Unit, trace: seq<Space>, calls: seq<Call>, stops: seq<nat>)
    requires |trace| == |calls| + 1 && |stops| == |calls|
  {
    forall i | 0 <= i < |calls| :: Follows(trace[i], calls[i], Holdings(trace, calls[..i]), stops[i], trace[i + 1])
  }

  /** The run starts with a new address space, and each state follows from the one before by a call. */
  ghost predicate Traced(root: nat, pool: seq<nat>, trace: seq<Space>, calls: seq<Call>, stops: seq<nat>) {
    && |trace| == |calls| + 1 && |stops| == |calls| && trace[0] == NewSpace(root, pool)
    && forall u: Unit :: TracedIn(u, trace, calls, stops)
  }

  ghost predicate AllSupplied(trace: seq<Space>, calls: seq<Call>)
    requires |calls| <= |trace|
  {
    forall i | 0 <= i < |calls| :: Supplied(trace[i], calls[i])
  }

  ghost predicate AllCareful(trace: seq<Space>, calls: seq<Call>)
    requires |calls| <= |trace|
  {
    forall i | 0 <= i < |calls| :: Careful(trace[i], calls[i])
  }

  lemma {:induction false} HeldSame(trace: seq<Space>, s: Space, calls: seq<Call>)
    requires |trace| > |calls|
    ensures Holdings(trace + [s], calls) == Holdings(trace, calls)
    decreases |calls|
  {
    if calls != [] {
      HeldSame(trace, s, calls[..|calls| - 1]);
    }
  }

  lemma {:induction false} LeftSame(trace: seq<Space>, s: Space, calls: seq<Call>, stops: seq<nat>, stop: nat)
    requires |trace| > |calls| && |stops| >= |calls|
    ensures Left(trace + [s], calls, stops + [stop]) == Left(trace, calls, stops)
    decreases |calls|
  {
    if calls != [] {
      LeftSame(trace, s, calls[..|calls| - 1], stops, stop);
    }
  }

  lemma HeldStep(trace: seq<Space>, calls: seq<Call>, stops: seq<nat>, c: Call, s: Space, stop: nat)
    requires |trace| == |calls| + 1 && |stops| == |calls|
    ensures Holdings(trace + [s], calls + [c]) == Holding(trace[|calls|], c, Holdings(trace, calls))
    ensures Left(trace + [s], calls + [c], stops + [stop]) ==
            Left(trace, calls, stops) + Leaves(trace[|calls|], c, stop)
  {
    assert (calls + [c])[..|calls|] == calls;
    HeldSame(trace, s, calls);
    LeftSame(trace, s, calls, stops, stop);
  }

  /** One call more. */
  lemma TracedStep(root: nat, pool: seq<nat>, trace: seq<Space>, calls: seq<Call>, stops: seq<nat>, c: Call, s: Space,
                   stop: nat)
    requires Traced(root, pool, trace, calls, stops)
    requires Follows(trace[|calls|], c, Holdings(trace, calls), stop, s)
    ensures Traced(root, pool, trace + [s], calls + [c], stops + [stop])
  {
    var trace', calls', stops' := trace + [s], calls + [c], stops + [stop];
    assert TracedIn(Unit, trace, calls, stops);
    forall i | 0 <= i < |calls'|
      ensures Follows(trace'[i], calls'[i], Holdings(trace', calls'[..i]), stops'[i], trace'[i + 1])
    {
      HeldSame(trace, s, calls[..i]);
      assert calls'[..i] == calls[..i];
      if i < |calls| {
        assert trace'[i + 1] == trace[i + 1];
      } else {
        assert calls[..i] == calls;
      }
    }
  }

  /** Whether the pool had a page for every table needed, all calls were careful, and none lent a page. */
  datatype Conduct = Conduct(supplied: bool, careful: bool, unlent: bool)

  ghost function ConductAfter(conduct: Conduct, s: Space, c: Call): Conduct {
    Conduct(conduct.supplied && Supplied(s, c), conduct.careful && Careful(s, c), conduct.unlent && c != Alloc(false))
  }

  ghost function ConductOf(trace: seq<Space>, calls: seq<Call>): Conduct
    requires |calls| <= |trace|
  {
    if calls == [] then Conduct(true, true, true)
    else
      var n := |calls| - 1;
      ConductAfter(ConductOf(trace, calls[..n]), trace[n], calls[n])
  }

  lemma {:induction false} ConductIs(trace: seq<Space>, calls: seq<Call>)
    requires |calls| <= |trace|
    ensures ConductOf(trace, calls) ==
            Conduct(AllSupplied(trace, calls), AllCareful(trace, calls), Alloc(false) !in calls)
    decreases |calls|
  {
    if calls != [] {
      ConductIs(trace, calls[..|calls| - 1]);
      SuppliedStep(trace, calls);
      CarefulStep(trace, calls);
      assert calls == calls[..|calls| - 1] + [calls[|calls| - 1]];
    }
  }

  lemma SuppliedStep(trace: seq<Space>, calls: seq<Call>)
    requires calls != [] && |calls| <= |trace|
    ensures var n := |calls| - 1;
            AllSupplied(trace, calls) <==> AllSupplied(trace, calls[..n]) && Supplied(trace[n], calls[n])
  {
    assert forall i | 0 <= i < |calls| - 1 :: calls[..|calls| - 1][i] == calls[i];
  }

  lemma CarefulStep(trace: seq<Space>, calls: seq<Call>)
    requires calls != [] && |calls| <= |trace|
    ensures var n := |calls| - 1;
            AllCareful(trace, calls) <==> AllCareful(trace, calls[..n]) && Careful(trace[n], calls[n])
  {
    assert forall i | 0 <= i < |calls| - 1 :: calls[..|calls| - 1][i] == calls[i];
  }

  /** What `Books` says; see `Unit` in Basics. */
  ghost predicate BooksIn(u: Unit, s: Space, mine: multiset<nat>, stranded: multiset<Option<nat>>, conduct: Conduct) {
    && Accounts(s, mine, stranded) && (conduct.supplied ==> stranded == multiset{} && Trimmed(s))
    && (conduct.careful ==> FreeListSafe(s.refs, s.freePages)) && (conduct.unlent ==> s.lent == {})
  }

  /** The books of a client: the outside references are those the client holds and those that failed moves left behind.
      The latter are none, and no table is empty, if all calls were supplied; the free list is sound if all were
      careful. */
  ghost predicate Books(s: Space, mine: multiset<nat>, stranded: multiset<Option<nat>>, conduct: Conduct) {
    forall u: Unit :: BooksIn(u, s, mine, stranded, conduct)
  }

  lemma BooksStep(s: Space, c: Call, s': Space, mine: multiset<nat>, stranded: multiset<Option<nat>>, stop: nat,
                  conduct: Conduct)
    requires Books(s, mine, stranded, conduct) && Follows(s, c, mine, stop, s')
    ensures Books(s', Holding(s, c, mine), stranded + Leaves(s, c, stop), ConductAfter(conduct, s, c))
  {
    assert BooksIn(Unit, s, mine, stranded, conduct);
    StepBooks(s, c, s', mine, stranded, stop);
  }

  /** What the first `n + 1` calls come to. */
  lemma PrefixStep(trace: seq<Space>, calls: seq<Call>, stops: seq<nat>, n: nat)
    requires n < |calls| < |trace| && |calls| <= |stops|
    ensures Holdings(trace, calls[..n + 1]) == Holding(trace[n], calls[n], Holdings(trace, calls[..n]))
    ensures Left(trace, calls[..n + 1], stops) == Left(trace, calls[..n], stops) + Leaves(trace[n], calls[n], stops[n])
    ensures ConductOf(trace, calls[..n + 1]) == ConductAfter(ConductOf(trace, calls[..n]), trace[n], calls[n])
  {
    assert calls[..n + 1][..n] == calls[..n];
  }

  /** At every moment of every run the outside references are those the client holds and those that failed moves left
      behind, which are none, and no table is empty, as long as the pool had a page for each table needed. If no frame
      was mapped or referenced after it had lost its last reference, the free list is sound. */
  lemma {:induction false} RunBooks(root: nat, pool: seq<nat>, trace: seq<Space>, calls: seq<Call>, stops: seq<nat>,
                                    n: nat)
    requires Fresh(root, pool) && Traced(root, pool, trace, calls, stops) && n <= |calls|
    ensures Books(trace[n], Holdings(trace, calls[..n]), Left(trace, calls[..n], stops), ConductOf(trace, calls[..n]))
  {
    if n == 0 {
      StartBooks(root, pool);
    } else {
      RunBooks(root, pool, trace, calls, stops, n - 1);
      assert TracedIn(Unit, trace, calls, stops);
      PrefixBooks(trace, calls, stops, n - 1);
    }
  }

  lemma PrefixBooks(trace: seq<Space>, calls: seq<Call>, stops: seq<nat>, n: nat)
    requires n < |calls| < |trace| && |calls| <= |stops|
    requires Follows(trace[n], calls[n], Holdings(trace, calls[..n]), stops[n], trace[n + 1])
    requires Books(trace[n], Holdings(trace, calls[..n]), Left(trace, calls[..n], stops), ConductOf(trace, calls[..n]))
    ensures Books(trace[n + 1], Holdings(trace, calls[..n + 1]), Left(trace, calls[..n + 1], stops),
                  ConductOf(trace, calls[..n + 1]))
  {
    var made := calls[..n];
    PrefixStep(trace, calls, stops, n);
    BooksStep(trace[n], calls[n], trace[n + 1], Holdings(trace, made), Left(trace, made, stops), stops[n],
              ConductOf(trace, made));
  }

  lemma RunAccounts(root: nat, pool: seq<nat>, trace: seq<Space>, calls: seq<Call>, stops: seq<nat>)
    requires Fresh(root, pool) && Traced(root, pool, trace, calls, stops)
    ensures Accounts(trace[|calls|], Holdings(trace, calls), Left(trace, calls, stops))
  {
    RunBooks(root, pool, trace, calls, stops, |calls|);
    assert calls[..|calls|] == calls;
    assert BooksIn(Unit, trace[|calls|], Holdings(trace, calls), Left(trace, calls, stops), ConductOf(trace, calls));
  }

  /** At every moment of every run the count of each managed frame is what the books say, and, if all calls were
      careful, the free list holds exactly the frames without references that are not lent, each once. */
  lemma RunSettled(root: nat, pool: seq<nat>, trace: seq<Space>, calls: seq<Call>, stops: seq<nat>, n: nat)
    requires Fresh(root, pool) && Traced(root, pool, trace, calls, stops) && n <= |calls|
    ensures var s, mine, stranded := trace[n], Holdings(trace, calls[..n]), Left(trace, calls[..n], stops);
            && Inv(s)
            && (forall f | f in s.refs ::
                  s.refs[f] == mine[f] + stranded[Some(f)] + |Naming(View(s), f)| + TableRefs(s.dir, f))
            && (AllSupplied(trace, calls[..n]) ==> stranded == multiset{} && Trimmed(s))
            && (AllCareful(trace, calls[..n]) ==>
                  && (forall f :: f in s.freePages <==> f in s.refs && s.refs[f] == 0 && f !in s.lent)
                  && (forall i, j | 0 <= i < j < |s.freePages| :: s.freePages[i] != s.freePages[j]))
            && (Alloc(false) !in calls[..n] ==> s.lent == {})
  {
    var s, mine, stranded := trace[n], Holdings(trace, calls[..n]), Left(trace, calls[..n], stops);
    RunBooks(root, pool, trace, calls, stops, n);
    assert BooksIn(Unit, s, mine, stranded, ConductOf(trace, calls[..n]));
    ConductIs(trace, calls[..n]);
    Settled(s, mine, stranded);
  }

  /** What the run has come to at its end. */
  lemma RunEnds(root: nat, pool: seq<nat>, trace: seq<Space>, calls: seq<Call>, stops: seq<nat>, s: Space,
                mine: multiset<nat>, stranded: multiset<Option<nat>>)
    requires Fresh(root, pool) && Traced(root, pool, trace, calls, stops)
    requires s == trace[|calls|] && mine == Holdings(trace, calls) && stranded == Left(trace, calls, stops)
    ensures Inv(s)
    ensures forall f | f in s.refs ::
              s.refs[f] == mine[f] + stranded[Some(f)] + |Naming(View(s), f)| + TableRefs(s.dir, f)
    ensures AllSupplied(trace, calls) ==> stranded == multiset{} && Trimmed(s)
    ensures AllCareful(trace, calls) ==>
              && (forall f :: f in s.freePages <==> f in s.refs && s.refs[f] == 0 && f !in s.lent)
              && (forall i, j | 0 <= i < j < |s.freePages| :: s.freePages[i] != s.freePages[j])
    ensures Alloc(false) !in calls ==> s.lent == {}
  {
    assert calls[..|calls|] == calls;
    RunSettled(root, pool, trace, calls, stops, |calls|);
  }

  /** What the accounts say of the counts and of the free list. */
  lemma Settled(s: Space, mine: multiset<nat>, stranded: multiset<Option<nat>>)
    requires Accounts(s, mine, stranded)
    ensures Inv(s)
    ensures forall f | f in s.refs ::
              s.refs[f] == mine[f] + stranded[Some(f)] + |Naming(View(s), f)| + TableRefs(s.dir, f)
    ensures FreeListSafe(s.refs, s.freePages) ==>
              forall f :: f in s.freePages <==> f in s.refs && s.refs[f] == 0 && f !in s.lent
  {
    Opened(s, mine, stranded);
    Unfold(s);
  }

  lemma StartBooks(root: nat, pool: seq<nat>)
    requires Fresh(root, pool)
    ensures Books(NewSpace(root, pool), multiset{}, multiset{}, Conduct(true, true, true))
  {
    InitialSpace(root, pool);
  }

  // Making the calls.

  method MakeMapRange(pt: PageTables, c: Call) returns (ghost cut: nat)
    requires c.MapRange? && pt.Valid()
    modifies pt
    ensures MapsTo(old(pt.State()), c, cut, pt.State())
  {
    cut := 0;
    var last := PagesOf(Min(c.end, LOWER_TOP));
    if c.end <= UPPER_BOTTOM && c.physical % PAGE_SIZE == 0 && c.flags > 0 &&
       forall v | c.start / PAGE_SIZE <= v < last && c.start <= v * PAGE_SIZE ::
         var f := c.physical / PAGE_SIZE + (v - c.start / PAGE_SIZE);
         f !in pt.pool && (c.kernel ==> f !in pt.refs)
    {
      assert MayMapRange(pt.pool, pt.refs, c);
      var r;
      r, cut := pt.Map(c.start, c.end, c.physical, c.flags, c.kernel);
    }
  }

  method MakeMapOne(pt: PageTables, c: Call)
    requires c.MapOne? && pt.Valid()
    modifies pt
    ensures MapsOne(old(pt.State()), c, pt.State())
  {
    if c.vaddr < PAGE_LIMIT * PAGE_SIZE && c.phyAddr % PAGE_SIZE == 0 && c.flags > 0 &&
       c.phyAddr / PAGE_SIZE !in pt.pool
    {
      var r := pt.MapPage(c.vaddr, c.phyAddr, c.flags);
    }
  }

  method MakeUnmap(pt: PageTables, c: Call)
    requires c.UnmapRange? && pt.Valid()
    modifies pt
    ensures Unmaps(old(pt.State()), c, pt.State())
  {
    if c.end <= PAGE_LIMIT * PAGE_SIZE {
      var r := pt.Unmap(c.start, c.end);
    }
  }

  method MakeMove(pt: PageTables, c: Call) returns (ghost k: nat)
    requires c.MoveRange? && pt.Valid()
    modifies pt
    ensures MovesBy(old(pt.State()), c, k, pt.State())
  {
    k := 0;
    if c.flags > 0 && c.end <= PAGE_LIMIT * PAGE_SIZE && c.oldStart + (c.end - c.start) <= PAGE_LIMIT * PAGE_SIZE {
      var r;
      r, k := pt.Remap(c.start, c.end, c.oldStart, c.flags);
    }
  }

  method MakeProtect(pt: PageTables, c: Call)
    requires c.Protect? && pt.Valid()
    modifies pt
    ensures Protects(old(pt.State()), c, pt.State())
  {
    if c.flags > 0 && (c.start < PAGE_LIMIT * PAGE_SIZE || UPPER_BOTTOM <= c.start < 0x1_0000_0000_0000_0000) &&
       c.end <= LOWER_TOP
    {
      var r, visited := pt.MProtect(c.start, c.end, c.flags, c.failFast);
    }
  }

  method MakeReclaim(pt: PageTables)
    requires pt.Valid()
    modifies pt
    ensures Reclaims(old(pt.State()), pt.State())
  {
    if FreeListSafe(pt.refs, pt.freePages) {
      pt.FreePages();
    }
  }

  method MakeAlloc(pt: PageTables, incrRef: bool, mine: multiset<nat>) returns (mine': multiset<nat>)
    requires pt.Valid()
    modifies pt
    ensures pt.State() == if old(pt.pool) == [] then old(pt.State()) else Allocated(old(pt.State()), incrRef)
    ensures mine' == Holding(old(pt.State()), Alloc(incrRef), mine)
  {
    var r := pt.AllocPage(incrRef);
    mine' := if incrRef && r.Ok? then mine + multiset{r.value} else mine;
  }

  method MakeRetain(pt: PageTables, f: nat, mine: multiset<nat>) returns (mine': multiset<nat>)
    requires pt.Valid()
    modifies pt
    ensures pt.State() == if f in old(pt.pool) then old(pt.State()) else Referenced(old(pt.State()), f)
    ensures mine' == Holding(old(pt.State()), Retain(f), mine)
  {
    mine' := if f in pt.refs then mine + multiset{f} else mine;
    if f !in pt.pool {
      pt.Ref(f);
    }
  }

  method MakeDrop(pt: PageTables, f: nat, mine: multiset<nat>, ghost stranded: multiset<Option<nat>>)
    returns (mine': multiset<nat>)
    requires Accounts(pt.State(), mine, stranded)
    modifies pt
    ensures pt.State() == if f in mine then Dereferenced(old(pt.State()), f) else old(pt.State())
    ensures mine' == Holding(old(pt.State()), Drop(f), mine)
  {
    mine' := mine - multiset{f};
    if f in mine {
      AccountsInv(pt.State(), mine, stranded);
      DropAccounts(pt.State(), f, mine, stranded);
      pt.DropRef(f);
    }
  }

  method Perform(pt: PageTables, c: Call, mine: multiset<nat>, ghost stranded: multiset<Option<nat>>)
    returns (mine': multiset<nat>, ghost stop: nat)
    requires Accounts(pt.State(), mine, stranded)
    modifies pt
    ensures Follows(old(pt.State()), c, mine, stop, pt.State()) && mine' == Holding(old(pt.State()), c, mine)
  {
    AccountsInv(pt.State(), mine, stranded);
    mine', stop := mine, 0;
    match c
    case Alloc(incrRef) => mine' := MakeAlloc(pt, incrRef, mine);
    case Retain(f) => mine' := MakeRetain(pt, f, mine);
    case Drop(f) => mine' := MakeDrop(pt, f, mine, stranded);
    case MapOne(_, _, _) => MakeMapOne(pt, c);
    case MapRange(_, _, _, _, _) => stop := MakeMapRange(pt, c);
    case UnmapRange(_, _) => MakeUnmap(pt, c);
    case MoveRange(_, _, _, _) => stop := MakeMove(pt, c);
    case Protect(_, _, _, _) => MakeProtect(pt, c);
    case Reclaim => MakeReclaim(pt);
  }

  /** What `Reached` says; see `Unit` in Basics. */
  ghost predicate ReachedIn(u: Unit, root: nat, pool: seq<nat>, trace: seq<Space>, calls: seq<Call>, stops: seq<nat>,
                            s: Space, mine: multiset<nat>) {
    Traced(root, pool, trace, calls, stops) && s == trace[|calls|] && mine == Holdings(trace, calls)
  }

  /** The calls have led to `s`, with `mine` held by the client. */
  ghost predicate Reached(root: nat, pool: seq<nat>, trace: seq<Space>, calls: seq<Call>, stops: seq<nat>, s: Space,
                          mine: multiset<nat>) {
    forall u: Unit :: ReachedIn(u, root, pool, trace, calls, stops, s, mine)
  }

  /** Makes one call more. */
  method Advance(pt: PageTables, c: Call, mine: multiset<nat>, ghost root: nat, ghost pool: seq<nat>,
                 ghost trace: seq<Space>, ghost calls: seq<Call>, ghost stops: seq<nat>)
    returns (mine': multiset<nat>, ghost stop: nat)
    requires Fresh(root, pool) && Reached(root, pool, trace, calls, stops, pt.State(), mine)
    modifies pt
    ensures Reached(root, pool, trace + [pt.State()], calls + [c], stops + [stop], pt.State(), mine')
  {
    assert ReachedIn(Unit, root, pool, trace, calls, stops, pt.State(), mine);
    RunAccounts(root, pool, trace, calls, stops);
    mine', stop := Perform(pt, c, mine, Left(trace, calls, stops));
    HeldStep(trace, calls, stops, c, pt.State(), stop);
    TracedStep(root, pool, trace, calls, stops, c, pt.State(), stop);
  }

  /** Makes the calls one after the other on a new address space. */
  method Play(root: nat, pool: seq<nat>, calls: seq<Call>)
    returns (pt: PageTables, mine: multiset<nat>, ghost trace: seq<Space>, ghost stops: seq<nat>)
    requires Fresh(root, pool)
    ensures fresh(pt) && Reached(root, pool, trace, calls, stops, pt.State(), mine)
  {
    pt := new PageTables(root, pool);
    mine, trace, stops := multiset{}, [pt.State()], [];
    for n := 0 to |calls|
      invariant fresh(pt) && Reached(root, pool, trace, calls[..n], stops, pt.State(), mine)
    {
      ghost var stop;
      mine, stop := Advance(pt, calls[n], mine, root, pool, trace, calls[..n], stops);
      trace, stops := trace + [pt.State()], stops + [stop];
      assert calls[..n + 1] == calls[..n] + [calls[n]];
    }
    assert calls[..|calls|] == calls;
  }

  /** Makes the calls one after the other on a new address space; the states between are those that the calls lead to.
      At the end the count of every managed frame is the number of references the client holds to it, plus one for
      each page naming it, plus one if it is a table, plus what failed moves left behind, which is nothing as long as
      the pool had a page for each table needed. If no frame was mapped or referenced after it had lost its last
      reference, the free list holds exactly the frames without references, each once, the pages lent out and not yet
      referenced aside. */
  method Execute(root: nat, pool: seq<nat>, calls: seq<Call>)
    returns (pt: PageTables, mine: multiset<nat>, ghost stranded: multiset<Option<nat>>, ghost trace: seq<Space>,
             ghost stops: seq<nat>)
    requires Fresh(root, pool)
    ensures fresh(pt) && pt.Valid()
    ensures Traced(root, pool, trace, calls, stops) && trace[|calls|] == pt.State()
    ensures mine == Holdings(trace, calls) && stranded == Left(trace, calls, stops)
    ensures forall f | f in pt.refs ::
              pt.refs[f] == mine[f] + stranded[Some(f)] + |Naming(pt.View(), f)| + TableRefs(pt.dir, f)
    ensures AllSupplied(trace, calls) ==> stranded == multiset{} && Trimmed(pt.State())
    ensures AllCareful(trace, calls) ==>
              && (forall f :: f in pt.freePages <==> f in pt.refs && pt.refs[f] == 0 && f !in pt.lent)
              && (forall i, j | 0 <= i < j < |pt.freePages| :: pt.freePages[i] != pt.freePages[j])
    ensures Alloc(false) !in calls ==> pt.lent == {}
  {
    pt, mine, trace, stops := Play(root, pool, calls);
    assert ReachedIn(Unit, root, pool, trace, calls, stops, pt.State(), mine);
    stranded := Left(trace, calls, stops);
    RunEnds(root, pool, trace, calls, stops, pt.State(), mine, stranded);
  }

  // Two failures, and what they leave behind.

  lemma FirstPageTables()
    ensures Needed(0, 1) == {Node(3, 0), Node(2, 0), Node(1, 0)}
  {
    assert Prefix(0, 1) == 0 && Prefix(0, 2) == 0 && Prefix(0, 3) == 0;
    OnTheWay(0, 1, 0, 1);
    OnTheWay(0, 1, 0, 2);
    OnTheWay(0, 1, 0, 3);
  }

  lemma FirstPageMissing(s: Space)
    requires s.dir.Keys == {ROOT}
    ensures Size(Missing(s, 0, 1)) == 3
  {
    FirstPageTables();
    SizeIs(Missing(s, 0, 1));
    assert Missing(s, 0, 1) == {Node(3, 0), Node(2, 0), Node(1, 0)};
  }

  /** With one page in the pool the first mapping fails, and leaves that page in the tree as an empty table. */
  method TableLeftBehind() returns (pt: PageTables, r: Result<bool>)
    ensures fresh(pt) && pt.Valid() && r == Err(NoEnoughMemory) && pt.View() == map[] && !Trimmed(pt.State())
  {
    pt := new PageTables(100, [1]);
    FirstPageMissing(pt.State());
    r := pt.MapPage(0, 500 * PAGE_SIZE, 7);
  }

  /** A frame handed out to the client. */
  method OneFrame() returns (pt: PageTables)
    ensures fresh(pt) && pt.Valid() && Trimmed(pt.State()) && pt.View() == map[]
    ensures pt.dir.Keys == {ROOT} && pt.pool == [1, 2, 3] && 9 in pt.ext && pt.ext[9] == 1
  {
    pt := new PageTables(100, [9, 1, 2, 3]);
    ghost var s := pt.State();
    var r := pt.AllocPage(true);
    SameTree(s, pt.State());
  }

  /** Page 0 mapped onto a frame that the client has let go, and no page left in the pool. */
  method OnePage() returns (pt: PageTables)
    ensures fresh(pt) && pt.Valid() && Trimmed(pt.State()) && pt.View() == map[0 := Entry(9, 7)] && pt.pool == []
    ensures 9 in pt.ext && pt.ext[9] == 0
  {
    pt := OneFrame();
    ghost var s := pt.State();
    FirstPageMissing(s);
    var r := pt.MapPage(0, 9 * PAGE_SIZE, 7);
    AllUsed(s, pt.State());
    pt.DropRef(9);
  }

  lemma AllUsed(s0: Space, s: Space)
    requires s0.dir.Keys == {ROOT} && |s0.pool| == 3 && Balanced(s0, s)
    requires Inv(s) && Trimmed(s) && View(s) == map[0 := Entry(9, 7)]
    ensures s.pool == []
  {
    assert BalancedIn(Unit, s0, s);
    TrimmedCount(s);
    SizeIs(TablesOf(View(s)));
    assert Prefix(0, 1) == 0 && Prefix(0, 2) == 0 && Prefix(0, 3) == 0;
    assert TablesOf(View(s)) == {Node(3, 0), Node(2, 0), Node(1, 0)};
  }

  lemma CannotMove(s: Space, m: Move)
    requires View(s) == map[0 := Entry(9, 7)] && s.pool == [] && m == PageRemapping.Move(0x800_0000, 0, 1, 7)
    ensures !Affordable(s, m)
  {
    var gone, there := Without(View(s), 0, 1), Relocated(View(s), m, 1);
    assert gone == map[];
    SizeIs(TablesOf(gone));
    assert TablesOf(gone) == {};
    assert m.Source(0x800_0000) == 0 && 0x800_0000 in there;
    SizeIs(TablesOf(there));
    assert Node(1, Prefix(0x800_0000, 1)) in TablesOf(there);
    assert !AffordableIn(Unit, s, m);
  }

  /** A move that finds the pool empty leaves the frame referenced by nobody the client knows of: it is mapped nowhere,
      and the only reference to it was taken by the move. */
  method FrameStranded() returns (pt: PageTables, r: Result<bool>)
    ensures fresh(pt) && pt.Valid() && r == Err(NoEnoughMemory) && pt.View() == map[]
    ensures 9 in pt.ext && pt.ext[9] == 1
  {
    pt := OnePage();
    ghost var s := pt.State();
    ghost var m := PageRemapping.Move(0x800_0000, 0, 1, 7);
    CannotMove(s, m);
    ghost var k;
    r, k := MoveFirst(pt);
    Stranded(s, pt.State(), m, k, r.Ok?);
  }

  /** Moves page 0 far away. */
  method MoveFirst(pt: PageTables) returns (r: Result<bool>, ghost k: nat)
    requires pt.Valid()
    modifies pt
    ensures MoveResult(old(pt.State()), pt.State(), PageRemapping.Move(0x800_0000, 0, 1, 7), k, r.Ok?)
    ensures k <= 1 && (r.Err? ==> k < 1 && r.error == NoEnoughMemory)
  {
    r, k := pt.Remap(0x800_0000 * PAGE_SIZE, 0x800_0001 * PAGE_SIZE, 0, 7);
  }

  lemma Stranded(s: Space, s': Space, m: Move, k: nat, ok: bool)
    requires Trimmed(s) && View(s) == map[0 := Entry(9, 7)] && s.pool == [] && 9 in s.ext && s.ext[9] == 0
    requires m == PageRemapping.Move(0x800_0000, 0, 1, 7) && !Affordable(s, m)
    requires MoveResult(s, s', m, k, ok) && k <= 1 && (!ok ==> k < 1)
    ensures !ok && Inv(s') && View(s') == map[] && 9 in s'.ext && s'.ext[9] == 1
  {
    assert MoveResultIn(Placement, s, s', m, k, ok);
    MoveNone(View(s), m);
    StrandedOne(s, s', m, ok);
  }

  lemma StrandedOne(s: Space, s': Space, m: Move, ok: bool)
    requires View(s) == map[0 := Entry(9, 7)] && 9 in s.ext && s.ext[9] == 0 && m.from == 0 && m.count == 1
    requires MoveResult(s, s', m, 0, ok)
    ensures Inv(s') && 9 in s'.ext && s'.ext[9] == 1
  {
    assert MoveResultIn(Lists, s, s', m, 0, ok) && MoveResultIn(Debts, s, s', m, 0, ok);
    assert Owed(View(s), 0, 1) == multiset{Some(9)} + Owed(View(s), 1, 1);
  }
}
