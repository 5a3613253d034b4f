/** Properties of page tables that follow from the invariant alone. */
module PageTheorems {
  import opened PageTableShape
  import opened PageCounts
  import opened PageSpace
  import opened PageMapping
  import opened PageGrowth
  import opened PageWalk

  /** The memory of the tree determines its directory, so what it maps is a function of memory. */
  lemma DirectoryUnique(root: nat, mem: Memory, dir: Directory, dir': Directory)
    requires Shape(root, mem, dir) && Shape(root, mem, dir')
    ensures dir == dir'
  {
    forall n: Node ensures n in dir <==> n in dir' {
      SameNode(root, mem, dir, dir', n);
    }
    forall n | n in dir ensures dir[n] == dir'[n] {
      SameNode(root, mem, dir, dir', n);
    }
  }

  lemma {:induction false} SameNode(root: nat, mem: Memory, dir: Directory, dir': Directory, n: Node)
    requires Shape(root, mem, dir) && Shape(root, mem, dir')
    ensures n in dir <==> n in dir'
    ensures n in dir ==> dir[n] == dir'[n]
    decreases if n.level < 4 then 4 - n.level else 0
  {
    if 1 <= n.level <= 3 {
      SameNode(root, mem, dir, dir', n.Parent());
      assert Link(mem, dir, n) == Link(mem, dir', n);
    }
  }

  /** Without empty tables, the tables of the tree are exactly the prefixes of the pages mapped: any two
      address spaces that map the same pages have trees of the same shape. */
  lemma TablesArePrefixes(s: Space, n: Node)
    requires Inv(s) && Trimmed(s) && 1 <= n.level <= 3
    ensures n in s.dir <==> exists v: nat :: v in View(s) && Prefix(v, n.level) == n.prefix
  {
    if n in s.dir {
      var v := PageUnder(s, n);
    }
    forall v: nat | v in View(s) && Prefix(v, n.level) == n.prefix ensures n in s.dir {
      PathToPage(s, v);
    }
  }

  /** A traversal that does not fail fast reaches every mapped page of the range exactly when none of them lies in the
      two intervals that its first two steps leave out. */
  lemma CoverageIff(s: Space, start: nat, end: nat)
    requires Inv(s) && start <= end <= PAGE_LIMIT
    ensures (forall v | v in View(s) && start <= v < end :: v in Walk(s.dir, View(s), start, end))
       <==> (forall v | v in View(s) && start <= v < end ::
               && !(Boundary(s.dir, start) <= v < Next(s.dir, start))
               && !(Boundary(s.dir, Next(s.dir, start)) <= v < Next(s.dir, Next(s.dir, start))))
  {
    forall v | start <= v < end
      ensures v in Walk(s.dir, View(s), start, end) <==> v in View(s) && !Missed(s.dir, start, end, v)
    {
      VisitsIff(s, start, end, v);
    }
    forall v | start <= v < end
      ensures Missed(s.dir, start, end, v) <==>
              || Boundary(s.dir, start) <= v < Next(s.dir, start)
              || Boundary(s.dir, Next(s.dir, start)) <= v < Next(s.dir, Next(s.dir, start))
    {
    }
  }

  /** So it reaches them all from a start that is a multiple of 1 GiB, and from any settled start. */
  lemma CoverageFromRoundStart(s: Space, start: nat, end: nat)
    requires Inv(s) && start <= end <= PAGE_LIMIT && (Rest(start, 2) == 0 || Settled(s.dir, start))
    ensures forall v | v in View(s) && start <= v < end :: v in Walk(s.dir, View(s), start, end)
  {
    forall v | v in View(s) && start <= v < end ensures v in Walk(s.dir, View(s), start, end) {
      WalkVisits(s, start, end, v);
      SettledSkipsNothing(s.dir, start, end, v);
    }
  }

  lemma {:induction false} WalkAscends(dir: Directory, pages: map<nat, Entry>, c: nat, end: nat)
    ensures Ascending(Walk(dir, pages, c, end))
    decreases end - c
  {
    if c < end {
      WalkAscends(dir, pages, Next(dir, c), end);
      WalkAhead(dir, pages, Next(dir, c), end);
      if c in pages {
        AscendingCons(c, Walk(dir, pages, Next(dir, c), end));
      } else {
        assert [] + Walk(dir, pages, Next(dir, c), end) == Walk(dir, pages, Next(dir, c), end);
      }
    }
  }

  ghost predicate Ascending(w: seq<nat>) {
    forall i, j | 0 <= i < j < |w| :: w[i] < w[j]
  }

  lemma AscendingCons(c: nat, w: seq<nat>)
    requires Ascending(w) && forall u | u in w :: c < u
    ensures Ascending([c] + w)
  {
    var cw := [c] + w;
    forall i, j | 0 <= i < j < |cw| ensures cw[i] < cw[j] {
      assert cw[j] == w[j - 1] && w[j - 1] in w;
      assert i > 0 ==> cw[i] == w[i - 1];
    }
  }

  /** Hanging the next page of the pool into the tree as the table of `n`. */
  lemma Grow(s: Space, n: Node) returns (s': Space)
    requires Inv(s) && 1 <= n.level <= 3 && n.Parent() in s.dir && n !in s.dir && s.pool != []
    ensures Inv(s') && View(s') == View(s) && s'.dir == s.dir[n := s.pool[0]] && s'.pool == s.pool[1..]
    ensures s'.freePages == s.freePages && s'.lent == s.lent && s'.refs.Keys == s.refs.Keys + {s.pool[0]}
  {
    AllocatedKeeps(s, true);
    HungKeeps(Allocated(s, true), n, s.pool[0], 7);
    s' := Hung(Allocated(s, true), n, s.pool[0], 7);
  }

  /** The three tables on the way to page `v`, which is the first in its upper directory. */
  lemma GrowPath(s: Space, v: nat) returns (s': Space)
    requires Inv(s) && |s.pool| >= 3 && v < PAGE_LIMIT && Node(3, Prefix(v, 3)) !in s.dir
    ensures Inv(s') && View(s') == View(s) && s'.pool == s.pool[3..] && s'.freePages == s.freePages && s'.lent == s.lent
    ensures s'.dir.Keys == s.dir.Keys + {Node(3, Prefix(v, 3)), Node(2, Prefix(v, 2)), Node(1, Prefix(v, 1))}
    ensures s'.refs.Keys == s.refs.Keys + {s.pool[0], s.pool[1], s.pool[2]}
  {
    var n3, n2, n1 := Node(3, Prefix(v, 3)), Node(2, Prefix(v, 2)), Node(1, Prefix(v, 1));
    assert n2.Parent() == n3 && n1.Parent() == n2;
    LinkIsTable(s, n2);
    LinkIsTable(s, n1);
    RootTable(s);
    TopDigit(v);
    assert n3.Parent() == ROOT;
    s' := Grow(s, n3);
    s' := Grow(s', n2);
    s' := Grow(s', n1);
  }

  lemma FirstTables(pool: seq<nat>) returns (s: Space)
    requires 100 !in pool && |pool| >= 3 && forall i, j | 0 <= i < j < |pool| :: pool[i] != pool[j]
    ensures Inv(s) && View(s) == map[] && s.pool == pool[3..] && s.freePages == [] && s.lent == {}
    ensures s.dir.Keys == {ROOT, Node(3, 0), Node(2, 0), Node(1, 0)}
    ensures s.refs.Keys == {100, pool[0], pool[1], pool[2]}
  {
    InitialSpace(100, pool);
    assert Prefix(0, 1) == 0 && Prefix(0, 2) == 0 && Prefix(0, 3) == 0;
    s := GrowPath(NewSpace(100, pool), 0);
  }

  lemma SecondTables() returns (s: Space)
    ensures Inv(s) && View(s) == map[] && s.pool == [] && s.refs.Keys == {100, 1, 2, 3, 4, 5, 6}
    ensures s.dir.Keys == {ROOT, Node(3, 0), Node(2, 0), Node(1, 0), Node(3, 1), Node(2, 0x200), Node(1, 0x4_0000)}
  {
    s := FirstTables([1, 2, 3, 4, 5, 6]);
    assert s.pool == [4, 5, 6];
    var v := 0x800_0000;
    assert Prefix(v, 1) == 0x4_0000 && Prefix(v, 2) == 0x200 && Prefix(v, 3) == 1;
    s := GrowPath(s, v);
  }

  /** Tables for page 0 and for the first page of the second upper directory, both mapped. */
  lemma TwoPages() returns (s: Space)
    ensures Inv(s) && View(s) == map[0 := Entry(600, 7), 0x800_0000 := Entry(500, 7)]
    ensures s.dir.Keys == {ROOT, Node(3, 0), Node(2, 0), Node(1, 0), Node(3, 1), Node(2, 0x200), Node(1, 0x4_0000)}
  {
    s := SecondTables();
    s := Name(s, 0, 600);
    s := Name(s, 0x800_0000, 500);
  }

  /** Mapping page `v` onto a frame that is not managed. */
  lemma Name(s: Space, v: nat, f: nat) returns (s': Space)
    requires Inv(s) && Node(1, v / 512) in s.dir && v !in View(s) && f !in s.pool && f !in s.refs
    ensures Inv(s') && View(s') == View(s)[v := Entry(f, 7)]
    ensures s'.dir == s.dir && s'.pool == s.pool && s'.refs == s.refs
  {
    MappedKeeps(s, v, Entry(f, 7));
    s' := Mapped(s, v, Entry(f, 7));
  }

  lemma TwoPagesTrimmed(s: Space)
    requires Inv(s) && 0 in View(s) && 0x800_0000 in View(s)
    requires s.dir.Keys == {ROOT, Node(3, 0), Node(2, 0), Node(1, 0), Node(3, 1), Node(2, 0x200), Node(1, 0x4_0000)}
    ensures Trimmed(s)
  {
    var v := 0x800_0000;
    assert Prefix(0, 1) == 0 && Prefix(0, 2) == 0 && Prefix(0, 3) == 0;
    assert Prefix(v, 1) == 0x4_0000 && Prefix(v, 2) == 0x200 && Prefix(v, 3) == 1;
    forall n | n in s.dir && n != ROOT ensures Busy(s, n) {
      OnTheWayBusy(s, if n.prefix == 0 then 0 else v, n.level);
    }
  }

  /** A mapped page that a traversal not failing fast misses: it starts in the last slot of the first
      upper directory, finds no table there, and enters the next directory one page too far. */
  lemma MissedPage() returns (s: Space, start: nat, v: nat)
    ensures Inv(s) && Trimmed(s) && start <= v && v in View(s) && Walk(s.dir, View(s), start, v + 1) == []
  {
    v, start := 0x800_0000, 511 * 0x4_0000 + 1;
    s := TwoPages();
    TwoPagesTrimmed(s);
    OverLastSlot(s.dir);
  }

  lemma OverLastSlot(dir: Directory)
    requires Node(3, 0) in dir && Node(2, 511) !in dir
    ensures Next(dir, 511 * 0x4_0000 + 1) == 0x800_0001
  {
    var c := 511 * 0x4_0000 + 1;
    SpanValues();
    assert Prefix(c, 1) == 511 * 512 && Prefix(c, 2) == 511 && Prefix(c, 3) == 0;
    assert After(c, 2) == 0x800_0000 && Rest(c, 2) == 1;
  }

  /** Page 0 mapped onto frame 9, which nothing else holds. */
  lemma OneHolder() returns (s: Space)
    ensures Inv(s) && FreeListSafe(s.refs, s.freePages) && View(s) == map[0 := Entry(9, 7)]
    ensures s.dir.Keys == {ROOT, Node(3, 0), Node(2, 0), Node(1, 0)} && s.pool == [] && s.lent == {}
    ensures s.refs.Keys == {100, 1, 2, 3, 9} && 9 !in s.dir.Values && 9 in s.ext && s.ext[9] == 0
  {
    s := FirstTables([1, 2, 3, 9]);
    assert s.pool == [9];
    AllocatedKeeps(s, true);
    s := Allocated(s, true);
    MappedKeeps(s, 0, Entry(9, 7));
    s := Mapped(s, 0, Entry(9, 7));
  }

  lemma NotHeld(s: Space, job: Job)
    requires View(s) == map[0 := Entry(9, 7)] && job == Job(0, 2, 8, 7, false) && s.lent == {}
    requires 9 in s.refs && 9 !in s.dir.Values && 9 in s.ext && s.ext[9] == 0
    ensures !Held(s, job, 1)
  {
  }

  /** A range mapped over itself whose second frame has no holder but the first page of the range: the mapping of that
      page drops the frame onto the free list, and the next one names it again. `s'` is the state when it is done. */
  lemma LostFrame() returns (s: Space, s': Space, job: Job, res: bool)
    ensures Inv(s) && FreeListSafe(s.refs, s.freePages) && Admissible(s, job) && !AllHeld(s, job, job.end)
    ensures job.start == 0 && job.end == 2 && Done(s, s', job, job.end, res)
    ensures job.Frame(1) in s'.freePages && 1 in View(s') && View(s')[1].frame == job.Frame(1)
    ensures !FreeListSafe(s'.refs, s'.freePages)
  {
    s := OneHolder();
    job := Job(0, 2, 8, 7, false);
    NotHeld(s, job);
    NothingDone(s, job);
    s', res := MapNext(s, s, job, 0, false);
    s', res := MapNext(s, s', job, 1, res);
    SafeIffHeld(s, s', job, 2, res);
    DoneSoFar(s, s', job, 2, res);
  }

  /** One turn of the innermost loop. */
  lemma MapNext(s0: Space, s: Space, job: Job, cur: nat, res: bool) returns (s': Space, res': bool)
    requires Inv(s0) && Admissible(s0, job) && job.start <= cur < job.end && Done(s0, s, job, cur, res)
    requires Node(1, cur / 512) in s0.dir
    ensures Done(s0, s', job, cur + 1, res')
  {
    NextFrame(s0, s, job, cur, res);
    DoneSoFar(s0, s, job, cur, res);
    var e := Entry(job.Frame(cur), job.flags);
    assert Node(0, cur).Parent() == Node(1, cur / 512);
    InstallSteps(s, cur, e, job.kernel);
    s' := Mapped(Cleared(s, cur, e.frame, job.kernel), cur, e);
    InstalledKeeps(s0, s, s', job, cur, res);
    res' := res || cur in View(s);
  }
}
