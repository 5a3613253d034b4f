/** The page table of one address space together with the page pool that backs it. */
module PageTables {
  import opened Basics
  import opened PageTableShape
  import opened PageCounts
  import opened PageSpace
  import opened PageMapping
  import opened PageGrowth
  import opened PageUnmapping
  import opened PageRemapping
  import opened PageWalk

  /** Flags of the entries that point at tables: present and writable, and for users accessible. */
  const TABLE_USER: nat := 7
  const TABLE_KERNEL: nat := 3

  const PAGE_SIZE: nat := 4096
  /** The canonical address hole. */
  const LOWER_TOP: nat := 0x0000_8000_0000_0000
  const UPPER_BOTTOM: nat := 0xffff_8000_0000_0000

  /** A virtual address has 48 bits, and bits above them only as copies of the last. */
  predicate Canonical(addr: nat) {
    addr < PAGE_LIMIT * PAGE_SIZE || UPPER_BOTTOM <= addr < 0x1_0000_0000_0000_0000
  }

  /** The page that the four indices of an address name. */
  function PageNumber(addr: nat): nat {
    addr / PAGE_SIZE % PAGE_LIMIT
  }

  lemma PageNumberOrder(start: nat, end: nat)
    requires Canonical(start) && end <= LOWER_TOP && start % PAGE_SIZE == 0 && end % PAGE_SIZE == 0
    ensures PageNumber(start) < PAGE_LIMIT && end / PAGE_SIZE <= PAGE_LIMIT / 2
    ensures start <= end ==> PageNumber(start) == start / PAGE_SIZE <= end / PAGE_SIZE
    ensures end < start ==> end / PAGE_SIZE <= PageNumber(start)
  {
  }

  /** The part of a mapping request that lies below the hole. */
  function MapJob(start: nat, end: nat, physical: nat, flags: nat, kernel: bool): Job {
    var top := if end <= LOWER_TOP then end else LOWER_TOP;
    Job(start / PAGE_SIZE, top / PAGE_SIZE, physical / PAGE_SIZE, flags, kernel)
  }

  /** The number of pages a loop in steps of a page visits below `length`. */
  function PagesOf(length: nat): nat {
    (length + PAGE_SIZE - 1) / PAGE_SIZE
  }

  ghost predicate SameAt(pages0: map<nat, Entry>, pages: map<nat, Entry>, v: nat) {
    if v in pages0 then v in pages && pages[v] == pages0[v] else v !in pages
  }

  /** What `MapsOnto` says of page `v`. */
  ghost predicate MapsOntoAt(pages0: map<nat, Entry>, pages: map<nat, Entry>, start: nat, limit: nat, physical: nat,
                             flags: nat, v: nat) {
    if start <= v * PAGE_SIZE < limit
    then v in pages && pages[v] == Entry(physical / PAGE_SIZE + (v - start / PAGE_SIZE), flags)
    else SameAt(pages0, pages, v)
  }

  /** The pages that begin at an address in [start, limit) are mapped onto the frames from `physical` on, in order, and
      all others are as they were. */
  ghost predicate MapsOnto(pages0: map<nat, Entry>, pages: map<nat, Entry>, start: nat, limit: nat, physical: nat,
                           flags: nat) {
    forall v: nat :: MapsOntoAt(pages0, pages, start, limit, physical, flags, v)
  }

  /** The frames that a request names are not pages of the pool, and for the kernel, whose mappings take no references,
      not managed. */
  ghost predicate MayMap(pool: seq<nat>, refs: Counts, start: nat, end: nat, physical: nat, flags: nat, kernel: bool) {
    flags > 0 &&
    forall v: nat | start <= v * PAGE_SIZE < Min(end, LOWER_TOP) ::
      var f := physical / PAGE_SIZE + (v - start / PAGE_SIZE);
      f !in pool && (kernel ==> f !in refs)
  }

  lemma MayMapJob(s: Space, start: nat, end: nat, physical: nat, flags: nat, kernel: bool)
    requires start % PAGE_SIZE == 0 && end % PAGE_SIZE == 0 && start <= end && start < LOWER_TOP
    requires MayMap(s.pool, s.refs, start, end, physical, flags, kernel)
    ensures Admissible(s, MapJob(start, end, physical, flags, kernel))
  {
    var job := MapJob(start, end, physical, flags, kernel);
    forall v | job.start <= v < job.end ensures job.Frame(v) !in s.pool && (job.kernel ==> job.Frame(v) !in s.refs) {
      assert start <= v * PAGE_SIZE < Min(end, LOWER_TOP);
    }
  }

  /** The pages of a mapping request up to page `cut`, address by address. */
  lemma JobMapsOnto(pages0: map<nat, Entry>, start: nat, end: nat, physical: nat, flags: nat, kernel: bool, cut: nat)
    requires start % PAGE_SIZE == 0 && end % PAGE_SIZE == 0 && start <= end && start < LOWER_TOP
    requires cut <= MapJob(start, end, physical, flags, kernel).end
    ensures var job := MapJob(start, end, physical, flags, kernel);
            && MapsOnto(pages0, pages0 + Run(job, cut), start, cut * PAGE_SIZE, physical, flags)
            && job.start == start / PAGE_SIZE && job.end * PAGE_SIZE == Min(end, LOWER_TOP)
  {
    var job := MapJob(start, end, physical, flags, kernel);
    var pages := pages0 + Run(job, cut);
    forall v: nat ensures MapsOntoAt(pages0, pages, start, cut * PAGE_SIZE, physical, flags, v) {
      assert job.start <= v < cut <==> start <= v * PAGE_SIZE < cut * PAGE_SIZE;
    }
  }

  /** What `MovesOnto` says of page `v`. */
  ghost predicate MovesOntoAt(pages0: map<nat, Entry>, pages: map<nat, Entry>, start: nat, limit: nat, oldStart: nat,
                              oldEnd: nat, flags: nat, v: nat) {
    var u := oldStart / PAGE_SIZE + (v - start / PAGE_SIZE);
    if start <= v * PAGE_SIZE < limit && u in pages0 then v in pages && pages[v] == Entry(pages0[u].frame, flags)
    else if oldStart <= v * PAGE_SIZE < oldEnd then v !in pages
    else SameAt(pages0, pages, v)
  }

  /** The page that begins at an address in [start, limit) has the frame, if any, that the page at the same distance
      from `oldStart` had; other pages in [oldStart, oldEnd) are unmapped, and all others are as they were. */
  ghost predicate MovesOnto(pages0: map<nat, Entry>, pages: map<nat, Entry>, start: nat, limit: nat, oldStart: nat,
                            oldEnd: nat, flags: nat) {
    forall v: nat :: MovesOntoAt(pages0, pages, start, limit, oldStart, oldEnd, flags, v)
  }

  /** The first `k` pages of a move, address by address; all of them are those that begin before the end. */
  lemma MoveMovesOnto(pages0: map<nat, Entry>, start: nat, end: nat, oldStart: nat, flags: nat, k: nat, limit: nat)
    requires start % PAGE_SIZE == 0 && oldStart % PAGE_SIZE == 0 && start <= end && k <= PagesOf(end - start)
    requires limit == if k == PagesOf(end - start) then end else start + k * PAGE_SIZE
    ensures var m := Move(start / PAGE_SIZE, oldStart / PAGE_SIZE, PagesOf(end - start), flags);
            MovesOnto(pages0, Relocated(pages0, m, k), start, limit, oldStart, oldStart + (end - start), flags)
  {
    var m := Move(start / PAGE_SIZE, oldStart / PAGE_SIZE, PagesOf(end - start), flags);
    var oldEnd := oldStart + (end - start);
    forall v: nat
      ensures MovesOntoAt(pages0, Relocated(pages0, m, k), start, limit, oldStart, oldEnd, flags, v)
    {
      PagesInside(start, end, k, limit, v);
      PagesInside(oldStart, oldEnd, m.count, oldEnd, v);
      MoveMovesAt(pages0, m, k, start, limit, oldStart, oldEnd, v);
    }
  }

  lemma MoveMovesAt(pages0: map<nat, Entry>, m: Move, k: nat, start: nat, limit: nat, oldStart: nat, oldEnd: nat,
                    v: nat)
    requires m.start == start / PAGE_SIZE && m.from == oldStart / PAGE_SIZE
    requires start <= v * PAGE_SIZE < limit <==> m.start <= v < m.start + k
    requires oldStart <= v * PAGE_SIZE < oldEnd <==> m.from <= v < m.from + m.count
    ensures MovesOntoAt(pages0, Relocated(pages0, m, k), start, limit, oldStart, oldEnd, m.flags, v)
  {
    RelocatedAt(pages0, m, k, v);
  }

  lemma RelocatedAt(pages0: map<nat, Entry>, m: Move, k: nat, v: nat)
    ensures var pages, u := Relocated(pages0, m, k), m.from + (v - m.start);
            if m.start <= v < m.start + k && u in pages0 then v in pages && pages[v] == Entry(pages0[u].frame, m.flags)
            else if m.from <= v < m.from + m.count then v !in pages
            else SameAt(pages0, pages, v)
  {
  }

  lemma MovedOnto(s0: Space, s: Space, start: nat, end: nat, oldStart: nat, flags: nat, k: nat, ok: bool)
    requires start % PAGE_SIZE == 0 && oldStart % PAGE_SIZE == 0 && start <= end && k <= PagesOf(end - start)
    requires var m := Move(start / PAGE_SIZE, oldStart / PAGE_SIZE, PagesOf(end - start), flags);
             MoveResult(s0, s, m, k, ok) && (ok <==> k == m.count)
    ensures MovesOnto(PageSpace.View(s0), PageSpace.View(s), start, if ok then end else start + k * PAGE_SIZE, oldStart,
                      oldStart + (end - start), flags)
  {
    var m := Move(start / PAGE_SIZE, oldStart / PAGE_SIZE, PagesOf(end - start), flags);
    assert MoveResultIn(Placement, s0, s, m, k, ok);
    MoveMovesOnto(PageSpace.View(s0), start, end, oldStart, flags, k, if ok then end else start + k * PAGE_SIZE);
  }

  lemma PagesInside(start: nat, end: nat, k: nat, limit: nat, v: nat)
    requires start % PAGE_SIZE == 0 && start <= end && k <= PagesOf(end - start)
    requires limit == if k == PagesOf(end - start) then end else start + k * PAGE_SIZE
    ensures start <= v * PAGE_SIZE < limit <==> start / PAGE_SIZE <= v < start / PAGE_SIZE + k
  {
  }

  lemma MoveFits(first: nat, last: nat)
    requires first % PAGE_SIZE == 0 && first <= last <= PAGE_LIMIT * PAGE_SIZE
    ensures first / PAGE_SIZE + PagesOf(last - first) <= PAGE_LIMIT
  {
  }

  /** `addr` is the lowest unmapped page of [first, last), and the pages below it are those visited. */
  ghost predicate LowestUnmapped(pages: map<nat, Entry>, first: nat, last: nat, addr: nat, visited: seq<nat>) {
    var v := addr / PAGE_SIZE;
    && addr == v * PAGE_SIZE && first <= v < last && v !in pages
    && AllMapped(pages, first, v) && visited == Count(first, v)
  }

  ghost function Reflag(pages: map<nat, Entry>, visited: seq<nat>, flags: nat, v: int): Entry {
    if v !in pages then UNUSED else if v in visited then Entry(pages[v].frame, flags) else pages[v]
  }

  /** New flags, and the old frames, for the pages visited. */
  ghost function Reflagged(pages: map<nat, Entry>, visited: seq<nat>, flags: nat): map<nat, Entry> {
    map v | v in pages :: Reflag(pages, visited, flags, v)
  }

  lemma PageAddress(v: nat)
    ensures v * PAGE_SIZE % PAGE_SIZE == 0 && v * PAGE_SIZE / PAGE_SIZE == v
  {
  }

  /** What a traversal visits. Not failing fast, the mapped pages of the range outside the two intervals that it jumps
      over, in the order of the walk. Failing fast, all pages up to the first that is not mapped. */
  ghost predicate Visits(dir: Directory, pages: map<nat, Entry>, scan: Scan, r: Result<()>, visited: seq<nat>) {
    && (!scan.failFast ==>
          && r == Ok(()) && visited == Walk(dir, pages, scan.start, scan.end)
          && forall v | scan.start <= v < scan.end ::
               v in visited <==> v in pages && !Missed(dir, scan.start, scan.end, v))
    && (scan.failFast && r.Ok? ==> AllMapped(pages, scan.start, scan.end) && visited == Count(scan.start, scan.end))
    && (scan.failFast && r.Err? ==>
          r.error.AddressNotMap? && LowestUnmapped(pages, scan.start, scan.end, r.error.addr, visited))
  }

  /** What a traversal has done when it ends at the end of its range or at a page that is not mapped. */
  lemma TraverseEnds(s0: Space, s: Space, scan: Scan, f: (Entry, nat) -> Entry, ok: bool, stop: nat, visited: seq<nat>)
    requires Inv(s0) && scan.start <= scan.end <= PAGE_LIMIT
    requires ok ==> stop >= scan.end && Passing(s0, s, scan, f, stop, visited)
    requires !ok ==> Stopped(s0, s, scan, f, stop, visited)
    ensures (KeepsFrames(PageSpace.View(s0), visited, f) ==> Inv(s)) && s.dir == s0.dir
    ensures PageSpace.View(s) == Applied(PageSpace.View(s0), visited, f)
    ensures var r := if ok then Ok(()) else Err(AddressNotMap(stop * PAGE_SIZE));
            Visits(s0.dir, PageSpace.View(s0), scan, r, visited)
  {
    assert PassingIn(Tables, s0, s, scan, f, stop, visited);
    assert PassingIn(Entries, s0, s, scan, f, stop, visited);
    if scan.failFast {
      PassedAll(s0, s, scan, f, stop, visited);
      PageAddress(stop);
    } else {
      WalkEnds(s0, s, scan, f, stop, visited);
    }
  }

  lemma WalkEnds(s0: Space, s: Space, scan: Scan, f: (Entry, nat) -> Entry, stop: nat, visited: seq<nat>)
    requires Inv(s0) && scan.start <= scan.end <= PAGE_LIMIT
    requires stop >= scan.end && Passing(s0, s, scan, f, stop, visited)
    ensures visited == Walk(s0.dir, PageSpace.View(s0), scan.start, scan.end)
    ensures forall v | scan.start <= v < scan.end ::
              v in visited <==> v in PageSpace.View(s0) && !Missed(s0.dir, scan.start, scan.end, v)
  {
    assert PassingIn(Position, s0, s, scan, f, stop, visited);
    assert visited + [] == visited;
    forall v | scan.start <= v < scan.end
      ensures v in visited <==> v in PageSpace.View(s0) && !Missed(s0.dir, scan.start, scan.end, v)
    {
      VisitsIff(s0, scan.start, scan.end, v);
    }
  }

  /** Setting the flags keeps every frame. */
  lemma ReflagApplied(s: Space, visited: seq<nat>, flags: nat, f: (Entry, nat) -> Entry)
    requires flags > 0 && forall e: Entry, v: nat :: f(e, v) == Entry(e.frame, flags)
    ensures KeepsFrames(PageSpace.View(s), visited, f)
    ensures Applied(PageSpace.View(s), visited, f) == Reflagged(PageSpace.View(s), visited, flags)
  {
    forall v | v in PageSpace.View(s) ensures !Outcome(PageSpace.View(s), visited, f, v).Unused() {
      UsedInView(s, v);
    }
  }

  class PageTables {
    const root: nat
    var mem: Memory
    var refs: Counts
    var pool: seq<nat>
    var freePages: seq<nat>
    ghost var dir: Directory
    ghost var ext: Counts
    ghost var lent: set<nat>

    ghost function State(): Space
      reads this
    {
      Space(root, mem, refs, pool, freePages, dir, ext, lent)
    }

    /** Page number to leaf entry, for every mapped page. */
    ghost function View(): map<nat, Entry>
      reads this
    {
      PageSpace.View(State())
    }

    ghost predicate Valid()
      reads this
    {
      Inv(State())
    }

    /** No frame on the free list is referenced, and none is there twice. */
    ghost predicate Safe()
      reads this
    {
      FreeListSafe(refs, freePages)
    }

    /** `t` is the table of node `n`. */
    ghost predicate IsTable(t: nat, n: Node)
      reads this
    {
      n in dir && dir[n] == t && t in mem
    }

    /** The address space once `AllocPage(true)` has handed out a zeroed root page. */
    constructor (root: nat, pool: seq<nat>)
      requires root !in pool
      requires forall i, j | 0 <= i < j < |pool| :: pool[i] != pool[j]
      ensures Valid() && Safe() && View() == map[] && Trimmed(State()) && State() == NewSpace(root, pool)
    {
      this.root := root;
      this.pool := pool;
      mem := map[root := ZeroTable()];
      refs := map[root := 1];
      freePages := [];
      dir := map[ROOT := root];
      ext := map[root := 0];
      lent := {};
      new;
      InitialSpace(root, pool);
      assert Trimmed(State());
    }

    // The page pool.

    /** Hands out a zeroed page, counted as held by the caller or, without `incrRef`, with no reference yet. */
    method AllocPage(incrRef: bool) returns (r: Result<nat>)
      requires Valid()
      modifies `mem, `refs, `pool, `ext, `lent
      ensures Valid() && View() == old(View()) && (old(Safe()) ==> Safe())
      ensures r.Err? ==> r.error == NoEnoughMemory && old(pool) == [] && State() == old(State())
      ensures r.Ok? ==> old(pool) != [] && r.value == old(pool)[0] && State() == Allocated(old(State()), incrRef)
    {
      if pool == [] {
        return Err(NoEnoughMemory);
      }
      AllocatedKeeps(State(), incrRef);
      var page := pool[0];
      pool := pool[1..];
      refs := refs[page := if incrRef then 1 else 0];
      ext := ext[page := if incrRef then 1 else 0];
      lent := if incrRef then lent else lent + {page};
      mem := mem[page := ZeroTable()];
      r := Ok(page);
    }

    method Ref(f: nat)
      requires Valid() && f !in pool
      modifies `refs, `ext, `lent
      ensures Valid() && State() == Referenced(old(State()), f) && View() == old(View())
      ensures old(Safe()) && f !in freePages ==> Safe()
    {
      ReferencedKeeps(State(), f);
      if f in refs {
        refs := refs[f := refs[f] + 1];
      }
      ext := Inc(ext, f);
      lent := lent - {f};
    }

    method Deref(f: nat) returns (count: nat)
      requires f in refs ==> refs[f] > 0
      modifies `refs
      ensures refs == Dec(old(refs), f)
      ensures count == if f in refs then refs[f] else 1
    {
      if f in refs {
        refs := refs[f := refs[f] - 1];
        count := refs[f];
      } else {
        count := 1;
      }
    }

    method FreePage(page: nat)
      modifies `freePages
      ensures freePages == old(freePages) + [page]
    {
      freePages := freePages + [page];
    }

    /** Gives every page on the free list back to the pool. */
    method FreePages()
      requires Valid() && Safe()
      modifies `freePages, `pool, `refs, `ext
      ensures Valid() && Safe() && View() == old(View()) && freePages == [] && Extends(ext, old(ext))
      ensures multiset(pool) == multiset(old(pool)) + multiset(old(freePages))
      ensures forall f | f in old(freePages) :: f !in dir.Values && forall v | v in View() :: View()[v].frame != f
    {
      while freePages != []
        invariant Valid() && Safe() && View() == old(View()) && Extends(ext, old(ext))
        invariant multiset(pool) + multiset(freePages) == multiset(old(pool)) + multiset(old(freePages))
        decreases |freePages|
      {
        Recycle();
      }
      assert multiset(pool) + multiset(freePages) == multiset(pool);
      forall f | f in old(freePages)
        ensures f !in dir.Values && forall v | v in View() :: View()[v].frame != f
      {
        assert multiset(pool)[f] == multiset(old(pool))[f] + multiset(old(freePages))[f];
        assert f in multiset(pool);
        PoolUnseen(State(), f);
      }
    }

    /** Gives the last page on the free list back to the pool. */
    method Recycle()
      requires Valid() && Safe() && freePages != []
      modifies `freePages, `pool, `refs, `ext
      ensures Valid() && Safe() && View() == old(View()) && |freePages| < |old(freePages)| && Extends(ext, old(ext))
      ensures multiset(pool) + multiset(freePages) == multiset(old(pool)) + multiset(old(freePages))
    {
      RecycledKeeps(State());
      var last := |freePages| - 1;
      var page := freePages[last];
      assert freePages == freePages[..last] + [page];
      freePages := freePages[..last];
      pool := pool + [page];
      refs := refs - {page};
      ext := ext - {page};
    }

    // Single entries.

    /** Drops the frame that the leaf entry of page `v` names and marks the entry unused. */
    method FreeEntry(t: nat, i: nat, ghost v: nat)
      requires Valid() && IsTable(t, Node(1, v / 512)) && i == v % 512 && v in View()
      modifies `mem, `refs, `freePages
      ensures Valid() && State() == Unmapped(old(State()), v) && View() == old(View()) - {v}
      ensures old(Safe()) ==> Safe()
    {
      UnmappedKeeps(State(), v);
      var f := mem[t][i].frame;
      var count := Deref(f);
      if count == 0 {
        FreePage(f);
      }
      assert freePages == old(freePages) + Freed(old(refs), f);
      mem := mem[t := mem[t][i := UNUSED]];
    }

    /** Points the unused leaf entry of page `v` at frame `f`, which takes over one outside reference. */
    method SetLeaf(t: nat, i: nat, f: nat, flags: nat, ghost v: nat)
      requires Valid() && IsTable(t, Node(1, v / 512)) && i == v % 512 && v !in View()
      requires flags > 0 && f !in pool && (f in refs && f in ext ==> ext[f] > 0)
      modifies `mem, `ext
      ensures Valid() && State() == Mapped(old(State()), v, Entry(f, flags))
      ensures View() == old(View())[v := Entry(f, flags)]
    {
      MappedKeeps(State(), v, Entry(f, flags));
      mem := mem[t := mem[t][i := Entry(f, flags)]];
      ext := Dec(ext, f);
    }

    /** Hangs the zeroed page `page`, just handed out, into the tree as the table of node `n`. */
    method HangTable(t: nat, i: nat, page: nat, flags: nat, ghost n: Node, ghost s: Space)
      requires Inv(s) && s.pool != [] && page == s.pool[0] && State() == Allocated(s, true)
      requires 1 <= n.level <= 3 && IsTable(t, n.Parent()) && i == n.Index() && n !in dir && flags > 0
      modifies `mem, `ext, `dir
      ensures TableAdded(s, State(), n) && IsTable(page, n)
    {
      AllocatedKeeps(s, true);
      HungKeeps(State(), n, page, flags);
      mem := mem[t := mem[t][i := Entry(page, flags)]];
      dir := dir[n := page];
      ext := Dec(ext, page);
    }

    /** The table that slot `i` of table `t` points at, a new zeroed one if the slot was unused. */
    method TableAt(t: nat, i: nat, flags: nat, ghost n: Node) returns (r: Result<nat>)
      requires Valid() && 1 <= n.level <= 3 && IsTable(t, n.Parent()) && i == n.Index() && flags > 0
      modifies `mem, `refs, `pool, `ext, `lent, `dir
      ensures TableAdded(old(State()), State(), n)
      ensures r.Ok? ==> IsTable(r.value, n)
      ensures r.Err? ==> pool == [] && dir == old(dir) && n !in dir
    {
      LinkIsTable(State(), n);
      if mem[t][i].Unused() {
        r := AllocPage(true);
        if r.Ok? {
          HangTable(t, i, r.value, flags, n, old(State()));
        }
      } else {
        r := Ok(mem[t][i].frame);
      }
    }

    /** Takes the empty table of node `n` out of the tree. */
    method ReleaseTable(t: nat, i: nat, ghost n: Node)
      requires Valid() && 1 <= n.level <= 3 && IsTable(t, n.Parent()) && i == n.Index()
      requires n in dir && dir[n] in mem && EmptyTable(mem[dir[n]])
      modifies `mem, `refs, `freePages, `dir
      ensures Valid() && State() == Released(old(State()), n) && View() == old(View())
      ensures old(Safe()) ==> Safe()
    {
      LinkIsTable(State(), n);
      ReleasedKeeps(State(), n);
      var f := mem[t][i].frame;
      var count := Deref(f);
      if count == 0 {
        FreePage(f);
      }
      assert freePages == old(freePages) + Freed(old(refs), f);
      mem := mem[t := mem[t][i := UNUSED]];
      dir := dir - {n};
    }

    /** Gives up one outside reference to `f`. */
    method DropRef(f: nat)
      requires Valid() && (f in ext ==> ext[f] > 0)
      modifies `refs, `ext, `freePages
      ensures Valid() && State() == Dereferenced(old(State()), f) && View() == old(View())
      ensures old(Safe()) ==> Safe()
      ensures old(Trimmed(State())) ==> Trimmed(State())
    {
      if Trimmed(State()) {
        SameTablesDropped(State(), f);
      }
      DereferencedKeeps(State(), f);
      var count := Deref(f);
      if count == 0 {
        FreePage(f);
      }
      assert freePages == old(freePages) + Freed(old(refs), f);
      ext := Dec(ext, f);
    }

    /** Walks the four levels down to the leaf entry of the page of `vaddr`. */
    method VirtualToEntry(vaddr: nat) returns (r: Result<Entry>)
      requires Valid() && vaddr < PAGE_LIMIT * PAGE_SIZE
      ensures var v := vaddr / PAGE_SIZE; r == if v in View() then Ok(View()[v]) else Err(AddressNotMap(vaddr))
    {
      var v := vaddr / PAGE_SIZE;
      ghost var s := State();
      if v in View() {
        PathToPage(s, v);
      }
      RootTable(s);
      TopDigit(v);
      StepDown(s, v, 3);
      var pgd := mem[root][Digit(v, 3)];
      if pgd.Unused() {
        return Err(AddressNotMap(vaddr));
      }
      StepDown(s, v, 2);
      var pud := mem[pgd.frame][Digit(v, 2)];
      if pud.Unused() {
        return Err(AddressNotMap(vaddr));
      }
      StepDown(s, v, 1);
      var pmd := mem[pud.frame][Digit(v, 1)];
      if pmd.Unused() {
        return Err(AddressNotMap(vaddr));
      }
      assert Prefix(v, 1) == v / 512 && Digit(v, 0) == v % 512;
      LeafUsed(s, v);
      var pte := mem[pmd.frame][Digit(v, 0)];
      if pte.Unused() {
        return Err(AddressNotMap(vaddr));
      }
      r := Ok(pte);
    }

    // Mapping.

    /** Points the leaf entry of page `v` at frame `f`, dropping what it named before. */
    method Install(t: nat, i: nat, f: nat, flags: nat, kernel: bool, ghost v: nat) returns (had: bool)
      requires Valid() && IsTable(t, Node(1, v / 512)) && i == v % 512
      requires flags > 0 && f !in pool && (kernel ==> f !in refs)
      modifies this
      ensures Installed(old(State()), State(), v, Entry(f, flags)) && IsTable(t, Node(1, v / 512))
      ensures had == (v in old(View()))
    {
      LeafUsed(State(), v);
      InstallSteps(State(), v, Entry(f, flags), kernel);
      if !kernel {
        Ref(f);
      }
      had := !mem[t][i].Unused();
      if had {
        FreeEntry(t, i, v);
      }
      SetLeaf(t, i, f, flags, v);
    }

    /** The innermost loop: maps pages into one leaf table until the job or the table ends. */
    method MapEntries(t: nat, job: Job, cur0: nat, index: nat, res0: bool, ghost s0: Space,
                      ghost path: set<Node>)
      returns (cur: nat, p1: nat, res: bool)
      requires Inv(s0) && Admissible(s0, job) && job.start <= cur0 < job.end && Done(s0, State(), job, cur0, res0)
      requires IsTable(t, Node(1, Prefix(cur0, 1))) && index == Digit(cur0, 0)
      requires NewBusy(s0, State(), path + {Node(1, Prefix(cur0, 1))})
      modifies this
      ensures Done(s0, State(), job, cur, res) && dir == old(dir) && NewBusy(s0, State(), path)
      ensures cur0 < cur <= job.end
      ensures cur < job.end ==> Prefix(cur, 1) == Prefix(cur0, 1) + 1 && p1 == Digit(cur, 0)
    {
      cur, p1, res := cur0, index, res0;
      while cur < job.end
        invariant cur0 <= cur <= job.end && Done(s0, State(), job, cur, res) && dir == old(dir)
        invariant IsTable(t, Node(1, Prefix(cur0, 1)))
        invariant cur < job.end ==> p1 == Digit(cur, 0) && Prefix(cur, 1) == Prefix(cur0, 1)
      {
        ghost var s := State();
        NextFrame(s0, s, job, cur, res);
        var had := Install(t, p1, job.Frame(cur), job.flags, job.kernel, cur);
        InstalledKeeps(s0, s, State(), job, cur, res);
        res := res || had;
        cur := cur + 1;
        if p1 == ENTRY_COUNT - 1 {
          p1 := 0;
          break;
        } else {
          p1 := p1 + 1;
        }
      }
      ViewGrows(s0, old(State()), State(), job, cur0, res0, cur, res);
      LeafBusy(s0, old(State()), State(), cur0, path);
    }

    /** Steps down to the table for page `cur` at the level of `child`, adding it if it is missing. */
    method Descend(t: nat, i: nat, job: Job, cur: nat, res: bool, ghost child: Node, ghost s0: Space,
                   ghost path: set<Node>)
      returns (r: Result<nat>)
      requires Admissible(s0, job) && job.start <= cur < job.end && Done(s0, State(), job, cur, res)
      requires 1 <= child.level <= 3 && IsTable(t, child.Parent()) && i == child.Index()
      requires child.prefix == Prefix(cur, child.level) && NewBusy(s0, State(), path)
      modifies this
      ensures Done(s0, State(), job, cur, res) && Extends(old(dir), dir) && IsTable(t, child.Parent())
      ensures r.Ok? ==> IsTable(r.value, child) && NewBusy(s0, State(), path + {child})
      ensures r.Err? ==> pool == [] && Node(1, Prefix(cur, 1)) !in dir
    {
      NextFrame(s0, State(), job, cur, res);
      r := TableAt(t, i, if job.kernel then TABLE_KERNEL else TABLE_USER, child);
      TableInMemory(State(), child.Parent());
      TableAddedKeeps(s0, old(State()), State(), job, cur, child.level, res);
      TableAddedBusy(s0, old(State()), State(), child, path);
      if child !in dir {
        LeafBelow(State(), cur, child.level);
      }
    }

    /** Maps through the table `t` of page `cur0` at `level`. `digits` are the hand-carried table indices. */
    method MapSubtree(level: nat, t: nat, job: Job, cur0: nat, digits: seq<nat>, res0: bool, ghost s0: Space,
                      ghost path: set<Node>)
      returns (ok: bool, cur: nat, p: seq<nat>, res: bool)
      requires 1 <= level <= 3
      requires Inv(s0) && Admissible(s0, job) && job.start <= cur0 < job.end && Done(s0, State(), job, cur0, res0)
      requires IsTable(t, Node(level, Prefix(cur0, level)))
      requires |digits| == 3 && Digits(digits, cur0, level)
      requires NewBusy(s0, State(), path + {Node(level, Prefix(cur0, level))})
      modifies this
      ensures Done(s0, State(), job, cur, res) && Extends(old(dir), dir)
      ensures cur0 <= cur <= job.end && |p| == 3 && p[level..] == digits[level..]
      ensures ok ==> cur0 < cur && NewBusy(s0, State(), path)
      ensures ok && cur < job.end ==>
                Prefix(cur, level) == Prefix(cur0, level) + 1 && Digits(p, cur, level)
      ensures !ok ==> pool == [] && cur < job.end && Node(1, Prefix(cur, 1)) !in dir
      decreases level, 1
    {
      if level == 1 {
        var p1;
        cur, p1, res := MapEntries(t, job, cur0, digits[0], res0, s0, path);
        p := digits[0 := p1];
        ok := true;
      } else {
        ok, cur, p, res := MapDirectory(level, t, job, cur0, digits, res0, s0, path);
      }
    }

    /** One slot of a directory: adds the table under it if it is missing, and maps below it. */
    method MapSlot(level: nat, t: nat, job: Job, cur0: nat, digits: seq<nat>, res0: bool, ghost s0: Space,
                   ghost path: set<Node>)
      returns (ok: bool, cur: nat, p: seq<nat>, res: bool)
      requires 2 <= level <= 3
      requires Inv(s0) && Admissible(s0, job) && job.start <= cur0 < job.end && Done(s0, State(), job, cur0, res0)
      requires IsTable(t, Node(level, Prefix(cur0, level)))
      requires |digits| == 3 && Digits(digits, cur0, level)
      requires NewBusy(s0, State(), path + {Node(level, Prefix(cur0, level))})
      modifies this
      ensures Done(s0, State(), job, cur, res) && Extends(old(dir), dir)
      ensures cur0 <= cur <= job.end && |p| == 3 && p[level - 1..] == digits[level - 1..]
      ensures ok ==>
                && cur0 < cur && NewBusy(s0, State(), path + {Node(level, Prefix(cur0, level))})
                && IsTable(t, Node(level, Prefix(cur0, level))) && Node(level - 1, Prefix(cur0, level - 1)) in dir
      ensures ok && cur < job.end ==>
                Prefix(cur, level - 1) == Prefix(cur0, level - 1) + 1 && Digits(p, cur, level - 1)
      ensures !ok ==> pool == [] && cur < job.end && Node(1, Prefix(cur, 1)) !in dir
      decreases level - 1, 2
    {
      ghost var node, child := Node(level, Prefix(cur0, level)), Node(level - 1, Prefix(cur0, level - 1));
      var r := Descend(t, digits[level - 1], job, cur0, res0, child, s0, path + {node});
      if r.Err? {
        return false, cur0, digits, res0;
      }
      ok, cur, p, res := MapSubtree(level - 1, r.value, job, cur0, digits, res0, s0, path + {node});
      if ok {
        DoneInv(s0, State(), job, cur, res);
        TableInMemory(State(), node);
      }
    }

    /** The loop over a middle or an upper directory. */
    method MapDirectory(level: nat, t: nat, job: Job, cur0: nat, digits: seq<nat>, res0: bool, ghost s0: Space,
                        ghost path: set<Node>)
      returns (ok: bool, cur: nat, p: seq<nat>, res: bool)
      requires 2 <= level <= 3
      requires Inv(s0) && Admissible(s0, job) && job.start <= cur0 < job.end && Done(s0, State(), job, cur0, res0)
      requires IsTable(t, Node(level, Prefix(cur0, level)))
      requires |digits| == 3 && Digits(digits, cur0, level)
      requires NewBusy(s0, State(), path + {Node(level, Prefix(cur0, level))})
      modifies this
      ensures Done(s0, State(), job, cur, res) && Extends(old(dir), dir)
      ensures cur0 <= cur <= job.end && |p| == 3 && p[level..] == digits[level..]
      ensures ok ==> cur0 < cur && NewBusy(s0, State(), path)
      ensures ok && cur < job.end ==>
                Prefix(cur, level) == Prefix(cur0, level) + 1 && Digits(p, cur, level)
      ensures !ok ==> pool == [] && cur < job.end && Node(1, Prefix(cur, 1)) !in dir
      decreases level, 0
    {
      ghost var node := Node(level, Prefix(cur0, level));
      ghost var child := node;
      cur, p, res := cur0, digits, res0;
      while cur < job.end
        invariant cur0 <= cur <= job.end && |p| == 3 && p[level..] == digits[level..]
        invariant Done(s0, State(), job, cur, res) && Extends(old(dir), dir) && IsTable(t, node)
        invariant NewBusy(s0, State(), path + {node}) && (cur > cur0 ==> child in dir && child.Parent() == node)
        invariant cur < job.end ==> Prefix(cur, level) == Prefix(cur0, level)
        invariant cur < job.end ==> Digits(p, cur, level)
      {
        ghost var cur1, p0 := cur, p;
        child := Node(level - 1, Prefix(cur, level - 1));
        ok, cur, p, res := MapSlot(level, t, job, cur, p, res, s0, path);
        if !ok {
          return;
        }
        assert p[level - 1] == p0[level - 1];
        if cur < job.end {
          CarryDigits(p0, p, cur1, cur, level);
        }
        if p[level - 1] == ENTRY_COUNT - 1 {
          p := p[level - 1 := 0];
          break;
        } else {
          p := p[level - 1 := p[level - 1] + 1];
        }
      }
      DirectoryBusy(s0, State(), child, path);
      ok := true;
    }

    /** Maps the pages of `job`, carrying the four table indices by hand. */
    method MapCanonical(job: Job) returns (ok: bool, res: bool, ghost cut: nat)
      requires Valid() && Admissible(State(), job) && job.end <= PAGE_LIMIT / 2
      modifies this
      ensures Done(old(State()), State(), job, cut, res) && Ended(State(), job, cut, ok)
      ensures ok ==> NewBusy(old(State()), State(), {})
      ensures ok <==> !Short(old(State()), job.start, job.end)
    {
      ghost var s0 := State();
      var cur := job.start;
      res := false;
      var p4, p := Digit(cur, 3), [Digit(cur, 0), Digit(cur, 1), Digit(cur, 2)];
      NothingDone(s0, job);
      RootTable(s0);
      TopDigit(cur);
      while cur < job.end
        invariant job.start <= cur <= job.end && |p| == 3 && p4 <= 256
        invariant Done(s0, State(), job, cur, res) && IsTable(root, ROOT) && NewBusy(s0, State(), {})
        invariant cur < job.end ==> p4 == Prefix(cur, 3) && Digits(p, cur, 3)
      {
        TopDigit(cur);
        ghost var child := Node(3, Prefix(cur, 3));
        assert child.Parent() == ROOT && child.Index() == p4;
        var t := Descend(root, p4, job, cur, res, child, s0, {});
        if t.Err? {
          SucceedsIff(s0, State(), job, cur, res, false);
          return false, res, cur;
        }
        ok, cur, p, res := MapSubtree(3, t.value, job, cur, p, res, s0, {});
        if !ok {
          SucceedsIff(s0, State(), job, cur, res, false);
          return ok, res, cur;
        }
        DoneInv(s0, State(), job, cur, res);
        RootTable(State());
        p4 := p4 + 1;
      }
      ok, cut := true, cur;
      SucceedsIff(s0, State(), job, cut, res, true);
    }

    /** `MapPage` on a page number: a straight walk down the four levels. */
    method MapPageAt(job: Job) returns (ok: bool, res: bool, ghost cut: nat)
      requires Valid() && Admissible(State(), job) && job.end == job.start + 1
      modifies this
      ensures Done(old(State()), State(), job, cut, res) && Ended(State(), job, cut, ok)
      ensures ok ==> NewBusy(old(State()), State(), {})
      ensures ok <==> !Short(old(State()), job.start, job.end)
    {
      var v := job.start;
      ghost var s0 := State();
      ghost var n3, n2, n1 := Node(3, Prefix(v, 3)), Node(2, Prefix(v, 2)), Node(1, Prefix(v, 1));
      NothingDone(s0, job);
      RootTable(s0);
      TopDigit(v);
      ok, res, cut := false, false, v;
      var pud := Descend(root, Digit(v, 3), job, v, res, n3, s0, {});
      if pud.Err? {
        SucceedsIff(s0, State(), job, v, res, false);
        return;
      }
      var pmd := Descend(pud.value, Digit(v, 2), job, v, res, n2, s0, {n3});
      if pmd.Err? {
        SucceedsIff(s0, State(), job, v, res, false);
        return;
      }
      var pte := Descend(pmd.value, Digit(v, 1), job, v, res, n1, s0, {n3} + {n2});
      if pte.Err? {
        SucceedsIff(s0, State(), job, v, res, false);
        return;
      }
      ghost var p1;
      cut, p1, res := MapEntries(pte.value, job, v, Digit(v, 0), res, s0, {n3} + {n2});
      ok := true;
      DirectoryBusy(s0, State(), n1, {n3});
      DirectoryBusy(s0, State(), n2, {});
      SucceedsIff(s0, State(), job, cut, res, true);
    }

    // Unmapping.

    method UnusedEntryCount(t: nat) returns (count: nat)
      requires t in mem
      ensures count == CountUnused(mem[t])
    {
      count := 0;
      for i := 0 to ENTRY_COUNT
        invariant count == CountUnused(mem[t][..i])
      {
        assert mem[t][..i + 1][..i] == mem[t][..i];
        if mem[t][i].Unused() {
          count := count + 1;
        }
      }
      assert mem[t][..ENTRY_COUNT] == mem[t];
    }

    /** Clears the entry of one page if it is used. */
    method ClearEntry(t: nat, i: nat, ghost pre: nat, ghost s0: Space, ghost first: nat, ghost path: set<Node>)
      returns (had: bool)
      requires Inv(s0) && first <= pre * 512 + i && Cut(s0, State(), first, pre * 512 + i) && Tidy(s0, State(), path)
      requires IsTable(t, Node(1, pre)) && Node(1, pre) in path && i < ENTRY_COUNT
      modifies this
      ensures Cut(s0, State(), first, pre * 512 + i + 1) && Tidy(s0, State(), path) && dir == old(dir)
      ensures t in mem && mem == old(mem)[t := mem[t]]
      ensures CountUnused(mem[t]) == CountUnused(old(mem[t])) + if had then 1 else 0
    {
      ghost var cur := pre * 512 + i;
      CutInv(s0, State(), first, cur);
      LeafAt(State(), pre, i);
      had := !mem[t][i].Unused();
      if had {
        assert cur / 512 == pre && cur % 512 == i;
        CutPage(s0, State(), first, cur);
        CountUnusedSet(mem[t], i);
        FreeEntry(t, i, cur);
        TidyPage(s0, old(State()), State(), cur, path);
      } else {
        CutNothing(s0, State(), first, cur, cur + 1);
      }
    }

    /** The innermost loop: clears the used entries of one leaf table until the range or the table ends. */
    method UnmapEntries(t: nat, start: nat, end: nat, ghost s0: Space, ghost first: nat, ghost path: set<Node>)
      returns (cur: nat, cleared: nat)
      requires Inv(s0) && first <= start < end && Cut(s0, State(), first, start)
      requires IsTable(t, Node(1, Prefix(start, 1))) && Node(1, Prefix(start, 1)) in path
      requires Tidy(s0, State(), path)
      modifies this
      ensures start < cur <= end && Cut(s0, State(), first, cur) && Tidy(s0, State(), path)
      ensures cur < end ==> Prefix(cur, 1) == Prefix(start, 1) + 1
      ensures dir == old(dir) && AboveKept(old(State()), State(), 1)
      ensures t in mem && CountUnused(mem[t]) == CountUnused(old(mem[t])) + cleared
    {
      var p1 := Digit(start, 0);
      cur, cleared := start, 0;
      while p1 < ENTRY_COUNT && cur < end
        invariant start <= cur <= end && p1 <= ENTRY_COUNT && (cur == start ==> p1 < ENTRY_COUNT)
        invariant cur == Prefix(start, 1) * 512 + p1
        invariant Cut(s0, State(), first, cur) && Tidy(s0, State(), path) && dir == old(dir)
        invariant t in mem && mem == old(mem)[t := mem[t]]
        invariant CountUnused(mem[t]) == CountUnused(old(mem[t])) + cleared
      {
        var had := ClearEntry(t, p1, Prefix(start, 1), s0, first, path);
        if had {
          cleared := cleared + 1;
        }
        cur := cur + 1;
        p1 := p1 + 1;
      }
      CutInv(s0, old(State()), first, start);
      WriteKeepsAbove(old(State()), State(), Node(1, Prefix(start, 1)), mem[t]);
    }

    /** Unmaps through the table `t` of page `start` at `level`; `cleared` entries of it became unused. */
    method UnmapSubtree(level: nat, t: nat, start: nat, end: nat, ghost s0: Space, ghost first: nat,
                        ghost path: set<Node>)
      returns (cur: nat, cleared: nat)
      requires 1 <= level <= 3
      requires Inv(s0) && first <= start < end && Cut(s0, State(), first, start)
      requires IsTable(t, Node(level, Prefix(start, level))) && Node(level, Prefix(start, level)) in path
      requires Tidy(s0, State(), path)
      modifies this
      ensures start < cur && Cut(s0, State(), first, Min(cur, end)) && Tidy(s0, State(), path)
      ensures cur < end ==> Prefix(cur, level) == Prefix(start, level) + 1
      ensures IsTable(t, Node(level, Prefix(start, level))) && AboveKept(old(State()), State(), level)
      ensures CountUnused(mem[t]) == CountUnused(old(mem[t])) + cleared
      decreases level, 1
    {
      if level == 1 {
        cur, cleared := UnmapEntries(t, start, end, s0, first, path);
      } else {
        cur, cleared := UnmapDirectory(level, t, start, end, s0, first, path);
      }
    }

    /** The loop over a middle or an upper directory. */
    method UnmapDirectory(level: nat, t: nat, start: nat, end: nat, ghost s0: Space, ghost first: nat,
                          ghost path: set<Node>)
      returns (cur: nat, cleared: nat)
      requires 2 <= level <= 3
      requires Inv(s0) && first <= start < end && Cut(s0, State(), first, start)
      requires IsTable(t, Node(level, Prefix(start, level))) && Node(level, Prefix(start, level)) in path
      requires Tidy(s0, State(), path)
      modifies this
      ensures start < cur && Cut(s0, State(), first, Min(cur, end)) && Tidy(s0, State(), path)
      ensures cur < end ==> Prefix(cur, level) == Prefix(start, level) + 1
      ensures IsTable(t, Node(level, Prefix(start, level))) && AboveKept(old(State()), State(), level)
      ensures CountUnused(mem[t]) == CountUnused(old(mem[t])) + cleared
      decreases level, 0
    {
      ghost var node := Node(level, Prefix(start, level));
      var p := Digit(start, level - 1);
      cur, cleared := start, 0;
      while p < ENTRY_COUNT && cur < end
        invariant start <= cur && p <= ENTRY_COUNT && (cur == start ==> p < ENTRY_COUNT)
        invariant cur < end ==> Prefix(cur, level - 1) == Prefix(start, level) * 512 + p
        invariant Cut(s0, State(), first, Min(cur, end)) && Tidy(s0, State(), path)
        invariant IsTable(t, node) && AboveKept(old(State()), State(), level)
        invariant CountUnused(mem[t]) == CountUnused(old(mem[t])) + cleared
        decreases ENTRY_COUNT - p
      {
        var c;
        cur, c := UnmapSlot(level, t, p, cur, end, s0, first, path);
        cleared := cleared + c;
        p := p + 1;
      }
    }

    /** One slot of a directory: steps over it if it is unused, else unmaps below it and releases the
        table under it once that has no used entry left. */
    method UnmapSlot(level: nat, t: nat, p: nat, start: nat, end: nat, ghost s0: Space, ghost first: nat,
                     ghost path: set<Node>)
      returns (cur: nat, cleared: nat)
      requires 2 <= level <= 4 && p == Digit(start, level - 1)
      requires Inv(s0) && first <= start < end && Cut(s0, State(), first, start)
      requires IsTable(t, Node(level, Prefix(start, level))) && Node(level, Prefix(start, level)) in path
      requires Tidy(s0, State(), path)
      modifies this
      ensures start < cur && Cut(s0, State(), first, Min(cur, end)) && Tidy(s0, State(), path)
      ensures cur < end ==> Prefix(cur, level - 1) == Prefix(start, level - 1) + 1
      ensures IsTable(t, Node(level, Prefix(start, level))) && AboveKept(old(State()), State(), level)
      ensures CountUnused(mem[t]) == CountUnused(old(mem[t])) + cleared
      decreases level - 1, 2
    {
      ghost var child := Node(level - 1, Prefix(start, level - 1));
      CutInv(s0, State(), first, start);
      LinkIsTable(State(), child);
      if mem[t][p].Unused() {
        cur, cleared := UnmapNext(start, Span(level - 1)), 0;
        NextBlock(start, level - 1);
        NothingUnder(State(), child);
        CutNothing(s0, State(), first, start, Min(cur, end));
        return;
      }
      var table := mem[t][p].frame;
      var unused := UnusedEntryCount(table);
      var c;
      cur, c := UnmapSubtree(level - 1, table, start, end, s0, first, path + {child});
      cleared := 0;
      CountUnusedBounds(mem[table]);
      ghost var s := State();
      CutInv(s0, s, first, Min(cur, end));
      if c + unused == ENTRY_COUNT {
        ReleaseKeepsAbove(s, child);
        CutTable(s0, s, first, Min(cur, end), child);
        CountUnusedSet(mem[t], p);
        ReleaseTable(t, p, child);
        TidyTable(s0, s, State(), child, path);
        cleared := 1;
      } else {
        UsedIsBusy(s, child);
        TidyKept(s0, s, child, path);
      }
    }

    /** The loop over the root table. */
    method UnmapPages(start: nat, end: nat)
      requires Valid() && start <= end <= PAGE_LIMIT
      modifies this
      ensures Cut(old(State()), State(), start, end) && Tidy(old(State()), State(), {ROOT})
    {
      ghost var s0 := State();
      var cur, p4 := start, Digit(start, 3);
      NothingCut(s0, start);
      TidyStart(s0, {ROOT});
      RootTable(s0);
      TopDigit(start);
      while cur < end && p4 < ENTRY_COUNT
        invariant start <= cur && p4 <= ENTRY_COUNT
        invariant cur < end ==> p4 == Prefix(cur, 3) && p4 < ENTRY_COUNT
        invariant Cut(s0, State(), start, Min(cur, end)) && Tidy(s0, State(), {ROOT}) && IsTable(root, ROOT)
        decreases ENTRY_COUNT - p4
      {
        TopDigit(cur);
        ghost var c;
        cur, c := UnmapSlot(4, root, p4, cur, end, s0, start, {ROOT});
        TopDigit(Min(cur, end));
        p4 := p4 + 1;
      }
    }

    // Traversal.

    /** Applies `f` to the entry of page `c` if it is used; failing fast, `ok` says whether it was. */
    method VisitEntry(t: nat, i: nat, scan: Scan, f: (Entry, nat) -> Entry, pre: nat, c: nat, visited0: seq<nat>,
                      ghost s0: Space)
      returns (ok: bool, visited: seq<nat>)
      requires IsTable(t, Node(1, pre)) && i < ENTRY_COUNT && c == pre * 512 + i && c < scan.end
      requires Passing(s0, State(), scan, f, c, visited0)
      modifies `mem
      ensures IsTable(t, Node(1, pre))
      ensures ok ==> Passing(s0, State(), scan, f, c + 1, visited)
      ensures !ok ==> Stopped(s0, State(), scan, f, c, visited)
    {
      PassingTree(s0, State(), scan, f, c, visited0);
      PassingPages(s0, State(), scan, f, c, visited0);
      LeafAt(State(), pre, i);
      NextInLeaf(State(), c);
      ok, visited := true, visited0;
      if mem[t][i].Unused() {
        if scan.failFast {
          ok := false;
        } else {
          PassUnmapped(s0, State(), scan, f, c, visited);
        }
      } else {
        assert c / 512 == pre && c % 512 == i;
        PassMapped(s0, State(), scan, f, c, visited);
        mem := mem[t := mem[t][i := f(mem[t][i], c)]];
        visited := visited + [c];
      }
    }

    /** The innermost loop, over the entries of the leaf table `t` whose pages start with `pre`. */
    method TraverseEntries(t: nat, scan: Scan, f: (Entry, nat) -> Entry, pre: nat, index: nat, visited0: seq<nat>,
                           ghost s0: Space)
      returns (ok: bool, p1: nat, visited: seq<nat>)
      requires index < ENTRY_COUNT && IsTable(t, Node(1, pre))
      requires Passing(s0, State(), scan, f, pre * 512 + index, visited0)
      modifies `mem
      ensures p1 < ENTRY_COUNT && IsTable(t, Node(1, pre))
      ensures ok ==> Passing(s0, State(), scan, f, (pre + 1) * 512 + p1, visited)
      ensures !ok ==> var c := pre * 512 + p1; Stopped(s0, State(), scan, f, c, visited)
    {
      p1, visited := index, visited0;
      while pre * 512 + p1 < scan.end
        invariant p1 < ENTRY_COUNT && IsTable(t, Node(1, pre))
        invariant Passing(s0, State(), scan, f, pre * 512 + p1, visited)
      {
        ok, visited := VisitEntry(t, p1, scan, f, pre, pre * 512 + p1, visited, s0);
        if !ok {
          return;
        }
        if p1 == ENTRY_COUNT - 1 {
          return true, 0, visited;
        } else {
          p1 := p1 + 1;
        }
      }
      PassingEnd(s0, State(), scan, f, pre * 512 + p1, visited, (pre + 1) * 512 + p1);
      ok := true;
    }

    /** Traverses below the table `t` at `level` whose pages start with `pre`; `digits` are the table
        indices at which to begin. Afterwards the carry into `pre` is still to be made. */
    method TraverseSubtree(level: nat, t: nat, scan: Scan, f: (Entry, nat) -> Entry, pre: nat, digits: seq<nat>,
                           visited0: seq<nat>, ghost s0: Space)
      returns (ok: bool, p: seq<nat>, visited: seq<nat>, stop: nat)
      requires 1 <= level <= 3 && AreDigits(digits) && IsTable(t, Node(level, pre))
      requires scan.end <= PAGE_LIMIT && Passing(s0, State(), scan, f, Value(pre, digits, level), visited0)
      modifies `mem
      ensures AreDigits(p) && p[level..] == digits[level..] && IsTable(t, Node(level, pre))
      ensures ok ==> Passing(s0, State(), scan, f, Value(pre + 1, p, level), visited)
      ensures !ok ==> Stopped(s0, State(), scan, f, stop, visited)
      decreases level, 1
    {
      if level == 1 {
        ValueOf(pre, digits, 1);
        var p1;
        ok, p1, visited := TraverseEntries(t, scan, f, pre, digits[0], visited0, s0);
        p, stop := digits[0 := p1], pre * 512 + p1;
        ValueOf(pre + 1, p, 1);
      } else {
        ok, p, visited, stop := TraverseDirectory(level, t, scan, f, pre, digits, visited0, s0);
      }
    }

    /** The loop over a middle or an upper directory. */
    method TraverseDirectory(level: nat, t: nat, scan: Scan, f: (Entry, nat) -> Entry, pre: nat, digits: seq<nat>,
                             visited0: seq<nat>, ghost s0: Space)
      returns (ok: bool, p: seq<nat>, visited: seq<nat>, stop: nat)
      requires 2 <= level <= 3 && AreDigits(digits) && IsTable(t, Node(level, pre))
      requires scan.end <= PAGE_LIMIT && Passing(s0, State(), scan, f, Value(pre, digits, level), visited0)
      modifies `mem
      ensures AreDigits(p) && p[level..] == digits[level..] && IsTable(t, Node(level, pre))
      ensures ok ==> Passing(s0, State(), scan, f, Value(pre + 1, p, level), visited)
      ensures !ok ==> Stopped(s0, State(), scan, f, stop, visited)
      decreases level, 0
    {
      ok, p, visited, stop := true, digits, visited0, 0;
      while Value(pre, p, level) < scan.end
        invariant AreDigits(p) && p[level..] == digits[level..] && IsTable(t, Node(level, pre))
        invariant Passing(s0, State(), scan, f, Value(pre, p, level), visited)
        decreases 512 - p[level - 1]
      {
        var index := p[level - 1];
        ok, p, visited, stop := TraverseSlot(level, t, scan, f, pre, index, p, visited, s0);
        if !ok {
          return;
        }
        Bump(pre, p, level, index);
        if index == ENTRY_COUNT - 1 {
          p := p[level - 1 := 0];
          return;
        } else {
          p := p[level - 1 := index + 1];
        }
      }
      ValueAfter(pre, p, level);
      PassingEnd(s0, State(), scan, f, Value(pre, p, level), visited, Value(pre + 1, p, level));
    }

    /** Stops at an unused slot, or steps over it. That resets the indices below it, except from the last slot of a
        directory other than the root. */
    method SkipSlot(level: nat, scan: Scan, ghost f: (Entry, nat) -> Entry, ghost pre: nat, index: nat,
                    digits: seq<nat>, ghost visited: seq<nat>, ghost s0: Space)
      returns (ok: bool, p: seq<nat>)
      requires 2 <= level <= 4 && AreDigits(digits) && index < ENTRY_COUNT
      requires Node(level, pre) in dir && Node(level - 1, pre * 512 + index) !in dir
      requires Value(pre * 512 + index, digits, level - 1) < scan.end <= PAGE_LIMIT
      requires Passing(s0, State(), scan, f, Value(pre * 512 + index, digits, level - 1), visited)
      ensures AreDigits(p) && p[level - 1..] == digits[level - 1..]
      ensures ok ==> Passing(s0, State(), scan, f, Value(pre * 512 + index + 1, p, level - 1), visited)
      ensures !ok ==> Stopped(s0, State(), scan, f, Value(pre * 512 + index, digits, level - 1), visited)
    {
      PassSlot(s0, State(), scan, f, pre, digits, level, index, visited);
      ok, p := !scan.failFast, digits;
      if ok && (index < ENTRY_COUNT - 1 || level == 4) {
        p := Reset(p, level - 1);
      }
    }

    /** One slot of a directory. */
    method TraverseSlot(level: nat, t: nat, scan: Scan, f: (Entry, nat) -> Entry, pre: nat, index: nat,
                        digits: seq<nat>, visited0: seq<nat>, ghost s0: Space)
      returns (ok: bool, p: seq<nat>, visited: seq<nat>, stop: nat)
      requires 2 <= level <= 4 && AreDigits(digits) && index < ENTRY_COUNT && IsTable(t, Node(level, pre))
      requires Value(pre * 512 + index, digits, level - 1) < scan.end <= PAGE_LIMIT
      requires Passing(s0, State(), scan, f, Value(pre * 512 + index, digits, level - 1), visited0)
      modifies `mem
      ensures AreDigits(p) && p[level - 1..] == digits[level - 1..] && IsTable(t, Node(level, pre))
      ensures ok ==> Passing(s0, State(), scan, f, Value(pre * 512 + index + 1, p, level - 1), visited)
      ensures !ok ==> Stopped(s0, State(), scan, f, stop, visited)
      decreases level - 1, 2
    {
      stop := Value(pre * 512 + index, digits, level - 1);
      PassingChild(s0, State(), scan, f, stop, visited0, t, level, pre, index);
      if mem[t][index].Unused() {
        visited := visited0;
        ok, p := SkipSlot(level, scan, f, pre, index, digits, visited0, s0);
      } else {
        ok, p, visited, stop :=
          TraverseSubtree(level - 1, mem[t][index].frame, scan, f, pre * 512 + index, digits, visited0, s0);
        ghost var c := if ok then Value(pre * 512 + index + 1, p, level - 1) else stop;
        PassingKeeps(s0, State(), scan, f, c, visited, Node(level, pre));
      }
    }

    /** One slot of the root table. */
    method TraverseRootSlot(scan: Scan, f: (Entry, nat) -> Entry, index: nat, digits: seq<nat>, visited0: seq<nat>,
                            ghost s0: Space)
      returns (ok: bool, p: seq<nat>, visited: seq<nat>, stop: nat)
      requires AreDigits(digits) && index < ENTRY_COUNT && IsTable(root, ROOT)
      requires Value(index, digits, 3) < scan.end <= PAGE_LIMIT
      requires Passing(s0, State(), scan, f, Value(index, digits, 3), visited0)
      modifies `mem
      ensures AreDigits(p) && IsTable(root, ROOT)
      ensures ok ==> Passing(s0, State(), scan, f, Value(index + 1, p, 3), visited)
      ensures !ok ==> Stopped(s0, State(), scan, f, stop, visited)
    {
      assert 0 * 512 + index == index;
      ok, p, visited, stop := TraverseSlot(4, root, scan, f, 0, index, digits, visited0, s0);
    }

    /** The loop over the root table, from slot `index` on. */
    method TraverseRoot(scan: Scan, f: (Entry, nat) -> Entry, index: nat, digits: seq<nat>, ghost s0: Space)
      returns (ok: bool, visited: seq<nat>, stop: nat)
      requires AreDigits(digits) && index <= ENTRY_COUNT && IsTable(root, ROOT) && scan.end <= PAGE_LIMIT / 2
      requires Passing(s0, State(), scan, f, Value(index, digits, 3), [])
      modifies `mem
      ensures Value(index, digits, 3) >= scan.end ==> ok && visited == [] && mem == old(mem)
      ensures ok ==> stop >= scan.end && Passing(s0, State(), scan, f, stop, visited)
      ensures !ok ==> Stopped(s0, State(), scan, f, stop, visited)
    {
      var p4, p := index, digits;
      ok, visited, stop := true, [], Value(index, digits, 3);
      while stop < scan.end
        invariant AreDigits(p) && p4 <= ENTRY_COUNT && IsTable(root, ROOT) && stop == Value(p4, p, 3)
        invariant Passing(s0, State(), scan, f, stop, visited)
        invariant Value(index, digits, 3) >= scan.end ==> stop >= scan.end && visited == [] && mem == old(mem)
        decreases ENTRY_COUNT - p4
      {
        TopIndex(p4, p, scan.end);
        ok, p, visited, stop := TraverseRootSlot(scan, f, p4, p, visited, s0);
        if !ok {
          return;
        }
        p4 := p4 + 1;
        stop := Value(p4, p, 3);
      }
    }

    method TraversePages(scan: Scan, f: (Entry, nat) -> Entry)
      returns (ok: bool, visited: seq<nat>, stop: nat)
      requires Valid() && scan.start < PAGE_LIMIT && scan.end <= PAGE_LIMIT / 2
      modifies `mem
      ensures scan.end <= scan.start ==> ok && visited == [] && State() == old(State())
      ensures ok ==> stop >= scan.end && Passing(old(State()), State(), scan, f, stop, visited)
      ensures !ok ==> Stopped(old(State()), State(), scan, f, stop, visited)
    {
      PassingStart(State(), scan, f);
      RootTable(State());
      FromDigits(scan.start);
      var digits := [Digit(scan.start, 0), Digit(scan.start, 1), Digit(scan.start, 2)];
      ok, visited, stop := TraverseRoot(scan, f, Digit(scan.start, 3), digits, State());
    }

    // The operations on virtual addresses.

    /** Maps the page of `vaddr` onto the frame at `phyAddr`; the result says whether it was mapped before. */
    method MapPage(vaddr: nat, phyAddr: nat, flags: nat) returns (r: Result<bool>)
      requires Valid() && vaddr < PAGE_LIMIT * PAGE_SIZE && phyAddr % PAGE_SIZE == 0 && flags > 0
      requires phyAddr / PAGE_SIZE !in pool
      modifies this
      ensures Valid() && SameHolders(old(ext), ext) && FromPool(old(State()), State()) && lent <= old(lent)
      ensures Balanced(old(State()), State())
      ensures r.Ok? <==> !Short(old(State()), vaddr / PAGE_SIZE, vaddr / PAGE_SIZE + 1)
      ensures r.Ok? ==>
                && View() == old(View())[vaddr / PAGE_SIZE := Entry(phyAddr / PAGE_SIZE, flags)]
                && r.value == (vaddr / PAGE_SIZE in old(View()))
                && (old(Safe()) ==> (Safe() <==> phyAddr / PAGE_SIZE !in old(freePages)))
                && (old(Trimmed(State())) ==> Trimmed(State()))
      ensures r.Err? ==>
                && r.error == NoEnoughMemory && pool == [] && View() == old(View()) && (old(Safe()) ==> Safe())
                && (old(Trimmed(State())) ==> (Trimmed(State()) <==> old(pool) == []))
    {
      var v := vaddr / PAGE_SIZE;
      var job := Job(v, v + 1, phyAddr / PAGE_SIZE, flags, false);
      var ok, res, cut := MapPageAt(job);
      DoneBalances(old(State()), State(), job, cut, res);
      if !ok {
        NoneDone(old(State()), State(), job, res);
        if old(Trimmed(State())) {
          NothingTrimmed(old(State()), State(), job, res);
        }
        return Err(NoEnoughMemory);
      }
      OneDone(old(State()), State(), job, res);
      if old(Trimmed(State())) {
        DoneTrimmed(old(State()), State(), job, res);
      }
      r := Ok(res);
    }

    /** Maps the pages of `job`, and says how far it got. */
    method MapPages(job: Job) returns (ok: bool, res: bool, ghost cut: nat)
      requires Valid() && Admissible(State(), job) && job.end <= PAGE_LIMIT / 2
      modifies this
      ensures job.start <= cut <= job.end && JobResult(old(State()), State(), job, cut)
      ensures Balanced(old(State()), State())
      ensures old(Safe()) ==> (Safe() <==> AllHeld(old(State()), job, cut))
      ensures ok <==> !Short(old(State()), job.start, job.end)
      ensures ok ==> cut == job.end && res == AnyMapped(old(View()), job.start, job.end)
      ensures ok ==> (old(Trimmed(State())) ==> Trimmed(State()))
      ensures !ok ==> cut < job.end && pool == []
      ensures !ok ==> !Short(old(State()), job.start, cut) && Short(old(State()), job.start, cut + 1)
      ensures !ok ==> (old(Trimmed(State())) ==> (Trimmed(State()) <==> JustEnough(old(State()), job.start, cut)))
    {
      ok, res, cut := MapCanonical(job);
      DoneBalances(old(State()), State(), job, cut, res);
      JobDone(old(State()), State(), job, cut, res);
      SucceedsIff(old(State()), State(), job, cut, res, ok);
      if old(Trimmed(State())) {
        if ok {
          DoneTrimmed(old(State()), State(), job, res);
        } else {
          TrimmedIff(old(State()), State(), job, cut, res);
        }
      }
    }

    /** Maps the pages of [start, end) below the canonical hole onto the frames from `physical` on. */
    method Map(start: nat, end: nat, physical: nat, flags: nat, kernel: bool)
      returns (r: Result<bool>, ghost cut: nat)
      requires Valid() && end <= UPPER_BOTTOM && physical % PAGE_SIZE == 0
      requires start % PAGE_SIZE == 0 && end % PAGE_SIZE == 0 && start <= end && start < LOWER_TOP ==>
                 MayMap(pool, refs, start, end, physical, flags, kernel)
      modifies this
      ensures start % PAGE_SIZE != 0 || end % PAGE_SIZE != 0 ==> r == Err(UnalignedAddress) && State() == old(State())
      ensures start % PAGE_SIZE == 0 && end % PAGE_SIZE == 0 && end < start ==>
                r == Err(AddressNotInRange) && State() == old(State())
      ensures start % PAGE_SIZE == 0 && end % PAGE_SIZE == 0 && LOWER_TOP <= start <= end ==>
                r == Ok(false) && State() == old(State())
      ensures start % PAGE_SIZE == 0 && end % PAGE_SIZE == 0 && start <= end && start < LOWER_TOP ==>
                var job := MapJob(start, end, physical, flags, kernel);
                && job.start <= cut <= job.end && JobResult(old(State()), State(), job, cut)
                && MapsOnto(old(View()), View(), start, if r.Ok? then Min(end, LOWER_TOP) else cut * PAGE_SIZE,
                            physical, flags)
                && Balanced(old(State()), State())
                && (old(Safe()) ==> (Safe() <==> AllHeld(old(State()), job, cut)))
                && (r.Ok? <==> !Short(old(State()), job.start, job.end))
                && (r.Ok? ==>
                      && cut == job.end
                      && r.value == AnyMapped(old(View()), job.start, job.end)
                      && (old(Trimmed(State())) ==> Trimmed(State())))
                && (r.Err? ==>
                      && cut < job.end && r.error == NoEnoughMemory && pool == []
                      && !Short(old(State()), job.start, cut) && Short(old(State()), job.start, cut + 1)
                      && (old(Trimmed(State())) ==> (Trimmed(State()) <==> JustEnough(old(State()), job.start, cut))))
    {
      cut := start / PAGE_SIZE;
      if start % PAGE_SIZE != 0 || end % PAGE_SIZE != 0 {
        return Err(UnalignedAddress), cut;
      }
      if end < start {
        return Err(AddressNotInRange), cut;
      }
      if start < LOWER_TOP {
        var ok, res;
        MayMapJob(State(), start, end, physical, flags, kernel);
        ok, res, cut := MapPages(MapJob(start, end, physical, flags, kernel));
        JobMapsOnto(old(View()), start, end, physical, flags, kernel, cut);
        return if ok then Ok(res) else Err(NoEnoughMemory), cut;
      }
      return Ok(false), cut;
    }

    /** Unmaps [start, end) and gives back the tables it empties. */
    method Unmap(start: nat, end: nat) returns (r: Result<()>)
      requires Valid() && end <= PAGE_LIMIT * PAGE_SIZE
      modifies this
      ensures start % PAGE_SIZE != 0 || end % PAGE_SIZE != 0 ==> r == Err(UnalignedAddress) && State() == old(State())
      ensures start % PAGE_SIZE == 0 && end % PAGE_SIZE == 0 ==>
                && r == Ok(()) && Valid() && Shrunk(old(State()), State())
                && View() == Without(old(View()), start / PAGE_SIZE, end / PAGE_SIZE)
                && (old(Trimmed(State())) ==> Trimmed(State()))
    {
      if start % PAGE_SIZE != 0 || end % PAGE_SIZE != 0 {
        return Err(UnalignedAddress);
      }
      var first, last := start / PAGE_SIZE, end / PAGE_SIZE;
      if start < end {
        UnmapPages(first, last);
        assert CutIn(Structure, old(State()), State(), first, last);
        assert CutIn(Remaining, old(State()), State(), first, last);
        if old(Trimmed(State())) {
          TidyTrimmed(old(State()), State());
        }
      }
      r := Ok(());
    }

    /** Takes a reference to the frame of page `v` and unmaps the page. */
    method Take(v: nat, f: nat)
      requires Valid() && v < PAGE_LIMIT && v in View() && View()[v].frame == f
      modifies this
      ensures Taken(old(State()), State(), v)
    {
      FrameNotPooled(State(), v);
      PageAddress(v);
      PageAddress(v + 1);
      Ref(f);
      var r := Unmap(v * PAGE_SIZE, (v + 1) * PAGE_SIZE);
    }

    /** Takes a reference to every frame mapped in the old range and unmaps the range. */
    method Gather(m: Move) returns (frames: seq<Option<nat>>)
      requires Valid() && m.from + m.count <= PAGE_LIMIT
      modifies this
      ensures |frames| == m.count && GatherDone(old(State()), State(), m, frames)
    {
      frames := [];
      GatherStart(State(), m);
      for i := 0 to m.count
        invariant |frames| == i && GatherDone(old(State()), State(), m, frames)
      {
        ghost var s := State();
        GatherInv(old(State()), s, m, frames);
        var v := m.from + i;
        var entry := VirtualToEntry(v * PAGE_SIZE);
        if entry.Ok? {
          Take(v, entry.value.frame);
          GatherHit(old(State()), s, State(), m, frames);
          frames := frames + [Some(entry.value.frame)];
        } else {
          GatherMiss(old(State()), s, m, frames);
          frames := frames + [None];
        }
      }
    }

    /** Maps every gathered frame at its new place and drops the reference held for it. */
    method Place(m: Move, frames: seq<Option<nat>>, ghost s0: Space) returns (ok: bool, ghost k: nat)
      requires Inv(s0) && |frames| == m.count && PlaceDone(s0, State(), m, frames, 0)
      requires Gathered(PageSpace.View(s0), m, frames)
      requires m.start + m.count <= PAGE_LIMIT && m.flags > 0
      modifies this
      ensures k <= m.count && PlaceDone(s0, State(), m, frames, k)
      ensures Balanced(old(State()), State())
      ensures ok ==> k == m.count && (old(Trimmed(State())) ==> Trimmed(State()))
      ensures !ok ==> k < m.count && frames[k].Some? && pool == []
      ensures !ok && old(Trimmed(State())) ==> Starved(State(), m.start + k)
    {
      BalancedStart(State());
      for i := 0 to m.count
        invariant PlaceDone(s0, State(), m, frames, i) && Balanced(old(State()), State())
        invariant old(Trimmed(State())) ==> Trimmed(State())
      {
        if frames[i].None? {
          PlaceMiss(s0, State(), m, frames, i);
        } else {
          ok := PlaceOne(m, frames, i, s0, old(State()));
          if !ok {
            return false, i;
          }
        }
      }
      return true, m.count;
    }

    method PlaceOne(m: Move, frames: seq<Option<nat>>, i: nat, ghost s0: Space, ghost s1: Space) returns (ok: bool)
      requires Inv(s0) && i < |frames| == m.count && frames[i].Some? && PlaceDone(s0, State(), m, frames, i)
      requires Gathered(PageSpace.View(s0), m, frames)
      requires m.start + m.count <= PAGE_LIMIT && m.flags > 0 && Balanced(s1, State())
      modifies this
      ensures PlaceDone(s0, State(), m, frames, if ok then i + 1 else i)
      ensures Balanced(s1, State())
      ensures ok ==> (old(Trimmed(State())) ==> Trimmed(State()))
      ensures !ok ==> pool == [] && (old(Trimmed(State())) ==> Starved(State(), m.start + i))
    {
      PlaceReady(s0, State(), m, frames, i);
      var job := Job(m.start + i, m.start + i + 1, frames[i].value, m.flags, false);
      var res;
      ghost var cut;
      ok, res, cut := MapPageAt(job);
      DoneBalanced(s1, old(State()), State(), job, cut, res);
      if !ok {
        PlaceFail(s0, old(State()), State(), m, frames, i, job, res);
        if Trimmed(old(State())) {
          StarvedAt(old(State()), State(), job, res);
        }
        return;
      }
      if Trimmed(old(State())) {
        DoneTrimmed(old(State()), State(), job, res);
      }
      PlaceHit(s0, old(State()), State(), m, frames, i, job, res);
      BalancedStep(s1, State(), Dereferenced(State(), frames[i].value));
      DropRef(frames[i].value);
    }

    /** Moves pages, and says how far it got. */
    method MovePages(m: Move) returns (ok: bool, ghost k: nat)
      requires Valid() && m.flags > 0 && m.start + m.count <= PAGE_LIMIT && m.from + m.count <= PAGE_LIMIT
      modifies this
      ensures MoveResult(old(State()), State(), m, k, ok)
      ensures k <= m.count && (ok ==> k == m.count) && (!ok ==> k < m.count && pool == [])
    {
      ghost var s0 := State();
      var frames := Gather(m);
      ghost var s1 := State();
      PlaceStart(s0, s1, m, frames);
      ok, k := Place(m, frames, s0);
      PlaceResult(s0, State(), m, frames, k);
      MoveLedger(s0, State(), m, frames, k, ok);
      if Trimmed(s0) {
        MoveIff(s0, s1, State(), m, frames, k, ok);
      }
    }

    /** Moves the pages from `oldStart` on to [start, end), all at once even when the ranges overlap. */
    method Remap(start: nat, end: nat, oldStart: nat, flags: nat) returns (r: Result<bool>, ghost k: nat)
      requires Valid() && flags > 0
      requires end <= PAGE_LIMIT * PAGE_SIZE && oldStart + (end - start) <= PAGE_LIMIT * PAGE_SIZE
      modifies this
      ensures start % PAGE_SIZE != 0 || oldStart % PAGE_SIZE != 0 ==>
                r == Err(UnalignedAddress) && State() == old(State())
      ensures start % PAGE_SIZE == 0 && oldStart % PAGE_SIZE == 0 && end < start ==>
                r == Err(AddressNotInRange) && State() == old(State())
      ensures start % PAGE_SIZE == 0 && oldStart % PAGE_SIZE == 0 && start <= end ==>
                var m := Move(start / PAGE_SIZE, oldStart / PAGE_SIZE, PagesOf(end - start), flags);
                && MoveResult(old(State()), State(), m, k, r.Ok?)
                && (r.Ok? ==> r == Ok(false) && k == m.count)
                && (r.Err? ==> r.error == NoEnoughMemory && k < m.count && pool == [])
                && MovesOnto(old(View()), View(), start, if r.Ok? then end else start + k * PAGE_SIZE, oldStart,
                             oldStart + (end - start), flags)
    {
      k := 0;
      if start % PAGE_SIZE != 0 || oldStart % PAGE_SIZE != 0 {
        return Err(UnalignedAddress), k;
      }
      if end < start {
        return Err(AddressNotInRange), k;
      }
      var m := Move(start / PAGE_SIZE, oldStart / PAGE_SIZE, PagesOf(end - start), flags);
      MoveFits(start, end);
      MoveFits(oldStart, oldStart + (end - start));
      var ok;
      ok, k := MovePages(m);
      MovedOnto(old(State()), State(), start, end, oldStart, flags, k, ok);
      r := if ok then Ok(false) else Err(NoEnoughMemory);
    }

    /** Applies `f` to the entries of the mapped pages of [start, end) that the walk visits. */
    method Traverse(start: nat, end: nat, f: (Entry, nat) -> Entry, failFast: bool)
      returns (r: Result<()>, visited: seq<nat>)
      requires Valid() && Canonical(start) && end <= LOWER_TOP
      modifies `mem
      ensures start % PAGE_SIZE != 0 || end % PAGE_SIZE != 0 ==>
                r == Err(UnalignedAddress) && visited == [] && State() == old(State())
      ensures start % PAGE_SIZE == 0 && end % PAGE_SIZE == 0 && end < start ==>
                r == Ok(()) && visited == [] && State() == old(State())
      ensures start % PAGE_SIZE == 0 && end % PAGE_SIZE == 0 && start <= end ==>
                var first, last := start / PAGE_SIZE, end / PAGE_SIZE;
                && (KeepsFrames(old(View()), visited, f) ==> Valid()) && View() == Applied(old(View()), visited, f)
                && Visits(dir, old(View()), Scan(first, last, failFast), r, visited)
    {
      if start % PAGE_SIZE != 0 || end % PAGE_SIZE != 0 {
        return Err(UnalignedAddress), [];
      }
      PageNumberOrder(start, end);
      var scan := Scan(PageNumber(start), end / PAGE_SIZE, failFast);
      var ok, stop;
      ok, visited, stop := TraversePages(scan, f);
      if start <= end {
        TraverseEnds(old(State()), State(), scan, f, ok, stop, visited);
      }
      r := if ok then Ok(()) else Err(AddressNotMap(stop * PAGE_SIZE));
    }

    /** Sets the flags of the pages of [start, end). */
    method MProtect(start: nat, end: nat, flags: nat, failFast: bool) returns (r: Result<()>, visited: seq<nat>)
      requires Valid() && flags > 0 && Canonical(start) && end <= LOWER_TOP
      modifies `mem
      ensures start % PAGE_SIZE != 0 || end % PAGE_SIZE != 0 ==>
                r == Err(UnalignedAddress) && visited == [] && State() == old(State())
      ensures start % PAGE_SIZE == 0 && end % PAGE_SIZE == 0 && end < start ==>
                r == Ok(()) && visited == [] && State() == old(State())
      ensures start % PAGE_SIZE == 0 && end % PAGE_SIZE == 0 && start <= end ==>
                var first, last := start / PAGE_SIZE, end / PAGE_SIZE;
                && Valid() && View() == Reflagged(old(View()), visited, flags)
                && Visits(dir, old(View()), Scan(first, last, failFast), r, visited)
    {
      var f := (e: Entry, v: nat) => Entry(e.frame, flags);
      r, visited := Traverse(start, end, f, failFast);
      ReflagApplied(old(State()), visited, flags, f);
    }
  }
}
