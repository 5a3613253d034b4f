/** What unmapping a run of pages, and reclaiming the tables it empties, does to an address space. */
module PageUnmapping {
  import opened PageTableShape
  import opened PageCounts
  import opened PageSpace
  import opened PageMapping

  ghost function Without(pages: map<nat, Entry>, start: nat, end: nat): map<nat, Entry> {
    pages - (set v | v in pages && start <= v < end)
  }

  /** The tables lost since `s0` are left with no used entry. */
  ghost predicate LostEmpty(s0: Space, s: Space) {
    forall n | n in s0.dir && n !in s.dir :: s0.dir[n] in s.mem && EmptyTable(s.mem[s0.dir[n]])
  }

  /** Reclaiming: the tree only loses tables, and a table it lost is left with no used entry. */
  ghost predicate Shrunk(s0: Space, s: Space) {
    && s.root == s0.root && s.pool == s0.pool && s.ext == s0.ext && s.lent == s0.lent && s.refs.Keys == s0.refs.Keys
    && Extends(s.dir, s0.dir) && s0.freePages <= s.freePages
    && (FreeListSafe(s0.refs, s0.freePages) ==> FreeListSafe(s.refs, s.freePages))
    && LostEmpty(s0, s)
  }

  /** The parts of `Cut`; see `Unit` in Basics. */
  datatype Facet = Structure | Remaining

  ghost predicate CutIn(f: Facet, s0: Space, s: Space, start: nat, cur: nat) {
    && (f.Structure? ==> Inv(s) && Shrunk(s0, s))
    && (f.Remaining? ==> View(s) == Without(View(s0), start, cur))
  }

  /** Exactly the pages of [start, cur) have been unmapped. */
  ghost predicate Cut(s0: Space, s: Space, start: nat, cur: nat) {
    forall f: Facet :: CutIn(f, s0, s, start, cur)
  }

  /** Every table outside `path` that had something under it still has. */
  ghost predicate Tidy(s0: Space, s: Space, path: set<Node>) {
    forall n | n in s.dir && n !in path && Busy(s0, n) :: Busy(s, n)
  }

  /** Tables above `level` are as they were. */
  ghost predicate AboveKept(s: Space, s': Space, level: nat) {
    forall n | n in s.dir && n.level > level && s.dir[n] in s.mem ::
      n in s'.dir && s'.dir[n] == s.dir[n] && s.dir[n] in s'.mem && s'.mem[s.dir[n]] == s.mem[s.dir[n]]
  }

  lemma CutInv(s0: Space, s: Space, start: nat, cur: nat)
    requires Cut(s0, s, start, cur)
    ensures Inv(s)
  {
    assert CutIn(Structure, s0, s, start, cur);
  }

  lemma NothingCut(s: Space, start: nat)
    requires Inv(s)
    ensures Cut(s, s, start, start)
  {
  }

  /** Unmapping page `cur` and moving past it. */
  lemma CutPage(s0: Space, s: Space, start: nat, cur: nat)
    requires Inv(s0) && start <= cur && Cut(s0, s, start, cur) && cur in View(s)
    ensures Node(0, cur).Parent() in s.dir && s.dir[Node(0, cur).Parent()] in s.mem
    ensures Cut(s0, Unmapped(s, cur), start, cur + 1)
  {
    CutInv(s0, s, start, cur);
    UnmappedKeeps(s, cur);
    CutPageStructure(s0, s, start, cur);
    CutPagePages(s0, s, start, cur);
  }

  lemma CutPagePages(s0: Space, s: Space, start: nat, cur: nat)
    requires start <= cur && Cut(s0, s, start, cur) && Inv(s) && cur in View(s)
    requires Node(0, cur).Parent() in s.dir && s.dir[Node(0, cur).Parent()] in s.mem
    ensures CutIn(Remaining, s0, Unmapped(s, cur), start, cur + 1)
  {
    UnmappedKeeps(s, cur);
    assert CutIn(Remaining, s0, s, start, cur);
    WithoutStep(View(s0), start, cur);
  }

  lemma WithoutStep(pages: map<nat, Entry>, start: nat, cur: nat)
    requires start <= cur
    ensures Without(pages, start, cur) - {cur} == Without(pages, start, cur + 1)
  {
  }

  lemma CutPageStructure(s0: Space, s: Space, start: nat, cur: nat)
    requires Inv(s0) && start <= cur && Cut(s0, s, start, cur) && Inv(s) && cur in View(s)
    requires Node(0, cur).Parent() in s.dir && s.dir[Node(0, cur).Parent()] in s.mem
    ensures CutIn(Structure, s0, Unmapped(s, cur), start, cur + 1)
  {
    UnmappedKeeps(s, cur);
    assert CutIn(Structure, s0, s, start, cur);
    LostStayEmpty(s0, s, Node(0, cur), UNUSED, Unmapped(s, cur));
  }

  /** A table still in the tree is none of those lost, so writing to it leaves them empty. */
  lemma LostStayEmpty(s0: Space, s: Space, n: Node, e: Entry, s': Space)
    requires Holds(s0, Tree) && Extends(s.dir, s0.dir) && LostEmpty(s0, s)
    requires n.Parent() in s.dir && s.dir[n.Parent()] in s.mem
    requires s'.dir == s.dir && s'.mem == WithLink(s.mem, s.dir, n, e)
    ensures LostEmpty(s0, s')
  {
    forall m | m in s0.dir && m !in s'.dir ensures s0.dir[m] in s'.mem && EmptyTable(s'.mem[s0.dir[m]]) {
      assert s0.dir[m] != s0.dir[n.Parent()];
    }
  }

  /** Moving past pages that are not mapped. */
  lemma CutNothing(s0: Space, s: Space, start: nat, cur: nat, cur': nat)
    requires start <= cur <= cur' && Cut(s0, s, start, cur)
    requires forall v | cur <= v < cur' :: v !in View(s)
    ensures Cut(s0, s, start, cur')
  {
    assert CutIn(Structure, s0, s, start, cur) && CutIn(Remaining, s0, s, start, cur);
    assert Without(View(s0), start, cur) == Without(View(s0), start, cur') by {
      assert forall v | v in View(s0) && cur <= v < cur' :: v in Without(View(s0), start, cur);
    }
  }

  /** Releasing an emptied table. */
  lemma CutTable(s0: Space, s: Space, start: nat, cur: nat, n: Node)
    requires Inv(s0) && Cut(s0, s, start, cur) && 1 <= n.level <= 3
    requires n in s.dir && s.dir[n] in s.mem && EmptyTable(s.mem[s.dir[n]])
    ensures n.Parent() in s.dir && s.dir[n.Parent()] in s.mem
    ensures Cut(s0, Released(s, n), start, cur)
  {
    CutInv(s0, s, start, cur);
    ReleasedKeeps(s, n);
    assert CutIn(Remaining, s0, s, start, cur);
    CutTableStructure(s0, s, start, cur, n);
  }

  lemma CutTableStructure(s0: Space, s: Space, start: nat, cur: nat, n: Node)
    requires Inv(s0) && Cut(s0, s, start, cur) && 1 <= n.level <= 3
    requires n in s.dir && s.dir[n] in s.mem && EmptyTable(s.mem[s.dir[n]])
    requires Inv(s) && n.Parent() in s.dir && s.dir[n.Parent()] in s.mem
    ensures CutIn(Structure, s0, Released(s, n), start, cur)
  {
    ReleasedKeeps(s, n);
    assert CutIn(Structure, s0, s, start, cur);
    NoTwoNodes(s0, n.Parent());
  }

  lemma NoTwoNodes(s: Space, n: Node)
    requires Inv(s) && n in s.dir
    ensures forall m | m in s.dir && s.dir[m] == s.dir[n] :: m == n
  {
    Unfold(s);
  }

  /** Writing the table of a node leaves the tables above it alone. */
  lemma WriteKeepsAbove(s: Space, s': Space, n: Node, t: Table)
    requires Inv(s) && n in s.dir && s'.dir == s.dir && s'.mem == s.mem[s.dir[n] := t]
    ensures AboveKept(s, s', n.level)
  {
    NoTwoNodes(s, n);
  }

  lemma ReleaseKeepsAbove(s: Space, n: Node)
    requires Inv(s) && n in s.dir && n.Parent() in s.dir && s.dir[n.Parent()] in s.mem
    ensures AboveKept(s, Released(s, n), n.level + 1)
  {
    NoTwoNodes(s, n.Parent());
  }

  /** A table with a used entry has something under it. */
  lemma UsedIsBusy(s: Space, n: Node)
    requires Inv(s) && n in s.dir && s.dir[n] in s.mem && !EmptyTable(s.mem[s.dir[n]])
    ensures Busy(s, n)
  {
    Unfold(s);
    var i :| 0 <= i < 512 && !s.mem[s.dir[n]][i].Unused();
    var c := Node(n.level - 1, n.prefix * 512 + i);
    assert c.Parent() == n && Link(s.mem, s.dir, c) == s.mem[s.dir[n]][i];
    if c.level == 0 {
      LeafUsed(s, c.prefix);
    }
  }

  /** Unmapping a page in a leaf table on the path leaves every other table as busy as it was. */
  lemma TidyPage(s0: Space, s: Space, s': Space, v: nat, path: set<Node>)
    requires Tidy(s0, s, path) && s'.dir == s.dir && View(s') == View(s) - {v} && Node(0, v).Parent() in path
    ensures Tidy(s0, s', path)
  {
    forall n | n in s'.dir && n !in path && Busy(s0, n) ensures Busy(s', n) {
      assert Busy(s, n);
      var c: Node :| c.Parent() == n && (c in s.dir || (c.level == 0 && c.prefix in View(s)));
      assert c != Node(0, v);
    }
  }

  /** So does releasing a table whose parent is on the path, and a table that keeps an entry leaves it. */
  lemma TidyTable(s0: Space, s: Space, s': Space, n: Node, path: set<Node>)
    requires Tidy(s0, s, path + {n}) && n.Parent() in path && s'.dir == s.dir - {n} && View(s') == View(s)
    ensures Tidy(s0, s', path)
  {
    forall m | m in s'.dir && m !in path && Busy(s0, m) ensures Busy(s', m) {
      assert Busy(s, m);
      var c: Node :| c.Parent() == m && (c in s.dir || (c.level == 0 && c.prefix in View(s)));
      assert c != n;
    }
  }

  lemma TidyKept(s0: Space, s: Space, n: Node, path: set<Node>)
    requires Tidy(s0, s, path + {n}) && Busy(s, n)
    ensures Tidy(s0, s, path)
  {
  }

  /** No page under a node without a table is mapped. */
  lemma NothingUnder(s: Space, n: Node)
    requires Holds(s, Tree) && 1 <= n.level <= 3 && n !in s.dir
    ensures forall v: nat | Prefix(v, n.level) == n.prefix :: v !in View(s)
  {
    forall v: nat | Prefix(v, n.level) == n.prefix ensures v !in View(s) {
      if v in View(s) {
        PathToPage(s, v);
      }
    }
  }

  /** The number of pages a table at `level` covers. */
  function Span(level: nat): nat {
    if level == 0 then 1 else 512 * Span(level - 1)
  }

  /** The first address past the block of `size` that holds `start`. */
  function UnmapNext(start: nat, size: nat): nat
    requires size > 0
  {
    start / size * size + size
  }

  lemma PrefixIsQuotient(v: nat, level: nat)
    requires level <= 3
    ensures Span(level) > 0 && Prefix(v, level) == v / Span(level)
  {
    assert Span(0) == 1 && Span(1) == 512 && Span(2) == 512 * 512 && Span(3) == 512 * 512 * 512;
    assert Prefix(v, 0) == v && Prefix(v, 1) == v / 512;
    assert Prefix(v, 2) == Prefix(v, 1) / 512 && Prefix(v, 3) == Prefix(v, 2) / 512;
  }

  /** Stepping over the block of a node leads to the next node at its level. */
  lemma NextBlock(v: nat, level: nat)
    requires 1 <= level <= 3
    ensures Span(level) > 0
    ensures var v' := UnmapNext(v, Span(level));
            v < v' && Prefix(v', level) == Prefix(v, level) + 1
            && forall u | v <= u < v' :: Prefix(u, level) == Prefix(v, level)
  {
    PrefixIsQuotient(v, level);
    var k, v' := Span(level), UnmapNext(v, Span(level));
    PrefixIsQuotient(v', level);
    BlockOf(v, v', k);
    forall u | v <= u < v' ensures Prefix(u, level) == Prefix(v, level) {
      PrefixIsQuotient(u, level);
      BlockOf(v, u, k);
    }
  }

  lemma BlockOf(v: nat, u: nat, k: nat)
    requires k > 0 && v <= u
    ensures v < v / k * k + k
    ensures u < v / k * k + k ==> u / k == v / k
    ensures u == v / k * k + k ==> u / k == v / k + 1
  {
    var q := v / k;
    assert v == q * k + v % k;
    if u < q * k + k {
      QuotientOf(u, q, k);
    } else if u == q * k + k {
      assert (q + 1) * k == q * k + k;
      QuotientOf(u, q + 1, k);
    }
  }

  lemma QuotientOf(u: nat, q: nat, k: nat)
    requires k > 0 && q * k <= u < q * k + k
    ensures u / k == q
  {
    var p := u / k;
    assert u == p * k + u % k;
    if p < q {
      ScaleUp(p + 1, q, k);
    } else if q < p {
      ScaleUp(q + 1, p, k);
    }
  }

  lemma ScaleUp(a: nat, b: nat, k: nat)
    requires a <= b
    ensures a * k <= b * k
  {
  }

  /** How many entries of a table are unused. */
  function CountUnused(t: seq<Entry>): nat {
    if t == [] then 0 else CountUnused(t[..|t| - 1]) + if t[|t| - 1].Unused() then 1 else 0
  }

  lemma {:induction false} CountUnusedBounds(t: seq<Entry>)
    ensures CountUnused(t) <= |t|
    ensures CountUnused(t) == |t| <==> forall i | 0 <= i < |t| :: t[i].Unused()
  {
    if t != [] {
      CountUnusedBounds(t[..|t| - 1]);
    }
  }

  lemma {:induction false} CountUnusedSet(t: seq<Entry>, i: nat)
    requires i < |t| && !t[i].Unused()
    ensures CountUnused(t[i := UNUSED]) == CountUnused(t) + 1
  {
    var k := |t| - 1;
    if i < k {
      assert t[i := UNUSED][..k] == t[..k][i := UNUSED];
      CountUnusedSet(t[..k], i);
    } else {
      assert t[i := UNUSED][..k] == t[..k];
    }
  }

  lemma TidyTrimmed(s0: Space, s: Space)
    requires Shrunk(s0, s) && Tidy(s0, s, {ROOT}) && Trimmed(s0)
    ensures Trimmed(s)
  {
    forall n | n in s.dir && n != ROOT ensures Busy(s, n) {
      assert n in s0.dir;
      TrimmedBusy(s0, n);
    }
  }

  lemma TidyStart(s: Space, path: set<Node>)
    ensures Tidy(s, s, path)
  {
  }
}
