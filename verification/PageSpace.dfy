/** One address space as a value, its invariant, and the single steps that keep it. */
module PageSpace {
  import opened PageTableShape
  import opened PageCounts

  /** A page table with the page pool behind it: physical memory as far as it holds tables, the
      pool's reference counts (a frame without a count is not managed), the pages it can still hand
      out, the pages waiting to go back to it, the tables of the tree, the references held outside
      the page table, and the managed pages lent to a caller and not referenced since. */
  datatype Space = Space(root: nat, mem: Memory, refs: Counts, pool: seq<nat>, freePages: seq<nat>,
                         dir: Directory, ext: Counts, lent: set<nat>)

  /** The parts of `Inv`; see `Unit` in Basics. */
  datatype Clause = Tree | Conservation | Pool | FreeList

  ghost function View(s: Space): map<nat, Entry> {
    Pages(s.mem, s.dir)
  }

  ghost predicate Holds(s: Space, c: Clause) {
    && (c.Tree? ==> Shape(s.root, s.mem, s.dir))
    && (c.Conservation? ==> Counted(s.refs, s.ext, View(s), s.dir))
    && (c.Pool? ==> Pooled(s.pool, s.refs, View(s)))
    && (c.FreeList? ==> Drained(s.refs, s.freePages, s.lent))
  }

  ghost predicate Inv(s: Space) {
    forall c: Clause :: Holds(s, c)
  }

  lemma Unfold(s: Space)
    requires Inv(s)
    ensures Shape(s.root, s.mem, s.dir) && Counted(s.refs, s.ext, View(s), s.dir)
    ensures Pooled(s.pool, s.refs, View(s)) && Drained(s.refs, s.freePages, s.lent)
  {
    assert Holds(s, Tree) && Holds(s, Conservation) && Holds(s, Pool) && Holds(s, FreeList);
  }

  /** The slot of a node below the root is used exactly when the node has a table, and names it. */
  lemma LinkIsTable(s: Space, n: Node)
    requires Holds(s, Tree) && 1 <= n.level <= 3
    ensures n in s.dir <==> !Link(s.mem, s.dir, n).Unused()
    ensures n in s.dir ==> s.dir[n] == Link(s.mem, s.dir, n).frame && s.dir[n] in s.mem && n.Parent() in s.dir
  {
    assert Shape(s.root, s.mem, s.dir);
  }

  /** Page number without its `level` low base-512 digits. */
  function Prefix(v: nat, level: nat): nat {
    if level == 0 then v else Prefix(v, level - 1) / 512
  }

  /** The base-512 digit that indexes the table at `level` + 1. */
  function Digit(v: nat, level: nat): nat {
    Prefix(v, level) % 512
  }

  /** `p` holds the low `level` digits of page `v`. */
  ghost predicate Digits(p: seq<nat>, v: nat, level: nat) {
    level <= |p| && forall k | 0 <= k < level :: p[k] == Digit(v, k)
  }

  /** Moving on by one at `level` carries into the digit above. */
  lemma Carry(v: nat, v': nat, level: nat)
    requires Prefix(v', level) == Prefix(v, level) + 1
    ensures Digit(v, level) == 511 ==> Prefix(v', level + 1) == Prefix(v, level + 1) + 1 && Digit(v', level) == 0
    ensures Digit(v, level) != 511 ==>
              Prefix(v', level + 1) == Prefix(v, level + 1) && Digit(v', level) == Digit(v, level) + 1
  {
  }

  /** Bumping or wrapping the index at `level` by hand keeps the digits those of the page. */
  lemma CarryDigits(p: seq<nat>, p': seq<nat>, v: nat, v': nat, level: nat)
    requires 0 < level <= |p| == |p'| && Digits(p, v, level) && Digits(p', v', level - 1)
    requires p'[level - 1] == p[level - 1]
    requires Prefix(v', level - 1) == Prefix(v, level - 1) + 1
    ensures p[level - 1] == 511 ==>
              Prefix(v', level) == Prefix(v, level) + 1 && Digits(p'[level - 1 := 0], v', level)
    ensures p[level - 1] != 511 ==>
              Prefix(v', level) == Prefix(v, level) && Digits(p'[level - 1 := p[level - 1] + 1], v', level)
  {
    Carry(v, v', level - 1);
  }

  /** Every table on the way to a mapped page is in the tree. */
  lemma PathToPage(s: Space, v: nat)
    requires Holds(s, Tree) && v in View(s)
    ensures v < PAGE_LIMIT
    ensures Node(1, Prefix(v, 1)) in s.dir && Node(2, Prefix(v, 2)) in s.dir && Node(3, Prefix(v, 3)) in s.dir
    ensures Prefix(v, 3) < 512 && s.dir[Node(1, Prefix(v, 1))] in s.mem
    ensures View(s)[v] == s.mem[s.dir[Node(1, Prefix(v, 1))]][v % 512]
  {
    var n1 := Node(0, v).Parent();
    NodeInTree(s.root, s.mem, s.dir, n1);
    NodeInTree(s.root, s.mem, s.dir, n1.Parent());
    NodeInTree(s.root, s.mem, s.dir, n1.Parent().Parent());
  }

  lemma TableInMemory(s: Space, n: Node)
    requires Holds(s, Tree) && n in s.dir
    ensures s.dir[n] in s.mem
  {
    assert Shape(s.root, s.mem, s.dir);
  }

  lemma RootTable(s: Space)
    requires Holds(s, Tree)
    ensures ROOT in s.dir && s.dir[ROOT] == s.root && s.root in s.mem
  {
    assert Shape(s.root, s.mem, s.dir);
  }

  lemma TopDigit(v: nat)
    requires v <= PAGE_LIMIT
    ensures Prefix(v, 3) <= 512 && (v < PAGE_LIMIT ==> Prefix(v, 3) < 512 && Prefix(v, 4) == 0)
    ensures v <= PAGE_LIMIT / 2 ==> Prefix(v, 3) <= 256 && (v < PAGE_LIMIT / 2 ==> Prefix(v, 3) < 256)
  {
    assert Prefix(v, 1) == v / 512 && Prefix(v, 2) == Prefix(v, 1) / 512;
    assert Prefix(v, 3) == Prefix(v, 2) / 512 && Prefix(v, 4) == Prefix(v, 3) / 512;
  }

  /** The slot of page `v` in a table at `level` + 1 is used exactly when there is a table below it, and names it. */
  lemma StepDown(s: Space, v: nat, level: nat)
    requires Holds(s, Tree) && 1 <= level <= 3 && Node(level + 1, Prefix(v, level + 1)) in s.dir
    ensures var t, n := s.dir[Node(level + 1, Prefix(v, level + 1))], Node(level, Prefix(v, level));
            && t in s.mem && (n in s.dir <==> !s.mem[t][Digit(v, level)].Unused())
            && (n in s.dir ==> s.dir[n] == s.mem[t][Digit(v, level)].frame && s.dir[n] in s.mem)
  {
    var n := Node(level, Prefix(v, level));
    assert n.Parent() == Node(level + 1, Prefix(v, level + 1)) && n.Index() == Digit(v, level);
    TableInMemory(s, n.Parent());
    LinkIsTable(s, n);
  }

  lemma LeafUsed(s: Space, v: nat)
    requires Holds(s, Tree) && Node(1, v / 512) in s.dir
    ensures v < PAGE_LIMIT && s.dir[Node(1, v / 512)] in s.mem
    ensures v in View(s) <==> !s.mem[s.dir[Node(1, v / 512)]][v % 512].Unused()
    ensures v in View(s) ==> View(s)[v] == s.mem[s.dir[Node(1, v / 512)]][v % 512]
  {
    NodeInTree(s.root, s.mem, s.dir, Node(1, v / 512));
    assert Node(0, v).Parent() == Node(1, v / 512);
  }

  lemma LeafAt(s: Space, pre: nat, i: nat)
    requires Holds(s, Tree) && Node(1, pre) in s.dir && i < 512
    ensures var v := pre * 512 + i;
            && v < PAGE_LIMIT && Prefix(v, 1) == pre && s.dir[Node(1, pre)] in s.mem
            && (v in View(s) <==> !s.mem[s.dir[Node(1, pre)]][i].Unused())
            && (v in View(s) ==> View(s)[v] == s.mem[s.dir[Node(1, pre)]][i])
  {
    assert (pre * 512 + i) / 512 == pre && (pre * 512 + i) % 512 == i;
    LeafUsed(s, pre * 512 + i);
  }

  /** As long as the free list is sound, a frame named by a page is not on it. */
  lemma NamedNotFree(s: Space, v: nat)
    requires Inv(s) && v in View(s)
    ensures FreeListSafe(s.refs, s.freePages) ==> View(s)[v].frame !in s.freePages
  {
    Unfold(s);
    if View(s)[v].frame in s.refs {
      NamedIsCounted(s.refs, s.ext, View(s), s.dir, v);
    }
  }

  lemma Fold(s: Space)
    requires Shape(s.root, s.mem, s.dir) && Counted(s.refs, s.ext, View(s), s.dir)
    requires Pooled(s.pool, s.refs, View(s)) && Drained(s.refs, s.freePages, s.lent)
    ensures Inv(s)
  {
  }

  /** The address space once a zeroed root page has been handed out. */
  function NewSpace(root: nat, pool: seq<nat>): Space {
    Space(root, map[root := ZeroTable()], map[root := 1], pool, [], map[ROOT := root], map[root := 0], {})
  }

  lemma InitialSpace(root: nat, pool: seq<nat>)
    requires root !in pool
    requires forall i, j | 0 <= i < j < |pool| :: pool[i] != pool[j]
    ensures Inv(NewSpace(root, pool)) && View(NewSpace(root, pool)) == map[]
  {
    var s := NewSpace(root, pool);
    assert root in s.dir.Values by { assert ROOT in s.dir; }
    assert forall n: Node :: Link(s.mem, s.dir, n).Unused();
    assert Naming(View(s), root) == {};
    Fold(s);
  }

  /** A zeroed page leaves the pool, with one reference held by the caller or lent to them with none. */
  function Allocated(s: Space, held: bool): Space
    requires s.pool != []
  {
    var page, count := s.pool[0], if held then 1 else 0;
    Space(s.root, s.mem[page := ZeroTable()], s.refs[page := count], s.pool[1..], s.freePages, s.dir,
          s.ext[page := count], if held then s.lent else s.lent + {page})
  }

  lemma AllocatedKeeps(s: Space, held: bool)
    requires Inv(s) && s.pool != []
    ensures Inv(Allocated(s, held)) && View(Allocated(s, held)) == View(s)
    ensures s.pool[0] !in s.refs && s.pool[0] !in s.ext && s.pool[0] !in s.dir.Values
    ensures FreeListSafe(s.refs, s.freePages) ==> FreeListSafe(Allocated(s, held).refs, s.freePages)
  {
    Unfold(s);
    var page, s' := s.pool[0], Allocated(s, held);
    assert page !in s.dir.Values;
    WriteElsewhere(s.root, s.mem, s.dir, page, ZeroTable());
    AllocConserves(s.refs, s.ext, View(s), s.dir, page, if held then 1 else 0);
    AllocKeepsLists(s.refs, s.freePages, s.lent, page, held);
    Fold(s');
  }

  function Referenced(s: Space, f: nat): Space {
    Space(s.root, s.mem, Inc(s.refs, f), s.pool, s.freePages, s.dir, Inc(s.ext, f), s.lent - {f})
  }

  lemma ReferencedKeeps(s: Space, f: nat)
    requires Inv(s)
    ensures Inv(Referenced(s, f))
    ensures FreeListSafe(s.refs, s.freePages) && f !in s.freePages ==> FreeListSafe(Referenced(s, f).refs, s.freePages)
  {
    Unfold(s);
    RefConserves(s.refs, s.ext, View(s), s.dir, f);
    RefKeepsLists(s.refs, s.freePages, s.lent, f);
    Fold(Referenced(s, f));
  }

  function Dereferenced(s: Space, f: nat): Space {
    Space(s.root, s.mem, Dec(s.refs, f), s.pool, s.freePages + Freed(s.refs, f), s.dir, Dec(s.ext, f), s.lent)
  }

  lemma DereferencedKeeps(s: Space, f: nat)
    requires Inv(s) && (f in s.ext ==> s.ext[f] > 0)
    ensures Inv(Dereferenced(s, f))
    ensures f in s.refs ==> s.refs[f] > 0
    ensures FreeListSafe(s.refs, s.freePages) ==> FreeListSafe(Dereferenced(s, f).refs, Dereferenced(s, f).freePages)
  {
    Unfold(s);
    DropKeepsLists(s.refs, s.freePages, s.lent, f);
    Fold(Dereferenced(s, f));
  }

  function Unmapped(s: Space, v: nat): Space
    requires Node(0, v).Parent() in s.dir && s.dir[Node(0, v).Parent()] in s.mem
  {
    Space(s.root, WithLink(s.mem, s.dir, Node(0, v), UNUSED),
          Dec(s.refs, Link(s.mem, s.dir, Node(0, v)).frame), s.pool,
          s.freePages + Freed(s.refs, Link(s.mem, s.dir, Node(0, v)).frame), s.dir, s.ext, s.lent)
  }

  lemma UnmappedKeeps(s: Space, v: nat)
    requires Inv(s) && v in View(s)
    ensures Node(0, v).Parent() in s.dir && s.dir[Node(0, v).Parent()] in s.mem
    ensures Inv(Unmapped(s, v)) && View(Unmapped(s, v)) == View(s) - {v}
    ensures var f := View(s)[v].frame; f in s.refs ==> s.refs[f] > 0
    ensures FreeListSafe(s.refs, s.freePages) ==> FreeListSafe(Unmapped(s, v).refs, Unmapped(s, v).freePages)
  {
    Unfold(s);
    UnnameConserves(s.refs, s.ext, View(s), s.dir, v);
    WriteLeaf(s.root, s.mem, s.dir, v, UNUSED);
    DropKeepsLists(s.refs, s.freePages, s.lent, View(s)[v].frame);
    Fold(Unmapped(s, v));
  }

  function Mapped(s: Space, v: nat, e: Entry): Space
    requires Node(0, v).Parent() in s.dir && s.dir[Node(0, v).Parent()] in s.mem
  {
    Space(s.root, WithLink(s.mem, s.dir, Node(0, v), e), s.refs, s.pool, s.freePages, s.dir,
          Dec(s.ext, e.frame), s.lent)
  }

  lemma MappedKeeps(s: Space, v: nat, e: Entry)
    requires Inv(s) && Node(0, v).Parent() in s.dir && v !in View(s)
    requires !e.Unused() && e.frame !in s.pool && (e.frame in s.refs && e.frame in s.ext ==> s.ext[e.frame] > 0)
    ensures s.dir[Node(0, v).Parent()] in s.mem
    ensures Inv(Mapped(s, v, e)) && View(Mapped(s, v, e)) == View(s)[v := e]
  {
    Unfold(s);
    NameConserves(s.refs, s.ext, View(s), s.dir, v, e);
    WriteLeaf(s.root, s.mem, s.dir, v, e);
    Fold(Mapped(s, v, e));
  }

  function Hung(s: Space, n: Node, t: nat, flags: nat): Space
    requires n.Parent() in s.dir && s.dir[n.Parent()] in s.mem
  {
    Space(s.root, WithLink(s.mem, s.dir, n, Entry(t, flags)), s.refs, s.pool, s.freePages, s.dir[n := t],
          Dec(s.ext, t), s.lent)
  }

  lemma HungKeeps(s: Space, n: Node, t: nat, flags: nat)
    requires Inv(s) && 1 <= n.level <= 3 && n.Parent() in s.dir && n !in s.dir && flags > 0
    requires t in s.mem && s.mem[t] == ZeroTable() && t !in s.dir.Values && t in s.refs && t in s.ext && s.ext[t] > 0
    ensures s.dir[n.Parent()] in s.mem
    ensures Inv(Hung(s, n, t, flags)) && View(Hung(s, n, t, flags)) == View(s)
  {
    Unfold(s);
    HangConserves(s.refs, s.ext, View(s), s.dir, n, t);
    AddTable(s.root, s.mem, s.dir, n, t, flags);
    Fold(Hung(s, n, t, flags));
  }

  function Released(s: Space, n: Node): Space
    requires n in s.dir && n.Parent() in s.dir && s.dir[n.Parent()] in s.mem
  {
    Space(s.root, WithLink(s.mem, s.dir, n, UNUSED), Dec(s.refs, s.dir[n]), s.pool,
          s.freePages + Freed(s.refs, s.dir[n]), s.dir - {n}, s.ext, s.lent)
  }

  lemma ReleasedKeeps(s: Space, n: Node)
    requires Inv(s) && 1 <= n.level <= 3 && n in s.dir && s.dir[n] in s.mem && EmptyTable(s.mem[s.dir[n]])
    ensures n.Parent() in s.dir && s.dir[n.Parent()] in s.mem
    ensures Inv(Released(s, n)) && View(Released(s, n)) == View(s)
    ensures s.dir[n] in s.refs && s.refs[s.dir[n]] > 0
    ensures FreeListSafe(s.refs, s.freePages) ==> FreeListSafe(Released(s, n).refs, Released(s, n).freePages)
  {
    Unfold(s);
    DropTable(s.root, s.mem, s.dir, n);
    UnhangConserves(s.refs, s.ext, View(s), s.dir, n);
    DropKeepsLists(s.refs, s.freePages, s.lent, s.dir[n]);
    Fold(Released(s, n));
  }

  function Rewritten(s: Space, v: nat, e: Entry): Space
    requires Node(0, v).Parent() in s.dir && s.dir[Node(0, v).Parent()] in s.mem
  {
    Space(s.root, WithLink(s.mem, s.dir, Node(0, v), e), s.refs, s.pool, s.freePages, s.dir, s.ext, s.lent)
  }

  /** Whatever is written into a leaf entry, the tree stays a tree. */
  lemma RewrittenTree(s: Space, v: nat, e: Entry)
    requires Holds(s, Tree) && v in View(s)
    ensures Node(0, v).Parent() in s.dir && s.dir[Node(0, v).Parent()] in s.mem
    ensures Holds(Rewritten(s, v, e), Tree)
    ensures View(Rewritten(s, v, e)) == if e.Unused() then View(s) - {v} else View(s)[v := e]
  {
    WriteLeaf(s.root, s.mem, s.dir, v, e);
  }

  /** Changing the flags of a leaf entry, but not its frame, moves no reference. */
  lemma RewrittenKeeps(s: Space, v: nat, e: Entry)
    requires Inv(s) && v in View(s) && !e.Unused() && e.frame == View(s)[v].frame
    ensures Node(0, v).Parent() in s.dir && s.dir[Node(0, v).Parent()] in s.mem
    ensures Inv(Rewritten(s, v, e)) && View(Rewritten(s, v, e)) == View(s)[v := e]
  {
    Unfold(s);
    WriteLeaf(s.root, s.mem, s.dir, v, e);
    RenameConserves(s.refs, s.ext, View(s), s.dir, v, e);
    Fold(Rewritten(s, v, e));
  }

  /** The last page of the free list goes back to the pool. */
  function Recycled(s: Space): Space
    requires s.freePages != []
  {
    Space(s.root, s.mem, s.refs - {s.freePages[|s.freePages| - 1]}, s.pool + [s.freePages[|s.freePages| - 1]],
          s.freePages[..|s.freePages| - 1], s.dir, s.ext - {s.freePages[|s.freePages| - 1]}, s.lent)
  }

  /** A page on a sound free list is named by no page and is no table, so the pool may have it back. */
  lemma RecycledKeeps(s: Space)
    requires Inv(s) && FreeListSafe(s.refs, s.freePages) && s.freePages != []
    ensures Inv(Recycled(s)) && View(Recycled(s)) == View(s)
    ensures FreeListSafe(Recycled(s).refs, Recycled(s).freePages)
  {
    Unfold(s);
    var page := s.freePages[|s.freePages| - 1];
    UncountedUnseen(s.refs, s.ext, View(s), s.dir, page);
    ForgetConserves(s.refs, s.ext, View(s), s.dir, page);
    PopKeepsLists(s.refs, s.freePages, s.lent);
    Fold(Recycled(s));
  }

  lemma PoolUnseen(s: Space, f: nat)
    requires Inv(s) && f in s.pool
    ensures f !in s.refs && f !in s.dir.Values && forall v | v in View(s) :: View(s)[v].frame != f
  {
    Unfold(s);
  }

  lemma LevelOf(s: Space, n: Node)
    requires Inv(s) && n in s.dir
    ensures 1 <= n.level <= 4 && (n.level == 4 ==> n == ROOT)
  {
    Unfold(s);
  }
}
