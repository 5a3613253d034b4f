/** `MemAllocator`: page memory handed out by a buddy allocator whose tree lies at the start of that
    memory, in pages allocated from the allocator itself. */
module MemAllocator {
  import opened Basics
  import opened BuddyTree
  import opened BuddyPages
  import opened BuddyAllocator

  const PAGE_SIZE: nat := 4096

  /** The pages taken by the tree of a pool of 2^ord pages, one byte a node: the least number that holds its bytes. */
  function TreePages(ord: nat): (pages: nat)
    ensures (pages - 1) * PAGE_SIZE < 2 * Pow2(ord) <= pages * PAGE_SIZE
  {
    var bytes := 2 * Pow2(ord);
    bytes / PAGE_SIZE + if bytes % PAGE_SIZE != 0 then 1 else 0
  }

  lemma TreeFits(ord: nat)
    ensures LevelOf(TreePages(ord)) <= ord
  {
    if LevelOf(TreePages(ord)) > ord {
      Pow2Monotone(ord, LevelOf(TreePages(ord)) - 1);
    }
  }

  /** In a pool with nothing allocated the tree is given the first pages. */
  lemma TreeComesFirst(t: Tree, t': Tree, ord: nat, r: int)
    requires TreeOf(t, ord) && Consistent(t) && UsedNodes(t) == {} && Served(t, t', TreePages(ord), ord, r)
    ensures r == 0 && LevelOf(TreePages(ord)) <= ord
    ensures UsedNodes(t') == {NodeOf(0, LevelOf(TreePages(ord)), ord)}
  {
    var c := LevelOf(TreePages(ord));
    TreeFits(ord);
    Pow2Monotone(c, ord);
    AllocatesLowest(t, t', TreePages(ord), ord, r);
    assert FreeBlock(t, 0, c, ord);
    BlockBounds(Lowest(t, c, ord).value, c, ord);
  }

  /** Every byte of the tree lies in the block allocated for it. */
  lemma TreeInside(ord: nat, b: nat)
    requires b < 2 * Pow2(ord) - 1
    ensures InBlock(b / PAGE_SIZE, 0, LevelOf(TreePages(ord)))
  {
  }

  /** In every run that begins by allocating the tree and never releases that block, no block a client is
      given holds a byte of the tree. */
  lemma TreeNeverGiven(ps: seq<Pool>, es: seq<Event>, root: nat, ord: nat, k: nat, d: (nat, nat), b: nat)
    requires Run(ps, es, root, ord) && 0 < k <= |es| && es[0] == Request(TreePages(ord), 0)
    requires forall i | 0 < i < |es| && es[i].Release? :: es[i].block != (0, LevelOf(TreePages(ord)))
    requires d in ps[k].held && d != (0, LevelOf(TreePages(ord))) && b < 2 * Pow2(ord) - 1
    ensures !InBlock(b / PAGE_SIZE, d.0, d.1)
  {
    TreeHeld(ps, es, root, ord, k);
    TreeInside(ord, b);
    RunSafe(ps, es, root, ord, k, (0, LevelOf(TreePages(ord))), d, b / PAGE_SIZE);
  }

  lemma {:induction false} TreeHeld(ps: seq<Pool>, es: seq<Event>, root: nat, ord: nat, k: nat)
    requires Run(ps, es, root, ord) && 0 < k <= |es| && es[0] == Request(TreePages(ord), 0)
    requires forall i | 0 < i < |es| && es[i].Release? :: es[i].block != (0, LevelOf(TreePages(ord)))
    ensures (0, LevelOf(TreePages(ord))) in ps[k].held
  {
    assert Step(ps[k - 1], ps[k], root, ord, es[k - 1]);
    if k > 1 {
      TreeHeld(ps, es, root, ord, k - 1);
    }
  }

  class MemAllocator {
    const ba: BuddyAllocator
    const baseAddr: nat

    ghost predicate Valid()
      reads this, ba, ba.tree
    {
      ba.Valid() && ba.root == baseAddr && ba.levels < STACK_LEN
    }

    /** A pool of 2^ord zeroed pages at `baseAddr`, its first pages allocated to the tree. */
    constructor (baseAddr: nat, ord: nat)
      requires ord < STACK_LEN
      ensures Valid() && fresh(ba) && fresh(ba.tree) && ba.levels == ord && this.baseAddr == baseAddr
      ensures LevelOf(TreePages(ord)) <= ord
      ensures UsedNodes(ba.tree[..]) == {NodeOf(0, LevelOf(TreePages(ord)), ord)}
    {
      var allocator := new BuddyAllocator(ord, baseAddr);
      ghost var t := allocator.tree[..];
      assert UsedNodes(t) == {};
      TreeFits(ord);
      PagesBound(ord);
      var addr := allocator.Allocate(TreePages(ord));
      TreeComesFirst(t, allocator.tree[..], ord, addr);
      assert addr == 0;
      ba := allocator;
      this.baseAddr := baseAddr;
    }

    /** The address of a free block that holds `pages` pages. */
    method Alloc(pages: nat) returns (r: Result<nat>)
      requires Valid() && pages <= 0x8000_0000_0000_0000
      modifies ba.tree
      ensures Valid()
      ensures match r
              case Ok(addr) =>
                && addr >= baseAddr && (addr - baseAddr) % PAGE_SIZE == 0
                && Served(old(ba.tree[..]), ba.tree[..], pages, ba.levels, (addr - baseAddr) / PAGE_SIZE)
              case Err(e) => e == NoEnoughMemory && Served(old(ba.tree[..]), ba.tree[..], pages, ba.levels, -1)
    {
      var offset := ba.Allocate(pages);
      if offset == -1 {
        r := Err(NoEnoughMemory);
      } else {
        assert offset >= 0;
        r := Ok(baseAddr + offset * PAGE_SIZE);
      }
    }

    /** Releases the block of `pages` pages at `addr`. */
    method Free(addr: nat, pages: nat) returns (r: Result<()>)
      requires Valid() && addr >= baseAddr
      requires var x := (addr - baseAddr) / PAGE_SIZE;
               baseAddr <= x <= baseAddr + ba.size ||
               (pages <= 0x8000_0000_0000_0000 && LevelOf(pages) <= ba.levels &&
                NodeOf(x, LevelOf(pages), ba.levels) < ba.size)
      modifies ba.tree
      ensures Valid() && (r.Err? ==> r.error == InvalidInput)
      ensures Released(old(ba.tree[..]), ba.tree[..], baseAddr, (addr - baseAddr) / PAGE_SIZE, LevelOf(pages),
                       ba.levels, r.Ok?)
    {
      var ok := ba.Free((addr - baseAddr) / PAGE_SIZE, pages);
      r := if ok then Ok(()) else Err(InvalidInput);
    }
  }

  lemma PagesBound(ord: nat)
    requires ord < STACK_LEN
    ensures TreePages(ord) <= 0x8000_0000_0000_0000
  {
    Pow2At28();
    Pow2Monotone(ord, 28);
  }

  lemma Pow2At28()
    ensures Pow2(28) == 0x1000_0000
  {
    assert Pow2(7) == 128;
    Pow2Product(7, 7);
    Pow2Product(14, 14);
  }

  // Runs of the allocator itself.

  /** A request for pages, or for taking back a block, given by its offset and level. */
  datatype Command = Ask(pages: nat) | GiveBack(block: (nat, nat))

  predicate Becomes(c: Command, e: Event) {
    match c
    case Ask(pages) => e.Request? && e.pages == pages
    case GiveBack(block) => e.Release? && e.block == block
  }

  lemma LevelOfPow2(c: nat)
    ensures LevelOf(Pow2(c)) == c
  {
    LeastLevel(Pow2(c), LevelOf(Pow2(c)), c);
  }

  lemma LeastLevel(n: nat, k: nat, c: nat)
    requires n <= Pow2(k) && (k > 0 ==> Pow2(k - 1) < n) && n == Pow2(c)
    ensures k == c
  {
    if k < c {
      Pow2Strict(k, c);
    } else if k > c {
      Pow2Monotone(c, k - 1);
    }
  }

  /** What the allocator does for any request, and for taking back any block that is held, is a step of the runs that
      are proved safe and complete. */
  method Perform(ba: BuddyAllocator, c: Command, held: set<(nat, nat)>)
    returns (held': set<(nat, nat)>, ghost e: Event)
    requires ba.Valid() && ba.levels < STACK_LEN && Sound(Pool(ba.tree[..], held), ba.levels)
    requires if c.Ask? then c.pages <= 0x8000_0000_0000_0000 else c.block in held
    modifies ba.tree
    ensures ba.Valid() && Becomes(c, e)
    ensures Step(Pool(old(ba.tree[..]), held), Pool(ba.tree[..], held'), ba.root, ba.levels, e)
  {
    match c
    case Ask(pages) =>
      var r := ba.Allocate(pages);
      e := Request(pages, r);
      held' := if r >= 0 then held + {(r as nat, LevelOf(pages))} else held;
    case GiveBack(block) =>
      LevelOfPow2(block.1);
      Pow2At28();
      Pow2Monotone(block.1, 28);
      var ok := ba.Free(block.0, Pow2(block.1));
      e := Release(block, ok);
      held' := if ok then held - {block} else held;
  }

  /** Puts a new allocator through any commands; taking back a block that is not held is not asked for. */
  method Drive(ord: nat, root: nat, commands: seq<Command>)
    returns (ba: BuddyAllocator, held: set<(nat, nat)>, ghost ps: seq<Pool>, ghost es: seq<Event>)
    requires ord < STACK_LEN
    requires forall i | 0 <= i < |commands| && commands[i].Ask? :: commands[i].pages <= 0x8000_0000_0000_0000
    ensures Run(ps, es, root, ord) && ps[|es|] == Pool(ba.tree[..], held)
  {
    ba := new BuddyAllocator(ord, root);
    held, es := {}, [];
    ps := [Pool(ba.tree[..], held)];
    for n := 0 to |commands|
      invariant fresh(ba.tree) && ba.Valid() && ba.levels == ord && ba.root == root
      invariant Run(ps, es, root, ord) && ps[|es|] == Pool(ba.tree[..], held)
    {
      if commands[n].Ask? || commands[n].block in held {
        RunSound(ps, es, root, ord, |es|);
        ghost var e;
        held, e := Perform(ba, commands[n], held);
        RunStep(ps, es, root, ord, Pool(ba.tree[..], held), e);
        ps, es := ps + [Pool(ba.tree[..], held)], es + [e];
      }
    }
  }

  lemma RunStep(ps: seq<Pool>, es: seq<Event>, root: nat, ord: nat, p: Pool, e: Event)
    requires Run(ps, es, root, ord) && TreeOf(ps[|es|].tree, ord) && Step(ps[|es|], p, root, ord, e)
    ensures Run(ps + [p], es + [e], root, ord)
  {
    var ps', es' := ps + [p], es + [e];
    forall k | 0 <= k < |es'| ensures TreeOf(ps'[k].tree, ord) && Step(ps'[k], ps'[k + 1], root, ord, es'[k]) {
      if k < |es| {
        assert Step(ps[k], ps[k + 1], root, ord, es[k]);
      }
    }
  }
}
