/** The four-level radix tree held in memory, as a value: tables of 512 entries, the directory
    that says which frame is the table of which tree node, and the pages the tree maps.

    Addresses are counted in 4 KiB pages and frames in 4 KiB frames. */
module PageTableShape {

  const ENTRY_COUNT: nat := 512

  /** 512 to the fourth: one more than the largest page number a four-level tree can hold. */
  const PAGE_LIMIT: nat := 0x10_0000_0000

  /** A page-table entry; the hardware word is zero exactly when both parts are. */
  datatype Entry = Entry(frame: nat, flags: nat) {
    predicate Unused() {
      frame == 0 && flags == 0
    }
  }

  const UNUSED: Entry := Entry(0, 0)

  type Table = t: seq<Entry> | |t| == ENTRY_COUNT witness seq(512, _ => Entry(0, 0))

  function ZeroTable(): Table {
    seq(512, _ => UNUSED)
  }

  /** A node of the tree: level 4 is the root table, level 1 a leaf table, level 0 a page. The
      prefix is the page number without the 9 * level low bits that the node's subtree covers. */
  datatype Node = Node(level: nat, prefix: nat) {
    function Parent(): Node {
      Node(level + 1, prefix / 512)
    }

    function Index(): nat {
      prefix % 512
    }
  }

  const ROOT: Node := Node(4, 0)

  type Memory = map<nat, Table>

  type Directory = map<Node, nat>

  /** The entry that points at node `n`: slot `n.Index()` of the parent's table. */
  function Link(mem: Memory, dir: Directory, n: Node): Entry {
    if n.Parent() in dir && dir[n.Parent()] in mem then mem[dir[n.Parent()]][n.Index()] else UNUSED
  }

  /** `dir` names the table of every node of the tree rooted at `root`: a node below the root has a
      table exactly when the entry pointing at it is used, and no frame is the table of two nodes. */
  ghost predicate Shape(root: nat, mem: Memory, dir: Directory) {
    && ROOT in dir && dir[ROOT] == root
    && (forall n | n in dir :: dir[n] in mem && 1 <= n.level <= 4 && (n.level == 4 ==> n == ROOT))
    && (forall n, m | n in dir && m in dir && dir[n] == dir[m] :: n == m)
    && (forall n: Node {:trigger Link(mem, dir, n)} | 1 <= n.level <= 3 ::
          && (n in dir <==> !Link(mem, dir, n).Unused())
          && (n in dir ==> dir[n] == Link(mem, dir, n).frame))
  }

  /** The leaf entry of page `v`. Every map of pages below is written with a value for all pages, UNUSED outside its
      domain, so that maps with the same pages are the same functions. */
  function Leaf(mem: Memory, dir: Directory, v: int): Entry {
    if 0 <= v < PAGE_LIMIT then Link(mem, dir, Node(0, v)) else UNUSED
  }

  /** What the tree maps: page number to leaf entry. */
  ghost function Pages(mem: Memory, dir: Directory): map<nat, Entry> {
    map v: nat | v < PAGE_LIMIT && !Leaf(mem, dir, v).Unused() :: Leaf(mem, dir, v)
  }

  ghost predicate EmptyTable(t: Table) {
    forall i | 0 <= i < 512 :: t[i].Unused()
  }

  /** Writing `e` into the slot of `n` changes the link of `n` and no other. */
  ghost predicate OnlyLinkChanged(mem: Memory, dir: Directory, mem': Memory, dir': Directory, n: Node, e: Entry) {
    forall m: Node {:trigger Link(mem', dir', m)} | m.level <= 3 ::
      Link(mem', dir', m) == if m == n then e else Link(mem, dir, m)
  }

  function WithLink(mem: Memory, dir: Directory, n: Node, e: Entry): Memory
    requires n.Parent() in dir && dir[n.Parent()] in mem
  {
    mem[dir[n.Parent()] := mem[dir[n.Parent()]][n.Index() := e]]
  }

  lemma WriteLink(root: nat, mem: Memory, dir: Directory, n: Node, e: Entry)
    requires Shape(root, mem, dir) && n.level <= 3 && n.Parent() in dir
    ensures OnlyLinkChanged(mem, dir, WithLink(mem, dir, n, e), dir, n, e)
  {
    var mem' := WithLink(mem, dir, n, e);
    forall m: Node | m.level <= 3
      ensures Link(mem', dir, m) == if m == n then e else Link(mem, dir, m)
    {
      if m.Parent() in dir && dir[m.Parent()] == dir[n.Parent()] {
        assert m.Parent() == n.Parent();
        assert m.Index() == n.Index() ==> m == n;
      }
    }
  }

  lemma LeafChanged(mem: Memory, dir: Directory, mem': Memory, dir': Directory, v: nat, e: Entry)
    requires v < PAGE_LIMIT && OnlyLinkChanged(mem, dir, mem', dir', Node(0, v), e)
    ensures Pages(mem', dir') == if e.Unused() then Pages(mem, dir) - {v} else Pages(mem, dir)[v := e]
  {
  }

  lemma TableChanged(mem: Memory, dir: Directory, mem': Memory, dir': Directory, n: Node, e: Entry)
    requires n.level > 0 && OnlyLinkChanged(mem, dir, mem', dir', n, e)
    ensures Pages(mem', dir') == Pages(mem, dir)
  {
  }

  /** Writing a leaf entry keeps the tree and changes what one page maps to. */
  lemma WriteLeaf(root: nat, mem: Memory, dir: Directory, v: nat, e: Entry)
    requires Shape(root, mem, dir) && Node(0, v).Parent() in dir
    ensures v < PAGE_LIMIT
    ensures var mem' := WithLink(mem, dir, Node(0, v), e);
            && Shape(root, mem', dir)
            && Pages(mem', dir) == if e.Unused() then Pages(mem, dir) - {v} else Pages(mem, dir)[v := e]
  {
    NodeInTree(root, mem, dir, Node(1, v / 512));
    WriteLink(root, mem, dir, Node(0, v), e);
    LeafChanged(mem, dir, WithLink(mem, dir, Node(0, v), e), dir, v, e);
  }

  /** Hanging a zeroed table under an unused slot keeps the tree and what it maps. */
  lemma AddTable(root: nat, mem: Memory, dir: Directory, n: Node, t: nat, flags: nat)
    requires Shape(root, mem, dir) && 1 <= n.level <= 3 && n.Parent() in dir && n !in dir
    requires t in mem && mem[t] == ZeroTable() && t !in dir.Values && flags > 0
    ensures var mem' := WithLink(mem, dir, n, Entry(t, flags));
            Shape(root, mem', dir[n := t]) && Pages(mem', dir[n := t]) == Pages(mem, dir)
  {
    var e := Entry(t, flags);
    var mem', dir' := WithLink(mem, dir, n, e), dir[n := t];
    WriteLink(root, mem, dir, n, e);
    assert dir[n.Parent()] != t;
    forall m: Node | m.level <= 3
      ensures Link(mem', dir', m) == if m == n then e else Link(mem, dir, m)
    {
      assert Link(mem', dir, m) == if m == n then e else Link(mem, dir, m);
    }
    TableChanged(mem, dir, mem', dir', n, e);
  }

  /** Clearing the slot of an empty table keeps the tree and what it maps. */
  lemma EmptyChildless(root: nat, mem: Memory, dir: Directory, n: Node, m: Node)
    requires Shape(root, mem, dir) && 1 <= n.level <= 3 && n in dir && EmptyTable(mem[dir[n]])
    requires m.level <= 3 && m.Parent() == n
    ensures m !in dir
  {
    assert Link(mem, dir, m).Unused();
  }

  lemma DropTable(root: nat, mem: Memory, dir: Directory, n: Node)
    requires Shape(root, mem, dir) && 1 <= n.level <= 3 && n in dir && EmptyTable(mem[dir[n]])
    ensures n.Parent() in dir
    ensures var mem' := WithLink(mem, dir, n, UNUSED);
            Shape(root, mem', dir - {n}) && Pages(mem', dir - {n}) == Pages(mem, dir)
  {
    NodeInTree(root, mem, dir, n);
    var mem', dir' := WithLink(mem, dir, n, UNUSED), dir - {n};
    WriteLink(root, mem, dir, n, UNUSED);
    forall m: Node | m.level <= 3
      ensures Link(mem', dir', m) == if m == n then UNUSED else Link(mem, dir, m)
    {
      assert Link(mem', dir, m) == if m == n then UNUSED else Link(mem, dir, m);
    }
    forall m: Node | m.level <= 3 && m.Parent() == n ensures m !in dir {
      EmptyChildless(root, mem, dir, n, m);
    }
    TableChanged(mem, dir, mem', dir', n, UNUSED);
  }

  /** Zeroing a page that is no table of the tree changes nothing in the tree. */
  lemma WriteElsewhere(root: nat, mem: Memory, dir: Directory, page: nat, t: Table)
    requires Shape(root, mem, dir) && page !in dir.Values
    ensures Shape(root, mem[page := t], dir) && Pages(mem[page := t], dir) == Pages(mem, dir)
  {
    var mem' := mem[page := t];
    assert forall n: Node {:trigger Link(mem', dir, n)} :: Link(mem', dir, n) == Link(mem, dir, n);
  }

  lemma NodeInTree(root: nat, mem: Memory, dir: Directory, n: Node)
    requires Shape(root, mem, dir) && n in dir
    ensures n.level < 4 ==> n.Parent() in dir
    ensures n.level == 3 ==> n.prefix < 512
    ensures n.level == 2 ==> n.prefix < 512 * 512
    ensures n.level == 1 ==> n.prefix < 512 * 512 * 512
    decreases 4 - n.level
  {
    if n.level < 4 {
      assert !Link(mem, dir, n).Unused();
      NodeInTree(root, mem, dir, n.Parent());
    }
  }
}
