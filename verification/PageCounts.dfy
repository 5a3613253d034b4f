/** Reference counts on frames: who holds a frame, and what the count of a frame must be. */
module PageCounts {
  import opened PageTableShape

  type Counts = map<nat, nat>

  /** The pages whose leaf entry names frame `f`. */
  ghost function Naming(pages: map<nat, Entry>, f: nat): set<nat> {
    set v | v in pages && pages[v].frame == f
  }

  ghost function TableRefs(dir: Directory, f: nat): nat {
    if f in dir.Values then 1 else 0
  }

  /** Conservation: the count of a managed frame is the number of references held outside the page
      table, plus one for each page naming it, plus one when it is a table of the tree. */
  ghost predicate Counted(refs: Counts, ext: Counts, pages: map<nat, Entry>, dir: Directory) {
    && ext.Keys == refs.Keys
    && (forall n | n in dir :: dir[n] in refs)
    && (forall f | f in refs :: refs[f] == ext[f] + |Naming(pages, f)| + TableRefs(dir, f))
  }

  /** The pool hands out each page once, and neither manages nor sees mapped a page it still has. */
  ghost predicate Pooled(pool: seq<nat>, refs: Counts, pages: map<nat, Entry>) {
    && (forall i, j | 0 <= i < j < |pool| :: pool[i] != pool[j])
    && (forall f | f in pool :: f !in refs)
    && (forall v | v in pages :: pages[v].frame !in pool)
  }

  /** A managed frame with no references is on the free list or was lent out unreferenced. */
  ghost predicate Drained(refs: Counts, freePages: seq<nat>, lent: set<nat>) {
    && (forall f | f in freePages :: f in refs)
    && (forall f | f in refs && refs[f] == 0 :: f in freePages || f in lent)
    && (forall f | f in lent :: f in refs && refs[f] == 0 && f !in freePages)
  }

  /** No frame on the free list is referenced, and none is there twice. */
  predicate FreeListSafe(refs: Counts, freePages: seq<nat>) {
    && (forall f | f in freePages :: f in refs && refs[f] == 0)
    && (forall i, j | 0 <= i < j < |freePages| :: freePages[i] != freePages[j])
  }

  function Inc(refs: Counts, f: nat): Counts {
    if f in refs then refs[f := refs[f] + 1] else refs
  }

  function Dec(refs: Counts, f: nat): Counts {
    if f in refs && refs[f] > 0 then refs[f := refs[f] - 1] else refs
  }

  /** What dropping one reference to `f` adds to the free list. */
  function Freed(refs: Counts, f: nat): seq<nat> {
    if f in refs && refs[f] == 1 then [f] else []
  }

  /** Dropping one reference, and putting the frame on the free list when it was the last one, keeps
      the books of unreferenced frames. */
  lemma DropKeepsLists(refs: Counts, freePages: seq<nat>, lent: set<nat>, f: nat)
    requires Drained(refs, freePages, lent) && (f in refs ==> refs[f] > 0)
    ensures Drained(Dec(refs, f), freePages + Freed(refs, f), lent)
    ensures FreeListSafe(refs, freePages) ==> FreeListSafe(Dec(refs, f), freePages + Freed(refs, f))
  {
  }

  lemma AllocKeepsLists(refs: Counts, freePages: seq<nat>, lent: set<nat>, page: nat, held: bool)
    requires Drained(refs, freePages, lent) && page !in refs
    ensures Drained(refs[page := if held then 1 else 0], freePages, if held then lent else lent + {page})
    ensures FreeListSafe(refs, freePages) ==> FreeListSafe(refs[page := if held then 1 else 0], freePages)
  {
  }

  lemma RefKeepsLists(refs: Counts, freePages: seq<nat>, lent: set<nat>, f: nat)
    requires Drained(refs, freePages, lent)
    ensures Drained(Inc(refs, f), freePages, lent - {f})
    ensures FreeListSafe(refs, freePages) && f !in freePages ==> FreeListSafe(Inc(refs, f), freePages)
  {
  }

  /** A reference more in the count is one more held outside. */
  lemma RefConserves(refs: Counts, ext: Counts, pages: map<nat, Entry>, dir: Directory, f: nat)
    requires Counted(refs, ext, pages, dir)
    ensures Counted(Inc(refs, f), Inc(ext, f), pages, dir)
  {
  }

  lemma NameCount(pages: map<nat, Entry>, v: nat, e: Entry, f: nat)
    requires v !in pages
    ensures |Naming(pages[v := e], f)| == |Naming(pages, f)| + if e.frame == f then 1 else 0
  {
    if e.frame == f {
      assert Naming(pages[v := e], f) == Naming(pages, f) + {v};
    } else {
      assert Naming(pages[v := e], f) == Naming(pages, f);
    }
  }

  lemma UnnameCount(pages: map<nat, Entry>, v: nat, f: nat)
    requires v in pages
    ensures |Naming(pages - {v}, f)| == |Naming(pages, f)| - if pages[v].frame == f then 1 else 0
  {
    if pages[v].frame == f {
      assert Naming(pages - {v}, f) == Naming(pages, f) - {v};
    } else {
      assert Naming(pages - {v}, f) == Naming(pages, f);
    }
  }

  /** A page that names a managed frame keeps its count positive. */
  lemma NamedIsCounted(refs: Counts, ext: Counts, pages: map<nat, Entry>, dir: Directory, v: nat)
    requires Counted(refs, ext, pages, dir) && v in pages && pages[v].frame in refs
    ensures refs[pages[v].frame] > 0
  {
    assert v in Naming(pages, pages[v].frame);
  }

  /** A page fresh from the pool starts with the references held by whoever asked for it. */
  lemma AllocConserves(refs: Counts, ext: Counts, pages: map<nat, Entry>, dir: Directory, page: nat, count: nat)
    requires Counted(refs, ext, pages, dir) && page !in refs
    requires forall v | v in pages :: pages[v].frame != page
    ensures Counted(refs[page := count], ext[page := count], pages, dir)
  {
    assert Naming(pages, page) == {};
  }

  /** Handing a reference over to a leaf entry, and taking one back, conserve the counts. */
  lemma NameConserves(refs: Counts, ext: Counts, pages: map<nat, Entry>, dir: Directory, v: nat, e: Entry)
    requires Counted(refs, ext, pages, dir) && v !in pages && (e.frame in refs ==> ext[e.frame] > 0)
    ensures Counted(refs, Dec(ext, e.frame), pages[v := e], dir)
  {
    forall f | f in refs
      ensures refs[f] == Dec(ext, e.frame)[f] + |Naming(pages[v := e], f)| + TableRefs(dir, f)
    {
      NameCount(pages, v, e, f);
    }
  }

  lemma UnnameConserves(refs: Counts, ext: Counts, pages: map<nat, Entry>, dir: Directory, v: nat)
    requires Counted(refs, ext, pages, dir) && v in pages
    ensures Counted(Dec(refs, pages[v].frame), ext, pages - {v}, dir)
    ensures pages[v].frame in refs ==> refs[pages[v].frame] > 0
  {
    var g := pages[v].frame;
    if g in refs {
      NamedIsCounted(refs, ext, pages, dir, v);
    }
    forall f | f in refs
      ensures Dec(refs, g)[f] == ext[f] + |Naming(pages - {v}, f)| + TableRefs(dir, f)
    {
      UnnameCount(pages, v, f);
    }
  }

  /** Handing a reference over to a table of the tree, and taking one back, conserve the counts. */
  lemma HangConserves(refs: Counts, ext: Counts, pages: map<nat, Entry>, dir: Directory, n: Node, t: nat)
    requires Counted(refs, ext, pages, dir) && n !in dir && t !in dir.Values && t in refs && ext[t] > 0
    ensures Counted(refs, Dec(ext, t), pages, dir[n := t])
  {
    assert n in dir[n := t];
    forall f | f in refs
      ensures TableRefs(dir[n := t], f) == if f == t then 1 else TableRefs(dir, f)
    {
      if f in dir.Values {
        var m :| m in dir && dir[m] == f;
        assert m in dir[n := t];
      }
    }
  }

  lemma UnhangConserves(refs: Counts, ext: Counts, pages: map<nat, Entry>, dir: Directory, n: Node)
    requires Counted(refs, ext, pages, dir) && n in dir
    requires forall m | m in dir && dir[m] == dir[n] :: m == n
    ensures dir[n] in refs && refs[dir[n]] > 0
    ensures Counted(Dec(refs, dir[n]), ext, pages, dir - {n})
  {
    assert dir[n] in dir.Values;
    forall f | f in refs
      ensures TableRefs(dir - {n}, f) == if f == dir[n] then 0 else TableRefs(dir, f)
    {
      if f in dir.Values && f != dir[n] {
        var m :| m in dir && dir[m] == f;
        assert m in dir - {n};
      }
    }
  }

  lemma RenameConserves(refs: Counts, ext: Counts, pages: map<nat, Entry>, dir: Directory, v: nat, e: Entry)
    requires Counted(refs, ext, pages, dir) && v in pages && e.frame == pages[v].frame
    ensures Counted(refs, ext, pages[v := e], dir)
  {
    forall f | f in refs ensures Naming(pages[v := e], f) == Naming(pages, f) {
    }
  }

  /** A frame without references is named by no page and is no table. */
  lemma UncountedUnseen(refs: Counts, ext: Counts, pages: map<nat, Entry>, dir: Directory, f: nat)
    requires Counted(refs, ext, pages, dir) && f in refs && refs[f] == 0
    ensures (forall v | v in pages :: pages[v].frame != f) && f !in dir.Values
  {
    forall v | v in pages ensures pages[v].frame != f {
      if pages[v].frame == f {
        NamedIsCounted(refs, ext, pages, dir, v);
      }
    }
  }

  lemma ForgetConserves(refs: Counts, ext: Counts, pages: map<nat, Entry>, dir: Directory, f: nat)
    requires Counted(refs, ext, pages, dir) && f in refs && refs[f] == 0
    ensures Counted(refs - {f}, ext - {f}, pages, dir)
  {
    UncountedUnseen(refs, ext, pages, dir, f);
  }

  lemma PopKeepsLists(refs: Counts, freePages: seq<nat>, lent: set<nat>)
    requires FreeListSafe(refs, freePages) && Drained(refs, freePages, lent) && freePages != []
    ensures var k := |freePages| - 1;
            && Drained(refs - {freePages[k]}, freePages[..k], lent)
            && FreeListSafe(refs - {freePages[k]}, freePages[..k])
  {
    var k := |freePages| - 1;
    assert freePages == freePages[..k] + [freePages[k]];
    assert freePages[k] !in freePages[..k];
  }
}
