/** What the buddy allocator promises about pages: which blocks are live, what an allocation returns, and
    what a release undoes. */
module BuddyPages {
  import opened BuddyTree

  function Leaf(x: nat, levels: nat): nat {
    Pow2(levels) - 1 + x
  }

  /** Page `x` is one of the 2^c pages from `o`. */
  predicate InBlock(x: nat, o: nat, c: nat) {
    o <= x < o + Pow2(c)
  }

  lemma HalfBlocks(i: nat, c: nat, levels: nat)
    requires AtLevel(i, c, levels) && c > 0
    ensures AtLevel(2 * i + 1, c - 1, levels) && AtLevel(2 * i + 2, c - 1, levels)
    ensures OffsetOf(2 * i + 1, c - 1, levels) == OffsetOf(i, c, levels)
    ensures OffsetOf(2 * i + 2, c - 1, levels) == OffsetOf(i, c, levels) + Pow2(c - 1)
  {
    var n, h := i - (Pow2(levels - c) - 1), Pow2(c - 1);
    assert 2 * i + 1 - (Pow2(levels - c + 1) - 1) == 2 * n;
    assert (2 * n) * h == n * (2 * h);
    assert (2 * n + 1) * h == n * (2 * h) + h;
  }

  /** A block's pages are the leaves under its node. */
  lemma {:induction false} BlockPages(i: nat, c: nat, x: nat, levels: nat)
    requires AtLevel(i, c, levels) && x < Pow2(levels)
    ensures InBlock(x, OffsetOf(i, c, levels), c) <==> Above(i, Leaf(x, levels))
    decreases c
  {
    var leaf := Leaf(x, levels);
    assert AtLevel(leaf, 0, levels) by {
      assert Pow2(0) == 1;
    }
    if c == 0 {
      assert OffsetOf(i, 0, levels) == i - (Pow2(levels) - 1);
      if Above(i, leaf) {
        SameLevel(i, 0, leaf, 0, levels);
      }
    } else {
      HalfBlocks(i, c, levels);
      BlockPages(2 * i + 1, c - 1, x, levels);
      BlockPages(2 * i + 2, c - 1, x, levels);
      NotSelf(i, c, leaf, 0, levels);
      AboveChild(i, leaf);
    }
  }

  lemma Scaled(n: nat, p: nat, q: nat)
    requires p > 0 && n < q
    ensures (n * p) % p == 0 && (n * p) / p == n && n * p + p <= q * p
  {
    MulLe(n + 1, q, p);
    DivUnique(n * p, p, n);
  }

  lemma DivUnique(x: nat, p: nat, q: nat)
    requires p > 0 && x == q * p
    ensures x / p == q && x % p == 0
  {
    var e := x / p;
    assert x == e * p + x % p;
    if e < q {
      MulLe(e + 1, q, p);
    } else if q < e {
      MulLe(q + 1, e, p);
    }
  }

  /** Blocks are aligned to their size and lie inside the pool, and a node is found again from the offset
      of its block. */
  lemma BlockBounds(i: nat, c: nat, levels: nat)
    requires AtLevel(i, c, levels)
    ensures OffsetOf(i, c, levels) % Pow2(c) == 0 && OffsetOf(i, c, levels) + Pow2(c) <= Pow2(levels)
    ensures NodeOf(OffsetOf(i, c, levels), c, levels) == i
  {
    Pow2Product(levels - c, c);
    Scaled(i - (Pow2(levels - c) - 1), Pow2(c), Pow2(levels - c));
  }

  lemma MulLe(a: nat, b: nat, p: nat)
    requires a <= b
    ensures a * p <= b * p
  {
    assert b * p == a * p + (b - a) * p;
  }

  lemma {:induction false} Pow2Product(a: nat, b: nat)
    ensures Pow2(a) * Pow2(b) == Pow2(a + b)
    decreases a
  {
    if a > 0 {
      Pow2Product(a - 1, b);
    }
  }

  lemma Unscaled(o: nat, p: nat, q: nat)
    requires p > 0 && o % p == 0 && o < q * p
    ensures o / p < q && (o / p) * p == o
  {
    if q <= o / p {
      MulLe(q, o / p, p);
    }
  }

  /** Every aligned offset inside the pool is the offset of a node. */
  lemma NodeAt(o: nat, c: nat, levels: nat)
    requires c <= levels && o % Pow2(c) == 0 && o + Pow2(c) <= Pow2(levels)
    ensures AtLevel(NodeOf(o, c, levels), c, levels) && OffsetOf(NodeOf(o, c, levels), c, levels) == o
  {
    Pow2Product(levels - c, c);
    Unscaled(o, Pow2(c), Pow2(levels - c));
  }

  lemma {:induction false} HasLevel(i: nat, levels: nat) returns (c: nat)
    requires i < 2 * Pow2(levels) - 1
    ensures AtLevel(i, c, levels)
    decreases levels
  {
    if i + 1 >= Pow2(levels) {
      c := 0;
    } else {
      var d := HasLevel(i, levels - 1);
      c := d + 1;
      assert levels - c == levels - 1 - d;
    }
  }

  /** Page `x` is in an allocated block. */
  ghost predicate Live(t: Tree, x: nat, levels: nat) {
    exists u :: u in UsedNodes(t) && Above(u, Leaf(x, levels))
  }

  /** The 2^c pages from `o` are an aligned block of the pool with no page in an allocated block. */
  ghost predicate FreeBlock(t: Tree, o: nat, c: nat, levels: nat) {
    o % Pow2(c) == 0 && o + Pow2(c) <= Pow2(levels) && forall x | InBlock(x, o, c) :: !Live(t, x, levels)
  }

  lemma FirstPage(i: nat, c: nat, levels: nat)
    requires AtLevel(i, c, levels)
    ensures InBlock(OffsetOf(i, c, levels), OffsetOf(i, c, levels), c)
    ensures Above(i, Leaf(OffsetOf(i, c, levels), levels))
  {
    BlockBounds(i, c, levels);
    BlockPages(i, c, OffsetOf(i, c, levels), levels);
  }

  lemma FreeIffNoLivePage(t: Tree, i: nat, c: nat, levels: nat)
    requires TreeOf(t, levels) && AtLevel(i, c, levels)
    ensures Free(t, i) <==> FreeBlock(t, OffsetOf(i, c, levels), c, levels)
  {
    var o := OffsetOf(i, c, levels);
    BlockBounds(i, c, levels);
    if Free(t, i) {
      forall x | InBlock(x, o, c) ensures !Live(t, x, levels) {
        BlockPages(i, c, x, levels);
        forall u | u in UsedNodes(t) ensures !Above(u, Leaf(x, levels)) {
          if Above(u, Leaf(x, levels)) {
            Chain(i, u, Leaf(x, levels));
          }
        }
      }
    }
    if FreeBlock(t, o, c, levels) {
      forall u | u in UsedNodes(t) ensures !Above(u, i) && !Above(i, u) {
        if Above(u, i) {
          FirstPage(i, c, levels);
          AboveTransitive(u, i, Leaf(o, levels));
        }
        if Above(i, u) {
          var d := HasLevel(u, levels);
          var y := OffsetOf(u, d, levels);
          FirstPage(u, d, levels);
          BlockBounds(u, d, levels);
          AboveTransitive(i, u, Leaf(y, levels));
          BlockPages(i, c, y, levels);
          assert Live(t, y, levels);
        }
      }
    }
  }

  /** A request is served with the lowest aligned free block of the least power of two that holds it, and
      with -1 exactly when there is none. */
  lemma AllocatesLowest(t: Tree, t': Tree, n: nat, levels: nat, r: int)
    requires TreeOf(t, levels) && Consistent(t) && Served(t, t', n, levels, r)
    ensures r == -1 || (r >= 0 && FreeBlock(t, r, LevelOf(n), levels))
    ensures forall o: nat | FreeBlock(t, o, LevelOf(n), levels) :: 0 <= r <= o
  {
    var c := LevelOf(n);
    if c > levels {
      Pow2Monotone(levels + 1, c);
    } else {
      assert Pow2(0) == 1;
      SearchRight(t, 0, levels, c, levels);
      if r >= 0 {
        FreeIffNoLivePage(t, Lowest(t, c, levels).value, c, levels);
      }
      forall o: nat | FreeBlock(t, o, c, levels) ensures 0 <= r <= o {
        NodeAt(o, c, levels);
        var k := NodeOf(o, c, levels);
        FreeIffNoLivePage(t, k, c, levels);
        RootAbove(k);
        assert Free(t, k);
        MulLe(Lowest(t, c, levels).value - (Pow2(levels - c) - 1), k - (Pow2(levels - c) - 1), Pow2(c));
      }
    }
  }

  lemma {:induction false} RootAbove(k: nat)
    ensures Above(0, k)
    decreases k
  {
    if k > 0 {
      RootAbove((k - 1) / 2);
    }
  }

  /** An allocation adds exactly the pages of the block it returns to the live pages. */
  lemma AllocationLive(t: Tree, t': Tree, c: nat, levels: nat, r: int, x: nat)
    requires TreeOf(t, levels) && c <= levels && Consistent(t) && Allocated(t, t', c, levels, r)
    requires x < Pow2(levels)
    ensures Live(t', x, levels) <==> Live(t, x, levels) || (r >= 0 && InBlock(x, r, c))
  {
    if r >= 0 {
      var j := Lowest(t, c, levels).value;
      BlockPages(j, c, x, levels);
      assert j in UsedNodes(t');
    }
  }

  /** Two allocated blocks share no page. */
  lemma LiveBlocksDisjoint(t: Tree, u: nat, c: nat, v: nat, d: nat, x: nat, levels: nat)
    requires TreeOf(t, levels) && Consistent(t) && u in UsedNodes(t) && v in UsedNodes(t) && u != v
    requires AtLevel(u, c, levels) && AtLevel(v, d, levels) && InBlock(x, OffsetOf(u, c, levels), c)
    ensures !InBlock(x, OffsetOf(v, d, levels), d)
  {
    BlockBounds(u, c, levels);
    BlockPages(u, c, x, levels);
    BlockPages(v, d, x, levels);
    if InBlock(x, OffsetOf(v, d, levels), d) {
      Chain(u, v, Leaf(x, levels));
      if Above(u, v) {
        UnusedBelow(t, u, v);
      } else {
        UnusedBelow(t, v, u);
      }
    }
  }

  /** A release takes exactly the pages of the block it names from the live pages. */
  lemma ReleaseLive(t: Tree, t': Tree, root: nat, o: nat, c: nat, levels: nat, x: nat)
    requires TreeOf(t, levels) && c <= levels && Consistent(t) && Released(t, t', root, o, c, levels, true)
    requires o / Pow2(c) < Pow2(levels - c) && x < Pow2(levels)
    ensures Live(t', x, levels) <==>
            Live(t, x, levels) && !InBlock(x, OffsetOf(NodeOf(o, c, levels), c, levels), c)
  {
    var i := NodeOf(o, c, levels);
    BlockPages(i, c, x, levels);
    if Above(i, Leaf(x, levels)) && Live(t', x, levels) {
      var u :| u in UsedNodes(t') && Above(u, Leaf(x, levels));
      Chain(i, u, Leaf(x, levels));
      if Above(u, i) {
        UnusedBelow(t, u, i);
      } else {
        UnusedBelow(t, i, u);
      }
    }
  }

  /** Releasing what was just allocated restores every mark of the tree, exactly when the offset is
      outside the range that the release refuses. */
  lemma RoundTrip(t: Tree, t': Tree, t'': Tree, root: nat, c: nat, levels: nat, r: int, ok: bool)
    requires TreeOf(t, levels) && c <= levels && Consistent(t) && Allocated(t, t', c, levels, r) && r >= 0
    requires Released(t', t'', root, r, c, levels, ok)
    ensures t'' == t <==> !(root <= r <= root + |t|)
    ensures ok <==> t'' == t
  {
    assert Pow2(0) == 1;
    SearchRight(t, 0, levels, c, levels);
    var j := Lowest(t, c, levels).value;
    BlockBounds(j, c, levels);
    assert j !in UsedNodes(t) && j in UsedNodes(t');
    if ok {
      UsedDetermines(t, t'');
    }
  }

  /** A pool of one page whose tree is at address 0 does not take its page back. */
  lemma NotTakenBack(t'': Tree, ok: bool)
    requires Released([Used], t'', 0, 0, 0, 0, ok)
    ensures Allocated([Unused], [Used], 0, 0, 0) && !ok && t'' == [Used]
  {
    assert Pow2(0) == 1;
    assert UsedNodes([Used]) == UsedNodes([Unused]) + {0};
  }

  /** Whatever search is used, the offset and the tree it leaves are the same. */
  lemma SearchesAgree(t: Tree, t1: Tree, t2: Tree, c: nat, levels: nat, r1: int, r2: int)
    requires TreeOf(t, levels) && c <= levels && Consistent(t)
    requires Allocated(t, t1, c, levels, r1) && Allocated(t, t2, c, levels, r2)
    ensures r1 == r2 && t1 == t2
  {
    if r1 >= 0 {
      UsedDetermines(t1, t2);
    }
  }

  // Runs of requests and releases, with the blocks their clients hold.

  /** The marks, and the blocks held by clients: each an offset and a level. */
  datatype Pool = Pool(tree: Tree, held: set<(nat, nat)>)

  datatype Event = Request(pages: nat, offset: int) | Release(block: (nat, nat), ok: bool)

  /** A client is given the block that serves its request, or releases a block it holds. */
  ghost predicate Step(p: Pool, p': Pool, root: nat, levels: nat, e: Event)
    requires TreeOf(p.tree, levels)
  {
    match e
    case Request(n, r) =>
      && Served(p.tree, p'.tree, n, levels, r)
      && p'.held == if r >= 0 then p.held + {(r as nat, LevelOf(n))} else p.held
    case Release(b, ok) =>
      && b in p.held && b.1 <= levels && Released(p.tree, p'.tree, root, b.0, b.1, levels, ok)
      && p'.held == if ok then p.held - {b} else p.held
  }

  predicate InPool(b: (nat, nat), levels: nat) {
    b.1 <= levels && b.0 % Pow2(b.1) == 0 && b.0 + Pow2(b.1) <= Pow2(levels)
  }

  /** The nodes allocated are those of the blocks held. */
  ghost predicate Sound(p: Pool, levels: nat) {
    && TreeOf(p.tree, levels) && Consistent(p.tree)
    && (forall b | b in p.held :: InPool(b, levels) && NodeOf(b.0, b.1, levels) in UsedNodes(p.tree))
    && (forall u | u in UsedNodes(p.tree) :: exists b :: b in p.held && b.1 <= levels && NodeOf(b.0, b.1, levels) == u)
  }

  /** A node stands for one block only. */
  lemma BlockOfNode(b: (nat, nat), d: (nat, nat), levels: nat)
    requires InPool(b, levels) && InPool(d, levels) && NodeOf(b.0, b.1, levels) == NodeOf(d.0, d.1, levels)
    ensures b == d
  {
    NodeAt(b.0, b.1, levels);
    NodeAt(d.0, d.1, levels);
    var i := NodeOf(b.0, b.1, levels);
    if b.1 < d.1 {
      NotSelf(i, d.1, i, b.1, levels);
    } else if d.1 < b.1 {
      NotSelf(i, b.1, i, d.1, levels);
    }
  }

  lemma RequestSound(p: Pool, p': Pool, root: nat, levels: nat, n: nat, r: int)
    requires Sound(p, levels) && Step(p, p', root, levels, Request(n, r))
    ensures Sound(p', levels)
  {
    if r >= 0 {
      var c := LevelOf(n);
      AllocatesLowest(p.tree, p'.tree, n, levels, r);
      var j := Lowest(p.tree, c, levels).value;
      BlockBounds(j, c, levels);
      var b: (nat, nat) := (r, c);
      assert NodeOf(b.0, b.1, levels) == j && b in p'.held;
      forall u | u in UsedNodes(p'.tree)
        ensures exists b' :: b' in p'.held && b'.1 <= levels && NodeOf(b'.0, b'.1, levels) == u
      {
        if u != j {
          var b' :| b' in p.held && b'.1 <= levels && NodeOf(b'.0, b'.1, levels) == u;
          assert b' in p'.held;
        }
      }
    }
  }

  lemma ReleaseSound(p: Pool, p': Pool, root: nat, levels: nat, b: (nat, nat), ok: bool)
    requires Sound(p, levels) && Step(p, p', root, levels, Release(b, ok))
    ensures Sound(p', levels)
  {
    if ok {
      forall b' | b' in p'.held ensures InPool(b', levels) && NodeOf(b'.0, b'.1, levels) in UsedNodes(p'.tree) {
        if NodeOf(b'.0, b'.1, levels) == NodeOf(b.0, b.1, levels) {
          BlockOfNode(b', b, levels);
        }
      }
      forall u | u in UsedNodes(p'.tree)
        ensures exists b' :: b' in p'.held && b'.1 <= levels && NodeOf(b'.0, b'.1, levels) == u
      {
        var b' :| b' in p.held && b'.1 <= levels && NodeOf(b'.0, b'.1, levels) == u;
        assert b' in p'.held;
      }
    }
  }

  ghost predicate Run(ps: seq<Pool>, es: seq<Event>, root: nat, levels: nat) {
    && |ps| == |es| + 1 && TreeOf(ps[0].tree, levels) && ps[0].held == {}
    && (forall i | 0 <= i < |ps[0].tree| :: ps[0].tree[i].Unused?)
    && (forall k | 0 <= k < |es| :: TreeOf(ps[k].tree, levels) && Step(ps[k], ps[k + 1], root, levels, es[k]))
  }

  lemma {:induction false} RunSound(ps: seq<Pool>, es: seq<Event>, root: nat, levels: nat, k: nat)
    requires Run(ps, es, root, levels) && k <= |es|
    ensures Sound(ps[k], levels)
  {
    if k == 0 {
      assert UsedNodes(ps[0].tree) == {};
    } else {
      RunSound(ps, es, root, levels, k - 1);
      StepSound(ps[k - 1], ps[k], root, levels, es[k - 1]);
    }
  }

  lemma StepSound(p: Pool, p': Pool, root: nat, levels: nat, e: Event)
    requires TreeOf(p.tree, levels) && Sound(p, levels) && Step(p, p', root, levels, e)
    ensures Sound(p', levels)
  {
    match e
    case Request(n, r) => RequestSound(p, p', root, levels, n, r);
    case Release(b, ok) => ReleaseSound(p, p', root, levels, b, ok);
  }

  /** At every moment of every run the blocks held lie in the pool, aligned, and no two share a page. */
  lemma RunSafe(ps: seq<Pool>, es: seq<Event>, root: nat, levels: nat, k: nat, b: (nat, nat), d: (nat, nat), x: nat)
    requires Run(ps, es, root, levels) && k <= |es| && b in ps[k].held && d in ps[k].held && b != d
    requires InBlock(x, b.0, b.1)
    ensures InPool(b, levels) && x < Pow2(levels) && !InBlock(x, d.0, d.1)
  {
    RunSound(ps, es, root, levels, k);
    NodeAt(b.0, b.1, levels);
    NodeAt(d.0, d.1, levels);
    if NodeOf(b.0, b.1, levels) == NodeOf(d.0, d.1, levels) {
      BlockOfNode(b, d, levels);
    } else {
      LiveBlocksDisjoint(ps[k].tree, NodeOf(b.0, b.1, levels), b.1, NodeOf(d.0, d.1, levels), d.1, x, levels);
    }
  }

  /** At every moment of every run a request fails only if every aligned block of its size has a page in a
      block that is held. */
  lemma RunComplete(ps: seq<Pool>, es: seq<Event>, root: nat, levels: nat, k: nat, o: nat)
    requires Run(ps, es, root, levels) && k < |es| && es[k].Request? && es[k].offset == -1
    requires o % Pow2(LevelOf(es[k].pages)) == 0 && o + Pow2(LevelOf(es[k].pages)) <= Pow2(levels)
    ensures exists b, x :: b in ps[k].held && InBlock(x, b.0, b.1) && InBlock(x, o, LevelOf(es[k].pages))
  {
    var t, c := ps[k].tree, LevelOf(es[k].pages);
    RunSound(ps, es, root, levels, k);
    AllocatesLowest(t, ps[k + 1].tree, es[k].pages, levels, -1);
    assert !FreeBlock(t, o, c, levels);
    var x :| InBlock(x, o, c) && Live(t, x, levels);
    var u :| u in UsedNodes(t) && Above(u, Leaf(x, levels));
    var b :| b in ps[k].held && b.1 <= levels && NodeOf(b.0, b.1, levels) == u;
    NodeAt(b.0, b.1, levels);
    BlockPages(u, b.1, x, levels);
  }
}
