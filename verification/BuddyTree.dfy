/** The buddy allocator's flat binary tree: its invariant, the blocks its nodes stand for, and the
    search for the lowest free block. */
module BuddyTree {
  import opened Basics

  /** Unused: the whole block is free. Used: it is allocated as one block. Split: parts of it are
      allocated. Full: split, with no free part left. */
  datatype Mark = Unused | Used | Split | Full

  type Tree = seq<Mark>

  function Pow2(k: nat): (r: nat)
    ensures r > 0
  {
    if k == 0 then 1 else 2 * Pow2(k - 1)
  }

  lemma Pow2Monotone(a: nat, b: nat)
    requires a <= b
    ensures Pow2(a) <= Pow2(b)
    decreases b
  {
    if a < b {
      Pow2Monotone(a, b - 1);
    }
  }

  predicate Taken(m: Mark) {
    m.Used? || m.Full?
  }

  /** What the mark of an inner node says about the marks of its children. The root is never Full. */
  predicate NodeOk(t: Tree, i: nat)
    requires 2 * i + 2 < |t|
  {
    var l, r := t[2 * i + 1], t[2 * i + 2];
    match t[i]
    case Unused => l.Unused? && r.Unused?
    case Used => l.Unused? && r.Unused?
    case Full => i != 0 && Taken(l) && Taken(r)
    case Split => !(l.Unused? && r.Unused?) && (i != 0 ==> !(Taken(l) && Taken(r)))
  }

  ghost predicate Consistent(t: Tree) {
    && |t| % 2 == 1
    && (forall i: nat | 2 * i + 2 < |t| :: NodeOk(t, i))
    && (forall i: nat | i < |t| <= 2 * i + 2 :: t[i].Unused? || t[i].Used?)
  }

  ghost function UsedNodes(t: Tree): set<nat> {
    set i: nat | i < |t| && t[i].Used?
  }

  /** The blocks allocated determine every mark of the tree. */
  lemma UsedDetermines(t: Tree, t': Tree)
    requires |t| == |t'| && Consistent(t) && Consistent(t') && UsedNodes(t) == UsedNodes(t')
    ensures t == t'
  {
    forall i: nat | i < |t| ensures t[i] == t'[i] {
      SameMark(t, t', i);
    }
  }

  lemma {:induction false} SameMark(t: Tree, t': Tree, i: nat)
    requires |t| == |t'| && Consistent(t) && Consistent(t') && UsedNodes(t) == UsedNodes(t') && i < |t|
    ensures t[i] == t'[i]
    decreases |t| - i
  {
    assert i in UsedNodes(t) <==> i in UsedNodes(t');
    if 2 * i + 2 < |t| {
      SameMark(t, t', 2 * i + 1);
      SameMark(t, t', 2 * i + 2);
      assert NodeOk(t, i) && NodeOk(t', i);
    }
  }

  /** Node `i` is node `j` or an ancestor of it. */
  predicate Above(i: nat, j: nat) {
    i == j || (i < j && Above(i, (j - 1) / 2))
  }

  lemma {:induction false} AboveTransitive(i: nat, j: nat, k: nat)
    requires Above(i, j) && Above(j, k)
    ensures Above(i, k)
    decreases k
  {
    if j != k {
      AboveTransitive(i, j, (k - 1) / 2);
      AboveLe(i, (k - 1) / 2);
    }
  }

  lemma {:induction false} AboveLe(i: nat, j: nat)
    requires Above(i, j)
    ensures i <= j
  {
  }

  /** Two nodes above a common one are above one another. */
  lemma {:induction false} Chain(i: nat, j: nat, k: nat)
    requires Above(i, k) && Above(j, k)
    ensures Above(i, j) || Above(j, i)
    decreases k
  {
    if i != k && j != k {
      Chain(i, j, (k - 1) / 2);
    }
  }

  lemma {:induction false} AboveChild(i: nat, k: nat)
    ensures Above(i, k) <==> i == k || Above(2 * i + 1, k) || Above(2 * i + 2, k)
    decreases k
  {
    if i < k {
      AboveChild(i, (k - 1) / 2);
    }
    if Above(2 * i + 1, k) {
      AboveLe(2 * i + 1, k);
    }
    if Above(2 * i + 2, k) {
      AboveLe(2 * i + 2, k);
    }
  }

  /** Under an Unused or Used node every node is Unused. */
  lemma {:induction false} UnusedBelow(t: Tree, i: nat, k: nat)
    requires Consistent(t) && Above(i, k) && i != k && k < |t| && (t[i].Unused? || t[i].Used?)
    ensures t[k].Unused?
    decreases k
  {
    var p := (k - 1) / 2;
    if i != p {
      UnusedBelow(t, i, p);
    }
    assert NodeOk(t, p);
  }

  /** A node that is not Unused has an allocated node at or below it. */
  lemma {:induction false} UsedBelow(t: Tree, i: nat) returns (u: nat)
    requires Consistent(t) && i < |t| && !t[i].Unused?
    ensures u in UsedNodes(t) && Above(i, u)
    decreases |t| - i
  {
    if t[i].Used? {
      return i;
    }
    assert NodeOk(t, i);
    var c := if !t[2 * i + 1].Unused? then 2 * i + 1 else 2 * i + 2;
    u := UsedBelow(t, c);
    AboveTransitive(i, c, u);
  }

  /** No allocated block overlaps the block of node `k`. */
  ghost predicate Free(t: Tree, k: nat) {
    forall u | u in UsedNodes(t) :: !Above(u, k) && !Above(k, u)
  }

  /** No allocated node lies strictly above `i`. */
  ghost predicate Open(t: Tree, i: nat) {
    forall u | u in UsedNodes(t) && Above(u, i) :: u == i
  }

  /** Node `i` stands for a block of 2^c pages in a tree of 2^levels pages. */
  predicate AtLevel(i: nat, c: nat, levels: nat) {
    c <= levels && Pow2(levels - c) <= i + 1 < 2 * Pow2(levels - c)
  }

  predicate TreeOf(t: Tree, levels: nat) {
    |t| == 2 * Pow2(levels) - 1
  }

  lemma LevelBounds(t: Tree, i: nat, c: nat, levels: nat)
    requires TreeOf(t, levels) && AtLevel(i, c, levels)
    ensures i < |t| && (c > 0 ==> 2 * i + 2 < |t|) && (c == 0 ==> |t| <= 2 * i + 2)
    ensures c > 0 ==> AtLevel(2 * i + 1, c - 1, levels) && AtLevel(2 * i + 2, c - 1, levels)
  {
    Pow2Monotone(levels - c, levels);
    if c > 0 {
      Pow2Monotone(levels - c + 1, levels);
    }
  }

  /** The search: the first unused node of level `target` below node `i` of level `c`, left to right,
      skipping what is taken. */
  function FirstFree(t: Tree, i: nat, c: nat, target: nat, levels: nat): Option<nat>
    requires TreeOf(t, levels) && AtLevel(i, c, levels) && target <= c
    decreases c
  {
    LevelBounds(t, i, c, levels);
    if c == target then if t[i].Unused? then Some(i) else None
    else if Taken(t[i]) then None
    else if t[i].Unused? then FirstFree(t, 2 * i + 1, c - 1, target, levels)
    else
      var l := FirstFree(t, 2 * i + 1, c - 1, target, levels);
      if l.Some? then l else FirstFree(t, 2 * i + 2, c - 1, target, levels)
  }

  lemma ParentLevel(i: nat, c: nat, levels: nat)
    requires AtLevel(i, c, levels) && c < levels
    ensures i > 0 && AtLevel((i - 1) / 2, c + 1, levels)
  {
  }

  /** A node is above no other node of its own level, and above none of a higher level. */
  lemma {:induction false} SameLevel(i: nat, c: nat, k: nat, d: nat, levels: nat)
    requires AtLevel(i, c, levels) && AtLevel(k, d, levels) && Above(i, k) && c <= d
    ensures i == k
  {
    AboveLe(i, k);
    if i != k {
      Pow2Monotone(levels - d, levels - c);
      ParentBelow(i, c, k, d, levels);
    }
  }

  lemma {:induction false} ParentBelow(i: nat, c: nat, k: nat, d: nat, levels: nat)
    requires AtLevel(i, c, levels) && AtLevel(k, d, levels) && Above(i, k) && i != k
    ensures c > d
    decreases k
  {
    if d < levels {
      ParentLevel(k, d, levels);
      if i == (k - 1) / 2 {
        if c <= d {
          Pow2Monotone(levels - d, levels - c);
        }
      } else {
        ParentBelow(i, c, (k - 1) / 2, d + 1, levels);
      }
    } else {
      AboveLe(i, k);
    }
  }

  /** Nodes below a node further left come first. */
  lemma {:induction false} LeftFirst(i: nat, i': nat, c: nat, j: nat, k: nat, target: nat, levels: nat)
    requires AtLevel(i, c, levels) && AtLevel(i', c, levels) && i < i'
    requires AtLevel(j, target, levels) && AtLevel(k, target, levels) && target <= c && Above(i, j) && Above(i', k)
    ensures j < k
    decreases c - target
  {
    if c == target {
      SameLevel(i, c, j, target, levels);
      SameLevel(i', c, k, target, levels);
    } else {
      ParentLevel(j, target, levels);
      ParentLevel(k, target, levels);
      NotSelf(i, c, j, target, levels);
      NotSelf(i', c, k, target, levels);
      LeftFirst(i, i', c, (j - 1) / 2, (k - 1) / 2, target + 1, levels);
    }
  }

  lemma NotSelf(i: nat, c: nat, j: nat, d: nat, levels: nat)
    requires AtLevel(i, c, levels) && AtLevel(j, d, levels) && d < c
    ensures i != j
  {
    Pow2Monotone(levels - c + 1, levels - d);
  }

  lemma {:induction false} UnusedFinds(t: Tree, i: nat, c: nat, target: nat, levels: nat)
    requires Consistent(t) && TreeOf(t, levels) && AtLevel(i, c, levels) && target <= c
    requires i < |t| && t[i].Unused?
    ensures FirstFree(t, i, c, target, levels).Some?
    decreases c
  {
    if c > target {
      LevelBounds(t, i, c, levels);
      assert NodeOk(t, i);
      UnusedFinds(t, 2 * i + 1, c - 1, target, levels);
    }
  }

  /** `j` is the first free node of level `target` under `i`. */
  ghost predicate IsFirst(t: Tree, i: nat, target: nat, levels: nat, j: nat) {
    && AtLevel(j, target, levels) && Above(i, j) && j < |t| && t[j].Unused? && Free(t, j)
    && (forall k: nat | AtLevel(k, target, levels) && Above(i, k) && k < j :: !Free(t, k))
  }

  ghost predicate NoneFree(t: Tree, i: nat, target: nat, levels: nat) {
    forall k: nat | AtLevel(k, target, levels) && Above(i, k) :: !Free(t, k)
  }

  ghost predicate Found(t: Tree, i: nat, target: nat, levels: nat, r: Option<nat>) {
    match r
    case Some(j) => IsFirst(t, i, target, levels, j)
    case None => NoneFree(t, i, target, levels)
  }

  /** At the target level a node is free exactly when it is unused. */
  lemma FoundHere(t: Tree, i: nat, c: nat, levels: nat)
    requires Consistent(t) && TreeOf(t, levels) && AtLevel(i, c, levels) && Open(t, i)
    ensures Found(t, i, c, levels, FirstFree(t, i, c, c, levels))
  {
    LevelBounds(t, i, c, levels);
    forall k: nat | AtLevel(k, c, levels) && Above(i, k) ensures k == i {
      SameLevel(i, c, k, c, levels);
    }
    if t[i].Unused? {
      forall u | u in UsedNodes(t) ensures !Above(u, i) && !Above(i, u) {
        if Above(i, u) && i != u {
          UnusedBelow(t, i, u);
        }
      }
    } else {
      var u := UsedBelow(t, i);
    }
  }

  lemma OpenChild(t: Tree, i: nat, child: nat)
    requires Open(t, i) && i < |t| && !t[i].Used? && (child == 2 * i + 1 || child == 2 * i + 2)
    ensures Open(t, child)
  {
  }

  /** What the search finds under the children decides what it finds under the node. */
  lemma FoundBelow(t: Tree, i: nat, c: nat, target: nat, levels: nat)
    requires Consistent(t) && TreeOf(t, levels) && AtLevel(i, c, levels) && target < c && Open(t, i)
    requires 2 * i + 2 < |t| && !t[i].Used?
    requires AtLevel(2 * i + 1, c - 1, levels) && AtLevel(2 * i + 2, c - 1, levels)
    requires Found(t, 2 * i + 1, target, levels, FirstFree(t, 2 * i + 1, c - 1, target, levels))
    requires Found(t, 2 * i + 2, target, levels, FirstFree(t, 2 * i + 2, c - 1, target, levels))
    requires t[i].Unused? ==> FirstFree(t, 2 * i + 1, c - 1, target, levels).Some?
    ensures Found(t, i, target, levels, FirstFree(t, i, c, target, levels))
  {
    assert NodeOk(t, i);
    var l, r := FirstFree(t, 2 * i + 1, c - 1, target, levels), FirstFree(t, 2 * i + 2, c - 1, target, levels);
    forall k: nat | AtLevel(k, target, levels) && Above(i, k)
      ensures Above(2 * i + 1, k) || Above(2 * i + 2, k)
    {
      NotSelf(i, c, k, target, levels);
      AboveChild(i, k);
    }
    if l.Some? {
      AboveChild(i, l.value);
      forall k: nat | AtLevel(k, target, levels) && Above(2 * i + 2, k) ensures l.value < k {
        LeftFirst(2 * i + 1, 2 * i + 2, c - 1, l.value, k, target, levels);
      }
    } else if r.Some? {
      AboveChild(i, r.value);
    }
    assert Taken(t[i]) ==> l.None? && r.None?;
  }

  /** The search returns the lowest free block of the target level under a node, or there is none. */
  lemma {:induction false} SearchRight(t: Tree, i: nat, c: nat, target: nat, levels: nat)
    requires Consistent(t) && TreeOf(t, levels) && AtLevel(i, c, levels) && target <= c && Open(t, i)
    ensures Found(t, i, target, levels, FirstFree(t, i, c, target, levels))
    decreases c
  {
    LevelBounds(t, i, c, levels);
    if c == target {
      FoundHere(t, i, c, levels);
    } else if t[i].Used? {
      assert i in UsedNodes(t);
    } else {
      OpenChild(t, i, 2 * i + 1);
      OpenChild(t, i, 2 * i + 2);
      SearchRight(t, 2 * i + 1, c - 1, target, levels);
      SearchRight(t, 2 * i + 2, c - 1, target, levels);
      if t[i].Unused? {
        assert NodeOk(t, i);
        UnusedFinds(t, 2 * i + 1, c - 1, target, levels);
      }
      FoundBelow(t, i, c, target, levels);
    }
  }

  /** The node the search of the whole tree finds. */
  ghost function Lowest(t: Tree, target: nat, levels: nat): Option<nat>
    requires TreeOf(t, levels) && target <= levels
  {
    assert Pow2(0) == 1;
    FirstFree(t, 0, levels, target, levels)
  }

  /** The first page of the block of node `i`. */
  function OffsetOf(i: nat, c: nat, levels: nat): nat
    requires AtLevel(i, c, levels)
  {
    (i - (Pow2(levels - c) - 1)) * Pow2(c)
  }

  /** The block the search finds is the only one allocated, and its offset is returned; if it finds none,
      -1 is returned and no mark has changed. */
  ghost predicate Allocated(t: Tree, t': Tree, target: nat, levels: nat, r: int)
    requires TreeOf(t, levels) && target <= levels
  {
    match Lowest(t, target, levels)
    case None => r == -1 && t' == t
    case Some(j) =>
      && |t'| == |t| && Consistent(t') && UsedNodes(t') == UsedNodes(t) + {j}
      && AtLevel(j, target, levels) && r == OffsetOf(j, target, levels)
  }

  /** The least level whose blocks hold `n` pages. */
  function LevelOf(n: nat): (k: nat)
    ensures n <= Pow2(k) && (k > 0 ==> Pow2(k - 1) < n)
  {
    if n <= 1 then 0 else LevelOf((n + 1) / 2) + 1
  }

  /** What a request for `n` pages does: as `Allocated` for the least level that holds them, and nothing if
      the pool is too small. */
  ghost predicate Served(t: Tree, t': Tree, n: nat, levels: nat, r: int)
    requires TreeOf(t, levels)
  {
    if LevelOf(n) <= levels then Allocated(t, t', LevelOf(n), levels, r) else r == -1 && t' == t
  }

  function Quotient(x: nat, p: nat): nat
    requires p > 0
  {
    x / p
  }

  /** The node of level `c` whose block holds page `x`. */
  function NodeOf(x: nat, c: nat, levels: nat): nat
    requires c <= levels
  {
    Quotient(x, Pow2(c)) + Pow2(levels - c) - 1
  }

  /** Releasing the block of level `c` that holds `x`: refused if `x` lies in the range that the guard takes
      for the tree's own, or if the node is not allocated; otherwise exactly that node is no longer
      allocated. */
  ghost predicate Released(t: Tree, t': Tree, root: nat, x: nat, c: nat, levels: nat, ok: bool)
    requires TreeOf(t, levels)
  {
    if root <= x <= root + |t| then
      !ok && t' == t
    else
      && c <= levels
      && (ok <==> NodeOf(x, c, levels) in UsedNodes(t))
      && (ok ==> |t'| == |t| && Consistent(t') && UsedNodes(t') == UsedNodes(t) - {NodeOf(x, c, levels)})
      && (!ok ==> t' == t)
  }
}
