/** `BuddyAllocator`: allocation and release of power-of-two runs of pages. */
module BuddyAllocator {
  import opened Basics
  import opened BuddyTree

  /** Every inner node but `h` agrees with its children, and `h` does once a Full mark is added to it
      where it is due. */
  ghost predicate OkExcept(t: Tree, h: nat) {
    && |t| % 2 == 1 && 2 * h + 2 < |t|
    && (forall i: nat | 2 * i + 2 < |t| && i != h :: NodeOk(t, i))
    && (forall i: nat | i < |t| <= 2 * i + 2 :: t[i].Unused? || t[i].Used?)
    && (NodeOk(t, h) || (t[h].Split? && !(t[2 * h + 1].Unused? && t[2 * h + 2].Unused?)))
  }

  lemma RootMended(t: Tree)
    requires OkExcept(t, 0)
    ensures Consistent(t)
  {
  }

  /** One turn of the upward loop. */
  lemma Mend(t: Tree, h: nat)
    requires OkExcept(t, h) && h > 0
    ensures var t' := if Taken(t[2 * h + 1]) && Taken(t[2 * h + 2]) then t[h := Full] else t;
            OkExcept(t', (h - 1) / 2) && UsedNodes(t') == UsedNodes(t)
  {
    var t' := if Taken(t[2 * h + 1]) && Taken(t[2 * h + 2]) then t[h := Full] else t;
    forall i: nat | 2 * i + 2 < |t'| && i != (h - 1) / 2 ensures NodeOk(t', i) {
      MendNode(t, h, i);
    }
    MendParent(t, h);
    MendUsed(t, h);
  }

  lemma MendParent(t: Tree, h: nat)
    requires OkExcept(t, h) && h > 0
    ensures var t' := if Taken(t[2 * h + 1]) && Taken(t[2 * h + 2]) then t[h := Full] else t;
            var p := (h - 1) / 2;
            2 * p + 2 < |t'| && (NodeOk(t', p) || (t'[p].Split? && !(t'[2 * p + 1].Unused? && t'[2 * p + 2].Unused?)))
  {
    assert NodeOk(t, (h - 1) / 2);
  }

  lemma MendUsed(t: Tree, h: nat)
    requires OkExcept(t, h)
    ensures Taken(t[2 * h + 1]) && Taken(t[2 * h + 2]) ==> !t[h].Used? && UsedNodes(t[h := Full]) == UsedNodes(t)
  {
  }

  lemma MendNode(t: Tree, h: nat, i: nat)
    requires OkExcept(t, h) && h > 0 && 2 * i + 2 < |t| && i != (h - 1) / 2
    ensures var t' := if Taken(t[2 * h + 1]) && Taken(t[2 * h + 2]) then t[h := Full] else t; NodeOk(t', i)
  {
    assert i != h ==> NodeOk(t, i);
    assert 2 * i + 1 != h && 2 * i + 2 != h;
  }

  // The search with an explicit stack.

  /** The entries of a stack are nodes at or above the target level, each with its level, and an entry of
      level `c` has at most levels - c entries under it. */
  ghost predicate StackOk(st: seq<(nat, nat)>, target: nat, levels: nat) {
    forall k | 0 <= k < |st| :: AtLevel(st[k].0, st[k].1, levels) && target <= st[k].1 && k + st[k].1 <= levels
  }

  /** What searching the nodes on the stack, top first, will find. */
  ghost function SearchStack(t: Tree, st: seq<(nat, nat)>, target: nat, levels: nat): Option<nat>
    requires TreeOf(t, levels) && StackOk(st, target, levels)
  {
    if st == [] then None
    else
      var (i, c) := st[|st| - 1];
      var r := FirstFree(t, i, c, target, levels);
      if r.Some? then r else SearchStack(t, st[..|st| - 1], target, levels)
  }

  /** The nodes left to visit under the stack's entries. */
  ghost function Weight(st: seq<(nat, nat)>): nat {
    if st == [] then 0 else 2 * Pow2(st[|st| - 1].1) - 1 + Weight(st[..|st| - 1])
  }

  lemma Push(t: Tree, st: seq<(nat, nat)>, e: (nat, nat), target: nat, levels: nat)
    requires TreeOf(t, levels) && StackOk(st, target, levels)
    requires AtLevel(e.0, e.1, levels) && target <= e.1 && |st| + e.1 <= levels
    ensures StackOk(st + [e], target, levels) && Weight(st + [e]) == 2 * Pow2(e.1) - 1 + Weight(st)
    ensures SearchStack(t, st + [e], target, levels) ==
            var r := FirstFree(t, e.0, e.1, target, levels); if r.Some? then r else SearchStack(t, st, target, levels)
  {
    assert (st + [e])[..|st|] == st;
  }

  /** Marking its way down from an unused node, the search has set every mark right but the one above
      node `i`, which is the left one of two unused children. */
  ghost predicate Falling(t0: Tree, t: Tree, i: nat) {
    && |t| == |t0| && |t| % 2 == 1 && i < |t| && i % 2 == 1 && t[i].Unused? && t0[i].Unused? && t[i + 1].Unused?
    && t[(i - 1) / 2].Split? && UsedNodes(t) == UsedNodes(t0)
    && (forall k: nat | 2 * k + 2 < |t| && k != (i - 1) / 2 :: NodeOk(t, k))
    && (forall k: nat | k < |t| <= 2 * k + 2 :: t[k].Unused? || t[k].Used?)
  }

  /** The tree has not been touched, and node `i` is the root or lies under a split node. */
  ghost predicate Looking(t0: Tree, t: Tree, i: nat) {
    t == t0 && Consistent(t) && i < |t| && (i > 0 ==> t[(i - 1) / 2].Split?)
  }

  lemma FallStep(t0: Tree, t: Tree, i: nat)
    requires Consistent(t0) && (Looking(t0, t, i) || Falling(t0, t, i)) && 2 * i + 2 < |t| && t[i].Unused?
    ensures Falling(t0, t[i := Split], 2 * i + 1)
  {
    var t' := t[i := Split];
    assert NodeOk(t, i) && NodeOk(t0, i);
    forall k: nat | 2 * k + 2 < |t'| && k != i ensures NodeOk(t', k) {
      if k == (i - 1) / 2 {
        assert Looking(t0, t, i) ==> NodeOk(t, k);
      } else {
        assert NodeOk(t, k);
      }
    }
  }

  /** Allocating the unused node `i` leaves at most its parent to be marked. */
  lemma Land(t0: Tree, t: Tree, i: nat)
    requires Consistent(t0) && (Looking(t0, t, i) || Falling(t0, t, i)) && t[i].Unused?
    ensures var t' := t[i := Used];
            && UsedNodes(t') == UsedNodes(t0) + {i}
            && (i == 0 ==> Consistent(t')) && (i > 0 ==> OkExcept(t', (i - 1) / 2))
  {
    var t' := t[i := Used];
    forall k: nat | 2 * k + 2 < |t'| && (i == 0 || k != (i - 1) / 2) ensures NodeOk(t', k) {
      assert NodeOk(t, k);
    }
    if i > 0 {
      var p := (i - 1) / 2;
      assert Looking(t0, t, i) ==> NodeOk(t, p);
    }
  }

  /** The parts of `Searching`; see `Unit` in Basics. */
  datatype Aspect = Stack | Marks | Goal

  ghost predicate SearchingIn(a: Aspect, t0: Tree, t: Tree, st: seq<(nat, nat)>, falling: bool, target: nat,
                              levels: nat)
    requires TreeOf(t0, levels) && target <= levels
  {
    && (a.Stack? ==> StackOk(st, target, levels))
    && (a.Marks? ==>
          && Consistent(t0) && |t| == |t0|
          && (!falling ==> t == t0 && forall k | 0 <= k < |st| :: Looking(t0, t, st[k].0))
          && (falling ==> st != [] && Falling(t0, t, st[|st| - 1].0)))
    && (a.Goal? ==> StackOk(st, target, levels) && SearchStack(t0, st, target, levels) == Lowest(t0, target, levels))
  }

  /** The stack search on the tree that was `t0`: searching what is on the stack finds what searching the
      whole of `t0` finds. */
  ghost predicate Searching(t0: Tree, t: Tree, st: seq<(nat, nat)>, falling: bool, target: nat, levels: nat)
    requires TreeOf(t0, levels) && target <= levels
  {
    forall a: Aspect :: SearchingIn(a, t0, t, st, falling, target, levels)
  }

  lemma SearchStart(t: Tree, target: nat, levels: nat)
    requires TreeOf(t, levels) && target <= levels && Consistent(t)
    ensures Searching(t, t, [(0, levels)], false, target, levels)
  {
    assert Pow2(0) == 1;
    Push(t, [], (0, levels), target, levels);
    assert [] + [(0, levels)] == [(0, levels)];
  }

  lemma Top(t0: Tree, t: Tree, st: seq<(nat, nat)>, falling: bool, target: nat, levels: nat)
    requires TreeOf(t0, levels) && target <= levels && st != [] && Searching(t0, t, st, falling, target, levels)
    ensures var (i, c) := st[|st| - 1];
            && |t| == |t0| && i < |t| && AtLevel(i, c, levels) && target <= c && |st| + c <= levels + 1
            && (c > 0 ==> 2 * i + 2 < |t|)
  {
    assert SearchingIn(Stack, t0, t, st, falling, target, levels);
    assert SearchingIn(Marks, t0, t, st, falling, target, levels);
    LevelBounds(t0, st[|st| - 1].0, st[|st| - 1].1, levels);
  }

  lemma Stopped(t0: Tree, t: Tree, falling: bool, target: nat, levels: nat)
    requires TreeOf(t0, levels) && target <= levels && Searching(t0, t, [], falling, target, levels)
    ensures t == t0 && Lowest(t0, target, levels).None?
  {
    assert SearchingIn(Marks, t0, t, [], falling, target, levels);
    assert SearchingIn(Goal, t0, t, [], falling, target, levels);
  }

  /** A node with nothing to give is dropped from the stack. */
  lemma Drop(t0: Tree, t: Tree, st: seq<(nat, nat)>, falling: bool, target: nat, levels: nat)
    requires TreeOf(t0, levels) && target <= levels && st != [] && Searching(t0, t, st, falling, target, levels)
    requires var (i, c) := st[|st| - 1]; i < |t| && (Taken(t[i]) || (c == target && !t[i].Unused?))
    ensures !falling && Searching(t0, t, st[..|st| - 1], false, target, levels)
    ensures Weight(st[..|st| - 1]) < Weight(st)
  {
    Top(t0, t, st, falling, target, levels);
    assert SearchingIn(Stack, t0, t, st, falling, target, levels);
    assert SearchingIn(Marks, t0, t, st, falling, target, levels);
    assert SearchingIn(Goal, t0, t, st, falling, target, levels);
  }

  /** Searching an unused node is searching its left half. */
  lemma DescendStack(t: Tree, st: seq<(nat, nat)>, i: nat, c: nat, target: nat, levels: nat)
    requires TreeOf(t, levels) && Consistent(t) && StackOk(st, target, levels) && AtLevel(i, c, levels)
    requires |st| + c <= levels && i < |t| && t[i].Unused? && target < c
    ensures var st0, st' := st + [(i, c)], st + [(2 * i + 1, c - 1)];
            && StackOk(st0, target, levels) && StackOk(st', target, levels) && Weight(st') < Weight(st0)
            && SearchStack(t, st', target, levels) == SearchStack(t, st0, target, levels)
  {
    LevelBounds(t, i, c, levels);
    Push(t, st, (i, c), target, levels);
    Push(t, st, (2 * i + 1, c - 1), target, levels);
    UnusedFinds(t, i, c, target, levels);
  }

  lemma DescendMarks(t0: Tree, t: Tree, st: seq<(nat, nat)>, falling: bool, target: nat, levels: nat)
    requires TreeOf(t0, levels) && target <= levels && st != [] && Searching(t0, t, st, falling, target, levels)
    requires var (i, c) := st[|st| - 1]; i < |t| && t[i].Unused? && target < c
    ensures var (i, c) := st[|st| - 1];
            && |t| == |t0| && t0[i].Unused? && Consistent(t0)
            && SearchingIn(Marks, t0, t[i := Split], st[..|st| - 1] + [(2 * i + 1, c - 1)], true, target, levels)
  {
    Top(t0, t, st, falling, target, levels);
    assert SearchingIn(Marks, t0, t, st, falling, target, levels);
    FallStep(t0, t, st[|st| - 1].0);
  }

  /** An unused node above the target level is split, and its left half searched. */
  lemma Descend(t0: Tree, t: Tree, st: seq<(nat, nat)>, falling: bool, target: nat, levels: nat)
    requires TreeOf(t0, levels) && target <= levels && st != [] && Searching(t0, t, st, falling, target, levels)
    requires var (i, c) := st[|st| - 1]; i < |t| && t[i].Unused? && target < c
    ensures var (i, c) := st[|st| - 1];
            var st' := st[..|st| - 1] + [(2 * i + 1, c - 1)];
            Searching(t0, t[i := Split], st', true, target, levels) && Weight(st') < Weight(st)
  {
    var (i, c) := st[|st| - 1];
    var rest := st[..|st| - 1];
    var st' := rest + [(2 * i + 1, c - 1)];
    Top(t0, t, st, falling, target, levels);
    assert st == rest + [(i, c)];
    DescendMarks(t0, t, st, falling, target, levels);
    assert StackOk(rest, target, levels) by {
      assert SearchingIn(Stack, t0, t, st, falling, target, levels);
    }
    DescendStack(t0, rest, i, c, target, levels);
    assert SearchingIn(Goal, t0, t[i := Split], st', true, target, levels) by {
      assert SearchingIn(Goal, t0, t, st, falling, target, levels);
    }
  }

  /** Searching a split node is searching its left half and then its right one. */
  lemma BranchStack(t: Tree, st: seq<(nat, nat)>, i: nat, c: nat, target: nat, levels: nat)
    requires TreeOf(t, levels) && StackOk(st, target, levels) && AtLevel(i, c, levels) && |st| + c <= levels
    requires i < |t| && t[i].Split? && target < c
    ensures var st0, st' := st + [(i, c)], st + [(2 * i + 2, c - 1)] + [(2 * i + 1, c - 1)];
            && StackOk(st0, target, levels) && StackOk(st', target, levels) && Weight(st') < Weight(st0)
            && SearchStack(t, st', target, levels) == SearchStack(t, st0, target, levels)
  {
    LevelBounds(t, i, c, levels);
    Push(t, st, (i, c), target, levels);
    Push(t, st, (2 * i + 2, c - 1), target, levels);
    Push(t, st + [(2 * i + 2, c - 1)], (2 * i + 1, c - 1), target, levels);
  }

  /** The halves of a split node lie under it, and nothing else is new on the stack. */
  lemma BranchLooking(t: Tree, st: seq<(nat, nat)>, i: nat, c: nat)
    requires Consistent(t) && 2 * i + 2 < |t| && t[i].Split? && c > 0
    requires forall k | 0 <= k < |st| :: Looking(t, t, st[k].0)
    ensures var st' := st + [(2 * i + 2, c - 1)] + [(2 * i + 1, c - 1)];
            forall k | 0 <= k < |st'| :: Looking(t, t, st'[k].0)
  {
  }

  /** The halves of a split node are searched, the left one first. */
  lemma Branch(t0: Tree, t: Tree, st: seq<(nat, nat)>, falling: bool, target: nat, levels: nat)
    requires TreeOf(t0, levels) && target <= levels && st != [] && Searching(t0, t, st, falling, target, levels)
    requires var (i, c) := st[|st| - 1]; i < |t| && t[i].Split? && target < c
    ensures var (i, c) := st[|st| - 1];
            var st' := st[..|st| - 1] + [(2 * i + 2, c - 1)] + [(2 * i + 1, c - 1)];
            !falling && Searching(t0, t, st', false, target, levels) && Weight(st') < Weight(st)
  {
    var (i, c) := st[|st| - 1];
    var rest := st[..|st| - 1];
    Top(t0, t, st, falling, target, levels);
    assert st == rest + [(i, c)];
    assert SearchingIn(Marks, t0, t, st, falling, target, levels);
    assert !falling && t == t0;
    assert StackOk(rest, target, levels) by {
      assert SearchingIn(Stack, t0, t, st, falling, target, levels);
    }
    BranchStack(t0, rest, i, c, target, levels);
    BranchLooking(t0, rest, i, c);
    var st' := rest + [(2 * i + 2, c - 1)] + [(2 * i + 1, c - 1)];
    assert SearchingIn(Goal, t0, t, st', false, target, levels) by {
      assert SearchingIn(Goal, t0, t, st, falling, target, levels);
    }
  }

  /** An unused node of the target level is the one to allocate. */
  lemma Hit(t0: Tree, t: Tree, st: seq<(nat, nat)>, falling: bool, target: nat, levels: nat)
    requires TreeOf(t0, levels) && target <= levels && st != [] && Searching(t0, t, st, falling, target, levels)
    requires var (i, c) := st[|st| - 1]; i < |t| && t[i].Unused? && c == target
    ensures var i := st[|st| - 1].0;
            var t' := t[i := Used];
            && Lowest(t0, target, levels) == Some(i) && UsedNodes(t') == UsedNodes(t0) + {i}
            && (i == 0 ==> Consistent(t')) && (i > 0 ==> OkExcept(t', (i - 1) / 2))
  {
    Top(t0, t, st, falling, target, levels);
    assert SearchingIn(Stack, t0, t, st, falling, target, levels);
    assert SearchingIn(Marks, t0, t, st, falling, target, levels);
    assert SearchingIn(Goal, t0, t, st, falling, target, levels);
    Land(t0, t, st[|st| - 1].0);
  }

  /** What the recursive search leaves: the node it found is allocated, and at most the parent of `idx`
      still has to be marked Full; on its way down from an unused node it touched nothing else. */
  ghost predicate FoundUnder(t0: Tree, t: Tree, t': Tree, idx: nat, found: Option<nat>, target: nat, levels: nat,
                             r: int) {
    forall u: Unit :: FoundUnderIn(u, t0, t, t', idx, found, target, levels, r)
  }

  /** What `FoundUnder` says; see `Unit` in Basics. */
  ghost predicate FoundUnderIn(u: Unit, t0: Tree, t: Tree, t': Tree, idx: nat, found: Option<nat>, target: nat,
                               levels: nat, r: int) {
    match found
    case None => r == -1 && t' == t
    case Some(j) =>
      && |t'| == |t| && UsedNodes(t') == UsedNodes(t0) + {j} && AtLevel(j, target, levels)
      && r == OffsetOf(j, target, levels)
      && (idx == 0 ==> Consistent(t')) && (idx > 0 ==> OkExcept(t', (idx - 1) / 2))
      && (idx < |t| && t[idx].Unused? ==> forall k: nat | k < |t| && !Above(idx, k) :: t'[k] == t[k])
  }

  lemma Fallen(t0: Tree, t: Tree, t': Tree, idx: nat, found: Option<nat>, target: nat, levels: nat, r: int)
    requires 2 * idx + 2 < |t| && Falling(t0, t[idx := Split], 2 * idx + 1)
    requires found.Some? && FoundUnder(t0, t[idx := Split], t', 2 * idx + 1, found, target, levels, r)
    ensures FoundUnder(t0, t, t', idx, found, target, levels, r)
  {
    assert FoundUnderIn(Unit, t0, t[idx := Split], t', 2 * idx + 1, found, target, levels, r);
    assert !Above(2 * idx + 1, idx);
    assert !Above(2 * idx + 1, 2 * idx + 2);
    assert NodeOk(t', idx);
    forall k: nat | k < |t| && !Above(idx, k) ensures t'[k] == t[k] {
      AboveChild(idx, k);
    }
  }

  lemma HalvesReady(t: Tree, idx: nat, c: nat, levels: nat)
    requires TreeOf(t, levels) && AtLevel(idx, c, levels) && c > 0 && Looking(t, t, idx) && t[idx].Split?
    ensures 2 * idx + 2 < |t| && AtLevel(2 * idx + 1, c - 1, levels) && AtLevel(2 * idx + 2, c - 1, levels)
    ensures Looking(t, t, 2 * idx + 1) && Looking(t, t, 2 * idx + 2)
  {
    LevelBounds(t, idx, c, levels);
  }

  lemma HalvesFind(t: Tree, idx: nat, c: nat, target: nat, levels: nat)
    requires TreeOf(t, levels) && AtLevel(idx, c, levels) && target < c && idx < |t| && t[idx].Split?
    requires AtLevel(2 * idx + 1, c - 1, levels) && AtLevel(2 * idx + 2, c - 1, levels)
    ensures var left := FirstFree(t, 2 * idx + 1, c - 1, target, levels);
            FirstFree(t, idx, c, target, levels) ==
            if left.Some? then left else FirstFree(t, 2 * idx + 2, c - 1, target, levels)
  {
  }

  /** Searching one of the halves found `found`, and allocated it. */
  ghost predicate HalfFound(t0: Tree, t: Tree, found: Option<nat>, target: nat, levels: nat, r: int) {
    match found
    case None => r == -1 && t == t0
    case Some(j) =>
      AtLevel(j, target, levels) && r == OffsetOf(j, target, levels) && UsedNodes(t) == UsedNodes(t0) + {j}
  }

  /** Searching a half of a split node leaves at most that node to be marked Full. */
  lemma UnderHalf(t0: Tree, t: Tree, idx: nat, child: nat, found: Option<nat>, target: nat, levels: nat, r: int)
    requires Consistent(t0) && 2 * idx + 2 < |t0| && t0[idx].Split? && (child == 2 * idx + 1 || child == 2 * idx + 2)
    requires FoundUnder(t0, t0, t, child, found, target, levels, r)
    ensures |t| == |t0| && OkExcept(t, idx) && HalfFound(t0, t, found, target, levels, r)
  {
    assert FoundUnderIn(Unit, t0, t0, t, child, found, target, levels, r);
    assert NodeOk(t0, idx);
    assert (child - 1) / 2 == idx;
  }

  lemma AfterHalf(t0: Tree, t: Tree, idx: nat, found: Option<nat>, target: nat, levels: nat, r: int)
    requires Consistent(t0) && |t| == |t0| && idx < |t0| && t0[idx].Split? && Consistent(t)
    requires match found
             case None => r == -1 && UsedNodes(t) == UsedNodes(t0)
             case Some(j) =>
               AtLevel(j, target, levels) && r == OffsetOf(j, target, levels) && UsedNodes(t) == UsedNodes(t0) + {j}
    ensures FoundUnder(t0, t0, t, idx, found, target, levels, r)
  {
    if found.None? {
      UsedDetermines(t0, t);
    } else if idx > 0 {
      assert 2 * ((idx - 1) / 2) + 2 < |t|;
    }
  }

  function Log2(n: nat): (k: nat)
    ensures n > 0 ==> Pow2(k) <= n < 2 * Pow2(k)
  {
    if n < 2 then 0 else Log2(n / 2) + 1
  }

  lemma Pow2Strict(a: nat, b: nat)
    requires a < b
    ensures 2 * Pow2(a) <= Pow2(b)
  {
    Pow2Monotone(a + 1, b);
  }

  lemma LogOfPower(a: nat, b: nat)
    requires Pow2(b) <= Pow2(a) < 2 * Pow2(b)
    ensures a == b
  {
    if a < b {
      Pow2Strict(a, b);
    } else if b < a {
      Pow2Strict(b, a);
    }
  }

  // Release.

  /** Node `i` has just come free, whole or in part, and every mark is right but that of its parent. */
  ghost predicate Releasing(t: Tree, i: nat) {
    && |t| % 2 == 1 && i < |t| && !Taken(t[i])
    && (i > 0 ==> t[(i - 1) / 2].Split? || t[(i - 1) / 2].Full?)
    && (forall k: nat | 2 * k + 2 < |t| && (i == 0 || k != (i - 1) / 2) :: NodeOk(t, k))
    && (forall k: nat | k < |t| <= 2 * k + 2 :: t[k].Unused? || t[k].Used?)
  }

  lemma ReleaseStart(t: Tree, i: nat)
    requires Consistent(t) && i < |t| && t[i].Used?
    ensures Releasing(t[i := Unused], i) && UsedNodes(t[i := Unused]) == UsedNodes(t) - {i}
  {
    var t' := t[i := Unused];
    forall k: nat | 2 * k + 2 < |t'| && (i == 0 || k != (i - 1) / 2) ensures NodeOk(t', k) {
      assert NodeOk(t, k);
    }
    if i > 0 {
      assert NodeOk(t, (i - 1) / 2);
    }
  }

  lemma ReleaseStep(t: Tree, i: nat, mark: Mark)
    requires Releasing(t, i) && i > 0
    requires var p := (i - 1) / 2;
             2 * p + 2 < |t| ==> mark == if t[2 * p + 1].Unused? && t[2 * p + 2].Unused? then Unused else Split
    ensures var p := (i - 1) / 2;
            2 * p + 2 < |t| && Releasing(t[p := mark], p) && UsedNodes(t[p := mark]) == UsedNodes(t)
  {
    var p := (i - 1) / 2;
    var t' := t[p := mark];
    forall k: nat | 2 * k + 2 < |t'| && (p == 0 || k != (p - 1) / 2) ensures NodeOk(t', k) {
      if k != p {
        assert NodeOk(t, k);
      }
    }
    if p > 0 {
      assert NodeOk(t, (p - 1) / 2);
    }
  }

  /** The parent of a node has two children in the tree. */
  lemma ParentInside(t: Tree, i: nat)
    requires |t| % 2 == 1 && 0 < i < |t|
    ensures 2 * ((i - 1) / 2) + 2 < |t| && (i + 1) / 2 - 1 == (i - 1) / 2
  {
  }

  const STACK_LEN: nat := 28

  class BuddyAllocator {
    const levels: nat
    const size: nat
    const root: nat
    const tree: array<Mark>

    ghost predicate Valid()
      reads this, tree
    {
      tree.Length == size == 2 * Pow2(levels) - 1 && Consistent(tree[..])
    }

    /** The allocator over zeroed memory at `addr`. */
    constructor (levels: nat, addr: nat)
      ensures Valid() && this.levels == levels && root == addr && fresh(tree)
      ensures forall i | 0 <= i < tree.Length :: tree[i] == Unused
    {
      this.levels := levels;
      this.size := 2 * Pow2(levels) - 1;
      this.root := addr;
      tree := new Mark[2 * Pow2(levels) - 1](_ => Unused);
    }

    /** Marks as Full, from `idx` upwards, the nodes that have nothing left to give. */
    method CheckParentFull(idx: nat)
      requires OkExcept(tree[..], idx)
      modifies tree
      ensures Consistent(tree[..]) && UsedNodes(tree[..]) == old(UsedNodes(tree[..]))
    {
      var i: nat := idx;
      while i != 0
        invariant OkExcept(tree[..], i) && UsedNodes(tree[..]) == old(UsedNodes(tree[..]))
      {
        ghost var t := tree[..];
        Mend(t, i);
        if Taken(tree[2 * i + 1]) && Taken(tree[2 * i + 2]) {
          tree[i] := Full;
          assert tree[..] == t[i := Full];
        }
        i := (i + 1) / 2 - 1;
      }
      RootMended(tree[..]);
    }

    /** Marks Full what is full on the way from an allocated node to the root. */
    method CheckParents(idx: nat)
      requires idx > 0 ==> OkExcept(tree[..], (idx - 1) / 2)
      requires idx == 0 ==> Consistent(tree[..])
      modifies tree
      ensures Consistent(tree[..]) && UsedNodes(tree[..]) == old(UsedNodes(tree[..]))
    {
      if idx != 0 {
        var parent: nat := (idx + 1) / 2 - 1;
        while true
          invariant 2 * parent + 2 < tree.Length && OkExcept(tree[..], parent)
          invariant UsedNodes(tree[..]) == old(UsedNodes(tree[..]))
          decreases parent
        {
          CheckParentFull(parent);
          if parent == 0 {
            break;
          }
          parent := (parent + 1) / 2 - 1;
        }
      }
    }

    /** Allocates the node the search has come to. */
    method Take(idx: nat)
      requires idx < tree.Length
      requires idx > 0 ==> OkExcept(tree[..][idx := Used], (idx - 1) / 2)
      requires idx == 0 ==> Consistent(tree[..][idx := Used])
      modifies tree
      ensures Consistent(tree[..]) && UsedNodes(tree[..]) == UsedNodes(old(tree[..])[idx := Used])
    {
      tree[idx] := Used;
      assert tree[..] == old(tree[..])[idx := Used];
      CheckParents(idx);
    }

    method PushEntry(stack: array<(nat, nat)>, top: nat, e: (nat, nat))
      requires top < stack.Length
      modifies stack
      ensures stack[..top + 1] == old(stack[..top]) + [e]
    {
      stack[top] := e;
    }

    /** Splits the unused node on top of the stack, and puts its left half there. */
    method VisitUnused(stack: array<(nat, nat)>, top: nat, target: nat, ghost t0: Tree, ghost falling: bool)
        returns (top': nat)
      requires tree.Length == |t0| && TreeOf(t0, levels) && target <= levels && levels - target < stack.Length
      requires 0 < top <= stack.Length && Searching(t0, tree[..], stack[..top], falling, target, levels)
      requires stack[top - 1].0 < tree.Length && tree[stack[top - 1].0].Unused? && target < stack[top - 1].1
      modifies stack, tree
      ensures top' == top && Searching(t0, tree[..], stack[..top'], true, target, levels)
      ensures Weight(stack[..top']) < old(Weight(stack[..top]))
    {
      ghost var t, st := tree[..], stack[..top];
      var (idx, level) := stack[top - 1];
      Descend(t0, t, st, falling, target, levels);
      assert stack[..top - 1] == st[..top - 1];
      tree[idx] := Split;
      assert tree[..] == t[idx := Split];
      PushEntry(stack, top - 1, (2 * idx + 1, level - 1));
      top' := top;
    }

    /** Puts the halves of the split node on top of the stack there, the left one last. */
    method VisitSplit(stack: array<(nat, nat)>, top: nat, target: nat, ghost t0: Tree, ghost falling: bool)
        returns (top': nat)
      requires tree.Length == |t0| && TreeOf(t0, levels) && target <= levels && levels - target < stack.Length
      requires 0 < top < stack.Length && Searching(t0, tree[..], stack[..top], falling, target, levels)
      requires stack[top - 1].0 < tree.Length && tree[stack[top - 1].0].Split? && target < stack[top - 1].1
      modifies stack
      ensures top' == top + 1 && Searching(t0, tree[..], stack[..top'], false, target, levels)
      ensures Weight(stack[..top']) < old(Weight(stack[..top]))
    {
      ghost var st := stack[..top];
      var (idx, level) := stack[top - 1];
      Branch(t0, tree[..], st, falling, target, levels);
      assert stack[..top - 1] == st[..top - 1];
      PushEntry(stack, top - 1, (2 * idx + 2, level - 1));
      PushEntry(stack, top, (2 * idx + 1, level - 1));
      top' := top + 1;
    }

    /** Visits the node on top of the stack, above the target level: drops it, splits it or puts its
        halves on the stack. */
    method Visit(stack: array<(nat, nat)>, top: nat, target: nat, ghost t0: Tree, ghost falling: bool)
        returns (top': nat, ghost falling': bool)
      requires tree.Length == |t0| && TreeOf(t0, levels) && target <= levels && levels - target < stack.Length
      requires 0 < top <= stack.Length && Searching(t0, tree[..], stack[..top], falling, target, levels)
      requires stack[top - 1].1 != target
      modifies stack, tree
      ensures top' <= levels - target + 1 && Searching(t0, tree[..], stack[..top'], falling', target, levels)
      ensures Weight(stack[..top']) < old(Weight(stack[..top]))
    {
      Top(t0, tree[..], stack[..top], falling, target, levels);
      var idx := stack[top - 1].0;
      match tree[idx]
      case Unused =>
        top' := VisitUnused(stack, top, target, t0, falling);
        falling' := true;
      case Split =>
        top' := VisitSplit(stack, top, target, t0, falling);
        falling' := false;
      case _ =>
        Drop(t0, tree[..], stack[..top], falling, target, levels);
        assert stack[..top - 1] == stack[..top][..top - 1];
        top', falling' := top - 1, false;
    }

    /** The search with a stack of fixed size: allocates the lowest free block of 2^target pages. */
    method AllocWithStack(target: nat) returns (r: int)
      requires Valid() && levels < STACK_LEN && target <= levels
      modifies tree
      ensures Valid() && Allocated(old(tree[..]), tree[..], target, levels, r)
    {
      ghost var t0, falling := tree[..], false;
      var stack := new (nat, nat)[STACK_LEN](_ => (0, 0));
      var top: nat := 0;
      stack[top] := (0, levels);
      top := top + 1;
      SearchStart(t0, target, levels);
      assert stack[..top] == [(0, levels)];
      while top > 0
        invariant top <= levels - target + 1 <= STACK_LEN && tree.Length == |t0|
        invariant Searching(t0, tree[..], stack[..top], falling, target, levels)
        decreases Weight(stack[..top])
      {
        Top(t0, tree[..], stack[..top], falling, target, levels);
        var (idx, level) := stack[top - 1];
        if level != target {
          top, falling := Visit(stack, top, target, t0, falling);
        } else if tree[idx].Unused? {
          Hit(t0, tree[..], stack[..top], falling, target, levels);
          Take(idx);
          return OffsetOf(idx, level, levels);
        } else {
          Drop(t0, tree[..], stack[..top], falling, target, levels);
          assert stack[..top - 1] == stack[..top][..top - 1];
          top := top - 1;
        }
      }
      assert stack[..top] == [];
      Stopped(t0, tree[..], falling, target, levels);
      r := -1;
    }

    /** The recursive search below node `idx` of level `c`, on the tree that was `t0` when it began. */
    method Alloc(idx: nat, target: nat, c: nat, ghost t0: Tree) returns (r: int)
      requires TreeOf(t0, levels) && Consistent(t0) && AtLevel(idx, c, levels) && target <= c
      requires Looking(t0, tree[..], idx) || Falling(t0, tree[..], idx)
      modifies tree
      ensures FoundUnder(t0, old(tree[..]), tree[..], idx, FirstFree(t0, idx, c, target, levels), target, levels, r)
      decreases c, 1
    {
      ghost var t := tree[..];
      LevelBounds(t0, idx, c, levels);
      if c == target {
        if tree[idx].Unused? {
          Land(t0, t, idx);
          tree[idx] := Used;
          assert tree[..] == t[idx := Used];
          return OffsetOf(idx, c, levels);
        } else {
          return -1;
        }
      }
      match tree[idx]
      case Used =>
        return -1;
      case Full =>
        return -1;
      case Unused =>
        FallStep(t0, t, idx);
        tree[idx] := Split;
        assert tree[..] == t[idx := Split];
        r := Alloc(2 * idx + 1, target, c - 1, t0);
        UnusedFinds(t0, 2 * idx + 1, c - 1, target, levels);
        Fallen(t0, t, tree[..], idx, FirstFree(t0, 2 * idx + 1, c - 1, target, levels), target, levels, r);
      case Split =>
        r := AllocSplit(idx, target, c, t0);
    }

    /** The recursive search below a split node. */
    method AllocSplit(idx: nat, target: nat, c: nat, ghost t0: Tree) returns (r: int)
      requires TreeOf(t0, levels) && AtLevel(idx, c, levels) && target < c
      requires Looking(t0, tree[..], idx) && t0[idx].Split?
      modifies tree
      ensures FoundUnder(t0, t0, tree[..], idx, FirstFree(t0, idx, c, target, levels), target, levels, r)
      decreases c, 0, 1
    {
      r := AllocHalves(idx, target, c, t0);
      CheckParentFull(idx);
      AfterHalf(t0, tree[..], idx, FirstFree(t0, idx, c, target, levels), target, levels, r);
    }

    /** The two halves of a split node, the right one only if the left one has nothing to give. */
    method AllocHalves(idx: nat, target: nat, c: nat, ghost t0: Tree) returns (r: int)
      requires TreeOf(t0, levels) && AtLevel(idx, c, levels) && target < c
      requires Looking(t0, tree[..], idx) && t0[idx].Split?
      modifies tree
      ensures |t0| == tree.Length && OkExcept(tree[..], idx)
      ensures HalfFound(t0, tree[..], FirstFree(t0, idx, c, target, levels), target, levels, r)
      decreases c, 0, 0
    {
      HalvesReady(t0, idx, c, levels);
      HalvesFind(t0, idx, c, target, levels);
      r := AllocHalf(idx, 2 * idx + 1, target, c, t0);
      if r == -1 {
        r := AllocHalf(idx, 2 * idx + 2, target, c, t0);
      }
    }

    method AllocHalf(ghost idx: nat, child: nat, target: nat, c: nat, ghost t0: Tree) returns (r: int)
      requires target < c && TreeOf(t0, levels) && AtLevel(child, c - 1, levels) && 2 * idx + 2 < |t0| && t0[idx].Split?
      requires tree[..] == t0 && Looking(t0, t0, child) && (child == 2 * idx + 1 || child == 2 * idx + 2)
      modifies tree
      ensures |t0| == tree.Length && OkExcept(tree[..], idx)
      ensures HalfFound(t0, tree[..], FirstFree(t0, child, c - 1, target, levels), target, levels, r)
      decreases c - 1, 2
    {
      r := Alloc(child, target, c - 1, t0);
      UnderHalf(t0, tree[..], idx, child, FirstFree(t0, child, c - 1, target, levels), target, levels, r);
    }

    /** The recursive search from the root. */
    method AllocRecursively(target: nat) returns (r: int)
      requires Valid() && target <= levels
      modifies tree
      ensures Valid() && Allocated(old(tree[..]), tree[..], target, levels, r)
    {
      assert Pow2(0) == 1;
      ghost var t := tree[..];
      r := Alloc(0, target, levels, t);
      assert FoundUnderIn(Unit, t, t, tree[..], 0, FirstFree(t, 0, levels, target, levels), target, levels, r);
    }

    /** The position of the most significant bit. */
    method LogBase2(n: nat) returns (exp: nat)
      requires n > 0
      ensures Pow2(exp) <= n < 2 * Pow2(exp)
    {
      exp := 0;
      var rest: nat := n / 2;
      while rest > 0
        invariant Log2(n) == exp + if rest == 0 then 0 else 1 + Log2(rest)
      {
        rest := rest / 2;
        exp := exp + 1;
      }
    }

    /** The level of the blocks that serve a request for `n` pages. */
    method LevelFromNumPages(n: nat) returns (k: nat)
      requires n <= 0x8000_0000_0000_0000
      ensures k == LevelOf(n)
    {
      var requested := if n == 0 then 1 else Pow2(LevelOf(n));
      k := LogBase2(requested);
      LogOfPower(if n == 0 then 0 else LevelOf(n), k);
    }

    /** Serves a request for `numPages` pages: their offset, or -1. */
    method Allocate(numPages: nat) returns (r: int)
      requires Valid() && levels < STACK_LEN && numPages <= 0x8000_0000_0000_0000
      modifies tree
      ensures Valid() && Served(old(tree[..]), tree[..], numPages, levels, r)
    {
      var level := LevelFromNumPages(numPages);
      if level > levels {
        return -1;
      }
      r := AllocWithStack(level);
    }

    /** Releases the block of `numPages` pages that holds page `pageOffset`. Outside the refused range the
        offset must lie in the pool. */
    method Free(pageOffset: nat, numPages: nat) returns (ok: bool)
      requires Valid()
      requires root <= pageOffset <= root + size ||
               (numPages <= 0x8000_0000_0000_0000 && LevelOf(numPages) <= levels &&
                NodeOf(pageOffset, LevelOf(numPages), levels) < size)
      modifies tree
      ensures Valid()
      ensures Released(old(tree[..]), tree[..], root, pageOffset, LevelOf(numPages), levels, ok)
    {
      if root <= pageOffset <= root + size {
        return false;
      }
      var level := LevelFromNumPages(numPages);
      var idx: nat := NodeOf(pageOffset, level, levels);
      if !tree[idx].Used? {
        return false;
      }
      ghost var t := tree[..];
      ReleaseStart(t, idx);
      tree[idx] := Unused;
      assert tree[..] == t[idx := Unused];
      Coalesce(idx);
      ok := true;
    }

    /** Merges the halves that are both free, from node `start` up to the root. */
    method Coalesce(start: nat)
      requires Releasing(tree[..], start)
      modifies tree
      ensures Consistent(tree[..]) && UsedNodes(tree[..]) == old(UsedNodes(tree[..]))
    {
      var idx: nat := start;
      while idx != 0
        invariant Releasing(tree[..], idx) && UsedNodes(tree[..]) == old(UsedNodes(tree[..]))
      {
        idx := MarkParent(idx);
      }
    }

    /** Sets the mark of the parent of `idx` by its children. */
    method MarkParent(idx: nat) returns (parent: nat)
      requires Releasing(tree[..], idx) && idx > 0
      modifies tree
      ensures parent < idx && Releasing(tree[..], parent) && UsedNodes(tree[..]) == old(UsedNodes(tree[..]))
    {
      ghost var t := tree[..];
      ParentInside(t, idx);
      parent := (idx + 1) / 2 - 1;
      var mark := if tree[2 * parent + 1].Unused? && tree[2 * parent + 2].Unused? then Unused else Split;
      ReleaseStep(t, idx, mark);
      tree[parent] := mark;
      assert tree[..] == t[parent := mark];
    }
  }
}
