/** `IdAllocator`: the free ids of a range, kept as a map from the end of each gap to its length. */
module IdAllocator {
  import opened Basics
  import opened OrderedKeys

  type Gaps = map<nat, nat>

  /** `x` lies in the gap that ends at `e`. */
  predicate InGap(g: Gaps, e: nat, x: nat) {
    e in g && x <= e < x + g[e]
  }

  ghost predicate Free(g: Gaps, x: nat) {
    exists e :: InGap(g, e, x)
  }

  /** The gaps are the maximal runs of free ids of [lo, hi): they are not empty, lie in the range, and
      between two of them there is an id that is not free. */
  ghost predicate Maximal(g: Gaps, lo: nat, hi: nat) {
    && (forall e | e in g :: 0 < g[e] && lo + g[e] <= e + 1 && e < hi)
    && (forall e, d | e in g && d in g && e < d :: e + g[d] < d)
  }

  /** A gap ends where the run of free ids ends. */
  lemma GapEnds(g: Gaps, lo: nat, hi: nat, e: nat)
    requires Maximal(g, lo, hi)
    ensures e in g <==> Free(g, e) && !Free(g, e + 1)
  {
    if e in g {
      assert InGap(g, e, e);
    } else if Free(g, e) {
      var d :| InGap(g, d, e);
      assert InGap(g, d, e + 1);
    }
  }

  /** The free ids determine the map. */
  lemma GapsUnique(g: Gaps, g': Gaps, lo: nat, hi: nat)
    requires Maximal(g, lo, hi) && Maximal(g', lo, hi) && forall x: nat :: Free(g, x) <==> Free(g', x)
    ensures g == g'
  {
    forall e: nat ensures e in g <==> e in g' {
      GapEnds(g, lo, hi, e);
      GapEnds(g', lo, hi, e);
    }
    forall e | e in g ensures g[e] == g'[e] {
      SameLength(g, g', lo, hi, e);
      SameLength(g', g, lo, hi, e);
    }
  }

  lemma SameLength(g: Gaps, g': Gaps, lo: nat, hi: nat, e: nat)
    requires Maximal(g, lo, hi) && Maximal(g', lo, hi) && e in g && e in g' && g.Keys == g'.Keys
    requires forall x: nat :: Free(g, x) ==> Free(g', x)
    ensures g[e] <= g'[e]
  {
    if g'[e] < g[e] {
      var x: nat := e - g'[e];
      assert InGap(g, e, x) ==> Free(g, x);
    }
  }

  // Taking an id.

  function Put(g: Gaps, e: nat, length: nat): Gaps {
    g[e := length]
  }

  /** Taking `id` out of the gap that ends at `e`: what is left of the gap on the left of `id` becomes a gap,
      what is left on the right stays under its key. */
  function Taken(g: Gaps, e: nat, id: nat): Gaps
    requires InGap(g, e, id) && g[e] <= e + 1
  {
    var first := e + 1 - g[e];
    var right: Gaps := if e == id then g - {e} else g[e := e - id];
    if first < id then Put(right, id - 1, id - first) else right
  }

  lemma TakenLess(g: Gaps, lo: nat, hi: nat, e: nat, id: nat, x: nat)
    requires Maximal(g, lo, hi) && InGap(g, e, id) && Free(Taken(g, e, id), x)
    ensures Free(g, x) && x != id
  {
    var d: nat :| InGap(Taken(g, e, id), d, x);
    if d + 1 == id || d == e {
      assert InGap(g, e, x);
    } else {
      assert InGap(g, d, x);
    }
  }

  lemma TakenMore(g: Gaps, lo: nat, hi: nat, e: nat, id: nat, x: nat)
    requires Maximal(g, lo, hi) && InGap(g, e, id) && Free(g, x) && x != id
    ensures Free(Taken(g, e, id), x)
  {
    var d: nat :| InGap(g, d, x);
    if d == e && x < id {
      var left: nat := id - 1;
      assert InGap(Taken(g, e, id), left, x);
    } else {
      assert InGap(Taken(g, e, id), d, x);
    }
  }

  lemma TakenMaximal(g: Gaps, lo: nat, hi: nat, e: nat, id: nat)
    requires Maximal(g, lo, hi) && InGap(g, e, id)
    ensures Maximal(Taken(g, e, id), lo, hi)
  {
  }

  /** Taking an id out of a gap makes exactly that id not free. */
  lemma TakenRight(g: Gaps, lo: nat, hi: nat, e: nat, id: nat)
    requires Maximal(g, lo, hi) && InGap(g, e, id)
    ensures Maximal(Taken(g, e, id), lo, hi)
    ensures forall x: nat :: Free(Taken(g, e, id), x) <==> Free(g, x) && x != id
  {
    TakenMaximal(g, lo, hi, e, id);
    forall x: nat ensures Free(Taken(g, e, id), x) <==> Free(g, x) && x != id {
      if Free(Taken(g, e, id), x) {
        TakenLess(g, lo, hi, e, id, x);
      } else if Free(g, x) && x != id {
        TakenMore(g, lo, hi, e, id, x);
      }
    }
  }

  /** The gap that a search from `id` comes to first. */
  lemma FirstGap(g: Gaps, lo: nat, hi: nat, id: nat, k: Option<nat>)
    requires Maximal(g, lo, hi) && IsNext(g.Keys, id, k)
    ensures k.None? ==> forall x: nat | Free(g, x) :: x < id
    ensures k.Some? ==>
              var x := if k.value + 1 - g[k.value] < id then id else k.value + 1 - g[k.value];
              InGap(g, k.value, x) && id <= x && (forall y: nat | Free(g, y) && id <= y :: x <= y) &&
              (Free(g, id) <==> x == id)
  {
    forall y: nat | Free(g, y) && id <= y
      ensures k.Some? && k.value + 1 - g[k.value] <= y
    {
      var d :| InGap(g, d, y);
    }
    if k.Some? {
      var first := k.value + 1 - g[k.value];
      assert first < id ==> InGap(g, k.value, id);
      assert first >= id ==> InGap(g, k.value, first);
    }
  }

  // Releasing an id.

  /** The map after `id` is released, joined to the gap that ends before it and to the one that begins after
      it; `after` is the first key above `id`. */
  function Released(g: Gaps, id: nat, after: Option<nat>): Gaps
    requires after.Some? ==> after.value in g
  {
    if after.Some? && after.value + 1 - g[after.value] == id + 1
    then Put(Rest(g, id), after.value, g[after.value] + LeftLength(g, id) + 1)
    else Put(Rest(g, id), id, LeftLength(g, id) + 1)
  }

  /** The length of the gap that ends just before `id`. */
  function LeftLength(g: Gaps, id: nat): nat {
    if id > 0 && id - 1 in g then g[id - 1] else 0
  }

  function Rest(g: Gaps, id: nat): Gaps {
    if id > 0 then g - {id - 1} else g
  }

  ghost predicate FreedExactly(g: Gaps, g': Gaps, lo: nat, hi: nat, id: nat) {
    Maximal(g', lo, hi) && forall x: nat :: Free(g', x) <==> Free(g, x) || x == id
  }

  lemma PutMaximal(g: Gaps, lo: nat, hi: nat, e: nat, n: nat)
    requires Maximal(g, lo, hi) && 0 < n && lo + n <= e + 1 && e < hi
    requires forall d | d in g && d != e :: if d < e then d + n < e else e + g[d] < d
    ensures Maximal(Put(g, e, n), lo, hi)
  {
  }

  /** Without the gap that ends before `id`, there is room for that gap and `id` together. */
  lemma RestMaximal(g: Gaps, lo: nat, hi: nat, id: nat)
    requires Maximal(g, lo, hi) && lo <= id < hi && !Free(g, id)
    ensures Maximal(Rest(g, id), lo, hi) && lo + LeftLength(g, id) <= id
    ensures forall d | d in Rest(g, id) :: d in g && Rest(g, id)[d] == g[d] && d != id
    ensures forall d | d in Rest(g, id) :: if d < id then d + LeftLength(g, id) + 1 < id else id + g[d] <= d
  {
    forall e | e in g ensures e < id || id + g[e] <= e {
      assert !InGap(g, e, id);
    }
  }

  lemma ReleasedMaximal(g: Gaps, lo: nat, hi: nat, id: nat, after: Option<nat>)
    requires Maximal(g, lo, hi) && lo <= id < hi && IsNext(g.Keys, id + 1, after) && !Free(g, id)
    ensures Maximal(Released(g, id, after), lo, hi)
  {
    RestMaximal(g, lo, hi, id);
    var rest, left := Rest(g, id), LeftLength(g, id);
    if after.Some? && after.value + 1 - g[after.value] == id + 1 {
      PutMaximal(rest, lo, hi, after.value, g[after.value] + left + 1);
    } else {
      PutMaximal(rest, lo, hi, id, left + 1);
    }
  }

  lemma ReleasedMore(g: Gaps, lo: nat, hi: nat, id: nat, after: Option<nat>, x: nat)
    requires Maximal(g, lo, hi) && lo <= id < hi && IsNext(g.Keys, id + 1, after) && !Free(g, id)
    requires Free(g, x) || x == id
    ensures Free(Released(g, id, after), x)
  {
    var g' := Released(g, id, after);
    var e: nat := if after.Some? && after.value + 1 - g[after.value] == id + 1 then after.value else id;
    assert InGap(g', e, id);
    if x != id {
      var d: nat :| InGap(g, d, x);
      if d + 1 == id {
        assert id - 1 == d && id - 1 in g && g'[e] == g[d] + 1 + e - id;
        assert InGap(g', e, x);
      } else if d == e {
        assert InGap(g, id, id) ==> Free(g, id);
        assert InGap(g', e, x);
      } else {
        assert InGap(g', d, x);
      }
    }
  }

  lemma ReleasedLess(g: Gaps, lo: nat, hi: nat, id: nat, after: Option<nat>, x: nat)
    requires Maximal(g, lo, hi) && lo <= id < hi && IsNext(g.Keys, id + 1, after) && !Free(g, id)
    requires Free(Released(g, id, after), x) && x != id
    ensures Free(g, x)
  {
    var g' := Released(g, id, after);
    var e: nat := if after.Some? && after.value + 1 - g[after.value] == id + 1 then after.value else id;
    var d: nat :| InGap(g', d, x);
    if d == e && x < id {
      var before: nat := id - 1;
      assert InGap(g, before, x);
    } else {
      assert InGap(g, d, x);
    }
  }

  /** Releasing an id that is not free adds exactly that id. */
  lemma ReleasedRight(g: Gaps, lo: nat, hi: nat, id: nat, after: Option<nat>)
    requires Maximal(g, lo, hi) && lo <= id < hi && IsNext(g.Keys, id + 1, after) && !Free(g, id)
    ensures FreedExactly(g, Released(g, id, after), lo, hi, id)
  {
    ReleasedMaximal(g, lo, hi, id, after);
    forall x: nat ensures Free(Released(g, id, after), x) <==> Free(g, x) || x == id {
      if Free(g, x) || x == id {
        ReleasedMore(g, lo, hi, id, after, x);
      } else if Free(Released(g, id, after), x) {
        ReleasedLess(g, lo, hi, id, after, x);
      }
    }
  }

  /** Releasing an id that is free already. */
  lemma ReleasedAgain(g: Gaps, lo: nat, hi: nat, id: nat, after: Option<nat>)
    requires Maximal(g, lo, hi) && lo <= id < hi && IsNext(g.Keys, id + 1, after) && Free(g, id)
    ensures Released(g, id, after) == Put(g, id, 1)
    ensures FreedExactly(g, Released(g, id, after), lo, hi, id) <==> id in g && g[id] == 1
  {
    var e: nat :| InGap(g, e, id);
    InsideGap(g, lo, hi, e, id, after);
    if e != id {
      assert id in Put(g, id, 1) && e in Put(g, id, 1) && id < e;
    } else if g[id] == 1 {
      assert Put(g, id, 1) == g;
    } else {
      LostIds(g, lo, hi, id);
    }
  }

  /** An id inside a gap has no gap beside it. */
  lemma InsideGap(g: Gaps, lo: nat, hi: nat, e: nat, id: nat, after: Option<nat>)
    requires Maximal(g, lo, hi) && InGap(g, e, id) && IsNext(g.Keys, id + 1, after)
    ensures Released(g, id, after) == Put(g, id, 1)
  {
    assert Rest(g, id) == g && LeftLength(g, id) == 0;
  }

  /** Making the last id of a longer gap a gap of its own loses the others. */
  lemma LostIds(g: Gaps, lo: nat, hi: nat, id: nat)
    requires Maximal(g, lo, hi) && id in g && g[id] > 1
    ensures !FreedExactly(g, Put(g, id, 1), lo, hi, id)
  {
    var x: nat := id - 1;
    assert InGap(g, id, x);
    assert Free(g, x) && !Free(Put(g, id, 1), x);
  }

  /** A release leaves the gaps maximal and adds exactly the released id, if and only if that id was not free
      or was a gap by itself. */
  lemma ReleasedExactly(g: Gaps, lo: nat, hi: nat, id: nat, after: Option<nat>)
    requires Maximal(g, lo, hi) && lo <= id < hi && IsNext(g.Keys, id + 1, after)
    ensures FreedExactly(g, Released(g, id, after), lo, hi, id) <==> !Free(g, id) || (id in g && g[id] == 1)
  {
    if Free(g, id) {
      ReleasedAgain(g, lo, hi, id, after);
    } else {
      ReleasedRight(g, lo, hi, id, after);
    }
  }

  /** Releasing 4 when 3, 4 and 5 are free makes 4 a gap inside a gap; releasing 5 loses 3 and 4. */
  lemma ReleasedTwice()
    ensures !Maximal(Released(map[5 := 3], 4, Some(5)), 1, 10)
    ensures !Free(Released(map[5 := 3], 5, None), 3)
  {
    assert 4 in Released(map[5 := 3], 4, Some(5)) && 5 in Released(map[5 := 3], 4, Some(5));
  }

  /** Releasing an id that was just taken restores the map. */
  lemma TakeRelease(g: Gaps, lo: nat, hi: nat, e: nat, id: nat, after: Option<nat>)
    requires Maximal(g, lo, hi) && InGap(g, e, id) && IsNext(Taken(g, e, id).Keys, id + 1, after)
    ensures Released(Taken(g, e, id), id, after) == g
  {
    var g' := Taken(g, e, id);
    TakenRight(g, lo, hi, e, id);
    ReleasedRight(g', lo, hi, id, after);
    assert Free(g, id);
    GapsUnique(g, Released(g', id, after), lo, hi);
  }

  ghost function IdsOf(g: Gaps, lo: nat, hi: nat): set<nat> {
    set x: nat | lo <= x < hi && Free(g, x)
  }

  lemma IdsInRange(g: Gaps, lo: nat, hi: nat)
    requires Maximal(g, lo, hi)
    ensures forall x: nat :: x in IdsOf(g, lo, hi) <==> Free(g, x)
  {
  }

  lemma IdsExactly(g: Gaps, g': Gaps, lo: nat, hi: nat, id: nat)
    requires Maximal(g, lo, hi)
    ensures FreedExactly(g, g', lo, hi, id) <==>
            Maximal(g', lo, hi) && IdsOf(g', lo, hi) == IdsOf(g, lo, hi) + {id}
  {
    if Maximal(g', lo, hi) {
      IdsInRange(g, lo, hi);
      IdsInRange(g', lo, hi);
      if IdsOf(g', lo, hi) == IdsOf(g, lo, hi) + {id} {
        forall x: nat ensures Free(g', x) <==> Free(g, x) || x == id {
          assert x in IdsOf(g', lo, hi) <==> x in IdsOf(g, lo, hi) + {id};
        }
      }
    }
  }

  lemma TakenIds(g: Gaps, lo: nat, hi: nat, e: nat, id: nat)
    requires Maximal(g, lo, hi) && InGap(g, e, id)
    ensures Maximal(Taken(g, e, id), lo, hi) && IdsOf(Taken(g, e, id), lo, hi) == IdsOf(g, lo, hi) - {id}
  {
    TakenRight(g, lo, hi, e, id);
    IdsInRange(g, lo, hi);
    IdsInRange(Taken(g, e, id), lo, hi);
  }

  lemma FirstIds(g: Gaps, lo: nat, hi: nat, id: nat, k: Option<nat>)
    requires Maximal(g, lo, hi) && IsNext(g.Keys, id, k)
    ensures k.None? ==> forall y | y in IdsOf(g, lo, hi) :: y < id
    ensures k.Some? ==>
              var x := if k.value + 1 - g[k.value] < id then id else k.value + 1 - g[k.value];
              && InGap(g, k.value, x) && id <= x && x in IdsOf(g, lo, hi) && (id in IdsOf(g, lo, hi) <==> x == id)
              && (forall y | y in IdsOf(g, lo, hi) && id <= y :: x <= y)
  {
    IdsInRange(g, lo, hi);
    FirstGap(g, lo, hi, id, k);
    if k.Some? {
      var x: nat := if k.value + 1 - g[k.value] < id then id else k.value + 1 - g[k.value];
      assert Free(g, x);
    }
  }

  lemma ReleasedIds(g: Gaps, lo: nat, hi: nat, id: nat, after: Option<nat>)
    requires Maximal(g, lo, hi) && lo <= id < hi && IsNext(g.Keys, id + 1, after)
    ensures Maximal(Released(g, id, after), lo, hi) &&
            IdsOf(Released(g, id, after), lo, hi) == IdsOf(g, lo, hi) + {id} <==>
            id !in IdsOf(g, lo, hi) || (id in g && g[id] == 1)
  {
    IdsInRange(g, lo, hi);
    ReleasedExactly(g, lo, hi, id, after);
    IdsExactly(g, Released(g, id, after), lo, hi, id);
  }

  class IdAllocator {
    const start: nat
    const len: nat
    var gaps: Gaps
    var prevAllocatedId: nat

    ghost predicate Valid()
      reads this
    {
      0 < start && Maximal(gaps, start, start + len)
    }

    ghost function FreeIds(): set<nat>
      reads this
    {
      IdsOf(gaps, start, start + len)
    }

    /** The allocator of the ids from `start` on and below `start + len`. */
    constructor (start: nat, len: nat)
      requires 0 < start && 0 < len
      ensures Valid() && this.start == start && this.len == len && prevAllocatedId == start - 1
      ensures forall x: nat :: x in FreeIds() <==> start <= x < start + len
    {
      this.start := start;
      this.len := len;
      var end: nat := start + len - 1;
      gaps := map[end := len];
      prevAllocatedId := start - 1;
      new;
      forall x: nat | start <= x < start + len ensures Free(gaps, x) {
        assert InGap(gaps, start + len - 1, x);
      }
    }

    /** Makes `id` not free. If there is a gap at or after it, `id` must be free. */
    method Take(id: nat)
      requires Valid() && ((exists e :: e in gaps && id <= e) ==> id in FreeIds())
      modifies this`gaps
      ensures Valid() && FreeIds() == old(FreeIds()) - {id}
    {
      var gEnd := Next(gaps.Keys, id);
      FirstIds(gaps, start, start + len, id, gEnd);
      if gEnd.Some? {
        TakeFrom(gEnd.value, id);
      }
    }

    /** Takes `id` out of the gap that ends at `e`. */
    method TakeFrom(e: nat, id: nat)
      requires Valid() && InGap(gaps, e, id)
      modifies this`gaps
      ensures Valid() && FreeIds() == old(FreeIds()) - {id}
    {
      ghost var g := gaps;
      TakenIds(g, start, start + len, e, id);
      var first := e - (gaps[e] - 1);
      if gaps[e] == 1 {
        gaps := gaps - {e};
      } else {
        if e == id {
          gaps := gaps - {e};
        } else {
          gaps := Put(gaps, e, e - id);
        }
        if first < id {
          gaps := Put(gaps, id - 1, id - first);
        }
      }
      assert gaps == Taken(g, e, id);
    }

    /** Allocates the least free id at or above `id`. */
    method AllocAfterInternal(id: nat) returns (r: Option<nat>)
      requires Valid()
      modifies this`gaps
      ensures Valid()
      ensures match r
              case None => gaps == old(gaps) && forall y | y in FreeIds() :: y < id
              case Some(x) =>
                && x in old(FreeIds()) && id <= x && FreeIds() == old(FreeIds()) - {x}
                && forall y | y in old(FreeIds()) && id <= y :: x <= y
    {
      var gEnd := Next(gaps.Keys, id);
      FirstIds(gaps, start, start + len, id, gEnd);
      match gEnd
      case None =>
        r := None;
      case Some(e) =>
        var first: nat := e - (gaps[e] - 1);
        if first < id {
          Take(id);
          r := Some(id);
        } else {
          TakenIds(gaps, start, start + len, e, first);
          ghost var g := gaps;
          if gaps[e] > 1 {
            gaps := Put(gaps, e, gaps[e] - 1);
          } else {
            gaps := gaps - {e};
          }
          assert gaps == Taken(g, e, first);
          r := Some(first);
        }
    }

    method AllocFromStart() returns (r: Option<nat>)
      requires Valid()
      modifies this`gaps
      ensures Valid() && (r.None? <==> old(FreeIds()) == {}) && (r.None? ==> gaps == old(gaps))
      ensures r.Some? ==> r.value in old(FreeIds()) && FreeIds() == old(FreeIds()) - {r.value} &&
                          forall y | y in old(FreeIds()) :: r.value <= y
    {
      r := AllocAfterInternal(start);
      assert r.None? ==> FreeIds() == {};
    }

    /** Allocates the next free id after the one allocated before, or the first if there is none after it. */
    method AllocFromCurrent() returns (r: Option<nat>)
      requires Valid()
      modifies this
      ensures Valid() && (r.None? <==> old(FreeIds()) == {})
      ensures r.None? ==> gaps == old(gaps) && prevAllocatedId == old(prevAllocatedId)
      ensures r.Some? ==>
                && r.value in old(FreeIds()) && FreeIds() == old(FreeIds()) - {r.value}
                && prevAllocatedId == r.value
      ensures r.Some? ==> forall y | y in old(FreeIds()) && y < r.value ::
                            y <= old(prevAllocatedId) && old(prevAllocatedId) < r.value
      ensures r.Some? && r.value <= old(prevAllocatedId) ==>
                forall y | y in old(FreeIds()) :: r.value <= y <= old(prevAllocatedId)
    {
      r := AllocAfterInternal(prevAllocatedId + 1);
      if r.None? && prevAllocatedId != start - 1 {
        r := AllocFromStart();
      }
      assert r.None? ==> FreeIds() == {};
      if r.Some? {
        prevAllocatedId := r.value;
      }
    }

    /** Releases `id`. The ids free afterwards are those before and `id`, and the gaps are maximal, exactly when
        `id` was not free or was a gap by itself; outside the range nothing happens. */
    method FreeId(id: nat)
      requires Valid()
      modifies this`gaps
      ensures !(start <= id < start + len) ==> gaps == old(gaps)
      ensures start <= id < start + len ==>
                ((Valid() && FreeIds() == old(FreeIds()) + {id}) <==>
                 (id !in old(FreeIds()) || (id in old(gaps) && old(gaps)[id] == 1)))
      ensures start <= id < start + len ==>
                exists after :: IsNext(old(gaps.Keys), id + 1, after) && gaps == Released(old(gaps), id, after)
    {
      if !(start <= id < start + len) {
        return;
      }
      var after := Next(gaps.Keys, id + 1);
      ReleasedIds(gaps, start, start + len, id, after);
      Release(id, after);
    }

    /** Joins `id` to the gaps beside it. */
    method Release(id: nat, after: Option<nat>)
      requires after.Some? ==> after.value in gaps && after.value > id
      modifies this`gaps
      ensures gaps == Released(old(gaps), id, after)
    {
      var right := after.Some? && after.value == id + gaps[after.value];
      if id == 0 || id - 1 !in gaps {
        assert Rest(gaps, id) == gaps;
        if right {
          gaps := Put(gaps, after.value, gaps[after.value] + 1);
        } else {
          gaps := Put(gaps, id, 1);
        }
      } else {
        var left := gaps[id - 1];
        gaps := gaps - {id - 1};
        if right {
          gaps := Put(gaps, after.value, gaps[after.value] + left + 1);
        } else {
          gaps := Put(gaps, id, left + 1);
        }
      }
    }
  }
}
