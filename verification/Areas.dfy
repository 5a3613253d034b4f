/** Areas of addresses with data, keyed by their start, and what removing a range from them does. */
module Areas {
  import opened Basics

  datatype Area<T> = Area(len: nat, data: T)

  type AreaMap<T> = map<nat, Area<T>>

  /** The area that starts at `s` holds address `x`. */
  predicate Covers<T>(m: AreaMap<T>, s: nat, x: nat) {
    s in m && s <= x < s + m[s].len
  }

  ghost predicate Mapped<T>(m: AreaMap<T>, x: nat) {
    exists s: nat :: Covers(m, s, x)
  }

  /** The data at address `x`. */
  ghost function Lookup<T>(m: AreaMap<T>, x: nat): Option<T> {
    if Mapped(m, x) then
      var s: nat :| Covers(m, s, x);
      Some(m[s].data)
    else None
  }

  /** Areas are not empty and do not overlap. */
  ghost predicate Wf<T>(m: AreaMap<T>) {
    (forall s: nat | s in m :: 0 < m[s].len) &&
    (forall s: nat, t: nat | s in m && t in m && s < t :: s + m[s].len <= t)
  }

  lemma LookupIs<T>(m: AreaMap<T>, s: nat, x: nat)
    requires Wf(m) && Covers(m, s, x)
    ensures Lookup(m, x) == Some(m[s].data) && forall t: nat | Covers(m, t, x) :: t == s
  {
    assert Mapped(m, x);
    forall t: nat | Covers(m, t, x) ensures t == s {
    }
  }

  /** An area sticks out of both ends of the range. */
  ghost predicate Surrounded<T>(m: AreaMap<T>, start: nat, end: nat) {
    exists s: nat :: s in m && s < start && end < s + m[s].len
  }

  /** An area that starts in the range and sticks out at its end. */
  predicate Spills<T>(m: AreaMap<T>, start: nat, end: nat, s: nat) {
    s in m && start <= s < end < s + m[s].len
  }

  /** What is left of an area that starts before `start`. */
  function Cut<T>(s: nat, a: Area<T>, start: nat): Area<T> {
    if s < start < s + a.len then Area(start - s, a.data) else a
  }

  /** The areas that start in the range go, those that start before it are cut, and what sticks out at its end
      becomes an area of its own. */
  ghost predicate Removed<T>(m: AreaMap<T>, m': AreaMap<T>, start: nat, end: nat) {
    && (forall s: nat | s in m && !(start <= s < end) :: s in m' && m'[s] == Cut(s, m[s], start))
    && (forall s: nat | Spills(m, start, end, s) :: end in m' && m'[end] == Area(s + m[s].len - end, m[s].data))
    && (forall s: nat | s in m' ::
          (s in m && !(start <= s < end)) || (s == end && exists t: nat :: Spills(m, start, end, t)))
  }

  /** What `RemovedWell` says; see `Unit` in Basics. */
  ghost predicate RemovedWellIn<T>(u: Unit, m: AreaMap<T>, m': AreaMap<T>, start: nat, end: nat) {
    Removed(m, m', start, end) && Wf(m')
  }

  ghost predicate RemovedWell<T>(m: AreaMap<T>, m': AreaMap<T>, start: nat, end: nat) {
    forall u: Unit :: RemovedWellIn(u, m, m', start, end)
  }

  lemma RemovedWf<T>(m: AreaMap<T>, m': AreaMap<T>, start: nat, end: nat)
    requires Wf(m) && start <= end && Removed(m, m', start, end)
    ensures Wf(m')
  {
    forall s: nat, t: nat | s in m' && t in m' && s < t ensures s + m'[s].len <= t {
      if s !in m || start <= s < end {
        var u: nat :| Spills(m, start, end, u);
      }
      if t !in m || start <= t < end {
        var u: nat :| Spills(m, start, end, u);
      }
    }
  }

  /** Inside the range nothing is left. */
  lemma RemovedInside<T>(m: AreaMap<T>, m': AreaMap<T>, start: nat, end: nat, x: nat)
    requires Wf(m) && Removed(m, m', start, end) && start <= x < end
    ensures Lookup(m', x).None?
  {
    assert forall s: nat :: !Covers(m', s, x);
  }

  /** What is mapped outside the range after was mapped before. */
  lemma MappedBefore<T>(m: AreaMap<T>, m': AreaMap<T>, start: nat, end: nat, s: nat, x: nat)
    requires Removed(m, m', start, end) && Covers(m', s, x) && !(start <= x < end)
    ensures Mapped(m, x)
  {
    if s in m && !(start <= s < end) {
      assert Covers(m, s, x);
    } else {
      var u: nat :| Spills(m, start, end, u);
      assert Covers(m, u, x);
    }
  }

  /** Outside the range everything is left, if no area sticks out of both ends. */
  lemma RemovedOutside<T>(m: AreaMap<T>, m': AreaMap<T>, start: nat, end: nat, x: nat)
    requires Wf(m) && start <= end && Removed(m, m', start, end) && !Surrounded(m, start, end) && !(start <= x < end)
    ensures Lookup(m', x) == Lookup(m, x)
  {
    RemovedWf(m, m', start, end);
    if Mapped(m', x) {
      var s: nat :| Covers(m', s, x);
      MappedBefore(m, m', start, end, s, x);
    }
    if Mapped(m, x) {
      var s: nat :| Covers(m, s, x);
      LookupIs(m, s, x);
      var s' := if start <= s < end then end else s;
      assert start <= s < end ==> Spills(m, start, end, s);
      LookupIs(m', s', x);
    }
  }

  /** The part of a surrounding area after the range is lost. */
  lemma RemovedTooMuch<T>(m: AreaMap<T>, m': AreaMap<T>, start: nat, end: nat)
    requires Wf(m) && start <= end && Removed(m, m', start, end) && Surrounded(m, start, end)
    ensures Lookup(m, end).Some? && Lookup(m', end).None?
  {
    var s: nat :| s in m && s < start && end < s + m[s].len;
    LookupIs(m, s, end);
    assert forall u: nat :: !Spills(m, start, end, u);
    assert forall t: nat :: !Covers(m', t, end);
  }

  ghost predicate Unmapped<T>(m: AreaMap<T>, m': AreaMap<T>, start: nat, end: nat) {
    forall x: nat :: Lookup(m', x) == if start <= x < end then None else Lookup(m, x)
  }

  /** Removing a range unmaps exactly the range, if and only if no area sticks out of both its ends. */
  lemma RemovedExactly<T>(m: AreaMap<T>, m': AreaMap<T>, start: nat, end: nat)
    requires Wf(m) && start <= end && Removed(m, m', start, end)
    ensures Wf(m')
    ensures Unmapped(m, m', start, end) <==> !Surrounded(m, start, end)
  {
    RemovedWf(m, m', start, end);
    if Surrounded(m, start, end) {
      RemovedTooMuch(m, m', start, end);
    } else {
      forall x: nat ensures Lookup(m', x) == if start <= x < end then None else Lookup(m, x) {
        if start <= x < end {
          RemovedInside(m, m', start, end, x);
        } else {
          RemovedOutside(m, m', start, end, x);
        }
      }
    }
  }

  /** Unmapping two pages in the middle of an area of ten loses the five after them. */
  lemma LostTail(m': AreaMap<bool>)
    requires Removed(map[0 := Area(10, true)], m', 3, 5)
    ensures Lookup(map[0 := Area(10, true)], 7) == Some(true) && Lookup(m', 7) == None
  {
    var m: AreaMap<bool> := map[0 := Area(10, true)];
    LookupIs(m, 0, 7);
    assert forall u: nat :: !Spills(m, 3, 5, u);
    assert forall t: nat :: !Covers(m', t, 7);
  }

  function Put<T>(m: AreaMap<T>, s: nat, a: Area<T>): AreaMap<T> {
    m[s := a]
  }

  ghost predicate Overridden<T>(m: AreaMap<T>, m': AreaMap<T>, start: nat, end: nat, data: T) {
    forall x: nat :: Lookup(m', x) == if start <= x < end then Some(data) else Lookup(m, x)
  }

  /** What `AddedWell` says; see `Unit` in Basics. */
  ghost predicate AddedWellIn<T>(u: Unit, m: AreaMap<T>, m': AreaMap<T>, start: nat, end: nat, data: T) {
    Wf(m') && Overridden(m, m', start, end, data)
  }

  /** The areas are apart and not empty, and the range is overridden. */
  ghost predicate AddedWell<T>(m: AreaMap<T>, m': AreaMap<T>, start: nat, end: nat, data: T) {
    forall u: Unit :: AddedWellIn(u, m, m', start, end, data)
  }

  lemma AddedWf<T>(m: AreaMap<T>, m': AreaMap<T>, start: nat, end: nat, data: T)
    requires Wf(m) && start < end && Removed(m, m', start, end)
    ensures Wf(Put(m', start, Area(end - start, data)))
  {
    RemovedWf(m, m', start, end);
    forall s: nat | s in m' ensures s + m'[s].len <= start || end <= s {
    }
  }

  lemma AddedLookup<T>(m: AreaMap<T>, m': AreaMap<T>, start: nat, end: nat, data: T, x: nat)
    requires Wf(m) && start < end && Removed(m, m', start, end)
    ensures Lookup(Put(m', start, Area(end - start, data)), x) == if start <= x < end then Some(data) else Lookup(m', x)
  {
    var m'' := Put(m', start, Area(end - start, data));
    RemovedWf(m, m', start, end);
    AddedWf(m, m', start, end, data);
    if start <= x < end {
      LookupIs(m'', start, x);
    } else if Mapped(m', x) {
      var s: nat :| Covers(m', s, x);
      LookupIs(m', s, x);
      LookupIs(m'', s, x);
    } else if Mapped(m'', x) {
      var s: nat :| Covers(m'', s, x);
      assert Covers(m', s, x);
    }
  }

  /** Adding an area keeps the areas apart and not empty, and overrides exactly its range, if and only if it is
      not empty and no area sticks out of both its ends. */
  lemma AddedExactly<T>(m: AreaMap<T>, m': AreaMap<T>, start: nat, end: nat, data: T)
    requires Wf(m) && start <= end && RemovedWell(m, m', start, end)
    ensures AddedWell(m, Put(m', start, Area(end - start, data)), start, end, data) <==>
            start < end && !Surrounded(m, start, end)
  {
    var m'' := Put(m', start, Area(end - start, data));
    assert AddedWell(m, m'', start, end, data) <==> AddedWellIn(Unit, m, m'', start, end, data);
    assert RemovedWellIn(Unit, m, m', start, end);
    RemovedExactly(m, m', start, end);
    if start < end {
      AddedWf(m, m', start, end, data);
      forall x: nat ensures Lookup(m'', x) == if start <= x < end then Some(data) else Lookup(m', x) {
        AddedLookup(m, m', start, end, data, x);
      }
      if Surrounded(m, start, end) {
        RemovedTooMuch(m, m', start, end);
      }
    } else {
      assert start in m'' && m''[start].len == 0;
    }
  }

  // Changing the data in a range.

  predicate Overlaps<T>(m: AreaMap<T>, s: nat, start: nat, end: nat) {
    s in m && s < end && start < s + m[s].len
  }

  function ValueOf<T>(f: T -> Result<T>, data: T): T {
    if f(data).Ok? then f(data).value else data
  }

  function Lift<T>(f: T -> Result<T>, o: Option<T>): Option<T> {
    if o.Some? then Some(ValueOf(f, o.value)) else None
  }

  /** In [start, end) the data is changed by `f`, elsewhere it is as it was. */
  ghost predicate Changed<T>(m: AreaMap<T>, m': AreaMap<T>, start: nat, end: nat, f: T -> Result<T>) {
    forall x: nat :: Lookup(m', x) == if start <= x < end then Lift(f, Lookup(m, x)) else Lookup(m, x)
  }

  /** What `ChangedWell` says; see `Unit` in Basics. */
  ghost predicate ChangedWellIn<T>(u: Unit, m: AreaMap<T>, m': AreaMap<T>, start: nat, end: nat, f: T -> Result<T>) {
    Wf(m') && Changed(m, m', start, end, f)
  }

  /** The areas are apart and not empty, and the data of the range is changed. */
  ghost predicate ChangedWell<T>(m: AreaMap<T>, m': AreaMap<T>, start: nat, end: nat, f: T -> Result<T>) {
    forall u: Unit :: ChangedWellIn(u, m, m', start, end, f)
  }

  /** Address by address: in [start, end) the data that was there has become what `f` makes of it, and elsewhere, and
      where there was none, all is as it was. */
  ghost predicate ChangedBy<T>(m: AreaMap<T>, m': AreaMap<T>, start: nat, end: nat, f: T -> Result<T>) {
    && (forall x: nat | start <= x < end && Lookup(m, x).Some? ::
          f(Lookup(m, x).value).Ok? && Lookup(m', x) == Some(f(Lookup(m, x).value).value))
    && (forall x: nat | x < start || end <= x || Lookup(m, x) == None :: Lookup(m', x) == Lookup(m, x))
  }

  /** The areas from `from` on are as they were. */
  ghost predicate Untouched<T>(m: AreaMap<T>, m': AreaMap<T>, from: nat) {
    forall s: nat | s in m && from <= s :: s in m' && m'[s] == m[s]
  }

  lemma AddedUntouched<T>(m: AreaMap<T>, m': AreaMap<T>, start: nat, end: nat, data: T)
    requires start <= end && RemovedWell(m, m', start, end)
    ensures start < end ==> Untouched(m, Put(m', start, Area(end - start, data)), end)
  {
    assert RemovedWellIn(Unit, m, m', start, end);
  }

  /** Where nothing is mapped there is nothing to change. */
  lemma ChangedFurther<T>(m: AreaMap<T>, m': AreaMap<T>, start: nat, b: nat, p: nat, f: T -> Result<T>)
    requires Changed(m, m', start, b, f) && start <= b <= p && forall x: nat | b <= x < p :: !Mapped(m, x)
    ensures Changed(m, m', start, p, f)
  {
  }

  /** The area at `s`, which is as it was, is the only one that can stick out of its own part of the range. */
  lemma PartNotSurrounded<T>(m: AreaMap<T>, m': AreaMap<T>, start: nat, end: nat, s: nat)
    requires Wf(m) && Wf(m') && Overlaps(m, s, start, end) && s in m' && m'[s] == m[s] && !Surrounded(m, start, end)
    ensures !Surrounded(m', Max(s, start), Min(s + m[s].len, end))
  {
    var p, q := Max(s, start), Min(s + m[s].len, end);
    forall t: nat | t in m' && t < p ensures t + m'[t].len <= q {
      assert Covers(m', t, p) ==> t == s;
    }
  }

  lemma PartChanged<T>(m: AreaMap<T>, m': AreaMap<T>, m'': AreaMap<T>, start: nat, p: nat, q: nat, s: nat,
                       f: T -> Result<T>)
    requires Wf(m) && s in m && start <= p <= q && s <= p && q <= s + m[s].len
    requires Changed(m, m', start, p, f) && Overridden(m', m'', p, q, ValueOf(f, m[s].data))
    ensures Changed(m, m'', start, q, f)
  {
    forall x: nat ensures Lookup(m'', x) == if start <= x < q then Lift(f, Lookup(m, x)) else Lookup(m, x) {
      if p <= x < q {
        LookupIs(m, s, x);
      }
    }
  }

  /** Changing the data of the area around a range by adding the whole range loses the part after it. */
  lemma AroundNotChanged<T>(m: AreaMap<T>, m': AreaMap<T>, start: nat, end: nat, s: nat, f: T -> Result<T>)
    requires Wf(m) && s in m && s < start <= end < s + m[s].len
    requires !AddedWell(m, m', start, end, ValueOf(f, m[s].data))
    ensures !ChangedWell(m, m', start, end, f)
  {
    forall x: nat | start <= x < end ensures Lookup(m, x) == Some(m[s].data) {
      LookupIs(m, s, x);
    }
    assert ChangedWell(m, m', start, end, f) ==> ChangedWellIn(Unit, m, m', start, end, f);
    assert ChangedWellIn(Unit, m, m', start, end, f) ==> AddedWellIn(Unit, m, m', start, end, ValueOf(f, m[s].data));
  }

  /** Only one area overlaps a range that an area sticks out of at both ends. */
  lemma AroundAlone<T>(m: AreaMap<T>, start: nat, end: nat, s: nat, t: nat)
    requires Wf(m) && s in m && s < start <= end < s + m[s].len && Overlaps(m, t, start, end)
    ensures t == s
  {
  }

  /** Every area that overlaps the range and is not the last to do so is followed at once by another; `from`
      bounds the areas looked at. */
  ghost predicate Adjoining<T>(m: AreaMap<T>, start: nat, end: nat, from: nat, last: nat) {
    && Overlaps(m, last, start, end) && last < from
    && (forall s: nat | Overlaps(m, s, start, end) && s < from ::
          s <= last && (s < last ==> Overlaps(m, s + m[s].len, start, end)))
  }

  /** The addresses mapped in the range are a suffix of it that is not empty. */
  ghost predicate Suffix<T>(m: AreaMap<T>, start: nat, end: nat) {
    start < end && Mapped(m, end - 1) && forall x: nat, y: nat | start <= x <= y < end && Mapped(m, x) :: Mapped(m, y)
  }

  lemma {:induction false} ChainMapped<T>(m: AreaMap<T>, start: nat, end: nat, last: nat, s: nat, y: nat)
    requires Wf(m) && Adjoining(m, start, end, end, last) && Overlaps(m, s, start, end)
    requires s <= y < end <= last + m[last].len
    ensures Mapped(m, y)
    decreases end - s
  {
    if y < s + m[s].len {
      assert Covers(m, s, y);
    } else {
      ChainMapped(m, start, end, last, s + m[s].len, y);
    }
  }

  lemma AdjoiningSuffix<T>(m: AreaMap<T>, start: nat, end: nat, last: nat)
    requires Wf(m) && start < end && Adjoining(m, start, end, end, last)
    ensures Suffix(m, start, end) <==> end <= last + m[last].len
  {
    if end <= last + m[last].len {
      assert Covers(m, last, end - 1);
      forall x: nat, y: nat | start <= x <= y < end && Mapped(m, x) ensures Mapped(m, y) {
        var s: nat :| Covers(m, s, x);
        ChainMapped(m, start, end, last, s, y);
      }
    } else if Mapped(m, end - 1) {
      var u: nat :| Covers(m, u, end - 1);
      assert Overlaps(m, u, start, end);
    }
  }

  lemma GapNoSuffix<T>(m: AreaMap<T>, start: nat, end: nat, last: nat, s: nat)
    requires Wf(m) && Adjoining(m, start, end, s, last) && Overlaps(m, s, start, end) && last < s
    requires last + m[last].len != s
    ensures !Suffix(m, start, end)
  {
    var x, y := Max(last, start), last + m[last].len;
    assert Covers(m, last, x);
    forall u: nat ensures !Covers(m, u, y) {
      assert Covers(m, u, y) && u < s ==> Overlaps(m, u, start, end);
    }
    assert start <= x <= y < end && Mapped(m, x) && !Mapped(m, y);
  }

  lemma NoneNoSuffix<T>(m: AreaMap<T>, start: nat, end: nat)
    requires forall s: nat | s < end :: !Overlaps(m, s, start, end)
    ensures !Suffix(m, start, end)
  {
    if start < end && Mapped(m, end - 1) {
      var u: nat :| Covers(m, u, end - 1);
      assert Overlaps(m, u, start, end);
    }
  }
}
