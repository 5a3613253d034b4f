/** `AreaMgr`: an ordered map of areas, changed a range at a time. */
module AreaMgr {
  import opened Basics
  import opened Areas
  import OrderedKeys

  /** The parts of `Scanned` and `Putting`; see `Unit` in Basics. */
  datatype Aspect = Cuts | Removes | Inserts

  ghost predicate ScannedIn<T>(a: Aspect, m0: AreaMap<T>, m: AreaMap<T>, removes: seq<nat>, inserts: seq<Area<T>>,
                               below: nat, start: nat, end: nat) {
    && (a.Cuts? ==> (m.Keys == m0.Keys && CutsDone(m0, m, below, start)))
    && (a.Removes? ==> (forall s: nat :: s in removes <==> s in m0 && below <= s && start <= s < end))
    && (a.Inserts? ==> (|inserts| <= 1 && InsertsDone(m0, inserts, below, start, end)))
  }

  ghost predicate CutsDone<T>(m0: AreaMap<T>, m: AreaMap<T>, below: nat, start: nat) {
    forall s: nat | s in m0 :: s in m && m[s] == if below <= s < start then Cut(s, m0[s], start) else m0[s]
  }

  ghost predicate InsertsDone<T>(m0: AreaMap<T>, inserts: seq<Area<T>>, below: nat, start: nat, end: nat) {
    && (forall s: nat | Spills(m0, start, end, s) && below <= s :: inserts == [Area(s + m0[s].len - end, m0[s].data)])
    && (inserts != [] ==> exists s: nat :: Spills(m0, start, end, s) && below <= s)
  }

  /** The areas from `below` on have been looked at: those that start before the range are cut, those that start
      in it are listed to be removed, and what sticks out of it is listed to be inserted. */
  ghost predicate Scanned<T>(m0: AreaMap<T>, m: AreaMap<T>, removes: seq<nat>, inserts: seq<Area<T>>,
                             below: nat, start: nat, end: nat) {
    forall a: Aspect :: ScannedIn(a, m0, m, removes, inserts, below, start, end)
  }

  lemma ScanStart<T>(m: AreaMap<T>, start: nat, end: nat)
    requires start <= end
    ensures Scanned(m, m, [], [], end, start, end)
  {
  }

  /** Areas between two keys of the iteration need nothing done. */
  lemma ScanSkip<T>(m0: AreaMap<T>, m: AreaMap<T>, removes: seq<nat>, inserts: seq<Area<T>>, below: nat, below': nat,
                    start: nat, end: nat)
    requires Scanned(m0, m, removes, inserts, below, start, end) && below' <= below
    requires forall s: nat | s in m0 && below' <= s < below :: s < start && s + m0[s].len <= start
    ensures Scanned(m0, m, removes, inserts, below', start, end)
  {
    assert ScannedIn(Cuts, m0, m, removes, inserts, below, start, end);
    assert ScannedIn(Removes, m0, m, removes, inserts, below, start, end);
    assert ScannedIn(Inserts, m0, m, removes, inserts, below, start, end);
  }

  /** An area that starts before the range is cut. */
  lemma ScanBefore<T>(m0: AreaMap<T>, m: AreaMap<T>, removes: seq<nat>, inserts: seq<Area<T>>, s: nat, start: nat,
                      end: nat)
    requires Scanned(m0, m, removes, inserts, s + 1, start, end) && s in m0 && s in m && s < start
    ensures m[s] == m0[s] && Scanned(m0, Put(m, s, Cut(s, m[s], start)), removes, inserts, s, start, end)
  {
    assert ScannedIn(Cuts, m0, m, removes, inserts, s + 1, start, end);
    assert ScannedIn(Removes, m0, m, removes, inserts, s + 1, start, end);
    assert ScannedIn(Inserts, m0, m, removes, inserts, s + 1, start, end);
  }

  /** An area that starts in the range is listed. */
  lemma ScanInside<T>(m0: AreaMap<T>, m: AreaMap<T>, removes: seq<nat>, inserts: seq<Area<T>>, s: nat, start: nat,
                      end: nat)
    requires Wf(m0) && Scanned(m0, m, removes, inserts, s + 1, start, end) && s in m0 && s in m && start <= s < end
    ensures m[s] == m0[s]
    ensures var inserts' := if end < s + m[s].len then inserts + [Area(s + m[s].len - end, m[s].data)] else inserts;
            Scanned(m0, m, removes + [s], inserts', s, start, end)
  {
    assert ScannedIn(Cuts, m0, m, removes, inserts, s + 1, start, end);
    assert ScannedIn(Removes, m0, m, removes, inserts, s + 1, start, end);
    assert ScannedIn(Inserts, m0, m, removes, inserts, s + 1, start, end);
    InsertInside(m0, inserts, s, start, end);
  }

  /** Only the last area that starts in the range can stick out of it, so what it leaves is listed first. */
  lemma InsertInside<T>(m: AreaMap<T>, inserts: seq<Area<T>>, s: nat, start: nat, end: nat)
    requires Wf(m) && |inserts| <= 1 && InsertsDone(m, inserts, s + 1, start, end) && s in m && start <= s < end
    ensures var inserts' := if end < s + m[s].len then inserts + [Area(s + m[s].len - end, m[s].data)] else inserts;
            |inserts'| <= 1 && InsertsDone(m, inserts', s, start, end)
  {
    if Spills(m, start, end, s) {
      forall t: nat | Spills(m, start, end, t) ensures t == s {
      }
      assert inserts == [];
    }
  }

  lemma ScanDone<T>(m0: AreaMap<T>, m: AreaMap<T>, removes: seq<nat>, inserts: seq<Area<T>>, start: nat, end: nat,
                    m': AreaMap<T>)
    requires Wf(m0) && Scanned(m0, m, removes, inserts, 0, start, end) && start <= end
    requires var kept := m - (set s | s in removes); m' == if inserts == [] then kept else Put(kept, end, inserts[0])
    ensures Removed(m0, m', start, end)
  {
    assert ScannedIn(Cuts, m0, m, removes, inserts, 0, start, end);
    assert ScannedIn(Removes, m0, m, removes, inserts, 0, start, end);
    assert ScannedIn(Inserts, m0, m, removes, inserts, 0, start, end);
    assert end in m0 ==> inserts == [];
  }

  /** `f` accepts the data of the areas that overlap the range and start before `from`. */
  ghost predicate Accepted<T>(m: AreaMap<T>, start: nat, end: nat, from: nat, f: T -> Result<T>) {
    forall s: nat | Overlaps(m, s, start, end) && s < from :: f(m[s].data).Ok?
  }

  lemma AcceptedChanged<T>(m: AreaMap<T>, m': AreaMap<T>, start: nat, end: nat, f: T -> Result<T>)
    requires Wf(m) && Accepted(m, start, end, end, f) && ChangedWell(m, m', start, end, f)
    ensures Wf(m') && ChangedBy(m, m', start, end, f)
  {
    assert ChangedWellIn(Unit, m, m', start, end, f);
    forall x: nat | start <= x < end && Lookup(m, x).Some?
      ensures f(Lookup(m, x).value).Ok? && Lookup(m', x) == Some(f(Lookup(m, x).value).value)
    {
      var s: nat :| Covers(m, s, x);
      LookupIs(m, s, x);
      assert Overlaps(m, s, start, end);
    }
  }

  /** What the first pass knows of the areas that start before `from`. */
  ghost predicate Passed<T>(m: AreaMap<T>, start: nat, end: nat, from: nat, hasPrevious: bool, pEnd: nat,
                            finish: bool, last: nat) {
    if hasPrevious then Adjoining(m, start, end, from, last) && pEnd == last + m[last].len && (finish <==> end <= pEnd)
    else !finish && forall s: nat | s < from :: !Overlaps(m, s, start, end)
  }

  lemma PassedFurther<T>(m: AreaMap<T>, start: nat, end: nat, from: nat, from': nat, hasPrevious: bool, pEnd: nat,
                         finish: bool, last: nat)
    requires Passed(m, start, end, from, hasPrevious, pEnd, finish, last) && from <= from'
    requires forall s | s in m :: s < from || from' <= s
    ensures Passed(m, start, end, from', hasPrevious, pEnd, finish, last)
  {
  }

  lemma PassedStep<T>(m: AreaMap<T>, start: nat, end: nat, s: nat, hasPrevious: bool, pEnd: nat, finish: bool,
                      last: nat)
    requires Wf(m) && Passed(m, start, end, s, hasPrevious, pEnd, finish, last) && s in m
    ensures Overlaps(m, s, start, end) && (hasPrevious ==> pEnd == s) ==>
              Passed(m, start, end, s + 1, true, s + m[s].len, finish || end <= s + m[s].len, s)
    ensures !Overlaps(m, s, start, end) ==> Passed(m, start, end, s + 1, hasPrevious, pEnd, finish, last)
    ensures Overlaps(m, s, start, end) && hasPrevious && pEnd != s ==> !Suffix(m, start, end)
  {
    if Overlaps(m, s, start, end) && hasPrevious && pEnd != s {
      GapNoSuffix(m, start, end, last, s);
    }
  }

  lemma PassedEnd<T>(m: AreaMap<T>, start: nat, end: nat, hasPrevious: bool, pEnd: nat, finish: bool, last: nat)
    requires Wf(m) && Passed(m, start, end, end, hasPrevious, pEnd, finish, last) && start < end
    ensures finish <==> Suffix(m, start, end)
  {
    if hasPrevious {
      AdjoiningSuffix(m, start, end, last);
    } else {
      NoneNoSuffix(m, start, end);
    }
  }

  /** Two areas that overlap a range leave it room: an empty range lies inside one area only. */
  lemma TwoOverlap<T>(m: AreaMap<T>, start: nat, end: nat, s: nat, t: nat)
    requires Wf(m) && s < t && Overlaps(m, s, start, end) && Overlaps(m, t, start, end)
    ensures start < end
  {
  }

  lemma PassedEmpty<T>(m: AreaMap<T>, a: nat, hasPrevious: bool, pEnd: nat, finish: bool, last: nat)
    requires Passed(m, a, a, a, hasPrevious, pEnd, finish, last)
    ensures finish <==> Surrounded(m, a, a)
  {
    if hasPrevious {
      assert last in m && last < a && a < last + m[last].len;
    } else {
      forall s: nat | s in m && s < a ensures s + m[s].len <= a {
        assert !Overlaps(m, s, a, a);
      }
    }
  }

  lemma AcceptedStep<T>(m: AreaMap<T>, start: nat, end: nat, from: nat, s: nat, f: T -> Result<T>)
    requires Accepted(m, start, end, from, f) && from <= s && s in m && (forall t | t in m :: t < from || s <= t)
    ensures !Overlaps(m, s, start, end) || f(m[s].data).Ok? <==> Accepted(m, start, end, s + 1, f)
  {
  }

  /** A start, a length and the data to put there. */
  datatype Part<T> = Part(start: nat, len: nat, data: T)

  /** The part of the range that the area at `s` holds, with its data changed. */
  function PartOf<T>(m: AreaMap<T>, s: nat, start: nat, end: nat, f: T -> Result<T>): Part<T>
    requires Overlaps(m, s, start, end) && start <= end
  {
    Part(Max(s, start), Min(s + m[s].len, end) - Max(s, start), ValueOf(f, m[s].data))
  }

  /** `ks` are the areas that overlap the range and start before `from`, ascending. */
  ghost predicate Listed<T>(m: AreaMap<T>, start: nat, end: nat, from: nat, ks: seq<nat>) {
    && (forall s: nat :: s in ks <==> Overlaps(m, s, start, end) && s < from)
    && (forall i, j | 0 <= i < j < |ks| :: ks[i] < ks[j])
  }

  ghost predicate PartsOf<T>(m: AreaMap<T>, start: nat, end: nat,
                             f: T -> Result<T>, ks: seq<nat>, parts: seq<Part<T>>) {
    start <= end && |parts| == |ks| &&
    forall i | 0 <= i < |ks| :: Overlaps(m, ks[i], start, end) && parts[i] == PartOf(m, ks[i], start, end, f)
  }

  lemma ListedStep<T>(m: AreaMap<T>, start: nat, end: nat, from: nat, s: nat, ks: seq<nat>)
    requires Listed(m, start, end, from, ks) && from <= s && s in m && (forall t | t in m :: t < from || s <= t)
    ensures Listed(m, start, end, s + 1, if Overlaps(m, s, start, end) then ks + [s] else ks)
  {
    assert forall i | 0 <= i < |ks| :: ks[i] in ks;
    var ks' := if Overlaps(m, s, start, end) then ks + [s] else ks;
    forall x: nat ensures x in ks' <==> Overlaps(m, x, start, end) && x < s + 1 {
    }
  }

  lemma PartsOfStep<T>(m: AreaMap<T>, start: nat, end: nat,
                       f: T -> Result<T>, ks: seq<nat>, parts: seq<Part<T>>, s: nat)
    requires PartsOf(m, start, end, f, ks, parts) && Overlaps(m, s, start, end)
    ensures PartsOf(m, start, end, f, ks + [s], parts + [PartOf(m, s, start, end, f)])
  {
  }

  /** What `Listing` says; see `Unit` in Basics. */
  ghost predicate ListingIn<T>(u: Unit, m: AreaMap<T>, start: nat, end: nat,
                               f: T -> Result<T>, from: nat, ks: seq<nat>, parts: seq<Part<T>>) {
    Listed(m, start, end, from, ks) && PartsOf(m, start, end, f, ks, parts)
  }

  /** The parts for the areas that start before `from` are listed. */
  ghost predicate Listing<T>(m: AreaMap<T>, start: nat, end: nat,
                             f: T -> Result<T>, from: nat, ks: seq<nat>, parts: seq<Part<T>>) {
    forall u: Unit :: ListingIn(u, m, start, end, f, from, ks, parts)
  }

  lemma ListingStep<T>(m: AreaMap<T>, start: nat, end: nat,
                       f: T -> Result<T>, from: nat, s: nat, ks: seq<nat>, parts: seq<Part<T>>)
    requires Listing(m, start, end, f, from, ks, parts) && from <= s && s in m
    requires (forall t | t in m :: t < from || s <= t)
    ensures start <= end
    ensures if Overlaps(m, s, start, end)
            then Listing(m, start, end, f, s + 1, ks + [s], parts + [PartOf(m, s, start, end, f)])
            else Listing(m, start, end, f, s + 1, ks, parts)
  {
    assert ListingIn(Unit, m, start, end, f, from, ks, parts);
    ListedStep(m, start, end, from, s, ks);
    if Overlaps(m, s, start, end) {
      PartsOfStep(m, start, end, f, ks, parts, s);
    }
  }

  lemma ListingEnd<T>(m: AreaMap<T>, start: nat, end: nat,
                      f: T -> Result<T>, from: nat, ks: seq<nat>, parts: seq<Part<T>>)
    requires Listing(m, start, end, f, from, ks, parts) && from <= end && (forall t | t in m :: t < from || end <= t)
    ensures Listed(m, start, end, end, ks) && PartsOf(m, start, end, f, ks, parts)
  {
    assert ListingIn(Unit, m, start, end, f, from, ks, parts);
  }

  /** Where the parts put so far end. */
  ghost function Reached<T>(start: nat, parts: seq<Part<T>>, i: nat): nat
    requires i <= |parts|
  {
    if i == 0 then start else parts[i - 1].start + parts[i - 1].len
  }

  ghost predicate PuttingIn<T>(a: Aspect, m0: AreaMap<T>, m: AreaMap<T>, start: nat,
                               f: T -> Result<T>, reached: nat, i: nat) {
    && (a.Cuts? ==> (Wf(m) && (i == 0 ==> m == m0)))
    && (a.Removes? ==> Changed(m0, m, start, reached, f))
    && (a.Inserts? ==> Untouched(m0, m, reached))
  }

  /** The range is changed up to `reached`, and the areas after that are as they were. */
  ghost predicate Putting<T>(m0: AreaMap<T>, m: AreaMap<T>, start: nat, f: T -> Result<T>, reached: nat, i: nat) {
    forall a: Aspect :: PuttingIn(a, m0, m, start, f, reached, i)
  }

  /** An area that overlaps the range and starts before the one at place `i` is listed before it. */
  lemma ListedBefore<T>(m: AreaMap<T>, start: nat, end: nat, ks: seq<nat>, i: nat, u: nat)
    requires Listed(m, start, end, end, ks) && i < |ks| && Overlaps(m, u, start, end) && u < ks[i]
    ensures i > 0 && u <= ks[i - 1]
  {
    assert u in ks;
    var j :| 0 <= j < |ks| && ks[j] == u;
    assert j < i;
  }

  /** Where the areas overlap is known. */
  lemma PartEnds<T>(m: AreaMap<T>, start: nat, end: nat, f: T -> Result<T>, ks: seq<nat>, parts: seq<Part<T>>, i: nat)
    requires Wf(m) && Listed(m, start, end, end, ks) && PartsOf(m, start, end, f, ks, parts) && i < |parts|
    ensures Overlaps(m, ks[i], start, end) && parts[i].start == Max(ks[i], start)
    ensures Reached(start, parts, i) <= parts[i].start
    ensures i > 0 ==> ks[i - 1] < ks[i] && Reached(start, parts, i) == Min(ks[i - 1] + m[ks[i - 1]].len, end) <= ks[i]
  {
    if i > 0 {
      assert Overlaps(m, ks[i - 1], start, end) && ks[i - 1] < ks[i];
      assert parts[i - 1] == PartOf(m, ks[i - 1], start, end, f);
    }
    assert parts[i] == PartOf(m, ks[i], start, end, f);
  }

  /** Nothing is mapped between what is reached and the next part. */
  lemma NextGap<T>(m: AreaMap<T>, start: nat, end: nat,
                   f: T -> Result<T>, ks: seq<nat>, parts: seq<Part<T>>, i: nat, x: nat)
    requires Wf(m) && Listed(m, start, end, end, ks) && PartsOf(m, start, end, f, ks, parts) && i < |parts|
    requires Reached(start, parts, i) <= x < parts[i].start
    ensures !Mapped(m, x)
  {
    PartEnds(m, start, end, f, ks, parts, i);
    forall u: nat ensures !Covers(m, u, x) {
      if Overlaps(m, u, start, end) && u < ks[i] {
        ListedBefore(m, start, end, ks, i, u);
        assert u < ks[i - 1] ==> u + m[u].len <= ks[i - 1];
      }
    }
  }

  /** The next part begins after what is reached, with nothing mapped between, at an area still as it was. */
  lemma NextPart<T>(m0: AreaMap<T>, m: AreaMap<T>, start: nat, end: nat, f: T -> Result<T>, ks: seq<nat>,
                    parts: seq<Part<T>>, i: nat)
    requires Wf(m0) && Listed(m0, start, end, end, ks) && PartsOf(m0, start, end, f, ks, parts) && i < |parts|
    requires Putting(m0, m, start, f, Reached(start, parts, i), i)
    ensures Reached(start, parts, i) <= parts[i].start && ks[i] in m && m[ks[i]] == m0[ks[i]]
    ensures forall x: nat | Reached(start, parts, i) <= x < parts[i].start :: !Mapped(m0, x)
  {
    assert PuttingIn(Cuts, m0, m, start, f, Reached(start, parts, i), i);
    assert PuttingIn(Inserts, m0, m, start, f, Reached(start, parts, i), i);
    PartEnds(m0, start, end, f, ks, parts, i);
    forall x: nat | Reached(start, parts, i) <= x < parts[i].start ensures !Mapped(m0, x) {
      NextGap(m0, start, end, f, ks, parts, i, x);
    }
  }

  /** Putting one part. */
  lemma PutPart<T>(m0: AreaMap<T>, m: AreaMap<T>, m': AreaMap<T>, start: nat, end: nat, f: T -> Result<T>, ks: seq<nat>,
                   parts: seq<Part<T>>, i: nat)
    requires Wf(m0) && Listed(m0, start, end, end, ks) && PartsOf(m0, start, end, f, ks, parts) && i < |parts|
    requires Putting(m0, m, start, f, Reached(start, parts, i), i) && !Surrounded(m0, start, end) && 0 < parts[i].len
    requires var p, q := parts[i].start, parts[i].start + parts[i].len;
             Untouched(m, m', q) && (!Surrounded(m, p, q) ==> AddedWell(m, m', p, q, parts[i].data))
    ensures Putting(m0, m', start, f, Reached(start, parts, i + 1), i + 1)
  {
    var s, b, p, q := ks[i], Reached(start, parts, i), parts[i].start, parts[i].start + parts[i].len;
    assert PuttingIn(Cuts, m0, m, start, f, b, i);
    assert PuttingIn(Removes, m0, m, start, f, b, i);
    assert PuttingIn(Inserts, m0, m, start, f, b, i);
    NextPart(m0, m, start, end, f, ks, parts, i);
    PartNotSurrounded(m0, m, start, end, s);
    assert AddedWellIn(Unit, m, m', p, q, parts[i].data);
    ChangedFurther(m0, m, start, b, p, f);
    PartChanged(m0, m, m', start, p, q, s, f);
  }

  /** When all parts are put the whole range is changed. */
  lemma PutAll<T>(m0: AreaMap<T>, m: AreaMap<T>, start: nat, end: nat,
                  f: T -> Result<T>, ks: seq<nat>, parts: seq<Part<T>>)
    requires Wf(m0) && Listed(m0, start, end, end, ks) && PartsOf(m0, start, end, f, ks, parts)
    requires Putting(m0, m, start, f, Reached(start, parts, |parts|), |parts|)
    ensures ChangedWell(m0, m, start, end, f)
  {
    var b := Reached(start, parts, |parts|);
    assert PuttingIn(Cuts, m0, m, start, f, b, |parts|);
    assert PuttingIn(Removes, m0, m, start, f, b, |parts|);
    forall u: nat | Overlaps(m0, u, start, end) ensures |ks| > 0 && u <= ks[|ks| - 1] {
      assert u in ks;
      var j :| 0 <= j < |ks| && ks[j] == u;
    }
    assert forall x: nat, u: nat | b <= x < end && Covers(m0, u, x) :: Overlaps(m0, u, start, end);
    ChangedFurther(m0, m, start, b, end, f);
  }

  /** The one part of a range that an area sticks out of at both ends is the whole range. */
  ghost predicate PartAround<T>(m: AreaMap<T>, start: nat, end: nat, f: T -> Result<T>, part: Part<T>) {
    start <= end &&
    exists s: nat ::
      s in m && s < start && end < s + m[s].len && part == Part(start, end - start, ValueOf(f, m[s].data))
  }

  lemma PartsAround<T>(m: AreaMap<T>, start: nat, end: nat, f: T -> Result<T>, ks: seq<nat>, parts: seq<Part<T>>)
    requires Wf(m) && Listed(m, start, end, end, ks) && PartsOf(m, start, end, f, ks, parts)
    requires Surrounded(m, start, end)
    ensures |parts| == 1 && PartAround(m, start, end, f, parts[0])
  {
    var s: nat :| s in m && s < start && end < s + m[s].len;
    assert Overlaps(m, s, start, end) && s in ks;
    forall i | 0 <= i < |ks| ensures ks[i] == s {
      AroundAlone(m, start, end, s, ks[i]);
    }
    assert ks[0] == s && ks[|ks| - 1] == s;
  }

  /** What `PutSoFar` says; see `Unit` in Basics. */
  ghost predicate PutSoFarIn<T>(u: Unit, m0: AreaMap<T>, m: AreaMap<T>, start: nat, end: nat, f: T -> Result<T>,
                                parts: seq<Part<T>>, i: nat)
    requires i <= |parts|
  {
    && (i == 0 ==> m == m0)
    && (!Surrounded(m0, start, end) ==> Putting(m0, m, start, f, Reached(start, parts, i), i))
    && (Surrounded(m0, start, end) ==>
          |parts| == 1 && PartAround(m0, start, end, f, parts[0]) && (i == 1 ==> !ChangedWell(m0, m, start, end, f)))
  }

  /** The first `i` parts have been put. In an area that sticks out of both ends of the range there is only one, and
      putting it does not do what it should. */
  ghost predicate PutSoFar<T>(m0: AreaMap<T>, m: AreaMap<T>, start: nat, end: nat, f: T -> Result<T>,
                              parts: seq<Part<T>>, i: nat)
    requires i <= |parts|
  {
    forall u: Unit :: PutSoFarIn(u, m0, m, start, end, f, parts, i)
  }

  lemma PutStarts<T>(m: AreaMap<T>, start: nat, end: nat, f: T -> Result<T>, ks: seq<nat>, parts: seq<Part<T>>)
    requires Wf(m) && Listed(m, start, end, end, ks) && PartsOf(m, start, end, f, ks, parts)
    ensures PutSoFar(m, m, start, end, f, parts, 0)
  {
    if Surrounded(m, start, end) {
      PartsAround(m, start, end, f, ks, parts);
    } else {
      assert Putting(m, m, start, f, Reached(start, parts, 0), 0);
    }
  }

  lemma PutEnds<T>(m0: AreaMap<T>, m: AreaMap<T>, start: nat, end: nat, f: T -> Result<T>, ks: seq<nat>,
                   parts: seq<Part<T>>)
    requires Wf(m0) && Listed(m0, start, end, end, ks) && PartsOf(m0, start, end, f, ks, parts)
    requires PutSoFar(m0, m, start, end, f, parts, |parts|)
    ensures ChangedWell(m0, m, start, end, f) <==> !Surrounded(m0, start, end)
  {
    assert PutSoFarIn(Unit, m0, m, start, end, f, parts, |parts|);
    if !Surrounded(m0, start, end) {
      PutAll(m0, m, start, end, f, ks, parts);
    }
  }

  lemma PartNotEmpty<T>(m: AreaMap<T>, s: nat, start: nat, end: nat)
    requires Overlaps(m, s, start, end) && start <= end && !Surrounded(m, start, end)
    ensures start < end
  {
  }

  lemma PutAround<T>(m: AreaMap<T>, m': AreaMap<T>, start: nat, end: nat, f: T -> Result<T>, part: Part<T>)
    requires Wf(m) && Surrounded(m, start, end) && PartAround(m, start, end, f, part)
    requires !AddedWell(m, m', start, end, part.data)
    ensures !ChangedWell(m, m', start, end, f)
  {
    var s: nat :| s in m && s < start && end < s + m[s].len && part == Part(start, end - start, ValueOf(f, m[s].data));
    AroundNotChanged(m, m', start, end, s, f);
  }

  /** What putting one part does, whether or not an area surrounds the range. */
  lemma PartPut<T>(m0: AreaMap<T>, m: AreaMap<T>, m': AreaMap<T>, start: nat, end: nat, f: T -> Result<T>, ks: seq<nat>,
                   parts: seq<Part<T>>, i: nat)
    requires Wf(m0) && Listed(m0, start, end, end, ks) && PartsOf(m0, start, end, f, ks, parts) && i < |parts|
    requires i == 0 ==> m == m0
    requires Surrounded(m0, start, end) ==> i == 0 && PartAround(m0, start, end, f, parts[0])
    requires !Surrounded(m0, start, end) ==> Putting(m0, m, start, f, Reached(start, parts, i), i)
    requires var p, q := parts[i].start, parts[i].start + parts[i].len;
             && (AddedWell(m, m', p, q, parts[i].data) <==> p < q && !Surrounded(m, p, q))
             && (p < q ==> Untouched(m, m', q))
    ensures !Surrounded(m0, start, end) ==> Putting(m0, m', start, f, Reached(start, parts, i + 1), i + 1)
    ensures Surrounded(m0, start, end) ==> !ChangedWell(m0, m', start, end, f)
  {
    if Surrounded(m0, start, end) {
      PutAround(m0, m', start, end, f, parts[0]);
    } else {
      PartNotEmpty(m0, ks[i], start, end);
      PutPart(m0, m, m', start, end, f, ks, parts, i);
    }
  }

  class AreaMgr<T> {
    var areas: AreaMap<T>

    constructor ()
      ensures areas == map[]
    {
      areas := map[];
    }

    /** Unmaps a range. */
    method RemoveRange(start: nat, len: nat)
      requires Wf(areas)
      modifies this
      ensures RemovedWell(old(areas), areas, start, start + len)
    {
      var end := start + len;
      ghost var m0 := areas;
      var removes, inserts := Scan(start, end);
      ghost var m := areas;
      DropAll(removes);
      InsertAll(end, inserts);
      ScanDone(m0, m, removes, inserts, start, end, areas);
      RemovedWf(m0, areas, start, end);
    }

    method DropAll(removes: seq<nat>)
      modifies this
      ensures areas == old(areas) - (set s | s in removes)
    {
      for i := 0 to |removes|
        invariant areas == old(areas) - (set s | s in removes[..i])
      {
        areas := areas - {removes[i]};
        assert removes[..i + 1] == removes[..i] + [removes[i]];
      }
      assert removes[..|removes|] == removes;
    }

    method InsertAll(end: nat, inserts: seq<Area<T>>)
      requires |inserts| <= 1
      modifies this
      ensures areas == if inserts == [] then old(areas) else Put(old(areas), end, inserts[0])
    {
      for i := 0 to |inserts|
        invariant areas == if i == 0 then old(areas) else Put(old(areas), end, inserts[0])
      {
        areas := Put(areas, end, inserts[i]);
      }
    }

    /** Cuts the area at `s` if it reaches into the range, or lists it if it starts there. */
    method ScanArea(s: nat, start: nat, end: nat, removes: seq<nat>, inserts: seq<Area<T>>, ghost m0: AreaMap<T>)
      returns (removes': seq<nat>, inserts': seq<Area<T>>)
      requires Wf(m0) && s in m0 && s in areas && s < end
      requires Scanned(m0, areas, removes, inserts, s + 1, start, end)
      modifies this
      ensures old(areas)[s] == m0[s] && areas.Keys == old(areas).Keys
      ensures Scanned(m0, areas, removes', inserts', s, start, end)
    {
      removes', inserts' := removes, inserts;
      var area := areas[s];
      var cEnd := s + area.len;
      if start <= s {
        ScanInside(m0, areas, removes, inserts, s, start, end);
        if end < cEnd {
          inserts' := inserts + [Area(cEnd - end, area.data)];
        }
        removes' := removes + [s];
      } else {
        ScanBefore(m0, areas, removes, inserts, s, start, end);
        if start < cEnd {
          areas := Put(areas, s, Area(start - s, area.data));
        } else {
          assert Put(areas, s, area) == areas;
        }
      }
    }

    /** Looks at the areas that start before the end of the range, last first; cuts those that reach into it. */
    method Scan(start: nat, end: nat) returns (removes: seq<nat>, inserts: seq<Area<T>>)
      requires Wf(areas) && start <= end
      modifies this
      ensures Scanned(old(areas), areas, removes, inserts, 0, start, end) && |inserts| <= 1
    {
      ghost var m0 := areas;
      removes, inserts := [], [];
      ScanStart(m0, start, end);
      ghost var below: nat := end;
      var k := OrderedKeys.Last(areas.Keys, end);
      while k.Some?
        invariant areas.Keys == m0.Keys && OrderedKeys.IsLast(areas.Keys, below, k)
        invariant Scanned(m0, areas, removes, inserts, below, start, end) && below <= end
        decreases below
      {
        var s := k.value;
        ScanSkip(m0, areas, removes, inserts, below, s + 1, start, end);
        var cEnd := s + areas[s].len;
        removes, inserts := ScanArea(s, start, end, removes, inserts, m0);
        below := s;
        if cEnd < start {
          break;
        }
        k := OrderedKeys.Last(areas.Keys, s);
      }
      ScanSkip(m0, areas, removes, inserts, below, 0, start, end);
      assert ScannedIn(Inserts, m0, areas, removes, inserts, 0, start, end);
    }

    /** Maps a range to `data`. */
    method Add(start: nat, len: nat, data: T)
      requires Wf(areas)
      modifies this
      ensures AddedWell(old(areas), areas, start, start + len, data) <==>
              0 < len && !Surrounded(old(areas), start, start + len)
      ensures 0 < len ==> Untouched(old(areas), areas, start + len)
      ensures exists m :: RemovedWell(old(areas), m, start, start + len) && areas == Put(m, start, Area(len, data))
    {
      ghost var m0 := areas;
      RemoveRange(start, len);
      AddedExactly(m0, areas, start, start + len, data);
      AddedUntouched(m0, areas, start, start + len, data);
      areas := Put(areas, start, Area(len, data));
    }

    /** The area that holds address `key`. */
    method Get(key: nat) returns (r: Option<(nat, nat, T)>)
      requires Wf(areas)
      ensures match r
              case None => Lookup(areas, key).None?
              case Some((s, n, data)) =>
                Covers(areas, s, key) && areas[s] == Area(n, data) && Lookup(areas, key) == Some(data)
    {
      var k := OrderedKeys.Last(areas.Keys, key + 1);
      r := None;
      if k.Some? && key < k.value + areas[k.value].len {
        LookupIs(areas, k.value, key);
        r := Some((k.value, areas[k.value].len, areas[k.value].data));
      } else {
        assert forall s: nat :: !Covers(areas, s, key);
      }
    }

    /** The first pass of Protect: the areas that overlap the range must adjoin one another up to its end, and `f`
        must accept the data of each. */
    method Check(start: nat, end: nat, f: T -> Result<T>) returns (r: Result<()>)
      requires Wf(areas)
      ensures r.Ok? ==> Accepted(areas, start, end, end, f)
      ensures start < end ==> (r.Ok? <==> Suffix(areas, start, end) && Accepted(areas, start, end, end, f))
      ensures start == end ==> (r.Ok? <==> Surrounded(areas, start, end) && Accepted(areas, start, end, end, f))
      ensures r.Err? ==>
                || r.error == InvalidInput
                || exists s :: Overlaps(areas, s, start, end) && f(areas[s].data) == Err(r.error)
    {
      var hasPrevious, pEnd: nat, finish := false, 0, false;
      ghost var from: nat, last: nat := 0, 0;
      var k: Option<nat> := OrderedKeys.Next(areas.Keys, 0);
      while k.Some? && k.value < end
        invariant from <= end && OrderedKeys.IsNext(areas.Keys, from, k) && Accepted(areas, start, end, from, f)
        invariant Passed(areas, start, end, from, hasPrevious, pEnd, finish, last)
        decreases end - from
      {
        var s := k.value;
        var cEnd := s + areas[s].len;
        PassedFurther(areas, start, end, from, s, hasPrevious, pEnd, finish, last);
        PassedStep(areas, start, end, s, hasPrevious, pEnd, finish, last);
        AcceptedStep(areas, start, end, from, s, f);
        if s < end && start < cEnd {
          if !hasPrevious {
            hasPrevious := true;
          } else if s != pEnd {
            TwoOverlap(areas, start, end, last, s);
            return Err(InvalidInput);
          }
          pEnd := cEnd;
          if cEnd >= end {
            finish := true;
          }
          last := s;
          var v := f(areas[s].data);
          if v.Err? {
            return Err(v.error);
          }
        }
        from := s + 1;
        k := OrderedKeys.Next(areas.Keys, s + 1);
      }
      PassedFurther(areas, start, end, from, end, hasPrevious, pEnd, finish, last);
      if start < end {
        PassedEnd(areas, start, end, hasPrevious, pEnd, finish, last);
      } else if start == end {
        PassedEmpty(areas, start, hasPrevious, pEnd, finish, last);
      }
      r := if finish then Ok(()) else Err(InvalidInput);
    }

    /** The second pass of Protect: the parts of the range to put, with their data changed. */
    method Parts(start: nat, end: nat, f: T -> Result<T>) returns (parts: seq<Part<T>>, ghost ks: seq<nat>)
      requires Wf(areas) && start <= end && Accepted(areas, start, end, end, f)
      ensures Listed(areas, start, end, end, ks) && PartsOf(areas, start, end, f, ks, parts)
    {
      parts, ks := [], [];
      ghost var from: nat := 0;
      var k: Option<nat> := OrderedKeys.Next(areas.Keys, 0);
      while k.Some? && k.value < end
        invariant from <= end && OrderedKeys.IsNext(areas.Keys, from, k)
        invariant Listing(areas, start, end, f, from, ks, parts)
        decreases end - from
      {
        var s := k.value;
        ListingStep(areas, start, end, f, from, s, ks, parts);
        if s < end && start < s + areas[s].len {
          var first, last := Max(s, start), Min(s + areas[s].len, end);
          parts := parts + [Part(first, last - first, f(areas[s].data).value)];
          ks := ks + [s];
        }
        from := s + 1;
        k := OrderedKeys.Next(areas.Keys, s + 1);
      }
      ListingEnd(areas, start, end, f, from, ks, parts);
    }

    /** Changes the data of a range by `f`. A failure changes nothing; a success changes exactly the data of the
        addresses mapped in the range, and keeps the areas apart and not empty, if and only if no area sticks out
        of both ends of the range. */
    method Protect(addr: nat, len: nat, f: T -> Result<T>) returns (r: Result<()>)
      requires Wf(areas)
      modifies this
      ensures r.Err? ==> areas == old(areas)
      ensures 0 < len ==>
                (r.Ok? <==>
                   Suffix(old(areas), addr, addr + len) && Accepted(old(areas), addr, addr + len, addr + len, f))
      ensures len == 0 ==> (r.Ok? <==> Surrounded(old(areas), addr, addr) && Accepted(old(areas), addr, addr, addr, f))
      ensures r.Ok? ==>
                (ChangedWell(old(areas), areas, addr, addr + len, f) <==> !Surrounded(old(areas), addr, addr + len))
      ensures r.Ok? && !Surrounded(old(areas), addr, addr + len) ==>
                Wf(areas) && ChangedBy(old(areas), areas, addr, addr + len, f)
    {
      var end := addr + len;
      r := Check(addr, end, f);
      if r.Err? {
        return;
      }
      ghost var m := areas;
      var parts, ks := Parts(addr, end, f);
      PutParts(addr, end, f, ks, parts);
      if !Surrounded(m, addr, end) {
        AcceptedChanged(m, areas, addr, end, f);
      }
    }

    /** Adds the changed parts one after the other. */
    method PutParts(ghost start: nat, ghost end: nat, ghost f: T -> Result<T>, ghost ks: seq<nat>, parts: seq<Part<T>>)
      requires Wf(areas) && Listed(areas, start, end, end, ks) && PartsOf(areas, start, end, f, ks, parts)
      modifies this
      ensures ChangedWell(old(areas), areas, start, end, f) <==> !Surrounded(old(areas), start, end)
    {
      ghost var m0 := areas;
      PutStarts(m0, start, end, f, ks, parts);
      for i := 0 to |parts|
        invariant PutSoFar(m0, areas, start, end, f, parts, i)
      {
        PutOne(m0, start, end, f, ks, parts, i);
      }
      PutEnds(m0, areas, start, end, f, ks, parts);
    }

    method PutOne(ghost m0: AreaMap<T>, ghost start: nat, ghost end: nat, ghost f: T -> Result<T>, ghost ks: seq<nat>,
                  parts: seq<Part<T>>, i: nat)
      requires Wf(m0) && Listed(m0, start, end, end, ks) && PartsOf(m0, start, end, f, ks, parts) && i < |parts|
      requires PutSoFar(m0, areas, start, end, f, parts, i)
      modifies this
      ensures PutSoFar(m0, areas, start, end, f, parts, i + 1)
    {
      ghost var m := areas;
      assert PutSoFarIn(Unit, m0, m, start, end, f, parts, i);
      if !Surrounded(m0, start, end) {
        assert PuttingIn(Cuts, m0, m, start, f, Reached(start, parts, i), i);
      }
      Add(parts[i].start, parts[i].len, parts[i].data);
      PartPut(m0, m, areas, start, end, f, ks, parts, i);
    }
  }
}
