/** `ShareRegion`: the words of the trigger bitmap, and the loops that set and scan their bits. */
module TriggerBitmap {
  import opened Basics
  import opened TriggerProtocol

  // 64-bit words.

  predicate Bit(w: nat, p: nat)
    decreases p
  {
    if p == 0 then w % 2 == 1 else Bit(w / 2, p - 1)
  }

  /** The word `w` with bit `p` set: fetch-or of 1 shifted left by `p`. */
  function Or(w: nat, p: nat): nat
    decreases p
  {
    if p == 0 then (if w % 2 == 1 then w else w + 1) else 2 * Or(w / 2, p - 1) + w % 2
  }

  lemma {:induction false} OrBit(w: nat, p: nat, q: nat)
    ensures Bit(Or(w, p), q) <==> p == q || Bit(w, q)
    decreases q
  {
    if p == 0 {
      if q > 0 {
        assert Or(w, 0) / 2 == w / 2;
      }
    } else {
      assert Or(w, p) / 2 == Or(w / 2, p - 1) && Or(w, p) % 2 == w % 2;
      if q > 0 {
        OrBit(w / 2, p - 1, q - 1);
      }
    }
  }

  lemma {:induction false} NoBits(p: nat)
    ensures !Bit(0, p)
    decreases p
  {
    if p > 0 {
      NoBits(p - 1);
    }
  }

  /** What `Fits` says; see `Unit` in Basics. */
  ghost predicate FitsIn(u: Unit, w: nat) {
    forall p: nat | Bit(w, p) :: p < BITS
  }

  /** No bit beyond the 64th is set. */
  ghost predicate Fits(w: nat) {
    forall u: Unit :: FitsIn(u, w)
  }

  lemma FitsZero()
    ensures Fits(0)
  {
    forall p: nat ensures !Bit(0, p) {
      NoBits(p);
    }
  }

  /** The bits set in a row of words. */
  ghost function BitsOf(ws: seq<nat>): set<nat> {
    set x: nat | x < BITS * |ws| && Bit(ws[x / BITS], x % BITS)
  }

  lemma BitsOfOr(ws: seq<nat>, i: nat, p: nat)
    requires i < |ws| && p < BITS
    ensures BitsOf(ws[i := Or(ws[i], p)]) == BitsOf(ws) + {i * BITS + p}
    ensures Fits(ws[i]) ==> Fits(Or(ws[i], p))
  {
    forall q ensures Bit(Or(ws[i], p), q) <==> p == q || Bit(ws[i], q) {
      OrBit(ws[i], p, q);
    }
    assert Fits(ws[i]) ==> FitsIn(Unit, ws[i]);
    var ws' := ws[i := Or(ws[i], p)];
    forall x: nat ensures x in BitsOf(ws') <==> x in BitsOf(ws) || x == i * BITS + p {
      if x < BITS * |ws| && x / BITS == i {
        assert ws'[x / BITS] == Or(ws[i], p);
        assert x % BITS == p <==> x == i * BITS + p;
      }
    }
  }

  lemma BitsOfClear(ws: seq<nat>, i: nat)
    requires i < |ws|
    ensures BitsOf(ws[i := 0]) == BitsOf(ws) - Word(BitsOf(ws), i)
  {
    forall p ensures !Bit(0, p) {
      NoBits(p);
    }
  }

  lemma {:induction false} PositionsSame(s: set<nat>, s': set<nat>, lo: nat, hi: nat)
    requires lo <= hi && forall x | lo <= x < hi :: x in s <==> x in s'
    ensures Positions(s, lo, hi) == Positions(s', lo, hi)
    decreases hi - lo
  {
    if lo < hi {
      PositionsSame(s, s', lo + 1, hi);
    }
  }

  lemma {:induction false} PositionsSplit(s: set<nat>, lo: nat, mid: nat, hi: nat)
    requires lo <= mid <= hi
    ensures Positions(s, lo, hi) == Positions(s, lo, mid) + Positions(s, mid, hi)
    decreases mid - lo
  {
    if lo < mid {
      PositionsSplit(s, lo + 1, mid, hi);
    }
  }

  lemma {:induction false} PositionsNone(s: set<nat>, lo: nat, hi: nat)
    requires lo <= hi && forall x | lo <= x < hi :: x !in s
    ensures Positions(s, lo, hi) == []
    decreases hi - lo
  {
    if lo < hi {
      PositionsNone(s, lo + 1, hi);
    }
  }

  /** What a scan finds when no other thread runs: of the words whose bit is set in the upper bitmap, in
      order, the agents. */
  ghost function Found(l1: set<nat>, l2: set<nat>, lo: nat, hi: nat): seq<nat>
    requires lo <= hi
    decreases hi - lo
  {
    if lo == hi then []
    else (if lo in l1 && lo < BITMAP_COUNT then Positions(l2, lo * BITS, lo * BITS + BITS) else []) +
         Found(l1, l2, lo + 1, hi)
  }

  lemma {:induction false} FoundSplit(l1: set<nat>, l2: set<nat>, lo: nat, mid: nat, hi: nat)
    requires lo <= mid <= hi
    ensures Found(l1, l2, lo, hi) == Found(l1, l2, lo, mid) + Found(l1, l2, mid, hi)
    decreases mid - lo
  {
    if lo < mid {
      FoundSplit(l1, l2, lo + 1, mid, hi);
    }
  }

  lemma {:induction false} FoundNone(l1: set<nat>, l2: set<nat>, lo: nat, hi: nat)
    requires lo <= hi && forall j | lo <= j < hi :: j !in l1 || j >= BITMAP_COUNT
    ensures Found(l1, l2, lo, hi) == []
    decreases hi - lo
  {
    if lo < hi {
      FoundNone(l1, l2, lo + 1, hi);
    }
  }

  /** If every agent's word has its bit set, a scan finds every agent, in ascending order. */
  lemma {:induction false} FoundAll(l1: set<nat>, l2: set<nat>, lo: nat, hi: nat)
    requires lo <= hi <= BITMAP_COUNT && forall a | a in l2 :: a / BITS in l1
    ensures Found(l1, l2, lo, hi) == Positions(l2, lo * BITS, hi * BITS)
    decreases hi - lo
  {
    if lo < hi {
      FoundAll(l1, l2, lo + 1, hi);
      PositionsSplit(l2, lo * BITS, lo * BITS + BITS, hi * BITS);
      if lo !in l1 {
        PositionsNone(l2, lo * BITS, lo * BITS + BITS);
      }
    }
  }

  /** What `Shows` says; see `Unit` in Basics. */
  ghost predicate ShowsIn(u: Unit, word: nat, s: set<nat>, base: nat) {
    forall p: nat | p < BITS :: Bit(word, p) <==> base + p in s
  }

  /** The bits of `word` say which of the 64 numbers from `base` are in `s`. */
  ghost predicate Shows(word: nat, s: set<nat>, base: nat) {
    forall u: Unit :: ShowsIn(u, word, s, base)
  }

  /** What `Shifted` says; see `Unit` in Basics. */
  ghost predicate ShiftedIn(u: Unit, word: nat, pos: nat, rest: nat) {
    forall p: nat :: Bit(rest, p) <==> Bit(word, pos + p)
  }

  /** What is left of `word` after `pos` shifts. */
  ghost predicate Shifted(word: nat, pos: nat, rest: nat) {
    forall u: Unit :: ShiftedIn(u, word, pos, rest)
  }

  lemma ShiftedStart(word: nat)
    ensures Shifted(word, 0, word)
  {
  }

  lemma ShiftedNext(word: nat, pos: nat, rest: nat)
    requires Shifted(word, pos, rest)
    ensures Shifted(word, pos + 1, rest / 2) && (rest % 2 == 1 <==> Bit(word, pos))
  {
    assert ShiftedIn(Unit, word, pos, rest);
    assert Bit(rest, 0) <==> Bit(word, pos + 0);
    forall p: nat ensures Bit(rest / 2, p) <==> Bit(word, pos + 1 + p) {
      assert Bit(rest, p + 1) <==> Bit(word, pos + (p + 1));
    }
  }

  lemma ShiftedOut(word: nat, pos: nat, p: nat)
    requires Shifted(word, pos, 0) && pos <= p
    ensures !Bit(word, p)
  {
    assert ShiftedIn(Unit, word, pos, 0);
    NoBits(p - pos);
    assert Bit(0, p - pos) <==> Bit(word, pos + (p - pos));
  }

  lemma ShownAt(word: nat, s: set<nat>, base: nat, p: nat)
    requires Shows(word, s, base) && p < BITS
    ensures Bit(word, p) <==> base + p in s
  {
    assert ShowsIn(Unit, word, s, base);
  }

  /** A word of a row of words shows the numbers of its place. */
  lemma WordShows(ws: seq<nat>, i: nat)
    requires i < |ws|
    ensures Shows(ws[i], BitsOf(ws), i * BITS)
  {
    forall p: nat | p < BITS ensures Bit(ws[i], p) <==> i * BITS + p in BitsOf(ws) {
      assert (i * BITS + p) / BITS == i && (i * BITS + p) % BITS == p;
    }
  }

  /** The numbers of the bits set in `word`, ascending, counted from `base`. */
  method ListBits(word: nat, base: nat, ghost s: set<nat>) returns (ids: seq<nat>)
    requires Shows(word, s, base)
    ensures ids == Positions(s, base, base + BITS)
  {
    ids := [];
    var rest, pos := word, 0;
    ShiftedStart(word);
    while pos < BITS
      invariant pos <= BITS && Shifted(word, pos, rest) && ids == Positions(s, base, base + pos)
    {
      if rest == 0 {
        break;
      }
      ShiftedNext(word, pos, rest);
      ShownAt(word, s, base, pos);
      PositionsSplit(s, base, base + pos, base + pos + 1);
      assert Positions(s, base + pos + 1, base + pos + 1) == [];
      if rest % 2 == 1 {
        ids := ids + [base + pos];
      }
      rest := rest / 2;
      pos := pos + 1;
    }
    PositionsSplit(s, base, base + pos, base + BITS);
    forall x | base + pos <= x < base + BITS ensures x !in s {
      ShiftedOut(word, pos, x - base);
      ShownAt(word, s, base, x - base);
    }
    PositionsNone(s, base + pos, base + BITS);
  }

  /** The agents left when the words from `lo` on and below `hi` whose bit is set have been taken. */
  ghost function Left(l1: set<nat>, l2: set<nat>, lo: nat, hi: nat): set<nat> {
    set a | a in l2 && !(a / BITS in l1 && lo <= a / BITS < hi)
  }

  lemma FoundNext(l1: set<nat>, l2: set<nat>, lo: nat, j: nat)
    requires lo <= j
    ensures Found(l1, l2, lo, j + 1) ==
            Found(l1, l2, lo, j) + if j in l1 && j < BITMAP_COUNT then Positions(l2, j * BITS, j * BITS + BITS) else []
  {
    FoundSplit(l1, l2, lo, j, j + 1);
    assert Found(l1, l2, j + 1, j + 1) == [];
  }

  lemma LeftNext(l1: set<nat>, l2: set<nat>, lo: nat, j: nat)
    requires lo <= j
    ensures Left(l1, l2, lo, j + 1) ==
            if j in l1 then Left(l1, l2, lo, j) - Word(Left(l1, l2, lo, j), j) else Left(l1, l2, lo, j)
  {
  }

  /** A word that has not been taken yet is as it was. */
  lemma LeftSame(l1: set<nat>, l2: set<nat>, lo: nat, j: nat)
    ensures Positions(Left(l1, l2, lo, j), j * BITS, j * BITS + BITS) == Positions(l2, j * BITS, j * BITS + BITS)
  {
    PositionsSame(Left(l1, l2, lo, j), l2, j * BITS, j * BITS + BITS);
  }

  /** The parts of `Scanned`; see `Unit` in Basics. */
  datatype Half = Reported | Remaining

  ghost predicate ScannedIn(h: Half, up: set<nat>, low: set<nat>, lo: nat, hi: nat, l2: set<nat>, ids: seq<nat>) {
    && (h.Reported? ==> lo <= hi && ids == Found(up, low, lo, hi))
    && (h.Remaining? ==> l2 == Left(up, low, lo, hi))
  }

  /** The words from `lo` on and below `hi` have been scanned: `ids` is what was found, `l2` what is left. */
  ghost predicate Scanned(up: set<nat>, low: set<nat>, lo: nat, hi: nat, l2: set<nat>, ids: seq<nat>) {
    forall h: Half :: ScannedIn(h, up, low, lo, hi, l2, ids)
  }

  /** When the loop over a word ends, early or not, no bit is left that stands for a word. */
  lemma ScanEnds(word: nat, pos: nat, rest: nat, l1: set<nat>, l2: set<nat>, base: nat, left: set<nat>, ids: seq<nat>)
    requires Shows(word, l1, base) && Shifted(word, pos, rest) && pos <= BITS
    requires pos == BITS || rest == 0 || base + pos >= BITMAP_COUNT
    requires (forall a | a in l2 :: a < BITS * BITMAP_COUNT) && Scanned(l1, l2, base, base + pos, left, ids)
    ensures Scanned(l1, l2, base, base + BITS, left, ids)
  {
    assert ScannedIn(Reported, l1, l2, base, base + pos, left, ids);
    assert ScannedIn(Remaining, l1, l2, base, base + pos, left, ids);
    forall j | base + pos <= j < base + BITS ensures j !in l1 || j >= BITMAP_COUNT {
      NoneAfter(word, pos, rest, l1, base, j);
    }
    FoundSplit(l1, l2, base, base + pos, base + BITS);
    FoundNone(l1, l2, base + pos, base + BITS);
  }

  lemma NoneAfter(word: nat, pos: nat, rest: nat, l1: set<nat>, base: nat, j: nat)
    requires Shows(word, l1, base) && Shifted(word, pos, rest) && pos <= BITS
    requires pos == BITS || rest == 0 || base + pos >= BITMAP_COUNT
    requires base + pos <= j < base + BITS
    ensures j !in l1 || j >= BITMAP_COUNT
  {
    if rest == 0 {
      ShiftedOut(word, pos, j - base);
      ShownAt(word, l1, base, j - base);
    }
  }

  lemma ScanWord(up: set<nat>, low: set<nat>, lo: nat, j: nat, l2: set<nat>, ids: seq<nat>)
    requires Scanned(up, low, lo, j, l2, ids) && (j in up ==> j < BITMAP_COUNT)
    ensures if j in up
            then Scanned(up, low, lo, j + 1, l2 - Word(l2, j), ids + Positions(l2, j * BITS, j * BITS + BITS))
            else Scanned(up, low, lo, j + 1, l2, ids)
  {
    assert ScannedIn(Reported, up, low, lo, j, l2, ids) && ScannedIn(Remaining, up, low, lo, j, l2, ids);
    FoundNext(up, low, lo, j);
    LeftNext(up, low, lo, j);
    LeftSame(up, low, lo, j);
  }

  lemma {:induction false} FoundSame(l1: set<nat>, l2: set<nat>, up: set<nat>, low: set<nat>, lo: nat, hi: nat)
    requires lo <= hi && (forall j | lo <= j < hi :: j in l1 <==> j in up)
    requires forall a: nat | lo <= a / BITS < hi :: a in l2 <==> a in low
    ensures Found(l1, l2, lo, hi) == Found(up, low, lo, hi)
    decreases hi - lo
  {
    if lo < hi {
      PositionsSame(l2, low, lo * BITS, lo * BITS + BITS);
      FoundSame(l1, l2, up, low, lo + 1, hi);
    }
  }

  lemma LeftSplit(up: set<nat>, low: set<nat>, l1: set<nat>, mid: nat, hi: nat)
    requires mid <= hi && l1 == (set j | j in up && j >= mid)
    ensures Left(l1, Left(up, low, 0, mid), mid, hi) == Left(up, low, 0, hi)
  {
  }

  /** One word of the upper bitmap after the other. */
  lemma ScanWords(up: set<nat>, low: set<nat>, l1: set<nat>, mid: nat, hi: nat, l2: set<nat>, ids: seq<nat>,
                  l2': set<nat>, ids': seq<nat>)
    requires mid <= hi && l1 == (set j | j in up && j >= mid) && Scanned(up, low, 0, mid, l2, ids)
    requires Scanned(l1, l2, mid, hi, l2', ids')
    ensures Scanned(up, low, 0, hi, l2', ids + ids')
  {
    assert ScannedIn(Reported, up, low, 0, mid, l2, ids) && ScannedIn(Remaining, up, low, 0, mid, l2, ids);
    assert ScannedIn(Reported, l1, l2, mid, hi, l2', ids') && ScannedIn(Remaining, l1, l2, mid, hi, l2', ids');
    FoundSplit(up, low, 0, mid, hi);
    FoundSame(l1, l2, up, low, mid, hi);
    LeftSplit(up, low, l1, mid, hi);
  }

  lemma ScannedAll(up: set<nat>, low: set<nat>, l2: set<nat>, ids: seq<nat>)
    requires Scanned(up, low, 0, L1_COUNT * BITS, l2, ids) && forall a | a in low :: a < BITS * BITMAP_COUNT
    ensures ids == Found(up, low, 0, L1_COUNT * BITS) && l2 == Left(up, low, 0, L1_COUNT * BITS)
    ensures (forall a | a in low :: a / BITS in up) ==> l2 == {} && ids == Positions(low, 0, BITS * BITMAP_COUNT)
  {
    assert ScannedIn(Reported, up, low, 0, L1_COUNT * BITS, l2, ids);
    assert ScannedIn(Remaining, up, low, 0, L1_COUNT * BITS, l2, ids);
    if forall a | a in low :: a / BITS in up {
      FoundSplit(up, low, 0, BITMAP_COUNT, L1_COUNT * BITS);
      FoundNone(up, low, BITMAP_COUNT, L1_COUNT * BITS);
      FoundAll(up, low, 0, BITMAP_COUNT);
    }
  }

  class ShareRegion {
    const l1bitmap: array<nat>
    const l2bitmap: array<nat>

    ghost predicate Valid()
      reads this, l1bitmap, l2bitmap
    {
      && l1bitmap.Length == L1_COUNT && l2bitmap.Length == BITMAP_COUNT && l1bitmap != l2bitmap
      && (forall i | 0 <= i < L1_COUNT :: Fits(l1bitmap[i])) && (forall i | 0 <= i < BITMAP_COUNT :: Fits(l2bitmap[i]))
    }

    ghost function L1(): set<nat>
      reads this, l1bitmap
    {
      BitsOf(l1bitmap[..])
    }

    ghost function L2(): set<nat>
      reads this, l2bitmap
    {
      BitsOf(l2bitmap[..])
    }

    constructor ()
      ensures Valid() && fresh(l1bitmap) && fresh(l2bitmap) && L1() == {} && L2() == {}
    {
      l1bitmap := new nat[L1_COUNT](_ => 0);
      l2bitmap := new nat[BITMAP_COUNT](_ => 0);
      new;
      FitsZero();
      forall p: nat ensures !Bit(0, p) {
        NoBits(p);
      }
    }

    /** Notifies an agent. */
    method UpdateBitmap(agentId: nat)
      requires Valid() && agentId < BITS * BITMAP_COUNT
      modifies l1bitmap, l2bitmap
      ensures Valid() && L1() == old(L1()) + {agentId / BITS} && L2() == old(L2()) + {agentId}
    {
      var l2idx, l2pos := agentId / BITS, agentId % BITS;
      var l1idx, l1pos := l2idx / BITS, l2idx % BITS;
      BitsOfOr(l2bitmap[..], l2idx, l2pos);
      BitsOfOr(l1bitmap[..], l1idx, l1pos);
      l2bitmap[l2idx] := Or(l2bitmap[l2idx], l2pos);
      assert l2bitmap[..] == old(l2bitmap[..])[l2idx := Or(old(l2bitmap[l2idx]), l2pos)];
      l1bitmap[l1idx] := Or(l1bitmap[l1idx], l1pos);
      assert l1bitmap[..] == old(l1bitmap[..])[l1idx := Or(old(l1bitmap[l1idx]), l1pos)];
    }

    /** Takes the agents of one word of the lower bitmap. */
    method TakeWord(l2idx: nat) returns (ids: seq<nat>)
      requires Valid() && l2idx < BITMAP_COUNT
      modifies l2bitmap
      ensures Valid() && L2() == old(L2()) - Word(old(L2()), l2idx)
      ensures ids == Positions(old(L2()), l2idx * BITS, l2idx * BITS + BITS)
    {
      var l2 := l2bitmap[l2idx];
      ghost var all := L2();
      WordShows(l2bitmap[..], l2idx);
      BitsOfClear(l2bitmap[..], l2idx);
      l2bitmap[l2idx] := 0;
      assert l2bitmap[..] == old(l2bitmap[..])[l2idx := 0];
      FitsZero();
      ids := ListBits(l2, l2idx * BITS, all);
    }

    /** Takes one word of the upper bitmap. */
    method SwapL1(l1idx: nat) returns (l1: nat)
      requires Valid() && l1idx < L1_COUNT
      modifies l1bitmap
      ensures Valid() && L1() == old(L1()) - Word(old(L1()), l1idx) && Shows(l1, old(L1()), l1idx * BITS)
    {
      l1 := l1bitmap[l1idx];
      WordShows(l1bitmap[..], l1idx);
      BitsOfClear(l1bitmap[..], l1idx);
      l1bitmap[l1idx] := 0;
      assert l1bitmap[..] == old(l1bitmap[..])[l1idx := 0];
      FitsZero();
    }

    /** Takes the agents of one word if it is marked. */
    method VisitWord(marked: bool, l2idx: nat, ids0: seq<nat>, ghost up: set<nat>, ghost low: set<nat>, ghost base: nat)
        returns (ids: seq<nat>)
      requires Valid() && Scanned(up, low, base, l2idx, L2(), ids0) && (marked <==> l2idx in up)
      requires (marked ==> l2idx < BITMAP_COUNT)
      modifies l2bitmap
      ensures Valid() && Scanned(up, low, base, l2idx + 1, L2(), ids)
    {
      ScanWord(up, low, base, l2idx, L2(), ids0);
      ids := ids0;
      if marked {
        var taken := TakeWord(l2idx);
        ids := ids + taken;
      }
    }

    /** Takes the agents of the words whose bit is set in `word`, which was taken from the upper bitmap. */
    method ScanBits(word: nat, l1idx: nat, ghost up: set<nat>) returns (ids: seq<nat>)
      requires Valid() && l1idx < L1_COUNT && Shows(word, up, l1idx * BITS)
      modifies l2bitmap
      ensures Valid() && Scanned(up, old(L2()), l1idx * BITS, l1idx * BITS + BITS, L2(), ids)
    {
      ghost var low, base := L2(), l1idx * BITS;
      var l1 := word;
      ShiftedStart(word);
      ids := [];
      var l1pos: nat := 0;
      while l1pos < BITS
        invariant l1pos <= BITS && Valid() && Shifted(word, l1pos, l1)
        invariant Scanned(up, low, base, base + l1pos, L2(), ids)
      {
        if l1 == 0 {
          break;
        }
        var l2idx := l1idx * BITS + l1pos;
        ShiftedNext(word, l1pos, l1);
        ShownAt(word, up, base, l1pos);
        if l1 % 2 == 1 && l2idx > 502 {
          break;
        }
        ids := VisitWord(l1 % 2 == 1, l2idx, ids, up, low, base);
        l1 := l1 / 2;
        l1pos := l1pos + 1;
      }
      ScanEnds(word, l1pos, l1, up, low, base, L2(), ids);
    }

    /** Takes the notified agents: with no other thread running and every agent's word marked in the upper
        bitmap, all of them, in ascending order. */
    method GetAgentIds() returns (agentIds: seq<nat>)
      requires Valid()
      modifies l1bitmap, l2bitmap
      ensures Valid() && L1() == {}
      ensures agentIds == Found(old(L1()), old(L2()), 0, L1_COUNT * BITS)
      ensures L2() == Left(old(L1()), old(L2()), 0, L1_COUNT * BITS)
      ensures (forall a | a in old(L2()) :: a / BITS in old(L1())) ==>
                L2() == {} && agentIds == Positions(old(L2()), 0, BITS * BITMAP_COUNT)
    {
      ghost var up, low := L1(), L2();
      agentIds := [];
      for l1idx := 0 to L1_COUNT
        invariant Valid() && L1() == (set j | j in up && j >= l1idx * BITS)
        invariant Scanned(up, low, 0, l1idx * BITS, L2(), agentIds)
      {
        ghost var l1, l2 := L1(), L2();
        var word := SwapL1(l1idx);
        var ids := ScanBits(word, l1idx, l1);
        ScanWords(up, low, l1, l1idx * BITS, l1idx * BITS + BITS, l2, agentIds, L2(), ids);
        agentIds := agentIds + ids;
      }
      ScannedAll(up, low, L2(), agentIds);
    }
  }
}
