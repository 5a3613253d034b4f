/** The two-level trigger bitmap as a transition system: any number of threads notify agents and scan for
    notified ones, one atomic instruction per step. */
module TriggerProtocol {

  /** Agents have a bit each in the lower bitmap, and each of its words has a bit in the upper bitmap. */
  const BITS: nat := 64
  const L1_COUNT: nat := 8
  const BITMAP_COUNT: nat := 503

  /** What a thread is about to do. A thread that notifies remembers when it set the agent's bit, a thread
      that scans when it began. */
  datatype Pc =
    | Idle
    | Marking(agent: nat, since: nat)
    | Scanning(word: nat, pending: set<nat>, got: seq<nat>, begun: nat)

  datatype Event =
    | Notify(thread: nat, agent: nat)
    | Mark(thread: nat, agent: nat, since: nat)
    | Begin(thread: nat)
    | Take(thread: nat, agent: nat)
    | End(thread: nat, got: seq<nat>)

  type History = seq<Event>

  /** The bits set in the two bitmaps, the threads, and all that happened so far. */
  datatype State = State(l1: set<nat>, l2: set<nat>, pc: map<nat, Pc>, history: History)

  /** The bits of `s` that lie in its word number `k`. */
  function Word(s: set<nat>, k: nat): set<nat> {
    set x | x in s && x / BITS == k
  }

  /** The elements of `s` from `lo` on and below `hi`, ascending. */
  function Positions(s: set<nat>, lo: nat, hi: nat): seq<nat>
    requires lo <= hi
    decreases hi - lo
  {
    if lo == hi then [] else (if lo in s then [lo] else []) + Positions(s, lo + 1, hi)
  }

  function Takes(t: nat, ids: seq<nat>): History {
    seq(|ids|, i requires 0 <= i < |ids| => Take(t, ids[i]))
  }

  datatype Action =
    | SetL2(agent: nat)  // updateBitmap: fetch-or in the lower bitmap
    | SetL1              // updateBitmap: fetch-or in the upper bitmap
    | Start              // getAgentIds is called
    | SwapL1             // getAgentIds takes the next word of the upper bitmap
    | SwapL2(word: nat)  // getAgentIds takes the word of the lower bitmap for the next bit of the word it took
    | Skip(word: nat)    // getAgentIds leaves the inner loop at a bit that stands for no word
    | Finish             // getAgentIds returns

  predicate Least(s: set<nat>, j: nat) {
    j in s && forall x | x in s :: j <= x
  }

  /** One atomic step of thread `t`. */
  ghost predicate Step(s: State, s': State, t: nat, a: Action) {
    t in s.pc &&
    match (a, s.pc[t])
    case (SetL2(agent), Idle) =>
      agent < BITS * BITMAP_COUNT &&
      s' == State(s.l1, s.l2 + {agent}, s.pc[t := Marking(agent, |s.history|)], s.history + [Notify(t, agent)])
    case (SetL1, Marking(agent, since)) =>
      s' == State(s.l1 + {agent / BITS}, s.l2, s.pc[t := Idle], s.history + [Mark(t, agent, since)])
    case (Start, Idle) =>
      s' == State(s.l1, s.l2, s.pc[t := Scanning(0, {}, [], |s.history|)], s.history + [Begin(t)])
    case (SwapL1, Scanning(word, pending, got, begun)) =>
      pending == {} && word < L1_COUNT &&
      s' == State(s.l1 - Word(s.l1, word), s.l2, s.pc[t := Scanning(word + 1, Word(s.l1, word), got, begun)], s.history)
    case (SwapL2(j), Scanning(word, pending, got, begun)) =>
      Least(pending, j) && j < BITMAP_COUNT &&
      var ids := Positions(s.l2, j * BITS, j * BITS + BITS);
      s' == State(s.l1, s.l2 - Word(s.l2, j), s.pc[t := Scanning(word, pending - {j}, got + ids, begun)],
                  s.history + Takes(t, ids))
    case (Skip(j), Scanning(word, pending, got, begun)) =>
      Least(pending, j) && j >= BITMAP_COUNT &&
      s' == State(s.l1, s.l2, s.pc[t := Scanning(word, {}, got, begun)], s.history)
    case (Finish, Scanning(word, pending, got, begun)) =>
      pending == {} && word == L1_COUNT && s' == State(s.l1, s.l2, s.pc[t := Idle], s.history + [End(t, got)])
    case _ => false
  }

  ghost predicate Init(s: State) {
    s.l1 == {} && s.l2 == {} && s.history == [] && forall t | t in s.pc :: s.pc[t] == Idle
  }

  ghost predicate Next(s: State, s': State) {
    exists t, a :: Step(s, s', t, a)
  }

  /** A run: an initial state, then one step of some thread after the other. */
  ghost predicate Run(run: seq<State>) {
    run != [] && Init(run[0]) && forall i | 0 < i < |run| :: Next(run[i - 1], run[i])
  }

  // Bits set.

  lemma {:induction false} PositionsAre(s: set<nat>, lo: nat, hi: nat)
    requires lo <= hi
    ensures forall x :: x in Positions(s, lo, hi) <==> x in s && lo <= x < hi
    ensures forall i, j | 0 <= i < j < |Positions(s, lo, hi)| :: Positions(s, lo, hi)[i] < Positions(s, lo, hi)[j]
    decreases hi - lo
  {
    if lo < hi {
      PositionsAre(s, lo + 1, hi);
      var rest := Positions(s, lo + 1, hi);
      assert forall i | 0 <= i < |rest| :: rest[i] in rest;
    }
  }

  /** The list of a word's bits. */
  lemma WordPositions(s: set<nat>, j: nat)
    ensures forall x :: x in Positions(s, j * BITS, j * BITS + BITS) <==> x in Word(s, j)
  {
    PositionsAre(s, j * BITS, j * BITS + BITS);
  }

  // Bits stay in their range.

  ghost predicate Bounded(s: State) {
    && (forall j | j in s.l1 :: j < BITMAP_COUNT)
    && (forall a | a in s.l2 :: a < BITS * BITMAP_COUNT)
    && (forall t | t in s.pc && s.pc[t].Marking? :: s.pc[t].agent < BITS * BITMAP_COUNT)
    && (forall t, j | t in s.pc && s.pc[t].Scanning? && j in s.pc[t].pending :: j < BITMAP_COUNT)
    && (forall t | t in s.pc && s.pc[t].Scanning? :: s.pc[t].word <= L1_COUNT)
  }

  lemma StepBounded(s: State, s': State, t: nat, a: Action)
    requires Step(s, s', t, a) && Bounded(s)
    ensures Bounded(s') && !a.Skip?
  {
  }

  // The lower bitmap holds the agents notified since they were last reported.

  /** The last thing that happened to agent `a` is that it was notified. */
  ghost predicate Waiting(h: History, a: nat) {
    h != [] &&
    match h[|h| - 1]
    case Notify(_, b) => a == b || Waiting(h[..|h| - 1], a)
    case Take(_, b) => a != b && Waiting(h[..|h| - 1], a)
    case _ => Waiting(h[..|h| - 1], a)
  }

  lemma WaitingAppend(h: History, e: Event, a: nat)
    ensures Waiting(h + [e], a) <==>
            (e.Notify? && e.agent == a) || (Waiting(h, a) && !(e.Take? && e.agent == a))
  {
    assert (h + [e])[..|h|] == h;
  }

  lemma TakesSnoc(t: nat, ids: seq<nat>)
    requires ids != []
    ensures Takes(t, ids) == Takes(t, ids[..|ids| - 1]) + [Take(t, ids[|ids| - 1])]
  {
  }

  lemma {:induction false} WaitingTakes(h: History, t: nat, ids: seq<nat>, a: nat)
    ensures Waiting(h + Takes(t, ids), a) <==> Waiting(h, a) && a !in ids
    decreases |ids|
  {
    if ids == [] {
      assert h + Takes(t, ids) == h;
    } else {
      var front, last := ids[..|ids| - 1], ids[|ids| - 1];
      TakesSnoc(t, ids);
      assert h + Takes(t, ids) == h + Takes(t, front) + [Take(t, last)];
      WaitingAppend(h + Takes(t, front), Take(t, last), a);
      WaitingTakes(h, t, front, a);
      assert ids == front + [last];
    }
  }

  ghost predicate Current(s: State) {
    forall a :: a in s.l2 <==> Waiting(s.history, a)
  }

  lemma StepCurrent(s: State, s': State, t: nat, a: Action)
    requires Step(s, s', t, a) && Current(s)
    ensures Current(s')
  {
    forall x ensures x in s'.l2 <==> Waiting(s'.history, x) {
      if a.SwapL2? {
        var ids := Positions(s.l2, a.word * BITS, a.word * BITS + BITS);
        WordPositions(s.l2, a.word);
        WaitingTakes(s.history, t, ids, x);
      } else if |s'.history| > |s.history| {
        WaitingAppend(s.history, s'.history[|s.history|], x);
        assert s'.history == s.history + [s'.history[|s.history|]];
      }
    }
  }

  /** Every agent reported had been notified and not been reported since. */
  ghost predicate Earned(h: History) {
    forall i | 0 <= i < |h| && h[i].Take? :: Waiting(h[..i], h[i].agent)
  }

  lemma EarnedAppend(h: History, e: Event)
    requires Earned(h) && (e.Take? ==> Waiting(h, e.agent))
    ensures Earned(h + [e])
  {
    var h' := h + [e];
    forall i | 0 <= i < |h'| && h'[i].Take? ensures Waiting(h'[..i], h'[i].agent) {
      assert h'[..i] == h[..i];
      assert h[..|h|] == h;
    }
  }

  lemma {:induction false} EarnedTakes(h: History, t: nat, ids: seq<nat>)
    requires Earned(h) && (forall i | 0 <= i < |ids| :: Waiting(h, ids[i]))
    requires forall i, j | 0 <= i < j < |ids| :: ids[i] != ids[j]
    ensures Earned(h + Takes(t, ids))
    decreases |ids|
  {
    if ids == [] {
      assert h + Takes(t, ids) == h;
    } else {
      var front, last := ids[..|ids| - 1], ids[|ids| - 1];
      EarnedTakes(h, t, front);
      WaitingTakes(h, t, front, last);
      EarnedAppend(h + Takes(t, front), Take(t, last));
      TakesSnoc(t, ids);
      assert h + Takes(t, ids) == h + Takes(t, front) + [Take(t, last)];
    }
  }

  lemma StepEarned(s: State, s': State, t: nat, a: Action)
    requires Step(s, s', t, a) && Current(s) && Earned(s.history)
    ensures Earned(s'.history)
  {
    if a.SwapL2? {
      var ids := Positions(s.l2, a.word * BITS, a.word * BITS + BITS);
      PositionsAre(s.l2, a.word * BITS, a.word * BITS + BITS);
      assert forall i | 0 <= i < |ids| :: ids[i] in ids;
      EarnedTakes(s.history, t, ids);
    } else if |s'.history| > |s.history| {
      EarnedAppend(s.history, s'.history[|s.history|]);
      assert s'.history == s.history + [s'.history[|s.history|]];
    }
  }

  // What a scan returns is what it took.

  ghost function TakenBy(h: History, t: nat, from: nat): seq<nat> {
    if |h| <= from then []
    else
      var front, e := TakenBy(h[..|h| - 1], t, from), h[|h| - 1];
      if e.Take? && e.thread == t then front + [e.agent] else front
  }

  lemma TakenByAppend(h: History, e: Event, t: nat, from: nat)
    requires from <= |h|
    ensures TakenBy(h + [e], t, from) ==
            TakenBy(h, t, from) + if e.Take? && e.thread == t then [e.agent] else []
  {
    assert (h + [e])[..|h|] == h;
  }

  lemma {:induction false} TakenByTakes(h: History, u: nat, ids: seq<nat>, t: nat, from: nat)
    requires from <= |h|
    ensures TakenBy(h + Takes(u, ids), t, from) == TakenBy(h, t, from) + if u == t then ids else []
    decreases |ids|
  {
    if ids == [] {
      assert h + Takes(u, ids) == h;
    } else {
      var front, last := ids[..|ids| - 1], ids[|ids| - 1];
      TakenByTakes(h, u, front, t, from);
      TakenByAppend(h + Takes(u, front), Take(u, last), t, from);
      TakesSnoc(u, ids);
      assert h + Takes(u, ids) == h + Takes(u, front) + [Take(u, last)];
      assert ids == front + [last];
    }
  }

  ghost predicate Collected(s: State) {
    forall t | t in s.pc && s.pc[t].Scanning? ::
      s.pc[t].begun <= |s.history| && s.pc[t].got == TakenBy(s.history, t, s.pc[t].begun)
  }

  lemma StepCollected(s: State, s': State, t: nat, a: Action)
    requires Step(s, s', t, a) && Collected(s)
    ensures Collected(s')
  {
    forall u | u in s'.pc && s'.pc[u].Scanning?
      ensures s'.pc[u].begun <= |s'.history| && s'.pc[u].got == TakenBy(s'.history, u, s'.pc[u].begun)
    {
      if a.Start? && u == t {
        TakenByAppend(s.history, Begin(t), t, |s.history|);
      } else if a.SwapL2? {
        TakenByTakes(s.history, t, Positions(s.l2, a.word * BITS, a.word * BITS + BITS), u, s.pc[u].begun);
      } else if |s'.history| > |s.history| {
        TakenByAppend(s.history, s'.history[|s.history|], u, s.pc[u].begun);
        assert s'.history == s.history + [s'.history[|s.history|]];
      }
    }
  }

  /** Event number `n` begins the scan that thread `t` is at. */
  ghost predicate Opens(h: History, t: nat, n: nat) {
    && n < |h| && h[n] == Begin(t)
    && forall i | n < i < |h| && (h[i].Begin? || h[i].End?) :: h[i].thread != t
  }

  ghost predicate Begun(s: State) {
    forall t | t in s.pc && s.pc[t].Scanning? :: Opens(s.history, t, s.pc[t].begun)
  }

  lemma StepBegun(s: State, s': State, t: nat, a: Action)
    requires Step(s, s', t, a) && Begun(s)
    ensures Begun(s')
  {
    forall u | u in s'.pc && s'.pc[u].Scanning? ensures Opens(s'.history, u, s'.pc[u].begun) {
      HistoryGrows(s, s', t, a);
      if a.Start? && u == t {
        assert s'.history[|s.history|] == Begin(t);
      } else {
        assert Opens(s.history, u, s.pc[u].begun);
        OpensLater(s.history, s'.history, u, s.pc[u].begun);
      }
    }
  }

  lemma OpensLater(h: History, h': History, t: nat, n: nat)
    requires Opens(h, t, n) && |h| <= |h'| && h'[..|h|] == h
    requires forall i | |h| <= i < |h'| && (h'[i].Begin? || h'[i].End?) :: h'[i].thread != t
    ensures Opens(h', t, n)
  {
    assert forall i | 0 <= i < |h| :: h'[i] == h'[..|h|][i];
  }

  // No notification is lost.

  /** A scan has taken bit `j` of the upper bitmap and not yet word `j` of the lower one. */
  ghost predicate Held(s: State, j: nat) {
    exists t :: t in s.pc && s.pc[t].Scanning? && j in s.pc[t].pending
  }

  /** A thread is about to set bit `j` of the upper bitmap. */
  ghost predicate Marked(s: State, j: nat) {
    exists t :: t in s.pc && s.pc[t].Marking? && s.pc[t].agent / BITS == j
  }

  /** Every bit of the lower bitmap has its bit in the upper one, or a thread about to set that, or a scan
      that has taken it and is still to take the word. */
  ghost predicate Covered(s: State) {
    forall a | a in s.l2 :: a / BITS in s.l1 || Marked(s, a / BITS) || Held(s, a / BITS)
  }

  lemma HeldStep(s: State, s': State, t: nat, a: Action, j: nat)
    requires Step(s, s', t, a) && Bounded(s) && Held(s, j)
    ensures Held(s', j) || a == SwapL2(j)
  {
    StepBounded(s, s', t, a);
    var u :| u in s.pc && s.pc[u].Scanning? && j in s.pc[u].pending;
    assert u != t ==> u in s'.pc && s'.pc[u] == s.pc[u];
    assert a != SwapL2(j) ==> j in s'.pc[u].pending;
  }

  lemma MarkedStep(s: State, s': State, t: nat, a: Action, j: nat)
    requires Step(s, s', t, a) && Marked(s, j)
    ensures Marked(s', j) || j in s'.l1
  {
    var u :| u in s.pc && s.pc[u].Marking? && s.pc[u].agent / BITS == j;
    assert u != t ==> u in s'.pc && s'.pc[u] == s.pc[u];
  }

  lemma L1Step(s: State, s': State, t: nat, a: Action, j: nat)
    requires Step(s, s', t, a) && j in s.l1
    ensures j in s'.l1 || Held(s', j)
  {
    if j !in s'.l1 {
      assert t in s'.pc && j in s'.pc[t].pending;
    }
  }

  lemma StepCovered(s: State, s': State, t: nat, a: Action)
    requires Step(s, s', t, a) && Bounded(s) && Covered(s)
    ensures Covered(s')
  {
    forall x | x in s'.l2 ensures x / BITS in s'.l1 || Marked(s', x / BITS) || Held(s', x / BITS) {
      if x !in s.l2 {
        assert t in s'.pc && s'.pc[t].Marking? && s'.pc[t].agent == x;
      } else if x / BITS in s.l1 {
        L1Step(s, s', t, a, x / BITS);
      } else if Marked(s, x / BITS) {
        MarkedStep(s, s', t, a, x / BITS);
      } else {
        HeldStep(s, s', t, a, x / BITS);
      }
    }
  }

  /** Agent `a` was reported after moment `n`. */
  ghost predicate TakenAfter(h: History, a: nat, n: nat) {
    exists i :: n < i < |h| && h[i].Take? && h[i].agent == a
  }

  /** The notification of `a` at moment `n` has been reported, or its bit is set and its word is held by a
      scan or still has its bit in the upper bitmap, in word `k` or after it. */
  ghost predicate Settled(s: State, a: nat, n: nat, k: nat) {
    TakenAfter(s.history, a, n) || (a in s.l2 && ((a / BITS in s.l1 && a / BITS >= k * BITS) || Held(s, a / BITS)))
  }

  lemma HistoryGrows(s: State, s': State, t: nat, a: Action)
    requires Step(s, s', t, a)
    ensures |s.history| <= |s'.history| && s'.history[..|s.history|] == s.history
  {
  }

  lemma TakenAfterStep(s: State, s': State, t: nat, act: Action, a: nat, n: nat)
    requires Step(s, s', t, act) && n < |s.history| && (TakenAfter(s.history, a, n) || (a in s.l2 && a !in s'.l2))
    ensures TakenAfter(s'.history, a, n)
  {
    HistoryGrows(s, s', t, act);
    if TakenAfter(s.history, a, n) {
      var i :| n < i < |s.history| && s.history[i].Take? && s.history[i].agent == a;
      assert s'.history[i] == s.history[i];
    } else {
      var ids := Positions(s.l2, act.word * BITS, act.word * BITS + BITS);
      WordPositions(s.l2, act.word);
      var i :| 0 <= i < |ids| && ids[i] == a;
      assert s'.history[|s.history| + i] == Take(t, a);
    }
  }

  /** Notifications stay settled; a scan that takes word `k` of the upper bitmap can count on the words
      after it. */
  lemma SettledStep(s: State, s': State, t: nat, act: Action, a: nat, n: nat, k: nat)
    requires Step(s, s', t, act) && Bounded(s) && n < |s.history| && Settled(s, a, n, k)
    ensures Settled(s', a, n, k)
    ensures act.SwapL1? && s.pc[t].word == k ==> Settled(s', a, n, k + 1)
  {
    if TakenAfter(s.history, a, n) || a !in s'.l2 {
      TakenAfterStep(s, s', t, act, a, n);
    } else if Held(s, a / BITS) {
      HeldStep(s, s', t, act, a / BITS);
    } else {
      L1Step(s, s', t, act, a / BITS);
    }
  }

  /** A notification under way is that of an agent whose bit is set, or was set and has been taken. */
  ghost predicate MarkingOk(s: State, p: Pc, t: nat) {
    p.Marking? ==> p.since < |s.history| && s.history[p.since] == Notify(t, p.agent) &&
                   (TakenAfter(s.history, p.agent, p.since) || p.agent in s.l2)
  }

  ghost predicate MarkOk(s: State, e: Event, k: nat) {
    e.Mark? ==> e.since < |s.history| && s.history[e.since] == Notify(e.thread, e.agent) &&
                Settled(s, e.agent, e.since, k)
  }

  /** Every completed notification is settled, and for a scan those completed before it began are settled
      from the word it is at. */
  ghost predicate Tracked(s: State) {
    && (forall t | t in s.pc :: MarkingOk(s, s.pc[t], t))
    && (forall i | 0 <= i < |s.history| :: MarkOk(s, s.history[i], 0))
    && (forall t, i | t in s.pc && s.pc[t].Scanning? && 0 <= i < s.pc[t].begun <= |s.history| ::
          MarkOk(s, s.history[i], s.pc[t].word))
  }

  lemma MarkingOkStep(s: State, s': State, t: nat, act: Action, u: nat)
    requires Step(s, s', t, act) && Tracked(s) && u in s'.pc
    ensures MarkingOk(s', s'.pc[u], u)
  {
    HistoryGrows(s, s', t, act);
    assert MarkingOk(s, s.pc[u], u);
    var p := s'.pc[u];
    if p.Marking? && u != t && !(p.agent in s'.l2) {
      TakenAfterStep(s, s', t, act, p.agent, p.since);
    } else if p.Marking? && u != t && TakenAfter(s.history, p.agent, p.since) {
      TakenAfterStep(s, s', t, act, p.agent, p.since);
    }
  }

  lemma MarkOkStep(s: State, s': State, t: nat, act: Action, e: Event, k: nat)
    requires Step(s, s', t, act) && Bounded(s) && MarkOk(s, e, k)
    ensures MarkOk(s', e, k)
    ensures act.SwapL1? && s.pc[t].word == k ==> MarkOk(s', e, k + 1)
  {
    HistoryGrows(s, s', t, act);
    if e.Mark? {
      assert s'.history[e.since] == s.history[e.since];
      SettledStep(s, s', t, act, e.agent, e.since, k);
    }
  }

  /** A notification is settled when it is completed. */
  lemma NewMarkOk(s: State, s': State, t: nat)
    requires Step(s, s', t, SetL1) && Tracked(s)
    ensures MarkOk(s', s'.history[|s.history|], 0)
  {
    var p := s.pc[t];
    assert MarkingOk(s, p, t);
    assert s'.history[p.since] == s.history[p.since];
    if TakenAfter(s.history, p.agent, p.since) {
      TakenAfterStep(s, s', t, SetL1, p.agent, p.since);
    }
  }

  lemma StepTracked(s: State, s': State, t: nat, act: Action)
    requires Step(s, s', t, act) && Bounded(s) && Tracked(s) && Collected(s)
    ensures Tracked(s')
  {
    HistoryGrows(s, s', t, act);
    forall u | u in s'.pc ensures MarkingOk(s', s'.pc[u], u) {
      MarkingOkStep(s, s', t, act, u);
    }
    forall i | 0 <= i < |s'.history| ensures MarkOk(s', s'.history[i], 0) {
      if i < |s.history| {
        assert s'.history[i] == s.history[i];
        MarkOkStep(s, s', t, act, s.history[i], 0);
      } else if act.SetL1? {
        NewMarkOk(s, s', t);
      }
    }
    forall u, i | u in s'.pc && s'.pc[u].Scanning? && 0 <= i < s'.pc[u].begun <= |s'.history|
      ensures MarkOk(s', s'.history[i], s'.pc[u].word)
    {
      assert s'.history[i] == s.history[i];
      if act.Start? && u == t {
        MarkOkStep(s, s', t, act, s.history[i], 0);
      } else {
        MarkOkStep(s, s', t, act, s.history[i], s.pc[u].word);
      }
    }
  }

  ghost predicate Inv(s: State) {
    Bounded(s) && Current(s) && Earned(s.history) && Collected(s) && Begun(s) && Covered(s) && Tracked(s)
  }

  lemma {:induction false} RunInv(run: seq<State>, i: nat)
    requires Run(run) && i < |run|
    ensures Inv(run[i])
  {
    if i > 0 {
      RunInv(run, i - 1);
      var s, s' := run[i - 1], run[i];
      assert Next(s, s');
      var t, a :| Step(s, s', t, a);
      StepBounded(s, s', t, a);
      StepCurrent(s, s', t, a);
      StepEarned(s, s', t, a);
      StepCollected(s, s', t, a);
      StepBegun(s, s', t, a);
      StepCovered(s, s', t, a);
      StepTracked(s, s', t, a);
    }
  }

  /** The notification that `e` completes has been reported since it was made, or a scan of a thread other than `t` has
      still to take its word. */
  ghost predicate Safe(s: State, t: nat, e: Event)
    requires e.Mark?
  {
    && e.since < |s.history| && s.history[e.since] == Notify(e.thread, e.agent)
    && (TakenAfter(s.history, e.agent, e.since) ||
        exists u :: u != t && u in s.pc && s.pc[u].Scanning? && e.agent / BITS in s.pc[u].pending)
  }

  /** When a scan ends, every notification that was complete when it began is safe. */
  lemma EndSafe(s: State, s': State, t: nat, m: nat)
    requires Inv(s) && Step(s, s', t, Finish) && m < s.pc[t].begun && s.history[m].Mark?
    ensures Safe(s, t, s.history[m])
  {
    var e := s.history[m];
    assert MarkOk(s, e, L1_COUNT);
    if !TakenAfter(s.history, e.agent, e.since) {
      assert e.agent / BITS < BITMAP_COUNT;
      var u :| u in s.pc && s.pc[u].Scanning? && e.agent / BITS in s.pc[u].pending;
      assert u != t;
    }
  }

  /** An end in the history was put there by the last step of a scan. */
  lemma {:induction false} EndIsFinish(run: seq<State>, i: nat, k: nat) returns (j: nat)
    requires Run(run) && i < |run| && k < |run[i].history| && run[i].history[k].End?
    ensures j < i && run[j].history == run[i].history[..k] && Step(run[j], run[j + 1], run[i].history[k].thread, Finish)
    ensures run[j + 1].history == run[j].history + [run[i].history[k]]
    decreases i
  {
    assert i > 0 && Next(run[i - 1], run[i]);
    var t, a :| Step(run[i - 1], run[i], t, a);
    HistoryGrows(run[i - 1], run[i], t, a);
    var h := run[i - 1].history;
    if k < |h| {
      assert run[i].history[k] == h[k];
      j := EndIsFinish(run, i - 1, k);
      assert run[i].history[..k] == h[..k];
    } else {
      j := i - 1;
      assert run[i].history[..k] == h;
    }
  }

  /** In every run, of every scan that has ended: it returned what it took from the lower bitmap since it began, in
      order, and every notification that was complete when it began had been reported since it was made, or another scan
      had still to take its word. The scan that ends with event `k` began with event `b`, and its last step is the one
      from state `j`. */
  lemma NothingLost(run: seq<State>, i: nat, k: nat) returns (j: nat, b: nat)
    requires Run(run) && i < |run| && k < |run[i].history| && run[i].history[k].End?
    ensures var h, t := run[i].history[..k], run[i].history[k].thread;
            && j < i && run[j].history == h && run[j + 1].history == h + [run[i].history[k]]
            && Opens(h, t, b) && run[i].history[k].got == TakenBy(h, t, b)
            && forall m | 0 <= m < b && h[m].Mark? :: Safe(run[j], t, h[m])
  {
    j := EndIsFinish(run, i, k);
    RunInv(run, j);
    var s, t := run[j], run[i].history[k].thread;
    b := s.pc[t].begun;
    assert run[j + 1].history[|s.history|] == run[i].history[k];
    forall m | 0 <= m < b && s.history[m].Mark? ensures Safe(s, t, s.history[m]) {
      EndSafe(s, run[j + 1], t, m);
    }
  }

  /** In every run: what a scan has to return is what it took from the lower bitmap since it began, in
      order, and every agent taken had been notified and not been reported since. */
  lemma NothingInvented(run: seq<State>, i: nat, t: nat, m: nat)
    requires Run(run) && i < |run| && t in run[i].pc && run[i].pc[t].Scanning?
    requires m < |run[i].history| && run[i].history[m].Take?
    ensures run[i].pc[t].got == TakenBy(run[i].history, t, run[i].pc[t].begun)
    ensures Waiting(run[i].history[..m], run[i].history[m].agent)
  {
    RunInv(run, i);
  }

  /** In every run, with no thread between two steps and no scan under way: a bit set in the lower bitmap
      has its bit in the upper one, so that the next scan comes to it. */
  lemma QuietCovered(run: seq<State>, i: nat, a: nat)
    requires Run(run) && i < |run| && a in run[i].l2 && forall t | t in run[i].pc :: run[i].pc[t].Idle?
    ensures a / BITS in run[i].l1
  {
    RunInv(run, i);
  }

  // Calls do what they are asked for, and end.

  /** A step moves no other thread. A call to notify an agent records that agent, for its thread, and is complete once
      its second step has recorded the same; a scan is recorded from its beginning to its end, and leaves nothing in the
      words it takes. */
  lemma StepRecords(s: State, s': State, t: nat, a: Action)
    requires Step(s, s', t, a)
    ensures s'.pc == s.pc[t := s'.pc[t]]
    ensures a.SetL2? ==> s'.history == s.history + [Notify(t, a.agent)] && s'.pc[t] == Marking(a.agent, |s.history|)
    ensures a.SetL1? ==> s'.history == s.history + [Mark(t, s.pc[t].agent, s.pc[t].since)] && s'.pc[t].Idle?
    ensures a.Start? ==> s'.history == s.history + [Begin(t)] && s'.pc[t].Scanning?
    ensures a.SwapL1? ==> Word(s'.l1, s.pc[t].word) == {} && s'.pc[t].pending == Word(s.l1, s.pc[t].word)
    ensures a.SwapL2? ==> Word(s'.l2, a.word) == {} && s'.pc[t].pending == s.pc[t].pending - {a.word}
    ensures a.Finish? ==> s'.history == s.history + [End(t, s.pc[t].got)] && s'.pc[t].Idle?
  {
  }

  /** How many words of the upper bitmap a scan has still to take. */
  function WordsLeft(p: Pc): int {
    match p
    case Idle => 0
    case Marking(_, _) => 1
    case Scanning(word, _, _, _) => L1_COUNT - word + 1
  }

  /** How many words of the lower bitmap it has still to take for the last of them. */
  function BitsLeft(p: Pc): nat {
    if p.Scanning? then |p.pending| else 0
  }

  ghost predicate Nearer(p: Pc, p': Pc) {
    WordsLeft(p') < WordsLeft(p) || (WordsLeft(p') == WordsLeft(p) && BitsLeft(p') < BitsLeft(p))
  }

  /** Whatever the others do, a thread in the middle of a call has a next step, and each of its steps brings it nearer
      to the end of the call. */
  lemma WaitFree(s: State, t: nat) returns (s': State, a: Action)
    requires Bounded(s) && t in s.pc && !s.pc[t].Idle?
    ensures Step(s, s', t, a)
    ensures forall s1, a1 | Step(s, s1, t, a1) :: Nearer(s.pc[t], s1.pc[t])
  {
    s', a := SomeStep(s, t);
    forall s1, a1 | Step(s, s1, t, a1) ensures Nearer(s.pc[t], s1.pc[t]) {
      StepBounded(s, s1, t, a1);
    }
  }

  /** An idle thread can notify any agent, and can begin a scan. */
  lemma CanCall(s: State, t: nat, agent: nat) returns (n: State, b: State)
    requires t in s.pc && s.pc[t].Idle? && agent < BITS * BITMAP_COUNT
    ensures Step(s, n, t, SetL2(agent)) && Step(s, b, t, Start)
  {
    n := State(s.l1, s.l2 + {agent}, s.pc[t := Marking(agent, |s.history|)], s.history + [Notify(t, agent)]);
    b := State(s.l1, s.l2, s.pc[t := Scanning(0, {}, [], |s.history|)], s.history + [Begin(t)]);
  }

  lemma SomeStep(s: State, t: nat) returns (s': State, a: Action)
    requires Bounded(s) && t in s.pc && !s.pc[t].Idle?
    ensures Step(s, s', t, a)
  {
    match s.pc[t]
    case Marking(agent, since) =>
      a, s' := SetL1, State(s.l1 + {agent / BITS}, s.l2, s.pc[t := Idle], s.history + [Mark(t, agent, since)]);
    case Scanning(word, pending, got, begun) =>
      if pending != {} {
        var j := LeastOf(pending);
        var ids := Positions(s.l2, j * BITS, j * BITS + BITS);
        a := SwapL2(j);
        s' := State(s.l1, s.l2 - Word(s.l2, j), s.pc[t := Scanning(word, pending - {j}, got + ids, begun)],
                    s.history + Takes(t, ids));
      } else if word < L1_COUNT {
        a := SwapL1;
        s' := State(s.l1 - Word(s.l1, word), s.l2, s.pc[t := Scanning(word + 1, Word(s.l1, word), got, begun)],
                    s.history);
      } else {
        a, s' := Finish, State(s.l1, s.l2, s.pc[t := Idle], s.history + [End(t, got)]);
      }
  }

  lemma {:induction false} LeastOf(s: set<nat>) returns (j: nat)
    requires s != {}
    ensures Least(s, j)
  {
    var x :| x in s;
    j := x;
    if s != {x} {
      var k := LeastOf(s - {x});
      j := if k < x then k else x;
    }
    assert forall y | y in s :: y == x || y in s - {x};
  }
}
