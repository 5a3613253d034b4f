/** `RingQueue` between one producer and one consumer, as a transition system: each load, store and end of a
    data copy is one step. */
module RingQueue {
  import opened Basics

  const COUNT: nat := 1024
  const U32: nat := 0x1_0000_0000

  /** A slot of the ring; torn while an item is being copied into it. */
  datatype Slot<T> = Whole(item: T) | Torn

  /** Where a call of Push is. Its `full` says whether the queue was full when `head` was loaded. */
  datatype Producer<T> =
    | NoPush
    | PushHead(item: T, head: nat, full: bool)
    | PushBoth(item: T, head: nat, tail: nat, full: bool)
    | Copying(item: T, tail: nat, full: bool)
    | Copied(item: T, tail: nat, full: bool)
    | PushDone(ok: bool, item: T, full: bool)

  /** Where a call of Pop is. Its `empty` says whether the queue was empty when `tail` was loaded. */
  datatype Consumer<T> =
    | NoPop
    | PopHead(head: nat)
    | PopBoth(head: nat, tail: nat, empty: bool)
    | Reading(head: nat, empty: bool)
    | Read(head: nat, slot: Slot<T>, empty: bool)
    | PopDone(slot: Slot<T>, empty: bool)
    | PopNone(empty: bool)

  /** The ring, the two counters, the two threads, and the items pushed and popped so far. */
  datatype State<T> = State(data: seq<Slot<T>>, head: nat, tail: nat, producer: Producer<T>, consumer: Consumer<T>,
                            pushed: seq<T>, popped: seq<Slot<T>>)

  /** The number of items the counters account for: tail.wrapping_sub(head). */
  function Available(head: nat, tail: nat): nat {
    (tail + U32 - head % U32) % U32
  }

  predicate Full<T>(s: State<T>) {
    |s.pushed| - |s.popped| == COUNT
  }

  predicate Empty<T>(s: State<T>) {
    |s.pushed| == |s.popped|
  }

  datatype Action<T> =
    | PushLoadHead(item: T) | PushLoadTail | PushCheck | CopyEnd | StoreTail | PushReturn
    | PopLoadHead | PopLoadTail | PopCheck | ReadEnd | StoreHead | PopReturn

  /** One step of the producer. */
  ghost predicate ProducerStep<T>(s: State<T>, s': State<T>, a: Action<T>)
    requires |s.data| == COUNT
  {
    match (a, s.producer)
    case (PushLoadHead(item), NoPush) => s' == s.(producer := PushHead(item, s.head, Full(s)))
    case (PushLoadTail, PushHead(item, head, full)) => s' == s.(producer := PushBoth(item, head, s.tail, full))
    case (PushCheck, PushBoth(item, head, tail, full)) =>
      if Available(head, tail) == COUNT then s' == s.(producer := PushDone(false, item, full))
      else s' == s.(producer := Copying(item, tail, full), data := s.data[tail % COUNT := Torn])
    case (CopyEnd, Copying(item, tail, full)) =>
      s' == s.(producer := Copied(item, tail, full), data := s.data[tail % COUNT := Whole(item)])
    case (StoreTail, Copied(item, tail, full)) =>
      s' == s.(producer := PushDone(true, item, full), tail := (tail + 1) % U32, pushed := s.pushed + [item])
    case (PushReturn, PushDone(ok, item, full)) => s' == s.(producer := NoPush)
    case _ => false
  }

  /** One step of the consumer. */
  ghost predicate ConsumerStep<T>(s: State<T>, s': State<T>, a: Action<T>)
    requires |s.data| == COUNT
  {
    match (a, s.consumer)
    case (PopLoadHead, NoPop) => s' == s.(consumer := PopHead(s.head))
    case (PopLoadTail, PopHead(head)) => s' == s.(consumer := PopBoth(head, s.tail, Empty(s)))
    case (PopCheck, PopBoth(head, tail, empty)) =>
      s' == s.(consumer := if Available(head, tail) == 0 then PopNone(empty) else Reading(head, empty))
    case (ReadEnd, Reading(head, empty)) => s' == s.(consumer := Read(head, s.data[head % COUNT], empty))
    case (StoreHead, Read(head, slot, empty)) =>
      s' == s.(consumer := PopDone(slot, empty), head := (head + 1) % U32, popped := s.popped + [slot])
    case (PopReturn, PopDone(slot, empty)) => s' == s.(consumer := NoPop)
    case (PopReturn, PopNone(empty)) => s' == s.(consumer := NoPop)
    case _ => false
  }

  ghost predicate Step<T>(s: State<T>, s': State<T>, a: Action<T>) {
    |s.data| == COUNT && (ProducerStep(s, s', a) || ConsumerStep(s, s', a))
  }

  ghost predicate Init<T>(s: State<T>) {
    && |s.data| == COUNT && s.head == 0 && s.tail == 0
    && s.producer.NoPush? && s.consumer.NoPop? && s.pushed == [] && s.popped == []
  }

  ghost predicate Next<T(!new)>(s: State<T>, s': State<T>) {
    exists a :: Step(s, s', a)
  }

  ghost predicate Run<T(!new)>(run: seq<State<T>>) {
    run != [] && Init(run[0]) && forall i | 0 < i < |run| :: Next(run[i - 1], run[i])
  }

  // Counters.

  lemma Difference(c: nat, p: nat)
    requires c <= p <= c + COUNT
    ensures Available(c % U32, p % U32) == p - c
  {
    var q := (p % U32 - c % U32) - (p - c);
    assert q % U32 == 0;
  }

  /** Two counts at most 1023 apart name different slots. */
  lemma Apart(k: nat, p: nat)
    requires k < p < k + COUNT
    ensures k % COUNT != p % COUNT
  {
  }

  lemma SlotOf(n: nat)
    ensures (n % U32) % COUNT == n % COUNT && (n % U32 + 1) % U32 == (n + 1) % U32
  {
  }

  /** The counters count pushes and pops modulo 2^32, at most 1024 apart, and the slots between them hold the
      items pushed and not yet popped. */
  ghost predicate Ring<T>(s: State<T>) {
    && |s.data| == COUNT && |s.popped| <= |s.pushed| <= |s.popped| + COUNT
    && s.head == |s.popped| % U32 && s.tail == |s.pushed| % U32
    && (forall k | |s.popped| <= k < |s.pushed| :: s.data[k % COUNT] == Whole(s.pushed[k]))
    && (forall k | 0 <= k < |s.popped| :: s.popped[k] == Whole(s.pushed[k]))
  }

  /** A push under way has seen a head that is not ahead of the head, and writes to a slot that holds no item. */
  ghost predicate ProducerOk<T>(s: State<T>)
    requires |s.data| == COUNT
  {
    match s.producer
    case PushHead(_, head, full) => SawHead(s, head, full)
    case PushBoth(_, head, tail, full) => SawHead(s, head, full) && tail == s.tail
    case Copying(_, tail, full) => tail == s.tail && !Full(s) && !full
    case Copied(item, tail, full) => tail == s.tail && !Full(s) && !full && s.data[tail % COUNT] == Whole(item)
    case PushDone(ok, item, full) => ok == !full && (ok ==> s.pushed != [] && s.pushed[|s.pushed| - 1] == item)
    case NoPush => true
  }

  ghost predicate SawHead<T>(s: State<T>, head: nat, full: bool) {
    exists c: nat ::
      c <= |s.popped| && |s.pushed| <= c + COUNT && head == c % U32 && (full <==> |s.pushed| == c + COUNT)
  }

  /** A pop under way has seen a tail that is not ahead of the tail, and reads a slot that holds the next item. */
  ghost predicate ConsumerOk<T>(s: State<T>) {
    match s.consumer
    case PopHead(head) => head == s.head
    case PopBoth(head, tail, empty) => head == s.head && SawTail(s, tail, empty)
    case Reading(head, empty) => head == s.head && !Empty(s) && !empty
    case Read(head, slot, empty) =>
      head == s.head && |s.popped| < |s.pushed| && slot == Whole(s.pushed[|s.popped|]) && !empty
    case PopDone(slot, empty) =>
      0 < |s.popped| <= |s.pushed| && slot == Whole(s.pushed[|s.popped| - 1]) && !empty
    case PopNone(empty) => empty
    case NoPop => true
  }

  ghost predicate SawTail<T>(s: State<T>, tail: nat, empty: bool) {
    exists p: nat :: |s.popped| <= p <= |s.pushed| && tail == p % U32 && (empty <==> p == |s.popped|)
  }

  ghost predicate Inv<T>(s: State<T>) {
    Ring(s) && ProducerOk(s) && ConsumerOk(s)
  }

  lemma ProducerKeeps<T>(s: State<T>, s': State<T>, a: Action<T>)
    requires Inv(s) && ProducerStep(s, s', a)
    ensures Ring(s') && ProducerOk(s')
  {
    var p := |s.pushed|;
    SlotOf(p);
    match s.producer
    case NoPush =>
      assert SawHead(s', s.head, Full(s)) by {
        assert |s.popped| <= |s'.popped|;
      }
    case PushHead(item, head, full) =>
      assert SawHead(s', head, full);
    case PushBoth(item, head, tail, full) =>
      var c: nat :| c <= |s.popped| && p <= c + COUNT && head == c % U32 && (full <==> p == c + COUNT);
      Difference(c, p);
      forall k | |s.popped| <= k < p && !full ensures s'.data[k % COUNT] == s.data[k % COUNT] {
        Apart(k, p);
      }
    case Copying(item, tail, full) =>
      forall k | |s.popped| <= k < p ensures s'.data[k % COUNT] == s.data[k % COUNT] {
        Apart(k, p);
      }
    case Copied(item, tail, full) =>
    case PushDone(ok, item, full) =>
  }

  /** The producer writes to no slot the consumer may read, and moves the tail only forward. */
  lemma ProducerSpares<T>(s: State<T>, s': State<T>, a: Action<T>)
    requires Inv(s) && ProducerStep(s, s', a)
    ensures ConsumerOk(s')
  {
    match s.consumer
    case PopBoth(head, tail, empty) =>
      var p: nat :| |s.popped| <= p <= |s.pushed| && tail == p % U32 && (empty <==> p == |s.popped|);
      assert p <= |s'.pushed|;
      assert SawTail(s', tail, empty);
    case _ =>
  }

  lemma ConsumerKeeps<T>(s: State<T>, s': State<T>, a: Action<T>)
    requires Inv(s) && ConsumerStep(s, s', a)
    ensures Ring(s') && ConsumerOk(s')
  {
    var c := |s.popped|;
    SlotOf(c);
    match s.consumer
    case PopHead(head) =>
      assert SawTail(s', s.tail, Empty(s)) by {
        assert |s'.popped| <= |s.pushed|;
      }
    case PopBoth(head, tail, empty) =>
      var p: nat :| c <= p <= |s.pushed| && tail == p % U32 && (empty <==> p == c);
      Difference(c, p);
    case _ =>
  }

  /** The consumer moves the head only forward, and leaves the rest to the producer. */
  lemma ConsumerSpares<T>(s: State<T>, s': State<T>, a: Action<T>)
    requires Inv(s) && ConsumerStep(s, s', a)
    ensures ProducerOk(s')
  {
    match s.producer
    case PushHead(_, head, full) => SawHeadStill(s, s', head, full);
    case PushBoth(_, head, _, full) => SawHeadStill(s, s', head, full);
    case _ =>
  }

  lemma SawHeadStill<T>(s: State<T>, s': State<T>, head: nat, full: bool)
    requires SawHead(s, head, full) && s'.pushed == s.pushed && |s.popped| <= |s'.popped|
    ensures SawHead(s', head, full)
  {
    var c: nat :| c <= |s.popped| && |s.pushed| <= c + COUNT && head == c % U32 && (full <==> |s.pushed| == c + COUNT);
    assert c <= |s'.popped|;
  }

  lemma {:induction false} RunInv<T(!new)>(run: seq<State<T>>, i: nat)
    requires Run(run) && i < |run|
    ensures Inv(run[i])
  {
    if i > 0 {
      RunInv(run, i - 1);
      var s, s' := run[i - 1], run[i];
      assert Next(s, s');
      var a :| Step(s, s', a);
      if ProducerStep(s, s', a) {
        ProducerKeeps(s, s', a);
        ProducerSpares(s, s', a);
      } else {
        ConsumerKeeps(s, s', a);
        ConsumerSpares(s, s', a);
      }
    }
  }

  /** In every run the items popped are, whole and in order, the first of the items pushed, and at most 1024
      pushed items have not been popped. */
  lemma FirstInFirstOut<T(!new)>(run: seq<State<T>>, i: nat)
    requires Run(run) && i < |run|
    ensures |run[i].popped| <= |run[i].pushed| <= |run[i].popped| + COUNT
    ensures forall k | 0 <= k < |run[i].popped| :: run[i].popped[k] == Whole(run[i].pushed[k])
  {
    RunInv(run, i);
  }

  /** In every run the slot being read is not being written. */
  lemma NeverTorn<T(!new)>(run: seq<State<T>>, i: nat)
    requires Run(run) && i < |run| && run[i].consumer.Reading?
    ensures |run[i].data| == COUNT && run[i].data[run[i].consumer.head % COUNT].Whole?
    ensures run[i].producer.Copying? ==> run[i].producer.tail % COUNT != run[i].consumer.head % COUNT
  {
    RunInv(run, i);
    var s := run[i];
    SlotOf(|s.popped|);
    SlotOf(|s.pushed|);
    if s.producer.Copying? {
      Apart(|s.popped|, |s.pushed|);
    }
  }

  /** In every run a push is refused exactly if the queue was full when it loaded the head, and has otherwise put its
      item last; a pop returns nothing exactly if the queue was empty when it loaded the tail, and otherwise the item
      whose turn it was. */
  lemma RefusalsRight<T(!new)>(run: seq<State<T>>, i: nat)
    requires Run(run) && i < |run|
    ensures run[i].producer.PushDone? ==>
              && (!run[i].producer.ok <==> run[i].producer.full)
              && (run[i].producer.ok ==>
                    run[i].pushed != [] && run[i].pushed[|run[i].pushed| - 1] == run[i].producer.item)
    ensures run[i].consumer.PopNone? ==> run[i].consumer.empty
    ensures run[i].consumer.PopDone? ==>
              && !run[i].consumer.empty && 0 < |run[i].popped| <= |run[i].pushed|
              && run[i].consumer.slot == Whole(run[i].pushed[|run[i].popped| - 1])
  {
    RunInv(run, i);
  }

  // What a call does, from its load of the other side's counter to its end.

  /** What `Took` says; see `Unit` in Basics. */
  ghost predicate TookIn<T>(u: Unit, s: State<T>, s': State<T>, a: Action<T>) {
    Step(s, s', a)
  }

  ghost predicate Took<T>(s: State<T>, s': State<T>, a: Action<T>) {
    forall u: Unit :: TookIn(u, s, s', a)
  }

  /** A run together with the steps it takes. */
  ghost predicate Acted<T(!new)>(run: seq<State<T>>, acts: seq<Action<T>>) {
    |run| == |acts| + 1 && Init(run[0]) && forall i | 0 <= i < |acts| :: Took(run[i], run[i + 1], acts[i])
  }

  lemma ActedRun<T(!new)>(run: seq<State<T>>, acts: seq<Action<T>>)
    requires Acted(run, acts)
    ensures Run(run)
  {
    forall i | 0 < i < |run| ensures Next(run[i - 1], run[i]) {
      assert Took(run[i - 1], run[i], acts[i - 1]);
      assert TookIn(Unit, run[i - 1], run[i], acts[i - 1]);
    }
  }

  lemma ActedInv<T(!new)>(run: seq<State<T>>, acts: seq<Action<T>>, i: nat)
    requires Acted(run, acts) && i < |run|
    ensures Inv(run[i])
  {
    ActedRun(run, acts);
    RunInv(run, i);
  }

  /** How far a push of `x` has come that loaded the head in state `s0`. */
  ghost predicate PushOf<T>(s0: State<T>, s: State<T>, x: T) {
    match s.producer
    case PushHead(item, _, full) => item == x && full == Full(s0) && s.pushed == s0.pushed
    case PushBoth(item, _, _, full) => item == x && full == Full(s0) && s.pushed == s0.pushed
    case Copying(item, _, full) => item == x && full == Full(s0) && s.pushed == s0.pushed
    case Copied(item, _, full) => item == x && full == Full(s0) && s.pushed == s0.pushed
    case PushDone(ok, item, full) =>
      item == x && full == Full(s0) && s.pushed == if ok then s0.pushed + [x] else s0.pushed
    case NoPush => true
  }

  lemma PushOfFirst<T>(s0: State<T>, s: State<T>, x: T)
    requires Took(s0, s, PushLoadHead(x))
    ensures PushOf(s0, s, x)
  {
    assert TookIn(Unit, s0, s, PushLoadHead(x));
  }

  lemma PushOfStep<T>(s0: State<T>, s: State<T>, s': State<T>, a: Action<T>, x: T)
    requires Inv(s) && Took(s, s', a) && PushOf(s0, s, x) && !a.PushLoadHead?
    ensures PushOf(s0, s', x)
  {
    assert TookIn(Unit, s, s', a);
  }

  lemma {:induction false} PushOfRun<T(!new)>(run: seq<State<T>>, acts: seq<Action<T>>, j: nat, i: nat, x: T)
    requires Acted(run, acts) && j < i <= |acts| && acts[j] == PushLoadHead(x)
    requires forall k | j < k < i :: !acts[k].PushLoadHead?
    ensures PushOf(run[j], run[i], x)
  {
    assert Took(run[i - 1], run[i], acts[i - 1]);
    if i == j + 1 {
      PushOfFirst(run[j], run[i], x);
    } else {
      ActedInv(run, acts, i - 1);
      PushOfRun(run, acts, j, i - 1, x);
      PushOfStep(run[j], run[i - 1], run[i], acts[i - 1], x);
    }
  }

  /** In every run a push of `x` that loaded the head at moment `j`, when it comes to its end at moment `i`, has put `x`
      after all the items pushed before if the queue had space at moment `j`, and has done nothing otherwise. */
  lemma PushRight<T(!new)>(run: seq<State<T>>, acts: seq<Action<T>>, j: nat, i: nat, x: T)
    requires Acted(run, acts) && j < i <= |acts| && acts[j] == PushLoadHead(x)
    requires (forall k | j < k < i :: !acts[k].PushLoadHead?) && run[i].producer.PushDone?
    ensures run[i].producer.ok <==> |run[j].pushed| - |run[j].popped| < COUNT
    ensures run[i].pushed == if run[i].producer.ok then run[j].pushed + [x] else run[j].pushed
  {
    ActedInv(run, acts, i);
    ActedInv(run, acts, j);
    PushOfRun(run, acts, j, i, x);
  }

  /** How far a pop has come that loaded the tail in state `s0`. */
  ghost predicate PopOf<T>(s0: State<T>, s: State<T>) {
    s0.pushed <= s.pushed &&
    match s.consumer
    case PopBoth(_, _, empty) => empty == Empty(s0) && s.popped == s0.popped
    case Reading(_, empty) => empty == Empty(s0) && s.popped == s0.popped
    case Read(_, _, empty) => empty == Empty(s0) && s.popped == s0.popped
    case PopDone(slot, empty) => empty == Empty(s0) && s.popped == s0.popped + [slot]
    case PopNone(empty) => empty == Empty(s0) && s.popped == s0.popped
    case _ => true
  }

  lemma PopOfFirst<T>(s0: State<T>, s: State<T>)
    requires Took(s0, s, PopLoadTail)
    ensures PopOf(s0, s)
  {
    assert TookIn(Unit, s0, s, PopLoadTail);
  }

  lemma PopOfStep<T>(s0: State<T>, s: State<T>, s': State<T>, a: Action<T>)
    requires Inv(s) && Took(s, s', a) && PopOf(s0, s) && !a.PopLoadTail?
    ensures PopOf(s0, s')
  {
    assert TookIn(Unit, s, s', a);
  }

  lemma {:induction false} PopOfRun<T(!new)>(run: seq<State<T>>, acts: seq<Action<T>>, j: nat, i: nat)
    requires Acted(run, acts) && j < i <= |acts| && acts[j].PopLoadTail?
    requires forall k | j < k < i :: !acts[k].PopLoadTail?
    ensures PopOf(run[j], run[i])
  {
    assert Took(run[i - 1], run[i], acts[i - 1]);
    if i == j + 1 {
      PopOfFirst(run[j], run[i]);
    } else {
      ActedInv(run, acts, i - 1);
      PopOfRun(run, acts, j, i - 1);
      PopOfStep(run[j], run[i - 1], run[i], acts[i - 1]);
    }
  }

  /** In every run a pop that loaded the tail at moment `j` comes to its end with nothing exactly if the queue was empty
      at moment `j`, and otherwise with the item that had then waited longest, which it takes from the queue. */
  lemma PopRight<T(!new)>(run: seq<State<T>>, acts: seq<Action<T>>, j: nat, i: nat)
    requires Acted(run, acts) && j < i <= |acts| && acts[j].PopLoadTail?
    requires (forall k | j < k < i :: !acts[k].PopLoadTail?) && (run[i].consumer.PopDone? || run[i].consumer.PopNone?)
    ensures run[i].consumer.PopNone? <==> |run[j].pushed| == |run[j].popped|
    ensures run[i].consumer.PopNone? ==> run[i].popped == run[j].popped
    ensures run[i].consumer.PopDone? ==>
              && |run[j].popped| < |run[j].pushed| && run[i].popped == run[j].popped + [run[i].consumer.slot]
              && run[i].consumer.slot == Whole(run[j].pushed[|run[j].popped|])
  {
    ActedInv(run, acts, i);
    ActedInv(run, acts, j);
    PopOfRun(run, acts, j, i);
  }

  // Calls end.

  /** How many steps of its own a push still has to take. */
  function PushLeft<T>(p: Producer<T>): nat {
    match p
    case NoPush => 0
    case PushDone(_, _, _) => 1
    case Copied(_, _, _) => 2
    case Copying(_, _, _) => 3
    case PushBoth(_, _, _, _) => 4
    case PushHead(_, _, _) => 5
  }

  function PopLeft<T>(c: Consumer<T>): nat {
    match c
    case NoPop => 0
    case PopDone(_, _) | PopNone(_) => 1
    case Read(_, _, _) => 2
    case Reading(_, _) => 3
    case PopBoth(_, _, _) => 4
    case PopHead(_) => 5
  }

  /** Whatever the other side does, a call under way can take its next step, and each of its steps brings it nearer to
      its end; a side with no call under way can begin one. */
  lemma WaitFree<T>(s: State<T>, x: T) returns (p: State<T>, a: Action<T>, c: State<T>, b: Action<T>)
    requires |s.data| == COUNT
    ensures Step(s, p, a) && ProducerStep(s, p, a) && Step(s, c, b) && ConsumerStep(s, c, b)
    ensures s.producer.NoPush? ==> a == PushLoadHead(x) && p.producer.PushHead?
    ensures s.consumer.NoPop? ==> b.PopLoadHead? && c.consumer.PopHead?
    ensures forall p', a' | ProducerStep(s, p', a') && !s.producer.NoPush? ::
              PushLeft(p'.producer) < PushLeft(s.producer)
    ensures forall c', b' | ConsumerStep(s, c', b') && !s.consumer.NoPop? ::
              PopLeft(c'.consumer) < PopLeft(s.consumer)
  {
    p, a := PushStep(s, x);
    c, b := PopStep(s);
  }

  lemma PushStep<T>(s: State<T>, x: T) returns (p: State<T>, a: Action<T>)
    requires |s.data| == COUNT
    ensures ProducerStep(s, p, a) && (s.producer.NoPush? ==> a == PushLoadHead(x) && p.producer.PushHead?)
  {
    match s.producer
    case NoPush => a, p := PushLoadHead(x), s.(producer := PushHead(x, s.head, Full(s)));
    case PushHead(item, head, full) => a, p := PushLoadTail, s.(producer := PushBoth(item, head, s.tail, full));
    case PushBoth(item, head, tail, full) =>
      a := PushCheck;
      p := if Available(head, tail) == COUNT then s.(producer := PushDone(false, item, full))
      else s.(producer := Copying(item, tail, full), data := s.data[tail % COUNT := Torn]);
    case Copying(item, tail, full) =>
      a, p := CopyEnd, s.(producer := Copied(item, tail, full), data := s.data[tail % COUNT := Whole(item)]);
    case Copied(item, tail, full) =>
      a := StoreTail;
      p := s.(producer := PushDone(true, item, full), tail := (tail + 1) % U32, pushed := s.pushed + [item]);
    case PushDone(ok, item, full) => a, p := PushReturn, s.(producer := NoPush);
  }

  lemma PopStep<T>(s: State<T>) returns (c: State<T>, b: Action<T>)
    requires |s.data| == COUNT
    ensures ConsumerStep(s, c, b) && (s.consumer.NoPop? ==> b.PopLoadHead? && c.consumer.PopHead?)
  {
    match s.consumer
    case NoPop => b, c := PopLoadHead, s.(consumer := PopHead(s.head));
    case PopHead(head) => b, c := PopLoadTail, s.(consumer := PopBoth(head, s.tail, Empty(s)));
    case PopBoth(head, tail, empty) =>
      b := PopCheck;
      c := s.(consumer := if Available(head, tail) == 0 then PopNone(empty) else Reading(head, empty));
    case Reading(head, empty) => b, c := ReadEnd, s.(consumer := Read(head, s.data[head % COUNT], empty));
    case Read(head, slot, empty) =>
      b, c := StoreHead, s.(consumer := PopDone(slot, empty), head := (head + 1) % U32, popped := s.popped + [slot]);
    case PopDone(_, _) => b, c := PopReturn, s.(consumer := NoPop);
    case PopNone(_) => b, c := PopReturn, s.(consumer := NoPop);
  }
}
