/** `QUpgradableLock` as a transition system: one 64-bit lock word, any number of threads, one atomic
    instruction per step. */
module UpgradableLock {

  /** The word holds WRITER in bit 0, UPGRADED in bit 1 and the number of readers above. */
  const WRITER: nat := 1
  const UPGRADED: nat := 2
  const READER: nat := 4
  const WORD_SIZE: nat := 0x1_0000_0000_0000_0000

  /** What a thread is about to do, or holds. */
  datatype Pc =
    | Idle        // holds no guard
    | ReadAdd     // TryRead: saw no flag, about to add READER
    | ReadUndo    // TryRead: added READER but saw a flag, about to subtract it again
    | Reading     // holds a read guard
    | Claiming    // Upgrade: gave up its reader, about to try for UPGRADED
    | Draining    // Upgrade: owns UPGRADED, waiting for the readers to leave
    | Upgrading   // Upgrade: owns WRITER, about to mark its guard writable
    | Writing     // holds a write guard
    | Releasing   // Downgrade: added READER, about to clear the flags
    | Lowering    // Downgrade: cleared the flags, about to mark its guard read-only

  datatype State = State(word: nat, pc: map<nat, Pc>)

  ghost predicate Flagged(word: nat) {
    word % 4 != 0
  }

  /** The 64-bit atomic instructions. */
  function FetchAdd(word: nat): nat {
    if word + READER < WORD_SIZE then word + READER else word + READER - WORD_SIZE
  }

  function FetchSub(word: nat): nat {
    if word >= READER then word - READER else word + WORD_SIZE - READER
  }

  function OrUpgraded(word: nat): nat {
    if word % 4 < UPGRADED then word + UPGRADED else word
  }

  function ClearFlags(word: nat): nat {
    word - word % 4
  }

  datatype Action =
    | ReadLoad    // TryRead loads the word
    | ReadGrab    // TryRead adds READER
    | ReadBackOff // TryRead subtracts READER after a lost race
    | ReadDrop    // dropping a read guard subtracts READER
    | WriteGrab   // TryWrite: compare-exchange from 0 to WRITER
    | WriteMiss   // TryWriteIntern: a weak compare-exchange fails for no reason
    | WriteDrop   // dropping a write guard clears the flags
    | GiveUpRead  // Upgrade subtracts READER
    | Claim       // TryUpgrade: fetch-or of UPGRADED
    | Seize       // TryUpgradeToWrite: compare-exchange from UPGRADED to WRITER
    | MarkWrite   // Upgrade stores true in the guard
    | RetakeRead  // Downgrade adds READER
    | Unflag      // Downgrade clears the flags
    | MarkRead    // Downgrade stores false in the guard

  /** The state after thread `t` has set the word to `w` and moved to `p`. */
  function To(s: State, t: nat, w: nat, p: Pc): State {
    State(w, s.pc[t := p])
  }

  /** One atomic step of thread `t`. */
  ghost predicate Step(s: State, s': State, t: nat, a: Action) {
    t in s.pc &&
    match (a, s.pc[t])
    case (ReadLoad, Idle) => s' == To(s, t, s.word, if Flagged(s.word) then Idle else ReadAdd)
    case (ReadGrab, ReadAdd) => s' == To(s, t, FetchAdd(s.word), if Flagged(s.word) then ReadUndo else Reading)
    case (ReadBackOff, ReadUndo) => s' == To(s, t, FetchSub(s.word), Idle)
    case (ReadDrop, Reading) => s' == To(s, t, FetchSub(s.word), Idle)
    case (WriteGrab, Idle) => s' == if s.word == 0 then To(s, t, WRITER, Writing) else s
    case (WriteMiss, Idle) => s' == s
    case (WriteDrop, Writing) => s' == To(s, t, ClearFlags(s.word), Idle)
    case (GiveUpRead, Reading) => s' == To(s, t, FetchSub(s.word), Claiming)
    case (Claim, Claiming) => s' == To(s, t, OrUpgraded(s.word), if Flagged(s.word) then Claiming else Draining)
    case (Seize, Draining) => s' == if s.word == UPGRADED then To(s, t, WRITER, Upgrading) else s
    case (MarkWrite, Upgrading) => s' == To(s, t, s.word, Writing)
    case (RetakeRead, Writing) => s' == To(s, t, FetchAdd(s.word), Releasing)
    case (Unflag, Releasing) => s' == To(s, t, ClearFlags(s.word), Lowering)
    case (MarkRead, Lowering) => s' == To(s, t, s.word, Reading)
    case _ => false
  }

  ghost predicate Init(s: State) {
    s.word == 0 && |s.pc| < WORD_SIZE / READER - 1 && forall t | t in s.pc :: s.pc[t] == Idle
  }

  /** Runs start with any threads, as long as the word can count them. */
  lemma AnyThreads(threads: set<nat>) returns (s: State)
    requires |threads| < WORD_SIZE / READER - 1
    ensures Init(s) && s.pc.Keys == threads
  {
    s := State(0, map t | t in threads :: Idle);
    assert s.pc.Keys == threads && |s.pc| == |s.pc.Keys|;
  }

  ghost predicate Next(s: State, s': State) {
    exists t, a :: Step(s, s', t, a)
  }

  /** A run: an initial state, then one step of some thread after the other. */
  ghost predicate Run(run: seq<State>) {
    run != [] && Init(run[0]) && forall i | 0 < i < |run| :: Next(run[i - 1], run[i])
  }

  /** Threads whose READER is in the word: readers, would-be readers about to undo, and a writer that
      has retaken its place among the readers. */
  predicate Adds(p: Pc) {
    p.Reading? || p.ReadUndo? || p.Releasing? || p.Lowering?
  }

  /** Threads that own the flag bits. */
  predicate Owns(p: Pc) {
    p.Draining? || p.Upgrading? || p.Writing? || p.Releasing?
  }

  /** Threads that may write what the lock protects. */
  predicate MayWrite(p: Pc) {
    p.Upgrading? || p.Writing? || p.Releasing?
  }

  /** Threads that may read it. */
  predicate MayRead(p: Pc) {
    p.Reading? || p.Lowering? || MayWrite(p)
  }

  ghost function Adders(s: State): set<nat> {
    set t | t in s.pc && Adds(s.pc[t])
  }

  /** The word counts exactly the threads that added READER. */
  ghost predicate Counted(s: State) {
    |s.pc| < WORD_SIZE / READER - 1 && s.word / 4 == |Adders(s)|
  }

  /** At most one thread owns the flags; there is one exactly when a flag is set; WRITER is set while it
      may write, and UPGRADED alone while it waits for the readers to leave. */
  ghost predicate OneOwner(s: State) {
    && (forall t, u | t in s.pc && u in s.pc && Owns(s.pc[t]) && Owns(s.pc[u]) :: t == u)
    && (forall t | t in s.pc && Owns(s.pc[t]) ::
          if s.pc[t].Draining? then s.word % 4 == UPGRADED else s.word % 2 == WRITER)
    && (Flagged(s.word) ==> exists t :: t in s.pc && Owns(s.pc[t]))
  }

  /** While a thread may write, no other thread may read or write. */
  ghost predicate Exclusive(s: State) {
    forall t, u | t in s.pc && u in s.pc && MayWrite(s.pc[t]) && MayRead(s.pc[u]) :: t == u
  }

  ghost predicate Inv(s: State) {
    Counted(s) && OneOwner(s) && Exclusive(s)
  }

  lemma InitInv(s: State)
    requires Init(s)
    ensures Inv(s)
  {
    assert Adders(s) == {};
  }

  /** Moving thread `t` to `p` changes the number of adders by what `t` adds. */
  lemma AddersMove(s: State, s': State, t: nat, p: Pc)
    requires t in s.pc && s'.pc == s.pc[t := p]
    ensures |Adders(s')| == |Adders(s)| - (if Adds(s.pc[t]) then 1 else 0) + (if Adds(p) then 1 else 0)
    ensures |s'.pc| == |s.pc|
  {
    assert s'.pc.Keys == s.pc.Keys;
    var rest := Adders(s) - {t};
    assert Adders(s) == if Adds(s.pc[t]) then rest + {t} else rest;
    assert Adders(s') == if Adds(p) then rest + {t} else rest;
  }

  lemma AddersBound(s: State)
    ensures |Adders(s)| <= |s.pc|
  {
    SubsetSize(Adders(s), s.pc.Keys);
  }

  lemma {:induction false} SubsetSize(a: set<nat>, b: set<nat>)
    requires a <= b
    ensures |a| <= |b|
  {
    if a != {} {
      var x :| x in a;
      SubsetSize(a - {x}, b - {x});
    }
  }

  lemma WordArithmetic(word: nat)
    requires word < WORD_SIZE - READER
    ensures FetchAdd(word) / 4 == word / 4 + 1 && FetchAdd(word) % 4 == word % 4
    ensures word / 4 > 0 ==> FetchSub(word) / 4 == word / 4 - 1 && FetchSub(word) % 4 == word % 4
    ensures OrUpgraded(word) / 4 == word / 4 && OrUpgraded(word) % 2 == word % 2
    ensures word % 4 == 0 ==> OrUpgraded(word) % 4 == UPGRADED
    ensures word % 4 == UPGRADED ==> OrUpgraded(word) == word
    ensures Flagged(OrUpgraded(word))
    ensures ClearFlags(word) / 4 == word / 4 && ClearFlags(word) % 4 == 0
  {
  }

  lemma StepCounted(s: State, s': State, t: nat, a: Action)
    requires Counted(s) && Step(s, s', t, a)
    ensures Counted(s') && s.word < WORD_SIZE - READER
  {
    AddersMove(s, s', t, s'.pc[t]);
    AddersBound(s);
    assert s.word < WORD_SIZE - READER;
    WordArithmetic(s.word);
    assert Adds(s.pc[t]) ==> t in Adders(s);
  }

  lemma Gain(s: State, s': State, t: nat, p: Pc)
    requires OneOwner(s) && !Flagged(s.word) && t in s.pc && Owns(p) && s'.pc == s.pc[t := p]
    requires if p.Draining? then s'.word % 4 == UPGRADED else s'.word % 2 == WRITER
    ensures OneOwner(s')
  {
    assert forall u | u in s.pc :: !Owns(s.pc[u]);
    assert t in s'.pc;
  }

  lemma Lose(s: State, s': State, t: nat, p: Pc)
    requires OneOwner(s) && t in s.pc && Owns(s.pc[t]) && !Owns(p) && s'.pc == s.pc[t := p] && !Flagged(s'.word)
    ensures OneOwner(s')
  {
  }

  /** The owner moves on but keeps the flags. */
  lemma Hold(s: State, s': State, t: nat, p: Pc)
    requires OneOwner(s) && t in s.pc && Owns(s.pc[t]) && MayWrite(p) && s'.pc == s.pc[t := p] && s'.word % 2 == WRITER
    ensures OneOwner(s')
  {
    assert t in s'.pc;
  }

  /** Another thread moves and leaves the flags alone, or sets UPGRADED when there is an owner. */
  lemma Bystand(s: State, s': State, t: nat, p: Pc)
    requires OneOwner(s) && t in s.pc && !Owns(s.pc[t]) && !Owns(p) && s'.pc == s.pc[t := p]
    requires s'.word % 2 == s.word % 2 && (s.word % 4 == UPGRADED ==> s'.word % 4 == UPGRADED)
    requires Flagged(s'.word) ==> Flagged(s.word)
    ensures OneOwner(s')
  {
    if Flagged(s.word) {
      var o :| o in s.pc && Owns(s.pc[o]);
      assert o in s'.pc && s'.pc[o] == s.pc[o];
    }
  }

  /** A thread that does not own the flags before or after its step leaves them alone, or adds UPGRADED. */
  lemma BystandWord(s: State, s': State, t: nat, a: Action)
    requires Counted(s) && Step(s, s', t, a) && !Owns(s.pc[t]) && !Owns(s'.pc[t])
    ensures s'.word % 2 == s.word % 2 && (s.word % 4 == UPGRADED ==> s'.word % 4 == UPGRADED)
    ensures Flagged(s'.word) ==> Flagged(s.word)
  {
    StepCounted(s, s', t, a);
    WordArithmetic(s.word);
    assert Adds(s.pc[t]) ==> t in Adders(s);
  }

  /** What a step does to the flags when its thread owns them before or after. */
  lemma OwnerWord(s: State, s': State, t: nat, a: Action)
    requires s.word < WORD_SIZE - READER && Step(s, s', t, a)
    requires Owns(s.pc[t]) ==> if s.pc[t].Draining? then s.word % 4 == UPGRADED else s.word % 2 == WRITER
    ensures !Owns(s.pc[t]) && Owns(s'.pc[t]) ==>
              !Flagged(s.word) && if s'.pc[t].Draining? then s'.word % 4 == UPGRADED else s'.word % 2 == WRITER
    ensures Owns(s.pc[t]) && !Owns(s'.pc[t]) ==> !Flagged(s'.word)
    ensures Owns(s.pc[t]) && Owns(s'.pc[t]) ==> if MayWrite(s'.pc[t]) then s'.word % 2 == WRITER else s' == s
  {
    if Owns(s.pc[t]) {
      OwnedWord(s, s', t, a);
    } else if Owns(s'.pc[t]) {
      GainedWord(s, s', t, a);
    }
  }

  lemma GainedWord(s: State, s': State, t: nat, a: Action)
    requires s.word < WORD_SIZE - READER && Step(s, s', t, a) && !Owns(s.pc[t]) && Owns(s'.pc[t])
    ensures !Flagged(s.word) && if s'.pc[t].Draining? then s'.word % 4 == UPGRADED else s'.word % 2 == WRITER
  {
    if a.Claim? {
      WordArithmetic(s.word);
    }
  }

  lemma OwnedWord(s: State, s': State, t: nat, a: Action)
    requires s.word < WORD_SIZE - READER && Step(s, s', t, a) && Owns(s.pc[t])
    requires if s.pc[t].Draining? then s.word % 4 == UPGRADED else s.word % 2 == WRITER
    ensures if !Owns(s'.pc[t]) then !Flagged(s'.word)
            else if MayWrite(s'.pc[t]) then s'.word % 2 == WRITER else s' == s
  {
    WordArithmetic(s.word);
    if a.RetakeRead? {
      SameLow(s.word, s'.word);
    }
  }

  lemma SameLow(x: nat, y: nat)
    requires x % 4 == y % 4
    ensures x % 2 == y % 2
  {
    LowBit(x);
    LowBit(y);
  }

  lemma LowBit(x: nat)
    ensures x % 2 == x % 4 % 2
  {
    var q, r := x / 4, x % 4;
    assert x == 2 * (2 * q + r / 2) + r % 2;
  }

  lemma StepOneOwner(s: State, s': State, t: nat, a: Action)
    requires Inv(s) && Step(s, s', t, a)
    ensures OneOwner(s')
  {
    StepCounted(s, s', t, a);
    OwnerWord(s, s', t, a);
    var p := s'.pc[t];
    assert s'.pc == s.pc[t := p];
    if Owns(p) {
      if Owns(s.pc[t]) {
        if MayWrite(p) {
          Hold(s, s', t, p);
        }
      } else {
        Gain(s, s', t, p);
      }
    } else if Owns(s.pc[t]) {
      Lose(s, s', t, p);
    } else {
      BystandWord(s, s', t, a);
      Bystand(s, s', t, p);
    }
  }

  /** With no reader in the word and no other owner, a thread may start to write. */
  lemma StartWriting(s: State, s': State, t: nat, p: Pc)
    requires Counted(s) && s.word / 4 == 0 && t in s.pc && s'.pc == s.pc[t := p]
    requires forall u | u in s.pc && u != t :: !Owns(s.pc[u])
    ensures Exclusive(s')
  {
    assert forall u | u in s.pc && Adds(s.pc[u]) :: u in Adders(s);
  }

  lemma StepExclusive(s: State, s': State, t: nat, a: Action)
    requires Inv(s) && Step(s, s', t, a)
    ensures Exclusive(s')
  {
    var p := s'.pc[t];
    assert s'.pc == s.pc[t := p];
    if MayWrite(p) && !MayWrite(s.pc[t]) {
      StartWriting(s, s', t, p);
    } else if MayRead(p) && !MayRead(s.pc[t]) {
      assert !Flagged(s.word);
      assert forall u | u in s.pc :: !Owns(s.pc[u]);
    }
  }

  lemma StepInv(s: State, s': State, t: nat, a: Action)
    requires Inv(s) && Step(s, s', t, a)
    ensures Inv(s')
  {
    StepCounted(s, s', t, a);
    StepOneOwner(s, s', t, a);
    StepExclusive(s, s', t, a);
  }

  /** Every state of every run satisfies the invariant. */
  lemma {:induction false} RunInv(run: seq<State>, k: nat)
    requires Run(run) && k < |run|
    ensures Inv(run[k])
  {
    if k == 0 {
      InitInv(run[0]);
    } else {
      RunInv(run, k - 1);
      assert Next(run[k - 1], run[k]);
      var t, a :| Step(run[k - 1], run[k], t, a);
      StepInv(run[k - 1], run[k], t, a);
    }
  }

  /** Safety over whole runs: a thread that may write excludes every other reader and writer, the word is
      four times the threads that added themselves plus the flags, at most one thread owns the flags, and
      flags are set only while one does. */
  lemma RunSafe(run: seq<State>, k: nat)
    requires Run(run) && k < |run|
    ensures var s := run[k];
            && (forall t, u | t in s.pc && u in s.pc && MayWrite(s.pc[t]) && MayRead(s.pc[u]) :: t == u)
            && (forall t, u | t in s.pc && u in s.pc && Owns(s.pc[t]) && Owns(s.pc[u]) :: t == u)
            && s.word == 4 * |Adders(s)| + s.word % 4
            && (Flagged(s.word) <==> exists t :: t in s.pc && Owns(s.pc[t]))
            && ((forall t | t in s.pc :: s.pc[t].Idle?) ==> s.word == 0)
  {
    RunInv(run, k);
    var s := run[k];
    if forall t | t in s.pc :: s.pc[t].Idle? {
      assert Adders(s) == {};
    }
  }

  // When an attempt succeeds, in terms of the threads.

  ghost predicate SomeoneOwns(s: State) {
    exists t :: t in s.pc && Owns(s.pc[t])
  }

  ghost predicate SomeoneAdds(s: State) {
    exists t :: t in s.pc && Adds(s.pc[t])
  }

  /** What the word says of the threads. */
  lemma WordMeans(s: State)
    requires Inv(s)
    ensures Flagged(s.word) <==> SomeoneOwns(s)
    ensures s.word / 4 > 0 <==> SomeoneAdds(s)
    ensures s.word == 0 <==> !SomeoneOwns(s) && !SomeoneAdds(s)
    ensures (exists t :: t in s.pc && s.pc[t].Draining?) ==> (s.word == UPGRADED <==> !SomeoneAdds(s))
  {
    if SomeoneAdds(s) {
      var t :| t in s.pc && Adds(s.pc[t]);
      assert t in Adders(s);
    } else {
      assert Adders(s) == {};
    }
  }

  /** In every state of every run: an attempt to read succeeds exactly if no thread owns the flags, whether there are
      other readers or not. An attempt to write succeeds exactly if no thread owns them and none is among the readers.
      An upgrade is claimed exactly if no thread owns the flags, and completed exactly if none is among the readers. No
      step moves another thread. */
  lemma AttemptsRight(run: seq<State>, k: nat, s': State, t: nat, a: Action)
    requires Run(run) && k < |run| && Step(run[k], s', t, a)
    ensures var s := run[k];
            && s'.pc == s.pc[t := s'.pc[t]]
            && (a.ReadLoad? ==> s'.pc[t] == if SomeoneOwns(s) then Idle else ReadAdd)
            && (a.ReadGrab? ==> s'.pc[t] == if SomeoneOwns(s) then ReadUndo else Reading)
            && (a.WriteGrab? ==> s'.pc[t] == if SomeoneOwns(s) || SomeoneAdds(s) then Idle else Writing)
            && (a.Claim? ==> s'.pc[t] == if SomeoneOwns(s) then Claiming else Draining)
            && (a.Seize? ==> s'.pc[t] == if SomeoneAdds(s) then Draining else Upgrading)
  {
    RunInv(run, k);
    WordMeans(run[k]);
  }

  /** A thread that has begun to upgrade its guard goes on until it may write, and one that has begun to downgrade
      until it reads again. */
  lemma GuardKept(s: State, s': State, t: nat, a: Action)
    requires Step(s, s', t, a)
    ensures s.pc[t].Claiming? || s.pc[t].Draining? || s.pc[t].Upgrading? ==>
              s'.pc[t].Claiming? || s'.pc[t].Draining? || s'.pc[t].Upgrading? || s'.pc[t].Writing?
    ensures s.pc[t].Releasing? || s.pc[t].Lowering? ==> s'.pc[t].Lowering? || s'.pc[t].Reading?
    ensures a.GiveUpRead? ==> s'.pc[t].Claiming?
    ensures a.RetakeRead? ==> s'.pc[t].Releasing?
  {
  }

  // No reachable state is a deadlock: some schedule lets every thread finish.

  ghost predicate Path(path: seq<State>, s: State, s': State) {
    path != [] && path[0] == s && path[|path| - 1] == s' && forall i | 0 < i < |path| :: Next(path[i - 1], path[i])
  }

  lemma PathInv(path: seq<State>, s: State, s': State)
    requires Path(path, s, s') && Inv(s)
    ensures Inv(s')
    decreases |path|
  {
    if |path| > 1 {
      var k := |path| - 1;
      assert Next(path[k - 1], path[k]);
      var t, a :| Step(path[k - 1], path[k], t, a);
      PathInv(path[..k], s, path[k - 1]);
      StepInv(path[k - 1], path[k], t, a);
    }
  }

  lemma Join(path: seq<State>, path': seq<State>, s: State, m: State, s': State)
    requires Path(path, s, m) && Path(path', m, s')
    ensures Path(path + path'[1..], s, s')
  {
    var all := path + path'[1..];
    forall i | 0 < i < |all| ensures Next(all[i - 1], all[i]) {
      if i >= |path| {
        assert Next(path'[i - |path|], path'[i - |path| + 1]);
      }
    }
  }

  lemma OneStep(s: State, s': State, t: nat, a: Action) returns (path: seq<State>)
    requires Step(s, s', t, a)
    ensures Path(path, s, s')
  {
    path := [s, s'];
    assert Next(s, s');
  }

  lemma TwoSteps(s: State, m: State, s': State, t: nat, a: Action, b: Action) returns (path: seq<State>)
    requires Step(s, m, t, a) && Step(m, s', t, b)
    ensures Path(path, s, s')
  {
    path := [s, m, s'];
    assert Next(s, m) && Next(m, s');
  }

  /** A thread can get a read guard whenever no thread owns the flags. */
  lemma CanRead(s: State, t: nat) returns (path: seq<State>, s': State)
    requires Inv(s) && t in s.pc && s.pc[t].Idle? && !SomeoneOwns(s)
    ensures Path(path, s, s') && s'.pc == s.pc[t := Reading]
  {
    WordMeans(s);
    var m := To(s, t, s.word, ReadAdd);
    s' := To(m, t, FetchAdd(s.word), Reading);
    path := TwoSteps(s, m, s', t, ReadLoad, ReadGrab);
  }

  /** A thread can get a write guard whenever no thread owns the flags or is among the readers. */
  lemma CanWrite(s: State, t: nat) returns (path: seq<State>, s': State)
    requires Inv(s) && t in s.pc && s.pc[t].Idle? && !SomeoneOwns(s) && !SomeoneAdds(s)
    ensures Path(path, s, s') && s'.pc == s.pc[t := Writing]
  {
    WordMeans(s);
    s' := To(s, t, WRITER, Writing);
    path := OneStep(s, s', t, WriteGrab);
  }

  lemma OneReader(s: State, t: nat)
    requires Inv(s) && t in s.pc && s.pc[t].Reading? && !SomeoneOwns(s)
    requires forall u | u in s.pc && Adds(s.pc[u]) :: u == t
    ensures s.word == READER
  {
    WordMeans(s);
    assert Adders(s) == {t};
  }

  /** The only reader can upgrade its guard. */
  lemma CanUpgrade(s: State, t: nat) returns (path: seq<State>, s': State)
    requires Inv(s) && t in s.pc && s.pc[t].Reading? && !SomeoneOwns(s)
    requires forall u | u in s.pc && Adds(s.pc[u]) :: u == t
    ensures Path(path, s, s') && s'.pc == s.pc[t := Writing]
  {
    OneReader(s, t);
    var m, n := To(s, t, 0, Claiming), To(s, t, UPGRADED, Draining);
    var o := To(s, t, WRITER, Upgrading);
    s' := To(s, t, WRITER, Writing);
    var first := TwoSteps(s, m, n, t, GiveUpRead, Claim);
    var second := TwoSteps(n, o, s', t, Seize, MarkWrite);
    Join(first, second, s, n, s');
    path := first + second[1..];
  }

  /** A writer can always downgrade its guard. */
  lemma CanDowngrade(s: State, t: nat) returns (path: seq<State>, s': State)
    requires Inv(s) && t in s.pc && s.pc[t].Writing?
    ensures Path(path, s, s') && s'.pc == s.pc[t := Reading]
  {
    var m := To(s, t, FetchAdd(s.word), Releasing);
    var n := To(m, t, ClearFlags(m.word), Lowering);
    s' := To(n, t, n.word, Reading);
    var first := TwoSteps(s, m, n, t, RetakeRead, Unflag);
    var second := OneStep(n, s', t, MarkRead);
    Join(first, second, s, n, s');
    path := first + second[1..];
  }

  /** A thread that never waits for another: its next step takes it nearer to Idle. */
  function Distance(p: Pc): nat {
    match p
    case Idle => 0
    case ReadUndo | Reading | Writing => 1
    case ReadAdd | Lowering | Upgrading => 2
    case Releasing | Draining => 3
    case Claiming => 4
  }

  /** Alone, thread `t` can go on to the next step towards Idle. */
  ghost predicate CanGo(s: State, t: nat)
    requires t in s.pc
  {
    && (s.pc[t].Draining? ==> s.word == UPGRADED)
    && (s.pc[t].Claiming? ==> s.word == 0)
  }

  lemma {:induction false} Finish(s: State, t: nat) returns (path: seq<State>, s': State)
    requires Inv(s) && t in s.pc && CanGo(s, t)
    ensures Path(path, s, s') && s'.pc == s.pc[t := Idle]
    decreases Distance(s.pc[t])
  {
    if s.pc[t].Idle? {
      assert s.pc[t := Idle] == s.pc;
      return [s], s;
    }
    var m, a := Towards(s, t);
    StepInv(s, m, t, a);
    var first := OneStep(s, m, t, a);
    var rest;
    rest, s' := Finish(m, t);
    Join(first, rest, s, m, s');
    path := first + rest[1..];
    assert m.pc[t := Idle] == s.pc[t := Idle];
  }

  lemma Towards(s: State, t: nat) returns (m: State, a: Action)
    requires Inv(s) && t in s.pc && CanGo(s, t) && !s.pc[t].Idle?
    ensures Step(s, m, t, a) && Distance(m.pc[t]) < Distance(s.pc[t]) && m.pc == s.pc[t := m.pc[t]] && CanGo(m, t)
  {
    match s.pc[t]
    case ReadAdd =>
      a, m := ReadGrab, State(FetchAdd(s.word), s.pc[t := if Flagged(s.word) then ReadUndo else Reading]);
    case ReadUndo =>
      a, m := ReadBackOff, State(FetchSub(s.word), s.pc[t := Idle]);
    case Reading =>
      a, m := ReadDrop, State(FetchSub(s.word), s.pc[t := Idle]);
    case Claiming =>
      a, m := Claim, State(OrUpgraded(s.word), s.pc[t := Draining]);
    case Draining =>
      a, m := Seize, State(WRITER, s.pc[t := Upgrading]);
    case Upgrading =>
      a, m := MarkWrite, State(s.word, s.pc[t := Writing]);
    case Writing =>
      a, m := WriteDrop, State(ClearFlags(s.word), s.pc[t := Idle]);
    case Releasing =>
      a, m := Unflag, State(ClearFlags(s.word), s.pc[t := Lowering]);
    case Lowering =>
      a, m := MarkRead, State(s.word, s.pc[t := Reading]);
  }

  ghost function Busy(s: State): set<nat> {
    set t | t in s.pc && !s.pc[t].Idle?
  }

  /** Whatever the state, some thread that is not idle can go on alone until it is. */
  lemma SomeoneCanGo(s: State) returns (t: nat)
    requires Inv(s) && Busy(s) != {}
    ensures t in s.pc && !s.pc[t].Idle? && CanGo(s, t)
  {
    if u :| u in Busy(s) && !s.pc[u].Draining? && !s.pc[u].Claiming? {
      return u;
    }
    assert Adders(s) == {};
    if u :| u in Busy(s) && s.pc[u].Draining? {
      return u;
    }
    t :| t in Busy(s);
    assert forall u | u in s.pc :: !Owns(s.pc[u]);
  }

  lemma NobodyBusy(s: State)
    requires Inv(s) && Busy(s) == {}
    ensures s.word == 0 && forall t | t in s.pc :: s.pc[t].Idle?
  {
    assert forall t | t in s.pc && !s.pc[t].Idle? :: t in Busy(s);
    assert Adders(s) == {};
  }

  /** From every state that satisfies the invariant, so from every state of every run, some schedule leads
      to all threads being idle, and the lock word is then 0. */
  lemma {:induction false} NoDeadlock(s: State) returns (path: seq<State>, s': State)
    requires Inv(s)
    ensures Path(path, s, s') && s'.word == 0 && forall t | t in s'.pc :: s'.pc[t].Idle?
    decreases |Busy(s)|
  {
    if Busy(s) == {} {
      NobodyBusy(s);
      return [s], s;
    }
    var t := SomeoneCanGo(s);
    var first, m := Finish(s, t);
    PathInv(first, s, m);
    assert Busy(m) == Busy(s) - {t};
    var rest;
    rest, s' := NoDeadlock(m);
    Join(first, rest, s, m, s');
    path := first + rest[1..];
  }
}
