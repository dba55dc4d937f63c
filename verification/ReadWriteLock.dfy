/** The cross-process read/write lock of src/publishsubscribe/qsystemreadwritelock_win.cpp.

  Three counters live in shared memory under one mutex; two counting semaphores put readers and
  writers to sleep. Everything between taking and releasing the mutex is one atomic step, and taking
  a token from a semaphore is a step of its own, so a thread may be overtaken between being woken
  and getting the mutex back. */
module ReadWriteLock {

  type Thread = nat

  /** Where a thread stands. A sleeping thread has counted itself as waiting and needs a token; a woken
      one has taken a token and has not yet got the mutex back. */
  datatype Phase = Idle | SleepingReader | WokenReader | SleepingWriter | WokenWriter | Reading | Writing

  datatype State = State(
    accessCount: int, waitingReaders: int, waitingWriters: int,
    readerTokens: int, writerTokens: int,
    phase: map<Thread, Phase>)

  datatype Event =
    | EnterRead(thread: Thread)
    | EnterWrite(thread: Thread)
    | TakeReaderToken(thread: Thread)
    | TakeWriterToken(thread: Thread)
    | ResumeRead(thread: Thread)
    | ResumeWrite(thread: Thread)
    | Unlock(thread: Thread)

  const INT_MAX: int := 0x7fff_ffff

  // ---------------------------------------------------------------------------------------------
  // The step relation
  // ---------------------------------------------------------------------------------------------

  predicate Initial(s: State) {
    && s.accessCount == s.waitingReaders == s.waitingWriters == s.readerTokens == s.writerTokens == 0
    && forall t | t in s.phase :: s.phase[t] == Idle
  }

  predicate Enabled(s: State, e: Event) {
    && e.thread in s.phase
    && match e
       case EnterRead(t) => s.phase[t] == Idle
       case EnterWrite(t) => s.phase[t] == Idle
       case TakeReaderToken(t) => s.phase[t] == SleepingReader && s.readerTokens > 0
       case TakeWriterToken(t) => s.phase[t] == SleepingWriter && s.writerTokens > 0
       case ResumeRead(t) => s.phase[t] == WokenReader
       case ResumeWrite(t) => s.phase[t] == WokenWriter
       case Unlock(t) => s.phase[t] == Reading || s.phase[t] == Writing
  }

  /** The test that guards the loop of lockForRead, and what follows it under the mutex. */
  function AdmitReader(s: State, t: Thread): State {
    if s.accessCount < 0 || s.waitingWriters > 0
    then s.(waitingReaders := s.waitingReaders + 1, phase := s.phase[t := SleepingReader])
    else s.(accessCount := s.accessCount + 1, phase := s.phase[t := Reading])
  }

  /** The test that guards the loop of lockForWrite, and what follows it under the mutex. */
  function AdmitWriter(s: State, t: Thread): State {
    if s.accessCount != 0
    then s.(waitingWriters := s.waitingWriters + 1, phase := s.phase[t := SleepingWriter])
    else s.(accessCount := s.accessCount - 1, phase := s.phase[t := Writing])
  }

  /** What unlock does to the shared memory and the semaphores, whoever calls it. */
  function Unlocked(s: State): State {
    var count := if s.accessCount > 0 then s.accessCount - 1
                 else if s.accessCount < 0 then s.accessCount + 1 else s.accessCount;
    var s1 := s.(accessCount := count);
    if s.accessCount == 0 || count != 0 then s1
    else if s.waitingWriters > 0 then s1.(writerTokens := s.writerTokens + 1)
    else if s.waitingReaders != 0 then s1.(readerTokens := s.readerTokens + s.waitingReaders)
    else s1
  }

  function Release(s: State, t: Thread): State {
    Unlocked(s).(phase := s.phase[t := Idle])
  }

  function Next(s: State, e: Event): State {
    match e
    case EnterRead(t) => AdmitReader(s, t)
    case EnterWrite(t) => AdmitWriter(s, t)
    case TakeReaderToken(t) => s.(readerTokens := s.readerTokens - 1, phase := s.phase[t := WokenReader])
    case TakeWriterToken(t) => s.(writerTokens := s.writerTokens - 1, phase := s.phase[t := WokenWriter])
    case ResumeRead(t) => AdmitReader(s.(waitingReaders := s.waitingReaders - 1), t)
    case ResumeWrite(t) => AdmitWriter(s.(waitingWriters := s.waitingWriters - 1), t)
    case Unlock(t) => Release(s, t)
  }

  /** A run of any number of threads: `states[i + 1]` is `states[i]` after `events[i]`. */
  ghost predicate Steps(states: seq<State>, events: seq<Event>) {
    && |states| == |events| + 1
    && forall i | 0 <= i < |events| :: Enabled(states[i], events[i]) && states[i + 1] == Next(states[i], events[i])
  }

  ghost predicate Run(states: seq<State>, events: seq<Event>) {
    Steps(states, events) && Initial(states[0])
  }

  // ---------------------------------------------------------------------------------------------
  // The inductive invariant
  // ---------------------------------------------------------------------------------------------

  ghost function In(s: State, p: Phase): set<Thread> {
    set t | t in s.phase && s.phase[t] == p
  }

  ghost function Count(s: State, p: Phase): nat {
    |In(s, p)|
  }

  ghost predicate ExactCounters(s: State) {
    && s.accessCount == Count(s, Reading) - Count(s, Writing)
    && (Count(s, Writing) > 0 ==> Count(s, Writing) == 1 && Count(s, Reading) == 0)
    && s.waitingReaders == Count(s, SleepingReader) + Count(s, WokenReader)
    && s.waitingWriters == Count(s, SleepingWriter) + Count(s, WokenWriter)
    && s.readerTokens >= 0
    && s.writerTokens >= 0
  }

  /** Tokens are where they are needed: no sleeping reader lacks one while readers may enter, and a
      free lock with waiting writers has a writer token in the semaphore or in some writer's hands. */
  ghost predicate TokensSuffice(s: State) {
    && (s.accessCount >= 0 && s.waitingWriters == 0 ==> s.readerTokens >= Count(s, SleepingReader))
    && (s.accessCount == 0 && s.waitingWriters > 0 ==> s.writerTokens > 0 || Count(s, WokenWriter) > 0)
  }

  ghost predicate Inv(s: State) {
    ExactCounters(s) && TokensSuffice(s)
  }

  lemma Without(s: State, s': State, t: Thread, q: Phase)
    requires t in s.phase && t in s'.phase && s'.phase == s.phase[t := s'.phase[t]]
    ensures In(s', q) - {t} == In(s, q) - {t}
  {
  }

  lemma CountWithout(s: State, t: Thread, q: Phase)
    requires t in s.phase
    ensures Count(s, q) == |In(s, q) - {t}| + (if s.phase[t] == q then 1 else 0)
  {
    if s.phase[t] == q {
      assert In(s, q) == (In(s, q) - {t}) + {t};
    } else {
      assert In(s, q) - {t} == In(s, q);
    }
  }

  /** Moving one thread adds it to one phase and takes it from the phase it was in. */
  lemma Moved(s: State, s': State, t: Thread, q: Phase)
    requires t in s.phase && t in s'.phase && s'.phase == s.phase[t := s'.phase[t]]
    ensures Count(s', q) == Count(s, q) - (if s.phase[t] == q then 1 else 0) + (if s'.phase[t] == q then 1 else 0)
  {
    Without(s, s', t, q);
    CountWithout(s, t, q);
    CountWithout(s', t, q);
  }

  lemma MovedAll(s: State, s': State, t: Thread)
    requires t in s.phase && t in s'.phase && s'.phase == s.phase[t := s'.phase[t]]
    ensures forall q ::
              Count(s', q) == Count(s, q) - (if s.phase[t] == q then 1 else 0) + (if s'.phase[t] == q then 1 else 0)
    ensures Count(s, s.phase[t]) > 0
  {
    forall q
      ensures Count(s', q) == Count(s, q) - (if s.phase[t] == q then 1 else 0) + (if s'.phase[t] == q then 1 else 0)
    {
      Moved(s, s', t, q);
    }
    assert t in In(s, s.phase[t]);
  }

  lemma {:induction false} StepKeepsInvariant(s: State, e: Event)
    requires Inv(s) && Enabled(s, e)
    ensures Inv(Next(s, e))
  {
    MovedAll(s, Next(s, e), e.thread);
    match e {
      case EnterRead(t) =>
      case EnterWrite(t) =>
      case TakeReaderToken(t) =>
      case TakeWriterToken(t) =>
      case ResumeRead(t) =>
      case ResumeWrite(t) =>
      case Unlock(t) =>
    }
  }

  lemma {:induction false} InvariantAlongSteps(states: seq<State>, events: seq<Event>, i: nat)
    requires Steps(states, events) && Inv(states[0]) && i < |states|
    ensures Inv(states[i])
  {
    if i > 0 {
      InvariantAlongSteps(states, events, i - 1);
      StepKeepsInvariant(states[i - 1], events[i - 1]);
    }
  }

  lemma InitialInvariant(s: State)
    requires Initial(s)
    ensures Inv(s)
  {
    forall p | p != Idle
      ensures Count(s, p) == 0
    {
      assert In(s, p) == {};
    }
  }

  /** In every state of every run the counters are exact and the tokens suffice. */
  lemma ReachableInvariant(states: seq<State>, events: seq<Event>, i: nat)
    requires Run(states, events) && i < |states|
    ensures Inv(states[i])
  {
    InitialInvariant(states[0]);
    InvariantAlongSteps(states, events, i);
  }

  // ---------------------------------------------------------------------------------------------
  // Mutual exclusion
  // ---------------------------------------------------------------------------------------------

  /** The access counter tells exactly who holds the lock; a writer holds it alone. */
  lemma MutualExclusion(states: seq<State>, events: seq<Event>, i: nat)
    requires Run(states, events) && i < |states|
    ensures var s := states[i];
      && (s.accessCount == -1 <==> Count(s, Writing) == 1 && Count(s, Reading) == 0)
      && (s.accessCount >= 0 <==> Count(s, Writing) == 0)
      && (s.accessCount >= 0 ==> s.accessCount == Count(s, Reading))
      && s.accessCount >= -1
      && forall t, u | t in s.phase && u in s.phase && t != u && s.phase[t] == Writing ::
           s.phase[u] != Writing && s.phase[u] != Reading
  {
    ReachableInvariant(states, events, i);
    var s := states[i];
    forall t, u | t in s.phase && u in s.phase && t != u && s.phase[t] == Writing
      ensures s.phase[u] != Writing && s.phase[u] != Reading
    {
      assert t in In(s, Writing);
      if s.phase[u] == Writing {
        assert {t, u} <= In(s, Writing);
        CardinalityMonotone({t, u}, In(s, Writing));
      }
      assert u in In(s, s.phase[u]);
    }
  }

  lemma {:induction false} CardinalityMonotone(a: set<Thread>, b: set<Thread>)
    requires a <= b
    ensures |a| <= |b|
  {
    if a != {} {
      var t :| t in a;
      CardinalityMonotone(a - {t}, b - {t});
    }
  }

  /** With at most INT_MAX threads no counter overflows its 32-bit word, so "Overflow in lock counter"
      cannot happen. */
  lemma CountersFit(s: State)
    requires Inv(s) && |s.phase| <= INT_MAX
    ensures -1 <= s.accessCount <= INT_MAX
    ensures 0 <= s.waitingReaders <= INT_MAX && 0 <= s.waitingWriters <= INT_MAX
  {
    CardinalityMonotone(In(s, Reading), s.phase.Keys);
    TwoPhasesFit(s, SleepingReader, WokenReader);
    TwoPhasesFit(s, SleepingWriter, WokenWriter);
  }

  lemma TwoPhasesFit(s: State, p: Phase, q: Phase)
    requires p != q
    ensures Count(s, p) + Count(s, q) <= |s.phase|
  {
    assert In(s, p) !! In(s, q);
    CardinalityMonotone(In(s, p) + In(s, q), s.phase.Keys);
  }

  function Zeroed(s: State): State {
    s.(accessCount := 0, waitingReaders := 0, waitingWriters := 0)
  }

  /** Construction in Create mode zeroes the three shared counters. On a lock that is already in use
      this keeps the invariant exactly when no thread holds the lock or waits for it. */
  lemma CreateAgain(s: State)
    requires Inv(s)
    ensures Inv(Zeroed(s)) <==> forall t | t in s.phase :: s.phase[t] == Idle
  {
    var z := Zeroed(s);
    forall p
      ensures In(z, p) == In(s, p)
    {
    }
    if Inv(z) {
      forall t | t in s.phase
        ensures s.phase[t] == Idle
      {
        assert t in In(s, s.phase[t]);
      }
    }
    if forall t | t in s.phase :: s.phase[t] == Idle {
      InitialInvariant(z.(readerTokens := 0, writerTokens := 0));
      assert forall p :: In(z, p) == In(z.(readerTokens := 0, writerTokens := 0), p);
    }
  }

  predicate Holds(s: State, t: Thread) {
    t in s.phase && (s.phase[t] == Reading || s.phase[t] == Writing)
  }

  /** An unlock by a thread that does not hold the lock keeps the invariant exactly if nobody holds it, which is
      when the check for unlocking an unlocked lock fires. */
  lemma {:induction false} StrayUnlock(s: State, t: Thread)
    requires Inv(s) && !Holds(s, t)
    ensures Inv(Unlocked(s)) <==> s.accessCount == 0
  {
    SamePhases(s, Unlocked(s));
  }

  lemma {:induction false} SamePhases(s: State, s': State)
    requires s'.phase == s.phase
    ensures forall q :: Count(s', q) == Count(s, q)
  {
    forall q
      ensures Count(s', q) == Count(s, q)
    {
      assert In(s', q) == In(s, q);
    }
  }

  /** In any state with the invariant, and so in any that a run reaches: a reader is admitted at once exactly if
      nobody writes and no writer waits, a writer exactly if nobody reads or writes. */
  lemma {:induction false} AdmittedAtOnce(s: State, t: Thread)
    requires Inv(s) && t in s.phase && s.phase[t] == Idle
    ensures Next(s, EnterRead(t)).phase[t] == Reading <==>
              Count(s, Writing) == Count(s, SleepingWriter) == Count(s, WokenWriter) == 0
    ensures Next(s, EnterWrite(t)).phase[t] == Writing <==> Count(s, Writing) == Count(s, Reading) == 0
  {
    hide Count;
  }

  // ---------------------------------------------------------------------------------------------
  // No lost wake-up
  // ---------------------------------------------------------------------------------------------

  predicate WaitEvent(e: Event) {
    e.TakeReaderToken? || e.TakeWriterToken? || e.ResumeRead? || e.ResumeWrite?
  }

  predicate WaitingReader(s: State, t: Thread) {
    t in s.phase && (s.phase[t] == SleepingReader || s.phase[t] == WokenReader)
  }

  predicate WaitingWriter(s: State, t: Thread) {
    t in s.phase && (s.phase[t] == SleepingWriter || s.phase[t] == WokenWriter)
  }

  /** While no writer holds or waits, every sleeping reader can, on its own, take a token and be
      admitted. */
  lemma SleepingReaderCanEnter(states: seq<State>, events: seq<Event>, i: nat, t: Thread)
    requires Run(states, events) && i < |states|
    requires states[i].accessCount >= 0 && states[i].waitingWriters == 0
    requires t in states[i].phase && states[i].phase[t] == SleepingReader
    ensures Enabled(states[i], TakeReaderToken(t))
    ensures var s := Next(states[i], TakeReaderToken(t));
      Enabled(s, ResumeRead(t)) && Next(s, ResumeRead(t)).phase == states[i].phase[t := Reading]
  {
    ReachableInvariant(states, events, i);
    assert t in In(states[i], SleepingReader);
  }

  /** The lock is never free with every waiter blocked: some waiter can take a step. */
  lemma FreeLockHasRunnableWaiter(s: State, t: Thread) returns (e: Event)
    requires Inv(s) && s.accessCount == 0
    requires WaitingReader(s, t) || WaitingWriter(s, t)
    ensures WaitEvent(e) && Enabled(s, e)
  {
    assert t in In(s, s.phase[t]);
    if s.waitingWriters > 0 {
      if Count(s, WokenWriter) > 0 {
        var w :| w in In(s, WokenWriter);
        e := ResumeWrite(w);
      } else {
        var w :| w in In(s, SleepingWriter);
        e := TakeWriterToken(w);
      }
    } else if s.phase[t] == WokenReader {
      e := ResumeRead(t);
    } else {
      e := TakeReaderToken(t);
    }
  }

  /** What the waiters can still do before someone releases the lock again: each token buys a wake-up,
      and each wake-up one test of the guard. */
  ghost function Potential(s: State): int {
    2 * (s.readerTokens + s.writerTokens) + Count(s, WokenReader) + Count(s, WokenWriter)
  }

  lemma WaitStepSpends(s: State, e: Event)
    requires Inv(s) && Enabled(s, e) && WaitEvent(e)
    ensures Potential(Next(s, e)) == Potential(s) - 1
  {
    MovedAll(s, Next(s, e), e.thread);
  }

  lemma WaitStepNeverFrees(s: State, e: Event)
    requires Inv(s) && Enabled(s, e) && WaitEvent(e)
    requires Next(s, e).accessCount == 0
    ensures s.accessCount == 0
    ensures forall t :: WaitingReader(Next(s, e), t) || WaitingWriter(Next(s, e), t)
                        <==> WaitingReader(s, t) || WaitingWriter(s, t)
  {
    MovedAll(s, Next(s, e), e.thread);
  }

  lemma {:induction false} WaitStepsKeepWaiters(states: seq<State>, events: seq<Event>, t: Thread)
    requires Steps(states, events) && Inv(states[0])
    requires forall e | e in events :: WaitEvent(e)
    ensures |events| + Potential(states[|events|]) == Potential(states[0])
    ensures Inv(states[|events|])
    ensures states[|events|].accessCount == 0 ==> states[0].accessCount == 0
    ensures states[|events|].accessCount == 0 && (WaitingReader(states[0], t) || WaitingWriter(states[0], t)) ==>
              WaitingReader(states[|events|], t) || WaitingWriter(states[|events|], t)
  {
    if |events| > 0 {
      var n := |events| - 1;
      assert events[n] in events;
      WaitStepsKeepWaiters(states[..n + 1], events[..n], t);
      StepKeepsInvariant(states[n], events[n]);
      WaitStepSpends(states[n], events[n]);
      if states[n + 1].accessCount == 0 {
        WaitStepNeverFrees(states[n], events[n]);
      }
    }
  }

  /** However tokens are stolen and however often threads wake in vain: if only waiters run from a
      free lock that someone waits for, they stop after a bounded number of steps, and by then one of
      them has been given the lock. */
  lemma WaitersAdmitOne(states: seq<State>, events: seq<Event>, t: Thread)
    requires Steps(states, events) && Inv(states[0])
    requires forall e | e in events :: WaitEvent(e)
    requires states[0].accessCount == 0 && (WaitingReader(states[0], t) || WaitingWriter(states[0], t))
    ensures |events| <= Potential(states[0])
    ensures (forall e :: WaitEvent(e) ==> !Enabled(states[|events|], e)) ==> states[|events|].accessCount != 0
  {
    WaitStepsKeepWaiters(states, events, t);
    var last := states[|events|];
    if last.accessCount == 0 {
      var e := FreeLockHasRunnableWaiter(last, t);
      assert WaitEvent(e) && Enabled(last, e);
    }
  }

  // ---------------------------------------------------------------------------------------------
  // Writer preference
  // ---------------------------------------------------------------------------------------------

  lemma NoReaderPastWaitingWriter(s: State, e: Event, w: Thread)
    requires Inv(s) && Enabled(s, e) && WaitingWriter(s, w)
    ensures In(Next(s, e), Reading) <= In(s, Reading)
  {
    assert w in In(s, s.phase[w]);
  }

  /** From the moment a writer has counted itself as waiting until it is admitted, the set of readers
      inside only shrinks, whoever overtakes it and however often it wakes and sleeps again. */
  lemma {:induction false} WriterPreference(states: seq<State>, events: seq<Event>, i: nat, j: nat, w: Thread)
    requires Run(states, events) && i <= j < |states|
    requires forall k | i <= k <= j :: WaitingWriter(states[k], w)
    ensures In(states[j], Reading) <= In(states[i], Reading)
  {
    if i < j {
      WriterPreference(states, events, i, j - 1, w);
      ReachableInvariant(states, events, j - 1);
      NoReaderPastWaitingWriter(states[j - 1], events[j - 1], w);
    }
  }

  // ---------------------------------------------------------------------------------------------
  // The shared memory, updated in place
  // ---------------------------------------------------------------------------------------------

  datatype LockError =
    NoError | PermissionDenied | KeyError | NotFound | LockError | OutOfResources | FailedToInitialize | UnknownError

  /** What became of a call after one section under the mutex. */
  datatype Outcome = Refused | Blocked | Admitted

  datatype AccessMode = Open | Create

  /** One try to get the shared memory: how attaching went, and creating if there was none to attach to. */
  datatype Attempt = Attempt(attach: LockError, create: LockError)

  const RETRIES: nat := 5

  function Tried(a: Attempt): LockError {
    if a.attach == NotFound then a.create else a.attach
  }

  ghost predicate Attaches(attempts: seq<Attempt>) {
    exists k | 0 <= k < |attempts| :: Tried(attempts[k]) == NoError
  }

  /** The error that the last try leaves. */
  function Last(attempts: seq<Attempt>): LockError
    requires attempts != []
  {
    Tried(attempts[|attempts| - 1])
  }

  /** Getting the shared memory, with a few retries. */
  method Attach(attempts: seq<Attempt>) returns (error: LockError)
    requires |attempts| == RETRIES
    ensures error == if Attaches(attempts) then NoError else Last(attempts)
    ensures error == NoError <==>
              exists k | 0 <= k < |attempts| ::
                attempts[k].attach == NoError || (attempts[k].attach == NotFound && attempts[k].create == NoError)
    ensures var last := attempts[RETRIES - 1];
      error != NoError ==> error == if last.attach == NotFound then last.create else last.attach
  {
    var i := 0;
    error := NotFound;
    while i < RETRIES
      invariant 0 <= i <= RETRIES
      invariant forall k | 0 <= k < i :: Tried(attempts[k]) != NoError
      invariant i > 0 ==> error == Tried(attempts[i - 1])
    {
      error := attempts[i].attach;
      if error == NotFound {
        error := attempts[i].create;
      }
      if error == NoError {
        assert Attaches(attempts);
        return;
      }
      i := i + 1;
    }
  }

  class SystemReadWriteLock {
    var accessCount: int
    var waitingReaders: int
    var waitingWriters: int
    var readerTokens: int
    var writerTokens: int
    var initialized: bool
    var error: LockError
    ghost var phase: map<Thread, Phase>

    ghost function View(): State
      reads this
    {
      State(accessCount, waitingReaders, waitingWriters, readerTokens, writerTokens, phase)
    }

    /** Construction. `found` is what the shared memory and the semaphores hold, all zero if they are new, and
        `mutex` says how taking the mutex went, which is only done to zero the counters. */
    constructor (mode: AccessMode, found: State, attempts: seq<Attempt>, mutex: LockError)
      requires |attempts| == RETRIES
      ensures initialized <==> Attaches(attempts) && (mode == Create ==> mutex == NoError)
      ensures View() == if mode == Create && initialized then Zeroed(found) else found
      ensures phase == found.phase && readerTokens == found.readerTokens && writerTokens == found.writerTokens
      ensures if mode == Create && initialized then accessCount == waitingReaders == waitingWriters == 0
              else (accessCount, waitingReaders, waitingWriters) ==
                   (found.accessCount, found.waitingReaders, found.waitingWriters)
      ensures error == if !Attaches(attempts) then Last(attempts) else if mode == Create then mutex else NoError
      ensures Inv(found) ==> (Inv(View()) <==> View() == found || forall t | t in found.phase :: found.phase[t] == Idle)
    {
      accessCount, waitingReaders, waitingWriters := found.accessCount, found.waitingReaders, found.waitingWriters;
      readerTokens, writerTokens, phase := found.readerTokens, found.writerTokens, found.phase;
      initialized := false;
      new;
      error := Attach(attempts);
      if error != NoError {
        return;
      }
      if mode == Create {
        error := mutex;
        if error != NoError {
          return;
        }
        accessCount, waitingReaders, waitingWriters := 0, 0, 0;
      }
      initialized := true;
      if Inv(found) {
        CreateAgain(found);
      }
    }

    /** The guard of lockForRead and the admission after it; the mutex is held. */
    method AdmitReaderSection(ghost t: Thread) returns (admitted: bool)
      requires t in phase && View().accessCount >= -1
      modifies `accessCount, `waitingReaders, `phase
      ensures View() == AdmitReader(old(View()), t)
      ensures admitted <==> phase[t] == Reading
    {
      if accessCount < 0 || waitingWriters > 0 {
        waitingReaders := waitingReaders + 1;
        phase := phase[t := SleepingReader];
        admitted := false;
      } else {
        accessCount := accessCount + 1;
        assert accessCount > 0;
        phase := phase[t := Reading];
        admitted := true;
      }
    }

    /** The guard of lockForWrite and the admission after it; the mutex is held. */
    method AdmitWriterSection(ghost t: Thread) returns (admitted: bool)
      requires t in phase
      modifies `accessCount, `waitingWriters, `phase
      ensures View() == AdmitWriter(old(View()), t)
      ensures admitted <==> phase[t] == Writing
    {
      if accessCount != 0 {
        waitingWriters := waitingWriters + 1;
        phase := phase[t := SleepingWriter];
        admitted := false;
      } else {
        accessCount := accessCount - 1;
        assert accessCount < 0;
        phase := phase[t := Writing];
        admitted := true;
      }
    }

    /** lockForRead up to the first wait or to its return; `mutex` says how taking the mutex went. */
    method BeginRead(ghost t: Thread, mutex: LockError) returns (outcome: Outcome)
      requires Inv(View()) && Enabled(View(), EnterRead(t))
      modifies this
      ensures initialized == old(initialized)
      ensures outcome.Refused? <==> !initialized || mutex != NoError
      ensures outcome.Refused? ==> View() == old(View()) && error == if initialized then mutex else FailedToInitialize
      ensures !outcome.Refused? ==> View() == Next(old(View()), EnterRead(t)) && Inv(View())
      ensures !outcome.Refused? ==>
                && (outcome.Admitted? <==> old(accessCount) >= 0 && old(waitingWriters) == 0)
                && accessCount == old(accessCount) + (if outcome.Admitted? then 1 else 0)
                && waitingReaders == old(waitingReaders) + (if outcome.Admitted? then 0 else 1)
                && phase == old(phase)[t := if outcome.Admitted? then Reading else SleepingReader]
                && waitingWriters == old(waitingWriters)
                && readerTokens == old(readerTokens) && writerTokens == old(writerTokens)
      ensures outcome.Admitted? ==> error == NoError
    {
      if !initialized {
        error := FailedToInitialize;
        return Refused;
      }
      if mutex != NoError {
        error := mutex;
        return Refused;
      }
      StepKeepsInvariant(View(), EnterRead(t));
      var admitted := AdmitReaderSection(t);
      if admitted {
        error := NoError;
      }
      outcome := if admitted then Admitted else Blocked;
    }

    method BeginWrite(ghost t: Thread, mutex: LockError) returns (outcome: Outcome)
      requires Inv(View()) && Enabled(View(), EnterWrite(t))
      modifies this
      ensures initialized == old(initialized)
      ensures outcome.Refused? <==> !initialized || mutex != NoError
      ensures outcome.Refused? ==> View() == old(View()) && error == if initialized then mutex else FailedToInitialize
      ensures !outcome.Refused? ==> View() == Next(old(View()), EnterWrite(t)) && Inv(View())
      ensures !outcome.Refused? ==>
                && (outcome.Admitted? <==> old(accessCount) == 0)
                && accessCount == old(accessCount) - (if outcome.Admitted? then 1 else 0)
                && waitingWriters == old(waitingWriters) + (if outcome.Admitted? then 0 else 1)
                && phase == old(phase)[t := if outcome.Admitted? then Writing else SleepingWriter]
                && waitingReaders == old(waitingReaders)
                && readerTokens == old(readerTokens) && writerTokens == old(writerTokens)
      ensures outcome.Admitted? ==> error == NoError
    {
      if !initialized {
        error := FailedToInitialize;
        return Refused;
      }
      if mutex != NoError {
        error := mutex;
        return Refused;
      }
      StepKeepsInvariant(View(), EnterWrite(t));
      var admitted := AdmitWriterSection(t);
      if admitted {
        error := NoError;
      }
      outcome := if admitted then Admitted else Blocked;
    }

    /** The wait on the reader semaphore, once a token is there. */
    method AcquireReaderToken(ghost t: Thread)
      requires Inv(View()) && Enabled(View(), TakeReaderToken(t))
      modifies `readerTokens, `phase
      ensures View() == Next(old(View()), TakeReaderToken(t)) && Inv(View())
      ensures readerTokens == old(readerTokens) - 1 && phase == old(phase)[t := WokenReader]
    {
      StepKeepsInvariant(View(), TakeReaderToken(t));
      readerTokens := readerTokens - 1;
      phase := phase[t := WokenReader];
    }

    method AcquireWriterToken(ghost t: Thread)
      requires Inv(View()) && Enabled(View(), TakeWriterToken(t))
      modifies `writerTokens, `phase
      ensures View() == Next(old(View()), TakeWriterToken(t)) && Inv(View())
      ensures writerTokens == old(writerTokens) - 1 && phase == old(phase)[t := WokenWriter]
    {
      StepKeepsInvariant(View(), TakeWriterToken(t));
      writerTokens := writerTokens - 1;
      phase := phase[t := WokenWriter];
    }

    /** The section of lockForRead that a woken thread goes through. */
    method ContinueRead(ghost t: Thread) returns (admitted: bool)
      requires Inv(View()) && Enabled(View(), ResumeRead(t))
      modifies `accessCount, `waitingReaders, `phase, `error
      ensures View() == Next(old(View()), ResumeRead(t)) && Inv(View())
      ensures admitted <==> old(accessCount) >= 0 && waitingWriters == 0
      ensures accessCount == old(accessCount) + (if admitted then 1 else 0)
      ensures waitingReaders == old(waitingReaders) - (if admitted then 1 else 0)
      ensures phase == old(phase)[t := if admitted then Reading else SleepingReader]
      ensures error == if admitted then NoError else old(error)
    {
      StepKeepsInvariant(View(), ResumeRead(t));
      waitingReaders := waitingReaders - 1;
      admitted := AdmitReaderSection(t);
      if admitted {
        error := NoError;
      }
    }

    method ContinueWrite(ghost t: Thread) returns (admitted: bool)
      requires Inv(View()) && Enabled(View(), ResumeWrite(t))
      modifies `accessCount, `waitingWriters, `phase, `error
      ensures View() == Next(old(View()), ResumeWrite(t)) && Inv(View())
      ensures admitted <==> old(accessCount) == 0
      ensures accessCount == old(accessCount) - (if admitted then 1 else 0)
      ensures waitingWriters == old(waitingWriters) - (if admitted then 1 else 0)
      ensures phase == old(phase)[t := if admitted then Writing else SleepingWriter]
      ensures error == if admitted then NoError else old(error)
    {
      StepKeepsInvariant(View(), ResumeWrite(t));
      waitingWriters := waitingWriters - 1;
      admitted := AdmitWriterSection(t);
      if admitted {
        error := NoError;
      }
    }

    /** unlock, by a thread that holds the lock or not. `asserted` tells whether its check, which only a debugging
        build makes, holds. */
    method Unlock(ghost t: Thread, mutex: LockError) returns (ghost asserted: bool)
      requires Inv(View()) && t in phase
      modifies this
      ensures initialized == old(initialized)
      ensures !initialized || mutex != NoError ==>
                asserted && View() == old(View()) && error == if initialized then mutex else FailedToInitialize
      ensures initialized && mutex == NoError ==>
                && error == NoError && asserted == (old(accessCount) != 0)
                && View() ==
                  (if Holds(old(View()), t) then Next(old(View()), Event.Unlock(t)) else Unlocked(old(View())))
                && (Inv(View()) <==> Holds(old(View()), t) || !asserted)
      ensures initialized && mutex == NoError ==>
                && waitingReaders == old(waitingReaders) && waitingWriters == old(waitingWriters)
                && phase == (if old(phase[t]) in {Reading, Writing} then old(phase)[t := Idle] else old(phase))
                && accessCount == (if old(accessCount) > 0 then old(accessCount) - 1
                                   else if old(accessCount) < 0 then old(accessCount) + 1 else 0)
      ensures initialized && mutex == NoError ==>
                var free := old(accessCount) != 0 && accessCount == 0;
                && writerTokens == old(writerTokens) + (if free && waitingWriters > 0 then 1 else 0)
                && readerTokens == old(readerTokens) + (if free && waitingWriters == 0 then waitingReaders else 0)
      ensures Holds(old(View()), t) ==> asserted
    {
      asserted := true;
      if !initialized {
        error := FailedToInitialize;
        return;
      }
      if mutex != NoError {
        error := mutex;
        return;
      }
      ghost var before, holds := View(), Holds(View(), t);
      asserted := accessCount != 0;
      var unlocked := false;
      if accessCount > 0 {
        accessCount := accessCount - 1;
        unlocked := accessCount == 0;
      } else if accessCount < 0 {
        accessCount := accessCount + 1;
        unlocked := accessCount == 0;
      }
      if unlocked {
        if waitingWriters > 0 {
          writerTokens := writerTokens + 1;
        } else if waitingReaders != 0 {
          readerTokens := readerTokens + waitingReaders;
        }
      }
      assert View() == Unlocked(before);
      hide Unlocked, Inv;
      if holds {
        phase := phase[t := Idle];
        StepKeepsInvariant(before, Event.Unlock(t));
        HolderHasCount(before, t);
      } else {
        StrayUnlock(before, t);
      }
      error := NoError;
    }
  }

  /** A thread that holds the lock finds a non-zero access counter, so it never trips "Cannot unlock an
      unlocked lock". */
  lemma HolderHasCount(s: State, t: Thread)
    requires Inv(s) && Enabled(s, Unlock(t))
    ensures s.accessCount != 0
  {
    assert t in In(s, s.phase[t]);
  }
}
