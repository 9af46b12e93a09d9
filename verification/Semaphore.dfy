/**
 LightweightSemaphore: an atomic counter in front of a kernel semaphore, for one producer and
 one consumer. Every atomic operation is one step of a state machine, so a run is any
 interleaving of the two threads. The producer's fetch-add and its post are two steps.
 */
module LightweightSemaphore {

  const SPIN_LIMIT: nat := 1024

  /** A consumer's call: tryWait(), or wait(timeout); wait() is wait(-1). */
  datatype Call = TryWait | Wait(timeout: int)

  /** Where the consumer stands, named after the atomic operation it performs next. */
  datatype Consumer =
    | Idle
    | FastLoad(call: Call)             // m_count.load() in tryWait
    | FastTake                         // the fetch_add(-1) that follows it
    | SpinLoad(timeout: int, left: nat)
    | SpinTake
    | SlowTake(timeout: int)           // the unconditional fetch_add(-1) after spinning
    | Blocked(timeout: int)            // m_sema.wait() or m_sema.timed_wait()
    | Undo                             // fetch_add(+1) after a timeout
    | Redo                             // fetch_add(-1) because the undo came too late
    | TryKernel                        // m_sema.try_wait()

  datatype Producer = Resting | Posting   // between fetch_add(n) and m_sema.signal(1)

  datatype State = State(
    count: int, tokens: nat, producer: Producer, consumer: Consumer,
    initial: nat,      // the constructor's argument
    signalled: nat,    // sum of the arguments of all signal calls
    granted: nat,      // calls that returned true
    refused: nat       // calls that returned false
  )

  datatype Action = Signal(n: nat) | Post | CallWait(call: Call) | Step | TimeOut

  function Start(initial: nat): State {
    State(initial, 0, Resting, Idle, initial, 0, 0, 0)
  }

  predicate Enabled(s: State, a: Action) {
    match a
    case Signal(n) => n >= 1 && s.producer == Resting
    case Post => s.producer == Posting
    case CallWait(_) => s.consumer == Idle
    case Step => s.consumer != Idle && (s.consumer.Blocked? ==> s.tokens > 0)
    case TimeOut => s.consumer.Blocked? && s.consumer.timeout > 0
  }

  function Granted(s: State): State {
    s.(consumer := Idle, granted := s.granted + 1)
  }

  function Refused(s: State): State {
    s.(consumer := Idle, refused := s.refused + 1)
  }

  /** The consumer's next atomic operation and the branch taken on the value it read. */
  function ConsumerStep(s: State): State
    requires Enabled(s, Step)
  {
    match s.consumer
    case FastLoad(call) =>
      if s.count > 0 then s.(consumer := FastTake)
      else if call == TryWait then Refused(s)
      else s.(consumer := SpinLoad(call.timeout, SPIN_LIMIT))
    case FastTake => Granted(s.(count := s.count - 1))
    case SpinLoad(timeout, left) =>
      if s.count > 0 then s.(consumer := SpinTake)
      else if left <= 1 then s.(consumer := SlowTake(timeout))
      else s.(consumer := SpinLoad(timeout, left - 1))
    case SpinTake => Granted(s.(count := s.count - 1))
    case SlowTake(timeout) =>
      var t := s.(count := s.count - 1);
      if s.count > 0 then Granted(t)
      else if timeout != 0 then t.(consumer := Blocked(timeout))
      else t.(consumer := Undo)
    case Blocked(_) => Granted(s.(tokens := s.tokens - 1))
    case Undo =>
      var t := s.(count := s.count + 1);
      if s.count < 0 then Refused(t) else t.(consumer := Redo)
    case Redo =>
      var t := s.(count := s.count - 1);
      if s.count > 0 then t.(consumer := TryKernel) else t.(consumer := Undo)
    case TryKernel =>
      if s.tokens > 0 then Granted(s.(tokens := s.tokens - 1)) else s.(consumer := Undo)
  }

  function Next(s: State, a: Action): State
    requires Enabled(s, a)
  {
    match a
    case Signal(n) =>
      s.(count := s.count + n, signalled := s.signalled + n,
         producer := if s.count < 0 then Posting else Resting)
    case Post => s.(tokens := s.tokens + 1, producer := Resting)
    case CallWait(call) => s.(consumer := FastLoad(call))
    case Step => ConsumerStep(s)
    case TimeOut => s.(consumer := Undo)
  }

  predicate CanRun(s: State, run: seq<Action>)
    decreases |run|
  {
    run == [] || (Enabled(s, run[0]) && CanRun(Next(s, run[0]), run[1..]))
  }

  function Run(s: State, run: seq<Action>): State
    requires CanRun(s, run)
    decreases |run|
  {
    if run == [] then s else Run(Next(s, run[0]), run[1..])
  }

  // ----- the invariant -----

  /** Between the slow path's decrement and its outcome. */
  predicate Waiting(c: Consumer) {
    c.Blocked? || c == Undo || c == Redo || c == TryKernel
  }

  /** A decrement of m_count that has neither been granted nor undone. */
  function Outstanding(c: Consumer): nat {
    if c.Blocked? || c == Undo || c == TryKernel then 1 else 0
  }

  /** Kernel posts made or about to be made and not yet consumed. */
  function Posts(s: State): nat {
    s.tokens + if s.producer == Posting then 1 else 0
  }

  predicate Conserved(s: State) {
    s.initial + s.signalled == s.granted + s.count + Outstanding(s.consumer)
  }

  predicate Inv(s: State) {
    && Conserved(s)
    && s.count >= (if Outstanding(s.consumer) == 1 then -1 else 0)
    && (!Waiting(s.consumer) ==> Posts(s) == 0)
    && (Outstanding(s.consumer) == 1 ==> Posts(s) == if s.count >= 0 then 1 else 0)
    && (s.consumer == Redo ==> Posts(s) == 1 && s.count >= 1)
    && (s.consumer == TryKernel ==> s.count >= 0)
    && (s.consumer.Blocked? ==> s.consumer.timeout != 0)
    && (s.consumer == FastTake || s.consumer == SpinTake ==> s.count >= 1)
  }

  lemma InvStep(s: State, a: Action)
    requires Inv(s) && Enabled(s, a)
    ensures Inv(Next(s, a))
  {
  }

  /**
   Safety of every run: permits are conserved, at most one kernel post is in flight and none
   while the consumer is not waiting, and the producer's assertion oldCount >= -1 holds.
   */
  lemma {:induction false} Safety(s: State, run: seq<Action>)
    requires Inv(s) && CanRun(s, run)
    decreases |run|
    ensures var t := Run(s, run);
            && Inv(t)
            && Posts(t) <= 1
            && (!Waiting(t.consumer) ==> Posts(t) == 0)
            && t.count >= -1
            && t.initial + t.signalled == t.granted + t.count + Outstanding(t.consumer)
  {
    if run != [] {
      InvStep(s, run[0]);
      Safety(Next(s, run[0]), run[1..]);
    }
  }

  lemma {:induction false} Constants(s: State, run: seq<Action>)
    requires CanRun(s, run)
    decreases |run|
    ensures Run(s, run).initial == s.initial
    ensures Run(s, run).signalled >= s.signalled && Run(s, run).granted >= s.granted
  {
    if run != [] {
      Constants(Next(s, run[0]), run[1..]);
    }
  }

  /** No run hands out more permits than were ever put in. */
  lemma NeverOverGranted(initial: nat, run: seq<Action>)
    requires CanRun(Start(initial), run)
    ensures var t := Run(Start(initial), run);
            && t.initial == initial
            && t.granted <= initial + t.signalled
            && (t.consumer == Idle ==> t.count == initial + t.signalled - t.granted)
  {
    Safety(Start(initial), run);
    Constants(Start(initial), run);
  }

  // ----- progress -----

  /**
   No wakeup is lost: a consumer that cannot move and has nothing on its way to it is one for
   which every permit ever put in has already been handed out.
   */
  lemma StuckMeansEmpty(initial: nat, run: seq<Action>)
    requires CanRun(Start(initial), run)
    requires var t := Run(Start(initial), run);
             t.consumer.Blocked? && !Enabled(t, Step) && t.producer == Resting
    ensures var t := Run(Start(initial), run); initial + t.signalled == t.granted && t.count == -1
  {
    Safety(Start(initial), run);
    Constants(Start(initial), run);
  }

  /**
   A consumer that waits although a permit is there has exactly one kernel post made or
   pending; once it is made, the consumer's next step grants the call and uses it up.
   */
  lemma WakeupArrives(initial: nat, run: seq<Action>)
    requires CanRun(Start(initial), run)
    requires var t := Run(Start(initial), run); t.consumer.Blocked? && t.count >= 0
    ensures var t := Run(Start(initial), run);
            && Posts(t) == 1
            && var made := if t.producer == Posting then Next(t, Post) else t;
               && Enabled(made, Step)
               && Next(made, Step) == Granted(made.(tokens := 0))
  {
    Safety(Start(initial), run);
  }

  /** In the retry loop the second oldCount > 0 test never fails. */
  lemma SecondTestSucceeds(initial: nat, run: seq<Action>)
    requires CanRun(Start(initial), run)
    requires Run(Start(initial), run).consumer == Redo
    ensures var t := Run(Start(initial), run); Next(t, Step).consumer == TryKernel
  {
    Safety(Start(initial), run);
  }

  /** The retry loop goes round again exactly when the producer still owes its post. */
  lemma RetriesWhilePostPending(initial: nat, run: seq<Action>)
    requires CanRun(Start(initial), run)
    requires Run(Start(initial), run).consumer == TryKernel
    ensures var t := Run(Start(initial), run);
            && (Next(t, Step).consumer == Undo <==> t.producer == Posting)
            && (Next(t, Step) == Granted(t.(tokens := 0)) <==> t.producer == Resting)
  {
    Safety(Start(initial), run);
  }

  /** A bound on the consumer's remaining steps in the current call. */
  function Budget(c: Consumer): nat {
    match c
    case Idle => 0
    case FastTake => 1
    case SpinTake => 1
    case TryKernel => 1
    case Redo => 2
    case Undo => 3
    case Blocked(_) => 4
    case SlowTake(_) => 5
    case SpinLoad(_, left) => 6 + left
    case FastLoad(_) => 7 + SPIN_LIMIT
  }

  /** Every step of the consumer brings its call closer to an end, but for a retry on a pending post. */
  lemma StepsForward(s: State, a: Action)
    requires Inv(s) && (a == Step || a == TimeOut) && Enabled(s, a)
    ensures Budget(Next(s, a).consumer) < Budget(s.consumer)
         || (s.consumer == TryKernel && s.producer == Posting && Next(s, a) == s.(consumer := Undo))
  {
  }

  /** The call in progress is one that was asked to wait without a time limit. */
  predicate Unlimited(c: Consumer) {
    match c
    case FastLoad(Wait(timeout)) => timeout < 0
    case SpinLoad(timeout, _) => timeout < 0
    case SlowTake(timeout) => timeout < 0
    case Blocked(timeout) => timeout < 0
    case _ => false
  }

  predicate ConsumerOnly(run: seq<Action>) {
    forall k :: 0 <= k < |run| ==> run[k] == Step || run[k] == TimeOut
  }

  lemma OneForward(s: State, a: Action)
    requires Inv(s) && s.producer == Resting && (a == Step || a == TimeOut) && Enabled(s, a)
    ensures var t := Next(s, a);
            && Inv(t) && t.producer == Resting
            && Budget(t.consumer) < Budget(s.consumer)
            && (Unlimited(t.consumer) ==> Unlimited(s.consumer))
            && t.count + Outstanding(t.consumer) + t.granted == s.count + Outstanding(s.consumer) + s.granted
  {
    InvStep(s, a);
    StepsForward(s, a);
  }

  /**
   With the producer at rest every run of the consumer's own actions, timeouts taken or not, is
   at most Budget long, and where it can go no further the call has ended, or it is a wait
   without a time limit on a semaphore that has nothing to give. Permits only change hands.
   */
  lemma {:induction false} EveryRunEnds(s: State, run: seq<Action>)
    requires Inv(s) && s.producer == Resting && CanRun(s, run) && ConsumerOnly(run)
    decreases |run|
    ensures var t := Run(s, run);
            && Inv(t) && t.producer == Resting
            && |run| + Budget(t.consumer) <= Budget(s.consumer)
            && (Unlimited(t.consumer) ==> Unlimited(s.consumer))
            && (!Enabled(t, Step) && !Enabled(t, TimeOut) ==>
                  t.consumer == Idle
                  || (t.consumer.Blocked? && Unlimited(s.consumer) && t.tokens == 0 && t.count == -1))
            && t.count + Outstanding(t.consumer) + t.granted == s.count + Outstanding(s.consumer) + s.granted
  {
    if run != [] {
      OneForward(s, run[0]);
      hide Inv, Enabled, Next;
      EveryRunEnds(Next(s, run[0]), run[1..]);
    }
  }

  /** Such a run always exists: the consumer's steps taken until none is enabled. */
  lemma {:induction false} EndsOrBlocks(s: State) returns (run: seq<Action>)
    requires Inv(s) && s.producer == Resting
    ensures CanRun(s, run) && |run| <= Budget(s.consumer)
    ensures forall k :: 0 <= k < |run| ==> run[k] == Step
    ensures var t := Run(s, run);
            && Inv(t)
            && (t.consumer == Idle || (t.consumer.Blocked? && t.tokens == 0 && t.count == -1))
            && t.count + Outstanding(t.consumer) + t.granted == s.count + Outstanding(s.consumer) + s.granted
    decreases Budget(s.consumer)
  {
    if !Enabled(s, Step) {
      run := [];
    } else {
      OneForward(s, Step);
      var rest := EndsOrBlocks(Next(s, Step));
      run := [Step] + rest;
      assert run[1..] == rest;
    }
  }

  // ----- how a call ends -----

  /** Calls are refused only while no permit is there, and only those that are allowed to give up. */
  lemma RefusedWhenEmpty(s: State, a: Action)
    requires Enabled(s, a) && Next(s, a).refused != s.refused
    ensures s.count <= 0 && !Unlimited(s.consumer)
    ensures Next(s, a).refused == s.refused + 1 && Next(s, a).granted == s.granted && Next(s, a).consumer == Idle
  {
  }

  /** So a run that refuses a call has passed a state without permits. */
  lemma {:induction false} RefusalPassesEmpty(s: State, run: seq<Action>) returns (k: nat)
    requires CanRun(s, run) && Run(s, run).refused != s.refused
    decreases |run|
    ensures k < |run| && CanRun(s, run[..k]) && Run(s, run[..k]).count <= 0
  {
    hide Next, Enabled;
    var next := Next(s, run[0]);
    if next.refused != s.refused {
      RefusedWhenEmpty(s, run[0]);
      k := 0;
      assert run[..0] == [];
    } else {
      var j := RefusalPassesEmpty(next, run[1..]);
      k := j + 1;
      assert run[..k][1..] == run[1..][..j] && run[..k][0] == run[0];
    }
  }

  /** With a permit there and the other thread silent, every kind of call takes it in two operations. */
  lemma PermitIsTaken(s: State, call: Call)
    requires s.consumer == Idle && s.count > 0
    ensures var run := [CallWait(call), Step, Step];
            CanRun(s, run) && Run(s, run) == s.(count := s.count - 1, granted := s.granted + 1)
  {
    var run := [CallWait(call), Step, Step];
    var loading := Next(s, CallWait(call));
    var taking := Next(loading, Step);
    assert run[1..] == [Step, Step] && [Step, Step][1..] == [Step] && [Step][1..] == [];
    assert CanRun(taking, [Step]) && Run(taking, [Step]) == Run(Next(taking, Step), []);
    assert CanRun(loading, [Step, Step]);
  }

  /** With none there tryWait() is refused at once, and it never blocks. */
  lemma TryIsRefused(s: State)
    requires s.consumer == Idle && s.count <= 0
    ensures var run := [CallWait(TryWait), Step];
            CanRun(s, run) && Run(s, run) == s.(refused := s.refused + 1)
  {
    var run := [CallWait(TryWait), Step];
    assert run[1..] == [Step] && run[1..][1..] == [];
  }

  /** Inside a call that cannot be refused: wait(), or any call that has seen a permit. */
  predicate Granting(c: Consumer) {
    Unlimited(c) || c == FastTake || c == SpinTake
  }

  lemma GrantingStep(s: State, a: Action)
    requires Enabled(s, a) && Granting(s.consumer)
    ensures var t := Next(s, a);
            && t.refused == s.refused
            && if Granting(t.consumer) then t.granted == s.granted
               else t.consumer == Idle && t.granted == s.granted + 1
  {
  }

  /** Whatever the other thread does, such a call goes on or has been granted. */
  lemma {:induction false} WaitIsNeverRefused(s: State, run: seq<Action>)
    requires CanRun(s, run) && forall k :: 0 <= k < |run| ==> !run[k].CallWait?
    requires Granting(s.consumer) || s.consumer == Idle
    decreases |run|
    ensures var t := Run(s, run);
            && t.refused == s.refused
            && if Granting(t.consumer) then Granting(s.consumer) && t.granted == s.granted
               else t.consumer == Idle && t.granted == s.granted + (if s.consumer == Idle then 0 else 1)
  {
    if run != [] {
      if Granting(s.consumer) {
        GrantingStep(s, run[0]);
      }
      WaitIsNeverRefused(Next(s, run[0]), run[1..]);
    }
  }

  /** A call blocks only when it found no permit, has spun, and may wait. */
  lemma BlocksWhenEmpty(s: State, a: Action)
    requires Enabled(s, a) && Next(s, a).consumer.Blocked? && !s.consumer.Blocked?
    ensures s.count <= 0 && s.consumer == SlowTake(Next(s, a).consumer.timeout) && s.consumer.timeout != 0
  {
  }

  /** It spins for as many loads as it was given. */
  lemma {:induction false} SpinsOut(s: State)
    requires s.consumer.SpinLoad? && s.consumer.left > 0 && s.count <= 0
    decreases s.consumer.left
    ensures var run := seq(s.consumer.left, _ => Step);
            CanRun(s, run) && Run(s, run) == s.(consumer := SlowTake(s.consumer.timeout))
  {
    var run := seq(s.consumer.left, _ => Step);
    var next := Next(s, Step);
    assert run[0] == Step;
    if s.consumer.left > 1 {
      SpinsOut(next);
      assert run[1..] == seq(next.consumer.left, _ => Step);
    } else {
      assert run[1..] == [];
    }
  }

  /** A wait that finds no permit loads the counter 1024 times more before it takes the slow path. */
  lemma SpinLimit(s: State, timeout: int)
    requires s.consumer == FastLoad(Wait(timeout)) && s.count <= 0
    ensures var run := [Step] + seq(1024, _ => Step);
            CanRun(s, run) && Run(s, run) == s.(consumer := SlowTake(timeout))
  {
    SpinsOut(Next(s, Step));
    var run := [Step] + seq(1024, _ => Step);
    assert run[1..] == seq(1024, _ => Step);
  }

  /** A signal at any time adds its permits, and posts to the kernel exactly if someone waits for one. */
  lemma SignalAdds(s: State, n: nat)
    requires s.producer == Resting && n >= 1
    ensures Enabled(s, Signal(n))
    ensures var t := Next(s, Signal(n));
            && t.count == s.count + n && t.signalled == s.signalled + n && t.consumer == s.consumer
            && (t.producer == Posting <==> s.count < 0)
  {
  }

  /** A single permit wakes a blocked consumer. */
  lemma SignalWakes(s: State)
    requires Inv(s) && s.consumer.Blocked? && s.count < 0 && s.producer == Resting
    ensures var run := [Signal(1), Post, Step];
            && CanRun(s, run)
            && Run(s, run) == s.(count := 0, signalled := s.signalled + 1, granted := s.granted + 1, consumer := Idle)
  {
    var run := [Signal(1), Post, Step];
    var owed := Next(s, Signal(1));
    var made := Next(owed, Post);
    assert run[1..] == [Post, Step] && [Post, Step][1..] == [Step] && [Step][1..] == [];
    assert CanRun(made, [Step]) && Run(made, [Step]) == Run(Next(made, Step), []);
    assert CanRun(owed, [Post, Step]);
  }

  /** The counters start at nothing but the constructor's permits. */
  lemma FreshStart(initial: nat)
    ensures var s := Start(initial);
            Inv(s) && s.count == initial && s.granted == s.refused == s.signalled == 0
  {
  }
}
