/**
 That sending gets somewhere: every step of a thread brings it nearer to its rest, whatever the others have done, and
 a message is cancelled exactly when on_sending says so. The machine is that of SendProtocol.
 */
module SendProgress {
  import opened Bytes
  import opened Common
  import opened SendProtocol

  // ---- What is cancelled ----

  /** on_sending is asked about the message being sent and answers no. */
  predicate Refusal(s: State, t: nat, a: Action) {
    t < |s.pc| && s.pc[t].Ask? && a == Run(false)
  }

  /** A message leaves as cancelled at a refusal, and at no other step. */
  lemma RefusedIsCancelled(s: State, t: nat, a: Action)
    requires Enabled(s, t, a) && Knows(s, s.pc[t])
    ensures Refusal(s, t, a) ==>
      s.held.sending.Some? && Step(s, t, a).seen.done == s.seen.done + [Entry(s.held.sending.value, true)]
    ensures !Refusal(s, t, a) ==>
      Step(s, t, a).seen.done == s.seen.done
      || exists m :: Step(s, t, a).seen.done == s.seen.done + [Entry(m, false)]
  {
    hide PutStep, TryStep, GetStep, RecheckStep;
    if a.Run? {
      OthersConclude(s, t);
      match s.pc[t] {
        case OnWrite =>
          if s.held.sending.Some? {
            assert Conclude(s, false).seen.done == s.seen.done + [Entry(s.held.sending.value, false)];
          }
        case _ =>
      }
    }
  }

  lemma OthersConclude(s: State, t: nat)
    requires t < |s.pc|
    ensures PutStep(s, t).seen.done == s.seen.done && TryStep(s, t).seen.done == s.seen.done
    ensures GetStep(s, t).seen.done == s.seen.done && RecheckStep(s, t).seen.done == s.seen.done
  {
  }

  /** Every message that was cancelled was refused, and it was the one being sent then. */
  lemma {:induction false} CancelledWasRefused(states: seq<State>, moves: seq<(nat, Action)>, i: nat, k: nat)
      returns (j: nat)
    requires IsRun(states, moves) && i < |states| && k < |states[i].seen.done| && states[i].seen.done[k].cancelled
    requires states[0].seen.done == []
    ensures j < i && Refusal(states[j], moves[j].0, moves[j].1)
    ensures |states[j].seen.done| == k && states[j].held.sending == Some(states[i].seen.done[k].m)
  {
    hide Step, Refusal, Enabled, Knows;
    assert Move(states[i - 1], moves[i - 1].0, moves[i - 1].1, states[i]);
    InvariantOnRuns(states, moves, i - 1);
    KnownAt(states[i - 1], moves[i - 1].0, moves[i - 1].1);
    RefusedIsCancelled(states[i - 1], moves[i - 1].0, moves[i - 1].1);
    if k < |states[i - 1].seen.done| {
      j := CancelledWasRefused(states, moves, i - 1, k);
    } else {
      j := i - 1;
    }
  }

  lemma KnownAt(s: State, t: nat, a: Action)
    requires Invariant(s) && Enabled(s, t, a)
    ensures Knows(s, s.pc[t])
  {
  }

  // ---- How far a thread is from its rest ----

  /** The messages that the thread may still meet: queued, being sent, or its own. */
  function Messages(s: State, pc: Pc): nat {
    |s.mem.pending| + |s.held.swapped| + (if s.held.sending.Some? then 1 else 0)
    + (if pc.PutLock? || pc.PutPush? then 1 else 0)
  }

  /** The steps to the next message or to the end, at most; a thread that finds something counted goes around again. */
  function Distance(s: State, pc: Pc): nat {
    var again := if s.mem.count == 0 then 0 else 16;
    match pc
    case Idle => 0
    case PutLock(_) => 21
    case PutPush(_) => 20
    case PutCount => 19
    case DoneRelease => 19
    case CheckToken => 18
    case CheckQuota => 17
    case CancelRelease => 17
    case LoopTest => 16
    case LoopCas => 15
    case GetTest => 14
    case SwapLock => 13
    case SwapQueues => 12
    case SwapClear => 11
    case Fetch => if s.held.swapped == [] then 3 + again else 10
    case Ask => 9
    case QuotaAcquire => 8
    case QuotaStore(_) => 7
    case PutBackRelease => 6
    case EmptyRelease => 2 + again
    case Recheck => 1 + again
    case OnWrite => 22
    case OnError => 22
    case Closing => 21
  }

  /** Each step of a thread leaves fewer messages to it, or as many and a smaller distance. */
  lemma StepCounts(s: State, t: nat, go: bool)
    requires Control(s) && Enabled(s, t, Run(go)) && Knows(s, s.pc[t])
    ensures
      |RunStep(s, t, go).pc| == |s.pc| && Nearer(s, t, RunStep(s, t, go))
  {
    hide PutStep, TryStep, GetStep, StartStep, RecheckStep, CallbackStep, Messages, Distance;
    CountIsNatural(s);
    PcsStay(s, t, go);
    if Getting(s.pc[t]) {
      GetCounts(s, t);
    } else if s.pc[t].EmptyRelease? || s.pc[t].Recheck? {
      RecheckCounts(s, t);
    } else {
      OthersCount(s, t, go);
    }
  }

  lemma PcsStay(s: State, t: nat, go: bool)
    requires t < |s.pc| && Knows(s, s.pc[t])
    ensures |RunStep(s, t, go).pc| == |s.pc|
  {
  }

  predicate Getting(pc: Pc) {
    pc.GetTest? || pc.SwapLock? || pc.SwapQueues? || pc.SwapClear? || pc.Fetch?
  }

  ghost predicate Nearer(s: State, t: nat, s': State)
    requires t < |s.pc| == |s'.pc|
  {
    Messages(s', s'.pc[t]) < Messages(s, s.pc[t])
    || (Messages(s', s'.pc[t]) == Messages(s, s.pc[t]) && Distance(s', s'.pc[t]) < Distance(s, s.pc[t]))
  }

  /** The counter is behind the queue at times, but never below zero. */
  lemma CountIsNatural(s: State)
    requires Control(s)
    ensures s.mem.count >= 0
  {
    if s.mem.lock.Some? {
      var t := s.mem.lock.value;
      assert Locking(s.pc[t]) && Knows(s, s.pc[t]);
    }
  }

  lemma GetCounts(s: State, t: nat)
    requires t < |s.pc| && Getting(s.pc[t]) && Knows(s, s.pc[t]) && s.mem.count >= 0
    ensures Nearer(s, t, GetStep(s, t))
  {
  }

  lemma RecheckCounts(s: State, t: nat)
    requires t < |s.pc| && (s.pc[t].EmptyRelease? || s.pc[t].Recheck?)
    ensures Nearer(s, t, RecheckStep(s, t))
  {
  }

  lemma OthersCount(s: State, t: nat, go: bool)
    requires t < |s.pc| && Knows(s, s.pc[t]) && s.pc[t] != Idle
    requires !Getting(s.pc[t]) && !s.pc[t].EmptyRelease? && !s.pc[t].Recheck?
    ensures Nearer(s, t, RunStep(s, t, go))
  {
    hide GetStep, RecheckStep;
  }

  /** n steps of one thread, the answers of on_sending being given; it stops at its rest, or at a lock of another one. */
  ghost predicate Alone(states: seq<State>, t: nat, answers: seq<bool>) {
    && |states| == |answers| + 1
    && forall i | 0 <= i < |answers| :: Move(states[i], t, Run(answers[i]), states[i + 1])
  }

  /** So a thread that runs alone, up to its rest or a lock that another one holds, takes no more steps than this. */
  lemma {:induction false} AloneEnds(states: seq<State>, t: nat, answers: seq<bool>)
    requires Alone(states, t, answers) && Control(states[0]) && t < |states[0].pc|
    ensures |answers| <= 23 * Messages(states[0], states[0].pc[t]) + Distance(states[0], states[0].pc[t])
    decreases |answers|
  {
    hide RunStep, Step, Control, Knows, Enabled, Messages, Distance, Nearer;
    if |answers| > 0 {
      assert Move(states[0], t, Run(answers[0]), states[1]);
      OneNearer(states[0], t, answers[0], states[1]);
      DistanceBound(states[1], states[1].pc[t]);
      var later, rest := states[1..], answers[1..];
      forall i | 0 <= i < |rest| ensures Move(later[i], t, Run(rest[i]), later[i + 1]) {
        assert Move(states[i + 1], t, Run(answers[i + 1]), states[i + 1 + 1]);
      }
      AloneEnds(later, t, rest);
    }
  }

  lemma OneNearer(s: State, t: nat, go: bool, s': State)
    requires Control(s) && t < |s.pc| && Move(s, t, Run(go), s')
    ensures Control(s') && |s'.pc| == |s.pc|
    ensures var m, m' := Messages(s, s.pc[t]), Messages(s', s'.pc[t]);
            m' < m || (m' == m && Distance(s', s'.pc[t]) < Distance(s, s.pc[t]))
  {
    hide RunStep, Control, Knows, Messages, Distance;
    ControlStep(s, t, Run(go));
    KnownInControl(s, t);
    StepCounts(s, t, go);
  }

  lemma KnownInControl(s: State, t: nat)
    requires Control(s) && t < |s.pc|
    ensures Knows(s, s.pc[t])
  {
  }

  lemma DistanceBound(s: State, pc: Pc)
    ensures Distance(s, pc) <= 22
  {
  }

  // ---- What the events come to ----

  /** The message is on its way into the queue, or has entered it behind the first n. */
  ghost predicate Queued(s: State, m: Message, n: nat) {
    (exists k: nat :: Entered(s, m, n, k)) || exists t :: 0 <= t < |s.pc| && (s.pc[t] == PutLock(m) || s.pc[t] == PutPush(m))
  }

  predicate Entered(s: State, m: Message, n: nat, k: nat) {
    n <= k < |s.seen.enqueued| && s.seen.enqueued[k] == m
  }

  /** The stream is closed, or a thread will close it. */
  ghost predicate Breaking(s: State) {
    s.mem.connected ==> exists t :: 0 <= t < |s.pc| && (s.pc[t].OnError? || s.pc[t].Closing?)
  }

  /** What a step does to the other threads, to the order of the messages and to the connection. */
  lemma StepOf(s: State, t: nat, a: Action)
    requires Enabled(s, t, a) && Knows(s, s.pc[t])
    ensures |Step(s, t, a).pc| == |s.pc| && (Step(s, t, a).mem.connected ==> s.mem.connected)
    ensures forall u | 0 <= u < |s.pc| && u != t :: Step(s, t, a).pc[u] == s.pc[u]
    ensures s.seen.enqueued <= Step(s, t, a).seen.enqueued
  {
    if a.Run? {
      RunOf(s, t, a.go);
      hide RunStep;
    } else {
      hide RunStep;
    }
  }

  ghost predicate Ordinary(s: State, t: nat, s': State) {
    && |s'.pc| == |s.pc| && (s'.mem.connected ==> s.mem.connected) && s.seen.enqueued <= s'.seen.enqueued
    && forall u | 0 <= u < |s.pc| && u != t :: s'.pc[u] == s.pc[u]
  }

  lemma PutTryOf(s: State, t: nat)
    requires t < |s.pc|
    ensures Ordinary(s, t, PutStep(s, t)) && Ordinary(s, t, TryStep(s, t)) && Ordinary(s, t, RecheckStep(s, t))
  {
  }

  lemma GetOf(s: State, t: nat)
    requires t < |s.pc|
    ensures Ordinary(s, t, GetStep(s, t))
  {
  }

  lemma StartOf(s: State, t: nat, go: bool)
    requires t < |s.pc| && Knows(s, s.pc[t])
    ensures Ordinary(s, t, StartStep(s, t, go))
  {
  }

  lemma CallbackOf(s: State, t: nat)
    requires t < |s.pc| && Knows(s, s.pc[t])
    ensures Ordinary(s, t, CallbackStep(s, t))
  {
  }

  lemma RunOf(s: State, t: nat, go: bool)
    requires t < |s.pc| && Knows(s, s.pc[t])
    ensures Ordinary(s, t, RunStep(s, t, go))
  {
    hide PutStep, TryStep, GetStep, StartStep, RecheckStep, CallbackStep, Knows, Ordinary;
    PutTryOf(s, t);
    GetOf(s, t);
    StartOf(s, t, go);
    CallbackOf(s, t);
    if s.pc[t] == Idle { SameIsOrdinary(s, t); }
  }

  lemma SameIsOrdinary(s: State, t: nat)
    ensures Ordinary(s, t, s)
  {
  }

  lemma QueuedHere(s: State, t: nat, a: Action, m: Message, n: nat)
    requires Enabled(s, t, a) && Knows(s, s.pc[t]) && (s.pc[t] == PutLock(m) || s.pc[t] == PutPush(m))
    requires n <= |s.seen.enqueued|
    ensures Queued(Step(s, t, a), m, n)
  {
    var s' := Step(s, t, a);
    if a.Run? && s.pc[t].PutPush? {
      assert Entered(s', m, n, |s.seen.enqueued|);
    } else {
      assert s'.pc[t] == s.pc[t] || s'.pc[t] == PutPush(m);
    }
  }

  lemma QueuedStays(s: State, t: nat, a: Action, m: Message, n: nat)
    requires Enabled(s, t, a) && Knows(s, s.pc[t]) && Queued(s, m, n) && n <= |s.seen.enqueued|
    ensures Queued(Step(s, t, a), m, n) && n <= |Step(s, t, a).seen.enqueued|
  {
    hide Step, Knows, Enabled;
    StepOf(s, t, a);
    if k: nat :| Entered(s, m, n, k) {
      assert Entered(Step(s, t, a), m, n, k);
    } else {
      var u :| 0 <= u < |s.pc| && (s.pc[u] == PutLock(m) || s.pc[u] == PutPush(m));
      if u == t { QueuedHere(s, t, a, m, n); } else { assert Step(s, t, a).pc[u] == s.pc[u]; }
    }
  }

  lemma BreakingHere(s: State, t: nat, a: Action)
    requires Enabled(s, t, a) && Knows(s, s.pc[t]) && (s.pc[t].OnError? || s.pc[t].Closing?)
    ensures Step(s, t, a).mem.connected ==> Step(s, t, a).pc[t].OnError? || Step(s, t, a).pc[t].Closing?
  {
    hide PutStep, TryStep, GetStep, StartStep, RecheckStep;
  }

  lemma BreakingStays(s: State, t: nat, a: Action)
    requires Enabled(s, t, a) && Knows(s, s.pc[t]) && Breaking(s)
    ensures Breaking(Step(s, t, a))
  {
    hide Step, Knows, Enabled;
    StepOf(s, t, a);
    if Step(s, t, a).mem.connected {
      var u :| 0 <= u < |s.pc| && (s.pc[u].OnError? || s.pc[u].Closing?);
      if u == t { BreakingHere(s, t, a); } else { assert Step(s, t, a).pc[u] == s.pc[u]; }
    }
  }

  lemma EventTakes(s: State, t: nat, a: Action)
    requires Enabled(s, t, a) && Knows(s, s.pc[t])
    ensures a.Send? && s.mem.connected ==> Queued(Step(s, t, a), a.m, |s.seen.enqueued|)
    ensures a == WriteFailed ==> Breaking(Step(s, t, a))
    ensures a == Close ==> !Step(s, t, a).mem.connected
  {
    var s' := Step(s, t, a);
    if a.Send? && s.mem.connected { assert s'.pc[t] == PutLock(a.m); }
    if a == WriteFailed { assert s'.pc[t] == OnError; }
  }

  lemma MoveAt(states: seq<State>, moves: seq<(nat, Action)>, i: nat)
    requires IsRun(states, moves) && i < |moves|
    ensures Enabled(states[i], moves[i].0, moves[i].1) && moves[i].0 < |states[i].pc|
    ensures Knows(states[i], states[i].pc[moves[i].0]) && states[i + 1] == Step(states[i], moves[i].0, moves[i].1)
  {
    hide Step, Knows, Invariant;
    InvariantOnRuns(states, moves, i);
    assert Move(states[i], moves[i].0, moves[i].1, states[i + 1]);
    KnownAt(states[i], moves[i].0, moves[i].1);
  }

  lemma {:induction false} StaysOnRuns(states: seq<State>, moves: seq<(nat, Action)>, j: nat, i: nat, m: Message, n: nat)
    requires IsRun(states, moves) && j <= i <= |moves| && n <= |states[j].seen.enqueued|
    ensures n <= |states[i].seen.enqueued| && (Queued(states[j], m, n) ==> Queued(states[i], m, n))
    ensures (Breaking(states[j]) ==> Breaking(states[i])) && (states[i].mem.connected ==> states[j].mem.connected)
    decreases i
  {
    hide Step, Enabled, Knows, Queued, Breaking, IsRun;
    RunLength(states, moves);
    if j < i {
      StaysOnRuns(states, moves, j, i - 1, m, n);
      MoveAt(states, moves, i - 1);
      var s, t, a := states[i - 1], moves[i - 1].0, moves[i - 1].1;
      StepOf(s, t, a);
      if Queued(s, m, n) { QueuedStays(s, t, a, m, n); }
      if Breaking(s) { BreakingStays(s, t, a); }
    }
  }

  lemma RunLength(states: seq<State>, moves: seq<(nat, Action)>)
    requires IsRun(states, moves)
    ensures |states| == |moves| + 1
  {
  }

  /** A message that is sent on an open stream has entered the queue by the time the threads are at rest. */
  lemma SendTakesEffect(states: seq<State>, moves: seq<(nat, Action)>, j: nat, i: nat) returns (k: nat)
    requires IsRun(states, moves) && j < i <= |moves| < |states| && Quiet(states[i])
    requires moves[j].1.Send? && states[j].mem.connected
    ensures |states[j].seen.enqueued| <= k < |states[i].seen.enqueued| && states[i].seen.enqueued[k] == moves[j].1.m
  {
    hide Step, Enabled, Knows, Queued, IsRun;
    MoveAt(states, moves, j);
    EventTakes(states[j], moves[j].0, moves[j].1);
    StepOf(states[j], moves[j].0, moves[j].1);
    StaysOnRuns(states, moves, j + 1, i, moves[j].1.m, |states[j].seen.enqueued|);
    k := QueuedAtRest(states[i], moves[j].1.m, |states[j].seen.enqueued|);
  }

  lemma QueuedAtRest(s: State, m: Message, n: nat) returns (k: nat)
    requires Queued(s, m, n) && Quiet(s)
    ensures n <= k < |s.seen.enqueued| && s.seen.enqueued[k] == m
  {
    k :| Entered(s, m, n, k);
  }

  /** A closed stream stays closed, and a write that failed has closed it by the time the threads are at rest. */
  lemma CloseTakesEffect(states: seq<State>, moves: seq<(nat, Action)>, j: nat, i: nat)
    requires IsRun(states, moves) && j < i <= |moves| < |states|
    ensures moves[j].1 == Close ==> !states[i].mem.connected
    ensures moves[j].1 == WriteFailed && Quiet(states[i]) ==> !states[i].mem.connected
  {
    hide Step, Enabled, Knows, Queued, Breaking, IsRun;
    MoveAt(states, moves, j);
    EventTakes(states[j], moves[j].0, moves[j].1);
    StepOf(states[j], moves[j].0, moves[j].1);
    StaysOnRuns(states, moves, j + 1, i, Message([]), 0);
    if Quiet(states[i]) { BreakingAtRest(states[i]); }
  }

  lemma BreakingAtRest(s: State)
    requires Quiet(s)
    ensures Breaking(s) ==> !s.mem.connected
  {
  }
}
