/**
 What the write quota means for the bytes that go out. The machine is that of SendProtocol; here its history is
 counted: the messages whose sending was started, the recharges, and what was left over or refused.
 */
module SendQuota {
  import opened Bytes
  import opened Common
  import opened SendProtocol

  function Size(m: Message): nat {
    |Flatten(m.blocks)|
  }

  /** The bytes of the messages that were sent, not cancelled. */
  function SizeOf(done: seq<Entry>): nat {
    if |done| == 0 then 0
    else SizeOf(done[..|done| - 1]) + if done[|done| - 1].cancelled then 0 else Size(done[|done| - 1].m)
  }

  /** The token's holder has a message, and has not been given quota for it. */
  predicate Unpaid(s: State) {
    && s.seen.owner.Thread? && s.seen.owner.t < |s.pc|
    && var pc := s.pc[s.seen.owner.t];
       pc.Ask? || pc.QuotaAcquire? || (pc.QuotaStore? && pc.granted <= 0)
  }

  /** The message being sent, once it was given quota. */
  function Current(s: State): nat {
    if s.held.sending.Some? && !Unpaid(s) then Size(s.held.sending.value) else 0
  }

  /** The bytes of all messages whose sending was started: sent, being sent, or broken off. */
  function Started(s: State): nat {
    SizeOf(s.seen.done) + (if s.seen.broken.Some? then Size(s.seen.broken.value) else 0) + Current(s)
  }

  // ---- The history of the quota ----

  function Recharged(moves: seq<(nat, Action)>, i: nat): int
    requires i <= |moves|
  {
    if i == 0 then 0
    else Recharged(moves, i - 1) + if moves[i - 1].1.Recharge? then moves[i - 1].1.amount else 0
  }

  /** A request was refused: the thread that asked for quota goes on with a number that is not positive. */
  predicate Refuses(s: State, t: nat, s': State) {
    t < |s.pc| == |s'.pc| && s.pc[t].QuotaAcquire? && s'.pc[t].QuotaStore? && s'.pc[t].granted <= 0
  }

  function Refused(states: seq<State>, moves: seq<(nat, Action)>, i: nat): nat
    requires i <= |moves| && |states| == |moves| + 1
  {
    if i == 0 then 0
    else Refused(states, moves, i - 1) + if Refuses(states[i - 1], moves[i - 1].0, states[i]) then 1 else 0
  }

  /** What recharges found left over: it is lost. */
  function Unused(states: seq<State>, moves: seq<(nat, Action)>, i: nat): nat
    requires i <= |moves| && |states| == |moves| + 1
  {
    if i == 0 then 0
    else Unused(states, moves, i - 1)
         + if moves[i - 1].1.Recharge? && states[i - 1].mem.quota > 0 then states[i - 1].mem.quota else 0
  }

  // ---- Every step keeps the balance ----

  lemma SizeOfSnoc(done: seq<Entry>, e: Entry)
    ensures SizeOf(done + [e]) == SizeOf(done) + if e.cancelled then 0 else Size(e.m)
  {
    assert (done + [e])[..|done|] == done;
  }

  /** What one step adds to the bytes started comes out of the quota. */
  ghost predicate Balance(s: State, t: nat, a: Action, s': State) {
    Started(s') + (if Refuses(s, t, s') then 1 else 0) + s'.mem.quota
    == Started(s) + s.mem.quota
       + if a.Recharge? then a.amount - (if s.mem.quota > 0 then s.mem.quota else 0) else 0
  }

  /** A step that leaves alone what is sent, and who sends it. */
  lemma ElsewhereBalance(s: State, t: nat, a: Action, s': State)
    requires t < |s.pc| && |s'.pc| == |s.pc| && s'.pc == s.pc[t := s'.pc[t]] && !a.Recharge?
    requires s'.mem.quota == s.mem.quota && !s.pc[t].QuotaAcquire?
    requires s'.seen.done == s.seen.done && s'.seen.broken == s.seen.broken && s'.held.sending == s.held.sending
    requires s.held.sending == None || Unpaid(s') == Unpaid(s)
    ensures Balance(s, t, a, s')
  {
    hide SizeOf, Size, Unpaid;
  }

  lemma StartBalance(s: State, t: nat, go: bool)
    requires Control(s) && Delivering(s) && t < |s.pc| && s.limited && Knows(s, s.pc[t])
    requires s.pc[t].Ask? || s.pc[t].CancelRelease? || s.pc[t].QuotaAcquire? || s.pc[t].QuotaStore?
          || s.pc[t].PutBackRelease?
    ensures Balance(s, t, Run(go), StartStep(s, t, go))
  {
    KnowingAt(s, t);
    hide Exclusive, Knowing, Settled, SizeOf, SentBytes, Flatten;
    if s.pc[t].Ask? { SizeOfSnoc(s.seen.done, Entry(s.held.sending.value, true)); }
  }

  lemma CallbackBalance(s: State, t: nat)
    requires Control(s) && Delivering(s) && t < |s.pc| && Knows(s, s.pc[t])
    requires s.pc[t].OnWrite? || s.pc[t].OnError? || s.pc[t].Closing? || s.pc[t].DoneRelease?
    ensures Balance(s, t, Run(true), CallbackStep(s, t))
  {
    KnowingAt(s, t);
    hide Exclusive, Knowing, Settled, SizeOf, SentBytes, Flatten;
    if s.pc[t].OnWrite? { SizeOfSnoc(s.seen.done, Entry(s.held.sending.value, false)); }
  }

  lemma GetBalance(s: State, t: nat, go: bool)
    requires Control(s) && t < |s.pc| && Knows(s, s.pc[t])
    requires s.pc[t].GetTest? || s.pc[t].SwapLock? || s.pc[t].SwapQueues? || s.pc[t].SwapClear? || s.pc[t].Fetch?
    ensures Balance(s, t, Run(go), GetStep(s, t))
  {
    KnowingAt(s, t);
    hide Exclusive, Knowing, Settled, SizeOf, Flatten;
  }

  /** Steps of threads without the token, and those that take it or give it back while nothing is being sent. */
  lemma QuietBalance(s: State, t: nat, go: bool)
    requires Control(s) && Enabled(s, t, Run(go)) && Knows(s, s.pc[t])
    requires !Holding(s.pc[t]) || s.pc[t].EmptyRelease?
    ensures Balance(s, t, Run(go), RunStep(s, t, go))
  {
    KnowingAt(s, t);
    hide Exclusive, Knowing, SizeOf, Flatten, GetStep, StartStep, CallbackStep;
    ElsewhereBalance(s, t, Run(go), RunStep(s, t, go));
  }

  lemma RunBalance(s: State, t: nat, go: bool)
    requires Control(s) && Delivering(s) && Enabled(s, t, Run(go)) && s.limited && Knows(s, s.pc[t])
    ensures Balance(s, t, Run(go), RunStep(s, t, go))
  {
    hide Control, Delivering, Knows, PutStep, TryStep, GetStep, StartStep, RecheckStep, CallbackStep, Balance;
    match s.pc[t]
    case GetTest | SwapLock | SwapQueues | SwapClear | Fetch => GetBalance(s, t, go);
    case Ask | CancelRelease | QuotaAcquire | QuotaStore(_) | PutBackRelease => StartBalance(s, t, go);
    case OnWrite | OnError | Closing | DoneRelease =>
      CallbackBalance(s, t);
      SameBalance(s, t, go, CallbackStep(s, t));
    case _ => QuietBalance(s, t, go);
  }

  lemma SameBalance(s: State, t: nat, go: bool, s': State)
    requires Balance(s, t, Run(true), s')
    ensures Balance(s, t, Run(go), s')
  {
  }

  lemma EventBalance(s: State, t: nat, a: Action)
    requires Control(s) && Enabled(s, t, a) && !a.Run? && s.limited && Knows(s, s.pc[t])
    ensures Balance(s, t, a, Step(s, t, a))
  {
    KnowingAt(s, t);
    hide Exclusive, Knowing, SizeOf, Flatten, RunStep, PuttingBack, WellFormed;
    if !a.Recharge? && !a.Close? { ElsewhereBalance(s, t, a, Step(s, t, a)); }
  }

  lemma StepBalance(s: State, t: nat, a: Action)
    requires Invariant(s) && Enabled(s, t, a) && s.limited && Knows(s, s.pc[t])
    ensures Balance(s, t, a, Step(s, t, a))
  {
    hide Control, Delivering, Ordered, Watched, Overtaken, RunStep, Balance, Knows;
    if a.Run? { RunBalance(s, t, a.go); } else { EventBalance(s, t, a); }
  }

  // ---- Over whole runs ----

  /**
   Every byte started, every refusal, what is left and what was dropped at recharges add up to the initial quota and
   the recharges.
   */
  lemma {:induction false} QuotaBalance(states: seq<State>, moves: seq<(nat, Action)>, i: nat)
    requires IsRun(states, moves) && i < |states| && states[0].limited
    ensures Started(states[i]) + Refused(states, moves, i) + states[i].mem.quota + Unused(states, moves, i)
         == states[0].mem.quota + Recharged(moves, i)
  {
    hide Invariant, Step, Enabled, Knows, Started, Refuses;
    if i == 0 {
      NothingStarted(states[0]);
    } else {
      QuotaBalance(states, moves, i - 1);
      OneMove(states, moves, i - 1);
      var s, t, a := states[i - 1], moves[i - 1].0, moves[i - 1].1;
      StepBalance(s, t, a);
      assert Balance(s, t, a, states[i]);
    }
  }

  lemma NothingStarted(s: State)
    requires Initial(s)
    ensures Started(s) == 0
  {
  }

  /** What a move of a run is, with what is known before it. */
  lemma OneMove(states: seq<State>, moves: seq<(nat, Action)>, i: nat)
    requires IsRun(states, moves) && i < |moves|
    ensures var s, t, a := states[i], moves[i].0, moves[i].1;
            && Invariant(s) && s.limited == states[0].limited && Enabled(s, t, a) && Knows(s, s.pc[t])
            && states[i + 1] == Step(s, t, a)
  {
    hide Invariant, Step, Enabled, Knows;
    InvariantOnRuns(states, moves, i);
    var s, t, a := states[i], moves[i].0, moves[i].1;
    assert Move(s, t, a, states[i + 1]);
    InvariantStep(s, t, a);
  }

  /**
   A request is refused exactly if what was started, refused and dropped so far has used up the quota; else the
   message is paid for in full.
   */
  lemma RefusedExactlyWhen(states: seq<State>, moves: seq<(nat, Action)>, i: nat)
    requires IsRun(states, moves) && i < |moves| && states[0].limited
    requires moves[i].0 < |states[i].pc| && states[i].pc[moves[i].0].QuotaAcquire? && moves[i].1.Run?
    ensures states[i].held.sending.Some?
    ensures Refuses(states[i], moves[i].0, states[i + 1]) <==>
      states[0].mem.quota + Recharged(moves, i)
      <= Started(states[i]) + Refused(states, moves, i) + Unused(states, moves, i)
    ensures Started(states[i + 1]) == Started(states[i])
      + if Refuses(states[i], moves[i].0, states[i + 1]) then 0 else Size(states[i].held.sending.value)
  {
    QuotaBalance(states, moves, i);
    OneMove(states, moves, i);
    var s, t, a := states[i], moves[i].0, moves[i].1;
    StepBalance(s, t, a);
    hide Invariant, Started, Flatten;
    AcquireStep(s, t, a);
  }

  lemma AcquireStep(s: State, t: nat, a: Action)
    requires Enabled(s, t, a) && Knows(s, s.pc[t]) && s.limited && s.pc[t].QuotaAcquire? && a.Run?
    ensures s.held.sending.Some?
    ensures Refuses(s, t, Step(s, t, a)) <==> s.mem.quota <= 0
    ensures Step(s, t, a).mem.quota == s.mem.quota - if s.mem.quota > 0 then Size(s.held.sending.value) else 1
  {
    hide Flatten;
  }

  /** Nothing but a request and a recharge changes the quota. */
  lemma QuotaStays(s: State, t: nat, a: Action)
    requires Enabled(s, t, a) && Knows(s, s.pc[t]) && s.limited && !a.Recharge? && !(s.pc[t].QuotaAcquire? && a.Run?)
    ensures Step(s, t, a).mem.quota == s.mem.quota && !Refuses(s, t, Step(s, t, a))
  {
    hide Flatten;
  }

  lemma RechargeStarts(s: State, t: nat, a: Action)
    requires Enabled(s, t, a) && Knows(s, s.pc[t]) && a.Recharge?
    ensures Started(Step(s, t, a)) == Started(s)
  {
    hide SizeOf, Flatten;
  }

  lemma EnqueuedStay(s: State, t: nat, a: Action)
    requires Enabled(s, t, a) && Knows(s, s.pc[t])
    ensures Step(s, t, a).seen.enqueued == s.seen.enqueued
         || (s.pc[t].PutPush? && Step(s, t, a).seen.enqueued == s.seen.enqueued + [s.pc[t].m])
  {
    hide Flatten, WellFormed, PuttingBack, RunStep;
    if a.Run? { EnqueuedRun(s, t, a.go); }
  }

  lemma EnqueuedRun(s: State, t: nat, go: bool)
    requires t < |s.pc| && Knows(s, s.pc[t])
    ensures RunStep(s, t, go).seen.enqueued == s.seen.enqueued
         || (s.pc[t].PutPush? && RunStep(s, t, go).seen.enqueued == s.seen.enqueued + [s.pc[t].m])
  {
    hide Flatten, WellFormed;
    if s.pc[t].PutLock? || s.pc[t].PutPush? || s.pc[t].PutCount? {
      hide TryStep, GetStep, StartStep, RecheckStep, CallbackStep;
    } else {
      hide PutStep;
    }
  }

  lemma SendingWasEnqueued(s: State)
    requires Ordered(s) && s.held.sending.Some?
    ensures s.held.sending.value in s.seen.enqueued
  {
    hide Messages;
    var m, all := s.held.sending.value, Messages(s.seen.done) + Remaining(s);
    assert m in AsList(s.held.sending);
    assert m in Remaining(s);
    assert m in all;
  }

  /** One more move starts nothing unless there is quota, and then one message. */
  lemma StartedFurther(s: State, t: nat, a: Action, most: nat)
    requires Invariant(s) && Enabled(s, t, a) && Knows(s, s.pc[t]) && s.limited
    requires forall m | m in s.seen.enqueued :: Size(m) <= most
    ensures Started(Step(s, t, a)) == Started(s)
         || (s.mem.quota > 0 && Started(Step(s, t, a)) <= Started(s) + most && !a.Recharge?)
  {
    StepBalance(s, t, a);
    hide Control, Delivering, Watched, Overtaken, Started, Step, Size, Knows, Enabled, Refuses;
    if a.Recharge? {
      RechargeStarts(s, t, a);
    } else if s.pc[t].QuotaAcquire? && a.Run? {
      AcquireStep(s, t, a);
      SendingWasEnqueued(s);
    } else {
      QuotaStays(s, t, a);
    }
  }

  predicate NoDebits(moves: seq<(nat, Action)>, i: nat)
    requires i <= |moves|
  {
    forall j | 0 <= j < i && moves[j].1.Recharge? :: moves[j].1.amount >= 0
  }

  /**
   The quota limits what goes out: with messages of at most `most` bytes, the bytes of all messages ever started exceed
   the initial quota and the recharges by less than one message. So do the bytes on the wire.
   */
  lemma {:induction false} QuotaLimits(states: seq<State>, moves: seq<(nat, Action)>, i: nat, most: nat)
    requires IsRun(states, moves) && i < |states| && states[0].limited
    requires states[0].mem.quota >= 0 && most >= 1 && NoDebits(moves, i)
    requires forall m | m in states[i].seen.enqueued :: Size(m) <= most
    ensures Started(states[i]) <= states[0].mem.quota + Recharged(moves, i) + most - 1
    ensures |states[i].seen.wire| <= states[0].mem.quota + Recharged(moves, i) + most - 1
  {
    hide Invariant, Step, Enabled, Knows, Started, Size;
    if i == 0 {
      NothingStarted(states[0]);
    } else {
      OneMove(states, moves, i - 1);
      var s, t, a := states[i - 1], moves[i - 1].0, moves[i - 1].1;
      EnqueuedStay(s, t, a);
      assert forall m | m in s.seen.enqueued :: m in states[i].seen.enqueued;
      QuotaLimits(states, moves, i - 1, most);
      QuotaBalance(states, moves, i - 1);
      StartedFurther(s, t, a, most);
    }
    InvariantOnRuns(states, moves, i);
    WireWithin(states[i]);
  }

  lemma {:induction false} SizeOfIsSent(done: seq<Entry>)
    ensures |SentBytes(done)| == SizeOf(done)
  {
    hide Flatten;
    if |done| > 0 { SizeOfIsSent(done[..|done| - 1]); }
  }

  lemma WireWithin(s: State)
    requires Invariant(s)
    ensures |s.seen.wire| <= Started(s)
  {
    hide Control, Ordered, Watched, Overtaken, SizeOf, SentBytes, Flatten;
    SizeOfIsSent(s.seen.done);
  }
}
