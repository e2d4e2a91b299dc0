/**
 Sending in rpc_message_stream.h: senders queue messages and race for a send token; its holder takes a message,
 asks whether to send it, acquires quota and writes it to the socket piece by piece.

 The machine runs any number of threads, one access to shared memory at a time. What only the token's holder
 touches (_swapped_calls and the sending variables) moves together with the access next to it, and so does the
 release of the queue's lock with the last store made under it.
 */
module SendProtocol {
  import opened Bytes
  import opened Common
  import FlowControl

  /** A message is a row of buffers, none of them empty. */
  datatype Message = Message(blocks: seq<seq<byte>>)

  predicate WellFormed(m: Message) {
    |m.blocks| > 0 && forall i | 0 <= i < |m.blocks| :: |m.blocks[i]| > 0
  }

  /** Where a thread is. */
  datatype Pc =
    | Idle
    // put_into_pending_queue
    | PutLock(m: Message) | PutPush(m: Message) | PutCount
    // try_start_send, up to holding the token
    | CheckToken | CheckQuota | LoopTest | LoopCas
    // get_from_pending_queue
    | GetTest | SwapLock | SwapQueues | SwapClear | Fetch
    // a message was found: on_sending, the quota, putting it back
    | Ask | CancelRelease | QuotaAcquire | QuotaStore(granted: int) | PutBackRelease
    // no message was found
    | EmptyRelease | Recheck
    // on_write_some
    | OnWrite | OnError | Closing | DoneRelease

  /** What several threads access. */
  datatype Shared = Shared(
    connected: bool,           // _status
    token: bool,               // _send_token == TOKEN_LOCK
    quotaToken: int,           // _write_quota_token
    quota: int,                // the flow controller's _write_quota
    lock: Option<nat>,         // the thread in _pending_lock
    pending: seq<Message>,     // _pending_calls
    count: int                 // _pending_message_count
  )

  /** What only the holder of the token accesses. */
  datatype Held = Held(
    swapped: seq<Message>,     // _swapped_calls
    sending: Option<Message>,  // _sending_message
    chunk: seq<byte>,          // _sending_data, _sending_size
    rest: seq<seq<byte>>       // the buffers of _sending_message after that one
  )

  /** Who holds the send token: a thread, or the socket while a write is under way. */
  datatype Owner = Nobody | Thread(t: nat) | Socket

  /** A message that left the queue for good, and whether it was cancelled instead of sent. */
  datatype Entry = Entry(m: Message, cancelled: bool)

  /** What an observer sees. */
  datatype Seen = Seen(
    wire: seq<byte>,           // all bytes the socket took
    enqueued: seq<Message>,    // in the order they entered the queue
    done: seq<Entry>,          // sent or cancelled
    broken: Option<Message>,   // the message whose write failed
    owner: Owner,
    raced: bool                // since the token was taken last, a trigger came before its release for lack of quota
  )

  datatype State = State(limited: bool, mem: Shared, held: Held, seen: Seen, pc: seq<Pc>)

  /** `Run`: the next step of a busy thread, `go` being the answer of on_sending. Others start on an idle thread. */
  datatype Action =
    | Run(go: bool)
    | Send(m: Message)
    | Trigger
    | Written(n: nat)
    | WriteFailed
    | Close
    | Recharge(amount: int)

  // ---- What holds at every step ----

  predicate Holding(pc: Pc) {
    pc.GetTest? || pc.SwapLock? || pc.SwapQueues? || pc.SwapClear? || pc.Fetch? || pc.Ask? || pc.CancelRelease?
    || pc.QuotaAcquire? || pc.QuotaStore? || pc.PutBackRelease? || pc.EmptyRelease?
    || pc.OnWrite? || pc.OnError? || pc.Closing? || pc.DoneRelease?
  }

  predicate Locking(pc: Pc) {
    pc.PutPush? || pc.PutCount? || pc.SwapQueues? || pc.SwapClear?
  }

  /** The token and the lock have one holder at most, and while connected a taken token has one. */
  ghost predicate Exclusive(s: State) {
    && (forall t | 0 <= t < |s.pc| :: Holding(s.pc[t]) <==> s.seen.owner == Thread(t))
    && (forall t | 0 <= t < |s.pc| :: Locking(s.pc[t]) <==> s.mem.lock == Some(t))
    && (s.seen.owner.Thread? ==> s.seen.owner.t < |s.pc|)
    && (s.mem.lock.Some? ==> s.mem.lock.value < |s.pc|)
    && (s.seen.owner != Nobody ==> s.mem.token)
    && (s.mem.connected && s.mem.token ==> s.seen.owner != Nobody)
  }

  /** What a thread knows about the message being sent, about the queues and about the count. */
  predicate Knows(s: State, pc: Pc) {
    match pc
    case PutLock(m) => WellFormed(m)
    case PutPush(m) => WellFormed(m) && s.mem.count == |s.mem.pending|
    case PutCount => 0 <= s.mem.count == |s.mem.pending| - 1
    case GetTest => s.held.sending == None
    case SwapLock => s.held.sending == None && s.held.swapped == []
    case SwapQueues => s.held.sending == None && s.held.swapped == [] && s.mem.count == |s.mem.pending|
    case SwapClear => s.held.sending == None && s.mem.pending == [] && s.mem.count >= 0
    case Fetch => s.held.sending == None
    case EmptyRelease => s.held.sending == None && s.held.swapped == []
    case Ask => s.held.sending.Some?
    case QuotaAcquire => s.held.sending.Some?
    case QuotaStore(granted) => s.held.sending.Some? && |s.held.sending.value.blocks| > 0 && (granted <= 0 ==> s.limited)
    case PutBackRelease =>
      s.held.sending == None && s.held.swapped != [] && s.limited && (s.mem.quotaToken <= 0 || s.seen.raced)
    case CancelRelease => s.held.sending == None
    case DoneRelease => s.held.sending == None
    case OnWrite => s.held.sending.Some?
    case OnError => s.held.sending.Some?
    case Closing => s.held.sending == None
    case _ => true
  }

  ghost predicate Knowing(s: State) {
    && (forall t | 0 <= t < |s.pc| :: Knows(s, s.pc[t]))
    && Settled(s)
  }

  /** What holds of the shared and the held state whoever looks at it. */
  ghost predicate Settled(s: State) {
    && (s.mem.lock == None ==> s.mem.count == |s.mem.pending|)
    && (s.seen.owner == Socket ==> s.held.sending.Some?)
    && (!s.mem.token ==> s.held.sending == None)
    && (forall m | m in s.mem.pending :: WellFormed(m))
    && (forall m | m in s.held.swapped :: WellFormed(m))
    && (s.held.sending.Some? ==> WellFormed(s.held.sending.value))
    && (!s.limited ==> s.mem.quotaToken > 0 && !s.seen.raced)
  }

  ghost predicate Control(s: State) {
    Exclusive(s) && Knowing(s)
  }

  // ---- The steps ----

  predicate PuttingBack(s: State) {
    exists t | 0 <= t < |s.pc| :: s.pc[t] == PutBackRelease
  }

  predicate Enabled(s: State, t: nat, a: Action) {
    t < |s.pc| &&
    match a
    case Run(_) =>
      && s.pc[t] != Idle
      && ((s.pc[t].PutLock? || s.pc[t].SwapLock?) ==> s.mem.lock == None)
    case Send(m) => s.pc[t] == Idle && WellFormed(m)
    case Trigger => s.pc[t] == Idle
    case Written(n) => s.pc[t] == Idle && s.seen.owner == Socket && n <= |s.held.chunk|
    case WriteFailed => s.pc[t] == Idle && s.seen.owner == Socket
    case Close => true
    case Recharge(_) => true
  }

  function Step(s: State, t: nat, a: Action): State
    requires Enabled(s, t, a) && Knows(s, s.pc[t])
  {
    match a
    case Run(go) => RunStep(s, t, go)
    case Send(m) => if s.mem.connected then Goto(s, t, PutLock(m)) else s
    case Trigger =>
      Goto(s.(mem := s.mem.(quotaToken := 1), seen := s.seen.(raced := s.seen.raced || PuttingBack(s))), t, CheckToken)
    case Written(n) =>
      var seen := s.seen.(wire := s.seen.wire + s.held.chunk[..n], owner := Thread(t));
      Goto(s.(held := s.held.(chunk := s.held.chunk[n..]), seen := seen), t, OnWrite)
    case WriteFailed => Goto(Own(s, Thread(t)), t, OnError)
    case Close => s.(mem := s.mem.(connected := false))
    case Recharge(amount) =>
      s.(mem := s.mem.(quota := if s.limited then FlowControl.Recharge(s.mem.quota, amount) else s.mem.quota))
  }

  function Goto(s: State, t: nat, pc: Pc): State
    requires t < |s.pc|
  {
    s.(pc := s.pc[t := pc])
  }

  function Own(s: State, owner: Owner): State {
    s.(seen := s.seen.(owner := owner))
  }

  /** The compare-and-swap that takes the token, which is free. */
  function Take(s: State, t: nat): State {
    Own(s.(mem := s.mem.(token := true), seen := s.seen.(raced := false)), Thread(t))
  }

  /** The compare-and-swap that frees the token. */
  function Release(s: State): State {
    s.(mem := s.mem.(token := false), seen := s.seen.(owner := Nobody))
  }

  function RunStep(s: State, t: nat, go: bool): State
    requires t < |s.pc| && Knows(s, s.pc[t])
  {
    match s.pc[t]
    case Idle => s
    case PutLock(_) | PutPush(_) | PutCount => PutStep(s, t)
    case CheckToken | CheckQuota | LoopTest | LoopCas => TryStep(s, t)
    case GetTest | SwapLock | SwapQueues | SwapClear | Fetch => GetStep(s, t)
    case Ask | CancelRelease | QuotaAcquire | QuotaStore(_) | PutBackRelease => StartStep(s, t, go)
    case EmptyRelease | Recheck => RecheckStep(s, t)
    case OnWrite | OnError | Closing | DoneRelease => CallbackStep(s, t)
  }

  function PutStep(s: State, t: nat): State
    requires t < |s.pc|
  {
    match s.pc[t]
    case PutLock(m) => Goto(s.(mem := s.mem.(lock := Some(t))), t, PutPush(m))
    case PutPush(m) =>
      var mem := s.mem.(pending := s.mem.pending + [m]);
      Goto(s.(mem := mem, seen := s.seen.(enqueued := s.seen.enqueued + [m])), t, PutCount)
    case PutCount => Goto(s.(mem := s.mem.(count := s.mem.count + 1, lock := None)), t, CheckToken)
    case _ => s
  }

  function TryStep(s: State, t: nat): State
    requires t < |s.pc|
  {
    match s.pc[t]
    case CheckToken => Goto(s, t, if s.mem.token then Idle else CheckQuota)
    case CheckQuota => Goto(s, t, if s.mem.quotaToken <= 0 then Idle else LoopTest)
    case LoopTest => Goto(s, t, if s.mem.connected then LoopCas else Idle)
    case LoopCas =>
      if s.mem.token then Goto(s, t, Idle)
      else Goto(Take(s, t), t, GetTest)
    case _ => s
  }

  function GetStep(s: State, t: nat): State
    requires t < |s.pc|
  {
    match s.pc[t]
    case GetTest => Goto(s, t, if s.held.swapped == [] && s.mem.count > 0 then SwapLock else Fetch)
    case SwapLock => Goto(s.(mem := s.mem.(lock := Some(t))), t, SwapQueues)
    case SwapQueues =>
      if s.mem.pending == [] then Goto(s.(mem := s.mem.(lock := None)), t, Fetch)
      else
        var mem, held := s.mem.(pending := s.held.swapped), s.held.(swapped := s.mem.pending);
        Goto(s.(mem := mem, held := held), t, SwapClear)
    case SwapClear => Goto(s.(mem := s.mem.(count := 0, lock := None)), t, Fetch)
    case Fetch =>
      if s.held.swapped == [] then Goto(s, t, EmptyRelease)
      else
        var held := s.held.(sending := Some(s.held.swapped[0]), swapped := s.held.swapped[1..]);
        Goto(s.(held := held), t, Ask)
    case _ => s
  }

  /** The message is on its way out: record what becomes of it and clear the sending variables. */
  function Conclude(s: State, cancelled: bool): State
    requires s.held.sending.Some?
  {
    s.(held := s.held.(sending := None),
       seen := s.seen.(done := s.seen.done + [Entry(s.held.sending.value, cancelled)]))
  }

  function StartStep(s: State, t: nat, go: bool): State
    requires t < |s.pc| && Knows(s, s.pc[t])
  {
    match s.pc[t]
    case Ask => if go then Goto(s, t, QuotaAcquire) else Goto(Conclude(s, true), t, CancelRelease)
    case CancelRelease => Goto(Release(s), t, LoopTest)
    case QuotaAcquire =>
      if !s.limited then Goto(s, t, QuotaStore(1))
      else
        var (quota, granted) := FlowControl.Acquire(s.mem.quota, |Flatten(s.held.sending.value.blocks)|);
        Goto(s.(mem := s.mem.(quota := quota)), t, QuotaStore(granted))
    case QuotaStore(granted) =>
      var mem, m := s.mem.(quotaToken := granted), s.held.sending.value;
      if granted <= 0 then
        Goto(s.(mem := mem, held := s.held.(swapped := [m] + s.held.swapped, sending := None)), t, PutBackRelease)
      else
        Goto(Own(s.(mem := mem, held := s.held.(chunk := m.blocks[0], rest := m.blocks[1..])), Socket), t, Idle)
    case PutBackRelease => Goto(Release(s), t, Idle)
    case _ => s
  }

  function RecheckStep(s: State, t: nat): State
    requires t < |s.pc|
  {
    match s.pc[t]
    case EmptyRelease => Goto(Release(s), t, Recheck)
    case Recheck => Goto(s, t, if s.mem.count == 0 then Idle else LoopTest)
    case _ => s
  }

  /** After a close, the callbacks return at once and the token stays taken. */
  function CallbackStep(s: State, t: nat): State
    requires t < |s.pc| && Knows(s, s.pc[t])
  {
    match s.pc[t]
    case OnWrite =>
      if !s.mem.connected then Goto(Own(s, Nobody), t, Idle)
      else if |s.held.chunk| > 0 then Goto(Own(s, Socket), t, Idle)
      else if |s.held.rest| > 0 then
        var held := s.held.(chunk := s.held.rest[0], rest := s.held.rest[1..]);
        Goto(Own(s.(held := held), Socket), t, Idle)
      else Goto(Conclude(s, false), t, DoneRelease)
    case OnError =>
      if !s.mem.connected then Goto(Own(s, Nobody), t, Idle)
      else
        var seen := s.seen.(broken := s.held.sending);
        Goto(s.(seen := seen, held := s.held.(sending := None)), t, Closing)
    case Closing => Goto(Own(s.(mem := s.mem.(connected := false)), Nobody), t, Idle)
    case DoneRelease => Goto(Release(s), t, CheckToken)
    case _ => s
  }

  // ---- Who holds what, and what they know ----

  /** A thread's move keeps the owners in order if what it takes was free and what it gives up was its own. */
  lemma ExclusiveMove(s: State, s': State, t: nat)
    requires Exclusive(s) && t < |s.pc| && |s'.pc| == |s.pc| && s'.pc == s.pc[t := s'.pc[t]]
    requires if Holding(s'.pc[t]) then s'.seen.owner == Thread(t) && (Holding(s.pc[t]) || !s.seen.owner.Thread?)
             else if Holding(s.pc[t]) then !s'.seen.owner.Thread?
             else s'.seen.owner == s.seen.owner
    requires if Locking(s'.pc[t]) then s'.mem.lock == Some(t) && (Locking(s.pc[t]) || s.mem.lock == None)
             else if Locking(s.pc[t]) then s'.mem.lock == None
             else s'.mem.lock == s.mem.lock
    requires s'.seen.owner != Nobody ==> s'.mem.token
    requires s'.mem.connected && s'.mem.token ==> s'.seen.owner != Nobody
    ensures Exclusive(s')
  {
  }

  /** What the invariant says about one thread. */
  lemma ExclusiveAt(s: State, t: nat)
    requires Exclusive(s) && t < |s.pc|
    ensures Holding(s.pc[t]) <==> s.seen.owner == Thread(t)
    ensures Locking(s.pc[t]) <==> s.mem.lock == Some(t)
    ensures s.seen.owner != Nobody ==> s.mem.token
    ensures s.mem.connected && s.mem.token ==> s.seen.owner != Nobody
  {
  }

  lemma ExclusiveElsewhere(s: State, s': State)
    requires Exclusive(s) && s'.pc == s.pc && s'.seen.owner == s.seen.owner
    requires s'.mem.lock == s.mem.lock && s'.mem.token == s.mem.token && (s'.mem.connected ==> s.mem.connected)
    ensures Exclusive(s')
  {
  }

  lemma ExclusivePut(s: State, t: nat)
    requires Exclusive(s) && t < |s.pc| && (s.pc[t].PutLock? ==> s.mem.lock == None)
    ensures Exclusive(PutStep(s, t))
  {
    hide Exclusive;
    ExclusiveAt(s, t);
    ExclusiveMove(s, PutStep(s, t), t);
  }

  lemma ExclusiveTry(s: State, t: nat)
    requires Exclusive(s) && t < |s.pc|
    ensures Exclusive(TryStep(s, t))
  {
    hide Exclusive;
    ExclusiveAt(s, t);
    ExclusiveMove(s, TryStep(s, t), t);
  }

  lemma ExclusiveGet(s: State, t: nat)
    requires Exclusive(s) && t < |s.pc| && (s.pc[t].SwapLock? ==> s.mem.lock == None)
    ensures Exclusive(GetStep(s, t))
  {
    hide Exclusive;
    ExclusiveAt(s, t);
    ExclusiveMove(s, GetStep(s, t), t);
  }

  lemma ExclusiveStart(s: State, t: nat, go: bool)
    requires Exclusive(s) && t < |s.pc| && Knows(s, s.pc[t])
    ensures Exclusive(StartStep(s, t, go))
  {
    hide Exclusive;
    ExclusiveAt(s, t);
    ExclusiveMove(s, StartStep(s, t, go), t);
  }

  lemma ExclusiveCallback(s: State, t: nat)
    requires Exclusive(s) && t < |s.pc| && Knows(s, s.pc[t])
    ensures Exclusive(CallbackStep(s, t))
  {
    hide Exclusive;
    ExclusiveAt(s, t);
    ExclusiveMove(s, CallbackStep(s, t), t);
  }

  lemma ExclusiveRecheck(s: State, t: nat)
    requires Exclusive(s) && t < |s.pc|
    ensures Exclusive(RecheckStep(s, t))
  {
    hide Exclusive;
    ExclusiveAt(s, t);
    ExclusiveMove(s, RecheckStep(s, t), t);
  }

  /** What another thread knows is safe from a move that leaves alone what that thread holds. */
  lemma KnowsElsewhere(s: State, s': State, pc: Pc)
    requires Knows(s, pc) && s'.limited == s.limited
    requires Holding(pc) ==> s'.held == s.held
    requires Locking(pc) ==> s'.mem.pending == s.mem.pending && s'.mem.count == s.mem.count
    requires pc.PutBackRelease? ==> s'.seen.raced || (!s.seen.raced && s'.mem.quotaToken == s.mem.quotaToken)
    ensures Knows(s', pc)
  {
  }

  lemma KnowingMove(s: State, s': State, t: nat)
    requires Control(s) && t < |s.pc| && |s'.pc| == |s.pc| && s'.pc == s.pc[t := s'.pc[t]]
    requires Knows(s', s'.pc[t]) && Settled(s')
    requires s'.limited == s.limited
    requires s'.held == s.held || Holding(s.pc[t]) || !s.seen.owner.Thread?
    requires (s'.mem.pending == s.mem.pending && s'.mem.count == s.mem.count) || Locking(s.pc[t])
    requires (s.seen.raced ==> s'.seen.raced) || !s.seen.owner.Thread?
    requires s'.mem.quotaToken == s.mem.quotaToken || Holding(s.pc[t]) || s'.seen.raced || !PuttingBack(s)
    ensures Knowing(s')
  {
    forall u | 0 <= u < |s'.pc| ensures Knows(s', s'.pc[u]) {
      if u != t {
        KnowsElsewhere(s, s', s.pc[u]);
      }
    }
  }

  lemma KnowingAt(s: State, t: nat)
    requires Control(s) && t < |s.pc|
    ensures Knows(s, s.pc[t]) && Settled(s)
    ensures Holding(s.pc[t]) <==> s.seen.owner == Thread(t)
    ensures Locking(s.pc[t]) <==> s.mem.lock == Some(t)
  {
  }

  lemma PutKeepsControl(s: State, t: nat)
    requires Control(s) && Enabled(s, t, Run(true)) && (s.pc[t].PutLock? || s.pc[t].PutPush? || s.pc[t].PutCount?)
    ensures Control(PutStep(s, t))
  {
    KnowingAt(s, t);
    ExclusivePut(s, t);
    hide Exclusive, Knowing;
    KnowingMove(s, PutStep(s, t), t);
  }

  lemma TryKeepsControl(s: State, t: nat)
    requires Control(s) && t < |s.pc|
    requires s.pc[t].CheckToken? || s.pc[t].CheckQuota? || s.pc[t].LoopTest? || s.pc[t].LoopCas?
    ensures Control(TryStep(s, t))
  {
    KnowingAt(s, t);
    ExclusiveTry(s, t);
    hide Exclusive, Knowing;
    KnowingMove(s, TryStep(s, t), t);
  }

  lemma GetKeepsControl(s: State, t: nat)
    requires Control(s) && Enabled(s, t, Run(true))
    requires s.pc[t].GetTest? || s.pc[t].SwapLock? || s.pc[t].SwapQueues? || s.pc[t].SwapClear? || s.pc[t].Fetch?
    ensures Control(GetStep(s, t))
  {
    KnowingAt(s, t);
    ExclusiveGet(s, t);
    hide Exclusive, Knowing, WellFormed;
    KnowingMove(s, GetStep(s, t), t);
  }

  lemma StartKeepsControl(s: State, t: nat, go: bool)
    requires Control(s) && t < |s.pc|
    requires s.pc[t].Ask? || s.pc[t].CancelRelease? || s.pc[t].QuotaAcquire? || s.pc[t].QuotaStore?
          || s.pc[t].PutBackRelease?
    ensures Knows(s, s.pc[t]) && Control(StartStep(s, t, go))
  {
    KnowingAt(s, t);
    ExclusiveStart(s, t, go);
    hide Exclusive, Knowing;
    KnowingMove(s, StartStep(s, t, go), t);
  }

  lemma RecheckKeepsControl(s: State, t: nat)
    requires Control(s) && t < |s.pc| && (s.pc[t].EmptyRelease? || s.pc[t].Recheck?)
    ensures Control(RecheckStep(s, t))
  {
    KnowingAt(s, t);
    ExclusiveRecheck(s, t);
    hide Exclusive, Knowing;
    KnowingMove(s, RecheckStep(s, t), t);
  }

  lemma CallbackKeepsControl(s: State, t: nat)
    requires Control(s) && t < |s.pc|
    requires s.pc[t].OnWrite? || s.pc[t].OnError? || s.pc[t].Closing? || s.pc[t].DoneRelease?
    ensures Knows(s, s.pc[t]) && Control(CallbackStep(s, t))
  {
    KnowingAt(s, t);
    ExclusiveCallback(s, t);
    hide Exclusive, Knowing, WellFormed, PuttingBack;
    KnowingMove(s, CallbackStep(s, t), t);
  }

  lemma ExclusiveEvent(s: State, t: nat, a: Action)
    requires Control(s) && Enabled(s, t, a) && !a.Run? && !a.Close? && !a.Recharge?
    ensures Knows(s, s.pc[t]) && Exclusive(Step(s, t, a))
  {
    KnowingAt(s, t);
    ExclusiveAt(s, t);
    hide Exclusive, Knowing, Settled, WellFormed, PuttingBack, RunStep;
    ExclusiveMove(s, Step(s, t, a), t);
  }

  lemma EventKeepsControl(s: State, t: nat, a: Action)
    requires Control(s) && Enabled(s, t, a) && !a.Run? && !a.Close? && !a.Recharge?
    ensures Knows(s, s.pc[t]) && Control(Step(s, t, a))
  {
    KnowingAt(s, t);
    ExclusiveEvent(s, t, a);
    assert PuttingBack(s) ==> s.limited;
    hide Exclusive, Knowing, Step, Enabled, WellFormed;
    EventIsKnown(s, t, a);
    KnowingMove(s, Step(s, t, a), t);
  }

  lemma EventIsKnown(s: State, t: nat, a: Action)
    requires Enabled(s, t, a) && !a.Run? && !a.Close? && !a.Recharge? && Knows(s, s.pc[t]) && Settled(s)
    requires PuttingBack(s) ==> s.limited
    ensures var s' := Step(s, t, a);
            && |s'.pc| == |s.pc| && s'.pc == s.pc[t := s'.pc[t]] && Knows(s', s'.pc[t]) && Settled(s')
            && s'.limited == s.limited && (s'.held == s.held || !s.seen.owner.Thread?)
            && s'.mem.pending == s.mem.pending && s'.mem.count == s.mem.count
            && (s.seen.raced ==> s'.seen.raced)
            && (s'.mem.quotaToken == s.mem.quotaToken || s'.seen.raced || !PuttingBack(s))
  {
    hide PuttingBack, RunStep;
  }

  lemma CloseKeepsControl(s: State, t: nat, a: Action)
    requires Control(s) && Enabled(s, t, a) && (a.Close? || a.Recharge?)
    ensures Knows(s, s.pc[t]) && Control(Step(s, t, a))
  {
    ExclusiveElsewhere(s, Step(s, t, a));
    KnowingAt(s, t);
    hide Exclusive;
    KnowingMove(s, Step(s, t, a), t);
  }

  lemma ControlStep(s: State, t: nat, a: Action)
    requires Control(s) && Enabled(s, t, a)
    ensures Knows(s, s.pc[t]) && Control(Step(s, t, a))
  {
    KnowingAt(s, t);
    hide Exclusive, Knowing, Knows, Control, PutStep, TryStep, GetStep, StartStep, RecheckStep, CallbackStep;
    if a.Close? || a.Recharge? {
      CloseKeepsControl(s, t, a);
    } else if !a.Run? {
      EventKeepsControl(s, t, a);
    } else {
      match s.pc[t]
      case PutLock(_) | PutPush(_) | PutCount => PutKeepsControl(s, t);
      case CheckToken | CheckQuota | LoopTest | LoopCas => TryKeepsControl(s, t);
      case GetTest | SwapLock | SwapQueues | SwapClear | Fetch => GetKeepsControl(s, t);
      case Ask | CancelRelease | QuotaAcquire | QuotaStore(_) | PutBackRelease => StartKeepsControl(s, t, a.go);
      case EmptyRelease | Recheck => RecheckKeepsControl(s, t);
      case OnWrite | OnError | Closing | DoneRelease => CallbackKeepsControl(s, t);
    }
  }

  // ---- Order and delivery ----

  function Messages(done: seq<Entry>): (ms: seq<Message>)
    ensures |ms| == |done|
  {
    seq(|done|, i requires 0 <= i < |done| => done[i].m)
  }

  function AsList(o: Option<Message>): seq<Message> {
    if o == None then [] else [o.value]
  }

  function SentBytes(done: seq<Entry>): seq<byte> {
    if |done| == 0 then []
    else
      var last := done[|done| - 1];
      SentBytes(done[..|done| - 1]) + if last.cancelled then [] else Flatten(last.m.blocks)
  }

  /** The messages that were not cancelled, in the order they were enqueued. */
  function Uncancelled(done: seq<Entry>): seq<Message> {
    if |done| == 0 then []
    else
      var last := done[|done| - 1];
      Uncancelled(done[..|done| - 1]) + if last.cancelled then [] else [last.m]
  }

  predicate Asking(pc: Pc) {
    pc.Ask? || pc.QuotaAcquire? || pc.QuotaStore?
  }

  /** Has the message being sent not reached the socket yet? */
  predicate Undecided(s: State) {
    s.seen.owner.Thread? && s.seen.owner.t < |s.pc| && Asking(s.pc[s.seen.owner.t])
  }

  /** What was enqueued and is not done, in order. */
  function Remaining(s: State): seq<Message> {
    AsList(s.seen.broken) + (AsList(s.held.sending) + (s.held.swapped + s.mem.pending))
  }

  predicate Ordered(s: State) {
    s.seen.enqueued == Messages(s.seen.done) + Remaining(s)
  }

  /** The socket took whole messages, and of the one being sent what is not still to be written. */
  predicate Delivering(s: State) {
    var sent := SentBytes(s.seen.done);
    if s.seen.broken.Some? then
      && s.held.sending == None && s.mem.token
      && s.seen.wire <= sent + Flatten(s.seen.broken.value.blocks)
      && (s.seen.owner == Nobody || (s.seen.owner.Thread? && s.seen.owner.t < |s.pc| && s.pc[s.seen.owner.t] == Closing))
    else if s.held.sending == None || Undecided(s) then s.seen.wire == sent
    else s.seen.wire + (s.held.chunk + Flatten(s.held.rest)) == sent + Flatten(s.held.sending.value.blocks)
  }

  lemma ConcludeLedger(done: seq<Entry>, e: Entry)
    ensures Messages(done + [e]) == Messages(done) + [e.m]
    ensures SentBytes(done + [e]) == SentBytes(done) + if e.cancelled then [] else Flatten(e.m.blocks)
  {
    assert (done + [e])[..|done|] == done;
  }

  lemma ConcludeOrder(s: State, cancelled: bool)
    requires Ordered(s) && s.held.sending.Some? && s.seen.broken == None
    ensures Ordered(Conclude(s, cancelled))
  {
    ConcludeLedger(s.seen.done, Entry(s.held.sending.value, cancelled));
    assert Remaining(s) == [s.held.sending.value] + Remaining(Conclude(s, cancelled));
  }

  lemma PutKeepsOrder(s: State, t: nat)
    requires t < |s.pc| && Ordered(s) && (s.pc[t].PutLock? || s.pc[t].PutPush? || s.pc[t].PutCount?)
    ensures Ordered(PutStep(s, t))
  {
    hide Messages;
    if s.pc[t].PutPush? {
      assert Remaining(PutStep(s, t)) == Remaining(s) + [s.pc[t].m];
    }
  }

  lemma FetchKeepsRemaining(s: State)
    requires s.held.sending == None && s.held.swapped != []
    ensures AsList(Some(s.held.swapped[0])) + (s.held.swapped[1..] + s.mem.pending)
         == AsList(s.held.sending) + (s.held.swapped + s.mem.pending)
  {
    assert s.held.swapped == [s.held.swapped[0]] + s.held.swapped[1..];
  }

  lemma GetKeepsOrder(s: State, t: nat)
    requires t < |s.pc| && Ordered(s) && Knows(s, s.pc[t])
    requires s.pc[t].GetTest? || s.pc[t].SwapLock? || s.pc[t].SwapQueues? || s.pc[t].SwapClear? || s.pc[t].Fetch?
    ensures Ordered(GetStep(s, t))
  {
    hide Messages;
    if s.pc[t].Fetch? && s.held.swapped != [] {
      FetchKeepsRemaining(s);
    } else if s.pc[t].SwapQueues? {
      assert s.held.swapped + s.mem.pending == s.mem.pending + s.held.swapped;
    }
  }

  lemma StartKeepsOrder(s: State, t: nat, go: bool)
    requires t < |s.pc| && Ordered(s) && Knows(s, s.pc[t]) && s.seen.broken == None
    ensures Ordered(StartStep(s, t, go))
  {
    hide Messages;
    if s.pc[t].Ask? && !go {
      ConcludeOrder(s, true);
    } else {
      assert Remaining(StartStep(s, t, go)) == Remaining(s);
    }
  }

  lemma CallbackKeepsOrder(s: State, t: nat)
    requires t < |s.pc| && Ordered(s) && Knows(s, s.pc[t])
    requires s.pc[t].OnWrite? || s.pc[t].OnError? ==> s.seen.broken == None
    ensures Ordered(CallbackStep(s, t))
  {
    hide Messages;
    if s.pc[t].OnWrite? && CallbackStep(s, t).seen.done != s.seen.done {
      ConcludeOrder(s, false);
    } else {
      assert Remaining(CallbackStep(s, t)) == Remaining(s);
    }
  }

  /** A thread that moves without touching what is sent leaves the delivery as it is. */
  lemma DeliveringMove(s: State, s': State, t: nat)
    requires Exclusive(s) && Delivering(s) && t < |s.pc|
    requires |s'.pc| == |s.pc| && s'.pc == s.pc[t := s'.pc[t]]
    requires s'.held.sending == s.held.sending && s'.held.chunk == s.held.chunk && s'.held.rest == s.held.rest
    requires s'.seen.wire == s.seen.wire && s'.seen.done == s.seen.done && s'.seen.broken == s.seen.broken
    requires s'.mem.token == s.mem.token || s.seen.broken == None
    requires s'.seen.owner == s.seen.owner || (s.seen.broken == None && s.held.sending == None)
    requires Asking(s'.pc[t]) == Asking(s.pc[t]) || s.held.sending == None
    requires s'.pc[t] == Closing <==> s.pc[t] == Closing
    ensures Delivering(s')
  {
  }

  lemma PutKeepsDelivery(s: State, t: nat)
    requires Control(s) && Delivering(s) && t < |s.pc| && (s.pc[t].PutLock? || s.pc[t].PutPush? || s.pc[t].PutCount?)
    ensures Delivering(PutStep(s, t))
  {
    hide Knowing, SentBytes, Flatten, Exclusive, Delivering;
    DeliveringMove(s, PutStep(s, t), t);
  }

  lemma TryKeepsDelivery(s: State, t: nat)
    requires Control(s) && Delivering(s) && t < |s.pc|
    requires s.pc[t].CheckToken? || s.pc[t].CheckQuota? || s.pc[t].LoopTest? || s.pc[t].LoopCas?
    ensures Delivering(TryStep(s, t))
  {
    KnowingAt(s, t);
    hide Knowing, SentBytes, Flatten, Exclusive;
    DeliveringMove(s, TryStep(s, t), t);
  }

  lemma RecheckKeepsDelivery(s: State, t: nat)
    requires Control(s) && Delivering(s) && t < |s.pc| && (s.pc[t].EmptyRelease? || s.pc[t].Recheck?)
    ensures Delivering(RecheckStep(s, t))
  {
    KnowingAt(s, t);
    hide Knowing, SentBytes, Flatten, Exclusive;
    DeliveringMove(s, RecheckStep(s, t), t);
  }

  lemma GetKeepsDelivery(s: State, t: nat)
    requires Control(s) && Delivering(s) && t < |s.pc|
    requires s.pc[t].GetTest? || s.pc[t].SwapLock? || s.pc[t].SwapQueues? || s.pc[t].SwapClear? || s.pc[t].Fetch?
    ensures Delivering(GetStep(s, t))
  {
    KnowingAt(s, t);
    hide Exclusive, Knowing, SentBytes, Flatten;
  }

  lemma StartKeepsDelivery(s: State, t: nat, go: bool)
    requires Control(s) && Delivering(s) && t < |s.pc| && Knows(s, s.pc[t])
    requires s.pc[t].Ask? || s.pc[t].CancelRelease? || s.pc[t].QuotaAcquire? || s.pc[t].QuotaStore?
          || s.pc[t].PutBackRelease?
    ensures s.seen.broken == None && Delivering(StartStep(s, t, go))
  {
    KnowingAt(s, t);
    hide Exclusive, Knowing, SentBytes;
    if s.pc[t].Ask? { ConcludeLedger(s.seen.done, Entry(s.held.sending.value, true)); }
  }

  lemma OnWriteKeepsDelivery(s: State, t: nat)
    requires Control(s) && Delivering(s) && t < |s.pc| && s.pc[t] == OnWrite && Knows(s, s.pc[t])
    ensures s.seen.broken == None && Delivering(CallbackStep(s, t))
  {
    KnowingAt(s, t);
    hide Exclusive, Knowing, Settled, SentBytes, Flatten, Messages;
    ConcludeLedger(s.seen.done, Entry(s.held.sending.value, false));
    if |s.held.chunk| == 0 { NextBuffer(s.seen.wire, s.held.rest); }
  }

  lemma NextBuffer(wire: seq<byte>, rest: seq<seq<byte>>)
    ensures |rest| > 0 ==> wire + ([] + Flatten(rest)) == wire + (rest[0] + Flatten(rest[1..]))
    ensures |rest| == 0 ==> wire + ([] + Flatten(rest)) == wire
  {
    if |rest| > 0 { assert Flatten(rest) == rest[0] + Flatten(rest[1..]); } else { assert Flatten(rest) == []; }
    hide Flatten;
    assert [] + Flatten(rest) == Flatten(rest);
  }

  lemma CallbackKeepsDelivery(s: State, t: nat)
    requires Control(s) && Delivering(s) && t < |s.pc| && Knows(s, s.pc[t])
    requires s.pc[t].OnError? || s.pc[t].Closing? || s.pc[t].DoneRelease?
    ensures (s.pc[t].OnError? ==> s.seen.broken == None) && Delivering(CallbackStep(s, t))
  {
    KnowingAt(s, t);
    hide Exclusive, Knowing, Settled, SentBytes, Flatten;
  }

  lemma WrittenKeepsDelivery(s: State, t: nat, n: nat)
    requires Control(s) && Delivering(s) && Ordered(s) && Enabled(s, t, Written(n)) && Knows(s, s.pc[t])
    ensures Delivering(Step(s, t, Written(n))) && Ordered(Step(s, t, Written(n)))
  {
    KnowingAt(s, t);
    assert s.held.sending.Some?;
    hide Exclusive, Knowing, Settled, SentBytes, Flatten, Messages, RunStep;
    WireAdvances(s.seen.wire, s.held.chunk, Flatten(s.held.rest), n);
    assert Remaining(Step(s, t, Written(n))) == Remaining(s);
  }

  lemma WireAdvances(wire: seq<byte>, chunk: seq<byte>, rest: seq<byte>, n: nat)
    requires n <= |chunk|
    ensures (wire + chunk[..n]) + (chunk[n..] + rest) == wire + (chunk + rest)
  {
    assert chunk == chunk[..n] + chunk[n..];
  }

  lemma EventKeepsDelivery(s: State, t: nat, a: Action)
    requires Control(s) && Delivering(s) && Ordered(s) && Enabled(s, t, a) && !a.Run? && !a.Written? && Knows(s, s.pc[t])
    ensures Delivering(Step(s, t, a)) && Ordered(Step(s, t, a))
  {
    KnowingAt(s, t);
    hide Knowing, SentBytes, Flatten, Messages, WellFormed, PuttingBack, RunStep;
    if a.WriteFailed? {
      hide Exclusive;
    } else {
      DeliveringIdle(s, Step(s, t, a), t);
    }
  }

  lemma DeliveringIdle(s: State, s': State, t: nat)
    requires Exclusive(s) && Delivering(s) && t < |s.pc|
    requires |s'.pc| == |s.pc| && s'.pc == s.pc[t := s'.pc[t]]
    requires s'.held == s.held && s'.seen == s.seen.(raced := s'.seen.raced) && s'.mem.token == s.mem.token
    requires s'.pc[t] == s.pc[t] || (!Holding(s.pc[t]) && !Holding(s'.pc[t]))
    ensures Delivering(s')
  {
    hide SentBytes, Flatten;
  }

  // ---- No send is lost ----

  /** On the way from putting a message into the queue, or giving the token back, to trying for the token. */
  predicate Trying(pc: Pc) {
    pc.PutCount? || pc.CheckToken? || pc.CheckQuota? || pc.LoopTest? || pc.LoopCas?
  }

  ghost predicate SomeTrying(s: State) {
    exists t | 0 <= t < |s.pc| :: Trying(s.pc[t])
  }

  ghost predicate SomeRechecking(s: State) {
    exists t | 0 <= t < |s.pc| :: s.pc[t] == Recheck
  }

  predicate Waiting(s: State) {
    s.mem.pending != [] || s.held.swapped != []
  }

  /**
   While connected, a message in the queue is looked after: the token is taken, or some thread will still try
   for it, or will recheck a queue it is in. The exceptions are a lack of quota and a trigger that came too early.
   */
  ghost predicate Watched(s: State) {
    s.mem.connected && Waiting(s) ==>
      || s.mem.token
      || SomeTrying(s)
      || (s.held.swapped == [] && SomeRechecking(s))
      || s.mem.quotaToken <= 0
      || s.seen.raced
  }

  lemma WatchedElsewhere(s: State, s': State, t: nat)
    requires Watched(s) && t < |s.pc| && |s'.pc| == |s.pc| && s'.pc == s.pc[t := s'.pc[t]]
    requires !Trying(s.pc[t]) && s.pc[t] != Recheck
    requires s'.held.swapped == s.held.swapped && s'.mem.pending == s.mem.pending
    requires s'.mem.quotaToken == s.mem.quotaToken && s'.seen.raced == s.seen.raced
    requires s'.mem.connected ==> s.mem.connected
    requires s.mem.token ==> s'.mem.token
    ensures Watched(s')
  {
    if SomeTrying(s) {
      var u :| 0 <= u < |s.pc| && Trying(s.pc[u]);
      assert Trying(s'.pc[u]);
    }
    if SomeRechecking(s) {
      var u :| 0 <= u < |s.pc| && s.pc[u] == Recheck;
      assert s'.pc[u] == Recheck;
    }
  }

  lemma NowTrying(s: State, t: nat)
    requires t < |s.pc| && Trying(s.pc[t])
    ensures Watched(s)
  {
  }

  lemma PutKeepsWatch(s: State, t: nat)
    requires Control(s) && Watched(s) && t < |s.pc| && (s.pc[t].PutLock? || s.pc[t].PutPush? || s.pc[t].PutCount?)
    ensures Watched(PutStep(s, t))
  {
    if s.pc[t].PutLock? {
      WatchedElsewhere(s, PutStep(s, t), t);
    } else {
      NowTrying(PutStep(s, t), t);
    }
  }

  lemma TryKeepsWatch(s: State, t: nat)
    requires Control(s) && t < |s.pc|
    requires s.pc[t].CheckToken? || s.pc[t].CheckQuota? || s.pc[t].LoopTest? || s.pc[t].LoopCas?
    ensures Watched(TryStep(s, t))
  {
    if TryStep(s, t).mem.connected && Trying(TryStep(s, t).pc[t]) {
      NowTrying(TryStep(s, t), t);
    }
  }

  /** The point of the recheck: a count of zero means that nobody needs it, or that its sender is on the way. */
  lemma RecheckKeepsWatch(s: State, t: nat)
    requires Control(s) && Watched(s) && t < |s.pc| && (s.pc[t].EmptyRelease? || s.pc[t].Recheck?)
    ensures Watched(RecheckStep(s, t))
  {
    var s' := RecheckStep(s, t);
    if s.pc[t].EmptyRelease? {
      KnowingAt(s, t);
      assert s'.pc[t] == Recheck;
    } else if s.mem.count != 0 {
      NowTrying(s', t);
    } else {
      if s.mem.lock.Some? {
        KnowingAt(s, s.mem.lock.value);
        if s.pc[s.mem.lock.value].PutCount? {
          NowTrying(s', s.mem.lock.value);
        }
      }
      if s.mem.connected && SomeTrying(s) {
        var u :| 0 <= u < |s.pc| && Trying(s.pc[u]);
        NowTrying(s', u);
      }
    }
  }

  lemma HolderKeepsWatch(s: State, t: nat, go: bool)
    requires Control(s) && t < |s.pc| && Holding(s.pc[t]) && Knows(s, s.pc[t])
    ensures !s.pc[t].EmptyRelease? ==> Watched(RunStep(s, t, go))
  {
    KnowingAt(s, t);
    hide Exclusive, Knowing, Settled, SomeRechecking;
    if s.pc[t].CancelRelease? || s.pc[t].DoneRelease? {
      NowTrying(RunStep(s, t, go), t);
    }
  }

  lemma EventKeepsWatch(s: State, t: nat, a: Action)
    requires Control(s) && Watched(s) && Enabled(s, t, a) && !a.Run? && Knows(s, s.pc[t])
    ensures Watched(Step(s, t, a))
  {
    if a.Trigger? {
      NowTrying(Step(s, t, a), t);
    } else if a.Send? || a.WriteFailed? {
      WatchedElsewhere(s, Step(s, t, a), t);
    }
  }

  // ---- Triggers that come too early ----

  /**
   While a trigger is known to have come too early, there is quota, the message that was put back is in the queue,
   and nobody does anything about it.
   */
  ghost predicate Overtaken(s: State) {
    s.seen.raced ==>
      && s.mem.quotaToken > 0 && s.held.swapped != [] && s.seen.owner != Socket
      && forall t | 0 <= t < |s.pc| && Holding(s.pc[t]) :: s.pc[t] == PutBackRelease
  }

  lemma OvertakenNow(s: State, t: nat)
    requires Control(s) && Enabled(s, t, Trigger) && Knows(s, s.pc[t]) && PuttingBack(s)
    ensures Overtaken(Step(s, t, Trigger))
  {
    var u :| 0 <= u < |s.pc| && s.pc[u] == PutBackRelease;
    KnowingAt(s, u);
    forall v | 0 <= v < |s.pc| && Holding(s.pc[v]) ensures v == u {
      KnowingAt(s, v);
    }
  }

  /** A thread without the token changes none of this; the one with it releases it. */
  lemma OvertakenMove(s: State, s': State, t: nat)
    requires Overtaken(s) && t < |s.pc| && |s'.pc| == |s.pc| && s'.pc == s.pc[t := s'.pc[t]] && s.seen.raced
    requires !Holding(s'.pc[t]) && s'.seen.owner != Socket
    requires s'.held.swapped == s.held.swapped && s'.mem.quotaToken >= s.mem.quotaToken
    ensures Overtaken(s')
  {
  }

  lemma OvertakenStep(s: State, t: nat, a: Action)
    requires Control(s) && Overtaken(s) && Enabled(s, t, a) && Knows(s, s.pc[t])
    ensures Overtaken(Step(s, t, a))
  {
    hide Control, Settled, Knowing, Exclusive, Flatten;
    if s.seen.raced && !a.Close? && !a.Recharge? {
      if a.Trigger? || a.Send? {
        OvertakenIdle(s, t, a);
      } else {
        assert a.Run?;
        OvertakenRun(s, t, a.go);
      }
    } else if a.Trigger? && PuttingBack(s) {
      OvertakenNow(s, t);
    }
  }

  lemma OvertakenIdle(s: State, t: nat, a: Action)
    requires Overtaken(s) && s.seen.raced && Enabled(s, t, a) && Knows(s, s.pc[t]) && (a.Trigger? || a.Send?)
    ensures Overtaken(Step(s, t, a))
  {
    var s' := Step(s, t, a);
    forall u | 0 <= u < |s'.pc| && Holding(s'.pc[u]) ensures s'.pc[u] == PutBackRelease {
      assert u != t;
    }
  }

  lemma OvertakenRun(s: State, t: nat, go: bool)
    requires Overtaken(s) && s.seen.raced && Enabled(s, t, Run(go)) && Knows(s, s.pc[t])
    ensures Overtaken(RunStep(s, t, go))
  {
    hide Overtaken, Flatten, GetStep, CallbackStep;
    OvertakenAt(s, t);
    var s' := RunStep(s, t, go);
    if s'.seen.raced { OvertakenMove(s, s', t); } else { NotOvertaken(s'); }
  }

  lemma OvertakenAt(s: State, t: nat)
    requires Overtaken(s) && s.seen.raced && t < |s.pc|
    ensures s.seen.owner != Socket && s.mem.quotaToken > 0 && (Holding(s.pc[t]) ==> s.pc[t] == PutBackRelease)
  {
  }

  lemma NotOvertaken(s: State)
    requires !s.seen.raced
    ensures Overtaken(s)
  {
  }

  // ---- Runs ----

  ghost predicate Invariant(s: State) {
    Control(s) && Ordered(s) && Delivering(s) && Watched(s) && Overtaken(s)
  }

  predicate Initial(s: State) {
    && s.mem == Shared(true, false, 1, s.mem.quota, None, [], 0)
    && s.held == Held([], None, [], [])
    && s.seen == Seen([], [], [], None, Nobody, false)
    && forall t | 0 <= t < |s.pc| :: s.pc[t] == Idle
  }

  lemma InitialInvariant(s: State)
    requires Initial(s)
    ensures Invariant(s)
  {
    forall t | 0 <= t < |s.pc| ensures Knows(s, s.pc[t]) && !Holding(s.pc[t]) && !Locking(s.pc[t]) {
      assert s.pc[t] == Idle;
    }
  }

  lemma RunKeepsOrder(s: State, t: nat, go: bool)
    requires Control(s) && Ordered(s) && Delivering(s) && Enabled(s, t, Run(go)) && Knows(s, s.pc[t])
    ensures Ordered(RunStep(s, t, go)) && Delivering(RunStep(s, t, go))
  {
    hide Control, Ordered, Delivering, Knows, PutStep, TryStep, GetStep, StartStep, RecheckStep, CallbackStep;
    match s.pc[t]
    case PutLock(_) | PutPush(_) | PutCount => PutKeepsOrder(s, t); PutKeepsDelivery(s, t);
    case CheckToken | CheckQuota | LoopTest | LoopCas => TryKeepsOrder(s, t); TryKeepsDelivery(s, t);
    case GetTest | SwapLock | SwapQueues | SwapClear | Fetch => GetKeepsOrder(s, t); GetKeepsDelivery(s, t);
    case Ask | CancelRelease | QuotaAcquire | QuotaStore(_) | PutBackRelease =>
      StartKeepsDelivery(s, t, go); StartKeepsOrder(s, t, go);
    case EmptyRelease | Recheck => TryKeepsOrder(s, t); RecheckKeepsDelivery(s, t);
    case OnWrite => OnWriteKeepsDelivery(s, t); CallbackKeepsOrder(s, t);
    case OnError | Closing | DoneRelease => CallbackKeepsDelivery(s, t); CallbackKeepsOrder(s, t);
  }

  lemma TryKeepsOrder(s: State, t: nat)
    requires t < |s.pc| && Ordered(s)
    ensures Ordered(TryStep(s, t)) && Ordered(RecheckStep(s, t))
  {
    hide Messages;
  }

  lemma RunKeepsWatch(s: State, t: nat, go: bool)
    requires Control(s) && Watched(s) && Enabled(s, t, Run(go)) && Knows(s, s.pc[t])
    ensures Watched(RunStep(s, t, go))
  {
    hide Control, Watched, Knows, PutStep, TryStep, GetStep, StartStep, RecheckStep, CallbackStep;
    match s.pc[t]
    case PutLock(_) | PutPush(_) | PutCount => PutKeepsWatch(s, t);
    case CheckToken | CheckQuota | LoopTest | LoopCas => TryKeepsWatch(s, t);
    case EmptyRelease | Recheck => RecheckKeepsWatch(s, t);
    case _ => HolderKeepsWatch(s, t, go);
  }

  /** Every step of every thread and every event keeps the invariant. */
  lemma InvariantStep(s: State, t: nat, a: Action)
    requires Invariant(s) && Enabled(s, t, a)
    ensures Knows(s, s.pc[t]) && Invariant(Step(s, t, a))
  {
    hide Control, Ordered, Delivering, Watched, Overtaken, Knows, RunStep;
    ControlStep(s, t, a);
    OvertakenStep(s, t, a);
    match a
    case Run(go) => RunKeepsOrder(s, t, go); RunKeepsWatch(s, t, go);
    case Written(n) => WrittenKeepsDelivery(s, t, n); EventKeepsWatch(s, t, a);
    case _ => EventKeepsDelivery(s, t, a); EventKeepsWatch(s, t, a);
  }

  /**
   One move of the machine, by thread t. Step is defined where the thread's knowledge holds; by InvariantOnRuns
   that is everywhere on a run.
   */
  ghost predicate Move(s: State, t: nat, a: Action, s': State) {
    Enabled(s, t, a) && (Knows(s, s.pc[t]) ==> s' == Step(s, t, a))
  }

  /** A run: states joined by moves, from an initial one. */
  ghost predicate IsRun(states: seq<State>, moves: seq<(nat, Action)>) {
    && |states| == |moves| + 1 && Initial(states[0])
    && forall i | 0 <= i < |moves| :: Move(states[i], moves[i].0, moves[i].1, states[i + 1])
  }

  lemma {:induction false} InvariantOnRuns(states: seq<State>, moves: seq<(nat, Action)>, i: nat)
    requires IsRun(states, moves) && i < |states|
    ensures Invariant(states[i]) && states[i].limited == states[0].limited
  {
    hide Invariant, Step, Enabled, Knows;
    if i == 0 {
      InitialInvariant(states[0]);
    } else {
      InvariantOnRuns(states, moves, i - 1);
      assert Move(states[i - 1], moves[i - 1].0, moves[i - 1].1, states[i]);
      InvariantStep(states[i - 1], moves[i - 1].0, moves[i - 1].1);
      LimitedStays(states[i - 1], moves[i - 1].0, moves[i - 1].1);
    }
  }

  lemma LimitedStays(s: State, t: nat, a: Action)
    requires Enabled(s, t, a) && Knows(s, s.pc[t])
    ensures Step(s, t, a).limited == s.limited
  {
  }

  /**
   No send is lost. In every run without a write limit, at every point while the stream is connected: if a
   message is waiting, the token is taken, or some thread is about to try for it or to recheck the queue.
   */
  lemma NoLostSend(states: seq<State>, moves: seq<(nat, Action)>, i: nat)
    requires IsRun(states, moves) && i < |states| && !states[0].limited
    requires states[i].mem.connected && Waiting(states[i])
    ensures states[i].mem.token || exists t | 0 <= t < |states[i].pc| :: Trying(states[i].pc[t]) || states[i].pc[t] == Recheck
  {
    InvariantOnRuns(states, moves, i);
  }

  /** Nothing is going on: no thread is busy and no write is under way. */
  predicate Quiet(s: State) {
    s.seen.owner == Nobody && forall t | 0 <= t < |s.pc| :: s.pc[t] == Idle
  }

  /**
   When a connected stream comes to rest without a message waiting, everything enqueued was sent or cancelled, and
   the socket took exactly the messages that were not cancelled, in order. A message waits although there is quota
   exactly if a trigger came too early; without a write limit none does.
   */
  lemma QuietMeansSent(states: seq<State>, moves: seq<(nat, Action)>, i: nat)
    requires IsRun(states, moves) && i < |states| && states[i].mem.connected && Quiet(states[i])
    ensures Waiting(states[i]) && states[i].mem.quotaToken > 0 <==> states[i].seen.raced
    ensures !states[0].limited ==> !Waiting(states[i])
    ensures !Waiting(states[i]) ==>
      && states[i].seen.enqueued == Messages(states[i].seen.done)
      && states[i].seen.wire == SentBytes(states[i].seen.done)
  {
    var s := states[i];
    InvariantOnRuns(states, moves, i);
    hide SentBytes, Messages;
  }

  /** The move that takes the token. */
  predicate Takes(s: State, t: nat, a: Action) {
    t < |s.pc| && a.Run? && s.pc[t] == LoopCas && !s.mem.token
  }

  /** Move j is a trigger while a message has been put back and the token not yet released; it is not taken since. */
  ghost predicate Early(states: seq<State>, moves: seq<(nat, Action)>, j: nat, i: nat)
    requires |states| == |moves| + 1 && i <= |moves|
  {
    && j < i && moves[j].1 == Trigger && PuttingBack(states[j])
    && forall k | j < k < i :: !Takes(states[k], moves[k].0, moves[k].1)
  }

  ghost predicate SomeEarly(states: seq<State>, moves: seq<(nat, Action)>, i: nat)
    requires |states| == |moves| + 1 && i <= |moves|
  {
    exists j: nat :: Early(states, moves, j, i)
  }

  lemma EarlyFurther(states: seq<State>, moves: seq<(nat, Action)>, i: nat)
    requires |states| == |moves| + 1 && i < |moves|
    ensures SomeEarly(states, moves, i + 1) ==
      if Takes(states[i], moves[i].0, moves[i].1) && !(moves[i].1 == Trigger && PuttingBack(states[i])) then false
      else SomeEarly(states, moves, i) || (moves[i].1 == Trigger && PuttingBack(states[i]))
  {
    hide PuttingBack;
    if SomeEarly(states, moves, i) && !Takes(states[i], moves[i].0, moves[i].1) {
      var j: nat :| Early(states, moves, j, i);
      assert Early(states, moves, j, i + 1);
    }
    if SomeEarly(states, moves, i + 1) {
      var j: nat :| Early(states, moves, j, i + 1);
      if j < i { assert Early(states, moves, j, i); }
    }
    if moves[i].1 == Trigger && PuttingBack(states[i]) { assert Early(states, moves, i, i + 1); }
  }

  lemma RacedStep(s: State, t: nat, a: Action)
    requires Enabled(s, t, a) && Knows(s, s.pc[t])
    ensures Step(s, t, a).seen.raced ==
      if Takes(s, t, a) then false else s.seen.raced || (a == Trigger && PuttingBack(s))
  {
    hide RunStep, PuttingBack;
    if a.Run? { RacedRun(s, t, a.go); }
  }

  lemma RacedRun(s: State, t: nat, go: bool)
    requires Enabled(s, t, Run(go)) && Knows(s, s.pc[t])
    ensures RunStep(s, t, go).seen.raced == if Takes(s, t, Run(go)) then false else s.seen.raced
  {
    hide PutStep, TryStep, GetStep, StartStep, RecheckStep, CallbackStep, Knows;
    RacedElsewhere(s, t, go);
    RacedTry(s, t);
  }

  lemma RacedTry(s: State, t: nat)
    requires t < |s.pc|
    ensures TryStep(s, t).seen.raced == if s.pc[t] == LoopCas && !s.mem.token then false else s.seen.raced
  {
  }

  lemma RacedElsewhere(s: State, t: nat, go: bool)
    requires t < |s.pc| && Knows(s, s.pc[t])
    ensures PutStep(s, t).seen.raced == GetStep(s, t).seen.raced == RecheckStep(s, t).seen.raced == s.seen.raced
    ensures StartStep(s, t, go).seen.raced == CallbackStep(s, t).seen.raced == s.seen.raced
  {
    hide Flatten;
  }

  lemma {:induction false} RacedIsEarly(states: seq<State>, moves: seq<(nat, Action)>, i: nat)
    requires IsRun(states, moves) && i < |states|
    ensures states[i].seen.raced <==> SomeEarly(states, moves, i)
  {
    hide Step, Knows, PuttingBack, SomeEarly, Invariant, Enabled;
    if i > 0 {
      var (t, a) := moves[i - 1];
      assert Move(states[i - 1], t, a, states[i]);
      InvariantOnRuns(states, moves, i - 1);
      InvariantStep(states[i - 1], t, a);
      RacedStep(states[i - 1], t, a);
      RacedIsEarly(states, moves, i - 1);
      EarlyFurther(states, moves, i - 1);
    } else {
      NotYetEarly(states, moves);
    }
  }

  lemma NotYetEarly(states: seq<State>, moves: seq<(nat, Action)>)
    requires IsRun(states, moves)
    ensures !states[0].seen.raced && !SomeEarly(states, moves, 0)
  {
  }

  /**
   Exactly when the trigger is lost: a connected stream rests with quota and a message waiting if and only if, after
   the token was taken for the last time, a trigger came while the message had been put back for lack of quota and
   the token was not yet released.
   */
  lemma LostExactlyWhen(states: seq<State>, moves: seq<(nat, Action)>, i: nat)
    requires IsRun(states, moves) && i < |states| && states[i].mem.connected && Quiet(states[i])
    ensures Waiting(states[i]) && states[i].mem.quotaToken > 0 <==> SomeEarly(states, moves, i)
  {
    QuietMeansSent(states, moves, i);
    RacedIsEarly(states, moves, i);
  }

  function FlattenAll(ms: seq<Message>): seq<byte> {
    if |ms| == 0 then [] else FlattenAll(ms[..|ms| - 1]) + Flatten(ms[|ms| - 1].blocks)
  }

  lemma FlattenAllSnoc(ms: seq<Message>, m: Message)
    ensures FlattenAll(ms + [m]) == FlattenAll(ms) + Flatten(m.blocks)
  {
    assert (ms + [m])[..|ms|] == ms;
  }

  lemma {:induction false} FlattenAllConcat(a: seq<Message>, b: seq<Message>)
    ensures FlattenAll(a + b) == FlattenAll(a) + FlattenAll(b)
    decreases |b|
  {
    hide Flatten;
    if |b| == 0 {
      assert a + b == a;
    } else {
      var front, last := b[..|b| - 1], b[|b| - 1];
      assert a + b == (a + front) + [last];
      FlattenAllSnoc(a + front, last);
      FlattenAllConcat(a, front);
      FlattenAllSnoc(front, last);
      assert b == front + [last];
      hide FlattenAll;
      assert (FlattenAll(a) + FlattenAll(front)) + Flatten(last.blocks)
          == FlattenAll(a) + (FlattenAll(front) + Flatten(last.blocks));
    }
  }

  lemma {:induction false} SentIsUncancelled(done: seq<Entry>)
    ensures SentBytes(done) == FlattenAll(Uncancelled(done))
  {
    if |done| > 0 {
      var front := done[..|done| - 1];
      SentIsUncancelled(front);
      FlattenAllSnoc(Uncancelled(front), done[|done| - 1].m);
      hide FlattenAll, Flatten;
      assert SentBytes(front) + [] == SentBytes(front) && Uncancelled(front) + [] == Uncancelled(front);
    }
  }

  lemma PrefixOfAll(wire: seq<byte>, sent: seq<Message>, current: seq<Message>, queued: seq<Message>)
    requires wire <= FlattenAll(sent) + FlattenAll(current)
    ensures wire <= FlattenAll(sent + (current + queued))
  {
    FlattenAllConcat(current, queued);
    FlattenAllConcat(sent, current + queued);
    hide FlattenAll;
    assert FlattenAll(sent) + FlattenAll(current + queued)
        == (FlattenAll(sent) + FlattenAll(current)) + FlattenAll(queued);
  }

  /** The wire is a prefix of what is sent already and the message under way. */
  lemma WireUpToCurrent(s: State)
    requires Delivering(s) && (s.seen.broken.Some? ==> s.held.sending == None)
    ensures s.seen.wire <= SentBytes(s.seen.done) + FlattenAll(AsList(s.seen.broken) + AsList(s.held.sending))
  {
    hide SentBytes, Flatten;
    var current := AsList(s.seen.broken) + AsList(s.held.sending);
    if |current| == 1 {
      assert current[..0] == [];
      assert FlattenAll(current) == Flatten(current[0].blocks);
    }
  }

  /**
   In every run, limited or not, whatever the threads do and however the writes are cut up: the bytes the socket
   took are a prefix of the messages that were not cancelled, whole and in the order they were enqueued; and
   that list is what was enqueued, less the cancelled ones.
   */
  lemma WireInOrder(states: seq<State>, moves: seq<(nat, Action)>, i: nat)
    requires IsRun(states, moves) && i < |states|
    ensures var s := states[i];
            && s.seen.wire <= FlattenAll(Uncancelled(s.seen.done) + Remaining(s))
            && s.seen.enqueued == Messages(s.seen.done) + Remaining(s)
  {
    hide Invariant, Remaining, FlattenAll, Messages, Uncancelled;
    InvariantOnRuns(states, moves, i);
    WireOfState(states[i]);
  }

  lemma WireOfState(s: State)
    requires Invariant(s)
    ensures s.seen.wire <= FlattenAll(Uncancelled(s.seen.done) + Remaining(s))
    ensures s.seen.enqueued == Messages(s.seen.done) + Remaining(s)
  {
    hide Control, Messages, Watched, FlattenAll, Uncancelled, SentBytes, Flatten;
    WireUpToCurrent(s);
    SentIsUncancelled(s.seen.done);
    var current := AsList(s.seen.broken) + AsList(s.held.sending);
    var queued := s.held.swapped + s.mem.pending;
    assert Remaining(s) == current + queued;
    PrefixOfAll(s.seen.wire, Uncancelled(s.seen.done), current, queued);
  }

  // ---- With a limit, a trigger can come too early ----

  /** The moves, one after the other, lead from s to s'. */
  ghost predicate Leads(s: State, moves: seq<(nat, Action)>, s': State)
    decreases |moves|
  {
    if |moves| == 0 then s == s'
    else
      var (t, a) := moves[0];
      Enabled(s, t, a) && Knows(s, s.pc[t]) && Leads(Step(s, t, a), moves[1..], s')
  }

  lemma {:induction false} LeadsOn(s: State, moves: seq<(nat, Action)>, s': State, t: nat, a: Action)
    requires Leads(s, moves, s') && Enabled(s', t, a) && Knows(s', s'.pc[t])
    ensures Leads(s, moves + [(t, a)], Step(s', t, a))
    decreases |moves|
  {
    if |moves| > 0 {
      var (u, b) := moves[0];
      assert (moves + [(t, a)])[1..] == moves[1..] + [(t, a)];
      LeadsOn(Step(s, u, b), moves[1..], s', t, a);
    }
  }

  /** Let thread t run n steps, on_sending agreeing; if it gets there, the moves lead there. */
  ghost function RunFor(s: State, t: nat, n: nat): State
    requires t < |s.pc|
    ensures |RunFor(s, t, n).pc| == |s.pc|
  {
    if n == 0 then s
    else
      var s' := RunFor(s, t, n - 1);
      if Enabled(s', t, Run(true)) && Knows(s', s'.pc[t]) then Step(s', t, Run(true)) else s'
  }

  lemma {:induction false} RunForIsReached(s0: State, moves: seq<(nat, Action)>, s: State, t: nat, n: nat)
      returns (more: seq<(nat, Action)>)
    requires Leads(s0, moves, s) && t < |s.pc|
    ensures Leads(s0, more, RunFor(s, t, n))
  {
    hide Step, Leads, Enabled, Knows;
    more := moves;
    if n > 0 {
      more := RunForIsReached(s0, moves, s, t, n - 1);
      var s' := RunFor(s, t, n - 1);
      if Enabled(s', t, Run(true)) && Knows(s', s'.pc[t]) {
        LeadsOn(s0, more, s', t, Run(true));
        more := more + [(t, Run(true))];
      }
    }
  }

  /** A trigger while a thread is about to release the token after a failed acquisition wakes nobody. */
  lemma EarlyTriggerIsLost(s: State, t: nat, u: nat)
    requires Control(s) && s.mem.connected && Waiting(s) && t < |s.pc| && u < |s.pc| && t != u
    requires s.pc[t] == PutBackRelease && forall v | 0 <= v < |s.pc| && v != t :: s.pc[v] == Idle
    ensures var s1 := Step(s, u, Trigger);
            var s2 := RunFor(s1, u, 1);
            var s3 := RunFor(s2, t, 1);
            s3.mem.connected && Quiet(s3) && Waiting(s3) && !s3.mem.token && s3.mem.quotaToken > 0
  {
    KnowingAt(s, t);
    ExclusiveAt(s, t);
    hide Exclusive, Knowing;
    var s1 := Step(s, u, Trigger);
    assert RunFor(s1, u, 0) == s1;
    var s2 := RunFor(s1, u, 1);
    assert s2 == Goto(s1, u, Idle);
    assert RunFor(s2, t, 0) == s2;
    assert RunFor(s2, t, 1) == Goto(Release(s2), t, Idle);
  }

  lemma RunNone(s: State, t: nat)
    requires t < |s.pc|
    ensures RunFor(s, t, 0) == s
  {
  }

  lemma TryOnce(s: State, t: nat, n: nat, s1: State, s2: State)
    requires t < |s.pc| && RunFor(s, t, n) == s1 && TryStep(s1, t) == s2
    requires s1.pc[t].CheckToken? || s1.pc[t].CheckQuota? || s1.pc[t].LoopTest? || s1.pc[t].LoopCas?
    ensures RunFor(s, t, n + 1) == s2
  {
    hide TryStep;
  }

  lemma GetOnce(s: State, t: nat, n: nat, s1: State, s2: State)
    requires t < |s.pc| && RunFor(s, t, n) == s1 && GetStep(s1, t) == s2
    requires s1.held.sending == None && (s1.pc[t].SwapLock? ==> s1.mem.lock == None && s1.held.swapped == [])
    requires s1.pc[t].SwapQueues? ==> s1.held.swapped == [] && s1.mem.count == |s1.mem.pending|
    requires s1.pc[t].SwapClear? ==> s1.mem.pending == [] && s1.mem.count >= 0
    requires s1.pc[t].GetTest? || s1.pc[t].SwapLock? || s1.pc[t].SwapQueues? || s1.pc[t].SwapClear? || s1.pc[t].Fetch?
    ensures RunFor(s, t, n + 1) == s2
  {
    hide GetStep;
  }

  lemma RunOnce(s: State, t: nat, n: nat, s1: State, s2: State)
    requires t < |s.pc| && RunFor(s, t, n) == s1
    requires Enabled(s1, t, Run(true)) && Knows(s1, s1.pc[t]) && RunStep(s1, t, true) == s2
    ensures RunFor(s, t, n + 1) == s2
  {
  }

  /** From rest: thread 0 puts its message into the queue, ... */
  lemma PutAlone(s: State, m: Message)
    requires |s.pc| > 0 && s.pc[0] == Idle && s.mem.connected && s.mem.lock == None && s.mem.pending == [] && s.mem.count == 0
    requires WellFormed(m)
    ensures var r := RunFor(Step(s, 0, Send(m)), 0, 3);
            && r.pc == s.pc[0 := CheckToken] && r.limited == s.limited && r.held == s.held
            && r.mem == s.mem.(pending := [m], count := 1)
  {
    var s0 := Step(s, 0, Send(m));
    hide RunFor, TryStep, GetStep, StartStep, RecheckStep, CallbackStep, WellFormed;
    RunNone(s0, 0);
    var s1 := PutStep(s0, 0);
    RunOnce(s0, 0, 0, s0, s1);
    var s2 := PutStep(s1, 0);
    RunOnce(s0, 0, 1, s1, s2);
    RunOnce(s0, 0, 2, s2, PutStep(s2, 0));
  }

  /** ... takes the token, ... */
  lemma TryAlone(s: State)
    requires |s.pc| > 0 && s.pc[0] == CheckToken && s.mem.connected && !s.mem.token && s.mem.quotaToken > 0
    ensures var r := RunFor(s, 0, 4);
            && r.pc == s.pc[0 := GetTest] && r.limited == s.limited && r.held == s.held && r.mem == s.mem.(token := true)
  {
    hide RunFor, RunStep, Enabled, Knows;
    RunNone(s, 0);
    var s1 := Goto(s, 0, CheckQuota);
    TryOnce(s, 0, 0, s, s1);
    var s2 := Goto(s1, 0, LoopTest);
    TryOnce(s, 0, 1, s1, s2);
    var s3 := Goto(s2, 0, LoopCas);
    TryOnce(s, 0, 2, s2, s3);
    TryOnce(s, 0, 3, s3, Goto(Take(s3, 0), 0, GetTest));
  }

  /** ... locks the queue, ... */
  lemma LockAlone(s: State)
    requires |s.pc| > 0 && s.pc[0] == GetTest && s.held.swapped == [] && s.held.sending == None
    requires s.mem.lock == None && s.mem.count > 0
    ensures var r := RunFor(s, 0, 2);
            && r.pc == s.pc[0 := SwapQueues] && r.limited == s.limited && r.held == s.held
            && r.mem == s.mem.(lock := Some(0))
  {
    hide RunFor, RunStep, Enabled, Knows;
    RunNone(s, 0);
    var s1 := Goto(s, 0, SwapLock);
    GetOnce(s, 0, 0, s, s1);
    GetOnce(s, 0, 1, s1, Goto(s1.(mem := s.mem.(lock := Some(0))), 0, SwapQueues));
  }

  /** ... takes it over, ... */
  lemma SwapAlone(s: State, m: Message)
    requires |s.pc| > 0 && s.pc[0] == SwapQueues && s.held.swapped == [] && s.held.sending == None
    requires s.mem.pending == [m] && s.mem.count == 1
    ensures var r := RunFor(s, 0, 1);
            && r.pc == s.pc[0 := SwapClear] && r.limited == s.limited && r.held == s.held.(swapped := [m])
            && r.mem == s.mem.(pending := [])
  {
    hide RunFor, RunStep, Enabled, Knows;
    RunNone(s, 0);
    assert |s.mem.pending| == 1;
    var s1 := Goto(s.(mem := s.mem.(pending := s.held.swapped), held := s.held.(swapped := s.mem.pending)), 0, SwapClear);
    GetOnce(s, 0, 0, s, s1);
  }

  /** ... takes the message out again, ... */
  lemma ClearThenFetch(s: State, m: Message)
    requires |s.pc| > 0 && s.held.swapped == [m]
    ensures s.pc[0] == SwapClear ==> GetStep(s, 0) == Goto(s.(mem := s.mem.(count := 0, lock := None)), 0, Fetch)
    ensures s.pc[0] == Fetch ==>
      GetStep(s, 0) == Goto(s.(held := s.held.(sending := Some(m), swapped := [])), 0, Ask)
  {
    assert [m][0] == m && [m][1..] == [];
  }

  lemma FetchAlone(s: State, m: Message)
    requires |s.pc| > 0 && s.pc[0] == SwapClear && s.held.swapped == [m] && s.held.sending == None
    requires s.mem.pending == [] && s.mem.count >= 0
    ensures var r := RunFor(s, 0, 2);
            && r.pc == s.pc[0 := Ask] && r.limited == s.limited && r.held == s.held.(swapped := [], sending := Some(m))
            && r.mem == s.mem.(count := 0, lock := None)
  {
    hide RunFor, RunStep, GetStep, Enabled, Knows;
    RunNone(s, 0);
    ClearThenFetch(s, m);
    var s1 := Goto(s.(mem := s.mem.(count := 0, lock := None)), 0, Fetch);
    GetOnce(s, 0, 0, s, s1);
    ClearThenFetch(s1, m);
    var s2 := Goto(s1.(held := s.held.(sending := Some(m), swapped := [])), 0, Ask);
    GetOnce(s, 0, 1, s1, s2);
  }

  /** ... asks for quota, ... */
  lemma AskAlone(s: State, m: Message)
    requires |s.pc| > 0 && s.pc[0] == Ask && s.limited && |m.blocks| > 0 && s.mem.quota <= 0
    requires s.held.sending == Some(m)
    ensures var r := RunFor(s, 0, 2);
            && r.pc == s.pc[0 := QuotaStore(s.mem.quota)] && r.held == s.held && r.limited
            && r.mem == s.mem.(quota := s.mem.quota - 1)
  {
    hide RunFor, Flatten, PutStep, TryStep, GetStep, RecheckStep, CallbackStep;
    RunNone(s, 0);
    var s1 := Goto(s, 0, QuotaAcquire);
    RunOnce(s, 0, 0, s, s1);
    RunOnce(s, 0, 1, s1, StartStep(s1, 0, true));
  }

  /** ... and, the quota being used up, puts it back. */
  lemma PutBackAlone(s: State, m: Message)
    requires |s.pc| > 0 && s.limited && |m.blocks| > 0 && s.held.sending == Some(m)
    requires s.pc[0].QuotaStore? && s.pc[0].granted <= 0
    ensures var r := RunFor(s, 0, 1);
            r.pc == s.pc[0 := PutBackRelease] && r.held.swapped == [m] + s.held.swapped && r.mem.connected == s.mem.connected
  {
    hide RunFor, Flatten, PutStep, TryStep, GetStep, RecheckStep, CallbackStep;
    RunNone(s, 0);
    RunOnce(s, 0, 0, s, StartStep(s, 0, true));
  }

  lemma {:induction false} LeadsKeepsInvariant(s: State, moves: seq<(nat, Action)>, s': State)
    requires Invariant(s) && Leads(s, moves, s')
    ensures Invariant(s')
    decreases |moves|
  {
    hide Invariant, Step, Enabled, Knows;
    if |moves| > 0 {
      var (t, a) := moves[0];
      InvariantStep(s, t, a);
      LeadsKeepsInvariant(Step(s, t, a), moves[1..], s');
    }
  }

  /** Thread 0 alone, without quota, from rest to the point before the release. */
  lemma SendWithoutQuota(s: State, m: Message) returns (moves: seq<(nat, Action)>, r: State)
    requires Initial(s) && s.limited && |s.pc| > 0 && s.mem.quota <= 0 && WellFormed(m)
    ensures Leads(s, moves, r) && r.mem.connected && Waiting(r) && r.pc == s.pc[0 := PutBackRelease]
  {
    hide RunFor, WellFormed, Step, Leads;
    var s1 := Step(s, 0, Send(m));
    moves := FirstMove(s, m);
    PutAlone(s, m);
    moves := RunForIsReached(s, moves, s1, 0, 3);
    var s2 := RunFor(s1, 0, 3);
    TryAlone(s2);
    moves := RunForIsReached(s, moves, s2, 0, 4);
    var s3;
    moves, s3 := GetMoves(s, moves, RunFor(s2, 0, 4), m);
    moves, r := LastMoves(s, moves, s3, m);
    assert r.pc == s.pc[0 := PutBackRelease];
  }

  /** From holding the token to having taken the one message there is. */
  lemma GetMoves(s0: State, moves0: seq<(nat, Action)>, s: State, m: Message)
      returns (moves: seq<(nat, Action)>, r: State)
    requires Leads(s0, moves0, s) && |s.pc| > 0 && s.pc[0] == GetTest && s.held.swapped == [] && s.held.sending == None
    requires s.mem.lock == None && s.mem.count == 1 && s.mem.pending == [m]
    ensures Leads(s0, moves, r) && r.pc == s.pc[0 := Ask] && r.limited == s.limited
    ensures r.held == s.held.(sending := Some(m))
    ensures r.mem == s.mem.(pending := [], count := 0)
  {
    hide RunFor, Step, Leads;
    LockAlone(s);
    moves := RunForIsReached(s0, moves0, s, 0, 2);
    var s1 := RunFor(s, 0, 2);
    SwapAlone(s1, m);
    moves := RunForIsReached(s0, moves, s1, 0, 1);
    var s2 := RunFor(s1, 0, 1);
    FetchAlone(s2, m);
    moves := RunForIsReached(s0, moves, s2, 0, 2);
    r := RunFor(s2, 0, 2);
  }

  lemma FirstMove(s: State, m: Message) returns (moves: seq<(nat, Action)>)
    requires Initial(s) && |s.pc| > 0 && WellFormed(m)
    ensures Enabled(s, 0, Send(m)) && Knows(s, s.pc[0]) && Leads(s, moves, Step(s, 0, Send(m)))
  {
    assert Leads(s, [], s);
    LeadsOn(s, [], s, 0, Send(m));
    moves := [] + [(0, Send(m))];
  }

  lemma LastMoves(s0: State, moves0: seq<(nat, Action)>, s: State, m: Message)
      returns (moves: seq<(nat, Action)>, r: State)
    requires Leads(s0, moves0, s) && |s.pc| > 0 && s.pc[0] == Ask && s.limited && WellFormed(m) && s.mem.quota <= 0
    requires s.held.sending == Some(m) && s.mem.connected
    ensures Leads(s0, moves, r) && r.mem.connected && Waiting(r) && r.pc == s.pc[0 := PutBackRelease]
  {
    hide RunFor, Leads;
    AskAlone(s, m);
    moves := RunForIsReached(s0, moves0, s, 0, 2);
    var s1 := RunFor(s, 0, 2);
    PutBackAlone(s1, m);
    moves := RunForIsReached(s0, moves, s1, 0, 1);
    r := RunFor(s1, 0, 1);
  }

  /**
   With a write limit the property fails: from rest, with no quota left, a send and a trigger can interleave so
   that the stream comes to rest with the message still waiting, although the trigger said that it may go.
   */
  lemma TriggerCanBeLost(s: State, m: Message) returns (moves: seq<(nat, Action)>, r: State)
    requires Initial(s) && s.limited && |s.pc| > 1 && s.mem.quota <= 0 && WellFormed(m)
    ensures Leads(s, moves, r)
    ensures r.mem.connected && Quiet(r) && Waiting(r) && !r.mem.token && r.mem.quotaToken > 0
  {
    hide RunFor, Leads, Invariant;
    var r0;
    moves, r0 := SendWithoutQuota(s, m);
    InitialInvariant(s);
    LeadsKeepsInvariant(s, moves, r0);
    moves, r := AfterTrigger(s, moves, r0);
  }

  lemma AfterTrigger(s: State, moves0: seq<(nat, Action)>, r0: State) returns (moves: seq<(nat, Action)>, r: State)
    requires Leads(s, moves0, r0) && Invariant(r0) && r0.mem.connected && Waiting(r0) && |r0.pc| > 1
    requires r0.pc[0] == PutBackRelease && forall v | 0 < v < |r0.pc| :: r0.pc[v] == Idle
    ensures Leads(s, moves, r)
    ensures r.mem.connected && Quiet(r) && Waiting(r) && !r.mem.token && r.mem.quotaToken > 0
  {
    EarlyTriggerIsLost(r0, 0, 1);
    hide RunFor, Leads, Exclusive, Knowing, Step;
    LeadsOn(s, moves0, r0, 1, Trigger);
    var r1 := Step(r0, 1, Trigger);
    var r2 := RunFor(r1, 1, 1);
    moves := RunForIsReached(s, moves0 + [(1, Trigger)], r1, 1, 1);
    moves := RunForIsReached(s, moves, r2, 0, 1);
    r := RunFor(r2, 0, 1);
  }
}
