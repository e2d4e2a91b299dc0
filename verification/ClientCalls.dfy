/**
 Completion of calls in rpc_client_stream.h and rpc_controller_impl.h: callers, arriving replies, failing sends,
 the timeout manager and the closing of the stream race to finish a call. The machine runs any number of threads,
 one access to shared memory at a time; a region under _controller_map_lock is one access. How a queued message
 finds its way to the socket is the subject of SendProtocol: here any thread may take the next one.
 */
module ClientCalls {
  import opened Common

  const RPC_SUCCESS := 0
  const RPC_ERROR_PARSE_RESPONSE_MESSAGE := 2
  const RPC_ERROR_CHANNEL_BROKEN := 9
  const RPC_ERROR_CONNECTION_CLOSED := 10
  const RPC_ERROR_REQUEST_TIMEOUT := 11
  const RPC_ERROR_REQUEST_CANCELED := 12

  /** What a reply's meta says. */
  datatype Reply = NoFailedField | NoErrorCode | NoReason | FailedReply(code: int) | Succeeded

  /** Why Done was called. */
  datatype Why = Closed | Broken | Canceled | Timeout | Replied(reply: Reply)

  function ErrorCode(why: Why): int {
    match why
    case Closed => RPC_ERROR_CONNECTION_CLOSED
    case Broken => RPC_ERROR_CHANNEL_BROKEN
    case Canceled => RPC_ERROR_REQUEST_CANCELED
    case Timeout => RPC_ERROR_REQUEST_TIMEOUT
    case Replied(FailedReply(code)) => code
    case Replied(Succeeded) => RPC_SUCCESS
    case Replied(_) => RPC_ERROR_PARSE_RESPONSE_MESSAGE
  }

  // ---- One controller ----

  /** Completion as one thread sees it: what Done does when nobody is in between. */
  class Controller {
    var isDone: bool
    var isRequestSent: bool
    var errorCode: int
    var reason: string
    var doneCallbacks: seq<nat>  // callbacks by name
    ghost var ran: seq<nat>      // those that have run

    constructor ()
      ensures !isDone && !isRequestSent && errorCode == RPC_SUCCESS && reason == "" && doneCallbacks == [] && ran == []
    {
      isDone, isRequestSent, errorCode, reason, doneCallbacks, ran := false, false, RPC_SUCCESS, "", [], [];
    }

    method PushDoneCallback(callback: nat)
      modifies `doneCallbacks
      ensures doneCallbacks == old(doneCallbacks) + [callback]
    {
      doneCallbacks := doneCallbacks + [callback];
    }

    method SetFailed(code: int, why: string)
      modifies `errorCode, `reason
      ensures errorCode == code
      ensures reason == why + (if code != RPC_ERROR_REQUEST_TIMEOUT then ""
                               else if isRequestSent then ": request already sent to remote"
                               else ": request not sent to remote")
    {
      errorCode, reason := code, why;
      if errorCode == RPC_ERROR_REQUEST_TIMEOUT {
        reason := reason + (if isRequestSent then ": request already sent to remote" else ": request not sent to remote");
      }
      assert why + "" == why;
    }

    /** The first call sets the result and runs every callback once, the last one pushed first; later calls do nothing. */
    method Done(code: int, why: string)
      modifies this
      ensures isDone && isRequestSent == old(isRequestSent)
      ensures old(isDone) ==> unchanged(this)
      ensures !old(isDone) ==>
        errorCode == code && why <= reason && doneCallbacks == [] && ran == old(ran) + Reversed(old(doneCallbacks))
    {
      if !isDone {
        isDone := true;
        SetFailed(code, why);
        while doneCallbacks != []
          invariant isDone && isRequestSent == old(isRequestSent) && errorCode == code && why <= reason
          invariant doneCallbacks <= old(doneCallbacks)
          invariant ran + Reversed(doneCallbacks) == old(ran) + Reversed(old(doneCallbacks))
          decreases |doneCallbacks|
        {
          var callback := doneCallbacks[|doneCallbacks| - 1];
          ghost var rest := doneCallbacks[..|doneCallbacks| - 1];
          assert ran + ([callback] + Reversed(rest)) == (ran + [callback]) + Reversed(rest);
          ran := ran + [callback];
          doneCallbacks := doneCallbacks[..|doneCallbacks| - 1];
        }
        assert ran + [] == ran;
      }
    }
  }

  // ---- All calls of a stream ----

  /** What a thread does after Done. */
  datatype Next = Return | ThenClose | ThenErase(call: nat) | Others(calls: set<nat>)

  /** Where a thread is; calls are named by their sequence ids. */
  datatype Pc =
    | Idle
    // call_method, then async_send_message
    | CallCheck(c: nat) | CallInsert(c: nat) | SendCheck(c: nat) | Put(c: nat)
    // try_start_send
    | SendTest | Get | Ask(c: nat) | Acquire(c: nat)
    // on_send_failed, up to Done
    | Erase(c: nat, why: Why, next: Next)
    // on_received, up to Done
    | Find(c: nat, reply: Reply) | FindCheck(c: nat, reply: Reply) | SetBuffer(c: nat)
    // Done: the compare-and-swap, then SetFailed and the callbacks
    | Cas(c: nat, why: Why, next: Next) | Publish(c: nat, why: Why, next: Next)
    // notify_timeout, after Done
    | TimerErase(c: nat)
    // close, on_closed
    | Close | CloseSwap | Finish(calls: set<nat>)

  datatype State = State(
    closed: bool,              // _status
    table: set<nat>,           // the keys of _controller_map
    queue: seq<nat>,           // the send queue
    socket: set<nat>,          // messages being written
    done: set<nat>,            // _is_done
    buffered: set<nat>,        // the calls whose response buffer is set
    results: map<nat, Why>,    // _error_code, once SetFailed has run
    // history
    started: set<nat>,         // passed to call_method
    settled: set<nat>,         // in the table at some time, or refused
    replies: map<nat, Reply>,  // the reply that found its call
    ran: multiset<nat>,        // the runs of a call's callbacks
    pc: seq<Pc>)

  datatype Action =
    | Call(c: nat) | Send | Receive(c: nat, reply: Reply) | Expire(c: nat) | Shut
    | Written(c: nat, ok: bool)  // on_write_some
    | Run(choice: nat)

  predicate Enabled(s: State, t: nat, a: Action) {
    && t < |s.pc|
    && (a.Run? <==> s.pc[t] != Idle)
    && (a.Call? ==> a.c !in s.started)
    && (a.Written? ==> a.c in s.socket)
    && (a.Run? && s.pc[t].Finish? && s.pc[t].calls != {} ==> a.choice in s.pc[t].calls)
  }

  function After(next: Next): Pc {
    match next
    case Return => Idle
    case ThenClose => Close
    case ThenErase(c) => TimerErase(c)
    case Others(calls) => Finish(calls)
  }

  /** Where a thread at pc goes on. */
  function Target(s: State, pc: Pc, choice: nat): Pc {
    match pc
    case Idle => Idle
    case CallCheck(c) => if s.closed then Cas(c, Closed, Return) else CallInsert(c)
    case CallInsert(c) => SendCheck(c)
    case SendCheck(c) => if s.closed then Erase(c, Closed, Return) else Put(c)
    case Put(c) => Idle
    case SendTest => if s.closed then Idle else Get
    case Get => if |s.queue| == 0 then Idle else Ask(s.queue[0])
    case Ask(c) => if c in s.done then Erase(c, Canceled, Return) else Acquire(c)
    case Acquire(c) => Idle
    case Erase(c, why, next) => Cas(c, why, next)
    case Find(c, reply) => if c in s.table then FindCheck(c, reply) else Idle
    case FindCheck(c, reply) =>
      if c in s.done then Idle else if reply.Succeeded? then SetBuffer(c) else Cas(c, Replied(reply), Return)
    case SetBuffer(c) => Cas(c, Replied(Succeeded), Return)
    case Cas(c, why, next) => if c in s.done then After(next) else Publish(c, why, next)
    case Publish(c, why, next) => After(next)
    case TimerErase(c) => Idle
    case Close => if s.closed then Idle else CloseSwap
    case CloseSwap => Finish(s.table)
    case Finish(calls) => if calls == {} then Idle else Cas(choice, Closed, Others(calls - {choice}))
  }

  /** What it writes; without quota (choice 0) a message goes back to the front of the queue. */
  function Memory(s: State, pc: Pc, choice: nat): State {
    match pc
    case CallCheck(c) => if s.closed then s.(settled := s.settled + {c}) else s
    case CallInsert(c) => s.(table := s.table + {c}, settled := s.settled + {c})
    case Put(c) => s.(queue := s.queue + [c])
    case Get => if |s.queue| == 0 then s else s.(queue := s.queue[1..])
    case Acquire(c) => if choice == 0 then s.(queue := [c] + s.queue) else s.(socket := s.socket + {c})
    case Erase(c, _, _) => s.(table := s.table - {c})
    case Find(c, reply) => if c in s.table then s.(table := s.table - {c}, replies := s.replies[c := reply]) else s
    case SetBuffer(c) => s.(buffered := s.buffered + {c})
    case Cas(c, _, _) => s.(done := s.done + {c})
    case Publish(c, why, _) => s.(results := s.results[c := why], ran := s.ran + multiset{c})
    case TimerErase(c) => s.(table := s.table - {c})
    case Close => s.(closed := true)
    case CloseSwap => s.(table := {})
    case _ => s
  }

  /** What an idle thread begins. */
  function Begin(s: State, a: Action): Pc
    requires !a.Run?
  {
    match a
    case Call(c) => CallCheck(c)
    case Send => SendTest
    case Receive(c, reply) => Find(c, reply)
    case Expire(c) => Cas(c, Timeout, ThenErase(c))
    case Shut => Close
    case Written(c, ok) => if s.closed || ok then Idle else Erase(c, Broken, ThenClose)
  }

  function BeginMemory(s: State, a: Action): State {
    match a
    case Call(c) => s.(started := s.started + {c})
    case Written(c, _) => s.(socket := s.socket - {c})
    case _ => s
  }

  function Step(s: State, t: nat, a: Action): State
    requires Enabled(s, t, a)
  {
    if a.Run? then Memory(s, s.pc[t], a.choice).(pc := s.pc[t := Target(s, s.pc[t], a.choice)])
    else BeginMemory(s, a).(pc := s.pc[t := Begin(s, a)])
  }

  // ---- What each thread can rely on ----

  /** Out of the table for good. */
  predicate Gone(s: State, c: nat) {
    c in s.settled && c !in s.table
  }

  predicate WhyHolds(s: State, c: nat, why: Why) {
    why.Replied? ==>
      c in s.replies && s.replies[c] == why.reply && (why.reply.Succeeded? ==> c in s.buffered)
  }

  /** Only the timeout manager finishes a call that may still be in the table, and it erases it next. */
  predicate NextHolds(s: State, c: nat, why: Why, next: Next) {
    (if why.Timeout? then next == ThenErase(c) else Gone(s, c) && !next.ThenErase?)
    && (next.Others? ==> forall o | o in next.calls :: Gone(s, o))
  }

  predicate Knows(s: State, pc: Pc) {
    match pc
    case CallCheck(c) => c in s.started && c !in s.settled
    case CallInsert(c) => c in s.started && c !in s.settled
    case SendCheck(c) => c in s.settled
    case Put(c) => c in s.settled
    case Ask(c) => c in s.settled
    case Acquire(c) => c in s.settled
    case Erase(c, why, next) => c in s.settled && !why.Replied? && !why.Timeout? && (next.Return? || next.ThenClose?)
    case FindCheck(c, reply) => Gone(s, c) && c in s.replies && s.replies[c] == reply
    case SetBuffer(c) => Gone(s, c) && c in s.replies && s.replies[c] == Succeeded
    case Cas(c, why, next) => WhyHolds(s, c, why) && NextHolds(s, c, why, next)
    case Publish(c, why, next) =>
      WhyHolds(s, c, why) && NextHolds(s, c, why, next) && c in s.done && c !in s.results
    case TimerErase(c) => c in s.done
    case CloseSwap => s.closed
    case Finish(calls) => forall c | c in calls :: Gone(s, c)
    case _ => true
  }

  predicate Apart(p: Pc, q: Pc) {
    && (p.Publish? && q.Publish? ==> p.c != q.c)
    && ((p.CallCheck? || p.CallInsert?) && (q.CallCheck? || q.CallInsert?) ==> p.c != q.c)
  }

  ghost predicate Threads(s: State) {
    && (forall t | 0 <= t < |s.pc| :: Knows(s, s.pc[t]))
    && (forall t, u | 0 <= t < |s.pc| && 0 <= u < |s.pc| && t != u :: Apart(s.pc[t], s.pc[u]))
  }

  predicate Bounds(s: State) {
    && s.table <= s.settled <= s.started
    && (forall c | c in s.queue :: c in s.settled)
    && (forall c | c in s.socket :: c in s.settled)
  }

  ghost predicate Results(s: State) {
    && s.results.Keys <= s.done
    && (forall c: nat :: s.ran[c] == if c in s.results then 1 else 0)
    && (forall c | c in s.results :: WhyHolds(s, c, s.results[c]))
  }

  predicate Replies(s: State) {
    && (forall c | c in s.replies :: Gone(s, c))
    && (forall c | c in s.buffered :: c in s.replies && s.replies[c] == Succeeded)
  }

  ghost predicate Records(s: State) {
    Bounds(s) && Results(s) && Replies(s)
  }

  // ---- What some thread has still to do ----

  datatype Role = Owning | Publishing | Cleaning | Leaving | Swapping

  predicate Plays(pc: Pc, role: Role, c: nat) {
    match role
    // will see to it that c is done
    case Owning =>
      (match pc
       case CallCheck(o) => o == c
       case CallInsert(o) => o == c
       case Erase(o, _, _) => o == c
       case FindCheck(o, _) => o == c
       case SetBuffer(o) => o == c
       case Cas(o, _, next) => o == c || (next.Others? && c in next.calls)
       case Publish(_, _, next) => next.Others? && c in next.calls
       case Finish(calls) => c in calls
       case _ => false)
    // has set _is_done, and will run the callbacks
    case Publishing => pc.Publish? && pc.c == c
    // will take the done call c out of the table
    case Cleaning =>
      (match pc
       case SendCheck(o) => o == c
       case Put(o) => o == c
       case Ask(o) => o == c
       case Erase(o, _, _) => o == c
       case Cas(_, _, next) => next == ThenErase(c)
       case Publish(_, _, next) => next == ThenErase(c)
       case TimerErase(o) => o == c
       case _ => false)
    // will notice that the stream is closed, and take c out of the table
    case Leaving => (pc.SendCheck? && pc.c == c) || (pc.Erase? && pc.c == c)
    case Swapping => pc.CloseSwap?
  }

  ghost predicate Someone(s: State, role: Role, c: nat) {
    exists t :: 0 <= t < |s.pc| && Plays(s.pc[t], role, c)
  }

  ghost predicate Looked(s: State, c: nat) {
    s.closed ==> Someone(s, Swapping, c) || Someone(s, Leaving, c)
  }

  /** A call that was started is done, will be finished by a thread, or waits in the table. */
  ghost predicate Covered(s: State, c: nat) {
    c in s.started ==> c in s.done || Someone(s, Owning, c) || (c in s.table && Looked(s, c))
  }

  ghost predicate Tidy(s: State, c: nat) {
    c in s.table ==> Looked(s, c) && (c in s.done ==> c in s.queue || Someone(s, Cleaning, c))
  }

  ghost predicate Answered(s: State, c: nat) {
    c in s.done ==> c in s.results || Someone(s, Publishing, c)
  }

  ghost predicate Promises(s: State, c: nat) {
    Covered(s, c) && Tidy(s, c) && Answered(s, c)
  }

  ghost predicate Invariant(s: State) {
    Records(s) && Threads(s) && forall c: nat :: Promises(s, c)
  }

  predicate Initial(s: State) {
    s == State(false, {}, [], {}, {}, {}, map[], {}, {}, map[], multiset{}, s.pc) && forall pc | pc in s.pc :: pc == Idle
  }

  // ---- Every step keeps the invariant ----

  /** What a step of a thread at p does to the memory, as others see it. */
  ghost predicate Grows(s: State, s': State, p: Pc) {
    && s.started <= s'.started && s.settled <= s'.settled && s.done <= s'.done && s.buffered <= s'.buffered
    && (s.closed ==> s'.closed)
    && (forall c | c in s'.settled && c !in s.settled :: (p.CallCheck? || p.CallInsert?) && p.c == c)
    && (forall c | c in s'.results && c !in s.results :: p.Publish? && p.c == c)
    && (forall c | c in s.settled && c !in s.table :: c !in s'.table)
    && (forall c | c in s.replies && c !in s.table :: c in s'.replies && s'.replies[c] == s.replies[c])
  }

  lemma GrowsHere(s: State, t: nat, a: Action)
    requires Enabled(s, t, a) && Knows(s, s.pc[t])
    ensures Grows(s, Step(s, t, a), s.pc[t])
  {
    hide Apart, After, WhyHolds, NextHolds, Target, Begin;
  }

  lemma KnowsGrows(s: State, s': State, p: Pc, q: Pc)
    requires Grows(s, s', p) && Knows(s, q) && Apart(p, q)
    ensures Knows(s', q)
  {
  }

  lemma KnowsHere(s: State, t: nat, a: Action)
    requires Enabled(s, t, a) && Knows(s, s.pc[t]) && Bounds(s) && Replies(s) && s.results.Keys <= s.done
    ensures Knows(Step(s, t, a), Step(s, t, a).pc[t])
  {
    hide Apart;
    if a.Run? {
      hide Begin, BeginMemory;
    } else {
      hide Memory, Target, After;
    }
  }

  /** A thread enters CallCheck or Publish for a call that no other thread is there for. */
  lemma ApartHere(s: State, t: nat, a: Action, q: Pc)
    requires Enabled(s, t, a) && Knows(s, s.pc[t]) && Knows(s, q) && Apart(s.pc[t], q)
    ensures Apart(Step(s, t, a).pc[t], q) && Apart(q, Step(s, t, a).pc[t])
  {
    hide WhyHolds, NextHolds, Memory, BeginMemory, After;
    AfterIsQuiet();
  }

  lemma AfterIsQuiet()
    ensures forall next :: !After(next).Publish? && !After(next).CallCheck? && !After(next).CallInsert?
  {
  }

  lemma OnlyOnePc(s: State, t: nat, a: Action)
    requires Enabled(s, t, a)
    ensures |Step(s, t, a).pc| == |s.pc|
    ensures forall u | 0 <= u < |s.pc| && u != t :: Step(s, t, a).pc[u] == s.pc[u]
  {
    hide Memory, BeginMemory, Target, Begin;
  }

  lemma ThreadsStep(s: State, t: nat, a: Action)
    requires Enabled(s, t, a) && Records(s) && Threads(s)
    ensures Threads(Step(s, t, a))
  {
    var s' := Step(s, t, a);
    hide Step, Knows, Apart, Bounds, Replies, Grows;
    OnlyOnePc(s, t, a);
    GrowsHere(s, t, a);
    KnowsHere(s, t, a);
    forall u | 0 <= u < |s.pc| && u != t ensures Knows(s', s'.pc[u]) && Apart(s'.pc[t], s'.pc[u]) && Apart(s'.pc[u], s'.pc[t]) {
      KnowsGrows(s, s', s.pc[t], s.pc[u]);
      ApartHere(s, t, a, s.pc[u]);
    }
    assert forall u | 0 <= u < |s'.pc| :: Knows(s', s'.pc[u]);
  }

  lemma BoundsStep(s: State, t: nat, a: Action)
    requires Enabled(s, t, a) && Bounds(s) && Knows(s, s.pc[t])
    ensures Bounds(Step(s, t, a))
  {
    hide Target, Begin;
  }

  lemma ResultsStep(s: State, t: nat, a: Action)
    requires Enabled(s, t, a) && Results(s) && Replies(s) && Knows(s, s.pc[t])
    ensures Results(Step(s, t, a))
  {
    hide Step, Knows, WhyHolds, Grows;
    var s' := Step(s, t, a);
    RanOnce(s, t, a);
    GrowsHere(s, t, a);
    forall c | c in s'.results ensures WhyHolds(s', c, s'.results[c]) {
      ResultKnown(s, t, a, c);
      WhyGrows(s, s', s.pc[t], c, s'.results[c]);
    }
  }

  /** Nothing but the end of Done changes results and runs callbacks. */
  lemma OnlyPublish(s: State, t: nat, a: Action)
    requires Enabled(s, t, a)
    ensures var s', p := Step(s, t, a), s.pc[t];
            if p.Publish? then s'.results == s.results[p.c := p.why] && s'.ran == s.ran + multiset{p.c} && s'.done == s.done
            else s'.results == s.results && s'.ran == s.ran && s.done <= s'.done
  {
    hide Target, Begin;
  }

  lemma RanOnce(s: State, t: nat, a: Action)
    requires Enabled(s, t, a) && Results(s) && Knows(s, s.pc[t])
    ensures Step(s, t, a).results.Keys <= Step(s, t, a).done
    ensures forall c: nat :: Step(s, t, a).ran[c] == if c in Step(s, t, a).results then 1 else 0
  {
    hide Step, WhyHolds, NextHolds;
    OnlyPublish(s, t, a);
  }

  lemma WhyGrows(s: State, s': State, p: Pc, c: nat, why: Why)
    requires Grows(s, s', p) && Replies(s) && WhyHolds(s, c, why)
    ensures WhyHolds(s', c, why)
  {
  }

  lemma ResultKnown(s: State, t: nat, a: Action, c: nat)
    requires Enabled(s, t, a) && Results(s) && Knows(s, s.pc[t]) && c in Step(s, t, a).results
    ensures WhyHolds(s, c, Step(s, t, a).results[c])
  {
    hide Step, WhyHolds, NextHolds;
    OnlyPublish(s, t, a);
  }

  lemma RepliesStep(s: State, t: nat, a: Action)
    requires Enabled(s, t, a) && Replies(s) && Bounds(s) && Knows(s, s.pc[t])
    ensures Replies(Step(s, t, a))
  {
    hide Target, Begin, WhyHolds, NextHolds;
  }

  lemma SomeoneStays(s: State, t: nat, a: Action, role: Role, c: nat)
    requires Enabled(s, t, a)
    ensures Someone(s, role, c) ==> Someone(Step(s, t, a), role, c) || Plays(s.pc[t], role, c)
    ensures Plays(Step(s, t, a).pc[t], role, c) ==> Someone(Step(s, t, a), role, c)
  {
    OnlyOnePc(s, t, a);
    var s' := Step(s, t, a);
    hide Step, Plays;
    if Someone(s, role, c) {
      var u :| 0 <= u < |s.pc| && Plays(s.pc[u], role, c);
      if u != t { assert Plays(s'.pc[u], role, c); }
    }
  }

  lemma LookedStep(s: State, t: nat, a: Action, c: nat)
    requires Enabled(s, t, a) && c in Step(s, t, a).table && (c in s.table ==> Looked(s, c))
    ensures Looked(Step(s, t, a), c)
  {
    SomeoneStays(s, t, a, Swapping, c);
    SomeoneStays(s, t, a, Leaving, c);
    hide Someone;
  }

  lemma CoveredStep(s: State, t: nat, a: Action, c: nat)
    requires Enabled(s, t, a) && Knows(s, s.pc[t]) && Covered(s, c)
    ensures Covered(Step(s, t, a), c)
  {
    SomeoneStays(s, t, a, Owning, c);
    if c in Step(s, t, a).table && (c in s.table ==> Looked(s, c)) { LookedStep(s, t, a, c); }
    hide Someone, Looked, WhyHolds;
    if a.Run? {
      hide Begin, BeginMemory;
    } else {
      hide Memory, Target, After;
    }
  }

  lemma TidyStep(s: State, t: nat, a: Action, c: nat)
    requires Enabled(s, t, a) && Knows(s, s.pc[t]) && Tidy(s, c)
    ensures Tidy(Step(s, t, a), c)
  {
    SomeoneStays(s, t, a, Cleaning, c);
    if c in Step(s, t, a).table { LookedStep(s, t, a, c); }
    hide Someone, Looked, WhyHolds;
  }

  lemma AnsweredStep(s: State, t: nat, a: Action, c: nat)
    requires Enabled(s, t, a) && Answered(s, c)
    ensures Answered(Step(s, t, a), c)
  {
    SomeoneStays(s, t, a, Publishing, c);
    hide Someone;
  }

  lemma InvariantStep(s: State, t: nat, a: Action)
    requires Enabled(s, t, a) && Invariant(s)
    ensures Invariant(Step(s, t, a))
  {
    hide Step, Knows, Bounds, Results, Replies, Covered, Tidy, Answered;
    BoundsStep(s, t, a);
    ResultsStep(s, t, a);
    RepliesStep(s, t, a);
    ThreadsStep(s, t, a);
    forall c: nat ensures Promises(Step(s, t, a), c) {
      assert Promises(s, c);
      CoveredStep(s, t, a, c);
      TidyStep(s, t, a, c);
      AnsweredStep(s, t, a, c);
    }
  }

  // ---- Runs ----

  ghost predicate Move(s: State, t: nat, a: Action, s': State) {
    Enabled(s, t, a) && s' == Step(s, t, a)
  }

  ghost predicate IsRun(states: seq<State>, moves: seq<(nat, Action)>) {
    && |states| == |moves| + 1 && Initial(states[0])
    && forall i | 0 <= i < |moves| :: Move(states[i], moves[i].0, moves[i].1, states[i + 1])
  }

  lemma InitialInvariant(s: State)
    requires Initial(s)
    ensures Invariant(s)
  {
    assert forall t | 0 <= t < |s.pc| :: s.pc[t] in s.pc;
  }

  lemma {:induction false} InvariantOnRuns(states: seq<State>, moves: seq<(nat, Action)>, i: nat)
    requires IsRun(states, moves) && i < |states|
    ensures Invariant(states[i])
  {
    if i == 0 {
      InitialInvariant(states[0]);
    } else {
      InvariantOnRuns(states, moves, i - 1);
      assert Move(states[i - 1], moves[i - 1].0, moves[i - 1].1, states[i]);
      InvariantStep(states[i - 1], moves[i - 1].0, moves[i - 1].1);
    }
  }

  /** A call's callbacks run at most once, when its result is set; a result is never replaced. */
  lemma {:induction false} CompletedAtMostOnce(states: seq<State>, moves: seq<(nat, Action)>, i: nat, j: nat, c: nat)
    requires IsRun(states, moves) && i <= j < |states|
    ensures states[j].ran[c] == if c in states[j].results then 1 else 0
    ensures c in states[i].results ==> c in states[j].results && states[j].results[c] == states[i].results[c]
    decreases j
  {
    hide Step, Knows, Promises;
    InvariantOnRuns(states, moves, j);
    if i < j {
      CompletedAtMostOnce(states, moves, i, j - 1, c);
      InvariantOnRuns(states, moves, j - 1);
      assert Move(states[j - 1], moves[j - 1].0, moves[j - 1].1, states[j]);
      ResultsStay(states[j - 1], moves[j - 1].0, moves[j - 1].1, c);
    }
  }

  lemma ResultsStay(s: State, t: nat, a: Action, c: nat)
    requires Enabled(s, t, a) && Threads(s)
    ensures c in s.results ==> c in Step(s, t, a).results && Step(s, t, a).results[c] == s.results[c]
  {
    hide Step, WhyHolds, NextHolds;
    OnlyPublish(s, t, a);
    assert Knows(s, s.pc[t]);
  }

  predicate Quiet(s: State) {
    forall t | 0 <= t < |s.pc| :: s.pc[t] == Idle
  }

  /** Closed and at rest: every call ever passed to call_method has completed exactly once, and none is left over. */
  lemma ClosedAndQuiet(states: seq<State>, moves: seq<(nat, Action)>, i: nat)
    requires IsRun(states, moves) && i < |states| && states[i].closed && Quiet(states[i])
    ensures states[i].table == {}
    ensures forall c | c in states[i].started :: c in states[i].results && states[i].ran[c] == 1
  {
    InvariantOnRuns(states, moves, i);
    var s := states[i];
    forall c: nat ensures c !in s.table && (c in s.started ==> c in s.results && s.ran[c] == 1) {
      assert Promises(s, c);
      assert !Someone(s, Owning, c) && !Someone(s, Swapping, c) && !Someone(s, Leaving, c) && !Someone(s, Publishing, c);
    }
  }

  /** Open and at rest, with nothing left to send: the table holds exactly the calls that wait for their reply. */
  lemma TableIsPending(states: seq<State>, moves: seq<(nat, Action)>, i: nat)
    requires IsRun(states, moves) && i < |states| && Quiet(states[i]) && states[i].queue == []
    ensures states[i].table == states[i].started - states[i].results.Keys
  {
    InvariantOnRuns(states, moves, i);
    var s := states[i];
    forall c: nat ensures c in s.table <==> c in s.started && c !in s.results {
      assert Promises(s, c);
      assert !Someone(s, Owning, c) && !Someone(s, Cleaning, c) && !Someone(s, Publishing, c);
    }
  }

  /**
   The callback of a call that did not fail checks that there is a response buffer. It holds unless the reply
   itself called the call failed and gave the code of success.
   */
  lemma SuccessHasResponse(states: seq<State>, moves: seq<(nat, Action)>, i: nat, c: nat)
    requires IsRun(states, moves) && i < |states| && c in states[i].results
    requires ErrorCode(states[i].results[c]) == RPC_SUCCESS
    ensures c in states[i].buffered <==> states[i].results[c] != Replied(FailedReply(RPC_SUCCESS))
  {
    InvariantOnRuns(states, moves, i);
    var s := states[i];
    assert WhyHolds(s, c, s.results[c]);
  }

  lemma OneMoveMore(states: seq<State>, moves: seq<(nat, Action)>, a: Action)
    returns (more: seq<State>, moves': seq<(nat, Action)>)
    requires IsRun(states, moves) && Enabled(states[|moves|], 0, a)
    ensures IsRun(more, moves') && |moves'| == |moves| + 1
    ensures more[|moves'|] == Step(states[|moves|], 0, a)
  {
    hide Step, Enabled, Initial;
    more, moves' := states + [Step(states[|moves|], 0, a)], moves + [(0, a)];
    forall i | 0 <= i < |moves'| ensures Move(more[i], moves'[i].0, moves'[i].1, more[i + 1]) {
      if i < |moves| { assert Move(states[i], moves[i].0, moves[i].1, states[i + 1]); }
    }
  }

  /** The thread alone, until it is idle again. */
  lemma RunAlone(states: seq<State>, moves: seq<(nat, Action)>, n: nat)
    returns (more: seq<State>, moves': seq<(nat, Action)>)
    requires IsRun(states, moves) && Steps(states[|moves|], n).Some?
    ensures IsRun(more, moves') && |moves'| == |moves| + n
    ensures Some(more[|moves'|]) == Steps(states[|moves|], n)
    decreases n
  {
    hide Step, Initial;
    more, moves' := states, moves;
    if n > 0 {
      more, moves' := OneMoveMore(states, moves, Run(1));
      more, moves' := RunAlone(more, moves', n - 1);
    }
  }

  /** n steps of the first thread. */
  function Steps(s: State, n: nat): Option<State>
    decreases n
  {
    if n == 0 then Some(s)
    else if Enabled(s, 0, Run(1)) then Steps(Step(s, 0, Run(1)), n - 1)
    else None
  }

  lemma StepAlone(s: State, s': State)
    requires |s.pc| == 1 && s.pc[0] != Idle && !s.pc[0].Finish?
    requires s' == Memory(s, s.pc[0], 1).(pc := [Target(s, s.pc[0], 1)])
    ensures Enabled(s, 0, Run(1)) && Step(s, 0, Run(1)) == s'
  {
    hide Memory, Target;
    assert s.pc[0 := Target(s, s.pc[0], 1)] == [Target(s, s.pc[0], 1)];
  }

  lemma FourSteps(s: State, s1: State, s2: State, s3: State, s4: State)
    requires Enabled(s, 0, Run(1)) && Step(s, 0, Run(1)) == s1 && Enabled(s1, 0, Run(1)) && Step(s1, 0, Run(1)) == s2
    requires Enabled(s2, 0, Run(1)) && Step(s2, 0, Run(1)) == s3 && Enabled(s3, 0, Run(1)) && Step(s3, 0, Run(1)) == s4
    ensures Steps(s, 4) == Some(s4)
  {
    hide Step, Enabled;
    assert Steps(s3, 1) == Some(s4) by { assert Steps(s4, 0) == Some(s4); }
    assert Steps(s2, 2) == Some(s4);
    assert Steps(s1, 3) == Some(s4);
  }

  lemma SentAlone(s: State, c: nat)
    requires s.pc == [CallCheck(c)] && !s.closed
    ensures Steps(s, 4)
         == Some(s.(table := s.table + {c}, settled := s.settled + {c}, queue := s.queue + [c], pc := [Idle]))
  {
    hide Step, Enabled;
    var s1 := s.(pc := [CallInsert(c)]);
    var s2 := s.(table := s.table + {c}, settled := s.settled + {c}, pc := [SendCheck(c)]);
    var s3 := s2.(pc := [Put(c)]);
    var s4 := s2.(queue := s.queue + [c], pc := [Idle]);
    StepAlone(s, s1);
    StepAlone(s1, s2);
    StepAlone(s2, s3);
    StepAlone(s3, s4);
    FourSteps(s, s1, s2, s3, s4);
  }

  lemma RepliedAlone(s: State, c: nat, reply: Reply)
    requires s.pc == [Find(c, reply)] && c in s.table && c !in s.done && !reply.Succeeded?
    ensures Steps(s, 4)
         == Some(s.(table := s.table - {c}, replies := s.replies[c := reply], done := s.done + {c},
                    results := s.results[c := Replied(reply)], ran := s.ran + multiset{c}, pc := [Idle]))
  {
    hide Step, Enabled;
    var s1 := s.(table := s.table - {c}, replies := s.replies[c := reply], pc := [FindCheck(c, reply)]);
    var s2 := s1.(pc := [Cas(c, Replied(reply), Return)]);
    var s3 := s1.(done := s.done + {c}, pc := [Publish(c, Replied(reply), Return)]);
    var s4 := s3.(results := s.results[c := Replied(reply)], ran := s.ran + multiset{c}, pc := [Idle]);
    StepAlone(s, s1);
    StepAlone(s1, s2);
    StepAlone(s2, s3);
    StepAlone(s3, s4);
    FourSteps(s, s1, s2, s3, s4);
  }

  /** And it does happen: a reply that reports a failure, with the code of success. */
  lemma SuccessCanLackResponse(c: nat) returns (states: seq<State>, moves: seq<(nat, Action)>)
    ensures IsRun(states, moves) && Quiet(states[|moves|])
    ensures c in states[|moves|].results && ErrorCode(states[|moves|].results[c]) == RPC_SUCCESS
    ensures c !in states[|moves|].buffered
  {
    states, moves := [State(false, {}, [], {}, {}, {}, map[], {}, {}, map[], multiset{}, [Idle])], [];
    states, moves := OneMoveMore(states, moves, Call(c));
    SentAlone(states[|moves|], c);
    states, moves := RunAlone(states, moves, 4);
    states, moves := OneMoveMore(states, moves, Receive(c, FailedReply(RPC_SUCCESS)));
    RepliedAlone(states[|moves|], c, FailedReply(RPC_SUCCESS));
    states, moves := RunAlone(states, moves, 4);
  }
}
