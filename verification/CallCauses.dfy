/**
 Why a call ends as it does. Whatever the threads do, a result says what has happened to the call: its timeout, a
 reply to it, a failed write of its request, or the closing of the stream. And the error code tells which.
 */
module CallCauses {
  import opened ClientCalls

  /** The event that a result or an attempt to complete a call goes back to; `seen` is what has happened so far. */
  predicate Caused(s: State, seen: set<Action>, c: nat, why: Why) {
    match why
    case Closed => s.closed
    case Broken => Written(c, false) in seen
    case Canceled => c in s.done
    case Timeout => Expire(c) in seen
    case Replied(reply) => Receive(c, reply) in seen
  }

  predicate OthersCaused(s: State, next: Next) {
    next.Others? ==> s.closed
  }

  predicate PcCaused(s: State, seen: set<Action>, pc: Pc) {
    match pc
    case Find(c, reply) => Receive(c, reply) in seen
    case FindCheck(c, reply) => Receive(c, reply) in seen
    case SetBuffer(c) => Receive(c, Succeeded) in seen
    case Erase(c, why, next) => Caused(s, seen, c, why) && OthersCaused(s, next)
    case Cas(c, why, next) => Caused(s, seen, c, why) && OthersCaused(s, next)
    case Publish(c, why, next) => Caused(s, seen, c, why) && !why.Canceled? && OthersCaused(s, next)
    case CloseSwap => s.closed
    case Finish(_) => s.closed
    case _ => true
  }

  ghost predicate CausesHold(s: State, seen: set<Action>) {
    && (forall t | 0 <= t < |s.pc| :: PcCaused(s, seen, s.pc[t]))
    && (forall c | c in s.results :: Caused(s, seen, c, s.results[c]) && !s.results[c].Canceled?)
  }

  /** More has happened. */
  predicate Later(s: State, seen: set<Action>, s': State, seen': set<Action>) {
    seen <= seen' && s.done <= s'.done && (s.closed ==> s'.closed)
  }

  lemma StepIsLater(s: State, t: nat, a: Action, seen: set<Action>)
    requires Enabled(s, t, a)
    ensures Later(s, seen, Step(s, t, a), seen + {a})
  {
    hide Target, Begin;
  }

  lemma CausedLater(s: State, seen: set<Action>, s': State, seen': set<Action>, pc: Pc)
    requires Later(s, seen, s', seen') && PcCaused(s, seen, pc)
    ensures PcCaused(s', seen', pc)
  {
  }

  lemma PcCausedHere(s: State, t: nat, a: Action, seen: set<Action>)
    requires Enabled(s, t, a) && PcCaused(s, seen, s.pc[t])
    ensures PcCaused(Step(s, t, a), seen + {a}, Step(s, t, a).pc[t])
  {
  }

  lemma ResultsCaused(s: State, t: nat, a: Action, seen: set<Action>, c: nat)
    requires Enabled(s, t, a) && CausesHold(s, seen) && c in Step(s, t, a).results
    ensures Caused(Step(s, t, a), seen + {a}, c, Step(s, t, a).results[c]) && !Step(s, t, a).results[c].Canceled?
  {
    hide Target, Begin, After;
    assert PcCaused(s, seen, s.pc[t]);
  }

  lemma CausesStep(s: State, t: nat, a: Action, seen: set<Action>)
    requires Enabled(s, t, a) && CausesHold(s, seen)
    ensures CausesHold(Step(s, t, a), seen + {a})
  {
    hide PcCaused, Caused;
    var s' := Step(s, t, a);
    StepIsLater(s, t, a, seen);
    forall u | 0 <= u < |s'.pc| ensures PcCaused(s', seen + {a}, s'.pc[u]) {
      if u == t { PcCausedHere(s, t, a, seen); } else { CausedLater(s, seen, s', seen + {a}, s.pc[u]); }
    }
    forall c | c in s'.results ensures Caused(s', seen + {a}, c, s'.results[c]) && !s'.results[c].Canceled? {
      ResultsCaused(s, t, a, seen, c);
    }
  }

  /** What has happened in the first i moves. */
  ghost function Seen(moves: seq<(nat, Action)>, i: nat): set<Action>
    requires i <= |moves|
  {
    set k | 0 <= k < i :: moves[k].1
  }

  lemma {:induction false} CausesOnRuns(states: seq<State>, moves: seq<(nat, Action)>, i: nat)
    requires IsRun(states, moves) && i < |states|
    ensures CausesHold(states[i], Seen(moves, i))
  {
    hide PcCaused, Caused, Step;
    if i == 0 {
      StartCaused(states[0], Seen(moves, 0));
    } else {
      CausesOnRuns(states, moves, i - 1);
      assert Move(states[i - 1], moves[i - 1].0, moves[i - 1].1, states[i]);
      CausesStep(states[i - 1], moves[i - 1].0, moves[i - 1].1, Seen(moves, i - 1));
      assert Seen(moves, i) == Seen(moves, i - 1) + {moves[i - 1].1};
    }
  }

  lemma StartCaused(s: State, seen: set<Action>)
    requires Initial(s)
    ensures CausesHold(s, seen)
  {
    assert forall t | 0 <= t < |s.pc| :: s.pc[t] in s.pc;
  }

  /** Somebody did this in the first i moves. */
  ghost predicate Happened(moves: seq<(nat, Action)>, i: nat, a: Action)
    requires i <= |moves|
  {
    exists k: nat :: k < i && moves[k].1 == a
  }

  /** Success, a failure that the other side reports, or a reply that lacks a field it must have. */
  predicate CodeOfReply(reply: Reply, code: int) {
    match reply
    case Succeeded => code == 0
    case FailedReply(given) => code == given
    case NoFailedField => code == 2
    case NoErrorCode => code == 2
    case NoReason => code == 2
  }

  /** On every run the error code of a completed call is that of something that has happened to it. */
  lemma ResultHasCause(states: seq<State>, moves: seq<(nat, Action)>, i: nat, c: nat)
    requires IsRun(states, moves) && i < |states| && c in states[i].results
    ensures
      var code := ErrorCode(states[i].results[c]);
      || (exists reply :: Happened(moves, i, Receive(c, reply)) && CodeOfReply(reply, code))
      || (code == 11 && Happened(moves, i, Expire(c)))
      || (code == 9 && Happened(moves, i, Written(c, false)))
      || (code == 10 && states[i].closed)
  {
    CausesOnRuns(states, moves, i);
    var why := states[i].results[c];
    assert Caused(states[i], Seen(moves, i), c, why);
    if why.Replied? {
      assert Happened(moves, i, Receive(c, why.reply)) && CodeOfReply(why.reply, ErrorCode(why));
    }
  }
}
