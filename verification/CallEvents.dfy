/**
 What has happened to a call is not lost: a timeout, a reply to a waiting call, a failed write and the closing of the
 stream take their effect by the time the threads are at rest, whoever else is at work on the call.
 */
module CallEvents {
  import opened Common
  import opened ClientCalls

  /** The call is done, or a thread is on its way to finish it. */
  ghost predicate Doomed(s: State, c: nat) {
    c in s.done || exists t :: 0 <= t < |s.pc| && Finishes(s.pc[t], c)
  }

  predicate Finishes(pc: Pc, c: nat) {
    (pc.Erase? && pc.c == c) || (pc.Cas? && pc.c == c)
  }

  /** The call is no longer in the table, or a thread is about to look for it there. */
  ghost predicate Sought(s: State, c: nat) {
    c in s.settled && (c !in s.table || exists t :: 0 <= t < |s.pc| && s.pc[t].Find? && s.pc[t].c == c)
  }

  /** The stream is closed, or a thread will close it. */
  ghost predicate Shutting(s: State) {
    s.closed || exists t :: 0 <= t < |s.pc| && Closes(s.pc[t])
  }

  predicate Closes(pc: Pc) {
    pc.Close? || ((pc.Erase? || pc.Cas? || pc.Publish?) && pc.next.ThenClose?)
  }

  // ---- Once so, always so ----

  lemma StepOf(s: State, t: nat, a: Action)
    requires Enabled(s, t, a) && Knows(s, s.pc[t])
    ensures |Step(s, t, a).pc| == |s.pc|
    ensures forall u | 0 <= u < |s.pc| && u != t :: Step(s, t, a).pc[u] == s.pc[u]
    ensures Grows(s, Step(s, t, a), s.pc[t])
  {
    hide Grows, Knows;
    GrowsHere(s, t, a);
    hide Target, Begin, Memory, BeginMemory;
  }

  lemma DoomedHere(s: State, t: nat, a: Action, c: nat)
    requires Enabled(s, t, a) && Finishes(s.pc[t], c)
    ensures c in Step(s, t, a).done || Finishes(Step(s, t, a).pc[t], c)
  {
  }

  lemma DoomedStays(s: State, t: nat, a: Action, c: nat)
    requires Enabled(s, t, a) && Knows(s, s.pc[t]) && Doomed(s, c)
    ensures Doomed(Step(s, t, a), c)
  {
    hide Step, Finishes, Knows;
    StepOf(s, t, a);
    if c !in s.done {
      var u :| 0 <= u < |s.pc| && Finishes(s.pc[u], c);
      if u == t { DoomedHere(s, t, a, c); }
    }
  }

  lemma SoughtHere(s: State, t: nat, a: Action, c: nat)
    requires Enabled(s, t, a) && s.pc[t].Find? && s.pc[t].c == c
    ensures c !in Step(s, t, a).table
  {
  }

  lemma SoughtStays(s: State, t: nat, a: Action, c: nat)
    requires Enabled(s, t, a) && Knows(s, s.pc[t]) && Sought(s, c)
    ensures Sought(Step(s, t, a), c)
  {
    hide Step, Knows;
    StepOf(s, t, a);
    if c in s.table {
      var u :| 0 <= u < |s.pc| && s.pc[u].Find? && s.pc[u].c == c;
      if u == t { SoughtHere(s, t, a, c); }
    }
  }

  lemma ShuttingHere(s: State, t: nat, a: Action)
    requires Enabled(s, t, a) && Closes(s.pc[t])
    ensures Step(s, t, a).closed || Closes(Step(s, t, a).pc[t])
  {
  }

  lemma ShuttingStays(s: State, t: nat, a: Action)
    requires Enabled(s, t, a) && Knows(s, s.pc[t]) && Shutting(s)
    ensures Shutting(Step(s, t, a))
  {
    hide Step, Closes, Knows;
    StepOf(s, t, a);
    if !s.closed {
      var u :| 0 <= u < |s.pc| && Closes(s.pc[u]);
      if u == t { ShuttingHere(s, t, a); }
    }
  }

  lemma MoveAt(states: seq<State>, moves: seq<(nat, Action)>, i: nat)
    requires IsRun(states, moves) && i < |moves|
    ensures Enabled(states[i], moves[i].0, moves[i].1) && Knows(states[i], states[i].pc[moves[i].0])
    ensures states[i + 1] == Step(states[i], moves[i].0, moves[i].1)
    ensures states[i].table <= states[i].settled
  {
    hide Step, Enabled, Knows, Promises;
    InvariantOnRuns(states, moves, i);
    assert Move(states[i], moves[i].0, moves[i].1, states[i + 1]);
    EnabledThread(states[i], moves[i].0, moves[i].1);
  }

  lemma EnabledThread(s: State, t: nat, a: Action)
    requires Enabled(s, t, a)
    ensures t < |s.pc|
  {
  }

  lemma {:induction false} StaysOnRuns(states: seq<State>, moves: seq<(nat, Action)>, j: nat, i: nat, c: nat)
    requires IsRun(states, moves) && j <= i < |states|
    ensures Doomed(states[j], c) ==> Doomed(states[i], c)
    ensures Sought(states[j], c) ==> Sought(states[i], c)
    ensures Shutting(states[j]) ==> Shutting(states[i])
    decreases i
  {
    hide Step, Enabled, Knows, Doomed, Sought, Shutting, IsRun;
    if j < i {
      StaysOnRuns(states, moves, j, i - 1, c);
      RunLength(states, moves);
      MoveAt(states, moves, i - 1);
      var s, t, a := states[i - 1], moves[i - 1].0, moves[i - 1].1;
      if Doomed(s, c) { DoomedStays(s, t, a, c); }
      if Sought(s, c) { SoughtStays(s, t, a, c); }
      if Shutting(s) { ShuttingStays(s, t, a); }
    }
  }

  lemma RunLength(states: seq<State>, moves: seq<(nat, Action)>)
    requires IsRun(states, moves)
    ensures |states| == |moves| + 1
  {
  }

  // ---- What the events come to ----

  lemma EventTakes(s: State, t: nat, a: Action, c: nat)
    requires Enabled(s, t, a) && s.table <= s.settled
    ensures a == Expire(c) ==> Doomed(Step(s, t, a), c)
    ensures a == Written(c, false) && !s.closed ==> Doomed(Step(s, t, a), c) && Shutting(Step(s, t, a))
    ensures a.Receive? && a.c == c && c in s.table ==> Sought(Step(s, t, a), c)
    ensures a == Shut ==> Shutting(Step(s, t, a))
  {
    if !a.Run? {
      var s' := Step(s, t, a);
      assert s'.pc[t] == Begin(s, a);
    }
  }

  lemma AtRest(states: seq<State>, moves: seq<(nat, Action)>, i: nat, c: nat)
    requires IsRun(states, moves) && i < |states| && Quiet(states[i])
    ensures Doomed(states[i], c) ==> c in states[i].results
    ensures Sought(states[i], c) ==> c in states[i].results && c !in states[i].table
    ensures Shutting(states[i]) ==> states[i].closed
  {
    hide Step, Knows, Results, Replies, Tidy;
    InvariantOnRuns(states, moves, i);
    var s := states[i];
    assert Promises(s, c);
    assert !Someone(s, Owning, c) && !Someone(s, Publishing, c);
  }

  /** A call that timed out is completed, by whatever came first. */
  lemma TimeoutTakesEffect(states: seq<State>, moves: seq<(nat, Action)>, j: nat, i: nat, c: nat)
    requires IsRun(states, moves) && j < i < |states| && Quiet(states[i]) && moves[j].1 == Expire(c)
    ensures c in states[i].results
  {
    hide Step, Enabled, Knows, Doomed, Sought, Shutting;
    MoveAt(states, moves, j);
    EventTakes(states[j], moves[j].0, moves[j].1, c);
    StaysOnRuns(states, moves, j + 1, i, c);
    AtRest(states, moves, i, c);
  }

  /** So is a call that had a reply while it was waiting, and it has left the table. */
  lemma ReplyTakesEffect(states: seq<State>, moves: seq<(nat, Action)>, j: nat, i: nat, c: nat, reply: Reply)
    requires IsRun(states, moves) && j < i < |states| && Quiet(states[i])
    requires moves[j].1 == Receive(c, reply) && c in states[j].table
    ensures c in states[i].results && c !in states[i].table
  {
    hide Step, Enabled, Knows, Doomed, Sought, Shutting;
    MoveAt(states, moves, j);
    EventTakes(states[j], moves[j].0, moves[j].1, c);
    StaysOnRuns(states, moves, j + 1, i, c);
    AtRest(states, moves, i, c);
  }

  /** A write that fails on an open stream completes its call and closes the stream. */
  lemma FailedWriteTakesEffect(states: seq<State>, moves: seq<(nat, Action)>, j: nat, i: nat, c: nat)
    requires IsRun(states, moves) && j < i < |states| && Quiet(states[i])
    requires moves[j].1 == Written(c, false) && !states[j].closed
    ensures c in states[i].results && states[i].closed
  {
    hide Step, Enabled, Knows, Doomed, Sought, Shutting;
    MoveAt(states, moves, j);
    EventTakes(states[j], moves[j].0, moves[j].1, c);
    StaysOnRuns(states, moves, j + 1, i, c);
    AtRest(states, moves, i, c);
  }

  /** Closing closes; and then, at rest, all calls are completed (ClientCalls.ClosedAndQuiet). */
  lemma CloseTakesEffect(states: seq<State>, moves: seq<(nat, Action)>, j: nat, i: nat)
    requires IsRun(states, moves) && j < i < |states| && Quiet(states[i]) && moves[j].1 == Shut
    ensures states[i].closed && states[i].table == {}
    ensures forall c | c in states[i].started :: c in states[i].results && states[i].ran[c] == 1
  {
    hide Step, Enabled, Knows, Doomed, Sought, Shutting;
    MoveAt(states, moves, j);
    EventTakes(states[j], moves[j].0, moves[j].1, 0);
    StaysOnRuns(states, moves, j + 1, i, 0);
    AtRest(states, moves, i, 0);
    ClosedAndQuiet(states, moves, i);
  }

  // ---- A call that goes well ----

  lemma DeliveredAlone(s: State, c: nat)
    requires s.pc == [SendTest] && !s.closed && s.queue == [c] && c !in s.done
    ensures Steps(s, 4) == Some(s.(queue := [], socket := s.socket + {c}, pc := [Idle]))
  {
    hide Step, Enabled;
    var s1 := s.(pc := [Get]);
    var s2 := s.(queue := [], pc := [Ask(c)]);
    var s3 := s2.(pc := [Acquire(c)]);
    var s4 := s2.(socket := s.socket + {c}, pc := [Idle]);
    StepAlone(s, s1);
    StepAlone(s1, s2);
    StepAlone(s2, s3);
    StepAlone(s3, s4);
    FourSteps(s, s1, s2, s3, s4);
  }

  lemma AnsweredAlone(s: State, c: nat)
    requires s.pc == [Find(c, Succeeded)] && c in s.table && c !in s.done
    ensures
      var r := s.(table := s.table - {c}, replies := s.replies[c := Succeeded], buffered := s.buffered + {c},
                  done := s.done + {c}, pc := [Publish(c, Replied(Succeeded), Return)]);
      Steps(s, 4) == Some(r)
      && Steps(r, 1) == Some(r.(results := s.results[c := Replied(Succeeded)], ran := s.ran + multiset{c}, pc := [Idle]))
  {
    hide Step, Enabled;
    var s1 := s.(table := s.table - {c}, replies := s.replies[c := Succeeded], pc := [FindCheck(c, Succeeded)]);
    var s2 := s1.(pc := [SetBuffer(c)]);
    var s3 := s1.(buffered := s.buffered + {c}, pc := [Cas(c, Replied(Succeeded), Return)]);
    var s4 := s3.(done := s.done + {c}, pc := [Publish(c, Replied(Succeeded), Return)]);
    var s5 := s4.(results := s.results[c := Replied(Succeeded)], ran := s.ran + multiset{c}, pc := [Idle]);
    StepAlone(s, s1);
    StepAlone(s1, s2);
    StepAlone(s2, s3);
    StepAlone(s3, s4);
    StepAlone(s4, s5);
    FourSteps(s, s1, s2, s3, s4);
    assert Steps(s4, 1) == Some(s5) by { assert Steps(s5, 0) == Some(s5); }
  }

  function Start(): State {
    State(false, {}, [], {}, {}, {}, map[], {}, {}, map[], multiset{}, [Idle])
  }

  /** A call is queued, and its message handed to the socket. */
  lemma CallCanBeSent(c: nat) returns (states: seq<State>, moves: seq<(nat, Action)>)
    ensures IsRun(states, moves)
    ensures states[|moves|] == Start().(table := {c}, settled := {c}, started := {c}, socket := {c})
  {
    hide Step, Enabled;
    states, moves := [Start()], [];
    var called := Start().(started := {c}, pc := [CallCheck(c)]);
    Begun(Start(), Call(c), called);
    states, moves := OneMoveMore(states, moves, Call(c));
    SentAlone(called, c);
    assert called.table + {c} == {c} && called.settled + {c} == {c} && called.queue + [c] == [c];
    states, moves := RunAlone(states, moves, 4);
    var queued := Start().(table := {c}, settled := {c}, started := {c}, queue := [c]);
    Begun(queued, Send, queued.(pc := [SendTest]));
    states, moves := OneMoveMore(states, moves, Send);
    DeliveredAlone(queued.(pc := [SendTest]), c);
    assert queued.socket + {c} == {c};
    states, moves := RunAlone(states, moves, 4);
  }

  lemma Begun(s: State, a: Action, s': State)
    requires s.pc == [Idle] && !a.Run? && (a.Call? ==> a.c !in s.started) && (a.Written? ==> a.c in s.socket)
    requires s' == BeginMemory(s, a).(pc := [Begin(s, a)])
    ensures Enabled(s, 0, a) && Step(s, 0, a) == s'
  {
    hide Begin, BeginMemory;
    assert s.pc[0 := Begin(s, a)] == [Begin(s, a)];
  }

  /** It is written and answered, and ends with its response and nothing left behind. */
  lemma CallCanSucceed(c: nat) returns (states: seq<State>, moves: seq<(nat, Action)>)
    ensures IsRun(states, moves) && Quiet(states[|moves|])
    ensures var s := states[|moves|];
            s.results == map[c := Replied(Succeeded)] && s.buffered == {c}
            && s.table == {} && s.queue == [] && s.socket == {}
  {
    hide Step, Enabled;
    states, moves := CallCanBeSent(c);
    var sent := states[|moves|];
    var written := sent.(socket := {});
    Begun(sent, Written(c, true), written);
    states, moves := OneMoveMore(states, moves, Written(c, true));
    var found := written.(pc := [Find(c, Succeeded)]);
    Begun(written, Receive(c, Succeeded), found);
    states, moves := OneMoveMore(states, moves, Receive(c, Succeeded));
    AnsweredAlone(found, c);
    states, moves := RunAlone(states, moves, 4);
    states, moves := RunAlone(states, moves, 1);
  }
}
