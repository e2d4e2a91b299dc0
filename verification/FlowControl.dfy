/**
 The quota of flow_controller.h. Acquire and Recharge are the effect of one successful compare-and-swap; the
 machine at the end runs the compare-and-swap loops of any number of threads and is proved to be a sequence of
 these effects.
 */
module FlowControl {

  /** The new quota, and what the caller gets: a positive grant, or its place in the queue of failures. */
  function Acquire(quota: int, size: nat): (r: (int, int)) {
    (if quota > 0 then quota - size else quota - 1, quota)
  }

  function Recharge(quota: int, amount: int): int {
    if quota > 0 then amount else quota + amount
  }

  // ---- Runs ----

  datatype Event = Acquired(size: nat) | Recharged

  function Quota(q0: int, amount: int, run: seq<Event>): int {
    if |run| == 0 then q0
    else
      var q := Quota(q0, amount, run[..|run| - 1]);
      match run[|run| - 1]
      case Acquired(size) => Acquire(q, size).0
      case Recharged => Recharge(q, amount)
  }

  /** The bytes granted over a run: the sizes of the acquisitions that succeeded. */
  function Granted(q0: int, amount: int, run: seq<Event>): nat {
    if |run| == 0 then 0
    else
      var before := run[..|run| - 1];
      Granted(q0, amount, before) +
      match run[|run| - 1]
      case Acquired(size) => if Acquire(Quota(q0, amount, before), size).1 > 0 then size else 0
      case Recharged => 0
  }

  function Recharges(run: seq<Event>): nat {
    if |run| == 0 then 0
    else Recharges(run[..|run| - 1]) + (if run[|run| - 1] == Recharged then 1 else 0)
  }

  /** The requests that were refused. */
  function Refusals(q0: int, amount: int, run: seq<Event>): nat {
    if |run| == 0 then 0
    else
      var before := run[..|run| - 1];
      Refusals(q0, amount, before) +
      match run[|run| - 1]
      case Acquired(size) => if Acquire(Quota(q0, amount, before), size).1 > 0 then 0 else 1
      case Recharged => 0
  }

  /** What recharges found left over: they do not add to it. */
  function Dropped(q0: int, amount: int, run: seq<Event>): nat {
    if |run| == 0 then 0
    else
      var before := run[..|run| - 1];
      Dropped(q0, amount, before)
      + if run[|run| - 1].Recharged? && Quota(q0, amount, before) > 0 then Quota(q0, amount, before) else 0
  }

  /** The account is exact: bytes granted, one for each refusal, what is left or owed, and what recharges dropped. */
  lemma {:induction false} QuotaIsExact(q0: int, amount: int, run: seq<Event>)
    ensures Granted(q0, amount, run) + Refusals(q0, amount, run) + Quota(q0, amount, run) + Dropped(q0, amount, run)
         == q0 + Recharges(run) * amount
  {
    if |run| > 0 {
      var before := run[..|run| - 1];
      QuotaIsExact(q0, amount, before);
      if run[|run| - 1] == Recharged {
        assert (Recharges(before) + 1) * amount == Recharges(before) * amount + amount;
      }
    }
  }

  /** A request is refused exactly if the account is used up. */
  lemma RefusedExactlyWhen(q0: int, amount: int, run: seq<Event>, size: nat)
    ensures Acquire(Quota(q0, amount, run), size).1 <= 0 <==>
      q0 + Recharges(run) * amount <= Granted(q0, amount, run) + Refusals(q0, amount, run) + Dropped(q0, amount, run)
  {
    QuotaIsExact(q0, amount, run);
  }

  /** What was granted, and what is left or owed, comes out of the initial quota and the recharges. */
  lemma {:induction false} GrantedPlusLeft(q0: int, amount: nat, run: seq<Event>)
    requires q0 >= 0
    ensures Granted(q0, amount, run) + Quota(q0, amount, run) <= q0 + Recharges(run) * amount
  {
    if |run| > 0 {
      var before := run[..|run| - 1];
      GrantedPlusLeft(q0, amount, before);
      if run[|run| - 1] == Recharged {
        assert (Recharges(before) + 1) * amount == Recharges(before) * amount + amount;
      }
    }
  }

  /**
   With requests of at most `most` bytes, the bytes granted exceed the quota handed out by less than one
   request, however the requests and the recharges interleave.
   */
  lemma {:induction false} GrantedBounded(q0: int, amount: nat, most: nat, run: seq<Event>)
    requires q0 >= 0 && most >= 1
    requires forall i | 0 <= i < |run| && run[i].Acquired? :: run[i].size <= most
    ensures Granted(q0, amount, run) <= q0 + Recharges(run) * amount + most - 1
  {
    if |run| > 0 {
      var before := run[..|run| - 1];
      match run[|run| - 1] {
        case Acquired(size) =>
          if Quota(q0, amount, before) > 0 {
            GrantedPlusLeft(q0, amount, before);
          } else {
            GrantedBounded(q0, amount, most, before);
          }
        case Recharged =>
          GrantedBounded(q0, amount, most, before);
          assert (Recharges(before) + 1) * amount == Recharges(before) * amount + amount;
      }
    }
  }

  /** What the i-th event of a run returned. */
  function Token(q0: int, amount: int, run: seq<Event>, i: nat): int
    requires i < |run|
  {
    Quota(q0, amount, run[..i])
  }

  /** Between two recharges, those who fail later get a smaller token: the tokens sort them by arrival. */
  lemma {:induction false} FailuresAreOrdered(q0: int, amount: int, run: seq<Event>, i: nat, j: nat)
    requires i < j < |run|
    requires forall k | i <= k <= j :: run[k].Acquired?
    requires Token(q0, amount, run, i) <= 0
    ensures Token(q0, amount, run, j) < Token(q0, amount, run, i) <= 0
  {
    assert run[..j][..j - 1] == run[..j - 1];
    assert run[..j][j - 1] == run[j - 1];
    if i < j - 1 {
      FailuresAreOrdered(q0, amount, run, i, j - 1);
    }
  }

  // ---- The compare-and-swap loops ----

  /** Where a thread is in a loop: about to read the quota, or about to swap; or it has returned. */
  datatype Local =
    | Reading(request: Event)
    | Swapping(request: Event, oldQuota: int)
    | Returned(request: Event, value: int, place: nat)

  /** `log` records the calls in the order of their successful swaps, and `values` what each of them returned. */
  datatype Machine = Machine(quota: int, threads: seq<Local>, log: seq<Event>, values: seq<int>)

  /** One access to the quota by thread t; a thread that has returned makes the call `again`. */
  function Access(m: Machine, amount: int, t: nat, again: Event): Machine
    requires t < |m.threads|
  {
    match m.threads[t]
    case Reading(request) => m.(threads := m.threads[t := Swapping(request, m.quota)])
    case Swapping(request, oldQuota) =>
      if m.quota != oldQuota then m.(threads := m.threads[t := Reading(request)])
      else
        var newQuota := if request.Acquired? then Acquire(oldQuota, request.size).0 else Recharge(oldQuota, amount);
        var threads := m.threads[t := Returned(request, oldQuota, |m.log|)];
        Machine(newQuota, threads, m.log + [request], m.values + [oldQuota])
    case Returned(_, _, _) => m.(threads := m.threads[t := Reading(again)])
  }

  /** A thread that has returned has a place in the log, where its request and its value are. */
  predicate HasPlace(m: Machine, l: Local)
    requires |m.values| == |m.log|
  {
    l.Returned? ==> l.place < |m.log| && m.log[l.place] == l.request && m.values[l.place] == l.value
  }

  /**
   The quota is what the logged calls make it one after another, each call ever made got the value of its place, and
   threads that have returned have different places.
   */
  ghost predicate Linear(m: Machine, q0: int, amount: int) {
    && m.quota == Quota(q0, amount, m.log) && |m.values| == |m.log|
    && (forall i | 0 <= i < |m.log| :: m.values[i] == Token(q0, amount, m.log, i))
    && (forall t | 0 <= t < |m.threads| :: HasPlace(m, m.threads[t]))
    && (forall t, u | 0 <= t < u < |m.threads| && m.threads[t].Returned? && m.threads[u].Returned? ::
          m.threads[t].place != m.threads[u].place)
  }

  lemma QuotaStep(q0: int, amount: int, log: seq<Event>, e: Event)
    ensures Quota(q0, amount, log + [e])
         == if e.Acquired? then Acquire(Quota(q0, amount, log), e.size).0 else Recharge(Quota(q0, amount, log), amount)
  {
    assert (log + [e])[..|log|] == log;
  }

  lemma AccessKeepsLinear(m: Machine, q0: int, amount: int, t: nat, again: Event)
    requires t < |m.threads| && Linear(m, q0, amount)
    ensures Linear(Access(m, amount, t, again), q0, amount)
  {
    hide Quota;
    var m' := Access(m, amount, t, again);
    if |m'.log| > |m.log| {
      QuotaStep(q0, amount, m.log, m.threads[t].request);
      assert m'.log[..|m.log|] == m.log;
      forall i | 0 <= i < |m'.log| ensures m'.values[i] == Token(q0, amount, m'.log, i) {
        if i < |m.log| { assert m'.log[..i] == m.log[..i] && m.values[i] == Token(q0, amount, m.log, i); }
      }
      forall u | 0 <= u < |m'.threads| ensures HasPlace(m', m'.threads[u]) {
        if u != t { assert HasPlace(m, m.threads[u]); }
      }
    } else {
      forall u | 0 <= u < |m'.threads| ensures HasPlace(m', m'.threads[u]) {
        if u != t { assert HasPlace(m, m.threads[u]); }
      }
    }
  }

  function Execute(m: Machine, amount: int, schedule: seq<(nat, Event)>): Machine
    requires forall i | 0 <= i < |schedule| :: schedule[i].0 < |m.threads|
    decreases |schedule|
  {
    if |schedule| == 0 then m
    else Execute(Access(m, amount, schedule[0].0, schedule[0].1), amount, schedule[1..])
  }

  /** Whatever the schedule, the loops act as if the calls had run one at a time, in the order of the log. */
  lemma {:induction false} LoopsAreAtomic(m: Machine, q0: int, amount: int, schedule: seq<(nat, Event)>)
    requires forall i | 0 <= i < |schedule| :: schedule[i].0 < |m.threads|
    requires Linear(m, q0, amount)
    ensures Linear(Execute(m, amount, schedule), q0, amount)
    decreases |schedule|
  {
    if |schedule| > 0 {
      AccessKeepsLinear(m, q0, amount, schedule[0].0, schedule[0].1);
      LoopsAreAtomic(Access(m, amount, schedule[0].0, schedule[0].1), q0, amount, schedule[1..]);
    }
  }

  /** The bytes of the calls that returned a positive value. */
  function Sum(log: seq<Event>, values: seq<int>): nat
    requires |log| == |values|
  {
    if |log| == 0 then 0
    else
      var last := |log| - 1;
      Sum(log[..last], values[..last]) + (if log[last].Acquired? && values[last] > 0 then log[last].size else 0)
  }

  lemma {:induction false} SumIsGranted(q0: int, amount: int, log: seq<Event>, values: seq<int>)
    requires |log| == |values| && forall i | 0 <= i < |log| :: values[i] == Token(q0, amount, log, i)
    ensures Sum(log, values) == Granted(q0, amount, log)
  {
    if |log| > 0 {
      var last := |log| - 1;
      forall i | 0 <= i < last ensures values[..last][i] == Token(q0, amount, log[..last], i) {
        assert log[..last][..i] == log[..i];
        assert values[i] == Token(q0, amount, log, i);
      }
      SumIsGranted(q0, amount, log[..last], values[..last]);
      assert values[last] == Token(q0, amount, log, last);
    }
  }

  lemma {:induction false} RequestsAreBounded(m: Machine, amount: int, most: nat, schedule: seq<(nat, Event)>)
    requires forall i | 0 <= i < |schedule| :: schedule[i].0 < |m.threads|
    requires Small(m, most) && forall i | 0 <= i < |schedule| && schedule[i].1.Acquired? :: schedule[i].1.size <= most
    ensures Small(Execute(m, amount, schedule), most)
    decreases |schedule|
  {
    if |schedule| > 0 {
      assert schedule[0].1.Acquired? ==> schedule[0].1.size <= most;
      RequestsAreBounded(Access(m, amount, schedule[0].0, schedule[0].1), amount, most, schedule[1..]);
    }
  }

  /** No call made or under way asks for more than `most`. */
  predicate Small(m: Machine, most: nat) {
    && (forall i | 0 <= i < |m.log| && m.log[i].Acquired? :: m.log[i].size <= most)
    && (forall t | 0 <= t < |m.threads| && m.threads[t].request.Acquired? :: m.threads[t].request.size <= most)
  }

  /** Any number of threads in their loops, under any schedule, are granted no more than the quota and one request. */
  lemma LoopsGrantBounded(m: Machine, q0: int, amount: nat, most: nat, schedule: seq<(nat, Event)>)
    requires m.quota == q0 >= 0 && m.log == [] && m.values == [] && most >= 1
    requires forall t | 0 <= t < |m.threads| :: !m.threads[t].Returned?
    requires forall i | 0 <= i < |schedule| :: schedule[i].0 < |m.threads|
    requires Small(m, most) && forall i | 0 <= i < |schedule| && schedule[i].1.Acquired? :: schedule[i].1.size <= most
    ensures var end := Execute(m, amount, schedule);
            |end.log| == |end.values| && Sum(end.log, end.values) <= q0 + Recharges(end.log) * amount + most - 1
  {
    LoopsAreAtomic(m, q0, amount, schedule);
    RequestsAreBounded(m, amount, most, schedule);
    var end := Execute(m, amount, schedule);
    SumIsGranted(q0, amount, end.log, end.values);
    GrantedBounded(q0, amount, most, end.log);
  }
}
