/**
 The dynamic channel (dynamic_rpc_channel_impl.cc): servers come and go, move between the live and the unlive map
 as calls and probes fail and succeed, and the next call goes to the live server that is least busy and has
 waited longest.

 OnAddressAdded, OnAddressRemoved, MoveToLive, MoveToUnlive and ChooseServer are what the source does under its
 locks. Each of them keeps the invariant Valid for any argument, so every interleaving of threads keeps it. CallDone
 and DetectCallback look at flags before such a region: RecordOutcome and ProbeSucceeded are what they do before,
 MoveFailed and MoveDetected what they do in it, whatever has happened in between.
 */
module DynamicChannel {
  import opened Common

  const MAX32: nat := 0xFFFF_FFFF
  const MAX64: nat := 0xFFFF_FFFF_FFFF_FFFF
  const RETRY_COUNT: nat := 3

  datatype Code = Success | Busy | Unavailable

  // ---- Choosing the least ----

  /** The order of addresses as keys of a std::map. */
  predicate Less(a: string, b: string) {
    |b| > 0 && (|a| == 0 || a[0] < b[0] || (a[0] == b[0] && Less(a[1..], b[1..])))
  }

  lemma {:induction false} LessOrder(a: string, b: string, c: string)
    ensures !Less(a, a) && (a != b ==> Less(a, b) || Less(b, a))
    ensures Less(a, b) && Less(b, c) ==> Less(a, c)
    decreases |a|
  {
    if |a| > 0 {
      var b' := if |b| > 0 then b[1..] else b;
      var c' := if |c| > 0 then c[1..] else c;
      LessOrder(a[1..], b', c');
      if |b| > 0 { assert a == [a[0]] + a[1..] && b == [b[0]] + b[1..]; }
    }
  }

  /** That is, at the first difference, or a beginning of the other. */
  lemma {:induction false} LessExactly(a: string, b: string)
    ensures Less(a, b) <==> exists k: nat :: Diverge(a, b, k)
    decreases |a|
  {
    if |b| > 0 && |a| > 0 && a[0] == b[0] {
      LessExactly(a[1..], b[1..]);
      if Less(a, b) {
        var k: nat :| Diverge(a[1..], b[1..], k);
        assert a[..k + 1] == [a[0]] + a[1..][..k] && b[..k + 1] == [b[0]] + b[1..][..k];
        assert Diverge(a, b, k + 1);
      }
      if exists k: nat :: Diverge(a, b, k) {
        var k: nat :| Diverge(a, b, k);
        assert a[..k] == [a[0]] + a[1..][..k - 1] && b[..k] == [b[0]] + b[1..][..k - 1];
        assert Diverge(a[1..], b[1..], k - 1);
      }
    } else if Less(a, b) {
      assert Diverge(a, b, 0);
    }
  }

  predicate Diverge(a: string, b: string, k: nat) {
    k <= |a| && k < |b| && a[..k] == b[..k] && (k == |a| || a[k] < b[k])
  }

  /** How busy a server is, and the number of the last request it got. */
  datatype Entry = Entry(wait: nat, last: nat)

  predicate Precedes(a: string, x: Entry, b: string, y: Entry) {
    x.wait < y.wait || (x.wait == y.wait && (x.last < y.last || (x.last == y.last && Less(a, b))))
  }

  predicate IsLeast(view: map<string, Entry>, a: string) {
    a in view && forall b | b in view && b != a :: Precedes(a, view[a], b, view[b])
  }

  lemma {:induction false} First(rest: set<string>) returns (first: string)
    requires rest != {}
    ensures first in rest && forall b | b in rest && b != first :: Less(first, b)
    decreases rest
  {
    hide Less;
    var a :| a in rest;
    var others := rest - {a};
    first := a;
    if others != {} {
      var f := First(others);
      LessOrder(a, f, a);
      if Less(a, f) {
        forall b | b in others && b != f ensures Less(a, b) { LessOrder(a, f, b); }
      } else {
        first := f;
      }
    }
    assert forall b | b in rest :: b in others || b == a;
  }

  lemma FirstExists(rest: set<string>)
    requires rest != {}
    ensures exists a :: a in rest && forall b | b in rest && b != a :: Less(a, b)
  {
    hide Less;
    var a := First(rest);
  }

  class ServerContext {
    const address: string
    var isLastRequestSucceed: bool
    var isInLiveMap: bool
    var isRemoved: bool
    var isChannelInited: bool
    var waitCount: nat        // of its channel
    var lastRequestSeq: nat

    constructor (serverAddress: string)
      ensures address == serverAddress && isLastRequestSucceed && isInLiveMap && !isRemoved && !isChannelInited
      ensures lastRequestSeq == 0
    {
      address, isLastRequestSucceed, isInLiveMap, isRemoved := serverAddress, true, true, false;
      isChannelInited, waitCount, lastRequestSeq := false, 0, 0;
    }

    /** A channel that is not there yet has nothing waiting. */
    function LiveEntry(): Entry
      reads this
    {
      Entry(if isChannelInited then waitCount else 0, lastRequestSeq)
    }

    /** Among unlive servers, those whose last request succeeded come first. */
    function UnliveEntry(): Entry
      reads this
    {
      Entry(if isLastRequestSucceed then 0 else 1, lastRequestSeq)
    }
  }

  /** No more calls wait for c than for d, and when as many do, the one of c with the number `last` is the earlier. */
  predicate GoesBefore(c: ServerContext, last: nat, d: ServerContext)
    reads c, d
  {
    && (c.isChannelInited && d.isChannelInited ==> c.waitCount <= d.waitCount)
    && (c.isChannelInited && !d.isChannelInited ==> c.waitCount == 0)
    && ((c.isChannelInited ==> c.waitCount == 0) && (d.isChannelInited ==> d.waitCount == 0) ==> Earlier(c, last, d))
    && (c.isChannelInited && d.isChannelInited && c.waitCount == d.waitCount ==> Earlier(c, last, d))
  }

  predicate Earlier(c: ServerContext, last: nat, d: ServerContext)
    reads d
  {
    last < d.lastRequestSeq || (last == d.lastRequestSeq && Less(c.address, d.address))
  }

  /** The same for unlive servers: the last request's success comes first. */
  predicate UnliveBefore(c: ServerContext, last: nat, d: ServerContext)
    reads c, d
  {
    && (d.isLastRequestSucceed ==> c.isLastRequestSucceed)
    && (c.isLastRequestSucceed == d.isLastRequestSucceed ==> Earlier(c, last, d))
  }

  type ServerMap = map<string, ServerContext>

  class Channel {
    var liveMap: ServerMap
    var unliveMap: ServerMap
    var addedSet: set<string>
    var requestCount: nat
    const serverLoadCapacity: nat
    ghost var contexts: set<ServerContext>  // all there ever were

    /**
     The maps are disjoint and hold exactly the added addresses, each context under its own address and with the
     flag of its map; a context that is not in its place has been removed.
     */
    ghost predicate Valid()
      reads this, contexts
    {
      && liveMap.Keys !! unliveMap.Keys && liveMap.Keys + unliveMap.Keys == addedSet && "" !in addedSet
      && (forall a | a in liveMap :: liveMap[a] in contexts && liveMap[a].address == a)
      && (forall a | a in liveMap :: liveMap[a].isInLiveMap && !liveMap[a].isRemoved)
      && (forall a | a in unliveMap :: unliveMap[a] in contexts && unliveMap[a].address == a)
      && (forall a | a in unliveMap :: !unliveMap[a].isInLiveMap && !unliveMap[a].isRemoved)
      && (forall c | c in contexts :: !c.isRemoved ==> Holds(c))
      && (forall c | c in contexts :: c.lastRequestSeq <= requestCount)
    }

    /** The channel has this very context under its address. */
    predicate Holds(c: ServerContext)
      reads this
    {
      (c.address in liveMap && liveMap[c.address] == c) || (c.address in unliveMap && unliveMap[c.address] == c)
    }

    ghost function LiveView(): (view: map<string, Entry>)
      requires Valid()
      reads this, contexts
      ensures view.Keys == liveMap.Keys
    {
      map a | a in liveMap :: liveMap[a].LiveEntry()
    }

    ghost function UnliveView(): (view: map<string, Entry>)
      requires Valid()
      reads this, contexts
      ensures view.Keys == unliveMap.Keys
    {
      map a | a in unliveMap :: unliveMap[a].UnliveEntry()
    }

    constructor (capacity: nat)
      ensures Valid() && addedSet == {} && contexts == {} && serverLoadCapacity == capacity && requestCount == 0
    {
      liveMap, unliveMap, addedSet, requestCount, serverLoadCapacity := map[], map[], {}, 0, capacity;
      contexts := {};
    }

    /** New addresses start live, with new contexts; whatever was there stays as it is. */
    method OnAddressAdded(addresses: seq<string>)
      requires Valid()
      modifies this
      ensures Valid() && fresh(contexts - old(contexts)) && old(contexts) <= contexts
      ensures addedSet == old(addedSet) + (set a | a in addresses && a != "")
      ensures unliveMap == old(unliveMap) && (forall a | a in old(liveMap) :: a in liveMap && liveMap[a] == old(liveMap[a]))
      ensures forall a | a in liveMap && a !in old(liveMap) :: fresh(liveMap[a]) && IsNew(liveMap[a], a)
      ensures requestCount == old(requestCount)
    {
      var results := NewServers(addresses);
      AddAll(results);
    }

    /** The part of OnAddressAdded before it takes the lock of the maps. */
    method NewServers(addresses: seq<string>) returns (results: ServerMap)
      requires Valid()
      ensures results.Keys == (set a | a in addresses && a != "") - addedSet
      ensures forall a | a in results :: IsNew(results[a], a) && fresh(results[a])
    {
      results := map[];
      var i := 0;
      while i < |addresses|
        invariant 0 <= i <= |addresses|
        invariant results.Keys == (set a | a in addresses[..i] && a != "") - addedSet
        invariant forall a | a in results :: IsNew(results[a], a) && fresh(results[a])
      {
        var a := addresses[i];
        assert addresses[..i + 1] == addresses[..i] + [a];
        if a != "" && a !in results && a !in addedSet {
          var c := new ServerContext(a);
          results := results[a := c];
        }
        i := i + 1;
      }
      assert addresses[..i] == addresses;
    }

    method AddAll(results: ServerMap)
      requires Valid() && results.Keys !! addedSet && "" !in results
      requires forall a | a in results :: IsNew(results[a], a) && results[a] !in contexts
      modifies this
      ensures Valid() && contexts == old(contexts) + results.Values && addedSet == old(addedSet) + results.Keys
      ensures liveMap == old(liveMap) + results && unliveMap == old(unliveMap) && requestCount == old(requestCount)
    {
      liveMap := liveMap + results;
      addedSet := addedSet + results.Keys;
      contexts := contexts + results.Values;
    }

    /** The check that an added address is in one of the maps never fails. */
    method OnAddressRemoved(addresses: seq<string>)
      requires Valid()
      modifies this, contexts
      ensures Valid() && contexts == old(contexts)
      ensures addedSet == old(addedSet) - (set a | a in addresses)
      ensures liveMap == old(liveMap) - (set a | a in addresses)
      ensures unliveMap == old(unliveMap) - (set a | a in addresses)
      ensures forall c | c in contexts :: c.isRemoved == (old(c.isRemoved) || c.address in addresses)
      ensures forall c | c in contexts :: Same(c) && requestCount == old(requestCount)
    {
      var removals := RemovedSet(addresses);
      RemoveAll(removals);
    }

    method RemoveAll(removals: set<string>)
      requires Valid() && removals <= addedSet
      modifies this, contexts
      ensures Valid() && contexts == old(contexts) && requestCount == old(requestCount)
      ensures addedSet == old(addedSet) - removals
      ensures liveMap == old(liveMap) - removals && unliveMap == old(unliveMap) - removals
      ensures forall c | c in contexts :: c.isRemoved == (old(c.isRemoved) || c.address in removals) && Same(c)
    {
      hide Valid;
      var rest := removals;
      ghost var gone := {};
      while rest != {}
        invariant rest + gone == removals && rest !! gone && rest <= addedSet
        invariant Valid() && contexts == old(contexts) && requestCount == old(requestCount)
        invariant addedSet == old(addedSet) - gone
        invariant liveMap == old(liveMap) - gone && unliveMap == old(unliveMap) - gone
        invariant forall c | c in contexts :: c.isRemoved == (old(c.isRemoved) || c.address in gone) && Same(c)
        decreases rest
      {
        var a :| a in rest;
        RemoveOne(a);
        rest, gone := rest - {a}, gone + {a};
      }
    }

    method RemovedSet(addresses: seq<string>) returns (removals: set<string>)
      requires Valid()
      ensures removals == (set a | a in addresses) * addedSet
    {
      var i := 0;
      removals := {};
      while i < |addresses|
        invariant 0 <= i <= |addresses| && removals == (set a | a in addresses[..i]) * addedSet
      {
        assert addresses[..i + 1] == addresses[..i] + [addresses[i]];
        if addresses[i] != "" && addresses[i] in addedSet { removals := removals + {addresses[i]}; }
        i := i + 1;
      }
      assert addresses[..i] == addresses;
    }

    method RemoveOne(a: string)
      requires Valid() && a in addedSet
      modifies this, contexts
      ensures Valid() && contexts == old(contexts) && requestCount == old(requestCount)
      ensures addedSet == old(addedSet) - {a} && liveMap == old(liveMap) - {a} && unliveMap == old(unliveMap) - {a}
      ensures forall c | c in contexts :: c.isRemoved == (old(c.isRemoved) || c.address == a) && Same(c)
    {
      if a in liveMap { RemoveLive(a); } else { RemoveUnlive(a); }
    }

    method RemoveLive(a: string)
      requires Valid() && a in liveMap
      modifies this`liveMap, this`addedSet, {liveMap[a]}`isRemoved
      ensures Valid() && addedSet == old(addedSet) - {a} && liveMap == old(liveMap) - {a}
      ensures unliveMap == old(unliveMap) - {a}
      ensures forall c | c in contexts :: c.isRemoved == (old(c.isRemoved) || c.address == a)
    {
      liveMap[a].isRemoved := true;
      liveMap := liveMap - {a};
      addedSet := addedSet - {a};
    }

    method RemoveUnlive(a: string)
      requires Valid() && a in addedSet && a !in liveMap
      modifies this`unliveMap, this`addedSet, contexts`isRemoved
      ensures Valid() && addedSet == old(addedSet) - {a} && unliveMap == old(unliveMap) - {a}
      ensures liveMap == old(liveMap) - {a}
      ensures forall c | c in contexts :: c.isRemoved == (old(c.isRemoved) || c.address == a)
    {
      assert a in unliveMap;
      unliveMap[a].isRemoved := true;
      unliveMap := unliveMap - {a};
      addedSet := addedSet - {a};
    }

    /** Everything of a context but is_removed. */
    twostate predicate Same(c: ServerContext)
      reads c
    {
      && c.isLastRequestSucceed == old(c.isLastRequestSucceed) && c.isInLiveMap == old(c.isInLiveMap)
      && c.isChannelInited == old(c.isChannelInited) && c.waitCount == old(c.waitCount)
      && c.lastRequestSeq == old(c.lastRequestSeq)
    }

    static predicate IsNew(c: ServerContext, a: string)
      reads c
    {
      c.address == a && c.isInLiveMap && !c.isRemoved && !c.isChannelInited && c.isLastRequestSucceed && c.lastRequestSeq == 0
    }

    method MoveToUnlive(a: string)
      requires Valid()
      modifies this`liveMap, this`unliveMap, (if a in liveMap then {liveMap[a]} else {})`isInLiveMap
      ensures Valid()
      ensures a in old(liveMap) ==>
        liveMap == old(liveMap) - {a} && unliveMap == old(unliveMap)[a := old(liveMap[a])]
      ensures a !in old(liveMap) ==> unchanged(this)
    {
      if a in liveMap {
        var server := liveMap[a];
        liveMap := liveMap - {a};
        server.isInLiveMap := false;
        unliveMap := unliveMap[a := server];
      }
    }

    method MoveToLive(a: string)
      requires Valid()
      modifies this`liveMap, this`unliveMap, (if a in unliveMap then {unliveMap[a]} else {})`isInLiveMap
      ensures Valid()
      ensures a in old(unliveMap) ==>
        unliveMap == old(unliveMap) - {a} && liveMap == old(liveMap)[a := old(unliveMap[a])]
      ensures a !in old(unliveMap) ==> unchanged(this)
    {
      if a in unliveMap {
        var server := unliveMap[a];
        assert a !in liveMap;
        unliveMap := unliveMap - {a};
        server.isInLiveMap := true;
        liveMap := liveMap[a := server];
      }
    }

    /** A context has its place in the maps, or has been removed and another one may have its address. */
    lemma InPlaceUnlessRemoved(server: ServerContext)
      requires Valid() && server in contexts && server.address in addedSet
      ensures Holds(server) <==> !server.isRemoved
    {
    }

    /** CallDone up to the flag it reads: the outcome of the last request is recorded. */
    method RecordOutcome(server: ServerContext, failed: bool) returns (move: bool)
      requires Valid() && server in contexts
      modifies server`isLastRequestSucceed
      ensures Valid() && server.isLastRequestSucceed == !failed && move == (failed && server.isInLiveMap)
    {
      server.isLastRequestSucceed := !failed;
      return failed && server.isInLiveMap;
    }

    /**
     The move at the end of CallDone, some time later: what is moved is the live context that has the address now.
     It is another one than the call's exactly if the call's context has been removed by then.
     */
    method MoveFailed(server: ServerContext)
      requires Valid() && server in contexts
      modifies this`liveMap, this`unliveMap, contexts`isInLiveMap
      ensures Valid()
      ensures server.address in old(liveMap) ==>
        && liveMap == old(liveMap) - {server.address}
        && unliveMap == old(unliveMap)[server.address := old(liveMap[server.address])]
        && (old(liveMap[server.address]) != server <==> old(server.isRemoved))
      ensures server.address !in old(liveMap) ==> liveMap == old(liveMap) && unliveMap == old(unliveMap)
    {
      MoveToUnlive(server.address);
    }

    /** The end of a call on `server`, when nobody comes between the flag and the move. */
    method CallDone(server: ServerContext, failed: bool)
      requires Valid() && server in contexts
      modifies this`liveMap, this`unliveMap, contexts`isInLiveMap, server`isLastRequestSucceed
      ensures Valid() && server.isLastRequestSucceed == !failed
      ensures
        if failed && old(server.isInLiveMap) && server.address in old(liveMap)
        then liveMap == old(liveMap) - {server.address}
             && unliveMap == old(unliveMap)[server.address := old(liveMap[server.address])]
        else liveMap == old(liveMap) && unliveMap == old(unliveMap)
      ensures failed && !old(server.isRemoved) ==> server.address in unliveMap && unliveMap[server.address] == server
      ensures forall a | a in old(liveMap) && a in unliveMap ::
        old(liveMap[a]) != server <==> old(server.isRemoved)
    {
      var move := RecordOutcome(server, failed);
      if move { MoveFailed(server); }
    }

    /** DetectCallback up to the move: the flags it reads. */
    method ProbeSucceeded(server: ServerContext, healthy: bool) returns (move: bool)
      requires Valid() && server in contexts
      ensures move == (healthy && server.address in unliveMap && unliveMap[server.address] == server)
    {
      return !server.isRemoved && !server.isInLiveMap && healthy;
    }

    /** The move at the end of DetectCallback, some time later; again another context exactly if this one is removed. */
    method MoveDetected(server: ServerContext)
      requires Valid() && server in contexts
      modifies this`liveMap, this`unliveMap, contexts`isInLiveMap
      ensures Valid()
      ensures server.address in old(unliveMap) ==>
        && unliveMap == old(unliveMap) - {server.address}
        && liveMap == old(liveMap)[server.address := old(unliveMap[server.address])]
        && (old(unliveMap[server.address]) != server <==> old(server.isRemoved))
      ensures server.address !in old(unliveMap) ==> liveMap == old(liveMap) && unliveMap == old(unliveMap)
    {
      MoveToLive(server.address);
    }

    /** The answer to a probe, when nobody comes between the flags and the move. */
    method DetectCallback(server: ServerContext, healthy: bool)
      requires Valid() && server in contexts
      modifies this`liveMap, this`unliveMap, contexts`isInLiveMap
      ensures Valid()
      ensures
        if healthy && server.address in old(unliveMap) && old(unliveMap[server.address]) == server
        then liveMap == old(liveMap)[server.address := server] && unliveMap == old(unliveMap) - {server.address}
        else liveMap == old(liveMap) && unliveMap == old(unliveMap)
    {
      var move := ProbeSucceeded(server, healthy);
      if move { MoveDetected(server); }
    }

    /** There is a live server the scan can choose: its counters are below their greatest values. */
    ghost predicate SomeLive()
      requires Valid()
      reads this, contexts
    {
      SomeBelow(LiveView(), Entry(MAX32, MAX64))
    }

    ghost predicate SomeUnlive()
      requires Valid()
      reads this, contexts
    {
      SomeBelow(UnliveView(), Entry(1, MAX64))
    }

    /** All the live servers are at their capacity. */
    ghost predicate Full()
      requires Valid()
      reads this, contexts
    {
      AtCapacity(LiveView(), serverLoadCapacity)
    }

    /** The counters have not reached their greatest values. */
    ghost predicate CountersFit()
      requires Valid()
      reads this, contexts
    {
      && (forall a | a in liveMap :: liveMap[a].waitCount <= MAX32 && liveMap[a].lastRequestSeq < MAX64)
      && (forall a | a in unliveMap :: unliveMap[a].lastRequestSeq < MAX64)
    }

    /** Every live server has a channel with as many calls waiting as the capacity says. */
    ghost predicate AllBusy()
      requires Valid()
      reads this, contexts
    {
      && serverLoadCapacity > 0 && liveMap != map[]
      && forall a | a in liveMap :: liveMap[a].isChannelInited && liveMap[a].waitCount >= serverLoadCapacity
    }

    lemma ViewsInFields()
      requires Valid() && CountersFit()
      ensures SomeLive() <==> liveMap != map[]
      ensures SomeUnlive() <==> unliveMap != map[]
      ensures addedSet == {} <==> liveMap == map[] && unliveMap == map[]
      ensures SomeLive() && Full() <==> AllBusy()
    {
      if liveMap != map[] {
        var a :| a in liveMap;
        assert Below(LiveView()[a], Entry(MAX32, MAX64));
      }
      if unliveMap != map[] {
        var a :| a in unliveMap;
        assert Below(UnliveView()[a], Entry(1, MAX64));
      }
    }

    lemma LeastInFields(c: ServerContext, last: nat)
      requires Valid() && c.address in liveMap && liveMap[c.address] == c
      requires IsLeast(LiveView()[c.address := Entry(LiveView()[c.address].wait, last)], c.address)
      ensures forall a | a in liveMap && liveMap[a] != c :: GoesBefore(c, last, liveMap[a])
    {
      hide Less;
      var view := LiveView()[c.address := Entry(LiveView()[c.address].wait, last)];
      forall a | a in liveMap && liveMap[a] != c ensures GoesBefore(c, last, liveMap[a]) {
        assert Precedes(c.address, view[c.address], a, view[a]);
      }
    }

    lemma LeastUnliveInFields(c: ServerContext, last: nat)
      requires Valid() && c.address in unliveMap && unliveMap[c.address] == c
      requires IsLeast(UnliveView()[c.address := Entry(UnliveView()[c.address].wait, last)], c.address)
      ensures forall a | a in unliveMap && unliveMap[a] != c :: UnliveBefore(c, last, unliveMap[a])
    {
      hide Less;
      var view := UnliveView()[c.address := Entry(UnliveView()[c.address].wait, last)];
      forall a | a in unliveMap && unliveMap[a] != c ensures UnliveBefore(c, last, unliveMap[a]) {
        assert Precedes(c.address, view[c.address], a, view[a]);
      }
    }

    /** A server that is chosen goes before all others of its map. */
    lemma ChosenInFields(server: ServerContext, last: nat)
      requires Valid() && server in contexts && Chosen(server, last)
      ensures server.address in liveMap ==>
        forall a | a in liveMap && liveMap[a] != server :: GoesBefore(server, last, liveMap[a])
      ensures server.address !in liveMap ==>
        forall a | a in unliveMap && unliveMap[a] != server :: UnliveBefore(server, last, unliveMap[a])
      ensures CountersFit() && server.address !in liveMap ==> liveMap == map[]
    {
      hide IsLeast;
      if CountersFit() { ViewsInFields(); }
      if server.address in liveMap { LeastInFields(server, last); } else { LeastUnliveInFields(server, last); }
    }

    /** The live server with the least wait count, then the least last request, then the least address. */
    method ChooseLive() returns (chosen: ServerContext?, minWaitCount: nat)
      requires Valid()
      ensures chosen == null <==> !SomeLive()
      ensures chosen != null ==> (Full() <==> serverLoadCapacity > 0 && minWaitCount >= serverLoadCapacity)
      ensures chosen != null ==>
        Below(chosen.LiveEntry(), Entry(MAX32, MAX64)) && IsLeast(LiveView(), chosen.address)
        && chosen in contexts && chosen.address in liveMap && liveMap[chosen.address] == chosen
        && minWaitCount == chosen.LiveEntry().wait
    {
      hide Less, InOrder;
      NothingSeen(liveMap.Keys);
      chosen, minWaitCount := null, MAX32;
      var minLast, rest := MAX64, liveMap.Keys;
      ghost var view := LiveView();
      while rest != {}
        invariant rest <= liveMap.Keys && InOrder(liveMap.Keys - rest, rest)
        invariant LeastSoFar(view, liveMap.Keys - rest, if chosen == null then None else Some(chosen.address),
                             Entry(minWaitCount, minLast), Entry(MAX32, MAX64))
        invariant chosen != null ==> chosen.address in liveMap && liveMap[chosen.address] == chosen
        decreases rest
      {
        FirstExists(rest);
        var a :| a in rest && forall b | b in rest && b != a :: Less(a, b);
        var server := liveMap[a];
        ghost var seen := liveMap.Keys - rest;
        NextInOrder(seen, rest, a);
        var waitCount := if server.isChannelInited then server.waitCount else 0;
        if waitCount < minWaitCount || (waitCount == minWaitCount && server.lastRequestSeq < minLast) {
          minWaitCount, minLast, chosen := waitCount, server.lastRequestSeq, server;
        }
        rest := rest - {a};
        assert liveMap.Keys - rest == seen + {a};
      }
    }

    /** The same for unlive servers, those whose last request succeeded coming first. */
    method ChooseUnlive() returns (chosen: ServerContext?)
      requires Valid()
      ensures chosen == null <==> !SomeUnlive()
      ensures chosen != null ==>
        Below(chosen.UnliveEntry(), Entry(1, MAX64)) && IsLeast(UnliveView(), chosen.address)
        && chosen in contexts && chosen.address in unliveMap && unliveMap[chosen.address] == chosen
    {
      hide Less, InOrder;
      NothingSeen(unliveMap.Keys);
      chosen := null;
      var lastRequestSucceed, minLast, rest := false, MAX64, unliveMap.Keys;
      ghost var view := UnliveView();
      while rest != {}
        invariant rest <= unliveMap.Keys && InOrder(unliveMap.Keys - rest, rest)
        invariant LeastSoFar(view, unliveMap.Keys - rest, if chosen == null then None else Some(chosen.address),
                             Entry(if lastRequestSucceed then 0 else 1, minLast), Entry(1, MAX64))
        invariant chosen != null ==> chosen.address in unliveMap && unliveMap[chosen.address] == chosen
        decreases rest
      {
        FirstExists(rest);
        var a :| a in rest && forall b | b in rest && b != a :: Less(a, b);
        var server := unliveMap[a];
        ghost var seen := unliveMap.Keys - rest;
        NextInOrder(seen, rest, a);
        if lastRequestSucceed {
          if server.isLastRequestSucceed {
            if server.lastRequestSeq < minLast { minLast, chosen := server.lastRequestSeq, server; }
          }
        } else {
          if server.isLastRequestSucceed {
            lastRequestSucceed, minLast, chosen := true, server.lastRequestSeq, server;
          } else {
            if server.lastRequestSeq < minLast { minLast, chosen := server.lastRequestSeq, server; }
          }
        }
        rest := rest - {a};
        assert unliveMap.Keys - rest == seen + {a};
      }
    }

    /** The server for the next call. Busy: the live servers are all at their capacity. */
    method ChooseServer() returns (server: ServerContext?, ret: Code)
      requires Valid()
      ensures server != null && server.address in liveMap ==>
        forall a | a in liveMap && liveMap[a] != server :: GoesBefore(server, server.lastRequestSeq, liveMap[a])
      ensures server != null && server.address !in liveMap ==>
        forall a | a in unliveMap && unliveMap[a] != server :: UnliveBefore(server, server.lastRequestSeq, unliveMap[a])
      ensures CountersFit() ==>
        && (ret == Busy <==> AllBusy())
        && (ret == Unavailable <==> addedSet == {})
        && (ret == Unavailable ==> liveMap == map[])
        && (ret == Success && liveMap != map[] ==> server != null && server.address in liveMap)
      ensures ret == Success <==> server != null
      ensures server != null ==> server in contexts && Holds(server) && Chosen(server, server.lastRequestSeq)
      ensures SomeLive() ==>
        if Full() then ret == Busy
        else server != null && server.address in liveMap && liveMap[server.address] == server
             && IsLeast(LiveView(), server.address)
      ensures !SomeLive() && SomeUnlive() ==>
        server != null && server.address in unliveMap && unliveMap[server.address] == server
        && IsLeast(UnliveView(), server.address)
      ensures !SomeLive() && !SomeUnlive() ==> ret == Unavailable
    {
      hide Valid, IsLeast, AtCapacity, SomeBelow, Below, GoesBefore, UnliveBefore, AllBusy, CountersFit;
      server, ret := ScanMaps();
      if server != null {
        LeastItself(server);
        ChosenAtOnce(server);
      }
      if CountersFit() { ViewsInFields(); }
    }

    method ScanMaps() returns (server: ServerContext?, ret: Code)
      requires Valid()
      ensures ret == Success <==> server != null
      ensures server != null ==> server in contexts && Holds(server)
      ensures server != null ==>
        if server.address in liveMap then !Full() && IsLeast(LiveView(), server.address)
        else !SomeLive() && IsLeast(UnliveView(), server.address)
      ensures SomeLive() ==>
        if Full() then ret == Busy
        else server != null && server.address in liveMap && liveMap[server.address] == server
      ensures !SomeLive() && SomeUnlive() ==>
        server != null && server.address in unliveMap && unliveMap[server.address] == server
        && IsLeast(UnliveView(), server.address)
      ensures !SomeLive() && !SomeUnlive() ==> ret == Unavailable
    {
      hide Valid, IsLeast, AtCapacity, SomeBelow, Below;
      NoneLive();
      var minWaitCount;
      server, minWaitCount := ChooseLive();
      if |liveMap| != 0 {
        if serverLoadCapacity > 0 && server != null && minWaitCount >= serverLoadCapacity { return null, Busy; }
      }
      if server != null { return server, Success; }
      server := ChooseUnlive();
      if server != null { NotLive(server.address); }
      ret := if server != null then Success else Unavailable;
    }

    lemma ChosenAtOnce(server: ServerContext)
      requires Valid() && server in contexts && Holds(server)
      requires if server.address in liveMap then !Full() && IsLeast(LiveView(), server.address)
               else !SomeLive() && IsLeast(UnliveView(), server.address)
      ensures Chosen(server, server.lastRequestSeq)
    {
      hide IsLeast, AtCapacity, SomeBelow, Valid;
      OwnEntry(server);
    }

    lemma NotLive(a: string)
      requires Valid() && a in unliveMap
      ensures a !in liveMap
    {
    }

    lemma LeastItself(server: ServerContext)
      requires Valid() && server in contexts && Holds(server)
      requires server.address in liveMap ==> IsLeast(LiveView(), server.address)
      requires server.address !in liveMap ==> IsLeast(UnliveView(), server.address)
      ensures server.address in liveMap ==>
        forall a | a in liveMap && liveMap[a] != server :: GoesBefore(server, server.lastRequestSeq, liveMap[a])
      ensures server.address !in liveMap ==>
        forall a | a in unliveMap && unliveMap[a] != server :: UnliveBefore(server, server.lastRequestSeq, unliveMap[a])
    {
      hide IsLeast;
      OwnEntry(server);
      if server.address in liveMap {
        LeastInFields(server, server.lastRequestSeq);
      } else {
        LeastUnliveInFields(server, server.lastRequestSeq);
      }
    }

    lemma NoneLive()
      requires Valid()
      ensures SomeLive() ==> |liveMap| != 0
    {
    }

    /**
     What ChooseServer would answer now, if the last request of `server` had the number `last`: the least live server
     if there is one, else the least unlive one.
     */
    ghost predicate Chosen(server: ServerContext, last: nat)
      requires Valid() && server in contexts
      reads this, contexts
    {
      var a := server.address;
      Holds(server)
      && (if a in liveMap then !Full() && IsLeast(LiveView()[a := Entry(LiveView()[a].wait, last)], a)
          else !SomeLive() && IsLeast(UnliveView()[a := Entry(UnliveView()[a].wait, last)], a))
    }

    /**
     What CallMethod does up to the call itself; `inits` are the outcomes of setting up a channel, try by try. The
     server it comes back with is the one to choose in the maps as they are left; whatever it has moved to the
     unlive map could not get a channel. `last` is the number of that server's last request before.
     */
    method CallMethod(inits: seq<bool>) returns (server: ServerContext?, ret: Code, ghost last: nat)
      requires Valid() && |inits| == RETRY_COUNT + 1
      modifies this, contexts
      ensures Valid() && contexts == old(contexts) && addedSet == old(addedSet) && liveMap.Keys <= old(liveMap.Keys)
      ensures forall a | a in old(liveMap) && a !in liveMap ::
        a in unliveMap && unliveMap[a] == old(liveMap[a]) && (unliveMap[a].isChannelInited ==> unliveMap[a] == server)
      ensures ret == Success <==> server != null
      ensures server == null ==> requestCount == old(requestCount)
      ensures server == null && old(CountersFit()) ==> GaveUp(old(|liveMap|), inits[RETRY_COUNT], ret)
      ensures server != null ==>
        server in contexts && server.isChannelInited && Chosen(server, last)
        && server.lastRequestSeq == requestCount == old(requestCount) + 1
      ensures server != null && server.address in liveMap ==>
        forall a | a in liveMap && liveMap[a] != server :: GoesBefore(server, last, liveMap[a])
      ensures server != null && server.address !in liveMap ==>
        (forall a | a in unliveMap && unliveMap[a] != server :: UnliveBefore(server, last, unliveMap[a]))
        && (CountersFit() ==> liveMap == map[])
      ensures inits[0] && old(CountersFit() && liveMap != map[] && !AllBusy()) ==>
        server != null && server.address in old(liveMap) && liveMap.Keys == old(liveMap.Keys)
      ensures inits[0] && old(SomeLive() && !Full()) ==>
        server != null && server in contexts && IsLeast(old(LiveView()), server.address)
        && LiveView() == old(LiveView())[server.address := Entry(old(LiveView())[server.address].wait, requestCount)]
    {
      hide Valid, AtCapacity, SomeBelow, Precedes, Chosen;
      if CountersFit() { ViewsInFields(); }
      server, ret := SelectServer(inits);
      last := 0;
      if server != null {
        last := server.lastRequestSeq;
        Count(server);
        ChosenInFields(server, last);
      }
    }

    method Count(server: ServerContext)
      requires Valid() && server in contexts && Chosen(server, server.lastRequestSeq)
      modifies this`requestCount, server`lastRequestSeq
      ensures Valid() && server.lastRequestSeq == requestCount == old(requestCount) + 1
      ensures Chosen(server, old(server.lastRequestSeq))
      ensures server.address in liveMap ==>
        LiveView() == old(LiveView())[server.address := Entry(old(LiveView())[server.address].wait, requestCount)]
    {
      hide IsLeast, AtCapacity, SomeBelow, Valid;
      ghost var a, live, unlive := server.address, LiveView(), UnliveView();
      OwnEntry(server);
      Stamp(server);
      if a in liveMap {
        Restamped(live, a, requestCount, serverLoadCapacity);
      } else {
        Restamped(unlive, a, requestCount, 0);
      }
    }

    lemma OwnEntry(server: ServerContext)
      requires Valid() && server in contexts && Holds(server)
      ensures server.address in liveMap ==>
        LiveView() == LiveView()[server.address := Entry(LiveView()[server.address].wait, server.lastRequestSeq)]
        && LiveView()[server.address].last == server.lastRequestSeq
      ensures server.address !in liveMap ==>
        server.address in unliveMap
        && UnliveView() == UnliveView()[server.address := Entry(UnliveView()[server.address].wait, server.lastRequestSeq)]
        && UnliveView()[server.address].last == server.lastRequestSeq
    {
    }

    method Stamp(server: ServerContext)
      requires Valid() && server in contexts && Holds(server)
      modifies this`requestCount, server`lastRequestSeq
      ensures Valid() && server.lastRequestSeq == requestCount == old(requestCount) + 1
      ensures var a := server.address;
              if a in liveMap
              then LiveView() == old(LiveView())[a := Entry(old(LiveView())[a].wait, requestCount)]
              else LiveView() == old(LiveView())
                   && UnliveView() == old(UnliveView())[a := Entry(old(UnliveView())[a].wait, requestCount)]
    {
      hide Valid;
      CountOne();
      SetLast(server);
    }

    method SetLast(server: ServerContext)
      requires Valid() && server in contexts && Holds(server)
      modifies server`lastRequestSeq
      ensures Valid() && server.lastRequestSeq == requestCount
      ensures var a := server.address;
              if a in liveMap
              then LiveView() == old(LiveView())[a := Entry(old(LiveView())[a].wait, requestCount)]
              else a in unliveMap && LiveView() == old(LiveView())
                   && UnliveView() == old(UnliveView())[a := Entry(old(UnliveView())[a].wait, requestCount)]
    {
      assert forall b | b in liveMap :: liveMap[b] == server <==> b == server.address;
      assert forall b | b in unliveMap :: unliveMap[b] == server <==> b == server.address;
      server.lastRequestSeq := requestCount;
    }

    method CountOne()
      requires Valid()
      modifies this`requestCount
      ensures Valid() && requestCount == old(requestCount) + 1
      ensures LiveView() == old(LiveView()) && UnliveView() == old(UnliveView())
    {
      requestCount := requestCount + 1;
    }

    /** The retry loop: a server without a channel goes to the unlive map, and another one is chosen. */
    method SelectServer(inits: seq<bool>) returns (server: ServerContext?, ret: Code)
      requires Valid() && |inits| == RETRY_COUNT + 1
      modifies this`liveMap, this`unliveMap, contexts
      ensures Valid() && liveMap.Keys <= old(liveMap.Keys)
      ensures forall a | a in old(liveMap) && a !in liveMap ::
        a in unliveMap && unliveMap[a] == old(liveMap[a]) && (unliveMap[a].isChannelInited ==> unliveMap[a] == server)
      ensures ret == Success <==> server != null
      ensures server != null ==>
        server in contexts && server.isChannelInited && Chosen(server, server.lastRequestSeq)
      ensures inits[0] && old(SomeLive() && !Full()) ==>
        server != null && IsLeast(old(LiveView()), server.address) && LiveView() == old(LiveView())
      ensures server == null && old(CountersFit()) ==> GaveUp(old(|liveMap|), inits[RETRY_COUNT], ret)
    {
      hide AllBusy, CountersFit, Chosen, IsLeast, SomeLive, Full, Valid;
      var retryCount := 0;
      while true
        invariant 0 <= retryCount <= RETRY_COUNT && Valid() && liveMap.Keys <= old(liveMap.Keys)
        invariant retryCount == 0 ==> unchanged(this) && (forall c | c in contexts :: unchanged(c))
        invariant retryCount > 0 ==> !(inits[0] && old(SomeLive() && !Full()))
        invariant forall a | a in old(liveMap) && a !in liveMap ::
          a in unliveMap && unliveMap[a] == old(liveMap[a]) && !unliveMap[a].isChannelInited
        invariant forall a | a in liveMap :: liveMap[a] == old(liveMap[a])
        invariant old(CountersFit()) ==> CountersFit() && (AllBusy() || |liveMap| == Fewer(old(|liveMap|), retryCount))
        decreases RETRY_COUNT - retryCount
      {
        server, ret := TryServer(inits[retryCount]);
        if ret == Success || retryCount >= RETRY_COUNT { break; }
        retryCount := retryCount + 1;
      }
    }

    static function Fewer(live: nat, tries: nat): nat {
      if live <= tries then 0 else live - tries
    }

    /** A call without a server: all live servers are busy, or each try has moved one of them away, while there was one. */
    ghost predicate GaveUp(live: nat, init: bool, ret: Code)
      requires Valid()
      reads this, contexts
    {
      if ret == Busy then AllBusy()
      else ret == Unavailable && |liveMap| == (if live <= 4 then 0 else live - 4) && (!init || addedSet == {})
    }

    /**
     What a try comes to when the counters fit: Busy if all live servers are, with nothing changed; otherwise a
     failure moves one live server away if there is one, and there is no failure without a channel that cannot be set up.
     */
    ghost predicate Tried(live: nat, init: bool, ret: Code)
      requires Valid()
      reads this, contexts
    {
      && CountersFit()
      && (ret == Busy ==> AllBusy())
      && (ret == Unavailable ==> |liveMap| == if live == 0 then 0 else live - 1)
      && (ret == Unavailable ==> !init || addedSet == {})
    }

    method TryServer(init: bool) returns (server: ServerContext?, ret: Code)
      requires Valid()
      modifies this`liveMap, this`unliveMap, contexts
      ensures Valid() && OnlyGivenUp()
      ensures ret == Success <==> server != null
      ensures server != null ==>
        server in contexts && server.isChannelInited && Chosen(server, server.lastRequestSeq)
        && liveMap == old(liveMap) && unliveMap == old(unliveMap)
      ensures forall c | c in contexts && c != server :: c.isChannelInited == old(c.isChannelInited)
      ensures init && old(SomeLive() && !Full()) ==>
        server != null && IsLeast(old(LiveView()), server.address) && LiveView() == old(LiveView())
      ensures old(CountersFit()) ==> Tried(old(|liveMap|), init, ret)
      ensures old(CountersFit() && AllBusy()) ==> ret == Busy
    {
      hide IsLeast, AtCapacity, SomeBelow, Valid, AllBusy, CountersFit, GoesBefore, UnliveBefore, Chosen;
      hide SomeLive, SomeUnlive, Full, Holds, LiveView, UnliveView;
      server, ret := ChooseForTry();
      if ret == Success { server, ret := UseOrGiveUp(server, init); }
    }

    /** The chosen server, if its channel is there or can be set up. */
    method UseOrGiveUp(chosen: ServerContext, init: bool) returns (server: ServerContext?, ret: Code)
      requires Valid() && chosen in contexts && Holds(chosen) && Chosen(chosen, chosen.lastRequestSeq)
      modifies this`liveMap, this`unliveMap, contexts`isInLiveMap, chosen`isChannelInited, chosen`waitCount
      ensures Valid() && OnlyGivenUp()
      ensures if server != null then server == chosen && ret == Success else ret == Unavailable && !init
      ensures server != null ==>
        server.isChannelInited && Chosen(server, server.lastRequestSeq)
        && liveMap == old(liveMap) && unliveMap == old(unliveMap) && LiveView() == old(LiveView())
      ensures server == null ==> chosen.isChannelInited == old(chosen.isChannelInited)
      ensures old(CountersFit()) && (old(liveMap) != map[] ==> chosen.address in old(liveMap)) ==>
        Tried(old(|liveMap|), init, ret)
    {
      hide IsLeast, AtCapacity, SomeBelow, Valid, AllBusy, CountersFit, Chosen, LiveView, UnliveView, Holds;
      ghost var live := liveMap;
      var ok := InitOrGiveUp(chosen, init);
      if ok { return chosen, Success; }
      OneLess(live, chosen.address);
      return null, Unavailable;
    }

    /** What a try needs of ChooseServer. */
    method ChooseForTry() returns (server: ServerContext?, ret: Code)
      requires Valid()
      ensures ret == Success <==> server != null
      ensures server != null ==> server in contexts && Holds(server) && Chosen(server, server.lastRequestSeq)
      ensures SomeLive() && !Full() ==> server != null && IsLeast(LiveView(), server.address)
      ensures CountersFit() ==>
        (ret == Busy <==> AllBusy()) && (ret == Unavailable <==> addedSet == {}) && (ret == Unavailable ==> liveMap == map[])
        && (server != null && liveMap != map[] ==> server.address in liveMap)
    {
      hide *;
      server, ret := ChooseServer();
    }

    /** Servers have at most left the live map for the unlive one, and these have no channel. */
    twostate predicate OnlyGivenUp()
      reads this, contexts, liveMap.Values, unliveMap.Values
    {
      && liveMap.Keys <= old(liveMap.Keys)
      && (forall a | a in liveMap :: liveMap[a] == old(liveMap[a]))
      && (forall a | a in old(unliveMap) :: a in unliveMap && unliveMap[a] == old(unliveMap[a]))
      && (forall a | a in old(liveMap) && a !in liveMap ::
            a in unliveMap && unliveMap[a] == old(liveMap[a]) && !unliveMap[a].isChannelInited)
    }

    lemma OneLess(live: ServerMap, a: string)
      ensures |live - {a}| == if a in live then |live| - 1 else |live|
    {
      assert (live - {a}).Keys == live.Keys - {a};
    }

    /** The server's channel is there or is set up; or else it is given up. */
    method InitOrGiveUp(server: ServerContext, init: bool) returns (ok: bool)
      requires Valid() && server in contexts && Holds(server)
      modifies this`liveMap, this`unliveMap, contexts`isInLiveMap, server`isChannelInited, server`waitCount
      ensures Valid() && (old(CountersFit()) ==> CountersFit())
      ensures ok ==>
        server.isChannelInited && liveMap == old(liveMap) && unliveMap == old(unliveMap)
        && LiveView() == old(LiveView()) && UnliveView() == old(UnliveView())
      ensures ok && old(Chosen(server, server.lastRequestSeq)) ==> Chosen(server, server.lastRequestSeq)
      ensures !ok ==>
        !init && liveMap == old(liveMap) - {server.address} && server.isChannelInited == old(server.isChannelInited)
      ensures OnlyGivenUp()
    {
      hide Valid, IsLeast, AtCapacity, SomeBelow;
      ok := InitChannel(server, init);
      if !ok { GiveUp(server); }
    }

    /** A server without a channel goes to the unlive map, if it is not there yet. */
    method GiveUp(server: ServerContext)
      requires Valid() && server in contexts && Holds(server) && !server.isChannelInited
      modifies this`liveMap, this`unliveMap, contexts`isInLiveMap
      ensures Valid() && OnlyGivenUp()
      ensures liveMap == old(liveMap) - {server.address}
      ensures old(CountersFit()) ==> CountersFit()
    {
      MoveToUnlive(server.address);
    }

    method InitChannel(server: ServerContext, ok: bool) returns (inited: bool)
      requires Valid() && server in contexts
      modifies server`isChannelInited, server`waitCount
      ensures Valid() && inited == (old(server.isChannelInited) || ok) && server.isChannelInited == inited
      ensures old(CountersFit()) ==> CountersFit()
      ensures LiveView() == old(LiveView()) && UnliveView() == old(UnliveView())
    {
      if server.isChannelInited { return true; }
      if !ok { return false; }
      server.waitCount, server.isChannelInited := 0, true;
      return true;
    }
  }

  predicate Below(x: Entry, y: Entry) {
    x.wait < y.wait || (x.wait == y.wait && x.last < y.last)
  }

  ghost predicate SomeBelow(view: map<string, Entry>, limit: Entry) {
    exists a :: a in view && Below(view[a], limit)
  }

  predicate AtCapacity(view: map<string, Entry>, capacity: nat) {
    capacity > 0 && forall a | a in view :: view[a].wait >= capacity
  }

  /** The number of a last request says nothing about how busy servers are. */
  lemma Restamped(view: map<string, Entry>, a: string, last: nat, capacity: nat)
    requires a in view
    ensures var next := view[a := Entry(view[a].wait, last)];
            next.Keys == view.Keys && (AtCapacity(next, capacity) <==> AtCapacity(view, capacity))
            && next[a := Entry(next[a].wait, view[a].last)] == view
  {
    var next := view[a := Entry(view[a].wait, last)];
    assert next.Keys == view.Keys;
    assert view == next[a := view[a]];
    assert forall b | b in view :: next[b].wait == view[b].wait;
  }

  predicate InOrder(seen: set<string>, rest: set<string>) {
    forall a, b | a in seen && b in rest :: Less(a, b)
  }

  lemma NothingSeen(keys: set<string>)
    ensures InOrder(keys - keys, keys)
  {
  }

  lemma NextInOrder(seen: set<string>, rest: set<string>, a: string)
    requires InOrder(seen, rest) && a in rest && forall b | b in rest && b != a :: Less(a, b)
    ensures InOrder(seen + {a}, rest - {a})
    ensures forall b | b in seen :: Less(b, a)
  {
  }

  /** What the scan knows of the servers it has seen: the least one, if any is below the limit it starts with. */
  predicate LeastSoFar(view: map<string, Entry>, seen: set<string>, chosen: Option<string>, least: Entry, limit: Entry) {
    match chosen
    case None => least == limit && forall a | a in seen && a in view :: !Below(view[a], limit)
    case Some(c) =>
      && c in seen && c in view && view[c] == least && Below(least, limit)
      && forall a | a in seen && a in view && a != c :: Precedes(c, least, a, view[a])
  }

  const ALL_UP: seq<bool> := [true, true, true, true]

  /** A channel with one address, whose server gets a call. */
  method OneCall(a: string) returns (ch: Channel, first: ServerContext)
    requires a != ""
    ensures ch.Valid() && fresh(ch) && fresh(ch.contexts) && ch.addedSet == {a} && ch.liveMap == map[a := first]
    ensures first in ch.contexts && first.address == a && first.lastRequestSeq == 1 && first.isInLiveMap
  {
    ch := new Channel(0);
    ch.OnAddressAdded([a]);
    assert a in ch.addedSet && ch.liveMap.Keys == {a} && ch.unliveMap == map[];
    assert ch.LiveView()[a] == Entry(0, 0);
    var server, ret;
    ghost var last;
    server, ret, last := ch.CallMethod(ALL_UP);
    first := server;
    assert ch.liveMap.Keys == {a};
  }

  /**
   A late failure hits the successor: after its address was removed and added again, the end of the call moves a
   context that has never had a call.
   */
  method SuccessorMoved(a: string) returns (ch: Channel, first: ServerContext, second: ServerContext)
    requires a != ""
    ensures ch.Valid() && first != second && first.lastRequestSeq == 1 && second.lastRequestSeq == 0
    ensures a in ch.unliveMap && ch.unliveMap[a] == second
  {
    ch, first := OneCall(a);
    ch.OnAddressRemoved([a]);
    ch.OnAddressAdded([a]);
    second := ch.liveMap[a];
    ch.CallDone(first, true);
  }

  /** So it does if the removal comes after the flag was read, when the call's own context was still in place. */
  method SuccessorMovedBetween(a: string) returns (ch: Channel, first: ServerContext, second: ServerContext)
    requires a != ""
    ensures ch.Valid() && first != second && first.lastRequestSeq == 1 && second.lastRequestSeq == 0
    ensures a in ch.unliveMap && ch.unliveMap[a] == second
  {
    ch, first := OneCall(a);
    var move := ch.RecordOutcome(first, true);
    assert move && !first.isRemoved;
    ch.OnAddressRemoved([a]);
    ch.OnAddressAdded([a]);
    second := ch.liveMap[a];
    if move { ch.MoveFailed(first); }
  }

  // ---- Taking turns ----

  predicate EquallyBusy(view: map<string, Entry>) {
    forall a, b | a in view && b in view :: view[a].wait == view[b].wait
  }

  /** Call number `count` went to `pick`: it is the least, and its last request is now this one. */
  predicate Turn(view: map<string, Entry>, pick: string, count: nat, next: map<string, Entry>) {
    && EquallyBusy(view) && IsLeast(view, pick) && next.Keys == view.Keys
    && forall a | a in view :: next[a].last == if a == pick then count else view[a].last
  }

  ghost predicate Turns(views: seq<map<string, Entry>>, picks: seq<string>, start: nat) {
    && |views| == |picks| + 1 && (forall a | a in views[0] :: views[0][a].last <= start)
    && forall i | 0 <= i < |picks| :: Turn(views[i], picks[i], start + i + 1, views[i + 1])
  }

  lemma {:induction false} NumbersGrow(views: seq<map<string, Entry>>, picks: seq<string>, start: nat, i: nat)
    requires Turns(views, picks, start) && i <= |picks|
    ensures views[i].Keys == views[0].Keys
    ensures forall a | a in views[i] :: views[i][a].last <= start + i
  {
    if i > 0 {
      NumbersGrow(views, picks, start, i - 1);
      assert Turn(views[i - 1], picks[i - 1], start + i, views[i]);
    }
  }

  /** Those that had a turn since call i are the ones with a number behind it. */
  lemma {:induction false} TurnsSince(views: seq<map<string, Entry>>, picks: seq<string>, start: nat, i: nat, j: nat)
    requires Turns(views, picks, start) && i <= j <= |picks|
    ensures views[j].Keys == views[0].Keys
    ensures forall a | a in views[j] :: a in picks[i..j] <==> views[j][a].last > start + i
    decreases j
  {
    if i == j {
      NumbersGrow(views, picks, start, i);
    } else {
      TurnsSince(views, picks, start, i, j - 1);
      assert Turn(views[j - 1], picks[j - 1], start + j, views[j]);
      assert picks[i..j] == picks[i..j - 1] + [picks[j - 1]];
    }
  }

  lemma {:induction false} FewElements(s: seq<string>)
    ensures |set a | a in s| <= |s|
  {
    if |s| > 0 {
      FewElements(s[1..]);
      assert s == [s[0]] + s[1..];
      assert (set a | a in s) == (set a | a in s[1..]) + {s[0]};
    }
  }

  /** Equally busy servers take turns: as many calls in a row as there are servers go to different servers. */
  lemma RoundRobin(views: seq<map<string, Entry>>, picks: seq<string>, start: nat, i: nat, j: nat)
    requires Turns(views, picks, start) && i < j < |picks| && j < i + |views[0]|
    ensures picks[i] != picks[j]
  {
    hide Turn, Precedes;
    TurnsSince(views, picks, start, i, j);
    var recent := set a | a in picks[i..j];
    FewElements(picks[i..j]);
    assert |views[j]| == |views[j].Keys| == |views[0].Keys| == |views[0]|;
    if views[j].Keys <= recent {
      Cardinality(views[j].Keys, recent);
      assert false;
    }
    var a :| a in views[j] && a !in recent;
    LeastIsEarlier(views, picks, start, j, a);
    assert picks[i] == picks[i..j][0];
  }

  lemma {:induction false} Cardinality(a: set<string>, b: set<string>)
    requires a <= b
    ensures |a| <= |b|
  {
    if a != {} {
      var x :| x in a;
      Cardinality(a - {x}, b - {x});
    }
  }

  lemma LeastIsEarlier(views: seq<map<string, Entry>>, picks: seq<string>, start: nat, j: nat, a: string)
    requires Turns(views, picks, start) && j < |picks| && a in views[j]
    ensures picks[j] in views[j] && views[j][picks[j]].last <= views[j][a].last
  {
    assert Turn(views[j], picks[j], start + j + 1, views[j + 1]);
  }

  /** Views of the same servers, as busy as before. */
  lemma StillBusy(view: map<string, Entry>, a: string, last: nat)
    requires a in view && EquallyBusy(view)
    ensures EquallyBusy(view[a := Entry(view[a].wait, last)]) && view[a := Entry(view[a].wait, last)].Keys == view.Keys
  {
    assert view[a := Entry(view[a].wait, last)].Keys == view.Keys;
  }

  /**
   Calls that find all live servers equally busy, below capacity, and able to set up a channel, as when each ends
   before the next begins: any as many in a row as there are live servers go to different ones.
   */
  method CallsInTurn(ch: Channel, n: nat) returns (picks: seq<string>)
    requires ch.Valid() && ReadyForCall(ch)
    modifies ch, ch.contexts
    ensures |picks| == n && ch.Valid() && ch.requestCount == old(ch.requestCount) + n
    ensures forall i | 0 <= i < n :: picks[i] in old(ch.liveMap)
    ensures forall i, j | 0 <= i < j < n && j < i + |old(ch.liveMap)| :: picks[i] != picks[j]
  {
    hide Turns, Turn, ReadyForCall, Precedes;
    ghost var views;
    picks, views := Calls(ch, n);
    AllDifferent(views, picks, old(ch.requestCount), |old(ch.liveMap)|);
  }

  /** n calls, one after another, and the views before, between and after them. */
  method Calls(ch: Channel, n: nat) returns (picks: seq<string>, ghost views: seq<map<string, Entry>>)
    requires ch.Valid() && ReadyForCall(ch)
    modifies ch, ch.contexts
    ensures ch.Valid() && ReadyForCall(ch) && ch.contexts == old(ch.contexts)
    ensures |picks| == n && ch.requestCount == old(ch.requestCount) + n
    ensures |views| == n + 1 && Turns(views, picks, old(ch.requestCount))
    ensures views[0] == old(ch.LiveView()) && views[n] == ch.LiveView() && ch.LiveView().Keys == old(ch.liveMap.Keys)
    ensures forall i | 0 <= i < n :: picks[i] in old(ch.liveMap)
  {
    hide Turns, ReadyForCall, Channel.Valid;
    if n == 0 {
      NoTurnYet(ch);
      picks, views := [], [ch.LiveView()];
    } else {
      picks, views := Calls(ch, n - 1);
      picks, views := TakeTurn(ch, picks, views, old(ch.requestCount));
    }
  }

  lemma AllDifferent(views: seq<map<string, Entry>>, picks: seq<string>, start: nat, servers: nat)
    requires Turns(views, picks, start) && servers == |views[0].Keys|
    ensures forall i, j | 0 <= i < j < |picks| && j < i + servers :: picks[i] != picks[j]
  {
    hide Turns;
    forall i, j | 0 <= i < j < |picks| && j < i + servers ensures picks[i] != picks[j] {
      RoundRobin(views, picks, start, i, j);
    }
  }

  /** One call more. */
  method TakeTurn(ch: Channel, picks: seq<string>, ghost views: seq<map<string, Entry>>, ghost start: nat)
      returns (picks': seq<string>, ghost views': seq<map<string, Entry>>)
    requires ch.Valid() && ReadyForCall(ch) && ch.requestCount == start + |picks|
    requires |views| == |picks| + 1 && Turns(views, picks, start) && views[|picks|] == ch.LiveView()
    modifies ch, ch.contexts
    ensures ch.Valid() && ReadyForCall(ch) && ch.contexts == old(ch.contexts)
    ensures ch.requestCount == start + |picks'| == old(ch.requestCount) + 1 && picks <= picks'
    ensures |views'| == |picks'| + 1 && Turns(views', picks', start) && views'[0] == views[0]
    ensures views'[|picks'|] == ch.LiveView() && ch.LiveView().Keys == old(ch.LiveView()).Keys
    ensures picks'[|picks|] in old(ch.LiveView())
  {
    hide Turns, ReadyForCall, Turn;
    var pick := OneTurn(ch, views[|picks|]);
    TurnsFurther(views, picks, start, pick, ch.LiveView());
    picks', views' := picks + [pick], views + [ch.LiveView()];
  }

  lemma NoTurnYet(ch: Channel)
    requires ch.Valid()
    ensures Turns([ch.LiveView()], [], ch.requestCount)
  {
  }

  /** All live servers are equally busy, and the next call will get one of them. */
  ghost predicate ReadyForCall(ch: Channel)
    requires ch.Valid()
    reads ch, ch.contexts
  {
    ch.liveMap != map[] && EquallyBusy(ch.LiveView()) && !ch.Full() && forall a | a in ch.liveMap :: ch.LiveView()[a].wait < MAX32
  }

  method OneTurn(ch: Channel, ghost view: map<string, Entry>) returns (pick: string)
    requires ch.Valid() && ReadyForCall(ch) && view == ch.LiveView()
    modifies ch, ch.contexts
    ensures ch.Valid() && ReadyForCall(ch) && ch.contexts == old(ch.contexts)
    ensures ch.requestCount == old(ch.requestCount) + 1
    ensures Turn(view, pick, ch.requestCount, ch.LiveView()) && ch.LiveView().Keys == view.Keys && pick in view
  {
    var a :| a in ch.liveMap;
    assert Below(ch.LiveView()[a], Entry(MAX32, MAX64));
    var server, ret;
    ghost var last;
    server, ret, last := ch.CallMethod(ALL_UP);
    pick := server.address;
    StillBusy(view, pick, ch.requestCount);
  }

  lemma TurnsFurther(views: seq<map<string, Entry>>, picks: seq<string>, start: nat, pick: string, next: map<string, Entry>)
    requires Turns(views, picks, start) && Turn(views[|picks|], pick, start + |picks| + 1, next)
    ensures Turns(views + [next], picks + [pick], start) && (views + [next])[0] == views[0]
    ensures |views + [next]| == |picks + [pick]| + 1 && (views + [next])[|picks + [pick]|] == next
  {
    hide Turn;
    var vs, ps := views + [next], picks + [pick];
    forall i | 0 <= i < |ps| ensures Turn(vs[i], ps[i], start + i + 1, vs[i + 1]) {
      if i < |picks| { assert Turn(views[i], picks[i], start + i + 1, views[i + 1]); }
    }
  }
}
