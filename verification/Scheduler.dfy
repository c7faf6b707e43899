/** cs/scheduler.c: the transmit queue, the stop slot and the cache, driven by the timer tick. */
module Scheduler {
  import opened Wrappers
  import opened Dcc
  import opened Packets
  import opened Rings
  import opened Cache
  import P = ProbeTable
  import S = Signal

  const TX_QUEUE_LEN: nat := 20

  /** The scheduler's statics with the heap: what is queued, the stop packet being repeated, the
      cache, the idle packet, and every packet destroyed so far. */
  datatype State = State(
    queue: seq<Packet>, stop: Option<Packet>, cache: CacheState, idle: Packet, freed: seq<Packet>)
  {
    /** What every reachable state satisfies. The last clause is the key to stop safety. */
    ghost predicate Valid() {
      && |queue| <= TX_QUEUE_LEN && (forall p | p in queue :: p.Sendable())
      && cache.Valid()
      && idle.bytes == IDLE
      && (stop.Some? ==> IsBroadcastStop(stop.value.bytes) && cache.ring == [] && P.Values(cache.table) == [])
    }

    /** The packets the scheduler answers for, each as often as it holds or has freed it. */
    ghost function Held(): multiset<Packet> {
      multiset(queue) + P.ToBag(stop) + multiset(P.Values(cache.table)) + multiset(freed)
    }

    function AddPacket(p: Packet): State {
      this.(queue := queue + [p])
    }

    function ClearCache(): State {
      this.(cache := cache.Clear(), freed := freed + P.Values(cache.table))
    }

    /** The interrupt: the state after it and the packet it sent. */
    function Tick(): (r: (State, Packet))
      requires Valid()
      ensures r.1.Sendable()
    {
      if queue != [] then (Accept(), queue[0]) else Refresh()
    }

    /** The tick with something queued. */
    function Accept(): State
      requires Valid() && queue != []
    {
      var p := queue[0];
      var released := freed + (if stop.Some? then [stop.value] else []);
      if IsBroadcastStop(p.bytes) then
        State(queue[1..], Some(p), cache.Clear(), idle, released + P.Values(cache.table))
      else
        State(queue[1..], None, cache.Update(p), idle, released + cache.Replaced(p))
    }

    /** The tick with an empty queue: the stop packet if there is one, else the next cached packet,
        else idle. */
    function Refresh(): (State, Packet)
      requires Valid()
    {
      if stop.Some? then (this, stop.value)
      else
        var (c, next) := cache.Next();
        (this.(cache := c), if next.Some? then next.value else idle)
    }
  }

  datatype Event = Add(p: Packet) | Tick | Clear

  /** Events the environment may raise: the main loop never overfills the queue. */
  ghost predicate Enabled(s: State, e: Event) {
    e.Add? ==> |s.queue| < TX_QUEUE_LEN && e.p.Sendable()
  }

  /** A packet can be added if it has 3 to 15 bytes and fewer than 20 are queued; the other events can
      happen at any time. */
  lemma EnabledExact(s: State, e: Event)
    ensures Enabled(s, e) <==> (e.Add? ==> |s.queue| < 20 && 3 <= |e.p.bytes| <= 15)
  {
  }

  function Step(s: State, e: Event): State
    requires s.Valid()
  {
    match e
    case Add(p) => s.AddPacket(p)
    case Tick => s.Tick().0
    case Clear => s.ClearCache()
  }

  /** The packet an event puts on the rails, if it is a tick. */
  function Output(s: State, e: Event): seq<Packet>
    requires s.Valid()
  {
    if e.Tick? then [s.Tick().1] else []
  }

  lemma StepKeepsValid(s: State, e: Event)
    requires s.Valid() && Enabled(s, e)
    ensures Step(s, e).Valid()
  {
    match e
    case Add(p) =>
    case Tick =>
      if s.queue != [] {
        assert s.queue[0] in s.queue;
        ClearKeepsValid(s.cache);
        UpdateKeepsValid(s.cache, s.queue[0]);
      } else {
        NextKeepsValid(s.cache);
      }
    case Clear =>
      ClearKeepsValid(s.cache);
  }

  // ----- runs

  ghost predicate Legal(s: State, es: seq<Event>)
    requires s.Valid()
    decreases |es|
  {
    es != [] ==> Enabled(s, es[0]) && (StepKeepsValid(s, es[0]); Legal(Step(s, es[0]), es[1..]))
  }

  /** A run that goes on after a timer interrupt. */
  ghost predicate LegalAfterTick(s: State, after: seq<Event>): (legal: bool)
    requires s.Valid()
    ensures Step(s, Tick).Valid()
    ensures legal ==> Legal(Step(s, Tick), after)
  {
    StepKeepsValid(s, Tick);
    Legal(Step(s, Tick), after)
  }

  /** The state after a run. */
  ghost function Run(s: State, es: seq<Event>): (r: State)
    requires s.Valid() && Legal(s, es)
    ensures r.Valid()
    decreases |es|
  {
    if es == [] then s else (StepKeepsValid(s, es[0]); Run(Step(s, es[0]), es[1..]))
  }

  /** Every packet put on the rails during a run, in order. */
  ghost function Sent(s: State, es: seq<Event>): seq<Packet>
    requires s.Valid() && Legal(s, es)
    decreases |es|
  {
    if es == [] then [] else
    StepKeepsValid(s, es[0]);
    Output(s, es[0]) + Sent(Step(s, es[0]), es[1..])
  }

  /** The packets handed over during a run. */
  function Added(es: seq<Event>): seq<Packet> {
    if es == [] then [] else (if es[0].Add? then [es[0].p] else []) + Added(es[1..])
  }

  /** How often the timer fires during a run. */
  function TickCount(es: seq<Event>): nat {
    if es == [] then 0 else (if es[0].Tick? then 1 else 0) + TickCount(es[1..])
  }

  /** Every tick puts exactly one packet on the rails. */
  lemma {:induction false} OnePacketPerTick(s: State, es: seq<Event>)
    requires s.Valid() && Legal(s, es)
    ensures |Sent(s, es)| == TickCount(es)
    decreases |es|
  {
    if es == [] {
    } else {
      StepKeepsValid(s, es[0]);
      hide State.Valid, Step;
      OnePacketPerTick(Step(s, es[0]), es[1..]);
    }
  }

  /** The packets taken from the queue during a run. */
  ghost function Popped(s: State, es: seq<Event>): seq<Packet>
    requires s.Valid() && Legal(s, es)
    decreases |es|
  {
    if es == [] then [] else
    StepKeepsValid(s, es[0]);
    (if es[0].Tick? && s.queue != [] then [s.queue[0]] else []) + Popped(Step(s, es[0]), es[1..])
  }

  lemma {:induction false} LegalConcat(s: State, es: seq<Event>, fs: seq<Event>)
    requires s.Valid() && Legal(s, es)
    ensures Legal(s, es + fs) <==> Legal(Run(s, es), fs)
    decreases |es|
  {
    if es == [] {
      assert es + fs == fs;
    } else {
      StepKeepsValid(s, es[0]);
      LegalConcat(Step(s, es[0]), es[1..], fs);
      assert (es + fs)[1..] == es[1..] + fs;
    }
  }

  lemma {:induction false} RunConcat(s: State, es: seq<Event>, fs: seq<Event>)
    requires s.Valid() && Legal(s, es) && Legal(Run(s, es), fs)
    ensures Legal(s, es + fs)
    ensures Run(s, es + fs) == Run(Run(s, es), fs)
    ensures Sent(s, es + fs) == Sent(s, es) + Sent(Run(s, es), fs)
    decreases |es|
  {
    hide Step, Output;
    LegalConcat(s, es, fs);
    if es == [] {
      assert es + fs == fs;
    } else {
      StepKeepsValid(s, es[0]);
      RunConcat(Step(s, es[0]), es[1..], fs);
      assert (es + fs)[1..] == es[1..] + fs;
    }
  }

  // ----- ownership

  /** One event moves packets about or destroys them, and never loses or duplicates one. */
  lemma StepConserves(s: State, e: Event)
    requires s.Valid() && Enabled(s, e)
    ensures Step(s, e).Held() == s.Held() + (if e.Add? then multiset{e.p} else multiset{})
  {
    match e
    case Add(p) =>
    case Clear =>
      ClearKeepsValid(s.cache);
    case Tick =>
      if s.queue != [] {
        AcceptConserves(s);
      } else {
        hide CacheState.Valid;
      }
  }

  lemma AcceptConserves(s: State)
    requires s.Valid() && s.queue != []
    ensures s.Accept().Held() == s.Held()
  {
    var p := s.queue[0];
    assert p in s.queue && |s.cache.table| == ADDR_SIZE;
    hide CacheState.Valid, CacheState.Update, CacheState.Replaced, CacheState.Clear, P.Values, IsBroadcastStop;
    var stops := if s.stop.Some? then [s.stop.value] else [];
    var values := P.Values(s.cache.table);
    var t := s.Accept();
    var rest, freed, now := multiset(s.queue[1..]), multiset(s.freed), multiset(P.Values(t.cache.table));
    var replaced := multiset(s.cache.Replaced(p));
    assert multiset(stops) == P.ToBag(s.stop);
    HeadApart(s.queue);
    BagsOfAccept(multiset(s.queue), rest, p, multiset(stops), multiset(values), now, freed, replaced);
    if IsBroadcastStop(p.bytes) {
      ClearKeepsValid(s.cache);
      FreedApart(s.freed, stops, values);
      assert t.Held() == rest + multiset{p} + multiset{} + (freed + multiset(stops) + multiset(values));
    } else {
      UpdateConserves(s.cache, p);
      FreedApart(s.freed, stops, s.cache.Replaced(p));
      assert t.Held() == rest + multiset{} + now + (freed + multiset(stops) + replaced);
    }
  }

  /** The sums of the two ways of accepting a packet. */
  lemma BagsOfAccept(queue: multiset<Packet>, rest: multiset<Packet>, p: Packet,
                     stop: multiset<Packet>, values: multiset<Packet>, values': multiset<Packet>,
                     freed: multiset<Packet>, replaced: multiset<Packet>)
    requires queue == multiset{p} + rest
    ensures rest + multiset{p} + multiset{} + (freed + stop + values) == queue + stop + values + freed
    ensures values' + replaced == values + multiset{p} ==>
      rest + multiset{} + values' + (freed + stop + replaced) == queue + stop + values + freed
  {
    if values' + replaced == values + multiset{p} {
      assert rest + (values' + replaced) + freed + stop == rest + (values + multiset{p}) + freed + stop;
      assert rest + multiset{} + values' + (freed + stop + replaced) == rest + (values' + replaced) + freed + stop;
    }
  }

  lemma HeadApart(q: seq<Packet>)
    requires q != []
    ensures multiset(q) == multiset{q[0]} + multiset(q[1..])
  {
    assert q == [q[0]] + q[1..];
  }

  lemma FreedApart(a: seq<Packet>, b: seq<Packet>, c: seq<Packet>)
    ensures multiset(a + b + c) == multiset(a) + multiset(b) + multiset(c)
  {
  }

  lemma UpdateConserves(c: CacheState, p: Packet)
    requires c.Valid() && p.Sendable()
    ensures multiset(P.Values(c.Update(p).table)) + multiset(c.Replaced(p))
      == multiset(P.Values(c.table)) + multiset{p}
  {
    var i := P.FindEntry(c.table, p.Address());
    P.ValuesAfterStore(c.table, i, P.Entry(p.Address(), Some(p)));
    assert multiset(c.Replaced(p)) == P.ToBag(c.table[i].v);
  }

  /** Over every run each packet ever added is in exactly one place: the transmit queue, the stop
      slot, one slot of the table, or the heap. */
  lemma {:induction false} RunConserves(s: State, es: seq<Event>)
    requires s.Valid() && Legal(s, es)
    ensures Run(s, es).Held() == s.Held() + multiset(Added(es))
    decreases |es|
  {
    if es == [] {
    } else {
      StepKeepsValid(s, es[0]);
      StepConserves(s, es[0]);
      RunConserves(Step(s, es[0]), es[1..]);
    }
  }

  // ----- the module

  method CreateIdle(id: nat) returns (idle: Packet)
    ensures idle == Packet(id, IDLE)
  {
    var packet := new DccPacket.Baseline();
    packet.SetIdle();
    idle := Packet(id, packet.bytes[..]);
  }

  class SchedulerModule {
    const txQueue: Ring<Packet>
    const cache: CacheModule
    const signal: S.SignalModule
    const heap: Allocator
    const idle: Packet
    var stop: Option<Packet>

    ghost predicate Valid()
      reads this, txQueue, txQueue.buf, cache.addresses, cache.addresses.buf, cache.packets, cache.packets.entries,
        signal, signal.buffer, heap
    {
      && Apart()
      && txQueue.Valid() && txQueue.size == TX_QUEUE_LEN
      && cache.Valid() && cache.heap == heap
      && signal.Valid()
      && View().Valid() && Distinct(View().Held()) && idle !in View().Held()
    }

    /** The parts do not share storage. */
    ghost predicate Apart() {
      && txQueue as object != cache.addresses
      && txQueue.buf as object != cache.addresses.buf
      && txQueue.buf as object != cache.packets.entries && txQueue.buf as object != signal.buffer
      && cache.addresses.buf as object != cache.packets.entries && cache.addresses.buf as object != signal.buffer
      && cache.packets.entries as object != signal.buffer
    }

    ghost function View(): State
      requires txQueue.Valid() && cache.addresses.Valid()
      reads this, txQueue, txQueue.buf, cache.addresses, cache.addresses.buf, cache.packets, cache.packets.entries, heap
    {
      State(txQueue.Contents(), stop, cache.State(), idle, heap.freed)
    }

    constructor (idleId: nat)
      ensures Valid()
      ensures View().queue == [] && stop == None && View().cache.ring == [] && heap.freed == []
      ensures P.Values(View().cache.table) == []
      ensures idle == Packet(idleId, IDLE)
      ensures signal.State() == S.PowerUp()
      ensures fresh(txQueue) && fresh(txQueue.buf) && fresh(cache.addresses) && fresh(cache.addresses.buf)
      ensures fresh(cache.packets) && fresh(cache.packets.entries) && fresh(signal) && fresh(signal.buffer) && fresh(heap)
    {
      var allocator := new Allocator();
      heap := allocator;
      signal := new S.SignalModule();
      txQueue := new Ring<Packet>(TX_QUEUE_LEN);
      var idlePacket := CreateIdle(idleId);
      idle := idlePacket;
      stop := None;
      cache := new CacheModule(allocator);
      new;
      assert View().Held() == multiset{};
    }

    method AddPacket(packet: Packet)
      requires Valid() && Enabled(View(), Add(packet))
      requires packet !in View().Held() && packet != idle
      modifies txQueue, txQueue.buf
      ensures Valid()
      ensures View() == old(View()).AddPacket(packet)
    {
      StepKeepsValid(View(), Add(packet));
      StepConserves(View(), Add(packet));
      txQueue.Push(packet);
      assert View() == old(View()).AddPacket(packet);
    }

    /** The cache clear command. */
    method ClearCache()
      requires Valid()
      modifies cache.addresses, cache.packets.entries, heap
      ensures Valid()
      ensures View() == old(View()).ClearCache()
    {
      StepKeepsValid(View(), Clear);
      StepConserves(View(), Clear);
      CachedApart(View());
      cache.Clear();
      assert View() == old(View()).ClearCache();
    }

    /** The timer interrupt. */
    method TimerTick()
      requires Valid()
      modifies this`stop, txQueue, cache.addresses, cache.addresses.buf, cache.packets.entries, heap,
        signal, signal.buffer
      ensures Valid()
      ensures View() == old(View()).Tick().0
      ensures signal.State() == old(signal.State()).Send(old(View()).Tick().1.bytes)
    {
      ghost var s := View();
      TickKeepsOwnership(s);
      hide State.Valid, State.Held, CacheState.Valid, Distinct, S.SignalState.Send, S.SignalState.Valid,
        State.Accept, State.Refresh;
      if txQueue.count > 0 {
        SendNewPacket();
      } else {
        SendOldPacket();
      }
    }

    method SendNewPacket()
      requires Valid() && txQueue.Contents() != []
      modifies this`stop, txQueue, cache.addresses, cache.addresses.buf, cache.packets.entries, heap,
        signal, signal.buffer
      ensures txQueue.Valid() && cache.Valid() && signal.Valid()
      ensures View() == old(View()).Accept()
      ensures signal.State() == old(signal.State()).Send(old(View()).Tick().1.bytes)
    {
      ghost var s := View();
      hide State.Held, Distinct, S.SignalState.Send, S.SignalState.Valid, State.Accept, State.Valid;
      var tx := PopAndSend();
      StoreForRefresh(tx, s);
    }

    method PopAndSend() returns (tx: Packet)
      requires Valid() && txQueue.Contents() != []
      modifies txQueue, signal, signal.buffer
      ensures txQueue.Valid() && cache.Valid() && signal.Valid()
      ensures tx == old(View()).queue[0]
      ensures View() == old(View()).(queue := old(View()).queue[1..])
      ensures signal.State() == old(signal.State()).Send(old(View()).Tick().1.bytes)
    {
      ghost var s := View();
      AcceptIsSafe(s);
      tx := txQueue.Pop();
      assert tx == s.queue[0] && txQueue.Contents() == s.queue[1..];
      assert tx in s.queue && tx.Sendable();
      signal.Send(heap.Deref(tx));
    }

    /** Release the stored stop packet and keep the one just sent; s is the state at the interrupt. */
    method StoreForRefresh(tx: Packet, ghost s: State)
      requires Apart() && txQueue.Valid() && cache.Valid() && cache.heap == heap
      requires s.Valid() && s.queue != [] && tx == s.queue[0] && Distinct(s.Held())
      requires View() == s.(queue := s.queue[1..])
      modifies this`stop, cache.addresses, cache.addresses.buf, cache.packets.entries, heap
      ensures txQueue.Valid() && cache.Valid()
      ensures View() == s.Accept()
    {
      AcceptIsSafe(s);
      assert tx in s.queue && tx.Sendable();
      hide State.Valid, State.Held, CacheState.Valid, CacheState.Update, CacheState.Clear, CacheState.Replaced,
        P.Values, IsBroadcastStop, Distinct;
      ReleaseStop();
      assert cache.Valid() && cache.State() == s.cache && heap.freed == Released(s);
      Keep(tx);
    }

    /** Destroy the stored broadcast stop packet, if any. */
    method ReleaseStop()
      requires stop.Some? ==> stop.value !in heap.freed
      modifies this`stop, heap
      ensures stop == None
      ensures heap.freed == old(heap.freed) + (if old(stop).Some? then [old(stop).value] else [])
    {
      if stop.Some? {
        heap.Destroy(stop.value);
        stop := None;
      }
    }

    /** Store a packet just sent, as the new stop packet or in the cache. */
    method Keep(tx: Packet)
      requires Apart() && cache.Valid() && cache.heap == heap && cache.Owns()
      requires tx !in heap.freed && tx.Sendable() && stop == None
      modifies this`stop, cache.addresses, cache.addresses.buf, cache.packets.entries, heap
      ensures cache.Valid()
      ensures IsBroadcastStop(tx.bytes) ==>
        && stop == Some(tx) && cache.State() == old(cache.State()).Clear()
        && heap.freed == old(heap.freed) + P.Values(old(cache.State()).table)
      ensures !IsBroadcastStop(tx.bytes) ==>
        && stop == None && cache.State() == old(cache.State()).Update(tx)
        && heap.freed == old(heap.freed) + old(cache.State()).Replaced(tx)
    {
      if IsBroadcastStop(heap.Deref(tx)) {
        stop := Some(tx);
        cache.Clear();
      } else {
        cache.Update(tx);
      }
    }

    method SendOldPacket()
      requires Valid() && txQueue.Contents() == []
      modifies cache.addresses, cache.addresses.buf, signal, signal.buffer
      ensures txQueue.Valid() && cache.Valid() && signal.Valid()
      ensures View() == old(View()).Refresh().0
      ensures signal.State() == old(signal.State()).Send(old(View()).Tick().1.bytes)
    {
      ghost var s := View();
      RefreshIsSafe(s);
      var cached := stop;
      if cached.None? {
        cached := cache.GetNextPacket();
        if cached.None? {
          cached := Some(idle);
        }
      }
      signal.Send(heap.Deref(cached.value));
    }
  }

  lemma TickKeepsOwnership(s: State)
    requires s.Valid() && Distinct(s.Held()) && s.idle !in s.Held()
    ensures var t := s.Tick().0; t.Valid() && t.Held() == s.Held() && t.idle == s.idle
    ensures s.Tick() == if s.queue != [] then (s.Accept(), s.queue[0]) else s.Refresh()
  {
    StepKeepsValid(s, Tick);
    StepConserves(s, Tick);
    assert Step(s, Tick) == s.Tick().0;
  }

  /** The heap after the stored stop packet, if any, has been destroyed. */
  ghost function Released(s: State): seq<Packet> {
    s.freed + (if s.stop.Some? then [s.stop.value] else [])
  }

  /** Accepting a packet reads and destroys only packets that are still there. */
  lemma AcceptIsSafe(s: State)
    requires s.Valid() && s.queue != [] && Distinct(s.Held())
    ensures s.stop.Some? ==> s.stop.value !in s.freed
    ensures s.queue[0] !in Released(s)
    ensures Distinct(multiset(P.Values(s.cache.table)) + multiset(Released(s)))
  {
    var values, freed, stop := multiset(P.Values(s.cache.table)), multiset(s.freed), P.ToBag(s.stop);
    assert multiset(Released(s)) == freed + stop;
    assert s.Held() == multiset(s.queue) + (values + (freed + stop));
    DistinctPart(multiset(s.queue), values + (freed + stop));
    DistinctPart(values, freed + stop);
    DistinctPart(freed, stop);
    assert s.queue[0] in multiset(s.queue);
  }

  /** A refresh sends a packet that is still there. */
  lemma RefreshIsSafe(s: State)
    requires s.Valid() && Distinct(s.Held()) && s.idle !in s.Held()
    ensures s.Refresh().1 !in s.freed && s.Refresh().1.Sendable()
  {
    var alive := multiset(s.queue) + P.ToBag(s.stop) + multiset(P.Values(s.cache.table));
    DistinctPart(alive, multiset(s.freed));
    NextIsLive(s.cache);
    if s.stop.None? && s.cache.ring != [] {
      P.ValuesAreLive(s.cache.table, s.Refresh().1);
      assert s.Refresh().1 in alive;
    }
  }

  lemma CachedApart(s: State)
    requires s.Valid() && Distinct(s.Held())
    ensures Distinct(multiset(P.Values(s.cache.table)) + multiset(s.freed))
  {
    var cached := multiset(P.Values(s.cache.table)) + multiset(s.freed);
    assert s.Held() == (multiset(s.queue) + P.ToBag(s.stop)) + cached;
    DistinctPart(multiset(s.queue) + P.ToBag(s.stop), cached);
  }
}
