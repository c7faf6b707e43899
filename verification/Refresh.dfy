/** What the cache is for, over whole runs: it remembers the latest packet of every loco, as long as
    there are at most 20 of them, and refreshes them fairly. */
module Refresh {
  import opened Wrappers
  import opened Cyclic
  import opened Dcc
  import opened Packets
  import opened Cache
  import opened Scheduler
  import opened Runs
  import P = ProbeTable

  // ----- the cache as a map of latest packets

  /** The simple model: the latest packet popped for each address since the last clear or stop. */
  ghost function Remember(s: State, m: map<int, Packet>, e: Event): map<int, Packet>
    requires s.Valid()
  {
    if e.Clear? then map[]
    else if e.Tick? && s.queue != [] then
      assert s.queue[0] in s.queue;
      if IsBroadcastStop(s.queue[0].bytes) then map[] else m[s.queue[0].Address() := s.queue[0]]
    else m
  }

  ghost function Latest(s: State, m: map<int, Packet>, es: seq<Event>): map<int, Packet>
    requires s.Valid() && Legal(s, es)
    decreases |es|
  {
    if es == [] then m else
    StepKeepsValid(s, es[0]);
    Latest(Step(s, es[0]), Remember(s, m, es[0]), es[1..])
  }

  /** The cache is exactly the model: same packets, every loco queued once. */
  ghost predicate Refines(c: CacheState, m: map<int, Packet>)
    requires c.Valid()
  {
    c.Map() == m && c.Faithful()
  }

  lemma RefinesAfterStep(s: State, m: map<int, Packet>, e: Event)
    requires s.Valid() && Enabled(s, e) && Step(s, e).Valid()
    requires |m| <= ADDR_SIZE ==> Refines(s.cache, m)
    ensures |Remember(s, m, e)| <= ADDR_SIZE ==> Refines(Step(s, e).cache, Remember(s, m, e))
  {
    match e
    case Add(_) =>
    case Clear => ClearKeepsValid(s.cache);
    case Tick =>
      if s.queue == [] {
        NextKeepsValid(s.cache);
      } else if IsBroadcastStop(s.queue[0].bytes) {
        ClearKeepsValid(s.cache);
      } else {
        assert s.queue[0] in s.queue;
        RefinesAfterUpdate(s.cache, m, s.queue[0]);
      }
  }

  lemma RefinesAfterUpdate(c: CacheState, m: map<int, Packet>, p: Packet)
    requires c.Valid() && p.Sendable() && c.Update(p).Valid()
    requires |m| <= ADDR_SIZE ==> Refines(c, m)
    ensures var m' := m[p.Address() := p]; |m'| <= ADDR_SIZE ==> Refines(c.Update(p), m')
  {
    var m' := m[p.Address() := p];
    assert m'.Keys == m.Keys + {p.Address()};
    assert |m'| == |m'.Keys| && |m| == |m.Keys|;
    if |m'| <= ADDR_SIZE {
      assert |m| <= ADDR_SIZE;
      P.ContentsSize(c.table);
      assert !Evicts(c, p);
      P.InsertMeaning(c.table, p.Address(), p);
      UpdateKeepsValid(c, p);
    }
  }

  lemma {:induction false} RefinesOverRun(s: State, m: map<int, Packet>, es: seq<Event>)
    requires s.Valid() && Legal(s, es)
    requires |m| <= ADDR_SIZE ==> Refines(s.cache, m)
    ensures |Latest(s, m, es)| <= ADDR_SIZE ==> Refines(Run(s, es).cache, Latest(s, m, es))
    decreases |es|
  {
    if es == [] {
    } else {
      StepKeepsValid(s, es[0]);
      RefinesAfterStep(s, m, es[0]);
      hide State.Valid, Step, Remember, Refines;
      RefinesOverRun(Step(s, es[0]), Remember(s, m, es[0]), es[1..]);
    }
  }

  /** From power-up, after any run: the cache holds the latest packet of every loco addressed since
      the last clear or stop, each queued once for refreshing, exactly when those are at most 20. */
  lemma CacheIsLatestIffAtMost20(s: State, es: seq<Event>)
    requires Initial(s) && Legal(s, es)
    ensures Refines(Run(s, es).cache, Latest(s, map[], es)) <==> |Latest(s, map[], es)| <= ADDR_SIZE
  {
    EmptyCache(s.cache);
    hide Latest, Run, Legal;
    RefinesOverRun(s, map[], es);
    P.ContentsSize(Run(s, es).cache.table);
  }

  lemma EmptyCache(c: CacheState)
    requires c.Valid() && c.ring == []
    ensures Refines(c, map[])
  {
    P.ContentsSize(c.table);
    assert |c.Map()| == 0;
    assert c.Map().Keys == P.LiveKeys(c.table);
  }

  // ----- fairness

  /** The moments at which a tick finds nothing queued and so refreshes an old packet: the state and
      the latest packets known then. */
  ghost function RefreshPoints(s: State, m: map<int, Packet>, es: seq<Event>): seq<(State, map<int, Packet>)>
    requires s.Valid() && Legal(s, es)
    decreases |es|
  {
    if es == [] then [] else
    StepKeepsValid(s, es[0]);
    (if es[0].Tick? && s.queue == [] then [(s, m)] else [])
      + RefreshPoints(Step(s, es[0]), Remember(s, m, es[0]), es[1..])
  }

  /** Neither the cache command nor a broadcast stop clears the cache during the run. */
  ghost predicate NoReset(s: State, es: seq<Event>)
    requires s.Valid() && Legal(s, es)
    decreases |es|
  {
    es != [] ==>
      && !es[0].Clear? && !(es[0].Tick? && s.queue != [] && IsBroadcastStop(s.queue[0].bytes))
      && (StepKeepsValid(s, es[0]); NoReset(Step(s, es[0]), es[1..]))
  }

  /** Nothing is being stopped, and every cached loco is queued once. */
  ghost predicate Calm(s: State) {
    s.Valid() && s.stop == None && s.cache.Faithful()
  }

  /** A refresh sends the packet of the first address queued and turns the ring by one. */
  lemma CalmRefresh(s: State)
    requires Calm(s) && s.queue == []
    ensures var (t, p) := s.Tick();
      && Calm(t) && t.queue == [] && t.cache.Map() == s.cache.Map()
      && (s.cache.ring == [] ==> t == s)
      && (s.cache.ring != [] ==>
           && t == s.(cache := s.cache.(ring := s.cache.ring[1..] + [s.cache.ring[0]]))
           && s.cache.ring[0] in s.cache.Map() && p == s.cache.Map()[s.cache.ring[0]])
  {
    StepKeepsValid(s, Tick);
    NextIsLive(s.cache);
    NextKeepsValid(s.cache);
  }

  /** Without a reset the number of locos known never falls. */
  lemma {:induction false} LatestGrows(s: State, m: map<int, Packet>, es: seq<Event>)
    requires s.Valid() && Legal(s, es) && NoReset(s, es)
    ensures |m| <= |Latest(s, m, es)|
    decreases |es|
  {
    if es == [] {
    } else {
      StepKeepsValid(s, es[0]);
      RememberGrows(s, m, es[0]);
      hide State.Valid, Step, Remember;
      LatestGrows(Step(s, es[0]), Remember(s, m, es[0]), es[1..]);
    }
  }

  lemma RememberGrows(s: State, m: map<int, Packet>, e: Event)
    requires s.Valid() && !e.Clear? && !(e.Tick? && s.queue != [] && IsBroadcastStop(s.queue[0].bytes))
    ensures |m| <= |Remember(s, m, e)|
  {
    var m' := Remember(s, m, e);
    assert m.Keys <= m'.Keys;
    P.SubsetSize(m.Keys, m'.Keys);
    assert |m| == |m.Keys| && |m'| == |m'.Keys|;
  }

  /** A state in the middle of a run without resets that involves at most 20 locos in all. */
  ghost predicate Undisturbed(s: State, m: map<int, Packet>, es: seq<Event>)
    requires s.Valid() && Legal(s, es)
  {
    s.stop == None && Refines(s.cache, m) && NoReset(s, es) && |Latest(s, m, es)| <= ADDR_SIZE
  }

  /** One event of such a run: a refresh turns the ring by one; anything else leaves the addresses
      already queued where they are. */
  lemma UndisturbedStep(s: State, m: map<int, Packet>, es: seq<Event>)
    requires s.Valid() && Legal(s, es) && es != [] && Undisturbed(s, m, es)
    ensures var t := Step(s, es[0]);
      && t.Valid() && Legal(t, es[1..]) && Undisturbed(t, Remember(s, m, es[0]), es[1..])
      && (if es[0].Tick? && s.queue == [] then s.cache.ring != [] ==> t.cache.ring == s.cache.ring[1..] + [s.cache.ring[0]]
          else s.cache.ring <= t.cache.ring)
  {
    StepKeepsValid(s, es[0]);
    LatestGrows(Step(s, es[0]), Remember(s, m, es[0]), es[1..]);
    RefinesAfterStep(s, m, es[0]);
    CalmStep(s, es[0]);
    hide State.Valid, Step, Remember, Refines;
  }

  lemma CalmStep(s: State, e: Event)
    requires s.Valid() && Enabled(s, e) && s.stop == None
    requires !e.Clear? && !(e.Tick? && s.queue != [] && IsBroadcastStop(s.queue[0].bytes))
    ensures var t := Step(s, e);
      && t.stop == None
      && (if e.Tick? && s.queue == [] then s.cache.ring != [] ==> t.cache.ring == s.cache.ring[1..] + [s.cache.ring[0]]
          else s.cache.ring <= t.cache.ring)
  {
  }

  /** A tick at this moment sends the latest packet of loco a, which is indeed addressed to a. */
  ghost predicate Serves(point: (State, map<int, Packet>), a: int) {
    var (s, m) := point;
    && s.Valid() && a in m && s.Tick().1 == m[a] && m[a].Address() == a
  }

  lemma PointsExist(s: State, m: map<int, Packet>, es: seq<Event>)
    requires s.Valid() && Legal(s, es) && RefreshPoints(s, m, es) != []
    ensures es != []
  {
  }

  lemma NextPoints(s: State, m: map<int, Packet>, es: seq<Event>)
    requires s.Valid() && Legal(s, es) && es != []
    requires Step(s, es[0]).Valid() && Legal(Step(s, es[0]), es[1..])
    ensures RefreshPoints(s, m, es) == (if es[0].Tick? && s.queue == [] then [(s, m)] else [])
      + RefreshPoints(Step(s, es[0]), Remember(s, m, es[0]), es[1..])
  {
  }

  lemma FirstIsServed(s: State, m: map<int, Packet>, es: seq<Event>)
    requires s.Valid() && Legal(s, es) && Undisturbed(s, m, es) && s.queue == [] && s.cache.ring != []
    ensures Serves((s, m), s.cache.ring[0])
  {
    CalmRefresh(s);
    CachedUnderOwnAddress(s.cache, s.cache.ring[0]);
  }

  /** Fairness under interference: whatever packets arrive meanwhile, the refresh ticks serve the
      addresses queued at the start in queue order, one each; the (j+1)-th sends the latest packet
      popped by then for the j-th address. A loco at position j thus waits for exactly j others. */
  lemma {:induction false} RefreshedInQueueOrder(s: State, m: map<int, Packet>, es: seq<Event>, j: nat)
    requires s.Valid() && Legal(s, es) && Undisturbed(s, m, es)
    requires j < |s.cache.ring| && j < |RefreshPoints(s, m, es)|
    ensures Serves(RefreshPoints(s, m, es)[j], s.cache.ring[j])
    decreases |es|
  {
    PointsExist(s, m, es);
    hide *;
    UndisturbedStep(s, m, es);
    NextPoints(s, m, es);
    var t, m' := Step(s, es[0]), Remember(s, m, es[0]);
    if es[0].Tick? && s.queue == [] {
      if j == 0 {
        FirstIsServed(s, m, es);
      } else {
        RefreshedInQueueOrder(t, m', es[1..], j - 1);
      }
    } else {
      RefreshedInQueueOrder(t, m', es[1..], j);
    }
  }

  lemma CachedUnderOwnAddress(c: CacheState, a: int)
    requires c.Valid() && a in c.Map()
    ensures c.Map()[a].Sendable() && c.Map()[a].Address() == a
  {
    P.LiveKeyIsFound(c.table, a);
    assert Filed(c.table[P.FindEntry(c.table, a)]);
  }

  function Ticks(n: nat): (es: seq<Event>)
    ensures |es| == n
  {
    seq(n, _ => Tick)
  }

  /** The scheduler with its ring turned by n. */
  ghost function Turned(s: State, n: nat): State
    requires n <= |s.cache.ring|
  {
    s.(cache := s.cache.(ring := s.cache.ring[n..] + s.cache.ring[..n]))
  }

  /** These are the cached packets of the first |sent| locos queued, in queue order. */
  ghost predicate InQueueOrder(c: CacheState, sent: seq<Packet>)
    requires c.Valid()
  {
    |sent| <= |c.ring| && forall i | 0 <= i < |sent| :: c.ring[i] in c.Map() && sent[i] == c.Map()[c.ring[i]]
  }

  /** With nothing arriving, n refresh ticks send each of the first n queued locos' packets once and
      turn the ring by n. */
  lemma {:induction false} QuietTicks(s: State, n: nat)
    requires Calm(s) && s.queue == [] && n <= |s.cache.ring|
    ensures Legal(s, Ticks(n)) && Run(s, Ticks(n)) == Turned(s, n) && Calm(Turned(s, n))
    ensures |Sent(s, Ticks(n))| == n && InQueueOrder(s.cache, Sent(s, Ticks(n)))
    decreases n
  {
    CalmParts(s);
    hide *;
    if n == 0 {
      QuietNothing(s);
    } else {
      QuietTicks(s, n - 1);
      QuietTick(s, n - 1);
      OneMoreInOrder(s.cache, Sent(s, Ticks(n - 1)));
      TicksPlusOne(s, n - 1);
    }
  }

  lemma QuietNothing(s: State)
    requires Calm(s)
    ensures Legal(s, Ticks(0)) && Run(s, Ticks(0)) == Turned(s, 0) && Calm(Turned(s, 0))
    ensures Sent(s, Ticks(0)) == [] && InQueueOrder(s.cache, [])
  {
    assert Turned(s, 0) == s;
  }

  lemma TicksPlusOne(s: State, n: nat)
    requires s.Valid() && Legal(s, Ticks(n))
    ensures Legal(s, Ticks(n + 1))
    ensures Run(s, Ticks(n + 1)) == Run(s, Ticks(n)).Tick().0
    ensures Sent(s, Ticks(n + 1)) == Sent(s, Ticks(n)) + [Run(s, Ticks(n)).Tick().1]
  {
    assert Ticks(n + 1) == Ticks(n) + [Tick];
    hide *;
    OneTick(Run(s, Ticks(n)));
    LegalConcat(s, Ticks(n), [Tick]);
    RunConcat(s, Ticks(n), [Tick]);
  }

  lemma OneMoreInOrder(c: CacheState, sent: seq<Packet>)
    requires c.Valid() && InQueueOrder(c, sent) && |sent| < |c.ring| && c.ring[|sent|] in c.Map()
    ensures InQueueOrder(c, sent + [c.Map()[c.ring[|sent|]]])
  {
    hide CacheState.Valid, CacheState.Map;
  }

  lemma QuietTick(s: State, n: nat)
    requires Calm(s) && s.queue == [] && n < |s.cache.ring| && Calm(Turned(s, n))
    ensures var a := s.cache.ring[n];
      a in s.cache.Map() && Turned(s, n).Tick() == (Turned(s, n + 1), s.cache.Map()[a]) && Calm(Turned(s, n + 1))
  {
    TurnOnce(s.cache.ring, n);
    CalmRefresh(Turned(s, n));
  }

  lemma TurnOnce(r: seq<nat>, n: nat)
    requires n < |r|
    ensures var q := r[n..] + r[..n]; q[0] == r[n] && q[1..] + [q[0]] == r[n + 1..] + r[..n + 1]
  {
  }

  lemma OneTick(t: State)
    requires t.Valid()
    ensures Legal(t, [Tick]) && Run(t, [Tick]) == t.Tick().0 && Sent(t, [Tick]) == [t.Tick().1]
  {
    StepKeepsValid(t, Tick);
    assert [Tick][1..] == [];
  }

  /** Refreshing for any length of time with nothing arriving, evictions or not: the tick number k, from
      zero, sends what the table answers for the address at index k of the ring, going round. */
  lemma {:induction false} QuietTicksAnswer(s: State, n: nat)
    requires s.Valid() && s.stop == None && s.queue == [] && s.cache.ring != []
    ensures Legal(s, Ticks(n)) && |Sent(s, Ticks(n))| == n
    ensures forall k | 0 <= k < n ::
      P.Get(s.cache.table, s.cache.ring[k % |s.cache.ring|]) == Some(Sent(s, Ticks(n))[k])
    decreases n
  {
    if n == 0 {
    } else {
      QuietTickTurns(s);
      var (t, p) := s.Tick();
      hide *;
      QuietTicksAnswer(t, n - 1);
      FirstOfTicks(s, n);
      AnswersInTurn(s.cache.table, s.cache.ring, p, Sent(t, Ticks(n - 1)));
    }
  }

  lemma AnswersInTurn(table: seq<P.Entry<Packet>>, ring: seq<nat>, p: Packet, later: seq<Packet>)
    requires table != [] && ring != [] && P.Get(table, ring[0]) == Some(p)
    requires forall k | 0 <= k < |later| ::
      P.Get(table, (ring[1..] + [ring[0]])[k % |ring|]) == Some(later[k])
    ensures forall k | 0 <= k < |later| + 1 :: P.Get(table, ring[k % |ring|]) == Some(([p] + later)[k])
  {
    hide P.Get;
    forall k | 0 <= k < |later| + 1 ensures P.Get(table, ring[k % |ring|]) == Some(([p] + later)[k]) {
      if k != 0 {
        TurnedAt(ring, k - 1);
      }
    }
  }

  lemma QuietTickTurns(s: State)
    requires s.Valid() && s.stop == None && s.queue == [] && s.cache.ring != []
    ensures var (t, p) := s.Tick();
      && t.Valid() && t.stop == None && t.queue == [] && t.cache.table == s.cache.table
      && t.cache.ring == s.cache.ring[1..] + [s.cache.ring[0]]
      && P.Get(s.cache.table, s.cache.ring[0]) == Some(p)
  {
    StepKeepsValid(s, Tick);
    NextIsLive(s.cache);
  }

  lemma FirstOfTicks(s: State, n: nat)
    requires s.Valid() && 0 < n && s.Tick().0.Valid() && Legal(s.Tick().0, Ticks(n - 1))
    ensures Legal(s, Ticks(n)) && Sent(s, Ticks(n)) == [s.Tick().1] + Sent(s.Tick().0, Ticks(n - 1))
  {
    assert Ticks(n)[0] == Tick && Ticks(n)[1..] == Ticks(n - 1);
  }

  lemma TurnedAt(r: seq<nat>, k: nat)
    requires r != []
    ensures (r[1..] + [r[0]])[k % |r|] == r[(k + 1) % |r|]
  {
    NextRemainder(k, |r|);
  }

  /** One round: as many ticks as there are locos send exactly the cached packets, each loco's once
      and in queue order, and leave the scheduler as it was. */
  lemma RoundRobin(s: State)
    requires Calm(s) && s.queue == []
    ensures var n := |s.cache.ring|;
      && Legal(s, Ticks(n)) && Run(s, Ticks(n)) == s
      && |Sent(s, Ticks(n))| == n == |s.cache.Map()| && InQueueOrder(s.cache, Sent(s, Ticks(n)))
      && (forall a | a in s.cache.Map() :: s.cache.Map()[a] in Sent(s, Ticks(n)))
  {
    FullTurn(s);
    CalmParts(s);
    hide *;
    QuietTicks(s, |s.cache.ring|);
    EveryLocoSent(s.cache, Sent(s, Ticks(|s.cache.ring|)));
  }

  lemma FullTurn(s: State)
    requires Calm(s)
    ensures Turned(s, |s.cache.ring|) == s
  {
  }

  lemma CalmParts(s: State)
    requires Calm(s)
    ensures s.Valid() && s.stop == None && s.cache.Valid() && s.cache.Faithful()
    ensures |s.cache.Map()| == |s.cache.ring|
  {
    P.ContentsSize(s.cache.table);
  }

  lemma EveryLocoSent(c: CacheState, sent: seq<Packet>)
    requires c.Valid() && c.Faithful() && InQueueOrder(c, sent) && |sent| == |c.ring|
    ensures forall a | a in c.Map() :: c.Map()[a] in sent
  {
    forall a | a in c.Map() ensures c.Map()[a] in sent {
      assert a in c.ring;
      var i :| 0 <= i < |c.ring| && c.ring[i] == a;
      assert sent[i] == c.Map()[a];
    }
  }
}
