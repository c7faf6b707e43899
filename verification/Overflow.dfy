/** Concrete runs in which the cache of 20 places is too small. */
module Overflow {
  import opened Wrappers
  import opened Casts
  import opened Dcc
  import opened Packets
  import opened Cache
  import opened Scheduler
  import opened Runs
  import opened Refresh
  import P = ProbeTable

  /** A packet for loco i. */
  function Loco(i: nat): (p: Packet)
    ensures p.Sendable() && !IsBroadcastStop(p.bytes)
  {
    Packet(i, WithAddress(BLANK, ByteOf(i)))
  }

  lemma LocoAddress(i: nat)
    requires i < 128
    ensures Loco(i).Address() == i
  {
    BlankAddress(ByteOf(i));
    SmallAddress(ByteOf(i), i);
  }

  lemma BlankAddress(a: bv8)
    ensures AddressOf(WithAddress(BLANK, a)) == a % 128
  {
  }

  /** One packet for each of the locos 0 to n - 1, each sent before the next is added. */
  function Visit(n: nat): seq<Event> {
    if n == 0 then [] else Visit(n - 1) + [Add(Loco(n - 1)), Tick]
  }

  function Visited(n: nat): map<int, Packet> {
    map i | 0 <= i < n :: Loco(i)
  }

  lemma {:induction false} LatestConcat(s: State, m: map<int, Packet>, es: seq<Event>, fs: seq<Event>)
    requires s.Valid() && Legal(s, es) && Legal(Run(s, es), fs) && Legal(s, es + fs)
    ensures Latest(s, m, es + fs) == Latest(Run(s, es), Latest(s, m, es), fs)
    decreases |es|
  {
    if es == [] {
      assert es + fs == fs;
    } else {
      StepKeepsValid(s, es[0]);
      hide State.Valid, Step, Remember;
      assert (es + fs)[1..] == es[1..] + fs;
      LatestConcat(Step(s, es[0]), Remember(s, m, es[0]), es[1..], fs);
    }
  }

  lemma AddThenTick(s: State, m: map<int, Packet>, p: Packet)
    requires s.Valid() && s.queue == [] && p.Sendable() && !IsBroadcastStop(p.bytes)
    ensures var es := [Add(p), Tick];
      Legal(s, es) && Run(s, es).queue == [] && Latest(s, m, es) == m[p.Address() := p]
  {
    var es := [Add(p), Tick];
    assert es[1..] == [Tick] && [Tick][1..] == [];
    StepKeepsValid(s, Add(p));
    StepKeepsValid(s.AddPacket(p), Tick);
  }

  lemma {:induction false} VisitEffect(s: State, n: nat)
    requires Initial(s) && n <= 128
    ensures Legal(s, Visit(n)) && Run(s, Visit(n)).queue == [] && Latest(s, map[], Visit(n)) == Visited(n)
  {
    if n == 0 {
      assert Visited(0) == map[];
    } else {
      VisitEffect(s, n - 1);
      VisitOneMore(s, n - 1);
    }
  }

  lemma VisitOneMore(s: State, n: nat)
    requires Initial(s) && n < 128
    requires Legal(s, Visit(n)) && Run(s, Visit(n)).queue == [] && Latest(s, map[], Visit(n)) == Visited(n)
    ensures Legal(s, Visit(n + 1)) && Run(s, Visit(n + 1)).queue == []
    ensures Latest(s, map[], Visit(n + 1)) == Visited(n + 1)
  {
    OneMoreVisit(n);
    assert s.Valid();
    hide *;
    LocoAddress(n);
    AddThenTick(Run(s, Visit(n)), Visited(n), Loco(n));
    ThenMore(s, map[], Visit(n), [Add(Loco(n)), Tick]);
  }

  lemma OneMoreVisit(n: nat)
    requires n < 128
    ensures Visit(n + 1) == Visit(n) + [Add(Loco(n)), Tick]
    ensures Visited(n + 1) == Visited(n)[n := Loco(n)]
  {
    hide Loco;
    OneMoreVisited(n);
  }

  lemma OneMoreVisited(n: nat)
    ensures n !in Visited(n) && Visited(n + 1) == Visited(n)[n := Loco(n)]
  {
    hide Loco;
  }

  lemma ThenMore(s: State, m: map<int, Packet>, es: seq<Event>, fs: seq<Event>)
    requires s.Valid() && Legal(s, es) && Legal(Run(s, es), fs)
    ensures Legal(s, es + fs) && Run(s, es + fs) == Run(Run(s, es), fs)
    ensures Latest(s, m, es + fs) == Latest(Run(s, es), Latest(s, m, es), fs)
  {
    hide *;
    LegalConcat(s, es, fs);
    RunConcat(s, es, fs);
    LatestConcat(s, m, es, fs);
  }

  lemma {:induction false} VisitedSize(n: nat)
    ensures |Visited(n)| == n
  {
    if n == 0 {
    } else {
      VisitedSize(n - 1);
      OneMoreVisited(n - 1);
      hide Visited;
    }
  }

  /** With locos 0 to 20 addressed, the cache no longer holds the latest packet of each. */
  lemma TwentyOneLocosOverflow(s: State)
    requires Initial(s)
    ensures Legal(s, Visit(21)) && |Latest(s, map[], Visit(21))| == 21
    ensures !Refines(Run(s, Visit(21)).cache, Latest(s, map[], Visit(21)))
  {
    VisitEffect(s, 21);
    VisitedSize(21);
    hide Visit;
    CacheIsLatestIffAtMost20(s, Visit(21));
  }

  /** With locos 0 to 19 addressed, all is well, yet a lookup of loco 20, never addressed, answers
      with the packet of another loco instead of nothing. */
  lemma FullCacheAnswersForStranger(s: State)
    requires Initial(s)
    ensures Legal(s, Visit(20))
    ensures var c := Run(s, Visit(20)).cache;
      Refines(c, Latest(s, map[], Visit(20))) && 20 !in c.Map() && c.Lookup(20).Some?
  {
    VisitEffect(s, 20);
    VisitedSize(20);
    hide Visit;
    CacheIsLatestIffAtMost20(s, Visit(20));
    var c := Run(s, Visit(20)).cache;
    CachedCount(c);
    LookupExact(c, 20);
  }

  lemma CachedCount(c: CacheState)
    requires c.Valid()
    ensures |c.Map()| == |c.ring|
  {
    P.ContentsSize(c.table);
  }

  // ----- the twenty-first loco

  /** What becomes of a packet whose arrival evicts another: while nothing else arrives it is refreshed,
      within one round, if its loco has the same home slot as the victim, and otherwise never. */
  lemma NewcomerIsRefreshedIff(s: State, p: Packet, n: nat)
    requires s.Valid() && s.queue == [p] && !IsBroadcastStop(p.bytes)
    requires p.Sendable() && s.cache.Faithful() && Evicts(s.cache, p)
    ensures var t := s.Tick().0;
      && t.Valid() && Legal(t, Ticks(n)) && Legal(t, Ticks(ADDR_SIZE))
      && var victim := s.cache.table[P.FindEntry(s.cache.table, p.Address())].k;
         if victim % ADDR_SIZE == p.Address() % ADDR_SIZE then p in Sent(t, Ticks(ADDR_SIZE))
         else p !in Sent(t, Ticks(n))
  {
    var c, t := s.cache, s.Tick().0;
    var i := P.FindEntry(c.table, p.Address());
    StepKeepsValid(s, Tick);
    UpdateKeepsValid(c, p);
    FullRing(c);
    NewcomerIsAnswerIff(c, p);
    assert t.Valid() && t.stop == None && t.queue == [] && t.cache == c.Update(p);
    assert |t.cache.ring| == ADDR_SIZE && |t.cache.table| == ADDR_SIZE;
    var victim, a := c.table[i].k, p.Address();
    assert P.Home(victim, ADDR_SIZE) == victim % ADDR_SIZE && P.Home(a, ADDR_SIZE) == a % ADDR_SIZE;
    hide *;
    QuietTicksAnswer(t, n);
    QuietTicksAnswer(t, ADDR_SIZE);
    forall r | r in t.cache.ring
      ensures P.Get(t.cache.table, r) == Some(p) <==> r == victim && victim % ADDR_SIZE == a % ADDR_SIZE
    {
      AnswerIsStored(c, p, r);
    }
    if victim % ADDR_SIZE == a % ADDR_SIZE {
      AnsweredIsSent(t.cache, victim, p, Sent(t, Ticks(ADDR_SIZE)));
    } else {
      UnansweredIsNotSent(t.cache, p, Sent(t, Ticks(n)));
    }
  }

  lemma AnsweredIsSent(c: CacheState, r: nat, p: Packet, sent: seq<Packet>)
    requires |c.table| == ADDR_SIZE && r in c.ring && P.Get(c.table, r) == Some(p) && |sent| == |c.ring|
    requires forall k | 0 <= k < |sent| :: P.Get(c.table, c.ring[k % |c.ring|]) == Some(sent[k])
    ensures p in sent
  {
    var k :| 0 <= k < |c.ring| && c.ring[k] == r;
    SmallRemainder(k, |c.ring|);
    assert sent[k] == p;
  }

  lemma UnansweredIsNotSent(c: CacheState, p: Packet, sent: seq<Packet>)
    requires |c.table| == ADDR_SIZE && c.ring != [] && forall r | r in c.ring :: P.Get(c.table, r) != Some(p)
    requires forall k | 0 <= k < |sent| :: P.Get(c.table, c.ring[k % |c.ring|]) == Some(sent[k])
    ensures p !in sent
  {
    hide P.Get;
    forall k | 0 <= k < |sent| ensures sent[k] != p {
      assert c.ring[k % |c.ring|] in c.ring;
    }
  }

  lemma SmallRemainder(k: nat, n: nat)
    requires k < n
    ensures k % n == k
  {
  }

  lemma FullRing(c: CacheState)
    requires c.Valid() && P.Full(c.table)
    ensures |c.ring| == ADDR_SIZE
  {
    P.ContentsSize(c.table);
  }

  lemma AnswerIsStored(c: CacheState, p: Packet, r: int)
    requires c.Valid() && p.Sendable() && c.Update(p).Valid()
    ensures P.Get(c.Update(p).table, r) == Some(p) <==>
      P.FindEntry(c.Update(p).table, r) == P.FindEntry(c.table, p.Address())
  {
    StoredOnce(c, p, P.FindEntry(c.Update(p).table, r));
  }

  /** The table after locos 0 to n - 1 have been visited: each in its home slot. */
  ghost predicate InOrder(t: seq<P.Entry<Packet>>, n: nat) {
    && |t| == ADDR_SIZE
    && forall i | 0 <= i < ADDR_SIZE :: if i < n then t[i] == P.Entry(i, Some(Loco(i))) else !t[i].Live()
  }

  lemma {:induction false} VisitTable(s: State, n: nat)
    requires Initial(s) && n <= ADDR_SIZE
    ensures Legal(s, Visit(n)) && InOrder(Run(s, Visit(n)).cache.table, n)
  {
    if n == 0 {
      NothingLive(s.cache.table);
    } else {
      VisitTable(s, n - 1);
      VisitEffect(s, n - 1);
      OneMoreVisit(n - 1);
      LocoAddress(n - 1);
      var t := Run(s, Visit(n - 1));
      assert s.Valid();
      hide *;
      AddThenTick(t, map[], Loco(n - 1));
      TickStores(t, Loco(n - 1));
      ThenMore(s, map[], Visit(n - 1), [Add(Loco(n - 1)), Tick]);
      OneMoreInPlace(t.cache.table, n - 1);
    }
  }

  lemma NothingLive(t: seq<P.Entry<Packet>>)
    requires P.Values(t) == []
    ensures forall i | 0 <= i < |t| :: !t[i].Live()
  {
    forall i | 0 <= i < |t| ensures !t[i].Live() {
      if t[i].Live() {
        P.ValuesAreLive(t, t[i].v.value);
      }
    }
  }

  lemma TickStores(s: State, p: Packet)
    requires s.Valid() && s.queue == [] && p.Sendable() && !IsBroadcastStop(p.bytes) && Legal(s, [Add(p), Tick])
    ensures Run(s, [Add(p), Tick]).cache == s.cache.Update(p)
  {
    var es := [Add(p), Tick];
    assert es[1..] == [Tick] && [Tick][1..] == [];
    StepKeepsValid(s, Add(p));
    StepKeepsValid(s.AddPacket(p), Tick);
  }

  lemma OneMoreInPlace(t: seq<P.Entry<Packet>>, n: nat)
    requires n < ADDR_SIZE && InOrder(t, n) && Loco(n).Address() == n
    ensures InOrder(P.Insert(t, Loco(n).Address(), Loco(n)), n + 1)
  {
    assert P.Slot(ADDR_SIZE, n, 0) == n;
    assert P.FindEntry(t, n) == n;
    hide Loco;
  }

  /** Locos 0 to 20 again: loco 20 takes the place of loco 19, whose home slot is another, so while
      nothing else arrives no tick ever sends its packet again. */
  lemma LocoTwentyIsNeverRefreshed(s: State, n: nat)
    requires Initial(s)
    ensures Legal(s, Visit(21)) && Legal(Run(s, Visit(21)), Ticks(n))
    ensures Loco(20) !in Sent(Run(s, Visit(21)), Ticks(n))
  {
    VisitEffect(s, 20);
    VisitTable(s, 20);
    VisitedSize(20);
    LocoAddress(20);
    OneMoreVisit(20);
    var t, p := Run(s, Visit(20)), Loco(20);
    assert s.Valid() && ADDR_SIZE == 20;
    CacheIsLatestIffAtMost20(s, Visit(20));
    assert t.cache.Map() == Visited(20) && t.cache.Faithful();
    InOrderIsFull(t.cache);
    hide *;
    AddThenTick(t, map[], p);
    ThenMore(s, map[], Visit(20), [Add(p), Tick]);
    Accepted(t, p);
    NewcomerIsRefreshedIff(t.AddPacket(p), p, n);
  }

  lemma InOrderIsFull(c: CacheState)
    requires c.Valid() && InOrder(c.table, 20) && c.Map() == Visited(20) && Loco(20).Address() == 20
    ensures Evicts(c, Loco(20)) && c.table[P.FindEntry(c.table, 20)].k == 19
  {
    P.FindEntryOutcome(c.table, 20);
    hide Loco;
  }

  lemma Accepted(t: State, p: Packet)
    requires t.Valid() && t.queue == [] && p.Sendable() && !IsBroadcastStop(p.bytes) && Legal(t, [Add(p), Tick])
    ensures var u := t.AddPacket(p);
      u.Valid() && u.queue == [p] && u.cache == t.cache && Run(t, [Add(p), Tick]) == u.Tick().0
  {
    var es := [Add(p), Tick];
    assert es[1..] == [Tick] && [Tick][1..] == [];
    StepKeepsValid(t, Add(p));
    StepKeepsValid(t.AddPacket(p), Tick);
  }
}
