/** What holds over whole runs of the scheduler: ownership of packets and broadcast-stop safety. */
module Runs {
  import opened Wrappers
  import opened Dcc
  import opened Packets
  import opened Cache
  import opened Scheduler
  import P = ProbeTable

  /** After initialisation; the table's keys are arbitrary. */
  ghost predicate Initial(s: State) {
    && s.Valid() && s.queue == [] && s.stop == None && s.cache.ring == [] && P.Values(s.cache.table) == []
    && s.freed == []
  }

  /** Packets come from the allocator, so no two are the same, and none is the idle packet. */
  ghost predicate Fresh(s: State, es: seq<Event>) {
    Distinct(s.Held() + multiset(Added(es))) && s.idle !in s.Held() && s.idle !in Added(es)
  }

  // ----- ownership

  /** Packets that can be sent: queued, in the stop slot or cached. */
  ghost function Alive(s: State): multiset<Packet> {
    multiset(s.queue) + P.ToBag(s.stop) + multiset(P.Values(s.cache.table))
  }

  /** What a tick sends is idle, or alive before the tick and after it. */
  lemma TickSendsAlive(s: State)
    requires s.Valid()
    ensures var (t, p) := s.Tick();
      && t.idle == s.idle && s.freed <= t.freed
      && (p == s.idle || (p in Alive(s) && p in Alive(t)))
  {
    if s.queue != [] {
      AcceptSendsAlive(s);
    } else {
      RefreshSendsAlive(s);
    }
  }

  lemma AcceptSendsAlive(s: State)
    requires s.Valid() && s.queue != []
    ensures var t := s.Accept();
      t.idle == s.idle && s.freed <= t.freed && s.queue[0] in Alive(s) && s.queue[0] in Alive(t)
  {
    var p := s.queue[0];
    assert p in s.queue;
    UpdateCaches(s.cache, p);
    hide CacheState.Valid, CacheState.Update, CacheState.Clear, CacheState.Replaced, P.Values, IsBroadcastStop;
    assert p in multiset(s.queue);
    if IsBroadcastStop(p.bytes) {
      assert p in P.ToBag(s.Accept().stop);
    } else {
      assert p in multiset(P.Values(s.Accept().cache.table));
    }
  }

  lemma RefreshSendsAlive(s: State)
    requires s.Valid() && s.queue == []
    ensures var (t, p) := s.Refresh();
      t.idle == s.idle && s.freed == t.freed && (p == s.idle || (p in Alive(s) && p in Alive(t)))
  {
    NextIsLive(s.cache);
    hide P.Values, P.Get, CacheState.Valid;
    var (t, p) := s.Refresh();
    if s.stop.Some? {
      assert p in P.ToBag(s.stop);
    } else if p != s.idle {
      assert p in multiset(P.Values(s.cache.table));
    }
  }

  lemma UpdateCaches(c: CacheState, p: Packet)
    requires c.Valid() && p.Sendable()
    ensures p in P.Values(c.Update(p).table)
  {
    var i := P.FindEntry(c.table, p.Address());
    assert c.Update(p).table[i].v == Some(p);
    P.ValuesAreLive(c.Update(p).table, p);
  }

  lemma StepKeepsFreed(s: State, e: Event)
    requires s.Valid()
    ensures Step(s, e).idle == s.idle && s.freed <= Step(s, e).freed
    ensures forall p | p in Output(s, e) :: p == s.idle || (p in Alive(s) && p in Alive(Step(s, e)))
  {
    if e.Tick? {
      TickSendsAlive(s);
    }
  }

  lemma AliveNotFreed(s: State, p: Packet)
    requires Distinct(s.Held()) && p in Alive(s)
    ensures p !in s.freed
  {
    assert s.Held() == Alive(s) + multiset(s.freed);
    DistinctPart(Alive(s), multiset(s.freed));
  }

  lemma FreshAfterStep(s: State, es: seq<Event>)
    requires s.Valid() && Legal(s, es) && Fresh(s, es) && es != []
    ensures Step(s, es[0]).Valid() && Legal(Step(s, es[0]), es[1..]) && Fresh(Step(s, es[0]), es[1..])
    ensures Distinct(s.Held()) && Distinct(Step(s, es[0]).Held())
  {
    var t := Step(s, es[0]);
    StepKeepsValid(s, es[0]);
    StepConserves(s, es[0]);
    StepKeepsFreed(s, es[0]);
    assert s.idle !in t.Held();
    hide State.Valid, State.Held, Step, Output, Distinct;
    var incoming := if es[0].Add? then multiset{es[0].p} else multiset{};
    assert multiset(Added(es)) == incoming + multiset(Added(es[1..]));
    assert s.Held() + multiset(Added(es)) == t.Held() + multiset(Added(es[1..]));
    DistinctPart(s.Held(), multiset(Added(es)));
    DistinctPart(t.Held(), multiset(Added(es[1..])));
  }

  /** No use after free over any run: a packet destroyed by now is never sent from now on. */
  lemma {:induction false} NeverSentAfterFree(s: State, es: seq<Event>)
    requires s.Valid() && Legal(s, es) && Fresh(s, es)
    ensures forall p | p in Sent(s, es) :: p !in s.freed
    decreases |es|
  {
    hide State.Valid, State.Held, Step, Output;
    if es == [] {
    } else {
      var t := Step(s, es[0]);
      FreshAfterStep(s, es);
      StepKeepsFreed(s, es[0]);
      NeverSentAfterFree(t, es[1..]);
      forall p | p in Output(s, es[0]) ensures p !in s.freed {
        if p == s.idle {
          IdleNotFreed(s);
        } else {
          AliveNotFreed(s, p);
        }
      }
    }
  }

  lemma IdleNotFreed(s: State)
    requires s.idle !in s.Held()
    ensures s.idle !in s.freed
  {
  }

  /** The ownership theorem, from power-up, however many addresses are used: every packet ever added
      is in exactly one of the queue, the stop slot, one table slot and the heap; none is destroyed
      twice; and the idle packet never is. */
  lemma EachPacketInOnePlace(s: State, es: seq<Event>)
    requires Initial(s) && Legal(s, es) && Fresh(s, es)
    ensures var t := Run(s, es);
      && multiset(Added(es)) ==
         multiset(t.queue) + P.ToBag(t.stop) + multiset(P.Values(t.cache.table)) + multiset(t.freed)
      && (forall p | p in Added(es) :: t.Held()[p] == 1)
      && s.idle !in t.freed
  {
    RunConserves(s, es);
    var t := Run(s, es);
    assert s.Held() == multiset{};
    assert t.Held() == multiset(Added(es));
    forall p | p in Added(es) ensures t.Held()[p] == 1 {
      assert multiset(Added(es))[p] >= 1;
      assert (s.Held() + multiset(Added(es)))[p] <= 1;
    }
  }

  // ----- broadcast-stop safety

  /** Packets a refresh could still send. */
  ghost predicate Remembered(s: State, p: Packet) {
    s.stop == Some(p) || p in P.Values(s.cache.table)
  }

  lemma RememberedAfterStep(s: State, e: Event, p: Packet)
    requires s.Valid() && Enabled(s, e)
    ensures Remembered(Step(s, e), p) ==>
      Remembered(s, p) || (e.Tick? && s.queue != [] && p == s.queue[0])
    ensures p in Output(s, e) ==>
      p == s.idle || Remembered(s, p) || (e.Tick? && s.queue != [] && p == s.queue[0])
  {
    match e
    case Add(_) =>
    case Clear => ClearKeepsValid(s.cache);
    case Tick =>
      if s.queue == [] {
        NextIsLive(s.cache);
      } else {
        assert s.queue[0] in s.queue;
        ClearKeepsValid(s.cache);
        if !IsBroadcastStop(s.queue[0].bytes) {
          UpdateConserves(s.cache, s.queue[0]);
          assert p in P.Values(s.cache.Update(s.queue[0]).table) ==>
            p in multiset(P.Values(s.cache.Update(s.queue[0]).table)) + multiset(s.cache.Replaced(s.queue[0]));
          assert p in multiset(P.Values(s.cache.table)) + multiset{s.queue[0]} ==>
            p in P.Values(s.cache.table) || p == s.queue[0];
        }
      }
  }

  /** Over any run, everything sent is idle, was remembered at the start, or was popped on the way. */
  lemma {:induction false} SentIsRememberedOrPopped(s: State, es: seq<Event>)
    requires s.Valid() && Legal(s, es)
    ensures forall p | p in Sent(s, es) :: p == s.idle || Remembered(s, p) || p in Popped(s, es)
    decreases |es|
  {
    hide State.Valid, Step, Output, Remembered;
    if es == [] {
    } else {
      var t := Step(s, es[0]);
      StepKeepsValid(s, es[0]);
      StepKeepsFreed(s, es[0]);
      SentIsRememberedOrPopped(t, es[1..]);
      forall p ensures p in Sent(s, es) ==> p == s.idle || Remembered(s, p) || p in Popped(s, es) {
        RememberedAfterStep(s, es[0], p);
      }
    }
  }

  /** While nothing else is taken from the queue the stop packet is all that is sent, whatever is
      added or cleared meanwhile. */
  lemma {:induction false} StopIsRepeated(s: State, es: seq<Event>)
    requires s.Valid() && Legal(s, es) && s.stop.Some? && Popped(s, es) == []
    ensures Run(s, es).stop == s.stop
    ensures forall p | p in Sent(s, es) :: p == s.stop.value
    decreases |es|
  {
    if es == [] {
    } else {
      StepKeepsValid(s, es[0]);
      StopSurvives(s, es[0]);
      hide State.Valid, Step, Output;
      StopIsRepeated(Step(s, es[0]), es[1..]);
    }
  }

  lemma StopSurvives(s: State, e: Event)
    requires s.Valid() && s.stop.Some? && !(e.Tick? && s.queue != [])
    ensures Step(s, e).stop == s.stop
    ensures forall p | p in Output(s, e) :: p == s.stop.value
  {
  }

  /** Popping is the only way out of the queue. */
  lemma {:induction false} PopConserves(s: State, es: seq<Event>)
    requires s.Valid() && Legal(s, es)
    ensures multiset(s.queue) + multiset(Added(es)) == multiset(Popped(s, es)) + multiset(Run(s, es).queue)
    decreases |es|
  {
    if es == [] {
    } else {
      var t := Step(s, es[0]);
      StepKeepsValid(s, es[0]);
      QueueAfterStep(s, es[0]);
      hide State.Valid, Step, Output;
      PopConserves(t, es[1..]);
      var incoming := if es[0].Add? then [es[0].p] else [];
      var out := if es[0].Tick? && s.queue != [] then [s.queue[0]] else [];
      QueueBags(s.queue, incoming, out, t.queue, Added(es[1..]), Popped(t, es[1..]), Run(t, es[1..]).queue);
    }
  }

  lemma QueueBags(queue: seq<Packet>, incoming: seq<Packet>, out: seq<Packet>, queue': seq<Packet>,
                  added: seq<Packet>, popped: seq<Packet>, end: seq<Packet>)
    requires out + queue' == queue + incoming
    requires multiset(queue') + multiset(added) == multiset(popped) + multiset(end)
    ensures multiset(queue) + multiset(incoming + added) == multiset(out + popped) + multiset(end)
  {
    assert multiset(incoming + added) == multiset(incoming) + multiset(added);
    assert multiset(out + popped) == multiset(out) + multiset(popped);
    assert multiset(out) + multiset(queue') == multiset(out + queue') == multiset(queue) + multiset(incoming);
    assert multiset(queue) + (multiset(incoming) + multiset(added))
        == (multiset(out) + multiset(queue')) + multiset(added)
        == multiset(out) + (multiset(popped) + multiset(end));
  }

  lemma QueueAfterStep(s: State, e: Event)
    requires s.Valid()
    ensures (if e.Tick? && s.queue != [] then [s.queue[0]] else []) + Step(s, e).queue
      == s.queue + (if e.Add? then [e.p] else [])
  {
  }

  /** First come, first on the rails: whatever is added or cleared meanwhile, the packet with k others
      queued before it is the one the (k+1)-th tick sends. */
  lemma {:induction false} QueuedIsSentInTurn(s: State, es: seq<Event>, k: nat)
    requires s.Valid() && Legal(s, es) && k < |s.queue| && k < TickCount(es)
    ensures k < |Sent(s, es)| && Sent(s, es)[k] == s.queue[k]
    decreases |es|
  {
    if es == [] {
    } else {
      StepKeepsValid(s, es[0]);
      QueueAfterStep(s, es[0]);
      OutputIsFront(s, es[0]);
      hide State.Valid, Step, Output;
      if !es[0].Tick? {
        QueuedIsSentInTurn(Step(s, es[0]), es[1..], k);
      } else if k != 0 {
        QueuedIsSentInTurn(Step(s, es[0]), es[1..], k - 1);
      }
    }
  }

  lemma OutputIsFront(s: State, e: Event)
    requires s.Valid()
    ensures Output(s, e) == if e.Tick? then [s.Tick().1] else []
    ensures e.Tick? && s.queue != [] ==> s.Tick().1 == s.queue[0]
  {
  }

  /** A broadcast stop S is popped: it is sent, and of everything sent later each packet is S, idle,
      or popped after S; until something else is popped, only S is sent. */
  lemma AfterStopOnlyNewer(s: State, after: seq<Event>)
    requires s.Valid() && s.queue != [] && IsBroadcastStop(s.queue[0].bytes)
    requires LegalAfterTick(s, after)
    ensures var stop, t := s.queue[0], Step(s, Tick);
      && Output(s, Tick) == [stop]
      && (forall p | p in Sent(t, after) :: p == stop || p == s.idle || p in Popped(t, after))
      && (Popped(t, after) == [] ==> forall p | p in Sent(t, after) :: p == stop)
  {
    var t := Step(s, Tick);
    StopTick(s);
    hide State.Valid, Step, Output, Remembered, Legal, Run, Sent, Popped;
    SentIsRememberedOrPopped(t, after);
    if Popped(t, after) == [] {
      StopIsRepeated(t, after);
    }
  }

  /** In a run from power-up in which a broadcast stop is popped: nothing sent before the stop, idle
      apart, is ever sent again. */
  lemma NothingSentBeforeStopReturns(s0: State, before: seq<Event>, after: seq<Event>)
    requires Initial(s0) && Legal(s0, before)
    requires var s := Run(s0, before); s.queue != [] && IsBroadcastStop(s.queue[0].bytes)
    requires LegalAfterTick(Run(s0, before), after)
    requires Fresh(s0, before + [Tick] + after)
    ensures forall p | p in Sent(s0, before) && p != s0.idle :: p !in Sent(Step(Run(s0, before), Tick), after)
  {
    assert s0.Valid();
    hide State.Valid, State.Held, Step, Output, Legal, Run, Sent, Initial, Fresh;
    forall p | p in Sent(s0, before) && p != s0.idle ensures p !in Sent(Step(Run(s0, before), Tick), after) {
      IdleIsFixed(s0, before);
      SentEarlyWasPopped(s0, before, p);
      NothingPoppedTwice(s0, before, after);
      assert p in multiset(Popped(s0, before));
      SentLateWasPopped(Run(s0, before), after, p);
    }
  }

  lemma SentEarlyWasPopped(s0: State, before: seq<Event>, p: Packet)
    requires Initial(s0) && Legal(s0, before) && p in Sent(s0, before) && p != s0.idle
    ensures p in Popped(s0, before)
  {
    assert !Remembered(s0, p);
    SentIsRememberedOrPopped(s0, before);
  }

  lemma SentLateWasPopped(s: State, after: seq<Event>, p: Packet)
    requires s.Valid() && s.queue != [] && IsBroadcastStop(s.queue[0].bytes)
    requires LegalAfterTick(s, after)
    ensures p in Sent(Step(s, Tick), after) && p != s.idle ==>
      p in multiset{s.queue[0]} + multiset(Popped(Step(s, Tick), after))
  {
    hide State.Valid, Step, Legal, Sent, Popped;
    AfterStopOnlyNewer(s, after);
  }

  lemma StopTick(s: State)
    requires s.Valid() && s.queue != [] && IsBroadcastStop(s.queue[0].bytes)
    ensures var t := Step(s, Tick);
      && Output(s, Tick) == [s.queue[0]] && t.stop == Some(s.queue[0]) && t.idle == s.idle
      && (forall p :: Remembered(t, p) <==> p == s.queue[0])
  {
    ClearKeepsValid(s.cache);
  }

  lemma {:induction false} IdleIsFixed(s: State, es: seq<Event>)
    requires s.Valid() && Legal(s, es)
    ensures Run(s, es).idle == s.idle
    decreases |es|
  {
    if es == [] {
    } else {
      StepKeepsValid(s, es[0]);
      StepKeepsFreed(s, es[0]);
      hide State.Valid, Step, Output;
      IdleIsFixed(Step(s, es[0]), es[1..]);
    }
  }

  lemma {:induction false} AddedConcat(es: seq<Event>, fs: seq<Event>)
    ensures Added(es + fs) == Added(es) + Added(fs)
  {
    if es == [] {
      assert es + fs == fs;
    } else {
      AddedConcat(es[1..], fs);
      assert (es + fs)[0] == es[0] && (es + fs)[1..] == es[1..] + fs;
      var head := if es[0].Add? then [es[0].p] else [];
      assert head + (Added(es[1..]) + Added(fs)) == head + Added(es[1..]) + Added(fs);
    }
  }

  lemma NothingPoppedTwice(s0: State, before: seq<Event>, after: seq<Event>)
    requires Initial(s0) && Legal(s0, before) && Run(s0, before).queue != []
    requires LegalAfterTick(Run(s0, before), after)
    requires Fresh(s0, before + [Tick] + after)
    ensures var s := Run(s0, before);
      multiset(Popped(s0, before)) !! multiset{s.queue[0]} + multiset(Popped(Step(s, Tick), after))
  {
    var s := Run(s0, before);
    AllPopped(s0, before, after);
    assert s0.Held() == multiset{};
    hide State.Valid, State.Held, Step, Legal, Run, Popped, Initial;
    var a, b := multiset(Popped(s0, before)), multiset{s.queue[0]} + multiset(Popped(Step(s, Tick), after));
    DistinctPart(multiset{}, multiset(Added(before + [Tick] + after)));
    DistinctPart(a + b, multiset(Run(Step(s, Tick), after).queue));
    DistinctPart(a, b);
  }

  lemma AllPopped(s0: State, before: seq<Event>, after: seq<Event>)
    requires Initial(s0) && Legal(s0, before) && Run(s0, before).queue != []
    requires LegalAfterTick(Run(s0, before), after)
    ensures var s := Run(s0, before);
      var t := Step(s, Tick);
      multiset(Added(before + [Tick] + after)) ==
        multiset(Popped(s0, before)) + (multiset{s.queue[0]} + multiset(Popped(t, after))) + multiset(Run(t, after).queue)
  {
    var s := Run(s0, before);
    var t := Step(s, Tick);
    QueueAfterStep(s, Tick);
    hide State.Valid, Step, Legal, Run, Popped;
    PopConserves(s0, before);
    PopConserves(t, after);
    AddedConcat(before, [Tick]);
    AddedConcat(before + [Tick], after);
    assert Added([Tick]) == [];
    PoppedBags(Added(before), Popped(s0, before), s.queue, t.queue, Added(after), Popped(t, after), Run(t, after).queue);
  }

  lemma PoppedBags(added: seq<Packet>, popped: seq<Packet>, queue: seq<Packet>, queue': seq<Packet>,
                   added': seq<Packet>, popped': seq<Packet>, end: seq<Packet>)
    requires queue != [] && queue == [queue[0]] + queue'
    requires multiset(added) == multiset(popped) + multiset(queue)
    requires multiset(queue') + multiset(added') == multiset(popped') + multiset(end)
    ensures multiset(added + added') == multiset(popped) + (multiset{queue[0]} + multiset(popped')) + multiset(end)
  {
    assert multiset(queue) == multiset{queue[0]} + multiset(queue');
    assert multiset(added + added') == multiset(added) + multiset(added');
    assert multiset(added) + multiset(added')
        == multiset(popped) + multiset{queue[0]} + (multiset(queue') + multiset(added'));
  }

  /** The situation of the stop theorems arises: a stop packet added at power-up. */
  lemma StopIsPossible(s0: State, id: nat)
    requires Initial(s0) && s0.idle.id != id
    ensures var p := Packet(id, BROADCAST_STOP);
      && Legal(s0, [Add(p)]) && Run(s0, [Add(p)]).queue == [p] && Fresh(s0, [Add(p)] + [Tick] + [])
      && LegalAfterTick(Run(s0, [Add(p)]), [])
  {
    var p := Packet(id, BROADCAST_STOP);
    assert |p.bytes| == BASELINE_LEN;
    StepKeepsValid(s0, Add(p));
    StepKeepsValid(s0.AddPacket(p), Tick);
    assert [Add(p)][1..] == [];
    var es := [Add(p)] + [Tick] + [];
    assert es[1..] == [Tick] && [Tick][1..] == [];
    assert Added(es) == [p];
    assert s0.Held() == multiset{};
  }
}
