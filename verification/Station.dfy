/** The command station end to end: from the text typed at the terminal to what a decoder on the rails
    makes of it, through scanner, parser, scheduler, cache, serialiser and clock. */
module Station {
  import opened Wrappers
  import opened Dcc
  import opened Wire
  import opened Baseline
  import opened Scanner
  import opened Parser
  import opened Commands
  import opened CommandText
  import opened Packets
  import opened Scheduler
  import opened Runs
  import opened Cache
  import opened HashTable
  import opened Refresh
  import opened Track
  import S = Signal
  import opened Timing

  /** The packet is the result of parsing some line. */
  ghost predicate Typed(p: Packet) {
    exists text, garbage :: ParseText(text, garbage) == Some(DccResult(p.bytes))
  }

  lemma TypedIsLegal(p: Packet)
    requires Typed(p)
    ensures LegalBaseline(p.bytes)
  {
    var text, garbage :| ParseText(text, garbage) == Some(DccResult(p.bytes));
    hide *;
    TextTokens(text, garbage);
    AcceptedFramesAreLegal(Tokens(text, false), garbage);
  }

  lemma TextTokens(text: string, garbage: bool)
    ensures ParseText(text, garbage) == ParseTokens(Tokens(text, false), garbage)
  {
  }

  /** What a decoder should make of a packet sent: nothing of an idle packet, and of any other the
      command its getters describe. */
  function Meaning(bytes: Bytes): Option<Command>
    requires |bytes| == BASELINE_LEN
  {
    if bytes == IDLE then None
    else Some(Command(AddressOf(bytes) as nat, SpeedStepOf(bytes), DirectionOf(bytes) == FORWARD))
  }

  lemma PayloadMeaning(bytes: Bytes)
    requires Baselined(bytes)
    ensures |bytes| == BASELINE_LEN && Interpret(Payload(bytes)) == Meaning(bytes)
  {
    if bytes != IDLE {
      DecoderAgreesWithGetters(bytes);
    }
  }

  lemma TypedAreLegal(ps: seq<Packet>)
    requires forall p | p in ps :: Typed(p)
    ensures forall p | p in ps :: LegalBaseline(p.bytes)
  {
    hide LegalBaseline;
    forall p | p in ps ensures LegalBaseline(p.bytes) {
      TypedIsLegal(p);
    }
  }

  /** Exactly which numbers typed after `cache show` are looked up within the table: modulo 0x1_0000,
      those below 0x8000, which wrap to no negative address, and those that wrap to a multiple of the
      table's size. */
  lemma TypedShowWithinTableIff(words: seq<Lexeme>, tail: string, garbage: bool)
    requires WellSpaced(words, tail) && |words| == 3
    requires TypedTokens(words, tail)[..2] == [Token.Cache, Show] && words[2].Numeral?
    ensures words[2].Valid()
    ensures var r, n := ParseText(LineText(words) + tail, garbage), Value(words[2].digits) % 0x1_0000;
      && r.Some? && r.value.SysResult? && r.value.cmd.CacheShowCmd?
      && (WithinTable(r.value.cmd.address, ADDR_SIZE) <==> n < 0x8000 || n % ADDR_SIZE == 16)
      && (0 <= r.value.cmd.address <==> n < 0x8000)
  {
    TypedShowMeaning(words, tail, garbage);
    WrappedWithinTable(Value(words[2].digits));
    hide *;
  }

  lemma WrappedWithinTable(n: nat)
    ensures WithinTable(Wrap16(n), ADDR_SIZE) <==> n % 0x1_0000 < 0x8000 || n % 0x1_0000 % ADDR_SIZE == 16
    ensures 0 <= Wrap16(n) <==> n % 0x1_0000 < 0x8000
  {
    var m := n % 0x1_0000;
    WrapOfRemainder(n);
    WithinTableExact(Wrap16(n), ADDR_SIZE);
    hide WithinTable, Wrap16;
    WrappedMultiple(m);
  }

  lemma WrapOfRemainder(n: nat)
    ensures var m := n % 0x1_0000; Wrap16(n) == if m < 0x8000 then m else m - 0x1_0000
  {
  }

  lemma WrappedMultiple(m: nat)
    ensures (m - 0x1_0000) % ADDR_SIZE == 0 <==> m % ADDR_SIZE == 16
  {
  }

  /** Whatever lines are typed and whenever: in every run from power-up whose packets were typed, a
      decoder hears one valid packet for every tick, in the order the scheduler sent them, and each
      means what the getters of that packet say. */
  lemma TypedRunIsHeard(d: Decoder, ones: nat, signal: S.SignalState, elapsed: nat, s: State, es: seq<Event>)
    requires d.minPreamble <= PREAMBLE && Steady(signal, elapsed)
    requires Initial(s) && Legal(s, es) && forall p | p in Added(es) :: Typed(p)
    ensures AllBaselined(Sent(s, es))
    ensures var heard := Receive(d, Hunt(ones), Rails(signal, elapsed, Sent(s, es))).1;
      && |heard| == |Sent(s, es)| == TickCount(es)
      && forall i | 0 <= i < |heard| ::
           && heard[i].Received? && |Sent(s, es)[i].bytes| == BASELINE_LEN
           && Interpret(heard[i].data) == Meaning(Sent(s, es)[i].bytes)
  {
    TypedAreLegal(Added(es));
    DecoderHearsRun(d, ones, signal, elapsed, s, es);
    HeardMeans(Sent(s, es));
    OnePacketPerTick(s, es);
  }

  /** The same from power-up of the serialiser as well, after any number of cycles to the first tick. */
  lemma TypedRunIsHeardFromPowerUp(d: Decoder, ones: nat, cycles: nat, s: State, es: seq<Event>)
    requires d.minPreamble <= PREAMBLE
    requires Initial(s) && Legal(s, es) && forall p | p in Added(es) :: Typed(p)
    ensures AllBaselined(Sent(s, es)) && forall p | p in Sent(s, es) :: p.Sendable()
    ensures var heard := Receive(d, Hunt(ones), RailsFromPowerUp(cycles, Sent(s, es))).1;
      && |heard| == |Sent(s, es)| == TickCount(es)
      && forall i | 0 <= i < |heard| ::
           && heard[i].Received? && |Sent(s, es)[i].bytes| == BASELINE_LEN
           && Interpret(heard[i].data) == Meaning(Sent(s, es)[i].bytes)
  {
    assert s.Valid();
    hide *;
    TypedAreLegal(Added(es));
    DecoderHearsRunFromPowerUp(d, ones, cycles, s, es);
    HeardMeans(Sent(s, es));
    OnePacketPerTick(s, es);
  }

  lemma HeardMeans(sent: seq<Packet>)
    requires AllBaselined(sent)
    ensures |Heard(sent)| == |sent|
    ensures forall i | 0 <= i < |sent| ::
      && Heard(sent)[i].Received? && |sent[i].bytes| == BASELINE_LEN
      && Interpret(Heard(sent)[i].data) == Meaning(sent[i].bytes)
  {
    hide Interpret, Meaning, Payload, Baselined;
    forall i | 0 <= i < |sent| ensures |sent[i].bytes| == BASELINE_LEN
      ensures Heard(sent)[i].Received? && Interpret(Heard(sent)[i].data) == Meaning(sent[i].bytes)
    {
      assert sent[i] in sent;
      PayloadMeaning(sent[i].bytes);
    }
  }

  lemma DriveIsNotIdle(b: Bytes)
    requires LegalBaseline(b)
    ensures |b| == BASELINE_LEN && Baselined(b) && Payload(b) == DataOf(b)
  {
    if b == IDLE {
      IdleIsNotLegal();
    }
  }

  lemma IdleIsNotLegal()
    ensures !LegalBaseline(IDLE)
  {
    var b := IDLE;
    assert b[1] == 0xF7;
  }

  lemma {:induction false} SentIsSendable(s: State, es: seq<Event>)
    requires s.Valid() && Legal(s, es)
    ensures forall p | p in Sent(s, es) :: p.Sendable()
    decreases |es|
  {
    if es == [] {
    } else {
      StepKeepsValid(s, es[0]);
      hide State.Valid, Step;
      SentIsSendable(Step(s, es[0]), es[1..]);
    }
  }

  /** What is queued goes out first and in order. */
  lemma QueueIsSentFirst(s: State, es: seq<Event>, n: nat)
    requires s.Valid() && Legal(s, es) && n <= |s.queue| && n <= TickCount(es)
    ensures n <= |Sent(s, es)| && Sent(s, es)[..n] == s.queue[..n]
  {
    OnePacketPerTick(s, es);
    hide *;
    forall k | 0 <= k < n ensures Sent(s, es)[k] == s.queue[k] {
      QueuedIsSentInTurn(s, es, k);
    }
  }

  /** A drive line typed while k packets are queued is heard in its turn: in every run from then on,
      the (k+1)-th packet a decoder hears is that line's, with its address modulo 128, its step modulo
      29 and its direction, whatever else is added, cleared or sent later. */
  lemma TypedDriveIsHeardInTurn(d: Decoder, ones: nat, signal: S.SignalState, elapsed: nat, s: State,
                                line: DriveLine, address: int, step: int, garbage: bool, id: nat, es: seq<Event>)
    requires d.minPreamble <= PREAMBLE && Steady(signal, elapsed) && line.Says(address, step)
    requires s.Valid() && |s.queue| < TX_QUEUE_LEN && forall p | p in s.queue :: Baselined(p.bytes)
    ensures var r := ParseText(line.Text(), garbage);
      r.Some? && r.value.DccResult? && |r.value.bytes| == BASELINE_LEN
    ensures var bytes := ParseText(line.Text(), garbage).value.bytes;
      var t := s.AddPacket(Packet(id, bytes));
      && t.Valid()
      && Interpret(DataOf(bytes)) == Some(Command(address % 128, step % 256 % 29, line.forward))
      && (Legal(t, es) && |s.queue| < TickCount(es) ==>
            && (forall p | p in Sent(t, es) :: p.Sendable())
            && var heard := Receive(d, Hunt(ones), Rails(signal, elapsed, Sent(t, es))).1;
               |s.queue| < |heard| && heard[|s.queue|] == Received(DataOf(bytes)))
  {
    TypedDriveMeaning(line, address, step, garbage);
    var p := Packet(id, ParseText(line.Text(), garbage).value.bytes);
    hide *;
    DriveIsNotIdle(p.bytes);
    Queued(s, p);
    if Legal(s.AddPacket(p), es) && |s.queue| < TickCount(es) {
      HeardInTurn(d, ones, signal, elapsed, s, p, es);
    }
  }

  lemma Queued(s: State, p: Packet)
    requires s.Valid() && |s.queue| < TX_QUEUE_LEN && |p.bytes| == BASELINE_LEN
    ensures s.AddPacket(p).Valid() && s.AddPacket(p).queue == s.queue + [p]
  {
  }

  lemma HeardInTurn(d: Decoder, ones: nat, signal: S.SignalState, elapsed: nat, s: State, p: Packet, es: seq<Event>)
    requires d.minPreamble <= PREAMBLE && Steady(signal, elapsed)
    requires s.Valid() && s.AddPacket(p).Valid() && s.AddPacket(p).queue == s.queue + [p]
    requires Legal(s.AddPacket(p), es) && |s.queue| < TickCount(es)
    requires Baselined(p.bytes) && |p.bytes| == BASELINE_LEN && forall q | q in s.queue :: Baselined(q.bytes)
    ensures forall q | q in Sent(s.AddPacket(p), es) :: q.Sendable()
    ensures var heard := Receive(d, Hunt(ones), Rails(signal, elapsed, Sent(s.AddPacket(p), es))).1;
      |s.queue| < |heard| && heard[|s.queue|] == Received(Payload(p.bytes))
  {
    hide *;
    var t, n := s.AddPacket(p), |s.queue| + 1;
    SentIsSendable(t, es);
    QueueIsSentFirst(t, es, n);
    assert t.queue[..n] == s.queue + [p];
    LastHeard(s.queue, p);
    FirstAreHeard(d, ones, signal, elapsed, Sent(t, es), n);
  }

  lemma LastHeard(queue: seq<Packet>, p: Packet)
    requires Baselined(p.bytes) && |p.bytes| == BASELINE_LEN && forall q | q in queue :: Baselined(q.bytes)
    ensures AllBaselined(queue + [p]) && |Heard(queue + [p])| == |queue| + 1
    ensures Heard(queue + [p])[|queue|] == Received(Payload(p.bytes))
  {
    hide Baselined, Payload;
  }

  /** The same for whole runs from power-up: if what is typed before and after makes a legal run, the
      line's command is what a decoder hears at tick number n + k + 1, where n ticks came before the
      line and k packets were queued then. */
  lemma TypedDriveIsHeardInRun(d: Decoder, ones: nat, signal: S.SignalState, elapsed: nat, s: State, es: seq<Event>,
                               before: seq<Event>, p: Packet, after: seq<Event>,
                               line: DriveLine, address: int, step: int, garbage: bool)
    requires d.minPreamble <= PREAMBLE && Steady(signal, elapsed)
    requires es == before + ([Add(p)] + after) && Initial(s) && Legal(s, before) && Legal(s, es)
    requires forall q | q in Added(before) + Added(after) :: Typed(q)
    requires line.Says(address, step) && ParseText(line.Text(), garbage) == Some(DccResult(p.bytes))
    requires |Run(s, before).queue| < TickCount(after)
    ensures AllBaselined(Sent(s, es))
    ensures var heard := Receive(d, Hunt(ones), Rails(signal, elapsed, Sent(s, es))).1;
      var turn := TickCount(before) + |Run(s, before).queue|;
      && turn < |heard| && heard[turn].Received?
      && Interpret(heard[turn].data) == Some(Command(address % 128, step % 256 % 29, line.forward))
  {
    assert Typed(p) && s.Valid();
    hide *;
    AllTyped(before, p, after);
    DecoderHearsRun(d, ones, signal, elapsed, s, es);
    SentInTurn(s, before, p, after);
    LinePayload(p, line, address, step, garbage);
    HeardAt(Sent(s, es), TickCount(before) + |Run(s, before).queue|);
  }

  lemma AllTyped(before: seq<Event>, p: Packet, after: seq<Event>)
    requires Typed(p) && forall q | q in Added(before) + Added(after) :: Typed(q)
    ensures forall q | q in Added(before + ([Add(p)] + after)) :: LegalBaseline(q.bytes)
  {
    hide *;
    AddedInTwo(before, p, after);
    TypedAreLegal(Added(before + ([Add(p)] + after)));
  }

  lemma LinePayload(p: Packet, line: DriveLine, address: int, step: int, garbage: bool)
    requires line.Says(address, step) && ParseText(line.Text(), garbage) == Some(DccResult(p.bytes))
    ensures |p.bytes| == BASELINE_LEN
    ensures Interpret(Payload(p.bytes)) == Some(Command(address % 128, step % 256 % 29, line.forward))
  {
    hide *;
    TypedDriveMeaning(line, address, step, garbage);
    DriveIsNotIdle(p.bytes);
  }

  lemma AddedInTwo(before: seq<Event>, p: Packet, after: seq<Event>)
    ensures forall q | q in Added(before + ([Add(p)] + after)) :: q in Added(before) + Added(after) || q == p
  {
    assert ([Add(p)] + after)[1..] == after;
    AddedConcat(before, [Add(p)] + after);
  }

  lemma HeardAt(sent: seq<Packet>, i: nat)
    requires AllBaselined(sent) && i < |sent|
    ensures |sent[i].bytes| == BASELINE_LEN && i < |Heard(sent)| && Heard(sent)[i] == Received(Payload(sent[i].bytes))
  {
    assert sent[i] in sent;
    hide Payload;
  }

  lemma SentInTurn(s: State, before: seq<Event>, p: Packet, after: seq<Event>)
    requires s.Valid() && Legal(s, before) && Legal(s, before + ([Add(p)] + after))
    requires |Run(s, before).queue| < TickCount(after)
    ensures var turn, sent := TickCount(before) + |Run(s, before).queue|, Sent(s, before + ([Add(p)] + after));
      turn < |sent| && sent[turn] == p
  {
    var t, rest := Run(s, before), [Add(p)] + after;
    hide *;
    LegalConcat(s, before, rest);
    RunConcat(s, before, rest);
    OnePacketPerTick(s, before);
    AddFirst(t, p, after);
    QueueIsSentFirst(t.AddPacket(p), after, |t.queue| + 1);
    assert Sent(t, rest)[|t.queue|] == Sent(t, rest)[..|t.queue| + 1][|t.queue|];
  }

  lemma AddFirst(t: State, p: Packet, after: seq<Event>)
    requires t.Valid() && Legal(t, [Add(p)] + after)
    ensures var u := t.AddPacket(p);
      u.Valid() && u.queue == t.queue + [p] && Legal(u, after) && Sent(t, [Add(p)] + after) == Sent(u, after)
  {
    assert ([Add(p)] + after)[1..] == after;
    StepKeepsValid(t, Add(p));
  }

  /** A stop line without an address, once taken from the queue: from then on, until another packet is
      taken from the queue, a decoder hears that broadcast stop at every tick and nothing else: the
      emergency stop if `all` was typed, and otherwise the stop that keeps the power on. */
  lemma TypedStopIsAllThatIsHeard(d: Decoder, ones: nat, signal: S.SignalState, elapsed: nat,
                                  s: State, after: seq<Event>, text: string, rest: seq<Token>, garbage: bool)
    requires d.minPreamble <= PREAMBLE && Steady(signal, elapsed)
    requires Tokens(text, false) == [Token.Stop] + rest && forall n :: !([Token.Addr, Number(n)] <= rest)
    requires s.Valid() && s.queue != [] && ParseText(text, garbage) == Some(DccResult(s.queue[0].bytes))
    requires LegalAfterTick(s, after) && Popped(Step(s, Tick), after) == []
    ensures Output(s, Tick) == [s.queue[0]]
    ensures forall p | p in Sent(Step(s, Tick), after) :: p == s.queue[0] && p.Sendable()
    ensures Receive(d, Hunt(ones), Rails(signal, elapsed, Sent(Step(s, Tick), after))).1 ==
      seq(TickCount(after), _ =>
        Received(if [All] <= rest || [Token.Addr, All] <= rest then [0x00, 0x71, 0x71] else [0x00, 0x70, 0x70]))
  {
    StopMeaning(rest, garbage);
    StopsAreFinished();
    SpecialPacketsCarry();
    assert s.queue[0].bytes == if [All] <= rest || [Token.Addr, All] <= rest then EMERGENCY_STOP else BROADCAST_STOP;
    assert IsBroadcastStop(s.queue[0].bytes) && LegalBaseline(s.queue[0].bytes);
    AfterStopOnlyNewer(s, after);
    StopTick(s);
    hide *;
    OnlyStopsAreHeard(d, ones, signal, elapsed, Step(s, Tick), after);
    DataOfStops();
  }

  lemma DataOfStops()
    ensures |BROADCAST_STOP| == |EMERGENCY_STOP| == BASELINE_LEN
    ensures DataOf(BROADCAST_STOP) == [0x00, 0x70, 0x70] && DataOf(EMERGENCY_STOP) == [0x00, 0x71, 0x71]
  {
    var b, e := BROADCAST_STOP, EMERGENCY_STOP;
    StopData(b[1], b[2], b[3]);
    StopData(e[1], e[2], e[3]);
  }

  /** Refreshing on the rails: with n locos cached, nothing queued and no stop in force, n ticks let a
      decoder hear the latest command of every loco exactly once, in queue order. */
  lemma RoundIsHeard(d: Decoder, ones: nat, signal: S.SignalState, elapsed: nat, s: State)
    requires d.minPreamble <= PREAMBLE && Steady(signal, elapsed)
    requires Calm(s) && s.queue == [] && forall a | a in s.cache.Map() :: LegalBaseline(s.cache.Map()[a].bytes)
    ensures Legal(s, Ticks(|s.cache.ring|)) && AllBaselined(Sent(s, Ticks(|s.cache.ring|)))
    ensures var heard := Receive(d, Hunt(ones), Rails(signal, elapsed, Sent(s, Ticks(|s.cache.ring|)))).1;
      && |heard| == |s.cache.ring| == |s.cache.Map()|
      && forall i | 0 <= i < |heard| :: s.cache.ring[i] in s.cache.Map() && HearsLatest(s.cache, s.cache.ring[i], heard[i])
  {
    CalmParts(s);
    RoundRobin(s);
    var sent := Sent(s, Ticks(|s.cache.ring|));
    hide *;
    InOrderIsLegal(s.cache, sent);
    RailsAreHeard(d, ones, signal, elapsed, sent);
    HeardMeans(sent);
    InOrderIsHeard(s.cache, sent);
  }

  /** The reception is the command of the packet cached for loco a, and addressed to a. */
  ghost predicate HearsLatest(c: CacheState, a: int, r: Reception)
    requires c.Valid() && a in c.Map()
  {
    && r.Received? && |c.Map()[a].bytes| == BASELINE_LEN
    && Interpret(r.data) == Some(Command(a, SpeedStepOf(c.Map()[a].bytes), DirectionOf(c.Map()[a].bytes) == FORWARD))
  }

  lemma InOrderIsLegal(c: CacheState, sent: seq<Packet>)
    requires c.Valid() && InQueueOrder(c, sent) && forall a | a in c.Map() :: LegalBaseline(c.Map()[a].bytes)
    ensures AllBaselined(sent) && forall p | p in sent :: p.Sendable()
  {
    hide LegalBaseline, CacheState.Map, CacheState.Valid;
    forall p | p in sent ensures Baselined(p.bytes) && p.Sendable() {
      DriveIsNotIdle(p.bytes);
    }
  }

  lemma InOrderIsHeard(c: CacheState, sent: seq<Packet>)
    requires c.Valid() && InQueueOrder(c, sent) && AllBaselined(sent) && |Heard(sent)| == |sent|
    requires forall a | a in c.Map() :: LegalBaseline(c.Map()[a].bytes)
    requires forall i | 0 <= i < |sent| ::
      && Heard(sent)[i].Received? && |sent[i].bytes| == BASELINE_LEN
      && Interpret(Heard(sent)[i].data) == Meaning(sent[i].bytes)
    ensures forall i | 0 <= i < |sent| :: c.ring[i] in c.Map() && HearsLatest(c, c.ring[i], Heard(sent)[i])
  {
    forall i | 0 <= i < |sent| ensures c.ring[i] in c.Map() && HearsLatest(c, c.ring[i], Heard(sent)[i]) {
      var a := c.ring[i];
      assert sent[i] == c.Map()[a];
      CachedUnderOwnAddress(c, a);
      NotIdleMeaning(sent[i]);
    }
  }

  lemma NotIdleMeaning(p: Packet)
    requires LegalBaseline(p.bytes)
    ensures 3 <= |p.bytes| && Meaning(p.bytes) ==
      Some(Command(p.Address(), SpeedStepOf(p.bytes), DirectionOf(p.bytes) == FORWARD))
  {
    if p.bytes == IDLE {
      IdleIsNotLegal();
    }
  }

  /** What is remembered of a run was added in it. */
  lemma {:induction false} LatestWasPopped(s: State, m: map<int, Packet>, es: seq<Event>)
    requires s.Valid() && Legal(s, es)
    ensures forall a | a in Latest(s, m, es) ::
      (a in m && Latest(s, m, es)[a] == m[a]) || Latest(s, m, es)[a] in Popped(s, es)
    decreases |es|
  {
    if es == [] {
    } else {
      StepKeepsValid(s, es[0]);
      hide State.Valid, Step, IsBroadcastStop;
      LatestWasPopped(Step(s, es[0]), Remember(s, m, es[0]), es[1..]);
    }
  }

  lemma LatestWasAdded(s: State, es: seq<Event>)
    requires Initial(s) && Legal(s, es)
    ensures forall a | a in Latest(s, map[], es) :: Latest(s, map[], es)[a] in Added(es)
  {
    LatestWasPopped(s, map[], es);
    PopConserves(s, es);
    hide State.Valid, Latest, Legal, Run, Popped, Added;
    forall a | a in Latest(s, map[], es) ensures Latest(s, map[], es)[a] in Added(es) {
      assert Latest(s, map[], es)[a] in multiset(Popped(s, es)) + multiset(Run(s, es).queue);
      assert Latest(s, map[], es)[a] in multiset(s.queue) + multiset(Added(es));
    }
  }

  /** What the station is for, from the typed line to the decoder: after any run from power-up of typed
      packets that leaves at most 20 locos, no stop and an empty queue, n ticks, for n locos, let a
      decoder hear n commands, one for each loco: the latest typed for it. */
  lemma LatestIsHeardInRound(d: Decoder, ones: nat, signal: S.SignalState, elapsed: nat, s: State, es: seq<Event>)
    requires d.minPreamble <= PREAMBLE && Steady(signal, elapsed)
    requires Initial(s) && Legal(s, es) && forall p | p in Added(es) :: Typed(p)
    requires |Latest(s, map[], es)| <= ADDR_SIZE && Run(s, es).stop == None && Run(s, es).queue == []
    ensures var t, m := Run(s, es), Latest(s, map[], es);
      && Legal(t, Ticks(|m|)) && AllBaselined(Sent(t, Ticks(|m|)))
      && |t.cache.ring| == |m| && (forall a | a in m :: a in t.cache.ring)
      && var heard := Receive(d, Hunt(ones), Rails(signal, elapsed, Sent(t, Ticks(|m|)))).1;
         && |heard| == |m|
         && forall i | 0 <= i < |heard| :: var a := t.cache.ring[i];
              && a in m && |m[a].bytes| == BASELINE_LEN && heard[i].Received?
              && Interpret(heard[i].data) ==
                 Some(Command(a, SpeedStepOf(m[a].bytes), DirectionOf(m[a].bytes) == FORWARD))
  {
    var t := Run(s, es);
    assert s.Valid() && t.cache.Valid();
    hide *;
    LatestIsRefined(s, es);
    LatestIsLegal(s, es);
    LatestIsCalm(t, Latest(s, map[], es));
    RoundIsHeard(d, ones, signal, elapsed, t);
    RoundMeans(t.cache, Receive(d, Hunt(ones), Rails(signal, elapsed, Sent(t, Ticks(|t.cache.ring|)))).1);
  }

  lemma LatestIsRefined(s: State, es: seq<Event>)
    requires Initial(s) && Legal(s, es) && |Latest(s, map[], es)| <= ADDR_SIZE
    ensures Refines(Run(s, es).cache, Latest(s, map[], es))
  {
    CacheIsLatestIffAtMost20(s, es);
    hide *;
  }

  lemma LatestIsLegal(s: State, es: seq<Event>)
    requires Initial(s) && Legal(s, es) && forall p | p in Added(es) :: Typed(p)
    ensures forall a | a in Latest(s, map[], es) :: LegalBaseline(Latest(s, map[], es)[a].bytes)
  {
    assert s.Valid();
    hide *;
    LatestWasAdded(s, es);
    TypedAreLegal(Added(es));
  }

  lemma LatestIsCalm(t: State, m: map<int, Packet>)
    requires t.Valid() && t.stop == None && t.cache.Valid() && Refines(t.cache, m)
    ensures Calm(t) && t.cache.Map() == m && |t.cache.ring| == |m| && forall a | a in m :: a in t.cache.ring
  {
    CalmParts(t);
  }

  lemma RoundMeans(c: CacheState, heard: seq<Reception>)
    requires c.Valid() && |heard| == |c.ring|
    requires forall i | 0 <= i < |heard| :: c.ring[i] in c.Map() && HearsLatest(c, c.ring[i], heard[i])
    ensures forall i | 0 <= i < |heard| :: var a := c.ring[i];
      && a in c.Map() && |c.Map()[a].bytes| == BASELINE_LEN && heard[i].Received?
      && Interpret(heard[i].data) ==
         Some(Command(a, SpeedStepOf(c.Map()[a].bytes), DirectionOf(c.Map()[a].bytes) == FORWARD))
  {
    hide CacheState.Valid, CacheState.Map, Interpret, SpeedStepOf, DirectionOf;
  }
}
