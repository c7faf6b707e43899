/** Scheduler, serialiser and clock together: what a decoder on the rails hears of a whole run. */
module Track {
  import opened Wrappers
  import opened Dcc
  import opened Wire
  import opened Baseline
  import opened Packets
  import opened Scheduler
  import opened Runs
  import S = Signal
  import opened Timing

  /** The bits on the rails when one packet is sent at every tick; the bit on the rails at the first
      send has lasted `elapsed` cycles. */
  ghost function Rails(signal: S.SignalState, elapsed: nat, sent: seq<Packet>): BitSeq
    requires InPhase(signal, elapsed) && forall p | p in sent :: p.Sendable()
    decreases |sent|
  {
    if sent == [] then []
    else
      assert sent[0] in sent && sent[0].Sendable();
      var p := SendAndRun(signal, elapsed, sent[0].bytes);
      p.done + Rails(p.state, p.elapsed, sent[1..])
  }

  /** The data bytes a decoder should hear of a packet. */
  function Payload(bytes: Bytes): Bytes
    requires |bytes| == BASELINE_LEN
  {
    if bytes == IDLE then [0xFF, 0x00, 0xFF] else DataOf(bytes)
  }

  predicate Baselined(bytes: Bytes) {
    bytes == IDLE || LegalBaseline(bytes)
  }

  lemma PayloadCarried(bytes: Bytes)
    requires Baselined(bytes)
    ensures Carries(bytes, Payload(bytes))
  {
    SpecialPacketsCarry();
    if bytes != IDLE {
      LegalCarriesData(bytes);
    }
  }

  ghost predicate AllBaselined(sent: seq<Packet>) {
    forall p | p in sent :: Baselined(p.bytes)
  }

  ghost function Heard(sent: seq<Packet>): seq<Reception>
    requires AllBaselined(sent)
  {
    seq(|sent|, i requires 0 <= i < |sent| => assert sent[i] in sent; Received(Payload(sent[i].bytes)))
  }

  /** Whatever the phase of the bit clock, every frame is on the rails whole, followed by at least ten
      ones, and so the decoder hears exactly the packets sent, in order, each with a valid error byte. */
  lemma {:induction false} RailsAreHeard(d: Decoder, ones: nat, signal: S.SignalState, elapsed: nat, sent: seq<Packet>)
    requires d.minPreamble <= PREAMBLE && Steady(signal, elapsed) && AllBaselined(sent)
    ensures Receive(d, Hunt(ones), Rails(signal, elapsed, sent)).1 == Heard(sent)
    decreases |sent|
  {
    if sent == [] {
    } else {
      var bytes := sent[0].bytes;
      assert sent[0] in sent;
      var ones' := HearOne(d, ones, signal, elapsed, bytes);
      FirstThenRest(sent);
      RailsUnfold(signal, elapsed, sent);
      hide *;
      var p := SendAndRun(signal, elapsed, bytes);
      RailsAreHeard(d, ones', p.state, p.elapsed, sent[1..]);
      ReceiveConcat(d, Hunt(ones), p.done, Rails(p.state, p.elapsed, sent[1..]));
    }
  }

  lemma FirstThenRest(sent: seq<Packet>)
    requires AllBaselined(sent) && sent != []
    ensures AllBaselined(sent[1..]) && forall p | p in sent :: p.Sendable()
    ensures Heard(sent) == [Received(Payload(sent[0].bytes))] + Heard(sent[1..])
  {
    assert sent[0] in sent;
    hide Payload;
  }

  lemma RailsUnfold(signal: S.SignalState, elapsed: nat, sent: seq<Packet>)
    requires InPhase(signal, elapsed) && (forall p | p in sent :: p.Sendable()) && sent != []
    ensures sent[0].Sendable() && forall p | p in sent[1..] :: p.Sendable()
    ensures var p := SendAndRun(signal, elapsed, sent[0].bytes);
      Rails(signal, elapsed, sent) == p.done + Rails(p.state, p.elapsed, sent[1..])
  {
    assert sent[0] in sent;
    hide SendAndRun;
  }

  /** A frame is on the rails whole, followed by at least ten ones, and the next send is not missed. */
  lemma OneOnRails(signal: S.SignalState, elapsed: nat, bytes: Bytes) returns (gap: nat)
    requires Steady(signal, elapsed) && Baselined(bytes)
    ensures |bytes| == BASELINE_LEN && Carries(bytes, Payload(bytes)) && 10 <= gap
    ensures var p := SendAndRun(signal, elapsed, bytes);
      p.done == Bits(bytes) + Ones(gap) && Steady(p.state, p.elapsed)
  {
    PayloadCarried(bytes);
    assert |bytes| == BASELINE_LEN && InPhase(signal, elapsed);
    hide *;
    FrameSentWhole(signal, bytes, Payload(bytes), elapsed);
    var p := SendAndRun(signal, elapsed, bytes);
    gap := |p.done| - 8 * BASELINE_LEN;
    OneIsSteady(p.state, p.elapsed);
  }

  lemma HearOne(d: Decoder, ones: nat, signal: S.SignalState, elapsed: nat, bytes: Bytes) returns (ones': nat)
    requires d.minPreamble <= PREAMBLE && Steady(signal, elapsed) && Baselined(bytes)
    ensures var p := SendAndRun(signal, elapsed, bytes);
      && Receive(d, Hunt(ones), p.done) == (Hunt(ones'), [Received(Payload(bytes))])
      && Steady(p.state, p.elapsed)
  {
    var done := SendAndRun(signal, elapsed, bytes).done;
    hide *;
    var gap := OneOnRails(signal, elapsed, bytes);
    ReceiveFrame(d, ones, bytes, Payload(bytes), gap);
    ones' :| Receive(d, Hunt(ones), done) == (Hunt(ones'), [Received(Payload(bytes))]);
  }

  /** What is on the rails first is heard first, whatever is sent afterwards, raw packets included. */
  lemma {:induction false} FirstAreHeard(d: Decoder, ones: nat, signal: S.SignalState, elapsed: nat,
                                         sent: seq<Packet>, n: nat)
    requires d.minPreamble <= PREAMBLE && Steady(signal, elapsed) && (forall p | p in sent :: p.Sendable())
    requires n <= |sent| && AllBaselined(sent[..n])
    ensures Heard(sent[..n]) <= Receive(d, Hunt(ones), Rails(signal, elapsed, sent)).1
    decreases n
  {
    if n == 0 {
    } else {
      var bytes := sent[0].bytes;
      assert sent[0] in sent[..n] && sent[..n][1..] == sent[1..][..n - 1] && sent[..n][0] == sent[0];
      var ones' := HearOne(d, ones, signal, elapsed, bytes);
      FirstThenRest(sent[..n]);
      RailsUnfold(signal, elapsed, sent);
      hide *;
      var p := SendAndRun(signal, elapsed, bytes);
      FirstAreHeard(d, ones', p.state, p.elapsed, sent[1..], n - 1);
      ReceiveConcat(d, Hunt(ones), p.done, Rails(p.state, p.elapsed, sent[1..]));
    }
  }

  /** After ten ones or more even a receiver in the middle of something hears everything. */
  lemma AllAreHeardFromAnywhere(d: Decoder, rx: Rx, before: nat, signal: S.SignalState, elapsed: nat, sent: seq<Packet>)
    returns (junk: seq<Reception>)
    requires d.minPreamble <= PREAMBLE && rx.Valid() && 10 <= before
    requires Steady(signal, elapsed) && AllBaselined(sent)
    ensures |junk| <= 1
    ensures Receive(d, rx, Ones(before) + Rails(signal, elapsed, sent)).1 == junk + Heard(sent)
  {
    if sent == [] {
      var ones;
      ones, junk := OnesSettle(d, rx, before);
      assert Ones(before) + Rails(signal, elapsed, sent) == Ones(before) && junk + Heard(sent) == junk;
    } else {
      var bytes := sent[0].bytes;
      assert sent[0] in sent;
      FirstThenRest(sent);
      RailsUnfold(signal, elapsed, sent);
      var p := SendAndRun(signal, elapsed, bytes);
      hide *;
      var gap := OneOnRails(signal, elapsed, bytes);
      var ones;
      ones, junk := ReceiveFrameFromAnywhere(d, rx, before, bytes, Payload(bytes), gap);
      RailsAreHeard(d, ones, p.state, p.elapsed, sent[1..]);
      ReceiveInThree(d, rx, Ones(before), p.done, Rails(p.state, p.elapsed, sent[1..]));
      Associative(junk, [Received(Payload(bytes))], Heard(sent[1..]));
    }
  }

  /** Joining in: a decoder switched on at any moment, or left in any state by a raw packet or by noise,
      loses at most the frame then on the rails; from the second on it hears everything. */
  lemma SecondOnAreHeard(d: Decoder, rx: Rx, signal: S.SignalState, elapsed: nat, sent: seq<Packet>)
    returns (junk: seq<Reception>)
    requires d.minPreamble <= PREAMBLE && rx.Valid() && Steady(signal, elapsed) && AllBaselined(sent) && sent != []
    ensures Receive(d, rx, Rails(signal, elapsed, sent)).1 == junk + Heard(sent[1..])
  {
    var bytes := sent[0].bytes;
    assert sent[0] in sent;
    FirstThenRest(sent);
    RailsUnfold(signal, elapsed, sent);
    var p := SendAndRun(signal, elapsed, bytes);
    hide *;
    var gap := OneOnRails(signal, elapsed, bytes);
    var (rx1, first) := Receive(d, rx, Bits(bytes));
    ReceiveKeepsValid(d, rx, Bits(bytes));
    var rest := AllAreHeardFromAnywhere(d, rx1, gap, p.state, p.elapsed, sent[1..]);
    junk := first + rest;
    ReceiveConcat(d, rx, Bits(bytes), Ones(gap) + Rails(p.state, p.elapsed, sent[1..]));
    Associative(Bits(bytes), Ones(gap), Rails(p.state, p.elapsed, sent[1..]));
    Associative(first, rest, Heard(sent[1..]));
  }

  lemma ReceiveInThree(d: Decoder, rx: Rx, a: BitSeq, b: BitSeq, c: BitSeq)
    ensures var (rx1, out) := Receive(d, rx, a + b); Receive(d, rx, a + (b + c)).1 == out + Receive(d, rx1, c).1
  {
    ReceiveConcat(d, rx, a + b, c);
    Associative(a, b, c);
  }

  /** Nothing is sent that was not handed over, except idle. */
  lemma SentWasAdded(s: State, es: seq<Event>)
    requires Initial(s) && Legal(s, es)
    ensures forall p | p in Sent(s, es) :: p == s.idle || p in Added(es)
  {
    SentIsRememberedOrPopped(s, es);
    PopConserves(s, es);
    forall p | p in Popped(s, es) ensures p in Added(es) {
      assert p in multiset(Popped(s, es)) + multiset(Run(s, es).queue);
      assert p in multiset(s.queue) + multiset(Added(es));
    }
  }

  /** From the command station's memory to the decoder: if every packet added in a run from power-up
      is a legal baseline frame, a decoder on the rails hears exactly the packets the scheduler sent. */
  lemma DecoderHearsRun(d: Decoder, ones: nat, signal: S.SignalState, elapsed: nat, s: State, es: seq<Event>)
    requires d.minPreamble <= PREAMBLE && Steady(signal, elapsed)
    requires Initial(s) && Legal(s, es) && forall p | p in Added(es) :: LegalBaseline(p.bytes)
    ensures AllBaselined(Sent(s, es))
    ensures Receive(d, Hunt(ones), Rails(signal, elapsed, Sent(s, es))).1 == Heard(Sent(s, es))
  {
    SentWasAdded(s, es);
    assert s.idle.bytes == IDLE;
    hide State.Valid, Initial, Legal, Sent, Added;
    RailsAreHeard(d, ones, signal, elapsed, Sent(s, es));
  }

  /** The rails from power-up on: so many cycles to the first timer interrupt, then one packet a tick. */
  ghost function RailsFromPowerUp(cycles: nat, sent: seq<Packet>): BitSeq
    requires forall p | p in sent :: p.Sendable()
  {
    var p := RunFor(S.PowerUp(), cycles);
    p.done + Rails(p.state, p.elapsed, sent)
  }

  /** From power-up there are ones first, and then every packet is heard. */
  lemma HeardFromPowerUp(d: Decoder, ones: nat, cycles: nat, sent: seq<Packet>)
    requires d.minPreamble <= PREAMBLE && AllBaselined(sent)
    ensures forall p | p in sent :: p.Sendable()
    ensures Receive(d, Hunt(ones), RailsFromPowerUp(cycles, sent)).1 == Heard(sent)
  {
    var p := RunFor(S.PowerUp(), cycles);
    SteadyFromPowerUp(cycles);
    AllSendable(sent);
    assert RailsFromPowerUp(cycles, sent) == p.done + Rails(p.state, p.elapsed, sent);
    hide *;
    ReceiveOnes(d, ones, |p.done|);
    RailsAreHeard(d, ones + |p.done|, p.state, p.elapsed, sent);
    ReceiveConcat(d, Hunt(ones), p.done, Rails(p.state, p.elapsed, sent));
    assert [] + Heard(sent) == Heard(sent);
  }

  lemma AllSendable(sent: seq<Packet>)
    requires AllBaselined(sent)
    ensures forall p | p in sent :: p.Sendable()
  {
  }

  /** Both started from power-up, the scheduler and the serialiser: a decoder hears exactly the packets
      the scheduler sends, from the very first. */
  lemma DecoderHearsRunFromPowerUp(d: Decoder, ones: nat, cycles: nat, s: State, es: seq<Event>)
    requires d.minPreamble <= PREAMBLE
    requires Initial(s) && Legal(s, es) && forall p | p in Added(es) :: LegalBaseline(p.bytes)
    ensures AllBaselined(Sent(s, es)) && forall p | p in Sent(s, es) :: p.Sendable()
    ensures Receive(d, Hunt(ones), RailsFromPowerUp(cycles, Sent(s, es))).1 == Heard(Sent(s, es))
  {
    SentWasAdded(s, es);
    assert s.idle.bytes == IDLE;
    hide State.Valid, Initial, Legal, Sent, Added, RailsFromPowerUp;
    HeardFromPowerUp(d, ones, cycles, Sent(s, es));
  }

  /** Once a broadcast stop is in force, and until another packet is taken from the queue, a decoder
      hears exactly that stop, once at every tick, whatever is added or cleared meanwhile. */
  lemma OnlyStopsAreHeard(d: Decoder, ones: nat, signal: S.SignalState, elapsed: nat, s: State, es: seq<Event>)
    requires d.minPreamble <= PREAMBLE && Steady(signal, elapsed)
    requires s.Valid() && Legal(s, es) && s.stop.Some? && Popped(s, es) == [] && LegalBaseline(s.stop.value.bytes)
    ensures forall p | p in Sent(s, es) :: p.Sendable()
    ensures |s.stop.value.bytes| == BASELINE_LEN
    ensures Receive(d, Hunt(ones), Rails(signal, elapsed, Sent(s, es))).1 ==
      seq(TickCount(es), _ => Received(DataOf(s.stop.value.bytes)))
    ensures DataOf(s.stop.value.bytes) == [0x00, 0x70, 0x70] || DataOf(s.stop.value.bytes) == [0x00, 0x71, 0x71]
  {
    StopIsRepeated(s, es);
    OnePacketPerTick(s, es);
    StopPayload(s.stop.value.bytes);
    assert |s.stop.value.bytes| == BASELINE_LEN;
    hide *;
    AllHeardAlike(Sent(s, es), s.stop.value);
    RailsAreHeard(d, ones, signal, elapsed, Sent(s, es));
  }

  /** A decoder that joins in while a stop is in force hears that stop from the second tick on. */
  lemma StopIsHeardFromSecondTick(d: Decoder, rx: Rx, signal: S.SignalState, elapsed: nat, s: State, es: seq<Event>)
    returns (junk: seq<Reception>)
    requires d.minPreamble <= PREAMBLE && rx.Valid() && Steady(signal, elapsed) && 0 < TickCount(es)
    requires s.Valid() && Legal(s, es) && s.stop.Some? && Popped(s, es) == [] && LegalBaseline(s.stop.value.bytes)
    ensures forall p | p in Sent(s, es) :: p.Sendable()
    ensures |s.stop.value.bytes| == BASELINE_LEN
    ensures Receive(d, rx, Rails(signal, elapsed, Sent(s, es))).1 ==
      junk + seq(TickCount(es) - 1, _ => Received(DataOf(s.stop.value.bytes)))
  {
    StopIsRepeated(s, es);
    OnePacketPerTick(s, es);
    StopPayload(s.stop.value.bytes);
    var sent := Sent(s, es);
    assert forall p | p in sent[1..] :: p in sent;
    assert |s.stop.value.bytes| == BASELINE_LEN && sent != [];
    hide *;
    AllHeardAlike(sent, s.stop.value);
    AllHeardAlike(sent[1..], s.stop.value);
    junk := SecondOnAreHeard(d, rx, signal, elapsed, sent);
  }

  lemma AllHeardAlike(sent: seq<Packet>, stop: Packet)
    requires (forall p | p in sent :: p == stop) && Baselined(stop.bytes) && |stop.bytes| == BASELINE_LEN
    ensures stop.Sendable() && AllBaselined(sent) && Heard(sent) == seq(|sent|, _ => Received(Payload(stop.bytes)))
  {
    hide Payload, Baselined;
    forall i | 0 <= i < |sent| ensures Heard(sent)[i] == Received(Payload(stop.bytes)) {
      assert sent[i] in sent;
    }
  }

  lemma StopPayload(bytes: Bytes)
    requires IsBroadcastStop(bytes) && LegalBaseline(bytes)
    ensures Baselined(bytes) && |bytes| == BASELINE_LEN && Payload(bytes) == DataOf(bytes)
    ensures DataOf(bytes) == [0x00, 0x70, 0x70] || DataOf(bytes) == [0x00, 0x71, 0x71]
  {
    assert bytes[4] == 0xE1 || bytes[4] == 0xE3;
    StopData(bytes[1], bytes[2], bytes[3]);
    hide Layout, LegalBaseline;
  }

  lemma StopData(b1: bv8, b2: bv8, b3: bv8)
    requires b1 == 0xF0 && b2 == 0x01 && (b3 == 0xC0 || b3 == 0xC4)
    ensures ((b1 & 0x03) << 5) | ((b2 & 0xF8) >> 3) == 0x00
    ensures 0x40 | ((b3 & 0x80) >> 2) | ((b3 & 0x7C) >> 2) == if b3 == 0xC0 then 0x70 else 0x71
  {
  }
}
