/** The serialiser against the clock. Times are CPU cycles: a CTC timer with compare value c and
    prescaler p fires every (c + 1) * p cycles, and a bit lasts two equal half periods. */
module Timing {
  import opened Dcc
  import opened Wire
  import opened Signal

  const FLUSH_PERIOD: nat := 124
  const PRESCALER: nat := 1024

  /** Cycles from one scheduler tick, and so from one send, to the next. */
  const TICK: nat := (FLUSH_PERIOD + 1) * PRESCALER

  /** The values of the 16-bit counter. */
  const COUNTER_RANGE: nat := 0x1_0000

  function HalfTime(bit: bool): (t: nat)
    ensures 0 < t
  {
    (if bit then HALF_PERIOD_1 else HALF_PERIOD_0) + 1
  }

  function BitTime(bit: bool): (t: nat)
    ensures 0 < t
  {
    2 * HalfTime(bit)
  }

  /** At 14.7456 MHz half a one lasts between 55 and 61 microseconds and half a zero between 95 and 9900, as
      S-9.1 asks of a command station, and a tick between 8.6 and 8.7 milliseconds. */
  lemma TimesAreStandard()
    ensures HalfTime(true) == 853 && HalfTime(false) == 1618 && TICK == 128000
    ensures 550 * 147456 <= HalfTime(true) * 100000 <= 610 * 147456
    ensures 950 * 147456 <= HalfTime(false) * 100000 <= 99000 * 147456
    ensures 86000 * 147456 <= TICK * 100000 <= 87000 * 147456
  {
  }

  function Duration(bits: BitSeq): nat {
    if bits == [] then 0 else BitTime(bits[0]) + Duration(bits[1..])
  }

  /** Running the interrupt for a number of cycles: the bits completed, the state reached and how
      long the bit then on the rails has lasted. */
  datatype Progress = Progress(done: BitSeq, state: SignalState, elapsed: nat)

  function RunFor(s: SignalState, budget: nat): (p: Progress)
    requires s.Valid()
    ensures p.state.Valid() && p.elapsed < BitTime(p.state.Line())
    decreases budget
  {
    var t := BitTime(s.Line());
    if budget < t then Progress([], s, budget)
    else
      var p := RunFor(s.NextBit(), budget - t);
      p.(done := [s.Line()] + p.done)
  }

  lemma {:induction false} DurationConcat(a: BitSeq, b: BitSeq)
    ensures Duration(a + b) == Duration(a) + Duration(b)
  {
    if a == [] {
      assert a + b == b;
    } else {
      DurationConcat(a[1..], b);
      assert (a + b)[1..] == a[1..] + b;
    }
  }

  /** What RunFor completes is what the serialiser outputs, as much of it as fits, to the cycle. */
  lemma {:induction false} RunForOutputs(s: SignalState, budget: nat)
    requires s.Valid()
    ensures var p := RunFor(s, budget);
      && p.done + [p.state.Line()] == Output(s, |p.done| + 1)
      && Duration(p.done) + p.elapsed == budget
    decreases budget
  {
    var t := BitTime(s.Line());
    if t <= budget {
      RunForOutputs(s.NextBit(), budget - t);
      var p, q := RunFor(s, budget), RunFor(s.NextBit(), budget - t);
      assert p.done[1..] == q.done;
      assert p.done + [p.state.Line()] == [s.Line()] + (q.done + [q.state.Line()]);
    } else {
      assert Output(s, 1) == [s.Line()] + Output(s.NextBit(), 0);
    }
  }

  // ----- a send in the middle of a bit

  /** The serialiser, and how long the bit on the rails has lasted. */
  ghost predicate InPhase(s: SignalState, elapsed: nat) {
    s.Valid() && elapsed < BitTime(s.Line())
  }

  /** The timer's counter, which restarts at every half bit. */
  function Counter(s: SignalState, elapsed: nat): nat {
    elapsed % HalfTime(s.Line())
  }

  /** Cycles until the counter matches the compare register for a bit: a counter already past the
      compare value first runs through its whole range. */
  function UntilMatch(count: nat, bit: bool): nat
    requires count < COUNTER_RANGE
  {
    if count < HalfTime(bit) then HalfTime(bit) - count else COUNTER_RANGE - count + HalfTime(bit)
  }

  /** Cycles until the bit on the rails is over, once the compare register has been set for `bit`: the
      half that is running, and the other half if it was the first. */
  function Remaining(s: SignalState, elapsed: nat, bit: bool): nat
    requires s.Valid()
  {
    UntilMatch(Counter(s, elapsed), bit) + (if elapsed < HalfTime(s.Line()) then HalfTime(bit) else 0)
  }

  lemma RemainingFits(s: SignalState, elapsed: nat, bit: bool)
    requires InPhase(s, elapsed)
    ensures Remaining(s, elapsed, bit) <= TICK
    ensures s.Line() == bit ==> Remaining(s, elapsed, bit) == BitTime(bit) - elapsed
  {
    CounterInPhase(s, elapsed);
  }

  lemma CounterInPhase(s: SignalState, elapsed: nat)
    requires InPhase(s, elapsed)
    ensures Counter(s, elapsed) == if elapsed < HalfTime(s.Line()) then elapsed else elapsed - HalfTime(s.Line())
  {
  }

  /** The time that the bits of a send have until the next one: a tick, corrected for the first of them,
      which takes over the bit on the rails. */
  function Budget(s: SignalState, elapsed: nat, bit: bool): nat
    requires InPhase(s, elapsed)
  {
    RemainingFits(s, elapsed, bit);
    TICK + BitTime(bit) - Remaining(s, elapsed, bit)
  }

  /** From one send to the next. */
  ghost function SendAndRun(s: SignalState, elapsed: nat, data: Bytes): (p: Progress)
    requires InPhase(s, elapsed) && |data| <= MAX_BYTES
    ensures InPhase(p.state, p.elapsed)
  {
    RunFor(s.Send(data), Budget(s, elapsed, s.Send(data).Line()))
  }

  /** The counter has not passed the compare value of a one, so a send that begins with a one is not
      missed by the timer. */
  ghost predicate Steady(s: SignalState, elapsed: nat) {
    InPhase(s, elapsed) && Counter(s, elapsed) < HalfTime(true)
  }

  lemma OneIsSteady(s: SignalState, elapsed: nat)
    requires InPhase(s, elapsed) && s.Line()
    ensures Steady(s, elapsed)
  {
  }

  /** Every moment from power-up to the first send is steady, and until then there are ones only. */
  lemma SteadyFromPowerUp(cycles: nat)
    ensures var p := RunFor(PowerUp(), cycles); Steady(p.state, p.elapsed) && p.done == Ones(|p.done|)
  {
    var p := RunFor(PowerUp(), cycles);
    var n := |p.done|;
    RunForOutputs(PowerUp(), cycles);
    OnesFromPowerUp(n + 1);
    assert p.done == (p.done + [p.state.Line()])[..n] == Ones(n + 1)[..n] == Ones(n);
    assert p.state.Line() == Ones(n + 1)[n];
    OneIsSteady(p.state, p.elapsed);
  }

  /** A one following on a steady phase has its full tick; after a missed match about half of it is lost. */
  lemma BudgetOfOne(s: SignalState, elapsed: nat)
    requires InPhase(s, elapsed)
    ensures if Steady(s, elapsed) then TICK <= Budget(s, elapsed, true) <= TICK + BitTime(true)
            else Budget(s, elapsed, true) < 40 * BitTime(true)
  {
    CounterInPhase(s, elapsed);
  }

  // ----- how long a buffer takes

  function CountOnes(bits: BitSeq): (n: nat)
    ensures n <= |bits|
  {
    if bits == [] then 0 else (if bits[0] then 1 else 0) + CountOnes(bits[1..])
  }

  lemma {:induction false} DurationByCount(bits: BitSeq)
    ensures Duration(bits) == BitTime(false) * |bits| - (BitTime(false) - BitTime(true)) * CountOnes(bits)
  {
    if bits == [] {
    } else {
      DurationByCount(bits[1..]);
    }
  }

  lemma {:induction false} CountOnesConcat(a: BitSeq, b: BitSeq)
    ensures CountOnes(a + b) == CountOnes(a) + CountOnes(b)
  {
    if a == [] {
      assert a + b == b;
    } else {
      CountOnesConcat(a[1..], b);
      assert (a + b)[1..] == a[1..] + b;
    }
  }

  lemma {:induction false} CountOnesOfOnes(n: nat)
    ensures CountOnes(Ones(n)) == n && Duration(Ones(n)) == n * BitTime(true)
  {
    if n == 0 {
    } else {
      CountOnesOfOnes(n - 1);
      assert Ones(n)[1..] == Ones(n - 1);
    }
  }

  /** A five-byte buffer goes out within one tick exactly when it has a one bit in it. */
  lemma FiveBytesFit(data: Bytes)
    requires |data| == 5
    ensures Duration(Bits(data)) <= TICK <==> 1 <= CountOnes(Bits(data))
  {
    DurationByCount(Bits(data));
  }

  /** A frame of three data bytes has at least 13 ones, so it leaves time for ten more. */
  lemma FrameLeavesTime(buffer: Bytes, data: Bytes)
    requires Carries(buffer, data) && |buffer| == BASELINE_LEN
    ensures 13 <= CountOnes(Bits(buffer))
    ensures Duration(Bits(buffer)) + 10 * BitTime(true) <= TICK
  {
    FrameCount(DataBits(data));
    ThirteenOnesLeaveTime(Bits(buffer));
  }

  lemma ThirteenOnesLeaveTime(bits: BitSeq)
    requires |bits| == 8 * BASELINE_LEN && 13 <= CountOnes(bits)
    ensures Duration(bits) + 10 * BitTime(true) <= TICK
  {
    DurationByCount(bits);
  }

  lemma FrameCount(middle: BitSeq)
    ensures 13 <= CountOnes(Ones(PREAMBLE) + middle + [true])
  {
    CountOnesConcat(Ones(PREAMBLE) + middle, [true]);
    CountOnesConcat(Ones(PREAMBLE), middle);
    CountOnesOfOnes(PREAMBLE);
    assert CountOnes([true]) == 1;
  }

  lemma {:induction false} DurationMonotone(a: BitSeq, n: nat)
    requires n <= |a|
    ensures Duration(a[..n]) <= Duration(a)
  {
    DurationConcat(a[..n], a[n..]);
    assert a[..n] + a[n..] == a;
  }

  /** From one send to the next the rails carry the whole buffer exactly when its bits take no longer
      than they have; all that follows is ones. */
  lemma SentWholeIffItFits(s: SignalState, data: Bytes, elapsed: nat)
    requires InPhase(s, elapsed) && 0 < |data| <= MAX_BYTES
    ensures var p := SendAndRun(s, elapsed, data);
      && (Duration(Bits(data)) <= Budget(s, elapsed, s.Send(data).Line()) <==> 8 * |data| <= |p.done|)
      && (8 * |data| <= |p.done| ==> p.done == Bits(data) + Ones(|p.done| - 8 * |data|) && p.state.Line())
      && (|p.done| < 8 * |data| ==> p.done + [p.state.Line()] == Bits(data)[..|p.done| + 1])
  {
    var t, budget := s.Send(data), Budget(s, elapsed, s.Send(data).Line());
    hide Budget, SignalState.Send;
    RunForOutputs(t, budget);
    if 8 * |data| <= |RunFor(t, budget).done| {
      SentWhole(s, data, budget);
    } else {
      SentInPart(s, data, budget);
    }
  }

  lemma SentWhole(s: SignalState, data: Bytes, budget: nat)
    requires s.Valid() && 0 < |data| <= MAX_BYTES
    requires 8 * |data| <= |RunFor(s.Send(data), budget).done|
    ensures var p := RunFor(s.Send(data), budget);
      p.done == Bits(data) + Ones(|p.done| - 8 * |data|) && p.state.Line() && Duration(Bits(data)) <= budget
  {
    var p := RunFor(s.Send(data), budget);
    RunForOutputs(s.Send(data), budget);
    var n := |p.done| - 8 * |data|;
    SerialisesBuffer(s, data, n + 1);
    SplitLast(p.done, p.state.Line(), Bits(data), n);
    DurationConcat(Bits(data), Ones(n));
  }

  lemma SplitLast(done: BitSeq, last: bool, bits: BitSeq, n: nat)
    requires done + [last] == bits + Ones(n + 1)
    ensures done == bits + Ones(n) && last
  {
    assert |done| == |bits| + n;
    assert done == (done + [last])[..|done|] == (bits + Ones(n + 1))[..|done|] == bits + Ones(n);
    assert last == (done + [last])[|done|];
  }

  lemma SentInPart(s: SignalState, data: Bytes, budget: nat)
    requires s.Valid() && 0 < |data| <= MAX_BYTES
    requires |RunFor(s.Send(data), budget).done| < 8 * |data|
    ensures var p := RunFor(s.Send(data), budget);
      p.done + [p.state.Line()] == Bits(data)[..|p.done| + 1] && budget < Duration(Bits(data))
  {
    var t := s.Send(data);
    var p := RunFor(t, budget);
    var n, bits := |p.done|, Bits(data);
    RunForOutputs(t, budget);
    SerialisesBuffer(s, data, 0);
    assert bits + Ones(0) == bits;
    OutputPrefix(t, n + 1, |bits|);
    assert bits[..n + 1] == p.done + [p.state.Line()];
    DurationConcat(p.done, [p.state.Line()]);
    DurationMonotone(bits, n + 1);
    assert Duration([p.state.Line()]) == BitTime(p.state.Line()) + Duration([]);
  }

  lemma {:induction false} OutputPrefix(s: SignalState, m: nat, n: nat)
    requires s.Valid() && m <= n
    ensures Output(s, m) == Output(s, n)[..m]
    decreases m
  {
    if m == 0 {
    } else {
      OutputPrefix(s.NextBit(), m - 1, n - 1);
    }
  }

  /** Every frame begins with a one. */
  lemma FrameStartsWithOne(s: SignalState, buffer: Bytes, data: Bytes)
    requires s.Valid() && Carries(buffer, data) && |buffer| == BASELINE_LEN
    ensures s.Send(buffer).Line()
  {
    SendStarts(s, buffer);
    assert Bits(buffer)[0];
  }

  /** A baseline frame is not cut short by the next send, and at least ten ones follow it: with the
      twelve of the next frame and its own end bit, more than the fourteen that section A of S-9.2 asks
      of a command station. */
  lemma FrameSentWhole(s: SignalState, buffer: Bytes, data: Bytes, elapsed: nat)
    requires Steady(s, elapsed) && Carries(buffer, data) && |buffer| == BASELINE_LEN
    ensures var p := SendAndRun(s, elapsed, buffer);
      && 8 * BASELINE_LEN + 10 <= |p.done|
      && p.done == Bits(buffer) + Ones(|p.done| - 8 * BASELINE_LEN)
      && p.state.Line()
  {
    FrameStartsWithOne(s, buffer, data);
    FrameLeavesTime(buffer, data);
    BudgetOfOne(s, elapsed);
    SentWholeIffItFits(s, buffer, elapsed);
    TenOnesFollow(s, buffer, elapsed);
  }

  lemma TenOnesFollow(s: SignalState, buffer: Bytes, elapsed: nat)
    requires InPhase(s, elapsed) && |buffer| == BASELINE_LEN && s.Send(buffer).Line()
    requires Duration(Bits(buffer)) + 10 * BitTime(true) <= TICK <= Budget(s, elapsed, true)
    requires var p := SendAndRun(s, elapsed, buffer);
      8 * BASELINE_LEN <= |p.done| && p.done == Bits(buffer) + Ones(|p.done| - 8 * BASELINE_LEN) && p.state.Line()
    ensures 8 * BASELINE_LEN + 10 <= |SendAndRun(s, elapsed, buffer).done|
  {
    var n := |SendAndRun(s, elapsed, buffer).done| - 8 * BASELINE_LEN;
    hide Budget, SignalState.Send;
    RunForOutputs(s.Send(buffer), Budget(s, elapsed, true));
    DurationConcat(Bits(buffer), Ones(n));
    CountOnesOfOnes(n);
  }

  /** And only then: if the timer misses the match, the next send cuts the frame, whichever it is. */
  lemma FrameSentWholeIffSteady(s: SignalState, buffer: Bytes, data: Bytes, elapsed: nat)
    requires InPhase(s, elapsed) && Carries(buffer, data) && |buffer| == BASELINE_LEN
    ensures 8 * BASELINE_LEN <= |SendAndRun(s, elapsed, buffer).done| <==> Steady(s, elapsed)
  {
    FrameStartsWithOne(s, buffer, data);
    if Steady(s, elapsed) {
      FrameSentWhole(s, buffer, data, elapsed);
    } else {
      BudgetOfOne(s, elapsed);
      SentWholeIffItFits(s, buffer, elapsed);
      DurationByCount(Bits(buffer));
    }
  }

  function Zeros(n: nat): (data: Bytes)
    ensures |data| == n
  {
    seq(n, _ => 0)
  }

  /** It happens: fifteen zero bytes, sent 700 cycles into a one, are cut by the next send in the second
      half of a zero, with the counter past the compare value of a one. */
  lemma RawPacketUpsetsTimer(s: SignalState)
    requires s.Valid() && s.Line()
    ensures InPhase(s, 700)
    ensures var p := SendAndRun(s, 700, Zeros(MAX_BYTES));
      |p.done| == 39 && !p.state.Line() && !Steady(p.state, p.elapsed)
  {
    var zeros := Zeros(MAX_BYTES);
    ZeroBits(MAX_BYTES);
    SendStarts(s, zeros);
    assert !s.Send(zeros).Line() && Budget(s, 700, false) == TICK + 700;
    DurationOfZeros(Bits(zeros));
    SentWholeIffItFits(s, zeros, 700);
    var p := SendAndRun(s, 700, zeros);
    RunForOutputs(s.Send(zeros), TICK + 700);
    hide *;
    ZerosCut(p, Bits(zeros));
  }

  lemma ZerosCut(p: Progress, bits: BitSeq)
    requires (forall i | 0 <= i < |bits| :: !bits[i]) && |p.done| < |bits|
    requires p.done + [p.state.Line()] == bits[..|p.done| + 1]
    requires InPhase(p.state, p.elapsed) && Duration(p.done) + p.elapsed == TICK + 700
    ensures |p.done| == 39 && !p.state.Line() && !Steady(p.state, p.elapsed)
  {
    assert (p.done + [p.state.Line()])[|p.done|] == bits[|p.done|];
    forall i | 0 <= i < |p.done| ensures !p.done[i] {
      assert (p.done + [p.state.Line()])[i] == bits[i];
    }
    DurationOfZeros(p.done);
    hide Duration;
    assert |p.done| == 39 && p.elapsed == 2496;
    CounterInPhase(p.state, p.elapsed);
  }

  lemma {:induction false} ZeroBits(n: nat)
    ensures forall i | 0 <= i < 8 * n :: !Bits(Zeros(n))[i]
  {
    if n == 0 {
    } else {
      ZeroBits(n - 1);
      ZeroByte();
      assert Zeros(n)[1..] == Zeros(n - 1);
    }
  }

  lemma ZeroByte()
    ensures forall i | 0 <= i < 8 :: !ByteBits(0)[i]
  {
  }

  lemma {:induction false} NoOnes(bits: BitSeq)
    requires forall i | 0 <= i < |bits| :: !bits[i]
    ensures CountOnes(bits) == 0
  {
    if bits == [] {
    } else {
      NoOnes(bits[1..]);
    }
  }

  lemma DurationOfZeros(bits: BitSeq)
    requires forall i | 0 <= i < |bits| :: !bits[i]
    ensures Duration(bits) == BitTime(false) * |bits|
  {
    NoOnes(bits);
    DurationByCount(bits);
  }

  /** What precedes the data bytes of the next frame: the ones left over and its own twelve. */
  lemma NextPreambleIsLongEnough(gap: nat, buffer: Bytes, data: Bytes)
    requires 10 <= gap && Carries(buffer, data)
    ensures Ones(gap) + Bits(buffer) == Ones(gap + PREAMBLE) + (DataBits(data) + [true]) && 14 <= gap + PREAMBLE
  {
    assert Ones(gap) + Ones(PREAMBLE) == Ones(gap + PREAMBLE);
    hide Bits, DataBits;
  }
}
