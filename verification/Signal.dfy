/** cs/signal.c: the interrupt-driven serialiser, and its refinement of "every bit of the buffer,
    most significant first, then ones for ever". */
module Signal {
  import opened Dcc
  import opened Wire

  const MAX_BYTES: nat := 15
  const HALF_PERIOD_1: nat := 852
  const HALF_PERIOD_0: nat := 1617

  /** The module state and the compare register, which holds the half period being generated. */
  datatype SignalState = SignalState(bytes: Bytes, size: nat, curByte: nat, curBit: nat, halfPeriod: nat) {

    predicate Valid() {
      && |bytes| == MAX_BYTES && size <= MAX_BYTES && curByte <= size && curBit < 8
      && (halfPeriod == HALF_PERIOD_1 || halfPeriod == HALF_PERIOD_0)
    }

    /** The bit now on the rails. */
    function Line(): bool {
      halfPeriod == HALF_PERIOD_1
    }

    function Send(data: Bytes): (s: SignalState)
      requires Valid() && |data| <= MAX_BYTES
      ensures s.Valid()
    {
      var buffer := data + bytes[|data|..];
      SignalState(buffer, |data|, 0, 6, HalfPeriodOf(buffer[0] & (1 << 7)))
    }

    /** The interrupt that starts a new bit. */
    function NextBit(): (s: SignalState)
      requires Valid()
      ensures s.Valid()
    {
      if curByte < size && curBit > 0 then
        this.(halfPeriod := HalfPeriodOf(bytes[curByte] & (1 << curBit)), curBit := curBit - 1)
      else if curByte < size - 1 && curBit == 0 then
        this.(halfPeriod := HalfPeriodOf(bytes[curByte] & (1 << curBit)), curByte := curByte + 1, curBit := 7)
      else if curByte == size - 1 && curBit == 0 then
        this.(halfPeriod := HalfPeriodOf(bytes[curByte] & (1 << curBit)), curByte := curByte + 1)
      else
        this.(halfPeriod := HALF_PERIOD_1)
    }

    /** The interrupt as it fires, once per half bit; at the second half of a bit the pin reads low. */
    function Interrupt(pinHigh: bool): (s: SignalState)
      requires Valid()
      ensures s.Valid()
    {
      if pinHigh then NextBit() else this
    }

    /** How many bits of the buffer have been put on the rails; 8 * size once all have. */
    function Position(): int {
      if curByte < size then 8 * curByte + 7 - curBit else 8 * size
    }
  }

  function HalfPeriodOf(bit: bv8): nat {
    if bit == 0 then HALF_PERIOD_0 else HALF_PERIOD_1
  }

  /** The bits on the rails: the present one and those of the following full-bit interrupts. */
  function Output(s: SignalState, n: nat): (r: BitSeq)
    requires s.Valid()
    ensures |r| == n
    decreases n
  {
    if n == 0 then [] else [s.Line()] + Output(s.NextBit(), n - 1)
  }

  /** Bit number i of the specification: the buffer's bits, then ones. */
  function Expected(data: Bytes, i: nat): bool {
    i < 8 * |data| ==> Bits(data)[i]
  }

  /** The serialiser is sending data: it holds the data, and the bit on the rails is the last one
      it has taken from the buffer, or a one if it has finished. */
  predicate Serialising(s: SignalState, data: Bytes) {
    && s.Valid() && data != [] && s.size == |data| && s.bytes[..s.size] == data
    && (s.curByte == s.size ==> s.curBit == 0)
    && 1 <= s.Position()
  }

  lemma SendStarts(s: SignalState, data: Bytes)
    requires s.Valid() && 0 < |data| <= MAX_BYTES
    ensures Serialising(s.Send(data), data) && s.Send(data).Position() == 1
    ensures s.Send(data).Line() == Expected(data, 0)
  {
    BitsIndex(data, 0, 7);
  }

  /** Each interrupt puts the next bit on the rails and, until the buffer is done, gets one closer
      to its end. */
  lemma NextBitInOrder(s: SignalState, data: Bytes)
    requires Serialising(s, data)
    ensures Serialising(s.NextBit(), data)
    ensures s.NextBit().Line() == Expected(data, s.Position())
    ensures s.Position() < 8 * |data| ==> s.NextBit().Position() == s.Position() + 1
    ensures s.Position() == 8 * |data| ==> s.NextBit().Position() == 8 * |data|
  {
    if s.curByte < s.size {
      BitsIndex(data, s.curByte, s.curBit);
      assert s.bytes[s.curByte] == data[s.curByte];
    }
  }

  lemma OutputUnfolds(s: SignalState, n: nat)
    requires s.Valid() && 0 < n
    ensures Output(s, n) == [s.Line()] + Output(s.NextBit(), n - 1)
  {
    hide SignalState.NextBit, SignalState.Line;
  }

  lemma InRange(s: SignalState, data: Bytes)
    requires Serialising(s, data)
    ensures s.Valid() && 0 <= s.Position() <= 8 * |data|
  {
  }

  lemma OnesExpected(data: Bytes, i: nat)
    requires 8 * |data| <= i
    ensures Expected(data, i)
  {
  }

  /** From position p on, the rails carry the rest of the specified bits, each once and in order. */
  lemma {:induction false} OutputFrom(s: SignalState, data: Bytes, n: nat)
    requires Serialising(s, data)
    ensures s.Valid() && 0 <= s.Position()
    ensures forall i: nat | i < n :: Output(s.NextBit(), n)[i] == Expected(data, s.Position() + i)
    decreases n
  {
    var t := s.NextBit();
    hide *;
    NextBitInOrder(s, data);
    InRange(s, data);
    InRange(t, data);
    if n == 0 {
    } else {
      OutputFrom(t, data, n - 1);
      OutputUnfolds(t, n);
      forall i: nat | i < n ensures Output(t, n)[i] == Expected(data, s.Position() + i) {
        if i > 0 && s.Position() == 8 * |data| {
          OnesExpected(data, s.Position() + i);
          OnesExpected(data, t.Position() + i - 1);
        }
      }
    }
  }

  /** After a send, whatever was going on before: exactly the 8 * size bits of the buffer, most
      significant first, then ones for ever. */
  lemma SerialisesBuffer(s: SignalState, data: Bytes, n: nat)
    requires s.Valid() && 0 < |data| <= MAX_BYTES
    ensures Output(s.Send(data), 8 * |data| + n) == Bits(data) + Ones(n)
  {
    var t, m := s.Send(data), 8 * |data| + n;
    SendStarts(s, data);
    hide *;
    OutputUnfolds(t, m);
    OutputFrom(t, data, m - 1);
    AsExpected(Output(t, m), t.Line(), Output(t.NextBit(), m - 1), data, n);
  }

  lemma AsExpected(output: BitSeq, first: bool, more: BitSeq, data: Bytes, n: nat)
    requires output == [first] + more && |output| == 8 * |data| + n
    requires first == Expected(data, 0) && forall i: nat | i < |more| :: more[i] == Expected(data, 1 + i)
    ensures output == Bits(data) + Ones(n)
  {
    hide Bits;
    forall i: nat | i < |output| ensures output[i] == (Bits(data) + Ones(n))[i] {
      if i > 0 {
        assert output[i] == more[i - 1] == Expected(data, 1 + (i - 1));
      }
    }
  }

  /** The state after initialisation. */
  function PowerUp(): (s: SignalState)
    ensures s.Valid() && s.Line()
  {
    SignalState(seq(MAX_BYTES, _ => 0), 0, 0, 0, HALF_PERIOD_1)
  }

  /** With nothing to send the bit on the rails is followed by ones only. */
  lemma {:induction false} NothingToSend(s: SignalState, n: nat)
    requires s.Valid() && s.size == 0
    ensures Output(s, n + 1) == [s.Line()] + Ones(n)
    decreases n
  {
    assert s.NextBit().Line() && s.NextBit().size == 0 && s.NextBit().Valid();
    hide SignalState.NextBit, SignalState.Line, SignalState.Valid;
    OutputUnfolds(s, n + 1);
    if n == 0 {
      assert Output(s.NextBit(), 0) == Ones(0);
    } else {
      NothingToSend(s.NextBit(), n - 1);
      assert Ones(n) == [true] + Ones(n - 1);
    }
  }

  /** From power-up on, until the first send, there are ones on the rails. */
  lemma OnesFromPowerUp(n: nat)
    ensures Output(PowerUp(), n) == Ones(n)
  {
    if n == 0 {
    } else {
      NothingToSend(PowerUp(), n - 1);
      assert Ones(n) == [true] + Ones(n - 1);
    }
  }

  /** A send of no bytes puts out one bit of what an earlier one has left in the buffer, then ones. */
  lemma EmptySend(s: SignalState, n: nat)
    requires s.Valid()
    ensures Output(s.Send([]), n + 1) == [BitAt(s.bytes[0], 7)] + Ones(n)
  {
    assert [] + s.bytes[0..] == s.bytes;
    NothingToSend(s.Send([]), n);
  }

  /** The half bits on the rails; the pin, toggled at every compare match, alternates. */
  function Halves(s: SignalState, pinHigh: bool, n: nat): (r: BitSeq)
    requires s.Valid()
    decreases n
  {
    if n == 0 then [] else [s.Line()] + Halves(s.Interrupt(pinHigh), !pinHigh, n - 1)
  }

  function Doubled(bits: BitSeq): BitSeq {
    if bits == [] then [] else [bits[0], bits[0]] + Doubled(bits[1..])
  }

  /** Every bit goes out as two halves of the same length, so counting full bits loses nothing. */
  lemma {:induction false} BitsAreTwoEqualHalves(s: SignalState, n: nat)
    requires s.Valid()
    ensures Halves(s, false, 2 * n) == Doubled(Output(s, n))
    decreases n
  {
    hide SignalState.NextBit, SignalState.Line;
    if n == 0 {
    } else {
      BitsAreTwoEqualHalves(s.NextBit(), n - 1);
      assert Halves(s, false, 2 * n) == [s.Line()] + ([s.Line()] + Halves(s.NextBit(), false, 2 * n - 2));
    }
  }

  class SignalModule {
    const buffer: array<bv8>
    var size: nat
    var curByte: nat
    var curBit: nat
    var halfPeriod: nat

    ghost function State(): SignalState
      reads this, buffer
    {
      SignalState(buffer[..], size, curByte, curBit, halfPeriod)
    }

    ghost predicate Valid()
      reads this, buffer
    {
      State().Valid()
    }

    constructor ()
      ensures Valid() && fresh(buffer)
      ensures State() == PowerUp()
    {
      buffer := new bv8[MAX_BYTES](_ => 0);
      size, curByte, curBit := 0, 0, 0;
      halfPeriod := HALF_PERIOD_1;
    }

    method GenerateBit(bit: bv8)
      modifies this`halfPeriod
      ensures halfPeriod == HalfPeriodOf(bit)
    {
      halfPeriod := if bit == 0 then HALF_PERIOD_0 else HALF_PERIOD_1;
    }

    method Send(bytes: Bytes)
      requires Valid() && |bytes| <= MAX_BYTES
      modifies this, buffer
      ensures Valid() && State() == old(State()).Send(bytes)
    {
      size := |bytes|;
      curByte := 0;
      curBit := 7;
      CopyBytes(bytes);
      GenerateBit(buffer[curByte] & (1 << curBit));
      curBit := curBit - 1;
    }

    /** The copy loop of a send. */
    method CopyBytes(bytes: Bytes)
      requires buffer.Length == MAX_BYTES && |bytes| <= MAX_BYTES
      modifies buffer
      ensures buffer[..] == bytes + old(buffer[..])[|bytes|..]
    {
      for i := 0 to |bytes|
        invariant forall k | 0 <= k < i :: buffer[k] == bytes[k]
        invariant forall k | i <= k < MAX_BYTES :: buffer[k] == old(buffer[k])
      {
        buffer[i] := bytes[i];
      }
    }

    method CompareMatch(pinHigh: bool)
      requires Valid()
      modifies this
      ensures Valid() && State() == old(State()).Interrupt(pinHigh)
    {
      if !pinHigh {
        return;
      }
      if curByte < size && curBit > 0 {
        GenerateBit(buffer[curByte] & (1 << curBit));
        curBit := curBit - 1;
      } else if curByte < size - 1 && curBit == 0 {
        GenerateBit(buffer[curByte] & (1 << curBit));
        curByte := curByte + 1;
        curBit := 7;
      } else if curByte == size - 1 && curBit == 0 {
        GenerateBit(buffer[curByte] & (1 << curBit));
        curByte := curByte + 1;
      } else {
        GenerateBit(1);
      }
    }
  }
}
