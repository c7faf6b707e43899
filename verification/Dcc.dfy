/** cs/dcc.c: building and reading baseline packets in place. The pure functions say what each
    routine does to the bytes; class DccPacket does it in place. Right shifts drop bits and left
    shifts are cut to eight bits, as an assignment to an unsigned char does. */
module Dcc {
  import opened Wrappers

  const BASELINE_LEN: nat := 5
  const ADDRESS_MAX: bv8 := 128
  const MAX_SPEED_STEPS: nat := 29
  const FORWARD: int := 1
  const REVERSE: int := 0

  /** Five-bit speed codes, indexed by speed step. */
  const SPEED_STEPS: seq<bv8> := [
    0x00,
    0x02, 0x12, 0x03, 0x13, 0x04, 0x14, 0x05, 0x15, 0x06, 0x16, 0x07, 0x17, 0x08, 0x18,
    0x09, 0x19, 0x0A, 0x1A, 0x0B, 0x1B, 0x0C, 0x1C, 0x0D, 0x1D, 0x0E, 0x1E, 0x0F, 0x1F]

  type Bytes = seq<bv8>

  // ----- setters

  function WithPreamble(b: Bytes): (r: Bytes)
    requires |b| == BASELINE_LEN
    ensures |r| == BASELINE_LEN
  {
    b[0 := (b[0] & 0x00) | 0xFF][1 := (b[1] & 0x0F) | 0xF0]
  }

  function WithAddress(b: Bytes, address: bv8): (r: Bytes)
    requires |b| == BASELINE_LEN
    ensures |r| == BASELINE_LEN
  {
    var a := address % ADDRESS_MAX;
    b[1 := (b[1] & 0xFC) | (a >> 5)][2 := (b[2] & 0x07) | (a << 3)]
  }

  function WithSpeedDirectionPreamble(b: Bytes): (r: Bytes)
    requires |b| == BASELINE_LEN
    ensures |r| == BASELINE_LEN
  {
    b[2 := (b[2] & 0xFC) | 0x01]
  }

  function WithDirection(b: Bytes, direction: int): (r: Bytes)
    requires |b| == BASELINE_LEN
    ensures |r| == BASELINE_LEN
  {
    b[3 := (b[3] & 0x7F) | (if direction != 0 then 0x80 else 0x00)]
  }

  function WithSpeed(b: Bytes, step: nat): (r: Bytes)
    requires |b| == BASELINE_LEN
    ensures |r| == BASELINE_LEN
  {
    PutSpeedCode(b, SPEED_STEPS[step % MAX_SPEED_STEPS])
  }

  function PutSpeedCode(b: Bytes, code: bv8): (r: Bytes)
    requires |b| == BASELINE_LEN
    ensures |r| == BASELINE_LEN
  {
    b[3 := (b[3] & 0x83) | (code << 2)]
  }

  function WithChecksum(b: Bytes): (r: Bytes)
    requires |b| == BASELINE_LEN
    ensures |r| == BASELINE_LEN
  {
    PutChecksum(b, AddressOf(b) ^ SpeedAndDirectionOf(b))
  }

  function PutChecksum(b: Bytes, checksum: bv8): (r: Bytes)
    requires |b| == BASELINE_LEN
    ensures |r| == BASELINE_LEN
  {
    b[3 := (b[3] & 0xFE) | (checksum >> 7)][4 := (b[4] & 0x01) | (checksum << 1)]
  }

  function WithPacketEnd(b: Bytes): (r: Bytes)
    requires |b| == BASELINE_LEN
    ensures |r| == BASELINE_LEN
  {
    b[4 := b[4] | 0x01]
  }

  /** How the parser finishes off every DCC packet. */
  function Finish(b: Bytes): (r: Bytes)
    requires |b| == BASELINE_LEN
    ensures |r| == BASELINE_LEN
  {
    WithPacketEnd(WithChecksum(b))
  }

  // ----- getters

  function AddressOf(b: Bytes): bv8
    requires 3 <= |b|
  {
    ((b[1] & 0x03) << 5) | ((b[2] & 0xF8) >> 3)
  }

  function SpeedAndDirectionOf(b: Bytes): bv8
    requires 4 <= |b|
  {
    0x40 | ((b[3] & 0x80) >> 2) | ((b[3] & 0x7C) >> 2)
  }

  /** The table search from entry i on; 0 when the code is not in the table. */
  function SearchStep(code: bv8, i: nat): nat
    requires i <= MAX_SPEED_STEPS
    decreases MAX_SPEED_STEPS - i
  {
    if i == MAX_SPEED_STEPS then 0
    else if SPEED_STEPS[i] == code then i
    else SearchStep(code, i + 1)
  }

  function SpeedStepOf(b: Bytes): nat
    requires 4 <= |b|
  {
    SearchStep((b[3] & 0x7C) >> 2, 0)
  }

  function DirectionOf(b: Bytes): int
    requires 4 <= |b|
  {
    if (b[3] & 0x80) >> 7 == 1 then FORWARD else REVERSE
  }

  predicate IsBroadcastStop(b: Bytes) {
    |b| == BASELINE_LEN && b[0] == 0xFF && b[1] == 0xF0 && b[2] == 0x01
    && (b[3] == 0xC0 || b[3] == 0xC4) && (b[4] == 0xE1 || b[4] == 0xE3)
  }

  // ----- special packets

  const BLANK: Bytes := [0x00, 0x00, 0x00, 0x00, 0x00]
  const IDLE: Bytes := [0xFF, 0xF7, 0xF8, 0x01, 0xFF]
  const BROADCAST_STOP: Bytes := [0xFF, 0xF0, 0x01, 0xC0, 0xE1]
  const EMERGENCY_STOP: Bytes := [0xFF, 0xF0, 0x01, 0xC4, 0xE3]

  // ----- laws

  lemma AddressBelow128(b: Bytes)
    requires 3 <= |b|
    ensures AddressOf(b) as int < 128
  {
    var a := AddressOf(b);
    assert a < 128;
  }

  /** The table by rule: steps 2k - 1 and 2k share the low bits k + 1, the even one has bit 4 set. */
  predicate FollowsRule(step: nat)
    requires step < MAX_SPEED_STEPS
  {
    SPEED_STEPS[step] as int ==
      if step == 0 then 0 else (step + 1) / 2 + 1 + (if step % 2 == 0 then 16 else 0)
  }

  lemma SpeedCode(step: nat)
    requires step < MAX_SPEED_STEPS
    ensures FollowsRule(step)
  {
    if step < 10 {
      FirstTen(step);
    } else if step < 20 {
      SecondTen(step);
    } else {
      LastNine(step);
    }
  }

  lemma FirstTen(step: nat)
    requires step < 10
    ensures FollowsRule(step)
  {
  }

  lemma SecondTen(step: nat)
    requires 10 <= step < 20
    ensures FollowsRule(step)
  {
  }

  lemma LastNine(step: nat)
    requires 20 <= step < MAX_SPEED_STEPS
    ensures FollowsRule(step)
  {
  }

  lemma SpeedCodeFits(step: nat)
    requires step < MAX_SPEED_STEPS
    ensures SPEED_STEPS[step] < 0x20
  {
    SpeedCode(step);
    FitsFive(SPEED_STEPS[step]);
  }

  lemma FitsFive(code: bv8)
    requires code as int < 32
    ensures code < 0x20
  {
  }

  lemma SpeedCodesDiffer(i: nat, j: nat)
    requires i < j < MAX_SPEED_STEPS
    ensures SPEED_STEPS[i] != SPEED_STEPS[j]
  {
    SpeedCode(i);
    SpeedCode(j);
  }

  lemma {:induction false} SearchFinds(step: nat, i: nat)
    requires i <= step < MAX_SPEED_STEPS
    ensures SearchStep(SPEED_STEPS[step], i) == step
    decreases step - i
  {
    if i == step {
    } else {
      SpeedCodesDiffer(i, step);
      SearchFinds(step, i + 1);
    }
  }

  /** One call of a field setter. */
  datatype Write = Preamble | Address(a: bv8) | Instruction | Direction(d: int) | Speed(s: nat)

  function Apply(b: Bytes, w: Write): (r: Bytes)
    requires |b| == BASELINE_LEN
    ensures |r| == BASELINE_LEN
  {
    match w
    case Preamble => WithPreamble(b)
    case Address(a) => WithAddress(b, a)
    case Instruction => WithSpeedDirectionPreamble(b)
    case Direction(d) => WithDirection(b, d)
    case Speed(s) => WithSpeed(b, s)
  }

  function ApplyAll(b: Bytes, ws: seq<Write>): (r: Bytes)
    requires |b| == BASELINE_LEN
    ensures |r| == BASELINE_LEN
  {
    if ws == [] then b else Apply(ApplyAll(b, ws[..|ws| - 1]), ws[|ws| - 1])
  }

  /** Whether two writes address the same field of the packet. */
  predicate SameField(v: Write, w: Write) {
    match v
    case Preamble => w.Preamble?
    case Address(_) => w.Address?
    case Instruction => w.Instruction?
    case Direction(_) => w.Direction?
    case Speed(_) => w.Speed?
  }

  lemma WritesCommute(b: Bytes, v: Write, w: Write)
    requires |b| == BASELINE_LEN
    ensures !SameField(v, w) ==> Apply(Apply(b, v), w) == Apply(Apply(b, w), v)
    ensures SameField(v, w) ==> Apply(Apply(b, v), w) == Apply(b, w)
  {
    if v.Speed? {
      SpeedCodeFits(v.s % MAX_SPEED_STEPS);
      var code := SPEED_STEPS[v.s % MAX_SPEED_STEPS];
      SpeedCommutes(b, code, w);
      if w.Speed? {
        SpeedCodeFits(w.s % MAX_SPEED_STEPS);
      }
    } else if w.Speed? {
      SpeedCodeFits(w.s % MAX_SPEED_STEPS);
      SpeedCommutes(b, SPEED_STEPS[w.s % MAX_SPEED_STEPS], v);
    } else {
      OthersCommute(b, v, w);
    }
  }

  lemma SpeedCommutes(b: Bytes, code: bv8, w: Write)
    requires |b| == BASELINE_LEN && code < 0x20
    ensures !w.Speed? ==> Apply(PutSpeedCode(b, code), w) == PutSpeedCode(Apply(b, w), code)
    ensures forall c: bv8 | c < 0x20 :: PutSpeedCode(PutSpeedCode(b, code), c) == PutSpeedCode(b, c)
  {
  }

  lemma OthersCommute(b: Bytes, v: Write, w: Write)
    requires |b| == BASELINE_LEN && !v.Speed? && !w.Speed?
    ensures !SameField(v, w) ==> Apply(Apply(b, v), w) == Apply(Apply(b, w), v)
    ensures SameField(v, w) ==> Apply(Apply(b, v), w) == Apply(b, w)
  {
    if SameField(v, w) {
      LaterOverwrites(b, v, w);
    }
  }

  lemma LaterOverwrites(b: Bytes, v: Write, w: Write)
    requires |b| == BASELINE_LEN && SameField(v, w) && !v.Speed?
    ensures Apply(Apply(b, v), w) == Apply(b, w)
  {
  }

  /** For each field, the value last written to it. */
  datatype Fields = Fields(
    preamble: bool, address: Option<bv8>, instruction: bool, direction: Option<int>, speed: Option<nat>)
  {
    function Put(w: Write): Fields {
      match w
      case Preamble => this.(preamble := true)
      case Address(a) => this.(address := Some(a))
      case Instruction => this.(instruction := true)
      case Direction(d) => this.(direction := Some(d))
      case Speed(s) => this.(speed := Some(s))
    }
  }

  function LastWrites(ws: seq<Write>): Fields {
    if ws == [] then Fields(false, None, false, None, None)
    else LastWrites(ws[..|ws| - 1]).Put(ws[|ws| - 1])
  }

  function ApplyIf(b: Bytes, c: bool, w: Write): (r: Bytes)
    requires |b| == BASELINE_LEN
    ensures |r| == BASELINE_LEN
  {
    if c then Apply(b, w) else b
  }

  /** At most one write per field, always in the same order. */
  function Render(b: Bytes, f: Fields): (r: Bytes)
    requires |b| == BASELINE_LEN
    ensures |r| == BASELINE_LEN
  {
    var b1 := ApplyIf(b, f.preamble, Preamble);
    var b2 := if f.address.Some? then Apply(b1, Address(f.address.value)) else b1;
    var b3 := ApplyIf(b2, f.instruction, Instruction);
    var b4 := if f.direction.Some? then Apply(b3, Direction(f.direction.value)) else b3;
    if f.speed.Some? then Apply(b4, Speed(f.speed.value)) else b4
  }

  lemma RenderAbsorbs(b: Bytes, f: Fields, w: Write)
    requires |b| == BASELINE_LEN
    ensures Apply(Render(b, f), w) == Render(b, f.Put(w))
  {
    var b1 := ApplyIf(b, f.preamble, Preamble);
    var b2 := if f.address.Some? then Apply(b1, Address(f.address.value)) else b1;
    var b3 := ApplyIf(b2, f.instruction, Instruction);
    var b4 := if f.direction.Some? then Apply(b3, Direction(f.direction.value)) else b3;
    WritesCommute(b, Preamble, w);
    if f.address.Some? { WritesCommute(b1, Address(f.address.value), w); }
    WritesCommute(b2, Instruction, w);
    if f.direction.Some? { WritesCommute(b3, Direction(f.direction.value), w); }
    if f.speed.Some? { WritesCommute(b4, Speed(f.speed.value), w); }
  }

  /** The setters write disjoint fields: whatever their order and however often they are called,
      only the last write of each field matters. */
  lemma {:induction false} OnlyLastWritesMatter(b: Bytes, ws: seq<Write>)
    requires |b| == BASELINE_LEN
    ensures ApplyAll(b, ws) == Render(b, LastWrites(ws))
  {
    if ws == [] {
    } else {
      OnlyLastWritesMatter(b, ws[..|ws| - 1]);
      RenderAbsorbs(b, LastWrites(ws[..|ws| - 1]), ws[|ws| - 1]);
    }
  }

  /** What the three field getters return. */
  datatype Reading = Reading(address: bv8, direction: int, step: nat) {
    /** The reading expected once the fields have been overwritten. */
    function Under(f: Fields): Reading {
      Reading(
        if f.address.Some? then f.address.value % ADDRESS_MAX else address,
        if f.direction.Some? then (if f.direction.value != 0 then FORWARD else REVERSE) else direction,
        if f.speed.Some? then f.speed.value % MAX_SPEED_STEPS else step)
    }
  }

  function Read(b: Bytes): Reading
    requires 4 <= |b|
  {
    Reading(AddressOf(b), DirectionOf(b), SpeedStepOf(b))
  }

  lemma ReadAfterWrite(b: Bytes, w: Write)
    requires |b| == BASELINE_LEN
    ensures Read(Apply(b, w)) == Read(b).Under(LastWrites([]).Put(w))
  {
    if w.Speed? {
      var step := w.s % MAX_SPEED_STEPS;
      SpeedCodeFits(step);
      SearchFinds(step, 0);
      SpeedCodeReadBack(b, SPEED_STEPS[step]);
    } else {
      CodesAfterOtherWrite(b, w);
    }
  }

  lemma SpeedCodeReadBack(b: Bytes, code: bv8)
    requires |b| == BASELINE_LEN && code < 0x20
    ensures var r := PutSpeedCode(b, code);
      (r[3] & 0x7C) >> 2 == code && AddressOf(r) == AddressOf(b) && DirectionOf(r) == DirectionOf(b)
  {
  }

  lemma CodesAfterOtherWrite(b: Bytes, w: Write)
    requires |b| == BASELINE_LEN && !w.Speed?
    ensures var r := Apply(b, w);
      && r[3] & 0x7C == b[3] & 0x7C
      && AddressOf(r) == (if w.Address? then w.a % ADDRESS_MAX else AddressOf(b))
      && DirectionOf(r) ==
         (if w.Direction? then (if w.d != 0 then FORWARD else REVERSE) else DirectionOf(b))
  {
  }

  lemma OneMoreWrite(b: Bytes, ws: seq<Write>, w: Write)
    requires |b| == BASELINE_LEN
    ensures ApplyAll(b, ws + [w]) == Apply(ApplyAll(b, ws), w)
    ensures LastWrites(ws + [w]) == LastWrites(ws).Put(w)
  {
    assert (ws + [w])[..|ws|] == ws;
  }

  lemma UnderComposes(r: Reading, f: Fields, w: Write)
    ensures r.Under(f).Under(LastWrites([]).Put(w)) == r.Under(f.Put(w))
  {
  }

  /** Every getter inverts its setter, whatever other setters ran before or after. */
  lemma {:induction false} GettersInvertSetters(b: Bytes, ws: seq<Write>)
    requires |b| == BASELINE_LEN
    ensures Read(ApplyAll(b, ws)) == Read(b).Under(LastWrites(ws))
  {
    if ws == [] {
    } else {
      var front, w := ws[..|ws| - 1], ws[|ws| - 1];
      GettersInvertSetters(b, front);
      ReadAfterWrite(ApplyAll(b, front), w);
      UnderComposes(Read(b), LastWrites(front), w);
    }
  }

  /** Finishing a packet changes nothing but the checksum and the end bit... */
  lemma FinishKeepsFields(b: Bytes)
    requires |b| == BASELINE_LEN
    ensures Read(Finish(b)) == Read(b)
    ensures SpeedAndDirectionOf(Finish(b)) == SpeedAndDirectionOf(b)
    ensures Finish(b)[..3] == b[..3] && Finish(b)[3] & 0xFE == b[3] & 0xFE
  {
    FinishBits(b);
    assert Finish(b)[3] & 0x7C == b[3] & 0x7C;
  }

  lemma FinishBits(b: Bytes)
    requires |b| == BASELINE_LEN
    ensures var r, checksum := Finish(b), AddressOf(b) ^ SpeedAndDirectionOf(b);
      && r == b[3 := (b[3] & 0xFE) | (checksum >> 7)][4 := (checksum << 1) | 0x01]
      && r[3] & 0xFE == b[3] & 0xFE && r[3] & 0x7C == b[3] & 0x7C && r[3] & 0x80 == b[3] & 0x80
  {
  }

  /** ... and doing it twice is doing it once. */
  lemma FinishIdempotent(b: Bytes)
    requires |b| == BASELINE_LEN
    ensures Finish(Finish(b)) == Finish(b)
  {
    FinishKeepsFields(b);
    FinishBits(b);
    FinishBits(Finish(b));
  }

  /** Both stop packets are finished already, so they are still recognised after parsing. */
  lemma StopsAreFinished()
    ensures Finish(BROADCAST_STOP) == BROADCAST_STOP && IsBroadcastStop(BROADCAST_STOP)
    ensures Finish(EMERGENCY_STOP) == EMERGENCY_STOP && IsBroadcastStop(EMERGENCY_STOP)
  {
    var b, e := BROADCAST_STOP, EMERGENCY_STOP;
    assert b[3] == 0xC0 && b[4] == 0xE1;
  }

  /** Exactly which packets, of any length, take the branch of a broadcast stop: the two stop packets and
      those with the error byte of the other one. */
  lemma BroadcastStopExact(b: Bytes)
    ensures IsBroadcastStop(b) <==>
      || b == [0xFF, 0xF0, 0x01, 0xC0, 0xE1] || b == [0xFF, 0xF0, 0x01, 0xC4, 0xE3]
      || b == [0xFF, 0xF0, 0x01, 0xC0, 0xE3] || b == [0xFF, 0xF0, 0x01, 0xC4, 0xE1]
  {
    if IsBroadcastStop(b) {
      assert b == [b[0], b[1], b[2], b[3], b[4]];
    }
  }

  /** A packet whose bytes the setters change in place. */
  class DccPacket {
    const bytes: array<bv8>
    const size: nat

    ghost predicate Valid() {
      bytes.Length == size
    }

    constructor (size: nat)
      ensures Valid() && fresh(bytes) && this.size == size
      ensures bytes[..] == seq(size, _ => 0)
    {
      bytes := new bv8[size](_ => 0);
      this.size := size;
    }

    constructor Baseline()
      ensures Valid() && fresh(bytes) && size == BASELINE_LEN
      ensures bytes[..] == BLANK
    {
      bytes := new bv8[BASELINE_LEN](_ => 0);
      size := BASELINE_LEN;
    }

    method SetBroadcastStop()
      requires Valid() && size == BASELINE_LEN
      modifies bytes
      ensures bytes[..] == BROADCAST_STOP
    {
      bytes[0] := 0xFF;
      bytes[1] := 0xF0;
      bytes[2] := 0x01;
      bytes[3] := 0xC0;
      bytes[4] := 0xE1;
    }

    method SetEmergencyStop()
      requires Valid() && size == BASELINE_LEN
      modifies bytes
      ensures bytes[..] == EMERGENCY_STOP
    {
      bytes[0] := 0xFF;
      bytes[1] := 0xF0;
      bytes[2] := 0x01;
      bytes[3] := 0xC4;
      bytes[4] := 0xE3;
    }

    method SetIdle()
      requires Valid() && size == BASELINE_LEN
      modifies bytes
      ensures bytes[..] == IDLE
    {
      bytes[0] := 0xFF;
      bytes[1] := 0xF7;
      bytes[2] := 0xF8;
      bytes[3] := 0x01;
      bytes[4] := 0xFF;
    }

    method SetPreamble()
      requires Valid() && size == BASELINE_LEN
      modifies bytes
      ensures bytes[..] == WithPreamble(old(bytes[..]))
    {
      bytes[0] := bytes[0] & 0x00;
      bytes[1] := bytes[1] & 0x0F;
      bytes[0] := bytes[0] | 0xFF;
      bytes[1] := bytes[1] | 0xF0;
    }

    method SetAddress(address: bv8)
      requires Valid() && size == BASELINE_LEN
      modifies bytes
      ensures bytes[..] == WithAddress(old(bytes[..]), address)
    {
      var a := address % ADDRESS_MAX;
      bytes[1] := bytes[1] & 0xFC;
      bytes[2] := bytes[2] & 0x07;
      bytes[1] := bytes[1] | (a >> 5);
      bytes[2] := bytes[2] | (a << 3);
    }

    method SetSpeedDirectionPreamble()
      requires Valid() && size == BASELINE_LEN
      modifies bytes
      ensures bytes[..] == WithSpeedDirectionPreamble(old(bytes[..]))
    {
      bytes[2] := bytes[2] & 0xFC;
      bytes[2] := bytes[2] | 0x01;
    }

    method SetDirection(direction: int)
      requires Valid() && size == BASELINE_LEN
      modifies bytes
      ensures bytes[..] == WithDirection(old(bytes[..]), direction)
    {
      bytes[3] := bytes[3] & 0x7F;
      bytes[3] := bytes[3] | (if direction != 0 then 0x80 else 0x00);
    }

    method SetSpeed(step: nat)
      requires Valid() && size == BASELINE_LEN
      modifies bytes
      ensures bytes[..] == WithSpeed(old(bytes[..]), step)
    {
      var s := step % MAX_SPEED_STEPS;
      bytes[3] := bytes[3] & 0x83;
      bytes[3] := bytes[3] | (SPEED_STEPS[s] << 2);
    }

    method SetChecksum()
      requires Valid() && size == BASELINE_LEN
      modifies bytes
      ensures bytes[..] == WithChecksum(old(bytes[..]))
    {
      var address := AddressOf(bytes[..]);
      var speed := SpeedAndDirectionOf(bytes[..]);
      StoreChecksum(address ^ speed);
    }

    method StoreChecksum(checksum: bv8)
      requires Valid() && size == BASELINE_LEN
      modifies bytes
      ensures bytes[..] == PutChecksum(old(bytes[..]), checksum)
    {
      bytes[3] := bytes[3] & 0xFE;
      bytes[4] := bytes[4] & 0x01;
      bytes[3] := bytes[3] | (checksum >> 7);
      bytes[4] := bytes[4] | (checksum << 1);
    }

    method SetPacketEnd()
      requires Valid() && size == BASELINE_LEN
      modifies bytes
      ensures bytes[..] == WithPacketEnd(old(bytes[..]))
    {
      bytes[4] := bytes[4] | 0x01;
    }

    /** The linear search of the speed table. */
    method GetSpeedStep() returns (step: nat)
      requires Valid() && 4 <= size
      ensures step == SpeedStepOf(bytes[..])
    {
      var speed := (bytes[3] & 0x7C) >> 2;
      for i := 0 to MAX_SPEED_STEPS
        invariant SearchStep(speed, 0) == SearchStep(speed, i)
      {
        if SPEED_STEPS[i] == speed {
          return i;
        }
      }
      return 0;
    }
  }
}
