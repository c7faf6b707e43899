/** NMRA S-9.2 section B: what a finished baseline packet looks like on the rails, and that a
    decoder reads back from it exactly what the setters of cs/dcc.c were given. */
module Baseline {
  import opened Wrappers
  import opened Dcc
  import opened Wire

  /** The buffer that holds the frame of three given data bytes. */
  function Layout(a: bv8, i: bv8, e: bv8): (b: Bytes)
    ensures |b| == BASELINE_LEN
  {
    [0xFF, 0xF0 | (a >> 5), (a << 3) | (i >> 6), (i << 2) | (e >> 7), (e << 1) | 0x01]
  }

  lemma OnesByte()
    ensures ByteBits(0xFF) == Ones(8)
  {
  }

  lemma LayoutByte1(a: bv8)
    ensures ByteBits(0xF0 | (a >> 5)) == Ones(4) + [false] + ByteBits(a)[..3]
  {
  }

  lemma LayoutByte2(a: bv8, i: bv8)
    ensures ByteBits((a << 3) | (i >> 6)) == ByteBits(a)[3..] + [false] + ByteBits(i)[..2]
  {
  }

  lemma LayoutByte3(i: bv8, e: bv8)
    ensures ByteBits((i << 2) | (e >> 7)) == ByteBits(i)[2..] + [false] + ByteBits(e)[..1]
  {
  }

  lemma LayoutByte4(e: bv8)
    ensures ByteBits((e << 1) | 0x01) == ByteBits(e)[1..] + [true]
  {
  }

  lemma Regroup(a: BitSeq, i: BitSeq, e: BitSeq)
    requires |a| == |i| == |e| == 8
    ensures
      Ones(8) + ((Ones(4) + [false] + a[..3]) + ((a[3..] + [false] + i[..2]) + ((i[2..] + [false] + e[..1])
        + (e[1..] + [true]))))
      == Ones(PREAMBLE) + ([false] + a + ([false] + i + ([false] + e))) + [true]
  {
    assert a[..3] + a[3..] == a && i[..2] + i[2..] == i && e[..1] + e[1..] == e;
    assert Ones(8) + Ones(4) == Ones(PREAMBLE);
  }

  lemma BitsCons(b: bv8, rest: Bytes)
    ensures Bits([b] + rest) == ByteBits(b) + Bits(rest)
  {
    assert ([b] + rest)[1..] == rest;
  }

  lemma BitsOfFive(b: Bytes)
    requires |b| == 5
    ensures Bits(b) == ByteBits(b[0]) + (ByteBits(b[1]) + (ByteBits(b[2]) + (ByteBits(b[3]) + ByteBits(b[4]))))
  {
    assert b[4..] == [b[4]] + [] && Bits([]) == [];
    BitsCons(b[4], []);
    assert ByteBits(b[4]) + [] == ByteBits(b[4]);
    assert b[3..] == [b[3]] + b[4..];
    BitsCons(b[3], b[4..]);
    assert b[2..] == [b[2]] + b[3..];
    BitsCons(b[2], b[3..]);
    assert b[1..] == [b[1]] + b[2..];
    BitsCons(b[1], b[2..]);
    assert b == [b[0]] + b[1..];
    BitsCons(b[0], b[1..]);
  }

  lemma DataBitsCons(b: bv8, rest: Bytes)
    ensures DataBits([b] + rest) == [false] + ByteBits(b) + DataBits(rest)
    ensures Xor([b] + rest) == b ^ Xor(rest)
  {
    assert ([b] + rest)[1..] == rest;
  }

  lemma DataBitsOfThree(a: bv8, i: bv8, e: bv8)
    ensures DataBits([a, i, e]) == [false] + ByteBits(a) + ([false] + ByteBits(i) + ([false] + ByteBits(e)))
    ensures Xor([a, i, e]) == a ^ (i ^ e)
  {
    DataBitsCons(e, []);
    assert [e] + [] == [e];
    assert DataBits([e]) == [false] + ByteBits(e) + [];
    DataBitsCons(i, [e]);
    assert [i] + [e] == [i, e];
    DataBitsCons(a, [i, e]);
    assert [a] + [i, e] == [a, i, e];
  }

  lemma LayoutCarries(a: bv8, i: bv8)
    ensures Carries(Layout(a, i, a ^ i), [a, i, a ^ i])
  {
    var e := a ^ i;
    OnesByte();
    LayoutByte1(a);
    LayoutByte2(a, i);
    LayoutByte3(i, e);
    LayoutByte4(e);
    BitsOfFive(Layout(a, i, e));
    DataBitsOfThree(a, i, e);
    Regroup(ByteBits(a), ByteBits(i), ByteBits(e));
  }

  // ----- finished packets

  /** A packet whose constant bits are in place, before the checksum and the end bit. */
  predicate Open(b: Bytes) {
    |b| == BASELINE_LEN && b[0] == 0xFF && b[1] & 0xFC == 0xF0 && b[2] & 0x07 == 0x01 && b[3] & 0x02 == 0
  }

  /** A complete speed-and-direction frame: address 0AAAAAAA, instruction 01DCSSSS, their XOR. */
  predicate LegalBaseline(b: Bytes) {
    && |b| == BASELINE_LEN
    && b == Layout(AddressOf(b), SpeedAndDirectionOf(b), AddressOf(b) ^ SpeedAndDirectionOf(b))
    && AddressOf(b) < 128
    && IsSpeedAndDirection(SpeedAndDirectionOf(b))
  }

  lemma OpenFinishesLegal(b: Bytes)
    requires Open(b)
    ensures LegalBaseline(Finish(b))
  {
    FinishOfOpen(b);
    OpenBytes(b[1], b[2], b[3]);
    LayoutIsLegal(AddressOf(b), SpeedAndDirectionOf(b));
  }

  lemma LayoutIsLegal(a: bv8, i: bv8)
    requires a < 128 && i & 0xC0 == 0x40
    ensures var b := Layout(a, i, a ^ i);
      AddressOf(b) == a && SpeedAndDirectionOf(b) == i && LegalBaseline(b)
  {
    hide AddressOf, SpeedAndDirectionOf, Layout;
    LayoutAddress(a, i, a ^ i);
    LayoutInstruction(a, i, a ^ i);
  }

  lemma LayoutAddress(a: bv8, i: bv8, e: bv8)
    requires a < 128
    ensures AddressOf(Layout(a, i, e)) == a
  {
  }

  lemma LayoutInstruction(a: bv8, i: bv8, e: bv8)
    requires i & 0xC0 == 0x40
    ensures SpeedAndDirectionOf(Layout(a, i, e)) == i
  {
  }

  lemma FinishOfOpen(b: Bytes)
    requires Open(b)
    ensures Finish(b) ==
      Layout(AddressOf(b), SpeedAndDirectionOf(b), AddressOf(b) ^ SpeedAndDirectionOf(b))
  {
    ChecksumOfOpen(b, AddressOf(b) ^ SpeedAndDirectionOf(b));
  }

  lemma ChecksumOfOpen(b: Bytes, c: bv8)
    requires Open(b)
    ensures WithPacketEnd(PutChecksum(b, c)) == Layout(AddressOf(b), SpeedAndDirectionOf(b), c)
  {
    OpenBytes(b[1], b[2], b[3]);
    assert ((b[4] & 0x01) | (c << 1)) | 0x01 == (c << 1) | 0x01;
  }

  lemma OpenBytes(b1: bv8, b2: bv8, b3: bv8)
    requires b1 & 0xFC == 0xF0 && b2 & 0x07 == 0x01 && b3 & 0x02 == 0
    ensures var a := ((b1 & 0x03) << 5) | ((b2 & 0xF8) >> 3);
      var i := 0x40 | ((b3 & 0x80) >> 2) | ((b3 & 0x7C) >> 2);
      b1 == 0xF0 | (a >> 5) && b2 == (a << 3) | (i >> 6) && b3 & 0xFE == i << 2 && a < 128 && i & 0xC0 == 0x40
  {
  }

  /** The three data bytes of a baseline packet. */
  function DataOf(b: Bytes): Bytes
    requires |b| == BASELINE_LEN
  {
    [AddressOf(b), SpeedAndDirectionOf(b), AddressOf(b) ^ SpeedAndDirectionOf(b)]
  }

  lemma LegalCarriesData(b: Bytes)
    requires LegalBaseline(b)
    ensures Carries(b, DataOf(b))
  {
    LayoutCarries(AddressOf(b), SpeedAndDirectionOf(b));
  }

  /** The packets the firmware sends without being told an address. */
  lemma SpecialPacketsCarry()
    ensures Carries(IDLE, [0xFF, 0x00, 0xFF])
    ensures LegalBaseline(BROADCAST_STOP) && Carries(BROADCAST_STOP, [0x00, 0x70, 0x70])
    ensures LegalBaseline(EMERGENCY_STOP) && Carries(EMERGENCY_STOP, [0x00, 0x71, 0x71])
  {
    LayoutCarries(0xFF, 0x00);
    LayoutCarries(0x00, 0x70);
    LayoutCarries(0x00, 0x71);
    assert Layout(0xFF, 0x00, 0xFF) == IDLE;
    assert Layout(0x00, 0x70, 0x70) == BROADCAST_STOP;
    assert Layout(0x00, 0x71, 0x71) == EMERGENCY_STOP;
  }

  // ----- the decoder's reading

  datatype Command = Command(address: nat, step: nat, forward: bool)

  /** The 28-step speed of a five-bit code CSSSS, by the rule of S-9.2 rather than by a table; SSSS of 0
      is stop and of 1 emergency stop, both speed 0. */
  function StepOfCode(code: bv8): nat {
    var ssss := (code & 0x0F) as nat;
    if ssss < 2 then 0 else 2 * (ssss - 2) + (if code & 0x10 != 0 then 2 else 1)
  }

  function Interpret(data: Bytes): Option<Command> {
    if |data| == 3 && data[0] < 128 && IsSpeedAndDirection(data[1]) && data[2] == data[0] ^ data[1]
    then Some(Command(data[0] as nat, StepOfCode(SpeedField(data[1])), DirectionField(data[1])))
    else None
  }

  /** Instruction bytes 01DCSSSS. */
  predicate IsSpeedAndDirection(i: bv8) {
    i & 0xC0 == 0x40
  }

  function SpeedField(i: bv8): bv8 {
    i & 0x1F
  }

  predicate DirectionField(i: bv8) {
    i & 0x20 != 0
  }

  lemma TableFollowsRule(step: nat)
    requires step < MAX_SPEED_STEPS
    ensures StepOfCode(SPEED_STEPS[step]) == step
  {
    SpeedCode(step);
    SplitCode(SPEED_STEPS[step]);
  }

  lemma {:induction false} SearchResult(code: bv8, i: nat)
    requires i <= MAX_SPEED_STEPS
    ensures var r := SearchStep(code, i); r < MAX_SPEED_STEPS && (r == 0 || SPEED_STEPS[r] == code)
    decreases MAX_SPEED_STEPS - i
  {
    if i < MAX_SPEED_STEPS && SPEED_STEPS[i] != code {
      SearchResult(code, i + 1);
    }
  }

  lemma CodeOfStep(code: bv8)
    requires code < 0x20 && 0 < StepOfCode(code)
    ensures StepOfCode(code) < MAX_SPEED_STEPS && SPEED_STEPS[StepOfCode(code)] == code
  {
    SplitCode(code);
    var ssss := (code & 0x0F) as nat;
    LowBits(code);
    assert StepOfCode(code) < MAX_SPEED_STEPS;
    SpeedCode(StepOfCode(code));
    SameByte(SPEED_STEPS[StepOfCode(code)], code);
  }

  lemma LowBits(code: bv8)
    ensures (code & 0x0F) as nat < 16
  {
  }

  lemma SameByte(a: bv8, b: bv8)
    requires a as int == b as int
    ensures a == b
  {
  }

  /** The table search of DCC_get_speed_step agrees with the rule of S-9.2 on all 32 codes, those
      outside the table included. */
  lemma SearchFollowsRule(code: bv8)
    requires code < 0x20
    ensures SearchStep(code, 0) == StepOfCode(code)
  {
    var r := SearchStep(code, 0);
    SearchResult(code, 0);
    if r != 0 {
      TableFollowsRule(r);
    } else if StepOfCode(code) != 0 {
      CodeOfStep(code);
      SearchFinds(StepOfCode(code), 0);
    }
  }

  lemma SplitCode(code: bv8)
    requires code < 0x20
    ensures code as int == (code & 0x0F) as int + (if code & 0x10 != 0 then 16 else 0)
  {
  }

  function SpeedCodeOf(b: Bytes): bv8
    requires 4 <= |b|
  {
    (b[3] & 0x7C) >> 2
  }

  /** What the setters called so far have made of a blank packet. */
  predicate Built(b: Bytes, f: Fields) {
    && |b| == BASELINE_LEN
    && b[1] & 0x0C == 0 && b[2] & 0x04 == 0 && b[3] & 0x03 == 0
    && (f.preamble ==> b[0] == 0xFF && b[1] & 0xF0 == 0xF0)
    && (f.instruction ==> b[2] & 0x03 == 0x01)
    && SpeedCodeOf(b) == if f.speed.Some? then SPEED_STEPS[f.speed.value % MAX_SPEED_STEPS] else 0x00
  }

  lemma WriteKeepsBuilt(b: Bytes, f: Fields, w: Write)
    requires Built(b, f)
    ensures Built(Apply(b, w), f.Put(w))
  {
    if w.Speed? {
      var code := SPEED_STEPS[w.s % MAX_SPEED_STEPS];
      SpeedCodeFits(w.s % MAX_SPEED_STEPS);
      SpeedCodeStored(b[3], code);
    } else {
      OtherFieldsKept(b, w);
    }
  }

  lemma SpeedCodeStored(b3: bv8, code: bv8)
    requires code < 0x20
    ensures var r := (b3 & 0x83) | (code << 2); r & 0x03 == b3 & 0x03 && (r & 0x7C) >> 2 == code
  {
  }

  lemma OtherFieldsKept(b: Bytes, w: Write)
    requires |b| == BASELINE_LEN && b[1] & 0x0C == 0 && b[2] & 0x04 == 0 && b[3] & 0x03 == 0 && !w.Speed?
    ensures var r := Apply(b, w);
      && r[1] & 0x0C == 0 && r[2] & 0x04 == 0 && r[3] & 0x03 == 0 && SpeedCodeOf(r) == SpeedCodeOf(b)
      && (w.Preamble? || (b[0] == 0xFF && b[1] & 0xF0 == 0xF0) ==> r[0] == 0xFF && r[1] & 0xF0 == 0xF0)
      && (w.Instruction? || b[2] & 0x03 == 0x01 ==> r[2] & 0x03 == 0x01)
  {
  }

  lemma {:induction false} SettersKeepBuilt(ws: seq<Write>)
    ensures Built(ApplyAll(BLANK, ws), LastWrites(ws))
  {
    if ws == [] {
    } else {
      SettersKeepBuilt(ws[..|ws| - 1]);
      WriteKeepsBuilt(ApplyAll(BLANK, ws[..|ws| - 1]), LastWrites(ws[..|ws| - 1]), ws[|ws| - 1]);
    }
  }

  lemma BuiltIsOpen(b: Bytes, f: Fields)
    requires Built(b, f) && f.preamble && f.instruction
    ensures Open(b)
  {
  }

  lemma InstructionBits(b: Bytes)
    requires |b| == BASELINE_LEN
    ensures SpeedField(SpeedAndDirectionOf(b)) == SpeedCodeOf(b)
    ensures DirectionField(SpeedAndDirectionOf(b)) <==> DirectionOf(b) == FORWARD
  {
  }

  lemma InterpretLegal(b: Bytes)
    requires LegalBaseline(b)
    ensures Interpret(DataOf(b)) ==
      Some(Command(AddressOf(b) as nat, StepOfCode(SpeedCodeOf(b)), DirectionOf(b) == FORWARD))
  {
    hide AddressOf, SpeedAndDirectionOf, SpeedCodeOf, DirectionOf, Layout, Interpret, StepOfCode,
      SpeedField, DirectionField, IsSpeedAndDirection;
    InstructionBits(b);
    InterpretTriple(AddressOf(b), SpeedAndDirectionOf(b));
  }

  lemma InterpretTriple(a: bv8, i: bv8)
    requires a < 128 && IsSpeedAndDirection(i)
    ensures Interpret([a, i, a ^ i]) == Some(Command(a as nat, StepOfCode(SpeedField(i)), DirectionField(i)))
  {
    hide StepOfCode, SpeedField, DirectionField, IsSpeedAndDirection;
  }

  /** What a decoder reads from a legal frame is what the getters of the firmware read. */
  lemma DecoderAgreesWithGetters(b: Bytes)
    requires LegalBaseline(b)
    ensures Interpret(DataOf(b)) ==
      Some(Command(AddressOf(b) as nat, SpeedStepOf(b), DirectionOf(b) == FORWARD))
  {
    InterpretLegal(b);
    CodeFits(b);
    SearchFollowsRule(SpeedCodeOf(b));
    hide AddressOf, DirectionOf, LegalBaseline, Interpret, StepOfCode, DataOf, SearchStep;
  }

  lemma CodeFits(b: Bytes)
    requires |b| == BASELINE_LEN
    ensures SpeedCodeOf(b) < 0x20
  {
  }

  /** The frame of a packet on which the given setters were called. */
  function FrameOf(ws: seq<Write>): (b: Bytes)
    ensures |b| == BASELINE_LEN
  {
    Finish(ApplyAll(BLANK, ws))
  }

  /** The command that the last write of each field amounts to: 0 and reverse for fields never written. */
  function CommandOf(f: Fields): Command {
    Command(
      if f.address.Some? then (f.address.value % ADDRESS_MAX) as nat else 0,
      if f.speed.Some? then f.speed.value % MAX_SPEED_STEPS else 0,
      f.direction.Some? && f.direction.value != 0)
  }

  /** End to end for one packet: any calls of the setters that include the preamble and instruction
      bits give a legal section B frame, which a decoder reads as the last address, step and
      direction written. */
  lemma DecoderReadsLastWrites(ws: seq<Write>)
    requires LastWrites(ws).preamble && LastWrites(ws).instruction
    ensures LegalBaseline(FrameOf(ws)) && Carries(FrameOf(ws), DataOf(FrameOf(ws)))
    ensures Interpret(DataOf(FrameOf(ws))) == Some(CommandOf(LastWrites(ws)))
  {
    var b, f := ApplyAll(BLANK, ws), LastWrites(ws);
    SettersKeepBuilt(ws);
    BuiltIsOpen(b, f);
    OpenFinishesLegal(b);
    LegalCarriesData(FrameOf(ws));
    InterpretLegal(FrameOf(ws));
    FieldsReachFrame(ws);
    if f.speed.Some? {
      TableFollowsRule(f.speed.value % MAX_SPEED_STEPS);
    }
  }

  lemma FieldsReachFrame(ws: seq<Write>)
    ensures var f, r := LastWrites(ws), FrameOf(ws);
      && AddressOf(r) == (if f.address.Some? then f.address.value % ADDRESS_MAX else 0)
      && DirectionOf(r) == (if f.direction.Some? && f.direction.value != 0 then FORWARD else REVERSE)
      && SpeedCodeOf(r) == if f.speed.Some? then SPEED_STEPS[f.speed.value % MAX_SPEED_STEPS] else 0x00
  {
    var b := ApplyAll(BLANK, ws);
    SettersKeepBuilt(ws);
    GettersInvertSetters(BLANK, ws);
    FinishKeepsFields(b);
    FinishBits(b);
    BlankReading();
    assert AddressOf(FrameOf(ws)) == Read(FrameOf(ws)).address;
    assert DirectionOf(FrameOf(ws)) == Read(FrameOf(ws)).direction;
  }

  lemma BlankReading()
    ensures AddressOf(BLANK) == 0 && DirectionOf(BLANK) == REVERSE && StepOfCode(0x00) == 0
  {
  }

  // ----- the getters on packets of any length

  /** The address is bits 14 to 20 of the packet, whatever its length. */
  lemma AddressBits(b: Bytes)
    requires 3 <= |b|
    ensures var a, bits := AddressOf(b), Bits(b);
      && BitAt(a, 6) == bits[14] && BitAt(a, 5) == bits[15] && BitAt(a, 4) == bits[16] && BitAt(a, 3) == bits[17]
      && BitAt(a, 2) == bits[18] && BitAt(a, 1) == bits[19] && BitAt(a, 0) == bits[20] && !BitAt(a, 7)
  {
    AddressBitsOf(b[1], b[2]);
    OneByteOf(b, 1);
    OneByteOf(b, 2);
    hide BitAt, Bits;
  }

  lemma OneByteOf(b: Bytes, i: nat)
    requires i < |b|
    ensures forall k | 0 <= k < 8 :: BitAt(b[i], k) == Bits(b)[8 * i + 7 - k]
  {
    hide BitAt, Bits;
    forall k | 0 <= k < 8 ensures BitAt(b[i], k) == Bits(b)[8 * i + 7 - k] {
      BitsIndex(b, i, k);
    }
  }

  lemma AddressBitsOf(b1: bv8, b2: bv8)
    ensures var a := ((b1 & 0x03) << 5) | ((b2 & 0xF8) >> 3);
      && BitAt(a, 6) == BitAt(b1, 1) && BitAt(a, 5) == BitAt(b1, 0) && BitAt(a, 4) == BitAt(b2, 7)
      && BitAt(a, 3) == BitAt(b2, 6) && BitAt(a, 2) == BitAt(b2, 5) && BitAt(a, 1) == BitAt(b2, 4)
      && BitAt(a, 0) == BitAt(b2, 3) && !BitAt(a, 7)
  {
  }

  /** The direction is bit 24. */
  lemma DirectionBit(b: Bytes)
    requires 4 <= |b|
    ensures DirectionOf(b) == if Bits(b)[24] then 1 else 0
  {
    SpeedBitsOf(b[3]);
    SpeedParts(b);
    OneByteOf(b, 3);
    hide BitAt, Bits, DirectionOf, SpeedStepOf, StepOfCode;
  }

  /** The step is the one the 28-step rule gives for the code in bits 25 to 29, or 0 for a code that is
      not in the speed table. */
  lemma SpeedBits(b: Bytes)
    requires 4 <= |b|
    ensures SpeedStepOf(b) == StepOfCode(SpeedCodeOf(b))
    ensures var code, bits := SpeedCodeOf(b), Bits(b);
      && BitAt(code, 4) == bits[25] && BitAt(code, 3) == bits[26] && BitAt(code, 2) == bits[27]
      && BitAt(code, 1) == bits[28] && BitAt(code, 0) == bits[29]
  {
    SpeedParts(b);
    OneByteOf(b, 3);
    CodeBits(b);
    hide *;
  }

  lemma CodeBits(b: Bytes)
    requires 4 <= |b|
    ensures var c, b3 := SpeedCodeOf(b), b[3];
      && BitAt(c, 4) == BitAt(b3, 6) && BitAt(c, 3) == BitAt(b3, 5) && BitAt(c, 2) == BitAt(b3, 4)
      && BitAt(c, 1) == BitAt(b3, 3) && BitAt(c, 0) == BitAt(b3, 2)
  {
    SpeedBitsOf(b[3]);
    hide BitAt;
  }

  lemma SpeedParts(b: Bytes)
    requires 4 <= |b|
    ensures DirectionOf(b) == if (b[3] & 0x80) >> 7 == 1 then 1 else 0
    ensures SpeedStepOf(b) == StepOfCode(SpeedCodeOf(b))
  {
    SpeedBitsOf(b[3]);
    SearchFollowsRule((b[3] & 0x7C) >> 2);
    hide BitAt, SearchStep, StepOfCode;
  }

  lemma SpeedBitsOf(b3: bv8)
    ensures (b3 & 0x80) >> 7 == 1 <==> BitAt(b3, 7)
    ensures var c := (b3 & 0x7C) >> 2;
      && c < 0x20
      && BitAt(c, 4) == BitAt(b3, 6) && BitAt(c, 3) == BitAt(b3, 5) && BitAt(c, 2) == BitAt(b3, 4)
      && BitAt(c, 1) == BitAt(b3, 3) && BitAt(c, 0) == BitAt(b3, 2)
  {
  }

  // ----- each setter writes exactly its own bits

  /** The value a setter gives to bit j of the packet, if it writes that bit. */
  function Written(w: Write, j: nat): Option<bool> {
    match w
    case Preamble => if j < 12 then Some(true) else None
    case Address(a) => if 14 <= j <= 20 then Some(BitAt(a, 20 - j)) else None
    case Instruction => if j == 22 then Some(false) else if j == 23 then Some(true) else None
    case Direction(d) => if j == 24 then Some(d != 0) else None
    case Speed(s) => if 25 <= j <= 29 then Some(BitAt(SPEED_STEPS[s % 29], 29 - j)) else None
  }

  /** Bit k of byte i of the packet after a setter. */
  predicate WritesBit(b: Bytes, w: Write, i: nat, k: nat)
    requires |b| == BASELINE_LEN && i < BASELINE_LEN && k < 8
  {
    var v := Written(w, 8 * i + 7 - k);
    BitAt(Apply(b, w)[i], k) == if v.Some? then v.value else BitAt(b[i], k)
  }

  /** The same as eight bits of one byte. */
  predicate ByteHas(r: bv8, b7: bool, b6: bool, b5: bool, b4: bool, b3: bool, b2: bool, b1: bool, b0: bool) {
    && BitAt(r, 7) == b7 && BitAt(r, 6) == b6 && BitAt(r, 5) == b5 && BitAt(r, 4) == b4
    && BitAt(r, 3) == b3 && BitAt(r, 2) == b2 && BitAt(r, 1) == b1 && BitAt(r, 0) == b0
  }

  lemma EightBits(k: nat)
    requires k < 8
    ensures k in {0, 1, 2, 3, 4, 5, 6, 7}
  {
  }

  lemma PreambleBits(b: Bytes, i: nat, k: nat)
    requires |b| == BASELINE_LEN && i < BASELINE_LEN && k < 8
    ensures WritesBit(b, Preamble, i, k)
  {
    PreambleMasks(b[0], b[1]);
    hide BitAt;
    EightBits(k);
  }

  lemma PreambleMasks(b0: bv8, b1: bv8)
    ensures ByteHas((b0 & 0x00) | 0xFF, true, true, true, true, true, true, true, true)
    ensures ByteHas((b1 & 0x0F) | 0xF0, true, true, true, true, BitAt(b1, 3), BitAt(b1, 2), BitAt(b1, 1), BitAt(b1, 0))
  {
  }

  lemma AddressWritesBits(b: Bytes, a: bv8, i: nat, k: nat)
    requires |b| == BASELINE_LEN && i < BASELINE_LEN && k < 8
    ensures WritesBit(b, Address(a), i, k)
  {
    var r := Apply(b, Address(a));
    AddressBytes(b, a);
    hide *;
    AddressBit(b, r, a, i, k);
    BitWritten(b, Address(a), i, k);
  }

  lemma BitWritten(b: Bytes, w: Write, i: nat, k: nat)
    requires |b| == BASELINE_LEN && i < BASELINE_LEN && k < 8
    requires var v := Written(w, 8 * i + 7 - k); BitAt(Apply(b, w)[i], k) == if v.Some? then v.value else BitAt(b[i], k)
    ensures WritesBit(b, w, i, k)
  {
    hide BitAt, Apply, Written;
  }

  lemma AddressBytes(b: Bytes, a: bv8)
    requires |b| == BASELINE_LEN
    ensures var r := Apply(b, Address(a));
      && r[0] == b[0] && r[3] == b[3] && r[4] == b[4]
      && ByteHas(r[1], BitAt(b[1], 7), BitAt(b[1], 6), BitAt(b[1], 5), BitAt(b[1], 4), BitAt(b[1], 3), BitAt(b[1], 2),
                 BitAt(a, 6), BitAt(a, 5))
      && ByteHas(r[2], BitAt(a, 4), BitAt(a, 3), BitAt(a, 2), BitAt(a, 1), BitAt(a, 0), BitAt(b[2], 2), BitAt(b[2], 1),
                 BitAt(b[2], 0))
  {
    AddressModulo(a);
    AddressMasks(b[1], b[2], a % ADDRESS_MAX);
    hide BitAt;
  }

  lemma AddressBit(b: Bytes, r: Bytes, a: bv8, i: nat, k: nat)
    requires |b| == |r| == BASELINE_LEN && i < BASELINE_LEN && k < 8
    requires r[0] == b[0] && r[3] == b[3] && r[4] == b[4]
    requires ByteHas(r[1], BitAt(b[1], 7), BitAt(b[1], 6), BitAt(b[1], 5), BitAt(b[1], 4), BitAt(b[1], 3), BitAt(b[1], 2),
                     BitAt(a, 6), BitAt(a, 5))
    requires ByteHas(r[2], BitAt(a, 4), BitAt(a, 3), BitAt(a, 2), BitAt(a, 1), BitAt(a, 0), BitAt(b[2], 2), BitAt(b[2], 1),
                     BitAt(b[2], 0))
    ensures var v := Written(Address(a), 8 * i + 7 - k); BitAt(r[i], k) == if v.Some? then v.value else BitAt(b[i], k)
  {
    hide BitAt;
    EightBits(k);
  }

  lemma AddressModulo(address: bv8)
    ensures var a := address % ADDRESS_MAX;
      && a < 0x80
      && BitAt(a, 6) == BitAt(address, 6) && BitAt(a, 5) == BitAt(address, 5) && BitAt(a, 4) == BitAt(address, 4)
      && BitAt(a, 3) == BitAt(address, 3) && BitAt(a, 2) == BitAt(address, 2) && BitAt(a, 1) == BitAt(address, 1)
      && BitAt(a, 0) == BitAt(address, 0)
  {
    assert address % ADDRESS_MAX == address & 0x7F;
  }

  lemma AddressMasks(b1: bv8, b2: bv8, a: bv8)
    requires a < 0x80
    ensures ByteHas((b1 & 0xFC) | (a >> 5), BitAt(b1, 7), BitAt(b1, 6), BitAt(b1, 5), BitAt(b1, 4), BitAt(b1, 3), BitAt(b1, 2),
                    BitAt(a, 6), BitAt(a, 5))
    ensures ByteHas((b2 & 0x07) | (a << 3), BitAt(a, 4), BitAt(a, 3), BitAt(a, 2), BitAt(a, 1), BitAt(a, 0),
                    BitAt(b2, 2), BitAt(b2, 1), BitAt(b2, 0))
  {
  }

  lemma InstructionWritesBits(b: Bytes, i: nat, k: nat)
    requires |b| == BASELINE_LEN && i < BASELINE_LEN && k < 8
    ensures WritesBit(b, Instruction, i, k)
  {
    InstructionMasks(b[2]);
    hide BitAt;
    EightBits(k);
  }

  lemma InstructionMasks(b2: bv8)
    ensures ByteHas((b2 & 0xFC) | 0x01, BitAt(b2, 7), BitAt(b2, 6), BitAt(b2, 5), BitAt(b2, 4), BitAt(b2, 3), BitAt(b2, 2),
                    false, true)
  {
  }

  lemma DirectionWritesBits(b: Bytes, d: int, i: nat, k: nat)
    requires |b| == BASELINE_LEN && i < BASELINE_LEN && k < 8
    ensures WritesBit(b, Direction(d), i, k)
  {
    DirectionMasks(b[3]);
    hide BitAt;
    EightBits(k);
  }

  lemma DirectionMasks(b3: bv8)
    ensures ByteHas((b3 & 0x7F) | 0x80, true, BitAt(b3, 6), BitAt(b3, 5), BitAt(b3, 4), BitAt(b3, 3), BitAt(b3, 2),
                    BitAt(b3, 1), BitAt(b3, 0))
    ensures ByteHas((b3 & 0x7F) | 0x00, false, BitAt(b3, 6), BitAt(b3, 5), BitAt(b3, 4), BitAt(b3, 3), BitAt(b3, 2),
                    BitAt(b3, 1), BitAt(b3, 0))
  {
  }

  lemma SpeedWritesBits(b: Bytes, s: nat, i: nat, k: nat)
    requires |b| == BASELINE_LEN && i < BASELINE_LEN && k < 8
    ensures WritesBit(b, Speed(s), i, k)
  {
    var r, code := Apply(b, Speed(s)), SPEED_STEPS[s % 29];
    SpeedByte(b, s);
    hide *;
    SpeedBit(b, r, s, code, i, k);
    BitWritten(b, Speed(s), i, k);
  }

  lemma SpeedByte(b: Bytes, s: nat)
    requires |b| == BASELINE_LEN
    ensures var r, code := Apply(b, Speed(s)), SPEED_STEPS[s % 29];
      && r[0] == b[0] && r[1] == b[1] && r[2] == b[2] && r[4] == b[4]
      && ByteHas(r[3], BitAt(b[3], 7), BitAt(code, 4), BitAt(code, 3), BitAt(code, 2), BitAt(code, 1), BitAt(code, 0),
                 BitAt(b[3], 1), BitAt(b[3], 0))
  {
    SpeedCodeFits(s % MAX_SPEED_STEPS);
    SpeedMasks(b[3], SPEED_STEPS[s % MAX_SPEED_STEPS]);
    hide BitAt, SPEED_STEPS;
  }

  lemma SpeedBit(b: Bytes, r: Bytes, s: nat, code: bv8, i: nat, k: nat)
    requires |b| == |r| == BASELINE_LEN && i < BASELINE_LEN && k < 8 && code == SPEED_STEPS[s % 29]
    requires r[0] == b[0] && r[1] == b[1] && r[2] == b[2] && r[4] == b[4]
    requires ByteHas(r[3], BitAt(b[3], 7), BitAt(code, 4), BitAt(code, 3), BitAt(code, 2), BitAt(code, 1), BitAt(code, 0),
                     BitAt(b[3], 1), BitAt(b[3], 0))
    ensures var v := Written(Speed(s), 8 * i + 7 - k); BitAt(r[i], k) == if v.Some? then v.value else BitAt(b[i], k)
  {
    hide BitAt, SPEED_STEPS;
    EightBits(k);
  }

  lemma SpeedMasks(b3: bv8, code: bv8)
    requires code < 0x20
    ensures ByteHas((b3 & 0x83) | (code << 2), BitAt(b3, 7), BitAt(code, 4), BitAt(code, 3), BitAt(code, 2), BitAt(code, 1),
                    BitAt(code, 0), BitAt(b3, 1), BitAt(b3, 0))
  {
  }

  /** Every setter gives the bits of its field their values and leaves all other bits of the packet, whatever
      they are, alone. */
  lemma SettersWriteTheirBits(b: Bytes, w: Write)
    requires |b| == BASELINE_LEN
    ensures forall j | 0 <= j < 40 ::
      Bits(Apply(b, w))[j] == if Written(w, j).Some? then Written(w, j).value else Bits(b)[j]
  {
    var r := Apply(b, w);
    forall j | 0 <= j < 40
      ensures Bits(r)[j] == if Written(w, j).Some? then Written(w, j).value else Bits(b)[j]
    {
      var i, k := j / 8, 7 - j % 8;
      assert j == 8 * i + 7 - k;
      hide Apply, Bits, BitAt, Written;
      SetterWritesBit(b, w, i, k);
      BitsIndex(b, i, k);
      BitsIndex(r, i, k);
    }
  }

  lemma SetterWritesBit(b: Bytes, w: Write, i: nat, k: nat)
    requires |b| == BASELINE_LEN && i < BASELINE_LEN && k < 8
    ensures WritesBit(b, w, i, k)
  {
    hide WritesBit;
    match w
    case Preamble => PreambleBits(b, i, k);
    case Address(a) => AddressWritesBits(b, a, i, k);
    case Instruction => InstructionWritesBits(b, i, k);
    case Direction(d) => DirectionWritesBits(b, d, i, k);
    case Speed(s) => SpeedWritesBits(b, s, i, k);
  }

  /** Finishing writes bits 31 to 39 only: the error byte and the end bit. */
  lemma FinishWritesBits(b: Bytes)
    requires |b| == BASELINE_LEN
    ensures var r, x := Bits(Finish(b)), AddressOf(b) ^ SpeedAndDirectionOf(b);
      && (forall j | 0 <= j < 31 :: r[j] == Bits(b)[j])
      && (forall j | 31 <= j < 39 :: r[j] == BitAt(x, 38 - j))
      && r[39]
  {
    var f, x := Finish(b), AddressOf(b) ^ SpeedAndDirectionOf(b);
    FinishBits(b);
    FinishMasks(b[3], x);
    assert f[3] == (b[3] & 0xFE) | (x >> 7) && f[4] == (x << 1) | 0x01;
    hide BitAt, Bits, Finish, AddressOf, SpeedAndDirectionOf;
    FinishedBytes(b, f, x);
  }

  lemma FinishedBytes(b: Bytes, f: Bytes, x: bv8)
    requires |b| == |f| == BASELINE_LEN && f[0] == b[0] && f[1] == b[1] && f[2] == b[2]
    requires ByteHas(f[3], BitAt(b[3], 7), BitAt(b[3], 6), BitAt(b[3], 5), BitAt(b[3], 4), BitAt(b[3], 3), BitAt(b[3], 2),
                     BitAt(b[3], 1), BitAt(x, 7))
    requires ByteHas(f[4], BitAt(x, 6), BitAt(x, 5), BitAt(x, 4), BitAt(x, 3), BitAt(x, 2), BitAt(x, 1), BitAt(x, 0), true)
    ensures forall j | 0 <= j < 31 :: Bits(f)[j] == Bits(b)[j]
    ensures forall j | 31 <= j < 39 :: Bits(f)[j] == BitAt(x, 38 - j)
    ensures Bits(f)[39]
  {
    hide BitAt, Bits;
    forall j | 0 <= j < 31 ensures Bits(f)[j] == Bits(b)[j] {
      BitsIndex(f, j / 8, 7 - j % 8);
      BitsIndex(b, j / 8, 7 - j % 8);
      EightBits(7 - j % 8);
    }
    BitsIndex(f, 3, 0);
    forall j | 32 <= j < 39 ensures Bits(f)[j] == BitAt(x, 38 - j) {
      BitsIndex(f, 4, 39 - j);
      EightBits(39 - j);
    }
    BitsIndex(f, 4, 0);
  }

  lemma FinishMasks(b3: bv8, x: bv8)
    ensures ByteHas((b3 & 0xFE) | (x >> 7), BitAt(b3, 7), BitAt(b3, 6), BitAt(b3, 5), BitAt(b3, 4), BitAt(b3, 3),
                    BitAt(b3, 2), BitAt(b3, 1), BitAt(x, 7))
    ensures ByteHas((x << 1) | 0x01, BitAt(x, 6), BitAt(x, 5), BitAt(x, 4), BitAt(x, 3), BitAt(x, 2), BitAt(x, 1),
                    BitAt(x, 0), true)
  {
  }
}
