/** Codec, serialiser and receiver composed: any list of commands survives the rails. */
module RoundTrip {
  import opened Wrappers
  import opened Casts
  import opened Dcc
  import opened Wire
  import opened Baseline
  import S = Signal

  /** A command and how many ones follow its frame before the next send. */
  datatype Shot = Shot(command: Command, gap: nat)

  predicate InRange(c: Command) {
    c.address < 128 && c.step < MAX_SPEED_STEPS
  }

  function Setters(c: Command): seq<Write> {
    [Preamble, Address(ByteOf(c.address)), Instruction, Direction(if c.forward then FORWARD else REVERSE), Speed(c.step)]
  }

  function Frame(c: Command): (b: Bytes)
    ensures |b| == BASELINE_LEN
  {
    FrameOf(Setters(c))
  }

  /** The serialiser after n full-bit interrupts. */
  function After(s: S.SignalState, n: nat): (t: S.SignalState)
    requires s.Valid()
    ensures t.Valid()
    decreases n
  {
    if n == 0 then s else After(s.NextBit(), n - 1)
  }

  /** The bits of one send after the other, each left running for its frame and its gap. */
  function Serialised(s: S.SignalState, shots: seq<Shot>): BitSeq
    requires s.Valid()
    decreases |shots|
  {
    if shots == [] then []
    else
      var t := s.Send(Frame(shots[0].command));
      var n := 8 * BASELINE_LEN + shots[0].gap;
      S.Output(t, n) + Serialised(After(t, n - 1), shots[1..])
  }

  lemma LastOfSetters(c: Command)
    ensures LastWrites(Setters(c)) == Fields(true, Some(ByteOf(c.address)), true,
      Some(if c.forward then FORWARD else REVERSE), Some(c.step))
  {
    var a, d := Address(ByteOf(c.address)), Direction(if c.forward then FORWARD else REVERSE);
    hide Apply, ApplyAll;
    OneMoreWrite(BLANK, [], Preamble);
    assert [] + [Preamble] == [Preamble];
    OneMoreWrite(BLANK, [Preamble], a);
    assert [Preamble] + [a] == [Preamble, a];
    OneMoreWrite(BLANK, [Preamble, a], Instruction);
    assert [Preamble, a] + [Instruction] == [Preamble, a, Instruction];
    OneMoreWrite(BLANK, [Preamble, a, Instruction], d);
    assert [Preamble, a, Instruction] + [d] == [Preamble, a, Instruction, d];
    OneMoreWrite(BLANK, [Preamble, a, Instruction, d], Speed(c.step));
    assert [Preamble, a, Instruction, d] + [Speed(c.step)] == Setters(c);
  }

  lemma FrameMeansCommand(c: Command)
    requires InRange(c)
    ensures Carries(Frame(c), DataOf(Frame(c))) && Interpret(DataOf(Frame(c))) == Some(c)
  {
    SmallAddress(ByteOf(c.address), c.address);
    hide *;
    LastOfSetters(c);
    CommandIsLast(c, LastWrites(Setters(c)));
    FrameUnfolds(c);
    DecoderReadsLastWrites(Setters(c));
  }

  lemma FrameUnfolds(c: Command)
    ensures Frame(c) == FrameOf(Setters(c))
  {
  }

  lemma CommandIsLast(c: Command, f: Fields)
    requires InRange(c) && (ByteOf(c.address) % 128) as int == c.address
    requires f == Fields(true, Some(ByteOf(c.address)), true,
      Some(if c.forward then FORWARD else REVERSE), Some(c.step))
    ensures CommandOf(f) == c && f.preamble && f.instruction
  {
  }

  /** The bits the serialiser puts out are the stream of frames and gaps. */
  lemma {:induction false} SerialisedIsStream(s: S.SignalState, shots: seq<Shot>)
    requires s.Valid()
    ensures Serialised(s, shots) == Stream(SendingsOf(shots))
    decreases |shots|
  {
    if shots == [] {
    } else {
      var t := s.Send(Frame(shots[0].command));
      var n := 8 * BASELINE_LEN + shots[0].gap;
      S.SerialisesBuffer(s, Frame(shots[0].command), shots[0].gap);
      SerialisedIsStream(After(t, n - 1), shots[1..]);
      hide Frame, After, Bits, S.Output, S.SignalState.Send, S.SignalState.NextBit, S.SignalState.Line;
      assert SendingsOf(shots)[1..] == SendingsOf(shots[1..]);
    }
  }

  function SendingsOf(shots: seq<Shot>): seq<Sending> {
    seq(|shots|, i requires 0 <= i < |shots| => Sending(Frame(shots[i].command), shots[i].gap))
  }

  function DataList(shots: seq<Shot>): seq<Bytes> {
    seq(|shots|, i requires 0 <= i < |shots| => DataOf(Frame(shots[i].command)))
  }

  /** The wire round trip. For every list of commands and every list of gaps, the frames the setters
      build, serialised one after the other from any state of the serialiser, are heard by an S-9.2
      decoder as exactly those commands, in order, each with a valid error byte. */
  lemma WireRoundTrip(d: Decoder, ones: nat, s: S.SignalState, shots: seq<Shot>)
    requires d.minPreamble <= PREAMBLE && s.Valid() && forall shot | shot in shots :: InRange(shot.command)
    ensures var heard := Receive(d, Hunt(ones), Serialised(s, shots)).1;
      && |heard| == |shots|
      && forall i | 0 <= i < |shots| ::
           heard[i].Received? && Xor(heard[i].data) == 0 && Interpret(heard[i].data) == Some(shots[i].command)
  {
    SerialisedIsStream(s, shots);
    var sendings, data := SendingsOf(shots), DataList(shots);
    hide Interpret, DataOf, Frame, Receive, Bits, DataBits;
    forall i | 0 <= i < |shots|
      ensures Carries(sendings[i].buffer, data[i]) && Interpret(data[i]) == Some(shots[i].command)
    {
      assert shots[i] in shots;
      FrameMeansCommand(shots[i].command);
    }
    ReceiveStream(d, ones, sendings, data);
  }
}
