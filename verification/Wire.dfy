/** The bit stream on the rails and, as the specification it is judged by, a receiver following
    NMRA S-9.2: section A (general packet format) and section B (baseline packets). */
module Wire {
  import opened Wrappers
  import opened Dcc

  type BitSeq = seq<bool>

  predicate BitAt(b: bv8, k: nat)
    requires k < 8
  {
    b & (1 << k) != 0
  }

  /** Most significant bit first. */
  function ByteBits(b: bv8): (r: BitSeq)
    ensures |r| == 8
  {
    seq(8, k requires 0 <= k < 8 => BitAt(b, 7 - k))
  }

  function Bits(bytes: Bytes): (r: BitSeq)
    ensures |r| == 8 * |bytes|
  {
    if bytes == [] then [] else ByteBits(bytes[0]) + Bits(bytes[1..])
  }

  lemma {:induction false} BitsIndex(bytes: Bytes, i: nat, k: nat)
    requires i < |bytes| && k < 8
    ensures Bits(bytes)[8 * i + 7 - k] == BitAt(bytes[i], k)
  {
    if i == 0 {
    } else {
      BitsIndex(bytes[1..], i - 1, k);
    }
  }

  function Ones(n: nat): (r: BitSeq)
    ensures |r| == n
  {
    seq(n, _ => true)
  }

  // ----- section A: the format

  /** The data bytes, each after its zero start bit. */
  function DataBits(data: Bytes): (r: BitSeq)
    ensures |r| == 9 * |data|
  {
    if data == [] then [] else [false] + ByteBits(data[0]) + DataBits(data[1..])
  }

  function Xor(data: Bytes): bv8 {
    if data == [] then 0 else data[0] ^ Xor(data[1..])
  }

  const PREAMBLE: nat := 12

  /** The buffer is a complete frame: preamble, data bytes ending in their error byte, end bit. */
  ghost predicate Carries(buffer: Bytes, data: Bytes) {
    && Bits(buffer) == Ones(PREAMBLE) + DataBits(data) + [true]
    && 3 <= |data| && Xor(data) == 0
  }

  // ----- section A: the receiver

  /** What S-9.2 leaves to the decoder: how many preamble bits it insists on (10 to 12), and whether
      the end bit of one packet counts towards the preamble of the next. */
  datatype Decoder = Decoder(minPreamble: nat, endBitCounts: bool)

  datatype Rx = Hunt(ones: nat) | Byte(got: nat, acc: bv8, data: Bytes) | Boundary(data: Bytes) {
    predicate Valid() {
      Byte? ==> got < 8
    }
  }

  datatype Reception = Received(data: Bytes) | Corrupt(data: Bytes)

  function Judge(data: Bytes): Reception {
    if 3 <= |data| && Xor(data) == 0 then Received(data) else Corrupt(data)
  }

  function RxStep(d: Decoder, rx: Rx, bit: bool): (Rx, Option<Reception>) {
    match rx
    case Hunt(ones) =>
      (if bit then Hunt(ones + 1) else if d.minPreamble <= ones then Byte(0, 0, []) else Hunt(0), None)
    case Byte(got, acc, data) =>
      var acc' := Shift(acc, bit);
      (if got < 7 then Byte(got + 1, acc', data) else Boundary(data + [acc']), None)
    case Boundary(data) =>
      if bit then (Hunt(if d.endBitCounts then 1 else 0), Some(Judge(data))) else (Byte(0, 0, data), None)
  }

  function Shift(acc: bv8, bit: bool): bv8 {
    (acc << 1) | (if bit then 1 else 0)
  }

  /** The receiver's state after a stretch of the stream, and every packet completed in it. */
  function Receive(d: Decoder, rx: Rx, stream: BitSeq): (Rx, seq<Reception>)
    decreases |stream|
  {
    if stream == [] then (rx, [])
    else
      var (rx1, out) := RxStep(d, rx, stream[0]);
      var (rx2, rest) := Receive(d, rx1, stream[1..]);
      (rx2, if out.Some? then [out.value] + rest else rest)
  }

  lemma {:induction false} ReceiveConcat(d: Decoder, rx: Rx, a: BitSeq, b: BitSeq)
    ensures var (rx1, out1) := Receive(d, rx, a);
      var (rx2, out2) := Receive(d, rx1, b);
      Receive(d, rx, a + b) == (rx2, out1 + out2)
    decreases |a|
  {
    if a == [] {
      assert a + b == b;
      assert [] + Receive(d, rx, b).1 == Receive(d, rx, b).1;
    } else {
      var (rx1, out) := RxStep(d, rx, a[0]);
      ReceiveConcat(d, rx1, a[1..], b);
      assert (a + b)[1..] == a[1..] + b;
      var (rxa, outa) := Receive(d, rx1, a[1..]);
      var (rxb, outb) := Receive(d, rxa, b);
      assert out.Some? ==> [out.value] + (outa + outb) == [out.value] + outa + outb;
    }
  }

  lemma {:induction false} ReceiveOnes(d: Decoder, ones: nat, n: nat)
    ensures Receive(d, Hunt(ones), Ones(n)) == (Hunt(ones + n), [])
    decreases n
  {
    if n == 0 {
    } else {
      ReceiveOnes(d, ones + 1, n - 1);
      assert Ones(n)[1..] == Ones(n - 1);
    }
  }

  lemma ShiftInByte(b: bv8)
    ensures Shift(Shift(Shift(Shift(Shift(Shift(Shift(Shift(0, BitAt(b, 7)), BitAt(b, 6)), BitAt(b, 5)),
      BitAt(b, 4)), BitAt(b, 3)), BitAt(b, 2)), BitAt(b, 1)), BitAt(b, 0)) == b
  {
  }

  /** The accumulator after the first n bits of b. */
  function Partial(b: bv8, n: nat): bv8
    requires n <= 8
  {
    if n == 0 then 0 else Shift(Partial(b, n - 1), BitAt(b, 8 - n))
  }

  lemma PartialComplete(b: bv8)
    ensures Partial(b, 8) == b
  {
    ShiftInByte(b);
    assert Partial(b, 1) == Shift(0, BitAt(b, 7));
    assert Partial(b, 2) == Shift(Shift(0, BitAt(b, 7)), BitAt(b, 6));
    assert Partial(b, 4) == Shift(Shift(Partial(b, 2), BitAt(b, 5)), BitAt(b, 4));
    assert Partial(b, 6) == Shift(Shift(Partial(b, 4), BitAt(b, 3)), BitAt(b, 2));
  }

  lemma {:induction false} ReceiveByteFrom(d: Decoder, b: bv8, n: nat, data: Bytes)
    requires n < 8
    ensures Receive(d, Byte(n, Partial(b, n), data), ByteBits(b)[n..]) == (Boundary(data + [b]), [])
    decreases 8 - n
  {
    PartialComplete(b);
    var s := ByteBits(b)[n..];
    assert s[0] == BitAt(b, 7 - n) && s[1..] == ByteBits(b)[n + 1..];
    assert Shift(Partial(b, n), s[0]) == Partial(b, n + 1);
    if n < 7 {
      ReceiveByteFrom(d, b, n + 1, data);
    } else {
      assert s[1..] == [];
    }
  }

  lemma ReceiveDataByte(d: Decoder, data: Bytes, b: bv8)
    ensures Receive(d, Boundary(data), [false] + ByteBits(b)) == (Boundary(data + [b]), [])
  {
    var s := [false] + ByteBits(b);
    ReceiveByteFrom(d, b, 0, data);
    assert ByteBits(b)[0..] == s[1..];
  }

  lemma {:induction false} ReceiveData(d: Decoder, data: Bytes, rest: Bytes)
    requires rest != []
    ensures Receive(d, Boundary(data), DataBits(rest)) == (Boundary(data + rest), [])
    decreases |rest|
  {
    var s := [false] + ByteBits(rest[0]);
    ReceiveDataByte(d, data, rest[0]);
    ReceiveConcat(d, Boundary(data), s, DataBits(rest[1..]));
    if |rest| == 1 {
      assert data + [rest[0]] == data + rest;
      assert DataBits(rest[1..]) == [];
    } else {
      ReceiveData(d, data + [rest[0]], rest[1..]);
      assert data + [rest[0]] + rest[1..] == data + rest;
    }
  }

  /** From any hunting state with enough ones, one whole packet is heard exactly once. */
  lemma ReceivePacket(d: Decoder, ones: nat, data: Bytes)
    requires d.minPreamble <= ones && data != []
    ensures Receive(d, Hunt(ones), DataBits(data) + [true])
      == (Hunt(if d.endBitCounts then 1 else 0), [Judge(data)])
  {
    var s := DataBits(data);
    ReceiveData(d, [], data);
    assert [] + data == data;
    assert Receive(d, Hunt(ones), s) == Receive(d, Boundary([]), s);
    ReceiveConcat(d, Hunt(ones), s, [true]);
    assert [true][1..] == [];
    var end := Hunt(if d.endBitCounts then 1 else 0);
    assert Receive(d, end, []) == (end, []);
    assert [Judge(data)] + [] == [Judge(data)];
    assert [] + [Judge(data)] == [Judge(data)];
    assert Receive(d, Boundary(data), [true]) == (end, [Judge(data)]);
  }

  lemma ReceiveAfterPreamble(d: Decoder, ones: nat, data: Bytes, gap: nat)
    requires d.minPreamble <= ones && 3 <= |data| && Xor(data) == 0
    ensures Receive(d, Hunt(ones), DataBits(data) + [true] + Ones(gap))
      == (Hunt((if d.endBitCounts then 1 else 0) + gap), [Received(data)])
  {
    var s, end := DataBits(data) + [true], if d.endBitCounts then 1 else 0;
    ReceivePacket(d, ones, data);
    ReceiveOnes(d, end, gap);
    ReceiveConcat(d, Hunt(ones), s, Ones(gap));
    assert [Received(data)] + [] == [Received(data)];
  }

  /** A frame followed by any number of idle ones is heard as its data, whatever ones came before. */
  lemma ReceiveFrame(d: Decoder, ones: nat, buffer: Bytes, data: Bytes, gap: nat)
    requires d.minPreamble <= PREAMBLE && Carries(buffer, data)
    ensures exists ones' :: Receive(d, Hunt(ones), Bits(buffer) + Ones(gap)) == (Hunt(ones'), [Received(data)])
  {
    var p, s := Ones(PREAMBLE), DataBits(data) + [true] + Ones(gap);
    assert Bits(buffer) + Ones(gap) == p + s;
    ReceiveOnes(d, ones, PREAMBLE);
    ReceiveAfterPreamble(d, ones + PREAMBLE, data, gap);
    ReceiveConcat(d, Hunt(ones), p, s);
    assert [] + [Received(data)] == [Received(data)];
  }

  // ----- section A: finding the packet boundaries again

  /** Ones a receiver may need before it hunts for a preamble again. */
  function Unsettled(rx: Rx): nat
    requires rx.Valid()
  {
    match rx
    case Hunt(_) => 0
    case Byte(got, _, _) => 9 - got
    case Boundary(_) => 1
  }

  /** From whatever state, ones get a receiver to hunt, with all but at most nine of them counted and
      after at most one reception. */
  lemma {:induction false} OnesSettle(d: Decoder, rx: Rx, n: nat) returns (ones: nat, junk: seq<Reception>)
    requires rx.Valid() && Unsettled(rx) <= n
    ensures Receive(d, rx, Ones(n)) == (Hunt(ones), junk)
    ensures n - Unsettled(rx) <= ones && |junk| <= 1 && (rx.Hunt? ==> junk == [])
    decreases n
  {
    if rx.Hunt? {
      ReceiveOnes(d, rx.ones, n);
      ones, junk := rx.ones + n, [];
    } else {
      var (rx1, out) := RxStep(d, rx, true);
      assert Ones(n)[1..] == Ones(n - 1);
      ones, junk := OnesSettle(d, rx1, n - 1);
      junk := if out.Some? then [out.value] + junk else junk;
    }
  }

  lemma {:induction false} ReceiveKeepsValid(d: Decoder, rx: Rx, stream: BitSeq)
    requires rx.Valid()
    ensures Receive(d, rx, stream).0.Valid()
    decreases |stream|
  {
    if stream == [] {
    } else {
      ReceiveKeepsValid(d, RxStep(d, rx, stream[0]).0, stream[1..]);
    }
  }

  /** A frame after ten ones or more is heard whatever state the receiver was in, after at most one
      reception left over from what came before. */
  lemma ReceiveFrameFromAnywhere(d: Decoder, rx: Rx, before: nat, buffer: Bytes, data: Bytes, gap: nat)
    returns (ones: nat, junk: seq<Reception>)
    requires d.minPreamble <= PREAMBLE && rx.Valid() && 10 <= before && Carries(buffer, data)
    ensures Receive(d, rx, Ones(before) + (Bits(buffer) + Ones(gap))) == (Hunt(ones), junk + [Received(data)])
    ensures |junk| <= 1
  {
    var p, s := Ones(before + PREAMBLE), DataBits(data) + [true] + Ones(gap);
    assert Ones(before) + Ones(PREAMBLE) == p;
    assert Ones(before) + (Bits(buffer) + Ones(gap)) == p + s;
    ones, junk := OnesSettle(d, rx, before + PREAMBLE);
    ReceiveAfterPreamble(d, ones, data, gap);
    ReceiveConcat(d, rx, p, s);
    ones := (if d.endBitCounts then 1 else 0) + gap;
  }

  /** A frame on the wire and the idle ones after it. */
  datatype Sending = Sending(buffer: Bytes, gap: nat)

  function Stream(sendings: seq<Sending>): BitSeq {
    if sendings == [] then [] else Bits(sendings[0].buffer) + Ones(sendings[0].gap) + Stream(sendings[1..])
  }

  /** Whatever the gaps, a receiver that has heard any ones so far hears exactly the packets sent. */
  lemma {:induction false} ReceiveStream(d: Decoder, ones: nat, sendings: seq<Sending>, data: seq<Bytes>)
    requires d.minPreamble <= PREAMBLE && |data| == |sendings|
    requires forall i | 0 <= i < |data| :: Carries(sendings[i].buffer, data[i])
    ensures Receive(d, Hunt(ones), Stream(sendings)).1 == seq(|data|, i requires 0 <= i < |data| => Received(data[i]))
    decreases |sendings|
  {
    if sendings == [] {
    } else {
      var first := Bits(sendings[0].buffer) + Ones(sendings[0].gap);
      ReceiveFrame(d, ones, sendings[0].buffer, data[0], sendings[0].gap);
      var ones' :| Receive(d, Hunt(ones), first) == (Hunt(ones'), [Received(data[0])]);
      ReceiveStream(d, ones', sendings[1..], data[1..]);
      ReceiveConcat(d, Hunt(ones), first, Stream(sendings[1..]));
    }
  }
}
