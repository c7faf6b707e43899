/** What the parser of cs/dsl.c guarantees about the packets it builds, from tokens and from text. */
module Commands {
  import opened Wrappers
  import opened Casts
  import opened Dcc
  import opened Wire
  import opened Baseline
  import opened Scanner
  import opened Parser

  // ----- every accepted packet is a legal frame

  lemma AddrKeepsBuilt(ts: seq<Token>, b: Bytes, f: Fields) returns (f': Fields)
    requires Built(b, f)
    ensures Built(ParseAddr(ts, b).bytes, f') && f'.preamble == f.preamble && f'.instruction == f.instruction
  {
    f' := f;
    var (ok, t) := Accept(ts, Addr);
    if ok && Head(t).Number? {
      var w := Write.Address(CharOf(t[0].n));
      WriteKeepsBuilt(b, f, w);
      f' := f.Put(w);
    }
  }

  lemma SpeedKeepsBuilt(ts: seq<Token>, b: Bytes, f: Fields) returns (f': Fields)
    requires Built(b, f)
    ensures Built(ParseSpeed(ts, b).bytes, f') && f'.preamble == f.preamble && f'.instruction == f.instruction
  {
    f' := f;
    var (ok, t) := Accept(ts, Token.Speed);
    if ok && Head(t).Number? {
      var w := Write.Speed(t[0].n % 256);
      WriteKeepsBuilt(b, f, w);
      f' := f.Put(w);
    }
  }

  lemma ArgsKeepBuilt(ts: seq<Token>, b: Bytes, f: Fields) returns (f': Fields)
    requires Built(b, f)
    ensures Built(ParseArgs(ts, b).bytes, f')
  {
    assert |b| == BASELINE_LEN;
    hide Built, ParseAddr, ParseSpeed;
    var a := ParseAddr(ts, b);
    f' := AddrKeepsBuilt(ts, b, f);
    var s := a;
    if a.ok {
      s := ParseSpeed(a.rest, a.bytes);
      f' := SpeedKeepsBuilt(a.rest, a.bytes, f');
    }
    if !s.ok {
      var s2 := ParseSpeed(s.rest, s.bytes);
      f' := SpeedKeepsBuilt(s.rest, s.bytes, f');
      if s2.ok {
        f' := AddrKeepsBuilt(s2.rest, s2.bytes, f');
      }
    }
  }

  lemma BlankIsBuilt()
    ensures Built(BLANK, LastWrites([]))
  {
  }

  lemma DriveIsOpen(ts: seq<Token>, keyword: Token, direction: int)
    ensures var r := ParseDrive(ts, keyword, direction).result; r.Some? ==> r.value.DccResult? && Open(r.value.bytes)
  {
    var (ok, t) := Accept(ts, keyword);
    if ok {
      BlankIsBuilt();
      var f := ArgsKeepBuilt(t, BLANK, LastWrites([]));
      var b := ParseArgs(t, BLANK).bytes;
      ThreeWrites(b, f, direction);
    }
  }

  lemma ThreeWrites(b: Bytes, f: Fields, direction: int)
    requires Built(b, f)
    ensures Open(WithDirection(WithSpeedDirectionPreamble(WithPreamble(b)), direction))
  {
    var b1, b2 := WithPreamble(b), WithSpeedDirectionPreamble(WithPreamble(b));
    WriteKeepsBuilt(b, f, Preamble);
    WriteKeepsBuilt(b1, f.Put(Preamble), Instruction);
    WriteKeepsBuilt(b2, f.Put(Preamble).Put(Instruction), Direction(direction));
    BuiltIsOpen(WithDirection(b2, direction), f.Put(Preamble).Put(Instruction).Put(Direction(direction)));
  }

  lemma StopIsLegal(ts: seq<Token>)
    ensures var r := ParseStop(ts).result; r.Some? ==> r.value.DccResult? && LegalBaseline(Finish(r.value.bytes))
  {
    var (ok, t) := Accept(ts, Stop);
    if ok {
      StopsAreFinished();
      SpecialPacketsCarry();
      var b0 := WithPreamble(BLANK);
      BlankIsBuilt();
      WriteKeepsBuilt(BLANK, LastWrites([]), Preamble);
      var f := AddrKeepsBuilt(t, b0, LastWrites([]).Put(Preamble));
      LocoStopIsOpen(ParseAddr(t, b0).bytes, f);
      hide ParseAddr, LegalBaseline, Open, Finish, Built, WithSpeed, WithPreamble, WithSpeedDirectionPreamble;
      var b := ParseAddr(t, b0).bytes;
      OpenFinishesLegal(WithSpeed(WithSpeedDirectionPreamble(b), 0));
    }
  }

  lemma LocoStopIsOpen(b: Bytes, f: Fields)
    requires Built(b, f) && f.preamble
    ensures Open(WithSpeed(WithSpeedDirectionPreamble(b), 0))
  {
    WriteKeepsBuilt(b, f, Instruction);
    WriteKeepsBuilt(WithSpeedDirectionPreamble(b), f.Put(Instruction), Write.Speed(0));
    BuiltIsOpen(WithSpeed(WithSpeedDirectionPreamble(b), 0), f.Put(Instruction).Put(Write.Speed(0)));
  }

  lemma DriveIsLegal(ts: seq<Token>, keyword: Token, direction: int)
    ensures var r := ParseDrive(ts, keyword, direction).result;
      r.Some? ==> r.value.DccResult? && LegalBaseline(Finish(r.value.bytes))
  {
    var r := ParseDrive(ts, keyword, direction).result;
    assert Sized(r) && (r.Some? && r.value.DccResult? ==> |r.value.bytes| == BASELINE_LEN);
    hide *;
    DriveIsOpen(ts, keyword, direction);
    if r.Some? {
      OpenFinishesLegal(r.value.bytes);
    }
  }

  lemma SystemIsNoPacket(k: nat, ts: seq<Token>, garbage: bool)
    requires k < 4
    ensures var r := Alternative(k, ts, garbage).result; r.Some? ==> !r.value.DccResult?
  {
  }

  lemma AlternativeIsLegal(k: nat, ts: seq<Token>, garbage: bool)
    requires k < ALTERNATIVES
    ensures var r := Alternative(k, ts, garbage).result;
      r.Some? && r.value.DccResult? ==> LegalBaseline(Finish(r.value.bytes))
  {
    hide ParseRaw, ParseHelp, ParseShow, ParseCache, ParseDrive, ParseStop, Finish, LegalBaseline;
    if k < 4 {
      SystemIsNoPacket(k, ts, garbage);
    } else if k == 4 {
      DriveIsLegal(ts, Forward, FORWARD);
    } else if k == 5 {
      DriveIsLegal(ts, Reverse, REVERSE);
    } else {
      StopIsLegal(ts);
    }
  }

  lemma {:induction false} EveryAlternativeIsLegal(k: nat, ts: seq<Token>, garbage: bool)
    requires k <= ALTERNATIVES
    ensures var r := ParseFrom(k, ts, garbage).result; r.Some? && r.value.DccResult? ==> LegalBaseline(Finish(r.value.bytes))
    decreases ALTERNATIVES - k
  {
    hide Alternative, Finish, LegalBaseline;
    if k == ALTERNATIVES {
    } else {
      AlternativeIsLegal(k, ts, garbage);
      EveryAlternativeIsLegal(k + 1, Alternative(k, ts, garbage).rest, garbage);
    }
  }

  /** Every DCC result, whatever the tokens and whatever failed alternatives wrote before, is a
      complete section B frame: preamble, zero start bits, error byte, end bit. */
  lemma AcceptedFramesAreLegal(ts: seq<Token>, garbage: bool)
    ensures var r := ParseTokens(ts, garbage);
      r.Some? && r.value.DccResult? ==> LegalBaseline(r.value.bytes) && Carries(r.value.bytes, DataOf(r.value.bytes))
  {
    EveryAlternativeIsLegal(0, ts, garbage);
    var r := ParseTokens(ts, garbage);
    hide ParseFrom, Finish, LegalBaseline;
    if r.Some? && r.value.DccResult? {
      LegalCarriesData(r.value.bytes);
    }
  }

  // ----- exactly which arguments are accepted

  /** The token sequences accepted as the arguments of forward and reverse: the documented order, and
      three more that the fall-through from the first alternative lets in. */
  predicate Reads(ts: seq<Token>, address: int, speed: int) {
    || (AddrAt(ts, 0, address) && SpeedAt(ts, 2, speed))
    || (SpeedAt(ts, 0, speed) && AddrAt(ts, 2, address))
    || (Head(ts) == Addr && SpeedAt(ts, 1, speed) && AddrAt(ts, 3, address))
    || (7 <= |ts| && ts[0] == Addr && ts[1].Number? && ts[2] == Token.Speed
        && SpeedAt(ts, 3, speed) && AddrAt(ts, 5, address))
  }

  predicate AddrAt(ts: seq<Token>, i: nat, address: int) {
    i + 1 < |ts| && ts[i] == Addr && ts[i + 1] == Number(address)
  }

  predicate SpeedAt(ts: seq<Token>, i: nat, speed: int) {
    i + 1 < |ts| && ts[i] == Token.Speed && ts[i + 1] == Number(speed)
  }

  lemma AddrExact(ts: seq<Token>, b: Bytes)
    requires |b| == BASELINE_LEN
    ensures var a := ParseAddr(ts, b);
      && (a.ok <==> exists n :: [Addr, Number(n)] <= ts)
      && (a.ok ==> a.rest == ts[2..] && a.bytes == WithAddress(b, CharOf(ts[1].n)))
      && (!a.ok ==> a.bytes == b && a.rest == if [Addr] <= ts then ts[1..] else ts)
  {
    if ParseAddr(ts, b).ok {
      assert [Addr, Number(ts[1].n)] <= ts;
    }
  }

  lemma SpeedExact(ts: seq<Token>, b: Bytes)
    requires |b| == BASELINE_LEN
    ensures var s := ParseSpeed(ts, b);
      && (s.ok <==> exists n :: [Token.Speed, Number(n)] <= ts)
      && (s.ok ==> s.rest == ts[2..] && s.bytes == WithSpeed(b, ts[1].n % 256))
      && (!s.ok ==> s.bytes == b && s.rest == if [Token.Speed] <= ts then ts[1..] else ts)
  {
    if ParseSpeed(ts, b).ok {
      assert [Token.Speed, Number(ts[1].n)] <= ts;
    }
  }

  /** The first alternative: what it accepts, and what it uses up in vain. */
  lemma AddrSpeedExact(ts: seq<Token>, b: Bytes)
    requires |b| == BASELINE_LEN
    ensures var r := ParseAddrSpeed(ts, b);
      && (r.ok <==> 4 <= |ts| && ts[0] == Addr && ts[1].Number? && ts[2] == Token.Speed && ts[3].Number?)
      && (r.ok ==> r.rest == ts[4..] && r.bytes == WithSpeed(WithAddress(b, CharOf(ts[1].n)), ts[3].n % 256))
      && (!r.ok ==> exists i | 0 <= i <= |ts| ::
           && LostAddr(ts[..i], ts[i..]) && r.rest == ts[i..]
           && r.bytes == if i < 2 then b else WithAddress(b, CharOf(ts[1].n)))
  {
    hide ParseAddr, ParseSpeed, WithAddress, WithSpeed;
    AddrExact(ts, b);
    var a := ParseAddr(ts, b);
    if a.ok {
      SpeedExact(a.rest, a.bytes);
      if ParseSpeed(a.rest, a.bytes).ok {
        assert ts[2..][2..] == ts[4..];
      } else if [Token.Speed] <= ts[2..] {
        assert ts[2..][1..] == ts[3..];
        assert LostAddr(ts[..3], ts[3..]);
      } else {
        assert LostAddr(ts[..2], ts[2..]);
      }
    } else if [Addr] <= ts {
      assert LostAddr(ts[..1], ts[1..]);
    } else {
      assert ts[0..] == ts && LostAddr(ts[..0], ts[0..]);
    }
  }

  /** The second alternative, likewise. */
  lemma SpeedAddrExact(ts: seq<Token>, b: Bytes)
    requires |b| == BASELINE_LEN
    ensures var r := ParseSpeedAddr(ts, b);
      && (r.ok <==> 4 <= |ts| && ts[0] == Token.Speed && ts[1].Number? && ts[2] == Addr && ts[3].Number?)
      && (r.ok ==> r.rest == ts[4..] && r.bytes == WithAddress(WithSpeed(b, ts[1].n % 256), CharOf(ts[3].n)))
      && (!r.ok ==> exists i | 0 <= i <= |ts| :: LostSpeed(ts[..i], ts[i..]) && r.rest == ts[i..])
  {
    hide ParseAddr, ParseSpeed, WithAddress, WithSpeed;
    SpeedExact(ts, b);
    var s := ParseSpeed(ts, b);
    if s.ok {
      AddrExact(s.rest, s.bytes);
      if ParseAddr(s.rest, s.bytes).ok {
        assert ts[2..][2..] == ts[4..];
      } else if [Addr] <= ts[2..] {
        assert ts[2..][1..] == ts[3..];
        assert LostSpeed(ts[..3], ts[3..]);
      } else {
        assert LostSpeed(ts[..2], ts[2..]);
      }
    } else if [Token.Speed] <= ts {
      assert LostSpeed(ts[..1], ts[1..]);
    } else {
      assert ts[0..] == ts && LostSpeed(ts[..0], ts[0..]);
    }
  }

  /** An address phrase, the next keyword included, given up because of what follows. */
  predicate LostAddr(lost: seq<Token>, next: seq<Token>) {
    match |lost|
    case 0 => Head(next) != Addr
    case 1 => lost[0] == Addr && !Head(next).Number?
    case 2 => lost[0] == Addr && lost[1].Number? && Head(next) != Token.Speed
    case _ => |lost| == 3 && lost[0] == Addr && lost[1].Number? && lost[2] == Token.Speed && !Head(next).Number?
  }

  /** A speed phrase, the next keyword included, given up because of what follows. */
  predicate LostSpeed(lost: seq<Token>, next: seq<Token>) {
    match |lost|
    case 0 => Head(next) != Token.Speed
    case 1 => lost[0] == Token.Speed && !Head(next).Number?
    case 2 => lost[0] == Token.Speed && lost[1].Number? && Head(next) != Addr
    case _ => |lost| == 3 && lost[0] == Token.Speed && lost[1].Number? && lost[2] == Addr && !Head(next).Number?
  }

  lemma AddrSpeedLoses(ts: seq<Token>, b: Bytes) returns (i: nat)
    requires |b| == BASELINE_LEN && !ParseAddrSpeed(ts, b).ok
    ensures i <= |ts| && LostAddr(ts[..i], ts[i..]) && ParseAddrSpeed(ts, b).rest == ts[i..]
  {
    hide *;
    AddrSpeedExact(ts, b);
    i :| 0 <= i <= |ts| && LostAddr(ts[..i], ts[i..]) && ParseAddrSpeed(ts, b).rest == ts[i..];
  }

  lemma SpeedAddrLoses(ts: seq<Token>, b: Bytes) returns (i: nat)
    requires |b| == BASELINE_LEN && !ParseSpeedAddr(ts, b).ok
    ensures i <= |ts| && LostSpeed(ts[..i], ts[i..]) && ParseSpeedAddr(ts, b).rest == ts[i..]
  {
    hide *;
    SpeedAddrExact(ts, b);
    i :| 0 <= i <= |ts| && LostSpeed(ts[..i], ts[i..]) && ParseSpeedAddr(ts, b).rest == ts[i..];
  }

  /** Where two stretches of tokens meet. */
  lemma Seam(lost: seq<Token>, next: seq<Token>)
    ensures var ts := lost + next;
      && ts[|lost|..] == next && (forall i | 0 <= i < |lost| :: ts[i] == lost[i])
      && Head(next) == Head(ts[|lost|..]) && (|lost| < |ts| ==> Head(next) == ts[|lost|])
      && (|lost| == |ts| ==> Head(next) == Bad)
  {
    assert (lost + next)[|lost|..] == next;
  }

  lemma LostAddrFails(lost: seq<Token>, next: seq<Token>, b: Bytes)
    requires |b| == BASELINE_LEN && LostAddr(lost, next)
    ensures var r := ParseAddrSpeed(lost + next, b); !r.ok && r.rest == next
  {
    var ts := lost + next;
    var a := ParseAddr(ts, b);
    assert ParseAddrSpeed(ts, b) == if a.ok then ParseSpeed(a.rest, a.bytes) else a;
    hide ParseAddrSpeed, ParseAddr, ParseSpeed, WithAddress, WithSpeed;
    Seam(lost, next);
    AddrExact(ts, b);
    if 2 <= |lost| {
      assert [Addr, Number(lost[1].n)] <= ts;
      SpeedExact(a.rest, a.bytes);
      assert 3 <= |lost| ==> ts[2..][1..] == ts[3..];
    }
  }

  lemma LostSpeedFails(lost: seq<Token>, next: seq<Token>, b: Bytes)
    requires |b| == BASELINE_LEN && LostSpeed(lost, next)
    ensures var r := ParseSpeedAddr(lost + next, b); !r.ok && r.rest == next
  {
    var ts := lost + next;
    var s := ParseSpeed(ts, b);
    assert ParseSpeedAddr(ts, b) == if s.ok then ParseAddr(s.rest, s.bytes) else s;
    hide ParseSpeedAddr, ParseAddr, ParseSpeed, WithAddress, WithSpeed;
    Seam(lost, next);
    SpeedExact(ts, b);
    if 2 <= |lost| {
      assert [Token.Speed, Number(lost[1].n)] <= ts;
      AddrExact(s.rest, s.bytes);
      assert 3 <= |lost| ==> ts[2..][1..] == ts[3..];
    }
  }

  lemma ArgsInTurn(ts: seq<Token>, b: Bytes)
    requires |b| == BASELINE_LEN
    ensures var first := ParseAddrSpeed(ts, b);
      ParseArgs(ts, b) == if first.ok then first else ParseSpeedAddr(first.rest, first.bytes)
  {
  }

  lemma ArgsAcceptedAreRead(ts: seq<Token>, b: Bytes)
    requires |b| == BASELINE_LEN && ParseArgs(ts, b).ok
    ensures exists address, speed :: Reads(ts, address, speed)
  {
    var first := ParseAddrSpeed(ts, b);
    hide *;
    ArgsInTurn(ts, b);
    AddrSpeedExact(ts, b);
    if first.ok {
      DocumentedReads(ts);
      assert Reads(ts, ts[1].n, ts[3].n);
    } else {
      var i := AddrSpeedLoses(ts, b);
      SpeedAddrExact(ts[i..], first.bytes);
      FallThroughReads(ts, i);
    }
  }

  lemma DocumentedReads(ts: seq<Token>)
    requires 4 <= |ts| && ts[0] == Addr && ts[1].Number? && ts[2] == Token.Speed && ts[3].Number?
    ensures forall address, speed :: Reads(ts, address, speed) <==> address == ts[1].n && speed == ts[3].n
  {
  }

  /** The speed and address phrases accepted by the second alternative where the first has stopped. */
  lemma FallThroughReads(ts: seq<Token>, i: nat)
    requires i <= |ts| && LostAddr(ts[..i], ts[i..])
    requires var u := ts[i..]; 4 <= |u| && u[0] == Token.Speed && u[1].Number? && u[2] == Addr && u[3].Number?
    ensures Reads(ts, ts[i + 3].n, ts[i + 1].n)
  {
    assert ts[i..][0] == ts[i] && ts[i..][1] == ts[i + 1] && ts[i..][2] == ts[i + 2] && ts[i..][3] == ts[i + 3];
  }

  lemma ArgsReadAreAccepted(ts: seq<Token>, b: Bytes, address: int, speed: int)
    requires |b| == BASELINE_LEN && Reads(ts, address, speed)
    ensures var r := ParseArgs(ts, b);
      r.ok && r.bytes == WithSpeed(WithAddress(b, CharOf(address)), speed % 256)
  {
    var first := ParseAddrSpeed(ts, b);
    hide *;
    ArgsInTurn(ts, b);
    AddrSpeedExact(ts, b);
    if first.ok {
      DocumentedReads(ts);
    } else {
      var i :| 0 <= i <= |ts| && LostAddr(ts[..i], ts[i..]) && first.rest == ts[i..]
        && first.bytes == if i < 2 then b else WithAddress(b, CharOf(ts[1].n));
      ReadsFallThrough(ts, i, address, speed);
      SpeedAddrExact(ts[i..], first.bytes);
      AddressAndSpeedCommute(first.bytes, CharOf(address), speed % 256);
      if i == 3 {
        AddressTwice(b, CharOf(ts[1].n), CharOf(address));
      }
    }
  }

  lemma ReadsFallThrough(ts: seq<Token>, i: nat, address: int, speed: int)
    requires i <= |ts| && LostAddr(ts[..i], ts[i..]) && Reads(ts, address, speed)
    requires !(4 <= |ts| && ts[0] == Addr && ts[1].Number? && ts[2] == Token.Speed && ts[3].Number?)
    ensures i != 2 && i + 4 <= |ts|
    ensures var u := ts[i..]; u[0] == Token.Speed && u[1] == Number(speed) && u[2] == Addr && u[3] == Number(address)
  {
    var j := ReadsAfter(ts, address, speed);
    assert i == j;
  }

  lemma ReadsAfter(ts: seq<Token>, address: int, speed: int) returns (i: nat)
    requires Reads(ts, address, speed)
    requires !(4 <= |ts| && ts[0] == Addr && ts[1].Number? && ts[2] == Token.Speed && ts[3].Number?)
    ensures i in {0, 1, 3} && SpeedAt(ts, i, speed) && AddrAt(ts, i + 2, address)
    ensures (i == 1 ==> ts[0] == Addr) && (i == 3 ==> ts[0] == Addr && ts[1].Number? && ts[2] == Token.Speed)
  {
    if SpeedAt(ts, 0, speed) && AddrAt(ts, 2, address) {
      i := 0;
    } else if SpeedAt(ts, 1, speed) && AddrAt(ts, 3, address) {
      i := 1;
    } else {
      i := 3;
    }
  }

  lemma AddressAndSpeedCommute(b: Bytes, address: bv8, speed: nat)
    requires |b| == BASELINE_LEN
    ensures WithAddress(WithSpeed(b, speed), address) == WithSpeed(WithAddress(b, address), speed)
  {
    WritesCommute(b, Write.Address(address), Write.Speed(speed));
  }

  lemma AddressTwice(b: Bytes, first: bv8, second: bv8)
    requires |b| == BASELINE_LEN
    ensures WithAddress(WithAddress(b, first), second) == WithAddress(b, second)
  {
    WritesCommute(b, Write.Address(first), Write.Address(second));
  }

  /** The arguments accepted are exactly those four shapes, and whichever shape is used the packet
      gets the last address and the speed given. */
  lemma ArgsExact(ts: seq<Token>, b: Bytes)
    requires |b| == BASELINE_LEN
    ensures ParseArgs(ts, b).ok <==> exists address, speed :: Reads(ts, address, speed)
    ensures forall address, speed :: Reads(ts, address, speed) ==>
      ParseArgs(ts, b).bytes == WithSpeed(WithAddress(b, CharOf(address)), speed % 256)
  {
    if ParseArgs(ts, b).ok {
      ArgsAcceptedAreRead(ts, b);
    }
    forall address, speed | Reads(ts, address, speed)
      ensures ParseArgs(ts, b).ok
      ensures ParseArgs(ts, b).bytes == WithSpeed(WithAddress(b, CharOf(address)), speed % 256)
    {
      ArgsReadAreAccepted(ts, b, address, speed);
    }
  }

  /** What arguments that are not accepted use up: part of an address phrase, then part of a speed
      phrase, each given up because of the token after it. */
  ghost predicate InVain(junk: seq<Token>, next: seq<Token>) {
    exists i | 0 <= i <= |junk| :: LostAddr(junk[..i], junk[i..] + next) && LostSpeed(junk[i..], next)
  }

  lemma JunkFails(junk: seq<Token>, next: seq<Token>, b: Bytes)
    requires |b| == BASELINE_LEN && InVain(junk, next)
    ensures var r := ParseArgs(junk + next, b); !r.ok && r.rest == next
  {
    var i :| 0 <= i <= |junk| && LostAddr(junk[..i], junk[i..] + next) && LostSpeed(junk[i..], next);
    assert junk + next == junk[..i] + (junk[i..] + next);
    hide ParseAddrSpeed, ParseSpeedAddr, LostAddr, LostSpeed;
    LostAddrFails(junk[..i], junk[i..] + next, b);
    LostSpeedFails(junk[i..], next, ParseAddrSpeed(junk + next, b).bytes);
  }

  lemma FailedArgsAreJunk(ts: seq<Token>, b: Bytes) returns (n: nat)
    requires |b| == BASELINE_LEN && !ParseArgs(ts, b).ok
    ensures n <= |ts| && InVain(ts[..n], ts[n..]) && ParseArgs(ts, b).rest == ts[n..]
  {
    var first := ParseAddrSpeed(ts, b);
    hide *;
    ArgsInTurn(ts, b);
    var i := AddrSpeedLoses(ts, b);
    var k := SpeedAddrLoses(ts[i..], first.bytes);
    n := i + k;
    SplitTwice(ts, i, k);
    JunkOf(ts, i, n);
  }

  lemma SplitTwice(ts: seq<Token>, i: nat, k: nat)
    requires i + k <= |ts|
    ensures ts[..i + k][..i] == ts[..i] && ts[..i + k][i..] == ts[i..][..k] && ts[i + k..] == ts[i..][k..]
    ensures ts[i..] == ts[..i + k][i..] + ts[i + k..]
  {
  }

  lemma JunkOf(ts: seq<Token>, i: nat, n: nat)
    requires i <= n <= |ts|
    requires LostAddr(ts[..n][..i], ts[..n][i..] + ts[n..]) && LostSpeed(ts[..n][i..], ts[n..])
    ensures InVain(ts[..n], ts[n..])
  {
    hide LostAddr, LostSpeed;
  }

  // ----- exactly which commands are accepted

  /** The alternative whose keyword this is. */
  function Turn(tok: Token): (k: nat)
    ensures k <= ALTERNATIVES
  {
    match tok
    case Raw => 0
    case Help => 1
    case Show => 2
    case Cache => 3
    case Forward => 4
    case Reverse => 5
    case Stop => 6
    case _ => ALTERNATIVES
  }

  /** The tokens begin with a complete command. */
  ghost predicate Complete(ts: seq<Token>) {
    match Head(ts)
    case Raw => 1 < |ts| && ts[1].Hex?
    case Help => true
    case Show => [Show, Status] <= ts
    case Cache => [Cache, Clear] <= ts || exists n :: [Cache, Show, Number(n)] <= ts
    case Forward => exists address, speed :: Reads(ts[1..], address, speed)
    case Reverse => exists address, speed :: Reads(ts[1..], address, speed)
    case Stop => true
    case _ => false
  }

  /** What alternative k may use up in vain before `next`. */
  ghost predicate Lost(k: nat, lost: seq<Token>, next: seq<Token>) {
    lost != [] ==>
      match k
      case 0 => lost == [Raw]
      case 2 => lost == [Show]
      case 3 => lost == [Cache] || lost == [Cache, Show]
      case 4 => lost[0] == Forward && InVain(lost[1..], next)
      case 5 => lost[0] == Reverse && InVain(lost[1..], next)
      case _ => false
  }

  /** An alternative succeeds exactly on the complete commands that begin with its keyword. */
  lemma AlternativeAccepts(k: nat, ts: seq<Token>, garbage: bool)
    requires k < ALTERNATIVES
    ensures Alternative(k, ts, garbage).result.Some? <==> Turn(Head(ts)) == k && Complete(ts)
  {
    if k == 4 || k == 5 {
      DriveAccepts(ts, if k == 4 then Forward else Reverse, if k == 4 then FORWARD else REVERSE);
    } else if k == 3 {
      CacheAccepts(ts);
    }
    hide ParseDrive, ParseCache;
  }

  lemma DriveAccepts(ts: seq<Token>, keyword: Token, direction: int)
    requires keyword in {Forward, Reverse}
    ensures ParseDrive(ts, keyword, direction).result.Some? <==>
      Head(ts) == keyword && exists address, speed :: Reads(ts[1..], address, speed)
  {
    if Head(ts) == keyword {
      ArgsExact(ts[1..], BLANK);
    }
    hide Reads, ParseArgs, WithPreamble, WithDirection, WithSpeedDirectionPreamble;
  }

  lemma CacheAccepts(ts: seq<Token>)
    ensures ParseCache(ts).result.Some? <==>
      Head(ts) == Cache && ([Cache, Clear] <= ts || exists n :: [Cache, Show, Number(n)] <= ts)
  {
    if ParseCache(ts).result.Some? && !([Cache, Clear] <= ts) {
      assert ts[1..][1..] == ts[2..];
      assert [Cache, Show, Number(ts[2].n)] <= ts;
    }
  }

  /** An alternative that fails has used up what Lost says. */
  lemma FailureLoses(k: nat, ts: seq<Token>, garbage: bool) returns (n: nat)
    requires k < ALTERNATIVES && Alternative(k, ts, garbage).result.None?
    ensures n <= |ts| && Lost(k, ts[..n], ts[n..]) && Alternative(k, ts, garbage).rest == ts[n..]
  {
    if k == 4 || k == 5 {
      n := DriveLoses(ts, if k == 4 then Forward else Reverse, if k == 4 then FORWARD else REVERSE);
      hide ParseDrive, InVain;
    } else {
      hide ParseDrive, InVain;
      n := SystemLoses(k, ts, garbage);
    }
  }

  lemma SystemLoses(k: nat, ts: seq<Token>, garbage: bool) returns (n: nat)
    requires k < ALTERNATIVES && k != 4 && k != 5 && Alternative(k, ts, garbage).result.None?
    ensures n <= |ts| && Lost(k, ts[..n], ts[n..]) && Alternative(k, ts, garbage).rest == ts[n..]
  {
    n := 0;
    assert ts[0..] == ts;
    hide ParseDrive, InVain, HexBytes, ParseStopTarget;
    if k < 4 && Turn(Head(ts)) == k {
      n := if k == 3 && [Cache, Show] <= ts then 2 else 1;
      assert k == 3 && [Cache, Show] <= ts ==> ts[1..][1..] == ts[2..];
    }
  }

  lemma DriveLoses(ts: seq<Token>, keyword: Token, direction: int) returns (n: nat)
    requires keyword in {Forward, Reverse} && ParseDrive(ts, keyword, direction).result.None?
    ensures n <= |ts| && ParseDrive(ts, keyword, direction).rest == ts[n..]
    ensures n != 0 ==> ts[0] == keyword && InVain(ts[..n][1..], ts[n..])
  {
    hide ParseArgs, InVain;
    n := 0;
    assert ts[0..] == ts;
    if Head(ts) == keyword {
      var m := FailedArgsAreJunk(ts[1..], BLANK);
      n := m + 1;
      assert ts[..n][1..] == ts[1..][..m] && ts[n..] == ts[1..][m..];
    }
  }

  /** Conversely, before a later keyword that is exactly what it uses up. */
  lemma LostFails(k: nat, lost: seq<Token>, next: seq<Token>, garbage: bool)
    requires Lost(k, lost, next) && k < Turn(Head(next)) < ALTERNATIVES
    ensures Alternative(k, lost + next, garbage) == Parse(None, next)
  {
    if k == 4 || k == 5 {
      LostDrive(k, lost, next);
      DriveFails(lost, next, if k == 4 then Forward else Reverse, if k == 4 then FORWARD else REVERSE);
      hide InVain, ParseDrive;
    } else {
      hide InVain, ParseDrive;
      SystemFails(k, lost, next, garbage);
    }
  }

  lemma LostDrive(k: nat, lost: seq<Token>, next: seq<Token>)
    requires Lost(k, lost, next) && k in {4, 5}
    ensures lost != [] ==> lost[0] == (if k == 4 then Forward else Reverse) && InVain(lost[1..], next)
  {
    hide InVain;
  }

  lemma SystemFails(k: nat, lost: seq<Token>, next: seq<Token>, garbage: bool)
    requires Lost(k, lost, next) && k < Turn(Head(next)) < ALTERNATIVES && k < 4
    ensures Alternative(k, lost + next, garbage) == Parse(None, next)
  {
    hide InVain, ParseDrive, ParseStop, HexBytes;
    assert lost == [] || (k == 0 && lost == [Raw]) || (k == 2 && lost == [Show]) || (k == 3 && lost[0] == Cache);
    if lost == [] {
      assert lost + next == next;
    } else {
      assert (lost + next)[0] == lost[0];
      if |lost| == 1 {
        assert (lost + next)[1..] == next;
      } else {
        assert (lost + next)[1..] == [Show] + next && ([Show] + next)[1..] == next;
      }
    }
  }

  lemma DriveFails(lost: seq<Token>, next: seq<Token>, keyword: Token, direction: int)
    requires keyword in {Forward, Reverse} && Head(next) != keyword
    requires lost != [] ==> lost[0] == keyword && InVain(lost[1..], next)
    ensures ParseDrive(lost + next, keyword, direction) == Parse(None, next)
  {
    if lost == [] {
      assert lost + next == next;
    } else {
      assert (lost + next)[1..] == lost[1..] + next && (lost + next)[0] == lost[0];
      JunkFails(lost[1..], next, BLANK);
    }
    hide InVain, ParseArgs;
  }

  function Flat(lost: seq<seq<Token>>): seq<Token> {
    if lost == [] then [] else lost[0] + Flat(lost[1..])
  }

  /** The tokens are what alternatives from number k on lose, one after the other, then a complete
      command for the alternative after them. */
  ghost predicate Commanded(k: nat, ts: seq<Token>, lost: seq<seq<Token>>, command: seq<Token>)
    decreases |lost|
  {
    if lost == [] then ts == command && Turn(Head(command)) == k && Complete(command)
    else
      && lost[0] <= ts && Lost(k, lost[0], ts[|lost[0]|..])
      && Commanded(k + 1, ts[|lost[0]|..], lost[1..], command)
  }

  /** One step of the definition. */
  lemma CommandedUnfolds(k: nat, ts: seq<Token>, lost: seq<seq<Token>>, command: seq<Token>)
    requires Commanded(k, ts, lost, command)
    ensures lost == [] ==> ts == command && Turn(Head(command)) == k && Complete(command)
    ensures lost != [] ==>
      && lost[0] <= ts && Lost(k, lost[0], ts[|lost[0]|..]) && ts == lost[0] + ts[|lost[0]|..]
      && Commanded(k + 1, ts[|lost[0]|..], lost[1..], command)
  {
    hide Lost, Complete;
  }

  lemma {:induction false} CommandedLater(k: nat, ts: seq<Token>, lost: seq<seq<Token>>, command: seq<Token>)
    requires Commanded(k, ts, lost, command)
    ensures ts == Flat(lost) + command && Complete(command) && k + |lost| == Turn(Head(command)) < ALTERNATIVES
    ensures k <= Turn(Head(ts)) < ALTERNATIVES
    decreases |lost|
  {
    assert Flat(lost) == if lost == [] then [] else lost[0] + Flat(lost[1..]);
    hide *;
    CommandedUnfolds(k, ts, lost, command);
    if lost == [] {
      CompleteHasTurn(command);
      assert [] + command == command;
    } else {
      var next := ts[|lost[0]|..];
      CommandedLater(k + 1, next, lost[1..], command);
      LostKeyword(k, lost[0], next);
      HeadOfTwo(lost[0], next);
      Associative(lost[0], Flat(lost[1..]), command);
    }
  }

  lemma CompleteHasTurn(ts: seq<Token>)
    requires Complete(ts)
    ensures Turn(Head(ts)) < ALTERNATIVES
  {
  }

  lemma HeadOfTwo(a: seq<Token>, b: seq<Token>)
    ensures Head(a + b) == if a == [] then Head(b) else a[0]
  {
  }

  lemma LostKeyword(k: nat, lost: seq<Token>, next: seq<Token>)
    requires Lost(k, lost, next)
    ensures lost != [] ==> Turn(lost[0]) == k
  {
    hide InVain;
  }

  lemma {:induction false} CommandedIsAccepted(k: nat, ts: seq<Token>, lost: seq<seq<Token>>, command: seq<Token>,
                                               garbage: bool)
    requires k <= ALTERNATIVES && Commanded(k, ts, lost, command)
    ensures Turn(Head(command)) < ALTERNATIVES
    ensures ParseFrom(k, ts, garbage) == Alternative(Turn(Head(command)), command, garbage)
    ensures ParseFrom(k, ts, garbage).result.Some?
    decreases |lost|
  {
    hide *;
    CommandedLater(k, ts, lost, command);
    CommandedUnfolds(k, ts, lost, command);
    FromUnfolds(k, ts, garbage);
    if lost == [] {
      AlternativeAccepts(k, ts, garbage);
    } else {
      var next := ts[|lost[0]|..];
      CommandedLater(k + 1, next, lost[1..], command);
      LostFails(k, lost[0], next, garbage);
      CommandedIsAccepted(k + 1, next, lost[1..], command, garbage);
    }
  }

  lemma {:induction false} AcceptedIsCommanded(k: nat, ts: seq<Token>, garbage: bool)
    returns (lost: seq<seq<Token>>, command: seq<Token>)
    requires k <= ALTERNATIVES && ParseFrom(k, ts, garbage).result.Some?
    ensures Commanded(k, ts, lost, command)
    decreases ALTERNATIVES - k
  {
    hide Alternative, Complete, Lost;
    AlternativeAccepts(k, ts, garbage);
    if Alternative(k, ts, garbage).result.Some? {
      lost, command := [], ts;
    } else {
      var n := FailureLoses(k, ts, garbage);
      lost, command := AcceptedIsCommanded(k + 1, ts[n..], garbage);
      lost := [ts[..n]] + lost;
    }
  }

  /** Exactly which inputs are accepted: those with a complete command, after nothing but what the
      alternatives before it lose. And what they lose has no effect: the result is that of the command
      alone. */
  lemma CommandExact(ts: seq<Token>, garbage: bool)
    ensures ParseTokens(ts, garbage).Some? <==> exists lost, command :: Commanded(0, ts, lost, command)
    ensures forall lost, command | Commanded(0, ts, lost, command) ::
      && ts == Flat(lost) + command && ParseTokens(ts, garbage) == ParseTokens(command, garbage)
      && ParseCommand(ts, garbage) == ParseCommand(command, garbage)
  {
    hide ParseFrom, Commanded, Flat;
    if ParseTokens(ts, garbage).Some? {
      var lost, command := AcceptedIsCommanded(0, ts, garbage);
    }
    forall lost, command | Commanded(0, ts, lost, command)
      ensures ts == Flat(lost) + command && ParseTokens(ts, garbage) == ParseTokens(command, garbage)
      ensures ParseCommand(ts, garbage) == ParseCommand(command, garbage) && ParseTokens(ts, garbage).Some?
    {
      CommandedLater(0, ts, lost, command);
      CommandedIsAccepted(0, ts, lost, command, garbage);
      FirstAlternative(command, garbage);
    }
  }

  lemma {:induction false} NothingLost(k: nat, ts: seq<Token>)
    requires k <= Turn(Head(ts)) < ALTERNATIVES && Complete(ts)
    ensures exists lost :: Commanded(k, ts, lost, ts)
    decreases ALTERNATIVES - k
  {
    hide Complete;
    if k == Turn(Head(ts)) {
      assert Commanded(k, ts, [], ts);
    } else {
      NothingLost(k + 1, ts);
      var lost :| Commanded(k + 1, ts, lost, ts);
      assert ts[0..] == ts && ([[]] + lost)[1..] == lost;
      assert Commanded(k, ts, [[]] + lost, ts);
    }
  }

  /** A complete command at the very beginning is parsed by the alternative of its keyword. */
  lemma FirstAlternative(ts: seq<Token>, garbage: bool)
    requires Complete(ts)
    ensures Turn(Head(ts)) < ALTERNATIVES
    ensures ParseCommand(ts, garbage) == Alternative(Turn(Head(ts)), ts, garbage)
  {
    assert Turn(Head(ts)) < ALTERNATIVES;
    hide Complete, Alternative, Commanded, ParseFrom;
    NothingLost(0, ts);
    var lost :| Commanded(0, ts, lost, ts);
    CommandedIsAccepted(0, ts, lost, ts, garbage);
  }

  /** A packet is under construction when a parse fails if the input begins with a direction, and is not
      if there is no direction in it. */
  lemma BegunByDirection(ts: seq<Token>, garbage: bool)
    requires ParseTokens(ts, garbage).None?
    ensures Head(ts) in {Forward, Reverse} ==> Begun(ts, garbage)
    ensures Forward !in ts && Reverse !in ts ==> !Begun(ts, garbage)
  {
    assert ParseFrom(0, ts, garbage).result.None? && Turn(Forward) == 4 && Turn(Reverse) == 5;
    hide *;
    var n0, t0 := FailsOn(0, ts, garbage);
    var n1, t1 := FailsOn(1, t0, garbage);
    var n2, t2 := FailsOn(2, t1, garbage);
    var n3, t3 := FailsOn(3, t2, garbage);
    var n4, t4 := FailsOn(4, t3, garbage);
    SystemAlternatives(ts, t0, t1, t2, garbage);
    AlternativeFour(t3, garbage);
    BegunWith(ts, t3, t4, garbage);
    KeepsDirection(ts, n0, t0);
    KeepsDirection(t0, n1, t1);
    KeepsDirection(t1, n2, t2);
    KeepsDirection(t2, n3, t3);
    KeepsDirection(t3, n4, t4);
  }

  /** Alternative k, reached by a parse that fails, fails as well. */
  lemma FailsOn(k: nat, ts: seq<Token>, garbage: bool) returns (n: nat, rest: seq<Token>)
    requires k < ALTERNATIVES && ParseFrom(k, ts, garbage).result.None?
    ensures n <= |ts| && rest == ts[n..] && rest == Alternative(k, ts, garbage).rest
    ensures ParseFrom(k + 1, rest, garbage).result.None?
    ensures n != 0 ==> Turn(Head(ts)) == k
  {
    FromUnfolds(k, ts, garbage);
    hide *;
    n := FailureLoses(k, ts, garbage);
    rest := ts[n..];
    LostKeyword(k, ts[..n], rest);
    HeadOfPart(ts, n);
  }

  lemma SystemAlternatives(t0: seq<Token>, t1: seq<Token>, t2: seq<Token>, t3: seq<Token>, garbage: bool)
    ensures Alternative(0, t0, garbage) == ParseRaw(t0, garbage) && Alternative(1, t1, garbage) == ParseHelp(t1)
    ensures Alternative(2, t2, garbage) == ParseShow(t2) && Alternative(3, t3, garbage) == ParseCache(t3)
  {
    hide ParseRaw, ParseHelp, ParseShow, ParseCache;
  }

  lemma AlternativeFour(ts: seq<Token>, garbage: bool)
    ensures Alternative(4, ts, garbage) == ParseDrive(ts, Forward, FORWARD)
  {
    hide ParseDrive;
  }

  lemma HeadOfPart(ts: seq<Token>, n: nat)
    requires n <= |ts|
    ensures n != 0 ==> ts[..n] != [] && ts[..n][0] == Head(ts)
  {
  }

  lemma KeepsDirection(ts: seq<Token>, n: nat, rest: seq<Token>)
    requires n <= |ts| && rest == ts[n..]
    ensures n == 0 ==> rest == ts
    ensures Forward !in ts && Reverse !in ts ==> Forward !in rest && Reverse !in rest
    ensures Forward !in ts && Reverse !in ts ==> Head(rest) != Forward && Head(rest) != Reverse
  {
  }

  // ----- what commands mean on the rails

  lemma DriveTokens(forward: bool, args: seq<Token>, garbage: bool)
    requires ParseArgs(args, BLANK).ok
    ensures ParseCommand([if forward then Forward else Reverse] + args, garbage).result ==
      Some(DccResult(WithDirection(WithSpeedDirectionPreamble(WithPreamble(ParseArgs(args, BLANK).bytes)),
                                   if forward then FORWARD else REVERSE)))
  {
    hide ParseArgs, ParseFrom, WithPreamble, WithDirection, WithSpeedDirectionPreamble;
    var ts := [if forward then Forward else Reverse] + args;
    assert ts[1..] == args;
    ArgsAcceptedAreRead(args, BLANK);
    FirstAlternative(ts, garbage);
  }

  lemma FiveWrites(address: bv8, speed: nat, direction: int)
    ensures var ws := [Write.Address(address), Write.Speed(speed), Preamble, Instruction, Direction(direction)];
      && LastWrites(ws) == Fields(true, Some(address), true, Some(direction), Some(speed))
      && ApplyAll(BLANK, ws) == WithDirection(WithSpeedDirectionPreamble(WithPreamble(
           WithSpeed(WithAddress(BLANK, address), speed))), direction)
  {
    hide WithAddress, WithSpeed, WithPreamble, WithSpeedDirectionPreamble, WithDirection;
    var a, s := Write.Address(address), Write.Speed(speed);
    OneMoreWrite(BLANK, [], a);
    assert [] + [a] == [a];
    OneMoreWrite(BLANK, [a], s);
    assert [a] + [s] == [a, s];
    OneMoreWrite(BLANK, [a, s], Preamble);
    assert [a, s] + [Preamble] == [a, s, Preamble];
    OneMoreWrite(BLANK, [a, s, Preamble], Instruction);
    assert [a, s, Preamble] + [Instruction] == [a, s, Preamble, Instruction];
    OneMoreWrite(BLANK, [a, s, Preamble, Instruction], Direction(direction));
    assert [a, s, Preamble, Instruction] + [Direction(direction)] == [a, s, Preamble, Instruction, Direction(direction)];
  }

  /** A drive command, in any accepted argument shape and whatever follows it, gives the frame that a
      decoder reads as the address modulo 128, the speed's low byte modulo 29, and the direction. */
  lemma DriveMeaning(forward: bool, args: seq<Token>, address: int, speed: int, garbage: bool)
    requires Reads(args, address, speed)
    ensures var r := ParseTokens([if forward then Forward else Reverse] + args, garbage);
      && r.Some? && r.value.DccResult? && LegalBaseline(r.value.bytes)
      && Interpret(DataOf(r.value.bytes)) == Some(Command(address % 128, speed % 256 % 29, forward))
      && !IsBroadcastStop(r.value.bytes)
  {
    assert |BLANK| == BASELINE_LEN;
    hide *;
    ArgsReadAreAccepted(args, BLANK, address, speed);
    DriveTokens(forward, args, garbage);
    DriveFrameMeaning(address, speed, forward);
    FinishedResult([if forward then Forward else Reverse] + args, garbage);
  }

  lemma FinishedResult(ts: seq<Token>, garbage: bool)
    ensures var r := ParseCommand(ts, garbage).result;
      r.Some? && r.value.DccResult? ==> ParseTokens(ts, garbage) == Some(DccResult(Finish(r.value.bytes)))
  {
    hide ParseCommand, Finish;
  }

  lemma DriveFrameMeaning(address: int, speed: int, forward: bool)
    ensures var b := Finish(WithDirection(WithSpeedDirectionPreamble(WithPreamble(
        WithSpeed(WithAddress(BLANK, CharOf(address)), speed % 256))), if forward then FORWARD else REVERSE));
      && LegalBaseline(b) && Interpret(DataOf(b)) == Some(Command(address % 128, speed % 256 % 29, forward))
      && !IsBroadcastStop(b)
  {
    var direction := if forward then FORWARD else REVERSE;
    var ws := [Write.Address(CharOf(address)), Write.Speed(speed % 256), Preamble, Instruction, Direction(direction)];
    FiveWrites(CharOf(address), speed % 256, direction);
    DecoderReadsLastWrites(ws);
    SpeedPacketIsNoBroadcastStop(ws);
    AddressOfCast(address);
    hide *;
  }

  /** The codes of the two broadcast stops are not in the speed table. */
  lemma TableHasNoStopCodes(step: nat)
    requires step < MAX_SPEED_STEPS
    ensures SPEED_STEPS[step] != 0x10 && SPEED_STEPS[step] != 0x11
  {
    SpeedCode(step);
    StopCodes(SPEED_STEPS[step]);
  }

  lemma StopCodes(code: bv8)
    ensures code == 0x10 ==> code as int == 16
    ensures code == 0x11 ==> code as int == 17
  {
  }

  lemma StopHasStopCode(b: Bytes)
    requires IsBroadcastStop(b)
    ensures SpeedCodeOf(b) == 0x10 || SpeedCodeOf(b) == 0x11
  {
  }

  /** No packet with a speed set from the table is taken for a broadcast stop, not even for address 0. */
  lemma SpeedPacketIsNoBroadcastStop(ws: seq<Write>)
    requires LastWrites(ws).speed.Some?
    ensures !IsBroadcastStop(FrameOf(ws))
  {
    FieldsReachFrame(ws);
    TableHasNoStopCodes(LastWrites(ws).speed.value % MAX_SPEED_STEPS);
    if IsBroadcastStop(FrameOf(ws)) {
      StopHasStopCode(FrameOf(ws));
    }
  }

  lemma FourWrites(address: bv8)
    ensures var ws := [Preamble, Write.Address(address), Instruction, Write.Speed(0)];
      && LastWrites(ws) == Fields(true, Some(address), true, None, Some(0))
      && ApplyAll(BLANK, ws) == WithSpeed(WithSpeedDirectionPreamble(WithAddress(WithPreamble(BLANK), address)), 0)
  {
    hide WithAddress, WithSpeed, WithPreamble, WithSpeedDirectionPreamble;
    var a, s := Write.Address(address), Write.Speed(0);
    OneMoreWrite(BLANK, [], Preamble);
    assert [] + [Preamble] == [Preamble];
    OneMoreWrite(BLANK, [Preamble], a);
    assert [Preamble] + [a] == [Preamble, a];
    OneMoreWrite(BLANK, [Preamble, a], Instruction);
    assert [Preamble, a] + [Instruction] == [Preamble, a, Instruction];
    OneMoreWrite(BLANK, [Preamble, a, Instruction], s);
    assert [Preamble, a, Instruction] + [s] == [Preamble, a, Instruction, s];
  }

  lemma StopTokens(rest: seq<Token>, garbage: bool)
    ensures ParseCommand([Stop] + rest, garbage) == ParseStop([Stop] + rest)
    ensures ParseStop([Stop] + rest).result ==
      var a := ParseAddr(rest, WithPreamble(BLANK));
      Some(DccResult(
        if a.ok then WithSpeed(WithSpeedDirectionPreamble(a.bytes), 0)
        else if Accept(a.rest, All).0 then EMERGENCY_STOP else BROADCAST_STOP))
  {
    hide ParseAddr, ParseFrom, WithPreamble, WithSpeedDirectionPreamble, WithSpeed;
    var ts := [Stop] + rest;
    assert ts[1..] == rest;
    FirstAlternative(ts, garbage);
  }

  /** A stop command never fails. With an address it stops that loco; otherwise it is a broadcast
      stop, an emergency one after `all`, also when a lone `addr` comes first. */
  lemma StopMeaning(rest: seq<Token>, garbage: bool)
    ensures var r := ParseTokens([Stop] + rest, garbage);
      && (forall n :: [Addr, Number(n)] <= rest ==>
           && r.Some? && r.value.DccResult? && LegalBaseline(r.value.bytes)
           && Interpret(DataOf(r.value.bytes)) == Some(Command(n % 128, 0, false))
           && !IsBroadcastStop(r.value.bytes))
      && (!(exists n :: [Addr, Number(n)] <= rest) ==>
           r == Some(DccResult(if [All] <= rest || [Addr, All] <= rest then EMERGENCY_STOP else BROADCAST_STOP)))
  {
    assert |BLANK| == BASELINE_LEN;
    hide *;
    StopTokens(rest, garbage);
    FinishedResult([Stop] + rest, garbage);
    AddrExact(rest, WithPreamble(BLANK));
    StopsAreFinished();
    AcceptAll(rest);
    forall n | [Addr, Number(n)] <= rest
      ensures var r := ParseTokens([Stop] + rest, garbage);
        && r.Some? && r.value.DccResult? && LegalBaseline(r.value.bytes)
        && Interpret(DataOf(r.value.bytes)) == Some(Command(n % 128, 0, false))
        && !IsBroadcastStop(r.value.bytes)
    {
      LocoStopMeaning(n);
    }
  }

  lemma AcceptAll(rest: seq<Token>)
    ensures Accept(if [Addr] <= rest then rest[1..] else rest, All).0 <==> [All] <= rest || [Addr, All] <= rest
  {
    assert [Addr, All] <= rest <==> |rest| >= 2 && rest[0] == Addr && rest[1] == All;
    assert [All] <= rest <==> |rest| >= 1 && rest[0] == All;
  }

  lemma LocoStopMeaning(n: int)
    ensures var b := Finish(WithSpeed(WithSpeedDirectionPreamble(WithAddress(WithPreamble(BLANK), CharOf(n))), 0));
      && LegalBaseline(b) && Interpret(DataOf(b)) == Some(Command(n % 128, 0, false)) && !IsBroadcastStop(b)
  {
    var ws := [Preamble, Write.Address(CharOf(n)), Instruction, Write.Speed(0)];
    FourWrites(CharOf(n));
    DecoderReadsLastWrites(ws);
    SpeedPacketIsNoBroadcastStop(ws);
    AddressOfCast(n);
    hide *;
  }

  /** The system commands of the documented grammar, whatever follows them, and raw packets, whose
      result depends on what happens to be in the uninitialised result object. */
  lemma SystemCommands(n: int, h: string, rest: seq<Token>, garbage: bool)
    ensures ParseTokens([Help] + rest, garbage) == Some(SysResult(HelpCmd))
    ensures ParseTokens([Show, Status] + rest, garbage) == Some(SysResult(StatusCmd))
    ensures ParseTokens([Cache, Clear] + rest, garbage) == Some(SysResult(CacheClearCmd))
    ensures ParseTokens([Cache, Show, Number(n)] + rest, garbage) == Some(SysResult(CacheShowCmd(n)))
    ensures ParseTokens([Raw, Hex(h)] + rest, garbage) == Some(if garbage then RawResult(HexBytes(h)) else Undefined)
  {
    hide ParseFrom;
    var show := [Cache, Show, Number(n)] + rest;
    assert [Cache, Show, Number(n)] <= show && show[1..][1..] == [Number(n)] + rest;
    FirstAlternative([Help] + rest, garbage);
    FirstAlternative([Show, Status] + rest, garbage);
    FirstAlternative([Cache, Clear] + rest, garbage);
    FirstAlternative(show, garbage);
    FirstAlternative([Raw, Hex(h)] + rest, garbage);
  }

  // ----- no packet without a command

  /** The tokens order the packet b: a direction with arguments in one of the accepted shapes
      whose numbers and direction a decoder reads from b, or a stop that by itself gives b. */
  ghost predicate Orders(phrase: seq<Token>, b: Bytes) {
    || (phrase != [] && (phrase[0] == Forward || phrase[0] == Reverse) && |b| == BASELINE_LEN
        && (exists address, speed :: Reads(phrase[1..], address, speed)
             && Interpret(DataOf(b)) == Some(Command(address % 128, speed % 256 % 29, phrase[0] == Forward))))
    || (phrase != [] && phrase[0] == Stop && ParseTokens(phrase, false) == Some(DccResult(b)))
  }

  lemma DriveOrders(ts: seq<Token>, garbage: bool)
    requires Complete(ts) && Head(ts) in {Forward, Reverse}
    ensures var r := ParseTokens(ts, garbage); r.Some? && r.value.DccResult? && Orders(ts, r.value.bytes)
  {
    var forward, args := ts[0] == Forward, ts[1..];
    assert ts == [if forward then Forward else Reverse] + args;
    hide Reads, ParseTokens, Interpret, DataOf, LegalBaseline, IsBroadcastStop;
    var address, speed :| Reads(args, address, speed);
    DriveMeaning(forward, args, address, speed, garbage);
    LegalLength(ParseTokens(ts, garbage).value.bytes);
  }

  lemma LegalLength(b: Bytes)
    requires LegalBaseline(b)
    ensures |b| == BASELINE_LEN
  {
  }

  /** A stop does not depend on the uninitialised result object. */
  lemma StopOrders(ts: seq<Token>, garbage: bool)
    requires Head(ts) == Stop
    ensures var r := ParseTokens(ts, garbage); r.Some? && r.value.DccResult? && Orders(ts, r.value.bytes)
  {
    hide ParseCommand, ParseStop, Finish;
    assert ts == [Stop] + ts[1..];
    StopTokens(ts[1..], garbage);
    StopTokens(ts[1..], false);
  }

  lemma SystemResult(ts: seq<Token>, garbage: bool)
    requires Complete(ts) && Turn(Head(ts)) < 4
    ensures ParseTokens(ts, garbage).Some? && !ParseTokens(ts, garbage).value.DccResult?
  {
    FirstAlternative(ts, garbage);
    AlternativeAccepts(Turn(Head(ts)), ts, garbage);
    hide ParseFrom, Complete;
  }

  /** Soundness of the parser: whenever the result is a DCC packet, some stretch of the input commands
      exactly that packet; keywords of failed alternatives before it add nothing to it. */
  lemma EveryPacketWasCommanded(ts: seq<Token>, garbage: bool)
    ensures var r := ParseTokens(ts, garbage);
      r.Some? && r.value.DccResult? ==>
        exists lost, command :: Commanded(0, ts, lost, command) && Orders(command, r.value.bytes)
  {
    var r := ParseTokens(ts, garbage);
    CommandExact(ts, garbage);
    if r.Some? && r.value.DccResult? {
      var lost, command :| Commanded(0, ts, lost, command);
      CommandedLater(0, ts, lost, command);
      if Turn(Head(command)) < 4 {
        SystemResult(command, garbage);
      } else if Head(command) == Stop {
        StopOrders(command, garbage);
      } else {
        DriveOrders(command, garbage);
      }
      hide *;
    }
  }
}
