/** The recursive-descent parser of cs/dsl.c, over the scanner's tokens. */
module Parser {
  import opened Wrappers
  import opened Casts
  import opened Dcc
  import opened Scanner

  datatype SysCmd = HelpCmd | StatusCmd | CacheClearCmd | CacheShowCmd(address: int)

  /** A parser result: its type tag with its payload. */
  datatype Result = Undefined | DccResult(bytes: Bytes) | SysResult(cmd: SysCmd) | RawResult(bytes: Bytes)

  // ----- the grammar functions on token sequences: what each returns and what it leaves unread

  function Head(ts: seq<Token>): Token {
    if ts == [] then Bad else ts[0]
  }

  function Accept(ts: seq<Token>, tok: Token): (bool, seq<Token>) {
    if ts != [] && ts[0] == tok then (true, ts[1..]) else (false, ts)
  }

  /** addr and speed work on the packet being built; a failure may leave tokens consumed. */
  datatype Arg = Arg(ok: bool, rest: seq<Token>, bytes: Bytes)

  function ParseAddr(ts: seq<Token>, b: Bytes): (r: Arg)
    requires |b| == BASELINE_LEN
    ensures |r.bytes| == BASELINE_LEN && |r.rest| <= |ts|
  {
    var (ok, t) := Accept(ts, Addr);
    if ok && Head(t).Number? then Arg(true, t[1..], WithAddress(b, CharOf(t[0].n))) else Arg(false, t, b)
  }

  function ParseSpeed(ts: seq<Token>, b: Bytes): (r: Arg)
    requires |b| == BASELINE_LEN
    ensures |r.bytes| == BASELINE_LEN && |r.rest| <= |ts|
  {
    var (ok, t) := Accept(ts, Token.Speed);
    if ok && Head(t).Number? then Arg(true, t[1..], WithSpeed(b, t[0].n % 256)) else Arg(false, t, b)
  }

  /** addr && speed */
  function ParseAddrSpeed(ts: seq<Token>, b: Bytes): (r: Arg)
    requires |b| == BASELINE_LEN
    ensures |r.bytes| == BASELINE_LEN && |r.rest| <= |ts|
  {
    var a := ParseAddr(ts, b);
    if a.ok then ParseSpeed(a.rest, a.bytes) else a
  }

  /** speed && addr */
  function ParseSpeedAddr(ts: seq<Token>, b: Bytes): (r: Arg)
    requires |b| == BASELINE_LEN
    ensures |r.bytes| == BASELINE_LEN && |r.rest| <= |ts|
  {
    var s := ParseSpeed(ts, b);
    if s.ok then ParseAddr(s.rest, s.bytes) else s
  }

  /** (addr && speed) || (speed && addr), without rewinding in between. */
  function ParseArgs(ts: seq<Token>, b: Bytes): (r: Arg)
    requires |b| == BASELINE_LEN
    ensures |r.bytes| == BASELINE_LEN && |r.rest| <= |ts|
  {
    var first := ParseAddrSpeed(ts, b);
    if first.ok then first else ParseSpeedAddr(first.rest, first.bytes)
  }

  // ----- hexadecimal strings as bytes

  function HexValue(c: char): (v: nat)
    requires HexDigit(c)
    ensures v < 16
  {
    if Digit(c) then DigitValue(c) else Upper(c) as nat - 'A' as nat + 10
  }

  predicate HexDigit(c: char) {
    Digit(c) || 'a' <= c <= 'f' || 'A' <= c <= 'F'
  }

  /** What sscanf with "%2hhx" leaves in a zero byte: it stops at the first character that is not a
      hexadecimal digit, and without any digit it stores nothing. */
  function HexByte(c: char, d: char): bv8 {
    if !HexDigit(c) then 0
    else if !HexDigit(d) then ByteOf(HexValue(c))
    else ByteOf(16 * HexValue(c) + HexValue(d))
  }

  function HexBytes(s: string): (b: Bytes)
    ensures |b| == |s| / 2
  {
    seq(|s| / 2, i requires 0 <= i < |s| / 2 => HexByte(s[2 * i], s[2 * i + 1]))
  }

  datatype Parse = Parse(result: Option<Result>, rest: seq<Token>)

  /** Every DCC packet the parser builds is a baseline packet. */
  predicate Sized(r: Option<Result>) {
    r.Some? && r.value.DccResult? ==> |r.value.bytes| == BASELINE_LEN
  }

  /** raw; `garbage` is whether the result's uninitialised packet pointer happens not to be null. */
  function ParseRaw(ts: seq<Token>, garbage: bool): (p: Parse)
    ensures Sized(p.result) && |p.rest| <= |ts|
  {
    var (ok, t) := Accept(ts, Raw);
    if ok && Head(t).Hex? then Parse(Some(if garbage then RawResult(HexBytes(t[0].s)) else Undefined), t[1..])
    else Parse(None, t)
  }

  function ParseHelp(ts: seq<Token>): (p: Parse)
    ensures Sized(p.result) && |p.rest| <= |ts|
  {
    var (ok, t) := Accept(ts, Help);
    Parse(if ok then Some(SysResult(HelpCmd)) else None, t)
  }

  function ParseShow(ts: seq<Token>): (p: Parse)
    ensures Sized(p.result) && |p.rest| <= |ts|
  {
    var (ok, t) := Accept(ts, Show);
    Parse(if ok && Head(t) == Status then Some(SysResult(StatusCmd)) else None, t)
  }

  function ParseCache(ts: seq<Token>): (p: Parse)
    ensures Sized(p.result) && |p.rest| <= |ts|
  {
    var (ok, t) := Accept(ts, Cache);
    if ok && Head(t) == Clear then Parse(Some(SysResult(CacheClearCmd)), t)
    else if ok && Head(t) == Show then
      Parse(if Head(t[1..]).Number? then Some(SysResult(CacheShowCmd(t[1].n))) else None, t[1..])
    else Parse(None, t)
  }

  /** forward and reverse. */
  function ParseDrive(ts: seq<Token>, keyword: Token, direction: int): (p: Parse)
    ensures Sized(p.result) && |p.rest| <= |ts|
  {
    var (ok, t) := Accept(ts, keyword);
    if ok then
      var a := ParseArgs(t, BLANK);
      Parse(if a.ok then Some(DccResult(WithDirection(WithSpeedDirectionPreamble(WithPreamble(a.bytes)), direction)))
            else None, a.rest)
    else Parse(None, t)
  }

  function ParseStop(ts: seq<Token>): (p: Parse)
    ensures Sized(p.result) && |p.rest| <= |ts|
  {
    var (ok, t) := Accept(ts, Stop);
    if ok then
      ParseStopTarget(t)
    else Parse(None, t)
  }

  function ParseStopTarget(t: seq<Token>): (p: Parse)
    ensures Sized(p.result) && |p.rest| <= |t|
  {
    var a := ParseAddr(t, WithPreamble(BLANK));
    if a.ok then Parse(Some(DccResult(WithSpeed(WithSpeedDirectionPreamble(a.bytes), 0))), a.rest)
    else
      var (all, u) := Accept(a.rest, All);
      Parse(Some(DccResult(if all then EMERGENCY_STOP else BROADCAST_STOP)), u)
  }

  const ALTERNATIVES: nat := 7

  /** The alternatives, in the order the parser tries them. */
  function Alternative(k: nat, ts: seq<Token>, garbage: bool): (p: Parse)
    requires k < ALTERNATIVES
    ensures Sized(p.result) && |p.rest| <= |ts|
  {
    match k
    case 0 => ParseRaw(ts, garbage)
    case 1 => ParseHelp(ts)
    case 2 => ParseShow(ts)
    case 3 => ParseCache(ts)
    case 4 => ParseDrive(ts, Forward, FORWARD)
    case 5 => ParseDrive(ts, Reverse, REVERSE)
    case _ => ParseStop(ts)
  }

  /** The alternatives from number k on, each from where the one before stopped. */
  function ParseFrom(k: nat, ts: seq<Token>, garbage: bool): (p: Parse)
    requires k <= ALTERNATIVES
    ensures Sized(p.result) && |p.rest| <= |ts|
    decreases ALTERNATIVES - k
  {
    if k == ALTERNATIVES then Parse(None, ts)
    else
      var p := Alternative(k, ts, garbage);
      if p.result.Some? then p else ParseFrom(k + 1, p.rest, garbage)
  }

  lemma FromUnfolds(k: nat, ts: seq<Token>, garbage: bool)
    requires k < ALTERNATIVES
    ensures var p := Alternative(k, ts, garbage);
      ParseFrom(k, ts, garbage) == if p.result.Some? then p else ParseFrom(k + 1, p.rest, garbage)
  {
  }

  /** The same with the alternative spelt out. */
  lemma InTurn(k: nat, ts: seq<Token>, garbage: bool)
    requires k < ALTERNATIVES
    ensures var p := match k
        case 0 => ParseRaw(ts, garbage)
        case 1 => ParseHelp(ts)
        case 2 => ParseShow(ts)
        case 3 => ParseCache(ts)
        case 4 => ParseDrive(ts, Forward, FORWARD)
        case 5 => ParseDrive(ts, Reverse, REVERSE)
        case _ => ParseStop(ts);
      ParseFrom(k, ts, garbage) ==
        if p.result.Some? then p else if k == 6 then Parse(None, p.rest) else ParseFrom(k + 1, p.rest, garbage)
  {
    hide ParseRaw, ParseHelp, ParseShow, ParseCache, ParseDrive, ParseStop;
  }

  /** A whole command, before a DCC packet is finished off, and the tokens it leaves. */
  function ParseCommand(ts: seq<Token>, garbage: bool): (p: Parse)
    ensures Sized(p.result) && |p.rest| <= |ts|
  {
    ParseFrom(0, ts, garbage)
  }

  /** What the parser returns; None is a parse error. */
  function ParseTokens(ts: seq<Token>, garbage: bool): Option<Result> {
    match ParseCommand(ts, garbage).result
    case Some(DccResult(b)) => Some(DccResult(Finish(b)))
    case other => other
  }

  function ParseText(text: string, garbage: bool): Option<Result> {
    ParseTokens(Tokens(text, false), garbage)
  }

  /** What a parse leaves unread on standard input. Of the tokens it has not accepted it has scanned
      one, the next. */
  function TextLeft(text: string, garbage: bool): string {
    var ts := Tokens(text, false);
    AfterScans(text, false, |ts| - |ParseCommand(ts, garbage).rest| + 1).0
  }

  /** Whether a packet was under construction when all alternatives had failed: some alternative had
      taken its keyword forward or reverse. */
  predicate Begun(ts: seq<Token>, garbage: bool) {
    var t := ParseCache(ParseShow(ParseHelp(ParseRaw(ts, garbage).rest).rest).rest).rest;
    Head(t) == Forward || Head(ParseDrive(t, Forward, FORWARD).rest) == Reverse
  }

  lemma BegunWith(ts: seq<Token>, t: seq<Token>, u: seq<Token>, garbage: bool)
    requires t == ParseCache(ParseShow(ParseHelp(ParseRaw(ts, garbage).rest).rest).rest).rest
    requires u == ParseDrive(t, Forward, FORWARD).rest
    ensures Begun(ts, garbage) <==> Head(t) == Forward || Head(u) == Reverse
  {
  }

  // ----- the module

  datatype ResultType = UndefType | DccType | SysType | RawType

  class DslParser {
    const scanner: DslScanner
    const stdin: Stdin
    var curr: Token
    /* The result object: whether there is one, its type and the members of its payload union. */
    var live: bool
    var kind: ResultType
    var packet: DccPacket
    var cmd: SysCmd
    /* The packets this module has destroyed. */
    var destroyed: seq<DccPacket>

    ghost predicate Valid()
      reads this
    {
      scanner.stdin == stdin && packet.Valid() && (kind == DccType ==> packet.size == BASELINE_LEN)
    }

    /** The tokens not yet accepted, the current one first. */
    ghost function Ahead(): seq<Token>
      reads this`curr, scanner, scanner.stdin
    {
      if curr == Bad then [] else [curr] + scanner.Stream()
    }

    /** Scanning began with this text, and no more has been scanned than the tokens accepted and the
        current one. */
    ghost predicate ReadFrom(text: string)
      reads this`curr, scanner, scanner.stdin
    {
      var ts, n := Tokens(text, false), |Ahead()|;
      && n <= |ts| && Ahead() == ts[|ts| - n..]
      && (scanner.stdin.text, scanner.seenEnd) == AfterScans(text, false, |ts| - n + 1)
    }

    constructor (scanner: DslScanner)
      ensures Valid() && this.scanner == scanner && fresh(packet) && fresh(packet.bytes)
    {
      this.scanner := scanner;
      stdin := scanner.stdin;
      curr := Bad;
      live := false;
      kind := UndefType;
      packet := new DccPacket.Baseline();
      cmd := HelpCmd;
      destroyed := [];
    }

    method Advance(ghost text: string)
      requires Valid() && ReadFrom(text) && curr != Bad
      modifies this`curr, scanner, stdin
      ensures Valid() && ReadFrom(text)
      ensures Ahead() == old(Ahead())[1..]
    {
      hide Tokens, Next, AfterScans;
      OneMoreScan(text, false, |Tokens(text, false)| - |Ahead()| + 1);
      curr := scanner.NextToken();
    }

    method AcceptToken(tok: Token, ghost text: string) returns (ok: bool)
      requires Valid() && ReadFrom(text) && tok != Bad
      modifies this`curr, scanner, stdin
      ensures Valid() && ReadFrom(text)
      ensures (ok, Ahead()) == Accept(old(Ahead()), tok)
    {
      if curr == tok {
        Advance(text);
        return true;
      }
      return false;
    }

    method GrammarAddr(ghost text: string) returns (ok: bool)
      requires Valid() && ReadFrom(text) && kind == DccType
      modifies this`curr, scanner, stdin, packet.bytes
      ensures Valid() && ReadFrom(text)
      ensures Arg(ok, Ahead(), packet.bytes[..]) == ParseAddr(old(Ahead()), old(packet.bytes[..]))
    {
      hide ReadFrom;
      ok := AcceptToken(Addr, text);
      if !ok {
        return false;
      }
      if curr.Number? {
        packet.SetAddress(CharOf(curr.n));
        Advance(text);
        return true;
      }
      return false;
    }

    method GrammarSpeed(ghost text: string) returns (ok: bool)
      requires Valid() && ReadFrom(text) && kind == DccType
      modifies this`curr, scanner, stdin, packet.bytes
      ensures Valid() && ReadFrom(text)
      ensures Arg(ok, Ahead(), packet.bytes[..]) == ParseSpeed(old(Ahead()), old(packet.bytes[..]))
    {
      hide ReadFrom;
      ok := AcceptToken(Token.Speed, text);
      if !ok {
        return false;
      }
      if curr.Number? {
        packet.SetSpeed(curr.n % 256);
        Advance(text);
        return true;
      }
      return false;
    }

    /** The condition of forward and reverse. */
    method GrammarArgs(ghost text: string) returns (ok: bool)
      requires Valid() && ReadFrom(text) && kind == DccType
      modifies this`curr, scanner, stdin, packet.bytes
      ensures Valid() && ReadFrom(text)
      ensures Arg(ok, Ahead(), packet.bytes[..]) == ParseArgs(old(Ahead()), old(packet.bytes[..]))
    {
      hide ReadFrom;
      ok := GrammarAddr(text);
      if ok {
        ok := GrammarSpeed(text);
      }
      if !ok {
        ok := GrammarSpeed(text);
        if ok {
          ok := GrammarAddr(text);
        }
      }
    }

    /** The result object as a value, if the parse succeeded. */
    ghost function Outcome(ok: bool): Option<Result>
      reads this, packet.bytes
    {
      if !ok then None else
      match kind
      case UndefType => Some(Undefined)
      case DccType => Some(DccResult(packet.bytes[..]))
      case SysType => Some(SysResult(cmd))
      case RawType => Some(RawResult(packet.bytes[..]))
    }

    method GrammarRaw(garbage: bool, ghost text: string) returns (ok: bool)
      requires Valid() && ReadFrom(text) && kind == UndefType
      modifies this`curr, this`kind, this`packet, scanner, stdin
      ensures Valid() && ReadFrom(text) && (kind == UndefType || (ok && kind == RawType))
      ensures if kind == RawType then fresh(packet) && fresh(packet.bytes) else packet == old(packet)
      ensures Parse(Outcome(ok), Ahead()) == ParseRaw(old(Ahead()), garbage)
    {
      hide ReadFrom;
      ok := AcceptToken(Raw, text);
      if ok && curr.Hex? {
        if garbage {
          kind := RawType;
          packet := PacketFromHex(curr.s);
        }
        Advance(text);
        return true;
      }
      return false;
    }

    /** Convert a hexadecimal string, two characters to a byte. */
    method PacketFromHex(s: string) returns (p: DccPacket)
      ensures fresh(p) && fresh(p.bytes) && p.Valid()
      ensures p.bytes[..] == HexBytes(s)
    {
      p := new DccPacket(|s| / 2);
      for i := 0 to |s| / 2
        invariant p.bytes[..i] == HexBytes(s)[..i]
        invariant forall j | i <= j < |s| / 2 :: p.bytes[j] == 0
      {
        if HexDigit(s[2 * i]) {
          p.bytes[i] := HexByte(s[2 * i], s[2 * i + 1]);
        }
      }
    }

    method GrammarHelp(ghost text: string) returns (ok: bool)
      requires Valid() && ReadFrom(text) && kind == UndefType
      modifies this`curr, this`kind, this`cmd, scanner, stdin
      ensures Valid() && ReadFrom(text) && kind == (if ok then SysType else UndefType)
      ensures Parse(Outcome(ok), Ahead()) == ParseHelp(old(Ahead()))
    {
      hide ReadFrom;
      ok := AcceptToken(Help, text);
      if ok {
        kind := SysType;
        cmd := HelpCmd;
      }
    }

    method GrammarShow(ghost text: string) returns (ok: bool)
      requires Valid() && ReadFrom(text) && kind == UndefType
      modifies this`curr, this`kind, this`cmd, scanner, stdin
      ensures Valid() && ReadFrom(text) && kind == (if ok then SysType else UndefType)
      ensures Parse(Outcome(ok), Ahead()) == ParseShow(old(Ahead()))
    {
      hide ReadFrom;
      ok := AcceptToken(Show, text);
      if ok {
        if curr != Status {
          return false;
        }
        kind := SysType;
        cmd := StatusCmd;
      }
    }

    method GrammarCache(ghost text: string) returns (ok: bool)
      requires Valid() && ReadFrom(text) && kind == UndefType
      modifies this`curr, this`kind, this`cmd, scanner, stdin
      ensures Valid() && ReadFrom(text) && kind == (if ok then SysType else UndefType)
      ensures Parse(Outcome(ok), Ahead()) == ParseCache(old(Ahead()))
    {
      hide ReadFrom;
      ok := AcceptToken(Cache, text);
      if ok {
        var c: SysCmd;
        if curr == Clear {
          c := CacheClearCmd;
        } else if curr == Show {
          Advance(text);
          if !curr.Number? {
            return false;
          }
          c := CacheShowCmd(curr.n);
        } else {
          return false;
        }
        kind := SysType;
        cmd := c;
      }
    }

    method GrammarForward(ghost text: string) returns (ok: bool)
      requires Valid() && ReadFrom(text) && kind in {UndefType, DccType}
      modifies this`curr, this`kind, this`packet, scanner, stdin
      ensures Valid() && ReadFrom(text)
      ensures if Head(old(Ahead())) == Token.Forward then kind == DccType && fresh(packet) && fresh(packet.bytes)
              else !ok && kind == old(kind) && packet == old(packet)
      ensures Parse(Outcome(ok), Ahead()) == ParseDrive(old(Ahead()), Forward, FORWARD)
    {
      hide ReadFrom, Ahead, ParseArgs, WithPreamble, WithDirection, WithSpeedDirectionPreamble;
      ok := AcceptToken(Forward, text);
      if ok {
        kind := DccType;
        packet := new DccPacket.Baseline();
        ok := GrammarArgs(text);
        if ok {
          packet.SetPreamble();
          packet.SetSpeedDirectionPreamble();
          packet.SetDirection(FORWARD);
        }
      }
    }

    method GrammarReverse(ghost text: string) returns (ok: bool)
      requires Valid() && ReadFrom(text) && kind in {UndefType, DccType}
      modifies this`curr, this`kind, this`packet, scanner, stdin
      ensures Valid() && ReadFrom(text)
      ensures if Head(old(Ahead())) == Token.Reverse then kind == DccType && fresh(packet) && fresh(packet.bytes)
              else !ok && kind == old(kind) && packet == old(packet)
      ensures Parse(Outcome(ok), Ahead()) == ParseDrive(old(Ahead()), Reverse, REVERSE)
    {
      hide ReadFrom, Ahead, ParseArgs, WithPreamble, WithDirection, WithSpeedDirectionPreamble;
      ok := AcceptToken(Reverse, text);
      if ok {
        kind := DccType;
        packet := new DccPacket.Baseline();
        ok := GrammarArgs(text);
        if ok {
          packet.SetPreamble();
          packet.SetSpeedDirectionPreamble();
          packet.SetDirection(REVERSE);
        }
      }
    }

    method GrammarStop(ghost text: string) returns (ok: bool)
      requires Valid() && ReadFrom(text) && kind in {UndefType, DccType}
      modifies this`curr, this`kind, this`packet, scanner, stdin
      ensures Valid() && ReadFrom(text)
      ensures if Head(old(Ahead())) == Token.Stop then kind == DccType && fresh(packet) && fresh(packet.bytes)
              else !ok && kind == old(kind) && packet == old(packet)
      ensures Parse(Outcome(ok), Ahead()) == ParseStop(old(Ahead())) && ok == (Head(old(Ahead())) == Token.Stop)
    {
      hide ReadFrom, Ahead, ParseStopTarget;
      ok := AcceptToken(Stop, text);
      if ok {
        kind := DccType;
        packet := new DccPacket.Baseline();
        StopTarget(text);
      }
    }

    /** What follows the keyword: a loco, all, or nothing. */
    method StopTarget(ghost text: string)
      requires Valid() && ReadFrom(text) && kind == DccType && packet.bytes[..] == BLANK
      modifies this`curr, scanner, stdin, packet.bytes
      ensures Valid() && ReadFrom(text)
      ensures Parse(Some(DccResult(packet.bytes[..])), Ahead()) == ParseStopTarget(old(Ahead()))
    {
      hide ReadFrom, Ahead, ParseAddr, Accept, WithPreamble, WithSpeed, WithSpeedDirectionPreamble;
      packet.SetPreamble();
      var addressed := GrammarAddr(text);
      if addressed {
        packet.SetSpeedDirectionPreamble();
        packet.SetSpeed(0);
        return;
      }
      var all := AcceptToken(All, text);
      if all {
        packet.SetEmergencyStop();
      } else {
        packet.SetBroadcastStop();
      }
    }

    /** The alternatives of a command, in the order the C code tries them. A packet is in the result
        exactly when this call has created it. */
    method ParseAlternatives(garbage: bool, ghost text: string) returns (ok: bool)
      requires Valid() && ReadFrom(text) && kind == UndefType
      modifies this`curr, this`kind, this`packet, this`cmd, scanner, stdin
      ensures Valid() && ReadFrom(text)
      ensures if kind in {DccType, RawType} then fresh(packet) && fresh(packet.bytes) else packet == old(packet)
      ensures Parse(Outcome(ok), Ahead()) == ParseCommand(old(Ahead()), garbage)
      ensures !ok ==> kind == if Begun(old(Ahead()), garbage) then DccType else UndefType
    {
      hide ParseRaw, ParseHelp, ParseShow, ParseCache, ParseDrive, ParseStop, Tokens;
      hide ParseFrom, Alternative, Begun, Accept, Sized, HexBytes, BASELINE_LEN, Valid, Ahead, ReadFrom;
      ghost var ts := Ahead();
      InTurn(0, Ahead(), garbage);
      ok := GrammarRaw(garbage, text);
      if ok { return; }
      InTurn(1, Ahead(), garbage);
      ok := GrammarHelp(text);
      if ok { return; }
      InTurn(2, Ahead(), garbage);
      ok := GrammarShow(text);
      if ok { return; }
      InTurn(3, Ahead(), garbage);
      ok := GrammarCache(text);
      if ok { return; }
      ghost var t := Ahead();
      InTurn(4, t, garbage);
      ok := GrammarForward(text);
      if ok { return; }
      ghost var u := Ahead();
      InTurn(5, u, garbage);
      ok := GrammarReverse(text);
      if ok { return; }
      InTurn(6, Ahead(), garbage);
      BegunWith(ts, t, u, garbage);
      ok := GrammarStop(text);
    }

    /** Start the token stream. */
    method StartTokens()
      requires Valid()
      modifies this`curr, scanner, stdin
      ensures Valid() && ReadFrom(old(stdin.text)) && Ahead() == Tokens(old(stdin.text), false)
    {
      hide Next;
      scanner.Reset();
      curr := scanner.NextToken();
      FirstScan(old(stdin.text));
    }

    lemma WhatIsLeft(text: string, garbage: bool)
      requires Valid() && ReadFrom(text) && Ahead() == ParseCommand(Tokens(text, false), garbage).rest
      ensures stdin.text == TextLeft(text, garbage)
    {
      hide ParseCommand, AfterScans, Tokens, Ahead;
    }

    /** The error path: flush the input and trash the result. */
    method Abandon(left: string)
      requires Valid()
      modifies this`live, this`destroyed, stdin
      ensures Valid() && !live && stdin.text == left
      ensures destroyed == old(destroyed) + (if kind in {RawType, DccType} then [packet] else [])
    {
      stdin.Flush(left);
      if kind == RawType || kind == DccType {
        destroyed := destroyed + [packet];
      }
      live := false;
    }

    method FinishPacket()
      requires Valid() && kind == DccType
      modifies packet.bytes
      ensures Valid() && packet.bytes[..] == Finish(old(packet.bytes[..]))
    {
      hide WithChecksum, WithPacketEnd;
      packet.SetChecksum();
      packet.SetPacketEnd();
    }

    /** Parse one command from standard input. On success the result object holds the result, with a
        DCC packet finished off, and what has not been scanned is still there. On failure the input is
        flushed, which leaves the text `left`, a packet under construction is destroyed, and there is no
        result object any more. */
    method Start(garbage: bool, left: string) returns (ok: bool)
      requires Valid()
      modifies this`curr, this`live, this`kind, this`packet, this`cmd, this`destroyed, scanner, stdin
      ensures Valid() && live == ok
      ensures Outcome(ok) == ParseText(old(stdin.text), garbage)
      ensures kind in {DccType, RawType} ==> fresh(packet) && fresh(packet.bytes)
      ensures destroyed == old(destroyed) +
        (if !ok && Begun(Tokens(old(stdin.text), false), garbage) then [packet] else [])
      ensures !ok && Begun(Tokens(old(stdin.text), false), garbage) ==> fresh(packet)
      ensures stdin.text == if ok then TextLeft(old(stdin.text), garbage) else left
    {
      hide ParseCommand, Begun, Ahead, Tokens, AfterScans, Finish, ReadFrom, TextLeft;
      ghost var text := stdin.text;
      live := true;
      kind := UndefType;
      StartTokens();
      ok := ParseAlternatives(garbage, text);
      WhatIsLeft(text, garbage);
      if !ok {
        Abandon(left);
        return;
      }
      if kind == DccType {
        FinishPacket();
      }
    }
  }
}
