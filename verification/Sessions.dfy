/** One command after another on standard input: what each leaves unread, and what is read next. */
module Sessions {
  import opened Wrappers
  import opened Dcc
  import opened Baseline
  import opened Scanner
  import opened Parser
  import opened Commands
  import opened CommandText
  import opened PrintedLines

  // ----- what is left after a line has been scanned in part

  lemma {:induction false} NothingMore(seenEnd: bool, n: nat)
    ensures AfterScans([], seenEnd, n).0 == []
  {
    if n == 0 {
    } else if seenEnd {
      NothingMore(true, n - 1);
    } else {
      NothingMore(false, n - 1);
    }
  }

  lemma {:induction false} AfterWords(words: seq<Lexeme>, tail: string, n: nat)
    requires WellSpaced(words, tail) && n <= |words|
    ensures var (text, end) := AfterScans(LineText(words) + tail, false, n);
      text == LineText(words[n..]) + tail && (end ==> text == [])
    decreases n
  {
    if n == 0 {
      assert words[0..] == words;
    } else {
      var rest := LineText(words[1..]) + tail;
      FirstWordScanned(words, tail, n);
      assert words[1..][n - 1..] == words[n..];
      hide *;
      AfterWords(words[1..], tail, n - 1);
      if rest == [] {
        NothingMore(true, n - 1);
        NothingMore(false, n - 1);
      }
    }
  }

  lemma FirstWordScanned(words: seq<Lexeme>, tail: string, n: nat)
    requires WellSpaced(words, tail) && 0 < n <= |words|
    ensures var rest := LineText(words[1..]) + tail;
      && WellSpaced(words[1..], tail)
      && AfterScans(LineText(words) + tail, false, n) == AfterScans(rest, rest == [], n - 1)
  {
    var rest := LineText(words[1..]) + tail;
    ScanLexeme(words[0], rest);
    Associative(words[0].Text(), LineText(words[1..]), tail);
    hide Next, Lexeme.Valid, Lexeme.EndsBefore, Lexeme.Text, Lexeme.Scanned;
  }

  lemma AfterAllWords(words: seq<Lexeme>, tail: string)
    requires WellSpaced(words, tail)
    ensures AfterScans(LineText(words) + tail, false, |words| + 1).0 == Next(tail).rest
  {
    AfterWords(words, tail, |words|);
    OneMoreScan(LineText(words) + tail, false, |words|);
    assert words[|words|..] == [] && LineText([]) + tail == tail;
    assert Next([]).rest == [];
    hide *;
  }

  /** How many tokens a parse accepts. */
  function Accepted(ts: seq<Token>, garbage: bool): nat {
    |ts| - |ParseCommand(ts, garbage).rest|
  }

  lemma TextLeftIs(text: string, garbage: bool, ts: seq<Token>)
    requires Tokens(text, false) == ts
    ensures TextLeft(text, garbage) == AfterScans(text, false, Accepted(ts, garbage) + 1).0
  {
    hide AfterScans, ParseCommand, Tokens;
  }

  /** With k of its words accepted the rest of a line is left, except for the next word; with all of them,
      the text after the next token. */
  lemma LeftAfter(words: seq<Lexeme>, tail: string, garbage: bool, k: nat)
    requires WellSpaced(words, tail) && k <= |words|
    requires k == Accepted(ScannedTokens(words, tail) + Tokens(tail, false), garbage)
    ensures TextLeft(LineText(words) + tail, garbage) ==
      if k < |words| then LineText(words[k + 1..]) + tail else Next(tail).rest
  {
    hide *;
    ScanLine(words, tail);
    TextLeftIs(LineText(words) + tail, garbage, ScannedTokens(words, tail) + Tokens(tail, false));
    if k < |words| {
      AfterWords(words, tail, k + 1);
    } else {
      AfterAllWords(words, tail);
    }
  }

  // ----- how many tokens each command accepts

  lemma AcceptedBy(ts: seq<Token>, garbage: bool)
    requires Complete(ts)
    ensures Turn(Head(ts)) < ALTERNATIVES
    ensures Accepted(ts, garbage) == |ts| - |Alternative(Turn(Head(ts)), ts, garbage).rest|
  {
    FirstAlternative(ts, garbage);
    hide Complete, ParseCommand, Alternative;
  }

  /** The last word of a system command is not accepted, only looked at. */
  lemma SystemAccepts(n: int, more: seq<Token>, garbage: bool)
    ensures Accepted([Token.Cache, Token.Clear] + more, garbage) == 1
    ensures Accepted([Show, Status] + more, garbage) == 1
    ensures Accepted([Token.Cache, Show, Number(n)] + more, garbage) == 2
    ensures Accepted([Help] + more, garbage) == 1
  {
    CacheAcceptsOne(more, garbage);
    CacheAcceptsTwo(n, more, garbage);
    hide Accepted;
    AcceptedBy([Help] + more, garbage);
    AcceptedBy([Show, Status] + more, garbage);
  }

  lemma CacheAcceptsOne(more: seq<Token>, garbage: bool)
    ensures Accepted([Token.Cache, Token.Clear] + more, garbage) == 1
  {
    var ts := [Token.Cache, Token.Clear] + more;
    assert [Token.Cache, Token.Clear] <= ts;
    hide Accepted;
    AcceptedBy(ts, garbage);
  }

  lemma CacheAcceptsTwo(n: int, more: seq<Token>, garbage: bool)
    ensures Accepted([Token.Cache, Show, Number(n)] + more, garbage) == 2
  {
    var ts := [Token.Cache, Show, Number(n)] + more;
    assert [Token.Cache, Show, Number(n)] <= ts && ts[1..][0] == Show && ts[1..][1..] == ts[2..] && ts[2..][0] == Number(n);
    assert Complete(ts) && Turn(Head(ts)) == 3;
    assert ParseCache(ts).rest == ts[1..][1..];
    hide Accepted, Complete, ParseCache;
    AcceptedBy(ts, garbage);
  }

  /** The words of a stop command; `next` are the tokens after them. */
  predicate StopPhrase(ts: seq<Token>, next: seq<Token>) {
    && ts != [] && ts[0] == Token.Stop
    && match |ts|
       case 1 => Head(next) != Addr && Head(next) != All
       case 2 => ts[1] == All || (ts[1] == Addr && !Head(next).Number? && Head(next) != All)
       case _ => |ts| == 3 && ts[1] == Addr && (ts[2].Number? || ts[2] == All)
  }

  lemma StopAccepts(ts: seq<Token>, next: seq<Token>, garbage: bool)
    requires StopPhrase(ts, next)
    ensures Accepted(ts + next, garbage) == |ts|
  {
    var all := ts + next;
    assert Complete(all) && Turn(Head(all)) == 6 && Alternative(6, all, garbage) == ParseStop(all);
    assert all[0] == Token.Stop && all[1..] == ts[1..] + next;
    assert ParseStop(all) == ParseStopTarget(all[1..]);
    hide *;
    AcceptedBy(all, garbage);
    TargetRest(ts[1..], next);
  }

  lemma TargetRest(target: seq<Token>, next: seq<Token>)
    requires StopPhrase([Token.Stop] + target, next)
    ensures ParseStopTarget(target + next).rest == next
  {
    var t, b := target + next, WithPreamble(BLANK);
    var a := ParseAddr(t, b);
    assert ParseStopTarget(t).rest == if a.ok then a.rest else Accept(a.rest, All).1;
    assert |b| == BASELINE_LEN && ([Token.Stop] + target)[1..] == target;
    hide ParseStopTarget, ParseAddr, WithPreamble, WithAddress;
    Seam(target, next);
    AddrExact(t, b);
    if |target| == 2 {
      if target[1].Number? {
        assert [Addr, Number(target[1].n)] <= t;
      }
      assert t[1..][1..] == t[2..];
    }
  }

  /** The number of tokens in the arguments of a drive command. */
  function ArgsLength(ts: seq<Token>): nat {
    if 4 <= |ts| && ts[0] == Addr && ts[1].Number? && ts[2] == Token.Speed && ts[3].Number? then 4
    else if Head(ts) == Token.Speed then 4
    else if 1 < |ts| && ts[1] == Token.Speed then 5
    else 7
  }

  lemma ArgsLeave(ts: seq<Token>, address: int, step: int, b: Bytes)
    requires |b| == BASELINE_LEN && Reads(ts, address, step)
    ensures ArgsLength(ts) <= |ts| && ParseArgs(ts, b).ok && ParseArgs(ts, b).rest == ts[ArgsLength(ts)..]
  {
    ArgsReadAreAccepted(ts, b, address, step);
    ArgsInTurn(ts, b);
    var first := ParseAddrSpeed(ts, b);
    if first.ok {
      AddrSpeedExact(ts, b);
      hide *;
    } else {
      AddrSpeedExact(ts, b);
      var i := AddrSpeedLoses(ts, b);
      ReadsFallThrough(ts, i, address, step);
      SpeedAddrExact(ts[i..], first.bytes);
      LengthOfFallThrough(ts, i);
      assert ts[i..][4..] == ts[i + 4..];
      hide *;
    }
  }

  lemma LengthOfFallThrough(ts: seq<Token>, i: nat)
    requires i + 4 <= |ts| && LostAddr(ts[..i], ts[i..]) && i != 2 && ts[i..][0] == Token.Speed
    requires !(4 <= |ts| && ts[0] == Addr && ts[1].Number? && ts[2] == Token.Speed && ts[3].Number?)
    ensures ArgsLength(ts) == i + 4
  {
  }

  lemma DriveAcceptsAll(forward: bool, args: seq<Token>, next: seq<Token>, address: int, step: int, garbage: bool)
    requires Reads(args, address, step) && |args| == ArgsLength(args + next)
    ensures Accepted([if forward then Forward else Reverse] + args + next, garbage) == 1 + |args|
  {
    var keyword := if forward then Forward else Reverse;
    var all := args + next;
    var ts := [keyword] + args + next;
    var direction := if forward then FORWARD else REVERSE;
    ReadsLonger(args, next, address, step);
    assert ts[1..] == all && Head(ts) == keyword;
    assert Complete(ts) && Alternative(Turn(keyword), ts, garbage) == ParseDrive(ts, keyword, direction);
    assert |BLANK| == BASELINE_LEN && ParseDrive(ts, keyword, direction).rest == ParseArgs(all, BLANK).rest;
    hide *;
    ArgsLeave(all, address, step, BLANK);
    AcceptedBy(ts, garbage);
  }

  lemma ReadsLonger(args: seq<Token>, next: seq<Token>, address: int, step: int)
    requires Reads(args, address, step)
    ensures Reads(args + next, address, step)
  {
  }

  lemma RawAccepts(h: string, next: seq<Token>, garbage: bool)
    ensures Accepted([Raw, Hex(h)] + next, garbage) == 2
  {
    var ts := [Raw, Hex(h)] + next;
    assert ts[1..][1..] == next;
    hide Accepted;
    AcceptedBy(ts, garbage);
  }

  // ----- what each command leaves

  /** Clear, status and cache show leave everything behind their last word. */
  lemma SystemLeavesTail(words: seq<Lexeme>, tail: string, n: int, garbage: bool)
    requires WellSpaced(words, tail)
    requires ScannedTokens(words, tail) in {
      [Token.Cache, Token.Clear], [Show, Status], [Token.Cache, Show, Number(n)]}
    ensures var r := ParseText(LineText(words) + tail, garbage); r.Some? && r.value.SysResult?
    ensures TextLeft(LineText(words) + tail, garbage) == tail
  {
    var toks, more := ScannedTokens(words, tail), Tokens(tail, false);
    SystemAccepts(n, more, garbage);
    SystemCommands(n, [], more, garbage);
    assert LineText(words[|words|..]) == [] && [] + tail == tail && 2 <= |words|;
    assert toks == [Token.Cache, Token.Clear] || toks == [Show, Status] || toks == [Token.Cache, Show, Number(n)];
    hide *;
    ScanLine(words, tail);
    TextIsTokens(LineText(words) + tail, garbage);
    LeftAfter(words, tail, garbage, |words| - 1);
  }

  /** Every other command accepts its last word and so loses the token after it. */
  lemma OthersLoseOneToken(words: seq<Lexeme>, tail: string, address: int, step: int, garbage: bool)
    requires WellSpaced(words, tail) && words != []
    requires var toks, next := ScannedTokens(words, tail), Tokens(tail, false);
      || toks == [Help]
      || StopPhrase(toks, next)
      || (toks[0] in {Forward, Reverse} && Reads(toks[1..], address, step) && |toks[1..]| == ArgsLength(toks[1..] + next))
    ensures ParseText(LineText(words) + tail, garbage).Some?
    ensures TextLeft(LineText(words) + tail, garbage) == Next(tail).rest
  {
    var toks, next := ScannedTokens(words, tail), Tokens(tail, false);
    AllAccepted(toks, next, address, step, garbage);
    hide *;
    ScanLine(words, tail);
    TextIsTokens(LineText(words) + tail, garbage);
    LeftAfter(words, tail, garbage, |words|);
  }

  lemma AllAccepted(toks: seq<Token>, next: seq<Token>, address: int, step: int, garbage: bool)
    requires toks != []
    requires toks == [Help] || StopPhrase(toks, next)
      || (toks[0] in {Forward, Reverse} && Reads(toks[1..], address, step) && |toks[1..]| == ArgsLength(toks[1..] + next))
    ensures Accepted(toks + next, garbage) == |toks| && ParseTokens(toks + next, garbage).Some?
  {
    assert toks == [toks[0]] + toks[1..] && toks + next == [toks[0]] + (toks[1..] + next);
    if toks == [Help] {
      hide *;
      SystemAccepts(0, next, garbage);
      SystemCommands(0, [], next, garbage);
    } else if StopPhrase(toks, next) {
      StopAccepts(toks, next, garbage);
      StopMeaning(toks[1..] + next, garbage);
      hide ParseTokens, ParseCommand, Interpret, DataOf, LegalBaseline;
    } else {
      ReadsLonger(toks[1..], next, address, step);
      hide *;
      DriveAcceptsAll(toks[0] == Forward, toks[1..], next, address, step, garbage);
      DriveMeaning(toks[0] == Forward, toks[1..] + next, address, step, garbage);
    }
  }

  /** So does raw, whatever it makes of its hexadecimal string. */
  lemma RawLosesOneToken(raw: Lexeme, blanks: string, h: string, tail: string, garbage: bool)
    requires raw.Valid() && raw.Word? && raw.token == Raw && Blanks(blanks)
    requires (forall c | c in h :: Alnum(c)) && |h| < MAX_TOK_LEN && |h| % 2 == 0 && (tail == [] || !Alnum(tail[0]))
    ensures TextLeft(raw.Text() + (blanks + (['0', 'x'] + h + tail)), garbage) == Next(tail).rest
  {
    var hex := ['0', 'x'] + h + tail;
    var text := raw.Text() + (blanks + hex);
    assert raw.Scanned() == Raw && Next([]).rest == [];
    hide *;
    RawText(raw, blanks, h, tail);
    HexMeaning(h, tail);
    var after := RawTokens(raw, blanks, hex, Uppered(h));
    RawAccepts(Uppered(h), after, garbage);
    TextLeftIs(text, garbage, [Raw, Hex(Uppered(h))] + after);
    RawScans(raw, blanks, hex, tail, Uppered(h));
  }

  lemma RawScans(raw: Lexeme, blanks: string, hex: string, tail: string, h: string)
    requires raw.Valid() && raw.EndsBefore(blanks + hex) && Blanks(blanks) && blanks + hex != []
    requires Next(hex) == Scan(Hex(h), tail, tail == [])
    ensures AfterScans(raw.Text() + (blanks + hex), false, 3).0 == Next(tail).rest
  {
    ScanLexeme(raw, blanks + hex);
    SkipBlanks(blanks, hex);
    var text := raw.Text() + (blanks + hex);
    FirstScan(text);
    OneMoreScan(text, false, 1);
    OneMoreScan(text, false, 2);
    assert Next([]).rest == [];
    hide *;
  }

  // ----- what comes next

  /** The token lost can be the newline that ends the line, or else the first word of the next command. */
  lemma NextCommand(tail: string, garbage: bool)
    ensures tail != [] && tail[0] == '\n' ==> Next(tail).rest == tail[1..]
    ensures Tokens(tail, false) != [] ==>
      ParseText(Next(tail).rest, garbage) == ParseTokens(Tokens(tail, false)[1..], garbage)
  {
    if tail != [] && tail[0] == '\n' {
      OtherCharacters('\n', tail[1..]);
      assert tail == ['\n'] + tail[1..];
    }
    if Tokens(tail, false) != [] {
      FirstToken(tail);
      NothingLeft(true);
      NothingLeft(false);
      EndSeen(tail);
      TextIsTokens(Next(tail).rest, garbage);
    }
    hide *;
  }

  lemma EndSeen(text: string)
    requires Next(text).token != Bad
    ensures Next(text).seenEnd ==> Next(text).rest == []
  {
    if text != [] && Blank(text[0]) {
      EndSeen(text[1..]);
    } else {
      EndOfHex(text);
      hide NumberFrom, WordFrom;
    }
  }

  lemma EndOfHex(text: string)
    ensures 2 <= |text| ==> ScanHex(text[2..]).seenEnd ==> ScanHex(text[2..]).rest == []
  {
    if 2 <= |text| {
      HexEnds([], None, text[2..]);
    }
  }

  lemma {:induction false} HexEnds(word: string, last: Option<char>, text: string)
    requires |word| < MAX_TOK_LEN || last.Some?
    ensures var (w, l, rest) := HexFrom(word, last, text); l.None? ==> rest == []
    decreases |text|
  {
    if |word| < MAX_TOK_LEN && text != [] && (Alpha(text[0]) || Digit(text[0])) {
      HexEnds(word + [if Digit(text[0]) then text[0] else Upper(text[0])], Some(text[0]), text[1..]);
    }
  }

  // ----- the main loop's reads

  /** What one read of the main loop does with waiting input: it swallows a newline or a space, or else
      parses a command. */
  datatype Visit = Swallowed | Parsed(result: Option<Result>)

  /** What it does, and the text it leaves; after a parse error the flush leaves `left`. */
  function Read(text: string, garbage: bool, left: string): (Visit, string)
    requires text != []
  {
    if text[0] == '\n' || text[0] == ' ' then (Swallowed, text[1..])
    else
      var r := ParseText(text, garbage);
      (Parsed(r), if r.Some? then TextLeft(text, garbage) else left)
  }

  method ReadCommand(parser: DslParser, garbage: bool, left: string) returns (parsed: bool, ok: bool)
    requires parser.Valid() && parser.stdin.text != []
    modifies parser, parser.scanner, parser.stdin
    ensures parser.Valid()
    ensures var (visit, text) := Read(old(parser.stdin.text), garbage, left);
      && parser.stdin.text == text && parsed == visit.Parsed?
      && (parsed ==> parser.Outcome(ok) == visit.result)
  {
    hide ParseText, TextLeft;
    ok := false;
    parsed := false;
    var c := parser.stdin.GetChar();
    if c != Some('\n') && c != Some(' ') {
      parser.stdin.UngetChar(c);
      parsed := true;
      ok := parser.Start(garbage, left);
    }
  }

  /** Lines do not interfere: a command that fills its line, all its words accepted but perhaps the last,
      is the same whatever lines follow, and they are left for the next reads. */
  lemma LineByLine(words: seq<Lexeme>, more: string, k: nat, garbage: bool, left: string)
    requires WellSpaced(words, ['\n'] + more) && words != [] && words[0].blanks == []
    requires k == Accepted(ScannedTokens(words, ['\n'] + more), garbage) && |words| - 1 <= k <= |words|
    requires ParseTokens(ScannedTokens(words, ['\n'] + more), garbage).Some?
    ensures var text := LineText(words) + (['\n'] + more);
      && text != []
      && var (visit, rest) := Read(text, garbage, left);
         && visit == Parsed(ParseTokens(ScannedTokens(words, ['\n'] + more), garbage))
         && (if k == |words| then rest == more
             else rest == ['\n'] + more && Read(rest, garbage, left) == (Swallowed, more))
  {
    var tail := ['\n'] + more;
    var text := LineText(words) + tail;
    assert tail[0] == '\n' && tail[1..] == more;
    NotBlankFirst(words, tail);
    NewlineEnds(more);
    assert ScannedTokens(words, tail) + [] == ScannedTokens(words, tail);
    assert LineText(words[|words|..]) == [] && [] + tail == tail;
    ScanLine(words, tail);
    TextIsTokens(text, garbage);
    LeftAfter(words, tail, garbage, k);
    hide ParseTokens, ParseText, TextLeft, ScannedTokens, Tokens, WellSpaced, LineText, Accepted, Next;
  }

  lemma NewlineEnds(more: string)
    ensures Tokens(['\n'] + more, false) == [] && Next(['\n'] + more).rest == more
  {
    OtherCharacters('\n', more);
    hide Next;
  }

  lemma NotBlankFirst(words: seq<Lexeme>, tail: string)
    requires WellSpaced(words, tail) && words != [] && words[0].blanks == []
    ensures var text := LineText(words) + tail; text != [] && text[0] != '\n' && text[0] != ' '
  {
    var first := words[0];
    var w := if first.Word? then first.word else first.digits;
    assert first.Valid() && w[0] in w;
    assert first.Text() == w;
    assert LineText(words)[0] == w[0];
    hide LineText, WellSpaced;
  }

  lemma SpacesSwallowed(n: nat, text: string, garbage: bool, left: string)
    requires 0 < n
    ensures Spaces(n) + text != [] && Read(Spaces(n) + text, garbage, left) == (Swallowed, Spaces(n - 1) + text)
  {
    assert (Spaces(n) + text)[0] == ' ' && (Spaces(n) + text)[1..] == Spaces(n - 1) + text;
    hide ParseText, TextLeft;
  }

  /** Several commands can share a line: the clear command leaves the stop behind it, and the next reads
      swallow the spaces and find it. */
  lemma ClearThenStop(cache: string, clear: string, stop: string, n: nat, garbage: bool, left: string)
    requires SameButCase(cache, "cache") && SameButCase(clear, "clear") && SameButCase(stop, "stop") && 0 < n
    ensures Read(cache + (Spaces(n) + (clear + (Spaces(n) + stop))), garbage, left)
      == (Parsed(Some(SysResult(CacheClearCmd))), Spaces(n) + stop)
    ensures forall k: nat | 0 < k <= n ::
      Spaces(k) + stop != [] && Read(Spaces(k) + stop, garbage, left) == (Swallowed, Spaces(k - 1) + stop)
    ensures Spaces(0) + stop == stop
    ensures Read(stop, garbage, left).0 == Parsed(Some(DccResult([0xFF, 0xF0, 0x01, 0xC0, 0xE1])))
  {
    ClearLeavesStop(cache, clear, stop, n, garbage, left);
    assert Spaces(0) + stop == stop && stop[0] != ' ' && stop[0] != '\n';
    StopAlone(stop, garbage);
    hide ParseText, TextLeft, Spaces, SameButCase;
    forall k: nat | 0 < k <= n
      ensures Spaces(k) + stop != [] && Read(Spaces(k) + stop, garbage, left) == (Swallowed, Spaces(k - 1) + stop)
    {
      SpacesSwallowed(k, stop, garbage, left);
    }
  }

  lemma ClearLeavesStop(cache: string, clear: string, stop: string, n: nat, garbage: bool, left: string)
    requires SameButCase(cache, "cache") && SameButCase(clear, "clear") && 0 < n
    ensures Read(cache + (Spaces(n) + (clear + (Spaces(n) + stop))), garbage, left)
      == (Parsed(Some(SysResult(CacheClearCmd))), Spaces(n) + stop)
  {
    var first, second := Word([], cache, Token.Cache), Word(Spaces(n), clear, Token.Clear);
    var tail := Spaces(n) + stop;
    var text := cache + (Spaces(n) + (clear + tail));
    assert text[0] == cache[0] && cache[0] != ' ' && cache[0] != '\n';
    ClearLine(cache, clear, n, stop);
    hide ParseText, TextLeft, Spaces, LineText, WellSpaced, SameButCase;
    ClearFirst(first, second, tail, garbage);
  }

  lemma ClearFirst(first: Lexeme, second: Lexeme, tail: string, garbage: bool)
    requires WellSpaced([first, second], tail) && first.Word? && second.Word?
    requires first.token == Token.Cache && second.token == Token.Clear
    ensures var text := LineText([first, second]) + tail;
      ParseText(text, garbage) == Some(SysResult(CacheClearCmd)) && TextLeft(text, garbage) == tail
  {
    TwoTokens([first, second], tail);
    assert [first, second][0] == first && [first, second][1] == second;
    hide *;
    SystemLeavesTail([first, second], tail, 0, garbage);
    ClearResult([first, second], tail, garbage);
  }

  lemma StopAlone(stop: string, garbage: bool)
    requires SameButCase(stop, "stop")
    ensures ParseText(stop, garbage) == Some(DccResult([0xFF, 0xF0, 0x01, 0xC0, 0xE1]))
  {
    StopWords(stop);
    assert Joined([stop], 1) == stop;
    hide *;
    assert Prints(stop, Token.Stop);
    OnePrints(stop, Token.Stop);
    JoinedTokens([stop], [Token.Stop], 1);
    TextIsTokens(stop, garbage);
    StopAllReadBack(garbage);
    StopConstants();
  }

  lemma OnePrints(word: string, tok: Token)
    requires Prints(word, tok)
    ensures AllPrint([word], [tok])
  {
    hide Prints;
  }

  lemma ClearLine(cache: string, clear: string, n: nat, stop: string)
    requires SameButCase(cache, "cache") && SameButCase(clear, "clear") && 0 < n
    ensures var words, tail := [Word([], cache, Token.Cache), Word(Spaces(n), clear, Token.Clear)], Spaces(n) + stop;
      WellSpaced(words, tail) && LineText(words) + tail == cache + (Spaces(n) + (clear + tail))
  {
    var first, second, tail := Word([], cache, Token.Cache), Word(Spaces(n), clear, Token.Clear), Spaces(n) + stop;
    SystemWords(cache);
    SystemWords(clear);
    assert !Alpha(' ');
    hide *;
    SpacedWord([], cache, Token.Cache);
    SpacedWord(Spaces(n), clear, Token.Clear);
    SpacesAreBlank(n, clear);
    SpacesAreBlank(n, stop);
    NoBlanks();
    TwoWords(first, second, tail);
    Associative(cache, Spaces(n) + clear, tail);
    Associative(Spaces(n), clear, tail);
  }

  lemma NoBlanks()
    ensures Blanks([]) && !Token.Cache.Number? && !Token.Clear.Number?
  {
  }

  lemma SpacedWord(blanks: string, word: string, tok: Token)
    requires !tok.Number?
    ensures Prints(word, tok) && Blanks(blanks) ==> Word(blanks, word, tok).Valid()
    ensures Word(blanks, word, tok).Text() == blanks + word
    ensures blanks == [] ==> blanks + word == word
  {
    hide Spells, Blanks;
  }

  lemma SpacesAreBlank(n: nat, word: string)
    requires 0 < n
    ensures Blanks(Spaces(n)) && Spaces(n) + word != [] && (Spaces(n) + word)[0] == ' '
  {
    assert (Spaces(n) + word)[0] == Spaces(n)[0];
  }

  lemma TwoWords(first: Lexeme, second: Lexeme, tail: string)
    requires first.Valid() && second.Valid() && first.Word? && second.Word?
    requires second.Text() != [] && !Alpha(second.Text()[0]) && tail != [] && !Alpha(tail[0])
    ensures WellSpaced([first, second], tail)
    ensures LineText([first, second]) == first.Text() + second.Text()
  {
    assert [first, second][1..] == [second] && [second][1..] == [];
    assert LineText([second]) == second.Text() + [] == second.Text();
    assert [] + tail == tail;
    assert (second.Text() + tail)[0] == second.Text()[0];
    assert WellSpaced([], tail) && WellSpaced([second], tail);
    hide Lexeme.Valid, Lexeme.Text, Alpha;
  }

  lemma TwoTokens(words: seq<Lexeme>, tail: string)
    requires WellSpaced(words, tail) && |words| == 2 && words[0].Word? && words[1].Word?
    ensures ScannedTokens(words, tail) == [words[0].token, words[1].token]
  {
    assert words[1..][0] == words[1] && words[1..][1..] == [];
    hide Lexeme.Valid, Lexeme.EndsBefore;
  }

  lemma ClearResult(words: seq<Lexeme>, tail: string, garbage: bool)
    requires WellSpaced(words, tail) && ScannedTokens(words, tail) == [Token.Cache, Token.Clear]
    ensures ParseText(LineText(words) + tail, garbage) == Some(SysResult(CacheClearCmd))
  {
    hide *;
    ScanLine(words, tail);
    TextIsTokens(LineText(words) + tail, garbage);
    SystemCommands(0, [], Tokens(tail, false), garbage);
  }
}
