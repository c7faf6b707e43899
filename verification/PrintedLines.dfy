/** Commands as a user types them: literal keywords, capitals, short forms and spaces. */
module PrintedLines {
  import opened Wrappers
  import opened Casts
  import opened Dcc
  import opened Baseline
  import opened Scanner
  import opened Parser
  import opened Commands
  import opened CommandText

  function Spaces(n: nat): (s: string)
    ensures |s| == n
  {
    seq(n, _ => ' ')
  }

  /** The words with spaces between them. */
  function Joined(words: seq<string>, n: nat): string {
    if words == [] then []
    else if |words| == 1 then words[0]
    else words[0] + (Spaces(n) + Joined(words[1..], n))
  }

  /** The word is the lower-case one up to capitals, which come 32 places before the small letters. */
  predicate SameButCase(word: string, lower: string) {
    |word| == |lower| &&
    forall i | 0 <= i < |word| ::
      'a' <= lower[i] <= 'z' && (word[i] == lower[i] || word[i] as int == lower[i] as int - 32)
  }

  predicate IsForward(word: string) { SameButCase(word, "forward") || SameButCase(word, "fw") }
  predicate IsReverse(word: string) { SameButCase(word, "reverse") || SameButCase(word, "rv") }
  predicate IsAddr(word: string) { SameButCase(word, "addr") || SameButCase(word, "ad") }
  predicate IsSpeed(word: string) { SameButCase(word, "speed") || SameButCase(word, "sp") }

  // ----- scanning

  /** The word, typed alone, is this token. */
  predicate Prints(word: string, tok: Token) {
    Spells(word, tok) || (word != [] && Digits(word) && tok == Number(Wrap16(Value(word))))
  }

  predicate AllPrint(words: seq<string>, toks: seq<Token>) {
    |words| == |toks| && forall i | 0 <= i < |words| :: Prints(words[i], toks[i])
  }

  lemma {:induction false} JoinedTokens(words: seq<string>, toks: seq<Token>, n: nat)
    requires AllPrint(words, toks) && 0 < n
    ensures Tokens(Joined(words, n), false) == toks
  {
    if words == [] {
      NothingLeft(false);
    } else {
      var rest := if |words| == 1 then [] else Spaces(n) + Joined(words[1..], n);
      assert Joined(words, n) == words[0] + rest;
      assert Prints(words[0], toks[0]) && AllPrint(words[1..], toks[1..]);
      WordThenRest(words[0], toks[0], rest, n);
      JoinedTokens(words[1..], toks[1..], n);
      assert |words| == 1 ==> words[1..] == [];
      hide *;
      SpacesSkipped(n, Joined(words[1..], n));
      assert toks == [toks[0]] + toks[1..];
    }
  }

  lemma WordThenRest(word: string, tok: Token, rest: string, n: nat)
    requires Prints(word, tok) && 0 < n && (rest == [] || Spaces(n) <= rest)
    ensures Tokens(word + rest, false) == [tok] + Tokens(rest, false)
  {
    var lexeme := if Spells(word, tok) then Word([], word, tok) else Numeral([], word);
    assert rest != [] ==> rest[0] == Spaces(n)[0] == ' ';
    assert [] + word == word;
    assert lexeme.Valid() && lexeme.EndsBefore(rest) && lexeme.Text() == word && lexeme.Scanned() == tok;
    hide *;
    LexemeThenRest(lexeme, rest);
  }

  lemma SpacesSkipped(n: nat, text: string)
    ensures Tokens(Spaces(n) + text, false) == Tokens(text, false)
  {
    SkipBlanks(Spaces(n), text);
    hide Next;
  }

  lemma DecimalPrints(n: nat)
    requires n < 0x8000
    ensures Prints(Decimal(n), Number(n))
  {
    ValueOfDecimal(n);
  }

  lemma {:induction false} LoweredCase(word: string, lower: string)
    requires SameButCase(word, lower)
    ensures Lowered(word) == lower && forall c | c in word :: Alpha(c)
  {
    if word == [] {
    } else {
      LoweredCase(word[1..], lower[1..]);
      assert lower == [lower[0]] + lower[1..];
    }
  }

  /** A keyword in any mixture of cases. */
  lemma CasePrints(word: string, lower: string, tok: Token)
    requires SameButCase(word, lower) && lower in Words(tok) && 0 < |lower| <= MAX_TOK_LEN && tok != Bad
    ensures Prints(word, tok)
  {
    LoweredCase(word, lower);
    hide Words;
  }

  lemma DriveWords(word: string)
    ensures IsForward(word) ==> Prints(word, Forward)
    ensures IsReverse(word) ==> Prints(word, Reverse)
  {
    if SameButCase(word, "forward") { CasePrints(word, "forward", Forward); }
    if SameButCase(word, "fw") { CasePrints(word, "fw", Forward); }
    if SameButCase(word, "reverse") { CasePrints(word, "reverse", Reverse); }
    if SameButCase(word, "rv") { CasePrints(word, "rv", Reverse); }
    hide Prints, SameButCase;
  }

  lemma ArgWords(word: string)
    ensures IsAddr(word) ==> Prints(word, Addr)
    ensures IsSpeed(word) ==> Prints(word, Token.Speed)
  {
    if SameButCase(word, "addr") { CasePrints(word, "addr", Addr); }
    if SameButCase(word, "ad") { CasePrints(word, "ad", Addr); }
    if SameButCase(word, "speed") { CasePrints(word, "speed", Token.Speed); }
    if SameButCase(word, "sp") { CasePrints(word, "sp", Token.Speed); }
    hide Prints, SameButCase;
  }

  lemma StopWords(word: string)
    ensures SameButCase(word, "stop") ==> Prints(word, Token.Stop)
    ensures SameButCase(word, "all") ==> Prints(word, All)
    ensures SameButCase(word, "help") ==> Prints(word, Help)
  {
    if SameButCase(word, "stop") { CasePrints(word, "stop", Token.Stop); }
    if SameButCase(word, "all") { CasePrints(word, "all", All); }
    if SameButCase(word, "help") { CasePrints(word, "help", Help); }
    hide Prints, SameButCase;
  }

  lemma SystemWords(word: string)
    ensures SameButCase(word, "cache") ==> Prints(word, Token.Cache)
    ensures SameButCase(word, "clear") ==> Prints(word, Token.Clear)
    ensures SameButCase(word, "show") ==> Prints(word, Show)
    ensures SameButCase(word, "status") ==> Prints(word, Status)
    ensures SameButCase(word, "raw") ==> Prints(word, Raw)
  {
    if SameButCase(word, "cache") { CasePrints(word, "cache", Token.Cache); }
    if SameButCase(word, "clear") { CasePrints(word, "clear", Token.Clear); }
    if SameButCase(word, "show") { CasePrints(word, "show", Show); }
    if SameButCase(word, "status") { CasePrints(word, "status", Status); }
    if SameButCase(word, "raw") { CasePrints(word, "raw", Raw); }
    hide Prints, SameButCase;
  }

  /** There are no other keywords. */
  lemma Vocabulary(word: string)
    ensures Keyword(word) != Bad <==> word in {
      "forward", "fw", "reverse", "rv", "stop", "addr", "ad", "speed", "sp", "all",
      "show", "status", "help", "raw", "cache", "clear"}
  {
    if Keyword(word) != Bad {
      WordOfKeyword(word);
    }
  }

  // ----- what printed commands give

  /** A drive command typed with spaces, in any case, long or short, and in either order. */
  lemma PrintedDrive(drive: string, addr: string, speed: string, address: nat, step: nat, n: nat,
                     forward: bool, swapped: bool, garbage: bool)
    requires (if forward then IsForward(drive) else IsReverse(drive)) && IsAddr(addr) && IsSpeed(speed)
    requires address < 128 && step < 29 && 0 < n
    ensures var line := Joined(
        if swapped then [drive, speed, Decimal(step), addr, Decimal(address)]
        else [drive, addr, Decimal(address), speed, Decimal(step)], n);
      var r := ParseText(line, garbage);
      && r.Some? && r.value.DccResult? && |r.value.bytes| == 5
      && AddressOf(r.value.bytes) as nat == address && SpeedStepOf(r.value.bytes) == step
      && DirectionOf(r.value.bytes) == if forward then 1 else 0
  {
    var words := if swapped then [drive, speed, Decimal(step), addr, Decimal(address)]
                 else [drive, addr, Decimal(address), speed, Decimal(step)];
    var args := if swapped then [Token.Speed, Number(step), Addr, Number(address)]
                else [Addr, Number(address), Token.Speed, Number(step)];
    var toks := [if forward then Forward else Reverse] + args;
    assert Reads(args, address, step) && BASELINE_LEN == 5 && FORWARD == 1 && REVERSE == 0;
    var line := Joined(words, n);
    hide *;
    DriveWordsPrint(drive, addr, speed, address, step, forward, swapped);
    JoinedTokens(words, toks, n);
    TextIsTokens(line, garbage);
    DriveReadBack(forward, args, address, step, garbage);
  }

  lemma DriveWordsPrint(drive: string, addr: string, speed: string, address: nat, step: nat, forward: bool, swapped: bool)
    requires (if forward then IsForward(drive) else IsReverse(drive)) && IsAddr(addr) && IsSpeed(speed)
    requires address < 128 && step < 29
    ensures AllPrint(
      if swapped then [drive, speed, Decimal(step), addr, Decimal(address)]
      else [drive, addr, Decimal(address), speed, Decimal(step)],
      [if forward then Forward else Reverse] +
        (if swapped then [Token.Speed, Number(step), Addr, Number(address)]
         else [Addr, Number(address), Token.Speed, Number(step)]))
  {
    DriveWords(drive);
    ArgWords(addr);
    ArgWords(speed);
    DecimalPrints(address);
    DecimalPrints(step);
    hide *;
    var keyword := if forward then Forward else Reverse;
    if swapped {
      FivePrint([drive, speed, Decimal(step), addr, Decimal(address)],
                [keyword] + [Token.Speed, Number(step), Addr, Number(address)]);
    } else {
      FivePrint([drive, addr, Decimal(address), speed, Decimal(step)],
                [keyword] + [Addr, Number(address), Token.Speed, Number(step)]);
    }
  }

  lemma FivePrint(words: seq<string>, toks: seq<Token>)
    requires |words| == |toks| == 5
    requires Prints(words[0], toks[0]) && Prints(words[1], toks[1]) && Prints(words[2], toks[2])
    requires Prints(words[3], toks[3]) && Prints(words[4], toks[4])
    ensures AllPrint(words, toks)
  {
    hide Prints;
  }

  lemma DriveReadBack(forward: bool, args: seq<Token>, address: nat, step: nat, garbage: bool)
    requires Reads(args, address, step) && address < 128 && step < 29
    ensures var r := ParseTokens([if forward then Forward else Reverse] + args, garbage);
      && r.Some? && r.value.DccResult? && |r.value.bytes| == BASELINE_LEN
      && AddressOf(r.value.bytes) as nat == address && SpeedStepOf(r.value.bytes) == step
      && DirectionOf(r.value.bytes) == if forward then FORWARD else REVERSE
  {
    hide *;
    DriveMeaning(forward, args, address, step, garbage);
    var b := ParseTokens([if forward then Forward else Reverse] + args, garbage).value.bytes;
    LegalIsSized(b);
    DecoderAgreesWithGetters(b);
    Small(address, step);
  }

  lemma Small(address: nat, step: nat)
    requires address < 128 && step < 29
    ensures address % 128 == address && step % 256 % 29 == step
  {
  }

  /** A stop command for one loco, for all, and alone. */
  lemma PrintedStop(stop: string, addr: string, all: string, address: nat, n: nat, garbage: bool)
    requires SameButCase(stop, "stop") && IsAddr(addr) && SameButCase(all, "all") && address < 128 && 0 < n
    ensures var r := ParseText(Joined([stop, addr, Decimal(address)], n), garbage);
      && r.Some? && r.value.DccResult? && |r.value.bytes| == 5
      && AddressOf(r.value.bytes) as nat == address && SpeedStepOf(r.value.bytes) == 0
      && !IsBroadcastStop(r.value.bytes)
    ensures ParseText(Joined([stop, all], n), garbage) == Some(DccResult([0xFF, 0xF0, 0x01, 0xC4, 0xE3]))
    ensures ParseText(stop, garbage) == Some(DccResult([0xFF, 0xF0, 0x01, 0xC0, 0xE1]))
  {
    StopWords(stop);
    StopWords(all);
    ArgWords(addr);
    DecimalPrints(address);
    assert AllPrint([stop, addr, Decimal(address)], [Token.Stop, Addr, Number(address)])
      && AllPrint([stop, all], [Token.Stop, All]) && AllPrint([stop], [Token.Stop]) by
    {
      hide Prints, SameButCase, IsAddr, Decimal;
    }
    assert Joined([stop], n) == stop && BASELINE_LEN == 5;
    StopConstants();
    hide *;
    JoinedTokens([stop, addr, Decimal(address)], [Token.Stop, Addr, Number(address)], n);
    JoinedTokens([stop, all], [Token.Stop, All], n);
    JoinedTokens([stop], [Token.Stop], n);
    TextIsTokens(Joined([stop, addr, Decimal(address)], n), garbage);
    TextIsTokens(Joined([stop, all], n), garbage);
    TextIsTokens(stop, garbage);
    StopReadBack(address, garbage);
    StopAllReadBack(garbage);
  }

  lemma StopConstants()
    ensures EMERGENCY_STOP == [0xFF, 0xF0, 0x01, 0xC4, 0xE3] && BROADCAST_STOP == [0xFF, 0xF0, 0x01, 0xC0, 0xE1]
  {
  }

  lemma StopReadBack(address: nat, garbage: bool)
    requires address < 128
    ensures var r := ParseTokens([Token.Stop, Addr, Number(address)], garbage);
      && r.Some? && r.value.DccResult? && |r.value.bytes| == BASELINE_LEN
      && AddressOf(r.value.bytes) as nat == address && SpeedStepOf(r.value.bytes) == 0
      && !IsBroadcastStop(r.value.bytes)
  {
    var rest := [Addr, Number(address)];
    assert [Token.Stop] + rest == [Token.Stop, Addr, Number(address)] && [Addr, Number(address)] <= rest;
    hide *;
    StopMeaning(rest, garbage);
    var b := ParseTokens([Token.Stop] + rest, garbage).value.bytes;
    LegalIsSized(b);
    DecoderAgreesWithGetters(b);
    Small(address, 0);
  }

  lemma StopAllReadBack(garbage: bool)
    ensures ParseTokens([Token.Stop, All], garbage) == Some(DccResult(EMERGENCY_STOP))
    ensures ParseTokens([Token.Stop], garbage) == Some(DccResult(BROADCAST_STOP))
  {
    assert [Token.Stop] + [All] == [Token.Stop, All] && [Token.Stop] + [] == [Token.Stop];
    StopMeaning([All], garbage);
    StopMeaning([], garbage);
    hide ParseTokens, EMERGENCY_STOP, BROADCAST_STOP;
  }

  /** The system commands. */
  lemma PrintedSystem(cache: string, clear: string, show: string, status: string, help: string,
                      address: nat, n: nat, garbage: bool)
    requires SameButCase(cache, "cache") && SameButCase(clear, "clear") && SameButCase(show, "show")
    requires SameButCase(status, "status") && SameButCase(help, "help") && address < 0x8000 && 0 < n
    ensures ParseText(Joined([cache, show, Decimal(address)], n), garbage) == Some(SysResult(CacheShowCmd(address)))
    ensures ParseText(Joined([cache, clear], n), garbage) == Some(SysResult(CacheClearCmd))
    ensures ParseText(Joined([show, status], n), garbage) == Some(SysResult(StatusCmd))
    ensures ParseText(help, garbage) == Some(SysResult(HelpCmd))
  {
    SystemWords(cache);
    SystemWords(clear);
    SystemWords(show);
    SystemWords(status);
    StopWords(help);
    DecimalPrints(address);
    assert AllPrint([cache, show, Decimal(address)], [Token.Cache, Show, Number(address)])
      && AllPrint([cache, clear], [Token.Cache, Token.Clear]) && AllPrint([show, status], [Show, Status])
      && AllPrint([help], [Help]) by
    {
      hide Prints, SameButCase, Decimal;
    }
    assert Joined([help], n) == help;
    hide *;
    JoinedTokens([cache, show, Decimal(address)], [Token.Cache, Show, Number(address)], n);
    JoinedTokens([cache, clear], [Token.Cache, Token.Clear], n);
    JoinedTokens([show, status], [Show, Status], n);
    JoinedTokens([help], [Help], n);
    SystemCommands(address, [], [], garbage);
    assert [Help] + [] == [Help] && [Show, Status] + [] == [Show, Status];
    assert [Token.Cache, Token.Clear] + [] == [Token.Cache, Token.Clear];
    assert [Token.Cache, Show, Number(address)] + [] == [Token.Cache, Show, Number(address)];
    TextIsTokens(Joined([cache, show, Decimal(address)], n), garbage);
    TextIsTokens(Joined([cache, clear], n), garbage);
    TextIsTokens(Joined([show, status], n), garbage);
    TextIsTokens(help, garbage);
  }

  // ----- what is skipped and what is not understood

  predicate Letter(c: char) {
    'a' <= c <= 'z' || 'A' <= c <= 'Z'
  }

  /** Spaces and tabs are skipped; any other character that is no letter or digit is a bad token by
      itself, and so is the end of the input. */
  lemma OtherCharacters(c: char, text: string)
    ensures c == ' ' || c == '\t' ==> Next([c] + text) == Next(text)
    ensures c != ' ' && c != '\t' && !Letter(c) && !('0' <= c <= '9') ==> Next([c] + text) == Scan(Bad, text, false)
    ensures Next([]) == Scan(Bad, [], false)
  {
    assert ([c] + text)[1..] == text;
  }

  /** A run of letters is one token, at most twenty letters of it; twenty are no keyword. */
  lemma LettersAreOneToken(word: string, text: string)
    requires 0 < |word| <= 20 && forall c | c in word :: Letter(c)
    requires |word| == 20 || text == [] || !Letter(text[0])
    ensures Next(word + text) == Scan(Keyword(Lowered(word)), text, text == [])
    ensures |word| == 20 ==> Next(word + text).token == Bad
  {
    var c, more := word[0], word[1..];
    assert c in word && word == [c] + more && Lowered(word) == [Lower(c)] + Lowered(more) && MAX_TOK_LEN == 20;
    assert forall d | d in more :: d in word;
    assert (forall d | d in more :: Alpha(d)) && (text != [] ==> (Letter(text[0]) <==> Alpha(text[0])));
    assert Keyword(Lowered(word)) != Bad ==> |word| <= 7 by {
      if Keyword(Lowered(word)) != Bad { VocabularyIsShort(Lowered(word)); }
    }
    hide *;
    FirstLetter(c, more + text);
    Associative([c], more, text);
    ScanLetters([Lower(c)], more, text);
    WordScanned([Lower(c)], more + text);
  }

  lemma WordScanned(acc: string, text: string)
    ensures ScanWord(acc, text) == Scan(Keyword(WordFrom(acc, text).0), WordFrom(acc, text).1, WordFrom(acc, text).1 == [])
  {
  }

  lemma FirstLetter(c: char, text: string)
    requires Letter(c)
    ensures Next([c] + text) == ScanWord([Lower(c)], text) && Alpha(c)
  {
    assert ([c] + text)[1..] == text;
    hide WordFrom, Lower;
  }

  /** What a raw command makes of letters beyond F: the first one of a byte leaves it zero, the second
      one ends it after one digit. */
  lemma LettersBeyondF(c: char, d: char)
    requires Letter(d) && !('a' <= d <= 'f') && !('A' <= d <= 'F')
    ensures HexByte(d, c) == 0
    ensures '0' <= c <= '9' ==> HexByte(c, d) == ByteOf(c as nat - '0' as nat)
    ensures 'A' <= c <= 'F' ==> HexByte(c, d) == ByteOf(c as nat - 'A' as nat + 10)
  {
    assert !HexDigit(d);
    hide ByteOf;
  }
}
