/** From characters to frames: printing a command and scanning and parsing it. */
module CommandText {
  import opened Wrappers
  import opened Casts
  import opened Dcc
  import opened Baseline
  import opened Scanner
  import opened Parser
  import opened Commands

  // ----- the printer

  predicate Blanks(s: string) {
    forall c | c in s :: Blank(c)
  }

  function Lowered(w: string): (l: string)
    ensures |l| == |w|
  {
    if w == [] then [] else [Lower(w[0])] + Lowered(w[1..])
  }

  /** The vocabulary: every keyword with its long and, where there is one, short form. */
  function Words(tok: Token): set<string> {
    match tok
    case Forward => {"forward", "fw"}
    case Reverse => {"reverse", "rv"}
    case Stop => {"stop"}
    case Addr => {"addr", "ad"}
    case Speed => {"speed", "sp"}
    case All => {"all"}
    case Show => {"show"}
    case Status => {"status"}
    case Help => {"help"}
    case Raw => {"raw"}
    case Cache => {"cache"}
    case Clear => {"clear"}
    case _ => {}
  }

  /** The scanner recognises exactly the vocabulary. */
  lemma KeywordExact(w: string, tok: Token)
    requires tok != Bad
    ensures Keyword(w) == tok <==> w in Words(tok)
  {
    if w in Words(tok) {
      KeywordOfWord(w, tok);
    } else if Keyword(w) == tok {
      WordOfKeyword(w);
    }
  }

  lemma KeywordOfWord(w: string, tok: Token)
    requires w in Words(tok)
    ensures Keyword(w) == tok
  {
    SameLengthWords();
  }

  lemma WordOfKeyword(w: string)
    requires Keyword(w) != Bad
    ensures w in Words(Keyword(w))
  {
  }

  lemma SameLengthWords()
    ensures "raw"[0] != "all"[0] && "stop"[1] != "addr"[1] && "stop"[1] != "show"[1] && "stop"[1] != "help"[1]
    ensures "addr"[0] != "show"[0] && "addr"[0] != "help"[0] && "show"[0] != "help"[0]
    ensures "fw"[0] != "rv"[0] && "fw"[0] != "ad"[0] && "fw"[0] != "sp"[0] && "rv"[0] != "ad"[0]
    ensures "rv"[0] != "sp"[0] && "ad"[0] != "sp"[0]
    ensures "forward"[0] != "reverse"[0]
    ensures "speed"[0] != "cache"[0] && "speed"[0] != "clear"[0] && "cache"[1] != "clear"[1]
  {
  }

  /** A keyword in its long or short form and any mixture of cases. */
  predicate Spells(w: string, tok: Token) {
    && w != [] && (forall c | c in w :: Alpha(c)) && |w| <= MAX_TOK_LEN
    && tok != Bad && Lowered(w) in Words(tok)
  }

  function DigitOf(v: nat): char
    requires v < 10
  {
    '0' + v as char
  }

  function Decimal(n: nat): (s: string)
    ensures s != []
  {
    if n < 10 then [DigitOf(n)] else Decimal(n / 10) + [DigitOf(n % 10)]
  }

  predicate Digits(s: string) {
    forall c | c in s :: Digit(c)
  }

  /** The number a string of digits stands for. */
  function Value(digits: string): nat
    requires Digits(digits)
  {
    if digits == [] then 0
    else
      assert digits[|digits| - 1] in digits;
      10 * Value(digits[..|digits| - 1]) + DigitValue(digits[|digits| - 1])
  }

  /** A keyword or a number as typed, after any number of blanks. */
  datatype Lexeme = Word(blanks: string, word: string, token: Token) | Numeral(blanks: string, digits: string) {
    predicate Valid() {
      Blanks(blanks) && if Word? then Spells(word, token) else digits != [] && Digits(digits)
    }

    function Text(): string {
      blanks + if Word? then word else digits
    }

    /** What may follow without being taken for a part of it. */
    predicate EndsBefore(rest: string) {
      rest != [] ==>
        if Word? then !Alpha(rest[0]) else !Digit(rest[0]) && (digits == "0" ==> rest[0] != 'x')
    }

    /** The token it stands for, and the one the scanner makes of it. */
    function Typed(): Token
      requires Valid()
    {
      if Word? then token else Number(Value(digits))
    }

    function Scanned(): Token
      requires Valid()
    {
      if Word? then token else Number(Wrap16(Value(digits)))
    }
  }

  function LineText(line: seq<Lexeme>): string {
    if line == [] then [] else line[0].Text() + LineText(line[1..])
  }

  /** No lexeme runs into the one after it, or the last one into the tail. */
  predicate WellSpaced(line: seq<Lexeme>, tail: string) {
    line != [] ==>
      line[0].Valid() && line[0].EndsBefore(LineText(line[1..]) + tail) && WellSpaced(line[1..], tail)
  }

  function TypedTokens(line: seq<Lexeme>, tail: string): (ts: seq<Token>)
    requires WellSpaced(line, tail)
    ensures |ts| == |line|
  {
    if line == [] then [] else [line[0].Typed()] + TypedTokens(line[1..], tail)
  }

  function ScannedTokens(line: seq<Lexeme>, tail: string): (ts: seq<Token>)
    requires WellSpaced(line, tail)
    ensures |ts| == |line|
  {
    if line == [] then [] else [line[0].Scanned()] + ScannedTokens(line[1..], tail)
  }

  // ----- scanning what was printed

  lemma {:induction false} SkipBlanks(blanks: string, text: string)
    requires Blanks(blanks)
    ensures Next(blanks + text) == Next(text)
    decreases |blanks|
  {
    if blanks == [] {
      assert blanks + text == text;
    } else {
      assert blanks[0] in blanks;
      assert (blanks + text)[1..] == blanks[1..] + text;
      SkipBlanks(blanks[1..], text);
    }
  }

  lemma Reassociate(a: string, c: char, b: string)
    ensures a + [c] + b == a + ([c] + b)
  {
  }

  lemma {:induction false} ScanLetters(acc: string, w: string, text: string)
    requires (forall c | c in w :: Alpha(c)) && |acc| + |w| <= MAX_TOK_LEN
    requires |acc| + |w| == MAX_TOK_LEN || text == [] || !Alpha(text[0])
    ensures WordFrom(acc, w + text) == (acc + Lowered(w), text)
    decreases |w|
  {
    if w == [] {
      assert w + text == text && acc + [] == acc;
    } else {
      assert w[0] in w;
      assert (w + text)[1..] == w[1..] + text;
      assert Alpha((w + text)[0]) && (w + text)[0] == w[0] && w + text != [];
      hide Lower, Alpha;
      ScanLetters(acc + [Lower(w[0])], w[1..], text);
      Reassociate(acc, Lower(w[0]), Lowered(w[1..]));
    }
  }

  lemma ScanKeyword(w: string, tok: Token, text: string)
    requires Spells(w, tok) && (text == [] || !Alpha(text[0]))
    ensures Next(w + text) == Scan(tok, text, text == [])
  {
    assert w[0] in w;
    assert (w + text)[1..] == w[1..] + text;
    ScanLetters([Lower(w[0])], w[1..], text);
    KeywordExact(Lowered(w), tok);
    hide Keyword, Words;
  }

  /** The number loop over a string of digits. */
  function Fold(num: int, digits: string): int
    requires forall c | c in digits :: Digit(c)
    decreases |digits|
  {
    if digits == [] then num
    else
      assert digits[0] in digits;
      Fold(Wrap16(num * 10 + DigitValue(digits[0])), digits[1..])
  }

  lemma {:induction false} ScanDigits(num: int, digits: string, text: string)
    requires (forall c | c in digits :: Digit(c)) && (text == [] || !Digit(text[0]))
    ensures NumberFrom(num, digits + text) == (Fold(num, digits), text)
    decreases |digits|
  {
    if digits == [] {
      assert digits + text == text;
    } else {
      assert digits[0] in digits;
      assert (digits + text)[1..] == digits[1..] + text;
      ScanDigits(Wrap16(num * 10 + DigitValue(digits[0])), digits[1..], text);
    }
  }

  lemma {:induction false} FoldConcat(num: int, a: string, b: string)
    requires (forall c | c in a :: Digit(c)) && (forall c | c in b :: Digit(c))
    ensures Fold(num, a + b) == Fold(Fold(num, a), b)
    decreases |a|
  {
    if a == [] {
      assert a + b == b;
    } else {
      assert a[0] in a;
      assert (a + b)[1..] == a[1..] + b;
      FoldConcat(Wrap16(num * 10 + DigitValue(a[0])), a[1..], b);
    }
  }

  lemma WrapStep(x: int, d: int)
    ensures Wrap16(Wrap16(x) * 10 + d) == Wrap16(x * 10 + d)
  {
    var q := (x + 0x8000) / 0x1_0000;
    assert x == Wrap16(x) + 0x1_0000 * q;
    WrapShift(Wrap16(x) * 10 + d, 10 * q);
  }

  lemma WrapShift(x: int, k: int)
    ensures Wrap16(x + 0x1_0000 * k) == Wrap16(x)
  {
  }

  /** The number loop computes the number, up to the wrap-around of a 16-bit int. */
  lemma {:induction false} FoldIsValue(digits: string)
    requires Digits(digits)
    ensures Fold(0, digits) == Wrap16(Value(digits))
  {
    if digits == [] {
    } else {
      var front, last := digits[..|digits| - 1], digits[|digits| - 1];
      assert digits == front + [last] && last in digits;
      FoldIsValue(front);
      FoldConcat(0, front, [last]);
      assert [last][1..] == [];
      WrapStep(Value(front), DigitValue(last));
    }
  }

  lemma {:induction false} ValueOfDecimal(n: nat)
    ensures Digits(Decimal(n)) && Value(Decimal(n)) == n
  {
    if n < 10 {
      assert Decimal(n)[..0] == [];
    } else {
      ValueOfDecimal(n / 10);
      assert Decimal(n)[..|Decimal(n)| - 1] == Decimal(n / 10);
    }
  }

  /** Scanning inverts printing, up to the same wrap-around. */
  lemma FoldDecimal(n: nat)
    ensures Digits(Decimal(n)) && Fold(0, Decimal(n)) == Wrap16(n)
  {
    ValueOfDecimal(n);
    FoldIsValue(Decimal(n));
  }

  lemma SomeDigit(digits: string)
    requires Digits(digits) && digits != []
    ensures Digit(digits[0])
  {
    assert digits[0] in digits;
  }

  lemma FirstDigit(c: char, more: string)
    requires Digits([c] + more) && Digit(c) && Digits(more)
    ensures Fold(0, [c] + more) == Fold(DigitValue(c), more)
  {
    assert ([c] + more)[1..] == more;
  }

  lemma NextIsNumber(text: string)
    requires text != [] && Digit(text[0]) && !(1 < |text| && text[0] == '0' && text[1] == 'x')
    ensures Next(text) == ScanNumber(DigitValue(text[0]), text[1..])
  {
  }

  /** A number is scanned as itself, leading zeros or not, and nothing of what follows is taken. */
  lemma ScanNumeral(digits: string, text: string)
    requires Digits(digits) && digits != []
    requires text == [] || (!Digit(text[0]) && (digits == "0" ==> text[0] != 'x'))
    ensures Next(digits + text) == Scan(Number(Wrap16(Value(digits))), text, text == [])
  {
    var c, more := digits[0], digits[1..];
    assert c in digits && Digits(more) && digits == [c] + more;
    hide *;
    FoldIsValue(digits);
    FirstDigit(c, more);
    NumeralStarts(c, more, text);
    FirstApart(c, more, text);
    NextIsNumber(digits + text);
    NumberIs(DigitValue(c), more, text);
  }

  lemma FirstApart(c: char, more: string, text: string)
    ensures var t := [c] + more + text; t != [] && t[0] == c && t[1..] == more + text
  {
  }

  lemma NumeralStarts(c: char, more: string, text: string)
    requires Digit(c) && Digits(more)
    requires text == [] || (!Digit(text[0]) && ([c] + more == "0" ==> text[0] != 'x'))
    ensures var t := [c] + more + text; !(1 < |t| && t[0] == '0' && t[1] == 'x')
  {
    if more != [] {
      SomeDigit(more);
    } else {
      assert c == '0' ==> [c] + more == "0";
    }
  }

  lemma NumberIs(num: int, more: string, text: string)
    requires Digits(more) && (text == [] || !Digit(text[0]))
    ensures ScanNumber(num, more + text) == Scan(Number(Fold(num, more)), text, text == [])
  {
    hide NumberFrom, Fold;
    ScanDigits(num, more, text);
  }

  lemma NothingLeft(seenEnd: bool)
    ensures Tokens([], seenEnd) == []
  {
  }

  lemma ScanLexeme(lexeme: Lexeme, rest: string)
    requires lexeme.Valid() && lexeme.EndsBefore(rest)
    ensures Next(lexeme.Text() + rest) == Scan(lexeme.Scanned(), rest, rest == []) && lexeme.Scanned() != Bad
  {
    var unblanked := (if lexeme.Word? then lexeme.word else lexeme.digits) + rest;
    assert lexeme.Text() + rest == lexeme.blanks + unblanked;
    SkipBlanks(lexeme.blanks, unblanked);
    if lexeme.Word? {
      ScanKeyword(lexeme.word, lexeme.token, rest);
    } else {
      ScanNumeral(lexeme.digits, rest);
    }
    hide Next;
  }

  lemma LexemeThenRest(lexeme: Lexeme, rest: string)
    requires lexeme.Valid() && lexeme.EndsBefore(rest)
    ensures Tokens(lexeme.Text() + rest, false) == [lexeme.Scanned()] + Tokens(rest, false)
  {
    ScanLexeme(lexeme, rest);
    NothingLeft(true);
    NothingLeft(false);
    hide Next, Lexeme.Valid, Lexeme.EndsBefore, Lexeme.Scanned;
  }

  /** However keywords and numbers are typed, the scanner returns them, and then the tokens of the rest. */
  lemma {:induction false} ScanLine(line: seq<Lexeme>, tail: string)
    requires WellSpaced(line, tail)
    ensures Tokens(LineText(line) + tail, false) == ScannedTokens(line, tail) + Tokens(tail, false)
  {
    if line == [] {
      assert [] + tail == tail;
    } else {
      var rest := LineText(line[1..]) + tail;
      assert LineText(line) + tail == line[0].Text() + rest;
      LexemeThenRest(line[0], rest);
      ScanLine(line[1..], tail);
      hide Tokens, Lexeme.Valid, Lexeme.EndsBefore, Lexeme.Scanned;
    }
  }

  lemma {:induction false} SplitWord(acc: string, text: string) returns (w: string)
    ensures w <= text && (forall c | c in w :: Alpha(c))
    ensures WordFrom(acc, text) == (acc + Lowered(w), text[|w|..])
    ensures |acc| + |w| < MAX_TOK_LEN ==> |w| == |text| || !Alpha(text[|w|])
    decreases |text|
  {
    w := [];
    assert acc + [] == acc && text[0..] == text;
    if text != [] && Alpha(text[0]) && |acc| < MAX_TOK_LEN {
      var first := Lower(text[0]);
      w := SplitWord(acc + [first], text[1..]);
      assert acc + ([first] + Lowered(w)) == acc + [first] + Lowered(w);
      w := [text[0]] + w;
      assert w[1..] == text[1..][..|w| - 1] && text[1..][|w| - 1..] == text[|w|..];
    }
  }

  lemma {:induction false} SplitNumber(text: string) returns (digits: string)
    ensures digits <= text && Digits(digits) && (|digits| == |text| || !Digit(text[|digits|]))
  {
    digits := [];
    if text != [] && Digit(text[0]) {
      digits := SplitNumber(text[1..]);
      digits := [text[0]] + digits;
    }
  }

  lemma VocabularyIsShort(w: string)
    requires Keyword(w) != Bad
    ensures 0 < |w| <= 7
  {
  }

  /** Only what has been typed is scanned: every keyword or number token comes from a lexeme. */
  lemma {:induction false} LexemeOf(text: string) returns (lexeme: Lexeme, rest: string)
    requires Next(text).token != Bad && !Next(text).token.Hex?
    ensures lexeme.Valid() && lexeme.EndsBefore(rest) && text == lexeme.Text() + rest
    ensures Next(text) == Scan(lexeme.Scanned(), rest, rest == [])
    decreases |text|
  {
    if Blank(text[0]) {
      lexeme, rest := LexemeOf(text[1..]);
      lexeme := AfterBlank(text[0], lexeme, rest);
    } else if Digit(text[0]) {
      lexeme, rest := NumeralOf(text);
    } else {
      lexeme, rest := WordOf(text);
    }
  }

  lemma AfterBlank(blank: char, lexeme: Lexeme, rest: string) returns (l: Lexeme)
    requires Blank(blank) && lexeme.Valid() && lexeme.EndsBefore(rest)
    ensures l.Valid() && l.EndsBefore(rest) && l.Scanned() == lexeme.Scanned()
    ensures l.Text() + rest == [blank] + (lexeme.Text() + rest)
  {
    l := lexeme.(blanks := [blank] + lexeme.blanks);
    hide Spells, Digit, Blank;
  }

  lemma NumeralOf(text: string) returns (lexeme: Lexeme, rest: string)
    requires text != [] && Digit(text[0]) && !Next(text).token.Hex? && Next(text).token != Bad
    ensures lexeme.Valid() && lexeme.EndsBefore(rest) && text == lexeme.Text() + rest
    ensures Next(text) == Scan(lexeme.Scanned(), rest, rest == [])
  {
    var digits := SplitNumber(text);
    NotHex(text);
    hide Next, Value, Wrap16;
    lexeme, rest := Numeral([], digits), text[|digits|..];
    assert [] + digits == digits && text == digits + rest;
    assert digits == "0" && rest != [] ==> text[1] == rest[0];
    ScanLexeme(lexeme, rest);
  }

  lemma NotHex(text: string)
    requires text != [] && !Next(text).token.Hex? && Next(text).token != Bad
    ensures !(1 < |text| && text[0] == '0' && text[1] == 'x')
  {
  }

  lemma WordOf(text: string) returns (lexeme: Lexeme, rest: string)
    requires text != [] && !Digit(text[0]) && !Blank(text[0]) && Next(text).token != Bad
    ensures lexeme.Valid() && lexeme.EndsBefore(rest) && text == lexeme.Text() + rest
    ensures Next(text) == Scan(lexeme.Scanned(), rest, rest == [])
  {
    var token := Next(text).token;
    var word := FirstWord(text);
    hide Next, Keyword, Words, Lowered, Alpha;
    VocabularyIsShort(Lowered(word));
    KeywordExact(Lowered(word), token);
    lexeme, rest := Word([], word, token), text[|word|..];
    assert [] + word == word && text == word + rest;
    ScanLexeme(lexeme, rest);
  }

  lemma FirstWord(text: string) returns (word: string)
    requires text != [] && !Digit(text[0]) && !Blank(text[0]) && Next(text).token != Bad
    ensures word != [] && word <= text && (forall c | c in word :: Alpha(c))
    ensures Next(text).token == Keyword(Lowered(word))
    ensures |word| < MAX_TOK_LEN ==> |word| == |text| || !Alpha(text[|word|])
  {
    var more := SplitWord([Lower(text[0])], text[1..]);
    word := [text[0]] + more;
    hide Keyword, Lower, WordFrom;
    assert word[1..] == more && Lowered(word) == [Lower(text[0])] + Lowered(more);
    assert Next(text) == ScanWord([Lower(text[0])], text[1..]) && Alpha(text[0]);
  }

  /** The first n tokens are keywords and numbers. */
  predicate Plain(ts: seq<Token>, n: nat) {
    n <= |ts| && forall i | 0 <= i < n :: !ts[i].Hex?
  }

  lemma PlainHead(ts: seq<Token>, n: nat)
    requires Plain(ts, n) && n != 0
    ensures ts != [] && !ts[0].Hex?
  {
  }

  lemma PlainTail(first: Token, rest: seq<Token>, n: nat)
    requires Plain([first] + rest, n) && n != 0
    ensures Plain(rest, n - 1)
  {
    assert forall i | 0 <= i < |rest| :: ([first] + rest)[i + 1] == rest[i];
  }

  /** Every text that scans to keywords and numbers, up to some point, is a line typed up to there. */
  lemma {:induction false} LineOf(text: string, n: nat) returns (line: seq<Lexeme>, tail: string)
    requires Plain(Tokens(text, false), n)
    ensures WellSpaced(line, tail) && text == LineText(line) + tail && |line| == n
    ensures Tokens(text, false) == ScannedTokens(line, tail) + Tokens(tail, false)
    decreases n
  {
    hide *;
    if n == 0 {
      line, tail := [], text;
      EmptyLine(text);
    } else {
      PlainHead(Tokens(text, false), n);
      var lexeme, rest := FirstLexeme(text);
      PlainTail(lexeme.Scanned(), Tokens(rest, false), n);
      line, tail := LineOf(rest, n - 1);
      OneMoreLexeme(lexeme, line, tail);
      assert [lexeme.Scanned()] + (ScannedTokens(line, tail) + Tokens(tail, false))
          == [lexeme.Scanned()] + ScannedTokens(line, tail) + Tokens(tail, false);
      line := [lexeme] + line;
    }
  }

  lemma EmptyLine(text: string)
    ensures WellSpaced([], text) && text == LineText([]) + text
    ensures Tokens(text, false) == ScannedTokens([], text) + Tokens(text, false)
  {
    hide Tokens;
  }

  lemma OneMoreLexeme(lexeme: Lexeme, line: seq<Lexeme>, tail: string)
    requires WellSpaced(line, tail) && lexeme.Valid() && lexeme.EndsBefore(LineText(line) + tail)
    ensures WellSpaced([lexeme] + line, tail)
    ensures LineText([lexeme] + line) + tail == lexeme.Text() + (LineText(line) + tail)
    ensures ScannedTokens([lexeme] + line, tail) == [lexeme.Scanned()] + ScannedTokens(line, tail)
  {
    assert ([lexeme] + line)[1..] == line;
    hide Lexeme.Valid, Lexeme.EndsBefore, Lexeme.Text, Lexeme.Scanned;
  }

  lemma FirstLexeme(text: string) returns (lexeme: Lexeme, rest: string)
    requires Tokens(text, false) != [] && !Tokens(text, false)[0].Hex?
    ensures lexeme.Valid() && lexeme.EndsBefore(rest) && text == lexeme.Text() + rest
    ensures Tokens(text, false) == [lexeme.Scanned()] + Tokens(rest, false)
  {
    hide *;
    FirstToken(text);
    lexeme, rest := LexemeOf(text);
    NothingLeft(true);
    NothingLeft(false);
    assert Tokens(text, false) == [Tokens(text, false)[0]] + Tokens(text, false)[1..];
  }

  lemma FirstToken(text: string)
    requires Tokens(text, false) != []
    ensures Next(text).token != Bad && Tokens(text, false)[0] == Next(text).token
    ensures Tokens(text, false)[1..] == Tokens(Next(text).rest, Next(text).seenEnd)
  {
    hide Next;
  }

  // ----- drive lines

  /** A drive command as typed: its keyword and arguments, then anything that does not prolong the
      last of them. */
  datatype DriveLine = DriveLine(forward: bool, words: seq<Lexeme>, tail: string) {
    /** The line gives this address and this step, in any of the argument shapes the parser takes. */
    ghost predicate Says(address: int, step: int) {
      && WellSpaced(words, tail) && words != []
      && words[0].Typed() == (if forward then Forward else Reverse)
      && Reads(TypedTokens(words, tail)[1..], address, step)
    }

    function Text(): string {
      LineText(words) + tail
    }
  }

  /** The scanned token of a typed one. */
  function WrapToken(tok: Token): Token {
    if tok.Number? then Number(Wrap16(tok.n)) else tok
  }

  lemma {:induction false} ScannedAreWrapped(line: seq<Lexeme>, tail: string)
    requires WellSpaced(line, tail)
    ensures forall i | 0 <= i < |line| :: ScannedTokens(line, tail)[i] == WrapToken(TypedTokens(line, tail)[i])
  {
    if line == [] {
    } else {
      ScannedAreWrapped(line[1..], tail);
    }
  }

  lemma ReadsWrapped(typed: seq<Token>, scanned: seq<Token>, address: int, step: int)
    requires |typed| <= |scanned| && forall i | 0 <= i < |typed| :: scanned[i] == WrapToken(typed[i])
    requires Reads(typed, address, step)
    ensures Reads(scanned, Wrap16(address), Wrap16(step))
  {
    hide Wrap16;
  }

  lemma DriveLineTokens(line: DriveLine, address: int, step: int) returns (args: seq<Token>)
    requires line.Says(address, step)
    ensures Tokens(line.Text(), false) == [if line.forward then Forward else Reverse] + args
    ensures Reads(args, Wrap16(address), Wrap16(step))
  {
    var typed, scanned := TypedTokens(line.words, line.tail), ScannedTokens(line.words, line.tail);
    var keyword := if line.forward then Forward else Reverse;
    FirstTyped(line.words, line.tail);
    assert line.Text() == LineText(line.words) + line.tail && typed[0] == keyword && WrapToken(keyword) == keyword;
    assert Reads(typed[1..], address, step);
    hide *;
    ScanLine(line.words, line.tail);
    ScannedAreWrapped(line.words, line.tail);
    args := scanned[1..] + Tokens(line.tail, false);
    WithoutFirst(typed, scanned, Tokens(line.tail, false));
    ReadsWrapped(typed[1..], args, address, step);
  }

  lemma WithoutFirst(typed: seq<Token>, scanned: seq<Token>, more: seq<Token>)
    requires |typed| == |scanned| && typed != []
    requires forall i | 0 <= i < |typed| :: scanned[i] == WrapToken(typed[i])
    ensures scanned + more == [WrapToken(typed[0])] + (scanned[1..] + more)
    ensures forall i | 0 <= i < |typed[1..]| :: (scanned[1..] + more)[i] == WrapToken(typed[1..][i])
  {
    hide WrapToken;
  }

  lemma FirstTyped(line: seq<Lexeme>, tail: string)
    requires WellSpaced(line, tail) && line != []
    ensures line[0].Valid() && TypedTokens(line, tail)[0] == line[0].Typed()
  {
  }

  lemma WrapKeepsLowByte(n: int)
    ensures Wrap16(n) % 256 == n % 256 && Wrap16(n) % 128 == n % 128
  {
    var q := (n + 0x8000) / 0x1_0000;
    assert n == Wrap16(n) + 0x1_0000 * q;
    hide Wrap16;
    AddMultiple(Wrap16(n), 256 * q);
    RemainderOfRemainder(n);
    RemainderOfRemainder(Wrap16(n));
  }

  lemma AddMultiple(x: int, k: int)
    ensures (x + 256 * k) % 256 == x % 256
  {
    assert x == 256 * (x / 256) + x % 256;
    assert x + 256 * k == 256 * (x / 256 + k) + x % 256;
  }

  /** From the characters to the rails: for every way of typing a drive command, and numbers of any
      size, the parser returns a legal frame that a decoder reads as the address modulo 128, the low
      byte of the speed modulo 29, and the direction. */
  lemma TypedDriveMeaning(line: DriveLine, address: int, step: int, garbage: bool)
    requires line.Says(address, step)
    ensures var r := ParseText(line.Text(), garbage);
      && r.Some? && r.value.DccResult? && LegalBaseline(r.value.bytes)
      && Interpret(DataOf(r.value.bytes)) == Some(Command(address % 128, step % 256 % 29, line.forward))
      && !IsBroadcastStop(r.value.bytes)
  {
    var args := DriveLineTokens(line, address, step);
    hide *;
    DriveMeaning(line.forward, args, Wrap16(address), Wrap16(step), garbage);
    WrapKeepsLowByte(address);
    WrapKeepsLowByte(step);
    TextIsTokens(line.Text(), garbage);
  }

  lemma TextIsTokens(text: string, garbage: bool)
    ensures ParseText(text, garbage) == ParseTokens(Tokens(text, false), garbage)
  {
  }

  /** And there is no other way: every text that scans to a drive command is such a line. */
  lemma EveryDriveIsTyped(text: string, forward: bool, args: seq<Token>, address: int, step: int)
    requires Tokens(text, false) == [if forward then Forward else Reverse] + args && Reads(args, address, step)
    ensures exists line: DriveLine, a, s ::
      line.forward == forward && line.Text() == text && line.Says(a, s) && Wrap16(a) == address && Wrap16(s) == step
  {
    var keyword := if forward then Forward else Reverse;
    assert !keyword.Hex? && forall tok :: WrapToken(tok) == keyword ==> tok == keyword;
    hide *;
    var m := PlainArgs(args, address, step);
    PlainAfter(keyword, args, m);
    var words, tail := LineOf(text, m + 1);
    ScannedAreWrapped(words, tail);
    var typed, scanned := TypedTokens(words, tail), ScannedTokens(words, tail);
    FirstSplit(keyword, args, scanned, Tokens(tail, false), m);
    RestWrapped(typed, scanned);
    var a, s := ReadsUnwrapped(typed[1..], scanned[1..], address, step);
    FirstTyped(words, tail);
    LineSays(DriveLine(forward, words, tail), a, s);
  }

  lemma FirstSplit(keyword: Token, args: seq<Token>, scanned: seq<Token>, more: seq<Token>, m: nat)
    requires [keyword] + args == scanned + more && |scanned| == m + 1
    ensures m <= |args| && scanned[0] == keyword && scanned[1..] == args[..m]
  {
    var all := [keyword] + args;
    assert all[..m + 1] == scanned && all[0] == keyword && all[1..] == args;
    assert all[..m + 1][1..] == all[1..][..m];
  }

  lemma RestWrapped(typed: seq<Token>, scanned: seq<Token>)
    requires |typed| == |scanned| && typed != []
    requires forall i | 0 <= i < |typed| :: scanned[i] == WrapToken(typed[i])
    ensures scanned[0] == WrapToken(typed[0])
    ensures forall i | 0 <= i < |typed[1..]| :: scanned[1..][i] == WrapToken(typed[1..][i])
  {
    hide WrapToken;
  }

  lemma PlainAfter(keyword: Token, args: seq<Token>, m: nat)
    requires !keyword.Hex? && Plain(args, m)
    ensures Plain([keyword] + args, m + 1) && |args| >= m
  {
  }

  lemma LineSays(line: DriveLine, a: int, s: int)
    requires WellSpaced(line.words, line.tail) && line.words != [] && line.words[0].Valid()
    requires line.words[0].Typed() == if line.forward then Forward else Reverse
    requires Reads(TypedTokens(line.words, line.tail)[1..], a, s)
    ensures line.Says(a, s) && line.Text() == LineText(line.words) + line.tail
  {
    hide Reads, WellSpaced, TypedTokens, Lexeme.Typed, LineText;
  }

  /** The arguments read are keywords and numbers only. */
  lemma PlainArgs(args: seq<Token>, address: int, step: int) returns (m: nat)
    requires Reads(args, address, step)
    ensures Plain(args, m) && Reads(args[..m], address, step)
  {
    if AddrAt(args, 0, address) && SpeedAt(args, 2, step) {
      m := 4;
    } else if SpeedAt(args, 0, step) && AddrAt(args, 2, address) {
      m := 4;
    } else if Head(args) == Addr && SpeedAt(args, 1, step) && AddrAt(args, 3, address) {
      m := 5;
    } else {
      m := 7;
    }
  }

  lemma ReadsUnwrapped(typed: seq<Token>, scanned: seq<Token>, address: int, step: int) returns (a: int, s: int)
    requires |typed| == |scanned| && forall i | 0 <= i < |typed| :: scanned[i] == WrapToken(typed[i])
    requires Reads(scanned, address, step)
    ensures Reads(typed, a, s) && Wrap16(a) == address && Wrap16(s) == step
  {
    hide Wrap16;
    if AddrAt(scanned, 0, address) && SpeedAt(scanned, 2, step) {
      a, s := typed[1].n, typed[3].n;
    } else if SpeedAt(scanned, 0, step) && AddrAt(scanned, 2, address) {
      a, s := typed[3].n, typed[1].n;
    } else if Head(scanned) == Addr && SpeedAt(scanned, 1, step) && AddrAt(scanned, 3, address) {
      a, s := typed[4].n, typed[2].n;
    } else {
      a, s := typed[6].n, typed[4].n;
    }
  }

  /** The round trip: for addresses 0 to 127 and steps 0 to 28 the packet's getters return exactly
      what was typed. */
  lemma TypedDriveRoundTrip(line: DriveLine, address: int, step: int, garbage: bool)
    requires line.Says(address, step) && 0 <= address < 128 && 0 <= step < 29
    ensures var r := ParseText(line.Text(), garbage);
      && r.Some? && r.value.DccResult?
      && |r.value.bytes| == BASELINE_LEN
      && AddressOf(r.value.bytes) as nat == address
      && SpeedStepOf(r.value.bytes) == step
      && DirectionOf(r.value.bytes) == (if line.forward then FORWARD else REVERSE)
  {
    hide *;
    TypedDriveMeaning(line, address, step, garbage);
    var b := ParseText(line.Text(), garbage).value.bytes;
    LegalIsSized(b);
    DecoderAgreesWithGetters(b);
  }

  lemma LegalIsSized(b: Bytes)
    requires LegalBaseline(b)
    ensures |b| == BASELINE_LEN && (DirectionOf(b) == FORWARD || DirectionOf(b) == REVERSE)
  {
  }

  /** A cache show command as typed gives the number up to the wrap-around of a 16-bit int. */
  lemma TypedShowMeaning(words: seq<Lexeme>, tail: string, garbage: bool)
    requires WellSpaced(words, tail) && |words| == 3
    requires TypedTokens(words, tail)[..2] == [Cache, Show] && words[2].Numeral?
    ensures words[2].Valid()
    ensures ParseText(LineText(words) + tail, garbage) ==
      Some(SysResult(CacheShowCmd(Wrap16(Value(words[2].digits)))))
  {
    ThreeTokens(words, tail);
    var n, rest := Wrap16(Value(words[2].digits)), Tokens(tail, false);
    var text := LineText(words) + tail;
    hide *;
    ScanLine(words, tail);
    SystemCommands(n, [], rest, garbage);
    TextIsTokens(text, garbage);
  }

  lemma ThreeTokens(words: seq<Lexeme>, tail: string)
    requires WellSpaced(words, tail) && |words| == 3
    requires TypedTokens(words, tail)[..2] == [Cache, Show] && words[2].Numeral?
    ensures words[2].Valid() && ScannedTokens(words, tail) == [Cache, Show, words[2].Scanned()]
    ensures words[2].Scanned() == Number(Wrap16(Value(words[2].digits)))
  {
    var rest := words[1..];
    assert words[1] == rest[0] && words[2] == rest[1..][0] && rest[1..][1..] == [];
    FirstTyped(words, tail);
    FirstTyped(rest, tail);
    FirstTyped(rest[1..], tail);
    var typed := TypedTokens(words, tail);
    assert typed[..2][0] == typed[0] && typed[..2][1] == typed[1];
    ScannedAreWrapped(words, tail);
    ScannedAreWrapped(rest[1..], tail);
    var scanned := ScannedTokens(words, tail);
    assert scanned[2] == ScannedTokens(rest[1..], tail)[0];
    hide Wrap16, Value, Lexeme.Valid, Lexeme.EndsBefore;
  }

  /** A stop command as typed: the keyword, then anything that does not prolong it. */
  lemma TypedStopMeaning(stop: Lexeme, tail: string, garbage: bool)
    requires stop.Valid() && stop.Word? && stop.token == Stop && stop.EndsBefore(tail)
    ensures var r := ParseText(stop.Text() + tail, garbage);
      var rest := Tokens(tail, false);
      && r.Some? && r.value.DccResult? && LegalBaseline(r.value.bytes)
      && (IsBroadcastStop(r.value.bytes) <==> !exists n :: [Addr, Number(n)] <= rest)
      && (IsBroadcastStop(r.value.bytes) ==>
           r.value.bytes == if [All] <= rest || [Addr, All] <= rest then EMERGENCY_STOP else BROADCAST_STOP)
      && (forall n :: [Addr, Number(n)] <= rest ==> Interpret(DataOf(r.value.bytes)) == Some(Command(n % 128, 0, false)))
  {
    var rest := Tokens(tail, false);
    LexemeThenRest(stop, tail);
    StopMeaning(rest, garbage);
    StopsAreFinished();
    SpecialPacketsCarry();
    hide ParseTokens, Tokens, Interpret, DataOf, LegalBaseline, IsBroadcastStop;
  }

  // ----- hexadecimal strings

  predicate Alnum(c: char) {
    Alpha(c) || Digit(c)
  }

  function Up(c: char): char {
    if Digit(c) then c else Upper(c)
  }

  function Uppered(h: string): (u: string)
    ensures |u| == |h|
  {
    if h == [] then [] else [Up(h[0])] + Uppered(h[1..])
  }

  lemma {:induction false} ScanHexDigits(acc: string, last: Option<char>, h: string, text: string)
    requires (forall c | c in h :: Alnum(c)) && |acc| + |h| <= MAX_TOK_LEN
    requires |acc| + |h| == MAX_TOK_LEN || text == [] || !Alnum(text[0])
    ensures HexFrom(acc, last, h + text) ==
      if |acc| + |h| == MAX_TOK_LEN then (acc + Uppered(h), if h == [] then last else Some(h[|h| - 1]), text)
      else if text == [] then (acc + Uppered(h), None, [])
      else (acc + Uppered(h), Some(text[0]), text[1..])
    decreases |h|
  {
    if h == [] {
      assert h + text == text && acc + [] == acc;
    } else {
      assert h[0] in h;
      assert (h + text)[1..] == h[1..] + text;
      assert (h + text)[0] == h[0] && h + text != [];
      var up := Up(h[0]);
      hide Upper;
      ScanHexDigits(acc + [up], Some(h[0]), h[1..], text);
      Reassociate(acc, up, Uppered(h[1..]));
    }
  }

  /** Up to 20 letters and digits after 0x: fewer than 20 are scanned as they are if their number is
      even, none included, and rejected with the character after them lost if it is odd; of 20 the last
      is put back and so read again. */
  lemma HexMeaning(h: string, text: string)
    requires (forall c | c in h :: Alnum(c)) && |h| <= MAX_TOK_LEN
    requires |h| == MAX_TOK_LEN || text == [] || !Alnum(text[0])
    ensures Next(['0', 'x'] + h + text) ==
      if |h| == MAX_TOK_LEN then Scan(Hex(Uppered(h)), [h[|h| - 1]] + text, false)
      else if |h| % 2 == 0 then Scan(Hex(Uppered(h)), text, text == [])
      else Scan(Bad, if text == [] then [] else text[1..], false)
  {
    hide Next, ScanHex, HexFrom, Uppered, Alnum;
    assert ['0', 'x'] + h + text == ['0', 'x'] + (h + text);
    NextHexIs(h + text);
    ScanHexWhole(h, text);
  }

  lemma ScanHexWhole(h: string, text: string)
    requires (forall c | c in h :: Alnum(c)) && |h| <= MAX_TOK_LEN
    requires |h| == MAX_TOK_LEN || text == [] || !Alnum(text[0])
    ensures ScanHex(h + text) ==
      if |h| == MAX_TOK_LEN then Scan(Hex(Uppered(h)), [h[|h| - 1]] + text, false)
      else if |h| % 2 == 0 then Scan(Hex(Uppered(h)), text, text == [])
      else Scan(Bad, if text == [] then [] else text[1..], false)
  {
    hide HexFrom, Uppered, Alnum;
    ScanHexDigits([], None, h, text);
    assert [] + Uppered(h) == Uppered(h);
    assert text != [] ==> [text[0]] + text[1..] == text;
  }

  lemma NextHexIs(rest: string)
    ensures Next(['0', 'x'] + rest) == ScanHex(rest)
  {
    assert (['0', 'x'] + rest)[2..] == rest;
  }

  // ----- raw packets

  function HexChar(v: nat): char
    requires v < 16
  {
    if v < 10 then DigitOf(v) else 'a' + (v - 10) as char
  }

  /** Bytes printed as hexadecimal digits, two to a byte. */
  function HexText(b: Bytes): (s: string)
    ensures |s| == 2 * |b|
  {
    if b == [] then [] else
    var v := b[0] as nat;
    [HexChar(v / 16), HexChar(v % 16)] + HexText(b[1..])
  }

  lemma HexCharBack(v: nat)
    requires v < 16
    ensures Alnum(HexChar(v))
    ensures HexDigit(Up(HexChar(v))) && HexValue(Up(HexChar(v))) == v
  {
  }

  lemma {:induction false} ByteBack(b: bv8)
    ensures ByteOf(b as nat) == b
    decreases b as nat
  {
    if b == 0 {
    } else {
      Predecessor(b);
      ByteBack(b - 1);
    }
  }

  lemma Predecessor(b: bv8)
    requires b != 0
    ensures (b - 1) as nat + 1 == b as nat
  {
  }

  lemma HexBytesUnfold(c: char, d: char, s: string)
    ensures HexBytes([c, d] + s) == [HexByte(c, d)] + HexBytes(s)
  {
    var t := [c, d] + s;
    assert t[2..] == s;
    assert forall i | 1 <= i < |t| / 2 :: t[2 * i] == s[2 * (i - 1)] && t[2 * i + 1] == s[2 * (i - 1) + 1];
    hide HexByte;
  }

  lemma {:induction false} HexTextIsAlnum(b: Bytes)
    ensures forall c | c in HexText(b) :: Alnum(c)
  {
    if b == [] {
    } else {
      HexTextIsAlnum(b[1..]);
      ByteIsSmall(b[0]);
      OneByteBack(b[0], b[0] as nat);
      hide Alnum, HexChar;
    }
  }

  lemma ByteIsSmall(b: bv8)
    ensures b as nat < 256
  {
  }

  /** Reading printed bytes back gives the bytes. */
  lemma {:induction false} HexRoundTrip(b: Bytes)
    ensures HexBytes(Uppered(HexText(b))) == b
  {
    if b == [] {
      assert HexBytes([]) == [];
    } else {
      var v := b[0] as nat;
      var c, d := HexChar(v / 16), HexChar(v % 16);
      assert HexText(b) == [c, d] + HexText(b[1..]);
      hide *;
      HexRoundTrip(b[1..]);
      ByteIsSmall(b[0]);
      OneByteBack(b[0], v);
      var rest := HexText(b[1..]);
      UpperTwo(c, d, rest);
      HexBytesUnfold(Up(c), Up(d), Uppered(rest));
      BytesApart(b);
    }
  }

  lemma OneByteBack(b: bv8, v: nat)
    requires b as nat == v < 256
    ensures var c, d := HexChar(v / 16), HexChar(v % 16);
      Alnum(c) && Alnum(d) && HexByte(Up(c), Up(d)) == b
  {
    HexCharBack(v / 16);
    HexCharBack(v % 16);
    ByteBack(b);
    hide HexChar, Up, HexDigit, HexValue, ByteOf, Alnum;
    assert v == 16 * (v / 16) + v % 16;
  }

  lemma BytesApart(b: Bytes)
    requires b != []
    ensures b == [b[0]] + b[1..]
  {
  }

  lemma UpperTwo(c: char, d: char, s: string)
    ensures Uppered([c, d] + s) == [Up(c), Up(d)] + Uppered(s)
  {
    assert ([c, d] + s)[1..] == [d] + s && ([d] + s)[1..] == s;
  }

  /** A raw command with up to 20 letters and digits, an even number: the packet is what sscanf makes of
      them, if there is one. */
  lemma TypedRawMeaning(raw: Lexeme, blanks: string, h: string, tail: string, garbage: bool)
    requires raw.Valid() && raw.Word? && raw.token == Raw && Blanks(blanks)
    requires (forall c | c in h :: Alnum(c)) && |h| <= MAX_TOK_LEN && |h| % 2 == 0
    requires |h| == MAX_TOK_LEN || tail == [] || !Alnum(tail[0])
    ensures ParseText(raw.Text() + blanks + ['0', 'x'] + h + tail, garbage) ==
      Some(if garbage then RawResult(HexBytes(Uppered(h))) else Undefined)
  {
    var hex := ['0', 'x'] + h + tail;
    var text := raw.Text() + (blanks + hex);
    assert raw.Scanned() == Raw;
    hide *;
    RawText(raw, blanks, h, tail);
    HexMeaning(h, tail);
    var after := RawTokens(raw, blanks, hex, Uppered(h));
    SystemCommands(0, Uppered(h), after, garbage);
    TextIsTokens(text, garbage);
  }

  lemma RawText(raw: Lexeme, blanks: string, h: string, tail: string)
    requires raw.Word? && Blanks(blanks)
    ensures var hex := ['0', 'x'] + h + tail;
      && raw.Text() + blanks + ['0', 'x'] + h + tail == raw.Text() + (blanks + hex)
      && raw.EndsBefore(blanks + hex) && blanks + hex != []
  {
    var hex := ['0', 'x'] + h + tail;
    assert blanks != [] ==> blanks[0] in blanks;
    assert hex[0] == '0' && (blanks + hex)[0] == if blanks != [] then blanks[0] else '0';
  }

  lemma RawTokens(raw: Lexeme, blanks: string, hex: string, h: string) returns (after: seq<Token>)
    requires raw.Valid() && raw.Scanned() == Raw && Blanks(blanks) && Next(hex).token == Hex(h)
    requires raw.EndsBefore(blanks + hex) && blanks + hex != []
    ensures Tokens(raw.Text() + (blanks + hex), false) == [Raw, Hex(h)] + after
  {
    hide *;
    LexemeThenRest(raw, blanks + hex);
    SkipBlanks(blanks, hex);
    after := HexTokens(blanks + hex, h);
    assert [Raw] + ([Hex(h)] + after) == [Raw, Hex(h)] + after;
  }

  lemma HexTokens(text: string, h: string) returns (after: seq<Token>)
    requires Next(text).token == Hex(h)
    ensures Tokens(text, false) == [Hex(h)] + after
  {
    hide Next;
    after := Tokens(text, false)[1..];
  }

  /** The round trip for raw packets: up to ten bytes, printed and typed, are the bytes of the packet. */
  lemma TypedRawRoundTrip(raw: Lexeme, blanks: string, b: Bytes, tail: string)
    requires raw.Valid() && raw.Word? && raw.token == Raw && Blanks(blanks) && |b| <= 10
    requires |b| == 10 || tail == [] || !Alnum(tail[0])
    ensures ParseText(raw.Text() + blanks + ['0', 'x'] + HexText(b) + tail, true) == Some(RawResult(b))
  {
    HexRoundTrip(b);
    HexTextIsAlnum(b);
    assert |HexText(b)| == 2 * |b| && MAX_TOK_LEN == 20;
    hide *;
    TypedRawMeaning(raw, blanks, HexText(b), tail, true);
  }
}
