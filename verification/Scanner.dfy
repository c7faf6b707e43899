/** The token scanner of cs/dsl.c. */
module Scanner {
  import opened Wrappers

  const MAX_TOK_LEN: nat := 20

  /** Tokens with the semantic value the scanner's union holds while they are current. Bad is the
      value 0 returned for anything unknown and for the end of the input. */
  datatype Token =
    | Bad | Forward | Reverse | Stop | Addr | Speed | All | Number(n: int)
    | Show | Status | Help | Raw | Hex(s: string) | Cache | Clear

  // ----- characters (the C locale)

  predicate Blank(c: char) { c == ' ' || c == '\t' }
  predicate Digit(c: char) { '0' <= c <= '9' }
  predicate Alpha(c: char) { 'a' <= c <= 'z' || 'A' <= c <= 'Z' }

  function DigitValue(c: char): (v: nat)
    requires Digit(c)
    ensures v < 10
  {
    c as nat - '0' as nat
  }

  function Lower(c: char): char {
    if 'A' <= c <= 'Z' then c + ('a' - 'A') else c
  }

  function Upper(c: char): char {
    if 'a' <= c <= 'z' then c - ('a' - 'A') else c
  }

  /** 16-bit int arithmetic as the AVR does it; C leaves the overflow undefined. */
  function Wrap16(x: int): (r: int)
    ensures -0x8000 <= r < 0x8000
  {
    (x + 0x8000) % 0x1_0000 - 0x8000
  }

  // ----- what the loops compute

  /** The number loop: the value so far and the unread text. */
  function NumberFrom(num: int, text: string): (int, string)
    decreases |text|
  {
    if text != [] && Digit(text[0]) then NumberFrom(Wrap16(num * 10 + DigitValue(text[0])), text[1..])
    else (num, text)
  }

  /** The keyword loop; at most MAX_TOK_LEN letters are taken. */
  function WordFrom(word: string, text: string): (string, string)
    decreases |text|
  {
    if text != [] && Alpha(text[0]) && |word| < MAX_TOK_LEN then WordFrom(word + [Lower(text[0])], text[1..])
    else (word, text)
  }

  /** The hexadecimal loop, with the last character it read, which is pushed back afterwards. */
  function HexFrom(word: string, last: Option<char>, text: string): (string, Option<char>, string)
    decreases |text|
  {
    if |word| < MAX_TOK_LEN then
      if text == [] then (word, None, [])
      else if Alpha(text[0]) || Digit(text[0]) then
        HexFrom(word + [if Digit(text[0]) then text[0] else Upper(text[0])], Some(text[0]), text[1..])
      else (word, Some(text[0]), text[1..])
    else (word, last, text)
  }

  function Keyword(word: string): Token {
    if word == "raw" then Raw
    else if word == "forward" || word == "fw" then Forward
    else if word == "reverse" || word == "rv" then Reverse
    else if word == "stop" then Stop
    else if word == "addr" || word == "ad" then Addr
    else if word == "speed" || word == "sp" then Speed
    else if word == "all" then All
    else if word == "show" then Show
    else if word == "cache" then Cache
    else if word == "clear" then Clear
    else if word == "status" then Status
    else if word == "help" then Help
    else Bad
  }

  /** One scan: the token, the unread text and whether the end of the input has been seen. */
  datatype Scan = Scan(token: Token, rest: string, seenEnd: bool)

  function ScanNumber(num: int, text: string): Scan {
    var (n, rest) := NumberFrom(num, text);
    Scan(Number(n), rest, rest == [])
  }

  function ScanWord(word: string, text: string): Scan {
    var (w, rest) := WordFrom(word, text);
    Scan(Keyword(w), rest, rest == [])
  }

  function ScanHex(text: string): Scan {
    var (w, last, rest) := HexFrom([], None, text);
    if |w| % 2 != 0 then Scan(Bad, rest, false)
    else if last.None? then Scan(Hex(w), rest, true)
    else Scan(Hex(w), [last.value] + rest, false)
  }

  /** The scanner's main loop, from a state in which the end has not been seen. */
  function Next(text: string): Scan
    decreases |text|
  {
    if text == [] then Scan(Bad, [], false)
    else if text[0] == '0' && 1 < |text| && text[1] == 'x' then ScanHex(text[2..])
    else if Digit(text[0]) then ScanNumber(DigitValue(text[0]), text[1..])
    else if Alpha(text[0]) then ScanWord([Lower(text[0])], text[1..])
    else if Blank(text[0]) then Next(text[1..])
    else Scan(Bad, text[1..], false)
  }

  lemma {:induction false} NumberShortens(num: int, text: string)
    ensures |NumberFrom(num, text).1| <= |text|
    decreases |text|
  {
    if text != [] && Digit(text[0]) {
      NumberShortens(Wrap16(num * 10 + DigitValue(text[0])), text[1..]);
    }
  }

  lemma {:induction false} WordShortens(word: string, text: string)
    ensures |WordFrom(word, text).1| <= |text|
    decreases |text|
  {
    if text != [] && Alpha(text[0]) && |word| < MAX_TOK_LEN {
      WordShortens(word + [Lower(text[0])], text[1..]);
    }
  }

  lemma {:induction false} HexShortens(word: string, last: Option<char>, text: string)
    ensures |HexFrom(word, last, text).2| <= |text|
    decreases |text|
  {
    if |word| < MAX_TOK_LEN && text != [] && (Alpha(text[0]) || Digit(text[0])) {
      HexShortens(word + [if Digit(text[0]) then text[0] else Upper(text[0])], Some(text[0]), text[1..]);
    }
  }

  /** Every token uses up some of the text, the pushed-back character notwithstanding. */
  lemma {:induction false} NextShortens(text: string)
    ensures Next(text).token != Bad ==> |Next(text).rest| < |text|
    decreases |text|
  {
    if text == [] {
    } else {
      if text[0] == '0' && 1 < |text| && text[1] == 'x' {
        HexShortens([], None, text[2..]);
      } else if Digit(text[0]) {
        NumberShortens(DigitValue(text[0]), text[1..]);
      } else if Alpha(text[0]) {
        WordShortens([Lower(text[0])], text[1..]);
      } else if Blank(text[0]) {
        NextShortens(text[1..]);
      }
    }
  }

  /** The whole token stream, up to the first Bad token. */
  function Tokens(text: string, seenEnd: bool): seq<Token>
    decreases |text|
  {
    if seenEnd then []
    else
      var s := Next(text);
      NextShortens(text);
      if s.token == Bad then [] else [s.token] + Tokens(s.rest, s.seenEnd)
  }

  /** The unread text, and whether its end has been seen, after n scans. */
  function AfterScans(text: string, seenEnd: bool, n: nat): (string, bool)
    decreases n
  {
    if n == 0 then (text, seenEnd)
    else if seenEnd then AfterScans(text, true, n - 1)
    else AfterScans(Next(text).rest, Next(text).seenEnd, n - 1)
  }

  lemma FirstScan(text: string)
    ensures AfterScans(text, false, 1) == (Next(text).rest, Next(text).seenEnd)
  {
    hide Next;
  }

  lemma {:induction false} OneMoreScan(text: string, seenEnd: bool, n: nat)
    ensures var (t, end) := AfterScans(text, seenEnd, n);
      AfterScans(text, seenEnd, n + 1) == if end then (t, true) else (Next(t).rest, Next(t).seenEnd)
    decreases n
  {
    hide Next;
    if n == 0 {
    } else if seenEnd {
      OneMoreScan(text, true, n - 1);
    } else {
      OneMoreScan(Next(text).rest, Next(text).seenEnd, n - 1);
    }
  }

  // ----- the module

  /** Standard input: characters not yet read; None stands for EOF. */
  class Stdin {
    var text: string

    constructor (text: string)
      ensures this.text == text
    {
      this.text := text;
    }

    method GetChar() returns (c: Option<char>)
      modifies this
      ensures old(text) == Unread(c, text) && (c.None? ==> text == [])
    {
      if text == [] {
        c := None;
      } else {
        c, text := Some(text[0]), text[1..];
      }
    }

    /** The flush callback discards pending input; how much of it is up to the driver behind it. */
    method Flush(left: string)
      modifies this
      ensures text == left
    {
      text := left;
    }

    /** Pushing EOF back has no effect. */
    method UngetChar(c: Option<char>)
      modifies this
      ensures text == Unread(c, old(text))
    {
      if c.Some? {
        text := [c.value] + text;
      }
    }
  }

  /** The text with a lookahead character put back. */
  function Unread(c: Option<char>, text: string): string {
    if c.Some? then [c.value] + text else text
  }

  predicate IsDigit(c: Option<char>) { c.Some? && Digit(c.value) }
  predicate IsAlpha(c: Option<char>) { c.Some? && Alpha(c.value) }

  class DslScanner {
    const stdin: Stdin
    var seenEnd: bool

    constructor (stdin: Stdin)
      ensures this.stdin == stdin && !seenEnd
    {
      this.stdin := stdin;
      seenEnd := false;
    }

    /** The tokens still to come. */
    ghost function Stream(): seq<Token>
      reads this, stdin
    {
      Tokens(stdin.text, seenEnd)
    }

    method Reset()
      modifies this
      ensures !seenEnd
    {
      seenEnd := false;
    }

    /** Remember EOF, or put the lookahead back. */
    method PutBack(c: Option<char>)
      requires !seenEnd && (c.None? ==> stdin.text == [])
      modifies this, stdin
      ensures stdin.text == Unread(c, old(stdin.text)) && seenEnd == c.None?
    {
      if c.None? {
        seenEnd := true;
      } else {
        stdin.UngetChar(c);
      }
    }

    method NextNumber(first: char) returns (token: Token)
      requires Digit(first) && !seenEnd
      modifies this, stdin
      ensures Scan(token, stdin.text, seenEnd) == ScanNumber(DigitValue(first), old(stdin.text))
    {
      var num: int := DigitValue(first);
      var c := stdin.GetChar();
      while IsDigit(c)
        invariant c.None? ==> stdin.text == []
        invariant !seenEnd
        invariant NumberFrom(num, Unread(c, stdin.text)) == NumberFrom(DigitValue(first), old(stdin.text))
        decreases |Unread(c, stdin.text)|
      {
        num := Wrap16(num * 10 + DigitValue(c.value));
        c := stdin.GetChar();
      }
      PutBack(c);
      token := Number(num);
    }

    method NextWord(first: char) returns (token: Token)
      requires Alpha(first) && !seenEnd
      modifies this, stdin
      ensures Scan(token, stdin.text, seenEnd) == ScanWord([Lower(first)], old(stdin.text))
    {
      var tok := [Lower(first)];
      var c := stdin.GetChar();
      while IsAlpha(c) && |tok| < MAX_TOK_LEN
        invariant c.None? ==> stdin.text == []
        invariant !seenEnd
        invariant WordFrom(tok, Unread(c, stdin.text)) == WordFrom([Lower(first)], old(stdin.text))
        decreases |Unread(c, stdin.text)|
      {
        tok := tok + [Lower(c.value)];
        c := stdin.GetChar();
      }
      PutBack(c);
      token := Keyword(tok);
    }

    method NextHex() returns (token: Token)
      requires !seenEnd
      modifies this, stdin
      ensures Scan(token, stdin.text, seenEnd) == ScanHex(old(stdin.text))
    {
      var tok: string := [];
      var c: Option<char> := None;
      while |tok| < MAX_TOK_LEN
        invariant c.None? ==> tok == []
        invariant !seenEnd && |tok| <= MAX_TOK_LEN
        invariant HexFrom(tok, c, stdin.text) == HexFrom([], None, old(stdin.text))
        decreases MAX_TOK_LEN - |tok|
      {
        c := stdin.GetChar();
        if !IsAlpha(c) && !IsDigit(c) {
          break;
        }
        tok := tok + [if IsDigit(c) then c.value else Upper(c.value)];
      }
      if |tok| > 0 && |tok| % 2 != 0 {
        return Bad;
      }
      PutBack(c);
      token := Hex(tok);
    }

    method NextToken() returns (token: Token)
      modifies this, stdin
      ensures if old(seenEnd) then token == Bad && stdin.text == old(stdin.text) && seenEnd
              else Scan(token, stdin.text, seenEnd) == Next(old(stdin.text))
      ensures old(Stream()) == if token == Bad then [] else [token] + Stream()
    {
      if seenEnd {
        return Bad;
      }
      while true
        invariant !seenEnd && Next(stdin.text) == Next(old(stdin.text))
        decreases |stdin.text|
      {
        ghost var t := stdin.text;
        var c := stdin.GetChar();
        if IsDigit(c) && c == Some('0') {
          var c2 := stdin.GetChar();
          if IsAlpha(c2) && c2 == Some('x') {
            assert t[2..] == stdin.text;
            token := NextHex();
            return;
          } else {
            stdin.UngetChar(c2);
          }
        }
        if IsDigit(c) {
          token := NextNumber(c.value);
          return;
        }
        if IsAlpha(c) {
          token := NextWord(c.value);
          return;
        }
        if c != Some(' ') && c != Some('\t') {
          return Bad;
        }
      }
    }
  }
}
