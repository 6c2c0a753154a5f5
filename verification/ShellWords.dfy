/** Recovery commands: splitting a command line into words and writing words back as a POSIX
    command line. */
module ShellWords {
  import opened Options
  import opened Seqs

  const APOSTROPHE: char := '\''
  const QUOTE: char := '"'
  const BACKSLASH: char := '\\'

  /** The white space of a JavaScript regular expression. */
  predicate IsSpace(c: char) {
    || c in {' ', '\t', '\n', '\r', 0x0b as char, 0x0c as char}
    || c in {0xa0 as char, 0x1680 as char, 0x2028 as char, 0x2029 as char, 0x202f as char}
    || c in {0x205f as char, 0x3000 as char, 0xfeff as char}
    || 0x2000 as char <= c <= 0x200a as char
  }

  // ---------------------------------------------------------------- splitting

  datatype Quoting = Outside | InApostrophes | InQuotes

  /** The words finished, the word being read, the open quote and whether a word has begun. */
  datatype Scan = Scan(parts: seq<string>, part: string, quoting: Quoting, started: bool)

  const START: Scan := Scan([], "", Outside, false)

  /** The scan after one character that no backslash escapes. */
  function Plain(s: Scan, c: char): Scan {
    match s.quoting
    case InApostrophes =>
      if c == APOSTROPHE then s.(quoting := Outside, started := true)
      else s.(part := s.part + [c], started := true)
    case InQuotes =>
      if c == QUOTE then s.(quoting := Outside, started := true)
      else s.(part := s.part + [c], started := true)
    case Outside =>
      if c == APOSTROPHE then s.(quoting := InApostrophes, started := true)
      else if c == QUOTE then s.(quoting := InQuotes, started := true)
      else if IsSpace(c) then
        if s.started then Scan(s.parts + [s.part], "", Outside, false) else s
      else s.(part := s.part + [c], started := true)
  }

  /** Whether a backslash here takes the next character literally. */
  predicate Escapes(quoting: Quoting, c: char, next: Option<char>) {
    && c == BACKSLASH && next.Some?
    && match quoting
       case InApostrophes => false
       case InQuotes => next.value in {QUOTE, BACKSLASH}
       case Outside => next.value in {' ', BACKSLASH, APOSTROPHE, QUOTE}
  }

  function Next(text: string, i: nat): Option<char> {
    if i + 1 < |text| then Some(text[i + 1]) else None
  }

  /** The scan of a whole text. */
  function ScanText(s: Scan, text: string): Scan
    decreases |text|
  {
    if text == "" then s
    else if Escapes(s.quoting, text[0], Next(text, 0)) then
      ScanText(s.(part := s.part + [text[1]], started := true), text[2..])
    else ScanText(Plain(s, text[0]), text[1..])
  }

  function Finish(s: Scan): Option<seq<string>> {
    if s.quoting != Outside then None
    else
      var parts := if s.started then s.parts + [s.part] else s.parts;
      if parts == [] then None else Some(parts)
  }

  function Parse(text: string): Option<seq<string>> {
    Finish(ScanText(START, text))
  }

  /** The scan as the program runs it: one index, skipping over what a backslash escapes. */
  method ParseCommandLine(value: string) returns (result: Option<seq<string>>)
    ensures result == Parse(value)
  {
    var parts: seq<string> := [];
    var part := "";
    var quote: Option<char> := None;
    var tokenStarted := false;
    var index := 0;
    while index < |value|
      invariant index <= |value|
      invariant quote in {None, Some(APOSTROPHE), Some(QUOTE)}
      invariant ScanText(START, value)
             == ScanText(Scan(parts, part, QuotingOf(quote), tokenStarted), value[index..])
    {
      ghost var before := Scan(parts, part, QuotingOf(quote), tokenStarted);
      ghost var rest := value[index..];
      assert Next(rest, 0) == Next(value, index);
      assert rest[1..] == value[index + 1..];
      assert |rest| > 1 ==> rest[2..] == value[index + 2..];
      var character := value[index];
      var next := Next(value, index);
      if quote == Some(APOSTROPHE) {
        if character == APOSTROPHE {
          quote := None;
        } else {
          part := part + [character];
        }
        tokenStarted := true;
        index := index + 1;
        continue;
      }
      if quote == Some(QUOTE) {
        if character == QUOTE {
          quote := None;
        } else if character == BACKSLASH && next in {Some(QUOTE), Some(BACKSLASH)} {
          index := index + 1;
          part := part + [value[index]];
        } else {
          part := part + [character];
        }
        tokenStarted := true;
        index := index + 1;
        continue;
      }
      if character == APOSTROPHE || character == QUOTE {
        quote := Some(character);
        tokenStarted := true;
      } else if IsSpace(character) {
        if tokenStarted {
          parts, part, tokenStarted := parts + [part], "", false;
        }
      } else if character == BACKSLASH && next in {Some(' '), Some(BACKSLASH), Some(APOSTROPHE), Some(QUOTE)} {
        index := index + 1;
        part := part + [value[index]];
        tokenStarted := true;
      } else {
        part := part + [character];
        tokenStarted := true;
      }
      index := index + 1;
    }
    if quote != None { return None; }
    if tokenStarted {
      parts := parts + [part];
    }
    return if parts == [] then None else Some(parts);
  }

  function QuotingOf(quote: Option<char>): Quoting {
    if quote == None then Outside else if quote.value == APOSTROPHE then InApostrophes else InQuotes
  }

  // ---------------------------------------------------------------- writing

  /** A character that needs no quotes. */
  predicate IsBare(c: char) {
    || 'A' <= c <= 'Z' || 'a' <= c <= 'z' || '0' <= c <= '9'
    || c in {'_', '.', '/', ':', '@', '%', '+', '=', ',', '-'}
  }

  predicate AllBare(value: string) {
    value != "" && forall c | c in value :: IsBare(c)
  }

  /** Each apostrophe closes the quotes, is written in double quotes and reopens them. */
  function EscapeApostrophes(value: string): string {
    if value == "" then ""
    else (if value[0] == APOSTROPHE then "'\"'\"'" else [value[0]]) + EscapeApostrophes(value[1..])
  }

  function ShellQuote(value: string): string {
    if AllBare(value) then value
    else "'" + EscapeApostrophes(value) + "'"
  }

  function RenderCommand(command: seq<string>): string {
    if command == [] then ""
    else if |command| == 1 then ShellQuote(command[0])
    else ShellQuote(command[0]) + " " + RenderCommand(command[1..])
  }

  /** A stored orca command with the executable put in; any other text stays as it is. */
  function RenderResolved(command: string, executable: string): string {
    var parts := Parse(command);
    if parts.Some? && parts.value != [] && parts.value[0] == "orca"
    then RenderCommand([executable] + parts.value[1..])
    else command
  }

  // ---------------------------------------------------------------- the round trip

  /** Scanning a text that no escape straddles can be cut anywhere. */
  lemma {:induction false} ScanOne(s: Scan, c: char, text: string)
    requires c != BACKSLASH || s.quoting.InApostrophes?
    ensures ScanText(s, [c] + text) == ScanText(Plain(s, c), text)
  {
    assert ([c] + text)[1..] == text;
  }

  lemma ScanBareOne(parts: seq<string>, part: string, started: bool, c: char, text: string)
    requires IsBare(c)
    ensures ScanText(Scan(parts, part, Outside, started), [c] + text)
         == ScanText(Scan(parts, part + [c], Outside, true), text)
  {
    ScanOne(Scan(parts, part, Outside, started), c, text);
  }

  lemma {:induction false} ScanBare(parts: seq<string>, part: string, started: bool, word: string, text: string)
    requires word != "" && forall k | 0 <= k < |word| :: IsBare(word[k])
    ensures ScanText(Scan(parts, part, Outside, started), word + text)
         == ScanText(Scan(parts, part + word, Outside, true), text)
    decreases |word|
  {
    assert word + text == [word[0]] + (word[1..] + text);
    ScanBareOne(parts, part, started, word[0], word[1..] + text);
    MoveFirst(part, word);
    if |word| == 1 {
      assert word[1..] + text == text;
    } else {
      ScanBare(parts, part + [word[0]], true, word[1..], text);
    }
  }

  // Inside apostrophes, with this much of the word read.
  function Quoted(parts: seq<string>, part: string): Scan {
    Scan(parts, part, InApostrophes, true)
  }

  lemma ScanTwo(s: Scan, c: char, d: char, text: string)
    requires c != BACKSLASH && d != BACKSLASH
    ensures ScanText(s, [c, d] + text) == ScanText(Plain(Plain(s, c), d), text)
  {
    assert [c, d] + text == [c] + ([d] + text);
    ScanOne(s, c, [d] + text);
    ScanOne(Plain(s, c), d, text);
  }

  /** An apostrophe as it is written: out of the quotes, in double quotes, and back in. */
  lemma ScanApostrophe(parts: seq<string>, part: string, text: string)
    ensures ScanText(Quoted(parts, part), "'\"'\"'" + text) == ScanText(Quoted(parts, part + [APOSTROPHE]), text)
  {
    assert "'\"'\"'" + text == ['\'', '"'] + (['\'', '"'] + (['\''] + text));
    ScanTwo(Quoted(parts, part), '\'', '"', ['\'', '"'] + (['\''] + text));
    ScanTwo(Scan(parts, part, InQuotes, true), '\'', '"', ['\''] + text);
    ScanOne(Scan(parts, part + ['\''], Outside, true), '\'', text);
  }

  lemma ScanEscapedOne(parts: seq<string>, part: string, value: string, text: string)
    requires value != ""
    ensures ScanText(Quoted(parts, part), EscapeApostrophes(value) + text)
         == ScanText(Quoted(parts, part + [value[0]]), EscapeApostrophes(value[1..]) + text)
  {
    var c, rest := value[0], EscapeApostrophes(value[1..]) + text;
    if c == APOSTROPHE {
      assert EscapeApostrophes(value) + text == "'\"'\"'" + rest;
      ScanApostrophe(parts, part, rest);
    } else {
      assert EscapeApostrophes(value) + text == [c] + rest;
      ScanOne(Quoted(parts, part), c, rest);
    }
  }

  lemma {:induction false} ScanEscaped(parts: seq<string>, part: string, value: string, text: string)
    ensures ScanText(Quoted(parts, part), EscapeApostrophes(value) + text)
         == ScanText(Quoted(parts, part + value), text)
    decreases |value|
  {
    if value == "" {
      assert EscapeApostrophes(value) + text == text;
      assert part + value == part;
    } else {
      ScanEscapedOne(parts, part, value, text);
      ScanEscaped(parts, part + [value[0]], value[1..], text);
      MoveFirst(part, value);
    }
  }

  lemma ScanQuoted(parts: seq<string>, value: string, text: string)
    ensures ScanText(Between(parts), ShellQuote(value) + text) == ScanText(Scan(parts, value, Outside, true), text)
  {
    if AllBare(value) {
      ScanBare(parts, "", false, value, text);
      assert "" + value == value;
    } else {
      ScanInQuotes(parts, value, text);
      var end := [APOSTROPHE] + text;
      assert ShellQuote(value) + text == [APOSTROPHE] + (EscapeApostrophes(value) + end);
    }
  }

  lemma ScanInQuotes(parts: seq<string>, value: string, text: string)
    ensures ScanText(Between(parts), [APOSTROPHE] + (EscapeApostrophes(value) + ([APOSTROPHE] + text)))
         == ScanText(Scan(parts, value, Outside, true), text)
  {
    ScanOne(Between(parts), APOSTROPHE, EscapeApostrophes(value) + ([APOSTROPHE] + text));
    ScanEscaped(parts, "", value, [APOSTROPHE] + text);
    assert "" + value == value;
    ScanOne(Quoted(parts, value), APOSTROPHE, text);
  }

  // Between words.
  function Between(parts: seq<string>): Scan {
    Scan(parts, "", Outside, false)
  }

  lemma ScanFirstWord(parts: seq<string>, word: string, rest: string)
    ensures ScanText(Between(parts), ShellQuote(word) + ([' '] + rest)) == ScanText(Between(parts + [word]), rest)
  {
    ScanQuoted(parts, word, [' '] + rest);
    ScanOne(Scan(parts, word, Outside, true), ' ', rest);
  }

  lemma ScanLastWord(parts: seq<string>, word: string)
    ensures Finish(ScanText(Between(parts), ShellQuote(word))) == Some(parts + [word])
  {
    ScanQuoted(parts, word, "");
    assert ShellQuote(word) + "" == ShellQuote(word);
  }

  lemma ScanFirstOf(parts: seq<string>, command: seq<string>)
    requires |command| > 1
    ensures ScanText(Between(parts), RenderCommand(command))
         == ScanText(Between(parts + [command[0]]), RenderCommand(command[1..]))
  {
    var first, rest := ShellQuote(command[0]), RenderCommand(command[1..]);
    assert RenderCommand(command) == first + ([' '] + rest);
    ScanFirstWord(parts, command[0], rest);
  }

  lemma ScanLastOf(parts: seq<string>, command: seq<string>)
    requires |command| == 1
    ensures Finish(ScanText(Between(parts), RenderCommand(command))) == Some(parts + command)
  {
    ScanLastWord(parts, command[0]);
    assert command == [command[0]];
  }

  lemma {:induction false} ScanRendered(parts: seq<string>, command: seq<string>)
    requires command != []
    ensures Finish(ScanText(Between(parts), RenderCommand(command))) == Some(parts + command)
    decreases |command|
  {
    if |command| == 1 {
      ScanLastOf(parts, command);
    } else {
      ScanFirstOf(parts, command);
      ScanRendered(parts + [command[0]], command[1..]);
      MoveFirst(parts, command);
    }
  }

  lemma {:induction false} EscapingGrows(value: string)
    ensures |EscapeApostrophes(value)| >= |value|
    decreases |value|
  {
    if value != "" {
      EscapingGrows(value[1..]);
    }
  }

  /** A word is written as it is exactly if it is not empty and holds nothing but letters, digits
      and a few signs that no shell reads; any other stands in apostrophes. */
  lemma QuotesExactlyIfNeeded(value: string)
    ensures ShellQuote(value) == value <==>
              value != ""
              && forall c | c in value ::
                   'A' <= c <= 'Z' || 'a' <= c <= 'z' || '0' <= c <= '9' || c in "_./:@%+=,-"
    ensures ShellQuote(value) == value || (ShellQuote(value)[0] == '\'' && ShellQuote(value)[|ShellQuote(value)| - 1] == '\'')
  {
    EscapingGrows(value);
    assert forall c :: IsBare(c) <==>
        'A' <= c <= 'Z' || 'a' <= c <= 'z' || '0' <= c <= '9' || c in "_./:@%+=,-";
  }

  /** Splitting a rendered command gives back exactly its words: empty words, white space,
      backslashes and both kinds of quote included. */
  lemma RenderRoundTrip(command: seq<string>)
    ensures Parse(RenderCommand(command)) == if command == [] then None else Some(command)
  {
    if command != [] {
      ScanRendered([], command);
      assert [] + command == command;
    }
  }

  /** Rendering what was split means the same command again. */
  lemma ParseRenderParse(text: string)
    requires Parse(text).Some?
    ensures Parse(RenderCommand(Parse(text).value)) == Parse(text)
  {
    RenderRoundTrip(Parse(text).value);
  }

  /** Two different commands never render alike. */
  lemma RenderIsInjective(a: seq<string>, b: seq<string>)
    requires RenderCommand(a) == RenderCommand(b)
    ensures a == b
  {
    RenderRoundTrip(a);
    RenderRoundTrip(b);
  }

  /** Putting the executable in changes the first word of an orca command and nothing else. */
  lemma ResolvedKeepsArguments(command: string, executable: string)
    ensures var parts := Parse(command);
            Parse(RenderResolved(command, executable)) ==
              if parts.Some? && parts.value[0] == "orca" then Some([executable] + parts.value[1..]) else parts
  {
    var parts := Parse(command);
    if parts.Some? && parts.value[0] == "orca" {
      RenderRoundTrip([executable] + parts.value[1..]);
    }
  }
}
