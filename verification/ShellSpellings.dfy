/** Every way to spell a command line: what the splitter takes for a word, and that it takes
    nothing else. */
module ShellSpellings {
  import opened Options
  import opened Seqs
  import opened ShellWords

  /** Inside double quotes: a character that stands for itself, or one behind a backslash. */
  datatype Inner = Literal(c: char) | Behind(c: char)

  /** A piece of a command line: white space, a character as it is, one behind a backslash, a
      stretch in apostrophes or one in double quotes. */
  datatype Piece = Space(c: char) | Bare(c: char) | Escaped(c: char) | Apostrophes(text: string) | Quotes(inner: seq<Inner>)

  // ---------------------------------------------------------------- how pieces are written

  function PrintInner(inner: seq<Inner>): string {
    if inner == [] then ""
    else (if inner[0].Behind? then ['\\', inner[0].c] else [inner[0].c]) + PrintInner(inner[1..])
  }

  function PrintPiece(piece: Piece): string {
    match piece
    case Space(c) => [c]
    case Bare(c) => [c]
    case Escaped(c) => ['\\', c]
    case Apostrophes(text) => ['\''] + text + ['\'']
    case Quotes(inner) => ['"'] + PrintInner(inner) + ['"']
  }

  function Print(pieces: seq<Piece>): string {
    if pieces == [] then "" else PrintPiece(pieces[0]) + Print(pieces[1..])
  }

  /** A backslash inside double quotes stands for itself unless a quote or a backslash follows,
      the closing quote included; those two can stand behind one. */
  predicate InnerWritable(inner: seq<Inner>) {
    inner == []
    || (InnerFits(inner[0], PrintInner(inner[1..]) + ['"']) && InnerWritable(inner[1..]))
  }

  predicate InnerFits(one: Inner, after: string)
    requires after != ""
  {
    match one
    case Literal(c) => c != '"' && (c == '\\' ==> after[0] !in {'"', '\\'})
    case Behind(c) => c in {'"', '\\'}
  }

  /** Outside quotes a backslash stands for itself unless a space, a backslash or a quote follows;
      only those can stand behind one. Nothing is special inside apostrophes but their end. */
  predicate Fits(piece: Piece, after: string) {
    match piece
    case Space(c) => IsSpace(c)
    case Bare(c) =>
      !IsSpace(c) && c !in {'\'', '"'} && (c == '\\' && after != "" ==> after[0] !in {' ', '\\', '\'', '"'})
    case Escaped(c) => c in {' ', '\\', '\'', '"'}
    case Apostrophes(text) => '\'' !in text
    case Quotes(inner) => InnerWritable(inner)
  }

  predicate Writable(pieces: seq<Piece>) {
    pieces == [] || (Fits(pieces[0], Print(pieces[1..])) && Writable(pieces[1..]))
  }

  // ---------------------------------------------------------------- what pieces mean

  function InnerValue(inner: seq<Inner>): string {
    if inner == [] then "" else [inner[0].c] + InnerValue(inner[1..])
  }

  function Value(piece: Piece): string
    requires !piece.Space?
  {
    match piece
    case Bare(c) => [c]
    case Escaped(c) => [c]
    case Apostrophes(text) => text
    case Quotes(inner) => InnerValue(inner)
  }

  function Begun(word: Option<string>): string {
    if word.Some? then word.value else ""
  }

  function Finished(word: Option<string>): seq<string> {
    if word.Some? then [word.value] else []
  }

  /** The words between white space; `word` is the one begun before these pieces, if any. A word
      of empty quotes is a word. */
  function Words(word: Option<string>, pieces: seq<Piece>): seq<string>
    decreases |pieces|
  {
    if pieces == [] then Finished(word)
    else if pieces[0].Space? then Finished(word) + Words(None, pieces[1..])
    else Words(Some(Begun(word) + Value(pieces[0])), pieces[1..])
  }

  ghost predicate Spells(text: string, words: seq<string>) {
    exists pieces {:trigger Print(pieces)} :: Writable(pieces) && Print(pieces) == text && Words(None, pieces) == words
  }

  // ---------------------------------------------------------------- spellings are read

  lemma ScanEscape(s: Scan, c: char, text: string)
    requires Escapes(s.quoting, '\\', Some(c))
    ensures ScanText(s, ['\\', c] + text) == ScanText(s.(part := s.part + [c], started := true), text)
  {
    var whole := ['\\', c] + text;
    assert Next(whole, 0) == Some(c) && whole[2..] == text;
  }

  lemma ScanPlain(s: Scan, c: char, text: string)
    requires !Escapes(s.quoting, c, if text == "" then None else Some(text[0]))
    ensures ScanText(s, [c] + text) == ScanText(Plain(s, c), text)
  {
    var whole := [c] + text;
    assert Next(whole, 0) == if text == "" then None else Some(text[0]);
    assert whole[1..] == text;
  }

  lemma {:induction false} ScanApostrophes(parts: seq<string>, part: string, text: string, after: string)
    requires '\'' !in text
    ensures ScanText(Scan(parts, part, InApostrophes, true), text + after)
         == ScanText(Scan(parts, part + text, InApostrophes, true), after)
    decreases |text|
  {
    if text == "" {
      assert text + after == after && part + text == part;
    } else {
      assert text + after == [text[0]] + (text[1..] + after);
      ScanPlain(Scan(parts, part, InApostrophes, true), text[0], text[1..] + after);
      ScanApostrophes(parts, part + [text[0]], text[1..], after);
      MoveFirst(part, text);
    }
  }

  lemma FirstStays(rest: string, after: string)
    ensures (rest + ['"'])[0] == (rest + (['"'] + after))[0]
  {}

  /** One character inside double quotes. */
  lemma ScanInnerOne(parts: seq<string>, part: string, inner: seq<Inner>, after: string)
    requires inner != [] && InnerFits(inner[0], PrintInner(inner[1..]) + ['"'])
    ensures ScanText(Scan(parts, part, InQuotes, true), PrintInner(inner) + (['"'] + after))
         == ScanText(Scan(parts, part + [inner[0].c], InQuotes, true), PrintInner(inner[1..]) + (['"'] + after))
  {
    var s, c, rest := Scan(parts, part, InQuotes, true), inner[0].c, PrintInner(inner[1..]);
    var follows := rest + (['"'] + after);
    if inner[0].Behind? {
      Reassociate(['\\', c], rest, ['"'] + after);
      ScanEscape(s, c, follows);
    } else {
      Reassociate([c], rest, ['"'] + after);
      FirstStays(rest, after);
      ScanPlain(s, c, follows);
    }
  }

  lemma {:induction false} ScanInner(parts: seq<string>, part: string, inner: seq<Inner>, after: string)
    requires InnerWritable(inner)
    ensures ScanText(Scan(parts, part, InQuotes, true), PrintInner(inner) + (['"'] + after))
         == ScanText(Scan(parts, part + InnerValue(inner), InQuotes, true), ['"'] + after)
    decreases |inner|
  {
    if inner == [] {
      Nothing(['"'] + after);
      Nothing(part);
    } else {
      ScanInnerOne(parts, part, inner, after);
      ScanInner(parts, part + [inner[0].c], inner[1..], after);
      Reassociate(part, [inner[0].c], InnerValue(inner[1..]));
    }
  }

  lemma ScanApostrophePiece(parts: seq<string>, part: string, started: bool, text: string, after: string)
    requires '\'' !in text
    ensures ScanText(Scan(parts, part, Outside, started), ['\''] + (text + (['\''] + after)))
         == ScanText(Scan(parts, part + text, Outside, true), after)
  {
    ScanPlain(Scan(parts, part, Outside, started), '\'', text + (['\''] + after));
    ScanApostrophes(parts, part, text, ['\''] + after);
    ScanPlain(Scan(parts, part + text, InApostrophes, true), '\'', after);
  }

  lemma ScanQuotesPiece(parts: seq<string>, part: string, started: bool, inner: seq<Inner>, after: string)
    requires InnerWritable(inner)
    ensures ScanText(Scan(parts, part, Outside, started), ['"'] + (PrintInner(inner) + (['"'] + after)))
         == ScanText(Scan(parts, part + InnerValue(inner), Outside, true), after)
  {
    ScanPlain(Scan(parts, part, Outside, started), '"', PrintInner(inner) + (['"'] + after));
    ScanInner(parts, part, inner, after);
    ScanPlain(Scan(parts, part + InnerValue(inner), InQuotes, true), '"', after);
  }

  lemma Enclosed(open: char, text: string, after: string)
    ensures [open] + text + [open] + after == [open] + (text + ([open] + after))
  {
    FromFirst([open], text, [open], after);
  }

  /** One piece, in whatever it stands. */
  lemma ScanPiece(parts: seq<string>, part: string, started: bool, piece: Piece, after: string)
    requires Fits(piece, after) && !piece.Space?
    ensures ScanText(Scan(parts, part, Outside, started), PrintPiece(piece) + after)
         == ScanText(Scan(parts, part + Value(piece), Outside, true), after)
  {
    match piece
    case Bare(c) => ScanPlain(Scan(parts, part, Outside, started), c, after);
    case Escaped(c) => ScanEscape(Scan(parts, part, Outside, started), c, after);
    case Apostrophes(text) =>
      Enclosed('\'', text, after);
      ScanApostrophePiece(parts, part, started, text, after);
    case Quotes(inner) =>
      Enclosed('"', PrintInner(inner), after);
      ScanQuotesPiece(parts, part, started, inner, after);
  }

  // The scan between pieces.
  function At(parts: seq<string>, word: Option<string>): Scan {
    Scan(parts, Begun(word), Outside, word.Some?)
  }

  lemma ScanSpace(parts: seq<string>, word: Option<string>, c: char, after: string)
    requires IsSpace(c)
    ensures ScanText(At(parts, word), [c] + after) == ScanText(At(parts + Finished(word), None), after)
  {
    ScanPlain(At(parts, word), c, after);
    Nothing(parts);
  }

  function AllParts(s: Scan): seq<string> {
    if s.started then s.parts + [s.part] else s.parts
  }

  lemma {:induction false} ScanPieces(parts: seq<string>, word: Option<string>, pieces: seq<Piece>)
    requires Writable(pieces)
    ensures ScanText(At(parts, word), Print(pieces)).quoting == Outside
    ensures AllParts(ScanText(At(parts, word), Print(pieces))) == parts + Words(word, pieces)
    decreases |pieces|
  {
    if pieces == [] {
      Nothing(parts);
    } else if pieces[0].Space? {
      ScanSpace(parts, word, pieces[0].c, Print(pieces[1..]));
      ScanPieces(parts + Finished(word), None, pieces[1..]);
      Reassociate(parts, Finished(word), Words(None, pieces[1..]));
    } else {
      ScanPiece(parts, Begun(word), word.Some?, pieces[0], Print(pieces[1..]));
      ScanPieces(parts, Some(Begun(word) + Value(pieces[0])), pieces[1..]);
    }
  }

  // ---------------------------------------------------------------- what is read is a spelling

  /** Open apostrophes that are closed later hold a stretch without apostrophes. */
  lemma {:induction false} ReadApostrophes(s: Scan, text: string) returns (inside: string, rest: string, after: Scan)
    requires s.quoting.InApostrophes? && ScanText(s, text).quoting == Outside
    ensures '\'' !in inside && text == inside + (['\''] + rest)
    ensures after.quoting == Outside && ScanText(s, text) == ScanText(after, rest)
    decreases |text|
  {
    var c := text[0];
    if c == '\'' {
      inside, rest, after := "", text[1..], Plain(s, c);
    } else {
      inside, rest, after := ReadApostrophes(Plain(s, c), text[1..]);
      inside := [c] + inside;
      assert text == [c] + text[1..];
    }
  }

  /** Open double quotes that are closed later hold characters as they are or behind a backslash. */
  lemma {:induction false} ReadInner(s: Scan, text: string) returns (inner: seq<Inner>, rest: string, after: Scan)
    requires s.quoting.InQuotes? && ScanText(s, text).quoting == Outside
    ensures InnerWritable(inner) && text == PrintInner(inner) + (['"'] + rest)
    ensures after.quoting == Outside && ScanText(s, text) == ScanText(after, rest)
    decreases |text|
  {
    var c := text[0];
    assert text == [c] + text[1..];
    if Escapes(s.quoting, c, Next(text, 0)) {
      var others;
      others, rest, after := ReadInner(s.(part := s.part + [text[1]], started := true), text[2..]);
      inner := [Behind(text[1])] + others;
      assert text == ['\\', text[1]] + text[2..];
      assert inner[1..] == others;
      Reassociate(['\\', text[1]], PrintInner(others), ['"'] + rest);
    } else if c == '"' {
      inner, rest, after := [], text[1..], Plain(s, c);
      Nothing(['"'] + rest);
    } else {
      var others;
      others, rest, after := ReadInner(Plain(s, c), text[1..]);
      inner := [Literal(c)] + others;
      assert inner[1..] == others;
      Reassociate([c], PrintInner(others), ['"'] + rest);
      assert text[1] == (PrintInner(others) + ['"'])[0];
    }
  }

  lemma PutBefore(piece: Piece, pieces: seq<Piece>) returns (all: seq<Piece>)
    requires Writable(pieces) && Fits(piece, Print(pieces))
    ensures Writable(all) && Print(all) == PrintPiece(piece) + Print(pieces)
  {
    all := [piece] + pieces;
    assert all[1..] == pieces;
  }

  lemma FirstOf(text: string)
    requires text != ""
    ensures text == [text[0]] + text[1..]
    ensures |text| > 1 ==> text == [text[0], text[1]] + text[2..]
  {}

  /** The piece a text begins with. */
  lemma ReadPiece(s: Scan, text: string) returns (piece: Piece, rest: string, after: Scan)
    requires s.quoting == Outside && text != "" && ScanText(s, text).quoting == Outside
    ensures Fits(piece, rest) && text == PrintPiece(piece) + rest
    ensures after.quoting == Outside && ScanText(s, text) == ScanText(after, rest)
  {
    var c := text[0];
    FirstOf(text);
    if Escapes(s.quoting, c, Next(text, 0)) {
      piece, rest, after := Escaped(text[1]), text[2..], s.(part := s.part + [text[1]], started := true);
    } else if c == '\'' {
      var inside;
      inside, rest, after := ReadApostrophes(Plain(s, c), text[1..]);
      piece := Apostrophes(inside);
      Enclosed(c, inside, rest);
    } else if c == '"' {
      var inner;
      inner, rest, after := ReadInner(Plain(s, c), text[1..]);
      piece := Quotes(inner);
      Enclosed(c, PrintInner(inner), rest);
    } else {
      piece, rest, after := if IsSpace(c) then Space(c) else Bare(c), text[1..], Plain(s, c);
    }
  }

  /** Every text whose quotes are closed is a spelling of something. */
  lemma {:induction false} ReadPieces(s: Scan, text: string) returns (pieces: seq<Piece>)
    requires s.quoting == Outside && ScanText(s, text).quoting == Outside
    ensures Writable(pieces) && Print(pieces) == text
    decreases |text|
  {
    if text == "" { return []; }
    var piece, rest, after := ReadPiece(s, text);
    pieces := ReadPieces(after, rest);
    pieces := PutBefore(piece, pieces);
  }

  /** The splitter reads exactly the spellings: a text splits into these words if and only if it
      spells them, in any mixture of bare characters, backslashes and both kinds of quotes, and
      there is a word. Nothing else splits at all. */
  lemma SplitsExactlySpellings(text: string, words: seq<string>)
    ensures Parse(text) == Some(words) <==> words != [] && Spells(text, words)
  {
    if Spells(text, words) {
      var pieces :| Writable(pieces) && Print(pieces) == text && Words(None, pieces) == words;
      ScanPieces([], None, pieces);
      Nothing(words);
    }
    if Parse(text) == Some(words) {
      var pieces := ReadPieces(START, text);
      ScanPieces([], None, pieces);
      Nothing(Words(None, pieces));
      assert Print(pieces) == text;
    }
  }

  /** And it gives up exactly on a text that spells no word: white space only, or open quotes. */
  lemma GivesUpExactlyWithoutWords(text: string)
    ensures Parse(text).None? <==> forall words | Spells(text, words) :: words == []
  {
    forall words | Spells(text, words) ensures Parse(text) == Some(words) || words == [] {
      SplitsExactlySpellings(text, words);
    }
    if Parse(text).Some? {
      SplitsExactlySpellings(text, Parse(text).value);
    }
  }
}
