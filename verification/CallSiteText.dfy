/** What the option-key reader is for: source text printed from a call with one object literal,
    and what reading it back yields. */
module CallSiteText {
  import opened Options
  import opened Seqs
  import opened ShellWords
  import opened OptionKeys

  // One character of a string literal, as it is or behind a backslash.
  datatype Unit = One(c: char) | Escaped(c: char)

  /** Balanced source text: plain characters, a slash in front of a plain character, comments,
      string literals and bracketed text. */
  datatype Piece =
    | Word(c: char)
    | Division(c: char)
    | LineComment(text: string)
    | BlockComment(text: string)
    | Literal(kind: State, units: seq<Unit>)
    | Group(left: char, inner: seq<Piece>, right: char)

  function PrintUnit(u: Unit): string {
    if u.One? then [u.c] else ['\\', u.c]
  }

  function PrintUnits(units: seq<Unit>): string {
    if units == [] then "" else PrintUnit(units[0]) + PrintUnits(units[1..])
  }

  function Delimiter(kind: State): char {
    match kind
    case Single => '\''
    case Double => '"'
    case _ => '`'
  }

  function Print(p: Piece): string {
    match p
    case Word(c) => [c]
    case Division(c) => ['/', c]
    case LineComment(text) => "//" + text + "\n"
    case BlockComment(text) => "/*" + text + "*/"
    case Literal(kind, units) => [Delimiter(kind)] + PrintUnits(units) + [Delimiter(kind)]
    case Group(left, inner, right) => [left] + PrintAll(inner) + [right]
  }

  function PrintAll(ps: seq<Piece>): string {
    if ps == [] then "" else Print(ps[0]) + PrintAll(ps[1..])
  }

  predicate PlainChar(c: char) {
    !Opens(c) && !Closes(c) && c !in {'\'', '"', '`', '/'}
  }

  predicate GoodUnits(kind: State, units: seq<Unit>) {
    && (forall u | u in units && u.One? :: u.c != '\\' && !ClosesString(kind, u.c))
    && (kind == Template ==>
          forall k | 0 <= k < |units| - 1 :: !(units[k] == One('$') && units[k + 1] == One('{')))
  }

  predicate Good(p: Piece) {
    match p
    case Word(c) => PlainChar(c)
    case Division(c) => PlainChar(c) && c != '*'
    case LineComment(text) => '\n' !in text
    case BlockComment(text) => NoClose(text)
    case Literal(kind, units) => kind in {Single, Double, Template} && GoodUnits(kind, units)
    case Group(left, inner, right) => Opens(left) && Closes(right) && AllGood(inner)
  }

  predicate AllGood(ps: seq<Piece>) {
    ps == [] || (Good(ps[0]) && AllGood(ps[1..]))
  }

  // ---------------------------------------------------------------- the marks of printed text

  function Pass(n: nat): (marks: seq<Mark>)
    ensures |marks| == n
  {
    if n == 0 then [] else [Passed] + Pass(n - 1)
  }

  lemma {:induction false} PassMore(a: nat, b: nat, marks: seq<Mark>)
    ensures Pass(a) + (Pass(b) + marks) == Pass(a + b) + marks
    decreases a
  {
    if a == 0 {
      Nothing(Pass(b) + marks);
    } else {
      PassMore(a - 1, b, marks);
      Reassociate([Passed], Pass(a - 1), Pass(b) + marks);
      Reassociate([Passed], Pass(a - 1 + b), marks);
    }
  }

  function MarksOf(p: Piece): (marks: seq<Mark>)
    ensures |marks| == |Print(p)|
  {
    match p
    case Word(c) => [Plainly(c)]
    case Division(c) => [Plainly('/'), Plainly(c)]
    case Group(left, inner, right) => [Plainly(left)] + MarksOfAll(inner) + [Plainly(right)]
    case _ => Pass(|Print(p)|)
  }

  function MarksOfAll(ps: seq<Piece>): (marks: seq<Mark>)
    ensures |marks| == |PrintAll(ps)|
  {
    if ps == [] then [] else MarksOf(ps[0]) + MarksOfAll(ps[1..])
  }

  lemma MarksOne(state: State, c: char, text: string)
    ensures var (after, takesNext, mark) := Lex(state, c, if text == "" then None else Some(text[0]));
            (takesNext ==> text != "") ==>
            Marks(state, [c] + text) == if takesNext then [mark, Passed] + Marks(after, text[1..])
                                        else [mark] + Marks(after, text)
  {
    var t := [c] + text;
    assert t[1..] == text;
    if text != "" {
      assert t[2..] == text[1..];
    }
  }

  lemma {:induction false} LineMarks(text: string, rest: string)
    requires '\n' !in text
    ensures Marks(Line, text + "\n" + rest) == Pass(|text| + 1) + Marks(Code, rest)
    decreases |text|
  {
    if text == "" {
      assert text + "\n" + rest == ['\n'] + rest;
      MarksOne(Line, '\n', rest);
    } else {
      SplitFirst(text, "\n", rest);
      MarksOne(Line, text[0], text[1..] + "\n" + rest);
      LineMarks(text[1..], rest);
      Reassociate([Passed], Pass(|text|), Marks(Code, rest));
    }
  }

  /** No end of a block comment inside the text. */
  predicate NoClose(text: string) {
    forall k | 0 <= k < |text| - 1 :: !(text[k] == '*' && text[k + 1] == '/')
  }

  lemma NoCloseRest(text: string, rest: string)
    requires NoClose(text) && text != ""
    ensures NoClose(text[1..])
    ensures var more := text[1..] + "*/" + rest; !(text[0] == '*' && more[0] == '/')
  {
    forall k | 0 <= k < |text[1..]| - 1 ensures !(text[1..][k] == '*' && text[1..][k + 1] == '/') {
      assert !(text[k + 1] == '*' && text[k + 1 + 1] == '/');
    }
    if |text| > 1 {
      assert !(text[0] == '*' && text[0 + 1] == '/');
    }
  }

  lemma {:induction false} BlockMarks(text: string, rest: string)
    requires NoClose(text)
    ensures Marks(Block, text + "*/" + rest) == Pass(|text| + 2) + Marks(Code, rest)
    decreases |text|
  {
    if text == "" {
      assert text + "*/" + rest == ['*'] + (['/'] + rest);
      MarksOne(Block, '*', ['/'] + rest);
      assert (['/'] + rest)[1..] == rest;
    } else {
      var more := text[1..] + "*/" + rest;
      SplitFirst(text, "*/", rest);
      NoCloseRest(text, rest);
      MarksOne(Block, text[0], more);
      BlockMarks(text[1..], rest);
      Reassociate([Passed], Pass(|text| + 1), Marks(Code, rest));
    }
  }

  lemma UnitMarks(kind: State, u: Unit, more: string)
    requires kind in {Single, Double, Template}
    requires u.One? ==> u.c != '\\' && !ClosesString(kind, u.c)
    requires kind == Template && u == One('$') ==> more == "" || more[0] != '{'
    ensures Marks(kind, PrintUnit(u) + more) == Pass(|PrintUnit(u)|) + Marks(kind, more)
  {
    if u.One? {
      MarksOne(kind, u.c, more);
      assert Pass(1) == [Passed];
    } else {
      MarksOne(kind, '\\', [u.c] + more);
      assert PrintUnit(u) + more == ['\\'] + ([u.c] + more);
      assert ([u.c] + more)[1..] == more;
      assert Pass(2) == [Passed, Passed];
    }
  }

  lemma EndOfLiteral(kind: State, more: string)
    requires kind in {Single, Double, Template}
    ensures Marks(kind, [Delimiter(kind)] + more) == [Passed] + Marks(Code, more)
    ensures Marks(Code, [Delimiter(kind)] + more) == [Passed] + Marks(kind, more)
  {
    MarksOne(kind, Delimiter(kind), more);
    MarksOne(Code, Delimiter(kind), more);
  }

  lemma GoodRest(kind: State, units: seq<Unit>)
    requires GoodUnits(kind, units) && units != []
    ensures GoodUnits(kind, units[1..])
  {
    forall k | 0 <= k < |units[1..]| - 1 && kind == Template
      ensures !(units[1..][k] == One('$') && units[1..][k + 1] == One('{'))
    {
      assert !(units[k + 1] == One('$') && units[k + 1 + 1] == One('{'));
    }
  }

  lemma NoHoleAhead(kind: State, units: seq<Unit>, end: string)
    requires GoodUnits(kind, units) && units != [] && end != "" && end[0] == Delimiter(kind)
    ensures kind == Template && units[0] == One('$') ==> (PrintUnits(units[1..]) + end)[0] != '{'
  {
    if |units| > 1 && kind == Template {
      assert !(units[0] == One('$') && units[0 + 1] == One('{'));
    }
  }

  lemma {:induction false} LiteralMarks(kind: State, units: seq<Unit>, rest: string)
    requires kind in {Single, Double, Template} && GoodUnits(kind, units)
    ensures Marks(kind, PrintUnits(units) + ([Delimiter(kind)] + rest))
         == Pass(|PrintUnits(units)|) + ([Passed] + Marks(Code, rest))
    decreases |units|
  {
    var end := [Delimiter(kind)] + rest;
    if units == [] {
      Nothing(end);
      EndOfLiteral(kind, rest);
      Nothing([Passed] + Marks(Code, rest));
    } else {
      var u, others := units[0], PrintUnits(units[1..]);
      assert u in units;
      GoodRest(kind, units);
      LiteralMarks(kind, units[1..], rest);
      Reassociate(PrintUnit(u), others, end);
      NoHoleAhead(kind, units, end);
      UnitMarks(kind, u, others + end);
      PassMore(|PrintUnit(u)|, |others|, [Passed] + Marks(Code, rest));
    }
  }

  lemma CommentStarts(more: string)
    ensures Marks(Code, "//" + more) == [Passed, Passed] + Marks(Line, more)
    ensures Marks(Code, "/*" + more) == [Passed, Passed] + Marks(Block, more)
  {
    assert "//" + more == ['/'] + (['/'] + more);
    assert "/*" + more == ['/'] + (['*'] + more);
    MarksOne(Code, '/', ['/'] + more);
    MarksOne(Code, '/', ['*'] + more);
    assert (['/'] + more)[1..] == more && (['*'] + more)[1..] == more;
  }

  lemma LineCommentMarks(text: string, rest: string)
    requires '\n' !in text
    ensures Marks(Code, "//" + text + "\n" + rest) == Pass(|text| + 3) + Marks(Code, rest)
  {
    assert "//" + text + "\n" + rest == "//" + (text + "\n" + rest);
    CommentStarts(text + "\n" + rest);
    LineMarks(text, rest);
    assert Pass(2) == [Passed, Passed];
    PassMore(2, |text| + 1, Marks(Code, rest));
  }

  lemma BlockCommentMarks(text: string, rest: string)
    requires NoClose(text)
    ensures Marks(Code, "/*" + text + "*/" + rest) == Pass(|text| + 4) + Marks(Code, rest)
  {
    assert "/*" + text + "*/" + rest == "/*" + (text + "*/" + rest);
    CommentStarts(text + "*/" + rest);
    BlockMarks(text, rest);
    assert Pass(2) == [Passed, Passed];
    PassMore(2, |text| + 2, Marks(Code, rest));
  }

  lemma QuotedMarks(kind: State, units: seq<Unit>, rest: string)
    requires kind in {Single, Double, Template} && GoodUnits(kind, units)
    ensures Marks(Code, Print(Literal(kind, units)) + rest) == Pass(|Print(Literal(kind, units))|) + Marks(Code, rest)
  {
    var q := Delimiter(kind);
    var n := |PrintUnits(units)|;
    var more := PrintUnits(units) + ([q] + rest);
    assert Print(Literal(kind, units)) + rest == [q] + more;
    EndOfLiteral(kind, more);
    LiteralMarks(kind, units, rest);
    assert Pass(1) == [Passed];
    PassMore(n, 1, Marks(Code, rest));
    PassMore(1, n + 1, Marks(Code, rest));
  }

  lemma CodeMarks(c: char, rest: string)
    requires c !in {'\'', '"', '`'} && (c == '/' ==> rest == "" || rest[0] !in {'/', '*'})
    ensures Marks(Code, [c] + rest) == [Plainly(c)] + Marks(Code, rest)
  {
    MarksOne(Code, c, rest);
  }

  lemma DivisionMarks(c: char, rest: string)
    requires Good(Division(c))
    ensures Marks(Code, ['/', c] + rest) == [Plainly('/'), Plainly(c)] + Marks(Code, rest)
  {
    Reassociate(['/'], [c], rest);
    CodeMarks('/', [c] + rest);
    CodeMarks(c, rest);
    Reassociate([Plainly('/')], [Plainly(c)], Marks(Code, rest));
  }

  lemma GroupMarks(left: char, inner: seq<Piece>, right: char, rest: string)
    requires Opens(left) && Closes(right)
    requires Marks(Code, PrintAll(inner) + ([right] + rest)) == MarksOfAll(inner) + Marks(Code, [right] + rest)
    ensures Marks(Code, [left] + PrintAll(inner) + [right] + rest)
         == [Plainly(left)] + MarksOfAll(inner) + [Plainly(right)] + Marks(Code, rest)
  {
    FromFirst([left], PrintAll(inner), [right], rest);
    CodeMarks(left, PrintAll(inner) + ([right] + rest));
    CodeMarks(right, rest);
    FromFirst([Plainly(left)], MarksOfAll(inner), [Plainly(right)], Marks(Code, rest));
  }

  /** Good text is read as code in the brackets it has, and leaves the scanner in code. */
  lemma {:induction false} PrintedMarks(p: Piece, rest: string)
    requires Good(p)
    ensures Marks(Code, Print(p) + rest) == MarksOf(p) + Marks(Code, rest)
    decreases p, 0
  {
    match p
    case Word(c) => CodeMarks(c, rest);
    case Division(c) => DivisionMarks(c, rest);
    case LineComment(text) => LineCommentMarks(text, rest);
    case BlockComment(text) => BlockCommentMarks(text, rest);
    case Literal(kind, units) => QuotedMarks(kind, units, rest);
    case Group(left, inner, right) =>
      AllPrintedMarks(inner, [right] + rest);
      GroupMarks(left, inner, right, rest);
  }

  lemma {:induction false} AllPrintedMarks(ps: seq<Piece>, rest: string)
    requires AllGood(ps)
    ensures Marks(Code, PrintAll(ps) + rest) == MarksOfAll(ps) + Marks(Code, rest)
    decreases ps, 1
  {
    if ps == [] {
      assert PrintAll(ps) + rest == rest;
    } else {
      Reassociate(Print(ps[0]), PrintAll(ps[1..]), rest);
      PrintedMarks(ps[0], PrintAll(ps[1..]) + rest);
      AllPrintedMarks(ps[1..], rest);
      Reassociate(MarksOf(ps[0]), MarksOfAll(ps[1..]), Marks(Code, rest));
    }
  }

  // ---------------------------------------------------------------- balancing

  lemma {:induction false} ClosePassed(n: nat, marks: seq<Mark>, depth: nat)
    ensures CloseAt(Pass(n) + marks, depth) == Later(CloseAt(marks, depth), n)
    decreases n
  {
    if n == 0 {
      assert Pass(n) + marks == marks;
    } else {
      assert (Pass(n) + marks)[1..] == Pass(n - 1) + marks;
      ClosePassed(n - 1, marks, depth);
    }
  }

  lemma CloseOne(c: char, marks: seq<Mark>, depth: nat)
    requires Closes(c) ==> depth >= 2
    ensures CloseAt([Plainly(c)] + marks, depth) == Later(CloseAt(marks, Deeper(Plainly(c), depth)), 1)
  {
    assert ([Plainly(c)] + marks)[1..] == marks;
  }

  lemma CloseGroup(left: char, body: seq<Mark>, right: char, marks: seq<Mark>, depth: nat)
    requires Opens(left) && Closes(right)
    requires var tail := [Plainly(right)] + marks;
             CloseAt(body + tail, depth + 1) == Later(CloseAt(tail, depth + 1), |body|)
    ensures CloseAt([Plainly(left)] + body + [Plainly(right)] + marks, depth) ==
              if depth == 0 then Some(1 + |body|) else Later(CloseAt(marks, depth), |body| + 2)
  {
    var tail := [Plainly(right)] + marks;
    FromFirst([Plainly(left)], body, [Plainly(right)], marks);
    CloseOne(left, body + tail, depth);
    if depth > 0 {
      CloseOne(right, marks, depth + 1);
    }
  }

  lemma {:induction false} CloseOver(p: Piece, marks: seq<Mark>, depth: nat)
    requires Good(p) && depth >= 1
    ensures CloseAt(MarksOf(p) + marks, depth) == Later(CloseAt(marks, depth), |MarksOf(p)|)
    decreases p, 0
  {
    match p
    case Word(c) => CloseOne(c, marks, depth);
    case Division(c) => CloseDivision(c, marks, depth);
    case Group(left, inner, right) =>
      CloseOverAll(inner, [Plainly(right)] + marks, depth + 1);
      CloseGroup(left, MarksOfAll(inner), right, marks, depth);
    case _ => ClosePassed(|Print(p)|, marks, depth);
  }

  lemma CloseDivision(c: char, marks: seq<Mark>, depth: nat)
    requires !Closes(c) && !Opens(c)
    ensures CloseAt([Plainly('/'), Plainly(c)] + marks, depth) == Later(CloseAt(marks, depth), 2)
  {
    Reassociate([Plainly('/')], [Plainly(c)], marks);
    CloseOne('/', [Plainly(c)] + marks, depth);
    CloseOne(c, marks, depth);
  }

  lemma {:induction false} CloseOverAll(ps: seq<Piece>, marks: seq<Mark>, depth: nat)
    requires AllGood(ps) && depth >= 1
    ensures CloseAt(MarksOfAll(ps) + marks, depth) == Later(CloseAt(marks, depth), |MarksOfAll(ps)|)
    decreases ps, 1
  {
    if ps == [] {
      assert MarksOfAll(ps) + marks == marks;
    } else {
      Reassociate(MarksOf(ps[0]), MarksOfAll(ps[1..]), marks);
      CloseOver(ps[0], MarksOfAll(ps[1..]) + marks, depth);
      CloseOverAll(ps[1..], marks, depth);
    }
  }

  /** Whatever balanced text the parentheses hold, and whatever follows, the argument list is
      cut out exactly. */
  lemma BalancedCutsExactly(ps: seq<Piece>, rest: string)
    requires AllGood(ps)
    ensures Balanced("(" + PrintAll(ps) + ")" + rest) == Some(PrintAll(ps))
  {
    var text := "(" + PrintAll(ps) + ")" + rest;
    GroupCloses(ps, rest);
    assert text[1..1 + |PrintAll(ps)|] == PrintAll(ps);
  }

  lemma ParenthesisMarks(ps: seq<Piece>, rest: string)
    requires AllGood(ps)
    ensures Marks(Code, "(" + PrintAll(ps) + ")" + rest)
         == [Plainly('(')] + MarksOfAll(ps) + [Plainly(')')] + Marks(Code, rest)
  {
    var group := Group('(', ps, ')');
    assert Print(group) + rest == "(" + PrintAll(ps) + ")" + rest;
    PrintedMarks(group, rest);
  }

  lemma GroupCloses(ps: seq<Piece>, rest: string)
    requires AllGood(ps)
    ensures CloseAt(Marks(Code, "(" + PrintAll(ps) + ")" + rest), 0) == Some(1 + |PrintAll(ps)|)
  {
    ParenthesisMarks(ps, rest);
    ClosesWhole(ps, Marks(Code, rest));
  }

  lemma ClosesWhole(ps: seq<Piece>, marks: seq<Mark>)
    requires AllGood(ps)
    ensures CloseAt([Plainly('(')] + MarksOfAll(ps) + [Plainly(')')] + marks, 0) == Some(1 + |PrintAll(ps)|)
  {
    CloseOverAll(ps, [Plainly(')')] + marks, 1);
    CloseGroup('(', MarksOfAll(ps), ')', marks, 0);
  }
}
