/** Why a call's options cannot be read: the argument list that never closes, the missing options
    and the options that are no object literal. */
module CallSiteReasons {
  import opened Options
  import opened Seqs
  import opened ShellWords
  import opened OptionKeys
  import opened CallSiteText
  import opened ObjectLiterals

  // ---------------------------------------------------------------- closed argument lists

  /** A call whose parentheses hold balanced text: with nothing but white space in them there are
      no options; otherwise, white space around it aside, the text must begin and end with a
      brace. */
  lemma ReadsOtherArguments(
    callee: string, args: seq<Piece>, before: string, core: string, after: string, rest: string)
    requires AllGood(args) && PrintAll(args) == before + core + after
    requires Blank(before) && Blank(after)
    requires core != "" ==> !IsSpace(core[0]) && !IsSpace(core[|core| - 1])
    ensures var result := Read(callee + ("(" + PrintAll(args) + ")" + rest), |callee|);
            && (core == "" <==> result == Unreadable(NoOptions))
            && (result == Unreadable(NotAnObjectLiteral) <==>
                  core != "" && !(core[0] == '{' && core[|core| - 1] == '}'))
            && result != Unreadable(NeverCloses)
  {
    var call := "(" + PrintAll(args) + ")" + rest;
    assert (callee + call)[|callee|..] == call;
    BalancedCutsExactly(args, rest);
    TrimExact(before, core, after);
  }

  /** An unreadable key is reported by the first there is. */
  lemma {:induction false} FirstUnreadableIsFirst(keys: seq<string>)
    requires FirstUnreadable(keys).Some?
    ensures exists k :: 0 <= k < |keys| && keys[k] == FirstUnreadable(keys).value && !Identifier(keys[k])
                   && forall j | 0 <= j < k :: Identifier(keys[j])
    decreases |keys|
  {
    if Identifier(keys[0]) {
      FirstUnreadableIsFirst(keys[1..]);
      var k :| 0 <= k < |keys[1..]| && keys[1..][k] == FirstUnreadable(keys[1..]).value && !Identifier(keys[1..][k])
               && forall j | 0 <= j < k :: Identifier(keys[1..][j]);
      assert forall j | 0 < j < k + 1 :: keys[j] == keys[1..][j - 1];
      assert keys[k + 1] == keys[1..][k];
    }
  }

  // ---------------------------------------------------------------- argument lists that stay open

  /** Balanced text and then a bracket that is not closed. */
  datatype Level = Level(before: seq<Piece>, left: char)

  function PrintLevels(levels: seq<Level>): string {
    if levels == [] then "" else PrintAll(levels[0].before) + ([levels[0].left] + PrintLevels(levels[1..]))
  }

  function MarksOfLevels(levels: seq<Level>): seq<Mark> {
    if levels == [] then []
    else MarksOfAll(levels[0].before) + ([Plainly(levels[0].left)] + MarksOfLevels(levels[1..]))
  }

  predicate GoodLevels(levels: seq<Level>) {
    forall level | level in levels :: AllGood(level.before) && Opens(level.left)
  }

  lemma {:induction false} LevelMarks(levels: seq<Level>, rest: string)
    requires GoodLevels(levels)
    ensures Marks(Code, PrintLevels(levels) + rest) == MarksOfLevels(levels) + Marks(Code, rest)
    decreases |levels|
  {
    if levels == [] {
      Nothing(rest);
      Nothing(Marks(Code, rest));
    } else {
      var level, more := levels[0], PrintLevels(levels[1..]);
      assert level in levels;
      LevelMarks(levels[1..], rest);
      Reassociate(PrintAll(level.before), [level.left] + more, rest);
      Reassociate([level.left], more, rest);
      AllPrintedMarks(level.before, [level.left] + (more + rest));
      CodeMarks(level.left, more + rest);
      Reassociate([Plainly(level.left)], MarksOfLevels(levels[1..]), Marks(Code, rest));
      Reassociate(MarksOfAll(level.before), [Plainly(level.left)] + MarksOfLevels(levels[1..]), Marks(Code, rest));
    }
  }

  /** The depth goes up by one with every level. */
  lemma {:induction false} LevelsStayOpen(levels: seq<Level>, marks: seq<Mark>, depth: nat)
    requires GoodLevels(levels) && (depth == 0 ==> levels != [] && levels[0].before == [])
    requires CloseAt(marks, depth + |levels|) == None
    ensures CloseAt(MarksOfLevels(levels) + marks, depth) == None
    decreases |levels|
  {
    if levels == [] {
      Nothing(marks);
    } else {
      var level, more := levels[0], MarksOfLevels(levels[1..]) + marks;
      assert level in levels;
      LevelsStayOpen(levels[1..], marks, depth + 1);
      Reassociate([Plainly(level.left)], MarksOfLevels(levels[1..]), marks);
      Reassociate(MarksOfAll(level.before), [Plainly(level.left)] + MarksOfLevels(levels[1..]), marks);
      CloseOne(level.left, more, depth);
      if depth == 0 {
        Nothing([Plainly(level.left)] + more);
      } else {
        CloseOverAll(level.before, [Plainly(level.left)] + more, depth);
      }
    }
  }

  /** What ends a text while brackets are open: nothing more; an open string, perhaps with a
      backslash for its last character; an open comment; or a template hole, behind which nothing
      is looked at. */
  datatype Ending =
    | AtOnce
    | OpenString(kind: State, units: seq<Unit>, backslash: bool)
    | OpenLine(text: string)
    | OpenBlock(text: string)
    | TemplateHole(units: seq<Unit>, more: string)

  predicate GoodEnding(ending: Ending) {
    match ending
    case AtOnce => true
    case OpenString(kind, units, _) => kind in {Single, Double, Template} && GoodUnits(kind, units)
    case OpenLine(text) => '\n' !in text
    case OpenBlock(text) => NoClose(text)
    case TemplateHole(units, _) => GoodUnits(Template, units)
  }

  function PrintEnding(ending: Ending): string {
    match ending
    case AtOnce => ""
    case OpenString(kind, units, backslash) =>
      [Delimiter(kind)] + (PrintUnits(units) + (if backslash then "\\" else ""))
    case OpenLine(text) => "//" + text
    case OpenBlock(text) => "/*" + text
    case TemplateHole(units, more) => [Delimiter(Template)] + (PrintUnits(units) + ("${" + more))
  }

  lemma NoHoleYet(units: seq<Unit>, more: string)
    requires GoodUnits(Template, units) && units != [] && (more != "" ==> more[0] != '{')
    ensures var rest := PrintUnits(units[1..]) + more;
            units[0] == One('$') ==> rest == "" || rest[0] != '{'
  {
    if |units| > 1 {
      assert !(units[0] == One('$') && units[0 + 1] == One('{'));
    }
  }

  /** String characters up to anything but the brace of a hole. */
  lemma {:induction false} UnitsOver(kind: State, units: seq<Unit>, more: string)
    requires kind in {Single, Double, Template} && GoodUnits(kind, units) && (more != "" ==> more[0] != '{')
    ensures Marks(kind, PrintUnits(units) + more) == Pass(|PrintUnits(units)|) + Marks(kind, more)
    decreases |units|
  {
    if units == [] {
      Nothing(more);
      Nothing(Marks(kind, more));
    } else {
      var u, others := units[0], PrintUnits(units[1..]);
      assert u in units;
      GoodRest(kind, units);
      UnitsOver(kind, units[1..], more);
      Reassociate(PrintUnit(u), others, more);
      if kind == Template {
        NoHoleYet(units, more);
      }
      UnitMarks(kind, u, others + more);
      PassMore(|PrintUnit(u)|, |others|, Marks(kind, more));
    }
  }

  lemma {:induction false} LineStaysOpen(text: string)
    requires '\n' !in text
    ensures Marks(Line, text) == Pass(|text|)
    decreases |text|
  {
    if text != "" {
      assert text[0] in text && forall c | c in text[1..] :: c in text;
      LineStaysOpen(text[1..]);
    }
  }

  lemma {:induction false} BlockStaysOpen(text: string)
    requires NoClose(text)
    ensures Marks(Block, text) == Pass(|text|)
    decreases |text|
  {
    if text != "" {
      NoCloseRest(text, "");
      if |text| > 1 {
        assert !(text[0] == '*' && text[0 + 1] == '/');
      }
      BlockStaysOpen(text[1..]);
    }
  }

  lemma BackslashMarks(kind: State, backslash: bool)
    requires kind in {Single, Double, Template}
    ensures var more := if backslash then "\\" else "";
            Marks(kind, more) == Pass(|more|)
  {
    if backslash {
      MarksOne(kind, '\\', "");
      assert Pass(1) == [Passed];
    }
  }

  lemma HoleMark(more: string)
    ensures Marks(Template, "${" + more) == [Hole] + Marks(Template, "{" + more)
  {
    assert "${" + more == ['$'] + ("{" + more);
    MarksOne(Template, '$', "{" + more);
  }

  lemma NeverClosed(n: nat, depth: nat)
    ensures CloseAt(Pass(n), depth) == None
  {
    ClosePassed(n, [], depth);
    Nothing(Pass(n));
  }

  lemma HoleNeverCloses(n: nat, marks: seq<Mark>, depth: nat)
    ensures CloseAt(Pass(n) + ([Hole] + marks), depth) == None
  {
    ClosePassed(n, [Hole] + marks, depth);
  }

  lemma CommentStaysOpen(text: string, block: bool)
    requires if block then NoClose(text) else '\n' !in text
    ensures Marks(Code, (if block then "/*" else "//") + text) == Pass(|text| + 2)
  {
    CommentStarts(text);
    PassMore(2, |text|, []);
    assert Pass(2) == [Passed, Passed];
    if block {
      BlockStaysOpen(text);
    } else {
      LineStaysOpen(text);
    }
    Nothing(Pass(|text|));
    Nothing(Pass(|text| + 2));
  }

  lemma EndingStaysOpen(ending: Ending, depth: nat)
    requires GoodEnding(ending)
    ensures CloseAt(Marks(Code, PrintEnding(ending)), depth) == None
  {
    match ending
    case AtOnce =>
    case OpenString(kind, units, backslash) =>
      var more := if backslash then "\\" else "";
      EndOfLiteral(kind, PrintUnits(units) + more);
      UnitsOver(kind, units, more);
      BackslashMarks(kind, backslash);
      ClosePassed(|PrintUnits(units)|, Pass(|more|), depth);
      NeverClosed(|more|, depth);
      ClosePassed(1, Marks(kind, PrintUnits(units) + more), depth);
      assert Pass(1) == [Passed];
    case OpenLine(text) =>
      CommentStaysOpen(text, false);
      NeverClosed(|text| + 2, depth);
    case OpenBlock(text) =>
      CommentStaysOpen(text, true);
      NeverClosed(|text| + 2, depth);
    case TemplateHole(units, more) =>
      EndOfLiteral(Template, PrintUnits(units) + ("${" + more));
      UnitsOver(Template, units, "${" + more);
      HoleMark(more);
      HoleNeverCloses(|PrintUnits(units)|, Marks(Template, "{" + more), depth);
      ClosePassed(1, Marks(Template, PrintUnits(units) + ("${" + more)), depth);
      assert Pass(1) == [Passed];
  }

  lemma CallStaysOpen(levels: seq<Level>, last: seq<Piece>, ending: Ending)
    requires GoodLevels(levels) && levels != [] && levels[0].before == []
    requires AllGood(last) && GoodEnding(ending)
    ensures CloseAt(MarksOfLevels(levels) + (MarksOfAll(last) + Marks(Code, PrintEnding(ending))), 0) == None
  {
    var marks := Marks(Code, PrintEnding(ending));
    EndingStaysOpen(ending, |levels|);
    CloseOverAll(last, marks, |levels|);
    LevelsStayOpen(levels, MarksOfAll(last) + marks, 0);
  }

  lemma ReadsOpen(callee: string, call: string)
    requires CloseAt(Marks(Code, call), 0) == None
    ensures Read(callee + call, |callee|) == Unreadable(NeverCloses)
  {
    assert (callee + call)[|callee|..] == call;
  }

  /** A call whose parenthesis is still open where the text ends, or where a template hole begins,
      at any depth and whatever follows the hole: its argument list never closes. */
  lemma OpenCallNeverCloses(callee: string, levels: seq<Level>, last: seq<Piece>, ending: Ending)
    requires GoodLevels(levels) && levels != [] && levels[0] == Level([], '(')
    requires AllGood(last) && GoodEnding(ending)
    ensures Read(callee + (PrintLevels(levels) + (PrintAll(last) + PrintEnding(ending))), |callee|)
         == Unreadable(NeverCloses)
  {
    LevelMarks(levels, PrintAll(last) + PrintEnding(ending));
    AllPrintedMarks(last, PrintEnding(ending));
    CallStaysOpen(levels, last, ending);
    ReadsOpen(callee, PrintLevels(levels) + (PrintAll(last) + PrintEnding(ending)));
  }
}
