/** Calls with two object literals, which the option-key reader takes for one: when it says that it
    cannot read them, and which key it loses when it does not. */
module SecondLiterals {
  import opened Options
  import opened Seqs
  import opened ShellWords
  import opened OptionKeys
  import opened CallSiteText
  import opened ObjectLiterals

  /** White space and comments around one comma. */
  predicate Between(mid: seq<Piece>) {
    forall p | p in mid :: IsTrivia(p) || p == Word(',')
  }

  /** The entry ends in a value. */
  predicate HasValue(item: Item) {
    match item
    case Named(_, _, _, value) => value.Some?
    case Quoted(_, _, _, _, _) => true
    case Odd(_, _, _) => false
  }

  /** The literal's last entry ends in a value, with no comma after it. */
  predicate EndsInValue(items: seq<Item>, trailing: bool) {
    items != [] && !trailing && HasValue(items[|items| - 1])
  }

  /** f({..}, {..}) */
  function ArgumentPieces(before: seq<Piece>, first: seq<Piece>, mid: seq<Piece>, second: seq<Piece>, after: seq<Piece>): seq<Piece> {
    before + ([Group('{', first, '}')] + (mid + ([Group('{', second, '}')] + after)))
  }

  // ---------------------------------------------------------------- the text between the outer braces

  function InnerText(first: seq<Piece>, mid: seq<Piece>, second: seq<Piece>): string {
    PrintAll(first) + (['}'] + (PrintAll(mid) + (['{'] + PrintAll(second))))
  }

  function InnerMarks(first: seq<Piece>, mid: seq<Piece>, second: seq<Piece>): seq<Mark> {
    MarksOfAll(first) + ([Plainly('}')] + (MarksOfAll(mid) + ([Plainly('{')] + MarksOfAll(second))))
  }

  lemma InnerIsMarked(first: seq<Piece>, mid: seq<Piece>, second: seq<Piece>)
    requires AllGood(first) && AllGood(mid) && AllGood(second)
    ensures Marks(Code, InnerText(first, mid, second)) == InnerMarks(first, mid, second)
  {
    var fourth := ['{'] + PrintAll(second);
    var third := PrintAll(mid) + fourth;
    AllPrintedMarks(second, "");
    Nothing(PrintAll(second));
    Nothing(MarksOfAll(second));
    CodeMarks('{', PrintAll(second));
    AllPrintedMarks(mid, fourth);
    CodeMarks('}', third);
    AllPrintedMarks(first, ['}'] + third);
  }

  lemma TakeInner(r: Reader, first: seq<Piece>, mid: seq<Piece>, second: seq<Piece>)
    ensures TakeAll(r, InnerMarks(first, mid, second)) ==
              TakePieces(Take(TakePieces(Take(TakePieces(r, first), Plainly('}')), mid), Plainly('{')), second)
  {
    var fourth := [Plainly('{')] + MarksOfAll(second);
    var third := MarksOfAll(mid) + fourth;
    TakeAllAppend(r, MarksOfAll(first), [Plainly('}')] + third);
    var s := TakePieces(r, first);
    TakeAllAppend(s, [Plainly('}')], third);
    TakeMark(s, Plainly('}'));
    TakeAllAppend(Take(s, Plainly('}')), MarksOfAll(mid), fourth);
    var u := TakePieces(Take(s, Plainly('}')), mid);
    TakeAllAppend(u, [Plainly('{')], MarksOfAll(second));
    TakeMark(u, Plainly('{'));
  }

  // ---------------------------------------------------------------- the first literal's end

  lemma ItemEndsInValue(r: Reader, item: Item)
    requires Fresh(r) && GoodItem(item) && HasValue(item)
    ensures var s := TakePieces(r, ItemPieces(item)); s.depth == 0 && s.inValue
  {
    match item
    case Named(lead, name, gap, value) =>
      NamedRun(r, item);
      NamedFront(r, item);
      TakeAppend(r, lead + Words(name) + gap, COLON + value.value);
      ColonThenValue(TakePieces(r, lead + Words(name) + gap), value.value);
    case Quoted(lead, kind, units, gap, body) =>
      var front := lead + [Literal(kind, units)] + gap;
      QuotedKeyOver(r, lead, Literal(kind, units), gap);
      Reassociate(front, COLON, body);
      TakeAppend(r, front, COLON + body);
      ColonThenValue(TakePieces(r, front), body);
  }

  lemma NamedFront(r: Reader, item: Item)
    requires item.Named? && GoodItem(item) && Fresh(r)
    ensures var s := TakePieces(r, item.lead + Words(item.name) + item.gap); s.depth == 0 && !s.inValue
  {
    NamedRun(r, item.(value := None));
    TakeAppend(r, item.lead + Words(item.name), item.gap);
    TakeAppend(r, item.lead, Words(item.name));
    var before := TriviaOver(r, item.lead);
    var s := r.(token := r.token + before);
    WordsOver(s, item.name);
    var after := TriviaOver(s.(token := s.token + item.name), item.gap);
  }

  /** Behind a last value the reader is still in it. */
  lemma {:induction false} BodyEndsInValue(r: Reader, items: seq<Item>, tail: seq<Piece>)
    requires Fresh(r) && GoodItems(items) && EndsInValue(items, false) && AllGood(tail) && Trivia(tail)
    ensures var s := TakePieces(r, BodyPieces(items, false, tail)); s.depth == 0 && s.inValue
    decreases |items|
  {
    var item, rest := items[0], items[1..];
    assert item in items;
    if |items| == 1 {
      Nothing(ItemPieces(item));
      TakeAppend(r, ItemPieces(item), tail);
      ItemEndsInValue(r, item);
      var blank := TriviaOver(TakePieces(r, ItemPieces(item)), tail);
    } else {
      assert GoodItems(rest) by { forall i | i in rest ensures GoodItem(i) { assert i in items; } }
      var added := ItemRun(r, item);
      var t := CommaRun(r, ItemPieces(item), BodyPieces(rest, false, tail), added);
      BodyEndsInValue(t, rest, tail);
    }
  }

  /** Outside the outer braces, in a value: nothing is recorded. */
  lemma {:induction false} BetweenInValue(r: Reader, mid: seq<Piece>)
    requires Between(mid) && r.inValue && r.depth < 0
    ensures TakePieces(r, mid) == r
    decreases |mid|
  {
    if mid != [] {
      var p := mid[0];
      assert p in mid;
      TakeAllAppend(r, MarksOf(p), MarksOfAll(mid[1..]));
      if p.Word? {
        TakeMark(r, Plainly(p.c));
        SpaceIsPlain(p.c);
      } else {
        TakePassed(r, |Print(p)|);
      }
      BetweenInValue(r, mid[1..]);
    }
  }

  lemma SpaceIsPlain(c: char)
    requires IsSpace(c) || c == ','
    ensures !Opens(c) && !Closes(c) && c != ':'
  {}

  /** Otherwise the reader is at the start of a key, or has read one without a value. */
  lemma {:induction false} BodyEndsOpen(r: Reader, items: seq<Item>, trailing: bool, tail: seq<Piece>)
    requires Fresh(r) && GoodItems(items) && !HasOdd(items) && !EndsInValue(items, trailing)
    requires AllGood(tail) && Trivia(tail)
    ensures var s := TakePieces(r, BodyPieces(items, trailing, tail)); s.depth == 0 && !s.inValue
    decreases |items|
  {
    if items == [] {
      var blank := TriviaOver(r, tail);
      return;
    }
    var item, rest := items[0], items[1..];
    assert item in items;
    if |items| == 1 && !trailing {
      Nothing(ItemPieces(item));
      TakeAppend(r, ItemPieces(item), tail);
      NamedFront(r, item);
      Nothing(item.lead + Words(item.name) + item.gap);
      var blank := TriviaOver(TakePieces(r, ItemPieces(item)), tail);
    } else {
      RestIsGood(items);
      var added := ItemRun(r, item);
      var t := CommaRun(r, ItemPieces(item), BodyPieces(rest, trailing, tail), added);
      BodyEndsOpen(t, rest, trailing, tail);
    }
  }

  lemma RestIsGood(items: seq<Item>)
    requires items != [] && GoodItems(items)
    ensures GoodItem(items[0]) && GoodItems(items[1..])
    ensures !HasOdd(items) ==> !HasOdd(items[1..])
  {
    assert items[0] in items;
    forall i | i in items[1..] ensures i in items {}
  }

  /** Outside the outer braces, in a key: it goes on. */
  lemma {:induction false} BetweenOpen(r: Reader, mid: seq<Piece>)
    requires Between(mid) && !r.inValue && r.depth < 0
    ensures OnlyToken(r, TakePieces(r, mid))
    decreases |mid|
  {
    if mid != [] {
      var p := mid[0];
      assert p in mid;
      TakeAllAppend(r, MarksOf(p), MarksOfAll(mid[1..]));
      if p.Word? {
        TakeMark(r, Plainly(p.c));
        SpaceIsPlain(p.c);
      } else {
        TakePassed(r, |Print(p)|);
      }
      BetweenOpen(TakeAll(r, MarksOf(p)), mid[1..]);
    }
  }

  lemma {:induction false} TrimStartKeeps(s: string, c: char)
    requires c in s && !IsSpace(c)
    ensures c in TrimStart(s)
    decreases |s|
  {
    if IsSpace(s[0]) {
      assert s == [s[0]] + s[1..];
      TrimStartKeeps(s[1..], c);
    }
  }

  lemma {:induction false} TrimEndKeeps(s: string, c: char)
    requires c in s && !IsSpace(c)
    ensures c in TrimEnd(s)
    decreases |s|
  {
    if IsSpace(s[|s| - 1]) {
      assert s == s[..|s| - 1] + [s[|s| - 1]];
      TrimEndKeeps(s[..|s| - 1], c);
    }
  }

  /** A key with a brace in it is unreadable, however it goes on. */
  lemma BraceSpoils(s: string)
    requires '}' in s
    ensures NeverIdentifier(s)
  {
    forall t | s <= t ensures Trim(t) != "" && !Identifier(Trim(t)) {
      var k :| 0 <= k < |s| && s[k] == '}';
      assert t[k] == '}';
      TrimStartKeeps(t, '}');
      TrimEndKeeps(TrimStart(t), '}');
      assert '}' in Trim(t);
    }
  }

  // ---------------------------------------------------------------- the second literal

  lemma UndividedAppend(a: seq<Piece>, b: seq<Piece>)
    requires Undivided(a) && Undivided(b)
    ensures Undivided(a + b)
  {}

  lemma TriviaUndivided(ps: seq<Piece>)
    requires Trivia(ps)
    ensures Undivided(ps)
  {
    forall p | p in ps ensures !Separates(p) {
      assert IsTrivia(p);
    }
  }

  lemma WordsUndivided(text: string)
    requires forall c | c in text :: IdPart(c)
    ensures Undivided(Words(text))
  {
    forall k | 0 <= k < |text| ensures !Separates(Words(text)[k]) {
      assert text[k] in text;
    }
  }

  lemma OneUndivided(p: Piece)
    requires !Separates(p)
    ensures Undivided([p])
  {}

  lemma ItemUndivided(item: Item)
    requires GoodItem(item)
    ensures Undivided(ItemPieces(item))
  {
    TriviaUndivided(item.lead);
    OneUndivided(Word(':'));
    match item
    case Named(lead, name, gap, value) =>
      WordsUndivided(name);
      TriviaUndivided(gap);
      UndividedAppend(lead, Words(name));
      UndividedAppend(lead + Words(name), gap);
      var end := if value.Some? then COLON + value.value else [];
      if value.Some? {
        UndividedAppend(COLON, value.value);
      }
      UndividedAppend(lead + Words(name) + gap, end);
    case Quoted(lead, kind, units, gap, body) =>
      var key := [Literal(kind, units)];
      OneUndivided(key[0]);
      TriviaUndivided(gap);
      UndividedAppend(lead, key);
      UndividedAppend(lead + key, gap);
      UndividedAppend(lead + key + gap, COLON);
      UndividedAppend(lead + key + gap + COLON, body);
    case Odd(lead, head, rest) =>
      OneUndivided(head);
      UndividedAppend(lead, [head]);
      UndividedAppend(lead + [head], rest);
  }

  /** Read in a value, the second literal gives the names of its entries but the first. */
  lemma SecondInValue(s: Reader, items: seq<Item>, trailing: bool, tail: seq<Piece>)
    requires s.inValue && s.depth == 0 && GoodItems(items) && !HasOdd(items) && AllGood(tail) && Trivia(tail)
    ensures Final(TakePieces(s, BodyPieces(items, trailing, tail)))
         == s.keys + (if items == [] then [] else Names(items[1..]))
  {
    if items == [] {
      var blank := TriviaOver(s, tail);
      Nothing(s.keys);
      return;
    }
    var item, rest := items[0], items[1..];
    RestIsGood(items);
    ItemGood(item);
    ItemUndivided(item);
    ValueOverAll(s, ItemPieces(item));
    Nothing(s.keys);
    if |items| > 1 || trailing {
      var t := CommaRun(s, ItemPieces(item), BodyPieces(rest, trailing, tail), []);
      var keys := BodyRun(t, rest, trailing, tail);
    } else {
      Nothing(ItemPieces(item));
      TakeAppend(s, ItemPieces(item), tail);
      var blank := TriviaOver(s, tail);
    }
  }

  /** Read in a spoiled key, it gives that key. */
  lemma SecondSpoiled(s: Reader, items: seq<Item>, trailing: bool, tail: seq<Piece>) returns (key: string)
    requires Spoiled(s) && GoodItems(items) && AllGood(tail) && Trivia(tail)
    ensures !Identifier(key) && key in Final(TakePieces(s, BodyPieces(items, trailing, tail)))
  {
    if items == [] {
      key := SpoiledRun(s, tail);
      return;
    }
    var item, rest := items[0], items[1..];
    RestIsGood(items);
    ItemGood(item);
    ItemUndivided(item);
    key := SpoiledRun(s, ItemPieces(item));
    if |items| > 1 || trailing {
      var t := CommaRun(s, ItemPieces(item), BodyPieces(rest, trailing, tail), [key]);
      var keys := BodyRun(t, rest, trailing, tail);
      assert t.keys[|s.keys|] == key;
      assert (t.keys + keys)[|s.keys|] == key;
    } else {
      Nothing(ItemPieces(item));
      LastRun(s, item, tail, [key]);
      assert (s.keys + [key])[|s.keys|] == key;
    }
  }

  // ---------------------------------------------------------------- the call

  /** What a reader in a value makes of the rest. */
  lemma KeysInValue(s: Reader, mid: seq<Piece>, others: seq<Item>, trailing: bool, tail: seq<Piece>)
    requires s.inValue && s.depth == 0 && Between(mid)
    requires GoodItems(others) && !HasOdd(others) && AllGood(tail) && Trivia(tail)
    ensures var end := TakePieces(Take(TakePieces(Take(s, Plainly('}')), mid), Plainly('{')),
                                  BodyPieces(others, trailing, tail));
            Final(end) == s.keys + (if others == [] then [] else Names(others[1..]))
  {
    BetweenInValue(Take(s, Plainly('}')), mid);
    SecondInValue(s, others, trailing, tail);
  }

  /** What a reader in a key, or at the start of one, makes of the rest. */
  lemma KeysInKey(s: Reader, mid: seq<Piece>, others: seq<Item>, trailing: bool, tail: seq<Piece>) returns (key: string)
    requires !s.inValue && s.depth == 0 && Between(mid)
    requires GoodItems(others) && AllGood(tail) && Trivia(tail)
    ensures var end := TakePieces(Take(TakePieces(Take(s, Plainly('}')), mid), Plainly('{')),
                                  BodyPieces(others, trailing, tail));
            !Identifier(key) && key in Final(end)
  {
    var inside := Take(s, Plainly('}'));
    BetweenOpen(inside, mid);
    var u := Take(TakePieces(inside, mid), Plainly('{'));
    assert u.token[|s.token|] == '}';
    BraceSpoils(u.token);
    key := SecondSpoiled(u, others, trailing, tail);
  }

  /** The keys found between the outer braces of the two literals. */
  lemma KeysOfTwo(
    items: seq<Item>, trailing: bool, tail: seq<Piece>, mid: seq<Piece>,
    others: seq<Item>, otherTrailing: bool, otherTail: seq<Piece>)
    requires GoodItems(items) && !HasOdd(items) && AllGood(tail) && Trivia(tail)
    requires GoodItems(others) && !HasOdd(others) && AllGood(otherTail) && Trivia(otherTail)
    requires AllGood(mid) && Between(mid)
    ensures var first, second := BodyPieces(items, trailing, tail), BodyPieces(others, otherTrailing, otherTail);
            var keys := Keys(InnerText(first, mid, second));
            if EndsInValue(items, trailing)
            then keys == Names(items) + (if others == [] then [] else Names(others[1..]))
            else exists key :: key in keys && !Identifier(key)
  {
    var first, second := BodyPieces(items, trailing, tail), BodyPieces(others, otherTrailing, otherTail);
    PiecesGood(items, trailing, tail);
    PiecesGood(others, otherTrailing, otherTail);
    InnerIsMarked(first, mid, second);
    TakeInner(EMPTY_READER, first, mid, second);
    var s := TakePieces(EMPTY_READER, first);
    if EndsInValue(items, trailing) {
      BodyEndsInValue(EMPTY_READER, items, tail);
      var keys := BodyRun(EMPTY_READER, items, trailing, tail);
      Nothing(keys);
      KeysInValue(s, mid, others, otherTrailing, otherTail);
    } else {
      BodyEndsOpen(EMPTY_READER, items, trailing, tail);
      var key := KeysInKey(s, mid, others, otherTrailing, otherTail);
    }
  }

  /** The arguments are good text that trims to the two literals and what is between them. */
  lemma TwoLiteralsText(before: seq<Piece>, first: seq<Piece>, mid: seq<Piece>, second: seq<Piece>, after: seq<Piece>)
    requires Spaces(before) && Spaces(after) && AllGood(first) && AllGood(mid) && AllGood(second)
    ensures var args := ArgumentPieces(before, first, mid, second, after);
            AllGood(args) && Trim(PrintAll(args)) == "{" + InnerText(first, mid, second) + "}"
  {
    var left, right := Group('{', first, '}'), Group('{', second, '}');
    SpacesPrintBlank(before);
    SpacesPrintBlank(after);
    OneGood(left);
    OneGood(right);
    GoodAppend([right], after);
    GoodAppend(mid, [right] + after);
    GoodAppend([left], mid + ([right] + after));
    GoodAppend(before, [left] + (mid + ([right] + after)));
    PrintAppend([right], after);
    PrintAppend(mid, [right] + after);
    PrintAppend([left], mid + ([right] + after));
    PrintAppend(before, [left] + (mid + ([right] + after)));
    PrintOne(left);
    PrintOne(right);
    var core := "{" + InnerText(first, mid, second) + "}";
    TwoLiteralsPrinted(PrintAll(before), PrintAll(first), PrintAll(mid), PrintAll(second), PrintAll(after));
    TrimExact(PrintAll(before), core, PrintAll(after));
  }

  lemma TwoLiteralsPrinted(before: string, first: string, mid: string, second: string, after: string)
    ensures before + ((['{'] + first + ['}']) + (mid + ((['{'] + second + ['}']) + after)))
         == before + ("{" + (first + (['}'] + (mid + (['{'] + second)))) + "}") + after
  {
    var last := ['{'] + second;
    Reassociate(mid, last, ['}']);
    Reassociate(last, ['}'], after);
    assert (['{'] + first + ['}']) + (mid + ((last + ['}']) + after))
        == ("{" + (first + (['}'] + (mid + last))) + "}") + after;
    Reassociate(before, "{" + (first + (['}'] + (mid + last))) + "}", after);
  }

  /** A call with two object literals is unreadable unless the first ends in a value. Then it reads
      as one literal that has the keys of the first and, after that, those of the second but for
      its first entry: that entry's name is lost, and exactly if there is one. */
  lemma SecondLiteralLosesItsFirstKey(
    callee: string, before: seq<Piece>, items: seq<Item>, trailing: bool, tail: seq<Piece>, mid: seq<Piece>,
    others: seq<Item>, otherTrailing: bool, otherTail: seq<Piece>, after: seq<Piece>, rest: string)
    requires Spaces(before) && Spaces(after) && AllGood(mid) && Between(mid)
    requires GoodItems(items) && !HasOdd(items) && AllGood(tail) && Trivia(tail)
    requires GoodItems(others) && !HasOdd(others) && AllGood(otherTail) && Trivia(otherTail)
    ensures var args := ArgumentPieces(before, BodyPieces(items, trailing, tail), mid,
                                       BodyPieces(others, otherTrailing, otherTail), after);
            var result := Read(callee + ("(" + PrintAll(args) + ")" + rest), |callee|);
            if EndsInValue(items, trailing)
            then result == Readable(Names(items) + (if others == [] then [] else Names(others[1..])))
            else result.Unreadable? && result.reason.UnreadableKey?
  {
    var first, second := BodyPieces(items, trailing, tail), BodyPieces(others, otherTrailing, otherTail);
    var args := ArgumentPieces(before, first, mid, second, after);
    PiecesGood(items, trailing, tail);
    PiecesGood(others, otherTrailing, otherTail);
    TwoLiteralsText(before, first, mid, second, after);
    BalancedCutsExactly(args, rest);
    KeysOfTwo(items, trailing, tail, mid, others, otherTrailing, otherTail);
    NamesAreIdentifiers(items);
    if others != [] {
      RestIsGood(others);
      NamesAreIdentifiers(others[1..]);
    }
    ReadsBetweenBraces(callee, args, rest, InnerText(first, mid, second));
  }

  /** A call whose arguments trim to a text in braces is read by the keys of that text. */
  lemma ReadsBetweenBraces(callee: string, args: seq<Piece>, rest: string, inner: string)
    requires Balanced("(" + PrintAll(args) + ")" + rest) == Some(PrintAll(args))
    requires Trim(PrintAll(args)) == "{" + inner + "}"
    ensures var result := Read(callee + ("(" + PrintAll(args) + ")" + rest), |callee|);
            if exists key :: key in Keys(inner) && !Identifier(key)
            then result.Unreadable? && result.reason.UnreadableKey?
            else result == Readable(Keys(inner))
  {
    var call := "(" + PrintAll(args) + ")" + rest;
    assert (callee + call)[|callee|..] == call;
    var trimmed := "{" + inner + "}";
    assert trimmed[1..|trimmed| - 1] == inner;
  }

  // ---------------------------------------------------------------- for example

  // The entry c:d.
  function Short(c: char, d: char): Item {
    Named([], [c], [], Some([Word(d)]))
  }

  lemma ShortPieces(c: char, d: char)
    ensures BodyPieces([Short(c, d)], false, []) == [Word(c)] + (COLON + [Word(d)])
  {
    assert BodyPieces([Short(c, d)][1..], false, []) == [];
    Nothing(ItemPieces(Short(c, d)));
    Nothing(Words([c]));
    assert Words([c]) == [Word(c)];
  }

  lemma ShortPrints(c: char, d: char)
    ensures PrintAll(BodyPieces([Short(c, d)], false, [])) == [c, ':', d]
  {
    ShortPieces(c, d);
    PrintAppend([Word(c)], COLON + [Word(d)]);
    PrintAppend(COLON, [Word(d)]);
    PrintOne(Word(c));
    PrintOne(Word(':'));
    PrintOne(Word(d));
  }

  lemma GroupPrints(body: seq<Piece>, c: char, d: char)
    requires PrintAll(body) == [c, ':', d]
    ensures PrintAll([Group('{', body, '}')]) == ['{', c, ':', d, '}']
  {
    PrintOne(Group('{', body, '}'));
  }

  lemma ShortIsGood(c: char, d: char)
    requires IdStart(c) && IdPart(d)
    ensures GoodItems([Short(c, d)]) && !HasOdd([Short(c, d)]) && Names([Short(c, d)]) == [[c]]
  {
    OneGood(Word(d));
    assert [Short(c, d)][1..] == [];
  }

  lemma TwoShortPrint(first: seq<Piece>, second: seq<Piece>)
    requires PrintAll(first) == "a:1" && PrintAll(second) == "b:2"
    ensures PrintAll(ArgumentPieces([], first, [Word(',')], second, [])) == "{a:1},{b:2}"
  {
    var left, right := [Group('{', first, '}')], [Group('{', second, '}')];
    GroupPrints(first, 'a', '1');
    GroupPrints(second, 'b', '2');
    Nothing(right);
    Nothing(left + ([Word(',')] + right));
    PrintAppend(left, [Word(',')] + right);
    PrintAppend([Word(',')], right);
    PrintOne(Word(','));
  }

  /** For example ({a:1},{b:2}) reads as a literal with the one key a. */
  lemma KeyOfSecondLiteralIsLost(callee: string, rest: string)
    ensures Read(callee + ("(" + "{a:1},{b:2}" + ")" + rest), |callee|) == Readable(["a"])
  {
    var items, others := [Short('a', '1')], [Short('b', '2')];
    ShortIsGood('a', '1');
    ShortIsGood('b', '2');
    ShortPrints('a', '1');
    ShortPrints('b', '2');
    TwoShortPrint(BodyPieces(items, false, []), BodyPieces(others, false, []));
    OneGood(Word(','));
    SecondLiteralLosesItsFirstKey(callee, [], items, false, [], [Word(',')], others, false, [], [], rest);
    assert others[1..] == [];
    Nothing(Names(items));
  }
}
