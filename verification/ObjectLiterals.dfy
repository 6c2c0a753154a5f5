/** Object literals as the option-key reader meets them: which keys it reports, when it calls a
    literal unreadable, and which keys it silently passes over. */
module ObjectLiterals {
  import opened Options
  import opened Seqs
  import opened ShellWords
  import opened OptionKeys
  import opened CallSiteText

  /** One entry. Named: `name: value`, or the shorthand `name`. Quoted: a string for a key.
      Odd: an entry that starts with neither, such as a spread or a computed key. White space
      and comments may stand around the keys. */
  datatype Item =
    | Named(lead: seq<Piece>, name: string, gap: seq<Piece>, value: Option<seq<Piece>>)
    | Quoted(lead: seq<Piece>, kind: State, units: seq<Unit>, gap: seq<Piece>, body: seq<Piece>)
    | Odd(lead: seq<Piece>, head: Piece, rest: seq<Piece>)

  predicate IsTrivia(p: Piece) {
    p.LineComment? || p.BlockComment? || (p.Word? && IsSpace(p.c))
  }

  predicate Trivia(ps: seq<Piece>) {
    forall p | p in ps :: IsTrivia(p)
  }

  /** A comma at depth 0 would end the entry. */
  predicate Separates(p: Piece) {
    (p.Word? || p.Division?) && p.c == ','
  }

  predicate Undivided(ps: seq<Piece>) {
    forall p | p in ps :: !Separates(p)
  }

  predicate GoodItem(item: Item) {
    match item
    case Named(lead, name, gap, value) =>
      && AllGood(lead) && Trivia(lead) && Identifier(name) && AllGood(gap) && Trivia(gap)
      && (value.Some? ==> AllGood(value.value) && Undivided(value.value))
    case Quoted(lead, kind, units, gap, body) =>
      && AllGood(lead) && Trivia(lead) && Good(Literal(kind, units)) && AllGood(gap) && Trivia(gap)
      && AllGood(body) && Undivided(body)
    case Odd(lead, head, rest) =>
      && AllGood(lead) && Trivia(lead) && Good(head) && AllGood(rest) && Undivided(rest)
      && (head.Group? || (head.Word? && !IsSpace(head.c) && !IdStart(head.c) && head.c !in {',', ':'}))
  }

  function Words(text: string): (ps: seq<Piece>)
    ensures |ps| == |text|
    ensures forall k | 0 <= k < |ps| :: ps[k] == Word(text[k])
  {
    seq(|text|, k requires 0 <= k < |text| => Word(text[k]))
  }

  const COLON: seq<Piece> := [Word(':')]
  const COMMA: seq<Piece> := [Word(',')]

  function ItemPieces(item: Item): seq<Piece> {
    match item
    case Named(lead, name, gap, value) =>
      lead + Words(name) + gap + (if value.Some? then COLON + value.value else [])
    case Quoted(lead, kind, units, gap, body) => lead + [Literal(kind, units)] + gap + COLON + body
    case Odd(lead, head, rest) => lead + [head] + rest
  }

  /** The entries with commas between them, perhaps one more comma, and closing white space. */
  function BodyPieces(items: seq<Item>, trailing: bool, tail: seq<Piece>): seq<Piece> {
    if items == [] then tail
    else
      ItemPieces(items[0])
      + (if |items| > 1 || trailing then COMMA else [])
      + BodyPieces(items[1..], trailing, tail)
  }

  function Names(items: seq<Item>): seq<string> {
    if items == [] then []
    else (if items[0].Named? then [items[0].name] else []) + Names(items[1..])
  }

  // ---------------------------------------------------------------- reading pieces

  function TakePieces(r: Reader, ps: seq<Piece>): Reader {
    TakeAll(r, MarksOfAll(ps))
  }

  /** The keys, should the body end here. */
  function Final(r: Reader): seq<string> {
    (if r.inValue then r else Flush(r)).keys
  }

  lemma {:induction false} TakeAllAppend(r: Reader, a: seq<Mark>, b: seq<Mark>)
    ensures TakeAll(r, a + b) == TakeAll(TakeAll(r, a), b)
    decreases |a|
  {
    if a == [] {
      assert a + b == b;
    } else {
      assert (a + b)[1..] == a[1..] + b;
      TakeAllAppend(Take(r, a[0]), a[1..], b);
    }
  }

  lemma {:induction false} MarksAppend(a: seq<Piece>, b: seq<Piece>)
    ensures MarksOfAll(a + b) == MarksOfAll(a) + MarksOfAll(b)
    decreases |a|
  {
    if a == [] {
      assert a + b == b;
    } else {
      RestOfSum(a, b);
      MarksAppend(a[1..], b);
    }
  }

  lemma TakeAppend(r: Reader, a: seq<Piece>, b: seq<Piece>)
    ensures TakePieces(r, a + b) == TakePieces(TakePieces(r, a), b)
  {
    MarksAppend(a, b);
    TakeAllAppend(r, MarksOfAll(a), MarksOfAll(b));
  }

  lemma TakeOne(r: Reader, p: Piece)
    ensures TakePieces(r, [p]) == TakeAll(r, MarksOf(p))
  {
    assert [p][1..] == [];
    assert MarksOfAll([p]) == MarksOf(p) + [];
    assert MarksOf(p) + [] == MarksOf(p);
  }

  lemma TakeMark(r: Reader, m: Mark)
    ensures TakeAll(r, [m]) == Take(r, m)
  {
    assert [m][1..] == [];
  }

  lemma {:induction false} TakePassed(r: Reader, n: nat)
    ensures TakeAll(r, Pass(n)) == r
    decreases n
  {
    if n > 0 {
      assert Pass(n)[1..] == Pass(n - 1);
      TakePassed(r, n - 1);
    }
  }

  lemma TakeDivision(r: Reader, c: char)
    ensures TakeAll(r, MarksOf(Division(c))) == Take(Take(r, Plainly('/')), Plainly(c))
  {
    TakeAllAppend(r, [Plainly('/')], [Plainly(c)]);
    TakeMark(r, Plainly('/'));
    TakeMark(Take(r, Plainly('/')), Plainly(c));
    assert [Plainly('/')] + [Plainly(c)] == MarksOf(Division(c));
  }

  lemma TakeGroup(r: Reader, left: char, inner: seq<Piece>, right: char)
    ensures TakeAll(r, MarksOf(Group(left, inner, right)))
         == Take(TakePieces(Take(r, Plainly(left)), inner), Plainly(right))
  {
    TakeAllAppend(r, [Plainly(left)] + MarksOfAll(inner), [Plainly(right)]);
    TakeAllAppend(r, [Plainly(left)], MarksOfAll(inner));
    TakeMark(r, Plainly(left));
    TakeMark(TakePieces(Take(r, Plainly(left)), inner), Plainly(right));
  }

  /** Inside a value nothing is recorded until a comma at depth 0. */
  lemma {:induction false} ValueOver(r: Reader, p: Piece)
    requires Good(p) && r.inValue && r.depth >= 0 && (r.depth == 0 ==> !Separates(p))
    ensures TakeAll(r, MarksOf(p)) == r
    decreases p, 0
  {
    match p
    case Word(c) => TakeMark(r, Plainly(c));
    case Division(c) => TakeDivision(r, c);
    case Group(left, inner, right) =>
      TakeGroup(r, left, inner, right);
      ValueOverAll(r.(depth := r.depth + 1), inner);
    case _ => TakePassed(r, |Print(p)|);
  }

  lemma {:induction false} ValueOverAll(r: Reader, ps: seq<Piece>)
    requires AllGood(ps) && r.inValue && r.depth >= 0 && (r.depth == 0 ==> Undivided(ps))
    ensures TakePieces(r, ps) == r
    decreases ps, 1
  {
    if ps != [] {
      assert ps[0] in ps;
      ValueOver(r, ps[0]);
      TakeAllAppend(r, MarksOf(ps[0]), MarksOfAll(ps[1..]));
      ValueOverAll(r, ps[1..]);
    }
  }

  /** Inside brackets everything goes into the token. */
  ghost predicate OnlyToken(r: Reader, s: Reader) {
    s.(token := r.token) == r && r.token <= s.token
  }

  lemma {:induction false} BracketsOver(r: Reader, p: Piece)
    requires Good(p) && !r.inValue && r.depth >= 1
    ensures OnlyToken(r, TakeAll(r, MarksOf(p)))
    decreases p, 0
  {
    match p
    case Word(c) => TakeMark(r, Plainly(c));
    case Division(c) => TakeDivision(r, c);
    case Group(left, inner, right) =>
      TakeGroup(r, left, inner, right);
      BracketsOverAll(Take(r, Plainly(left)), inner);
    case _ => TakePassed(r, |Print(p)|);
  }

  lemma {:induction false} BracketsOverAll(r: Reader, ps: seq<Piece>)
    requires AllGood(ps) && !r.inValue && r.depth >= 1
    ensures OnlyToken(r, TakePieces(r, ps))
    decreases ps, 1
  {
    if ps != [] {
      BracketsOver(r, ps[0]);
      TakeAllAppend(r, MarksOf(ps[0]), MarksOfAll(ps[1..]));
      BracketsOverAll(TakeAll(r, MarksOf(ps[0])), ps[1..]);
    }
  }

  // ---------------------------------------------------------------- white space

  predicate Blank(s: string) {
    forall c | c in s :: IsSpace(c)
  }

  lemma {:induction false} TriviaOver(r: Reader, ps: seq<Piece>) returns (blank: string)
    requires Trivia(ps) && r.depth == 0
    ensures Blank(blank)
    ensures TakePieces(r, ps) == if r.inValue then r else r.(token := r.token + blank)
    decreases |ps|
  {
    if ps == [] {
      blank := "";
      assert r.token + blank == r.token;
    } else {
      var p := ps[0];
      assert p in ps;
      TakeAllAppend(r, MarksOf(p), MarksOfAll(ps[1..]));
      if p.Word? {
        TakeMark(r, Plainly(p.c));
        var s := Take(r, Plainly(p.c));
        var more := TriviaOver(s, ps[1..]);
        blank := [p.c] + more;
        assert r.token + blank == (r.token + [p.c]) + more;
      } else {
        TakePassed(r, |Print(p)|);
        blank := TriviaOver(r, ps[1..]);
      }
    }
  }

  lemma {:induction false} TrimStartSkips(blank: string, s: string)
    requires Blank(blank)
    ensures TrimStart(blank + s) == TrimStart(s)
    decreases |blank|
  {
    if blank == "" {
      assert blank + s == s;
    } else {
      assert (blank + s)[1..] == blank[1..] + s;
      TrimStartSkips(blank[1..], s);
    }
  }

  lemma {:induction false} TrimEndSkips(s: string, blank: string)
    requires Blank(blank)
    ensures TrimEnd(s + blank) == TrimEnd(s)
    decreases |blank|
  {
    if blank == "" {
      assert s + blank == s;
    } else {
      assert (s + blank)[..|s + blank| - 1] == s + blank[..|blank| - 1];
      TrimEndSkips(s, blank[..|blank| - 1]);
    }
  }

  lemma TrimExact(before: string, s: string, after: string)
    requires Blank(before) && Blank(after)
    requires s != "" ==> !IsSpace(s[0]) && !IsSpace(s[|s| - 1])
    ensures Trim(before + s + after) == s
  {
    assert before + s + after == before + (s + after);
    TrimStartSkips(before, s + after);
    TrimEndSkips(s, after);
    if s == "" {
      assert s + after == after + "";
      TrimStartSkips(after, "");
    }
  }

  lemma {:induction false} TrimEndKeepsFirst(s: string)
    requires s != "" && !IsSpace(s[0])
    ensures TrimEnd(s) != "" && TrimEnd(s)[0] == s[0]
    decreases |s|
  {
    if IsSpace(s[|s| - 1]) {
      TrimEndKeepsFirst(s[..|s| - 1]);
    }
  }

  lemma {:induction false} TrimStartGrows(s: string, t: string)
    requires TrimStart(s) != "" && s <= t
    ensures TrimStart(t) != "" && TrimStart(t)[0] == TrimStart(s)[0] && !IsSpace(TrimStart(s)[0])
    decreases |s|
  {
    if IsSpace(s[0]) {
      TrimStartGrows(s[1..], t[1..]);
    }
  }

  // ---------------------------------------------------------------- one entry

  /** Between entries: nothing pending. */
  predicate Fresh(r: Reader) {
    !r.inValue && r.depth == 0 && r.token == ""
  }

  lemma IdentifierIsSolid(s: string)
    requires Identifier(s)
    ensures !IsSpace(s[0]) && !IsSpace(s[|s| - 1])
  {
    assert s[|s| - 1] in s;
  }

  lemma {:induction false} WordsOver(r: Reader, text: string)
    requires !r.inValue && r.depth == 0 && forall c | c in text :: IdPart(c)
    ensures TakePieces(r, Words(text)) == r.(token := r.token + text)
    decreases |text|
  {
    if text == "" {
      assert r.token + text == r.token;
    } else {
      assert text[0] in text;
      assert Words(text)[1..] == Words(text[1..]);
      TakeAllAppend(r, MarksOf(Word(text[0])), MarksOfAll(Words(text[1..])));
      TakeMark(r, Plainly(text[0]));
      var s := Take(r, Plainly(text[0]));
      WordsOver(s, text[1..]);
      assert s.token + text[1..] == r.token + text;
    }
  }

  /** After an entry the next comma, or the end, leaves exactly `added` behind. */
  ghost predicate Adds(r: Reader, s: Reader, added: seq<string>) {
    s.depth == 0 && Final(s) == r.keys + added
  }

  lemma TokenAdds(r: Reader, before: string, name: string, after: string, added: seq<string>)
    requires Fresh(r) && Blank(before) && Blank(after)
    requires name != "" ==> !IsSpace(name[0]) && !IsSpace(name[|name| - 1])
    requires added == if name == "" then [] else [name]
    ensures Adds(r, r.(token := before + name + after), added)
  {
    TrimExact(before, name, after);
  }

  lemma ColonThenValue(r: Reader, value: seq<Piece>)
    requires !r.inValue && r.depth == 0 && AllGood(value) && Undivided(value)
    ensures var s := TakePieces(r, COLON + value); s.depth == 0 && s.inValue && Final(s) == Final(r)
  {
    TakeAppend(r, COLON, value);
    TakeOne(r, Word(':'));
    TakeMark(r, Plainly(':'));
    ValueOverAll(Take(r, Plainly(':')), value);
  }

  lemma NamedRun(r: Reader, item: Item)
    requires item.Named? && GoodItem(item) && Fresh(r)
    ensures Adds(r, TakePieces(r, ItemPieces(item)), [item.name])
  {
    var Named(lead, name, gap, value) := item;
    var front := lead + Words(name) + gap;
    TakeAppend(r, lead + Words(name), gap);
    TakeAppend(r, lead, Words(name));
    var before := TriviaOver(r, lead);
    var s := r.(token := r.token + before);
    WordsOver(s, name);
    var t := s.(token := s.token + name);
    var after := TriviaOver(t, gap);
    var u := TakePieces(r, front);
    assert u == r.(token := before + name + after);
    IdentifierIsSolid(name);
    TokenAdds(r, before, name, after, [name]);
    if value.Some? {
      TakeAppend(r, front, COLON + value.value);
      ColonThenValue(u, value.value);
    } else {
      assert ItemPieces(item) == front;
    }
  }

  /** A string key leaves nothing in the token but the blanks around it. */
  lemma QuotedKeyOver(r: Reader, lead: seq<Piece>, key: Piece, gap: seq<Piece>)
    requires Fresh(r) && Trivia(lead) && key.Literal? && Trivia(gap)
    ensures var u := TakePieces(r, lead + [key] + gap);
            u.depth == 0 && !u.inValue && Adds(r, u, [])
  {
    TakeAppend(r, lead + [key], gap);
    TakeAppend(r, lead, [key]);
    var before := TriviaOver(r, lead);
    Nothing(before);
    var s := r.(token := before);
    TakeOne(s, key);
    TakePassed(s, |Print(key)|);
    var after := TriviaOver(s, gap);
    TokenAdds(r, before, "", after, []);
  }

  lemma QuotedRun(r: Reader, item: Item)
    requires item.Quoted? && GoodItem(item) && Fresh(r)
    ensures Adds(r, TakePieces(r, ItemPieces(item)), [])
  {
    var Quoted(lead, kind, units, gap, body) := item;
    var front := lead + [Literal(kind, units)] + gap;
    QuotedKeyOver(r, lead, Literal(kind, units), gap);
    Reassociate(front, COLON, body);
    TakeAppend(r, front, COLON + body);
    ColonThenValue(TakePieces(r, front), body);
  }

  /** However the text goes on, it is no identifier. */
  ghost predicate NeverIdentifier(s: string) {
    forall t | s <= t :: Trim(t) != "" && !Identifier(Trim(t))
  }

  /** A key has begun that can only turn out unreadable. */
  ghost predicate Spoiled(r: Reader) {
    !r.inValue && r.depth == 0 && NeverIdentifier(r.token)
  }

  lemma BadStart(s: string)
    requires TrimStart(s) != "" && !IdStart(TrimStart(s)[0])
    ensures NeverIdentifier(s)
  {
    forall t | s <= t ensures Trim(t) != "" && !Identifier(Trim(t)) {
      TrimStartGrows(s, t);
      TrimEndKeepsFirst(TrimStart(t));
    }
  }

  lemma SpoiledKey(r: Reader) returns (key: string)
    requires Spoiled(r)
    ensures !Identifier(key) && Final(r) == r.keys + [key]
  {
    key := Trim(r.token);
  }

  lemma SpoiledGrows(r: Reader, s: Reader)
    requires Spoiled(r) && OnlyToken(r, s)
    ensures Spoiled(s) && s.keys == r.keys
  {
    forall t | s.token <= t ensures Trim(t) != "" && !Identifier(Trim(t)) {
      assert r.token <= t;
    }
  }

  lemma GroupOver(r: Reader, left: char, inner: seq<Piece>, right: char)
    requires Good(Group(left, inner, right)) && !r.inValue && r.depth == 0
    ensures var s := TakeAll(r, MarksOf(Group(left, inner, right)));
            OnlyToken(r, s) && r.token + [left] <= s.token
  {
    TakeGroup(r, left, inner, right);
    BracketsOverAll(Take(r, Plainly(left)), inner);
  }

  lemma {:induction false} SpoiledRun(r: Reader, ps: seq<Piece>) returns (key: string)
    requires Spoiled(r) && AllGood(ps) && Undivided(ps)
    ensures !Identifier(key) && Adds(r, TakePieces(r, ps), [key])
    decreases |ps|
  {
    if ps == [] {
      key := SpoiledKey(r);
      return;
    }
    var p, rest := ps[0], ps[1..];
    assert p in ps;
    TakeAllAppend(r, MarksOf(p), MarksOfAll(rest));
    if p == Word(':') {
      assert COLON + rest == ps;
      ColonThenValue(r, rest);
      key := SpoiledKey(r);
      return;
    }
    if p.Division? {
      TakeDivision(r, p.c);
      var s := Take(r, Plainly('/'));
      SpoiledGrows(r, s);
      if p.c == ':' {
        TakeMark(s, Plainly(':'));
        key := SpoiledKey(s);
        ValueOverAll(Take(s, Plainly(':')), rest);
        return;
      }
      SpoiledGrows(r, Take(s, Plainly(p.c)));
      key := SpoiledRun(Take(s, Plainly(p.c)), rest);
      return;
    }
    if p.Word? {
      TakeMark(r, Plainly(p.c));
    } else if p.Group? {
      GroupOver(r, p.left, p.inner, p.right);
    } else {
      TakePassed(r, |Print(p)|);
    }
    SpoiledGrows(r, TakeAll(r, MarksOf(p)));
    key := SpoiledRun(TakeAll(r, MarksOf(p)), rest);
  }

  /** The first piece of an odd entry spoils the key, whatever blanks came before. */
  lemma OddHead(r: Reader, before: string, head: Piece)
    requires !r.inValue && r.depth == 0 && r.token == before && Blank(before) && Good(head)
    requires head.Group? || (head.Word? && !IsSpace(head.c) && !IdStart(head.c) && head.c !in {',', ':'})
    ensures var t := TakePieces(r, [head]); Spoiled(t) && t.keys == r.keys
  {
    TakeOne(r, head);
    var c := if head.Word? then head.c else head.left;
    if head.Word? {
      TakeMark(r, Plainly(c));
    } else {
      GroupOver(r, head.left, head.inner, head.right);
    }
    TrimStartSkips(before, [c]);
    TrimStartGrows(before + [c], TakePieces(r, [head]).token);
    BadStart(TakePieces(r, [head]).token);
  }

  lemma OddRun(r: Reader, item: Item) returns (key: string)
    requires item.Odd? && GoodItem(item) && Fresh(r)
    ensures !Identifier(key) && Adds(r, TakePieces(r, ItemPieces(item)), [key])
  {
    var Odd(lead, head, rest) := item;
    TakeAppend(r, lead + [head], rest);
    TakeAppend(r, lead, [head]);
    var before := TriviaOver(r, lead);
    var s := TakePieces(r, lead);
    Nothing(before);
    OddHead(s, before, head);
    key := SpoiledRun(TakePieces(s, [head]), rest);
  }

  // ---------------------------------------------------------------- the whole literal

  predicate GoodItems(items: seq<Item>) {
    forall item | item in items :: GoodItem(item)
  }

  predicate HasOdd(items: seq<Item>) {
    exists item :: item in items && item.Odd?
  }

  /** The comma after an entry, or the end of the body, records what the entry adds. */
  lemma CommaFlushes(r: Reader)
    requires r.depth == 0
    ensures Take(r, Plainly(',')) == Reader(Final(r), 0, false, "")
  {}

  lemma CommaRun(r: Reader, item: seq<Piece>, more: seq<Piece>, added: seq<string>) returns (t: Reader)
    requires Adds(r, TakePieces(r, item), added)
    ensures t == Reader(r.keys + added, 0, false, "")
    ensures TakePieces(r, item + COMMA + more) == TakePieces(t, more)
  {
    var s := TakePieces(r, item);
    TakeAppend(r, item + COMMA, more);
    TakeAppend(r, item, COMMA);
    TakeOne(s, Word(','));
    TakeMark(s, Plainly(','));
    CommaFlushes(s);
    t := Take(s, Plainly(','));
  }

  lemma {:induction false} BodyRun(r: Reader, items: seq<Item>, trailing: bool, tail: seq<Piece>)
    returns (keys: seq<string>)
    requires Fresh(r) && GoodItems(items) && AllGood(tail) && Trivia(tail)
    ensures Final(TakePieces(r, BodyPieces(items, trailing, tail))) == r.keys + keys
    ensures !HasOdd(items) ==> keys == Names(items)
    ensures HasOdd(items) ==> exists key :: key in keys && !Identifier(key)
    decreases |items|
  {
    if items == [] {
      EndFlushes(r, tail);
      return [];
    }
    var item, rest := items[0], items[1..];
    assert items == [item] + rest;
    assert GoodItem(item) by { assert item in items; }
    assert GoodItems(rest) by { forall i | i in rest ensures GoodItem(i) { assert i in items; } }
    var added := ItemRun(r, item);
    var others := [];
    if |items| > 1 || trailing {
      var t := CommaRun(r, ItemPieces(item), BodyPieces(rest, trailing, tail), added);
      others := BodyRun(t, rest, trailing, tail);
      Reassociate(r.keys, added, others);
    } else {
      LastRun(r, item, tail, added);
      Nothing(ItemPieces(item));
      Nothing(added);
    }
    keys := added + others;
    BodyKeys(item, rest, added, others);
  }

  lemma LastRun(r: Reader, item: Item, tail: seq<Piece>, added: seq<string>)
    requires Adds(r, TakePieces(r, ItemPieces(item)), added) && Trivia(tail)
    ensures Final(TakePieces(r, ItemPieces(item) + tail)) == r.keys + added
  {
    TakeAppend(r, ItemPieces(item), tail);
    EndFlushes(TakePieces(r, ItemPieces(item)), tail);
  }

  lemma BodyKeys(item: Item, rest: seq<Item>, added: seq<string>, others: seq<string>)
    requires item.Named? ==> added == [item.name]
    requires item.Quoted? ==> added == []
    requires item.Odd? ==> added != [] && !Identifier(added[0])
    requires !HasOdd(rest) ==> others == Names(rest)
    requires HasOdd(rest) ==> exists key :: key in others && !Identifier(key)
    ensures !HasOdd([item] + rest) ==> added + others == Names([item] + rest)
    ensures HasOdd([item] + rest) ==> exists key :: key in added + others && !Identifier(key)
  {
    var items := [item] + rest;
    assert items[1..] == rest && item in items;
    if HasOdd(rest) {
      var odd :| odd in rest && odd.Odd?;
      assert odd in items;
      var key :| key in others && !Identifier(key);
      assert key in added + others;
    } else if item.Odd? {
      assert added[0] in added + others;
    }
  }

  lemma EndFlushes(s: Reader, tail: seq<Piece>)
    requires s.depth == 0 && Trivia(tail)
    ensures Final(TakePieces(s, tail)) == Final(s)
  {
    var blank := TriviaOver(s, tail);
    TrimSame(s.token, blank);
  }

  lemma TrimSame(s: string, blank: string)
    requires Blank(blank)
    ensures Trim(s + blank) == Trim(s)
    decreases |s|
  {
    if s == "" {
      TrimExact("", "", blank);
      assert "" + "" + blank == s + blank;
    } else if IsSpace(s[0]) {
      assert (s + blank)[1..] == s[1..] + blank;
      TrimSame(s[1..], blank);
    } else {
      TrimEndSkips(s, blank);
    }
  }

  lemma ItemRun(r: Reader, item: Item) returns (added: seq<string>)
    requires GoodItem(item) && Fresh(r)
    ensures Adds(r, TakePieces(r, ItemPieces(item)), added)
    ensures item.Named? ==> added == [item.name]
    ensures item.Quoted? ==> added == []
    ensures item.Odd? ==> added != [] && !Identifier(added[0])
  {
    match item
    case Named(_, _, _, _) => NamedRun(r, item); added := [item.name];
    case Quoted(_, _, _, _, _) => QuotedRun(r, item); added := [];
    case Odd(_, _, _) => var key := OddRun(r, item); added := [key];
  }

  // ---------------------------------------------------------------- the call

  lemma {:induction false} PiecesGood(items: seq<Item>, trailing: bool, tail: seq<Piece>)
    requires GoodItems(items) && AllGood(tail)
    ensures AllGood(BodyPieces(items, trailing, tail))
    decreases |items|
  {
    if items != [] {
      var item := items[0];
      assert item in items;
      PiecesGood(items[1..], trailing, tail);
      ItemGood(item);
      var comma := if |items| > 1 || trailing then COMMA else [];
      OneGood(Word(','));
      GoodAppend(ItemPieces(item), comma);
      GoodAppend(ItemPieces(item) + comma, BodyPieces(items[1..], trailing, tail));
    }
  }

  lemma OneGood(p: Piece)
    requires Good(p)
    ensures AllGood([p])
  {
    assert [p][1..] == [];
  }

  lemma ItemGood(item: Item)
    requires GoodItem(item)
    ensures AllGood(ItemPieces(item))
  {
    match item
    case Named(lead, name, gap, value) =>
      WordsGood(name);
      GoodAppend(lead, Words(name));
      GoodAppend(lead + Words(name), gap);
      if value.Some? {
        GoodAppend(COLON, value.value);
        GoodAppend(lead + Words(name) + gap, COLON + value.value);
      } else {
        GoodAppend(lead + Words(name) + gap, []);
      }
    case Quoted(lead, kind, units, gap, body) =>
      GoodAppend(lead, [Literal(kind, units)]);
      GoodAppend(lead + [Literal(kind, units)], gap);
      GoodAppend(lead + [Literal(kind, units)] + gap, COLON);
      GoodAppend(lead + [Literal(kind, units)] + gap + COLON, body);
    case Odd(lead, head, rest) =>
      GoodAppend(lead, [head]);
      GoodAppend(lead + [head], rest);
  }

  lemma {:induction false} WordsGood(text: string)
    requires forall c | c in text :: IdPart(c)
    ensures AllGood(Words(text))
    decreases |text|
  {
    if text != "" {
      assert text[0] in text;
      assert Words(text)[1..] == Words(text[1..]);
      WordsGood(text[1..]);
    }
  }

  lemma {:induction false} GoodAppend(a: seq<Piece>, b: seq<Piece>)
    requires AllGood(a) && AllGood(b)
    ensures AllGood(a + b)
    decreases |a|
  {
    if a == [] {
      assert a + b == b;
    } else {
      RestOfSum(a, b);
      GoodAppend(a[1..], b);
    }
  }

  /** The source text of a call with one object literal as its argument. */
  function CallText(
    callee: string, before: seq<Piece>, items: seq<Item>, trailing: bool, tail: seq<Piece>,
    after: seq<Piece>, rest: string): string
  {
    callee + ("(" + PrintAll(before + [Group('{', BodyPieces(items, trailing, tail), '}')] + after) + ")" + rest)
  }

  predicate Spaces(ps: seq<Piece>) {
    forall p | p in ps :: p.Word? && IsSpace(p.c)
  }

  lemma {:induction false} SpacesPrintBlank(ps: seq<Piece>)
    requires Spaces(ps)
    ensures Blank(PrintAll(ps)) && AllGood(ps)
    decreases |ps|
  {
    if ps != [] {
      assert ps[0] in ps;
      SpacesPrintBlank(ps[1..]);
    }
  }

  lemma {:induction false} PrintAppend(a: seq<Piece>, b: seq<Piece>)
    ensures PrintAll(a + b) == PrintAll(a) + PrintAll(b)
    decreases |a|
  {
    if a == [] {
      assert a + b == b;
    } else {
      RestOfSum(a, b);
      PrintAppend(a[1..], b);
    }
  }

  lemma PrintOne(p: Piece)
    ensures PrintAll([p]) == Print(p)
  {
    assert [p][1..] == [];
    assert Print(p) + "" == Print(p);
  }

  lemma ArgumentsText(before: seq<Piece>, body: seq<Piece>, after: seq<Piece>)
    requires Spaces(before) && Spaces(after) && AllGood(body)
    ensures var args := before + [Group('{', body, '}')] + after;
            AllGood(args) && Trim(PrintAll(args)) == "{" + PrintAll(body) + "}"
  {
    var group := Group('{', body, '}');
    SpacesPrintBlank(before);
    SpacesPrintBlank(after);
    OneGood(group);
    GoodAppend(before, [group]);
    GoodAppend(before + [group], after);
    PrintAppend(before + [group], after);
    PrintAppend(before, [group]);
    PrintOne(group);
    TrimExact(PrintAll(before), "{" + PrintAll(body) + "}", PrintAll(after));
  }

  lemma KeysOfBody(items: seq<Item>, trailing: bool, tail: seq<Piece>)
    requires GoodItems(items) && AllGood(tail) && Trivia(tail)
    ensures var keys := Keys(PrintAll(BodyPieces(items, trailing, tail)));
            && (!HasOdd(items) ==> keys == Names(items))
            && (HasOdd(items) ==> exists key :: key in keys && !Identifier(key))
  {
    var body := BodyPieces(items, trailing, tail);
    PiecesGood(items, trailing, tail);
    AllPrintedMarks(body, "");
    assert PrintAll(body) + "" == PrintAll(body);
    assert MarksOfAll(body) + [] == MarksOfAll(body);
    var keys := BodyRun(EMPTY_READER, items, trailing, tail);
    assert EMPTY_READER.keys + keys == keys;
  }

  lemma {:induction false} NamesAreIdentifiers(items: seq<Item>)
    requires GoodItems(items)
    ensures forall name | name in Names(items) :: Identifier(name)
    decreases |items|
  {
    if items != [] {
      assert items[0] in items;
      NamesAreIdentifiers(items[1..]);
    }
  }

  /** The keys reported are the names of the identifier entries, one for each and in order. */
  lemma {:induction false} NamesAre(items: seq<Item>) returns (at: seq<nat>)
    ensures |at| == |Names(items)|
    ensures forall j, k | 0 <= j < k < |at| :: at[j] < at[k]
    ensures forall k | 0 <= k < |at| :: at[k] < |items| && items[at[k]].Named? && Names(items)[k] == items[at[k]].name
    ensures forall i: nat | i < |items| && items[i].Named? :: i in at
    decreases |items|
  {
    at := [];
    if items != [] {
      var front, last := items[..|items| - 1], items[|items| - 1];
      at := NamesAre(front);
      NamesOfLast(items);
      if last.Named? {
        assert forall i | i in at :: i in at + [|front|];
        at := at + [|front|];
        assert at[|at| - 1] == |front|;
      }
    }
  }

  lemma {:induction false} NamesAppend(a: seq<Item>, b: seq<Item>)
    ensures Names(a + b) == Names(a) + Names(b)
    decreases |a|
  {
    if a == [] {
      Nothing(b);
      Nothing(Names(b));
    } else {
      RestOfSum(a, b);
      NamesAppend(a[1..], b);
      Reassociate(if a[0].Named? then [a[0].name] else [], Names(a[1..]), Names(b));
    }
  }

  lemma NamesOfLast(items: seq<Item>)
    requires items != []
    ensures var last := items[|items| - 1];
            Names(items) == Names(items[..|items| - 1]) + (if last.Named? then [last.name] else [])
  {
    var front, last := items[..|items| - 1], items[|items| - 1];
    assert items == front + [last];
    NamesAppend(front, [last]);
    HeadAndRest(last, []);
  }

  /** Reading a printed call: exactly the identifier keys, in order, unless some entry is a
      spread, a computed key or the like; then, and only then, it is unreadable. */
  lemma ReadsPrintedCall(
    callee: string, before: seq<Piece>, items: seq<Item>, trailing: bool, tail: seq<Piece>,
    after: seq<Piece>, rest: string)
    requires Spaces(before) && Spaces(after) && GoodItems(items) && AllGood(tail) && Trivia(tail)
    ensures var result := Read(CallText(callee, before, items, trailing, tail, after, rest), |callee|);
            && (HasOdd(items) <==> result.Unreadable?)
            && (!HasOdd(items) ==> result == Readable(Names(items)))
            && (HasOdd(items) ==> result.reason.UnreadableKey?)
  {
    var body := BodyPieces(items, trailing, tail);
    var args := before + [Group('{', body, '}')] + after;
    var text := CallText(callee, before, items, trailing, tail, after, rest);
    PiecesGood(items, trailing, tail);
    ArgumentsText(before, body, after);
    BalancedCutsExactly(args, rest);
    assert text[|callee|..] == "(" + PrintAll(args) + ")" + rest;
    var trimmed := Trim(PrintAll(args));
    assert trimmed[1..|trimmed| - 1] == PrintAll(body);
    KeysOfBody(items, trailing, tail);
    NamesAreIdentifiers(items);
  }

  /** A quoted key is not reported at all, and the literal still counts as readable: the keys
      read are all the keys exactly when none is quoted. */
  lemma QuotedKeysAreHidden(
    callee: string, before: seq<Piece>, items: seq<Item>, trailing: bool, tail: seq<Piece>,
    after: seq<Piece>, rest: string)
    requires Spaces(before) && Spaces(after) && GoodItems(items) && AllGood(tail) && Trivia(tail)
    requires !HasOdd(items)
    ensures var result := Read(CallText(callee, before, items, trailing, tail, after, rest), |callee|);
            && result.Readable?
            && (|result.keys| == |items| <==> forall item | item in items :: !item.Quoted?)
  {
    ReadsPrintedCall(callee, before, items, trailing, tail, after, rest);
    CountNames(items);
  }

  lemma {:induction false} CountNames(items: seq<Item>)
    requires !HasOdd(items)
    ensures |Names(items)| <= |items|
    ensures |Names(items)| == |items| <==> forall item | item in items :: !item.Quoted?
    decreases |items|
  {
    if items != [] {
      assert items == [items[0]] + items[1..];
      assert items[0] in items;
      assert !HasOdd(items[1..]) by {
        forall item | item in items[1..] ensures !item.Odd? { assert item in items; }
      }
      CountNames(items[1..]);
    }
  }

  /** For example {'a':1} reads as a literal without keys. */
  lemma OneQuotedKeyReadsAsNone(callee: string, rest: string)
    ensures Read(callee + ("(" + "{'a':1}" + ")" + rest), |callee|) == Readable([])
  {
    var quoted := Quoted([], Single, [One('a')], [], [Word('1')]);
    QuotedIsGood(quoted);
    PrintsQuoted(quoted);
    ReadsPrintedCall(callee, [], [quoted], false, [], [], rest);
  }

  lemma QuotedIsGood(quoted: Item)
    requires quoted == Quoted([], Single, [One('a')], [], [Word('1')])
    ensures GoodItems([quoted]) && !HasOdd([quoted]) && Names([quoted]) == []
  {
    OneGood(Word('1'));
    assert [quoted][1..] == [];
  }

  lemma PrintsQuotedKey()
    ensures Print(Literal(Single, [One('a')])) == "'a'"
  {
    assert [One('a')][1..] == [];
    assert PrintUnits([One('a')]) == "a";
  }

  lemma PrintsQuotedBody(body: seq<Piece>)
    requires body == [Literal(Single, [One('a')])] + ([Word(':')] + [Word('1')])
    ensures PrintAll(body) == "'a':1"
  {
    var key, colon, one := Literal(Single, [One('a')]), Word(':'), Word('1');
    PrintAppend([key], [colon] + [one]);
    PrintAppend([colon], [one]);
    PrintOne(key);
    PrintOne(colon);
    PrintOne(one);
    PrintsQuotedKey();
  }

  lemma QuotedBody(quoted: Item)
    requires quoted == Quoted([], Single, [One('a')], [], [Word('1')])
    ensures BodyPieces([quoted], false, []) == [Literal(Single, [One('a')])] + ([Word(':')] + [Word('1')])
  {
    assert BodyPieces([quoted][1..], false, []) == [];
    Nothing(ItemPieces(quoted));
    Nothing([Literal(Single, [One('a')])]);
    Reassociate([Literal(Single, [One('a')])], COLON, [Word('1')]);
  }

  lemma PrintsQuoted(quoted: Item)
    requires quoted == Quoted([], Single, [One('a')], [], [Word('1')])
    ensures PrintAll([] + [Group('{', BodyPieces([quoted], false, []), '}')] + []) == "{'a':1}"
  {
    var body := BodyPieces([quoted], false, []);
    QuotedBody(quoted);
    PrintsQuotedBody(body);
    PrintOne(Group('{', body, '}'));
    Nothing([Group('{', body, '}')]);
  }
}
