/** Reading the option keys of a call from source text, without a parser: a scanner that knows
    strings, comments and brackets. */
module OptionKeys {
  import opened Options
  import opened ShellWords

  // ---------------------------------------------------------------- the scanner

  datatype State = Code | Line | Block | Single | Double | Template

  /** What one character is to the scanners: code, something to pass over, or the start of a
      template hole. */
  datatype Mark = Plainly(c: char) | Passed | Hole

  predicate ClosesString(state: State, current: char) {
    || (state == Single && current == '\'')
    || (state == Double && current == '"')
    || (state == Template && current == '`')
  }

  function OpensNonCode(current: char, next: Option<char>): Option<State> {
    if current == '/' && next == Some('/') then Some(Line)
    else if current == '/' && next == Some('*') then Some(Block)
    else if current == '\'' then Some(Single)
    else if current == '"' then Some(Double)
    else if current == '`' then Some(Template)
    else None
  }

  /** The state after a character, whether the next one is taken with it, and its mark. */
  function Lex(state: State, current: char, next: Option<char>): (State, bool, Mark) {
    match state
    case Code =>
      var entered := OpensNonCode(current, next);
      if entered.Some? then (entered.value, entered.value.Line? || entered.value.Block?, Passed)
      else (Code, false, Plainly(current))
    case Line => (if current == '\n' then Code else Line, false, Passed)
    case Block => if current == '*' && next == Some('/') then (Code, true, Passed) else (Block, false, Passed)
    case _ =>
      if current == '\\' then (state, true, Passed)
      else
        (if ClosesString(state, current) then Code else state, false,
         if state == Template && current == '$' && next == Some('{') then Hole else Passed)
  }

  /** The marks of a text, one for each character. */
  function Marks(state: State, text: string): (marks: seq<Mark>)
    ensures |marks| == |text|
    decreases |text|
  {
    if text == "" then []
    else
      var (after, takesNext, mark) := Lex(state, text[0], Next(text, 0));
      if takesNext && |text| > 1 then [mark, Passed] + Marks(after, text[2..])
      else [mark] + Marks(after, text[1..])
  }

  predicate Opens(c: char) {
    c in {'(', '{', '['}
  }

  predicate Closes(c: char) {
    c in {')', '}', ']'}
  }

  // ---------------------------------------------------------------- balancing

  /** Where the bracket depth comes back to zero. */
  function CloseAt(marks: seq<Mark>, depth: nat): (end: Option<nat>)
    ensures end.Some? ==> end.value < |marks| && (depth == 0 ==> end.value > 0)
    decreases |marks|
  {
    if marks == [] || marks[0].Hole? then None
    else if marks[0].Plainly? && Closes(marks[0].c) && depth <= 1 then
      if depth == 1 then Some(0) else None
    else
      Later(CloseAt(marks[1..], Deeper(marks[0], depth)), 1)
  }

  function Deeper(mark: Mark, depth: nat): (deeper: nat)
    requires depth == 0 ==> !(mark.Plainly? && Closes(mark.c))
  {
    if mark.Plainly? && Opens(mark.c) then depth + 1
    else if mark.Plainly? && Closes(mark.c) then depth - 1
    else depth
  }

  function Later(end: Option<nat>, shift: nat): Option<nat> {
    if end.Some? then Some(end.value + shift) else None
  }

  /** The text between the bracket at the front and the one that closes it. */
  function Balanced(text: string): Option<string> {
    var end := CloseAt(Marks(Code, text), 0);
    if end.Some? then Some(text[1..end.value]) else None
  }

  // ---------------------------------------------------------------- keys

  datatype Reader = Reader(keys: seq<string>, depth: int, inValue: bool, token: string)

  const EMPTY_READER: Reader := Reader([], 0, false, "")

  function TrimStart(s: string): string {
    if s != "" && IsSpace(s[0]) then TrimStart(s[1..]) else s
  }

  function TrimEnd(s: string): string {
    if s != "" && IsSpace(s[|s| - 1]) then TrimEnd(s[..|s| - 1]) else s
  }

  function Trim(s: string): string {
    TrimEnd(TrimStart(s))
  }

  function Flush(r: Reader): Reader {
    var name := Trim(r.token);
    r.(token := "", keys := if name != "" && r.depth == 0 then r.keys + [name] else r.keys)
  }

  function Take(r: Reader, mark: Mark): Reader {
    if !mark.Plainly? then r
    else
      var c := mark.c;
      if Opens(c) then r.(depth := r.depth + 1, token := if r.inValue then r.token else r.token + [c])
      else if Closes(c) then r.(depth := r.depth - 1, token := if r.inValue then r.token else r.token + [c])
      else if c == ':' && r.depth == 0 && !r.inValue then Flush(r).(inValue := true)
      else if c == ',' && r.depth == 0 then
        if r.inValue then r.(inValue := false, token := "") else Flush(r)
      else if !r.inValue then r.(token := r.token + [c])
      else r
  }

  function TakeAll(r: Reader, marks: seq<Mark>): Reader
    decreases |marks|
  {
    if marks == [] then r else TakeAll(Take(r, marks[0]), marks[1..])
  }

  function Keys(body: string): seq<string> {
    var r := TakeAll(EMPTY_READER, Marks(Code, body));
    (if r.inValue then r else Flush(r)).keys
  }

  // ---------------------------------------------------------------- the reader

  datatype CallOptionKeys = Readable(keys: seq<string>) | Unreadable(reason: Reason)

  datatype Reason = NeverCloses | NoOptions | NotAnObjectLiteral | UnreadableKey(key: string)

  predicate IdStart(c: char) {
    'A' <= c <= 'Z' || 'a' <= c <= 'z' || c in {'_', '$'}
  }

  predicate IdPart(c: char) {
    IdStart(c) || '0' <= c <= '9'
  }

  predicate Identifier(s: string) {
    s != "" && IdStart(s[0]) && forall c | c in s :: IdPart(c)
  }

  function FirstUnreadable(keys: seq<string>): (key: Option<string>)
    ensures key == None <==> forall k | k in keys :: Identifier(k)
    ensures key.Some? ==> key.value in keys && !Identifier(key.value)
  {
    if keys == [] then None
    else if !Identifier(keys[0]) then Some(keys[0])
    else
      assert keys == [keys[0]] + keys[1..];
      FirstUnreadable(keys[1..])
  }

  function Read(text: string, parenIndex: nat): CallOptionKeys {
    var args := if parenIndex <= |text| then Balanced(text[parenIndex..]) else None;
    if args == None then Unreadable(NeverCloses)
    else
      var trimmed := Trim(args.value);
      if trimmed == "" then Unreadable(NoOptions)
      else if trimmed[0] != '{' || trimmed[|trimmed| - 1] != '}' then Unreadable(NotAnObjectLiteral)
      else
        var keys := Keys(trimmed[1..|trimmed| - 1]);
        var unreadable := FirstUnreadable(keys);
        if unreadable.Some? then Unreadable(UnreadableKey(unreadable.value)) else Readable(keys)
  }

  // ---------------------------------------------------------------- the program's loops

  method BalancedArguments(text: string, openIndex: nat) returns (args: Option<string>)
    requires openIndex <= |text|
    ensures args == Balanced(text[openIndex..])
  {
    var depth: nat := 0;
    var state := Code;
    var index := openIndex;
    assert Scanned(text, openIndex, index, state, depth);
    while index < |text|
      invariant openIndex <= index <= |text|
      invariant Scanned(text, openIndex, index, state, depth)
    {
      var current := text[index];
      var (after, takesNext, mark) := Lex(state, current, Next(text, index));
      ScanStep(text, openIndex, index, state, depth);
      if mark.Hole? { return None; }
      if mark.Plainly? {
        if Opens(current) {
          depth := depth + 1;
        } else if Closes(current) {
          if depth == 0 { return None; }
          depth := depth - 1;
          if depth == 0 {
            return Some(text[openIndex + 1..index]);
          }
        }
      }
      state := after;
      index := index + (if takesNext && index + 1 < |text| then 2 else 1);
    }
    return None;
  }

  /** What is left to scan decides the whole. */
  ghost predicate Scanned(text: string, openIndex: nat, index: nat, state: State, depth: nat)
    requires openIndex <= index <= |text|
  {
    && (depth > 0 ==> index > openIndex)
    && CloseFrom(text, openIndex, Code, 0) == Later(CloseFrom(text, index, state, depth), index - openIndex)
  }

  ghost function CloseFrom(text: string, index: nat, state: State, depth: nat): Option<nat>
    requires index <= |text|
  {
    CloseAt(Marks(state, text[index..]), depth)
  }

  lemma ScanStep(text: string, openIndex: nat, index: nat, state: State, depth: nat)
    requires openIndex <= index < |text| && Scanned(text, openIndex, index, state, depth)
    ensures var (after, takesNext, mark) := Lex(state, text[index], Next(text, index));
            var more := if takesNext && index + 1 < |text| then 2 else 1;
            && (mark.Plainly? ==> mark.c == text[index])
            && (if mark.Hole? || (mark.Plainly? && Closes(text[index]) && depth == 0)
                then Balanced(text[openIndex..]) == None
                else if mark.Plainly? && Closes(text[index]) && depth == 1
                then index > openIndex && Balanced(text[openIndex..]) == Some(text[openIndex + 1..index])
                else Scanned(text, openIndex, index + more, after, Deeper(mark, depth)))
  {
    CloseFromStep(text, index, state, depth);
    if depth == 1 && CloseFrom(text, index, state, depth) == Some(0) {
      assert text[openIndex..][1..index - openIndex] == text[openIndex + 1..index];
    }
  }

  lemma CloseFromStep(text: string, index: nat, state: State, depth: nat)
    requires index < |text|
    ensures var (after, takesNext, mark) := Lex(state, text[index], Next(text, index));
            var more := if takesNext && index + 1 < |text| then 2 else 1;
            && (mark.Plainly? ==> mark.c == text[index])
            && CloseFrom(text, index, state, depth) ==
                 if mark.Hole? then None
                 else if mark.Plainly? && Closes(text[index]) && depth <= 1 then if depth == 1 then Some(0) else None
                 else Later(CloseFrom(text, index + more, after, Deeper(mark, depth)), more)
  {
    var here := text[index..];
    assert Next(here, 0) == Next(text, index) && here[1..] == text[index + 1..];
    assert |here| > 1 ==> here[2..] == text[index + 2..];
    CloseStep(state, here, depth);
  }

  lemma CloseTwo(more: seq<Mark>, depth: nat)
    ensures CloseAt([Passed, Passed] + more, depth) == Later(CloseAt(more, depth), 2)
  {
    var marks := [Passed, Passed] + more;
    assert marks[1..] == [Passed] + more;
    assert marks[1..][1..] == more;
  }

  lemma CloseStep(state: State, text: string, depth: nat)
    requires text != ""
    ensures var (after, takesNext, mark) := Lex(state, text[0], Next(text, 0));
            && (mark.Plainly? ==> mark.c == text[0] && !takesNext)
            && CloseAt(Marks(state, text), depth) ==
                 if mark.Hole? then None
                 else if mark.Plainly? && Closes(text[0]) && depth <= 1 then if depth == 1 then Some(0) else None
                 else if takesNext && |text| > 1 then Later(CloseAt(Marks(after, text[2..]), depth), 2)
                 else Later(CloseAt(Marks(after, text[1..]), Deeper(mark, depth)), 1)
  {
    var (after, takesNext, mark) := Lex(state, text[0], Next(text, 0));
    if takesNext && |text| > 1 {
      CloseTwo(Marks(after, text[2..]), depth);
    } else {
      assert Marks(state, text)[1..] == Marks(after, text[1..]);
    }
  }

  method ObjectLiteralKeys(body: string) returns (keys: seq<string>)
    ensures keys == Keys(body)
  {
    keys := [];
    var depth := 0;
    var state := Code;
    var inValue := false;
    var token := "";
    var index := 0;
    while index < |body|
      invariant index <= |body|
      invariant TakeAll(EMPTY_READER, Marks(Code, body))
             == TakeAll(Reader(keys, depth, inValue, token), Marks(state, body[index..]))
    {
      var current := body[index];
      var next := Next(body, index);
      ghost var here := body[index..];
      ghost var before := Reader(keys, depth, inValue, token);
      assert Next(here, 0) == next && here[1..] == body[index + 1..];
      assert |here| > 1 ==> here[2..] == body[index + 2..];
      var (after, takesNext, mark) := Lex(state, current, next);
      MarksStep(before, state, here);
      if mark.Plainly? {
        if Opens(current) {
          depth := depth + 1;
          if !inValue { token := token + [current]; }
        } else if Closes(current) {
          depth := depth - 1;
          if !inValue { token := token + [current]; }
        } else if current == ':' && depth == 0 && !inValue {
          keys := FlushInto(keys, depth, token);
          token := "";
          inValue := true;
        } else if current == ',' && depth == 0 {
          if inValue {
            inValue := false;
          } else {
            keys := FlushInto(keys, depth, token);
          }
          token := "";
        } else if !inValue {
          token := token + [current];
        }
      }
      state := after;
      index := index + (if takesNext && index + 1 < |body| then 2 else 1);
    }
    if !inValue {
      keys := FlushInto(keys, depth, token);
    }
  }

  function FlushInto(keys: seq<string>, depth: int, token: string): seq<string> {
    Flush(Reader(keys, depth, false, token)).keys
  }

  lemma MarksStep(r: Reader, state: State, text: string)
    requires text != ""
    ensures var (after, takesNext, mark) := Lex(state, text[0], Next(text, 0));
            TakeAll(r, Marks(state, text)) ==
              TakeAll(Take(r, mark), Marks(after, if takesNext && |text| > 1 then text[2..] else text[1..]))
    ensures Lex(state, text[0], Next(text, 0)).2.Plainly? ==> Lex(state, text[0], Next(text, 0)).2.c == text[0]
  {
    var (after, takesNext, mark) := Lex(state, text[0], Next(text, 0));
    var marks := Marks(state, text);
    if takesNext && |text| > 1 {
      assert marks[1..] == [Passed] + Marks(after, text[2..]);
      assert marks[1..][1..] == Marks(after, text[2..]);
    } else {
      assert marks[1..] == Marks(after, text[1..]);
    }
  }

  method ReadCallOptionKeys(text: string, parenIndex: nat) returns (result: CallOptionKeys)
    requires parenIndex <= |text|
    ensures result == Read(text, parenIndex)
  {
    var args := BalancedArguments(text, parenIndex);
    if args == None { return Unreadable(NeverCloses); }
    if Trim(args.value) == "" { return Unreadable(NoOptions); }
    var trimmed := Trim(args.value);
    if trimmed[0] != '{' || trimmed[|trimmed| - 1] != '}' { return Unreadable(NotAnObjectLiteral); }
    var keys := ObjectLiteralKeys(trimmed[1..|trimmed| - 1]);
    var unreadable := FirstUnreadable(keys);
    if unreadable != None { return Unreadable(UnreadableKey(unreadable.value)); }
    return Readable(keys);
  }
}
