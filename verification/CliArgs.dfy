/** Command-line arguments: splitting argv into a command path and flags, packing repeated
    flags, and turning positional words into flags. */
module CliArgs {
  import opened Options
  import opened Seqs
  import opened CommandSpecs
  import opened CliFlags

  const REPEATED_FLAG_SEPARATOR: char := 0 as char
  const REPEATABLE_STRING_FLAGS: set<string> := {"label", "skill"}

  datatype ParsedArgs = ParsedArgs(commandPath: seq<string>, flags: FlagMap, conflicts: seq<string>)

  // ---------------------------------------------------------------- tokens

  predicate IsFlag(token: string) {
    "--" <= token
  }

  /** Where the first '=' is, or the length if there is none. */
  function EqualsIndex(s: string): (i: nat)
    ensures i <= |s|
  {
    if s == "" || s[0] == '=' then 0 else 1 + EqualsIndex(s[1..])
  }

  /** What the token loop collects: path words and flag entries, each in order. */
  datatype Tokens = Tokens(path: seq<string>, entries: seq<Entry>)

  /** The token loop from index i on. `booleans` are the flags that never take a value and
      `commandIndex` is where a registered command starts, or -1. */
  function ScanTokens(argv: seq<string>, i: nat, t: Tokens, booleans: set<string>, commandIndex: int): Tokens
    requires i <= |argv|
    decreases |argv| - i
  {
    if i == |argv| then t
    else if !IsFlag(argv[i]) then
      ScanTokens(argv, i + 1, t.(path := t.path + [argv[i]]), booleans, commandIndex)
    else
      var assignment := argv[i][2..];
      var equals := EqualsIndex(assignment);
      if equals < |assignment| then
        var entry := Entry(assignment[..equals], Text(assignment[equals + 1..]));
        ScanTokens(argv, i + 1, t.(entries := t.entries + [entry]), booleans, commandIndex)
      else if TakesNext(argv, i, t.path, booleans, commandIndex) then
        var entry := Entry(assignment, Text(argv[i + 1]));
        ScanTokens(argv, i + 2, t.(entries := t.entries + [entry]), booleans, commandIndex)
      else
        ScanTokens(argv, i + 1, t.(entries := t.entries + [Entry(assignment, Bare)]), booleans, commandIndex)
  }

  /** Whether the flag at i takes the next token for its value. */
  predicate TakesNext(argv: seq<string>, i: nat, path: seq<string>, booleans: set<string>, commandIndex: int)
    requires i < |argv| && IsFlag(argv[i])
  {
    && argv[i][2..] !in booleans
    && !(path == [] && i + 1 == commandIndex)
    && i + 1 < |argv| && !IsFlag(argv[i + 1])
  }

  function SetFlagValue(flags: FlagMap, name: string, value: string, repeatable: set<string>): FlagMap {
    match Get(flags, name)
    case Some(Text(existing)) =>
      if name in repeatable then Set(flags, name, Text(existing + [REPEATED_FLAG_SEPARATOR] + value))
      else Set(flags, name, Text(value))
    case _ => Set(flags, name, Text(value))
  }

  function SetEntry(flags: FlagMap, entry: Entry, repeatable: set<string>): FlagMap {
    match entry.value
    case Text(text) => SetFlagValue(flags, entry.name, text, repeatable)
    case Bare => Set(flags, entry.name, Bare)
  }

  function SetAll(flags: FlagMap, entries: seq<Entry>, repeatable: set<string>): FlagMap
    decreases |entries|
  {
    if entries == [] then flags else SetAll(SetEntry(flags, entries[0], repeatable), entries[1..], repeatable)
  }

  // ---------------------------------------------------------------- the program's loops

  /** Every spelling of every command, in declaration order. */
  function Spellings(specs: seq<CommandSpec>): seq<(CommandSpec, seq<string>)> {
    if specs == [] then []
    else Spellings(specs[..|specs| - 1]) + SpellingsOf(specs[|specs| - 1], SpecPaths(specs[|specs| - 1]))
  }

  function SpellingsOf(spec: CommandSpec, paths: seq<seq<string>>): seq<(CommandSpec, seq<string>)> {
    if paths == [] then [] else SpellingsOf(spec, paths[..|paths| - 1]) + [(spec, paths[|paths| - 1])]
  }

  /** The longest spelling that starts the path; the first of equal length. */
  function Longest(spellings: seq<(CommandSpec, seq<string>)>, path: seq<string>): Option<(CommandSpec, seq<string>)> {
    if spellings == [] then None
    else
      var best := Longest(spellings[..|spellings| - 1], path);
      var last := spellings[|spellings| - 1];
      if last.1 <= path && (best == None || |last.1| > |best.value.1|) then Some(last) else best
  }

  /** The k-th spelling starts the path, none that does is longer, and all before it that do
      are shorter. */
  ghost predicate FirstLongest(spellings: seq<(CommandSpec, seq<string>)>, path: seq<string>, k: nat) {
    && k < |spellings| && spellings[k].1 <= path
    && (forall j | 0 <= j < |spellings| && spellings[j].1 <= path :: |spellings[j].1| <= |spellings[k].1|)
    && (forall j | 0 <= j < k && spellings[j].1 <= path :: |spellings[j].1| < |spellings[k].1|)
  }

  lemma {:induction false} LongestIsLongest(spellings: seq<(CommandSpec, seq<string>)>, path: seq<string>)
    returns (k: nat)
    ensures var best := Longest(spellings, path);
            if best == None then forall j | 0 <= j < |spellings| :: !(spellings[j].1 <= path)
            else FirstLongest(spellings, path, k) && spellings[k] == best.value
    decreases |spellings|
  {
    k := 0;
    if spellings != [] {
      var front, last := spellings[..|spellings| - 1], spellings[|spellings| - 1];
      k := LongestIsLongest(front, path);
      var before := Longest(front, path);
      if last.1 <= path && (before == None || |last.1| > |before.value.1|) {
        k := |front|;
        LastIsLongest(front, last, path, before);
      } else if before.Some? {
        FirstStaysLongest(front, last, path, k);
      }
      assert spellings == front + [last];
    }
  }

  lemma LastIsLongest(
    front: seq<(CommandSpec, seq<string>)>, last: (CommandSpec, seq<string>), path: seq<string>,
    before: Option<(CommandSpec, seq<string>)>)
    requires last.1 <= path && (before.Some? ==> |last.1| > |before.value.1|)
    requires before == None ==> forall j | 0 <= j < |front| :: !(front[j].1 <= path)
    requires before.Some? ==> forall j | 0 <= j < |front| && front[j].1 <= path :: |front[j].1| <= |before.value.1|
    ensures FirstLongest(front + [last], path, |front|)
  {}

  lemma FirstStaysLongest(
    front: seq<(CommandSpec, seq<string>)>, last: (CommandSpec, seq<string>), path: seq<string>, k: nat)
    requires FirstLongest(front, path, k) && (last.1 <= path ==> |last.1| <= |front[k].1|)
    ensures FirstLongest(front + [last], path, k)
  {}

  method SpecForPathPrefix(specs: seq<CommandSpec>, path: seq<string>) returns (best: Option<(CommandSpec, seq<string>)>)
    ensures best == Longest(Spellings(specs), path)
  {
    best := None;
    for n := 0 to |specs|
      invariant best == Longest(Spellings(specs[..n]), path)
    {
      assert specs[..n + 1][..n] == specs[..n];
      best := TrySpellings(specs[n], SpecPaths(specs[n]), path, best, Spellings(specs[..n]));
    }
    assert specs[..|specs|] == specs;
  }

  method TrySpellings(
    spec: CommandSpec, paths: seq<seq<string>>, path: seq<string>, sofar: Option<(CommandSpec, seq<string>)>,
    ghost before: seq<(CommandSpec, seq<string>)>)
    returns (best: Option<(CommandSpec, seq<string>)>)
    requires sofar == Longest(before, path)
    ensures best == Longest(before + SpellingsOf(spec, paths), path)
  {
    best := sofar;
    assert before + [] == before;
    for m := 0 to |paths|
      invariant best == Longest(before + SpellingsOf(spec, paths[..m]), path)
    {
      assert paths[..m + 1][..m] == paths[..m];
      ghost var longer := before + SpellingsOf(spec, paths[..m + 1]);
      assert longer[..|longer| - 1] == before + SpellingsOf(spec, paths[..m]);
      if paths[m] <= path && (best == None || |paths[m]| > |best.value.1|) {
        best := Some((spec, paths[m]));
      }
    }
    assert paths[..|paths|] == paths;
  }

  /** The flags that pile up for this command: two everywhere, and those it declares. */
  function RepeatableFor(specs: seq<CommandSpec>, path: seq<string>): set<string> {
    var best := Longest(Spellings(specs), path);
    REPEATABLE_STRING_FLAGS + (if best.Some? then set name | name in best.value.0.repeatableFlags else {})
  }

  function Parse(argv: seq<string>, booleans: set<string>, commandIndex: int, specs: seq<CommandSpec>): ParsedArgs {
    var t := ScanTokens(argv, 0, Tokens([], []), booleans, commandIndex);
    ParsedArgs(t.path, SetAll([], t.entries, RepeatableFor(specs, t.path)), [])
  }

  method ParseArgs(argv: seq<string>, booleans: set<string>, commandIndex: int, specs: seq<CommandSpec>)
    returns (parsed: ParsedArgs)
    ensures parsed == Parse(argv, booleans, commandIndex, specs)
  {
    var commandPath: seq<string> := [];
    var flagEntries: seq<Entry> := [];
    var i := 0;
    while i < |argv|
      invariant i <= |argv|
      invariant ScanTokens(argv, 0, Tokens([], []), booleans, commandIndex)
             == ScanTokens(argv, i, Tokens(commandPath, flagEntries), booleans, commandIndex)
      decreases |argv| - i
    {
      var token := argv[i];
      if !IsFlag(token) {
        commandPath := commandPath + [token];
        i := i + 1;
        continue;
      }
      var assignment := token[2..];
      var equalsIndex := EqualsIndex(assignment);
      if equalsIndex != |assignment| {
        flagEntries := flagEntries + [Entry(assignment[..equalsIndex], Text(assignment[equalsIndex + 1..]))];
        i := i + 1;
        continue;
      }
      if assignment in booleans {
        flagEntries := flagEntries + [Entry(assignment, Bare)];
        i := i + 1;
        continue;
      }
      if commandPath == [] && i + 1 == commandIndex {
        flagEntries := flagEntries + [Entry(assignment, Bare)];
        i := i + 1;
        continue;
      }
      if i + 1 == |argv| || IsFlag(argv[i + 1]) {
        flagEntries := flagEntries + [Entry(assignment, Bare)];
        i := i + 1;
        continue;
      }
      flagEntries := flagEntries + [Entry(assignment, Text(argv[i + 1]))];
      i := i + 2;
    }
    var spec := SpecForPathPrefix(specs, commandPath);
    var repeatable := REPEATABLE_STRING_FLAGS
      + (if spec.Some? then set name | name in spec.value.0.repeatableFlags else {});
    var flags: FlagMap := [];
    for k := 0 to |flagEntries|
      invariant SetAll([], flagEntries, repeatable) == SetAll(flags, flagEntries[k..], repeatable)
    {
      assert flagEntries[k..][1..] == flagEntries[k + 1..];
      flags := SetEntry(flags, flagEntries[k], repeatable);
    }
    parsed := ParsedArgs(commandPath, flags, []);
  }

  // ---------------------------------------------------------------- printing argv

  /** One thing on a command line: a word, --name=value, --name value, or --name. */
  datatype Item = Word(token: string) | Assign(name: string, value: string)
                | Spaced(name: string, value: string) | Switch(name: string)

  function PrintItem(item: Item): seq<string> {
    match item
    case Word(token) => [token]
    case Assign(name, value) => ["--" + name + "=" + value]
    case Spaced(name, value) => ["--" + name, value]
    case Switch(name) => ["--" + name]
  }

  function PrintItems(items: seq<Item>): seq<string> {
    if items == [] then [] else PrintItem(items[0]) + PrintItems(items[1..])
  }

  function ItemWords(items: seq<Item>): seq<string> {
    if items == [] then []
    else (if items[0].Word? then [items[0].token] else []) + ItemWords(items[1..])
  }

  function ItemEntry(item: Item): seq<Entry> {
    match item
    case Word(_) => []
    case Assign(name, value) => [Entry(name, Text(value))]
    case Spaced(name, value) => [Entry(name, Text(value))]
    case Switch(name) => [Entry(name, Bare)]
  }

  function ItemEntries(items: seq<Item>): seq<Entry> {
    if items == [] then [] else ItemEntry(items[0]) + ItemEntries(items[1..])
  }

  /** The items can be told apart once printed from position `at` on, `named` saying whether a
      word has come before: names hold no '='; words and spaced values are not flags; a spaced
      flag may take a value here and a bare one may not. */
  predicate Printable(items: seq<Item>, at: nat, named: bool, booleans: set<string>, commandIndex: int)
    decreases |items|
  {
    items == [] ||
    (var rest := items[1..];
     match items[0]
     case Word(token) => !IsFlag(token) && Printable(rest, at + 1, true, booleans, commandIndex)
     case Assign(name, _) => '=' !in name && Printable(rest, at + 1, named, booleans, commandIndex)
     case Spaced(name, value) =>
       && '=' !in name && name !in booleans && !IsFlag(value) && (named || at + 1 != commandIndex)
       && Printable(rest, at + 2, named, booleans, commandIndex)
     case Switch(name) =>
       && '=' !in name
       && (name in booleans || (!named && at + 1 == commandIndex) || rest == [] || !rest[0].Word?)
       && Printable(rest, at + 1, named, booleans, commandIndex))
  }

  lemma {:induction false} EqualsIndexAt(name: string, rest: string)
    requires '=' !in name && (rest == "" || rest[0] == '=')
    ensures EqualsIndex(name + rest) == |name|
    decreases |name|
  {
    if name == "" {
      assert name + rest == rest;
    } else {
      assert name[0] in name;
      assert (name + rest)[1..] == name[1..] + rest;
      EqualsIndexAt(name[1..], rest);
    }
  }

  lemma PrintedFirst(items: seq<Item>)
    requires items != []
    ensures PrintItems(items) != []
    ensures PrintItems(items)[0] == PrintItem(items[0])[0]
    ensures !items[0].Word? ==> IsFlag(PrintItems(items)[0])
  {}

  /** What stands at `at` when the rest of argv is `printed` and then `more`. */
  lemma Slice(argv: seq<string>, at: nat, printed: seq<string>, more: seq<string>)
    requires at <= |argv| && argv[at..] == printed + more
    ensures at + |printed| <= |argv| && argv[at + |printed|..] == more
    ensures forall k | 0 <= k < |printed| :: argv[at + k] == printed[k]
    ensures more != [] ==> at + |printed| < |argv| && argv[at + |printed|] == more[0]
    ensures more == [] ==> |argv| == at + |printed|
  {
    assert argv[at + |printed|..] == argv[at..][|printed|..];
    forall k | 0 <= k < |printed| ensures argv[at + k] == printed[k] {
      assert argv[at + k] == argv[at..][k];
    }
    if more != [] {
      assert argv[at + |printed|] == argv[at..][|printed|];
    }
  }

  function AddItem(t: Tokens, item: Item): Tokens {
    Tokens(if item.Word? then t.path + [item.token] else t.path, t.entries + ItemEntry(item))
  }

  /** One printed item is read back as that item. */
  lemma ScanItem(
    argv: seq<string>, at: nat, t: Tokens, item: Item, rest: seq<Item>, booleans: set<string>, commandIndex: int)
    requires at <= |argv| && argv[at..] == PrintItem(item) + PrintItems(rest)
    requires Printable([item] + rest, at, t.path != [], booleans, commandIndex)
    ensures var next := at + |PrintItem(item)|;
            && next <= |argv| && argv[next..] == PrintItems(rest)
            && Printable(rest, next, AddItem(t, item).path != [], booleans, commandIndex)
            && ScanTokens(argv, at, t, booleans, commandIndex)
                 == ScanTokens(argv, next, AddItem(t, item), booleans, commandIndex)
  {
    HeadAndRest(item, rest);
    Slice(argv, at, PrintItem(item), PrintItems(rest));
    if rest != [] { PrintedFirst(rest); }
    match item {
      case Word(token) => ScanWord(argv, at, t, token, booleans, commandIndex);
      case Assign(name, value) => ScanAssign(argv, at, t, name, value, booleans, commandIndex);
      case Spaced(name, value) =>
        assert argv[at + 1] == PrintItem(item)[1];
        ScanSpaced(argv, at, t, name, value, booleans, commandIndex);
      case Switch(name) => ScanSwitch(argv, at, t, name, booleans, commandIndex);
    }
  }

  /** Parsing undoes printing, for words and flags interleaved in any way. */
  lemma {:induction false} ScanPrinted(
    argv: seq<string>, at: nat, t: Tokens, items: seq<Item>, booleans: set<string>, commandIndex: int)
    requires at <= |argv| && argv[at..] == PrintItems(items)
    requires Printable(items, at, t.path != [], booleans, commandIndex)
    ensures ScanTokens(argv, at, t, booleans, commandIndex)
         == Tokens(t.path + ItemWords(items), t.entries + ItemEntries(items))
    decreases |items|
  {
    if items == [] {
      assert |argv[at..]| == 0;
      Nothing(t.path);
      Nothing(t.entries);
    } else {
      var item, rest := items[0], items[1..];
      assert items == [item] + rest;
      ScanItem(argv, at, t, item, rest, booleans, commandIndex);
      ScanPrinted(argv, at + |PrintItem(item)|, AddItem(t, item), rest, booleans, commandIndex);
      AddItemFirst(t, items);
    }
  }

  lemma AddItemFirst(t: Tokens, items: seq<Item>)
    requires items != []
    ensures AddItem(t, items[0]).path + ItemWords(items[1..]) == t.path + ItemWords(items)
    ensures AddItem(t, items[0]).entries + ItemEntries(items[1..]) == t.entries + ItemEntries(items)
  {
    var rest := ItemWords(items[1..]);
    if items[0].Word? {
      Reassociate(t.path, [items[0].token], rest);
    } else {
      assert ItemWords(items) == rest;
    }
    Reassociate(t.entries, ItemEntry(items[0]), ItemEntries(items[1..]));
  }

  lemma ScanWord(argv: seq<string>, at: nat, t: Tokens, token: string, booleans: set<string>, commandIndex: int)
    requires at < |argv| && argv[at] == token && !IsFlag(token)
    ensures ScanTokens(argv, at, t, booleans, commandIndex)
         == ScanTokens(argv, at + 1, AddItem(t, Word(token)), booleans, commandIndex)
  {
    Nothing(t.entries);
  }

  lemma ScanAssign(
    argv: seq<string>, at: nat, t: Tokens, name: string, value: string, booleans: set<string>, commandIndex: int)
    requires at < |argv| && argv[at] == "--" + name + "=" + value && '=' !in name
    ensures ScanTokens(argv, at, t, booleans, commandIndex)
         == ScanTokens(argv, at + 1, AddItem(t, Assign(name, value)), booleans, commandIndex)
  {
    var assignment := name + ("=" + value);
    assert argv[at][2..] == assignment;
    EqualsIndexAt(name, "=" + value);
    assert assignment[..|name|] == name && assignment[|name| + 1..] == value;
  }

  lemma ScanSpaced(
    argv: seq<string>, at: nat, t: Tokens, name: string, value: string, booleans: set<string>, commandIndex: int)
    requires at + 1 < |argv| && argv[at] == "--" + name && argv[at + 1] == value
    requires '=' !in name && name !in booleans && !IsFlag(value) && (t.path != [] || at + 1 != commandIndex)
    ensures ScanTokens(argv, at, t, booleans, commandIndex)
         == ScanTokens(argv, at + 2, AddItem(t, Spaced(name, value)), booleans, commandIndex)
  {
    BareName(name);
    assert TakesNext(argv, at, t.path, booleans, commandIndex);
  }

  lemma ScanSwitch(
    argv: seq<string>, at: nat, t: Tokens, name: string, booleans: set<string>, commandIndex: int)
    requires at < |argv| && argv[at] == "--" + name && '=' !in name
    requires name in booleans || (t.path == [] && at + 1 == commandIndex)
             || at + 1 == |argv| || IsFlag(argv[at + 1])
    ensures ScanTokens(argv, at, t, booleans, commandIndex)
         == ScanTokens(argv, at + 1, AddItem(t, Switch(name)), booleans, commandIndex)
  {
    BareName(name);
    assert !TakesNext(argv, at, t.path, booleans, commandIndex);
  }

  lemma BareName(name: string)
    requires '=' !in name
    ensures IsFlag("--" + name) && ("--" + name)[2..] == name && EqualsIndex(name) == |name|
  {
    EqualsIndexAt(name, "");
    assert name + "" == name;
  }

  /** The argv of any printable items parses to their words and, set in order, their flags. */
  lemma ParseUndoesPrint(items: seq<Item>, booleans: set<string>, commandIndex: int, specs: seq<CommandSpec>)
    requires Printable(items, 0, false, booleans, commandIndex)
    ensures var parsed := Parse(PrintItems(items), booleans, commandIndex, specs);
            && parsed.commandPath == ItemWords(items)
            && parsed.flags == SetAll([], ItemEntries(items), RepeatableFor(specs, ItemWords(items)))
  {
    var argv := PrintItems(items);
    assert argv[0..] == argv;
    ScanPrinted(argv, 0, Tokens([], []), items, booleans, commandIndex);
    assert [] + ItemWords(items) == ItemWords(items);
    assert [] + ItemEntries(items) == ItemEntries(items);
  }

  /** A value may follow its flag after a space or after '=': the command line means the same. */
  function Respace(items: seq<Item>): seq<Item> {
    if items == [] then []
    else [if items[0].Spaced? then Assign(items[0].name, items[0].value) else items[0]] + Respace(items[1..])
  }

  lemma {:induction false} RespaceKeeps(items: seq<Item>)
    ensures ItemWords(Respace(items)) == ItemWords(items) && ItemEntries(Respace(items)) == ItemEntries(items)
    decreases |items|
  {
    if items != [] {
      RespaceKeeps(items[1..]);
      assert Respace(items)[1..] == Respace(items[1..]);
    }
  }

  /** Every spaced flag comes after a word, `named` saying whether there has been one. */
  predicate SpacedAfterWord(items: seq<Item>, named: bool)
    decreases |items|
  {
    items == [] || ((items[0].Spaced? ==> named) && SpacedAfterWord(items[1..], named || items[0].Word?))
  }

  /** Joining the spaced values, all of them behind a word, keeps a command line printable:
      behind a word positions no longer matter, and before it they stay. */
  lemma {:induction false} RespaceStaysPrintable(
    items: seq<Item>, at: nat, other: nat, named: bool, booleans: set<string>, commandIndex: int)
    requires Printable(items, at, named, booleans, commandIndex) && SpacedAfterWord(items, named)
    requires named || at == other
    ensures Printable(Respace(items), other, named, booleans, commandIndex)
    decreases |items|
  {
    if items != [] {
      var first, rest := items[0], items[1..];
      RespaceFirst(items);
      if rest != [] {
        RespaceFirst(rest);
      }
      RespaceStaysPrintable(rest, at + |PrintItem(first)|, other + 1, named || first.Word?, booleans, commandIndex);
    }
  }

  lemma RespaceFirst(items: seq<Item>)
    requires items != []
    ensures Respace(items) != [] && Respace(items)[1..] == Respace(items[1..])
    ensures Respace(items)[0] == if items[0].Spaced? then Assign(items[0].name, items[0].value) else items[0]
  {}

  /** After a word, --name value and --name=value parse alike. */
  lemma SpacedAfterWordMeansAssigned(items: seq<Item>, booleans: set<string>, commandIndex: int, specs: seq<CommandSpec>)
    requires Printable(items, 0, false, booleans, commandIndex) && SpacedAfterWord(items, false)
    ensures Parse(PrintItems(items), booleans, commandIndex, specs)
         == Parse(PrintItems(Respace(items)), booleans, commandIndex, specs)
  {
    RespaceStaysPrintable(items, 0, 0, false, booleans, commandIndex);
    SpacedMeansAssigned(items, booleans, commandIndex, commandIndex, specs);
  }

  /** Wherever both spellings are printable they parse alike. */
  lemma SpacedMeansAssigned(
    items: seq<Item>, booleans: set<string>, commandIndex: int, otherIndex: int, specs: seq<CommandSpec>)
    requires Printable(items, 0, false, booleans, commandIndex)
    requires Printable(Respace(items), 0, false, booleans, otherIndex)
    ensures Parse(PrintItems(items), booleans, commandIndex, specs)
         == Parse(PrintItems(Respace(items)), booleans, otherIndex, specs)
  {
    ParseUndoesPrint(items, booleans, commandIndex, specs);
    ParseUndoesPrint(Respace(items), booleans, otherIndex, specs);
    RespaceKeeps(items);
  }

  // ---------------------------------------------------------------- the round trip

  function PathItems(path: seq<string>): seq<Item> {
    if path == [] then [] else [Word(path[0])] + PathItems(path[1..])
  }

  function FlagItems(flags: FlagMap): seq<Item> {
    if flags == [] then []
    else [if flags[0].value.Bare? then Switch(flags[0].name) else Assign(flags[0].name, flags[0].value.text)]
         + FlagItems(flags[1..])
  }

  lemma {:induction false} FlagItemsPrint(flags: FlagMap, at: nat, named: bool, booleans: set<string>, commandIndex: int)
    requires forall e | e in flags :: '=' !in e.name
    ensures Printable(FlagItems(flags), at, named, booleans, commandIndex)
    ensures ItemWords(FlagItems(flags)) == [] && ItemEntries(FlagItems(flags)) == flags
    decreases |flags|
  {
    if flags != [] {
      var items := FlagItems(flags);
      assert flags[0] in flags && items[1..] == FlagItems(flags[1..]);
      FlagItemsPrint(flags[1..], at + 1, named, booleans, commandIndex);
      assert ItemEntry(items[0]) == [flags[0]];
      assert flags == [flags[0]] + flags[1..];
    }
  }

  lemma {:induction false} PathItemsPrint(
    path: seq<string>, flags: FlagMap, at: nat, named: bool, booleans: set<string>, commandIndex: int)
    requires forall word | word in path :: !IsFlag(word)
    requires forall e | e in flags :: '=' !in e.name
    ensures var items := PathItems(path) + FlagItems(flags);
            && Printable(items, at, named, booleans, commandIndex)
            && ItemWords(items) == path && ItemEntries(items) == flags
    decreases |path|
  {
    var items := PathItems(path) + FlagItems(flags);
    if path == [] {
      assert items == FlagItems(flags);
      FlagItemsPrint(flags, at, named, booleans, commandIndex);
    } else {
      assert path[0] in path;
      assert items == [Word(path[0])] + (PathItems(path[1..]) + FlagItems(flags));
      assert items[1..] == PathItems(path[1..]) + FlagItems(flags);
      PathItemsPrint(path[1..], flags, at + 1, true, booleans, commandIndex);
      assert path == [path[0]] + path[1..];
    }
  }

  lemma {:induction false} GetNone(flags: FlagMap, name: string)
    ensures Get(flags, name) == None <==> forall e | e in flags :: e.name != name
    decreases |flags|
  {
    if flags != [] {
      assert flags == [flags[0]] + flags[1..];
      GetNone(flags[1..], name);
    }
  }

  lemma {:induction false} SetNew(flags: FlagMap, name: string, value: FlagValue)
    requires Get(flags, name) == None
    ensures Set(flags, name, value) == flags + [Entry(name, value)]
    decreases |flags|
  {
    if flags != [] {
      SetNew(flags[1..], name, value);
    }
  }

  lemma UniqueNames(done: FlagMap, todo: FlagMap)
    requires Unique(done + todo) && todo != []
    ensures forall d | d in done :: d.name != todo[0].name
  {
    var all := done + todo;
    forall d | d in done ensures d.name != todo[0].name {
      var k :| 0 <= k < |done| && done[k] == d;
      assert all[k] == d && all[|done|] == todo[0];
    }
  }

  lemma SetNewEntry(flags: FlagMap, e: Entry, repeatable: set<string>)
    requires forall d | d in flags :: d.name != e.name
    ensures SetEntry(flags, e, repeatable) == flags + [e]
  {
    GetNone(flags, e.name);
    SetNew(flags, e.name, e.value);
  }

  /** Setting the entries of a map one by one rebuilds it, in order. */
  lemma {:induction false} SetAllRebuilds(done: FlagMap, todo: FlagMap, repeatable: set<string>)
    requires Unique(done + todo)
    ensures SetAll(done, todo, repeatable) == done + todo
    decreases |todo|
  {
    if todo == [] {
      Nothing(done);
    } else {
      var e := todo[0];
      UniqueNames(done, todo);
      SetNewEntry(done, e, repeatable);
      MoveFirst(done, todo);
      SetAllRebuilds(done + [e], todo[1..], repeatable);
    }
  }

  /** Any command path and any flag map, printed as --name=value and --name, parse back to the
      same path and the same map in the same order, whichever flags are boolean or repeatable. */
  lemma ParseRoundTrip(
    path: seq<string>, flags: FlagMap, booleans: set<string>, commandIndex: int, specs: seq<CommandSpec>)
    requires forall word | word in path :: !IsFlag(word)
    requires Unique(flags) && forall e | e in flags :: '=' !in e.name
    ensures Parse(PrintItems(PathItems(path) + FlagItems(flags)), booleans, commandIndex, specs)
         == ParsedArgs(path, flags, [])
  {
    var items := PathItems(path) + FlagItems(flags);
    PathItemsPrint(path, flags, 0, false, booleans, commandIndex);
    ParseUndoesPrint(items, booleans, commandIndex, specs);
    assert [] + flags == flags;
    SetAllRebuilds([], flags, RepeatableFor(specs, path));
  }

  /** And there is nothing else on a command line: every argv is the print of printable items. */
  lemma {:induction false} EveryArgvIsPrinted(
    argv: seq<string>, at: nat, named: bool, booleans: set<string>, commandIndex: int) returns (items: seq<Item>)
    requires at <= |argv|
    ensures PrintItems(items) == argv[at..] && Printable(items, at, named, booleans, commandIndex)
    decreases |argv| - at
  {
    if at == |argv| { return []; }
    var token := argv[at];
    if !IsFlag(token) {
      var rest := EveryArgvIsPrinted(argv, at + 1, true, booleans, commandIndex);
      items := Prepend(argv, at, Word(token), rest);
      return;
    }
    var assignment := token[2..];
    SplitFlag(token);
    var equals := EqualsIndex(assignment);
    if equals < |assignment| {
      var rest := EveryArgvIsPrinted(argv, at + 1, named, booleans, commandIndex);
      var name, value := assignment[..equals], assignment[equals + 1..];
      items := Prepend(argv, at, Assign(name, value), rest);
    } else if assignment !in booleans && !(!named && at + 1 == commandIndex)
              && at + 1 < |argv| && !IsFlag(argv[at + 1]) {
      var rest := EveryArgvIsPrinted(argv, at + 2, named, booleans, commandIndex);
      items := Prepend(argv, at, Spaced(assignment, argv[at + 1]), rest);
    } else {
      var rest := EveryArgvIsPrinted(argv, at + 1, named, booleans, commandIndex);
      NoWordFollows(argv, at + 1, rest);
      items := Prepend(argv, at, Switch(assignment), rest);
    }
  }

  /** What stands at `at` is a flag unless a word was printed there. */
  lemma NoWordFollows(argv: seq<string>, at: nat, rest: seq<Item>)
    requires at <= |argv| && PrintItems(rest) == argv[at..]
    ensures rest != [] && rest[0].Word? ==> at < |argv| && argv[at] == rest[0].token
    ensures rest == [] ==> at == |argv|
  {
    if rest != [] {
      PrintedFirst(rest);
      assert argv[at..][0] == argv[at];
    }
  }

  /** A flag token is its two dashes, its name and, from the first '=' on, its value. */
  lemma SplitFlag(token: string)
    requires IsFlag(token)
    ensures var assignment := token[2..];
            var i := EqualsIndex(assignment);
            && token == "--" + assignment && '=' !in assignment[..i]
            && (i < |assignment| ==> token == "--" + assignment[..i] + "=" + assignment[i + 1..])
            && (i == |assignment| ==> assignment[..i] == assignment)
  {
    SplitAtEquals(token[2..]);
  }

  lemma Prepend(argv: seq<string>, at: nat, item: Item, rest: seq<Item>) returns (items: seq<Item>)
    requires at + |PrintItem(item)| <= |argv| && PrintItems(rest) == argv[at + |PrintItem(item)|..]
    requires forall k | 0 <= k < |PrintItem(item)| :: argv[at + k] == PrintItem(item)[k]
    ensures items != [] && items[0] == item && items[1..] == rest && PrintItems(items) == argv[at..]
  {
    items := [item] + rest;
    assert argv[at..] == PrintItem(item) + argv[at + |PrintItem(item)|..];
  }

  lemma {:induction false} SplitAtEquals(s: string)
    ensures var i := EqualsIndex(s);
            '=' !in s[..i] && (i < |s| ==> s == s[..i] + "=" + s[i + 1..])
    decreases |s|
  {
    if s != "" && s[0] != '=' {
      SplitAtEquals(s[1..]);
      var i := EqualsIndex(s);
      assert s[..i] == [s[0]] + s[1..][..i - 1];
    }
  }

  // ---------------------------------------------------------------- flags that hold one value

  /** The k-th entry is the last of its name. */
  ghost predicate LastOf(entries: seq<Entry>, name: string, k: nat) {
    k < |entries| && entries[k].name == name && forall j | k < j < |entries| :: entries[j].name != name
  }

  lemma {:induction false} SetAllLast(flags: FlagMap, entries: seq<Entry>, repeatable: set<string>, name: string, k: nat)
    requires name !in repeatable && LastOf(entries, name, k)
    ensures Get(SetAll(flags, entries, repeatable), name) == Some(entries[k].value)
    decreases |entries|
  {
    var next, rest := SetEntry(flags, entries[0], repeatable), entries[1..];
    if k > 0 {
      assert forall j | k - 1 < j < |rest| :: rest[j] == entries[j + 1];
      SetAllLast(next, rest, repeatable, name, k - 1);
    } else {
      assert forall e | e in rest :: exists j :: 0 < j < |entries| && entries[j] == e;
      SetAllOthers(next, rest, repeatable, name);
    }
  }

  lemma {:induction false} SetAllOthers(flags: FlagMap, entries: seq<Entry>, repeatable: set<string>, name: string)
    requires forall e | e in entries :: e.name != name
    ensures Get(SetAll(flags, entries, repeatable), name) == Get(flags, name)
    decreases |entries|
  {
    if entries != [] {
      assert entries[0] in entries;
      SetAllOthers(SetEntry(flags, entries[0], repeatable), entries[1..], repeatable, name);
    }
  }

  /** A flag that does not pile up holds what was given for it last, a value or none; one that was
      not given is not in the map. */
  lemma LastOneCounts(items: seq<Item>, name: string, k: nat, booleans: set<string>, commandIndex: int, specs: seq<CommandSpec>)
    requires Printable(items, 0, false, booleans, commandIndex)
    ensures var flags := Parse(PrintItems(items), booleans, commandIndex, specs).flags;
            && (name !in RepeatableFor(specs, ItemWords(items)) && LastOf(ItemEntries(items), name, k) ==>
                  Get(flags, name) == Some(ItemEntries(items)[k].value))
            && ((forall e | e in ItemEntries(items) :: e.name != name) ==> Get(flags, name) == None)
  {
    ParseUndoesPrint(items, booleans, commandIndex, specs);
    var entries, repeatable := ItemEntries(items), RepeatableFor(specs, ItemWords(items));
    if name !in repeatable && LastOf(entries, name, k) {
      SetAllLast([], entries, repeatable, name, k);
    }
    if forall e | e in entries :: e.name != name {
      SetAllOthers([], entries, repeatable, name);
    }
  }

  // ---------------------------------------------------------------- which flags pile up

  lemma {:induction false} SpellingsOfAre(spec: CommandSpec, paths: seq<seq<string>>)
    ensures |SpellingsOf(spec, paths)| == |paths|
    ensures forall m | 0 <= m < |paths| :: SpellingsOf(spec, paths)[m] == (spec, paths[m])
    decreases |paths|
  {
    if paths != [] {
      SpellingsOfAre(spec, paths[..|paths| - 1]);
    }
  }

  /** The spellings are the paths and aliases of the commands, each with its command. */
  lemma {:induction false} SpellingsAre(specs: seq<CommandSpec>, spec: CommandSpec, path: seq<string>)
    ensures (spec, path) in Spellings(specs) <==>
              spec in specs && (path == spec.path || (spec.aliases.Some? && path in spec.aliases.value))
    decreases |specs|
  {
    if specs != [] {
      var front, last := specs[..|specs| - 1], specs[|specs| - 1];
      SpellingsAre(front, spec, path);
      SpellingsOfAre(last, SpecPaths(last));
      assert specs == front + [last];
      if spec == last && path in SpecPaths(last) {
        var m :| 0 <= m < |SpecPaths(last)| && SpecPaths(last)[m] == path;
        assert SpellingsOf(last, SpecPaths(last))[m] == (spec, path);
      }
    }
  }

  /** In declaration order. */
  lemma {:induction false} SpellingsInOrder(a: seq<CommandSpec>, b: seq<CommandSpec>)
    ensures Spellings(a + b) == Spellings(a) + Spellings(b)
    decreases |b|
  {
    if b == [] {
      Nothing(a);
      Nothing(Spellings(a));
    } else {
      FrontOfSum(a, b);
      SpellingsInOrder(a, b[..|b| - 1]);
      var last := b[|b| - 1];
      Reassociate(Spellings(a), Spellings(b[..|b| - 1]), SpellingsOf(last, SpecPaths(last)));
    }
  }

  /** A flag piles up for a command line exactly if it is one of the two that always do, or the
      command with the longest spelling that starts the path declares it. */
  lemma PilesUpExactlyIf(specs: seq<CommandSpec>, path: seq<string>, name: string)
    ensures name in RepeatableFor(specs, path) <==>
              || name in {"label", "skill"}
              || exists k: nat :: FirstLongest(Spellings(specs), path, k) && name in Spellings(specs)[k].0.repeatableFlags
  {
    var k := LongestIsLongest(Spellings(specs), path);
    forall j: nat | FirstLongest(Spellings(specs), path, j) ensures Longest(Spellings(specs), path) != None && j == k {
      assert Spellings(specs)[j].1 <= path;
    }
  }
}
