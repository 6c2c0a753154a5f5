/** A flag given several times is packed into one text and read back as a list: the reader must
    undo the packing, across parsing and across words turned into flags. */
module RepeatedFlags {
  import opened Numbers
  import opened Options
  import opened Seqs
  import opened CommandSpecs
  import opened CliFlags
  import opened CliArgs

  // ---------------------------------------------------------------- the reader

  /** Split at every separator; never empty. */
  function Split(s: string): (parts: seq<string>)
    ensures parts != []
    decreases |s|
  {
    if s == "" then [""]
    else if s[0] == REPEATED_FLAG_SEPARATOR then [""] + Split(s[1..])
    else
      var parts := Split(s[1..]);
      [[s[0]] + parts[0]] + parts[1..]
  }

  function NonEmpty(parts: seq<string>): seq<string> {
    if parts == [] then [] else (if parts[0] != "" then [parts[0]] else []) + NonEmpty(parts[1..])
  }

  function GetRepeatedStringFlag(flags: FlagMap, name: string): Result<seq<string>> {
    match GetOptionalStringFlag(flags, name)
    case Err(e) => Err(e)
    case Ok(None) => Ok([])
    case Ok(Some(text)) => Ok(NonEmpty(Split(text)))
  }

  // ---------------------------------------------------------------- packing

  /** The values joined with separators, as repeated setting packs them. */
  function Pack(values: seq<string>): string {
    if values == [] then ""
    else if |values| == 1 then values[0]
    else Pack(values[..|values| - 1]) + [REPEATED_FLAG_SEPARATOR] + values[|values| - 1]
  }

  predicate Clean(values: seq<string>) {
    forall v | v in values :: REPEATED_FLAG_SEPARATOR !in v
  }

  lemma {:induction false} SplitClean(v: string)
    requires REPEATED_FLAG_SEPARATOR !in v
    ensures Split(v) == [v]
    decreases |v|
  {
    if v != "" {
      assert v[0] in v && v == [v[0]] + v[1..];
      assert REPEATED_FLAG_SEPARATOR !in v[1..];
      SplitClean(v[1..]);
    }
  }

  lemma {:induction false} SplitAppend(s: string, v: string)
    ensures Split(s + [REPEATED_FLAG_SEPARATOR] + v) == Split(s) + Split(v)
    decreases |s|
  {
    var t := s + [REPEATED_FLAG_SEPARATOR] + v;
    if s == "" {
      assert t[1..] == v;
    } else {
      RestOfThree(s, [REPEATED_FLAG_SEPARATOR], v);
      SplitAppend(s[1..], v);
      var parts, more := Split(s[1..]), Split(v);
      if s[0] == REPEATED_FLAG_SEPARATOR {
        Reassociate([""], parts, more);
      } else {
        RestOfSum(parts, more);
        Reassociate([[s[0]] + parts[0]], parts[1..], more);
      }
    }
  }

  /** Splitting undoes packing for values without separators. */
  lemma {:induction false} SplitUndoesPack(values: seq<string>)
    requires values != [] && Clean(values)
    ensures Split(Pack(values)) == values
    decreases |values|
  {
    var n := |values|;
    assert values[n - 1] in values;
    SplitClean(values[n - 1]);
    if n == 1 {
      assert values == [values[0]];
    } else {
      SplitUndoesPack(values[..n - 1]);
      SplitAppend(Pack(values[..n - 1]), values[n - 1]);
      assert values == values[..n - 1] + [values[n - 1]];
    }
  }

  lemma {:induction false} PackEmpty(values: seq<string>)
    requires Pack(values) == ""
    ensures NonEmpty(values) == []
    decreases |values|
  {
    if |values| == 1 {
      assert values[1..] == [];
    }
  }

  /** Reading a packed text gives the values that are not empty, in order. */
  lemma ReadPacked(flags: FlagMap, name: string, values: seq<string>)
    requires values != [] && Clean(values) && Get(flags, name) == Some(Text(Pack(values)))
    ensures GetRepeatedStringFlag(flags, name) == Ok(NonEmpty(values))
  {
    if Pack(values) == "" {
      PackEmpty(values);
    } else {
      SplitUndoesPack(values);
    }
  }

  // ---------------------------------------------------------------- flags

  /** What a list of entries says about one flag: nothing; last passed bare; or these values
      since it was last passed bare. */
  datatype History = Absent | LastBare | Values(values: seq<string>)

  function Extend(h: History, value: FlagValue): History {
    match value
    case Bare => LastBare
    case Text(text) => if h.Values? then Values(h.values + [text]) else Values([text])
  }

  function HistoryOf(h: History, entries: seq<Entry>, name: string): History
    decreases |entries|
  {
    if entries == [] then h
    else HistoryOf(if entries[0].name == name then Extend(h, entries[0].value) else h, entries[1..], name)
  }

  /** The map holds the packed history of the flag. */
  ghost predicate Holds(flags: FlagMap, name: string, h: History) {
    && (h.Values? ==> h.values != [])
    && Get(flags, name) ==
         match h
         case Absent => None
         case LastBare => Some(Bare)
         case Values(values) => Some(Text(Pack(values)))
  }

  lemma SetEntryHolds(flags: FlagMap, entry: Entry, repeatable: set<string>, name: string, h: History)
    requires Holds(flags, name, h) && name in repeatable
    ensures Holds(SetEntry(flags, entry, repeatable), name, if entry.name == name then Extend(h, entry.value) else h)
  {
    if entry.name == name && entry.value.Text? && h.Values? {
      var longer := h.values + [entry.value.text];
      assert longer[..|longer| - 1] == h.values;
    }
  }

  lemma {:induction false} SetAllHolds(
    flags: FlagMap, entries: seq<Entry>, repeatable: set<string>, name: string, h: History)
    requires Holds(flags, name, h) && name in repeatable
    ensures Holds(SetAll(flags, entries, repeatable), name, HistoryOf(h, entries, name))
    decreases |entries|
  {
    if entries != [] {
      SetEntryHolds(flags, entries[0], repeatable, name, h);
      SetAllHolds(SetEntry(flags, entries[0], repeatable), entries[1..], repeatable, name,
                  if entries[0].name == name then Extend(h, entries[0].value) else h);
    }
  }

  lemma {:induction false} HistoryClean(h: History, entries: seq<Entry>, name: string)
    requires h.Values? ==> Clean(h.values)
    requires forall e | e in entries && e.name == name && e.value.Text? :: REPEATED_FLAG_SEPARATOR !in e.value.text
    ensures var r := HistoryOf(h, entries, name); r.Values? ==> Clean(r.values)
    decreases |entries|
  {
    if entries != [] {
      assert entries[0] in entries;
      HistoryClean(if entries[0].name == name then Extend(h, entries[0].value) else h, entries[1..], name);
    }
  }

  /** Whatever else is on the command line: a repeatable flag reads as the non-empty values
      given since it was last passed bare, in order; it is an error exactly if it was passed
      bare last. */
  lemma RepeatedRoundTrip(items: seq<Item>, name: string, booleans: set<string>, commandIndex: int, specs: seq<CommandSpec>)
    requires Printable(items, 0, false, booleans, commandIndex)
    requires name in RepeatableFor(specs, ItemWords(items))
    requires forall e | e in ItemEntries(items) && e.name == name && e.value.Text? ::
               REPEATED_FLAG_SEPARATOR !in e.value.text
    ensures var parsed := Parse(PrintItems(items), booleans, commandIndex, specs);
            GetRepeatedStringFlag(parsed.flags, name) ==
              match HistoryOf(Absent, ItemEntries(items), name)
              case Absent => Ok([])
              case LastBare => Err(NeedsValue(name))
              case Values(values) => Ok(NonEmpty(values))
  {
    ParseUndoesPrint(items, booleans, commandIndex, specs);
    var repeatable := RepeatableFor(specs, ItemWords(items));
    SetAllHolds([], ItemEntries(items), repeatable, name, Absent);
    HistoryClean(Absent, ItemEntries(items), name);
    var h := HistoryOf(Absent, ItemEntries(items), name);
    if h.Values? {
      ReadPacked(SetAll([], ItemEntries(items), repeatable), name, h.values);
    }
  }

  // ---------------------------------------------------------------- the values, one by one

  /** The entries of a flag from position `from` on stand at `at`, in order, and hold these texts;
      before `from` stands nothing or the flag passed bare. */
  ghost predicate GivenSince(entries: seq<Entry>, name: string, from: nat, at: seq<nat>, values: seq<string>) {
    && from <= |entries| && (from > 0 ==> entries[from - 1] == Entry(name, Bare))
    && |at| == |values|
    && (forall j, k | 0 <= j < k < |at| :: at[j] < at[k])
    && (forall k | 0 <= k < |at| :: from <= at[k] < |entries| && entries[at[k]] == Entry(name, Text(values[k])))
    && (forall i: nat | from <= i < |entries| && entries[i].name == name :: i in at)
  }

  lemma {:induction false} HistoryStep(h: History, entries: seq<Entry>, e: Entry, name: string)
    ensures HistoryOf(h, entries + [e], name) ==
              var before := HistoryOf(h, entries, name);
              if e.name == name then Extend(before, e.value) else before
    decreases |entries|
  {
    if entries == [] {
      Nothing([e]);
      assert [e][1..] == [];
    } else {
      RestOfSum(entries, [e]);
      HistoryStep(if entries[0].name == name then Extend(h, entries[0].value) else h, entries[1..], e, name);
    }
  }

  lemma {:induction false} HistoryIsGiven(entries: seq<Entry>, name: string, from: nat, at: seq<nat>, values: seq<string>)
    requires GivenSince(entries, name, from, at, values)
    ensures HistoryOf(Absent, entries, name) ==
              if values != [] then Values(values) else if from > 0 then LastBare else Absent
    decreases |entries|
  {
    if entries != [] {
      var front, last := entries[..|entries| - 1], entries[|entries| - 1];
      assert entries == front + [last];
      HistoryStep(Absent, front, last, name);
      if last.name != name {
        HistoryIsGiven(front, name, from, at, values);
      } else if from < |entries| {
        LastGiven(entries, name, from, at, values);
        var n := |at| - 1;
        HistoryIsGiven(front, name, from, at[..n], values[..n]);
        assert values == values[..n] + [values[n]];
      } else {
        assert values == [] by { assert at == []; }
      }
    }
  }

  lemma LastGiven(entries: seq<Entry>, name: string, from: nat, at: seq<nat>, values: seq<string>)
    requires GivenSince(entries, name, from, at, values) && from < |entries| && entries[|entries| - 1].name == name
    ensures at != [] && at[|at| - 1] == |entries| - 1 && entries[|entries| - 1].value == Text(values[|at| - 1])
    ensures GivenSince(entries[..|entries| - 1], name, from, at[..|at| - 1], values[..|at| - 1])
  {
    var end, n := |entries| - 1, |at| - 1;
    assert end in at;
    var k :| 0 <= k < |at| && at[k] == end;
    assert at[n] <= at[k];
    forall i: nat | from <= i < end && entries[i].name == name ensures i in at[..n] {
      var j :| 0 <= j < |at| && at[j] == i;
      assert at[..n][j] == i;
    }
  }

  lemma {:induction false} NonEmptyAppend(a: seq<string>, b: seq<string>)
    ensures NonEmpty(a + b) == NonEmpty(a) + NonEmpty(b)
    decreases |a|
  {
    if a == [] {
      Nothing(b);
      Nothing(NonEmpty(b));
    } else {
      RestOfSum(a, b);
      NonEmptyAppend(a[1..], b);
      Reassociate(if a[0] != "" then [a[0]] else [], NonEmpty(a[1..]), NonEmpty(b));
    }
  }

  lemma {:induction false} NoneEmpty(values: seq<string>)
    requires forall v | v in values :: v != ""
    ensures NonEmpty(values) == values
    decreases |values|
  {
    if values != [] {
      assert values[0] in values && forall v | v in values[1..] :: v in values;
      NoneEmpty(values[1..]);
      assert values == [values[0]] + values[1..];
    }
  }

  /** The values given for a repeatable flag since it was last passed bare, at whatever places
      among the flags of a command line, are read back one by one and in order; none is lost. */
  lemma ValuesComeBack(
    items: seq<Item>, name: string, from: nat, at: seq<nat>, values: seq<string>,
    booleans: set<string>, commandIndex: int, specs: seq<CommandSpec>)
    requires Printable(items, 0, false, booleans, commandIndex)
    requires name in RepeatableFor(specs, ItemWords(items))
    requires forall e | e in ItemEntries(items) && e.name == name && e.value.Text? ::
               REPEATED_FLAG_SEPARATOR !in e.value.text
    requires GivenSince(ItemEntries(items), name, from, at, values)
    requires values != [] && forall v | v in values :: v != ""
    ensures GetRepeatedStringFlag(Parse(PrintItems(items), booleans, commandIndex, specs).flags, name) == Ok(values)
  {
    HistoryIsGiven(ItemEntries(items), name, from, at, values);
    RepeatedRoundTrip(items, name, booleans, commandIndex, specs);
    NoneEmpty(values);
  }

  // ---------------------------------------------------------------- words turned into flags

  /** The flag the k-th extra word stands for: a variadic command's last name takes the rest. */
  function PositionalName(spec: CommandSpec, k: nat): string
    requires spec.positionalArgs != []
  {
    spec.positionalArgs[if k < |spec.positionalArgs| then k else |spec.positionalArgs| - 1]
  }

  /** Whether a command spelled `base` takes this path, its extra words being positional. */
  predicate Takes(spec: CommandSpec, base: seq<string>, path: seq<string>) {
    && base <= path
    && (spec.variadicPositional || |path| - |base| <= |spec.positionalArgs|)
  }

  /** Commands that normalization looks at: those with positional words or aliases. */
  predicate Normalizes(spec: CommandSpec) {
    spec.positionalArgs != [] || spec.aliases.Some?
  }

  /** One extra word; a flag passed as such keeps its value. */
  function SetPositional(flags: FlagMap, spec: CommandSpec, at: string, value: string, passed: FlagMap): FlagMap {
    if Get(passed, at) == None then SetFlagValue(flags, at, value, set n | n in spec.repeatableFlags) else flags
  }

  /** The extra words, set as flags one after the other. */
  function SetPositionals(flags: FlagMap, spec: CommandSpec, values: seq<string>, k: nat, passed: FlagMap): FlagMap
    requires k <= |values| && (values != [] ==> spec.positionalArgs != [])
    decreases |values| - k
  {
    if k == |values| then flags
    else
      SetPositionals(SetPositional(flags, spec, PositionalName(spec, k), values[k], passed),
                     spec, values, k + 1, passed)
  }

  /** The positional names that were also passed as flags. */
  function Conflicts(spec: CommandSpec, count: nat, k: nat, passed: FlagMap): seq<string>
    requires k <= count && (count > 0 ==> spec.positionalArgs != [])
    decreases count - k
  {
    if k == count then []
    else
      (if Get(passed, PositionalName(spec, k)) != None then [PositionalName(spec, k)] else [])
      + Conflicts(spec, count, k + 1, passed)
  }

  // A variadic command names the flag its words go to.
  predicate WellFormed(spec: CommandSpec) {
    spec.variadicPositional ==> spec.positionalArgs != []
  }

  function NormalizeAs(spec: CommandSpec, base: seq<string>, parsed: ParsedArgs): ParsedArgs
    requires WellFormed(spec) && Takes(spec, base, parsed.commandPath)
  {
    var values := parsed.commandPath[|base|..];
    ParsedArgs(spec.path, SetPositionals(parsed.flags, spec, values, 0, parsed.flags),
               Conflicts(spec, |values|, 0, parsed.flags))
  }

  /** No spelling of this command, among the first m, takes the path. */
  ghost predicate NoneTakes(spec: CommandSpec, m: nat, path: seq<string>)
    requires m <= |SpecPaths(spec)|
  {
    forall l | 0 <= l < m :: !Takes(spec, SpecPaths(spec)[l], path)
  }

  /** None of the first n commands takes the path. */
  ghost predicate NoCommandTakes(specs: seq<CommandSpec>, n: nat, path: seq<string>)
    requires n <= |specs|
  {
    forall j | 0 <= j < n && (specs[j].positionalArgs != [] || specs[j].aliases.Some?) ::
      NoneTakes(specs[j], |SpecPaths(specs[j])|, path)
  }

  /** The m-th spelling of the k-th command is the first that takes the path. */
  ghost predicate FirstTaker(specs: seq<CommandSpec>, k: nat, m: nat, path: seq<string>) {
    && k < |specs| && (specs[k].positionalArgs != [] || specs[k].aliases.Some?) && NoCommandTakes(specs, k, path)
    && m < |SpecPaths(specs[k])| && Takes(specs[k], SpecPaths(specs[k])[m], path) && NoneTakes(specs[k], m, path)
  }

  lemma TakerIsSeen(specs: seq<CommandSpec>, k: nat, m: nat, n: nat, path: seq<string>)
    requires k < n <= |specs| && Normalizes(specs[k])
    requires m < |SpecPaths(specs[k])| && Takes(specs[k], SpecPaths(specs[k])[m], path)
    ensures !NoCommandTakes(specs, n, path)
  {
    assert !NoneTakes(specs[k], |SpecPaths(specs[k])|, path);
  }

  /** There is at most one first taker. */
  lemma FirstTakerIsUnique(specs: seq<CommandSpec>, k: nat, m: nat, l: nat, n: nat, path: seq<string>)
    requires FirstTaker(specs, k, m, path) && FirstTaker(specs, l, n, path)
    ensures k == l && m == n
  {
    if k < l {
      TakerIsSeen(specs, k, m, l, path);
    } else if l < k {
      TakerIsSeen(specs, l, n, k, path);
    }
  }

  /** The first command and spelling, in order, that takes the path decides. */
  method NormalizeCommandPositionals(specs: seq<CommandSpec>, parsed: ParsedArgs) returns (result: ParsedArgs)
    requires forall spec | spec in specs :: WellFormed(spec)
    ensures NoCommandTakes(specs, |specs|, parsed.commandPath) ==> result == parsed
    ensures forall k: nat, m: nat | FirstTaker(specs, k, m, parsed.commandPath) ::
              result == NormalizeAs(specs[k], SpecPaths(specs[k])[m], parsed)
  {
    for n := 0 to |specs|
      invariant NoCommandTakes(specs, n, parsed.commandPath)
    {
      var spec := specs[n];
      if !Normalizes(spec) { continue; }
      var paths := SpecPaths(spec);
      for m := 0 to |paths|
        invariant NoneTakes(spec, m, parsed.commandPath)
      {
        var base := paths[m];
        if !Takes(spec, base, parsed.commandPath) { continue; }
        assert spec in specs;
        forall k: nat, l: nat | FirstTaker(specs, k, l, parsed.commandPath) ensures k == n && l == m {
          FirstTakerIsUnique(specs, k, l, n, m, parsed.commandPath);
        }
        return NormalizeAs(spec, base, parsed);
      }
    }
    forall k: nat, m: nat ensures !FirstTaker(specs, k, m, parsed.commandPath) {
      if FirstTaker(specs, k, m, parsed.commandPath) {
        TakerIsSeen(specs, k, m, |specs|, parsed.commandPath);
      }
    }
    return parsed;
  }

  /** The values from index k on that go to one name. */
  function ValuesFor(spec: CommandSpec, values: seq<string>, k: nat, name: string): seq<string>
    requires k <= |values| && (values != [] ==> spec.positionalArgs != [])
    decreases |values| - k
  {
    if k == |values| then []
    else (if PositionalName(spec, k) == name then [values[k]] else []) + ValuesFor(spec, values, k + 1, name)
  }

  function Given(values: seq<string>): History {
    if values == [] then Absent else Values(values)
  }

  // The map holds these values for the flag, or nothing.
  ghost predicate HoldsGiven(flags: FlagMap, name: string, values: seq<string>) {
    Holds(flags, name, Given(values))
  }

  /** The values of a flag after one more word. */
  function WithWord(before: seq<string>, at: string, value: string, name: string): seq<string> {
    if at == name then before + [value] else before
  }

  lemma PositionalStep(
    flags: FlagMap, spec: CommandSpec, at: string, value: string, passed: FlagMap, name: string, before: seq<string>)
    requires name in spec.repeatableFlags && Get(passed, name) == None && HoldsGiven(flags, name, before)
    ensures HoldsGiven(SetPositional(flags, spec, at, value, passed), name, WithWord(before, at, value, name))
  {
    SetEntryHolds(flags, Entry(at, Text(value)), (set n | n in spec.repeatableFlags), name, Given(before));
  }

  lemma {:induction false} PositionalsHold(
    flags: FlagMap, spec: CommandSpec, values: seq<string>, k: nat, passed: FlagMap, name: string, before: seq<string>)
    requires k <= |values| && (values != [] ==> spec.positionalArgs != [])
    requires name in spec.repeatableFlags && Get(passed, name) == None
    requires HoldsGiven(flags, name, before)
    ensures HoldsGiven(SetPositionals(flags, spec, values, k, passed), name, before + ValuesFor(spec, values, k, name))
    decreases |values| - k
  {
    if k == |values| {
      Nothing(before);
    } else {
      var at := PositionalName(spec, k);
      PositionalStep(flags, spec, at, values[k], passed, name, before);
      PositionalsHold(SetPositional(flags, spec, at, values[k], passed), spec, values, k + 1, passed, name,
                      WithWord(before, at, values[k], name));
      PositionalsGoOn(flags, spec, values, k, passed);
      ValuesGoOn(spec, values, k, name, before);
    }
  }

  lemma PositionalsGoOn(flags: FlagMap, spec: CommandSpec, values: seq<string>, k: nat, passed: FlagMap)
    requires k < |values| && spec.positionalArgs != []
    ensures SetPositionals(flags, spec, values, k, passed)
         == SetPositionals(SetPositional(flags, spec, PositionalName(spec, k), values[k], passed),
                           spec, values, k + 1, passed)
  {}

  lemma ValuesGoOn(spec: CommandSpec, values: seq<string>, k: nat, name: string, before: seq<string>)
    requires k < |values| && spec.positionalArgs != []
    ensures before + ValuesFor(spec, values, k, name)
         == WithWord(before, PositionalName(spec, k), values[k], name) + ValuesFor(spec, values, k + 1, name)
  {
    var rest := ValuesFor(spec, values, k + 1, name);
    Reassociate(before, [values[k]], rest);
    Nothing(rest);
  }

  /** Words given positionally to a repeatable flag read back as the non-empty ones, in order. */
  lemma PositionalRoundTrip(spec: CommandSpec, base: seq<string>, parsed: ParsedArgs, name: string)
    requires WellFormed(spec) && Takes(spec, base, parsed.commandPath)
    requires name in spec.repeatableFlags && Get(parsed.flags, name) == None
    requires Clean(parsed.commandPath)
    ensures GetRepeatedStringFlag(NormalizeAs(spec, base, parsed).flags, name)
         == Ok(NonEmpty(ValuesFor(spec, parsed.commandPath[|base|..], 0, name)))
  {
    var values := parsed.commandPath[|base|..];
    PositionalsHold(parsed.flags, spec, values, 0, parsed.flags, name, []);
    var all := ValuesFor(spec, values, 0, name);
    assert [] + all == all;
    assert Given([]) == Absent;
    ValuesClean(spec, values, 0, name);
    if all != [] {
      ReadPacked(NormalizeAs(spec, base, parsed).flags, name, all);
    }
  }

  /** A flag passed as such keeps its value. */
  lemma {:induction false} PositionalsKeepPassed(
    flags: FlagMap, spec: CommandSpec, values: seq<string>, k: nat, passed: FlagMap, name: string)
    requires k <= |values| && (values != [] ==> spec.positionalArgs != [])
    requires Get(passed, name) != None
    ensures Get(SetPositionals(flags, spec, values, k, passed), name) == Get(flags, name)
    decreases |values| - k
  {
    if k < |values| {
      var next := SetPositional(flags, spec, PositionalName(spec, k), values[k], passed);
      PositionalsKeepPassed(next, spec, values, k + 1, passed, name);
    }
  }

  lemma NormalizeKeepsPassed(spec: CommandSpec, base: seq<string>, parsed: ParsedArgs, name: string)
    requires WellFormed(spec) && Takes(spec, base, parsed.commandPath) && Get(parsed.flags, name) != None
    ensures Get(NormalizeAs(spec, base, parsed).flags, name) == Get(parsed.flags, name)
  {
    PositionalsKeepPassed(parsed.flags, spec, parsed.commandPath[|base|..], 0, parsed.flags, name);
  }

  /** A command spelled `base` takes the paths that go on from it by no more words than it has
      names for, or by any number if it is variadic. */
  lemma TakesExactlyIf(spec: CommandSpec, base: seq<string>, path: seq<string>)
    ensures Takes(spec, base, path) <==>
              exists extra :: path == base + extra && (|extra| <= |spec.positionalArgs| || spec.variadicPositional)
  {
    if Takes(spec, base, path) {
      assert path == base + path[|base|..];
    }
  }

  /** The k-th extra word stands for this flag: the k-th name's, or the last name's. */
  predicate StandsFor(spec: CommandSpec, k: nat, name: string) {
    spec.positionalArgs != [] && name == spec.positionalArgs[Min(k, |spec.positionalArgs| - 1)]
  }

  /** The k-th extra word is the last that stands for this flag. */
  ghost predicate LastFor(spec: CommandSpec, values: seq<string>, name: string, k: nat) {
    k < |values| && StandsFor(spec, k, name) && forall j: nat | k < j < |values| :: !StandsFor(spec, j, name)
  }

  lemma {:induction false} PositionalsSetLast(
    flags: FlagMap, spec: CommandSpec, values: seq<string>, i: nat, passed: FlagMap, name: string, k: nat)
    requires i <= k && LastFor(spec, values, name, k)
    requires name !in spec.repeatableFlags && Get(passed, name) == None
    ensures Get(SetPositionals(flags, spec, values, i, passed), name) == Some(Text(values[k]))
    decreases |values| - i
  {
    var next := SetPositional(flags, spec, PositionalName(spec, i), values[i], passed);
    if i < k {
      PositionalsSetLast(next, spec, values, i + 1, passed, name, k);
    } else {
      PositionalsLeave(next, spec, values, i + 1, passed, name);
    }
  }

  lemma {:induction false} PositionalsLeave(
    flags: FlagMap, spec: CommandSpec, values: seq<string>, i: nat, passed: FlagMap, name: string)
    requires i <= |values| && (values != [] ==> spec.positionalArgs != [])
    requires forall j: nat | i <= j < |values| :: !StandsFor(spec, j, name)
    ensures Get(SetPositionals(flags, spec, values, i, passed), name) == Get(flags, name)
    decreases |values| - i
  {
    if i < |values| {
      assert !StandsFor(spec, i, name);
      PositionalsLeave(SetPositional(flags, spec, PositionalName(spec, i), values[i], passed),
                       spec, values, i + 1, passed, name);
    }
  }

  lemma {:induction false} ConflictsAre(spec: CommandSpec, count: nat, k: nat, passed: FlagMap, name: string)
    requires k <= count && (count > 0 ==> spec.positionalArgs != [])
    ensures name in Conflicts(spec, count, k, passed) <==>
              Get(passed, name) != None && exists j: nat :: k <= j < count && StandsFor(spec, j, name)
    decreases count - k
  {
    if k < count {
      ConflictsAre(spec, count, k + 1, passed, name);
      assert StandsFor(spec, k, PositionalName(spec, k));
    }
  }

  /** Normalizing puts the command's own path, sets every flag some extra word stands for to the
      last such word unless it was passed as a flag or piles up, leaves the other flags alone, and
      reports exactly the flags that were given both ways. */
  lemma NormalizeSetsFlags(spec: CommandSpec, base: seq<string>, parsed: ParsedArgs, name: string, k: nat)
    requires WellFormed(spec) && Takes(spec, base, parsed.commandPath)
    ensures var r, values := NormalizeAs(spec, base, parsed), parsed.commandPath[|base|..];
            && r.commandPath == spec.path
            && (LastFor(spec, values, name, k) && name !in spec.repeatableFlags && Get(parsed.flags, name) == None ==>
                  Get(r.flags, name) == Some(Text(values[k])))
            && ((forall j: nat | j < |values| :: !StandsFor(spec, j, name)) ==>
                  Get(r.flags, name) == Get(parsed.flags, name))
            && (name in r.conflicts <==>
                  Get(parsed.flags, name) != None && exists j: nat :: j < |values| && StandsFor(spec, j, name))
  {
    var values := parsed.commandPath[|base|..];
    ConflictsAre(spec, |values|, 0, parsed.flags, name);
    if LastFor(spec, values, name, k) && name !in spec.repeatableFlags && Get(parsed.flags, name) == None {
      PositionalsSetLast(parsed.flags, spec, values, 0, parsed.flags, name, k);
    }
    if forall j: nat | j < |values| :: !StandsFor(spec, j, name) {
      PositionalsLeave(parsed.flags, spec, values, 0, parsed.flags, name);
    }
  }

  /** The extra words from the i-th on that stand for this flag are at `at`, in order. */
  ghost predicate WordsFor(spec: CommandSpec, values: seq<string>, i: nat, name: string, at: seq<nat>) {
    && (forall j, k | 0 <= j < k < |at| :: at[j] < at[k])
    && (forall k | 0 <= k < |at| :: i <= at[k] < |values| && StandsFor(spec, at[k], name))
    && (forall j: nat | i <= j < |values| && StandsFor(spec, j, name) :: j in at)
  }

  /** The words that go to a flag are those that stand for it, in order. */
  lemma {:induction false} ValuesAreWords(spec: CommandSpec, values: seq<string>, i: nat, name: string)
    returns (at: seq<nat>)
    requires i <= |values| && (values != [] ==> spec.positionalArgs != [])
    ensures WordsFor(spec, values, i, name, at)
    ensures |ValuesFor(spec, values, i, name)| == |at|
    ensures forall k | 0 <= k < |at| :: ValuesFor(spec, values, i, name)[k] == values[at[k]]
    decreases |values| - i
  {
    at := [];
    if i < |values| {
      at := ValuesAreWords(spec, values, i + 1, name);
      if PositionalName(spec, i) == name {
        at := OneWordMore(spec, values, i, name, at);
      } else {
        assert !StandsFor(spec, i, name);
      }
    }
  }

  lemma OneWordMore(spec: CommandSpec, values: seq<string>, i: nat, name: string, rest: seq<nat>) returns (at: seq<nat>)
    requires i < |values| && StandsFor(spec, i, name) && WordsFor(spec, values, i + 1, name, rest)
    ensures at == [i] + rest && WordsFor(spec, values, i, name, at)
  {
    at := [i] + rest;
    forall j: nat | i <= j < |values| && StandsFor(spec, j, name) ensures j in at {
      if j == i {
        assert at[0] == i;
      }
    }
  }

  /** From argv to the reader: a repeatable flag of the command that takes the line reads as the
      non-empty values given since it was last bare, in order; if it was not passed at all, as
      the non-empty words that stand for it; and as an error exactly if it was bare last. */
  lemma ParseNormalizeRead(
    items: seq<Item>, spec: CommandSpec, base: seq<string>, name: string,
    booleans: set<string>, commandIndex: int, specs: seq<CommandSpec>)
    requires Printable(items, 0, false, booleans, commandIndex)
    requires WellFormed(spec) && Takes(spec, base, ItemWords(items))
    requires name in spec.repeatableFlags && name in RepeatableFor(specs, ItemWords(items))
    requires Clean(ItemWords(items))
    requires forall e | e in ItemEntries(items) && e.name == name && e.value.Text? ::
               REPEATED_FLAG_SEPARATOR !in e.value.text
    ensures var parsed := Parse(PrintItems(items), booleans, commandIndex, specs);
            && parsed.commandPath == ItemWords(items)
            && GetRepeatedStringFlag(NormalizeAs(spec, base, parsed).flags, name) ==
                 match HistoryOf(Absent, ItemEntries(items), name)
                 case Absent => Ok(NonEmpty(ValuesFor(spec, ItemWords(items)[|base|..], 0, name)))
                 case LastBare => Err(NeedsValue(name))
                 case Values(values) => Ok(NonEmpty(values))
  {
    var parsed := Parse(PrintItems(items), booleans, commandIndex, specs);
    var h := HistoryOf(Absent, ItemEntries(items), name);
    ParseUndoesPrint(items, booleans, commandIndex, specs);
    SetAllHolds([], ItemEntries(items), RepeatableFor(specs, ItemWords(items)), name, Absent);
    if h == Absent {
      PositionalRoundTrip(spec, base, parsed, name);
    } else {
      NormalizeKeepsPassed(spec, base, parsed, name);
      RepeatedRoundTrip(items, name, booleans, commandIndex, specs);
    }
  }

  lemma {:induction false} ValuesClean(spec: CommandSpec, values: seq<string>, k: nat, name: string)
    requires k <= |values| && (values != [] ==> spec.positionalArgs != []) && Clean(values)
    ensures Clean(ValuesFor(spec, values, k, name))
    decreases |values| - k
  {
    if k < |values| {
      assert values[k] in values;
      ValuesClean(spec, values, k + 1, name);
    }
  }
}
