/** The flag map of the command line and its readers. */
module CliFlags {
  import opened Options
  import opened Seqs

  // A flag holds text, or was passed bare.
  datatype FlagValue = Text(text: string) | Bare

  datatype FlagError = Missing(name: string) | NeedsValue(name: string) | BadFormat(name: string) | NotADate(name: string)

  datatype Result<T> = Ok(value: T) | Err(error: FlagError)

  datatype Entry = Entry(name: string, value: FlagValue)

  /** A JavaScript Map: one entry per name, in the order in which names were first set. */
  type FlagMap = seq<Entry>

  predicate Unique(flags: FlagMap) {
    forall i, j | 0 <= i < j < |flags| :: flags[i].name != flags[j].name
  }

  function Get(flags: FlagMap, name: string): Option<FlagValue> {
    if flags == [] then None
    else if flags[0].name == name then Some(flags[0].value)
    else Get(flags[1..], name)
  }

  /** Setting a known name keeps its place; a new one goes last. */
  function Set(flags: FlagMap, name: string, value: FlagValue): (r: FlagMap)
    ensures Get(r, name) == Some(value)
    ensures forall other | other != name :: Get(r, other) == Get(flags, other)
  {
    if flags == [] then [Entry(name, value)]
    else if flags[0].name == name then [Entry(name, value)] + flags[1..]
    else [flags[0]] + Set(flags[1..], name, value)
  }

  function Names(flags: FlagMap): seq<string> {
    if flags == [] then [] else [flags[0].name] + Names(flags[1..])
  }

  /** A known name keeps its place, and a new one goes last. */
  lemma {:induction false} SetKeepsPlaces(flags: FlagMap, name: string, value: FlagValue)
    ensures Names(Set(flags, name, value)) == Names(flags) + (if Get(flags, name) == None then [name] else [])
    decreases |flags|
  {
    var more := if Get(flags, name) == None then [name] else [];
    if flags == [] {
      HeadAndRest(Entry(name, value), []);
    } else if flags[0].name == name {
      HeadAndRest(Entry(name, value), flags[1..]);
      Nothing(Names(flags));
    } else {
      SetKeepsPlaces(flags[1..], name, value);
      HeadAndRest(flags[0], Set(flags[1..], name, value));
      Reassociate([flags[0].name], Names(flags[1..]), more);
    }
  }

  function GetRequiredStringFlag(flags: FlagMap, name: string): Result<string> {
    match Get(flags, name)
    case Some(Bare) => Err(NeedsValue(name))
    case Some(Text(text)) => if text != "" then Ok(text) else Err(Missing(name))
    case None => Err(Missing(name))
  }

  function GetOptionalStringFlag(flags: FlagMap, name: string): Result<Option<string>> {
    match Get(flags, name)
    case Some(Bare) => Err(NeedsValue(name))
    case Some(Text(text)) => Ok(if text != "" then Some(text) else None)
    case None => Ok(None)
  }
}
