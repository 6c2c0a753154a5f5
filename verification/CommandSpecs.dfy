/** The command registry's entries, as far as parsing, normalizing and suggesting read them. */
module CommandSpecs {
  import opened Options

  datatype CommandSpec = CommandSpec(
    path: seq<string>,
    aliases: Option<seq<seq<string>>>,
    destructive: bool,
    hidden: bool,
    repeatableFlags: seq<string>,
    positionalArgs: seq<string>,
    variadicPositional: bool)

  function SpecPaths(spec: CommandSpec): (paths: seq<seq<string>>)
    ensures spec.path in paths
  {
    if spec.aliases.Some? then [spec.path] + spec.aliases.value else [spec.path]
  }
}
