/** The completion spec tree of src/spec/types.rs, and positions in it as index paths. */
module SpecTypes {
  import opened Prelude

  datatype SingleOrArray<+T> = Single(one: T) | Array(many: seq<T>)

  function ToVec<T>(x: SingleOrArray<T>): seq<T> {
    match x
    case Single(one) => [one]
    case Array(many) => many
  }

  function OrElse<T>(x: Option<T>, default: T): T {
    if x.Some? then x.value else default
  }

  datatype FilterStrategy = Fuzzy | Prefix | Default

  datatype SuggestionType =
    | FolderKind
    | FileKind
    | ArgKind
    | SubcommandKind
    | OptionKind
    | SpecialKind
    | MixinKind
    | ShortcutKind

  datatype Suggestion = Suggestion(
    name: Option<SingleOrArray<string>>,
    displayName: Option<string>,
    insertValue: Option<string>,
    description: Option<string>,
    priority: Option<nat>,
    suggestionType: Option<SuggestionType>,
    isDangerous: bool)

  datatype SuggestionOrString = JustName(text: string) | FullSuggestion(suggestion: Suggestion)

  datatype TemplateString = Filepaths | Folders | History | Help

  /** A script of a generator: an argument list (non-strings are None), a shell command, or neither. */
  datatype Script = ArgumentList(args: seq<Option<string>>) | ShellCommand(text: string) | NotExecutable

  datatype Generator = Generator(
    template: Option<SingleOrArray<TemplateString>>,
    script: Option<Script>,
    splitOn: Option<string>,
    scriptTimeout: Option<nat>)

  /** A positional or option argument. */
  datatype Arg = Arg(
    name: Option<string>,
    suggestions: Option<seq<SuggestionOrString>>,
    template: Option<SingleOrArray<TemplateString>>,
    generators: Option<SingleOrArray<Generator>>,
    isOptional: bool,
    isVariadic: bool)

  datatype Opt = Opt(
    name: SingleOrArray<string>,
    displayName: Option<string>,
    insertValue: Option<string>,
    description: Option<string>,
    priority: Option<nat>,
    args: Option<SingleOrArray<Arg>>,
    isPersistent: bool,
    exclusiveOn: Option<seq<string>>,
    hidden: bool,
    isDangerous: bool)

  datatype Subcommand = Subcommand(
    name: SingleOrArray<string>,
    displayName: Option<string>,
    insertValue: Option<string>,
    description: Option<string>,
    priority: Option<nat>,
    subcommands: Option<seq<Subcommand>>,
    options: Option<seq<Opt>>,
    args: Option<SingleOrArray<Arg>>,
    filterStrategy: Option<FilterStrategy>,
    additionalSuggestions: Option<seq<SuggestionOrString>>,
    hidden: bool,
    isDangerous: bool)

  /** A spec is the root of a tree of subcommands. */
  type Spec = Subcommand

  function Children(cmd: Subcommand): seq<Subcommand> {
    OrElse(cmd.subcommands, [])
  }

  function Options(cmd: Subcommand): seq<Opt> {
    OrElse(cmd.options, [])
  }

  function ListOf<T>(x: Option<SingleOrArray<T>>): seq<T> {
    if x.Some? then ToVec(x.value) else []
  }

  function Names(cmd: Subcommand): seq<string> {
    ToVec(cmd.name)
  }

  function OptNames(opt: Opt): seq<string> {
    ToVec(opt.name)
  }

  /** A command or an option goes by its one name, or by any of several. */
  lemma GoesBy(cmd: Subcommand, opt: Opt, name: string)
    ensures name in Names(cmd) <==> if cmd.name.Single? then name == cmd.name.one else name in cmd.name.many
    ensures name in OptNames(opt) <==> if opt.name.Single? then name == opt.name.one else name in opt.name.many
  {
  }

  /** The node an index path leads to, if every index is in range. */
  function NodeAt(root: Subcommand, path: seq<nat>): Option<Subcommand>
    decreases |path|
  {
    if path == [] then Some(root)
    else if path[0] < |Children(root)| then NodeAt(Children(root)[path[0]], path[1..])
    else None
  }

  /** One more index: a child of the node reached so far. */
  lemma {:induction false} NodeAtSnoc(root: Subcommand, path: seq<nat>, i: nat)
    ensures var n := NodeAt(root, path);
            NodeAt(root, path + [i]) == if n.Some? && i < |Children(n.value)| then Some(Children(n.value)[i]) else None
    decreases |path|
  {
    if path == [] {
      assert [i][1..] == [];
    } else {
      assert (path + [i])[1..] == path[1..] + [i];
      if path[0] < |Children(root)| {
        NodeAtSnoc(Children(root)[path[0]], path[1..], i);
      }
    }
  }

  /** The length of the longest prefix of `path` that leads somewhere. */
  function Reach(root: Subcommand, path: seq<nat>): (n: nat)
    ensures n <= |path|
    decreases |path|
  {
    if path == [] || path[0] >= |Children(root)| then 0
    else 1 + Reach(Children(root)[path[0]], path[1..])
  }

  lemma {:induction false} ReachIsLongest(root: Subcommand, path: seq<nat>, k: nat)
    requires k <= |path|
    ensures NodeAt(root, path[..k]).Some? <==> k <= Reach(root, path)
    decreases |path|
  {
    if k == 0 {
    } else {
      assert path[..k][1..] == path[1..][..k - 1];
      if path[0] < |Children(root)| {
        ReachIsLongest(Children(root)[path[0]], path[1..], k - 1);
      }
    }
  }
}
