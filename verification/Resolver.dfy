/**
 The suggestion resolver of src/engine/resolver.rs: it walks the spec tree again by index path
 and collects what can be typed next.
 */
module Resolver {
  import opened Prelude
  import opened SpecTypes
  import opened Parser
  import Tokenizer

  datatype ResolvedSuggestion = ResolvedSuggestion(
    matchText: string,
    displayText: string,
    insertText: string,
    description: string,
    kind: SuggestionType,
    priority: nat,
    isDangerous: bool)

  // ---------------------------------------------------------------- one suggestion

  function First(names: seq<string>): string {
    if names == [] then "" else names[0]
  }

  /** The first long name, if there is one. */
  function LongName(names: seq<string>): Option<string> {
    if names == [] then None
    else if |names[0]| >= 2 && names[0][0] == '-' && names[0][1] == '-' then Some(names[0])
    else LongName(names[1..])
  }

  function SubcommandSuggestion(sc: Subcommand): ResolvedSuggestion {
    var primary := First(Names(sc));
    ResolvedSuggestion(primary, OrElse(sc.displayName, primary), OrElse(sc.insertValue, primary),
                       OrElse(sc.description, ""), SubcommandKind, OrElse(sc.priority, 75), sc.isDangerous)
  }

  function OptionSuggestion(opt: Opt): ResolvedSuggestion {
    var primary := OrElse(LongName(OptNames(opt)), First(OptNames(opt)));
    ResolvedSuggestion(primary, OrElse(opt.displayName, primary), OrElse(opt.insertValue, primary),
                       OrElse(opt.description, ""), OptionKind, OrElse(opt.priority, 40), opt.isDangerous)
  }

  function IntoSuggestion(s: SuggestionOrString): Suggestion {
    match s
    case JustName(text) => Suggestion(Some(Single(text)), None, None, None, None, None, false)
    case FullSuggestion(suggestion) => suggestion
  }

  function ItemSuggestion(item: SuggestionOrString, defaultKind: SuggestionType): ResolvedSuggestion {
    var s := IntoSuggestion(item);
    var primary := First(if s.name.Some? then ToVec(s.name.value) else []);
    ResolvedSuggestion(primary, OrElse(s.displayName, primary), OrElse(s.insertValue, primary),
                       OrElse(s.description, ""), OrElse(s.suggestionType, defaultKind), OrElse(s.priority, 50),
                       s.isDangerous)
  }

  // ---------------------------------------------------------------- which ones

  /** Some name of the option has been typed in the current scope. */
  predicate IsUsed(opt: Opt, used: seq<string>) {
    exists n :: n in OptNames(opt) && n in used
  }

  predicate IsExcluded(opt: Opt, used: seq<string>) {
    opt.exclusiveOn.Some? && exists e :: e in opt.exclusiveOn.value && e in used
  }

  predicate IsOffered(opt: Opt, used: seq<string>) {
    !IsUsed(opt, used) && !IsExcluded(opt, used) && !opt.hidden
  }

  function OfferedOptions(opts: seq<Opt>, used: seq<string>): seq<Opt> {
    if opts == [] then []
    else
      var last := opts[|opts| - 1];
      OfferedOptions(opts[..|opts| - 1], used) + if IsOffered(last, used) then [last] else []
  }

  function PersistentOptions(opts: seq<Opt>, used: seq<string>): seq<Opt> {
    if opts == [] then []
    else
      var last := opts[|opts| - 1];
      PersistentOptions(opts[..|opts| - 1], used) + if last.isPersistent && !IsUsed(last, used) then [last] else []
  }

  function OptionSuggestions(opts: seq<Opt>): seq<ResolvedSuggestion> {
    seq(|opts|, i requires 0 <= i < |opts| => OptionSuggestion(opts[i]))
  }

  predicate IsListed(sc: Subcommand) {
    !sc.hidden && Names(sc) != []
  }

  function SubcommandSuggestions(children: seq<Subcommand>): seq<ResolvedSuggestion> {
    if children == [] then []
    else
      var last := children[|children| - 1];
      SubcommandSuggestions(children[..|children| - 1]) + if IsListed(last) then [SubcommandSuggestion(last)] else []
  }

  function ItemSuggestions(items: seq<SuggestionOrString>, defaultKind: SuggestionType): seq<ResolvedSuggestion> {
    seq(|items|, i requires 0 <= i < |items| => ItemSuggestion(items[i], defaultKind))
  }

  /** The unused persistent options of the first `depth` nodes on a path, from the root down. */
  function PersistentAlong(spec: Spec, path: seq<nat>, used: seq<string>, depth: nat): seq<Opt>
    requires depth <= Reach(spec, path) + 1 && depth <= |path| + 1
  {
    if depth == 0 then []
    else
      PersistentAlong(spec, path, used, depth - 1) + PersistentOptions(Options(NodeOnPath(spec, path, depth - 1)), used)
  }

  /** The node after `k` steps along a path that reaches that far. */
  function NodeOnPath(spec: Spec, path: seq<nat>, k: nat): Subcommand
    requires k <= Reach(spec, path)
  {
    ReachIsLongest(spec, path, k);
    NodeAt(spec, path[..k]).value
  }

  /** The node at the longest prefix of the path that leads somewhere. */
  function DeepestNode(spec: Spec, path: seq<nat>): Subcommand {
    NodeOnPath(spec, path, Reach(spec, path))
  }

  /** What lies outside: the directory, what a template expands to there, and the lines a script yields there. */
  datatype World = World(
    cwd: string,
    expand: (TemplateString, string, string) -> seq<ResolvedSuggestion>,
    run: (Script, Option<string>, Option<nat>, string) -> seq<string>)

  /** What templates expand to, in order, for the token being typed. */
  function TemplateSuggestions(templates: seq<TemplateString>, world: World, partial: string): seq<ResolvedSuggestion> {
    if templates == [] then []
    else
      var n := |templates| - 1;
      TemplateSuggestions(templates[..n], world, partial) + world.expand(templates[n], world.cwd, partial)
  }

  function LineSuggestion(line: string): ResolvedSuggestion {
    ResolvedSuggestion(line, line, line, "", SpecialKind, 50, false)
  }

  function LineSuggestions(lines: seq<string>): seq<ResolvedSuggestion> {
    seq(|lines|, i requires 0 <= i < |lines| => LineSuggestion(lines[i]))
  }

  /** What a generator yields: its templates first, then the lines of its script. */
  function GeneratorSuggestions(gen: Generator, world: World, partial: string): seq<ResolvedSuggestion> {
    TemplateSuggestions(ListOf(gen.template), world, partial)
    + if gen.script.Some? then
        LineSuggestions(world.run(gen.script.value, gen.splitOn, gen.scriptTimeout, world.cwd))
      else []
  }

  function GeneratedSuggestions(gens: seq<Generator>, world: World, partial: string): seq<ResolvedSuggestion> {
    if gens == [] then []
    else
      var n := |gens| - 1;
      GeneratedSuggestions(gens[..n], world, partial) + GeneratorSuggestions(gens[n], world, partial)
  }

  /** The suggestions for an argument: static ones, those of its templates, those of its generators. */
  function ArgSuggestions(arg: Arg, world: World, partial: string): seq<ResolvedSuggestion> {
    ItemSuggestions(OrElse(arg.suggestions, []), ArgKind)
    + TemplateSuggestions(ListOf(arg.template), world, partial)
    + GeneratedSuggestions(ListOf(arg.generators), world, partial)
  }

  /** The argument at an index, or the last one if it may be repeated. */
  function ArgAt(args: seq<Arg>, index: nat): Option<Arg> {
    if index < |args| then Some(args[index])
    else if args != [] && args[|args| - 1].isVariadic then Some(args[|args| - 1])
    else None
  }

  function OptionalArgSuggestions(arg: Option<Arg>, world: World, partial: string): seq<ResolvedSuggestion> {
    if arg.Some? then ArgSuggestions(arg.value, world, partial) else []
  }

  /** The argument of an option that a context expects. */
  function ExpectedOptionArg(cmd: Subcommand, name: string, index: nat): Option<Arg> {
    var i := FindOption(Options(cmd), name);
    if i < |Options(cmd)| && index < |ListOf(Options(cmd)[i].args)| then Some(ListOf(Options(cmd)[i].args)[index])
    else None
  }

  /**
   The number of nodes on the path whose persistent options are added: every proper ancestor of
   the node reached, and for a stale path that leads nowhere, the root itself.
   */
  function AncestorCount(spec: Spec, path: seq<nat>): nat {
    if path == [] then 0 else if Reach(spec, path) == 0 then 1 else Reach(spec, path)
  }

  function Resolution(spec: Spec, ctx: ParseContext, world: World): seq<ResolvedSuggestion> {
    var cmd := DeepestNode(spec, ctx.specPath);
    match ctx.expected
    case SubcommandOrOptionOrArg(index) =>
      SubcommandSuggestions(Children(cmd))
      + OptionSuggestions(OfferedOptions(Options(cmd), ctx.usedOptions))
      + OptionSuggestions(PersistentAlong(spec, ctx.specPath, ctx.usedOptions, AncestorCount(spec, ctx.specPath)))
      + OptionalArgSuggestions(ArgAt(ListOf(cmd.args), index), world, ctx.currentToken)
      + ItemSuggestions(OrElse(cmd.additionalSuggestions, []), SpecialKind)
    case OptionArg(name, index) =>
      OptionalArgSuggestions(ExpectedOptionArg(cmd, name, index), world, ctx.currentToken)
    case Nothing =>
      var args := ListOf(cmd.args);
      OptionalArgSuggestions(if args == [] then None else Some(args[|args| - 1]), world, ctx.currentToken)
  }

  // ---------------------------------------------------------------- the implementation

  /** Walk by indices as far as they lead. `depth` identifies the node among those on the path. */
  method WalkSpec(spec: Spec, path: seq<nat>) returns (current: Subcommand, depth: nat)
    ensures depth == Reach(spec, path)
    ensures current == DeepestNode(spec, path)
  {
    current, depth := spec, 0;
    while depth < |path|
      invariant depth <= Reach(spec, path)
      invariant current == NodeOnPath(spec, path, depth)
    {
      StepOnPath(spec, path, depth);
      if path[depth] >= |Children(current)| {
        break;
      }
      current := Children(current)[path[depth]];
      depth := depth + 1;
    }
  }

  lemma StepOnPath(spec: Spec, path: seq<nat>, k: nat)
    requires k < |path| && k <= Reach(spec, path)
    ensures var node := NodeOnPath(spec, path, k);
            if path[k] < |Children(node)| then
              k < Reach(spec, path) && NodeOnPath(spec, path, k + 1) == Children(node)[path[k]]
            else k == Reach(spec, path)
  {
    ReachIsLongest(spec, path, k);
    ReachIsLongest(spec, path, k + 1);
    assert path[..k + 1] == path[..k] + [path[k]];
    NodeAtSnoc(spec, path[..k], path[k]);
  }

  lemma TakeOneMore<T>(s: seq<T>, i: nat)
    requires i < |s|
    ensures s[..i + 1][..i] == s[..i] && s[..i + 1][i] == s[i]
  {
  }

  method CollectOptions(cmd: Subcommand, used: seq<string>, suggestions: seq<ResolvedSuggestion>)
    returns (more: seq<ResolvedSuggestion>)
    ensures more == suggestions + OptionSuggestions(OfferedOptions(Options(cmd), used))
  {
    more := suggestions;
    var opts := Options(cmd);
    for i := 0 to |opts|
      invariant more == suggestions + OptionSuggestions(OfferedOptions(opts[..i], used))
    {
      var opt := opts[i];
      TakeOneMore(opts, i);
      if exists n | n in OptNames(opt) :: n in used {
        continue;
      }
      if opt.exclusiveOn.Some? {
        if exists e | e in opt.exclusiveOn.value :: e in used {
          continue;
        }
      }
      if opt.hidden {
        continue;
      }
      more := more + [OptionSuggestion(opt)];
    }
    assert opts[..|opts|] == opts;
  }

  method CollectPersistent(cmd: Subcommand, used: seq<string>, suggestions: seq<ResolvedSuggestion>)
    returns (more: seq<ResolvedSuggestion>)
    ensures more == suggestions + OptionSuggestions(PersistentOptions(Options(cmd), used))
  {
    more := suggestions;
    var opts := Options(cmd);
    for i := 0 to |opts|
      invariant more == suggestions + OptionSuggestions(PersistentOptions(opts[..i], used))
    {
      var opt := opts[i];
      TakeOneMore(opts, i);
      if opt.isPersistent && !exists n | n in OptNames(opt) :: n in used {
        more := more + [OptionSuggestion(opt)];
      }
    }
    assert opts[..|opts|] == opts;
  }

  method CollectSubcommands(cmd: Subcommand, suggestions: seq<ResolvedSuggestion>)
    returns (more: seq<ResolvedSuggestion>)
    ensures more == suggestions + SubcommandSuggestions(Children(cmd))
  {
    more := suggestions;
    var children := Children(cmd);
    for i := 0 to |children|
      invariant more == suggestions + SubcommandSuggestions(children[..i])
    {
      TakeOneMore(children, i);
      if children[i].hidden || Names(children[i]) == [] {
        continue;
      }
      more := more + [SubcommandSuggestion(children[i])];
    }
    assert children[..|children|] == children;
  }

  method CollectItems(items: seq<SuggestionOrString>, defaultKind: SuggestionType, suggestions: seq<ResolvedSuggestion>)
    returns (more: seq<ResolvedSuggestion>)
    ensures more == suggestions + ItemSuggestions(items, defaultKind)
  {
    more := suggestions;
    for i := 0 to |items|
      invariant more == suggestions + ItemSuggestions(items[..i], defaultKind)
    {
      more := more + [ItemSuggestion(items[i], defaultKind)];
    }
    assert items[..|items|] == items;
  }

  method CollectTemplates(templates: seq<TemplateString>, world: World, partial: string,
                          suggestions: seq<ResolvedSuggestion>)
    returns (more: seq<ResolvedSuggestion>)
    ensures more == suggestions + TemplateSuggestions(templates, world, partial)
  {
    more := suggestions;
    for i := 0 to |templates|
      invariant more == suggestions + TemplateSuggestions(templates[..i], world, partial)
    {
      TakeOneMore(templates, i);
      more := more + world.expand(templates[i], world.cwd, partial);
    }
    assert templates[..|templates|] == templates;
  }

  method CollectGenerator(gen: Generator, world: World, partial: string, suggestions: seq<ResolvedSuggestion>)
    returns (more: seq<ResolvedSuggestion>)
    ensures more == suggestions + GeneratorSuggestions(gen, world, partial)
  {
    hide TemplateSuggestions;
    more := CollectTemplates(ListOf(gen.template), world, partial, suggestions);
    if gen.script.Some? {
      var lines := world.run(gen.script.value, gen.splitOn, gen.scriptTimeout, world.cwd);
      ghost var sofar := more;
      for i := 0 to |lines|
        invariant more == sofar + LineSuggestions(lines[..i])
      {
        more := more + [LineSuggestion(lines[i])];
      }
      assert lines[..|lines|] == lines;
    }
  }

  method CollectArgSuggestions(arg: Arg, world: World, partial: string, suggestions: seq<ResolvedSuggestion>)
    returns (more: seq<ResolvedSuggestion>)
    ensures more == suggestions + ArgSuggestions(arg, world, partial)
  {
    hide ItemSuggestions, TemplateSuggestions, GeneratorSuggestions;
    more := CollectItems(OrElse(arg.suggestions, []), ArgKind, suggestions);
    more := CollectTemplates(ListOf(arg.template), world, partial, more);
    var gens := ListOf(arg.generators);
    ghost var sofar := more;
    for i := 0 to |gens|
      invariant more == sofar + GeneratedSuggestions(gens[..i], world, partial)
    {
      TakeOneMore(gens, i);
      more := CollectGenerator(gens[i], world, partial, more);
    }
    assert gens[..|gens|] == gens;
  }

  /** One more node on the path adds its persistent options. */
  lemma AncestorOneMore(spec: Spec, path: seq<nat>, used: seq<string>, k: nat)
    requires k <= Reach(spec, path)
    ensures OptionSuggestions(PersistentAlong(spec, path, used, k + 1)) ==
            OptionSuggestions(PersistentAlong(spec, path, used, k))
            + OptionSuggestions(PersistentOptions(Options(NodeOnPath(spec, path, k)), used))
  {
    hide PersistentOptions, NodeOnPath, Reach;
    var along := PersistentAlong(spec, path, used, k);
    var more := PersistentOptions(Options(NodeOnPath(spec, path, k)), used);
    assert PersistentAlong(spec, path, used, k + 1) == along + more;
    assert OptionSuggestions(along + more) == OptionSuggestions(along) + OptionSuggestions(more);
  }

  lemma NoAncestors(spec: Spec, path: seq<nat>, used: seq<string>)
    ensures OptionSuggestions(PersistentAlong(spec, path, used, 0)) == [] && NodeOnPath(spec, path, 0) == spec
  {
  }

  /** The persistent options of the root and of the intermediate parents. */
  method CollectAncestors(spec: Spec, path: seq<nat>, reached: nat, used: seq<string>,
                          suggestions: seq<ResolvedSuggestion>)
    returns (more: seq<ResolvedSuggestion>)
    requires reached == Reach(spec, path)
    ensures more == suggestions + OptionSuggestions(PersistentAlong(spec, path, used, AncestorCount(spec, path)))
  {
    hide PersistentAlong, OptionSuggestions, PersistentOptions, NodeOnPath, Reach;
    more := suggestions;
    NoAncestors(spec, path, used);
    assert suggestions + [] == suggestions;
    if path == [] {
      return;
    }
    var parent, depth := spec, 0;
    AncestorOneMore(spec, path, used, 0);
    more := CollectPersistent(parent, used, more);
    while depth < |path|
      invariant depth <= reached
      invariant parent == NodeOnPath(spec, path, depth)
      invariant more == suggestions + OptionSuggestions(PersistentAlong(spec, path, used, depth + 1))
      invariant depth > 0 ==> depth < reached
    {
      StepOnPath(spec, path, depth);
      if path[depth] >= |Children(parent)| {
        break;
      }
      parent := Children(parent)[path[depth]];
      if depth + 1 == reached {
        // The deepest node: its own options have been collected already.
        return;
      }
      depth := depth + 1;
      AncestorOneMore(spec, path, used, depth);
      more := CollectPersistent(parent, used, more);
    }
  }

  /** The suggestions where a subcommand, an option or a positional argument can follow. */
  method ResolveAny(spec: Spec, ctx: ParseContext, world: World, argIndex: nat, currentCmd: Subcommand, depth: nat)
    returns (suggestions: seq<ResolvedSuggestion>)
    requires ctx.expected == SubcommandOrOptionOrArg(argIndex)
    requires currentCmd == DeepestNode(spec, ctx.specPath) && depth == Reach(spec, ctx.specPath)
    ensures suggestions == Resolution(spec, ctx, world)
  {
    hide DeepestNode, SubcommandSuggestions, OptionSuggestions, OfferedOptions, PersistentAlong, ItemSuggestions,
         ArgSuggestions, Reach;
    suggestions := CollectSubcommands(currentCmd, []);
    suggestions := CollectOptions(currentCmd, ctx.usedOptions, suggestions);
    suggestions := CollectAncestors(spec, ctx.specPath, depth, ctx.usedOptions, suggestions);
    ghost var sofar := suggestions;
    var argList := ListOf(currentCmd.args);
    if argIndex < |argList| {
      suggestions := CollectArgSuggestions(argList[argIndex], world, ctx.currentToken, suggestions);
    } else if argList != [] && argList[|argList| - 1].isVariadic {
      suggestions := CollectArgSuggestions(argList[|argList| - 1], world, ctx.currentToken, suggestions);
    }
    assert suggestions == sofar + OptionalArgSuggestions(ArgAt(argList, argIndex), world, ctx.currentToken);
    suggestions := CollectItems(OrElse(currentCmd.additionalSuggestions, []), SpecialKind, suggestions);
  }

  method Resolve(spec: Spec, ctx: ParseContext, world: World) returns (suggestions: seq<ResolvedSuggestion>)
    ensures suggestions == Resolution(spec, ctx, world)
  {
    hide DeepestNode, SubcommandSuggestions, OptionSuggestions, OfferedOptions, PersistentAlong, ItemSuggestions,
         ArgSuggestions, Reach;
    var currentCmd, depth := WalkSpec(spec, ctx.specPath);
    suggestions := [];
    match ctx.expected {
      case SubcommandOrOptionOrArg(argIndex) =>
        suggestions := ResolveAny(spec, ctx, world, argIndex, currentCmd, depth);
      case OptionArg(optionName, argIndex) =>
        var opt := FindFlag(Options(currentCmd), optionName);
        if opt.Some? {
          var argList := ListOf(opt.value.args);
          if argIndex < |argList| {
            suggestions := CollectArgSuggestions(argList[argIndex], world, ctx.currentToken, suggestions);
          }
        }
      case Nothing =>
        var argList := ListOf(currentCmd.args);
        if argList != [] {
          suggestions := CollectArgSuggestions(argList[|argList| - 1], world, ctx.currentToken, suggestions);
        }
    }
  }

  // ---------------------------------------------------------------- agreement with the parser

  /** The resolver reaches exactly the node the parser ended at. */
  lemma ResolverReachesParsedNode(spec: Spec, t: Tokenizer.Tokens)
    ensures var path := ContextOf(spec, t).specPath;
            Reach(spec, path) == |path| && NodeAt(spec, path) == Some(DeepestNode(spec, path))
  {
    var path := ContextOf(spec, t).specPath;
    PathsCorrespond(spec, t, 0);
    hide NodeAt, Reach, ContextOf;
    assert path[..|path|] == path;
    ReachIsLongest(spec, path, |path|);
  }

  /** On any tree and path, the node is the one at the longest prefix that leads somewhere. */
  lemma DeepestIsLongestPrefix(spec: Spec, path: seq<nat>, k: nat)
    requires k <= |path|
    ensures NodeAt(spec, path[..Reach(spec, path)]) == Some(DeepestNode(spec, path))
    ensures NodeAt(spec, path[..k]).Some? ==> k <= Reach(spec, path)
  {
    hide NodeAt, Reach;
    ReachIsLongest(spec, path, Reach(spec, path));
    ReachIsLongest(spec, path, k);
  }

  /** Walking the tree down the path: the unused persistent options of each proper ancestor. */
  function AncestorOptions(root: Subcommand, path: seq<nat>, used: seq<string>): seq<Opt>
    decreases |path|
  {
    if path == [] || path[0] >= |Children(root)| then []
    else PersistentOptions(Options(root), used) + AncestorOptions(Children(root)[path[0]], path[1..], used)
  }

  lemma {:induction false} AncestorOptionsUpTo(root: Subcommand, path: seq<nat>, used: seq<string>, depth: nat)
    requires depth <= Reach(root, path)
    ensures PersistentAlong(root, path, used, depth) == AncestorOptions(root, path[..depth], used)
    decreases depth
  {
    if depth == 0 {
    } else {
      var init := path[..depth - 1];
      AncestorOptionsUpTo(root, path, used, depth - 1);
      ReachIsLongest(root, path, depth - 1);
      ReachIsLongest(root, path, depth);
      assert path[..depth] == init + [path[depth - 1]];
      NodeAtSnoc(root, init, path[depth - 1]);
      AncestorOptionsSnoc(root, init, path[depth - 1], used);
    }
  }

  lemma {:induction false} AncestorOptionsSnoc(root: Subcommand, path: seq<nat>, i: nat, used: seq<string>)
    requires NodeAt(root, path).Some? && i < |Children(NodeAt(root, path).value)|
    ensures AncestorOptions(root, path + [i], used) ==
            AncestorOptions(root, path, used) + PersistentOptions(Options(NodeAt(root, path).value), used)
    decreases |path|
  {
    if path == [] {
      assert [i][1..] == [];
    } else {
      assert (path + [i])[1..] == path[1..] + [i];
      AncestorOptionsSnoc(Children(root)[path[0]], path[1..], i, used);
    }
  }

  /**
   The option suggestions of a parsed context: the offered options of the current node, then the
   unused persistent options of its proper ancestors, from the root down.
   */
  lemma OptionSuggestionsMeaning(spec: Spec, t: Tokenizer.Tokens, world: World)
    requires ContextOf(spec, t).expected.SubcommandOrOptionOrArg?
    ensures var ctx := ContextOf(spec, t);
            var cmd := NodeAt(spec, ctx.specPath).value;
            Resolution(spec, ctx, world) ==
              SubcommandSuggestions(Children(cmd))
              + OptionSuggestions(OfferedOptions(Options(cmd), ctx.usedOptions))
              + OptionSuggestions(AncestorOptions(spec, ctx.specPath, ctx.usedOptions))
              + OptionalArgSuggestions(ArgAt(ListOf(cmd.args), ctx.expected.argIndex), world, ctx.currentToken)
              + ItemSuggestions(OrElse(cmd.additionalSuggestions, []), SpecialKind)
  {
    var ctx := ContextOf(spec, t);
    hide ContextOf, NodeAt, Reach;
    ResolverReachesParsedNode(spec, t);
    var path := ctx.specPath;
    assert path[..|path|] == path;
    AncestorOptionsUpTo(spec, path, ctx.usedOptions, |path|);
  }

  lemma CountOneMore(opts: seq<Opt>, last: Opt, opt: Opt)
    ensures multiset(opts + [last])[opt] == multiset(opts)[opt] + if last == opt then 1 else 0
    ensures multiset(opts + [])[opt] == multiset(opts)[opt]
  {
    assert opts + [] == opts;
  }

  lemma {:induction false} CountOffered(opts: seq<Opt>, used: seq<string>, opt: Opt)
    ensures multiset(OfferedOptions(opts, used))[opt] == if IsOffered(opt, used) then multiset(opts)[opt] else 0
  {
    hide IsOffered;
    if opts == [] {
    } else {
      var init, last := opts[..|opts| - 1], opts[|opts| - 1];
      CountOffered(init, used, opt);
      assert opts == init + [last];
      CountOneMore(init, last, opt);
      CountOneMore(OfferedOptions(init, used), last, opt);
    }
  }

  lemma {:induction false} CountPersistent(opts: seq<Opt>, used: seq<string>, opt: Opt)
    ensures multiset(PersistentOptions(opts, used))[opt] ==
            if opt.isPersistent && !IsUsed(opt, used) then multiset(opts)[opt] else 0
  {
    hide IsUsed;
    if opts == [] {
    } else {
      var init, last := opts[..|opts| - 1], opts[|opts| - 1];
      CountPersistent(init, used, opt);
      assert opts == init + [last];
      CountOneMore(init, last, opt);
      CountOneMore(PersistentOptions(init, used), last, opt);
    }
  }

  /** Which options are offered, and how often: exactly as often as the node lists them. */
  lemma OfferedExactly(opts: seq<Opt>, used: seq<string>, opt: Opt)
    ensures multiset(OfferedOptions(opts, used))[opt] == if IsOffered(opt, used) then multiset(opts)[opt] else 0
    ensures multiset(PersistentOptions(opts, used))[opt] ==
            if opt.isPersistent && !IsUsed(opt, used) then multiset(opts)[opt] else 0
  {
    CountOffered(opts, used, opt);
    CountPersistent(opts, used, opt);
  }

  /** An option typed in the current scope is not offered again from the node that recognised it. */
  lemma TypedOptionNotOffered(spec: Spec, t: Tokenizer.Tokens, typed: string)
    requires typed in ContextOf(spec, t).usedOptions
    ensures var ctx := ContextOf(spec, t);
            var opts := Options(NodeAt(spec, ctx.specPath).value);
            var i := FindOption(opts, typed);
            && i < |opts|
            && opts[i] !in OfferedOptions(opts, ctx.usedOptions)
            && (forall o :: o in OfferedOptions(opts, ctx.usedOptions) ==> typed !in OptNames(o))
  {
    var ctx := ContextOf(spec, t);
    UsedOptionsResolve(spec, t, typed);
    hide ContextOf, NodeAt;
    var opts := Options(NodeAt(spec, ctx.specPath).value);
    forall o | o in OfferedOptions(opts, ctx.usedOptions)
      ensures typed !in OptNames(o)
    {
      OfferedExactly(opts, ctx.usedOptions, o);
      assert multiset(OfferedOptions(opts, ctx.usedOptions))[o] > 0;
    }
  }

  /** The resolver suggests values for exactly the option argument that the parser expects. */
  lemma ExpectedArgIsSuggested(spec: Spec, t: Tokenizer.Tokens, world: World)
    requires ContextOf(spec, t).expected.OptionArg?
    ensures var ctx := ContextOf(spec, t);
            var arg := ExpectedOptionArg(DeepestNode(spec, ctx.specPath), ctx.expected.optionName,
                                         ctx.expected.optionArgIndex);
            && arg.Some? && !arg.value.isOptional
            && Resolution(spec, ctx, world) == ArgSuggestions(arg.value, world, ctx.currentToken)
  {
    OptionArgResolves(spec, t);
    ResolverReachesParsedNode(spec, t);
  }
}
