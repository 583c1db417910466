/**
 Which suggestions a context gets and what they insert, stated by the fields of the spec. The
 predicates by which the reference of the resolver selects them do not occur here.
 */
module ResolverMeaning {
  import opened Prelude
  import opened SpecTypes
  import opened Parser
  import opened Resolver
  import Tokenizer

  // ---------------------------------------------------------------- selections

  lemma OfferedByFields(opt: Opt, used: seq<string>)
    ensures IsOffered(opt, used) <==>
            && !opt.hidden && (forall n :: n in OptNames(opt) ==> n !in used)
            && (opt.exclusiveOn.Some? ==> forall e :: e in opt.exclusiveOn.value ==> e !in used)
    ensures IsUsed(opt, used) <==> !forall n :: n in OptNames(opt) ==> n !in used
  {
    hide OptNames;
  }

  lemma {:induction false} OfferedInOrder(opts: seq<Opt>, used: seq<string>)
    ensures IsSubsequence(OfferedOptions(opts, used), opts)
  {
    hide IsOffered;
    if opts == [] {
    } else {
      var n := |opts| - 1;
      OfferedInOrder(opts[..n], used);
      SelectOneMore(OfferedOptions(opts[..n], used), opts[..n], opts[n]);
      assert opts == opts[..n] + [opts[n]];
    }
  }

  lemma {:induction false} PersistentInOrder(opts: seq<Opt>, used: seq<string>)
    ensures IsSubsequence(PersistentOptions(opts, used), opts)
  {
    hide IsUsed;
    if opts == [] {
    } else {
      var n := |opts| - 1;
      PersistentInOrder(opts[..n], used);
      SelectOneMore(PersistentOptions(opts[..n], used), opts[..n], opts[n]);
      assert opts == opts[..n] + [opts[n]];
    }
  }

  /** One more element may be selected or not. */
  lemma SelectOneMore<T>(a: seq<T>, whole: seq<T>, last: T)
    requires IsSubsequence(a, whole)
    ensures IsSubsequence(a + [last], whole + [last]) && IsSubsequence(a + [], whole + [last])
  {
    assert (a + [last])[..|a|] == a && (whole + [last])[..|whole|] == whole && a + [] == a;
    SubsequenceOfLonger(a, whole, last);
  }

  /**
   Of a node's options, those that are not hidden, of which no name has been typed, and which no
   typed option excludes: each as often as the node lists it, in the node's order.
   */
  lemma OwnOptions(opts: seq<Opt>, used: seq<string>)
    ensures IsSubsequence(OfferedOptions(opts, used), opts)
    ensures forall opt: Opt :: multiset(OfferedOptions(opts, used))[opt] ==
              if && !opt.hidden && (forall n :: n in OptNames(opt) ==> n !in used)
                 && (opt.exclusiveOn.Some? ==> forall e :: e in opt.exclusiveOn.value ==> e !in used)
              then multiset(opts)[opt] else 0
  {
    forall opt: Opt
      ensures multiset(OfferedOptions(opts, used))[opt] ==
              if && !opt.hidden && (forall n :: n in OptNames(opt) ==> n !in used)
                 && (opt.exclusiveOn.Some? ==> forall e :: e in opt.exclusiveOn.value ==> e !in used)
              then multiset(opts)[opt] else 0
    {
      CountOffered(opts, used, opt);
      OfferedByFields(opt, used);
      hide IsOffered, OptNames;
    }
    OfferedInOrder(opts, used);
  }

  /** Of an ancestor's options, the persistent ones of which no name has been typed. */
  lemma InheritedOptions(opts: seq<Opt>, used: seq<string>)
    ensures IsSubsequence(PersistentOptions(opts, used), opts)
    ensures forall opt: Opt :: multiset(PersistentOptions(opts, used))[opt] ==
              if opt.isPersistent && forall n :: n in OptNames(opt) ==> n !in used then multiset(opts)[opt] else 0
  {
    forall opt: Opt
      ensures multiset(PersistentOptions(opts, used))[opt] ==
              if opt.isPersistent && forall n :: n in OptNames(opt) ==> n !in used then multiset(opts)[opt] else 0
    {
      CountPersistent(opts, used, opt);
      OfferedByFields(opt, used);
      hide IsUsed, OptNames;
    }
    PersistentInOrder(opts, used);
  }

  lemma {:induction false} InheritedAlong(spec: Spec, path: seq<nat>, used: seq<string>, depth: nat)
    returns (parts: seq<seq<Opt>>)
    requires depth <= Reach(spec, path) + 1 && depth <= |path| + 1
    ensures |parts| == depth && Flatten(parts) == PersistentAlong(spec, path, used, depth)
    ensures forall k :: 0 <= k < depth ==> parts[k] == PersistentOptions(Options(NodeOnPath(spec, path, k)), used)
    decreases depth
  {
    hide PersistentOptions, NodeOnPath, Reach;
    if depth == 0 {
      parts := [];
    } else {
      parts := InheritedAlong(spec, path, used, depth - 1);
      var last := PersistentOptions(Options(NodeOnPath(spec, path, depth - 1)), used);
      FlattenSnoc(parts, last);
      parts := parts + [last];
    }
  }

  /** The subcommands that are not hidden and have a name. */
  function Listed(children: seq<Subcommand>): seq<Subcommand> {
    if children == [] then []
    else
      var last := children[|children| - 1];
      Listed(children[..|children| - 1]) + if !last.hidden && Names(last) != [] then [last] else []
  }

  lemma {:induction false} ListedInOrder(children: seq<Subcommand>)
    ensures IsSubsequence(Listed(children), children)
  {
    hide Names;
    if children == [] {
    } else {
      var n := |children| - 1;
      ListedInOrder(children[..n]);
      SelectOneMore(Listed(children[..n]), children[..n], children[n]);
      assert children == children[..n] + [children[n]];
    }
  }

  lemma {:induction false} CountListed(children: seq<Subcommand>, c: Subcommand)
    ensures multiset(Listed(children))[c] == if !c.hidden && Names(c) != [] then multiset(children)[c] else 0
  {
    hide Names;
    if children == [] {
    } else {
      var init, last := children[..|children| - 1], children[|children| - 1];
      CountListed(init, c);
      assert children == init + [last];
      assert Listed(init) + [] == Listed(init);
    }
  }

  function SubcommandTextsOf(kept: seq<Subcommand>): seq<ResolvedSuggestion> {
    seq(|kept|, i requires 0 <= i < |kept| => SubcommandSuggestion(kept[i]))
  }

  lemma {:induction false} ListedAreSuggested(children: seq<Subcommand>)
    ensures SubcommandSuggestions(children) == SubcommandTextsOf(Listed(children))
  {
    hide SubcommandSuggestion, Names;
    if children == [] {
    } else {
      ListedAreSuggested(children[..|children| - 1]);
    }
  }

  lemma ListedSubcommands(children: seq<Subcommand>)
    ensures SubcommandSuggestions(children) == SubcommandTextsOf(Listed(children))
    ensures IsSubsequence(Listed(children), children)
    ensures forall c: Subcommand ::
              multiset(Listed(children))[c] == if !c.hidden && Names(c) != [] then multiset(children)[c] else 0
  {
    hide Listed, SubcommandTextsOf, Names;
    ListedAreSuggested(children);
    ListedInOrder(children);
    forall c: Subcommand
      ensures multiset(Listed(children))[c] == if !c.hidden && Names(c) != [] then multiset(children)[c] else 0
    {
      CountListed(children, c);
    }
  }

  // ---------------------------------------------------------------- whole suggestion lists

  /** The suggestions of an argument: static ones, then each template, then each generator in turn. */
  lemma ArgumentInOrder(arg: Arg, world: World, partial: string)
    ensures var templates, gens := ListOf(arg.template), ListOf(arg.generators);
            ArgSuggestions(arg, world, partial) ==
              ItemSuggestions(if arg.suggestions.Some? then arg.suggestions.value else [], ArgKind)
              + Flatten(seq(|templates|, i requires 0 <= i < |templates| =>
                  world.expand(templates[i], world.cwd, partial)))
              + Flatten(seq(|gens|, i requires 0 <= i < |gens| => GeneratorSuggestions(gens[i], world, partial)))
  {
    hide ItemSuggestions, GeneratorSuggestions, ListOf;
    TemplatesInOrder(ListOf(arg.template), world, partial);
    GeneratorsInOrder(ListOf(arg.generators), world, partial);
  }

  lemma {:induction false} TemplatesInOrder(templates: seq<TemplateString>, world: World, partial: string)
    ensures TemplateSuggestions(templates, world, partial) ==
            Flatten(seq(|templates|, i requires 0 <= i < |templates| => world.expand(templates[i], world.cwd, partial)))
  {
    var parts := seq(|templates|, i requires 0 <= i < |templates| => world.expand(templates[i], world.cwd, partial));
    if templates == [] {
    } else {
      var n := |templates| - 1;
      var init := templates[..n];
      TemplatesInOrder(init, world, partial);
      assert parts[..n] == seq(n, i requires 0 <= i < n => world.expand(init[i], world.cwd, partial));
      assert parts == parts[..n] + [parts[n]];
      FlattenSnoc(parts[..n], parts[n]);
    }
  }

  lemma {:induction false} GeneratorsInOrder(gens: seq<Generator>, world: World, partial: string)
    ensures GeneratedSuggestions(gens, world, partial) ==
            Flatten(seq(|gens|, i requires 0 <= i < |gens| => GeneratorSuggestions(gens[i], world, partial)))
  {
    hide GeneratorSuggestions;
    var parts := seq(|gens|, i requires 0 <= i < |gens| => GeneratorSuggestions(gens[i], world, partial));
    if gens == [] {
    } else {
      var n := |gens| - 1;
      var init := gens[..n];
      GeneratorsInOrder(init, world, partial);
      assert parts[..n] == seq(n, i requires 0 <= i < n => GeneratorSuggestions(init[i], world, partial));
      assert parts == parts[..n] + [parts[n]];
      FlattenSnoc(parts[..n], parts[n]);
    }
  }

  /**
   Where a subcommand, an option or an argument can follow, on any path, stale ones included: the
   listed subcommands of the node reached; its own options that can still be typed; the persistent
   options of the nodes above it from the root down, the root itself if the path leads nowhere;
   the argument at the index, or the last one if it may be repeated; and the additional ones.
   */
  lemma SuggestionsByFields(spec: Spec, ctx: ParseContext, world: World)
    returns (listed: seq<Subcommand>, own: seq<Opt>, inherited: seq<seq<Opt>>)
    requires ctx.expected.SubcommandOrOptionOrArg?
    ensures var cmd := DeepestNode(spec, ctx.specPath);
            var args, index := ListOf(cmd.args), ctx.expected.argIndex;
            Resolution(spec, ctx, world) ==
              seq(|listed|, i requires 0 <= i < |listed| => SubcommandSuggestion(listed[i]))
              + seq(|own|, i requires 0 <= i < |own| => OptionSuggestion(own[i]))
              + OptionSuggestions(Flatten(inherited))
              + (if index < |args| then ArgSuggestions(args[index], world, ctx.currentToken)
                 else if args != [] && args[|args| - 1].isVariadic then
                   ArgSuggestions(args[|args| - 1], world, ctx.currentToken)
                 else [])
              + ItemSuggestions(if cmd.additionalSuggestions.Some? then cmd.additionalSuggestions.value else [],
                                SpecialKind)
    ensures var children := Children(DeepestNode(spec, ctx.specPath));
            && IsSubsequence(listed, children)
            && forall c: Subcommand ::
                 multiset(listed)[c] == if !c.hidden && Names(c) != [] then multiset(children)[c] else 0
    ensures var opts := Options(DeepestNode(spec, ctx.specPath));
            && IsSubsequence(own, opts)
            && forall opt: Opt :: multiset(own)[opt] ==
                 if && !opt.hidden && (forall n :: n in OptNames(opt) ==> n !in ctx.usedOptions)
                    && (opt.exclusiveOn.Some? ==> forall e :: e in opt.exclusiveOn.value ==> e !in ctx.usedOptions)
                 then multiset(opts)[opt] else 0
    ensures |inherited| == if ctx.specPath == [] then 0 else Max(1, Reach(spec, ctx.specPath))
    ensures forall k :: 0 <= k < |inherited| ==>
              && NodeAt(spec, ctx.specPath[..k]).Some?
              && var opts := Options(NodeAt(spec, ctx.specPath[..k]).value);
              && IsSubsequence(inherited[k], opts)
              && forall opt: Opt :: multiset(inherited[k])[opt] ==
                   if opt.isPersistent && forall n :: n in OptNames(opt) ==> n !in ctx.usedOptions
                   then multiset(opts)[opt] else 0
  {
    hide ArgSuggestions, ItemSuggestions, SubcommandSuggestion, OptionSuggestion, SubcommandSuggestions, OfferedOptions,
         PersistentOptions, PersistentAlong, DeepestNode, NodeAt, Reach, IsSubsequence, ListOf, Names, OptNames;
    var path, used := ctx.specPath, ctx.usedOptions;
    var cmd := DeepestNode(spec, path);
    listed := Listed(Children(cmd));
    ListedSubcommands(Children(cmd));
    own := OfferedOptions(Options(cmd), used);
    OwnOptions(Options(cmd), used);
    inherited := InheritedAlong(spec, path, used, AncestorCount(spec, path));
    forall k | 0 <= k < |inherited|
      ensures NodeAt(spec, path[..k]) == Some(NodeOnPath(spec, path, k))
    {
      ReachIsLongest(spec, path, k);
    }
    forall k | 0 <= k < |inherited|
      ensures inherited[k] == PersistentOptions(Options(NodeOnPath(spec, path, k)), used)
      ensures IsSubsequence(inherited[k], Options(NodeOnPath(spec, path, k)))
      ensures forall opt: Opt :: multiset(inherited[k])[opt] ==
                if opt.isPersistent && forall n :: n in OptNames(opt) ==> n !in used
                then multiset(Options(NodeOnPath(spec, path, k)))[opt] else 0
    {
      InheritedOptions(Options(NodeOnPath(spec, path, k)), used);
    }
  }

  /** After a separator, only the last argument of the node reached. */
  lemma OnlyLastArgument(spec: Spec, ctx: ParseContext, world: World)
    requires ctx.expected == Nothing
    ensures var args := ListOf(DeepestNode(spec, ctx.specPath).args);
            Resolution(spec, ctx, world) ==
            if args == [] then [] else ArgSuggestions(args[|args| - 1], world, ctx.currentToken)
  {
    hide DeepestNode, ArgSuggestions;
  }

  /** Where an option's value is expected, the first argument of the first option of that name. */
  lemma OnlyOptionValue(spec: Spec, t: Tokenizer.Tokens, world: World)
    requires ContextOf(spec, t).expected.OptionArg?
    ensures var ctx := ContextOf(spec, t);
            var opts := Options(NodeAt(spec, ctx.specPath).value);
            exists i :: 0 <= i < |opts| && ctx.expected.optionName in OptNames(opts[i])
              && (forall k :: 0 <= k < i ==> ctx.expected.optionName !in OptNames(opts[k]))
              && ListOf(opts[i].args) != []
              && Resolution(spec, ctx, world) == ArgSuggestions(ListOf(opts[i].args)[0], world, ctx.currentToken)
  {
    hide ContextOf, NodeAt, DeepestNode, ArgSuggestions, OptNames, ListOf;
    ExpectedArgIsSuggested(spec, t, world);
    ResolverReachesParsedNode(spec, t);
    OptionArgResolves(spec, t);
    var ctx := ContextOf(spec, t);
    assert ctx.expected.optionArgIndex == 0 by { ValueIndexIsZero(spec, t); }
    var opts := Options(NodeAt(spec, ctx.specPath).value);
    var i := FindOption(opts, ctx.expected.optionName);
    assert ctx.expected.optionName in OptNames(opts[i]);
  }

  lemma ValueIndexIsZero(spec: Spec, t: Tokenizer.Tokens)
    requires ContextOf(spec, t).expected.OptionArg?
    ensures ContextOf(spec, t).expected.optionArgIndex == 0
  {
  }

  // ---------------------------------------------------------------- texts

  predicate IsLong(name: string) {
    |name| >= 2 && name[0] == '-' && name[1] == '-'
  }

  lemma {:induction false} LongNameIsFirst(names: seq<string>)
    ensures var long := LongName(names);
            if long.Some? then
              exists i :: 0 <= i < |names| && long.value == names[i] && IsLong(names[i])
                          && forall k :: 0 <= k < i ==> !IsLong(names[k])
            else forall k :: 0 <= k < |names| ==> !IsLong(names[k])
  {
    if names == [] || IsLong(names[0]) {
    } else {
      LongNameIsFirst(names[1..]);
      assert forall k :: 0 < k < |names| ==> names[k] == names[1..][k - 1];
      if LongName(names[1..]).Some? {
        var i :| 0 <= i < |names[1..]| && LongName(names[1..]).value == names[1..][i] && IsLong(names[1..][i])
                 && forall k :: 0 <= k < i ==> !IsLong(names[1..][k]);
        assert LongName(names).value == names[i + 1];
      }
    }
  }

  /**
   An option is matched by its first long name, or its first name if it has no long one; it is
   shown and inserted as that unless the spec says otherwise.
   */
  lemma OptionTexts(opt: Opt)
    ensures var s, names := OptionSuggestion(opt), OptNames(opt);
            && (names == [] ==> s.matchText == "")
            && (names != [] && (forall k :: 0 <= k < |names| ==> !IsLong(names[k])) ==> s.matchText == names[0])
            && (forall i :: 0 <= i < |names| && IsLong(names[i]) && (forall k :: 0 <= k < i ==> !IsLong(names[k])) ==>
                  s.matchText == names[i])
            && (opt.insertValue.None? ==> s.insertText == s.matchText)
            && (opt.insertValue.Some? ==> s.insertText == opt.insertValue.value)
            && (opt.displayName.None? ==> s.displayText == s.matchText)
            && (opt.displayName.Some? ==> s.displayText == opt.displayName.value)
            && s.description == (if opt.description.Some? then opt.description.value else "")
            && s.priority == (if opt.priority.Some? then opt.priority.value else 40)
            && s.kind == OptionKind && s.isDangerous == opt.isDangerous
  {
    LongNameIsFirst(OptNames(opt));
    hide OptNames, LongName, IsLong;
  }

  /** A subcommand is matched by its first name, and ranks above an option unless the spec says otherwise. */
  lemma SubcommandTexts(sc: Subcommand, opt: Opt)
    requires Names(sc) != []
    ensures var s := SubcommandSuggestion(sc);
            && s.matchText == Names(sc)[0]
            && (sc.insertValue.None? ==> s.insertText == s.matchText)
            && (sc.insertValue.Some? ==> s.insertText == sc.insertValue.value)
            && (sc.displayName.None? ==> s.displayText == s.matchText)
            && (sc.displayName.Some? ==> s.displayText == sc.displayName.value)
            && s.description == (if sc.description.Some? then sc.description.value else "")
            && s.priority == (if sc.priority.Some? then sc.priority.value else 75)
            && s.kind == SubcommandKind && s.isDangerous == sc.isDangerous
            && (sc.priority.None? && opt.priority.None? ==> s.priority > OptionSuggestion(opt).priority)
  {
  }

  /** A static suggestion given by a name alone, and one given in full. */
  lemma ItemTexts(name: string, full: Suggestion, kind: SuggestionType)
    ensures ItemSuggestion(JustName(name), kind) == ResolvedSuggestion(name, name, name, "", kind, 50, false)
    ensures var s := ItemSuggestion(FullSuggestion(full), kind);
            && (full.name.None? ==> s.matchText == "")
            && (full.name.Some? && ToVec(full.name.value) != [] ==> s.matchText == ToVec(full.name.value)[0])
            && (full.insertValue.None? ==> s.insertText == s.matchText)
            && (full.insertValue.Some? ==> s.insertText == full.insertValue.value)
            && (full.displayName.None? ==> s.displayText == s.matchText)
            && (full.displayName.Some? ==> s.displayText == full.displayName.value)
            && s.description == (if full.description.Some? then full.description.value else "")
            && s.kind == (if full.suggestionType.Some? then full.suggestionType.value else kind)
            && s.priority == (if full.priority.Some? then full.priority.value else 50)
            && s.isDangerous == full.isDangerous
  {
  }

  /** A generator's templates come first; each line of its script is a suggestion of that text. */
  lemma GeneratorYields(gen: Generator, world: World, partial: string)
    ensures var templates := ListOf(gen.template);
            var lines := if gen.script.None? then []
                         else world.run(gen.script.value, gen.splitOn, gen.scriptTimeout, world.cwd);
            GeneratorSuggestions(gen, world, partial) ==
              Flatten(seq(|templates|, i requires 0 <= i < |templates| =>
                world.expand(templates[i], world.cwd, partial)))
              + seq(|lines|, i requires 0 <= i < |lines| =>
                  ResolvedSuggestion(lines[i], lines[i], lines[i], "", SpecialKind, 50, false))
  {
    hide ListOf;
    TemplatesInOrder(ListOf(gen.template), world, partial);
  }
}
