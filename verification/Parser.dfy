/**
 The spec-tree parser of src/engine/parser.rs. The reference gives each token a role, from left
 to right, at the node reached so far; the context is then read off the roles.
 */
module Parser {
  import opened Prelude
  import opened SpecTypes
  import opened Tokenizer

  datatype ExpectedCompletion =
    | SubcommandOrOptionOrArg(argIndex: nat)
    | OptionArg(optionName: string, optionArgIndex: nat)
    | Nothing

  datatype ParseContext = ParseContext(
    subcommandPath: seq<string>,
    specPath: seq<nat>,
    usedOptions: seq<string>,
    expected: ExpectedCompletion,
    currentToken: string,
    filterStrategy: FilterStrategy)

  // ---------------------------------------------------------------- the reference

  /** What a token is to the parser. */
  datatype Role = OptionValue | Separator | Descend(index: nat) | Flag(opt: Opt) | Positional

  /** The first subcommand that goes by a name, or the number of subcommands. */
  function FindChild(children: seq<Subcommand>, name: string): (i: nat)
    ensures i <= |children|
    ensures i < |children| ==> name in Names(children[i])
    ensures forall k :: 0 <= k < i ==> name !in Names(children[k])
  {
    if children == [] || name in Names(children[0]) then 0 else 1 + FindChild(children[1..], name)
  }

  /** The first option that goes by a name, or the number of options. */
  function FindOption(opts: seq<Opt>, name: string): (i: nat)
    ensures i <= |opts|
    ensures i < |opts| ==> name in OptNames(opts[i])
    ensures forall k :: 0 <= k < i ==> name !in OptNames(opts[k])
  {
    if opts == [] || name in OptNames(opts[0]) then 0 else 1 + FindOption(opts[1..], name)
  }

  /** The option must be followed by a value. */
  predicate NeedsValue(opt: Opt) {
    var args := ListOf(opt.args);
    args != [] && !args[0].isOptional
  }

  function RoleOf(cmd: Subcommand, awaitsValue: bool, token: string): Role {
    if awaitsValue then OptionValue
    else if token == "--" then Separator
    else
      var child := FindChild(Children(cmd), token);
      if child < |Children(cmd)| then Descend(child)
      else
        var opt := FindOption(Options(cmd), token);
        if token != "" && token[0] == '-' && opt < |Options(cmd)| then Flag(Options(cmd)[opt]) else Positional
  }

  /** The last token was an option that must be followed by a value. */
  predicate AwaitsValue(roles: seq<Role>) {
    roles != [] && roles[|roles| - 1].Flag? && NeedsValue(roles[|roles| - 1].opt)
  }

  /** The index path of the subcommands entered. */
  function Path(roles: seq<Role>): seq<nat> {
    if roles == [] then []
    else Path(roles[..|roles| - 1]) + if roles[|roles| - 1].Descend? then [roles[|roles| - 1].index] else []
  }

  lemma PathOneMore(spec: Spec, roles: seq<Role>, role: Role)
    requires NodeAt(spec, Path(roles)).Some?
    requires role.Descend? ==> role.index < |Children(NodeAt(spec, Path(roles)).value)|
    ensures Path(roles + [role]) == Path(roles) + if role.Descend? then [role.index] else []
    ensures NodeAt(spec, Path(roles + [role])) ==
            if role.Descend? then Some(Children(NodeAt(spec, Path(roles)).value)[role.index])
            else NodeAt(spec, Path(roles))
  {
    hide NodeAt;
    assert (roles + [role])[..|roles|] == roles;
    if role.Descend? {
      NodeAtSnoc(spec, Path(roles), role.index);
    } else {
      assert Path(roles) + [] == Path(roles);
    }
  }

  /** The roles of the tokens after the command name, each decided at the node its prefix leads to. */
  function Roles(spec: Spec, tokens: seq<string>): (roles: seq<Role>)
    ensures |roles| == |tokens|
    ensures NodeAt(spec, Path(roles)).Some?
  {
    if tokens == [] then []
    else
      var before := Roles(spec, tokens[..|tokens| - 1]);
      var cmd := NodeAt(spec, Path(before)).value;
      var role := RoleOf(cmd, AwaitsValue(before), tokens[|tokens| - 1]);
      PathOneMore(spec, before, role);
      before + [role]
  }

  /** The position after the last subcommand entered: where the current scope begins. */
  function ScopeStart(roles: seq<Role>): (start: nat)
    ensures start <= |roles|
    ensures start > 0 ==> roles[start - 1].Descend?
    ensures forall k :: start <= k < |roles| ==> !roles[k].Descend?
  {
    if roles == [] || roles[|roles| - 1].Descend? then |roles| else ScopeStart(roles[..|roles| - 1])
  }

  /** The tokens that were recognised as options. */
  function FlagTokens(tokens: seq<string>, roles: seq<Role>): seq<string>
    requires |tokens| == |roles|
  {
    if tokens == [] then []
    else
      var n := |tokens| - 1;
      FlagTokens(tokens[..n], roles[..n]) + if roles[n].Flag? then [tokens[n]] else []
  }

  /** The tokens that entered a subcommand. */
  function DescentTokens(tokens: seq<string>, roles: seq<Role>): seq<string>
    requires |tokens| == |roles|
  {
    if tokens == [] then []
    else
      var n := |tokens| - 1;
      DescentTokens(tokens[..n], roles[..n]) + if roles[n].Descend? then [tokens[n]] else []
  }

  function CountPositionals(roles: seq<Role>): nat {
    if roles == [] then 0
    else CountPositionals(roles[..|roles| - 1]) + if roles[|roles| - 1].Positional? then 1 else 0
  }

  /** The innermost filter strategy below the root. */
  function FilterAlong(spec: Spec, path: seq<nat>): FilterStrategy {
    if path == [] then Default
    else
      var n := NodeAt(spec, path);
      if n.Some? && n.value.filterStrategy.Some? then n.value.filterStrategy.value
      else FilterAlong(spec, path[..|path| - 1])
  }

  function ExpectedOf(tokens: seq<string>, roles: seq<Role>): ExpectedCompletion
    requires |tokens| == |roles|
  {
    if Separator in roles then Nothing
    else if AwaitsValue(roles) then OptionArg(tokens[|tokens| - 1], 0)
    else SubcommandOrOptionOrArg(CountPositionals(roles[ScopeStart(roles)..]))
  }

  /** The tokens after the command name. */
  function Arguments(tokens: seq<string>): seq<string> {
    if tokens == [] then [] else tokens[1..]
  }

  function ContextOf(spec: Spec, t: Tokens): ParseContext {
    var args := Arguments(t.tokens);
    var roles := Roles(spec, args);
    var scope := ScopeStart(roles);
    ParseContext(
      t.tokens[..Min(1, |t.tokens|)] + DescentTokens(args, roles),
      Path(roles),
      FlagTokens(args[scope..], roles[scope..]),
      ExpectedOf(args, roles),
      t.partial,
      FilterAlong(spec, Path(roles)))
  }

  // ---------------------------------------------------------------- one more token

  /** Everything the parser knows after some tokens: the variables of its loop. */
  datatype Progress = Progress(
    subcommandPath: seq<string>,
    specPath: seq<nat>,
    cmd: Subcommand,
    usedOptions: seq<string>,
    argIndex: nat,
    filterStrategy: FilterStrategy,
    hitSeparator: bool,
    pending: Option<PendingArg>)

  /** A pending option value: the option as typed, and which of its arguments is expected. */
  datatype PendingArg = PendingArg(option: string, index: nat)

  /** What the roles of the tokens say about those variables. */
  function ProgressOf(spec: Spec, name: seq<string>, tokens: seq<string>): Progress {
    var roles := Roles(spec, tokens);
    var scope := ScopeStart(roles);
    Progress(
      name + DescentTokens(tokens, roles),
      Path(roles),
      NodeAt(spec, Path(roles)).value,
      FlagTokens(tokens[scope..], roles[scope..]),
      CountPositionals(roles[scope..]),
      FilterAlong(spec, Path(roles)),
      Separator in roles,
      if AwaitsValue(roles) then Some(PendingArg(tokens[|tokens| - 1], 0)) else None)
  }

  /** The effect of a role. */
  function Proceed(p: Progress, role: Role, token: string): Progress
    requires role.Descend? ==> role.index < |Children(p.cmd)|
  {
    match role
    case OptionValue => p.(pending := None)
    case Separator => p.(pending := None, hitSeparator := true)
    case Positional => p.(pending := None, argIndex := p.argIndex + 1)
    case Flag(opt) =>
      p.(usedOptions := p.usedOptions + [token],
         pending := if NeedsValue(opt) then Some(PendingArg(token, 0)) else None)
    case Descend(i) =>
      var child := Children(p.cmd)[i];
      p.(subcommandPath := p.subcommandPath + [token], specPath := p.specPath + [i], cmd := child,
         usedOptions := [], argIndex := 0, pending := None,
         filterStrategy := OrElse(child.filterStrategy, p.filterStrategy))
  }

  lemma RolesOneMore(spec: Spec, tokens: seq<string>, token: string)
    ensures var roles := Roles(spec, tokens);
            Roles(spec, tokens + [token]) ==
            roles + [RoleOf(NodeAt(spec, Path(roles)).value, AwaitsValue(roles), token)]
  {
  }

  lemma ScopeOneMore(roles: seq<Role>, role: Role, tokens: seq<string>, token: string)
    requires |roles| == |tokens|
    ensures var start, start' := ScopeStart(roles), ScopeStart(roles + [role]);
            if role.Descend? then
              start' == |roles| + 1 && (roles + [role])[start'..] == [] && (tokens + [token])[start'..] == []
            else
              start' == start && (roles + [role])[start'..] == roles[start..] + [role]
              && (tokens + [token])[start'..] == tokens[start..] + [token]
  {
    assert (roles + [role])[..|roles|] == roles;
    hide ScopeStart;
    var start := ScopeStart(roles);
    if !role.Descend? {
      DropOneMore(roles, role, start);
      DropOneMore(tokens, token, start);
    }
  }

  lemma DropOneMore<T>(s: seq<T>, x: T, n: nat)
    requires n <= |s|
    ensures (s + [x])[n..] == s[n..] + [x]
  {
  }

  lemma CollectOneMore(roles: seq<Role>, role: Role, tokens: seq<string>, token: string)
    requires |roles| == |tokens|
    ensures FlagTokens(tokens + [token], roles + [role]) ==
            FlagTokens(tokens, roles) + if role.Flag? then [token] else []
    ensures DescentTokens(tokens + [token], roles + [role]) ==
            DescentTokens(tokens, roles) + if role.Descend? then [token] else []
    ensures CountPositionals(roles + [role]) == CountPositionals(roles) + if role.Positional? then 1 else 0
  {
  }

  lemma FilterOneMore(spec: Spec, path: seq<nat>, i: nat)
    requires NodeAt(spec, path).Some? && i < |Children(NodeAt(spec, path).value)|
    ensures FilterAlong(spec, path + [i]) ==
            OrElse(Children(NodeAt(spec, path).value)[i].filterStrategy, FilterAlong(spec, path))
  {
    NodeAtSnoc(spec, path, i);
    hide NodeAt;
    assert (path + [i])[..|path|] == path;
  }

  /** One more token changes what is known by the effect of its role. */
  lemma ProgressOneMore(spec: Spec, name: seq<string>, tokens: seq<string>, token: string)
    ensures var p := ProgressOf(spec, name, tokens);
            var role := RoleOf(p.cmd, p.pending.Some?, token);
            ProgressOf(spec, name, tokens + [token]) == Proceed(p, role, token)
  {
    hide Roles, NodeAt, ScopeStart, FlagTokens, DescentTokens, CountPositionals, FilterAlong, Path, RoleOf, FindChild,
         FindOption;
    var roles := Roles(spec, tokens);
    var cmd := NodeAt(spec, Path(roles)).value;
    var role := RoleOf(cmd, AwaitsValue(roles), token);
    RolesOneMore(spec, tokens, token);
    RoleInRange(cmd, AwaitsValue(roles), token);
    PathOneMore(spec, roles, role);
    ScopeOneMore(roles, role, tokens, token);
    CollectOneMore(roles, role, tokens, token);
    var scope := ScopeStart(roles);
    CollectOneMore(roles[scope..], role, tokens[scope..], token);
    NothingCollected();
    if role.Descend? {
      FilterOneMore(spec, Path(roles), role.index);
    }
    assert Path(roles) + [] == Path(roles);
    assert name + (DescentTokens(tokens, roles) + [token]) == name + DescentTokens(tokens, roles) + [token];
  }

  lemma NothingCollected()
    ensures FlagTokens([], []) == [] && DescentTokens([], []) == [] && CountPositionals([]) == 0
  {
  }

  lemma RoleInRange(cmd: Subcommand, awaitsValue: bool, token: string)
    ensures var role := RoleOf(cmd, awaitsValue, token); role.Descend? ==> role.index < |Children(cmd)|
  {
  }

  // ---------------------------------------------------------------- the implementation

  method FindSubcommand(children: seq<Subcommand>, token: string) returns (found: Option<nat>)
    ensures found == if FindChild(children, token) < |children| then Some(FindChild(children, token)) else None
  {
    for i := 0 to |children|
      invariant forall k :: 0 <= k < i ==> token !in Names(children[k])
    {
      if token in Names(children[i]) {
        return Some(i);
      }
    }
    return None;
  }

  method FindFlag(opts: seq<Opt>, token: string) returns (found: Option<Opt>)
    ensures found == if FindOption(opts, token) < |opts| then Some(opts[FindOption(opts, token)]) else None
  {
    for i := 0 to |opts|
      invariant forall k :: 0 <= k < i ==> token !in OptNames(opts[k])
    {
      if token in OptNames(opts[i]) {
        return Some(opts[i]);
      }
    }
    return None;
  }

  method Parse(spec: Spec, buffer: string, cursor: nat) returns (ctx: ParseContext)
    ensures ctx == ContextOf(spec, TokensOf(BeforeCursor(buffer, cursor)))
  {
    hide Roles, NodeAt, ScopeStart, FlagTokens, DescentTokens, CountPositionals, FilterAlong, Path, FindChild,
         FindOption, ProgressOf, ContextOf, TokensOf, BeforeCursor, Names, OptNames, ToVec;
    var tokens, partial := Tokenize(buffer, cursor);
    var subcommandPath: seq<string>, specPath, usedOptions := [], [], [];
    var currentCmd := spec;
    var argIndex, filterStrategy, hitSeparator := 0, Default, false;
    var commandTokens := Arguments(tokens);
    if tokens != [] {
      subcommandPath := [tokens[0]];
    }
    ghost var name := subcommandPath;
    var pendingOptionArg := None;
    NoProgressYet(spec, name);
    for i := 0 to |commandTokens|
      invariant Progress(subcommandPath, specPath, currentCmd, usedOptions, argIndex, filterStrategy, hitSeparator,
                         pendingOptionArg)
             == ProgressOf(spec, name, commandTokens[..i])
    {
      var token := commandTokens[i];
      ProgressOneMore(spec, name, commandTokens[..i], token);
      assert commandTokens[..i + 1] == commandTokens[..i] + [token];
      if pendingOptionArg.Some? {
        pendingOptionArg := None;
        continue;
      }
      if token == "--" {
        hitSeparator := true;
        continue;
      }
      var child := FindSubcommand(Children(currentCmd), token);
      if child.Some? {
        subcommandPath := subcommandPath + [token];
        specPath := specPath + [child.value];
        currentCmd := Children(currentCmd)[child.value];
        usedOptions := [];
        argIndex := 0;
        if currentCmd.filterStrategy.Some? {
          filterStrategy := currentCmd.filterStrategy.value;
        }
        continue;
      }
      if token != "" && token[0] == '-' {
        var flag := FindFlag(Options(currentCmd), token);
        if flag.Some? {
          usedOptions := usedOptions + [token];
          var argList := ListOf(flag.value.args);
          if argList != [] && !argList[0].isOptional {
            pendingOptionArg := Some(PendingArg(token, 0));
          }
          continue;
        }
      }
      argIndex := argIndex + 1;
    }
    assert commandTokens[..|commandTokens|] == commandTokens;
    ContextFromProgress(spec, Tokens(tokens, partial));
    assert name == tokens[..Min(1, |tokens|)];
    ctx := ParseContext(subcommandPath, specPath, usedOptions,
      if hitSeparator then Nothing
      else if pendingOptionArg.Some? then OptionArg(pendingOptionArg.value.option, pendingOptionArg.value.index)
      else SubcommandOrOptionOrArg(argIndex),
      partial, filterStrategy);
  }

  /** What is known after the last token is what the context reports. */
  lemma ContextFromProgress(spec: Spec, t: Tokens)
    ensures var p := ProgressOf(spec, t.tokens[..Min(1, |t.tokens|)], Arguments(t.tokens));
            ContextOf(spec, t) == ParseContext(p.subcommandPath, p.specPath, p.usedOptions,
              if p.hitSeparator then Nothing
              else if p.pending.Some? then OptionArg(p.pending.value.option, p.pending.value.index)
              else SubcommandOrOptionOrArg(p.argIndex),
              t.partial, p.filterStrategy)
  {
  }

  lemma NoProgressYet(spec: Spec, name: seq<string>)
    ensures ProgressOf(spec, name, []) == Progress(name, [], spec, [], 0, Default, false, None)
  {
  }

  // ---------------------------------------------------------------- what the context guarantees

  lemma {:induction false} DescentNames(spec: Spec, tokens: seq<string>, k: nat)
    ensures var roles := Roles(spec, tokens);
            && |DescentTokens(tokens, roles)| == |Path(roles)|
            && (k < |Path(roles)| ==>
                  && NodeAt(spec, Path(roles)[..k + 1]).Some?
                  && DescentTokens(tokens, roles)[k] in Names(NodeAt(spec, Path(roles)[..k + 1]).value))
    decreases |tokens|
  {
    hide NodeAt, DescentTokens, Path, Roles, RoleOf, FindChild;
    if tokens == [] {
      NothingCollected();
      NoArguments(spec);
    } else {
      var init, token := tokens[..|tokens| - 1], tokens[|tokens| - 1];
      assert tokens == init + [token];
      DescentNames(spec, init, k);
      var roles := Roles(spec, init);
      var cmd := NodeAt(spec, Path(roles)).value;
      var role := RoleOf(cmd, AwaitsValue(roles), token);
      RolesOneMore(spec, init, token);
      DescentIsNamed(cmd, AwaitsValue(roles), token);
      PathOneMore(spec, roles, role);
      CollectOneMore(roles, role, init, token);
      var path := Path(roles + [role]);
      if k < |Path(roles)| {
        assert path[..k + 1] == Path(roles)[..k + 1];
      } else if role.Descend? && k == |Path(roles)| {
        assert path[..k + 1] == path;
      }
    }
  }

  lemma DescentIsNamed(cmd: Subcommand, awaitsValue: bool, token: string)
    ensures var role := RoleOf(cmd, awaitsValue, token);
            role.Descend? ==> role.index < |Children(cmd)| && token in Names(Children(cmd)[role.index])
  {
  }

  /**
   The index path of a context leads to a node, level by level, and each later entry of the
   subcommand path is a name of the node at that depth.
   */
  lemma PathsCorrespond(spec: Spec, t: Tokens, k: nat)
    ensures var ctx := ContextOf(spec, t);
            && NodeAt(spec, ctx.specPath).Some?
            && |ctx.subcommandPath| == Min(1, |t.tokens|) + |ctx.specPath|
            && (t.tokens != [] ==> ctx.subcommandPath[0] == t.tokens[0])
            && (k < |ctx.specPath| ==>
                  && NodeAt(spec, ctx.specPath[..k + 1]).Some?
                  && ctx.subcommandPath[k + 1] in Names(NodeAt(spec, ctx.specPath[..k + 1]).value))
  {
    var args := Arguments(t.tokens);
    DescentNames(spec, args, k);
    hide NodeAt, Roles, DescentTokens, Path;
    if t.tokens == [] {
      assert Path(Roles(spec, args)) == [] by { NoArguments(spec); }
    }
  }

  lemma NoArguments(spec: Spec)
    ensures Roles(spec, []) == [] && Path([]) == []
  {
  }

  lemma ProgressNode(spec: Spec, name: seq<string>, args: seq<string>)
    ensures var p := ProgressOf(spec, name, args); NodeAt(spec, p.specPath) == Some(p.cmd)
  {
  }

  /** A pending option is the last token, and an option of the node reached that needs a value. */
  lemma PendingResolves(spec: Spec, name: seq<string>, tokens: seq<string>)
    requires ProgressOf(spec, name, tokens).pending.Some?
    ensures var p := ProgressOf(spec, name, tokens);
            var i := FindOption(Options(p.cmd), p.pending.value.option);
            && tokens != [] && p.pending == Some(PendingArg(tokens[|tokens| - 1], 0))
            && i < |Options(p.cmd)| && NeedsValue(Options(p.cmd)[i])
  {
    hide ProgressOf, FindChild;
    NoProgressYet(spec, name);
    if tokens != [] {
      var init, token := tokens[..|tokens| - 1], tokens[|tokens| - 1];
      assert tokens == init + [token];
      ProgressOneMore(spec, name, init, token);
    }
  }

  /**
   When an option value is expected, the option is found at the node reached, under the name
   that was typed, and the expected argument exists and is a required one.
   */
  lemma OptionArgResolves(spec: Spec, t: Tokens)
    requires ContextOf(spec, t).expected.OptionArg?
    ensures var ctx := ContextOf(spec, t);
            var opts := Options(NodeAt(spec, ctx.specPath).value);
            var i := FindOption(opts, ctx.expected.optionName);
            && i < |opts|
            && ctx.expected.optionName == t.tokens[|t.tokens| - 1]
            && ctx.expected.optionArgIndex < |ListOf(opts[i].args)|
            && !ListOf(opts[i].args)[ctx.expected.optionArgIndex].isOptional
  {
    hide ProgressOf, ContextOf, NodeAt;
    var name, args := t.tokens[..Min(1, |t.tokens|)], Arguments(t.tokens);
    ContextFromProgress(spec, t);
    ProgressNode(spec, name, args);
    PendingResolves(spec, name, args);
  }

  lemma {:induction false} FlagsBelongToNode(spec: Spec, name: seq<string>, tokens: seq<string>, used: string)
    requires used in ProgressOf(spec, name, tokens).usedOptions
    ensures var opts := Options(ProgressOf(spec, name, tokens).cmd); FindOption(opts, used) < |opts|
    decreases |tokens|
  {
    hide ProgressOf, FindChild;
    NoProgressYet(spec, name);
    if tokens == [] {
    } else {
      var init, token := tokens[..|tokens| - 1], tokens[|tokens| - 1];
      assert tokens == init + [token];
      var p := ProgressOf(spec, name, init);
      ProgressOneMore(spec, name, init, token);
      if used in p.usedOptions {
        FlagsBelongToNode(spec, name, init, used);
      }
    }
  }

  /** Every used option was recognised, in the current scope, as an option of the node reached. */
  lemma UsedOptionsResolve(spec: Spec, t: Tokens, used: string)
    requires used in ContextOf(spec, t).usedOptions
    ensures var opts := Options(NodeAt(spec, ContextOf(spec, t).specPath).value); FindOption(opts, used) < |opts|
  {
    FlagsBelongToNode(spec, t.tokens[..Min(1, |t.tokens|)], Arguments(t.tokens), used);
  }

  // ---------------------------------------------------------------- parsing below a node

  /** `r` is what is known after `p`, and then `q` as if from the node that `p` reached. */
  predicate Continues(p: Progress, q: Progress, r: Progress) {
    && r.subcommandPath == p.subcommandPath + q.subcommandPath && r.specPath == p.specPath + q.specPath
    && r.cmd == q.cmd && r.usedOptions == q.usedOptions && r.argIndex == q.argIndex && r.pending == q.pending
    && (r.hitSeparator <==> p.hitSeparator || q.hitSeparator)
    && (q.specPath == [] ==> r.filterStrategy == p.filterStrategy)
  }

  /** At the start of a scope, further tokens are read as they are at the root of the tree below. */
  lemma {:induction false} ProgressBelow(spec: Spec, name: seq<string>, tokens: seq<string>, more: seq<string>)
    requires var p := ProgressOf(spec, name, tokens); p.usedOptions == [] && p.argIndex == 0 && p.pending.None?
    ensures var p := ProgressOf(spec, name, tokens);
            Continues(p, ProgressOf(p.cmd, [], more), ProgressOf(spec, name, tokens + more))
    decreases |more|
  {
    hide ProgressOf, RoleOf;
    var p := ProgressOf(spec, name, tokens);
    if more == [] {
      NoProgressYet(p.cmd, []);
      assert tokens + more == tokens;
    } else {
      var init, token := more[..|more| - 1], more[|more| - 1];
      ProgressBelow(spec, name, tokens, init);
      assert more == init + [token] && tokens + more == tokens + init + [token];
      var q := ProgressOf(p.cmd, [], init);
      ProgressOneMore(p.cmd, [], init, token);
      ProgressOneMore(spec, name, tokens + init, token);
      RoleInRange(q.cmd, q.pending.Some?, token);
      ProceedContinues(p, q, ProgressOf(spec, name, tokens + init), RoleOf(q.cmd, q.pending.Some?, token), token);
    }
  }

  lemma ProceedContinues(p: Progress, q: Progress, r: Progress, role: Role, token: string)
    requires Continues(p, q, r) && (role.Descend? ==> role.index < |Children(q.cmd)|)
    ensures Continues(p, Proceed(q, role, token), Proceed(r, role, token))
  {
  }

  /** The path stays where it is exactly if no token enters a subcommand. */
  lemma NoDescentIff(spec: Spec, t: Tokens)
    ensures ContextOf(spec, t).specPath == [] <==>
            forall role :: role in Roles(spec, Arguments(t.tokens)) ==> !role.Descend?
  {
    PathEmptyIff(Roles(spec, Arguments(t.tokens)));
  }

  lemma {:induction false} PathEmptyIff(roles: seq<Role>)
    ensures Path(roles) == [] <==> forall role :: role in roles ==> !role.Descend?
  {
    if roles == [] {
    } else {
      PathEmptyIff(roles[..|roles| - 1]);
      assert roles == roles[..|roles| - 1] + [roles[|roles| - 1]];
    }
  }
}
