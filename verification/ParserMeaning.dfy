/**
 What a parsed context says, stated by the tokens themselves and by what the parser says about
 the tokens before them. The roles that the reference of the parser assigns do not occur here.
 */
module ParserMeaning {
  import opened Prelude
  import opened SpecTypes
  import opened Tokenizer
  import opened Parser

  /** The context of the first `k` tokens. */
  function ContextBefore(spec: Spec, t: Tokens, k: nat): ParseContext
    requires k <= |t.tokens|
  {
    ContextOf(spec, Tokens(t.tokens[..k], ""))
  }

  /** The node that the first `k` tokens lead to. */
  function NodeBefore(spec: Spec, t: Tokens, k: nat): Subcommand
    requires k <= |t.tokens|
  {
    PathsCorrespond(spec, Tokens(t.tokens[..k], ""), 0);
    NodeAt(spec, ContextBefore(spec, t, k).specPath).value
  }

  /** What one more token does to everything the parser knows. */
  lemma TokenStep(spec: Spec, name: seq<string>, tokens: seq<string>, token: string)
    ensures var p := ProgressOf(spec, name, tokens);
            var i := FindChild(Children(p.cmd), token);
            var o := FindOption(Options(p.cmd), token);
            ProgressOf(spec, name, tokens + [token]) ==
            if p.pending.Some? then p.(pending := None)
            else if token == "--" then p.(hitSeparator := true)
            else if i < |Children(p.cmd)| then
              var child := Children(p.cmd)[i];
              p.(subcommandPath := p.subcommandPath + [token], specPath := p.specPath + [i], cmd := child,
                 usedOptions := [], argIndex := 0,
                 filterStrategy := if child.filterStrategy.Some? then child.filterStrategy.value else p.filterStrategy)
            else if token != "" && token[0] == '-' && o < |Options(p.cmd)| then
              var args := ListOf(Options(p.cmd)[o].args);
              p.(usedOptions := p.usedOptions + [token],
                 pending := if args != [] && !args[0].isOptional then Some(PendingArg(token, 0)) else None)
            else p.(argIndex := p.argIndex + 1)
  {
    hide ProgressOf, FindChild, FindOption, ListOf;
    ProgressOneMore(spec, name, tokens, token);
  }

  // ---------------------------------------------------------------- after a separator

  lemma {:induction false} SeparatorHitIff(spec: Spec, name: seq<string>, tokens: seq<string>)
    ensures ProgressOf(spec, name, tokens).hitSeparator <==>
            exists k: nat :: k < |tokens| && tokens[k] == "--" && ProgressOf(spec, name, tokens[..k]).pending.None?
    decreases |tokens|
  {
    hide ProgressOf;
    if tokens == [] {
      NoProgressYet(spec, name);
    } else {
      var n := |tokens| - 1;
      var init := tokens[..n];
      assert tokens == init + [tokens[n]];
      SeparatorHitIff(spec, name, init);
      TokenStep(spec, name, init, tokens[n]);
      assert forall k: nat :: k < n ==> init[..k] == tokens[..k];
      if ProgressOf(spec, name, init).hitSeparator {
        var k: nat :| k < n && init[k] == "--" && ProgressOf(spec, name, init[..k]).pending.None?;
        assert tokens[k] == "--" && ProgressOf(spec, name, tokens[..k]).pending.None?;
      } else if ProgressOf(spec, name, tokens).hitSeparator {
        assert tokens[n] == "--" && ProgressOf(spec, name, tokens[..n]).pending.None?;
      }
    }
  }

  /** The context of a prefix is what is known after its arguments. */
  lemma PrefixKnows(spec: Spec, t: Tokens, k: nat)
    requires k < |t.tokens|
    ensures var p := ProgressOf(spec, t.tokens[..1], t.tokens[1..][..k]);
            var ctx := ContextBefore(spec, t, k + 1);
            && ctx.specPath == p.specPath && ctx.usedOptions == p.usedOptions && NodeBefore(spec, t, k + 1) == p.cmd
            && ctx.expected == (if p.hitSeparator then Nothing
                                else if p.pending.Some? then OptionArg(p.pending.value.option, p.pending.value.index)
                                else SubcommandOrOptionOrArg(p.argIndex))
  {
    hide ProgressOf, ContextOf, NodeAt;
    var t' := Tokens(t.tokens[..k + 1], "");
    ContextFromProgress(spec, t');
    assert t'.tokens[..1] == t.tokens[..1] && t'.tokens[1..] == t.tokens[1..][..k];
    ProgressNode(spec, t.tokens[..1], t.tokens[1..][..k]);
  }

  lemma WholeKnows(spec: Spec, t: Tokens)
    requires t.tokens != []
    ensures var ctx, whole := ContextOf(spec, t), ContextBefore(spec, t, |t.tokens|);
            && ctx.expected == whole.expected && ctx.specPath == whole.specPath && ctx.usedOptions == whole.usedOptions
    ensures t.tokens[1..][..|t.tokens| - 1] == t.tokens[1..]
  {
    hide ProgressOf, ContextOf;
    assert t.tokens[..|t.tokens|] == t.tokens;
    ContextFromProgress(spec, t);
    ContextFromProgress(spec, Tokens(t.tokens, ""));
  }

  /**
   Nothing but the command's own last argument is expected exactly if some argument is a literal
   "--" that is not the value of an option.
   */
  lemma ExpectsNothingIff(spec: Spec, t: Tokens)
    ensures ContextOf(spec, t).expected == Nothing <==>
            exists k: nat :: 1 <= k < |t.tokens| && t.tokens[k] == "--"
                             && !ContextBefore(spec, t, k).expected.OptionArg?
  {
    hide ProgressOf, ContextOf, ContextBefore, NodeBefore;
    if t.tokens == [] {
      NoTokensExpected(spec, t);
    } else {
      var name, args := t.tokens[..1], t.tokens[1..];
      WholeKnows(spec, t);
      PrefixKnows(spec, t, |args|);
      SeparatorHitIff(spec, name, args);
      if ContextOf(spec, t).expected == Nothing {
        var k: nat :| k < |args| && args[k] == "--" && ProgressOf(spec, name, args[..k]).pending.None?;
        PrefixKnows(spec, t, k);
        assert t.tokens[k + 1] == "--";
      }
      forall k: nat | 1 <= k < |t.tokens| && t.tokens[k] == "--" && !ContextBefore(spec, t, k).expected.OptionArg?
        ensures ContextOf(spec, t).expected == Nothing
      {
        PrefixKnows(spec, t, k - 1);
        var before := args[..k - 1];
        if ProgressOf(spec, name, before).hitSeparator {
          SeparatorHitIff(spec, name, before);
          var j: nat :| j < |before| && before[j] == "--" && ProgressOf(spec, name, before[..j]).pending.None?;
          assert before[..j] == args[..j] && args[j] == "--";
        } else {
          assert args[k - 1] == "--";
        }
      }
    }
  }

  lemma NoTokensExpected(spec: Spec, t: Tokens)
    requires t.tokens == []
    ensures ContextOf(spec, t).expected == SubcommandOrOptionOrArg(0) && ContextOf(spec, t).usedOptions == []
  {
    NoArguments(spec);
  }

  // ---------------------------------------------------------------- an option's value

  /**
   An option's value is expected exactly if no separator came, and the last token is an option of
   the node before it, neither itself a value nor a subcommand there, whose first argument is
   required.
   */
  lemma ExpectsOptionArgIff(spec: Spec, t: Tokens, option: string, index: nat)
    ensures ContextOf(spec, t).expected == OptionArg(option, index) <==>
            && ContextOf(spec, t).expected != Nothing && index == 0
            && |t.tokens| >= 2 && option == t.tokens[|t.tokens| - 1]
            && !ContextBefore(spec, t, |t.tokens| - 1).expected.OptionArg?
            && option != "" && option[0] == '-'
            && var node := NodeBefore(spec, t, |t.tokens| - 1);
               (forall child :: child in Children(node) ==> option !in Names(child))
               && var o := FindOption(Options(node), option);
                  o < |Options(node)|
                  && ListOf(Options(node)[o].args) != [] && !ListOf(Options(node)[o].args)[0].isOptional
  {
    hide ProgressOf, ContextOf, ContextBefore, NodeBefore, ListOf;
    if t.tokens == [] {
      NoTokensExpected(spec, t);
    } else {
      var name, args := t.tokens[..1], t.tokens[1..];
      WholeKnows(spec, t);
      PrefixKnows(spec, t, |args|);
      ExpectsNothingIff(spec, t);
      if args == [] {
        NoProgressYet(spec, name);
      } else {
        var n := |args| - 1;
        PrefixKnows(spec, t, n);
        assert args == args[..n] + [args[n]];
        TokenStep(spec, name, args[..n], args[n]);
        NoSuchChildIff(Children(ProgressOf(spec, name, args[..n]).cmd), args[n]);
      }
    }
  }

  lemma NoSuchChildIff(children: seq<Subcommand>, token: string)
    ensures FindChild(children, token) == |children| <==> forall child :: child in children ==> token !in Names(child)
  {
    hide Names;
    if FindChild(children, token) < |children| {
      assert children[FindChild(children, token)] in children;
    }
  }

  // ---------------------------------------------------------------- positions in the current scope

  /** Paths only grow. */
  lemma {:induction false} PathsGrow(spec: Spec, name: seq<string>, tokens: seq<string>, k: nat)
    requires k <= |tokens|
    ensures |ProgressOf(spec, name, tokens[..k]).specPath| <= |ProgressOf(spec, name, tokens).specPath|
    decreases |tokens|
  {
    hide ProgressOf;
    if k == |tokens| {
      assert tokens[..k] == tokens;
    } else {
      var n := |tokens| - 1;
      assert tokens == tokens[..n] + [tokens[n]] && tokens[..n][..k] == tokens[..k];
      PathsGrow(spec, name, tokens[..n], k);
      TokenStep(spec, name, tokens[..n], tokens[n]);
    }
  }

  /** The token is written like an option, and one of the node's options goes by it. */
  predicate NamesOption(node: Subcommand, token: string) {
    token != "" && token[0] == '-' && exists opt :: opt in Options(node) && token in OptNames(opt)
  }

  lemma NamesOptionIff(node: Subcommand, token: string)
    ensures NamesOption(node, token) <==>
            token != "" && token[0] == '-' && FindOption(Options(node), token) < |Options(node)|
  {
    hide OptNames;
    var o := FindOption(Options(node), token);
    if o < |Options(node)| {
      assert Options(node)[o] in Options(node);
    }
  }

  /** The token belongs to the scope that is current at the end, and is neither a value nor a separator. */
  ghost predicate CountsInScope(spec: Spec, name: seq<string>, tokens: seq<string>, k: nat)
    requires k < |tokens|
  {
    var p := ProgressOf(spec, name, tokens[..k]);
    |p.specPath| == |ProgressOf(spec, name, tokens).specPath| && p.pending.None? && tokens[k] != "--"
  }

  /** One more token keeps the scope, or starts a new one. */
  lemma ScopeOneMore(spec: Spec, name: seq<string>, init: seq<string>, token: string, k: nat)
    requires k <= |init|
    ensures var p, q := ProgressOf(spec, name, init), ProgressOf(spec, name, init + [token]);
            && (init + [token])[..k] == init[..k]
            && (CountsInScope(spec, name, init + [token], k) <==>
                  |q.specPath| == |p.specPath|
                  && if k < |init| then CountsInScope(spec, name, init, k) else p.pending.None? && token != "--")
  {
    hide ProgressOf;
    assert (init + [token])[..k] == init[..k] && init[..|init|] == init;
    PathsGrow(spec, name, init, k);
    TokenStep(spec, name, init, token);
  }

  predicate IsIncreasing(at: seq<nat>) {
    forall i, j :: 0 <= i < j < |at| ==> at[i] < at[j]
  }

  lemma NoPositions()
    ensures IsIncreasing([])
  {
  }

  lemma OneMorePosition(at: seq<nat>, n: nat)
    requires IsIncreasing(at) && forall k :: k in at ==> k < n
    ensures IsIncreasing(at + [n]) && forall k :: k in at + [n] <==> k in at || k == n
  {
    assert forall i :: 0 <= i < |at| ==> at[i] in at;
  }

  /** The positions of the arguments and of the options of the current scope. */
  lemma {:induction false} PositionsInScope(spec: Spec, name: seq<string>, tokens: seq<string>)
    returns (args: seq<nat>, flags: seq<nat>)
    ensures var p := ProgressOf(spec, name, tokens);
            && |args| == p.argIndex && |flags| == |p.usedOptions|
            && (forall i :: 0 <= i < |flags| ==> flags[i] < |tokens| && p.usedOptions[i] == tokens[flags[i]])
    ensures IsIncreasing(args) && IsIncreasing(flags)
    ensures forall k: nat :: k in args <==>
              k < |tokens| && CountsInScope(spec, name, tokens, k)
              && !NamesOption(ProgressOf(spec, name, tokens[..k]).cmd, tokens[k])
    ensures forall k: nat :: k in flags <==>
              k < |tokens| && CountsInScope(spec, name, tokens, k)
              && NamesOption(ProgressOf(spec, name, tokens[..k]).cmd, tokens[k])
    decreases |tokens|
  {
    hide ProgressOf, NamesOption, IsIncreasing, CountsInScope;
    NoPositions();
    if tokens == [] {
      NoProgressYet(spec, name);
      args, flags := [], [];
    } else {
      var n := |tokens| - 1;
      var init, token := tokens[..n], tokens[n];
      assert tokens == init + [token];
      var p := ProgressOf(spec, name, init);
      args, flags := PositionsInScope(spec, name, init);
      TokenStep(spec, name, init, token);
      NamesOptionIff(p.cmd, token);
      forall k: nat | k <= n
        ensures tokens[..k] == init[..k]
        ensures CountsInScope(spec, name, tokens, k) <==>
                |ProgressOf(spec, name, tokens).specPath| == |p.specPath|
                && if k < n then CountsInScope(spec, name, init, k) else p.pending.None? && token != "--"
      {
        ScopeOneMore(spec, name, init, token, k);
      }
      OneMorePosition(args, n);
      OneMorePosition(flags, n);
      if |ProgressOf(spec, name, tokens).specPath| > |p.specPath| {
        args, flags := [], [];
      } else if p.pending.None? && token != "--" {
        if NamesOption(p.cmd, token) {
          flags := flags + [n];
        } else {
          args := args + [n];
        }
      }
    }
  }

  /**
   Unless a separator came, the argument index is the number of tokens of the current scope that
   are no option, no value of one, and no "--"; and the used options are those of the scope that
   are options, in order. A token is of the current scope if the path no longer changes from there.
   Positions count from the first token after the command name.
   */
  lemma ArgIndexCounts(spec: Spec, t: Tokens) returns (args: seq<nat>, flags: seq<nat>)
    requires ContextOf(spec, t).expected != Nothing
    ensures IsIncreasing(args) && IsIncreasing(flags)
    ensures var ctx := ContextOf(spec, t);
            && (ctx.expected.SubcommandOrOptionOrArg? ==> |args| == ctx.expected.argIndex)
            && |flags| == |ctx.usedOptions|
            && forall i :: 0 <= i < |flags| ==>
                 flags[i] + 1 < |t.tokens| && ctx.usedOptions[i] == t.tokens[flags[i] + 1]
    ensures forall k: nat :: k in args <==>
              && k + 1 < |t.tokens|
              && |ContextBefore(spec, t, k + 1).specPath| == |ContextOf(spec, t).specPath|
              && !ContextBefore(spec, t, k + 1).expected.OptionArg? && t.tokens[k + 1] != "--"
              && !NamesOption(NodeBefore(spec, t, k + 1), t.tokens[k + 1])
    ensures forall k: nat :: k in flags <==>
              && k + 1 < |t.tokens|
              && |ContextBefore(spec, t, k + 1).specPath| == |ContextOf(spec, t).specPath|
              && !ContextBefore(spec, t, k + 1).expected.OptionArg? && t.tokens[k + 1] != "--"
              && NamesOption(NodeBefore(spec, t, k + 1), t.tokens[k + 1])
  {
    hide ProgressOf, ContextOf, ContextBefore, NodeBefore, NamesOption, IsIncreasing;
    if t.tokens == [] {
      NoTokensExpected(spec, t);
      NoPositions();
      args, flags := [], [];
    } else {
      var name, tokens := t.tokens[..1], t.tokens[1..];
      WholeKnows(spec, t);
      PrefixKnows(spec, t, |tokens|);
      args, flags := PositionsInScope(spec, name, tokens);
      forall k: nat | k < |tokens|
        ensures CountsInScope(spec, name, tokens, k) <==>
                && |ContextBefore(spec, t, k + 1).specPath| == |ContextOf(spec, t).specPath|
                && !ContextBefore(spec, t, k + 1).expected.OptionArg? && tokens[k] != "--"
        ensures ProgressOf(spec, name, tokens[..k]).cmd == NodeBefore(spec, t, k + 1)
      {
        PrefixKnows(spec, t, k);
        SeparatorStays(spec, name, tokens, k);
      }
    }
  }

  lemma SeparatorStays(spec: Spec, name: seq<string>, tokens: seq<string>, k: nat)
    requires k <= |tokens|
    ensures ProgressOf(spec, name, tokens[..k]).hitSeparator ==> ProgressOf(spec, name, tokens).hitSeparator
  {
    hide ProgressOf;
    SeparatorHitIff(spec, name, tokens[..k]);
    SeparatorHitIff(spec, name, tokens);
    if ProgressOf(spec, name, tokens[..k]).hitSeparator {
      var j: nat :| j < k && tokens[..k][j] == "--" && ProgressOf(spec, name, tokens[..k][..j]).pending.None?;
      assert tokens[..k][..j] == tokens[..j];
    }
  }

  /** The command name and the subcommands entered, by the tokens that entered them. */
  lemma {:induction false} PathTokens(spec: Spec, name: seq<string>, tokens: seq<string>) returns (at: seq<nat>)
    ensures var p := ProgressOf(spec, name, tokens);
            && IsIncreasing(at) && |at| == |p.specPath| && |p.subcommandPath| == |name| + |at|
            && forall d :: 0 <= d < |at| ==>
                 && at[d] < |tokens| && p.subcommandPath[|name| + d] == tokens[at[d]]
                 && var before := ProgressOf(spec, name, tokens[..at[d]]);
                 p.specPath[d] == FindChild(Children(before.cmd), tokens[at[d]]) < |Children(before.cmd)|
    ensures var p := ProgressOf(spec, name, tokens);
            forall k: nat :: k in at <==>
              && k < |tokens| && var before := ProgressOf(spec, name, tokens[..k]);
              && before.pending.None? && tokens[k] != "--"
              && FindChild(Children(before.cmd), tokens[k]) < |Children(before.cmd)|
    decreases |tokens|
  {
    hide ProgressOf, IsIncreasing;
    NoPositions();
    if tokens == [] {
      NoProgressYet(spec, name);
      at := [];
    } else {
      var n := |tokens| - 1;
      var init, token := tokens[..n], tokens[n];
      assert tokens == init + [token];
      assert forall k: nat :: k < n ==> init[..k] == tokens[..k];
      at := PathTokens(spec, name, init);
      TokenStep(spec, name, init, token);
      OneMorePosition(at, n);
      var p := ProgressOf(spec, name, init);
      if p.pending.None? && token != "--" && FindChild(Children(p.cmd), token) < |Children(p.cmd)| {
        at := at + [n];
      }
    }
  }
}
