/**
 Accepting a suggestion: the Accept branch of `handle_key_event` in src/session/event_loop.rs
 rewrites the line, and the next parse must be exactly one level further down the spec tree.
 */
module Accepting {
  import opened Prelude
  import opened SpecTypes
  import opened Tokenizer
  import opened Parser
  import Popup
  import Keys
  import Resolver
  import Utf8

  // ---------------------------------------------------------------- the rewritten line

  /** The characters of the buffer from a byte offset on; None where slicing panics. */
  function FromByte(buffer: string, offset: nat): Option<string> {
    var n := Popup.CharsInBytes(buffer, offset);
    if n.None? then None else Some(buffer[n.value..])
  }

  /** The text before the token, the inserted text, a space, and the text after the cursor. */
  function NewLine(buffer: string, cursor: nat, tokenStart: nat, insertText: string): Option<string> {
    var before := Popup.CharsInBytes(buffer, tokenStart);
    var after := if cursor < |Utf8.EncodeAll(buffer)| then FromByte(buffer, cursor) else Some("");
    if before.None? || after.None? then None
    else Some(buffer[..before.value] + insertText + " " + after.value)
  }

  /** The bytes typed into the shell: Ctrl-A, Ctrl-K, and the new line. */
  method Inject(buffer: string, cursor: nat, tokenStart: nat, insertText: string) returns (bytes: seq<Byte>)
    requires NewLine(buffer, cursor, tokenStart, insertText).Some?
    ensures bytes == [0x01, 0x0B] + Utf8.EncodeAll(NewLine(buffer, cursor, tokenStart, insertText).value)
  {
    var before := buffer[..Popup.CharsInBytes(buffer, tokenStart).value];
    var afterCursor := "";
    if cursor < |Utf8.EncodeAll(buffer)| {
      afterCursor := FromByte(buffer, cursor).value;
    }
    bytes := [0x01];
    bytes := bytes + [0x0B];
    bytes := bytes + Utf8.EncodeAll(before + insertText + " " + afterCursor);
  }

  // ---------------------------------------------------------------- bytes and characters

  /** The popup slices the buffer at the same place as the tokenizer. */
  predicate CursorsAgree(buffer: string, cursor: nat) {
    Popup.CursorChars(buffer, cursor) == Some(Min(cursor, |buffer|))
  }

  /**
   The tracker sends a character index, the popup slices by bytes. They mean the same place
   exactly when the text before the cursor is ASCII, or the index is no less than the byte length.
   */
  lemma CursorsAgreeIff(buffer: string, cursor: nat)
    ensures CursorsAgree(buffer, cursor) <==>
            cursor >= |Utf8.EncodeAll(buffer)| || (cursor <= |buffer| && Utf8.IsAscii(buffer[..cursor]))
  {
    var bytes := |Utf8.EncodeAll(buffer)|;
    Utf8.EncodeAllLength(buffer);
    assert buffer[..|buffer|] == buffer;
    Popup.CharsInBytesOfPrefix(buffer, |buffer|);
    if cursor < bytes {
      if cursor <= |buffer| {
        Utf8.EncodeAllLength(buffer[..cursor]);
        Popup.CharsInBytesOfPrefix(buffer, cursor);
      }
    }
  }

  /** On an ASCII line they always agree. */
  lemma AsciiCursorsAgree(buffer: string, cursor: nat)
    requires Utf8.IsAscii(buffer)
    ensures CursorsAgree(buffer, cursor)
  {
    CursorsAgreeIff(buffer, cursor);
    Utf8.EncodeAllLength(buffer);
  }

  /** Where they agree, the line becomes what a user would expect. */
  lemma NewLineInCharacters(buffer: string, cursor: nat, insertText: string)
    requires CursorsAgree(buffer, cursor)
    ensures var text := BeforeCursor(buffer, cursor);
            && Popup.BeforeByteCursor(buffer, cursor) == text
            && NewLine(buffer, cursor, Popup.TokenStartByte(text), insertText) ==
               Some(text[..TokenStart(text)] + insertText + " " + buffer[|text|..])
  {
    var text := BeforeCursor(buffer, cursor);
    var start := TokenStart(text);
    assert text[..start] == buffer[..start];
    Popup.CharsInBytesOfPrefix(buffer, start);
    CursorsAgreeIff(buffer, cursor);
    Utf8.EncodeAllLength(buffer);
    if cursor >= |Utf8.EncodeAll(buffer)| {
      assert buffer[|text|..] == "";
    } else {
      Utf8.EncodeAllLength(buffer[..cursor]);
      Popup.CharsInBytesOfPrefix(buffer, cursor);
    }
  }

  /** The byte offset lies strictly inside the `i`-th character. */
  predicate IsInside(buffer: string, i: nat, offset: nat) {
    i < |buffer| && |Utf8.EncodeAll(buffer[..i])| < offset < |Utf8.EncodeAll(buffer[..i + 1])|
  }

  /** Slicing at the cursor panics exactly when, as a byte offset, it lies inside a character. */
  lemma CursorPanicsIff(buffer: string, cursor: nat)
    ensures Popup.CursorChars(buffer, cursor).None? <==> exists i :: IsInside(buffer, i, cursor)
  {
    var bytes := |Utf8.EncodeAll(buffer)|;
    assert buffer[..|buffer|] == buffer;
    if Popup.CursorChars(buffer, cursor).None? {
      Popup.CharsInBytesOfPrefix(buffer, |buffer|);
      var i := InsideCharacter(buffer, cursor);
      assert IsInside(buffer, i, cursor);
    } else {
      var k := Popup.CursorChars(buffer, cursor).value;
      forall i: nat
        ensures !IsInside(buffer, i, cursor)
      {
        if i < |buffer| {
          PrefixesGrow(buffer, i + 1, |buffer|);
          if k <= i {
            PrefixesGrow(buffer, k, i);
          } else {
            PrefixesGrow(buffer, i + 1, k);
          }
        }
      }
    }
  }

  lemma PrefixesGrow(text: string, i: nat, j: nat)
    requires i <= j <= |text|
    ensures |Utf8.EncodeAll(text[..i])| <= |Utf8.EncodeAll(text[..j])|
  {
    Utf8.EncodeAllAppend(text[..i], text[i..j]);
    assert text[..j] == text[..i] + text[i..j];
  }

  lemma {:induction false} InsideCharacter(text: string, n: nat) returns (i: nat)
    requires n < |Utf8.EncodeAll(text)| && Popup.CharsInBytes(text, n).None?
    ensures IsInside(text, i, n)
    decreases |text|
  {
    var w := Utf8.Width(text[0]);
    if w > n {
      i := 0;
    } else {
      i := InsideCharacter(text[1..], n - w);
      assert text[..i + 1][1..] == text[1..][..i] && text[..i + 2][1..] == text[1..][..i + 1];
      i := i + 1;
    }
  }

  /**
   Where they disagree, the popup sees fewer characters than the tokenizer, and the characters
   between the two places survive after the inserted word instead of being replaced.
   */
  lemma DisagreementKeepsText(buffer: string, cursor: nat, insertText: string)
    requires Popup.CursorChars(buffer, cursor).Some? && !CursorsAgree(buffer, cursor)
    ensures var seen := Popup.CursorChars(buffer, cursor).value;
            && seen < Min(cursor, |buffer|)
            && NewLine(buffer, cursor, Popup.TokenStartByte(Popup.BeforeByteCursor(buffer, cursor)), insertText) ==
               Some(buffer[..TokenStart(buffer[..seen])] + insertText + " " + buffer[seen..])
  {
    hide TokenStart;
    CursorsAgreeIff(buffer, cursor);
    var seen := Popup.CursorChars(buffer, cursor).value;
    Utf8.EncodeAllLength(buffer[..seen]);
    var start := TokenStart(buffer[..seen]);
    assert buffer[..seen][..start] == buffer[..start];
    Popup.CharsInBytesOfPrefix(buffer, start);
  }

  /** Such lines exist: in "éa" with the cursor at its end, the "a" survives after the inserted word. */
  lemma NonAsciiLineKeepsText()
    ensures var buffer := ['\U{E9}', 'a'];
            NewLine(buffer, 2, Popup.TokenStartByte(Popup.BeforeByteCursor(buffer, 2)), "x") == Some("x a")
  {
    var e := '\U{E9}';
    var buffer := [e, 'a'];
    assert buffer[..1] == [e] && [e] == "" + [e] && buffer == [e] + ['a'] && buffer[1..] == ['a'];
    Popup.EncodeOneMore("", e);
    Popup.EncodeOneMore([e], 'a');
    Popup.CharsInBytesOfPrefix(buffer, 1);
    NothingTyped();
    OneMoreQuoting("", e);
    hide Popup.CharsInBytes, Utf8.EncodeAll, TokenStart, QuotingAfter, Utf8.Encode, NewLine;
    DisagreementKeepsText(buffer, 2, "x");
    assert "" + "x" + " " + ['a'] == "x a";
  }

  /** Where the popup can slice at the cursor, the line can be rewritten. */
  lemma CanRewrite(buffer: string, cursor: nat, insertText: string)
    requires Popup.CursorChars(buffer, cursor).Some?
    ensures NewLine(buffer, cursor, Popup.TokenStartByte(Popup.BeforeByteCursor(buffer, cursor)), insertText).Some?
  {
    if CursorsAgree(buffer, cursor) {
      NewLineInCharacters(buffer, cursor, insertText);
    } else {
      DisagreementKeepsText(buffer, cursor, insertText);
    }
  }

  // ---------------------------------------------------------------- tokens after accepting

  /** A word that needs no quoting. */
  predicate IsPlainWord(w: string) {
    w != "" && HasNoMarks(w)
  }

  lemma {:induction false} AppendPlainWord(text: string, w: string)
    requires QuotingAfter(text) == UNQUOTED
    requires HasNoMarks(w)
    ensures QuotingAfter(text + w) == UNQUOTED
    ensures Completed(text + w) == Completed(text) && CurrentWord(text + w) == CurrentWord(text) + w
    decreases |w|
  {
    hide QuotingAfter, Completed, CurrentWord;
    if w == "" {
      assert text + w == text;
      assert CurrentWord(text) + w == CurrentWord(text);
    } else {
      var init, c := w[..|w| - 1], w[|w| - 1];
      AppendPlainWord(text, init);
      assert text + w == text + init + [c];
      OneMoreQuoting(text + init, c);
      OneMoreCompleted(text + init, c);
      OneMoreInWord(text + init, c);
      assert CurrentWord(text) + init + [c] == CurrentWord(text) + w;
    }
  }

  /** The text before the cursor once the word under it has been replaced by `w` and a space. */
  function Replaced(text: string, w: string): string {
    text[..TokenStart(text)] + w + " "
  }

  /** The replaced text ends in a separator, and its tokens are the completed ones and `w`. */
  lemma ReplacedIsComplete(text: string, w: string)
    requires IsPlainWord(w)
    ensures var replaced := Replaced(text, w);
            && QuotingAfter(replaced) == UNQUOTED && CurrentWord(replaced) == ""
            && Completed(replaced) == Completed(text) + [w]
  {
    hide QuotingAfter, Completed, CurrentWord, TokenStart;
    var head := text[..TokenStart(text)];
    StartUnquoted(text);
    HeadHasNoWord(text);
    AppendPlainWord(head, w);
    assert "" + w == w;
    OneMoreQuoting(head + w, ' ');
    OneMoreCompleted(head + w, ' ');
    OneMoreInWord(head + w, ' ');
  }

  lemma HeadHasNoWord(text: string)
    ensures CurrentWord(text[..TokenStart(text)]) == "" && Completed(text[..TokenStart(text)]) == Completed(text)
  {
    CutAtTokenStart(text);
    var head := text[..TokenStart(text)];
    assert head[TokenStart(head)..] == "";
    NothingTyped();
    CompletedAtStart(text);
  }

  /** The rewritten line holds the completed tokens, `w`, and whatever the text after the cursor holds. */
  lemma TokensReplaced(text: string, w: string, rest: string)
    requires IsPlainWord(w)
    ensures TokensOf(Replaced(text, w) + rest) ==
            Tokens(Completed(text) + [w] + TokensOf(rest).tokens, TokensOf(rest).partial)
  {
    hide QuotingAfter, Completed, CurrentWord, TokensOf, Replaced;
    ReplacedIsComplete(text, w);
    TokensReadOn(Replaced(text, w), rest);
  }

  /**
   Replacing the current word by a plain word adds exactly that word to the tokens and starts a
   new one, if and only if the text before the cursor does not end in a quoted or escaped blank and
   the text after it holds no token.
   */
  lemma AcceptAddsToken(text: string, w: string, rest: string)
    requires IsPlainWord(w)
    ensures TokensOf(Replaced(text, w) + rest) == Tokens(TokensOf(text).tokens + [w], "") <==>
            !EndsInQuotedBlank(text) && TokensOf(rest) == Tokens([], "")
  {
    hide QuotingAfter, Completed, CurrentWord, TokenStart, Unquote, Replaced;
    TokensReplaced(text, w, rest);
    CompletedUnlessQuotedBlank(text);
    var more := TokensOf(rest).tokens;
    if EndsInQuotedBlank(text) {
      var q := TokensOf(text).tokens[|Completed(text)|];
      assert (TokensOf(text).tokens + [w])[|Completed(text)|] == q != w;
      assert (Completed(text) + [w] + more)[|Completed(text)|] == w;
    } else if more != [] {
      assert |Completed(text) + [w] + more| > |Completed(text) + [w]|;
    }
  }

  /** The tokens are the completed ones, or one more, which then ends in a blank. */
  lemma CompletedUnlessQuotedBlank(text: string)
    ensures !EndsInQuotedBlank(text) ==> TokensOf(text).tokens == Completed(text)
    ensures EndsInQuotedBlank(text) ==>
              && |TokensOf(text).tokens| == |Completed(text)| + 1
              && var q := TokensOf(text).tokens[|Completed(text)|]; q != "" && IsBlank(q[|q| - 1])
  {
    hide QuotingAfter, Completed, CurrentWord, TokenStart, Unquote;
    TokenStartAgrees(text);
    CutAtTokenStart(text);
    if EndsInQuotedBlank(text) {
      var init, last := text[..|text| - 1], text[|text| - 1];
      assert text == init + [last];
      OneMoreInWord(init, last);
    }
  }

  // ---------------------------------------------------------------- one level down

  /** The popup offers `w` for a visible subcommand of the node, as its first name. */
  predicate IsOfferedSubcommand(cmd: Subcommand, w: string) {
    exists i :: 0 <= i < |Children(cmd)| && Resolver.IsListed(Children(cmd)[i])
                && Children(cmd)[i].insertValue.None? && Names(Children(cmd)[i])[0] == w
  }

  /** A subcommand token descends, from a context in which a subcommand can follow. */
  lemma ParseOneMoreSubcommand(spec: Spec, t: Tokens, w: string)
    requires t.tokens != [] && ContextOf(spec, t).expected.SubcommandOrOptionOrArg?
    requires w != "--" && FindChild(Children(NodeAt(spec, ContextOf(spec, t).specPath).value), w)
                          < |Children(NodeAt(spec, ContextOf(spec, t).specPath).value)|
    ensures var was := ContextOf(spec, t);
            var cmd := NodeAt(spec, was.specPath).value;
            var child := Children(cmd)[FindChild(Children(cmd), w)];
            ContextOf(spec, Tokens(t.tokens + [w], "")) ==
              ParseContext(was.subcommandPath + [w], was.specPath + [FindChild(Children(cmd), w)], [],
                           SubcommandOrOptionOrArg(0), "", OrElse(child.filterStrategy, was.filterStrategy))
  {
    hide ProgressOf, ContextOf, NodeAt, FindChild;
    var name, args := t.tokens[..1], Arguments(t.tokens);
    var t' := Tokens(t.tokens + [w], "");
    ContextFromProgress(spec, t);
    ContextFromProgress(spec, t');
    ProgressNode(spec, name, args);
    ProgressOneMore(spec, name, args, w);
    assert Arguments(t'.tokens) == args + [w];
    assert t'.tokens[..1] == name;
  }

  /** What the resolver offers as such a subcommand is among its suggestions, inserting `w`. */
  lemma OfferedIsSuggested(spec: Spec, ctx: ParseContext, world: Resolver.World, w: string) returns (i: nat)
    requires ctx.expected.SubcommandOrOptionOrArg?
    requires IsOfferedSubcommand(Resolver.DeepestNode(spec, ctx.specPath), w)
    ensures var suggestions := Resolver.Resolution(spec, ctx, world);
            i < |suggestions| && suggestions[i].kind == SubcommandKind && suggestions[i].insertText == w
  {
    hide Resolver.DeepestNode, Resolver.OptionSuggestions, Resolver.OptionalArgSuggestions, Resolver.ItemSuggestions;
    var children := Children(Resolver.DeepestNode(spec, ctx.specPath));
    var k :| 0 <= k < |children| && Resolver.IsListed(children[k]) && children[k].insertValue.None?
             && Names(children[k])[0] == w;
    i := ListedIsSuggested(children, k);
  }

  lemma {:induction false} ListedIsSuggested(children: seq<Subcommand>, k: nat) returns (i: nat)
    requires k < |children| && Resolver.IsListed(children[k])
    ensures i < |Resolver.SubcommandSuggestions(children)|
    ensures Resolver.SubcommandSuggestions(children)[i] == Resolver.SubcommandSuggestion(children[k])
  {
    var n := |children| - 1;
    if k < n {
      i := ListedIsSuggested(children[..n], k);
    } else {
      i := |Resolver.SubcommandSuggestions(children[..n])|;
    }
  }

  /** The rewritten line, as the popup and the event loop compute it, and the position after `w`. */
  function AcceptedLine(buffer: string, cursor: nat, w: string): Option<string> {
    NewLine(buffer, cursor, Popup.TokenStartByte(Popup.BeforeByteCursor(buffer, cursor)), w)
  }

  /** The context before accepting. */
  function ContextBefore(spec: Spec, buffer: string, cursor: nat): ParseContext {
    ContextOf(spec, TokensOf(BeforeCursor(buffer, cursor)))
  }

  /** `w` is a plain subcommand name that is offered where the cursor is. */
  predicate IsAcceptable(spec: Spec, buffer: string, cursor: nat, w: string) {
    var was := ContextBefore(spec, buffer, cursor);
    && IsPlainWord(w) && w != "--"
    && was.expected.SubcommandOrOptionOrArg? && IsOfferedSubcommand(Resolver.DeepestNode(spec, was.specPath), w)
  }

  /** The line after accepting is the old text with its word replaced, and the text after the cursor. */
  lemma AcceptedText(buffer: string, cursor: nat, w: string)
    requires CursorsAgree(buffer, cursor)
    ensures var text := BeforeCursor(buffer, cursor);
            AcceptedLine(buffer, cursor, w) == Some(Replaced(text, w) + buffer[|text|..])
  {
    var text := BeforeCursor(buffer, cursor);
    NewLineInCharacters(buffer, cursor, w);
    Regroup(text[..TokenStart(text)] + w, " ", buffer[|text|..]);
  }

  /** The text after the cursor, and whatever is typed at the end of the new line. */
  function TextAfter(buffer: string, cursor: nat, typed: string): string {
    buffer[|BeforeCursor(buffer, cursor)|..] + typed
  }

  /** The tokens of the new line, typed on or not. The retyping leaves the shell's cursor at its end. */
  lemma AcceptedTokens(buffer: string, cursor: nat, w: string, typed: string)
    requires CursorsAgree(buffer, cursor) && IsPlainWord(w) && !EndsInQuotedBlank(BeforeCursor(buffer, cursor))
    ensures var rest := TokensOf(TextAfter(buffer, cursor, typed));
            var line := AcceptedLine(buffer, cursor, w);
            && line.Some?
            && TokensOf(line.value + typed) ==
               Tokens(TokensOf(BeforeCursor(buffer, cursor)).tokens + [w] + rest.tokens, rest.partial)
  {
    hide TokensOf, EndsInQuotedBlank, AcceptedLine, TokenStart, Replaced, Completed;
    var text := BeforeCursor(buffer, cursor);
    AcceptedText(buffer, cursor, w);
    Regroup(Replaced(text, w), buffer[|text|..], typed);
    TokensReplaced(text, w, TextAfter(buffer, cursor, typed));
    CompletedUnlessQuotedBlank(text);
  }

  /** A subcommand token descends, and the tokens after it are read below the node entered. */
  lemma ParseBelowSubcommand(spec: Spec, t: Tokens, w: string, rest: Tokens)
    requires t.tokens != [] && ContextOf(spec, t).expected.SubcommandOrOptionOrArg? && w != "--"
    requires var children := Children(NodeAt(spec, ContextOf(spec, t).specPath).value);
             FindChild(children, w) < |children|
    ensures var was := ContextOf(spec, t);
            var children := Children(NodeAt(spec, was.specPath).value);
            var index := FindChild(children, w);
            var next := ContextOf(spec, Tokens(t.tokens + [w] + rest.tokens, rest.partial));
            var below := ContextOf(children[index], Tokens([w] + rest.tokens, rest.partial));
            && next.specPath == was.specPath + [index] + below.specPath
            && next.subcommandPath == was.subcommandPath + below.subcommandPath
            && next.usedOptions == below.usedOptions && next.expected == below.expected
            && next.currentToken == rest.partial
            && NodeAt(spec, next.specPath) == NodeAt(children[index], below.specPath)
            && (below.specPath == [] ==>
                  next.filterStrategy == OrElse(children[index].filterStrategy, was.filterStrategy))
  {
    hide ProgressOf, ContextOf, NodeAt, FindChild;
    var name, args := t.tokens[..1], Arguments(t.tokens);
    var t' := Tokens(t.tokens + [w] + rest.tokens, rest.partial);
    var p := ProgressOf(spec, name, args);
    ContextFromProgress(spec, t);
    ProgressNode(spec, name, args);
    var child := Children(p.cmd)[FindChild(Children(p.cmd), w)];
    ProgressOneMore(spec, name, args, w);
    ProgressBelow(spec, name, args + [w], rest.tokens);
    assert Arguments(t'.tokens) == args + [w] + rest.tokens && t'.tokens[..1] == name;
    ContextFromProgress(spec, t');
    ProgressNode(spec, name, args + [w] + rest.tokens);
    var t'' := Tokens([w] + rest.tokens, rest.partial);
    assert Arguments(t''.tokens) == rest.tokens && t''.tokens[..1] == [w];
    ContextFromProgress(child, t'');
    ProgressNode(child, [w], rest.tokens);
    NamePrecedes(child, [w], rest.tokens);
    Regroup(p.subcommandPath, [w], ProgressOf(child, [], rest.tokens).subcommandPath);
  }

  /** The command name only stands in front of the names of the subcommands entered. */
  lemma NamePrecedes(spec: Spec, name: seq<string>, tokens: seq<string>)
    ensures var p := ProgressOf(spec, [], tokens);
            ProgressOf(spec, name, tokens) == p.(subcommandPath := name + p.subcommandPath)
  {
    hide Roles, DescentTokens;
    assert [] + DescentTokens(tokens, Roles(spec, tokens)) == DescentTokens(tokens, Roles(spec, tokens));
  }

  lemma OfferedIsFound(spec: Spec, t: Tokens, w: string)
    requires IsOfferedSubcommand(NodeAt(spec, ContextOf(spec, t).specPath).value, w)
    ensures var children := Children(NodeAt(spec, ContextOf(spec, t).specPath).value);
            FindChild(children, w) < |children|
  {
  }

  lemma WholeLine(line: string)
    ensures BeforeCursor(line, |line|) == line
  {
  }

  /**
   The main theorem. Where the byte cursor and the character cursor agree (on every ASCII line),
   the text before the cursor holds a completed token and does not end in a quoted or escaped
   blank, accepting an offered plain subcommand name makes the parse of the new line, at its end,
   descend to the first subcommand that goes by that name, and the resolver with it. From there
   on, the text that was after the cursor is read as a command line below that subcommand. So it
   stays while more is typed at the end of the line.
   */
  lemma AcceptDescends(spec: Spec, buffer: string, cursor: nat, w: string, typed: string)
    requires CursorsAgree(buffer, cursor) && IsAcceptable(spec, buffer, cursor, w)
    requires var text := BeforeCursor(buffer, cursor); TokensOf(text).tokens != [] && !EndsInQuotedBlank(text)
    ensures var was := ContextBefore(spec, buffer, cursor);
            var children := Children(Resolver.DeepestNode(spec, was.specPath));
            var index := FindChild(children, w);
            var line := AcceptedLine(buffer, cursor, w);
            && line.Some? && index < |children|
            && var rest := TokensOf(TextAfter(buffer, cursor, typed));
            var below := ContextOf(children[index], Tokens([w] + rest.tokens, rest.partial));
            var next := ContextOf(spec, TokensOf(BeforeCursor(line.value + typed, |line.value + typed|)));
            && next.specPath == was.specPath + [index] + below.specPath
            && next.subcommandPath == was.subcommandPath + below.subcommandPath
            && next.usedOptions == below.usedOptions && next.expected == below.expected
            && next.currentToken == rest.partial
            && Resolver.DeepestNode(spec, next.specPath) == Resolver.DeepestNode(children[index], below.specPath)
  {
    hide ContextOf, NodeAt, TokensOf, EndsInQuotedBlank, AcceptedLine, FindChild, TokenStart, BeforeCursor,
         IsOfferedSubcommand, Resolver.DeepestNode, TextAfter;
    var t, rest := TokensOf(BeforeCursor(buffer, cursor)), TokensOf(TextAfter(buffer, cursor, typed));
    AcceptedTokens(buffer, cursor, w, typed);
    WholeLine(AcceptedLine(buffer, cursor, w).value + typed);
    Resolver.ResolverReachesParsedNode(spec, t);
    OfferedIsFound(spec, t, w);
    ParseBelowSubcommand(spec, t, w, rest);
    var children := Children(NodeAt(spec, ContextOf(spec, t).specPath).value);
    Resolver.ResolverReachesParsedNode(spec, Tokens(t.tokens + [w] + rest.tokens, rest.partial));
    Resolver.ResolverReachesParsedNode(children[FindChild(children, w)], Tokens([w] + rest.tokens, rest.partial));
  }

  /** With nothing to read after the cursor, the next context starts the scope of that subcommand. */
  lemma AcceptBeforeNothing(spec: Spec, buffer: string, cursor: nat, w: string)
    requires CursorsAgree(buffer, cursor) && IsAcceptable(spec, buffer, cursor, w)
    requires var text := BeforeCursor(buffer, cursor); TokensOf(text).tokens != [] && !EndsInQuotedBlank(text)
    requires TokensOf(TextAfter(buffer, cursor, "")) == Tokens([], "")
    ensures var was := ContextBefore(spec, buffer, cursor);
            var children := Children(Resolver.DeepestNode(spec, was.specPath));
            var index := FindChild(children, w);
            var line := AcceptedLine(buffer, cursor, w);
            && line.Some? && index < |children|
            && ContextOf(spec, TokensOf(BeforeCursor(line.value, |line.value|))) ==
               ParseContext(was.subcommandPath + [w], was.specPath + [index], [], SubcommandOrOptionOrArg(0), "",
                            OrElse(children[index].filterStrategy, was.filterStrategy))
  {
    hide ContextOf, NodeAt, TokensOf, EndsInQuotedBlank, AcceptedLine, FindChild, TokenStart, BeforeCursor,
         IsOfferedSubcommand, Resolver.DeepestNode, TextAfter;
    var t := TokensOf(BeforeCursor(buffer, cursor));
    AcceptedTokens(buffer, cursor, w, "");
    assert AcceptedLine(buffer, cursor, w).value + "" == AcceptedLine(buffer, cursor, w).value;
    WholeLine(AcceptedLine(buffer, cursor, w).value);
    Resolver.ResolverReachesParsedNode(spec, t);
    OfferedIsFound(spec, t, w);
    assert t.tokens + [w] + [] == t.tokens + [w];
    ParseOneMoreSubcommand(spec, t, w);
  }

  lemma OneLonger(path: seq<nat>, index: nat, below: seq<nat>)
    ensures (exists i :: path + [index] + below == path + [i]) <==> below == []
  {
    if below == [] {
      assert path + [index] + below == path + [index];
    } else {
      assert forall i :: |path + [index] + below| > |path + [i]|;
    }
  }

  /** Without a command name the accepted word becomes the command, and only what follows descends. */
  lemma ParseFirstToken(spec: Spec, w: string, t: Tokens, rest: Tokens)
    requires t.tokens == []
    ensures ContextOf(spec, t).specPath == []
    ensures ContextOf(spec, Tokens([w] + rest.tokens, rest.partial)).specPath == Path(Roles(spec, rest.tokens))
  {
    assert ([w] + rest.tokens)[1..] == rest.tokens;
    NoArguments(spec);
  }

  /**
   The path grows by exactly one level if and only if no token after the cursor enters a
   subcommand below the accepted one. Without a completed token the accepted word becomes the
   command name, and the path grows by exactly what the tokens after the cursor enter.
   */
  lemma DescendsOnceIff(spec: Spec, buffer: string, cursor: nat, w: string)
    requires CursorsAgree(buffer, cursor) && IsAcceptable(spec, buffer, cursor, w)
    requires !EndsInQuotedBlank(BeforeCursor(buffer, cursor))
    ensures var was := ContextBefore(spec, buffer, cursor);
            var children := Children(Resolver.DeepestNode(spec, was.specPath));
            var rest := TokensOf(TextAfter(buffer, cursor, "")).tokens;
            var line := AcceptedLine(buffer, cursor, w);
            && line.Some? && FindChild(children, w) < |children|
            && var next := ContextOf(spec, TokensOf(BeforeCursor(line.value, |line.value|)));
            if TokensOf(BeforeCursor(buffer, cursor)).tokens != [] then
              (exists index :: next.specPath == was.specPath + [index]) <==>
              forall role :: role in Roles(children[FindChild(children, w)], rest) ==> !role.Descend?
            else
              was.specPath == [] && next.specPath == Path(Roles(spec, rest))
  {
    hide ContextOf, NodeAt, TokensOf, EndsInQuotedBlank, AcceptedLine, FindChild, TokenStart, BeforeCursor,
         IsOfferedSubcommand, Resolver.DeepestNode, Roles, TextAfter, Path;
    var t, rest := TokensOf(BeforeCursor(buffer, cursor)), TokensOf(TextAfter(buffer, cursor, ""));
    Resolver.ResolverReachesParsedNode(spec, t);
    OfferedIsFound(spec, t, w);
    AcceptedTokens(buffer, cursor, w, "");
    assert AcceptedLine(buffer, cursor, w).value + "" == AcceptedLine(buffer, cursor, w).value;
    WholeLine(AcceptedLine(buffer, cursor, w).value);
    var was := ContextOf(spec, t);
    var children := Children(Resolver.DeepestNode(spec, was.specPath));
    var index := FindChild(children, w);
    if t.tokens != [] {
      AcceptDescends(spec, buffer, cursor, w, "");
    assert AcceptedLine(buffer, cursor, w).value + "" == AcceptedLine(buffer, cursor, w).value;
      var t' := Tokens([w] + rest.tokens, rest.partial);
      assert Arguments(t'.tokens) == rest.tokens;
      NoDescentIff(children[index], t');
      OneLonger(was.specPath, index, ContextOf(children[index], t').specPath);
    } else {
      assert [] + [w] + rest.tokens == [w] + rest.tokens;
      ParseFirstToken(spec, w, t, rest);
    }
  }

  /** A tree of visible subcommands that have only a name. */
  function Named(name: string, children: seq<Subcommand>): Subcommand {
    Subcommand(Single(name), None, None, None, None, Some(children), None, None, None, None, false, false)
  }

  lemma ReadsBeforeCursor()
    ensures TokensOf("git ") == Tokens(["git"], "") && !EndsInQuotedBlank("git ") && TokenStart("git ") == 4
  {
    hide QuotingAfter, TokenStart, Completed, CurrentWord;
    NothingTyped();
    AppendPlainWord("", "git");
    assert "" + "git" == "git" && "git" + [' '] == "git " && "git "[..3] == "git";
    OneMoreQuoting("git", ' ');
    OneMoreCompleted("git", ' ');
    OneMoreInWord("git", ' ');
  }

  lemma ReadsAfterCursor()
    ensures TokensOf(" add ") == Tokens(["add"], "")
  {
    hide QuotingAfter, TokenStart, Completed, CurrentWord;
    NothingTyped();
    OneMoreQuoting("", ' ');
    OneMoreCompleted("", ' ');
    assert "" + [' '] == " ";
    TokensReplaced(" ", "add", "");
    assert " "[..1] + "add" + " " + "" == " add ";
  }

  lemma ContextsOfExample(add: Subcommand, remote: Subcommand, spec: Spec)
    requires add == Named("add", []) && remote == Named("remote", [add]) && spec == Named("git", [remote])
    ensures var was := ContextOf(spec, Tokens(["git"], ""));
            was.specPath == [] && was.expected == SubcommandOrOptionOrArg(0) && NodeAt(spec, []) == Some(spec)
    ensures FindChild(Children(spec), "remote") == 0 && IsOfferedSubcommand(spec, "remote")
    ensures ContextOf(remote, Tokens(["remote"] + ["add"], "")).specPath == [0]
  {
    NoArguments(spec);
    NoArguments(remote);
    RolesOneMore(remote, [], "add");
    assert [] + ["add"] == ["add"] && (["remote"] + ["add"])[1..] == ["add"];
    assert Children(spec)[0] == remote && Names(remote)[0] == "remote";
    assert FindChild(Children(remote), "add") == 0;
    PathOneMore(remote, [], Descend(0));
  }

  lemma RemoteIsPlain()
    ensures IsPlainWord("remote") && "remote" != "--"
  {
  }

  lemma ExampleIsAcceptable(add: Subcommand, remote: Subcommand, spec: Spec)
    requires add == Named("add", []) && remote == Named("remote", [add]) && spec == Named("git", [remote])
    ensures BeforeCursor("git  add ", 4) == "git " && TextAfter("git  add ", 4, "") == " add "
    ensures CursorsAgree("git  add ", 4) && IsAcceptable(spec, "git  add ", 4, "remote")
    ensures ContextBefore(spec, "git  add ", 4).specPath == [] && Resolver.DeepestNode(spec, []) == spec
    ensures AcceptedLine("git  add ", 4, "remote") == Some("git remote  add ")
  {
    hide TokensOf, EndsInQuotedBlank, TokenStart, ContextOf, NodeAt, Resolver.DeepestNode, IsOfferedSubcommand,
         CursorsAgree, AcceptedLine, FindChild, IsPlainWord;
    RemoteIsPlain();
    assert "git  add "[..4] == "git " && "git  add "[4..] == " add ";
    ReadsBeforeCursor();
    ReadsAfterCursor();
    ContextsOfExample(add, remote, spec);
    AsciiCursorsAgree("git  add ", 4);
    Resolver.ResolverReachesParsedNode(spec, Tokens(["git"], ""));
    AcceptedText("git  add ", 4, "remote");
    assert "git "[..4] + "remote" + " " + " add " == "git remote  add ";
  }

  /**
   Descending further does happen: accepting "remote" in "git  add ", right after "git ", rewrites
   the line to "git remote  add ", which is two levels down.
   */
  lemma TextAfterCursorDescends()
    ensures var spec := Named("git", [Named("remote", [Named("add", [])])]);
            && CursorsAgree("git  add ", 4) && IsAcceptable(spec, "git  add ", 4, "remote")
            && TokensOf(BeforeCursor("git  add ", 4)) == Tokens(["git"], "")
            && !EndsInQuotedBlank(BeforeCursor("git  add ", 4))
            && ContextBefore(spec, "git  add ", 4).specPath == []
            && AcceptedLine("git  add ", 4, "remote") == Some("git remote  add ")
            && ContextOf(spec, TokensOf("git remote  add ")).specPath == [0, 0]
  {
    hide TokensOf, EndsInQuotedBlank, TokenStart, ContextOf, NodeAt, Resolver.DeepestNode, IsOfferedSubcommand,
         FindChild, CursorsAgree, AcceptedLine, IsAcceptable, BeforeCursor, ContextBefore, TextAfter;
    var add := Named("add", []);
    var remote := Named("remote", [add]);
    var spec := Named("git", [remote]);
    ReadsBeforeCursor();
    ReadsAfterCursor();
    ContextsOfExample(add, remote, spec);
    ExampleIsAcceptable(add, remote, spec);
    AcceptDescends(spec, "git  add ", 4, "remote", "");
    WholeLine("git remote  add ");
    assert "git remote  add " + "" == "git remote  add ";
    assert Children(spec)[0] == remote;
  }

  /** The components together: Tab in the popup, the rewriting of the line, and the parse of the new line. */
  method AcceptAndParse(popup: Popup.PopupState, spec: Spec) returns (bytes: seq<Byte>, ctx: ParseContext)
    requires popup.visible && popup.selected < |popup.items|
    requires CursorsAgree(popup.lastBuffer, popup.lastCursor)
    requires IsAcceptable(spec, popup.lastBuffer, popup.lastCursor, popup.items[popup.selected].insert)
    requires var text := BeforeCursor(popup.lastBuffer, popup.lastCursor);
             TokensOf(text).tokens != [] && !EndsInQuotedBlank(text)
    modifies popup
    ensures var buffer, cursor := old(popup.lastBuffer), old(popup.lastCursor);
            var w := old(popup.items[popup.selected].insert);
            var was := ContextBefore(spec, buffer, cursor);
            var children := Children(Resolver.DeepestNode(spec, was.specPath));
            var index, rest := FindChild(children, w), TokensOf(TextAfter(buffer, cursor, ""));
            && AcceptedLine(buffer, cursor, w).Some? && index < |children|
            && bytes == [0x01, 0x0B] + Utf8.EncodeAll(AcceptedLine(buffer, cursor, w).value)
            && var below := ContextOf(children[index], Tokens([w] + rest.tokens, rest.partial));
            && ctx.specPath == was.specPath + [index] + below.specPath
            && ctx.subcommandPath == was.subcommandPath + below.subcommandPath
            && ctx.usedOptions == below.usedOptions && ctx.expected == below.expected
            && ctx.currentToken == rest.partial
  {
    hide ContextOf, TokensOf, EndsInQuotedBlank, FindChild, TokenStart, BeforeCursor, NewLine, IsAcceptable,
         Resolver.DeepestNode, Popup.TokenStartByte, Popup.BeforeByteCursor, TextAfter;
    var buffer, cursor, w := popup.lastBuffer, popup.lastCursor, popup.items[popup.selected].insert;
    AcceptDescends(spec, buffer, cursor, w, "");
    assert AcceptedLine(buffer, cursor, w).value + "" == AcceptedLine(buffer, cursor, w).value;
    var action := popup.OnKey(Keys.Tab);
    bytes := Inject(popup.lastBuffer, popup.lastCursor, action.tokenStart, action.insertText);
    var line := NewLine(buffer, cursor, action.tokenStart, w).value;
    ctx := Parse(spec, line, |line|);
  }
}
