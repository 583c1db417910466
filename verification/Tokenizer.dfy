/**
 The tokenizer of src/engine/parser.rs, proved against a declarative reading of the line:
 blanks outside quotes and escapes separate words, and a token is a word with its quoting removed.
 The reference also says where the current word starts, which `find_token_start` computes
 separately in src/session/popup.rs.
 */
module Tokenizer {
  import opened Prelude

  /** Which quotes are open, and whether the next character is escaped. */
  datatype Quoting = Quoting(single: bool, double: bool, escape: bool)

  const UNQUOTED := Quoting(false, false, false)

  predicate IsBlank(c: char) {
    c == ' ' || c == '\t'
  }

  /** The character only changes the quoting; it is not part of any token. */
  predicate IsQuotingMark(q: Quoting, c: char) {
    !q.escape && ((c == '\\' && !q.single) || (c == '\'' && !q.double) || (c == '"' && !q.single))
  }

  predicate Separates(q: Quoting, c: char) {
    IsBlank(c) && q == UNQUOTED
  }

  function Advance(q: Quoting, c: char): Quoting {
    if q.escape then q.(escape := false)
    else if c == '\\' && !q.single then q.(escape := true)
    else if c == '\'' && !q.double then q.(single := !q.single)
    else if c == '"' && !q.single then q.(double := !q.double)
    else q
  }

  // ---------------------------------------------------------------- the reference

  /** The quoting in effect after `text`. */
  function QuotingAfter(text: string): Quoting {
    if text == "" then UNQUOTED else Advance(QuotingAfter(text[..|text| - 1]), text[|text| - 1])
  }

  /** The position after the last separator: where the current word starts. */
  function TokenStart(text: string): (start: nat)
    ensures start <= |text|
  {
    if text == "" then 0
    else if Separates(QuotingAfter(text[..|text| - 1]), text[|text| - 1]) then |text|
    else TokenStart(text[..|text| - 1])
  }

  /** A word with its quoting marks removed. */
  function Unquote(word: string): string {
    if word == "" then ""
    else
      var init, last := word[..|word| - 1], word[|word| - 1];
      Unquote(init) + (if IsQuotingMark(QuotingAfter(init), last) then "" else [last])
  }

  /** The word that ends at the end of `text`, unquoted. */
  function CurrentWord(text: string): string {
    Unquote(text[TokenStart(text)..])
  }

  /** A word counts as a token unless nothing is left of it. */
  function AsToken(word: string): seq<string> {
    if word == "" then [] else [word]
  }

  /** The tokens of the words that a separator has ended. */
  function Completed(text: string): seq<string>
    decreases |text|
  {
    var start := TokenStart(text);
    if start == 0 then [] else Completed(text[..start - 1]) + AsToken(CurrentWord(text[..start - 1]))
  }

  datatype Tokens = Tokens(tokens: seq<string>, partial: string)

  /** What the tokenizer makes of the text before the cursor. */
  function TokensOf(text: string): Tokens {
    if text != "" && IsBlank(text[|text| - 1]) then Tokens(Completed(text) + AsToken(CurrentWord(text)), "")
    else Tokens(Completed(text), CurrentWord(text))
  }

  /** The part of the buffer before the cursor, a character index. */
  function BeforeCursor(buffer: string, cursor: nat): string {
    buffer[..Min(cursor, |buffer|)]
  }

  /** No blanks, backslashes or quotes. */
  predicate HasNoMarks(w: string) {
    forall i :: 0 <= i < |w| ==> w[i] != ' ' && w[i] != '\t' && w[i] != '\\' && w[i] != '\'' && w[i] != '"'
  }

  /** The text ends in a blank that does not separate, because it is quoted or escaped. */
  predicate EndsInQuotedBlank(text: string) {
    text != "" && (text[|text| - 1] == ' ' || text[|text| - 1] == '\t') && QuotingAfter(text[..|text| - 1]) != UNQUOTED
  }

  // ---------------------------------------------------------------- the implementation

  method Tokenize(buffer: string, cursor: nat) returns (tokens: seq<string>, partial: string)
    ensures Tokens(tokens, partial) == TokensOf(BeforeCursor(buffer, cursor))
  {
    hide QuotingAfter, Completed, CurrentWord, TokenStart;
    var relevant := buffer[..Min(cursor, |buffer|)];
    NothingTyped();
    tokens := [];
    var current := "";
    var inSingleQuote, inDoubleQuote, escapeNext := false, false, false;
    for i := 0 to |relevant|
      invariant Quoting(inSingleQuote, inDoubleQuote, escapeNext) == QuotingAfter(relevant[..i])
      invariant tokens == Completed(relevant[..i])
      invariant current == CurrentWord(relevant[..i])
    {
      var ch := relevant[i];
      OneMoreQuoting(relevant[..i], ch);
      OneMoreCompleted(relevant[..i], ch);
      OneMoreInWord(relevant[..i], ch);
      assert relevant[..i + 1] == relevant[..i] + [ch];
      if escapeNext {
        current := current + [ch];
        escapeNext := false;
      } else if ch == '\\' && !inSingleQuote {
        escapeNext := true;
      } else if ch == '\'' && !inDoubleQuote {
        inSingleQuote := !inSingleQuote;
      } else if ch == '"' && !inSingleQuote {
        inDoubleQuote := !inDoubleQuote;
      } else if IsBlank(ch) && !inSingleQuote && !inDoubleQuote {
        if current != "" {
          tokens := tokens + [current];
          current := "";
        }
      } else {
        current := current + [ch];
      }
    }
    assert relevant[..|relevant|] == relevant;
    if relevant != "" && IsBlank(relevant[|relevant| - 1]) {
      if current != "" {
        tokens := tokens + [current];
      }
      partial := "";
    } else {
      partial := current;
    }
  }

  lemma NothingTyped()
    ensures QuotingAfter("") == UNQUOTED && Completed("") == [] && CurrentWord("") == "" && Unquote("") == ""
  {
  }

  // ---------------------------------------------------------------- one more character

  lemma OneMoreQuoting(text: string, c: char)
    ensures QuotingAfter(text + [c]) == Advance(QuotingAfter(text), c)
    ensures TokenStart(text + [c]) == if Separates(QuotingAfter(text), c) then |text| + 1 else TokenStart(text)
  {
  }

  lemma OneMoreCompleted(text: string, c: char)
    ensures Separates(QuotingAfter(text), c) ==> Completed(text + [c]) == Completed(text) + AsToken(CurrentWord(text))
    ensures !Separates(QuotingAfter(text), c) ==> Completed(text + [c]) == Completed(text)
  {
    OneMoreQuoting(text, c);
    hide QuotingAfter, Separates, TokenStart, CurrentWord;
    if Separates(QuotingAfter(text), c) {
      assert (text + [c])[..|text|] == text;
    } else {
      var start := TokenStart(text);
      assert start > 0 ==> (text + [c])[..start - 1] == text[..start - 1];
    }
  }

  lemma UnquoteMore(word: string, c: char)
    ensures Unquote(word + [c]) == Unquote(word) + if IsQuotingMark(QuotingAfter(word), c) then "" else [c]
  {
  }

  lemma OneMoreInWord(text: string, c: char)
    ensures CurrentWord(text + [c]) ==
            if Separates(QuotingAfter(text), c) then ""
            else CurrentWord(text) + if IsQuotingMark(QuotingAfter(text), c) then "" else [c]
  {
    hide QuotingAfter, TokenStart, Unquote, Separates, IsQuotingMark;
    OneMoreQuoting(text, c);
    var start := TokenStart(text);
    if Separates(QuotingAfter(text), c) {
      NothingTyped();
      assert (text + [c])[|text| + 1..] == "";
    } else {
      StartUnquoted(text);
      assert (text + [c])[start..] == text[start..] + [c];
      UnquoteMore(text[start..], c);
    }
  }

  /** Words start unquoted, so the quoting inside a word depends on that word alone. */
  lemma {:induction false} StartUnquoted(text: string)
    ensures QuotingAfter(text[..TokenStart(text)]) == UNQUOTED
    ensures QuotingAfter(text[TokenStart(text)..]) == QuotingAfter(text)
  {
    if text == "" {
    } else {
      var init, last := text[..|text| - 1], text[|text| - 1];
      var start := TokenStart(text);
      if Separates(QuotingAfter(init), last) {
        assert text[..start] == text;
        assert text[start..] == "";
      } else {
        StartUnquoted(init);
        assert text[..start] == init[..start];
        assert text[start..][..|text| - 1 - start] == init[start..];
      }
    }
  }

  // ---------------------------------------------------------------- reading on

  /** Where no word is open, what follows is read as if it stood alone. */
  lemma {:induction false} ReadOn(head: string, rest: string)
    requires QuotingAfter(head) == UNQUOTED && CurrentWord(head) == ""
    ensures QuotingAfter(head + rest) == QuotingAfter(rest)
    ensures Completed(head + rest) == Completed(head) + Completed(rest)
    ensures CurrentWord(head + rest) == CurrentWord(rest)
    decreases |rest|
  {
    hide QuotingAfter, Completed, CurrentWord, TokenStart;
    if rest == "" {
      assert head + rest == head;
      NothingTyped();
    } else {
      var init, c := rest[..|rest| - 1], rest[|rest| - 1];
      ReadOn(head, init);
      assert rest == init + [c] && head + rest == head + init + [c];
      OneMoreQuoting(init, c);
      OneMoreCompleted(init, c);
      OneMoreInWord(init, c);
      OneMoreQuoting(head + init, c);
      OneMoreCompleted(head + init, c);
      OneMoreInWord(head + init, c);
      Regroup(Completed(head), Completed(init), AsToken(CurrentWord(init)));
    }
  }

  /** The tokens of the whole are the completed tokens, and then those of what follows. */
  lemma TokensReadOn(head: string, rest: string)
    requires QuotingAfter(head) == UNQUOTED && CurrentWord(head) == ""
    ensures TokensOf(head + rest) == Tokens(Completed(head) + TokensOf(rest).tokens, TokensOf(rest).partial)
  {
    hide QuotingAfter, Completed, CurrentWord, TokenStart;
    ReadOn(head, rest);
    if rest == "" {
      assert head + rest == head;
      NothingTyped();
    } else {
      assert (head + rest)[|head + rest| - 1] == rest[|rest| - 1];
      Regroup(Completed(head), Completed(rest), AsToken(CurrentWord(rest)));
    }
  }

  // ---------------------------------------------------------------- agreement with the token start

  /**
   Cutting the text at the start of the current word leaves the completed tokens and an empty
   partial token.
   */
  lemma CutAtTokenStart(text: string)
    ensures TokensOf(text[..TokenStart(text)]) == Tokens(Completed(text), "")
    ensures TokenStart(text[..TokenStart(text)]) == TokenStart(text)
  {
    var start := TokenStart(text);
    if start == 0 {
      NothingTyped();
    } else {
      var before := text[..start];
      EndsAtSeparator(text);
      CompletedAtStart(text);
      assert before[start..] == "";
      NothingTyped();
    }
  }

  lemma {:induction false} EndsAtSeparator(text: string)
    requires TokenStart(text) > 0
    ensures var start := TokenStart(text);
            Separates(QuotingAfter(text[..start - 1]), text[start - 1]) && TokenStart(text[..start]) == start
  {
    var init := text[..|text| - 1];
    var start := TokenStart(text);
    if start < |text| {
      EndsAtSeparator(init);
      assert init[..start] == text[..start] && init[..start - 1] == text[..start - 1];
    } else {
      assert text[..start] == text;
    }
  }

  lemma CompletedAtStart(text: string)
    requires TokenStart(text[..TokenStart(text)]) == TokenStart(text)
    ensures Completed(text[..TokenStart(text)]) == Completed(text)
  {
    var start := TokenStart(text);
    if start > 0 {
      assert text[..start][..start - 1] == text[..start - 1];
    }
  }

  /**
   The two automata agree. With `start` the token start, the tokenizer splits the text into the
   tokens before `start` and the unquoted remainder: as the partial token, or as one more
   token when the text ends in a quoted or escaped blank.
   */
  lemma TokenStartAgrees(text: string)
    ensures var start := TokenStart(text);
            var before := TokensOf(text[..start]);
            && before.partial == ""
            && TokensOf(text) == if EndsInQuotedBlank(text) then Tokens(before.tokens + [Unquote(text[start..])], "")
                                 else Tokens(before.tokens, Unquote(text[start..]))
  {
    hide QuotingAfter, TokenStart, Completed, Unquote;
    CutAtTokenStart(text);
    if text != "" && IsBlank(text[|text| - 1]) {
      WordBeforeBlank(text);
    }
    assert Completed(text) + [] == Completed(text);
  }

  lemma WordBeforeBlank(text: string)
    requires text != "" && IsBlank(text[|text| - 1])
    ensures CurrentWord(text) == "" <==> !EndsInQuotedBlank(text)
  {
  }
}
