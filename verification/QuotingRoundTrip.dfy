/**
 The inverse of the tokenizer: every way of writing a token with bare characters, backslash
 escapes, single and double quotes is read back as that token.
 */
module QuotingRoundTrip {
  import opened Prelude
  import opened Tokenizer

  /** A character between double quotes. */
  datatype Inner = Plain(c: char) | Slashed(c: char)

  /** One stretch of a written word. */
  datatype Piece =
    | Bare(c: char)
    | Escaped(c: char)
    | SingleQuoted(text: string)
    | DoubleQuoted(inners: seq<Inner>)

  predicate IsSpecial(c: char) {
    c == ' ' || c == '\t' || c == '\\' || c == '\'' || c == '"'
  }

  predicate IsProperInner(i: Inner) {
    i.Plain? ==> i.c != '"' && i.c != '\\'
  }

  predicate IsProper(p: Piece) {
    match p
    case Bare(c) => !IsSpecial(c)
    case Escaped(_) => true
    case SingleQuoted(text) => '\'' !in text
    case DoubleQuoted(inners) => forall k :: 0 <= k < |inners| ==> IsProperInner(inners[k])
  }

  function WrittenInner(i: Inner): string {
    if i.Plain? then [i.c] else ['\\', i.c]
  }

  function WrittenInners(inners: seq<Inner>): string {
    if inners == [] then "" else WrittenInner(inners[0]) + WrittenInners(inners[1..])
  }

  function MeaningOfInners(inners: seq<Inner>): string {
    if inners == [] then "" else [inners[0].c] + MeaningOfInners(inners[1..])
  }

  function Written(p: Piece): string {
    match p
    case Bare(c) => [c]
    case Escaped(c) => ['\\', c]
    case SingleQuoted(text) => ['\''] + text + ['\'']
    case DoubleQuoted(inners) => ['"'] + WrittenInners(inners) + ['"']
  }

  function Meaning(p: Piece): string {
    match p
    case Bare(c) => [c]
    case Escaped(c) => [c]
    case SingleQuoted(text) => text
    case DoubleQuoted(inners) => MeaningOfInners(inners)
  }

  function WrittenWord(pieces: seq<Piece>): string {
    if pieces == [] then "" else Written(pieces[0]) + WrittenWord(pieces[1..])
  }

  function MeaningOfWord(pieces: seq<Piece>): string {
    if pieces == [] then "" else Meaning(pieces[0]) + MeaningOfWord(pieces[1..])
  }

  // ---------------------------------------------------------------- reading inside a word

  /** Appending `s` ends no word, and adds `kept` to the current one. */
  predicate Extends(text: string, s: string, kept: string) {
    Completed(text + s) == Completed(text) && CurrentWord(text + s) == CurrentWord(text) + kept
  }

  lemma ExtendByOne(text: string, c: char)
    requires !Separates(QuotingAfter(text), c)
    ensures Extends(text, [c], if IsQuotingMark(QuotingAfter(text), c) then "" else [c])
    ensures QuotingAfter(text + [c]) == Advance(QuotingAfter(text), c)
  {
    hide Completed, CurrentWord, QuotingAfter;
    OneMoreQuoting(text, c);
    OneMoreCompleted(text, c);
    OneMoreInWord(text, c);
  }

  lemma ExtendByTwo(text: string, a: string, kept: string, b: string, kept': string)
    requires Extends(text, a, kept) && Extends(text + a, b, kept')
    ensures Extends(text, a + b, kept + kept')
  {
    hide Completed, CurrentWord;
    assert text + (a + b) == text + a + b;
    assert CurrentWord(text) + kept + kept' == CurrentWord(text) + (kept + kept');
  }

  lemma {:induction false} ReadSingleQuoted(text: string, s: string)
    requires QuotingAfter(text) == Quoting(true, false, false) && '\'' !in s
    ensures Extends(text, s, s) && QuotingAfter(text + s) == QuotingAfter(text)
    decreases |s|
  {
    hide Completed, CurrentWord, QuotingAfter;
    if s == "" {
      assert text + s == text;
      assert CurrentWord(text) + s == CurrentWord(text);
    } else {
      ExtendByOne(text, s[0]);
      ReadSingleQuoted(text + [s[0]], s[1..]);
      ExtendByTwo(text, [s[0]], [s[0]], s[1..], s[1..]);
      assert [s[0]] + s[1..] == s;
      assert text + [s[0]] + s[1..] == text + s;
    }
  }

  lemma ReadInner(text: string, i: Inner)
    requires QuotingAfter(text) == Quoting(false, true, false) && IsProperInner(i)
    ensures Extends(text, WrittenInner(i), [i.c]) && QuotingAfter(text + WrittenInner(i)) == QuotingAfter(text)
  {
    hide Completed, CurrentWord, QuotingAfter, Extends;
    if i.Plain? {
      ExtendByOne(text, i.c);
    } else {
      ExtendByOne(text, '\\');
      ExtendByOne(text + ['\\'], i.c);
      ExtendByTwo(text, ['\\'], "", [i.c], [i.c]);
      assert ['\\'] + [i.c] == WrittenInner(i);
      assert text + ['\\'] + [i.c] == text + WrittenInner(i);
      assert "" + [i.c] == [i.c];
    }
  }

  lemma {:induction false} ReadInners(text: string, inners: seq<Inner>)
    requires QuotingAfter(text) == Quoting(false, true, false)
    requires forall k :: 0 <= k < |inners| ==> IsProperInner(inners[k])
    ensures Extends(text, WrittenInners(inners), MeaningOfInners(inners))
    ensures QuotingAfter(text + WrittenInners(inners)) == QuotingAfter(text)
    decreases |inners|
  {
    hide Completed, CurrentWord, QuotingAfter, WrittenInner;
    if inners == [] {
      assert text + "" == text;
      assert CurrentWord(text) + "" == CurrentWord(text);
    } else {
      var w, rest := WrittenInner(inners[0]), WrittenInners(inners[1..]);
      ReadInner(text, inners[0]);
      ReadInners(text + w, inners[1..]);
      ExtendByTwo(text, w, [inners[0].c], rest, MeaningOfInners(inners[1..]));
      assert text + w + rest == text + (w + rest);
    }
  }

  lemma ReadPiece(text: string, p: Piece)
    requires QuotingAfter(text) == UNQUOTED && IsProper(p)
    ensures Extends(text, Written(p), Meaning(p)) && QuotingAfter(text + Written(p)) == UNQUOTED
  {
    hide Completed, CurrentWord, QuotingAfter, Extends, WrittenInners, MeaningOfInners;
    match p
    case Bare(c) =>
      ExtendByOne(text, c);
    case Escaped(c) =>
      ExtendByOne(text, '\\');
      ExtendByOne(text + ['\\'], c);
      ExtendByTwo(text, ['\\'], "", [c], [c]);
      assert ['\\'] + [c] == Written(p);
      assert text + ['\\'] + [c] == text + Written(p);
      assert "" + [c] == [c];
    case SingleQuoted(s) =>
      ExtendByOne(text, '\'');
      ReadSingleQuoted(text + ['\''], s);
      Enclose(text, '\'', s, s);
    case DoubleQuoted(inners) =>
      ExtendByOne(text, '"');
      ReadInners(text + ['"'], inners);
      Enclose(text, '"', WrittenInners(inners), MeaningOfInners(inners));
  }

  /** The closing mark after the text between quotes. */
  lemma Enclose(text: string, mark: char, s: string, kept: string)
    requires mark == '\'' || mark == '"'
    requires QuotingAfter(text) == UNQUOTED
    requires Extends(text, [mark], "") && Extends(text + [mark], s, kept)
    requires QuotingAfter(text + [mark] + s) == Quoting(mark == '\'', mark == '"', false)
    ensures Extends(text, [mark] + s + [mark], kept)
    ensures QuotingAfter(text + ([mark] + s + [mark])) == UNQUOTED
  {
    hide Completed, CurrentWord, QuotingAfter, Extends;
    ExtendByTwo(text, [mark], "", s, kept);
    assert "" + kept == kept;
    assert text + [mark] + s == text + ([mark] + s);
    ExtendByOne(text + ([mark] + s), mark);
    ExtendByTwo(text, [mark] + s, kept, [mark], "");
    assert kept + "" == kept;
    assert text + ([mark] + s) + [mark] == text + ([mark] + s + [mark]);
  }

  lemma {:induction false} ReadWord(text: string, pieces: seq<Piece>)
    requires QuotingAfter(text) == UNQUOTED
    requires forall k :: 0 <= k < |pieces| ==> IsProper(pieces[k])
    ensures Extends(text, WrittenWord(pieces), MeaningOfWord(pieces))
    ensures QuotingAfter(text + WrittenWord(pieces)) == UNQUOTED
    decreases |pieces|
  {
    hide Completed, CurrentWord, QuotingAfter, Written, Meaning;
    if pieces == [] {
      assert text + "" == text;
      assert CurrentWord(text) + "" == CurrentWord(text);
    } else {
      var w, rest := Written(pieces[0]), WrittenWord(pieces[1..]);
      ReadPiece(text, pieces[0]);
      ReadWord(text + w, pieces[1..]);
      ExtendByTwo(text, w, Meaning(pieces[0]), rest, MeaningOfWord(pieces[1..]));
      assert text + w + rest == text + (w + rest);
    }
  }

  // ---------------------------------------------------------------- a whole line

  predicate IsGap(s: string) {
    forall k :: 0 <= k < |s| ==> s[k] == ' ' || s[k] == '\t'
  }

  /** A written word and the blanks after it. */
  datatype Word = Word(pieces: seq<Piece>, gap: string)

  predicate IsProperWord(w: Word) {
    (forall k :: 0 <= k < |w.pieces| ==> IsProper(w.pieces[k])) && w.gap != "" && IsGap(w.gap)
  }

  function LineOf(words: seq<Word>): string {
    if words == [] then "" else WrittenWord(words[0].pieces) + words[0].gap + LineOf(words[1..])
  }

  function TokensMeant(words: seq<Word>): seq<string> {
    if words == [] then [] else AsToken(MeaningOfWord(words[0].pieces)) + TokensMeant(words[1..])
  }

  /** Between words: nothing is open and no word has begun. */
  predicate IsBetweenWords(text: string) {
    QuotingAfter(text) == UNQUOTED && CurrentWord(text) == ""
  }

  /** The first blank ends the word, the others change nothing. */
  lemma {:induction false} ReadGap(text: string, gap: string)
    requires QuotingAfter(text) == UNQUOTED && gap != "" && IsGap(gap)
    ensures IsBetweenWords(text + gap)
    ensures Completed(text + gap) == Completed(text) + AsToken(CurrentWord(text))
    decreases |gap|
  {
    hide Completed, CurrentWord, QuotingAfter;
    var init, last := gap[..|gap| - 1], gap[|gap| - 1];
    assert text + gap == text + init + [last];
    if init == "" {
      assert text + init == text;
    } else {
      ReadGap(text, init);
      assert Completed(text + init) + AsToken("") == Completed(text + init);
    }
    OneMoreQuoting(text + init, last);
    OneMoreCompleted(text + init, last);
    OneMoreInWord(text + init, last);
  }

  lemma {:induction false} ReadLine(text: string, words: seq<Word>)
    requires IsBetweenWords(text)
    requires forall k :: 0 <= k < |words| ==> IsProperWord(words[k])
    ensures IsBetweenWords(text + LineOf(words))
    ensures Completed(text + LineOf(words)) == Completed(text) + TokensMeant(words)
    decreases |words|
  {
    hide Completed, CurrentWord, QuotingAfter, WrittenWord, MeaningOfWord, AsToken;
    if words == [] {
      assert text + "" == text;
    } else {
      var w, rest := WrittenWord(words[0].pieces), LineOf(words[1..]);
      var more := text + w + words[0].gap;
      ReadWord(text, words[0].pieces);
      ReadGap(text + w, words[0].gap);
      ReadLine(more, words[1..]);
      assert "" + MeaningOfWord(words[0].pieces) == MeaningOfWord(words[0].pieces);
      assert more + rest == text + (w + words[0].gap + rest);
    }
  }

  /** However the words are written and spaced, the tokens are what they mean. */
  lemma LineReadsBack(lead: string, words: seq<Word>)
    requires IsGap(lead)
    requires forall k :: 0 <= k < |words| ==> IsProperWord(words[k])
    ensures TokensOf(lead + LineOf(words)) == Tokens(TokensMeant(words), "")
  {
    hide Completed, CurrentWord, QuotingAfter, LineOf, TokensMeant;
    ReadLead(lead);
    ReadLine(lead, words);
    assert [] + TokensMeant(words) + [] == TokensMeant(words);
  }

  lemma ReadLead(lead: string)
    requires IsGap(lead)
    ensures IsBetweenWords(lead) && Completed(lead) == []
  {
    hide Completed, CurrentWord, QuotingAfter;
    NothingTyped();
    if lead != "" {
      ReadGap("", lead);
      assert "" + lead == lead;
    }
  }

  // ---------------------------------------------------------------- three ways of writing a token

  datatype Style = Slashes | DoubleQuotes | SingleQuotes

  function SlashAll(token: string): seq<Piece> {
    seq(|token|, i requires 0 <= i < |token| => if IsSpecial(token[i]) then Escaped(token[i]) else Bare(token[i]))
  }

  function Inners(token: string): seq<Inner> {
    seq(|token|, i requires 0 <= i < |token| =>
      if token[i] == '"' || token[i] == '\\' then Slashed(token[i]) else Plain(token[i]))
  }

  function Quoted(token: string, style: Style): seq<Piece> {
    match style
    case Slashes => SlashAll(token)
    case DoubleQuotes => [DoubleQuoted(Inners(token))]
    case SingleQuotes => [SingleQuoted(token)]
  }

  lemma {:induction false} SlashesMean(token: string)
    ensures MeaningOfWord(SlashAll(token)) == token
  {
    if token == "" {
    } else {
      SlashesMean(token[1..]);
      assert SlashAll(token)[1..] == SlashAll(token[1..]);
    }
  }

  lemma {:induction false} InnersMean(token: string)
    ensures MeaningOfInners(Inners(token)) == token
  {
    if token == "" {
    } else {
      InnersMean(token[1..]);
      assert Inners(token)[1..] == Inners(token[1..]);
    }
  }

  /** A token to write: its style, and the blanks after it. Single quotes cannot hold a single quote. */
  datatype Request = Request(token: string, style: Style, gap: string)

  predicate IsWritable(r: Request) {
    r.token != "" && r.gap != "" && IsGap(r.gap) && (r.style == SingleQuotes ==> '\'' !in r.token)
  }

  function WordsFor(requests: seq<Request>): seq<Word> {
    seq(|requests|, i requires 0 <= i < |requests| =>
      Word(Quoted(requests[i].token, requests[i].style), requests[i].gap))
  }

  function TokensFor(requests: seq<Request>): seq<string> {
    seq(|requests|, i requires 0 <= i < |requests| => requests[i].token)
  }

  lemma QuotedMeans(token: string, style: Style)
    ensures MeaningOfWord(Quoted(token, style)) == token
  {
    SlashesMean(token);
    InnersMean(token);
    if style != Slashes {
      assert Quoted(token, style)[1..] == [];
    }
  }

  lemma {:induction false} RequestsMean(requests: seq<Request>)
    requires forall k :: 0 <= k < |requests| ==> IsWritable(requests[k])
    ensures TokensMeant(WordsFor(requests)) == TokensFor(requests)
  {
    hide Quoted, MeaningOfWord;
    if requests == [] {
    } else {
      RequestsMean(requests[1..]);
      assert WordsFor(requests)[1..] == WordsFor(requests[1..]);
      QuotedMeans(requests[0].token, requests[0].style);
      assert IsWritable(requests[0]);
      assert TokensFor(requests) == [requests[0].token] + TokensFor(requests[1..]);
    }
  }

  lemma RequestsReadBack(requests: seq<Request>)
    requires forall k :: 0 <= k < |requests| ==> IsWritable(requests[k])
    ensures TokensOf(LineOf(WordsFor(requests))) == Tokens(TokensFor(requests), "")
  {
    var words := WordsFor(requests);
    forall k | 0 <= k < |words|
      ensures IsProperWord(words[k])
    {
      assert IsWritable(requests[k]);
    }
    LineReadsBack("", words);
    RequestsMean(requests);
    assert "" + LineOf(words) == LineOf(words);
  }

  // ---------------------------------------------------------------- the three styles, written out

  /** How each style writes a character of the token. */
  function Escapes(token: string, marks: string): string {
    if token == "" then ""
    else (if token[0] in marks then ['\\'] else "") + [token[0]] + Escapes(token[1..], marks)
  }

  lemma {:induction false} SlashesWrite(token: string)
    ensures WrittenWord(SlashAll(token)) == Escapes(token, " \t\\'\"")
  {
    if token == "" {
    } else {
      SlashesWrite(token[1..]);
      assert SlashAll(token)[1..] == SlashAll(token[1..]);
    }
  }

  lemma {:induction false} InnersWrite(token: string)
    ensures WrittenInners(Inners(token)) == Escapes(token, "\\\"")
  {
    if token == "" {
    } else {
      InnersWrite(token[1..]);
      assert Inners(token)[1..] == Inners(token[1..]);
    }
  }

  /** Backslashes before blanks, backslashes and quotes; double quotes, with two escapes; single quotes. */
  function InStyle(token: string, style: Style): string {
    match style
    case Slashes => Escapes(token, " \t\\'\"")
    case DoubleQuotes => "\"" + Escapes(token, "\\\"") + "\""
    case SingleQuotes => "'" + token + "'"
  }

  lemma StylesWrite(token: string, style: Style)
    ensures WrittenWord(Quoted(token, style)) == InStyle(token, style)
  {
    SlashesWrite(token);
    InnersWrite(token);
    hide Escapes;
    assert style != Slashes ==> Quoted(token, style)[1..] == [];
  }

  lemma {:induction false} RequestsWrite(requests: seq<Request>)
    ensures LineOf(WordsFor(requests)) ==
            Flatten(seq(|requests|, i requires 0 <= i < |requests| =>
              InStyle(requests[i].token, requests[i].style) + requests[i].gap))
  {
    hide Quoted, WrittenWord, InStyle;
    var parts := seq(|requests|, i requires 0 <= i < |requests| =>
      InStyle(requests[i].token, requests[i].style) + requests[i].gap);
    if requests == [] {
    } else {
      var rest := requests[1..];
      RequestsWrite(rest);
      StylesWrite(requests[0].token, requests[0].style);
      assert WordsFor(requests)[1..] == WordsFor(rest);
      assert parts[1..] == seq(|rest|, i requires 0 <= i < |rest| =>
        InStyle(rest[i].token, rest[i].style) + rest[i].gap);
    }
  }

  /** The round trip: nonempty tokens, each written in its own style, come back exactly. */
  lemma QuotedTokensReadBack(requests: seq<Request>)
    requires forall k :: 0 <= k < |requests| ==> IsWritable(requests[k])
    ensures TokensOf(Flatten(seq(|requests|, i requires 0 <= i < |requests| =>
                       InStyle(requests[i].token, requests[i].style) + requests[i].gap)))
            == Tokens(seq(|requests|, i requires 0 <= i < |requests| => requests[i].token), "")
  {
    hide TokensOf, LineOf, InStyle;
    RequestsReadBack(requests);
    RequestsWrite(requests);
  }

  // ---------------------------------------------------------------- plain words

  /** A word without blanks, backslashes and quotes, as it is written. */
  function Bares(w: string): seq<Piece> {
    seq(|w|, i requires 0 <= i < |w| => Bare(w[i]))
  }

  lemma {:induction false} BaresMean(w: string)
    ensures WrittenWord(Bares(w)) == w && MeaningOfWord(Bares(w)) == w
  {
    if w == "" {
    } else {
      BaresMean(w[1..]);
      assert Bares(w)[1..] == Bares(w[1..]);
    }
  }

  function PlainWords(words: seq<string>, gaps: seq<string>): seq<Word>
    requires |words| == |gaps|
  {
    seq(|words|, i requires 0 <= i < |words| => Word(Bares(words[i]), gaps[i]))
  }

  lemma {:induction false} PlainWordsMean(words: seq<string>, gaps: seq<string>)
    requires |words| == |gaps| && forall i :: 0 <= i < |words| ==> words[i] != ""
    ensures LineOf(PlainWords(words, gaps)) ==
            Flatten(seq(|words|, i requires 0 <= i < |words| => words[i] + gaps[i]))
    ensures TokensMeant(PlainWords(words, gaps)) == words
  {
    hide WrittenWord, MeaningOfWord, Bares;
    var parts := seq(|words|, i requires 0 <= i < |words| => words[i] + gaps[i]);
    if words == [] {
    } else {
      var rest, spaces := words[1..], gaps[1..];
      PlainWordsMean(rest, spaces);
      BaresMean(words[0]);
      assert PlainWords(words, gaps)[1..] == PlainWords(rest, spaces);
      assert parts[1..] == seq(|rest|, i requires 0 <= i < |rest| => rest[i] + spaces[i]);
    }
  }

  /**
   Which characters separate words: exactly the space and the tab. Nonempty words without blanks,
   backslashes and quotes, each followed by spaces and tabs, are the tokens; what follows the last
   of them is the partial token.
   */
  lemma PlainLineReads(lead: string, words: seq<string>, gaps: seq<string>, last: string)
    requires |words| == |gaps| && HasNoMarks(last)
    requires forall i :: 0 <= i < |lead| ==> lead[i] == ' ' || lead[i] == '\t'
    requires forall i :: 0 <= i < |words| ==> words[i] != "" && HasNoMarks(words[i])
    requires forall i :: 0 <= i < |gaps| ==>
               gaps[i] != "" && forall k :: 0 <= k < |gaps[i]| ==> gaps[i][k] == ' ' || gaps[i][k] == '\t'
    ensures TokensOf(lead + Flatten(seq(|words|, i requires 0 <= i < |words| => words[i] + gaps[i])) + last) ==
            Tokens(words, last)
  {
    hide Completed, CurrentWord, QuotingAfter, LineOf, TokensMeant, Bares, WrittenWord, MeaningOfWord;
    var written := PlainWords(words, gaps);
    forall k | 0 <= k < |written|
      ensures IsProperWord(written[k])
    {
      PlainIsProper(words[k]);
      assert IsGap(gaps[k]);
    }
    PlainWordsMean(words, gaps);
    ReadLead(lead);
    ReadLine(lead, written);
    var line := lead + LineOf(written);
    PlainIsProper(last);
    BaresMean(last);
    ReadWord(line, Bares(last));
    assert [] + words + [] == words && "" + last == last;
    if last == "" {
      assert line + last == line;
    } else {
      assert (line + last)[|line + last| - 1] == last[|last| - 1];
    }
  }

  lemma PlainIsProper(w: string)
    requires HasNoMarks(w)
    ensures forall k :: 0 <= k < |Bares(w)| ==> IsProper(Bares(w)[k])
  {
  }
}
