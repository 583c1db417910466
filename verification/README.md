# Tabra: a model of the deterministic core

Tabra sits between a terminal and a shell. It filters private frames out of the shell's output,
decodes keys, tracks the command line, parses it against a completion spec, shows a popup, and
rewrites the line when a suggestion is accepted. This project models the state machines behind
that in Dafny and proves what they promise each other. `dafny verify dfyconfig.toml` checks it.

## How it is organised

| module | models |
|---|---|
| `Utf8`, `Base64` | UTF-8 (sections 3 and 4 of RFC 3629) with the decoder that tries lengths 4 to 1; standard base64 (section 4 of RFC 4648) |
| `Osc`, `OscFilter`, `OscWire` | the whole-stream reference scan; the incremental `OscParser` class; the wire format and its round trip |
| `Keys`, `BufferTracker` | the key decoder with its carried ESC flag; the byte-buffer line editor as a class |
| `Tokenizer`, `QuotingRoundTrip` | the quoting automaton against a declarative reading of a line; the inverse of quoting |
| `SpecTypes`, `Parser`, `Resolver` | the spec tree; the token loop against the roles of tokens; the second walk of the tree |
| `ParserMeaning`, `ResolverMeaning` | what contexts and suggestions mean, by the tokens and by the fields of the spec alone |
| `Terminal`, `Overlay`, `Popup` | an abstract screen; the drawing and erasing sequences; the popup class and its runs on the screen |
| `Accepting` | replacing a token from Tab to the next parse |
| `Debounce`, `Session`, `GeneratorCache` | update coalescing as a state machine over its steps; the path from the keyboard to the shell and to the popup; the result cache |

Every imperative part of the source is a method or a class proved against a specification on
values, and the results are lemmas about those specifications. For the filter the specification
is a scan of the whole stream at once; for the editor, a plain character editor; for the tokenizer,
a splitting of the line at unquoted blanks; for the parser, the roles of the tokens at tree nodes.
Each specification in turn has laws written with literal characters, bytes and fields, so that it
cannot be changed along with the method it specifies.

## Main results

1. **Accepting descends the tree** (`Accepting.AcceptDescends`, `Accepting.AcceptAndParse`). After accepting an
   offered plain subcommand name, the parse of the new line, at its end, where the retyping leaves the cursor, goes
   down to the first subcommand of that name, and the text that was after the cursor is read as a command line below
   it; the resolver lands on the same node. With nothing to read after the cursor the context is exactly one level
   further down (`Accepting.AcceptBeforeNothing`). The conditions are exact. The token list grows by exactly the word
   if and only if the text before the cursor does not end in a quoted or escaped blank and the text after it holds no
   token (`Accepting.AcceptAddsToken`). The path grows by exactly one if and only if no token after the cursor enters
   a subcommand below (`Accepting.DescendsOnceIff`; `Accepting.TextAfterCursorDescends` is a line where one does). The
   popup's byte cursor and the tokenizer's character cursor agree if and only if the text before the cursor is ASCII
   or the cursor lies at or past the byte length (`Accepting.CursorsAgreeIff`).
   Nothing in the program tells the tracker about the retyped line. That the next completion is for it rests on the
   shell reporting it, which the zsh and fish scripts do on some keys and the bash script never does:
   `Session.AcceptedLineReachesPopup` has it as a premise, and `Session.PopupIsRightIff` says what holds without.
2. **Streaming refinement of the filter** (`OscFilter.ReadAll`, `Osc.ScanResume`, `Osc.HeldIsLongest`) and the
   **frame round trip** for any chunking (`OscWire.ReadBack`).
3. **Losslessness and round trip of key decoding** over any split into reads (`Keys.ReadManyLossless`,
   `Keys.RoundTripAcrossReads`), and the byte editor's refinement of a character editor. From there to the shell:
   over any run, the shell gets exactly the bytes of the keys that the popup does not keep, in order, and beside
   them only the rewritten lines (`Session.KeyboardToShell`).
4. **The two quoting automata agree** (`Tokenizer.TokenStartAgrees`), and quoting is inverted
   (`QuotingRoundTrip.QuotedTokensReadBack`, `QuotingRoundTrip.PlainLineReads`).
5. **No stale rows** on the screen over any run without Tab (`Popup.NoStaleRows`); Tab always leaves some (`Popup.TabLeavesRows`).
6. **Debounce delivers in order and ends up to date**, end to end from typed bytes (`Session.TypedTextReachesPopup`).
   With reports of the shell in between, the popup ends up with the typed line if and only if the tracker was right
   when the last keys came (`Session.PopupIsRightIff`); a late report makes it wrong (`Session.LateReportLosesText`).
7. **The generator cache** serves fresh results of the same script (`GeneratorCache.ServedIsFresh`). A hit is split
   rightly, whatever the script puts out, if and only if the storing call had the same delimiter (`GeneratorCache.HitIsRightIff`).
8. **Contexts and suggestions by their meaning.** What the parser expects, by the tokens themselves
   (`ParserMeaning.ExpectsNothingIff`, `ParserMeaning.ExpectsOptionArgIff`, `ParserMeaning.ArgIndexCounts`), and which
   suggestions the resolver gives, how often and in what order, by the fields of the spec
   (`ResolverMeaning.SuggestionsByFields`).

## Where the code and its comments differ

The model follows the code.

- src/session/osc.rs:130 says an overlong payload is aborted and flushed; the code drops all 65537 bytes (`Overlong` segments).
- src/session/popup.rs:241 says the walk matches the tokenizer. It does in its quoting, but it slices by bytes where the
  tracker sends a character index: `Accepting.CursorsAgreeIff` says when that matters. Then either Tab panics
  (`Accepting.CursorPanicsIff`: the index, as a byte offset, lies inside a character, as 1 does in "é"), or characters
  survive after the inserted word (`Accepting.DisagreementKeepsText`).
- src/session/event_loop.rs:408-412 retypes the whole line, text after the cursor included, and leaves the shell's
  cursor at its end, not after the inserted word: `Accepting.AcceptDescends`.
- src/session/event_loop.rs:403-405 means to erase the popup on accepting, but counts the items after they were cleared: `Popup.TabLeavesRows`.
- src/engine/parser.rs:107-108 speaks of a buffer that ends with a space starting a new token; a quoted or escaped space has the same effect.
- The tokens after `--` are still matched against subcommands and options; the separator only changes what is expected at the end.
- The cache key at src/engine/resolver.rs:32-37 omits the delimiter: `GeneratorCache.HitIsRightIff`, `GeneratorCache.SharedScriptServesWrongSplit`.

## Model

| member | source | states |
|---|---|---|
| Utf8.LeadDecodeExact | src/session/keys.rs:243-257 | Lead-byte decoding yields a character exactly when its encoding stands at the front, whatever follows. |
| Utf8.NoCharacterAtFront | src/session/keys.rs:243-257 | Decoding fails exactly when no prefix is one valid character. |
| Utf8.FromUtf8Exact | src/session/osc.rs:147 | A byte string decodes to a text exactly when it is that text's encoding, so validity and the text are unique. |
| Utf8.OneCharacterExact | src/session/keys.rs:247-255 | The slice test succeeds for one length at most: the one the lead byte announces, with the same character. |
| Utf8.DecodeUtf8Char | src/session/keys.rs:243-257 | The search over lengths 4 down to 1 agrees with lead-byte decoding on every input. |
| Utf8.Rfc3629Examples | src/session/keys.rs:37-57 | The encoder on the examples of section 7 of RFC 3629. |
| Base64.DecodeEncode | src/session/osc.rs:157-159 | Strict decoding returns what was encoded. |
| Base64.EncodeDecode | src/session/osc.rs:157-159 | Only the encoder's own output is accepted. |
| Base64.EncodeAlphabet | src/session/osc.rs:148-159 | Encoded text holds alphabet characters and padding only, hence neither a separator nor the terminator. |
| Base64.Alphabet | src/session/osc.rs:157-159 | The 64 digits of section 4 of RFC 4648, by value. |
| Base64.Rfc4648Examples | src/session/osc.rs:157-159 | The encoder on examples of section 10 of RFC 4648. |
| Osc.ScanLossless | src/session/osc.rs:73-141 | Ordinary bytes, frames, dropped payloads and the undecided tail spell out the stream: nothing lost, added or reordered. |
| Osc.ScanResume | src/session/osc.rs:73-141 | Scanning can be cut anywhere: what follows depends on the undecided tail alone. |
| Osc.ScanFrame | src/session/osc.rs:120-127 | A terminated payload of at most 65536 bytes is one frame, and scanning goes on after it. |
| Osc.ScanOverlong | src/session/osc.rs:128-135 | At the 65537th byte without a terminator the payload is dropped and scanning goes on. |
| Osc.ScanPlainRun | src/session/osc.rs:79-89 | Bytes without ESC pass at once. |
| Osc.HeldIsLongest | src/session/osc.rs:91-118 | Outside a payload, exactly the longest suffix since the last frame that could become the prefix is held back. |
| Osc.FrameInBytes | src/session/osc.rs:15-17 | A frame is these seven bytes, at most 65536 bytes without BEL, and BEL. |
| Osc.OverlongInBytes | src/session/osc.rs:128-135 | With 65537 bytes and no BEL the payload is dropped. |
| Osc.FrameAnywhere | src/session/osc.rs:79-127 | Whatever came before, outside a payload, the next frame is recognised and what was held back is ordinary. |
| Osc.NoFrameWithoutPrefix | src/session/osc.rs:79-118 | Where the seven bytes do not occur, every byte is ordinary. |
| Osc.PromptPayloads | src/session/osc.rs:165-166 | Exactly which payloads report a prompt start and a prompt end. |
| OscFilter.MismatchFlushes | src/session/osc.rs:100-117 | After a mismatch the matched bytes are ordinary and matching restarts at the new byte. |
| OscFilter.NextInPayload | src/session/osc.rs:120-136 | One byte inside a frame: end of frame, overflow, or one more held byte. |
| OscFilter.OscParser.constructor | src/session/osc.rs:53-67 | A new parser has seen nothing. |
| OscFilter.OscParser.Feed | src/session/osc.rs:73-141 | A chunk adds exactly what the reference adds to passthrough and events; the fields keep the undecided tail, the buffer stays within 65536 bytes. |
| OscFilter.OscParser.FeedNormal | src/session/osc.rs:79-89 | The same for one byte in the normal state. |
| OscFilter.OscParser.FeedMatching | src/session/osc.rs:91-118 | The same for one byte while matching, restart included. |
| OscFilter.OscParser.FeedPayload | src/session/osc.rs:120-136 | The same for one byte in a payload, cap included. |
| OscFilter.ReadAll | src/session/event_loop.rs:213-223 | For every way of cutting a stream, the outputs equal those of the whole-stream scan. |
| OscWire.CommandLinePayloads | src/session/osc.rs:146-164 | Exactly which payloads report a command line: code, standard base64 of the buffer's UTF-8, decimal cursor within 64 bits. |
| OscWire.CursorTexts | src/session/osc.rs:161 | Exactly which texts parse as a cursor: an optional plus sign, leading zeros, and a number of 64 bits. |
| OscWire.CursorFitsIff | src/session/osc.rs:161 | A decimal number is read as a cursor if and only if it fits 64 bits. |
| OscWire.DecimalExamples | src/session/osc.rs:161 | Concrete cursors, a plus sign, and texts that are none. |
| OscWire.ParseWritten | src/session/osc.rs:146-169 | The payload written for an event parses to that event. |
| OscWire.SplitOfThree | src/session/osc.rs:148-155 | Splitting at separators recovers the three fields. |
| OscWire.ScanWireStream | src/session/osc.rs:73-169 | Events interleaved with ESC-free text scan to exactly those events and that text, nothing pending. |
| OscWire.ReadBack | src/session/osc.rs:73-169 | The same through the incremental parser for every chunking. |
| Keys.ConsumeCsi | src/session/keys.rs:102-113 | An unknown control sequence extends to its first final byte, 0x40 to 0x7E, or to the end of the read. |
| Keys.ParseCsi | src/session/keys.rs:135-169 | The event after `ESC [` is the arrow or raw sequence of the reference. |
| Keys.ParseKey | src/session/keys.rs:129-235 | The branch on a byte yields the reference's next event and length; none exactly for a final lone ESC. |
| Keys.ParseBytes | src/session/keys.rs:67-239 | One read yields the reference events and flag, for every buffer and incoming flag. |
| Keys.LowByteMeans | src/session/keys.rs:180-234 | The event of every byte below 0x80 other than ESC, by value, both codes of Backspace included. |
| Keys.CharacterMeans | src/session/keys.rs:212-229 | A character beyond ASCII is one event, whatever follows. |
| Keys.StrayByteMeans | src/session/keys.rs:224-228 | A byte at which no character starts is forwarded as it is. |
| Keys.AltKeyMeans | src/session/keys.rs:170-173 | ESC and a byte other than the bracket in one read are one raw event of two bytes. |
| Keys.ArrowMeans | src/session/keys.rs:135-151 | The four arrow sequences, by value. |
| Keys.SequenceMeans | src/session/keys.rs:152-164 | Any other control sequence is forwarded whole, up to its first byte from 0x40 to 0x7E. |
| Keys.CutSequenceMeans | src/session/keys.rs:152-169 | One that the read cuts off is forwarded as far as it goes. |
| Keys.PendingMeans | src/session/keys.rs:72-126 | What a pending ESC becomes: Escape on a timeout or before anything but a bracket. |
| Keys.EscapeOnlyPending | src/session/keys.rs:67-239 | Escape is read if and only if an ESC was pending and no bracket follows. |
| Keys.ReadStdin | src/session/event_loop.rs:118-176 | The stdin task carries the flag from read to read, timeouts included. |
| Keys.ReadLossless | src/session/keys.rs:67-239 | Forwarded bytes plus pending ESC equal the input, except that 0x08 may become 0x7F. |
| Keys.ReadManyLossless | src/session/event_loop.rs:118-176 | The same over any number of reads. |
| Keys.SplitIndependent | src/session/event_loop.rs:118-176 | Two splits of the same input forward the same stream, up to the two backspace codes. |
| Keys.RoundTrip | src/session/keys.rs:37-57 | The raw bytes of typable events decode to those events. |
| Keys.RoundTripAcrossReads | src/session/keys.rs:67-239 | The same when they are cut into reads at event boundaries or between ESC and bracket, the flag carried. |
| BufferTracker.OffsetOfIndex | src/session/buffer_tracker.rs:98-104 | Byte positions of character indices, out-of-range ones included. |
| BufferTracker.Tracker.constructor | src/session/buffer_tracker.rs:24-30 | A new tracker is an empty line. |
| BufferTracker.Tracker.CharToByte | src/session/buffer_tracker.rs:98-104 | The walk finds the byte offset of a character index. |
| BufferTracker.Tracker.InsertChar | src/session/buffer_tracker.rs:36-42 | Inserting bytes is inserting the character; the buffer stays valid UTF-8. |
| BufferTracker.Tracker.DeleteBefore | src/session/buffer_tracker.rs:43-52 | Draining bytes is deleting the character before the cursor, or nothing past the end. |
| BufferTracker.Tracker.OnKey | src/session/buffer_tracker.rs:34-88 | Every key acts on the represented line as the character editor does, and reports change exactly when it should. |
| BufferTracker.Tracker.Sync | src/session/buffer_tracker.rs:92-95 | The shell's report replaces buffer and cursor. |
| BufferTracker.Replay | src/session/buffer_tracker.rs:23-95 | Over any run of keys and reports the tracker is the character editor. |
| BufferTracker.CursorStaysInRange | src/session/buffer_tracker.rs:34-95 | With in-range reports the cursor never leaves the line. |
| BufferTracker.BackspaceUndoesChar | src/session/buffer_tracker.rs:36-52 | Backspace undoes a character if and only if the cursor is inside the line. |
| BufferTracker.EditsInPlace | src/session/buffer_tracker.rs:36-52 | Where a character goes in, and which one Backspace takes out. |
| BufferTracker.OtherKeys | src/session/buffer_tracker.rs:53-88 | Enter and Ctrl-C clear the line; the remaining keys leave it. |
| BufferTracker.LeftsMoveBack | src/session/buffer_tracker.rs:34-88 | k left arrows from the end go k characters back, or to the start. |
| BufferTracker.RightUndoesLeftIff | src/session/buffer_tracker.rs:34-88 | When the right arrow undoes the left one. |
| BufferTracker.ChangesRefresh | src/session/buffer_tracker.rs:34-88 | Every change of the text is reported, and exactly which keys are. |
| BufferTracker.TypedTextIsTracked | src/session/buffer_tracker.rs:34-88 | The decoded bytes of any printable text, typed into an empty line, give that text with the cursor at its end. |
| Tokenizer.Tokenize | src/engine/parser.rs:64-117 | Tokens are the nonempty unquoted words between unquoted blanks before the cursor; a final blank of any kind empties the partial token. |
| Tokenizer.StartUnquoted | src/engine/parser.rs:79-105 | Words begin unquoted, so their quoting depends on them alone. |
| Tokenizer.CutAtTokenStart | src/session/popup.rs:242-265 | Tokenizing the text before the token start yields the completed tokens and an empty partial. |
| Tokenizer.TokenStartAgrees | src/session/popup.rs:242-265 | The whole text gives those tokens with the unquoted remainder as partial, or as one more token if it ends in a quoted or escaped blank. |
| Tokenizer.TokensReadOn | src/engine/parser.rs:73-116 | Where no word is open, the rest of a line is tokenized as if it stood alone. |
| QuotingRoundTrip.LineReadsBack | src/engine/parser.rs:73-116 | Any mix of bare, escaped, single- and double-quoted pieces, however spaced, reads back as what it means. |
| QuotingRoundTrip.PlainLineReads | src/engine/parser.rs:73-116 | Words without blanks, backslashes and quotes, separated by spaces and tabs, are the tokens; the last one, unended, is the partial token. |
| QuotingRoundTrip.QuotedTokensReadBack | src/engine/parser.rs:73-116 | Nonempty tokens, each written out in one of three styles by literal quotes and backslashes and ended by spaces and tabs, come back exactly, with an empty partial. |
| Parser.FindSubcommand | src/engine/parser.rs:161-166 | The search finds the first subcommand of a name. |
| Parser.FindFlag | src/engine/parser.rs:182-183 | The search finds the first option of a name. |
| Parser.Parse | src/engine/parser.rs:120-227 | The context is what the roles of the tokens say, each role decided at the node its prefix leads to. |
| Parser.ProgressOneMore | src/engine/parser.rs:144-205 | A token changes path, scope, used options, positionals, filter and pending value by the effect of its role. |
| Parser.PathsCorrespond | src/engine/parser.rs:141-178 | The index path is valid at every level, and each later path entry names the node at its depth. |
| Parser.OptionArgResolves | src/engine/parser.rs:180-215 | An expected option value belongs to an option of the node reached, under the typed name, with a required argument at that index. |
| Parser.UsedOptionsResolve | src/engine/parser.rs:180-199 | Every used option is one of the node reached. |
| Parser.ProgressBelow | src/engine/parser.rs:144-205 | At the start of a scope, further tokens are read as they are by the subtree taken as a spec of its own. |
| Parser.NoDescentIff | src/engine/parser.rs:160-178 | The path is empty if and only if no token enters a subcommand. |
| ParserMeaning.TokenStep | src/engine/parser.rs:144-205 | What one more token does to all that the parser knows, by the token and the fields of the node. |
| ParserMeaning.ExpectsNothingIff | src/engine/parser.rs:154-158 | Nothing is expected if and only if some argument is a literal "--" that is no option's value. |
| ParserMeaning.ExpectsOptionArgIff | src/engine/parser.rs:180-215 | Exactly when an option's value is expected: the last token is an option of its node with a required first argument. |
| ParserMeaning.ArgIndexCounts | src/engine/parser.rs:144-205 | The argument index counts the tokens of the current scope that are no option, no value and no separator; the used options are its options, in order. |
| ParserMeaning.PathTokens | src/engine/parser.rs:160-178 | The paths consist of exactly the tokens that name a subcommand of their node, and of its index. |
| SpecTypes.ReachIsLongest | src/engine/resolver.rs:213-222 | A prefix of a path leads somewhere exactly up to the reach. |
| SpecTypes.GoesBy | src/spec/types.rs:475-506 | A subcommand or option goes by its one name or by any of several. |
| Resolver.WalkSpec | src/engine/resolver.rs:213-222 | On any tree and path, the walk ends at the node of the longest valid prefix. |
| Resolver.DeepestIsLongestPrefix | src/engine/resolver.rs:211-222 | That node, stated by valid prefixes, stale paths included. |
| Resolver.CollectOptions | src/engine/resolver.rs:225-249 | Adds the unused, non-excluded, visible options in order. |
| Resolver.CollectPersistent | src/engine/resolver.rs:107-117 | Adds the unused persistent options of one node. |
| Resolver.CollectSubcommands | src/engine/resolver.rs:70-97 | Adds the visible, named subcommands in order. |
| Resolver.CollectArgSuggestions | src/engine/resolver.rs:274-327 | Adds the static suggestions of an argument, then its templates expanded for directory and partial token, then, generator by generator, templates before script lines. |
| Resolver.CollectAncestors | src/engine/resolver.rs:103-140 | Adds the persistent options from the root to the parent of the node reached. |
| Resolver.Resolve | src/engine/resolver.rs:62-209 | The suggestions of all three kinds of context, in order. |
| Resolver.ResolverReachesParsedNode | src/engine/resolver.rs:62-64 | On the parser's path the resolver reaches exactly the node the parser ended at. |
| Resolver.OptionSuggestionsMeaning | src/engine/resolver.rs:99-140 | For every parsed context: the node's offered options, then each proper ancestor's unused persistent ones from the root down. |
| Resolver.OfferedExactly | src/engine/resolver.rs:225-249 | An option is offered as often as its node lists it if it qualifies, and never otherwise. |
| Resolver.TypedOptionNotOffered | src/engine/resolver.rs:225-233 | An option typed in the current scope is not offered again from the node that recognised it. |
| Resolver.ExpectedArgIsSuggested | src/engine/resolver.rs:171-191 | Where the parser expects an option value, the resolver suggests for exactly that required argument. |
| ResolverMeaning.SuggestionsByFields | src/engine/resolver.rs:68-170 | The whole list on any path, stale ones included: which subcommands, own and inherited options, in what order and how often, by their fields; then the argument at the index or the repeatable last one. |
| ResolverMeaning.OwnOptions | src/engine/resolver.rs:225-249 | An option is offered as often as listed if it is not hidden, has no typed name and no typed exclusion; otherwise never. |
| ResolverMeaning.InheritedOptions | src/engine/resolver.rs:107-140 | Of an ancestor, exactly the persistent options without a typed name. |
| ResolverMeaning.OnlyLastArgument | src/engine/resolver.rs:193-205 | After a separator only the last argument is suggested for. |
| ResolverMeaning.OnlyOptionValue | src/engine/resolver.rs:171-191 | For an option's value, the first argument of the first option of that name. |
| ResolverMeaning.ArgumentInOrder | src/engine/resolver.rs:274-327 | Static suggestions, then templates, then generators, each in order. |
| ResolverMeaning.GeneratorYields | src/engine/resolver.rs:297-323 | Templates of a generator, then a suggestion for each line of its script. |
| ResolverMeaning.OptionTexts | src/engine/resolver.rs:252-271 | An option is matched by its first long name, or else its first; what it shows, inserts and ranks as. |
| ResolverMeaning.SubcommandTexts | src/engine/resolver.rs:75-96 | The same for a subcommand, which outranks an option by default. |
| ResolverMeaning.ItemTexts | src/engine/resolver.rs:555-572 | The same for static suggestions. |
| Terminal.ExecFramedPaint | src/render/overlay.rs:75-160 | A framed painting changes only the rows below, and puts the cursor back. |
| Overlay.RenderPopup | src/render/overlay.rs:34-163 | The drawing sequence of the popup rows; nothing without items. |
| Overlay.ErasePopup | src/render/overlay.rs:166-175 | The sequence that clears that many rows and the two borders. |
| Overlay.RenderPopupInplace | src/render/overlay.rs:179-215 | The old rows cleared and the new drawn in one sequence. |
| Overlay.PanicsIffTooNarrow | src/render/overlay.rs:45-70 | Drawing panics if and only if there are items and fewer than 32 columns. |
| Overlay.RowsFit | src/render/overlay.rs:86-151 | Every row is nonempty and no wider than the popup, which leaves two columns free. |
| Overlay.WidthMeans | src/render/overlay.rs:43-70 | The popup is as wide as the widest item shown needs, within 30 and 70 columns and the terminal. |
| Overlay.ErasingClears | src/render/overlay.rs:166-175 | After an erasure exactly the popup rows beyond it remain. |
| Overlay.ErasedIffCovered | src/render/overlay.rs:166-175 | The popup is gone if and only if the erasure covers its lines. |
| Overlay.RedrawingShows | src/render/overlay.rs:179-215 | A redraw shows exactly the new popup, whatever was shown, without wrapping or moving the cursor. |
| Popup.CharsInBytesOfPrefix | src/session/popup.rs:243 | Slicing by the byte length of a prefix gives that prefix. |
| Popup.PopupState.constructor | src/session/popup.rs:51-63 | A new popup is hidden and empty. |
| Popup.PopupState.Hide | src/session/popup.rs:170-181 | Hiding clears the fields and erases what was shown. |
| Popup.PopupState.RenderInplace | src/session/popup.rs:202-218 | The window around the selection is redrawn over the previous lines. |
| Popup.PopupState.OnCommandLine | src/session/popup.rs:66-99 | The state and action after an update, for every reply. |
| Popup.PopupState.OnKey | src/session/popup.rs:102-167 | The state and action after every key. |
| Popup.PopupState.FindTokenStart | src/session/popup.rs:242-265 | The separately written walk finds the byte offset of the tokenizer's token start. |
| Popup.PopupState.OnPromptStart | src/session/event_loop.rs:233-247 | A new prompt hides the popup. |
| Popup.RunKeepsSound | src/session/popup.rs:66-218 | Over every run: visible with items, a selection in range and min(count, 10) lines, or hidden with neither. |
| Popup.WindowHoldsSelection | src/session/popup.rs:222-238 | The window is the first ten items, or the ten that end with the selected one, with that one where it says. |
| Popup.DownsWrapAround | src/session/popup.rs:129-137 | k downs move the selection to (s + k) mod n and change nothing else. |
| Popup.UpUndoesDown | src/session/popup.rs:129-148 | Up undoes down, and down undoes up. |
| Popup.KeyForwards | src/session/popup.rs:102-167 | Every key goes to the shell as its own bytes, except Tab, Escape and the vertical arrows of a visible popup. |
| Popup.TabAccepts | src/session/popup.rs:109-127 | Tab alone accepts, and it accepts the selected item. |
| Popup.KeyMeans | src/session/popup.rs:102-167 | What every key does to the state of the popup. |
| Popup.UpdateMeans | src/session/popup.rs:66-99 | Which updates show the popup, with what, and which hide it. |
| Popup.PromptMeans | src/session/event_loop.rs:233-247 | A new prompt hides all that is shown and keeps the buffer. |
| Popup.StepOnScreen | src/session/event_loop.rs:373-456 | One update or key without Tab keeps screen and popup in agreement. |
| Popup.NoStaleRows | src/session/event_loop.rs:373-456 | Over any such run the rows below the cursor show exactly the popup, and nothing else changes. |
| Popup.TabLeavesRows | src/session/event_loop.rs:403-405 | After Tab exactly the rows 3 to n + 2 of the popup stay: it never disappears completely. |
| Accepting.Inject | src/session/event_loop.rs:410-424 | Ctrl-A, Ctrl-K and the rewritten line are sent. |
| Accepting.CursorsAgreeIff | src/session/popup.rs:243 | Byte cursor and character cursor mean the same place exactly for ASCII text before the cursor, or past the end. |
| Accepting.CursorPanicsIff | src/session/popup.rs:243 | Slicing at the cursor panics if and only if it lies, as a byte offset, strictly inside a character. |
| Accepting.NewLineInCharacters | src/session/event_loop.rs:411-417 | Where they agree, the line is the text before the token, the word, a space, and the text after the cursor. |
| Accepting.DisagreementKeepsText | src/session/event_loop.rs:411-417 | Where they disagree, characters before the cursor survive after the inserted word. |
| Accepting.NonAsciiLineKeepsText | src/session/event_loop.rs:411-417 | A concrete such line. |
| Accepting.TokensReplaced | src/session/event_loop.rs:411-417 | The rewritten line holds the completed tokens, the word, and the tokens and the partial token of the text after the cursor. |
| Accepting.AcceptAddsToken | src/engine/parser.rs:64-117 | The tokens grow by exactly the word, with an empty partial, if and only if the text before the cursor does not end in a quoted or escaped blank and the text after it holds no token. |
| Accepting.ParseOneMoreSubcommand | src/engine/parser.rs:160-178 | One more subcommand token descends and resets the scope. |
| Accepting.ParseBelowSubcommand | src/engine/parser.rs:160-205 | Tokens after a subcommand token are read as a command line of that subcommand. |
| Accepting.OfferedIsSuggested | src/engine/resolver.rs:68-97 | An offered subcommand is among the suggestions with that text to insert. |
| Accepting.AcceptDescends | src/session/event_loop.rs:399-425 | The parse of the whole new line, at its end and typed on or not, descends to the first subcommand of the accepted name and reads the text that was after the cursor below it; the resolver lands on that node. |
| Accepting.AcceptBeforeNothing | src/session/event_loop.rs:399-425 | With no token after the cursor the context is exactly one level further down, its scope fresh. |
| Accepting.DescendsOnceIff | src/session/event_loop.rs:399-425 | The path grows by exactly one if and only if no token after the cursor enters a subcommand below the accepted one; without a command typed, only those tokens descend. |
| Accepting.TextAfterCursorDescends | src/session/event_loop.rs:412-417 | A concrete line that descends by two. |
| Accepting.AcceptAndParse | src/session/event_loop.rs:399-425 | From Tab through the injected bytes to the context of the new line at its end. |
| Debounce.RunKeepsInvariant | src/session/event_loop.rs:183-207 | Over every interleaving, what is delivered or under way is in order and ends with the last update. |
| Debounce.DeliveredInOrder | src/session/event_loop.rs:190-206 | The delivered updates are a subsequence, in order, of those sent. |
| Debounce.PositionsOf | src/session/event_loop.rs:190-206 | A subsequence sits at strictly increasing positions of what was sent. |
| Debounce.QuietMeansUpToDate | src/session/event_loop.rs:190-206 | With channel empty and task idle, the popup works on the last update sent. |
| Debounce.CanBecomeQuiet | src/session/event_loop.rs:190-206 | Without further sends, and with a reply that can be drawn, receipts and one timeout lead there, and deliver only the last update. |
| Debounce.ChannelIsBounded | src/session/event_loop.rs:107 | At most sixteen updates wait, and only then a send waits. |
| Session.Track | src/session/event_loop.rs:385-391 | Over any interleaving of forwarded keys and shell reports the tracker is the character editor, and every change by a key is sent. |
| Session.HandleKeyEvent | src/session/event_loop.rs:373-438 | One key through popup, shell, terminal, tracker and debounce task. |
| Session.KeyToShell | src/session/event_loop.rs:385-429 | What the shell gets for each key, and that the tracker misses what the popup keeps and an Enter that closes it. |
| Session.KeyboardToShell | src/session/event_loop.rs:118-176 | Over any reads and any run of the popup, the shell gets exactly the bytes of the keys not kept, in order, and the rewritten lines; all that was typed if the popup stays hidden. |
| Session.TypingGivesIff | src/session/buffer_tracker.rs:36-42 | Typing gives a text with the cursor at its end if and only if the line was the rest of that text. |
| Session.PopupIsRightIff | src/session/event_loop.rs:190-236 | After any keys and reports, the popup ends up with the typed line if and only if the tracker was right before the last characters. |
| Session.TypedTextReachesPopup | src/session/event_loop.rs:118-236 | End to end: typed bytes of a printable text become the popup's buffer and cursor, with any reports in step. |
| Session.LateReportLosesText | src/session/event_loop.rs:226-236 | A late report makes the popup work on a line that was never typed. |
| Session.AcceptedLineReachesPopup | src/session/event_loop.rs:385-425 | Once the tracker holds the retyped line, whatever is typed next makes the popup's line parse below the accepted subcommand. |
| GeneratorCache.Generators.constructor | src/engine/resolver.rs:22-23 | The cache starts empty. |
| GeneratorCache.Generators.ExecuteGenerator | src/engine/resolver.rs:335-421 | The lines served and the new cache, for hits, expiry, failures and scripts that cannot run. |
| GeneratorCache.JoinInvertsSplit | src/engine/resolver.rs:391-396 | The split pieces joined by the delimiter give the output back. |
| GeneratorCache.PiecesLackDelimiter | src/engine/resolver.rs:391-396 | No piece contains the delimiter. |
| GeneratorCache.TrimExact | src/engine/resolver.rs:394 | A trimmed line lacks the whitespace at both ends of its piece, all of it, and nothing else. |
| GeneratorCache.AsciiWhitespace | src/engine/resolver.rs:394 | Which ASCII characters are trimmed. |
| GeneratorCache.LinesReadBack | src/engine/resolver.rs:346-396 | Without a delimiter of its own, a generator's lines are those between newlines, without padding. |
| GeneratorCache.EntryOrigin | src/engine/resolver.rs:348-407 | Every entry is the result of the last successful run stored under its key, so failed runs never add or replace one. |
| GeneratorCache.ServedIsFresh | src/engine/resolver.rs:348-420 | Without collisions and with one delimiter per script, served lines come from a successful run of that script there, under thirty seconds old. |
| GeneratorCache.FreshIsServed | src/engine/resolver.rs:350-371 | A result is served without a run if and only if it is the last one stored under the key, less than thirty seconds ago. |
| GeneratorCache.OtherwiseRun | src/engine/resolver.rs:373-420 | Otherwise which scripts run, what is served, and what is stored. |
| GeneratorCache.WholeSeconds | src/engine/resolver.rs:354 | Comparing whole seconds means strictly less than thirty seconds. |
| GeneratorCache.HitUsesStoredDelimiter | src/engine/resolver.rs:32-37 | In general a hit is the output of the last run stored under its key, split by the delimiter of the call that stored it. |
| GeneratorCache.SameLinesIff | src/engine/resolver.rs:391-396 | Two delimiters give the same lines on every output if and only if they are equal. |
| GeneratorCache.HitOnAnyOutput | src/engine/resolver.rs:348-396 | Whatever the storing run puts out, the same call is served that, split by the storing call's delimiter. |
| GeneratorCache.HitIsRightIff | src/engine/resolver.rs:32-37 | A hit is split by the caller's own delimiter on every output if and only if the storing call has the same one. |
| GeneratorCache.SharedScriptServesWrongSplit | src/engine/resolver.rs:32-37 | Two generators with one script and different delimiters: the second is served the first one's split. |

## Left out

- Popup.NoStaleRows: excludes Tab (see `Popup.TabLeavesRows`), new prompts, whose cursor row the program does not know, and resizes; it assumes twelve rows below the cursor.
- Accepting.AcceptDescends: is about plain names offered without an insert value; a name with blanks, quotes or a backslash is inserted unquoted by the code.
- Resolver.CollectAncestors: identifies tree nodes by depth on the path where the code compares addresses, which amounts to the same in a tree.
- Session.AcceptedLineReachesPopup: has as a premise that the shell has reported the retyped line; the scripts of the shells are not part of this model.
- Debounce.DeliveredInOrder: lets a timeout happen even while a message is waiting, which covers more interleavings than the 30 ms timer allows.
- GeneratorCache.ServedIsFresh: assumes that script hashes do not collide and that a script is used with one delimiter; `GeneratorCache.HitIsRightIff` says exactly when a hit is split rightly.
- Resolver.CollectArgSuggestions: what a template expands to and what lines a script yields are functions that do not change during one resolution.
- The debounce loop itself is a state machine over its steps, not a loop over a channel object; channel close and task abort are not modelled.
- Machine integers: cursors and lengths are unbounded, except that a reported cursor must fit 64 bits to parse. Adding one to the largest cursor is not modelled.
- Slices that would panic are None or excluded by a precondition. A terminal narrower than 32 columns panics when drawing: such steps are not enabled (`Popup.IsSafe`), and what goes on after a task has panicked is not modelled.
- Sockets, processes, PTY and signal handling, file-system templates and script execution: their results are inputs of the model.
- JSON loading, fuzzy matching and sorting of suggestions: the popup's items are an input.
- Colours, icons, the highlighted row, match highlighting and exact row text: rows are widths, and each character is one column wide.
- Ghost text and the erase-and-show action, which no path of the program produces.
- Suggestion fields that are only stored: icons, deprecation, separators, repeatability and the like.
