/**
 The popup state machine of src/session/popup.rs, with the daemon's reply as an input, and what
 the event loop does to it and to the terminal.
 */
module Popup {
  import opened Prelude
  import opened Keys
  import opened Terminal
  import opened Overlay
  import opened Tokenizer
  import Utf8

  /** The daemon's answer to a completion request. */
  datatype Reply = Completions(items: seq<CompletionItem>) | OtherReply | Unreachable

  datatype PopupAction =
    | Show(cmds: seq<Cmd>)
    | Erase(lines: nat)
    | ForwardKey(bytes: seq<Byte>)
    | Accept(tokenStart: nat, insertText: string)
    | EraseAndForward(lines: nat, bytes: seq<Byte>)
    | Nothing

  /** The state of the popup, as a value. */
  datatype State = State(
    visible: bool,
    items: seq<CompletionItem>,
    selected: nat,
    lastBuffer: string,
    lastCursor: nat,
    terminalCols: nat,
    popupLines: nat)

  datatype Outcome = Outcome(state: State, action: PopupAction)

  // ---------------------------------------------------------------- byte positions in the last buffer

  /** The number of characters that take up exactly the first `n` bytes, if there is such a number. */
  function CharsInBytes(text: string, n: nat): (chars: Option<nat>)
    ensures chars.Some? ==> chars.value <= |text| && |Utf8.EncodeAll(text[..chars.value])| == n
    decreases |text|
  {
    if n == 0 then Some(0)
    else if text == "" || Utf8.Width(text[0]) > n then None
    else
      var rest := CharsInBytes(text[1..], n - Utf8.Width(text[0]));
      if rest.None? then None
      else
        assert text[..rest.value + 1][1..] == text[1..][..rest.value];
        Some(rest.value + 1)
  }

  lemma {:induction false} CharsInBytesOfPrefix(text: string, i: nat)
    requires i <= |text|
    ensures CharsInBytes(text, |Utf8.EncodeAll(text[..i])|) == Some(i)
    decreases i
  {
    if i == 0 {
    } else {
      assert text[..i][1..] == text[1..][..i - 1];
      CharsInBytesOfPrefix(text[1..], i - 1);
    }
  }

  /** The character position of `last_cursor`, taken as a byte offset; None where slicing panics. */
  function CursorChars(buffer: string, cursor: nat): Option<nat> {
    CharsInBytes(buffer, Min(cursor, |Utf8.EncodeAll(buffer)|))
  }

  /** The text before the cursor, sliced by bytes. */
  function BeforeByteCursor(buffer: string, cursor: nat): string {
    buffer[..OrElseZero(CursorChars(buffer, cursor))]
  }

  function OrElseZero(n: Option<nat>): nat {
    if n.Some? then n.value else 0
  }

  /** The byte offset of the start of the current word. */
  function TokenStartByte(before: string): nat {
    |Utf8.EncodeAll(before[..TokenStart(before)])|
  }

  // ---------------------------------------------------------------- the state machine

  datatype Window = Window(start: nat, items: seq<CompletionItem>, selected: int)

  function VisibleWindow(p: State): Window {
    var total := |p.items|;
    if total <= 10 then Window(0, p.items, p.selected)
    else
      var start := if p.selected < 10 then 0 else Min(p.selected - 9, total - 10);
      Window(start, p.items[start..start + 10], p.selected - start)
  }

  function Hidden(p: State): Outcome {
    if p.visible then
      Outcome(p.(visible := false, popupLines := 0, items := [], selected := 0), Erase(p.popupLines))
    else Outcome(p, Nothing)
  }

  /** The popup redrawn for the current selection. A narrow terminal panics here. */
  function Redrawn(p: State, prev: nat): Outcome {
    var window := VisibleWindow(p);
    var r := Redrawing(window.items, p.terminalCols, prev);
    if r.Commands? then Outcome(p.(popupLines := |window.items|), Show(r.cmds)) else Hidden(p)
  }

  function AfterCommandLine(p: State, buffer: string, cursor: nat, reply: Reply): Outcome {
    var told := p.(lastBuffer := buffer, lastCursor := cursor);
    if reply.Completions? && reply.items != [] then
      Redrawn(told.(items := reply.items, selected := 0, visible := true), if p.visible then p.popupLines else 0)
    else Hidden(told)
  }

  function AfterKey(p: State, key: KeyEvent): Outcome {
    if !p.visible then Outcome(p, ForwardKey(RawBytes(key)))
    else
      match key
      case Tab =>
        if p.selected < |p.items| then
          Outcome(p.(visible := false, popupLines := 0, items := []),
                  Accept(TokenStartByte(BeforeByteCursor(p.lastBuffer, p.lastCursor)), p.items[p.selected].insert))
        else Hidden(p)
      case Escape => Hidden(p)
      case ArrowDown =>
        if p.items == [] then Outcome(p, Nothing)
        else Redrawn(p.(selected := (p.selected + 1) % |p.items|), p.popupLines)
      case ArrowUp =>
        if p.items == [] then Outcome(p, Nothing)
        else Redrawn(p.(selected := (p.selected + |p.items| - 1) % |p.items|), p.popupLines)
      case Enter =>
        Outcome(p.(visible := false, popupLines := 0, items := [], selected := 0),
                EraseAndForward(p.popupLines, RawBytes(key)))
      case _ => Outcome(p, ForwardKey(RawBytes(key)))
  }

  /** A new prompt hides the popup and erases as many lines as it shows. */
  function AfterPromptStart(p: State): Outcome {
    if p.visible then Outcome(p.(visible := false, items := [], popupLines := 0), Erase(Min(|p.items|, 10)))
    else Outcome(p, Nothing)
  }

  // ---------------------------------------------------------------- the implementation

  class PopupState {
    var visible: bool
    var items: seq<CompletionItem>
    var selected: nat
    var lastBuffer: string
    var lastCursor: nat
    var terminalCols: nat
    var popupLines: nat

    ghost function Model(): State
      reads this
    {
      State(visible, items, selected, lastBuffer, lastCursor, terminalCols, popupLines)
    }

    constructor (cols: nat)
      ensures Model() == State(false, [], 0, "", 0, cols, 0)
    {
      visible, items, selected, lastBuffer, lastCursor, terminalCols, popupLines := false, [], 0, "", 0, cols, 0;
    }

    method Hide() returns (action: PopupAction)
      modifies this
      ensures Outcome(Model(), action) == Hidden(old(Model()))
    {
      if visible {
        visible := false;
        var lines := popupLines;
        popupLines := 0;
        items := [];
        selected := 0;
        action := Erase(lines);
      } else {
        action := Nothing;
      }
    }

    method RenderInplace(prevLines: nat) returns (action: PopupAction)
      requires items != [] ==> terminalCols >= 32
      modifies this
      ensures Outcome(Model(), action) == Redrawn(old(Model()), prevLines)
    {
      var total := |items|;
      var start, window := 0, items;
      if total > 10 {
        start := if selected < 10 then 0 else Min(selected - 10 + 1, total - 10);
        window := items[start..start + 10];
      }
      var rendered := RenderPopupInplace(window, terminalCols, prevLines);
      if rendered.Commands? {
        popupLines := |window|;
        action := Show(rendered.cmds);
      } else {
        action := Hide();
      }
    }

    method OnCommandLine(buffer: string, cursor: nat, reply: Reply) returns (action: PopupAction)
      requires reply.Completions? && reply.items != [] ==> terminalCols >= 32
      modifies this
      ensures Outcome(Model(), action) == AfterCommandLine(old(Model()), buffer, cursor, reply)
    {
      hide Redrawn, VisibleWindow;
      lastBuffer, lastCursor := buffer, cursor;
      match reply {
        case Completions(found) =>
          if found == [] {
            action := Hide();
            return;
          }
          var prev := if visible then popupLines else 0;
          items := found;
          selected := 0;
          visible := true;
          action := RenderInplace(prev);
        case OtherReply => action := Hide();
        case Unreachable => action := Hide();
      }
    }

    /** `find_token_start`: a forward walk over the text before the cursor. */
    method FindTokenStart() returns (lastBoundary: nat)
      requires CursorChars(lastBuffer, lastCursor).Some?
      ensures lastBoundary == TokenStartByte(BeforeByteCursor(lastBuffer, lastCursor))
    {
      var before := BeforeByteCursor(lastBuffer, lastCursor);
      lastBoundary := 0;
      var inSq, inDq, escapeNext := false, false, false;
      var at := 0;
      for i := 0 to |before|
        invariant Quoting(inSq, inDq, escapeNext) == QuotingAfter(before[..i])
        invariant at == |Utf8.EncodeAll(before[..i])|
        invariant TokenStart(before[..i]) <= i && lastBoundary == |Utf8.EncodeAll(before[..TokenStart(before[..i])])|
      {
        hide QuotingAfter, TokenStart, Utf8.EncodeAll;
        var ch := before[i];
        assert before[..i + 1] == before[..i] + [ch];
        OneMoreQuoting(before[..i], ch);
        EncodeOneMore(before[..i], ch);
        at := at + Utf8.Width(ch);
        if escapeNext {
          escapeNext := false;
          continue;
        }
        if ch == '\\' && !inSq {
          escapeNext := true;
        } else if ch == '\'' && !inDq {
          inSq := !inSq;
        } else if ch == '"' && !inSq {
          inDq := !inDq;
        } else if IsBlank(ch) && !inSq && !inDq {
          lastBoundary := at;
        }
      }
      assert before[..|before|] == before;
    }

    method OnKey(key: KeyEvent) returns (action: PopupAction)
      requires visible && items != [] && (key.ArrowDown? || key.ArrowUp?) ==> terminalCols >= 32
      requires visible && selected < |items| && key.Tab? ==> CursorChars(lastBuffer, lastCursor).Some?
      modifies this
      ensures Outcome(Model(), action) == AfterKey(old(Model()), key)
    {
      hide Redrawn, VisibleWindow, TokenStartByte, BeforeByteCursor, CursorChars, RawBytes;
      if !visible {
        return ForwardKey(RawBytes(key));
      }
      match key {
        case Tab =>
          if selected < |items| {
            var insertText := items[selected].insert;
            var tokenStart := FindTokenStart();
            visible := false;
            popupLines := 0;
            items := [];
            action := Accept(tokenStart, insertText);
          } else {
            action := Hide();
          }
        case Escape =>
          action := Hide();
        case ArrowDown =>
          if items != [] {
            var prev := popupLines;
            selected := (selected + 1) % |items|;
            action := RenderInplace(prev);
          } else {
            action := Nothing;
          }
        case ArrowUp =>
          if items != [] {
            var prev, total := popupLines, |items|;
            selected := (selected + total - 1) % total;
            action := RenderInplace(prev);
          } else {
            action := Nothing;
          }
        case Enter =>
          var lines := popupLines;
          visible := false;
          popupLines := 0;
          items := [];
          selected := 0;
          action := EraseAndForward(lines, RawBytes(key));
        case _ =>
          action := ForwardKey(RawBytes(key));
      }
    }

    /** What the PTY task does to the popup at a new prompt. */
    method OnPromptStart() returns (action: PopupAction)
      modifies this
      ensures Outcome(Model(), action) == AfterPromptStart(old(Model()))
    {
      action := Nothing;
      if visible {
        var lines := Min(|items|, 10);
        visible := false;
        items := [];
        popupLines := 0;
        action := Erase(lines);
      }
    }
  }

  lemma EncodeOneMore(text: string, c: char)
    ensures |Utf8.EncodeAll(text + [c])| == |Utf8.EncodeAll(text)| + Utf8.Width(c)
  {
    Utf8.EncodeAllAppend(text, [c]);
    assert [c][1..] == "";
  }

  // ---------------------------------------------------------------- invariant

  /** Visible with items and as many lines as the window shows, or hidden with neither. */
  predicate IsSound(p: State) {
    if p.visible then p.items != [] && p.selected < |p.items| && p.popupLines == Min(|p.items|, 10)
    else p.items == [] && p.popupLines == 0
  }

  datatype Input =
    | Key(key: KeyEvent)
    | Update(buffer: string, cursor: nat, reply: Reply)
    | PromptStarted
    | Resized(cols: nat)

  function Step(p: State, input: Input): Outcome {
    match input
    case Key(key) => AfterKey(p, key)
    case Update(buffer, cursor, reply) => AfterCommandLine(p, buffer, cursor, reply)
    case PromptStarted => AfterPromptStart(p)
    case Resized(cols) => Outcome(p.(terminalCols := cols), Nothing)
  }

  /** What does not panic: drawing takes 32 columns, and accepting a cursor that is no offset inside a character. */
  predicate IsSafe(p: State, input: Input) {
    match input
    case Key(key) =>
      && (p.visible && p.items != [] && (key.ArrowDown? || key.ArrowUp?) ==> p.terminalCols >= 32)
      && (p.visible && p.selected < |p.items| && key.Tab? ==> CursorChars(p.lastBuffer, p.lastCursor).Some?)
    case Update(_, _, reply) => reply.Completions? && reply.items != [] ==> p.terminalCols >= 32
    case _ => true
  }

  function Run(p: State, inputs: seq<Input>): State
    decreases |inputs|
  {
    if inputs == [] then p else Run(Step(p, inputs[0]).state, inputs[1..])
  }

  predicate IsWide(input: Input) {
    input.Resized? ==> input.cols >= 32
  }

  /** Redrawing a sound selection always draws, and shows min(count, 10) lines. */
  lemma RedrawnShows(p: State, prev: nat)
    requires p.visible && p.items != [] && p.selected < |p.items| && p.terminalCols >= 32
    ensures var o := Redrawn(p, prev);
            && o.state == p.(popupLines := Min(|p.items|, 10)) && o.action.Show?
            && Redrawing(VisibleWindow(p).items, p.terminalCols, prev) == Commands(o.action.cmds)
  {
  }

  lemma StepKeepsSound(p: State, input: Input)
    requires IsSound(p) && p.terminalCols >= 32 && IsWide(input)
    ensures IsSound(Step(p, input).state) && Step(p, input).state.terminalCols >= 32
  {
    hide Redrawn, VisibleWindow;
    match input
    case Key(key) =>
      if p.visible && (key.ArrowDown? || key.ArrowUp?) {
        var delta := if key.ArrowDown? then 1 else |p.items| - 1;
        RedrawnShows(p.(selected := (p.selected + delta) % |p.items|), p.popupLines);
      }
    case Update(buffer, cursor, reply) =>
      if reply.Completions? && reply.items != [] {
        var told := p.(lastBuffer := buffer, lastCursor := cursor);
        RedrawnShows(told.(items := reply.items, selected := 0, visible := true),
                     if p.visible then p.popupLines else 0);
      }
    case _ =>
  }

  /** The invariant holds over every run, new prompts and resizes included. */
  lemma {:induction false} RunKeepsSound(p: State, inputs: seq<Input>)
    requires IsSound(p) && p.terminalCols >= 32
    requires forall i :: 0 <= i < |inputs| ==> IsWide(inputs[i])
    ensures IsSound(Run(p, inputs))
    decreases |inputs|
  {
    hide Step;
    if inputs == [] {
    } else {
      StepKeepsSound(p, inputs[0]);
      RunKeepsSound(Step(p, inputs[0]).state, inputs[1..]);
    }
  }

  /**
   The window is a stretch of at most ten items that holds the selected one where it says: the first
   ten as long as it is among them, and then the ten that end with it.
   */
  lemma WindowHoldsSelection(p: State)
    requires IsSound(p) && p.visible
    ensures var w := VisibleWindow(p);
            && |w.items| == Min(|p.items|, 10) == p.popupLines
            && w.start + |w.items| <= |p.items| && w.items == p.items[w.start..w.start + |w.items|]
            && 0 <= w.selected < |w.items| && w.items[w.selected] == p.items[p.selected]
            && w.start == if p.selected < 10 then 0 else p.selected - 9
  {
  }

  // ---------------------------------------------------------------- moving the selection

  /** The remainder is the only number below `n` that differs by a multiple of `n`. */
  lemma ModIs(x: nat, q: int, r: nat, n: nat)
    requires r < n && x == q * n + r
    ensures x % n == r
  {
    var d := q - x / n;
    assert d * n == x % n - r by {
      assert x == n * (x / n) + x % n;
      assert d * n == q * n - x / n * n;
    }
    assert d >= 1 ==> d * n >= n;
    assert d <= -1 ==> d * n <= 0 - n;
  }

  function Downs(p: State, k: nat): State {
    if k == 0 then p else AfterKey(Downs(p, k - 1), ArrowDown).state
  }

  lemma StepMod(x: nat, n: nat)
    requires n > 0
    ensures (x % n + 1) % n == (x + 1) % n
  {
    var q, r := x / n, x % n;
    assert x == q * n + r;
    if r + 1 < n {
      ModIs(x + 1, q, r + 1, n);
    } else {
      assert x + 1 == (q + 1) * n + 0;
      ModIs(x + 1, q + 1, 0, n);
      ModIs(n, 1, 0, n);
    }
  }

  lemma WrapOnce(s: nat, n: nat)
    requires s < n
    ensures (s + 1) % n == if s + 1 == n then 0 else s + 1
    ensures (s + n - 1) % n == if s == 0 then n - 1 else s - 1
  {
  }

  /** k presses of the down arrow move the selection k places around the list. */
  lemma {:induction false} DownsWrapAround(p: State, k: nat)
    requires IsSound(p) && p.visible && p.terminalCols >= 32
    ensures Downs(p, k) == p.(selected := (p.selected + k) % |p.items|)
  {
    hide Redrawn, VisibleWindow, RawBytes;
    if k == 0 {
      ModIs(p.selected, 0, p.selected, |p.items|);
    } else {
      DownsWrapAround(p, k - 1);
      var n, s := |p.items|, p.selected + k - 1;
      StepMod(s, n);
      RedrawnShows(p.(selected := (s % n + 1) % n), p.popupLines);
    }
  }

  lemma UpUndoesDown(p: State)
    requires IsSound(p) && p.visible && p.terminalCols >= 32
    ensures AfterKey(AfterKey(p, ArrowDown).state, ArrowUp).state == p
    ensures AfterKey(AfterKey(p, ArrowUp).state, ArrowDown).state == p
  {
    SelectionAfter(p, ArrowDown);
    SelectionAfter(p, ArrowUp);
    SelectionAfter(AfterKey(p, ArrowDown).state, ArrowUp);
    SelectionAfter(AfterKey(p, ArrowUp).state, ArrowDown);
    hide AfterKey;
  }

  lemma SelectionAfter(p: State, key: KeyEvent)
    requires IsSound(p) && p.visible && p.terminalCols >= 32 && (key.ArrowDown? || key.ArrowUp?)
    ensures var n, s := |p.items|, p.selected;
            var next := if key.ArrowDown? then (if s + 1 == n then 0 else s + 1) else (if s == 0 then n - 1 else s - 1);
            AfterKey(p, key).state == p.(selected := next)
  {
    hide Redrawn, VisibleWindow;
    var n, s := |p.items|, p.selected;
    WrapOnce(s, n);
    RedrawnShows(p.(selected := if key.ArrowDown? then (s + 1) % n else (s + n - 1) % n), p.popupLines);
  }

  // ---------------------------------------------------------------- what keys and updates do

  /** The bytes an action sends to the shell as they are. */
  function Forwards(action: PopupAction): seq<Byte> {
    match action
    case ForwardKey(bytes) => bytes
    case EraseAndForward(_, bytes) => bytes
    case _ => []
  }

  /**
   Every key is sent to the shell as its own bytes, except that a visible popup keeps Tab, Escape
   and the vertical arrows to itself.
   */
  lemma KeyForwards(p: State, key: KeyEvent)
    ensures Forwards(AfterKey(p, key).action) ==
            if p.visible && (key == Tab || key == Escape || key == ArrowUp || key == ArrowDown) then []
            else RawBytes(key)
  {
    hide RawBytes, TokenStartByte, Redrawing, VisibleWindow;
  }

  /** Tab accepts the selected item, and Tab alone accepts. */
  lemma TabAccepts(p: State, key: KeyEvent)
    requires IsSound(p)
    ensures AfterKey(p, key).action.Accept? <==> p.visible && key == Tab
    ensures p.visible && key == Tab ==>
              AfterKey(p, key).action ==
              Accept(TokenStartByte(BeforeByteCursor(p.lastBuffer, p.lastCursor)), p.items[p.selected].insert)
  {
    hide RawBytes, TokenStartByte, Redrawing, VisibleWindow;
  }

  /**
   Tab, Escape and Enter hide the popup; the vertical arrows move the selection around the items;
   no other key changes anything, and no key at all changes a hidden popup, the buffer or the cursor.
   */
  lemma KeyMeans(p: State, key: KeyEvent)
    requires IsSound(p) && p.terminalCols >= 32
    ensures var n, p' := |p.items|, AfterKey(p, key).state;
            && p'.lastBuffer == p.lastBuffer && p'.lastCursor == p.lastCursor && p'.terminalCols == p.terminalCols
            && (!p.visible ==> p' == p)
            && (p.visible && (key == Tab || key == Escape || key == Enter) ==> !p'.visible)
            && (p.visible && key == ArrowDown ==>
                  p' == p.(selected := if p.selected == n - 1 then 0 else p.selected + 1))
            && (p.visible && key == ArrowUp ==>
                  p' == p.(selected := if p.selected == 0 then n - 1 else p.selected - 1))
            && (!(key == Tab || key == Escape || key == Enter || key == ArrowDown || key == ArrowUp) ==> p' == p)
  {
    if p.visible && (key.ArrowDown? || key.ArrowUp?) {
      SelectionAfter(p, key);
    }
    hide RawBytes, TokenStartByte, Redrawn, VisibleWindow;
  }

  /** An update shows the items of a reply that has some, the first selected; otherwise the popup is hidden. */
  lemma UpdateMeans(p: State, buffer: string, cursor: nat, reply: Reply)
    requires IsSound(p) && p.terminalCols >= 32
    ensures var p' := AfterCommandLine(p, buffer, cursor, reply).state;
            && p'.lastBuffer == buffer && p'.lastCursor == cursor
            && (p'.visible <==> reply.Completions? && reply.items != [])
            && (p'.visible ==> p'.items == reply.items && p'.selected == 0)
  {
    hide Redrawn, VisibleWindow;
    if reply.Completions? && reply.items != [] {
      var told := p.(lastBuffer := buffer, lastCursor := cursor);
      RedrawnShows(told.(items := reply.items, selected := 0, visible := true), if p.visible then p.popupLines else 0);
    }
  }

  /** A new prompt hides the popup, erases all it shows, and leaves the buffer and the cursor. */
  lemma PromptMeans(p: State)
    requires IsSound(p)
    ensures var o := AfterPromptStart(p);
            && !o.state.visible && o.state.items == [] && o.state.popupLines == 0
            && o.state.lastBuffer == p.lastBuffer && o.state.lastCursor == p.lastCursor
            && o.action == if p.visible then Erase(p.popupLines) else Nothing
  {
  }

  // ---------------------------------------------------------------- the popup on the screen

  /** What the event loop writes to the terminal for an action. */
  function Written(o: Outcome): seq<Cmd> {
    match o.action
    case Show(cmds) => cmds
    case Erase(lines) => Erasing(lines)
    case EraseAndForward(lines, _) => Erasing(lines)
    // The items are counted after the popup has cleared them.
    case Accept(_, _) => Erasing(Min(|o.state.items|, 10))
    case _ => []
  }

  /** The popup and the screen agree, and there is room for a popup of ten items below the cursor. */
  predicate IsShown(p: State, s: Screen) {
    && IsSound(p) && IsScreen(s) && p.terminalCols == s.cols >= 32
    && s.row + 12 < |s.rows| && ShowsBelow(s, p.popupLines)
  }

  /** Command-line updates, and keys other than Tab. */
  predicate IsPlainInput(input: Input) {
    input.Update? || (input.Key? && !input.key.Tab?)
  }

  lemma RedrawnOnScreen(p: State, prev: nat, s: Screen)
    requires p.visible && p.items != [] && p.selected < |p.items|
    requires IsScreen(s) && p.terminalCols == s.cols >= 32 && s.row + 12 < |s.rows|
    requires prev <= 10 && ShowsBelow(s, prev)
    ensures var o := Redrawn(p, prev);
            var s' := Interp(Written(o), s);
            Undisturbed(s, s') && ShowsBelow(s', o.state.popupLines) && o.state == p.(popupLines := Min(|p.items|, 10))
  {
    hide Redrawing, ShowsBelow, Undisturbed;
    RedrawnShows(p, prev);
    RedrawingShows(s, VisibleWindow(p).items, prev);
  }

  lemma HiddenOnScreen(s: Screen, lines: nat)
    requires IsScreen(s) && s.row + 12 < |s.rows| && lines <= 10 && ShowsBelow(s, lines)
    ensures var s' := Interp(Erasing(lines), s); Undisturbed(s, s') && ShowsBelow(s', 0)
  {
    ErasingClears(s, lines, lines);
  }

  /** One step keeps the screen in agreement with the popup and the cursor where it was. */
  lemma StepOnScreen(p: State, s: Screen, input: Input)
    requires IsShown(p, s) && IsPlainInput(input)
    ensures var o := Step(p, input);
            var s' := Interp(Written(o), s);
            IsShown(o.state, s') && (Undisturbed(s, s') || s' == s)
  {
    hide AfterKey, AfterCommandLine, Interp, Written;
    match input
    case Key(key) =>
      if p.visible && (key.ArrowDown? || key.ArrowUp?) {
        ArrowOnScreen(p, s, key);
      } else {
        OtherKeyOnScreen(p, s, key);
      }
    case Update(buffer, cursor, reply) =>
      UpdateOnScreen(p, s, buffer, cursor, reply);
  }

  lemma ArrowOnScreen(p: State, s: Screen, key: KeyEvent)
    requires IsShown(p, s) && p.visible && (key.ArrowDown? || key.ArrowUp?)
    ensures var o := AfterKey(p, key); var s' := Interp(Written(o), s); IsShown(o.state, s') && Undisturbed(s, s')
  {
    hide Redrawn, ShowsBelow, Undisturbed, Interp, Written;
    var delta := if key.ArrowDown? then 1 else |p.items| - 1;
    var p' := p.(selected := (p.selected + delta) % |p.items|);
    RedrawnOnScreen(p', p.popupLines, s);
    KeepsShape(s, Interp(Written(Redrawn(p', p.popupLines)), s));
  }

  lemma OtherKeyOnScreen(p: State, s: Screen, key: KeyEvent)
    requires IsShown(p, s) && !key.Tab? && (p.visible ==> !key.ArrowDown? && !key.ArrowUp?)
    ensures var o := AfterKey(p, key);
            var s' := Interp(Written(o), s);
            IsShown(o.state, s') && (Undisturbed(s, s') || s' == s)
  {
    hide ShowsBelow, Undisturbed, Erasing, RawBytes;
    HiddenOnScreen(s, p.popupLines);
    KeepsShape(s, Interp(Erasing(p.popupLines), s));
  }

  lemma UpdateOnScreen(p: State, s: Screen, buffer: string, cursor: nat, reply: Reply)
    requires IsShown(p, s)
    ensures var o := AfterCommandLine(p, buffer, cursor, reply);
            var s' := Interp(Written(o), s);
            IsShown(o.state, s') && (Undisturbed(s, s') || s' == s)
  {
    hide Redrawn, ShowsBelow, Undisturbed, Erasing;
    if reply.Completions? && reply.items != [] {
      hide Written, Interp;
      var p' := p.(lastBuffer := buffer, lastCursor := cursor, items := reply.items, selected := 0, visible := true);
      var prev := if p.visible then p.popupLines else 0;
      RedrawnOnScreen(p', prev, s);
      KeepsShape(s, Interp(Written(Redrawn(p', prev)), s));
    } else {
      HiddenOnScreen(s, p.popupLines);
      KeepsShape(s, Interp(Erasing(p.popupLines), s));
    }
  }

  lemma KeepsShape(s: Screen, s': Screen)
    requires IsScreen(s) && IsScreen(s')
    ensures Undisturbed(s, s') ==> |s'.rows| == |s.rows| && s'.cols == s.cols && s'.row == s.row
  {
  }

  datatype Display = Display(popup: State, screen: Screen)

  function Displayed(d: Display, inputs: seq<Input>): (r: Display)
    requires IsScreen(d.screen)
    ensures IsScreen(r.screen)
    decreases |inputs|
  {
    if inputs == [] then d
    else
      var o := Step(d.popup, inputs[0]);
      Displayed(Display(o.state, Interp(Written(o), d.screen)), inputs[1..])
  }

  /**
   No stale rows. After any run of updates and keys without Tab, exactly the rows of the popup are
   drawn below the cursor, everything else below is blank, and nothing else has changed.
   */
  lemma {:induction false} NoStaleRows(p: State, s: Screen, inputs: seq<Input>)
    requires IsShown(p, s)
    requires forall i :: 0 <= i < |inputs| ==> IsPlainInput(inputs[i])
    ensures var d := Displayed(Display(p, s), inputs);
            IsShown(d.popup, d.screen) && (Undisturbed(s, d.screen) || d.screen == s)
    decreases |inputs|
  {
    hide Step, IsShown;
    if inputs == [] {
    } else {
      var o := Step(p, inputs[0]);
      StepOnScreen(p, s, inputs[0]);
      assert IsShown(p, s) ==> IsScreen(s) by { ShownIsScreen(p, s); }
      var s' := Interp(Written(o), s);
      ShownIsScreen(o.state, s');
      NoStaleRows(o.state, s', inputs[1..]);
    }
  }

  lemma ShownIsScreen(p: State, s: Screen)
    ensures IsShown(p, s) ==> IsScreen(s)
  {
  }

  /**
   Tab is the exception. It erases two rows only, so of a popup with n lines exactly the rows
   3 to n + 2 stay on the screen: the popup never disappears completely.
   */
  lemma TabLeavesRows(p: State, s: Screen)
    requires IsShown(p, s) && p.visible
    ensures var o := AfterKey(p, Tab);
            var s' := Interp(Written(o), s);
            && o.action.Accept? && !o.state.visible
            && Undisturbed(s, s') && DrawnBetween(s', 3, p.popupLines + 2)
            && !ShowsBelow(s', o.state.popupLines)
  {
    hide Interp, Erasing, DrawnBetween, Undisturbed, TokenStartByte;
    ErasingClears(s, p.popupLines, 0);
    ErasedIffCovered(s, p.popupLines, 0);
  }
}
