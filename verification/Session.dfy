/**
 The path from the keyboard to the popup in src/session/event_loop.rs: forwarded keys and the
 shell's reports edit the tracked line, every key that changes it is sent to the debounce task,
 and the popup ends up with the line.
 */
module Session {
  import opened Prelude
  import opened SpecTypes
  import opened Keys
  import opened BufferTracker
  import opened Tokenizer
  import opened Parser
  import Accepting
  import Debounce
  import Overlay
  import Popup
  import Resolver
  import Terminal
  import Utf8

  /** The update sent for an input: keys that change the line send it, the shell's reports do not. */
  function Report(line: Line, input: Input): seq<Debounce.Update> {
    if input.Pressed? && Refreshes(line, input.key) then
      [Debounce.Update(Next(line, input).text, Next(line, input).cursor)]
    else []
  }

  /** The updates sent while keys are forwarded and the shell reports. */
  function Reports(line: Line, inputs: seq<Input>): seq<Debounce.Update>
    decreases |inputs|
  {
    if inputs == [] then [] else Report(line, inputs[0]) + Reports(Next(line, inputs[0]), inputs[1..])
  }

  /** The ForwardKey branch and the reports of the shell, in the order in which they take the tracker's lock. */
  method Track(tracker: Tracker, inputs: seq<Input>) returns (updates: seq<Debounce.Update>)
    requires tracker.Valid()
    modifies tracker
    ensures tracker.Valid() && tracker.Contents() == After(old(tracker.Contents()), inputs)
    ensures updates == Reports(old(tracker.Contents()), inputs)
  {
    hide Edited, Refreshes, Utf8.FromUtf8, Reports, After;
    updates := [];
    ghost var start := tracker.Contents();
    assert inputs[0..] == inputs && [] + Reports(start, inputs) == Reports(start, inputs);
    for i := 0 to |inputs|
      invariant tracker.Valid()
      invariant updates + Reports(tracker.Contents(), inputs[i..]) == Reports(start, inputs)
      invariant After(tracker.Contents(), inputs[i..]) == After(start, inputs)
    {
      ghost var line := tracker.Contents();
      OneMoreInput(line, inputs[i..]);
      assert inputs[i..][1..] == inputs[i + 1..] && inputs[i..][0] == inputs[i];
      Regroup(updates, Report(line, inputs[i]), Reports(Next(line, inputs[i]), inputs[i + 1..]));
      match inputs[i] {
        case Pressed(key) =>
          var changed := tracker.OnKey(key);
          if changed {
            var text := Utf8.FromUtf8(tracker.buffer).value;
            updates := updates + [Debounce.Update(text, tracker.cursor)];
          }
        case Synced(text, at) =>
          Utf8.FromUtf8Exact(Utf8.EncodeAll(text), text);
          tracker.Sync(Utf8.EncodeAll(text), at);
          Utf8.FromUtf8Exact(tracker.buffer, text);
      }
    }
    NoMoreInputs(tracker.Contents());
    assert inputs[|inputs|..] == [];
  }

  lemma OneMoreInput(line: Line, inputs: seq<Input>)
    requires inputs != []
    ensures Reports(line, inputs) == Report(line, inputs[0]) + Reports(Next(line, inputs[0]), inputs[1..])
    ensures After(line, inputs) == After(Next(line, inputs[0]), inputs[1..])
  {
  }

  lemma NoMoreInputs(line: Line)
    ensures Reports(line, []) == [] && After(line, []) == line
  {
  }

  /** What is sent after some inputs depends on the line they leave. */
  lemma {:induction false} ReportsInTurn(line: Line, first: seq<Input>, second: seq<Input>)
    ensures Reports(line, first + second) == Reports(line, first) + Reports(After(line, first), second)
    decreases |first|
  {
    hide Report, Next;
    if first == [] {
      assert first + second == second;
      assert [] + Reports(line, second) == Reports(line, second);
    } else {
      var next := Next(line, first[0]);
      assert (first + second)[1..] == first[1..] + second;
      ReportsInTurn(next, first[1..], second);
      Regroup(Report(line, first[0]), Reports(next, first[1..]), Reports(After(line, first), second));
    }
  }

  /** The last character typed sends the line that all of them leave. */
  lemma {:induction false} LastReportWhenTyping(line: Line, text: string)
    requires text != ""
    ensures var r := Reports(line, KeysPressed(Chars(text)));
            var end := After(line, KeysPressed(Chars(text)));
            r != [] && r[|r| - 1] == Debounce.Update(end.text, end.cursor)
    decreases |text|
  {
    var keys := KeysPressed(Chars(text));
    assert keys[1..] == KeysPressed(Chars(text[1..])) && keys[0] == Pressed(Char(text[0]));
    if |text| == 1 {
      assert keys[1..] == [];
    } else {
      LastReportWhenTyping(Next(line, keys[0]), text[1..]);
    }
  }

  /** Typing onto a line gives a text with the cursor at its end exactly if the line was the rest of it. */
  lemma TypingGivesIff(line: Line, head: string, tail: string)
    ensures After(line, KeysPressed(Chars(tail))) == Line(head + tail, |head| + |tail|) <==> line == Line(head, |head|)
  {
    TypingAdds(line, tail);
    if line.cursor == |line.text| == |head| {
      TypingAppends(line.text, tail);
      assert (head + tail)[..|head|] == head && (line.text + tail)[..|head|] == line.text;
    }
  }

  lemma {:induction false} TypingAdds(line: Line, text: string)
    ensures var end := After(line, KeysPressed(Chars(text)));
            |end.text| == |line.text| + |text| && end.cursor == line.cursor + |text|
    decreases |text|
  {
    if text == "" {
    } else {
      var keys := KeysPressed(Chars(text));
      assert keys[1..] == KeysPressed(Chars(text[1..])) && keys[0] == Pressed(Char(text[0]));
      TypingAdds(Next(line, keys[0]), text[1..]);
    }
  }

  // ---------------------------------------------------------------- one key

  /** What the event loop writes to the shell for a key: the key's bytes, or the rewritten line. */
  function ToShell(p: Popup.State, key: KeyEvent): seq<Byte> {
    match Popup.AfterKey(p, key).action
    case ForwardKey(bytes) => bytes
    case EraseAndForward(_, bytes) => bytes
    case Accept(tokenStart, insertText) =>
      var line := Accepting.NewLine(p.lastBuffer, p.lastCursor, tokenStart, insertText);
      if line.Some? then [0x01, 0x0B] + Utf8.EncodeAll(line.value) else []
    case _ => []
  }

  /** The tracker sees a key only if it is plainly forwarded. */
  function Tracked(p: Popup.State, key: KeyEvent): seq<Input> {
    if Popup.AfterKey(p, key).action.ForwardKey? then [Pressed(key)] else []
  }

  /** `handle_key_event`: the popup first, then the shell, the terminal, the tracker and the debounce task. */
  method HandleKeyEvent(popup: Popup.PopupState, tracker: Tracker, key: KeyEvent)
    returns (toShell: seq<Byte>, toTerminal: seq<Terminal.Cmd>, updates: seq<Debounce.Update>)
    requires tracker.Valid() && Popup.IsSafe(popup.Model(), Popup.Key(key))
    modifies popup, tracker
    ensures var p := old(popup.Model());
            && popup.Model() == Popup.AfterKey(p, key).state
            && toShell == ToShell(p, key) && toTerminal == Popup.Written(Popup.AfterKey(p, key))
            && tracker.Valid() && tracker.Contents() == After(old(tracker.Contents()), Tracked(p, key))
            && updates == Reports(old(tracker.Contents()), Tracked(p, key))
  {
    hide Popup.AfterKey, Popup.TokenStartByte, Popup.BeforeByteCursor, Accepting.NewLine, Overlay.Erasing, Edited,
         Refreshes, Utf8.FromUtf8;
    ghost var p, line := popup.Model(), tracker.Contents();
    NoMoreInputs(line);
    OneInput(line, Pressed(key));
    AcceptIsSafe(p, key);
    toShell, toTerminal, updates := [], [], [];
    var action := popup.OnKey(key);
    match action {
      case ForwardKey(bytes) =>
        toShell := bytes;
        var changed := tracker.OnKey(key);
        if changed {
          updates := [Debounce.Update(Utf8.FromUtf8(tracker.buffer).value, tracker.cursor)];
        }
      case Show(cmds) =>
        toTerminal := cmds;
      case Erase(lines) =>
        toTerminal := Overlay.ErasePopup(lines);
      case Accept(tokenStart, insertText) =>
        // The items are counted after the popup has cleared them.
        toTerminal := Overlay.ErasePopup(Min(|popup.items|, 10));
        toShell := Accepting.Inject(popup.lastBuffer, popup.lastCursor, tokenStart, insertText);
      case EraseAndForward(lines, bytes) =>
        toTerminal := Overlay.ErasePopup(lines);
        toShell := bytes;
      case Nothing =>
    }
  }

  lemma OneInput(line: Line, input: Input)
    ensures After(line, [input]) == Next(line, input) && Reports(line, [input]) == Report(line, input)
  {
    assert [input][1..] == [];
    NoMoreInputs(Next(line, input));
  }

  lemma AcceptIsSafe(p: Popup.State, key: KeyEvent)
    requires Popup.IsSafe(p, Popup.Key(key))
    ensures var o := Popup.AfterKey(p, key);
            o.action.Accept? ==>
              && o.state.lastBuffer == p.lastBuffer && o.state.lastCursor == p.lastCursor
              && Accepting.NewLine(p.lastBuffer, p.lastCursor, o.action.tokenStart, o.action.insertText).Some?
  {
    hide Accepting.NewLine, Popup.TokenStartByte, Popup.BeforeByteCursor, Popup.CursorChars, Overlay.Redrawing;
    if p.visible && p.selected < |p.items| && key.Tab? {
      Accepting.CanRewrite(p.lastBuffer, p.lastCursor, p.items[p.selected].insert);
    }
  }

  /**
   What the shell gets for a key. A visible popup keeps Escape and the vertical arrows; for Tab it
   sends Ctrl-A, Ctrl-K and the rewritten line; every other key goes out as its own bytes. The
   tracker misses what the popup keeps, and also an Enter that closes the popup.
   */
  lemma KeyToShell(p: Popup.State, key: KeyEvent)
    requires Popup.IsSound(p) && Popup.IsSafe(p, Popup.Key(key))
    ensures p.visible && (key == Escape || key == ArrowUp || key == ArrowDown) ==> ToShell(p, key) == []
    ensures p.visible && key == Tab ==>
              var line := Accepting.AcceptedLine(p.lastBuffer, p.lastCursor, p.items[p.selected].insert);
              line.Some? && ToShell(p, key) == [0x01, 0x0B] + Utf8.EncodeAll(line.value)
    ensures !(p.visible && (key == Escape || key == ArrowUp || key == ArrowDown || key == Tab)) ==>
              ToShell(p, key) == RawBytes(key)
    ensures Tracked(p, key) ==
            if p.visible && (key == Escape || key == ArrowUp || key == ArrowDown || key == Tab || key == Enter) then []
            else [Pressed(key)]
  {
    Popup.KeyForwards(p, key);
    Popup.TabAccepts(p, key);
    AcceptIsSafe(p, key);
    hide RawBytes, Popup.TokenStartByte, Popup.BeforeByteCursor, Accepting.NewLine, Overlay.Redrawing,
         Popup.VisibleWindow, Utf8.EncodeAll;
  }

  // ---------------------------------------------------------------- what reaches the shell

  /** The bytes written to the shell over a run of the popup. */
  function ShellBytes(p: Popup.State, inputs: seq<Popup.Input>): seq<Byte>
    decreases |inputs|
  {
    if inputs == [] then []
    else
      (if inputs[0].Key? then ToShell(p, inputs[0].key) else [])
      + ShellBytes(Popup.Step(p, inputs[0]).state, inputs[1..])
  }

  /** The keys of a run. */
  function KeysIn(inputs: seq<Popup.Input>): seq<KeyEvent>
    decreases |inputs|
  {
    if inputs == [] then [] else (if inputs[0].Key? then [inputs[0].key] else []) + KeysIn(inputs[1..])
  }

  /** The keys of a run that a visible popup does not keep. */
  function KeysPassed(p: Popup.State, inputs: seq<Popup.Input>): seq<KeyEvent>
    decreases |inputs|
  {
    if inputs == [] then []
    else
      var input := inputs[0];
      (if input.Key? && !(p.visible && (input.key == Escape || input.key == ArrowUp || input.key == ArrowDown
                                        || input.key == Tab))
       then [input.key] else [])
      + KeysPassed(Popup.Step(p, input).state, inputs[1..])
  }

  /** The bytes of a run that are sent as they were typed. */
  function OwnBytes(p: Popup.State, inputs: seq<Popup.Input>): seq<Byte>
    decreases |inputs|
  {
    if inputs == [] then []
    else
      (if inputs[0].Key? then Popup.Forwards(Popup.AfterKey(p, inputs[0].key).action) else [])
      + OwnBytes(Popup.Step(p, inputs[0]).state, inputs[1..])
  }

  /** What is sent over a run: the keys passed on, and a rewritten line in the place of each Tab that accepts. */
  function ShellEvents(p: Popup.State, inputs: seq<Popup.Input>): seq<KeyEvent>
    decreases |inputs|
  {
    if inputs == [] then []
    else
      var input := inputs[0];
      (if !input.Key? || (p.visible && (input.key == Escape || input.key == ArrowUp || input.key == ArrowDown)) then []
       else if p.visible && input.key == Tab then
         var line := if p.selected < |p.items| then
                       Accepting.AcceptedLine(p.lastBuffer, p.lastCursor, p.items[p.selected].insert)
                     else None;
         if line.Some? then [Raw([0x01, 0x0B] + Utf8.EncodeAll(line.value))] else []
       else [input.key])
      + ShellEvents(Popup.Step(p, input).state, inputs[1..])
  }

  /** Nothing in the run panics. */
  predicate IsSafeRun(p: Popup.State, inputs: seq<Popup.Input>)
    decreases |inputs|
  {
    inputs == [] ||
    (Popup.IsSafe(p, inputs[0]) && Popup.IsWide(inputs[0]) && IsSafeRun(Popup.Step(p, inputs[0]).state, inputs[1..]))
  }

  /** Over any run at all, what is sent as it was typed are the bytes of the keys passed on. */
  lemma {:induction false} OwnBytesArePassed(p: Popup.State, inputs: seq<Popup.Input>)
    ensures OwnBytes(p, inputs) == Forwarded(KeysPassed(p, inputs))
    decreases |inputs|
  {
    hide Popup.Step, Popup.AfterKey, Popup.Forwards, RawBytes, Forwarded;
    if inputs == [] {
      assert Forwarded([]) == [] by { NothingPassed(); }
    } else {
      var p', rest := Popup.Step(p, inputs[0]).state, inputs[1..];
      OwnBytesArePassed(p', rest);
      if inputs[0].Key? {
        Popup.KeyForwards(p, inputs[0].key);
        ForwardedFirst(inputs[0].key, KeysPassed(p', rest));
      }
      assert [] + KeysPassed(p', rest) == KeysPassed(p', rest) && [] + OwnBytes(p', rest) == OwnBytes(p', rest);
    }
  }

  lemma {:induction false} ShellGetsEvents(p: Popup.State, inputs: seq<Popup.Input>)
    requires Popup.IsSound(p) && p.terminalCols >= 32 && IsSafeRun(p, inputs)
    ensures ShellBytes(p, inputs) == Forwarded(ShellEvents(p, inputs))
    decreases |inputs|
  {
    hide Popup.Step, ToShell, Popup.IsSafe, Forwarded, Accepting.AcceptedLine, Utf8.EncodeAll;
    if inputs == [] {
      assert Forwarded([]) == [] by { NothingPassed(); }
    } else {
      var p', rest := Popup.Step(p, inputs[0]).state, inputs[1..];
      Popup.StepKeepsSound(p, inputs[0]);
      ShellGetsEvents(p', rest);
      if inputs[0].Key? {
        KeyToShell(p, inputs[0].key);
        if |ShellEvents(p, inputs)| > |ShellEvents(p', rest)| {
          ForwardedFirst(ShellEvents(p, inputs)[0], ShellEvents(p', rest));
        }
      }
      assert [] + ShellEvents(p', rest) == ShellEvents(p', rest) && [] + ShellBytes(p', rest) == ShellBytes(p', rest);
    }
  }

  lemma NothingPassed()
    ensures Forwarded([]) == []
  {
  }

  lemma ForwardedFirst(key: KeyEvent, keys: seq<KeyEvent>)
    ensures Forwarded([key] + keys) == RawBytes(key) + Forwarded(keys)
  {
    hide RawBytes;
    assert ([key] + keys)[1..] == keys;
  }

  predicate SitsAt(passed: seq<KeyEvent>, keys: seq<KeyEvent>, at: seq<nat>) {
    && |at| == |passed| && (forall i :: 0 <= i < |at| ==> at[i] < |keys| && keys[at[i]] == passed[i])
    && forall i, j :: 0 <= i < j < |at| ==> at[i] < at[j]
  }

  function Shifted(at: seq<nat>): seq<nat> {
    seq(|at|, i requires 0 <= i < |at| => at[i] + 1)
  }

  lemma OneMoreKey(passed: seq<KeyEvent>, keys: seq<KeyEvent>, at: seq<nat>, key: KeyEvent)
    requires SitsAt(passed, keys, at)
    ensures SitsAt(passed, [key] + keys, Shifted(at)) && SitsAt([key] + passed, [key] + keys, [0] + Shifted(at))
  {
  }

  /** The keys passed on are keys of the run, in their order. */
  lemma {:induction false} PassedInOrder(p: Popup.State, inputs: seq<Popup.Input>) returns (at: seq<nat>)
    ensures SitsAt(KeysPassed(p, inputs), KeysIn(inputs), at)
    decreases |inputs|
  {
    hide Popup.Step, SitsAt;
    if inputs == [] {
      at := [];
      assert SitsAt([], [], []) by { NoKeys(); }
    } else {
      var p', rest := Popup.Step(p, inputs[0]).state, inputs[1..];
      at := PassedInOrder(p', rest);
      assert [] + KeysPassed(p', rest) == KeysPassed(p', rest) && [] + KeysIn(rest) == KeysIn(rest);
      if inputs[0].Key? {
        OneMoreKey(KeysPassed(p', rest), KeysIn(rest), at, inputs[0].key);
        at := if KeysPassed(p, inputs) == KeysPassed(p', rest) then Shifted(at) else [0] + Shifted(at);
      }
    }
  }

  lemma NoKeys()
    ensures SitsAt([], [], [])
  {
  }

  /** A popup that stays hidden keeps no key, and rewrites no line. */
  lemma {:induction false} HiddenPassesAll(p: Popup.State, inputs: seq<Popup.Input>)
    requires forall i :: 0 <= i < |inputs| ==> !Popup.Run(p, inputs[..i]).visible
    ensures KeysPassed(p, inputs) == KeysIn(inputs) && ShellEvents(p, inputs) == KeysIn(inputs)
    decreases |inputs|
  {
    hide Popup.Step;
    if inputs == [] {
    } else {
      var p', rest := Popup.Step(p, inputs[0]).state, inputs[1..];
      assert Popup.Run(p, inputs[..0]) == p;
      forall i | 0 <= i < |rest|
        ensures Popup.Run(p', rest[..i]) == Popup.Run(p, inputs[..i + 1])
      {
        assert inputs[..i + 1][0] == inputs[0] && inputs[..i + 1][1..] == rest[..i];
      }
      HiddenPassesAll(p', rest);
    }
  }

  /**
   From the keyboard to the shell. Over any reads of the keyboard and any run of the popup in which
   nothing panics, what is sent as it was typed are exactly the bytes of the keys that the popup
   does not keep, in their order; beside them the shell only gets the rewritten lines. The bytes of
   all the keys are the bytes read, up to a final ESC that is still pending and the two codes of
   Backspace; so with the popup hidden throughout, the shell gets what was typed.
   */
  lemma KeyboardToShell(chunks: seq<seq<Byte>>, p: Popup.State, inputs: seq<Popup.Input>) returns (at: seq<nat>)
    requires Popup.IsSound(p) && p.terminalCols >= 32 && IsSafeRun(p, inputs)
    requires KeysIn(inputs) == ReadMany(chunks, false).events
    ensures OwnBytes(p, inputs) == Forwarded(KeysPassed(p, inputs))
    ensures SitsAt(KeysPassed(p, inputs), ReadMany(chunks, false).events, at)
    ensures ShellBytes(p, inputs) == Forwarded(ShellEvents(p, inputs))
    ensures var r := ReadMany(chunks, false);
            && SameBytes(Flatten(chunks), Forwarded(r.events) + EscIf(r.pending))
            && ((forall i :: 0 <= i < |inputs| ==> !Popup.Run(p, inputs[..i]).visible) ==>
                  SameBytes(Flatten(chunks), ShellBytes(p, inputs) + EscIf(r.pending)))
  {
    hide Read, RawBytes, SameBytes, Forwarded, ShellBytes, KeysPassed, KeysIn, Popup.Run, Popup.IsSound, IsSafeRun,
         ReadMany, SitsAt, OwnBytes, ShellEvents;
    OwnBytesArePassed(p, inputs);
    ShellGetsEvents(p, inputs);
    at := PassedInOrder(p, inputs);
    ReadManyLossless(chunks, false);
    assert [] + Flatten(chunks) == Flatten(chunks);
    if forall i :: 0 <= i < |inputs| ==> !Popup.Run(p, inputs[..i]).visible {
      HiddenPassesAll(p, inputs);
    }
  }

  // ---------------------------------------------------------------- what reaches the popup

  /** The updates sent in a run are those of these inputs, and the run has come to rest. */
  ghost predicate IsQuietRun(popup: Popup.State, line: Line, inputs: seq<Input>, steps: seq<Debounce.Event>) {
    && Debounce.IsRun(Debounce.Start(popup), steps)
    && var s := Debounce.After(Debounce.Start(popup), steps);
       s.sent == Reports(line, inputs) && s.channel == [] && s.task.Idle?
  }

  /** The line the popup works on after a run. */
  ghost function PopupLine(popup: Popup.State, steps: seq<Debounce.Event>): Line
    requires Debounce.IsRun(Debounce.Start(popup), steps)
  {
    var p := Debounce.After(Debounce.Start(popup), steps).popup;
    Line(p.lastBuffer, p.lastCursor)
  }

  /** After any keys and reports, a text typed further reaches the popup as the tracker then has it. */
  lemma TypedLineReachesPopup(popup: Popup.State, start: Line, before: seq<Input>, tail: string,
                              steps: seq<Debounce.Event>)
    requires tail != "" && IsQuietRun(popup, start, before + KeysPressed(Chars(tail)), steps)
    ensures PopupLine(popup, steps) == After(After(start, before), KeysPressed(Chars(tail)))
  {
    hide Debounce.After, Debounce.IsRun, Reports, After;
    ReportsInTurn(start, before, KeysPressed(Chars(tail)));
    LastReportWhenTyping(After(start, before), tail);
    Debounce.QuietMeansUpToDate(popup, steps);
  }

  /**
   Exactly when the popup ends up with the line the user sees. Whatever keys and reports came
   before, in any interleaving with receipts, timeouts and whatever else the popup sees: once
   everything is quiet, the popup works on `head + tail` with the cursor at its end if and only if
   the tracker held `head` with the cursor at its end when `tail` was typed. A report that comes
   late, or none where the shell edits by itself, is what makes it differ.
   */
  lemma PopupIsRightIff(popup: Popup.State, start: Line, before: seq<Input>, head: string, tail: string,
                        steps: seq<Debounce.Event>)
    requires tail != "" && IsQuietRun(popup, start, before + KeysPressed(Chars(tail)), steps)
    ensures PopupLine(popup, steps) == Line(head + tail, |head| + |tail|) <==>
            After(start, before) == Line(head, |head|)
  {
    hide IsQuietRun, PopupLine, After;
    TypedLineReachesPopup(popup, start, before, tail, steps);
    TypingGivesIff(After(start, before), head, tail);
  }

  /** Every report of the shell agrees with what the tracker already holds. */
  predicate AreInStep(line: Line, inputs: seq<Input>)
    decreases |inputs|
  {
    inputs == [] ||
    ((inputs[0].Synced? ==> Next(line, inputs[0]) == line) && AreInStep(Next(line, inputs[0]), inputs[1..]))
  }

  /** The keys among the inputs. */
  function KeysOf(inputs: seq<Input>): seq<KeyEvent>
    decreases |inputs|
  {
    if inputs == [] then [] else (if inputs[0].Pressed? then [inputs[0].key] else []) + KeysOf(inputs[1..])
  }

  /** Reports in step change nothing about what is sent. */
  lemma {:induction false} InStepSendsTheSame(line: Line, inputs: seq<Input>)
    requires AreInStep(line, inputs)
    ensures Reports(line, inputs) == Reports(line, KeysPressed(KeysOf(inputs)))
    decreases |inputs|
  {
    hide Edited, Refreshes;
    if inputs == [] {
    } else {
      InStepSendsTheSame(Next(line, inputs[0]), inputs[1..]);
      if inputs[0].Pressed? {
        assert KeysPressed(KeysOf(inputs))[1..] == KeysPressed(KeysOf(inputs[1..]));
      } else {
        assert KeysOf(inputs) == KeysOf(inputs[1..]);
      }
    }
  }

  /**
   End to end. The bytes of a printable text are typed at an empty prompt, with reports of the
   shell anywhere between the keys as long as they are in step. Once everything is quiet, the popup
   works on that text with the cursor at its end; and on an ASCII text its byte cursor is the
   tokenizer's character cursor.
   */
  lemma TypedTextReachesPopup(popup: Popup.State, text: string, inputs: seq<Input>, steps: seq<Debounce.Event>)
    requires text != "" && IsPrintable(text)
    requires AreInStep(Line("", 0), inputs) && KeysOf(inputs) == Read(Utf8.EncodeAll(text), false).events
    requires IsQuietRun(popup, Line("", 0), inputs, steps)
    ensures PopupLine(popup, steps) == Line(text, |text|)
    ensures Utf8.IsAscii(text) ==> Accepting.CursorsAgree(text, |text|)
  {
    hide Debounce.After, Debounce.IsRun, PopupLine, Accepting.CursorsAgree, Read, Forwarded, Utf8.EncodeAll, After,
         Reports, KeysOf;
    ForwardedChars(text);
    RoundTrip(Chars(text));
    InStepSendsTheSame(Line("", 0), inputs);
    var keys := KeysPressed(Chars(text));
    assert [] + keys == keys && "" + text == text;
    NoMoreInputs(Line("", 0));
    PopupIsRightIff(popup, Line("", 0), [], "", text, steps);
    if Utf8.IsAscii(text) {
      Accepting.AsciiCursorsAgree(text, |text|);
    }
  }

  /** A late report: the shell's "a" arrives after "b" has been typed, and the popup is told "ac" instead of "abc". */
  lemma LateReportLosesText()
    ensures var before := KeysPressed(Chars("ab")) + [Synced("a", 1)];
            && !AreInStep(Line("", 0), before)
            && After(Line("", 0), before) == Line("a", 1)
            && Reports(After(Line("", 0), before), KeysPressed(Chars("c"))) == [Debounce.Update("ac", 2)]
  {
    var before := KeysPressed(Chars("ab")) + [Synced("a", 1)];
    assert before == [Pressed(Char('a')), Pressed(Char('b')), Synced("a", 1)];
    assert Insert("", 0, 'a') == "a" && Insert("a", 1, 'b') == "ab" && Insert("a", 1, 'c') == "ac";
    var rest, last := before[1..], before[2..];
    assert rest[1..] == last && last[1..] == [];
    assert After(Line("ab", 2), last) == Line("a", 1) && !AreInStep(Line("ab", 2), last);
    assert After(Line("a", 1), rest) == Line("a", 1) && !AreInStep(Line("a", 1), rest);
    assert KeysPressed(Chars("c")) == [Pressed(Char('c'))];
  }

  // ---------------------------------------------------------------- after accepting

  /**
   Accepting, end to end. The event loop does not tell the tracker about the retyped line; the
   shell has to. If the tracker holds the new line when more characters are typed, the popup ends
   up with a line that parses below the accepted subcommand.
   */
  lemma AcceptedLineReachesPopup(popup: Popup.State, spec: Spec, buffer: string, cursor: nat, w: string,
                                 start: Line, before: seq<Input>, typed: string, steps: seq<Debounce.Event>)
    requires Accepting.CursorsAgree(buffer, cursor) && Accepting.IsAcceptable(spec, buffer, cursor, w)
    requires var text := BeforeCursor(buffer, cursor); TokensOf(text).tokens != [] && !EndsInQuotedBlank(text)
    requires Accepting.AcceptedLine(buffer, cursor, w).Some?
    requires var line := Accepting.AcceptedLine(buffer, cursor, w).value; After(start, before) == Line(line, |line|)
    requires typed != "" && IsQuietRun(popup, start, before + KeysPressed(Chars(typed)), steps)
    ensures var was := Accepting.ContextBefore(spec, buffer, cursor);
            var children := Children(Resolver.DeepestNode(spec, was.specPath));
            var index := FindChild(children, w);
            var rest := TokensOf(Accepting.TextAfter(buffer, cursor, typed));
            var seen := PopupLine(popup, steps);
            var next := ContextOf(spec, TokensOf(BeforeCursor(seen.text, seen.cursor)));
            && index < |children|
            && var below := ContextOf(children[index], Tokens([w] + rest.tokens, rest.partial));
            && next.specPath == was.specPath + [index] + below.specPath
            && next.subcommandPath == was.subcommandPath + below.subcommandPath
            && next.usedOptions == below.usedOptions && next.expected == below.expected
            && next.currentToken == rest.partial
  {
    hide IsQuietRun, PopupLine, After, ContextOf, TokensOf, EndsInQuotedBlank, BeforeCursor, FindChild,
         Resolver.DeepestNode, Accepting.CursorsAgree, Accepting.IsAcceptable, Accepting.AcceptedLine,
         Accepting.TextAfter, Accepting.ContextBefore, KeysPressed, Chars;
    PopupIsRightIff(popup, start, before, Accepting.AcceptedLine(buffer, cursor, w).value, typed, steps);
    Accepting.AcceptDescends(spec, buffer, cursor, w, typed);
  }
}
