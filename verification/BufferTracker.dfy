/**
 The local line editor of src/session/buffer_tracker.rs. It edits UTF-8 bytes through character
 indices, and must behave like an editor of plain character sequences.
 */
module BufferTracker {
  import opened Prelude
  import opened Keys
  import Utf8

  // ---------------------------------------------------------------- the character editor

  /** A line of characters and a cursor. Only `Sync` can put the cursor past the end. */
  datatype Line = Line(text: string, cursor: nat)

  function Insert(text: string, at: nat, c: char): string {
    var i := Min(at, |text|);
    text[..i] + [c] + text[i..]
  }

  function Delete(text: string, at: nat): string {
    if at < |text| then text[..at] + text[at + 1..] else text
  }

  /** The line after a key. */
  function Edited(line: Line, key: KeyEvent): Line {
    match key
    case Char(c) => Line(Insert(line.text, line.cursor, c), line.cursor + 1)
    case Backspace => if line.cursor > 0 then Line(Delete(line.text, line.cursor - 1), line.cursor - 1) else line
    case Enter => Line("", 0)
    case CtrlC => Line("", 0)
    case ArrowLeft => if line.cursor > 0 then line.(cursor := line.cursor - 1) else line
    case ArrowRight => if line.cursor < |line.text| then line.(cursor := line.cursor + 1) else line
    case _ => line
  }

  /** Whether the popup should be refreshed after a key. */
  predicate Refreshes(line: Line, key: KeyEvent) {
    key.Char? || key.Enter? || key.CtrlC? || (key.Backspace? && line.cursor > 0)
  }

  // ---------------------------------------------------------------- what the keys do

  /** At a place inside a line, a character goes in there, and Backspace takes out the one before. */
  lemma EditsInPlace(a: string, c: char, b: string)
    ensures Edited(Line(a + b, |a|), Char(c)) == Line(a + [c] + b, |a| + 1)
    ensures Edited(Line(a + [c] + b, |a| + 1), Backspace) == Line(a + b, |a|)
    ensures Edited(Line(b, 0), Backspace) == Line(b, 0)
  {
    assert (a + b)[..|a|] == a && (a + b)[|a|..] == b;
    assert (a + [c] + b)[..|a|] == a && (a + [c] + b)[|a| + 1..] == b;
  }

  /** Enter and Ctrl-C start over; the other keys leave the line alone. */
  lemma OtherKeys(line: Line, key: KeyEvent)
    requires !key.Char? && !key.Backspace? && !key.ArrowLeft? && !key.ArrowRight?
    ensures Edited(line, key) == if key.Enter? || key.CtrlC? then Line("", 0) else line
  {
  }

  function Lefts(line: Line, k: nat): Line {
    if k == 0 then line else Edited(Lefts(line, k - 1), ArrowLeft)
  }

  /** From the end, k presses of the left arrow move k characters back, or to the start. */
  lemma {:induction false} LeftsMoveBack(text: string, k: nat)
    ensures Lefts(Line(text, |text|), k) == Line(text, if k <= |text| then |text| - k else 0)
  {
    if k == 0 {
    } else {
      LeftsMoveBack(text, k - 1);
    }
  }

  /** The right arrow undoes the left one exactly where there is a character to step over, or none at all. */
  lemma RightUndoesLeftIff(line: Line)
    ensures Edited(Edited(line, ArrowLeft), ArrowRight) == line <==>
            0 < line.cursor <= |line.text| || (line.cursor == 0 && line.text == "")
  {
  }

  /** A key that changes the text always refreshes the popup; of the others only Enter and Ctrl-C may. */
  lemma ChangesRefresh(line: Line, key: KeyEvent)
    ensures Edited(line, key).text != line.text ==> Refreshes(line, key)
    ensures Refreshes(line, key) <==>
            key.Char? || key.Enter? || key.CtrlC? || (key.Backspace? && Edited(line, key).cursor != line.cursor)
  {
  }

  // ---------------------------------------------------------------- byte positions

  /** The byte position of a character index: the end of the buffer if there is no such character. */
  function ByteOffset(bytes: seq<Byte>, index: nat): (at: nat)
    requires Utf8.FromUtf8(bytes).Some?
    ensures at <= |bytes|
    decreases |bytes|
  {
    if bytes == [] || index == 0 then 0
    else
      Utf8.LeadDecodeIsEncoded(bytes);
      var len := Utf8.LeadDecode(bytes).value.len;
      len + ByteOffset(bytes[len..], index - 1)
  }

  /** Character indices and byte positions correspond. */
  lemma {:induction false} OffsetOfIndex(text: string, index: nat)
    ensures Utf8.FromUtf8(Utf8.EncodeAll(text)) == Some(text)
    ensures ByteOffset(Utf8.EncodeAll(text), index) == |Utf8.EncodeAll(text[..Min(index, |text|)])|
  {
    Utf8.FromUtf8Exact(Utf8.EncodeAll(text), text);
    if text == "" || index == 0 {
    } else {
      var bytes, rest := Utf8.EncodeAll(text), Utf8.EncodeAll(text[1..]);
      Utf8.LeadDecodeOfEncode(text[0], rest);
      OffsetOfIndex(text[1..], index - 1);
      hide Utf8.Encode;
      var n := Utf8.Width(text[0]);
      assert bytes[n..] == rest;
      assert text[..Min(index, |text|)][1..] == text[1..][..Min(index - 1, |text| - 1)];
    }
  }

  /** The bytes before and after a character position. */
  lemma SplitBytes(text: string, index: nat)
    requires index <= |text|
    ensures var b, n := Utf8.EncodeAll(text), |Utf8.EncodeAll(text[..index])|;
            n <= |b| && b[..n] == Utf8.EncodeAll(text[..index]) && b[n..] == Utf8.EncodeAll(text[index..])
  {
    Utf8.EncodeAllAppend(text[..index], text[index..]);
    assert text == text[..index] + text[index..];
  }

  lemma InsertBytes(text: string, at: nat, c: char)
    ensures var b, n := Utf8.EncodeAll(text), |Utf8.EncodeAll(text[..Min(at, |text|)])|;
            n <= |b| && b[..n] + Utf8.Encode(c) + b[n..] == Utf8.EncodeAll(Insert(text, at, c))
  {
    var i := Min(at, |text|);
    SplitBytes(text, i);
    Utf8.EncodeAllAppend(text[..i], [c]);
    Utf8.EncodeAllAppend(text[..i] + [c], text[i..]);
    assert Utf8.EncodeAll([c]) == Utf8.Encode(c) by { OneCharacter(c); }
  }

  lemma OneCharacter(c: char)
    ensures Utf8.EncodeAll([c]) == Utf8.Encode(c)
  {
  }

  lemma DeleteBytes(text: string, at: nat)
    requires at < |text|
    ensures var b, n := Utf8.EncodeAll(text), |Utf8.EncodeAll(text[..at])|;
            var w := Utf8.Width(text[at]);
            && n + w <= |b|
            && Utf8.LeadDecode(b[n..]) == Some(Utf8.Decoded(text[at], w))
            && b[..n] + b[n + w..] == Utf8.EncodeAll(Delete(text, at))
  {
    hide Utf8.Encode, Utf8.LeadDecode;
    SplitBytes(text, at);
    var b, n := Utf8.EncodeAll(text), |Utf8.EncodeAll(text[..at])|;
    var rest := Utf8.EncodeAll(text[at + 1..]);
    assert text[at..][1..] == text[at + 1..];
    assert b[n..] == Utf8.Encode(text[at]) + rest;
    Utf8.LeadDecodeOfEncode(text[at], rest);
    assert b[n + Utf8.Width(text[at])..] == b[n..][Utf8.Width(text[at])..] == rest;
    Utf8.EncodeAllAppend(text[..at], text[at + 1..]);
  }

  // ---------------------------------------------------------------- the tracker

  class Tracker {
    /** The buffer: the bytes of a `String`. */
    var buffer: seq<Byte>
    var cursor: nat
    var active: bool

    /** The buffer is valid UTF-8. */
    ghost predicate Valid()
      reads this
    {
      Utf8.FromUtf8(buffer).Some?
    }

    /** The line the fields represent. */
    ghost function Contents(): (line: Line)
      requires Valid()
      reads this
      ensures buffer == Utf8.EncodeAll(line.text)
    {
      var text := Utf8.FromUtf8(buffer).value;
      Utf8.FromUtf8Exact(buffer, text);
      Line(text, cursor)
    }

    constructor ()
      ensures Valid() && Contents() == Line("", 0) && active
    {
      buffer, cursor, active := [], 0, true;
    }

    /** `char_indices().nth(index)`: walk over `index` characters, or to the end. */
    method CharToByte(index: nat) returns (at: nat)
      requires Valid()
      ensures at == ByteOffset(buffer, index)
    {
      hide Utf8.FromUtf8, Utf8.LeadDecode;
      at := 0;
      var i := 0;
      assert buffer[0..] == buffer;
      while at < |buffer| && i < index
        invariant at <= |buffer| && i <= index
        invariant Utf8.FromUtf8(buffer[at..]).Some?
        invariant at + ByteOffset(buffer[at..], index - i) == ByteOffset(buffer, index)
      {
        var decoded := Utf8.DecodeUtf8Char(buffer[at..]);
        StepOver(buffer[at..]);
        assert buffer[at..][decoded.value.len..] == buffer[at + decoded.value.len..];
        at := at + decoded.value.len;
        i := i + 1;
      }
    }

    method InsertChar(c: char)
      requires Valid()
      modifies `buffer, `cursor
      ensures Valid() && Contents() == Edited(old(Contents()), Char(c))
    {
      ghost var text := Contents().text;
      var bytePos := CharToByte(cursor);
      OffsetOfIndex(text, cursor);
      InsertBytes(text, cursor, c);
      buffer := buffer[..bytePos] + Utf8.Encode(c) + buffer[bytePos..];
      Utf8.FromUtf8Exact(buffer, Insert(text, cursor, c));
      cursor := cursor + 1;
    }

    method DeleteBefore()
      requires Valid() && cursor > 0
      modifies `buffer, `cursor
      ensures Valid() && Contents() == Edited(old(Contents()), Backspace)
    {
      hide Utf8.Encode, Utf8.LeadDecode, Utf8.FromUtf8, Utf8.EncodeAll;
      ghost var text := Contents().text;
      cursor := cursor - 1;
      var bytePos := CharToByte(cursor);
      OffsetOfIndex(text, cursor);
      var ch := Utf8.DecodeUtf8Char(buffer[bytePos..]);
      if cursor < |text| {
        DeleteBytes(text, cursor);
      } else {
        assert text[..|text|] == text;
        NothingToDecode(buffer[bytePos..]);
      }
      if ch.Some? {
        buffer := buffer[..bytePos] + buffer[bytePos + ch.value.len..];
      }
      Utf8.FromUtf8Exact(buffer, Delete(text, cursor));
    }

    method OnKey(event: KeyEvent) returns (changed: bool)
      requires Valid()
      modifies `buffer, `cursor
      ensures Valid() && Contents() == Edited(old(Contents()), event)
      ensures changed == Refreshes(old(Contents()), event)
    {
      match event {
        case Char(c) =>
          InsertChar(c);
          changed := true;
        case Backspace =>
          if cursor > 0 {
            DeleteBefore();
            changed := true;
          } else {
            changed := false;
          }
        case Enter =>
          buffer, cursor, changed := [], 0, true;
        case CtrlC =>
          buffer, cursor, changed := [], 0, true;
        case CtrlL =>
          changed := false;
        case ArrowLeft =>
          if cursor > 0 {
            cursor := cursor - 1;
          }
          changed := false;
        case ArrowRight =>
          var charLen := |Utf8.FromUtf8(buffer).value|;
          if cursor < charLen {
            cursor := cursor + 1;
          }
          changed := false;
        case _ =>
          changed := false;
      }
    }

    /** The shell's own report replaces the tracked line. */
    method Sync(newBuffer: seq<Byte>, newCursor: nat)
      requires Utf8.FromUtf8(newBuffer).Some?
      modifies `buffer, `cursor
      ensures Valid() && buffer == newBuffer && cursor == newCursor
    {
      buffer, cursor := newBuffer, newCursor;
    }
  }

  lemma NothingToDecode(bytes: seq<Byte>)
    requires bytes == []
    ensures Utf8.LeadDecode(bytes).None?
  {
  }

  lemma StepOver(bytes: seq<Byte>)
    requires Utf8.FromUtf8(bytes).Some? && bytes != []
    ensures var d := Utf8.LeadDecode(bytes);
            d.Some? && 1 <= d.value.len <= |bytes| && Utf8.FromUtf8(bytes[d.value.len..]).Some?
  {
  }

  // ---------------------------------------------------------------- whole runs

  /** What happens to a tracker: keys, and reports from the shell. */
  datatype Input = Pressed(key: KeyEvent) | Synced(text: string, at: nat)

  function Next(line: Line, input: Input): Line {
    match input
    case Pressed(key) => Edited(line, key)
    case Synced(text, at) => Line(text, at)
  }

  function After(line: Line, inputs: seq<Input>): Line
    decreases |inputs|
  {
    if inputs == [] then line else After(Next(line, inputs[0]), inputs[1..])
  }

  predicate InRange(line: Line) {
    line.cursor <= |line.text|
  }

  /** As long as the shell reports cursors inside its line, the cursor never leaves the line. */
  lemma {:induction false} CursorStaysInRange(line: Line, inputs: seq<Input>)
    requires InRange(line)
    requires forall i :: 0 <= i < |inputs| && inputs[i].Synced? ==> inputs[i].at <= |inputs[i].text|
    ensures InRange(After(line, inputs))
    decreases |inputs|
  {
    if inputs == [] {
    } else {
      CursorStaysInRange(Next(line, inputs[0]), inputs[1..]);
    }
  }

  /** The tracker follows the character editor over any run. */
  method Replay(inputs: seq<Input>) returns (t: Tracker)
    ensures fresh(t) && t.Valid() && t.Contents() == After(Line("", 0), inputs)
  {
    t := new Tracker();
    for i := 0 to |inputs|
      invariant fresh(t) && t.Valid()
      invariant After(t.Contents(), inputs[i..]) == After(Line("", 0), inputs)
    {
      assert inputs[i..][1..] == inputs[i + 1..];
      match inputs[i] {
        case Pressed(key) =>
          var _ := t.OnKey(key);
        case Synced(text, at) =>
          Utf8.FromUtf8Exact(Utf8.EncodeAll(text), text);
          t.Sync(Utf8.EncodeAll(text), at);
          Utf8.FromUtf8Exact(t.buffer, text);
      }
    }
  }

  /** Backspace undoes a typed character exactly when the cursor is inside the line. */
  lemma BackspaceUndoesChar(line: Line, c: char)
    ensures Edited(Edited(line, Char(c)), Backspace) == line <==> InRange(line)
  {
  }

  function KeysPressed(events: seq<KeyEvent>): seq<Input> {
    seq(|events|, i requires 0 <= i < |events| => Pressed(events[i]))
  }

  function Chars(text: string): seq<KeyEvent> {
    seq(|text|, i requires 0 <= i < |text| => Char(text[i]))
  }

  predicate IsPrintable(text: string) {
    forall i :: 0 <= i < |text| ==> text[i] as int >= 0x20 && text[i] as int != 0x7F
  }

  lemma {:induction false} ForwardedChars(text: string)
    ensures Forwarded(Chars(text)) == Utf8.EncodeAll(text)
  {
    if text == "" {
    } else {
      ForwardedChars(text[1..]);
      assert Chars(text)[1..] == Chars(text[1..]);
    }
  }

  lemma {:induction false} TypingAppends(done: string, text: string)
    ensures After(Line(done, |done|), KeysPressed(Chars(text))) == Line(done + text, |done| + |text|)
    decreases |text|
  {
    if text == "" {
      assert done + text == done;
    } else {
      TypingAppends(done + [text[0]], text[1..]);
      assert KeysPressed(Chars(text))[1..] == KeysPressed(Chars(text[1..]));
      assert Insert(done, |done|, text[0]) == done + [text[0]];
      assert done + [text[0]] + text[1..] == done + text;
    }
  }

  /** Typing the UTF-8 bytes of a printable text into an empty line yields that text. */
  lemma TypedTextIsTracked(text: string)
    requires IsPrintable(text)
    ensures var r := Read(Utf8.EncodeAll(text), false);
            !r.pending && After(Line("", 0), KeysPressed(r.events)) == Line(text, |text|)
  {
    ForwardedChars(text);
    RoundTrip(Chars(text));
    TypingAppends("", text);
    assert "" + text == text;
  }
}
