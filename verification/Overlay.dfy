/**
 The overlay renderer of src/render/overlay.rs, reduced to row and cursor commands. Text is a
 number of columns; colours are left out.
 */
module Overlay {
  import opened Prelude
  import opened Terminal

  datatype CompletionItem = CompletionItem(display: string, insert: string, description: string)

  const MAX_VISIBLE_ITEMS: nat := 10
  const MIN_POPUP_WIDTH: nat := 30
  const MAX_POPUP_WIDTH: nat := 70

  /** Rust's subtraction that stops at zero. */
  function SaturatingSub(a: nat, b: nat): nat {
    if a >= b then a - b else 0
  }

  function MaxWidth(cols: nat): nat {
    Min(SaturatingSub(cols, 2), MAX_POPUP_WIDTH)
  }

  /** `clamp(lo, hi)`, which panics when the bounds are out of order. */
  function Clamp(x: nat, lo: nat, hi: nat): Option<nat> {
    if lo > hi then None else if x < lo then Some(lo) else if x > hi then Some(hi) else Some(x)
  }

  function ContentWidth(item: CompletionItem): nat {
    2 + |item.display| + if item.description == "" then 0 else Min(|item.description|, 30) + 2
  }

  function WidestOf(items: seq<CompletionItem>): nat {
    if items == [] then 0 else Max(ContentWidth(items[|items| - 1]), WidestOf(items[..|items| - 1]))
  }

  /** The number of characters `truncate` leaves. */
  function TruncatedLength(length: nat, limit: nat): (n: nat)
    ensures n <= length && n <= limit
  {
    if length <= limit then length else if limit > 1 then limit else 0
  }

  /** The pieces of an item row: icon, name, and description or padding. */
  function ItemRow(item: CompletionItem, width: nat): seq<nat> {
    var name := TruncatedLength(|item.display|, SaturatingSub(width, 4));
    var remaining := SaturatingSub(width, 2 + name);
    if item.description != "" && remaining > 5 then
      var desc := TruncatedLength(|item.description|, SaturatingSub(remaining, 3));
      var pad := SaturatingSub(SaturatingSub(remaining, desc), 3);
      [2, name, pad + 1 + desc + 1]
    else
      [2, name, remaining]
  }

  function ItemRows(items: seq<CompletionItem>, width: nat): seq<seq<nat>> {
    seq(|items|, i requires 0 <= i < |items| => ItemRow(items[i], width))
  }

  function Digits(n: nat): nat {
    if n < 10 then 1 else 1 + Digits(n / 10)
  }

  /** The bottom border, with the count when not all items are shown. */
  function BottomRow(shown: nat, total: nat, width: nat): seq<nat> {
    var count := if total > MAX_VISIBLE_ITEMS then Digits(shown) + Digits(total) + 3 else 0;
    [SaturatingSub(width, count) + count]
  }

  function PopupRows(items: seq<CompletionItem>, width: nat): seq<seq<nat>> {
    var shown := items[..Min(|items|, MAX_VISIBLE_ITEMS)];
    [[width]] + ItemRows(shown, width) + [BottomRow(|shown|, |items|, width)]
  }

  function BlankRows(n: nat): (rows: seq<seq<nat>>)
    ensures |rows| == n && forall k :: 0 <= k < n ==> rows[k] == []
  {
    seq(n, _ => [])
  }

  /** Nothing to draw, the commands to draw it, or a panic. */
  datatype Rendered = NoItems | Commands(cmds: seq<Cmd>) | Panicked

  function PopupWidth(items: seq<CompletionItem>, cols: nat): Option<nat> {
    Clamp(WidestOf(items[..Min(|items|, MAX_VISIBLE_ITEMS)]), MIN_POPUP_WIDTH, MaxWidth(cols))
  }

  /** The popup drawn over whatever is there. */
  function Drawing(items: seq<CompletionItem>, cols: nat): Rendered {
    if items == [] then NoItems
    else
      var width := PopupWidth(items, cols);
      if width.None? then Panicked else Commands(Framed(Paint(PopupRows(items, width.value))))
  }

  /** The rows of an earlier popup cleared. */
  function Erasing(lines: nat): seq<Cmd> {
    Framed(Paint(BlankRows(lines + 2)))
  }

  /** The old popup cleared and the new one drawn, in one sequence. */
  function Redrawing(items: seq<CompletionItem>, cols: nat, prev: nat): Rendered {
    if prev == 0 || items == [] then Drawing(items, cols)
    else
      var width := PopupWidth(items, cols);
      if width.None? then Panicked
      else
        Commands([HideCursor, SaveCursor] + Paint(BlankRows(prev + 2)) + [RestoreCursor]
                 + Paint(PopupRows(items, width.value)) + [RestoreCursor, ShowCursor])
  }

  // ---------------------------------------------------------------- the implementation

  lemma {:induction false} PaintSnoc(lines: seq<seq<nat>>, last: seq<nat>)
    ensures Paint(lines + [last]) == Paint(lines) + NextRow(last)
  {
    hide NextRow;
    if lines == [] {
      assert [last][1..] == [];
      assert lines + [last] == [last];
    } else {
      PaintSnoc(lines[1..], last);
      assert (lines + [last])[1..] == lines[1..] + [last];
      Regroup(NextRow(lines[0]), Paint(lines[1..]), NextRow(last));
    }
  }

  lemma PaintOne(line: seq<nat>)
    ensures Paint([line]) == NextRow(line)
  {
  }

  method Widest(items: seq<CompletionItem>) returns (width: nat)
    ensures width == WidestOf(items)
  {
    width := 0;
    for i := 0 to |items|
      invariant width == WidestOf(items[..i])
    {
      width := Max(ContentWidth(items[i]), width);
      assert items[..i + 1][..i] == items[..i];
    }
    assert items[..|items|] == items;
  }

  method RenderPopup(items: seq<CompletionItem>, cols: nat) returns (r: Rendered)
    ensures r == Drawing(items, cols)
  {
    hide Paint, NextRow, ItemRow, WidestOf, BottomRow;
    if items == [] {
      return NoItems;
    }
    var visible := items[..Min(|items|, MAX_VISIBLE_ITEMS)];
    var content := Widest(visible);
    var clamped := Clamp(content, MIN_POPUP_WIDTH, MaxWidth(cols));
    if clamped.None? {
      return Panicked;
    }
    var width := clamped.value;
    var out := [HideCursor, SaveCursor];
    out := out + NextRow([width]);
    ghost var rows := [[width]];
    PaintOne([width]);
    for i := 0 to |visible|
      invariant rows == [[width]] + ItemRows(visible[..i], width)
      invariant out == [HideCursor, SaveCursor] + Paint(rows)
    {
      out := out + NextRow(ItemRow(visible[i], width));
      PaintSnoc(rows, ItemRow(visible[i], width));
      rows := rows + [ItemRow(visible[i], width)];
    }
    assert visible[..|visible|] == visible;
    PaintSnoc(rows, BottomRow(|visible|, |items|, width));
    out := out + NextRow(BottomRow(|visible|, |items|, width));
    assert out == [HideCursor, SaveCursor] + Paint(PopupRows(items, width));
    out := out + [RestoreCursor, ShowCursor];
    r := Commands(out);
  }

  /** Clear `total` rows below the cursor. */
  method ClearRows(total: nat) returns (out: seq<Cmd>)
    ensures out == Paint(BlankRows(total))
  {
    hide Paint, NextRow;
    out := [];
    assert Paint(BlankRows(0)) == [] by { NothingPainted(); }
    for i := 0 to total
      invariant out == Paint(BlankRows(i))
    {
      PaintSnoc(BlankRows(i), []);
      out := out + NextRow([]);
      assert BlankRows(i + 1) == BlankRows(i) + [[]];
    }
  }

  lemma NothingPainted()
    ensures Paint(BlankRows(0)) == []
  {
  }

  method ErasePopup(numLines: nat) returns (out: seq<Cmd>)
    ensures out == Erasing(numLines)
  {
    out := ClearRows(numLines + 2);
    out := [HideCursor, SaveCursor] + out + [RestoreCursor, ShowCursor];
  }

  method RenderPopupInplace(items: seq<CompletionItem>, cols: nat, prevLines: nat) returns (r: Rendered)
    ensures r == Redrawing(items, cols, prevLines)
  {
    if prevLines == 0 {
      r := RenderPopup(items, cols);
      return;
    }
    var out := [HideCursor, SaveCursor];
    var cleared := ClearRows(prevLines + 2);
    out := out + cleared + [RestoreCursor];
    r := RenderPopup(items, cols);
    if r.Commands? {
      hide Paint, PopupRows;
      // The frame has been opened already, so the drawing goes in without its first two commands.
      r := Commands(out + r.cmds[2..]);
      var width := PopupWidth(items, cols).value;
      var rows := Paint(PopupRows(items, width));
      assert (Framed(rows))[2..] == rows + [RestoreCursor, ShowCursor];
    }
  }

  // ---------------------------------------------------------------- what is on the screen afterwards

  /** Drawing panics exactly when there is something to draw and fewer than 32 columns. */
  lemma PanicsIffTooNarrow(items: seq<CompletionItem>, cols: nat, prev: nat)
    ensures Redrawing(items, cols, prev) == Panicked <==> items != [] && cols < 32
  {
  }

  lemma RowsFit(items: seq<CompletionItem>, cols: nat)
    requires 0 < |items| <= MAX_VISIBLE_ITEMS && cols >= 32
    ensures PopupWidth(items, cols).Some?
    ensures var width := PopupWidth(items, cols).value;
            && 30 <= width <= cols - 2
            && |PopupRows(items, width)| == |items| + 2
            && forall k :: 0 <= k < |items| + 2 ==> 0 < Sum(PopupRows(items, width)[k]) <= width
  {
    var width := PopupWidth(items, cols).value;
    var rows := PopupRows(items, width);
    forall k | 0 <= k < |items| + 2
      ensures 0 < Sum(rows[k]) <= width
    {
      if k == 0 || k == |items| + 1 {
        assert rows[k] == [width];
      } else {
        assert rows[k] == ItemRow(items[k - 1], width);
        SumOfThree(rows[k]);
      }
    }
  }

  /** The columns an item asks for: icon, name, and up to thirty columns of description with a gap. */
  function WidthNeeded(item: CompletionItem): nat {
    var d := |item.description|;
    2 + |item.display| + if d == 0 then 0 else if d > 30 then 32 else d + 2
  }

  lemma {:induction false} WidestIsLeast(items: seq<CompletionItem>)
    ensures forall k :: 0 <= k < |items| ==> WidthNeeded(items[k]) <= WidestOf(items)
    ensures items != [] ==> exists k :: 0 <= k < |items| && WidthNeeded(items[k]) == WidestOf(items)
  {
    if items == [] {
    } else {
      var n := |items| - 1;
      WidestIsLeast(items[..n]);
      assert forall k :: 0 <= k < n ==> items[..n][k] == items[k];
      if WidestOf(items) != WidthNeeded(items[n]) {
        var k :| 0 <= k < n && WidthNeeded(items[..n][k]) == WidestOf(items[..n]);
        assert WidthNeeded(items[k]) == WidestOf(items);
      }
    }
  }

  /**
   The popup is as wide as the widest of the items shown needs, but at least 30 columns, and at
   most 70 and two less than the terminal has.
   */
  lemma WidthMeans(items: seq<CompletionItem>, cols: nat)
    requires items != [] && cols >= 32
    ensures PopupWidth(items, cols).Some?
    ensures var width, most := PopupWidth(items, cols).value, if cols >= 72 then 70 else cols - 2;
            && 30 <= width <= most
            && (width < most ==> forall k :: 0 <= k < |items| && k < 10 ==> WidthNeeded(items[k]) <= width)
            && (width > 30 ==> exists k :: 0 <= k < |items| && k < 10 && WidthNeeded(items[k]) >= width)
  {
    hide WidestOf, WidthNeeded;
    var shown := items[..Min(|items|, 10)];
    WidestIsLeast(shown);
    assert forall k :: 0 <= k < |shown| ==> shown[k] == items[k];
  }

  lemma SumOfThree(w: seq<nat>)
    requires |w| == 3
    ensures Sum(w) == w[0] + w[1] + w[2]
  {
    var two, one := w[1..], w[2..];
    assert two[1..] == one && one[1..] == [];
    assert Sum(one) == w[2];
    assert Sum(two) == w[1] + w[2];
  }

  /** Below the cursor, exactly the rows `first` to `last` hold popup text; the others are blank. */
  predicate DrawnBetween(s: Screen, first: nat, last: nat) {
    forall i :: s.row < i < |s.rows| ==>
      if s.row + first <= i <= s.row + last then s.rows[i].Drawn? else s.rows[i] == Blank
  }

  /** A popup of `lines` items with its two borders, or none at all. */
  predicate ShowsBelow(s: Screen, lines: nat) {
    DrawnBetween(s, 1, if lines > 0 then lines + 2 else 0)
  }

  /** What a redraw or an erasure leaves alone: the cursor, the rows above, and the row of the cursor. */
  predicate Undisturbed(s: Screen, s': Screen) {
    && |s'.rows| == |s.rows| && s'.cols == s.cols && s'.row == s.row && s'.col == s.col
    && s'.wrapped == s.wrapped && s'.cursorVisible
    && forall i :: 0 <= i <= s.row && i < |s.rows| ==> s'.rows[i] == s.rows[i]
  }

  lemma {:induction false} BlankRowsFit(n: nat, cols: nat)
    ensures Fits(BlankRows(n), cols)
  {
  }

  /** An erasure of `erased` lines leaves the popup rows further down. */
  lemma ErasingClears(s: Screen, lines: nat, erased: nat)
    requires IsScreen(s) && s.row + Max(lines, erased) + 2 < |s.rows| && ShowsBelow(s, lines)
    ensures var s' := Interp(Erasing(erased), s);
            Undisturbed(s, s') && DrawnBetween(s', erased + 3, if lines > 0 then lines + 2 else 0)
  {
    hide Interp;
    BlankRowsFit(erased + 2, s.cols);
    ExecFramedPaint(BlankRows(erased + 2), s);
  }

  /** An erasure removes the popup exactly when it covers as many lines as were drawn. */
  lemma ErasedIffCovered(s: Screen, lines: nat, erased: nat)
    requires IsScreen(s) && s.row + Max(lines, erased) + 2 < |s.rows| && ShowsBelow(s, lines)
    ensures ShowsBelow(Interp(Erasing(erased), s), 0) <==> lines <= erased
  {
    ErasingClears(s, lines, erased);
    hide Erasing, Interp;
    var s' := Interp(Erasing(erased), s);
    if lines > erased {
      assert s'.rows[s'.row + lines + 2].Drawn?;
    }
  }

  /** A redraw shows exactly the new popup, whatever popup was shown before. */
  lemma RedrawingShows(s: Screen, items: seq<CompletionItem>, prev: nat)
    requires IsScreen(s) && 0 < |items| <= MAX_VISIBLE_ITEMS && s.cols >= 32
    requires s.row + Max(prev, |items|) + 2 < |s.rows| && ShowsBelow(s, prev)
    ensures Redrawing(items, s.cols, prev).Commands?
    ensures var s' := Interp(Redrawing(items, s.cols, prev).cmds, s); Undisturbed(s, s') && ShowsBelow(s', |items|)
  {
    hide Interp, PopupRows, PopupWidth, Paint;
    RowsFit(items, s.cols);
    var rows := PopupRows(items, PopupWidth(items, s.cols).value);
    assert Fits(rows, s.cols);
    if prev == 0 {
      ExecFramedPaint(rows, s);
    } else {
      RedrawIsEraseThenDraw(s, prev, rows);
      BlankRowsFit(prev + 2, s.cols);
    }
    DrawnRows(rows);
  }

  lemma DrawnRows(rows: seq<seq<nat>>)
    requires forall k :: 0 <= k < |rows| ==> 0 < Sum(rows[k])
    ensures forall k :: 0 <= k < |rows| ==> RowOf(Sum(rows[k])).Drawn?
  {
  }

  lemma RedrawIsEraseThenDraw(s: Screen, prev: nat, rows: seq<seq<nat>>)
    requires IsScreen(s) && Fits(rows, s.cols)
    requires s.row + prev + 2 < |s.rows| && s.row + |rows| < |s.rows|
    ensures var cmds := [HideCursor, SaveCursor] + Paint(BlankRows(prev + 2)) + [RestoreCursor]
                        + Paint(rows) + [RestoreCursor, ShowCursor];
            Interp(cmds, s) ==
              s.(rows := Painted(Painted(s.rows, s.row, BlankRows(prev + 2)), s.row, rows),
                 savedRow := s.row, savedCol := s.col, cursorVisible := true)
  {
    hide Paint, Painted, Fits;
    var open, back, close := [HideCursor, SaveCursor], [RestoreCursor], [RestoreCursor, ShowCursor];
    var s1 := s.(cursorVisible := false, savedRow := s.row, savedCol := s.col);
    OpenAndClose(s);
    BlankRowsFit(prev + 2, s.cols);
    ExecPaint(BlankRows(prev + 2), s1);
    var s2 := Interp(Paint(BlankRows(prev + 2)), s1);
    OpenAndClose(s2);
    var s3 := s2.(row := s2.savedRow, col := s2.savedCol);
    ExecPaint(rows, s3);
    var s4 := Interp(Paint(rows), s3);
    OpenAndClose(s4);
    hide Interp;
    InterpAppend(open, Paint(BlankRows(prev + 2)), s);
    InterpAppend(open + Paint(BlankRows(prev + 2)), back, s);
    InterpAppend(open + Paint(BlankRows(prev + 2)) + back, Paint(rows), s);
    InterpAppend(open + Paint(BlankRows(prev + 2)) + back + Paint(rows), close, s);
  }

  lemma OpenAndClose(s: Screen)
    requires IsScreen(s)
    ensures Interp([HideCursor, SaveCursor], s) == s.(cursorVisible := false, savedRow := s.row, savedCol := s.col)
    ensures Interp([RestoreCursor], s) == s.(row := s.savedRow, col := s.savedCol)
    ensures Interp([RestoreCursor, ShowCursor], s) == s.(row := s.savedRow, col := s.savedCol, cursorVisible := true)
  {
  }
}
