/**
 An abstract terminal: which rows are blank, drawn on, or belong to the shell; where the cursor
 is and where it was saved. Enough to say what a sequence of overlay commands leaves behind.
 */
module Terminal {
  import opened Prelude

  /** A row holds nothing, popup text of some width, or output of the shell. */
  datatype Row = Blank | Drawn(width: nat) | Shell(id: nat)

  datatype Cmd =
    | HideCursor
    | ShowCursor
    | SaveCursor
    | RestoreCursor
    | LineFeed
    | CarriageReturn
    | EraseLine
    | Print(width: nat)

  datatype Screen = Screen(
    rows: seq<Row>,
    cols: nat,
    row: nat,
    col: nat,
    savedRow: nat,
    savedCol: nat,
    cursorVisible: bool,
    /** Some text ran past the last column, so that row accounting is lost. */
    wrapped: bool)

  predicate IsScreen(s: Screen) {
    s.row < |s.rows| && s.savedRow < |s.rows|
  }

  /** The effect of one command. A line feed on the bottom row scrolls. */
  function Exec(c: Cmd, s: Screen): (r: Screen)
    requires IsScreen(s)
    ensures IsScreen(r)
  {
    match c
    case HideCursor => s.(cursorVisible := false)
    case ShowCursor => s.(cursorVisible := true)
    case SaveCursor => s.(savedRow := s.row, savedCol := s.col)
    case RestoreCursor => s.(row := s.savedRow, col := s.savedCol)
    case LineFeed =>
      if s.row + 1 < |s.rows| then s.(row := s.row + 1)
      else s.(rows := s.rows[1..] + [Blank])
    case CarriageReturn => s.(col := 0)
    case EraseLine => s.(rows := s.rows[s.row := Blank])
    case Print(n) =>
      if n == 0 then s
      else if s.col + n > s.cols then s.(wrapped := true)
      else s.(rows := s.rows[s.row := Drawn(s.col + n)], col := s.col + n)
  }

  function Interp(cmds: seq<Cmd>, s: Screen): (r: Screen)
    requires IsScreen(s)
    ensures IsScreen(r)
    decreases |cmds|
  {
    if cmds == [] then s else Interp(cmds[1..], Exec(cmds[0], s))
  }

  lemma {:induction false} InterpAppend(a: seq<Cmd>, b: seq<Cmd>, s: Screen)
    requires IsScreen(s)
    ensures Interp(a + b, s) == Interp(b, Interp(a, s))
    decreases |a|
  {
    if a == [] {
      assert a + b == b;
    } else {
      assert (a + b)[1..] == a[1..] + b;
      InterpAppend(a[1..], b, Exec(a[0], s));
    }
  }

  // ---------------------------------------------------------------- painting rows downwards

  function Sum(widths: seq<nat>): nat {
    if widths == [] then 0 else widths[0] + Sum(widths[1..])
  }

  function Prints(widths: seq<nat>): seq<Cmd> {
    if widths == [] then [] else [Print(widths[0])] + Prints(widths[1..])
  }

  /** Go to the start of the next row, clear it, and write pieces of text. */
  function NextRow(widths: seq<nat>): seq<Cmd> {
    [LineFeed, CarriageReturn, EraseLine] + Prints(widths)
  }

  function Paint(lines: seq<seq<nat>>): seq<Cmd> {
    if lines == [] then [] else NextRow(lines[0]) + Paint(lines[1..])
  }

  function RowOf(width: nat): Row {
    if width == 0 then Blank else Drawn(width)
  }

  lemma {:induction false} ExecPrints(widths: seq<nat>, s: Screen)
    requires IsScreen(s) && s.col + Sum(widths) <= s.cols && s.rows[s.row] == RowOf(s.col)
    ensures Interp(Prints(widths), s) ==
            s.(rows := s.rows[s.row := RowOf(s.col + Sum(widths))], col := s.col + Sum(widths))
    decreases |widths|
  {
    if widths == [] {
      assert s.rows[s.row := RowOf(s.col)] == s.rows;
    } else {
      var s' := Exec(Print(widths[0]), s);
      assert Prints(widths)[1..] == Prints(widths[1..]);
      ExecPrints(widths[1..], s');
      var end := RowOf(s.col + Sum(widths));
      assert s'.rows[s.row := end] == s.rows[s.row := end];
    }
  }

  lemma ExecNextRow(widths: seq<nat>, s: Screen)
    requires IsScreen(s) && s.row + 1 < |s.rows| && Sum(widths) <= s.cols
    ensures Interp(NextRow(widths), s) ==
            s.(rows := s.rows[s.row + 1 := RowOf(Sum(widths))], row := s.row + 1, col := Sum(widths))
  {
    var s1 := Exec(LineFeed, s);
    var s2 := Exec(CarriageReturn, s1);
    var s3 := Exec(EraseLine, s2);
    var head := [LineFeed, CarriageReturn, EraseLine];
    assert Interp(head, s) == s3 by {
      assert head[1..] == [CarriageReturn, EraseLine] && head[1..][1..] == [EraseLine] && head[1..][1..][1..] == [];
    }
    InterpAppend(head, Prints(widths), s);
    ExecPrints(widths, s3);
    assert s3.rows[s.row + 1 := RowOf(Sum(widths))] == s.rows[s.row + 1 := RowOf(Sum(widths))];
  }

  /** The rows after painting `lines` below row `at`. */
  function Painted(rows: seq<Row>, at: nat, lines: seq<seq<nat>>): (r: seq<Row>)
    requires at + |lines| < |rows|
    ensures |r| == |rows|
    ensures forall i :: 0 <= i < |rows| ==>
              r[i] == if at < i <= at + |lines| then RowOf(Sum(lines[i - at - 1])) else rows[i]
  {
    seq(|rows|, i requires 0 <= i < |rows| =>
      if at < i <= at + |lines| then RowOf(Sum(lines[i - at - 1])) else rows[i])
  }

  predicate Fits(lines: seq<seq<nat>>, cols: nat) {
    forall k :: 0 <= k < |lines| ==> Sum(lines[k]) <= cols
  }

  lemma {:induction false} ExecPaint(lines: seq<seq<nat>>, s: Screen)
    requires IsScreen(s) && s.row + |lines| < |s.rows| && Fits(lines, s.cols)
    ensures var r := Interp(Paint(lines), s);
            && r.rows == Painted(s.rows, s.row, lines)
            && r == s.(rows := r.rows, row := r.row, col := r.col)
    decreases |lines|
  {
    hide Exec, NextRow, Sum;
    if lines == [] {
      assert Painted(s.rows, s.row, lines) == s.rows;
    } else {
      var first, rest := NextRow(lines[0]), Paint(lines[1..]);
      ExecNextRow(lines[0], s);
      var s' := Interp(first, s);
      InterpAppend(first, rest, s);
      ExecPaint(lines[1..], s');
      assert Painted(s.rows, s.row, lines) == Painted(s'.rows, s'.row, lines[1..]);
    }
  }

  /** Painting between saving and restoring the cursor, the cursor hidden meanwhile. */
  function Framed(cmds: seq<Cmd>): seq<Cmd> {
    [HideCursor, SaveCursor] + cmds + [RestoreCursor, ShowCursor]
  }

  lemma ExecFramedPaint(lines: seq<seq<nat>>, s: Screen)
    requires IsScreen(s) && s.row + |lines| < |s.rows| && Fits(lines, s.cols)
    ensures Interp(Framed(Paint(lines)), s) ==
            s.(rows := Painted(s.rows, s.row, lines), savedRow := s.row, savedCol := s.col, cursorVisible := true)
  {
    var open, close := [HideCursor, SaveCursor], [RestoreCursor, ShowCursor];
    var s1 := s.(cursorVisible := false, savedRow := s.row, savedCol := s.col);
    assert Interp(open, s) == s1 by { assert open[1..] == [SaveCursor] && open[1..][1..] == []; }
    ExecPaint(lines, s1);
    var s2 := Interp(Paint(lines), s1);
    InterpAppend(open, Paint(lines), s);
    InterpAppend(open + Paint(lines), close, s);
    assert close[1..] == [ShowCursor] && close[1..][1..] == [];
  }
}
