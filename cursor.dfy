/** The editing cursor and its four movement rules (src/cursor.rs).

    The movement rules are stated once, as functions on a `Position` value
    (`Up`, `Down`, `Left`, `Right`); the class `Cursor` updates its two fields in
    place and each of its methods is proved to land exactly where the matching
    function says. The lemmas relate the moves to each other and to a linear
    offset through the document. */
module Cursor {
  import opened Text

  /** A `(line, column)` pair; both are `usize` in the source, so never negative. */
  datatype Position = Position(line: nat, column: nat)

  /** The position names an existing line and a column inside it or just past its end. */
  predicate Valid(p: Position, lines: seq<Line>) {
    p.line < |lines| && p.column <= |lines[p.line]|
  }

  /** `move_up`: nothing at the first line; otherwise one line up, with the column
      cut down to the length of that line when it does not fit. */
  function Up(p: Position, lines: seq<Line>): Position
    requires p.line <= |lines|
  {
    if p.line == 0 then p
    else
      var len := |lines[p.line - 1]|;
      Position(p.line - 1, if p.column > len then len else p.column)
  }

  /** `move_down`: nothing at the last line; otherwise one line down, with the column
      cut down as in `Up`. */
  function Down(p: Position, lines: seq<Line>): Position
    requires p.line < |lines|
  {
    if p.line + 1 == |lines| then p
    else
      var len := |lines[p.line + 1]|;
      Position(p.line + 1, if p.column > len then len else p.column)
  }

  /** `move_left`: nothing at the top left corner; from the start of a line to the end
      of the line above; otherwise one column to the left. */
  function Left(p: Position, lines: seq<Line>): Position
    requires p.column == 0 ==> p.line <= |lines|
  {
    if p.column == 0 && p.line == 0 then p
    else if p.column == 0 then Position(p.line - 1, |lines[p.line - 1]|)
    else Position(p.line, p.column - 1)
  }

  /** `move_right`: nothing at the end of the last line; from the end of a line to the
      start of the next one; otherwise one column to the right. */
  function Right(p: Position, lines: seq<Line>): Position
    requires p.line < |lines|
  {
    var len := |lines[p.line]|;
    if p.column == len && p.line + 1 == |lines| then p
    else if p.column == len then Position(p.line + 1, 0)
    else Position(p.line, p.column + 1)
  }

  /** `q` is `p`'s column clamped to line `q.line`: the old column when it fits the
      line, that line's length when it does not. */
  predicate Clamped(q: Position, p: Position, lines: seq<Line>)
    requires q.line < |lines|
  {
    q.column <= p.column && q.column <= |lines[q.line]| &&
    (q.column == p.column || q.column == |lines[q.line]|)
  }

  lemma UpClamps(p: Position, lines: seq<Line>)
    requires p.line <= |lines|
    ensures p.line == 0 ==> Up(p, lines) == p
    ensures p.line > 0 ==> Up(p, lines).line == p.line - 1 && Clamped(Up(p, lines), p, lines)
  {
  }

  lemma DownClamps(p: Position, lines: seq<Line>)
    requires p.line < |lines|
    ensures p.line + 1 == |lines| ==> Down(p, lines) == p
    ensures p.line + 1 < |lines| ==> Down(p, lines).line == p.line + 1 && Clamped(Down(p, lines), p, lines)
  {
  }

  /** From a valid position every move lands on a valid position. */
  lemma MovesKeepValid(p: Position, lines: seq<Line>)
    requires Valid(p, lines)
    ensures Valid(Up(p, lines), lines)
    ensures Valid(Down(p, lines), lines)
    ensures Valid(Left(p, lines), lines)
    ensures Valid(Right(p, lines), lines)
  {
  }

  /** Each move does nothing exactly at its own edge of the document. */
  lemma NoOpsAtEdges(p: Position, lines: seq<Line>)
    requires Valid(p, lines)
    ensures Up(p, lines) == p <==> p.line == 0
    ensures Down(p, lines) == p <==> p.line == |lines| - 1
    ensures Left(p, lines) == p <==> p == Position(0, 0)
    ensures Right(p, lines) == p <==> p == Position(|lines| - 1, |lines[|lines| - 1]|)
  {
  }

  /** Whenever `move_right` moves, `move_left` takes the cursor back. This holds from
      any position `move_right` accepts, valid or not. */
  lemma LeftUndoesRight(p: Position, lines: seq<Line>)
    requires p.line < |lines| && Right(p, lines) != p
    ensures Left(Right(p, lines), lines) == p
  {
  }

  /** Whenever `move_left` moves from a valid position, `move_right` takes the cursor back. */
  lemma RightUndoesLeft(p: Position, lines: seq<Line>)
    requires Valid(p, lines) && Left(p, lines) != p
    ensures Right(Left(p, lines), lines) == p
  {
  }

  /** Moving down and then up returns to the same line, never to a wider column. */
  lemma UpAfterDown(p: Position, lines: seq<Line>)
    requires p.line < |lines| && Down(p, lines) != p
    ensures Up(Down(p, lines), lines).line == p.line
    ensures Up(Down(p, lines), lines).column <= p.column
  {
  }

  /** The number of bytes and line breaks before line `k`: the sum over `j < k`
      of `|lines[j]| + 1`. */
  function LineStart(lines: seq<Line>, k: nat): nat
    requires k <= |lines|
  {
    if k == 0 then 0 else LineStart(lines, k - 1) + |lines[k - 1]| + 1
  }

  /** The position's place in the document read as one stream in which each line
      break is one more step. */
  function Offset(p: Position, lines: seq<Line>): nat
    requires p.line < |lines|
  {
    LineStart(lines, p.line) + p.column
  }

  /** The offset of the end of the last line. */
  function DocumentEnd(lines: seq<Line>): nat
    requires |lines| > 0
  {
    LineStart(lines, |lines| - 1) + |lines[|lines| - 1]|
  }

  /** Every line starts after the end of all lines before it. */
  lemma {:induction false} LineStartGrows(lines: seq<Line>, i: nat, j: nat)
    requires i < j <= |lines|
    ensures LineStart(lines, i) + |lines[i]| < LineStart(lines, j)
  {
    if j > i + 1 {
      LineStartGrows(lines, i, j - 1);
    }
  }

  /** Different valid positions have different offsets. */
  lemma OffsetInjective(p: Position, q: Position, lines: seq<Line>)
    requires Valid(p, lines) && Valid(q, lines)
    requires Offset(p, lines) == Offset(q, lines)
    ensures p == q
  {
    if p.line < q.line {
      LineStartGrows(lines, p.line, q.line);
    } else if q.line < p.line {
      LineStartGrows(lines, q.line, p.line);
    }
  }

  /** Valid positions lie between offset 0 and the end of the document. */
  lemma OffsetBounded(p: Position, lines: seq<Line>)
    requires Valid(p, lines)
    ensures Offset(p, lines) <= DocumentEnd(lines)
  {
    if p.line < |lines| - 1 {
      LineStartGrows(lines, p.line, |lines| - 1);
    }
  }

  /** `move_right` walks the document one step at a time: it stays put exactly at the
      document's end and otherwise advances the offset by one. */
  lemma RightStepsForward(p: Position, lines: seq<Line>)
    requires Valid(p, lines)
    ensures Right(p, lines) == p <==> Offset(p, lines) == DocumentEnd(lines)
    ensures Right(p, lines) != p ==>
              Valid(Right(p, lines), lines) && Offset(Right(p, lines), lines) == Offset(p, lines) + 1
  {
    OffsetBounded(p, lines);
    var last := Position(|lines| - 1, |lines[|lines| - 1]|);
    if Offset(p, lines) == DocumentEnd(lines) {
      OffsetInjective(p, last, lines);
    }
  }

  /** `move_left` walks back one step at a time: it stays put exactly at offset 0 and
      otherwise takes the offset down by one. */
  lemma LeftStepsBack(p: Position, lines: seq<Line>)
    requires Valid(p, lines)
    ensures Left(p, lines) == p <==> Offset(p, lines) == 0
    ensures Left(p, lines) != p ==>
              Valid(Left(p, lines), lines) && Offset(Left(p, lines), lines) == Offset(p, lines) - 1
  {
    if Offset(p, lines) == 0 {
      OffsetInjective(p, Position(0, 0), lines);
    }
  }

  /** The editor's cursor: its two fields change in place as the user moves. */
  class Cursor {
    var line: nat
    var column: nat

    /** `Cursor::new`. */
    constructor (line: nat, column: nat)
      ensures this.line == line && this.column == column
    {
      this.line := line;
      this.column := column;
    }

    function Pos(): Position
      reads this
    {
      Position(line, column)
    }

    /** `move_up`; the source indexes `lines[line - 1]`, so that line must exist. */
    method MoveUp(lines: seq<Line>)
      requires line <= |lines|
      modifies this
      ensures Pos() == Up(old(Pos()), lines)
      ensures Valid(old(Pos()), lines) ==> Valid(Pos(), lines)
    {
      if line != 0 {
        line := line - 1;
        var len := |lines[line]|;
        if column > len {
          column := len;
        }
      }
    }

    /** `move_down`; the source indexes `lines[line + 1]` unless `line` is the last
        line, so `line` must be an existing line. */
    method MoveDown(lines: seq<Line>)
      requires line < |lines|
      modifies this
      ensures Pos() == Down(old(Pos()), lines)
      ensures Valid(old(Pos()), lines) ==> Valid(Pos(), lines)
    {
      if line + 1 != |lines| {
        line := line + 1;
        var len := |lines[line]|;
        if column > len {
          column := len;
        }
      }
    }

    /** `move_left`; at column 0 below the first line the source indexes the line above. */
    method MoveLeft(lines: seq<Line>)
      requires column == 0 ==> line <= |lines|
      modifies this
      ensures Pos() == Left(old(Pos()), lines)
      ensures Valid(old(Pos()), lines) ==> Valid(Pos(), lines)
    {
      if column == 0 && line == 0 {
        return;
      }
      if column == 0 {
        line := line - 1;
        column := |lines[line]|;
      } else {
        column := column - 1;
      }
    }

    /** `move_right`; the source reads the length of the cursor's own line first. */
    method MoveRight(lines: seq<Line>)
      requires line < |lines|
      modifies this
      ensures Pos() == Right(old(Pos()), lines)
      ensures Valid(old(Pos()), lines) ==> Valid(Pos(), lines)
    {
      var lineLen := |lines[line]|;
      if column == lineLen && line + 1 == |lines| {
        return;
      }
      if column == lineLen {
        line := line + 1;
        column := 0;
      } else {
        column := column + 1;
      }
    }
  }
}
