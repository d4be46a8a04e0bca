/** The text buffers and their container (src/backend.rs).

    The file system is abstracted away: loading takes the outcome of opening and
    reading the file (its bytes, or the error), and saving takes the outcome of
    creating the file and of each write, and returns the bytes the file then holds.
    What remains is a splitter (`Lines`, the line rule of Rust's `str::lines`) and a
    serialiser (`Serialize`, one `writeln!` per line), with their round trips. */
module Backend {
  import opened Text
  import opened Wrappers
  import Cursor

  /** The errors the core can report. `NoFileToWriteTo` is the one `save` builds
      itself; `Os` stands for any error the file system reports (including a file
      that is not valid UTF-8 when it is read). */
  datatype IoError = NoFileToWriteTo | Os(code: int)

  // ---------------------------------------------------------------------------
  // Splitting file contents into lines

  /** The index of the first line feed in `s`, or `|s|` when there is none. */
  function LineEnd(s: seq<byte>): (i: nat)
    ensures i <= |s|
    ensures forall j :: 0 <= j < i ==> s[j] != LF
    ensures i < |s| ==> s[i] == LF
  {
    if s == [] || s[0] == LF then 0 else 1 + LineEnd(s[1..])
  }

  /** `i` is where the first line ends when no line feed comes before it and it is
      either a line feed or the end of `s`. */
  lemma {:induction false} LineEndAt(s: seq<byte>, i: nat)
    requires i <= |s| && (i < |s| ==> s[i] == LF)
    requires forall j :: 0 <= j < i ==> s[j] != LF
    ensures LineEnd(s) == i
  {
    if i > 0 {
      LineEndAt(s[1..], i - 1);
    }
  }

  /** Drops one carriage return from the end of a line, if there is one. */
  function StripCR(piece: Line): Line {
    if |piece| > 0 && piece[|piece| - 1] == CR then piece[..|piece| - 1] else piece
  }

  /** The lines of `s` as Rust's `str::lines` yields them: the pieces between line
      feeds, without an empty piece after a final line feed (so empty contents have
      no lines at all), each with one trailing carriage return removed. */
  function Lines(s: seq<byte>): seq<Line>
    decreases |s|
  {
    if s == [] then []
    else
      var i := LineEnd(s);
      [StripCR(s[..i])] + (if i == |s| then [] else Lines(s[i + 1..]))
  }

  /** The search of the `str::lines` iterator for the end of the next line: the
      first line feed in `rest`, or the end of `rest` when it has none. */
  method FindLineFeed(rest: seq<byte>) returns (stop: nat)
    ensures stop == LineEnd(rest)
  {
    stop := 0;
    while stop < |rest| && rest[stop] != LF
      invariant stop <= |rest|
      invariant forall j :: 0 <= j < stop ==> rest[j] != LF
    {
      stop := stop + 1;
    }
    LineEndAt(rest, stop);
  }

  /** The loop of `from_file` over `contents.lines()`. Like Rust's iterator it keeps
      the part of the contents not yet split; each pass finds the end of the next
      line, strips one carriage return from its end and pushes it. */
  method SplitLines(contents: seq<byte>) returns (lines: seq<Line>)
    ensures lines == Lines(contents)
  {
    lines := [];
    var rest := contents;
    while rest != []
      invariant lines + Lines(rest) == Lines(contents)
      decreases |rest|
    {
      var stop := FindLineFeed(rest);
      var line := StripCR(rest[..stop]);
      var next := if stop == |rest| then [] else rest[stop + 1..];
      FirstLine(rest);
      assert (lines + [line]) + Lines(next) == lines + ([line] + Lines(next));
      lines := lines + [line];
      rest := next;
    }
  }

  /** The lines of non-empty `s`: the first one, then the lines after its line feed. */
  lemma FirstLine(s: seq<byte>)
    requires s != []
    ensures Lines(s) == [StripCR(s[..LineEnd(s)])] + Lines(if LineEnd(s) == |s| then [] else s[LineEnd(s) + 1..])
  {
  }

  // ---------------------------------------------------------------------------
  // Writing lines out

  /** What `save` writes: every line followed by a line feed, the last one included. */
  function Serialize(lines: seq<Line>): seq<byte> {
    if lines == [] then [] else lines[0] + [LF] + Serialize(lines[1..])
  }

  lemma {:induction false} SerializeAppend(a: seq<Line>, b: seq<Line>)
    ensures Serialize(a + b) == Serialize(a) + Serialize(b)
  {
    if a == [] {
      assert a + b == b;
    } else {
      assert (a + b)[1..] == a[1..] + b;
      SerializeAppend(a[1..], b);
    }
  }

  /** A line that survives a save and a reload unchanged: no line feed inside it and
      no carriage return at its end. */
  predicate IsLine(l: Line) {
    LF !in l && !(|l| > 0 && l[|l| - 1] == CR)
  }

  /** Round trip: reloading what `save` wrote gives back the same lines. */
  lemma {:induction false} LoadAfterSave(lines: seq<Line>)
    requires forall k :: 0 <= k < |lines| ==> IsLine(lines[k])
    ensures Lines(Serialize(lines)) == lines
  {
    if lines != [] {
      var l := lines[0];
      var tail := Serialize(lines[1..]);
      var s := Serialize(lines);
      assert s == l + [LF] + tail;
      assert IsLine(l);
      forall j | 0 <= j < |l| ensures s[j] != LF {
        assert s[j] == l[j];
      }
      LineEndAt(s, |l|);
      assert s[..|l|] == l;
      assert s[|l| + 1..] == tail;
      LoadAfterSave(lines[1..]);
    }
  }

  /** The other direction: contents that hold no carriage return and end with a line
      feed (or are empty) are exactly what saving their lines writes. */
  lemma {:induction false} SaveAfterLoad(s: seq<byte>)
    requires CR !in s
    requires s == [] || s[|s| - 1] == LF
    ensures Serialize(Lines(s)) == s
  {
    if s != [] {
      var i := LineEnd(s);
      var first, rest := s[..i], s[i + 1..];
      FirstLineOfSaved(s, i);
      SaveAfterLoad(rest);
      assert ([first] + Lines(rest))[1..] == Lines(rest);
    }
  }

  /** How `SaveAfterLoad` takes apart non-empty contents at their first line feed
      `i`: the first line keeps all its bytes, and what follows the line feed has the
      same shape as `s`. */
  lemma FirstLineOfSaved(s: seq<byte>, i: nat)
    requires s != [] && CR !in s && s[|s| - 1] == LF
    requires i == LineEnd(s)
    ensures i < |s| && s == s[..i] + [LF] + s[i + 1..]
    ensures StripCR(s[..i]) == s[..i]
    ensures CR !in s[i + 1..] && (s[i + 1..] == [] || s[|s| - 1] == s[i + 1..][|s[i + 1..]| - 1])
  {
    NotInSlice(s, CR, 0, i);
    NotInSlice(s, CR, i + 1, |s|);
    if i > 0 {
      assert s[..i][i - 1] in s[..i];
    }
  }

  /** A byte missing from `s` is missing from every slice of it. */
  lemma NotInSlice(s: seq<byte>, b: byte, lo: nat, hi: nat)
    requires b !in s && lo <= hi <= |s|
    ensures b !in s[lo..hi]
  {
    forall j | 0 <= j < hi - lo ensures s[lo..hi][j] != b {
      assert s[lo..hi][j] == s[lo + j];
      assert s[lo + j] in s;
    }
  }

  /** Loaded lines never contain a line feed. */
  lemma {:induction false} LoadedLinesHaveNoLF(s: seq<byte>)
    ensures forall k :: 0 <= k < |Lines(s)| ==> LF !in Lines(s)[k]
    decreases |s|
  {
    if s != [] {
      var i := LineEnd(s);
      var first := s[..i];
      assert LF !in first by {
        forall j | 0 <= j < |first| ensures first[j] != LF {
          assert first[j] == s[j];
        }
      }
      assert LF !in StripCR(first) by {
        if |first| > 0 && first[|first| - 1] == CR {
          var kept := first[..|first| - 1];
          forall j | 0 <= j < |kept| ensures kept[j] != LF {
            assert kept[j] == first[j];
          }
        }
      }
      if i < |s| {
        LoadedLinesHaveNoLF(s[i + 1..]);
      }
    }
  }

  /** A line loaded from `\r\r\n` still ends in `\r`; saving writes it back as
      `\r\n`, and reloading that gives an empty line. So save-then-reload keeps the
      lines only when they satisfy `IsLine`. */
  lemma ReloadStripsTrailingCR()
    ensures Lines([CR, CR, LF]) == [[CR]]
    ensures Serialize([[CR]]) == [CR, LF]
    ensures Lines([CR, LF]) == [[]]
  {
    var s: seq<byte> := [CR, CR, LF];
    LineEndAt(s, 2);
    assert s[..2] == [CR, CR];
    assert StripCR([CR, CR]) == [CR];
    assert s[3..] == [];
    var t: seq<byte> := [CR, LF];
    LineEndAt(t, 1);
    assert t[..1] == [CR];
    assert StripCR([CR]) == [];
    assert t[2..] == [];
    assert [[CR]][1..] == [];
    assert Serialize([[CR]]) == [CR] + [LF] + Serialize([]);
  }

  /** The number of times `b` occurs in `s`. */
  function Occurrences(s: seq<byte>, b: byte): nat {
    if s == [] then 0 else (if s[0] == b then 1 else 0) + Occurrences(s[1..], b)
  }

  lemma {:induction false} OccurrencesAppend(s: seq<byte>, t: seq<byte>, b: byte)
    ensures Occurrences(s + t, b) == Occurrences(s, b) + Occurrences(t, b)
  {
    if s == [] {
      assert s + t == t;
    } else {
      assert (s + t)[1..] == s[1..] + t;
      OccurrencesAppend(s[1..], t, b);
    }
  }

  lemma {:induction false} OccurrencesNone(s: seq<byte>, b: byte)
    requires forall j :: 0 <= j < |s| ==> s[j] != b
    ensures Occurrences(s, b) == 0
  {
    if s != [] {
      OccurrencesNone(s[1..], b);
    }
  }

  /** One line per line feed, plus one for a last line that has no line feed: empty
      contents give no lines and a final line feed adds no empty line. */
  lemma {:induction false} LineCount(s: seq<byte>)
    ensures |Lines(s)| == Occurrences(s, LF) + (if s != [] && s[|s| - 1] != LF then 1 else 0)
    decreases |s|
  {
    if s != [] {
      var i := LineEnd(s);
      OccurrencesNone(s[..i], LF);
      if i == |s| {
        assert s[..i] == s;
      } else {
        var rest := s[i + 1..];
        assert s == s[..i] + ([LF] + rest);
        OccurrencesAppend(s[..i], [LF] + rest, LF);
        assert ([LF] + rest)[1..] == rest;
        LineCount(rest);
      }
    }
  }

  /** A byte that occurs in `s` is counted at least once. */
  lemma {:induction false} OccurrencesSome(s: seq<byte>, b: byte)
    requires b in s
    ensures Occurrences(s, b) > 0
  {
    if s[0] != b {
      assert b in s[1..] by {
        var j :| 0 <= j < |s| && s[j] == b;
        assert s[1..][j - 1] == b;
      }
      OccurrencesSome(s[1..], b);
    }
  }

  /** What `save` writes is empty or ends in a line feed. */
  lemma {:induction false} SerializeEndsInLF(lines: seq<Line>)
    ensures var s := Serialize(lines); s == [] || s[|s| - 1] == LF
  {
    if lines != [] {
      SerializeEndsInLF(lines[1..]);
    }
  }

  /** What `save` writes holds one line feed per line, and more when a line holds
      one itself. */
  lemma {:induction false} SerializeCountsLF(lines: seq<Line>)
    ensures Occurrences(Serialize(lines), LF) >= |lines|
    ensures forall k :: 0 <= k < |lines| && LF in lines[k] ==> Occurrences(Serialize(lines), LF) > |lines|
  {
    if lines != [] {
      var tail := Serialize(lines[1..]);
      assert Serialize(lines) == lines[0] + ([LF] + tail);
      OccurrencesAppend(lines[0], [LF] + tail, LF);
      assert ([LF] + tail)[1..] == tail;
      SerializeCountsLF(lines[1..]);
      forall k | 0 <= k < |lines| && LF in lines[k]
        ensures Occurrences(Serialize(lines), LF) > |lines|
      {
        if k == 0 {
          OccurrencesSome(lines[0], LF);
        } else {
          assert lines[1..][k - 1] == lines[k];
        }
      }
    }
  }

  /** The converse of `LoadAfterSave`: when reloading what `save` wrote gives back
      the same lines, every line satisfies `IsLine`. Together the two say the round
      trip is lossless exactly for lines without a line feed or a trailing carriage
      return. */
  lemma {:induction false} LoadAfterSaveOnlyIf(lines: seq<Line>)
    requires Lines(Serialize(lines)) == lines
    ensures forall k :: 0 <= k < |lines| ==> IsLine(lines[k])
  {
    var s := Serialize(lines);
    SerializeEndsInLF(lines);
    LineCount(s);
    SerializeCountsLF(lines);
    NoTrailingCR(lines);
  }

  /** The step of `LoadAfterSaveOnlyIf` for carriage returns: once no line holds a
      line feed, a line ending in a carriage return would lose it on reload. */
  lemma {:induction false} NoTrailingCR(lines: seq<Line>)
    requires forall k :: 0 <= k < |lines| ==> LF !in lines[k]
    requires Lines(Serialize(lines)) == lines
    ensures forall k :: 0 <= k < |lines| ==> IsLine(lines[k])
  {
    if lines != [] {
      var l := lines[0];
      var tail := Serialize(lines[1..]);
      var s := Serialize(lines);
      assert s == l + [LF] + tail;
      forall j | 0 <= j < |l| ensures s[j] != LF {
        assert s[j] == l[j];
      }
      LineEndAt(s, |l|);
      assert s[..|l|] == l;
      assert s[|l| + 1..] == tail;
      assert Lines(s) == [StripCR(l)] + Lines(tail);
      assert StripCR(l) == l;
      assert Lines(tail) == lines[1..];
      NoTrailingCR(lines[1..]);
      forall k | 1 <= k < |lines| ensures IsLine(lines[k]) {
        assert lines[1..][k - 1] == lines[k];
      }
    }
  }

  /** Loading an empty file leaves no line at all, and then no cursor position is
      valid: the cursor moves that index the current line cannot be called. */
  lemma EmptyContentsLeaveNoPosition(contents: seq<byte>, p: Cursor.Position)
    ensures Lines(contents) == [] <==> contents == []
    ensures contents == [] ==> !Cursor.Valid(p, Lines(contents))
  {
    LineCount(contents);
  }

  // ---------------------------------------------------------------------------
  // Buffers

  /** What opening and reading the file gives `from_file`: its contents, or the error
      of `File::open` or of `read_to_string`. */
  datatype ReadOutcome = Read(contents: seq<byte>) | ReadFailed(error: IoError)

  /** What the file system answers to `save`: `File::create` fails with
      `createError` or truncates the file; then the `writeln!` of line `failedWrite`,
      if any, fails with `writeError` (and the writes before it have happened). */
  datatype WriteOutcome = WriteOutcome(createError: Option<IoError>, failedWrite: Option<nat>, writeError: IoError)

  /** The number of lines the write loop of `save` gets through out of `n`. */
  function LinesWritten(io: WriteOutcome, n: nat): (k: nat)
    ensures k <= n
    ensures k < n <==> io.failedWrite.Some? && io.failedWrite.value < n
  {
    match io.failedWrite
    case Some(f) => if f < n then f else n
    case None => n
  }

  /** One open document: its lines, the file it is saved to, and whether it has
      changes not yet saved. */
  class Buffer {
    var filename: Option<string>
    var lines: seq<Line>
    var dirty: bool

    /** `Buffer::new`: a document with no file and one empty line. */
    constructor ()
      ensures filename == None && lines == [[]] && !dirty
    {
      filename := None;
      lines := [[]];
      dirty := false;
    }

    /** The buffer `from_file` builds once the file has been read. */
    constructor Loaded(filename: string, lines: seq<Line>)
      ensures this.filename == Some(filename) && this.lines == lines && !dirty
    {
      this.filename := Some(filename);
      this.lines := lines;
      dirty := false;
    }

    /** `from_file`: fails as opening or reading fails; otherwise a clean buffer for
        that file holding its contents split into lines. */
    static method FromFile(filename: string, read: ReadOutcome) returns (r: Result<Buffer, IoError>)
      ensures read.ReadFailed? ==> r == Failure(read.error)
      ensures read.Read? ==> r.Success? && fresh(r.value)
      ensures read.Read? ==> r.value.filename == Some(filename) && !r.value.dirty
      ensures read.Read? ==> r.value.lines == Lines(read.contents)
    {
      if read.ReadFailed? {
        return Failure(read.error);
      }
      var lines := SplitLines(read.contents);
      var b := new Buffer.Loaded(filename, lines);
      r := Success(b);
    }

    /** `save`: refuses without a file name; otherwise creates the file and writes
        each line and a line feed, stopping at the first failed write. Only a save
        that wrote everything clears `dirty`. `file` is what the file then holds
        (`None` when it was never created). */
    method Save(io: WriteOutcome) returns (r: Outcome<IoError>, file: Option<seq<byte>>)
      modifies this`dirty
      ensures filename.None? ==> r == Fail(NoFileToWriteTo) && file == None
      ensures filename.Some? && io.createError.Some? ==> r == Fail(io.createError.value) && file == None
      ensures filename.Some? && io.createError.None? ==>
                file == Some(Serialize(lines[..LinesWritten(io, |lines|)])) &&
                r == (if LinesWritten(io, |lines|) < |lines| then Fail(io.writeError) else Pass)
      ensures r.Pass? ==> file == Some(Serialize(lines)) && !dirty
      ensures r.Fail? ==> dirty == old(dirty)
    {
      if filename.None? {
        return Fail(NoFileToWriteTo), None;
      }
      if io.createError.Some? {
        return Fail(io.createError.value), None;
      }
      var out: seq<byte> := [];
      var k := 0;
      while k < |lines|
        invariant k <= LinesWritten(io, |lines|)
        invariant out == Serialize(lines[..k])
        invariant dirty == old(dirty)
      {
        if io.failedWrite == Some(k) {
          return Fail(io.writeError), Some(out);
        }
        assert lines[..k + 1] == lines[..k] + [lines[k]];
        SerializeAppend(lines[..k], [lines[k]]);
        assert [lines[k]][1..] == [];
        out := out + lines[k] + [LF];
        k := k + 1;
      }
      assert lines[..k] == lines;
      dirty := false;
      return Pass, Some(out);
    }

    /** `push_newline`: one empty line more at the end; the file name and the dirty
        flag are left as they were. */
    method PushNewline()
      modifies this`lines
      ensures lines == old(lines) + [[]]
      ensures filename == old(filename) && dirty == old(dirty)
    {
      lines := lines + [[]];
    }

    /** `get_line`: the line at `index`, which must exist. */
    function GetLine(index: nat): (l: Line)
      reads this
      requires index < |lines|
      ensures l == lines[index]
    {
      lines[index]
    }
  }

  // ---------------------------------------------------------------------------
  // The container

  /** All open buffers and the index of the current one. Nothing in the source
      changes either after construction. */
  class Backend {
    const buffers: seq<Buffer>
    const current: nat

    /** The container's rule: `current` names one of the open buffers. */
    ghost predicate Valid() {
      current < |buffers|
    }

    /** The container over the given buffers, the first one current. */
    constructor (buffers: seq<Buffer>)
      requires |buffers| > 0
      ensures this.buffers == buffers && current == 0
      ensures Valid()
    {
      this.buffers := buffers;
      current := 0;
    }

    /** `current_lines`. */
    function CurrentLines(): (lines: seq<Line>)
      reads buffers
      requires Valid()
      ensures lines == buffers[current].lines
    {
      buffers[current].lines
    }

    /** `number_of_lines`. */
    function NumberOfLines(): (n: nat)
      reads buffers
      requires Valid()
      ensures n == |CurrentLines()|
    {
      |buffers[current].lines|
    }

    /** `current_line_length`; the line must exist. */
    function CurrentLineLength(line: nat): (len: nat)
      reads buffers
      requires Valid() && line < NumberOfLines()
      ensures len == |CurrentLines()[line]|
    {
      |buffers[current].lines[line]|
    }
  }

  /** A cursor fits the current buffer exactly when the container's accessors say so. */
  lemma CursorFitsCurrentBuffer(b: Backend, p: Cursor.Position)
    requires b.Valid()
    ensures Cursor.Valid(p, b.CurrentLines()) <==>
              p.line < b.NumberOfLines() && p.column <= b.CurrentLineLength(p.line)
  {
  }
}
