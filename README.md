# trusty: cursor and buffer model

A Dafny model of the editing core of trusty, a small terminal text editor written in Rust. The model has two parts.

- **The cursor** (`cursor.dfy`, module `Cursor`). A `(line, column)` pair that moves up, down, left and right over the document's lines.
  - Vertical moves clamp the column to the destination line.
  - Horizontal moves wrap to the neighbouring line's boundary at a line's start or end.
  - Each move does nothing at its own edge of the document.
  - The rules are written once, as functions on a `Position` value (`Up`, `Down`, `Left`, `Right`). The class `Cursor` updates its two fields in place, and each of its methods is proved to land where the matching function says.
  - The lemmas prove that every move keeps a valid position valid, that left undoes right and right undoes left, and that horizontal moves step through the document one offset at a time. The offset counts the bytes before the position, with one extra step for each line break.
- **The buffers** (`backend.dfy`, module `Backend`). A `Buffer` holds an optional file name, its lines and a `dirty` flag. A `Backend` holds the open buffers and the index of the current one.
  - Loading splits the file contents into lines by the rule of Rust's `str::lines` (`Lines`, computed by the loop `SplitLines`).
  - Saving writes every line followed by a line feed (`Serialize`).
  - The file system is abstracted away. Loading receives the outcome of opening and reading the file: its bytes, or an error. Saving receives the outcome of creating the file and of each write, and returns the bytes the file then holds.

Lines are byte sequences (`Text.Line = seq<byte>`), so a line's length is `String::len()` and every column counts bytes.

Things the proofs bring out:

- **An empty file gives zero lines.** The cursor's moves then have no valid position to stand on. `move_right` indexes the cursor's line and `move_down` the line below it, so on zero lines both panic: their `requires line < |lines|` (`Cursor.Cursor.MoveRight`, `Cursor.Cursor.MoveDown`) cannot be met, and `EmptyContentsLeaveNoPosition` proves that no position is valid. By contrast, `Buffer::new` always gives one empty line.
- **Save then reload is lossless only for lines with no trailing carriage return.** `str::lines` strips one carriage return from the end of each line. A file holding `\r\r\n` therefore loads as one line `\r`. Saving that line writes `\r\n`, which reloads as an empty line (`ReloadStripsTrailingCR`). The round trip is lossless exactly for lines without a line feed and without a trailing carriage return: `LoadAfterSave` proves that such lines come back, and `LoadAfterSaveOnlyIf` proves that lines come back only if they are all such lines.
- **`push_newline` leaves `dirty` as it was.** It adds a line (src/backend.rs:77-79) without setting `dirty`, so a buffer can hold unsaved lines while `dirty` is false. The model follows the code.

Each method's `requires` is the condition under which the source does not panic on an out-of-range index. It is not the stronger validity of the position.

## Model

| member | source | states |
|---|---|---|
| `Cursor.Cursor.constructor` | src/cursor.rs:9-14 | the new cursor's line and column are the ones given |
| `Cursor.Cursor.MoveUp` | src/cursor.rs:15-23 | the cursor lands on `Up` of its old position: unchanged at line 0, otherwise one line up with the column clamped; a valid position stays valid |
| `Cursor.Cursor.MoveDown` | src/cursor.rs:24-32 | the cursor lands on `Down` of its old position: unchanged on the last line, otherwise one line down with the column clamped; a valid position stays valid |
| `Cursor.Cursor.MoveLeft` | src/cursor.rs:33-47 | the cursor lands on `Left` of its old position: unchanged at (0,0), from column 0 to the end of the line above, otherwise one column left; a valid position stays valid |
| `Cursor.Cursor.MoveRight` | src/cursor.rs:48-63 | the cursor lands on `Right` of its old position: unchanged at the end of the last line, from a line's end to the start of the next, otherwise one column right; a valid position stays valid |
| `Cursor.UpClamps` | src/cursor.rs:15-23 | moving up is a no-op at line 0; otherwise the line drops by one and the column becomes the old column if it fits the new line, else that line's length (never larger than before) |
| `Cursor.DownClamps` | src/cursor.rs:24-32 | moving down is a no-op on the last line; otherwise the line grows by one and the column is clamped to the new line in the same way |
| `Cursor.MovesKeepValid` | src/cursor.rs:15-63 | from a position with `line < |lines|` and `column <= len(lines[line])`, all four moves give such a position |
| `Cursor.NoOpsAtEdges` | src/cursor.rs:15-63 | each move leaves a valid position unchanged exactly at its own edge: up at line 0, down at the last line, left at (0,0), right at the end of the last line |
| `Cursor.LeftUndoesRight` | src/cursor.rs:33-63 | whenever moving right changes the position, moving left afterwards restores the original line and column |
| `Cursor.RightUndoesLeft` | src/cursor.rs:33-63 | from a valid position, whenever moving left changes it, moving right afterwards restores it |
| `Cursor.UpAfterDown` | src/cursor.rs:15-32 | a down move that moves, followed by an up move, returns to the original line with a column no larger than before |
| `Cursor.OffsetInjective` | src/cursor.rs:15-63 | two valid positions with the same offset in the document are the same position |
| `Cursor.RightStepsForward` | src/cursor.rs:48-63 | moving right stays put exactly at the document's last offset and otherwise advances the offset by exactly one |
| `Cursor.LeftStepsBack` | src/cursor.rs:33-47 | moving left stays put exactly at offset 0 and otherwise takes the offset back by exactly one |
| `Backend.FindLineFeed` | src/backend.rs:54 | the search for the next line's end returns `LineEnd(rest)`: the index of the first line feed, or the length when there is none |
| `Backend.SplitLines` | src/backend.rs:53-56 | the loop that pushes each line of `contents.lines()` produces exactly `Lines(contents)` |
| `Backend.LineCount` | src/backend.rs:53-56 | the number of loaded lines is the number of line feeds, plus one for a last line without a line feed; empty contents give zero lines and a final line feed adds no empty line |
| `Backend.LoadedLinesHaveNoLF` | src/backend.rs:53-56 | no loaded line contains a line feed |
| `Backend.EmptyContentsLeaveNoPosition` | src/backend.rs:53-56 | loading gives zero lines exactly when the contents are empty, and then no cursor position is valid |
| `Backend.LoadAfterSave` | src/backend.rs:53-69 | for lines without line feeds and without a trailing carriage return, splitting what `save` writes gives the same lines back |
| `Backend.LoadAfterSaveOnlyIf` | src/backend.rs:53-69 | conversely, when reloading what `save` wrote gives the same lines back, no line holds a line feed and none ends in a carriage return |
| `Backend.SaveAfterLoad` | src/backend.rs:53-69 | contents without carriage returns that are empty or end in a line feed are rewritten byte for byte by saving the lines they load as |
| `Backend.ReloadStripsTrailingCR` | src/backend.rs:53-69 | `\r\r\n` loads as the line `\r`, which saves as `\r\n` and reloads as an empty line: the round trip needs the trailing-carriage-return restriction |
| `Backend.SerializeAppend` | src/backend.rs:67-69 | writing two runs of lines one after the other writes their two serialisations concatenated |
| `Backend.Buffer.constructor` | src/backend.rs:41-47 | a new buffer has no file name, exactly one line which is empty, and is not dirty |
| `Backend.Buffer.FromFile` | src/backend.rs:49-62 | a failed open or read is returned as the error; otherwise a fresh buffer with that file name, not dirty, whose lines are `Lines(contents)` |
| `Backend.Buffer.Save` | src/backend.rs:64-75 | no file name: error, nothing written, `dirty` unchanged; create error: that error, nothing written; otherwise the file holds the serialisation of the lines written before the first failed write; only a full write succeeds, and only success clears `dirty` |
| `Backend.Buffer.PushNewline` | src/backend.rs:77-79 | the lines become the old lines plus one empty line at the end; file name and `dirty` are unchanged |
| `Backend.Buffer.GetLine` | src/backend.rs:81-83 | returns the line at the index, which must be below the line count |
| `Backend.Backend.constructor` | src/backend.rs:11-16 | the container holds the given non-empty buffers with the first one current, so `Valid()` holds: `current` names an open buffer |
| `Backend.Backend.CurrentLines` | src/backend.rs:17-19 | the lines of the current buffer |
| `Backend.Backend.NumberOfLines` | src/backend.rs:20-22 | the number of lines of the current buffer, i.e. the length of `CurrentLines()` |
| `Backend.Backend.CurrentLineLength` | src/backend.rs:23-25 | the byte length of line `line` of `CurrentLines()`, for a line that exists |
| `Backend.CursorFitsCurrentBuffer` | src/backend.rs:17-25 | a position is valid for the current lines exactly when its line is below `NumberOfLines()` and its column is at most `CurrentLineLength` of that line |

## Left out

- `Backend::new` opens the hard-coded file `test.txt` and unwraps the result. The model's `Backend` constructor takes the buffers instead, with the first one current.
- File-system calls (`File::open`, `read_to_string`, `File::create`, `writeln!`) are not modelled as I/O. They appear only as outcomes passed in: `ReadOutcome` for loading and `WriteOutcome` for saving. Invalid UTF-8 is one of the read errors.
- Backend.Buffer.Save: a `writeln!` that fails is taken to write nothing of its line. The real call may leave part of the line in the file.
- Fixed-width `usize` arithmetic is not modelled. Lines and columns are unbounded naturals, so `move_right` past a line's end never wraps around at `usize::MAX`.
- `str::lines` is modelled by the rule of the Rust version of the source's time. That rule splits on line feeds and strips one carriage return from the end of every piece, the last piece included. Later Rust releases changed how a bare `\r` at the very end of the contents is treated; that later rule is not modelled.
- src/frontend.rs (terminal drawing, raw mode, reading keys), src/editor.rs (the event loop that calls the cursor moves) and src/main.rs / src/lib.rs (wiring) are not part of this model.
- `Cursor` derives `Clone`, `Copy`, `Debug` and `PartialEq`. These derived traits are not modelled.
