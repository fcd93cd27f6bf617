# red_line line-editing core, in Dafny

This project models the editing core of `red_line`, a single-line text input
for terminal programs. The core has two parts:

- the `LineBuffer`: the text of the line plus a cursor called the insertion
  point;
- the `Engine`: a closed set of `EditCommand`s (`MoveToStart`, `MoveToEnd`,
  `MoveLeft`, `MoveRight`, `MoveWordLeft`, `MoveWordRight`, `InsertChar(c)`,
  `Backspace`, `Delete`) and `run_edit_commands`, which applies them to the
  buffer in order.

The state is the immutable record `LineBuffer(buffer, ip)` in module
`LineBuffers` (`line_buffer.dfy`). Each `LineBuffer` method is a pure function
that returns the new state. The engine (`engine.dfy`) owns exactly one
`LineBuffer` and nothing else, so its state is that record. `Engine::new` is
`LineBuffers.New`. Its one-line forwarding wrappers are the `LineBuffers`
functions themselves. `Engine.Step` is one iteration of the command loop.
`Engine.Run` is the loop, a recursive left fold over the command sequence.
Properties of runs are in `engine_properties.dfy`. Concrete runs are in
`scenarios.dfy`.

Conventions:

- **Characters are ASCII.** The source uses byte offsets into a UTF-8
  `String`. With one-byte characters, a byte offset is a sequence index.
  Under that restriction `String::insert` needs only `pos <= len`, and
  `String::remove` needs only `pos < len`.
- **Panics.** A `LineBuffer` primitive `requires` the condition that keeps the
  source from panicking:
  - `dec_insertion_point` and `move_word_left` compute `ip - 1` on a `usize`;
  - `insert_char`, `remove_char` and `slice_buffer` index the `String`.
  
  `Engine.Step` is total. When a command would panic, it returns
  `Err(SubtractOverflow)` or `Err(InsertPastEnd)`. `Engine.Run` stops at the
  first panic, as the unwinding loop does.
- **The cursor is not kept inside the line.** `ip <= |buffer|` (predicate
  `WellPlaced`) is not an invariant of the source. The lemmas say which
  commands keep it and which break it.

The code behaves differently from a careful editor. The model follows the code:

- Cursor steps are single bytes. `inc_insertion_point` has no upper bound, and
  `dec_insertion_point` underflows at 0. Neither steps by grapheme cluster or
  saturates.
- Word motion looks only for `' '` and `'\t'`. `move_word_left` goes to just
  after the last delimiter whose index is below `ip - 1`. `move_word_right`
  goes to just after the first delimiter whose index is above `ip`.
- `move_word_left` computes `ip - 1` inside the `find` closure. That closure
  only runs when a delimiter is found. So at `ip == 0` it panics exactly when
  the line holds a space or a tab, and otherwise it stays at 0. It
  does not saturate at 0.
- `InsertChar` does not advance the cursor. Typing "ab" into an empty line
  gives "ba".
- `pop` and `clear` leave the insertion point unchanged. They do not reset it.
- `Backspace` at the end of a non-empty line pops the last character but keeps
  the cursor, because the decrement is commented out. This leaves the cursor
  one past the end. Every further `Backspace` does nothing, and the next
  `InsertChar` panics. So five `Backspace`s on "hello world", with the cursor
  at the end, remove only the final 'd' and leave "hello worl".
- `move_to_end` is called by the engine but is not defined in
  `src/line_buffer.rs`. `LineBuffers.MoveToEnd` sets `ip := |buffer|`. That is
  an assumption: `Engine::move_to_end` returns the new insertion point, and
  the name suggests the end of the text.

## Model

| member | source | states |
|---|---|---|
| LineBuffers.New | src/line_buffer.rs:7-12 | a new buffer is empty with the insertion point at 0, so the cursor is inside the line |
| LineBuffers.SetInsertionPoint | src/line_buffer.rs:14-16 | only the cursor changes, to any position, and the result is well placed exactly when the position is at most the length |
| LineBuffers.IncInsertionPoint | src/line_buffer.rs:21-23 | the text is unchanged and the cursor moves right by one byte with no bound |
| LineBuffers.DecInsertionPoint | src/line_buffer.rs:24-26 | needs a cursor of at least 1 (usize underflow); the text is unchanged and the cursor moves left by one byte |
| LineBuffers.IncDecInverse | src/line_buffer.rs:21-26 | stepping right then left, or left then right from a cursor of at least 1, returns the original state |
| LineBuffers.SliceBuffer | src/line_buffer.rs:33-35 | needs `pos <= len`; the result is the suffix that completes `buffer[..pos]` to the whole text |
| LineBuffers.InsertChar | src/line_buffer.rs:36-38 | needs `pos <= len`; the text grows by one, with `c` at `pos`, the prefix before and the old suffix after; the cursor is unchanged |
| LineBuffers.RemoveChar | src/line_buffer.rs:39-41 | needs `pos < len`; returns the character at `pos`, and putting it back between the halves of the new text gives the old text; the cursor is unchanged |
| LineBuffers.InsertThenRemove | src/line_buffer.rs:36-41 | removing at the position just inserted at returns the inserted character and the original buffer |
| LineBuffers.RemoveThenInsert | src/line_buffer.rs:36-41 | inserting a removed character back at its position restores the original buffer |
| LineBuffers.Pop | src/line_buffer.rs:45-47 | on a non-empty text, returns the last character and the text without it; on an empty text, returns None and changes nothing; the cursor is never touched |
| LineBuffers.Clear | src/line_buffer.rs:48-50 | the text becomes empty and the cursor stays, so the result is well placed only if the cursor was at 0 |
| LineBuffers.RFindDelimiter | src/line_buffer.rs:52-55 | the right-to-left search returns the last space or tab below the limit, or None when there is none below it |
| LineBuffers.FindDelimiter | src/line_buffer.rs:67-70 | the left-to-right search returns the first space or tab above the bound, or None when there is none above it |
| LineBuffers.MoveWordLeft | src/line_buffer.rs:51-65 | needs `ip >= 1` or a line without delimiters; the text is unchanged; the cursor lands just after the last delimiter whose index is below `ip - 1`, or at 0; from `ip >= 1` it strictly decreases, and it always ends inside the line |
| LineBuffers.MoveWordLeftSpec | src/line_buffer.rs:51-65 | `move_word_left` lands on `t` if and only if `t` satisfies the word-left target definition |
| LineBuffers.MoveWordRight | src/line_buffer.rs:66-80 | the text is unchanged; the cursor lands just after the first delimiter whose index is above `ip`, or at the end; it strictly increases inside the line and always ends inside the line |
| LineBuffers.MoveWordRightSpec | src/line_buffer.rs:66-80 | `move_word_right` lands on `t` if and only if `t` satisfies the word-right target definition |
| LineBuffers.MoveToEnd | src/engine.rs:83-85 | assumed: the text is unchanged and the cursor goes to the end of the line |
| Engine.DoBackspace | src/engine.rs:43-56 | at the end of a non-empty line, drops the last character and keeps the cursor; strictly inside, removes the character before the cursor and steps left; on an empty line, at 0 or past the end, changes nothing |
| Engine.DoDelete | src/engine.rs:57-62 | with the cursor on a character, removes that character; otherwise changes nothing; the cursor never moves |
| Engine.Run | src/engine.rs:24-65 | the commands are applied in order, each to the state the previous one left, and a run can only panic if it contains `MoveLeft`, `MoveWordLeft` or `InsertChar`; the fold law is `RunAppend` and the cursor invariant over runs is `RunKeepsWellPlaced` |
| Engine.Step | src/engine.rs:24-63 | a command panics if and only if it is `MoveLeft` at 0, `MoveWordLeft` at 0 on a line with a delimiter, or `InsertChar` with the cursor past the end |
| EngineProperties.RunAppend | src/engine.rs:24-26 | running `cs1 + cs2` equals running `cs1` and then, unless it panicked, `cs2` on the state it left |
| EngineProperties.MotionKeepsText | src/engine.rs:27-38 | the motion commands never change the text; `MoveToStart` sets the cursor to 0, and `MoveLeft`/`MoveRight` move it by exactly one |
| EngineProperties.MotionRunKeepsText | src/engine.rs:24-38 | a run made only of motion commands leaves the text unchanged |
| EngineProperties.WordLeftReachesStart | src/line_buffer.rs:51-65 | from a cursor of at least 1, at most `ip` repetitions of `MoveWordLeft` bring the cursor to 0 with the text unchanged |
| EngineProperties.WordLeftAtStart | src/line_buffer.rs:51-65 | at 0, `MoveWordLeft` panics if the line has a space or tab, and otherwise changes nothing |
| EngineProperties.WordRightReachesEnd | src/line_buffer.rs:66-80 | from a well-placed cursor, at most `len - ip` repetitions of `MoveWordRight` bring the cursor to the end |
| EngineProperties.WordRightAtEnd | src/line_buffer.rs:66-80 | at or past the end of the line, `MoveWordRight` puts the cursor exactly at the end |
| EngineProperties.InsertCharAtCursor | src/engine.rs:39-42 | with the cursor inside the line, `InsertChar(c)` puts `c` at the cursor and leaves the cursor where it was |
| EngineProperties.InsertThenDelete | src/engine.rs:39-62 | `InsertChar(c)` followed by `Delete` restores the original state |
| EngineProperties.InsertRightBackspace | src/engine.rs:39-56 | `InsertChar`, `MoveRight`, `Backspace` restores the state if and only if the cursor started strictly inside the line; at the end it leaves the cursor one past the end |
| EngineProperties.BackspaceAtEnd | src/engine.rs:43-47 | `Backspace` at the end of a non-empty line removes the last character and leaves the cursor equal to the new length plus one |
| EngineProperties.BackspaceInside | src/engine.rs:48-55 | `Backspace` with `0 < ip < len` removes the character at `ip - 1` and decrements the cursor by exactly one |
| EngineProperties.BackspaceNoOp | src/engine.rs:43-56 | `Backspace` changes nothing if and only if the line is empty, the cursor is at 0, or the cursor is past the end |
| EngineProperties.BackspaceRepeatPastEnd | src/engine.rs:43-56 | with the cursor past the end, any number of `Backspace`s changes nothing |
| EngineProperties.BackspaceTwiceAtEnd | src/engine.rs:43-56 | after a `Backspace` at the end, further `Backspace`s leave the state as the first one left it |
| EngineProperties.BackspaceAtEndThenInsertPanics | src/engine.rs:39-47 | `Backspace` at the end of a non-empty line followed by `InsertChar` panics in `String::insert` |
| EngineProperties.DeleteSpec | src/engine.rs:57-62 | `Delete` with `ip < len` removes the character at `ip` and keeps the cursor; it changes nothing if and only if `ip >= len` |
| EngineProperties.StepWellPlaced | src/engine.rs:24-62 | from a well-placed cursor, a command that does not panic keeps the cursor inside the line if and only if it is not `MoveRight` at the end or `Backspace` at the end of a non-empty line |
| EngineProperties.WellPlacedPanics | src/engine.rs:24-62 | from a well-placed cursor, the only panics are `MoveLeft` or `MoveWordLeft` with the cursor at 0 |
| EngineProperties.StepRestoresWellPlaced | src/engine.rs:24-62 | from past the end, a command brings the cursor back inside if and only if it is `MoveToStart`, `MoveToEnd`, either word motion, or `MoveLeft` from one past the end |
| EngineProperties.RunKeepsWellPlaced | src/engine.rs:24-64 | a run with no `MoveRight` and no `Backspace` keeps a well-placed cursor well placed and can only panic by underflow, never in `InsertChar` |
| Scenarios.WordLeftFooBarBaz | src/line_buffer.rs:51-65 | on "foo bar baz", `MoveWordLeft` from 11 gives 8, then 4, then 0; from 0 it panics |
| Scenarios.WordRightFooBarBaz | src/line_buffer.rs:66-80 | on "foo bar baz", `MoveWordRight` from 0 gives 4, then 8, then 11, and stays at 11 |
| Scenarios.BackspaceFiveFromEnd | src/engine.rs:43-56 | five `Backspace`s on "hello world" from the end leave "hello worl" with the cursor at 11 |
| Scenarios.DeleteOnEmpty | src/engine.rs:57-62 | `Delete` on a new, empty engine changes nothing |
| Scenarios.TypeTwoCharacters | src/engine.rs:39-42 | typing 'a' then 'b' into an empty line gives "ba" with the cursor at 0 |

## Left out

- Terminal I/O in `src/main.rs`: raw mode, event polling, timeouts, the `-k` event printer and the `"exit"` sentinel. It calls `print_message` and `read_line`, which are not part of this model.
- Engine wrappers whose `LineBuffer` targets are not defined in `src/line_buffer.rs`: `set_buffer`, `insert_str`, `clear_to_end`, `clear_to_insertion_point` and `clear_range`. There is no body to model. `move_to_end` is the one exception; it is modelled under the assumption stated above.
- Command history and the kill/yank register: the source has no code for them.
- Grapheme clusters, multi-byte UTF-8 characters and screen columns: characters are restricted to ASCII (`LineBuffers.AsciiChar`), so inserting or removing a multi-byte character, and `String`'s char-boundary panics for it, are not modelled.
- LineBuffers.IncInsertionPoint: does not model `usize` overflow at `usize::MAX`, because the insertion point is an unbounded `nat`.
- Release-mode wrap-around of `ip - 1`: the underflow is modelled as the debug-build panic (`SubtractOverflow`), not as a wrap to `usize::MAX`.
- The getters `get_insertion_point`, `get_buffer`, `get_buffer_len` and `is_empty` are plain field reads (`GetInsertionPoint`, `GetBuffer`, `GetBufferLen`, `IsEmpty`), with no property of their own.
