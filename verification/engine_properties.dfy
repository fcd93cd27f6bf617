/** What running edit commands does to the text and the cursor, as
    properties of `Engine.Step` and `Engine.Run`. */
module EngineProperties {
  import opened Results
  import opened LineBuffers
  import opened Engine

  /** `n` copies of one command. */
  function Repeat(cmd: EditCommand, n: nat): (r: seq<EditCommand>)
    ensures |r| == n
    ensures forall i :: 0 <= i < n ==> r[i] == cmd
  {
    if n == 0 then [] else [cmd] + Repeat(cmd, n - 1)
  }

  /** The commands that only move the cursor. */
  predicate IsMotion(cmd: EditCommand) {
    cmd.MoveToStart? || cmd.MoveToEnd? || cmd.MoveLeft? || cmd.MoveRight?
    || cmd.MoveWordLeft? || cmd.MoveWordRight?
  }

  /** The two ways a command moves a well-placed cursor past the end. */
  predicate LeavesLine(lb: LineBuffer, cmd: EditCommand) {
    && lb.ip == |lb.buffer|
    && (cmd == MoveRight || (cmd == Backspace && |lb.buffer| > 0))
  }

  // ---------------------------------------------------------------------
  // The fold
  // ---------------------------------------------------------------------

  /** `run_edit_commands` is a left fold: running `cs1 + cs2` is running
      `cs1` and then `cs2` on whatever it left. */
  lemma {:induction false} RunAppend(lb: LineBuffer, cs1: seq<EditCommand>, cs2: seq<EditCommand>)
    ensures Run(lb, cs1 + cs2) == RunAfter(Run(lb, cs1), cs2)
    decreases |cs1|
  {
    if |cs1| == 0 {
      assert cs1 + cs2 == cs2;
    } else {
      assert (cs1 + cs2)[0] == cs1[0];
      assert (cs1 + cs2)[1..] == cs1[1..] + cs2;
      match Step(lb, cs1[0])
      case Err(p) =>
      case Ok(next) =>
        RunAppend(next, cs1[1..], cs2);
    }
  }

  // ---------------------------------------------------------------------
  // Motion commands
  // ---------------------------------------------------------------------

  /** Motion commands never change the text; `MoveToStart` puts the cursor
      at 0, `MoveLeft`/`MoveRight` move it by one byte. */
  lemma MotionKeepsText(lb: LineBuffer, cmd: EditCommand)
    requires IsMotion(cmd) && Step(lb, cmd).Ok?
    ensures Step(lb, cmd).value.buffer == lb.buffer
    ensures cmd.MoveToStart? ==> Step(lb, cmd).value.ip == 0
    ensures cmd.MoveLeft? ==> Step(lb, cmd).value.ip + 1 == lb.ip
    ensures cmd.MoveRight? ==> Step(lb, cmd).value.ip == lb.ip + 1
  {
  }

  /** A run made only of motion commands leaves the text as it was. */
  lemma {:induction false} MotionRunKeepsText(lb: LineBuffer, cs: seq<EditCommand>)
    requires forall i :: 0 <= i < |cs| ==> IsMotion(cs[i])
    requires Run(lb, cs).Ok?
    ensures Run(lb, cs).value.buffer == lb.buffer
    decreases |cs|
  {
    if |cs| > 0 {
      MotionKeepsText(lb, cs[0]);
      MotionRunKeepsText(Step(lb, cs[0]).value, cs[1..]);
    }
  }

  /** Repeated `MoveWordLeft` from a cursor at 1 or more reaches 0 in at
      most `ip` steps, touching nothing else. */
  lemma {:induction false} WordLeftReachesStart(lb: LineBuffer)
    requires lb.ip >= 1
    ensures exists n :: 1 <= n <= lb.ip && Run(lb, Repeat(MoveWordLeft, n)) == Ok(lb.(ip := 0))
    decreases lb.ip
  {
    var next := LineBuffers.MoveWordLeft(lb);
    assert Step(lb, MoveWordLeft) == Ok(next);
    if next.ip == 0 {
      assert Run(lb, Repeat(MoveWordLeft, 1)) == Ok(lb.(ip := 0));
    } else {
      WordLeftReachesStart(next);
      var n :| 1 <= n <= next.ip && Run(next, Repeat(MoveWordLeft, n)) == Ok(next.(ip := 0));
      assert Repeat(MoveWordLeft, n + 1)[1..] == Repeat(MoveWordLeft, n);
      assert Run(lb, Repeat(MoveWordLeft, n + 1)) == Ok(lb.(ip := 0));
    }
  }

  /** At 0, one more `MoveWordLeft` panics when the line holds a space or a
      tab, and stays at 0 when it does not. */
  lemma WordLeftAtStart(lb: LineBuffer)
    requires lb.ip == 0
    ensures HasDelimiter(lb.buffer) ==> Step(lb, MoveWordLeft) == Err(SubtractOverflow)
    ensures !HasDelimiter(lb.buffer) ==> Step(lb, MoveWordLeft) == Ok(lb)
  {
  }

  /** Repeated `MoveWordRight` from a well-placed cursor reaches the end of
      the line in at most `|buffer| - ip` steps. */
  lemma {:induction false} WordRightReachesEnd(lb: LineBuffer)
    requires WellPlaced(lb)
    ensures exists n: nat :: n <= |lb.buffer| - lb.ip && Run(lb, Repeat(MoveWordRight, n)) == Ok(lb.(ip := |lb.buffer|))
    decreases |lb.buffer| - lb.ip
  {
    if lb.ip == |lb.buffer| {
      assert Run(lb, Repeat(MoveWordRight, 0)) == Ok(lb.(ip := |lb.buffer|));
    } else {
      var next := LineBuffers.MoveWordRight(lb);
      assert Step(lb, MoveWordRight) == Ok(next);
      WordRightReachesEnd(next);
      var n: nat :| n <= |next.buffer| - next.ip && Run(next, Repeat(MoveWordRight, n)) == Ok(next.(ip := |next.buffer|));
      assert Repeat(MoveWordRight, n + 1)[1..] == Repeat(MoveWordRight, n);
      assert Run(lb, Repeat(MoveWordRight, n + 1)) == Ok(lb.(ip := |lb.buffer|));
    }
  }

  /** At the end of the line `MoveWordRight` stays there; from past the end
      it comes back to the end. */
  lemma WordRightAtEnd(lb: LineBuffer)
    requires |lb.buffer| <= lb.ip
    ensures Step(lb, MoveWordRight) == Ok(lb.(ip := |lb.buffer|))
  {
  }

  // ---------------------------------------------------------------------
  // Editing commands
  // ---------------------------------------------------------------------

  /** `InsertChar(c)` puts `c` at the cursor and leaves the cursor where it
      was, so the new character ends up under the cursor. */
  lemma InsertCharAtCursor(lb: LineBuffer, c: AsciiChar)
    requires WellPlaced(lb)
    ensures Step(lb, InsertChar(c)).Ok?
    ensures Step(lb, InsertChar(c)).value.buffer == lb.buffer[..lb.ip] + [c] + lb.buffer[lb.ip..]
    ensures Step(lb, InsertChar(c)).value.ip == lb.ip
  {
  }

  /** Typing a character and then pressing `Delete` undoes the character. */
  lemma InsertThenDelete(lb: LineBuffer, c: AsciiChar)
    requires WellPlaced(lb)
    ensures Run(lb, [InsertChar(c), Delete]) == Ok(lb)
  {
    var inserted := LineBuffers.InsertChar(lb, lb.ip, c);
    assert Step(lb, InsertChar(c)) == Ok(inserted);
    LineBuffers.InsertThenRemove(lb, lb.ip, c);
    assert Step(inserted, Delete) == Ok(lb);
    assert [InsertChar(c), Delete][1..] == [Delete];
    assert Run(inserted, [Delete]) == Ok(lb);
  }

  /** Typing a character, stepping over it and pressing `Backspace` undoes
      the character exactly when the cursor started strictly inside the
      line; at the end of the line the cursor is left one past the end. */
  lemma InsertRightBackspace(lb: LineBuffer, c: AsciiChar)
    requires WellPlaced(lb)
    ensures Run(lb, [InsertChar(c), MoveRight, Backspace]) == Ok(lb) <==> lb.ip < |lb.buffer|
    ensures lb.ip == |lb.buffer| ==>
              Run(lb, [InsertChar(c), MoveRight, Backspace]) == Ok(lb.(ip := |lb.buffer| + 1))
  {
    var cs := [InsertChar(c), MoveRight, Backspace];
    var inserted := LineBuffers.InsertChar(lb, lb.ip, c);
    assert Step(lb, InsertChar(c)) == Ok(inserted);
    var moved := IncInsertionPoint(inserted);
    assert cs[1..] == [MoveRight, Backspace];
    assert [MoveRight, Backspace][1..] == [Backspace];
    assert Run(moved, [Backspace]) == Ok(DoBackspace(moved));
    assert Run(inserted, [MoveRight, Backspace]) == Ok(DoBackspace(moved));
    assert Run(lb, cs) == Ok(DoBackspace(moved));
    if lb.ip < |lb.buffer| {
      LineBuffers.InsertThenRemove(lb, lb.ip, c);
      assert DoBackspace(moved) == lb;
    } else {
      assert inserted.buffer == lb.buffer + [c];
      assert DoBackspace(moved).buffer == lb.buffer;
      assert DoBackspace(moved) == lb.(ip := |lb.buffer| + 1);
    }
  }

  /** `Backspace` at the end of a non-empty line removes the last character
      but keeps the cursor, which then sits one past the end. */
  lemma BackspaceAtEnd(lb: LineBuffer)
    requires |lb.buffer| > 0 && lb.ip == |lb.buffer|
    ensures Step(lb, Backspace) == Ok(LineBuffer(lb.buffer[..|lb.buffer| - 1], lb.ip))
    ensures lb.ip == |Step(lb, Backspace).value.buffer| + 1
  {
  }

  /** `Backspace` strictly inside the line removes the character before the
      cursor and moves the cursor left by exactly one. */
  lemma BackspaceInside(lb: LineBuffer)
    requires 0 < lb.ip < |lb.buffer|
    ensures Step(lb, Backspace) == Ok(LineBuffer(lb.buffer[..lb.ip - 1] + lb.buffer[lb.ip..], lb.ip - 1))
  {
  }

  /** `Backspace` changes something exactly when the line is non-empty and
      the cursor is in `1..|buffer|`. */
  lemma BackspaceNoOp(lb: LineBuffer)
    ensures Step(lb, Backspace) == Ok(lb) <==> |lb.buffer| == 0 || lb.ip == 0 || |lb.buffer| < lb.ip
  {
  }

  /** After a `Backspace` at the end of the line, a second `Backspace` does
      nothing, and so does every further one. */
  lemma {:induction false} BackspaceTwiceAtEnd(lb: LineBuffer, n: nat)
    requires |lb.buffer| > 0 && lb.ip == |lb.buffer|
    ensures Run(lb, Repeat(Backspace, n + 1)) == Ok(LineBuffer(lb.buffer[..|lb.buffer| - 1], lb.ip))
  {
    var after := DoBackspace(lb);
    BackspaceAtEnd(lb);
    BackspaceRepeatPastEnd(after, n);
    assert Repeat(Backspace, n + 1)[1..] == Repeat(Backspace, n);
  }

  /** With the cursor past the end, any number of `Backspace`s does nothing. */
  lemma {:induction false} BackspaceRepeatPastEnd(lb: LineBuffer, n: nat)
    requires |lb.buffer| < lb.ip
    ensures Run(lb, Repeat(Backspace, n)) == Ok(lb)
    decreases n
  {
    if n > 0 {
      BackspaceNoOp(lb);
      BackspaceRepeatPastEnd(lb, n - 1);
      assert Repeat(Backspace, n)[1..] == Repeat(Backspace, n - 1);
    }
  }

  /** After a `Backspace` at the end of a non-empty line, typing a character
      panics: the cursor is past the end and `String::insert` rejects it. */
  lemma BackspaceAtEndThenInsertPanics(lb: LineBuffer, c: AsciiChar)
    requires |lb.buffer| > 0 && lb.ip == |lb.buffer|
    ensures Run(lb, [Backspace, InsertChar(c)]) == Err(InsertPastEnd)
  {
    BackspaceAtEnd(lb);
    assert [Backspace, InsertChar(c)][1..] == [InsertChar(c)];
  }

  /** `Delete` with the cursor on a character removes that character and
      keeps the cursor; anywhere else it does nothing. */
  lemma DeleteSpec(lb: LineBuffer)
    ensures lb.ip < |lb.buffer| ==>
              Step(lb, Delete) == Ok(LineBuffer(lb.buffer[..lb.ip] + lb.buffer[lb.ip + 1..], lb.ip))
    ensures Step(lb, Delete) == Ok(lb) <==> |lb.buffer| <= lb.ip
  {
  }

  // ---------------------------------------------------------------------
  // Keeping the cursor inside the line
  // ---------------------------------------------------------------------

  /** From a well-placed cursor, a command that does not panic keeps the
      cursor inside the line unless it is `MoveRight` at the end or
      `Backspace` at the end of a non-empty line. */
  lemma StepWellPlaced(lb: LineBuffer, cmd: EditCommand)
    requires WellPlaced(lb) && Step(lb, cmd).Ok?
    ensures WellPlaced(Step(lb, cmd).value) <==> !LeavesLine(lb, cmd)
  {
  }

  /** Only `MoveLeft` and `MoveWordLeft` can panic on a well-placed cursor,
      and only with the cursor at 0. */
  lemma WellPlacedPanics(lb: LineBuffer, cmd: EditCommand)
    requires WellPlaced(lb)
    ensures Step(lb, cmd).Err? ==> lb.ip == 0 && (cmd == MoveLeft || cmd == MoveWordLeft)
    ensures Step(lb, cmd).Err? ==> Step(lb, cmd).error == SubtractOverflow
  {
  }

  /** The commands that bring a cursor from past the end back into the line. */
  lemma StepRestoresWellPlaced(lb: LineBuffer, cmd: EditCommand)
    requires |lb.buffer| < lb.ip && Step(lb, cmd).Ok?
    ensures WellPlaced(Step(lb, cmd).value) <==>
              (cmd.MoveToStart? || cmd.MoveToEnd? || cmd.MoveWordLeft? || cmd.MoveWordRight?
               || (cmd.MoveLeft? && lb.ip == |lb.buffer| + 1))
  {
  }

  /** A run with no `MoveRight` and no `Backspace`, from a well-placed
      cursor, keeps the cursor inside the line and never hits the
      `InsertChar` panic. */
  lemma {:induction false} RunKeepsWellPlaced(lb: LineBuffer, cs: seq<EditCommand>)
    requires WellPlaced(lb)
    requires forall i :: 0 <= i < |cs| ==> cs[i] != MoveRight && cs[i] != Backspace
    ensures Run(lb, cs).Ok? ==> WellPlaced(Run(lb, cs).value)
    ensures Run(lb, cs).Err? ==> Run(lb, cs).error == SubtractOverflow
    decreases |cs|
  {
    if |cs| > 0 {
      WellPlacedPanics(lb, cs[0]);
      match Step(lb, cs[0])
      case Err(p) =>
      case Ok(next) =>
        StepWellPlaced(lb, cs[0]);
        RunKeepsWellPlaced(next, cs[1..]);
    }
  }
}
