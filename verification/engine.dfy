/** The edit engine of `src/engine.rs`: the closed set of edit commands and
    `run_edit_commands`, which applies them one after another to the line
    buffer.

    The engine owns exactly one `LineBuffer` and nothing else, so its state
    is modelled as that `LineBuffer`; `Engine::new` is `LineBuffers.New`, and
    the one-line wrappers (`get_insertion_point`, `dec_insertion_point`,
    `pop`, ...) are the `LineBuffers` functions themselves.

    A command whose primitive would panic aborts the whole run. `Step` and
    `Run` return that panic as an `Err` instead of leaving it implicit. */
module Engine {
  import opened Results
  import opened LineBuffers

  /** `enum EditCommand`. */
  datatype EditCommand =
    | MoveToStart
    | MoveToEnd
    | MoveLeft
    | MoveRight
    | MoveWordLeft
    | MoveWordRight
    | InsertChar(c: AsciiChar)
    | Backspace
    | Delete

  /** The panics a command can raise. */
  datatype Panic =
    | SubtractOverflow   // `insertion_point - 1` with the insertion point at 0
    | InsertPastEnd      // `String::insert` at an index past the end of the text

  /** When applying `cmd` to `lb` panics, stated command by command. */
  predicate Panics(lb: LineBuffer, cmd: EditCommand) {
    || (cmd == MoveLeft && lb.ip == 0)
    || (cmd == MoveWordLeft && lb.ip == 0 && HasDelimiter(lb.buffer))
    || (cmd.InsertChar? && |lb.buffer| < lb.ip)
  }

  /** The `Backspace` arm. At the end of a non-empty line it pops the last
      character and leaves the cursor in place (the decrement is commented
      out); strictly inside the line it steps left and removes the character
      it stepped over; otherwise it does nothing. */
  function DoBackspace(lb: LineBuffer): (r: LineBuffer)
    ensures lb.ip == |lb.buffer| && |lb.buffer| > 0 ==>
              r.ip == lb.ip && r.buffer == lb.buffer[..|lb.buffer| - 1]
    ensures 0 < lb.ip < |lb.buffer| ==>
              r.ip + 1 == lb.ip && r.buffer == lb.buffer[..lb.ip - 1] + lb.buffer[lb.ip..]
    ensures |lb.buffer| == 0 || lb.ip == 0 || |lb.buffer| < lb.ip ==> r == lb
  {
    if GetInsertionPoint(lb) == GetBufferLen(lb) && !IsEmpty(lb) then
      Pop(lb).1
    else if GetInsertionPoint(lb) < GetBufferLen(lb) && GetInsertionPoint(lb) > 0 && !IsEmpty(lb) then
      var stepped := DecInsertionPoint(lb);
      RemoveChar(stepped, GetInsertionPoint(stepped)).1
    else
      lb
  }

  /** The `Delete` arm: removes the character under the cursor, if there is
      one; the cursor never moves. */
  function DoDelete(lb: LineBuffer): (r: LineBuffer)
    ensures r.ip == lb.ip
    ensures lb.ip < |lb.buffer| ==> r.buffer == lb.buffer[..lb.ip] + lb.buffer[lb.ip + 1..]
    ensures |lb.buffer| <= lb.ip ==> r == lb
  {
    if GetInsertionPoint(lb) < GetBufferLen(lb) && !IsEmpty(lb) then
      RemoveChar(lb, GetInsertionPoint(lb)).1
    else
      lb
  }

  /** One iteration of the loop in `run_edit_commands`. */
  function Step(lb: LineBuffer, cmd: EditCommand): (r: Result<LineBuffer, Panic>)
    ensures r.Err? <==> Panics(lb, cmd)
  {
    match cmd
    case MoveToStart => Ok(SetInsertionPoint(lb, 0))
    case MoveToEnd => Ok(LineBuffers.MoveToEnd(lb))
    case MoveLeft =>
      if lb.ip == 0 then Err(SubtractOverflow) else Ok(DecInsertionPoint(lb))
    case MoveRight => Ok(IncInsertionPoint(lb))
    case MoveWordLeft =>
      if lb.ip == 0 && HasDelimiter(lb.buffer) then Err(SubtractOverflow)
      else Ok(LineBuffers.MoveWordLeft(lb))
    case MoveWordRight => Ok(LineBuffers.MoveWordRight(lb))
    case InsertChar(c) =>
      if |lb.buffer| < lb.ip then Err(InsertPastEnd)
      else Ok(LineBuffers.InsertChar(lb, lb.ip, c))
    case Backspace => Ok(DoBackspace(lb))
    case Delete => Ok(DoDelete(lb))
  }

  /** The commands that can panic at all. */
  predicate MayPanic(cmd: EditCommand) {
    cmd == MoveLeft || cmd == MoveWordLeft || cmd.InsertChar?
  }

  /** `run_edit_commands`: the commands in order, each on the state the
      previous one left; the first panic ends the run. */
  function Run(lb: LineBuffer, cs: seq<EditCommand>): (r: Result<LineBuffer, Panic>)
    ensures r.Err? ==> exists i :: 0 <= i < |cs| && MayPanic(cs[i])
    decreases |cs|
  {
    if |cs| == 0 then Ok(lb)
    else
      match Step(lb, cs[0])
      case Err(p) => Err(p)
      case Ok(next) =>
        var r := Run(next, cs[1..]);
        assert r.Err? ==> exists i :: 1 <= i < |cs| && MayPanic(cs[i]) by {
          if r.Err? {
            var i :| 0 <= i < |cs[1..]| && MayPanic(cs[1..][i]);
            assert cs[i + 1] == cs[1..][i];
          }
        }
        r
  }

  /** Continues a run that may already have panicked. */
  function RunAfter(r: Result<LineBuffer, Panic>, cs: seq<EditCommand>): Result<LineBuffer, Panic> {
    match r
    case Err(p) => Err(p)
    case Ok(lb) => Run(lb, cs)
  }
}
