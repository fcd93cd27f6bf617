/** The text buffer of the line editor: the line's characters and the cursor
    (the "insertion point"), with the primitives of `src/line_buffer.rs`.

    Offsets in the source are byte offsets into a UTF-8 `String`. Characters
    here are restricted to ASCII, where every character is one byte, so a
    byte offset is a sequence index. Where the source would panic (unsigned
    underflow, an out-of-range `String` index) the primitive `requires` the
    condition that avoids the panic; the engine checks those conditions and
    reports the panic as a value. */
module LineBuffers {
  import opened Results

  /** A character that UTF-8 encodes in a single byte. */
  type AsciiChar = c: char | c as int < 128 witness 'a'

  /** `LineBuffer { buffer, insertion_point }`. The insertion point is a plain
      `usize`: nothing keeps it inside the buffer. */
  datatype LineBuffer = LineBuffer(buffer: seq<AsciiChar>, ip: nat)

  /** The cursor is inside the buffer or at its end. This is not an
      invariant of the source; the engine lemmas say which commands keep it. */
  predicate WellPlaced(lb: LineBuffer) {
    lb.ip <= |lb.buffer|
  }

  /** The pattern `&[' ', '\t']` that word motion searches for. */
  predicate IsDelimiter(c: char) {
    c == ' ' || c == '\t'
  }

  predicate HasDelimiter(s: seq<AsciiChar>) {
    exists j :: 0 <= j < |s| && IsDelimiter(s[j])
  }

  // ---------------------------------------------------------------------
  // Construction, cursor and accessors
  // ---------------------------------------------------------------------

  /** `LineBuffer::new`: an empty line with the cursor at 0. */
  function New(): (lb: LineBuffer)
    ensures lb.buffer == [] && lb.ip == 0
    ensures WellPlaced(lb)
  {
    LineBuffer([], 0)
  }

  /** `set_insertion_point`: any position is accepted, even one past the end. */
  function SetInsertionPoint(lb: LineBuffer, pos: nat): (r: LineBuffer)
    ensures r.buffer == lb.buffer && r.ip == pos
    ensures WellPlaced(r) <==> pos <= |lb.buffer|
  {
    lb.(ip := pos)
  }

  function GetInsertionPoint(lb: LineBuffer): nat {
    lb.ip
  }

  /** `inc_insertion_point`: one byte to the right, with no upper bound. */
  function IncInsertionPoint(lb: LineBuffer): (r: LineBuffer)
    ensures r.buffer == lb.buffer && r.ip == lb.ip + 1
  {
    lb.(ip := lb.ip + 1)
  }

  /** `dec_insertion_point`: one byte to the left; `insertion_point -= 1`
      underflows at 0. */
  function DecInsertionPoint(lb: LineBuffer): (r: LineBuffer)
    requires lb.ip >= 1
    ensures r.buffer == lb.buffer && r.ip + 1 == lb.ip
  {
    lb.(ip := lb.ip - 1)
  }

  function GetBuffer(lb: LineBuffer): seq<AsciiChar> {
    lb.buffer
  }

  function GetBufferLen(lb: LineBuffer): nat {
    |lb.buffer|
  }

  function IsEmpty(lb: LineBuffer): bool {
    |lb.buffer| == 0
  }

  /** `slice_buffer`: the text from `pos` on; `&buffer[pos..]` panics past the end. */
  function SliceBuffer(lb: LineBuffer, pos: nat): (r: seq<AsciiChar>)
    requires pos <= |lb.buffer|
    ensures |r| == |lb.buffer| - pos
    ensures lb.buffer[..pos] + r == lb.buffer
  {
    lb.buffer[pos..]
  }

  // ---------------------------------------------------------------------
  // Editing
  // ---------------------------------------------------------------------

  /** `insert_char`: `String::insert` at byte `pos`, which must not lie past
      the end. The cursor does not move. */
  function InsertChar(lb: LineBuffer, pos: nat, c: AsciiChar): (r: LineBuffer)
    requires pos <= |lb.buffer|
    ensures |r.buffer| == |lb.buffer| + 1
    ensures r.buffer[pos] == c
    ensures r.buffer[..pos] == lb.buffer[..pos] && r.buffer[pos + 1..] == lb.buffer[pos..]
    ensures r.ip == lb.ip
  {
    lb.(buffer := lb.buffer[..pos] + [c] + lb.buffer[pos..])
  }

  /** `remove_char`: `String::remove` at byte `pos`, which must name a
      character. Returns the removed character and the shortened buffer;
      the cursor does not move. */
  function RemoveChar(lb: LineBuffer, pos: nat): (r: (AsciiChar, LineBuffer))
    requires pos < |lb.buffer|
    ensures r.0 == lb.buffer[pos]
    ensures |r.1.buffer| + 1 == |lb.buffer|
    ensures r.1.buffer[..pos] + [r.0] + r.1.buffer[pos..] == lb.buffer
    ensures r.1.ip == lb.ip
  {
    (lb.buffer[pos], lb.(buffer := lb.buffer[..pos] + lb.buffer[pos + 1..]))
  }

  /** `pop`: `String::pop` drops the last character, if there is one.
      The cursor is left where it was, even when that is now past the end. */
  function Pop(lb: LineBuffer): (r: (Option<AsciiChar>, LineBuffer))
    ensures r.1.ip == lb.ip
    ensures |lb.buffer| == 0 ==> r.0 == None && r.1 == lb
    ensures |lb.buffer| > 0 ==> r.0.Some? && r.1.buffer + [r.0.value] == lb.buffer
  {
    if |lb.buffer| == 0 then (None, lb)
    else (Some(lb.buffer[|lb.buffer| - 1]), lb.(buffer := lb.buffer[..|lb.buffer| - 1]))
  }

  /** `clear`: empties the text and leaves the cursor where it was. */
  function Clear(lb: LineBuffer): (r: LineBuffer)
    ensures r.buffer == [] && r.ip == lb.ip
    ensures WellPlaced(r) <==> lb.ip == 0
  {
    lb.(buffer := [])
  }

  // ---------------------------------------------------------------------
  // Word motion
  // ---------------------------------------------------------------------

  /** Where `move_word_left` may put the cursor when it starts at `ip`: just
      after the last space or tab whose index is below `ip - 1`, or 0 when
      there is none. */
  ghost predicate IsWordLeftTarget(s: seq<AsciiChar>, ip: nat, t: nat) {
    && t <= |s|
    && (t == 0 || (t < ip && IsDelimiter(s[t - 1])))
    && forall j :: t <= j < |s| && j + 1 < ip ==> !IsDelimiter(s[j])
  }

  /** Where `move_word_right` may put the cursor when it starts at `ip`: just
      after the first space or tab whose index is above `ip`, or the end of
      the buffer when there is none. */
  ghost predicate IsWordRightTarget(s: seq<AsciiChar>, ip: nat, t: nat) {
    && t <= |s|
    && (t == |s| || (ip + 1 < t && IsDelimiter(s[t - 1])))
    && forall j :: ip < j && j + 1 < t ==> !IsDelimiter(s[j])
  }

  /** `rmatch_indices(&[' ', '\t']).find(|i| i < limit)` over `s[..n]`:
      the delimiters are visited from the right, and the first one below
      `limit` is the answer. */
  function RFindDelimiter(s: seq<AsciiChar>, limit: int, n: nat): (r: Option<nat>)
    requires n <= |s|
    ensures r.Some? ==> r.value < n && r.value < limit && IsDelimiter(s[r.value])
    ensures r.Some? ==> forall j :: r.value < j < n && j < limit ==> !IsDelimiter(s[j])
    ensures r.None? ==> forall j :: 0 <= j < n && j < limit ==> !IsDelimiter(s[j])
    decreases n
  {
    if n == 0 then None
    else if IsDelimiter(s[n - 1]) && n - 1 < limit then Some(n - 1)
    else RFindDelimiter(s, limit, n - 1)
  }

  /** `match_indices(&[' ', '\t']).find(|i| i > after)` over `s[k..]`:
      the delimiters are visited from the left, and the first one above
      `after` is the answer. */
  function FindDelimiter(s: seq<AsciiChar>, after: nat, k: nat): (r: Option<nat>)
    requires k <= |s|
    ensures r.Some? ==> k <= r.value < |s| && after < r.value && IsDelimiter(s[r.value])
    ensures r.Some? ==> forall j :: k <= j < r.value && after < j ==> !IsDelimiter(s[j])
    ensures r.None? ==> forall j :: k <= j < |s| && after < j ==> !IsDelimiter(s[j])
    decreases |s| - k
  {
    if k == |s| then None
    else if IsDelimiter(s[k]) && after < k then Some(k)
    else FindDelimiter(s, after, k + 1)
  }

  /** `move_word_left`. The closure computes `insertion_point - 1`, which
      underflows at 0, but only once a delimiter has been found: with the
      cursor at 0 it panics exactly when the buffer holds a space or tab.
      The resulting cursor is the new `ip`, which the source also returns. */
  function MoveWordLeft(lb: LineBuffer): (r: LineBuffer)
    requires lb.ip >= 1 || !HasDelimiter(lb.buffer)
    ensures r.buffer == lb.buffer
    ensures IsWordLeftTarget(lb.buffer, lb.ip, r.ip)
    ensures lb.ip >= 1 ==> r.ip < lb.ip
    ensures WellPlaced(r)
  {
    match RFindDelimiter(lb.buffer, lb.ip as int - 1, |lb.buffer|)
    case Some(i) => lb.(ip := i + 1)
    case None => lb.(ip := 0)
  }

  /** `move_word_right`. Never panics. The resulting cursor is the new `ip`,
      which the source also returns. */
  function MoveWordRight(lb: LineBuffer): (r: LineBuffer)
    ensures r.buffer == lb.buffer
    ensures IsWordRightTarget(lb.buffer, lb.ip, r.ip)
    ensures lb.ip < |lb.buffer| ==> lb.ip < r.ip
    ensures WellPlaced(r)
  {
    match FindDelimiter(lb.buffer, lb.ip, 0)
    case Some(i) => lb.(ip := i + 1)
    case None => lb.(ip := |lb.buffer|)
  }

  /** `move_to_end`, called by the engine but not defined in this
      `LineBuffer`: modelled as moving the cursor to the end of the text. */
  function MoveToEnd(lb: LineBuffer): (r: LineBuffer)
    ensures r.buffer == lb.buffer && r.ip == |lb.buffer|
    ensures WellPlaced(r)
  {
    lb.(ip := |lb.buffer|)
  }

  // ---------------------------------------------------------------------
  // Properties
  // ---------------------------------------------------------------------

  /** Stepping left then right, or right then left, returns to the start. */
  lemma IncDecInverse(lb: LineBuffer)
    ensures DecInsertionPoint(IncInsertionPoint(lb)) == lb
    ensures lb.ip >= 1 ==> IncInsertionPoint(DecInsertionPoint(lb)) == lb
  {
  }

  /** Removing the character just inserted gives back the character and the
      original buffer. */
  lemma InsertThenRemove(lb: LineBuffer, pos: nat, c: AsciiChar)
    requires pos <= |lb.buffer|
    ensures RemoveChar(InsertChar(lb, pos, c), pos) == (c, lb)
  {
    var s := InsertChar(lb, pos, c).buffer;
    assert s[..pos] + s[pos + 1..] == lb.buffer[..pos] + lb.buffer[pos..];
    assert lb.buffer[..pos] + lb.buffer[pos..] == lb.buffer;
  }

  /** Putting a removed character back where it was restores the buffer. */
  lemma RemoveThenInsert(lb: LineBuffer, pos: nat)
    requires pos < |lb.buffer|
    ensures InsertChar(RemoveChar(lb, pos).1, pos, RemoveChar(lb, pos).0) == lb
  {
  }

  /** `move_word_left` lands on `t` exactly when `t` is the word-left target. */
  lemma MoveWordLeftSpec(lb: LineBuffer, t: nat)
    requires lb.ip >= 1 || !HasDelimiter(lb.buffer)
    ensures MoveWordLeft(lb).ip == t <==> IsWordLeftTarget(lb.buffer, lb.ip, t)
  {
  }

  /** `move_word_right` lands on `t` exactly when `t` is the word-right target. */
  lemma MoveWordRightSpec(lb: LineBuffer, t: nat)
    ensures MoveWordRight(lb).ip == t <==> IsWordRightTarget(lb.buffer, lb.ip, t)
  {
  }
}
