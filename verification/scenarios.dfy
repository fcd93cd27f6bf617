/** Concrete runs of the engine on small lines. */
module Scenarios {
  import opened Results
  import opened LineBuffers
  import opened Engine
  import opened EngineProperties

  /** "foo bar baz" with the cursor at the end: `MoveWordLeft` goes to 8,
      then 4, then 0; a fourth one computes `0 - 1` and panics. */
  lemma WordLeftFooBarBaz()
    ensures Run(LineBuffer("foo bar baz", 11), [MoveWordLeft]) == Ok(LineBuffer("foo bar baz", 8))
    ensures Run(LineBuffer("foo bar baz", 8), [MoveWordLeft]) == Ok(LineBuffer("foo bar baz", 4))
    ensures Run(LineBuffer("foo bar baz", 4), [MoveWordLeft]) == Ok(LineBuffer("foo bar baz", 0))
    ensures Run(LineBuffer("foo bar baz", 0), [MoveWordLeft]) == Err(SubtractOverflow)
  {
    var s: seq<AsciiChar> := "foo bar baz";
    assert RFindDelimiter(s, 10, |s|) == Some(7);
    assert RFindDelimiter(s, 7, |s|) == Some(3);
    assert RFindDelimiter(s, 3, |s|) == None;
    assert IsDelimiter(s[3]);
  }

  /** "foo bar baz" with the cursor at 0: `MoveWordRight` goes to 4, then 8,
      then 11, and stays at 11. */
  lemma WordRightFooBarBaz()
    ensures Run(LineBuffer("foo bar baz", 0), [MoveWordRight]) == Ok(LineBuffer("foo bar baz", 4))
    ensures Run(LineBuffer("foo bar baz", 4), [MoveWordRight]) == Ok(LineBuffer("foo bar baz", 8))
    ensures Run(LineBuffer("foo bar baz", 8), [MoveWordRight]) == Ok(LineBuffer("foo bar baz", 11))
    ensures Run(LineBuffer("foo bar baz", 11), [MoveWordRight]) == Ok(LineBuffer("foo bar baz", 11))
  {
    var s: seq<AsciiChar> := "foo bar baz";
    assert IsDelimiter(s[3]) && IsDelimiter(s[7]);
    assert IsWordRightTarget(s, 0, 4);
    assert IsWordRightTarget(s, 4, 8);
    assert IsWordRightTarget(s, 8, 11);
    MoveWordRightSpec(LineBuffer(s, 0), 4);
    MoveWordRightSpec(LineBuffer(s, 4), 8);
    MoveWordRightSpec(LineBuffer(s, 8), 11);
  }

  /** "hello world" with the cursor at the end: five `Backspace`s remove only
      the final 'd'. The first one leaves the cursor at 11, past the new end,
      and the other four do nothing. */
  lemma BackspaceFiveFromEnd()
    ensures Run(LineBuffer("hello world", 11), Repeat(Backspace, 5)) == Ok(LineBuffer("hello worl", 11))
  {
    var s: seq<AsciiChar> := "hello world";
    BackspaceTwiceAtEnd(LineBuffer(s, 11), 4);
    assert s[..10] == "hello worl";
  }

  /** `Delete` on the empty line of a new engine changes nothing. */
  lemma DeleteOnEmpty()
    ensures Run(New(), [Delete]) == Ok(New())
  {
  }

  /** Typing "ab" into a new engine: the cursor never moves, so each
      character lands in front of the previous one. */
  lemma TypeTwoCharacters()
    ensures Run(New(), [InsertChar('a'), InsertChar('b')]) == Ok(LineBuffer("ba", 0))
  {
    var first := LineBuffer("a", 0);
    assert LineBuffers.InsertChar(New(), 0, 'a').buffer == "a";
    assert Step(New(), InsertChar('a')) == Ok(first);
    assert LineBuffers.InsertChar(first, 0, 'b').buffer == "ba";
    assert Step(first, InsertChar('b')) == Ok(LineBuffer("ba", 0));
    assert [InsertChar('a'), InsertChar('b')][1..] == [InsertChar('b')];
  }
}
