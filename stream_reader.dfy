/**
 * `JsonStreamReader` (src/jsonstreamreader.cpp) as a class: the character
 * source behind `read()`, the read position and the pushback slot
 * `lastChar`. Every method is proved to do what the function of the same
 * name in module Cursors says, so the properties proved there hold of it.
 * The overloads without a whitespace flag pass `false`; here they are the
 * default value of `ignoreWhitespace`.
 */
module StreamReader {
  import opened Ascii
  import opened Failures
  import opened Cursors

  class JsonStreamReader {
    /** What `read()` delivers, in order; reading past its end yields -1. */
    const source: seq<int>
    var pos: nat
    /** The pushback slot; 0 means empty. */
    var lastChar: int

    ghost predicate Valid()
      reads this
    {
      pos <= |source| && lastChar != EOF
    }

    /** The reader's state as the functions of module Cursors see it. */
    ghost function State(): (cur: Cursor)
      reads this
      requires Valid()
      ensures Cursors.Valid(cur)
    {
      Cursor(source[pos..], lastChar)
    }

    constructor (source: seq<int>)
      ensures Valid() && State() == Cursor(source, EMPTY)
    {
      this.source := source;
      pos := 0;
      lastChar := EMPTY;
    }

    /** The abstract `read()` of the underlying source. */
    method Read() returns (c: int)
      requires Valid()
      modifies this`pos
      ensures Valid()
      ensures (c, source[pos..]) == Cursors.Read(old(source[pos..]))
    {
      if pos < |source| {
        c := source[pos];
        pos := pos + 1;
      } else {
        c := EOF;
      }
    }

    method Next(ignoreWhitespace: bool := false) returns (r: Result<int>)
      requires Valid()
      modifies this
      ensures Valid()
      ensures Agrees(r, Cursors.Next(old(State()), ignoreWhitespace), State())
    {
      if lastChar != EMPTY {
        var t := lastChar;
        lastChar := EMPTY;
        return Ok(t);
      }
      ghost var input := source[pos..];
      var c := Read();
      while IsSpace(c) && ignoreWhitespace
        invariant Valid() && lastChar == EMPTY
        invariant ReadSkipping(input, ignoreWhitespace) ==
                    if IsSpace(c) && ignoreWhitespace then ReadSkipping(source[pos..], ignoreWhitespace)
                    else (c, source[pos..])
        decreases |source| - pos + if IsSpace(c) && ignoreWhitespace then 1 else 0
      {
        c := Read();
      }
      if c == EOF || c == EMPTY {
        return Fail(StreamException(Corrupted));
      }
      return Ok(c);
    }

    method Peek(ignoreWhitespace: bool := false) returns (r: Result<int>)
      requires Valid()
      modifies this
      ensures Valid()
      ensures Agrees(r, Cursors.Peek(old(State()), ignoreWhitespace), State())
    {
      var c :- Next(ignoreWhitespace);
      lastChar := c;
      return Ok(c);
    }

    method CheckNextChar(x: int, ignoreWhitespace: bool := false) returns (r: Result<()>)
      requires Valid()
      modifies this
      ensures Valid()
      ensures AgreesUnit(r, Cursors.CheckNextChar(old(State()), x, ignoreWhitespace), State())
    {
      var c :- Next(ignoreWhitespace);
      if c != x {
        return Fail(StreamException(Mismatch(x, c)));
      }
      return Ok(());
    }

    method CheckNextString(s: Text, ignoreWhitespace: bool := false) returns (r: Result<()>)
      requires Valid()
      modifies this
      ensures Valid()
      ensures AgreesUnit(r, Cursors.CheckNextString(old(State()), s, ignoreWhitespace), State())
    {
      ghost var goal := Cursors.CheckNextString(State(), s, ignoreWhitespace);
      for k := 0 to |s|
        invariant Valid()
        invariant Cursors.CheckNextString(State(), s[k..], ignoreWhitespace) == goal
      {
        var u :- CheckNextChar(s[k], ignoreWhitespace);
      }
      return Ok(());
    }

    method NextN(n: int, ignoreWhitespace: bool := false) returns (r: Result<Text>)
      requires Valid()
      modifies this
      ensures Valid()
      ensures Agrees(r, Cursors.NextN(old(State()), n, ignoreWhitespace), State())
    {
      if n == 0 {
        return Ok([]);
      }
      var ss: Text := [];
      var i: nat := 0;
      while i < n
        invariant Valid()
        invariant Cursors.NextNLoop(State(), n, i, ss, ignoreWhitespace) ==
                    Cursors.NextN(old(State()), n, ignoreWhitespace)
      {
        var c :- Next(ignoreWhitespace);
        ss := ss + [c];
        i := i + 1;
      }
      return Ok(ss);
    }
  }
}
