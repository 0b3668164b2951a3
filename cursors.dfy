/**
 * The behaviour of `JsonStreamReader` (src/jsonstreamreader.cpp) as functions
 * on its state: the part of the character source not read yet and the
 * one-character pushback slot `lastChar`, where 0 means empty. The class in
 * module StreamReader is proved to do what these functions say.
 */
module Cursors {
  import opened Ascii
  import opened Failures

  /** The value of an empty pushback slot. */
  const EMPTY: int := 0
  /** The value `read()` returns once the source is exhausted. */
  const EOF: int := -1

  /** Reader state: the unread source and the pushback slot. */
  datatype Cursor = Cursor(input: seq<int>, slot: int)

  /** Termination measure: every `next` lowers it, no `peek` raises it. */
  function Measure(cur: Cursor): nat
  {
    2 * |cur.input| + if cur.slot != EMPTY then 1 else 0
  }

  /** The characters still to be delivered, the pushed-back one first. */
  function Pending(cur: Cursor): seq<int>
  {
    if cur.slot == EMPTY then cur.input else [cur.slot] + cur.input
  }

  /** The slot never holds the end marker: it only receives what `next` returned. */
  predicate Valid(cur: Cursor)
  {
    cur.slot != EOF
  }

  /** `read()`: the next source value, or -1 once the source is exhausted. */
  function Read(input: seq<int>): (r: (int, seq<int>))
    ensures input == [] ==> r == (EOF, [])
    ensures input != [] ==> r.0 == input[0] && r.1 == input[1..]
  {
    if input == [] then (EOF, []) else (input[0], input[1..])
  }

  /** The do-while loop of `next`: read, and read again while whitespace is to be skipped. */
  function ReadSkipping(input: seq<int>, ws: bool): (r: (int, seq<int>))
    ensures |r.1| <= |input| && r.1 == input[|input| - |r.1|..]
    ensures input != [] ==> |r.1| < |input|
    ensures !ws ==> r == Read(input)
    decreases |input|
  {
    var (c, rest) := Read(input);
    if IsSpace(c) && ws then ReadSkipping(rest, ws) else (c, rest)
  }

  /**
   * `next(ignoreWhitespace)`: a pushed-back character is returned first and
   * the slot emptied; otherwise the source is read, skipping whitespace when
   * asked, and an end marker or a NUL fails with "input stream corrupted!".
   */
  function Next(cur: Cursor, ws: bool): (r: Result<(int, Cursor)>)
    ensures r.Ok? ==> r.value.1.slot == EMPTY && Measure(r.value.1) < Measure(cur)
    ensures r.Ok? && Valid(cur) ==> r.value.0 != EMPTY && r.value.0 != EOF
    ensures r.Fail? ==> r.err == StreamException(Corrupted)
    ensures r.Ok? && !ws ==> Pending(cur) == [r.value.0] + Pending(r.value.1)
  {
    if cur.slot != EMPTY then
      Ok((cur.slot, Cursor(cur.input, EMPTY)))
    else
      var (c, rest) := ReadSkipping(cur.input, ws);
      if c == EOF || c == EMPTY then Fail(StreamException(Corrupted))
      else Ok((c, Cursor(rest, EMPTY)))
  }

  /** `peek(ignoreWhitespace)`: `next`, then the character is stored back in the slot. */
  function Peek(cur: Cursor, ws: bool): (r: Result<(int, Cursor)>)
    ensures r.Ok? ==> r.value.1.slot == r.value.0 && Measure(r.value.1) <= Measure(cur)
    ensures r.Ok? && Valid(cur) ==> Valid(r.value.1)
  {
    var p :- Next(cur, ws);
    Ok((p.0, Cursor(p.1.input, p.0)))
  }

  /** `checkNext(char x, ignoreWhitespace)`: one `next`, which must deliver `x`. */
  function CheckNextChar(cur: Cursor, x: int, ws: bool): (r: Result<Cursor>)
    ensures r.Ok? ==> r.value.slot == EMPTY && Measure(r.value) < Measure(cur)
  {
    var p :- Next(cur, ws);
    if p.0 != x then Fail(StreamException(Mismatch(x, p.0))) else Ok(p.1)
  }

  /** `checkNext(string s, ignoreWhitespace)`: `checkNext` on each character of `s` in turn. */
  function CheckNextString(cur: Cursor, s: Text, ws: bool): (r: Result<Cursor>)
    ensures r.Ok? ==> Measure(r.value) <= Measure(cur)
    ensures r.Ok? && s != [] ==> Measure(r.value) < Measure(cur) && r.value.slot == EMPTY
    decreases |s|
  {
    if s == [] then Ok(cur)
    else
      var next :- CheckNextChar(cur, s[0], ws);
      CheckNextString(next, s[1..], ws)
  }

  /** `next(int n, ignoreWhitespace)`: `""` at once for `n == 0`, otherwise `n` calls of `next`. */
  function NextN(cur: Cursor, n: int, ws: bool): (r: Result<(Text, Cursor)>)
    ensures r.Ok? ==> |r.value.0| == if n > 0 then n else 0
    ensures n <= 0 ==> r == Ok(([], cur))
  {
    if n == 0 then Ok(([], cur)) else NextNLoop(cur, n, 0, [], ws)
  }

  /** The `for` loop of `next(n)` from iteration `i`, with `acc` delivered so far. */
  function NextNLoop(cur: Cursor, n: int, i: nat, acc: Text, ws: bool): (r: Result<(Text, Cursor)>)
    decreases n - i
    ensures r.Ok? ==> acc <= r.value.0 && |r.value.0| == |acc| + (if n > i then n - i else 0)
  {
    if i >= n then Ok((acc, cur))
    else
      var p :- Next(cur, ws);
      NextNLoop(p.1, n, i + 1, acc + [p.0], ws)
  }

  /** The number of whitespace characters the source starts with. */
  function LeadingSpaces(input: seq<int>): (k: nat)
    ensures k <= |input|
    ensures forall j :: 0 <= j < k ==> IsSpace(input[j])
    ensures k < |input| ==> !IsSpace(input[k])
  {
    if input != [] && IsSpace(input[0]) then 1 + LeadingSpaces(input[1..]) else 0
  }

  /** A method result agrees with a specification result, `now` being the state after the call. */
  ghost predicate Agrees<T>(r: Result<T>, spec: Result<(T, Cursor)>, now: Cursor)
  {
    match spec
    case Ok(p) => r == Ok(p.0) && now == p.1
    case Fail(e) => r == Fail(e)
  }

  /** The same for the operations that return nothing. */
  ghost predicate AgreesUnit(r: Result<()>, spec: Result<Cursor>, now: Cursor)
  {
    match spec
    case Ok(c) => r == Ok(()) && now == c
    case Fail(e) => r == Fail(e)
  }

  // ---------------------------------------------------------------------
  // Properties of the reader
  // ---------------------------------------------------------------------

  /** A pushed-back character is returned and the slot emptied without reading, whatever `ws` is. */
  lemma {:induction false} NextFromSlot(cur: Cursor, ws: bool)
    requires cur.slot != EMPTY
    ensures Next(cur, ws) == Ok((cur.slot, Cursor(cur.input, EMPTY)))
  {
  }

  lemma {:induction false} SkipLeading(input: seq<int>)
    ensures var k := LeadingSpaces(input);
            ReadSkipping(input, true) == if k < |input| then (input[k], input[k + 1..]) else (EOF, [])
    decreases |input|
  {
    if input != [] && IsSpace(input[0]) {
      SkipLeading(input[1..]);
      var k := LeadingSpaces(input[1..]);
      if k < |input| - 1 {
        assert input[1..][k + 1..] == input[k + 2..];
      }
    }
  }

  /**
   * With an empty slot, `next(true)` discards the leading whitespace and
   * returns the first other character, while `next(false)` returns the very
   * next character even if it is whitespace; an end marker or NUL there fails.
   */
  lemma {:induction false} NextFromSource(input: seq<int>, ws: bool)
    ensures var k := if ws then LeadingSpaces(input) else 0;
            Next(Cursor(input, EMPTY), ws) ==
              if k < |input| && input[k] != EOF && input[k] != EMPTY
              then Ok((input[k], Cursor(input[k + 1..], EMPTY)))
              else Fail(StreamException(Corrupted))
  {
    if ws {
      SkipLeading(input);
    }
  }

  /** The first pending character is delivered when it is not whitespace to be skipped. */
  lemma {:induction false} NextDelivers(cur: Cursor, ws: bool)
    requires Pending(cur) != [] && Pending(cur)[0] != EOF && Pending(cur)[0] != EMPTY
    requires ws && cur.slot == EMPTY ==> !IsSpace(Pending(cur)[0])
    ensures Next(cur, ws) == Ok((Pending(cur)[0], Cursor(Pending(cur)[1..], EMPTY)))
  {
  }

  /** So is a peek, which leaves the character in the slot. */
  lemma {:induction false} PeekDelivers(cur: Cursor, ws: bool)
    requires Pending(cur) != [] && Pending(cur)[0] != EOF && Pending(cur)[0] != EMPTY
    requires ws && cur.slot == EMPTY ==> !IsSpace(Pending(cur)[0])
    ensures Peek(cur, ws) == Ok((Pending(cur)[0], Cursor(Pending(cur)[1..], Pending(cur)[0])))
  {
    NextDelivers(cur, ws);
  }

  /**
   * `peek` returns exactly what the following `next` returns, under either
   * whitespace policy, and the source is read once: the state after the
   * `next` is the state a lone `next` would have left.
   */
  lemma {:induction false} PeekThenNext(cur: Cursor, ws: bool, ws2: bool)
    requires Valid(cur)
    ensures Peek(cur, ws).Ok? <==> Next(cur, ws).Ok?
    ensures Peek(cur, ws).Ok? ==>
              Next(Peek(cur, ws).value.1, ws2) == Next(cur, ws)
  {
  }

  /** Peeking again returns the same character and changes nothing. */
  lemma {:induction false} PeekIdempotent(cur: Cursor, ws: bool, ws2: bool)
    requires Valid(cur) && Peek(cur, ws).Ok?
    ensures Peek(Peek(cur, ws).value.1, ws2) == Peek(cur, ws)
  {
  }

  /**
   * `checkNext(x)` consumes one character through `next` and fails, naming
   * the expected and the found character, exactly when that character is not `x`.
   */
  lemma {:induction false} CheckNextCharSpec(cur: Cursor, x: int, ws: bool)
    ensures CheckNextChar(cur, x, ws).Ok? <==> Next(cur, ws).Ok? && Next(cur, ws).value.0 == x
    ensures CheckNextChar(cur, x, ws).Ok? ==> CheckNextChar(cur, x, ws).value == Next(cur, ws).value.1
    ensures Next(cur, ws).Ok? && Next(cur, ws).value.0 != x ==>
              CheckNextChar(cur, x, ws) == Fail(StreamException(Mismatch(x, Next(cur, ws).value.0)))
  {
  }

  lemma {:induction false} CheckNextStringLoop(cur: Cursor, s: Text, ws: bool, i: nat, acc: Text)
    ensures var l := NextNLoop(cur, i + |s|, i, acc, ws);
            CheckNextString(cur, s, ws).Ok? <==> l.Ok? && l.value.0 == acc + s
    ensures var l := NextNLoop(cur, i + |s|, i, acc, ws);
            CheckNextString(cur, s, ws).Ok? ==> CheckNextString(cur, s, ws).value == l.value.1
    decreases |s|
  {
    if s != [] {
      var n := Next(cur, ws);
      if n.Ok? {
        var (c, after) := n.value;
        CheckNextStringLoop(after, s[1..], ws, i + 1, acc + [c]);
        var l := NextNLoop(after, i + |s|, i + 1, acc + [c], ws);
        if c == s[0] {
          assert acc + [c] + s[1..] == acc + s;
        } else if l.Ok? {
          assert l.value.0[|acc|] == c;
          assert (acc + s)[|acc|] == s[0];
        }
      }
    }
  }

  /**
   * `checkNext(s)` succeeds exactly when the next `|s|` characters delivered
   * under the same whitespace policy, as `next(|s|)` collects them, are `s`,
   * and then leaves the reader where `next(|s|)` does. For the empty string
   * nothing is read.
   */
  lemma {:induction false} NextNLoopDelivers(cur: Cursor, n: int, i: nat, acc: Text)
    ensures var r := NextNLoop(cur, n, i, acc, false);
            r.Ok? ==> Pending(cur) == r.value.0[|acc|..] + Pending(r.value.1)
    decreases n - i
  {
    if i < n {
      var p := Next(cur, false);
      if p.Ok? {
        var (c, after) := p.value;
        NextNLoopDelivers(after, n, i + 1, acc + [c]);
        var r := NextNLoop(cur, n, i, acc, false);
        assert r == NextNLoop(after, n, i + 1, acc + [c], false);
        if r.Ok? {
          var out := r.value.0;
          assert Pending(after) == out[|acc| + 1..] + Pending(r.value.1);
          assert out[|acc|] == c by {
            assert acc + [c] <= out;
          }
          assert out[|acc|..] == [c] + out[|acc| + 1..];
          assert Pending(cur) == [c] + Pending(after);
        }
      }
    }
  }

  /** `next(n, false)` returns exactly the next `n` pending characters. */
  lemma {:induction false} NextNDelivers(cur: Cursor, n: int)
    ensures var r := NextN(cur, n, false);
            r.Ok? ==> Pending(cur) == r.value.0 + Pending(r.value.1)
  {
    NextNLoopDelivers(cur, n, 0, []);
  }

  lemma {:induction false} CheckNextStringIsNextN(cur: Cursor, s: Text, ws: bool)
    ensures CheckNextString(cur, s, ws).Ok? <==>
              NextN(cur, |s|, ws).Ok? && NextN(cur, |s|, ws).value.0 == s
    ensures CheckNextString(cur, s, ws).Ok? ==>
              CheckNextString(cur, s, ws).value == NextN(cur, |s|, ws).value.1
    ensures s == [] ==> CheckNextString(cur, s, ws) == Ok(cur)
  {
    CheckNextStringLoop(cur, s, ws, 0, []);
  }

  /** The characters a reader can deliver at all: no end marker and no NUL. */
  predicate Deliverable(s: seq<int>)
  {
    forall j :: 0 <= j < |s| ==> s[j] != EOF && s[j] != EMPTY
  }

  /**
   * When the pending text starts with `s`, free of end markers and NULs,
   * and of whitespace if it is to be skipped, `checkNext(s)` consumes
   * exactly `s`.
   */
  lemma {:induction false} CheckNextStringDelivers(cur: Cursor, s: Text, rest: seq<int>, ws: bool)
    requires Valid(cur) && Pending(cur) == s + rest
    requires Deliverable(s) && (ws ==> NoSpace(s))
    ensures CheckNextString(cur, s, ws) == if s == [] then Ok(cur) else Ok(Cursor(rest, EMPTY))
    decreases |s|
  {
    if s != [] {
      assert Pending(cur)[0] == s[0] && Pending(cur)[1..] == s[1..] + rest;
      NextDelivers(cur, ws);
      var after := Cursor(s[1..] + rest, EMPTY);
      assert CheckNextChar(cur, s[0], ws) == Ok(after);
      assert Deliverable(s[1..]) && (ws ==> NoSpace(s[1..]));
      CheckNextStringDelivers(after, s[1..], rest, ws);
    }
  }

  /**
   * Checking `a + b` is checking `a` and then `b` from where `a` left the
   * reader; a mismatch in `a` is the mismatch of the whole.
   */
  lemma {:induction false} CheckNextStringAppend(cur: Cursor, a: Text, b: Text, ws: bool)
    ensures CheckNextString(cur, a, ws).Ok? ==>
              CheckNextString(cur, a + b, ws) == CheckNextString(CheckNextString(cur, a, ws).value, b, ws)
    ensures CheckNextString(cur, a, ws).Fail? ==> CheckNextString(cur, a + b, ws) == CheckNextString(cur, a, ws)
    decreases |a|
  {
    if a == [] {
      assert a + b == b;
    } else {
      assert (a + b)[0] == a[0] && (a + b)[1..] == a[1..] + b;
      var n := CheckNextChar(cur, a[0], ws);
      if n.Ok? {
        CheckNextStringAppend(n.value, a[1..], b, ws);
      }
    }
  }

  /** A successful check of a non-empty `s` starts with a `next` that delivers `s[0]`. */
  lemma {:induction false} CheckNextStringCons(cur: Cursor, s: Text, ws: bool)
    requires s != [] && CheckNextString(cur, s, ws).Ok?
    ensures Next(cur, ws).Ok? && Next(cur, ws).value.0 == s[0]
    ensures CheckNextString(Next(cur, ws).value.1, s[1..], ws) == CheckNextString(cur, s, ws)
  {
  }

  /** Checking one character is one `next` that delivers it. */
  lemma {:induction false} CheckNextStringOne(cur: Cursor, x: int, ws: bool, after: Cursor)
    ensures CheckNextString(cur, [x], ws) == Ok(after) <==> Next(cur, ws) == Ok((x, after))
  {
    assert [x][1..] == [];
  }
}
