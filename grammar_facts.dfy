/**
 * Properties of the decoder's scanners (keys, strings, numbers) and of the
 * dispatch in `nextValue`, stated on the pending text of the reader: what
 * input is accepted, what it yields, where the reader is left and which
 * error ends a decode.
 */
module GrammarFacts {
  import opened Ascii
  import opened Json
  import opened Failures
  import opened Cursors
  import opened Numbers
  import opened Grammar

  // ---------------------------------------------------------------------
  // Reader steps used below
  // ---------------------------------------------------------------------

  /** Leading whitespace makes no difference to a reading that skips it. */
  lemma {:induction false} SkipSpaces(sp: seq<int>, rest: seq<int>)
    requires forall j :: 0 <= j < |sp| ==> IsSpace(sp[j])
    ensures ReadSkipping(sp + rest, true) == ReadSkipping(rest, true)
    decreases |sp|
  {
    if sp != [] {
      assert (sp + rest)[0] == sp[0] && (sp + rest)[1..] == sp[1..] + rest;
      assert Read(sp + rest) == (sp[0], sp[1..] + rest);
      assert IsSpace(sp[0]);
      assert ReadSkipping(sp + rest, true) == ReadSkipping(sp[1..] + rest, true);
      SkipSpaces(sp[1..], rest);
    } else {
      assert sp + rest == rest;
    }
  }

  lemma {:induction false} PeekSkipsSpaces(sp: seq<int>, rest: seq<int>)
    requires forall j :: 0 <= j < |sp| ==> IsSpace(sp[j])
    ensures Peek(Cursor(sp + rest, EMPTY), true) == Peek(Cursor(rest, EMPTY), true)
  {
    SkipSpaces(sp, rest);
    assert Next(Cursor(sp + rest, EMPTY), true) == Next(Cursor(rest, EMPTY), true);
  }

  lemma {:induction false} AppendEmpty(sb: Text)
    ensures sb + [] == sb
  {
  }

  /** Appending the first element of `s` and then the rest appends `s`. */
  lemma {:induction false} AppendCons(sb: Text, s: Text)
    requires s != []
    ensures (sb + [s[0]]) + s[1..] == sb + s
  {
  }

  // ---------------------------------------------------------------------
  // Keys
  // ---------------------------------------------------------------------

  /** Key characters are neither whitespace, end markers nor NULs. */
  lemma {:induction false} KeyCharsPlain(k: Text)
    requires AllKeyChars(k)
    ensures Deliverable(k) && NoSpace(k)
  {
  }

  /** One iteration of the key loop on a key character delivered by `next`. */
  lemma {:induction false} KeyStep(cur: Cursor, sb: Text, c: int, after: Cursor)
    requires Next(cur, false) == Ok((c, after)) && IsKeyChar(c) && |sb| < MAX_STRING_LENGTH
    ensures KeyLoop(cur, sb) == KeyLoop(after, sb + [c])
  {
  }

  /**
   * The key loop consumes the characters of `k`, as `checkNext` would, one
   * per iteration; `u` names the text it reaches.
   */
  lemma {:induction false} KeyRun(cur: Cursor, sb: Text, k: Text, at: Cursor, u: Text)
    requires CheckNextString(cur, k, false) == Ok(at) && AllKeyChars(k)
    requires |sb| + |k| <= MAX_STRING_LENGTH && u == sb + k
    ensures KeyLoop(cur, sb) == KeyLoop(at, u)
    decreases |k|
  {
    if k == [] {
      AppendEmpty(sb);
    } else {
      var c, more := k[0], k[1..];
      CheckNextStringCons(cur, k, false);
      var mid := Next(cur, false).value.1;
      KeyStep(cur, sb, c, mid);
      assert u == (sb + [c]) + more by { AppendCons(sb, k); }
      assert AllKeyChars(more);
      KeyRun(mid, sb + [c], more, at, u);
    }
  }

  /** The loop state once the characters of `k` have been read: at `at`, holding `k`. */
  lemma {:induction false} KeyPrefix(cur: Cursor, k: Text, rest: seq<int>) returns (at: Cursor)
    requires Valid(cur) && Pending(cur) == k + rest
    requires AllKeyChars(k) && |k| <= MAX_STRING_LENGTH
    ensures Valid(at) && Pending(at) == rest
    ensures NextKey(cur) == KeyLoop(at, k)
  {
    KeyCharsPlain(k);
    CheckNextStringDelivers(cur, k, rest, false);
    if k == [] {
      at := cur;
      assert k + rest == rest;
    } else {
      at := Cursor(rest, EMPTY);
    }
    assert [] + k == k;
    KeyRun(cur, [], k, at, k);
  }

  /**
   * A key of 1 to 1023 key characters followed by `"` is read back exactly,
   * and the reader is left after the quote.
   */
  lemma {:induction false} NextKeyRoundTrip(cur: Cursor, k: Text, rest: seq<int>)
    requires Valid(cur) && IsKey(k) && Pending(cur) == k + ([QUOTE] + rest)
    ensures NextKey(cur) == Ok((k, Cursor(rest, EMPTY)))
  {
    var at := KeyPrefix(cur, k, [QUOTE] + rest);
    NextDelivers(at, false);
    KeyCharsPlain(k);
  }

  /** The text before the closing quote, the characters collected so far excluded, then the quote, then what is left. */
  ghost predicate KeyDelivered(cur: Cursor, sb: Text)
    requires AllKeyChars(sb)
  {
    var r := KeyLoop(cur, sb);
    r.Ok? ==> Pending(cur) == r.value.0[|sb|..] + ([QUOTE] + Pending(r.value.1))
  }

  lemma {:induction false} AppendAssoc(a: seq<int>, b: seq<int>, c: seq<int>)
    ensures (a + b) + c == a + (b + c)
  {
  }

  lemma {:induction false} KeyDeliveredQuote(cur: Cursor, sb: Text, after: Cursor)
    requires AllKeyChars(sb) && |sb| < MAX_STRING_LENGTH
    requires Next(cur, false) == Ok((QUOTE, after))
    ensures KeyDelivered(cur, sb)
  {
    KeyCharsPlain(sb);
    var r := KeyLoop(cur, sb);
    if r.Ok? {
      assert r.value == (sb, after);
      assert r.value.0[|sb|..] == [];
    }
  }

  lemma {:induction false} KeyDeliveredChar(cur: Cursor, sb: Text, c: int, after: Cursor)
    requires AllKeyChars(sb) && |sb| < MAX_STRING_LENGTH
    requires Next(cur, false) == Ok((c, after)) && IsKeyChar(c)
    requires AllKeyChars(sb + [c]) && KeyDelivered(after, sb + [c])
    ensures KeyDelivered(cur, sb)
  {
    var r := KeyLoop(cur, sb);
    assert r == KeyLoop(after, sb + [c]);
    if r.Ok? {
      var key, tail := r.value.0, [QUOTE] + Pending(r.value.1);
      assert Pending(after) == key[|sb| + 1..] + tail;
      assert key[|sb|..] == [c] + key[|sb| + 1..] by {
        assert sb + [c] <= key;
      }
      AppendAssoc([c], key[|sb| + 1..], tail);
    }
  }

  /** Whatever the key loop returns is the text read before the closing quote. */
  lemma {:induction false} KeyLoopDelivers(cur: Cursor, sb: Text)
    requires AllKeyChars(sb)
    ensures KeyDelivered(cur, sb)
    decreases MAX_STRING_LENGTH - |sb|
  {
    if |sb| < MAX_STRING_LENGTH && Next(cur, false).Ok? {
      var p := Next(cur, false).value;
      if p.0 == QUOTE {
        KeyDeliveredQuote(cur, sb, p.1);
      } else if IsKeyChar(p.0) && !IsSpace(p.0) {
        assert AllKeyChars(sb + [p.0]);
        KeyLoopDelivers(p.1, sb + [p.0]);
        KeyDeliveredChar(cur, sb, p.0, p.1);
      }
    }
  }

  /** Conversely, whatever `nextKey` returns is exactly the text before the closing quote. */
  lemma {:induction false} NextKeyDelivers(cur: Cursor)
    ensures var r := NextKey(cur);
            r.Ok? ==> IsKey(r.value.0) && Pending(cur) == r.value.0 + ([QUOTE] + Pending(r.value.1))
  {
    KeyLoopDelivers(cur, []);
  }

  /** A closing quote right away fails with "key is empty". */
  lemma {:induction false} EmptyKey(cur: Cursor, rest: seq<int>)
    requires Valid(cur) && Pending(cur) == [QUOTE] + rest
    ensures NextKey(cur) == Fail(JsonException(KeyEmpty))
  {
    NextDelivers(cur, false);
    assert NoSpace([]);
  }

  /**
   * Whitespace or any character that is neither a key character nor `"`
   * fails with "key contains invalide char!".
   */
  lemma {:induction false} KeyForeignChar(cur: Cursor, k: Text, c: int, rest: seq<int>)
    requires Valid(cur) && Pending(cur) == k + ([c] + rest)
    requires AllKeyChars(k) && |k| < MAX_STRING_LENGTH
    requires !IsKeyChar(c) && c != QUOTE && c != EOF && c != EMPTY
    ensures NextKey(cur) == Fail(JsonException(KeyInvalidChar))
  {
    var at := KeyPrefix(cur, k, [c] + rest);
    NextDelivers(at, false);
  }

  /** Whitespace in a key is one such character. */
  lemma {:induction false} KeyWithSpace(cur: Cursor, k: Text, c: int, rest: seq<int>)
    requires Valid(cur) && Pending(cur) == k + ([c] + rest)
    requires AllKeyChars(k) && |k| < MAX_STRING_LENGTH && IsSpace(c)
    ensures NextKey(cur) == Fail(JsonException(KeyInvalidChar))
  {
    KeyForeignChar(cur, k, c, rest);
  }

  /** 1024 key characters exhaust the loop: "maximum string-length reached!". */
  lemma {:induction false} KeyTooLong(cur: Cursor, k: Text, rest: seq<int>)
    requires Valid(cur) && Pending(cur) == k + rest
    requires AllKeyChars(k) && |k| == MAX_STRING_LENGTH
    ensures NextKey(cur) == Fail(JsonException(MaxLengthReached))
  {
    var at := KeyPrefix(cur, k, rest);
  }

  // ---------------------------------------------------------------------
  // Strings
  // ---------------------------------------------------------------------

  /** The escaped form of one character, the partner of `Unescape`. */
  function EscapeChar(c: int): (t: Text)
    ensures 1 <= |t| <= 2
  {
    if c == QUOTE then [BACKSLASH, QUOTE]
    else if c == BACKSLASH then [BACKSLASH, BACKSLASH]
    else if c == 8 then [BACKSLASH, 'b' as int]
    else if c == 9 then [BACKSLASH, 't' as int]
    else if c == 10 then [BACKSLASH, 'n' as int]
    else if c == 12 then [BACKSLASH, 'f' as int]
    else if c == 13 then [BACKSLASH, 'r' as int]
    else [c]
  }

  /** A text with every character escaped where needed. */
  function Escaped(s: Text): Text
  {
    if s == [] then [] else EscapeChar(s[0]) + Escaped(s[1..])
  }

  /** Every escape `EscapeChar` writes is undone by `Unescape`. */
  lemma {:induction false} UnescapeEscape(c: int)
    requires |EscapeChar(c)| == 2
    ensures EscapeChar(c)[0] == BACKSLASH && Unescape(EscapeChar(c)[1]) == Ok([c])
  {
  }

  lemma {:induction false} DeliverableAppend(a: seq<int>, b: seq<int>)
    requires Deliverable(a) && Deliverable(b)
    ensures Deliverable(a + b)
  {
  }

  /** Escaping adds only backslashes and letters, so a deliverable text stays deliverable. */
  lemma {:induction false} EscapedDeliverable(s: Text)
    requires Deliverable(s)
    ensures Deliverable(Escaped(s))
    decreases |s|
  {
    if s != [] {
      assert Deliverable(s[1..]);
      EscapedDeliverable(s[1..]);
      assert Deliverable(EscapeChar(s[0]));
      DeliverableAppend(EscapeChar(s[0]), Escaped(s[1..]));
    }
  }

  /** One iteration of the string loop on a character that needs no escape. */
  lemma {:induction false} StringStepPlain(cur: Cursor, i: nat, sb: Text, c: int, after: Cursor)
    requires Next(cur, false) == Ok((c, after)) && i < MAX_STRING_LENGTH
    requires c != BACKSLASH && c != QUOTE && c != NEWLINE && c != RETURN
    ensures StringChars(cur, i, sb) == StringChars(after, i + 1, sb + [c])
  {
  }

  /** One iteration of the string loop on a backslash and the character after it. */
  lemma {:induction false} StringStepEscape(cur: Cursor, i: nat, sb: Text, e: int, mid: Cursor, after: Cursor)
    requires Next(cur, false) == Ok((BACKSLASH, mid)) && Next(mid, false) == Ok((e, after))
    requires i < MAX_STRING_LENGTH && Unescape(e).Ok?
    ensures StringChars(cur, i, sb) == StringChars(after, i + 1, sb + Unescape(e).value)
  {
  }

  /** One iteration of the string loop reads the escaped form of one character. */
  lemma {:induction false} StringStep(cur: Cursor, i: nat, sb: Text, c: int, after: Cursor)
    requires CheckNextString(cur, EscapeChar(c), false) == Ok(after) && i < MAX_STRING_LENGTH
    ensures StringChars(cur, i, sb) == StringChars(after, i + 1, sb + [c])
  {
    var e := EscapeChar(c);
    CheckNextStringCons(cur, e, false);
    var mid := Next(cur, false).value.1;
    if |e| == 2 {
      UnescapeEscape(c);
      assert e[1..] == [e[1]];
      CheckNextStringOne(mid, e[1], false, after);
      StringStepEscape(cur, i, sb, e[1], mid, after);
    } else {
      assert e == [c] && e[1..] == [];
      StringStepPlain(cur, i, sb, c, after);
    }
  }

  /**
   * From `cur` the reader delivers the escaped form of `s`, one character
   * of `s` at a time, as `checkNext` would consume it, and ends at `at`.
   */
  ghost predicate ReadsEscaped(cur: Cursor, s: Text, at: Cursor)
    decreases |s|
  {
    if s == [] then at == cur
    else
      var h := CheckNextString(cur, EscapeChar(s[0]), false);
      h.Ok? && ReadsEscaped(h.value, s[1..], at)
  }

  lemma {:induction false} EscapedReads(cur: Cursor, s: Text, at: Cursor)
    requires CheckNextString(cur, Escaped(s), false) == Ok(at)
    ensures ReadsEscaped(cur, s, at)
    decreases |s|
  {
    if s != [] {
      assert Escaped(s) == EscapeChar(s[0]) + Escaped(s[1..]);
      CheckNextStringAppend(cur, EscapeChar(s[0]), Escaped(s[1..]), false);
      EscapedReads(CheckNextString(cur, EscapeChar(s[0]), false).value, s[1..], at);
    }
  }

  /**
   * The string loop reads the escaped form of `s` one character of `s` per
   * iteration; `j` and `t` name the iteration count and the text it reaches.
   */
  lemma {:induction false} StringRun(cur: Cursor, i: nat, sb: Text, s: Text, at: Cursor, j: nat, t: Text)
    requires ReadsEscaped(cur, s, at) && i + |s| <= MAX_STRING_LENGTH
    requires j == i + |s| && t == sb + s
    ensures StringChars(cur, i, sb) == StringChars(at, j, t)
    decreases |s|
  {
    if s == [] {
      AppendEmpty(sb);
    } else {
      var mid := StringRunTail(cur, i, sb, s, at, j, t);
      StringRun(mid, i + 1, sb + [s[0]], s[1..], at, j, t);
      StringStep(cur, i, sb, s[0], mid);
    }
  }

  /** What the characters after the first still satisfy once the first is read. */
  lemma {:induction false} StringRunTail(cur: Cursor, i: nat, sb: Text, s: Text, at: Cursor, j: nat, t: Text)
    returns (mid: Cursor)
    requires ReadsEscaped(cur, s, at) && s != [] && i + |s| <= MAX_STRING_LENGTH
    requires j == i + |s| && t == sb + s
    ensures CheckNextString(cur, EscapeChar(s[0]), false) == Ok(mid) && ReadsEscaped(mid, s[1..], at)
    ensures i < MAX_STRING_LENGTH && i + 1 + |s[1..]| <= MAX_STRING_LENGTH
    ensures j == i + 1 + |s[1..]| && t == (sb + [s[0]]) + s[1..]
  {
    mid := CheckNextString(cur, EscapeChar(s[0]), false).value;
    AppendCons(sb, s);
  }

  /** The loop state once the escaped form of `s` has been read: at `at`, in iteration `|s|`, holding `s`. */
  lemma {:induction false} StringPrefix(cur: Cursor, s: Text, rest: seq<int>) returns (at: Cursor)
    requires Valid(cur) && Pending(cur) == Escaped(s) + rest
    requires Deliverable(s) && |s| <= MAX_STRING_LENGTH
    ensures Valid(at) && Pending(at) == rest
    ensures StringChars(cur, 0, []) == StringChars(at, |s|, s)
  {
    EscapedDeliverable(s);
    CheckNextStringDelivers(cur, Escaped(s), rest, false);
    if s == [] {
      at := cur;
      assert Escaped(s) + rest == rest;
    } else {
      at := Cursor(rest, EMPTY);
      assert Escaped(s) != [];
    }
    assert [] + s == s;
    EscapedReads(cur, s, at);
    StringRun(cur, 0, [], s, at, |s|, s);
  }

  /** The closing quote ends the loop. */
  lemma {:induction false} StringQuoteStep(cur: Cursor, i: nat, sb: Text, rest: seq<int>)
    requires Valid(cur) && Pending(cur) == [QUOTE] + rest && i < MAX_STRING_LENGTH
    ensures StringChars(cur, i, sb) == Ok((sb, Cursor(rest, EMPTY)))
  {
    NextDelivers(cur, false);
  }

  /**
   * `nextString` reads the escaped form of any text of fewer than 1024
   * characters back up to the closing quote, and leaves the reader after it.
   */
  lemma {:induction false} NextStringRoundTrip(cur: Cursor, s: Text, rest: seq<int>)
    requires Valid(cur) && Pending(cur) == Escaped(s) + ([QUOTE] + rest)
    requires Deliverable(s) && |s| < MAX_STRING_LENGTH
    ensures NextString(cur) == Ok((String(s), Cursor(rest, EMPTY)))
  {
    var at := StringPrefix(cur, s, [QUOTE] + rest);
    StringQuoteStep(at, |s|, s, rest);
  }

  /** A raw line feed or carriage return fails with "invalid char". */
  lemma {:induction false} RawLineBreak(cur: Cursor, s: Text, c: int, rest: seq<int>)
    requires Valid(cur) && Pending(cur) == Escaped(s) + ([c] + rest)
    requires Deliverable(s) && |s| < MAX_STRING_LENGTH && (c == NEWLINE || c == RETURN)
    ensures NextString(cur) == Fail(JsonException(InvalidChar))
  {
    var at := StringPrefix(cur, s, [c] + rest);
    NextDelivers(at, false);
  }

  /** A backslash and the character after it, as the string loop sees them. */
  lemma {:induction false} StringBackslash(cur: Cursor, i: nat, sb: Text, e: int, rest: seq<int>)
    requires Valid(cur) && Pending(cur) == [BACKSLASH, e] + rest
    requires e != EOF && e != EMPTY && i < MAX_STRING_LENGTH
    ensures StringChars(cur, i, sb) ==
              if Unescape(e).Ok? then StringChars(Cursor(rest, EMPTY), i + 1, sb + Unescape(e).value)
              else Fail(JsonException(InvalidEscape))
  {
    var mid := Cursor([e] + rest, EMPTY);
    assert Next(cur, false) == Ok((BACKSLASH, mid)) by {
      assert Pending(cur)[0] == BACKSLASH && Pending(cur)[1..] == [e] + rest;
      NextDelivers(cur, false);
    }
    assert Next(mid, false) == Ok((e, Cursor(rest, EMPTY))) by {
      assert Pending(mid)[0] == e && Pending(mid)[1..] == rest;
      NextDelivers(mid, false);
    }
    if Unescape(e).Ok? {
      StringStepEscape(cur, i, sb, e, mid, Cursor(rest, EMPTY));
    }
  }

  /** A backslash before anything outside the escape table fails with "invalid escape-sequence". */
  lemma {:induction false} BadEscape(cur: Cursor, s: Text, e: int, rest: seq<int>)
    requires Valid(cur) && Pending(cur) == Escaped(s) + ([BACKSLASH, e] + rest)
    requires Deliverable(s) && |s| < MAX_STRING_LENGTH && e != EOF && e != EMPTY
    requires Unescape(e).Fail?
    ensures NextString(cur) == Fail(JsonException(InvalidEscape))
  {
    var at := StringPrefix(cur, s, [BACKSLASH, e] + rest);
    StringBackslash(at, |s|, s, e, rest);
  }

  /** The escape `\u` as one iteration of the string loop: nothing is appended. */
  lemma {:induction false} UnicodeStep(cur: Cursor, i: nat, sb: Text, rest: seq<int>)
    requires Valid(cur) && Pending(cur) == [BACKSLASH, 'u' as int] + rest && i < MAX_STRING_LENGTH
    ensures StringChars(cur, i, sb) == StringChars(Cursor(rest, EMPTY), i + 1, sb)
  {
    assert Unescape('u' as int) == Ok([]);
    StringBackslash(cur, i, sb, 'u' as int, rest);
    AppendEmpty(sb);
  }

  /** The `\u` iteration after the loop has read the escaped form of `s`. */
  lemma {:induction false} UnicodeThen(cur: Cursor, at: Cursor, s: Text, rest: seq<int>)
    requires Valid(at) && Pending(at) == [BACKSLASH, 'u' as int] + rest && |s| < MAX_STRING_LENGTH
    requires StringChars(cur, 0, []) == StringChars(at, |s|, s)
    ensures StringChars(cur, 0, []) == StringChars(Cursor(rest, EMPTY), |s| + 1, s)
  {
    var before, after := StringChars(at, |s|, s), StringChars(Cursor(rest, EMPTY), |s| + 1, s);
    assert before == after by {
      UnicodeStep(at, |s|, s, rest);
    }
  }

  /**
   * `\u` appends nothing and uses up one iteration; the four hexadecimal
   * digits after it are read as ordinary characters of the string.
   */
  lemma {:induction false} UnicodeEscapeDropped(cur: Cursor, s: Text, rest: seq<int>)
    requires Valid(cur) && Pending(cur) == Escaped(s) + ([BACKSLASH, 'u' as int] + rest)
    requires Deliverable(s) && |s| < MAX_STRING_LENGTH
    ensures StringChars(cur, 0, []) == StringChars(Cursor(rest, EMPTY), |s| + 1, s)
  {
    var at := StringPrefix(cur, s, [BACKSLASH, 'u' as int] + rest);
    UnicodeThen(cur, at, s, rest);
  }

  /** 1024 characters without a closing quote: "maximum string-length reached!". */
  lemma {:induction false} StringTooLong(cur: Cursor, s: Text, rest: seq<int>)
    requires Valid(cur) && Pending(cur) == Escaped(s) + rest
    requires Deliverable(s) && |s| == MAX_STRING_LENGTH
    ensures NextString(cur) == Fail(JsonException(MaxLengthReached))
  {
    var at := StringPrefix(cur, s, rest);
  }

  // ---------------------------------------------------------------------
  // Numbers
  // ---------------------------------------------------------------------

  predicate AllNumberChars(t: Text)
  {
    forall j :: 0 <= j < |t| ==> IsNumberChar(t[j])
  }

  /** Number characters are neither delimiters, whitespace, end markers nor NULs. */
  lemma {:induction false} NumberCharsPlain(t: Text)
    requires AllNumberChars(t)
    ensures Deliverable(t) && NoSpace(t)
    ensures forall j :: 0 <= j < |t| ==> !IsDelimiter(t[j])
  {
  }

  /** One iteration of the number loop on a number character delivered by `next`. */
  lemma {:induction false} NumberStep(cur: Cursor, strict: bool, sb: Text, c: int, after: Cursor)
    requires Next(cur, !strict) == Ok((c, after)) && IsNumberChar(c) && |sb| < MAX_STRING_LENGTH
    ensures NumberChars(cur, strict, sb) == NumberChars(after, strict, sb + [c])
  {
    var peeked := Cursor(after.input, c);
    assert Peek(cur, !strict) == Ok((c, peeked));
    assert Next(peeked, false) == Ok((c, after));
  }

  /**
   * The number loop consumes the characters of `t`, as `checkNext` would,
   * one per iteration; `u` names the token it reaches.
   */
  lemma {:induction false} NumberRun(cur: Cursor, strict: bool, sb: Text, t: Text, at: Cursor, u: Text)
    requires CheckNextString(cur, t, !strict) == Ok(at) && AllNumberChars(t)
    requires |sb| + |t| <= MAX_STRING_LENGTH && u == sb + t
    ensures NumberChars(cur, strict, sb) == NumberChars(at, strict, u)
    decreases |t|
  {
    if t == [] {
      AppendEmpty(sb);
    } else {
      var c, more := t[0], t[1..];
      CheckNextStringCons(cur, t, !strict);
      var mid := Next(cur, !strict).value.1;
      NumberStep(cur, strict, sb, c, mid);
      assert u == (sb + [c]) + more by { AppendCons(sb, t); }
      assert AllNumberChars(more);
      NumberRun(mid, strict, sb + [c], more, at, u);
    }
  }

  /** The loop state once the characters of `t` have been read: at `at`, holding `t`. */
  lemma {:induction false} NumberPrefix(cur: Cursor, strict: bool, t: Text, rest: seq<int>) returns (at: Cursor)
    requires Valid(cur) && Pending(cur) == t + rest
    requires AllNumberChars(t) && |t| <= MAX_STRING_LENGTH
    ensures Valid(at) && Pending(at) == rest && (t != [] ==> at.slot == EMPTY)
    ensures NextNumber(cur, strict) == NumberChars(at, strict, t)
  {
    NumberCharsPlain(t);
    CheckNextStringDelivers(cur, t, rest, !strict);
    if t == [] {
      at := cur;
      assert t + rest == rest;
    } else {
      at := Cursor(rest, EMPTY);
    }
    assert [] + t == t;
    NumberRun(cur, strict, [], t, at, t);
  }

  /**
   * `nextNumber` collects the number characters up to a delimiter, converts
   * them with `parseNumber` and leaves the delimiter in the slot.
   */
  lemma {:induction false} NextNumberReads(cur: Cursor, strict: bool, t: Text, d: int, rest: seq<int>)
    requires Valid(cur) && Pending(cur) == t + ([d] + rest)
    requires AllNumberChars(t) && |t| < MAX_STRING_LENGTH && IsDelimiter(d)
    ensures NextNumber(cur, strict) ==
              if ParseNumber(t).Ok? then Ok((ParseNumber(t).value, Cursor(rest, d)))
              else Fail(ParseNumber(t).err)
  {
    var at := NumberPrefix(cur, strict, t, [d] + rest);
    PeekDelivers(at, !strict);
  }

  /** 1024 number characters without a delimiter: "maximum string-length reached!". */
  lemma {:induction false} NumberTooLong(cur: Cursor, strict: bool, t: Text, rest: seq<int>)
    requires Valid(cur) && Pending(cur) == t + rest
    requires AllNumberChars(t) && |t| == MAX_STRING_LENGTH
    ensures NextNumber(cur, strict) == Fail(JsonException(MaxLengthReached))
  {
    var at := NumberPrefix(cur, strict, t, rest);
  }

  /**
   * Any character that is neither a number character nor a delimiter fails
   * with "parsing error"; in non-strict mode whitespace is skipped instead,
   * so there the character must not be whitespace.
   */
  lemma {:induction false} NumberForeignChar(cur: Cursor, strict: bool, t: Text, c: int, rest: seq<int>)
    requires Valid(cur) && Pending(cur) == t + ([c] + rest)
    requires AllNumberChars(t) && |t| < MAX_STRING_LENGTH
    requires !IsNumberChar(c) && !IsDelimiter(c) && c != EOF && c != EMPTY
    requires strict || !IsSpace(c)
    ensures NextNumber(cur, strict) == Fail(JsonException(ParsingError))
  {
    var at := NumberPrefix(cur, strict, t, [c] + rest);
    PeekDelivers(at, !strict);
    var peeked := Cursor(rest, c);
    assert Next(peeked, false) == Ok((c, Cursor(rest, EMPTY)));
  }

  /** In strict mode whitespace inside or after a number is such a character. */
  lemma {:induction false} StrictNumberSpace(cur: Cursor, t: Text, c: int, rest: seq<int>)
    requires Valid(cur) && Pending(cur) == t + ([c] + rest)
    requires AllNumberChars(t) && |t| < MAX_STRING_LENGTH && IsSpace(c)
    ensures NextNumber(cur, true) == Fail(JsonException(ParsingError))
  {
    NumberForeignChar(cur, true, t, c, rest);
  }

  /** In non-strict mode whitespace between number characters is dropped: `1 2` reads as `12`. */
  lemma {:induction false} NumberSpacesSkipped(t: Text, sp: seq<int>, rest: seq<int>)
    requires t != [] && AllNumberChars(t) && |t| < MAX_STRING_LENGTH
    requires forall j :: 0 <= j < |sp| ==> IsSpace(sp[j])
    ensures NextNumber(Cursor(t + (sp + rest), EMPTY), false) == NextNumber(Cursor(t + rest, EMPTY), false)
  {
    var spaced := NumberPrefix(Cursor(t + (sp + rest), EMPTY), false, t, sp + rest);
    var plain := NumberPrefix(Cursor(t + rest, EMPTY), false, t, rest);
    PeekSkipsSpaces(sp, rest);
    assert Peek(spaced, true) == Peek(plain, true);
  }

  /**
   * The tokenizer knows no hexadecimal letters except `e` and `E`: `0x1A`
   * fails with "parsing error" at the `A`.
   */
  lemma {:induction false} HexLetterRejected(rest: seq<int>, strict: bool)
    ensures NextNumber(Cursor(Chars("0x1A") + rest, EMPTY), strict) == Fail(JsonException(ParsingError))
  {
    var t := ['0' as int, 'x' as int, '1' as int];
    assert Chars("0x1A") == t + ['A' as int];
    assert Chars("0x1A") + rest == t + (['A' as int] + rest);
    NumberForeignChar(Cursor(Chars("0x1A") + rest, EMPTY), strict, t, 'A' as int, rest);
  }

  /** `0x1e5` is collected in full and, hex being tested first, converted to 485. */
  lemma {:induction false} HexWithExponentLetter(d: int, rest: seq<int>, strict: bool)
    requires IsDelimiter(d)
    ensures NextNumber(Cursor(Chars("0x1e5") + ([d] + rest), EMPTY), strict) == Ok((Integer(485), Cursor(rest, d)))
  {
    var t := Chars("0x1e5");
    assert t == ['0' as int, 'x' as int, '1' as int, 'e' as int, '5' as int];
    assert AllNumberChars(t);
    HexBeforeFloat();
    NextNumberReads(Cursor(t + ([d] + rest), EMPTY), strict, t, d, rest);
  }

  // ---------------------------------------------------------------------
  // The dispatch of nextValue
  // ---------------------------------------------------------------------

  /**
   * `nextValue` hands the state after its peek, the dispatch character
   * still in the slot, to the parser that character selects: `n`, `t`,
   * `f` to the literals, `"` to strings, `{` to objects, `[` to arrays and
   * every other character to numbers.
   */
  lemma {:induction false} Dispatch(cur: Cursor, strict: bool, c: int, peeked: Cursor)
    requires Peek(cur, !strict) == Ok((c, peeked))
    ensures peeked.slot == c
    ensures c == 'n' as int ==> ParseValue(cur, strict) == NextNull(peeked, strict)
    ensures c == 't' as int ==> ParseValue(cur, strict) == NextTrue(peeked, strict)
    ensures c == 'f' as int ==> ParseValue(cur, strict) == NextFalse(peeked, strict)
    ensures c == QUOTE ==> ParseValue(cur, strict) == NextString(peeked)
    ensures c == LBRACE ==> ParseValue(cur, strict) == ParseObject(peeked, strict)
    ensures c == LBRACKET ==> ParseValue(cur, strict) == ParseArray(peeked, strict)
    ensures c != 'n' as int && c != 't' as int && c != 'f' as int && c != QUOTE && c != LBRACE && c != LBRACKET ==>
              ParseValue(cur, strict) == NextNumber(peeked, strict)
  {
  }

  /**
   * A value starting with `{` fails with "invalid key": `nextObject` gets
   * the peeked `{` back as its first token.
   */
  lemma {:induction false} NestedObjectRejected(cur: Cursor, strict: bool)
    requires Valid(cur) && Pending(cur) != [] && Pending(cur)[0] == LBRACE
    ensures ParseValue(cur, strict) == Fail(JsonException(InvalidKey))
  {
    PeekDelivers(cur, !strict);
    var peeked := Cursor(Pending(cur)[1..], LBRACE);
    assert ObjectEntries(peeked, strict, 0, map[]) == Fail(JsonException(InvalidKey));
  }

  /**
   * A value starting with `"` is always the empty string: `nextString` reads
   * the peeked opening quote as the closing one, and the string's own text
   * is left unread.
   */
  lemma {:induction false} StringValueIsEmpty(cur: Cursor, strict: bool)
    requires Valid(cur) && Pending(cur) != [] && Pending(cur)[0] == QUOTE
    ensures ParseValue(cur, strict) == Ok((String([]), Cursor(Pending(cur)[1..], EMPTY)))
  {
    PeekDelivers(cur, !strict);
    var peeked := Cursor(Pending(cur)[1..], QUOTE);
    assert StringChars(peeked, 0, []) == Ok(([], Cursor(Pending(cur)[1..], EMPTY)));
  }

  /** A value starting with `[`: `nextArray` on the peeked bracket, whose `checkNext('[')` takes it from the slot. */
  lemma {:induction false} ArrayOpen(cur: Cursor, strict: bool, tail: seq<int>) returns (afterOpen: Cursor)
    requires Valid(cur) && Pending(cur) == [LBRACKET] + tail
    ensures afterOpen == Cursor(tail, EMPTY)
    ensures ParseValue(cur, strict) == ParseArray(Cursor(tail, LBRACKET), strict)
    ensures CheckNextChar(Cursor(tail, LBRACKET), LBRACKET, !strict) == Ok(afterOpen)
  {
    afterOpen := Cursor(tail, EMPTY);
    assert Pending(cur)[0] == LBRACKET && Pending(cur)[1..] == tail;
    PeekDelivers(cur, !strict);
    Dispatch(cur, strict, LBRACKET, Cursor(tail, LBRACKET));
  }

  /** `nextArray` once its first element has been read. */
  lemma {:induction false} ArrayFirst(peeked: Cursor, strict: bool, afterOpen: Cursor, c: int, inner: Cursor,
                                      v: JsonValue, left: Cursor)
    requires CheckNextChar(peeked, LBRACKET, !strict) == Ok(afterOpen)
    requires Peek(afterOpen, !strict) == Ok((c, inner)) && c != RBRACKET
    requires ParseValue(inner, strict) == Ok((v, left))
    ensures ParseArray(peeked, strict) == ArrayElements(left, strict, [v])
  {
  }

  /** A failure of the first element is the failure of `nextArray`. */
  lemma {:induction false} ArrayFirstFails(peeked: Cursor, strict: bool, afterOpen: Cursor, c: int, inner: Cursor, e: Error)
    requires CheckNextChar(peeked, LBRACKET, !strict) == Ok(afterOpen)
    requires Peek(afterOpen, !strict) == Ok((c, inner)) && c != RBRACKET
    requires ParseValue(inner, strict) == Fail(e)
    ensures ParseArray(peeked, strict) == Fail(e)
  {
  }

  /** A `]` left in the slot ends the element loop at once. */
  lemma {:induction false} ArrayClosedBySlot(rest: seq<int>, strict: bool, arr: seq<JsonValue>)
    ensures ArrayElements(Cursor(rest, RBRACKET), strict, arr) == Ok((Array(arr), Cursor(rest, EMPTY)))
  {
  }

  /**
   * The separator after an element is read with `next()`, which skips no
   * whitespace in either mode: anything but `,` or `]`, whitespace
   * included, fails with "expected ',' or ']'".
   */
  lemma {:induction false} ArraySeparatorRejected(cur: Cursor, strict: bool, arr: seq<JsonValue>, c: int, rest: seq<int>)
    requires Valid(cur) && Pending(cur) == [c] + rest
    requires c != COMMA && c != RBRACKET && c != EOF && c != EMPTY
    ensures ArrayElements(cur, strict, arr) == Fail(JsonException(ExpectedCommaOrBracket))
  {
    NextDelivers(cur, false);
  }

  /** `[]` gives the empty array and leaves its `]` in the slot. */
  lemma {:induction false} EmptyArrayLeavesBracket(cur: Cursor, strict: bool, rest: seq<int>)
    requires Valid(cur) && Pending(cur) == [LBRACKET, RBRACKET] + rest
    ensures ParseValue(cur, strict) == Ok((Array([]), Cursor(rest, RBRACKET)))
  {
    var afterOpen := ArrayOpen(cur, strict, [RBRACKET] + rest);
    assert Peek(afterOpen, !strict) == Ok((RBRACKET, Cursor(rest, RBRACKET))) by {
      PeekDelivers(afterOpen, !strict);
    }
  }

  /** `nextArray` reading `[]` as its first element and the left-over `]` as its own end. */
  lemma {:induction false} NestedEmptyElements(afterOpen: Cursor, strict: bool, rest: seq<int>)
    requires afterOpen == Cursor([LBRACKET, RBRACKET] + rest, EMPTY)
    requires CheckNextChar(Cursor(Pending(afterOpen), LBRACKET), LBRACKET, !strict) == Ok(afterOpen)
    ensures ParseArray(Cursor(Pending(afterOpen), LBRACKET), strict) == Ok((Array([Array([])]), Cursor(rest, EMPTY)))
  {
    var inner := Cursor([RBRACKET] + rest, LBRACKET);
    assert Peek(afterOpen, !strict) == Ok((LBRACKET, inner)) by {
      assert Pending(afterOpen)[0] == LBRACKET && Pending(afterOpen)[1..] == [RBRACKET] + rest;
      PeekDelivers(afterOpen, !strict);
    }
    assert Pending(inner) == [LBRACKET, RBRACKET] + rest;
    EmptyArrayLeavesBracket(inner, strict, rest);
    ArrayFirst(Cursor(Pending(afterOpen), LBRACKET), strict, afterOpen, LBRACKET, inner, Array([]), Cursor(rest, RBRACKET));
    ArrayClosedBySlot(rest, strict, [Array([])]);
  }

  /** So `[[]` is a complete array: the left-over `]` closes the outer array. */
  lemma {:induction false} EmptyArrayClosesOuter(cur: Cursor, strict: bool, rest: seq<int>)
    requires Valid(cur) && Pending(cur) == [LBRACKET, LBRACKET, RBRACKET] + rest
    ensures ParseValue(cur, strict) == Ok((Array([Array([])]), Cursor(rest, EMPTY)))
  {
    var afterOpen := ArrayOpen(cur, strict, [LBRACKET, RBRACKET] + rest);
    NestedEmptyElements(afterOpen, strict, rest);
  }

  /** `decode` reads the first token itself, so a leading `{` fails with "invalid key". */
  lemma {:induction false} LeadingBraceRejected(input: seq<int>, strict: bool)
    requires var k := if strict then 0 else LeadingSpaces(input);
             k < |input| && input[k] == LBRACE
    ensures Decode(input, strict) == Fail(JsonException(InvalidKey))
  {
    var cur := Cursor(input, EMPTY);
    NextFromSource(input, !strict);
    assert Next(cur, !strict).Ok? && Next(cur, !strict).value.0 == LBRACE;
    assert ObjectEntries(cur, strict, 0, map[]) == Fail(JsonException(InvalidKey));
    assert ParseObject(cur, strict) == ObjectEntries(cur, strict, 0, map[]);
  }
}
