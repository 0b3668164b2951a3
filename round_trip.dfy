/**
 * A text form for the values the decoder can read back, and the proof that
 * `nextValue` reads each of them back exactly. There is no encoder in the
 * source; `Encode` is the reference the parser is measured against. It
 * covers `null`, `true`, `false`, decimal integers and non-empty arrays of
 * such values, written without whitespace, which both modes accept.
 */
module RoundTrip {
  import opened Ascii
  import opened Json
  import opened Failures
  import opened Cursors
  import opened Numbers
  import opened Grammar
  import opened GrammarFacts

  /**
   * The values with a text form the decoder reads back: literals, integers
   * whose decimal text fits the number loop, and non-empty arrays of them.
   */
  predicate Plain(v: JsonValue)
  {
    match v
    case Null => true
    case Boolean(_) => true
    case Integer(n) => |DecimalText(n)| < MAX_STRING_LENGTH
    case Array(items) => items != [] && forall j :: 0 <= j < |items| ==> Plain(items[j])
    case _ => false
  }

  predicate AllPlain(items: seq<JsonValue>)
  {
    forall j :: 0 <= j < |items| ==> Plain(items[j])
  }

  /** JSON text of a plain value; the other values have no text here. */
  function Encode(v: JsonValue): Text
  {
    match v
    case Null => Chars("null")
    case Boolean(b) => if b then Chars("true") else Chars("false")
    case Integer(n) => DecimalText(n)
    case Array(items) => [LBRACKET] + (EncodeItems(items) + [RBRACKET])
    case _ => []
  }

  /** The elements of an array, separated by commas. */
  function EncodeItems(items: seq<JsonValue>): Text
  {
    if items == [] then [] else Encode(items[0]) + CommaItems(items[1..])
  }

  /** Each element preceded by a comma. */
  function CommaItems(xs: seq<JsonValue>): Text
  {
    if xs == [] then [] else [COMMA] + (Encode(xs[0]) + CommaItems(xs[1..]))
  }

  lemma {:induction false} LiteralWords()
    ensures Chars("null") == ['n' as int, 'u' as int, 'l' as int, 'l' as int]
    ensures Chars("true") == ['t' as int, 'r' as int, 'u' as int, 'e' as int]
    ensures Chars("false") == ['f' as int, 'a' as int, 'l' as int, 's' as int, 'e' as int]
  {
    assert Chars("l") == ['l' as int] && Chars("e") == ['e' as int];
    assert Chars("ll") == ['l' as int] + Chars("l");
    assert Chars("ull") == ['u' as int] + Chars("ll");
    assert Chars("ue") == ['u' as int] + Chars("e");
    assert Chars("rue") == ['r' as int] + Chars("ue");
    assert Chars("se") == ['s' as int] + Chars("e");
    assert Chars("lse") == ['l' as int] + Chars("se");
    assert Chars("alse") == ['a' as int] + Chars("lse");
  }

  /** Decimal text is made of number characters. */
  lemma {:induction false} DecimalNumberChars(n: int)
    ensures AllNumberChars(DecimalText(n))
  {
    var t := DecimalText(n);
    forall j | 0 <= j < |t| ensures IsNumberChar(t[j]) {
      if n < 0 {
        if j > 0 {
          assert t[j] == Digits(-n, 10)[j - 1];
        }
      } else {
        assert IsDigitOf(t[j], 10);
      }
    }
  }

  /**
   * An encoded value starts with the character `nextValue` dispatches on:
   * `n`, `t`, `f`, `[`, or a digit or `-` for a number; never whitespace,
   * `]`, an end marker or a NUL.
   */
  lemma {:induction false} EncodeStarts(v: JsonValue)
    requires Plain(v)
    ensures Encode(v) != []
    ensures var c := Encode(v)[0];
            c != EOF && c != EMPTY && !IsSpace(c) && c != RBRACKET && c != QUOTE && c != LBRACE
    ensures var c := Encode(v)[0];
            (c == 'n' as int <==> v.Null?) && (c == 't' as int <==> v == Boolean(true)) &&
            (c == 'f' as int <==> v == Boolean(false)) && (c == LBRACKET <==> v.Array?)
  {
    LiteralWords();
    if v.Integer? {
      DecimalTextShape(v.i);
    }
  }

  /** What follows an element inside an array starts with `,` or `]`. */
  lemma {:induction false} AfterElement(xs: seq<JsonValue>, tail: seq<int>)
    ensures var t := CommaItems(xs) + ([RBRACKET] + tail);
            t != [] && IsDelimiter(t[0]) && t == [t[0]] + t[1..]
  {
  }

  /** A literal word is read by `checkNext` from a state that holds it. */
  lemma {:induction false} WordRead(cur: Cursor, w: Text, ws: bool, rest: seq<int>)
    requires Valid(cur) && Pending(cur) == w + rest && w != []
    requires w == Chars("null") || w == Chars("true") || w == Chars("false")
    ensures CheckNextString(cur, w, ws) == Ok(Cursor(rest, EMPTY))
  {
    LiteralWords();
    assert Deliverable(w) && NoSpace(w);
    CheckNextStringDelivers(cur, w, rest, ws);
  }

  /** A deliverable first character is what `next` returns, from the slot or the source. */
  lemma {:induction false} NextFirst(cur: Cursor, ws: bool, c: int, rest: seq<int>)
    requires Valid(cur) && Pending(cur) == [c] + rest
    requires c != EOF && c != EMPTY && !IsSpace(c)
    ensures Next(cur, ws) == Ok((c, Cursor(rest, EMPTY)))
  {
    NextDelivers(cur, ws);
  }

  /** ... and what `peek` returns, left in the slot. */
  lemma {:induction false} PeekFirst(cur: Cursor, ws: bool, c: int, rest: seq<int>)
    requires Valid(cur) && Pending(cur) == [c] + rest
    requires c != EOF && c != EMPTY && !IsSpace(c)
    ensures Peek(cur, ws) == Ok((c, Cursor(rest, c)))
  {
    NextFirst(cur, ws, c, rest);
  }

  lemma {:induction false} EncodeItemsCons(items: seq<JsonValue>, tail: seq<int>)
    requires items != []
    ensures EncodeItems(items) + tail == Encode(items[0]) + (CommaItems(items[1..]) + tail)
  {
  }

  lemma {:induction false} CommaItemsCons(xs: seq<JsonValue>, tail: seq<int>)
    requires xs != []
    ensures CommaItems(xs) + tail == [COMMA] + (Encode(xs[0]) + (CommaItems(xs[1..]) + tail))
  {
  }

  /** Splits off the first character of a non-empty text followed by more. */
  lemma {:induction false} SplitFirst(e: Text, x: seq<int>)
    requires e != []
    ensures e + x == [e[0]] + (e[1..] + x)
  {
  }

  lemma {:induction false} EncodeArrayThen(items: seq<JsonValue>, tail: seq<int>)
    ensures Encode(Array(items)) + tail == [LBRACKET] + (EncodeItems(items) + ([RBRACKET] + tail))
  {
    AppendAssoc([LBRACKET], EncodeItems(items) + [RBRACKET], tail);
    AppendAssoc(EncodeItems(items), [RBRACKET], tail);
  }

  /** A literal word, dispatched on its first letter, is read in full. */
  lemma {:induction false} ParseWord(cur: Cursor, strict: bool, v: JsonValue, rest: seq<int>)
    requires Valid(cur) && (v.Null? || v.Boolean?) && Pending(cur) == Encode(v) + rest
    ensures ParseValue(cur, strict) == Ok((v, Cursor(rest, EMPTY)))
  {
    EncodeStarts(v);
    var w := Encode(v);
    SplitFirst(w, rest);
    PeekFirst(cur, !strict, w[0], w[1..] + rest);
    var peeked := Cursor(w[1..] + rest, w[0]);
    assert Pending(peeked) == w + rest;
    Dispatch(cur, strict, w[0], peeked);
    WordRead(peeked, w, !strict, rest);
  }

  /** Decimal text, dispatched on its digit or `-`, is read as that integer up to the delimiter. */
  lemma {:induction false} ParseInteger(cur: Cursor, strict: bool, n: int, d: int, rest: seq<int>)
    requires Valid(cur) && Plain(Integer(n)) && IsDelimiter(d)
    requires Pending(cur) == DecimalText(n) + ([d] + rest)
    ensures ParseValue(cur, strict) == Ok((Integer(n), Cursor(rest, d)))
  {
    var t := DecimalText(n);
    EncodeStarts(Integer(n));
    SplitFirst(t, [d] + rest);
    PeekFirst(cur, !strict, t[0], t[1..] + ([d] + rest));
    var peeked := Cursor(t[1..] + ([d] + rest), t[0]);
    assert Pending(peeked) == t + ([d] + rest);
    Dispatch(cur, strict, t[0], peeked);
    DecimalNumberChars(n);
    ParseDecimalRoundTrip(n);
    NextNumberReads(peeked, strict, t, d, rest);
  }

  /** The elements of a non-empty array start with a deliverable character other than `]`. */
  lemma {:induction false} ItemsStart(items: seq<JsonValue>, tail: seq<int>)
    requires items != [] && AllPlain(items)
    ensures var inner := EncodeItems(items) + tail;
            inner != [] && inner == [inner[0]] + inner[1..] &&
            inner[0] != EOF && inner[0] != EMPTY && !IsSpace(inner[0]) && inner[0] != RBRACKET
  {
    assert Plain(items[0]);
    EncodeStarts(items[0]);
    var e := Encode(items[0]);
    assert EncodeItems(items) + tail == e + (CommaItems(items[1..]) + tail);
  }

  /**
   * `nextValue` reads the text of a plain value back to the value itself
   * and stops before the delimiter that follows it, in either mode.
   */
  lemma {:induction false} ParseEncoded(cur: Cursor, strict: bool, v: JsonValue, d: int, rest: seq<int>) returns (after: Cursor)
    requires Valid(cur) && Plain(v) && IsDelimiter(d)
    requires Pending(cur) == Encode(v) + ([d] + rest)
    ensures Valid(after) && Pending(after) == [d] + rest
    ensures ParseValue(cur, strict) == Ok((v, after))
    decreases v, 3
  {
    match v {
      case Null =>
        ParseWord(cur, strict, v, [d] + rest);
        after := Cursor([d] + rest, EMPTY);
      case Boolean(_) =>
        ParseWord(cur, strict, v, [d] + rest);
        after := Cursor([d] + rest, EMPTY);
      case Integer(n) =>
        ParseInteger(cur, strict, n, d, rest);
        after := Cursor(rest, d);
      case Array(items) =>
        EncodeArrayThen(items, [d] + rest);
        ParseArrayEncoded(cur, strict, items, [d] + rest);
        after := Cursor([d] + rest, EMPTY);
    }
  }

  /** `[`, the elements, `]`: `nextArray` after the dispatch on `[`. */
  lemma {:induction false} ParseArrayEncoded(cur: Cursor, strict: bool, items: seq<JsonValue>, tail: seq<int>)
    requires Valid(cur) && items != [] && AllPlain(items)
    requires Pending(cur) == [LBRACKET] + (EncodeItems(items) + ([RBRACKET] + tail))
    ensures ParseValue(cur, strict) == Ok((Array(items), Cursor(tail, EMPTY)))
    decreases items, 2
  {
    var inner := EncodeItems(items) + ([RBRACKET] + tail);
    PeekFirst(cur, !strict, LBRACKET, inner);
    var peeked := Cursor(inner, LBRACKET);
    Dispatch(cur, strict, LBRACKET, peeked);
    var afterOpen := Cursor(inner, EMPTY);
    assert CheckNextChar(peeked, LBRACKET, !strict) == Ok(afterOpen);
    ItemsStart(items, [RBRACKET] + tail);
    var c0 := inner[0];
    PeekFirst(afterOpen, !strict, c0, inner[1..]);
    var first := Cursor(inner[1..], c0);
    assert Pending(first) == inner;
    var mid := ItemsRun(first, strict, items, tail);
    assert ParseArray(peeked, strict) == ArrayElements(mid, strict, [items[0]]);
  }

  /** The first element of a non-empty array, then the rest through the separator loop. */
  lemma {:induction false} ItemsRun(cur: Cursor, strict: bool, items: seq<JsonValue>, tail: seq<int>) returns (mid: Cursor)
    requires Valid(cur) && items != [] && AllPlain(items)
    requires Pending(cur) == EncodeItems(items) + ([RBRACKET] + tail)
    ensures ParseValue(cur, strict) == Ok((items[0], mid))
    ensures ArrayElements(mid, strict, [items[0]]) == Ok((Array(items), Cursor(tail, EMPTY)))
    decreases items, 1
  {
    var x, xs := items[0], items[1..];
    var t := CommaItems(xs) + ([RBRACKET] + tail);
    EncodeItemsCons(items, [RBRACKET] + tail);
    AfterElement(xs, tail);
    assert Plain(x) && AllPlain(xs);
    mid := ParseEncoded(cur, strict, x, t[0], t[1..]);
    CommaRun(mid, strict, [x], xs, tail);
    assert [x] + xs == items;
  }

  lemma {:induction false} AppendElement(arr: seq<JsonValue>, xs: seq<JsonValue>)
    requires xs != []
    ensures (arr + [xs[0]]) + xs[1..] == arr + xs
  {
  }

  /** One iteration of the separator loop of `nextArray` on `,` and an element. */
  lemma {:induction false} ArrayStep(cur: Cursor, strict: bool, arr: seq<JsonValue>, x: JsonValue, c1: Cursor, after: Cursor)
    requires Next(cur, false) == Ok((COMMA, c1)) && ParseValue(c1, strict) == Ok((x, after))
    ensures ArrayElements(cur, strict, arr) == ArrayElements(after, strict, arr + [x])
  {
  }

  /** The separator loop of `nextArray` ends at `]`. */
  lemma {:induction false} ArrayClose(cur: Cursor, strict: bool, arr: seq<JsonValue>, after: Cursor)
    requires Next(cur, false) == Ok((RBRACKET, after))
    ensures ArrayElements(cur, strict, arr) == Ok((Array(arr), after))
  {
  }

  /**
   * The `while (true)` loop of `nextArray` on `,` element pairs up to `]`:
   * the elements are appended in order and the reader is left after `]`.
   */
  lemma {:induction false} CommaRun(cur: Cursor, strict: bool, arr: seq<JsonValue>, xs: seq<JsonValue>, tail: seq<int>)
    requires Valid(cur) && AllPlain(xs)
    requires Pending(cur) == CommaItems(xs) + ([RBRACKET] + tail)
    ensures ArrayElements(cur, strict, arr) == Ok((Array(arr + xs), Cursor(tail, EMPTY)))
    decreases xs, 0
  {
    if xs == [] {
      assert Pending(cur) == [RBRACKET] + tail;
      NextFirst(cur, false, RBRACKET, tail);
      ArrayClose(cur, strict, arr, Cursor(tail, EMPTY));
      assert arr + xs == arr;
    } else {
      var x := xs[0];
      var t := CommaItems(xs[1..]) + ([RBRACKET] + tail);
      CommaItemsCons(xs, [RBRACKET] + tail);
      NextFirst(cur, false, COMMA, Encode(x) + t);
      var c1 := Cursor(Encode(x) + t, EMPTY);
      AfterElement(xs[1..], tail);
      assert Plain(x) && AllPlain(xs[1..]);
      var after := ParseEncoded(c1, strict, x, t[0], t[1..]);
      ArrayStep(cur, strict, arr, x, c1, after);
      AppendElement(arr, xs);
      CommaRun(after, strict, arr + [x], xs[1..], tail);
    }
  }

  // ---------------------------------------------------------------------
  // Whitespace inside literals and before array separators
  // ---------------------------------------------------------------------

  /** The whitespace `sp` before each character of `w`. */
  function SpacedTail(w: Text, sp: seq<int>): (t: Text)
    ensures |t| == |w| * (|sp| + 1)
  {
    if w == [] then [] else sp + ([w[0]] + SpacedTail(w[1..], sp))
  }

  /**
   * `checkNext(w, true)` reads `w` through any whitespace `sp` in front of
   * each of its characters.
   */
  lemma {:induction false} SpacedCheck(w: Text, sp: seq<int>, rest: seq<int>)
    requires Deliverable(w) && NoSpace(w)
    requires forall j :: 0 <= j < |sp| ==> IsSpace(sp[j])
    ensures CheckNextString(Cursor(SpacedTail(w, sp) + rest, EMPTY), w, true) == Ok(Cursor(rest, EMPTY))
    decreases |w|
  {
    if w == [] {
      assert SpacedTail(w, sp) + rest == rest;
    } else {
      var z := SpacedTail(w[1..], sp) + rest;
      assert SpacedTail(w, sp) + rest == sp + ([w[0]] + z);
      SkipSpaces(sp, [w[0]] + z);
      assert ReadSkipping([w[0]] + z, true) == (w[0], z);
      assert Next(Cursor(SpacedTail(w, sp) + rest, EMPTY), true) == Ok((w[0], Cursor(z, EMPTY)));
      SpacedCheck(w[1..], sp, rest);
    }
  }

  /** The letters of a literal after the first are deliverable and not whitespace, and there are at least three. */
  lemma {:induction false} LiteralLetters(v: JsonValue)
    requires v.Null? || v.Boolean?
    ensures |Encode(v)| >= 4
    ensures Deliverable(Encode(v)[1..]) && NoSpace(Encode(v)[1..])
  {
    LiteralWords();
  }

  /** A check whose first character waits in the slot takes it from there and goes on with the rest. */
  lemma {:induction false} CheckFromSlot(w: Text, z: seq<int>, ws: bool, after: Cursor)
    requires w != [] && w[0] != EMPTY
    requires CheckNextString(Cursor(z, EMPTY), w[1..], ws) == Ok(after)
    ensures CheckNextString(Cursor(z, w[0]), w, ws) == Ok(after)
  {
    NextFromSlot(Cursor(z, w[0]), ws);
  }

  /** A literal's parser, once its first letter is in the slot, is its own `checkNext` of the word. */
  lemma {:induction false} LiteralParser(peeked: Cursor, strict: bool, v: JsonValue, after: Cursor)
    requires v.Null? || v.Boolean?
    requires CheckNextString(peeked, Encode(v), !strict) == Ok(after)
    ensures (if v.Null? then NextNull(peeked, strict)
             else if v == Boolean(true) then NextTrue(peeked, strict)
             else NextFalse(peeked, strict)) == Ok((v, after))
  {
  }

  /**
   * In non-strict mode a literal may have whitespace before each letter
   * after the first: `n u l l` reads as null, since `checkNext(word, true)`
   * skips it.
   */
  lemma {:induction false} SpacedLiteral(cur: Cursor, v: JsonValue, sp: seq<int>, rest: seq<int>)
    requires Valid(cur) && (v.Null? || v.Boolean?)
    requires forall j :: 0 <= j < |sp| ==> IsSpace(sp[j])
    requires Encode(v) != [] && Pending(cur) == [Encode(v)[0]] + (SpacedTail(Encode(v)[1..], sp) + rest)
    ensures ParseValue(cur, false) == Ok((v, Cursor(rest, EMPTY)))
  {
    EncodeStarts(v);
    LiteralLetters(v);
    var w := Encode(v);
    var z := SpacedTail(w[1..], sp) + rest;
    PeekFirst(cur, true, w[0], z);
    var peeked := Cursor(z, w[0]);
    SpacedCheck(w[1..], sp, rest);
    CheckFromSlot(w, z, true, Cursor(rest, EMPTY));
    LiteralParser(peeked, false, v, Cursor(rest, EMPTY));
    Dispatch(cur, false, w[0], peeked);
  }

  /** Without skipping, a check of `w` fails at `w[1]` when a different character `c` follows `w[0]`. */
  lemma {:induction false} CheckSecondMismatch(w: Text, c: int, rest: seq<int>)
    requires |w| >= 2 && w[0] != EMPTY && c != w[1] && c != EOF && c != EMPTY
    ensures CheckNextString(Cursor([c] + rest, w[0]), w, false) == Fail(StreamException(Mismatch(w[1], c)))
  {
    NextFromSlot(Cursor([c] + rest, w[0]), false);
    var after := Cursor([c] + rest, EMPTY);
    assert CheckNextChar(Cursor([c] + rest, w[0]), w[0], false) == Ok(after);
    assert Next(after, false) == Ok((c, Cursor(rest, EMPTY)));
    assert CheckNextChar(after, w[1], false) == Fail(StreamException(Mismatch(w[1], c)));
    assert w[1..][0] == w[1];
  }

  /** The same failure, seen from a literal's parser. */
  lemma {:induction false} LiteralParserFails(peeked: Cursor, strict: bool, v: JsonValue, e: Error)
    requires v.Null? || v.Boolean?
    requires CheckNextString(peeked, Encode(v), !strict) == Fail(e)
    ensures (if v.Null? then NextNull(peeked, strict)
             else if v == Boolean(true) then NextTrue(peeked, strict)
             else NextFalse(peeked, strict)) == Fail(e)
  {
  }

  /**
   * In strict mode `checkNext(word, false)` skips nothing: whitespace after
   * the first letter of a literal fails, naming the expected letter and the
   * whitespace found.
   */
  lemma {:induction false} StrictSpacedLiteral(cur: Cursor, v: JsonValue, c: int, rest: seq<int>)
    requires Valid(cur) && (v.Null? || v.Boolean?) && IsSpace(c)
    requires |Encode(v)| >= 2 && Pending(cur) == [Encode(v)[0]] + ([c] + (Encode(v)[2..] + rest))
    ensures ParseValue(cur, true) == Fail(StreamException(Mismatch(Encode(v)[1], c)))
  {
    EncodeStarts(v);
    LiteralLetters(v);
    var w := Encode(v);
    var z := [c] + (w[2..] + rest);
    PeekFirst(cur, false, w[0], z);
    var peeked := Cursor(z, w[0]);
    assert w[1] == w[1..][0];
    CheckSecondMismatch(w, c, w[2..] + rest);
    LiteralParserFails(peeked, true, v, StreamException(Mismatch(w[1], c)));
    Dispatch(cur, true, w[0], peeked);
  }

  /**
   * Whitespace between an array element and its separator fails in either
   * mode when the element is a literal: `[true ,1]` is rejected with
   * "expected ',' or ']'".
   */
  lemma {:induction false} LiteralSeparatorSpace(cur: Cursor, strict: bool, v: JsonValue, c: int, rest: seq<int>)
    requires Valid(cur) && (v.Null? || v.Boolean?) && IsSpace(c)
    requires Pending(cur) == [LBRACKET] + (Encode(v) + ([c] + rest))
    ensures ParseValue(cur, strict) == Fail(JsonException(ExpectedCommaOrBracket))
  {
    EncodeStarts(v);
    var w := Encode(v);
    var tail := w + ([c] + rest);
    var afterOpen := ArrayOpen(cur, strict, tail);
    SplitFirst(w, [c] + rest);
    PeekFirst(afterOpen, !strict, w[0], w[1..] + ([c] + rest));
    var inner := Cursor(w[1..] + ([c] + rest), w[0]);
    assert Pending(inner) == w + ([c] + rest);
    ParseWord(inner, strict, v, [c] + rest);
    ArrayFirst(Cursor(tail, LBRACKET), strict, afterOpen, w[0], inner, v, Cursor([c] + rest, EMPTY));
    ArraySeparatorRejected(Cursor([c] + rest, EMPTY), strict, [v], c, rest);
  }

  /**
   * A number ends with `peek(!strict)`, which in non-strict mode skips
   * whitespace: the `,` after `1 ` is left in the slot, and the whitespace
   * before it is gone.
   */
  lemma {:induction false} SpacedInteger(cur: Cursor, n: int, sp: seq<int>, rest: seq<int>)
    requires Valid(cur) && Plain(Integer(n))
    requires forall j :: 0 <= j < |sp| ==> IsSpace(sp[j])
    requires Pending(cur) == DecimalText(n) + (sp + ([COMMA] + rest))
    ensures ParseValue(cur, false) == Ok((Integer(n), Cursor(rest, COMMA)))
  {
    var t := DecimalText(n);
    var x := sp + ([COMMA] + rest);
    EncodeStarts(Integer(n));
    SplitFirst(t, x);
    PeekFirst(cur, true, t[0], t[1..] + x);
    var peeked := Cursor(t[1..] + x, t[0]);
    assert Pending(peeked) == t + x;
    Dispatch(cur, false, t[0], peeked);
    DecimalNumberChars(n);
    var at := NumberPrefix(peeked, false, t, x);
    assert at == Cursor(x, EMPTY);
    SkipSpaces(sp, [COMMA] + rest);
    assert Peek(at, true) == Ok((COMMA, Cursor(rest, COMMA)));
    ParseDecimalRoundTrip(n);
  }

  /**
   * So in non-strict mode whitespace between a number element and its `,`
   * is accepted: `[1 ,x]` reads as the array of 1 and `x`, the loop's
   * `next()` taking the `,` from the slot.
   */
  lemma {:induction false} SpacedNumberSeparator(cur: Cursor, n: int, sp: seq<int>, x: JsonValue, rest: seq<int>)
    requires Valid(cur) && Plain(Integer(n)) && Plain(x)
    requires forall j :: 0 <= j < |sp| ==> IsSpace(sp[j])
    requires Pending(cur) == [LBRACKET] + (DecimalText(n) + (sp + ([COMMA] + (Encode(x) + ([RBRACKET] + rest)))))
    ensures ParseValue(cur, false) == Ok((Array([Integer(n), x]), Cursor(rest, EMPTY)))
  {
    var t := DecimalText(n);
    var e := Encode(x) + ([RBRACKET] + rest);
    var y := sp + ([COMMA] + e);
    var tail := t + y;
    var afterOpen := ArrayOpen(cur, false, tail);
    EncodeStarts(Integer(n));
    SplitFirst(t, y);
    PeekFirst(afterOpen, true, t[0], t[1..] + y);
    var inner := Cursor(t[1..] + y, t[0]);
    assert Pending(inner) == tail;
    SpacedInteger(inner, n, sp, e);
    ArrayFirst(Cursor(tail, LBRACKET), false, afterOpen, t[0], inner, Integer(n), Cursor(e, COMMA));
    var c1 := Cursor(e, EMPTY);
    NextFromSlot(Cursor(e, COMMA), false);
    var after := ParseEncoded(c1, false, x, RBRACKET, rest);
    ArrayStep(Cursor(e, COMMA), false, [Integer(n)], x, c1, after);
    NextFirst(after, false, RBRACKET, rest);
    ArrayClose(after, false, [Integer(n), x], Cursor(rest, EMPTY));
    assert [Integer(n)] + [x] == [Integer(n), x];
  }

  /**
   * In strict mode the same whitespace is a character of the number token
   * that is not a number character: "parsing error", not "expected ',' or ']'".
   */
  lemma {:induction false} StrictNumberSeparatorSpace(cur: Cursor, n: int, c: int, rest: seq<int>)
    requires Valid(cur) && Plain(Integer(n)) && IsSpace(c)
    requires Pending(cur) == [LBRACKET] + (DecimalText(n) + ([c] + rest))
    ensures ParseValue(cur, true) == Fail(JsonException(ParsingError))
  {
    var t := DecimalText(n);
    var y := [c] + rest;
    var tail := t + y;
    var afterOpen := ArrayOpen(cur, true, tail);
    EncodeStarts(Integer(n));
    SplitFirst(t, y);
    PeekFirst(afterOpen, false, t[0], t[1..] + y);
    var inner := Cursor(t[1..] + y, t[0]);
    assert Pending(inner) == tail;
    NextFromSlot(inner, false);
    Dispatch(inner, true, t[0], inner);
    DecimalNumberChars(n);
    StrictNumberSpace(inner, t, c, rest);
    ArrayFirstFails(Cursor(tail, LBRACKET), true, afterOpen, t[0], inner, JsonException(ParsingError));
  }
}
