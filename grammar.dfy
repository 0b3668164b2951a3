/**
 * The recursive descent of `JsonDecoder` (src/jsondecoder.cpp) as functions
 * on the reader state of module Cursors. Each bounded loop of the source is
 * a function of the loop state (the cursor, the iteration count or the text
 * collected so far) that recurses once per iteration; the class in module
 * Decoder is proved to do what these functions say.
 *
 * The decoder's own `next(ignoreWhitespace)` and `checkNext(x)` forward to
 * `next(ignoreWhitespace)` and `checkNext(x, false)` of the reader.
 */
module Grammar {
  import opened Ascii
  import opened Json
  import opened Failures
  import opened Cursors
  import opened Numbers

  /** The bound on every loop of the decoder. */
  const MAX_STRING_LENGTH: nat := 1024

  /** The characters `nextKey` accepts in a key besides the closing quote. */
  predicate IsKeyChar(c: int)
  {
    IsAlnum(c) || c == UNDERSCORE
  }

  predicate AllKeyChars(s: Text)
  {
    forall j :: 0 <= j < |s| ==> IsKeyChar(s[j])
  }

  /** What `nextKey` can return: 1 to 1023 key characters. */
  predicate IsKey(k: Text)
  {
    0 < |k| < MAX_STRING_LENGTH && AllKeyChars(k)
  }

  /** The characters `nextNumber` collects into its token. */
  predicate IsNumberChar(c: int)
  {
    IsDigit(c) || c == MINUS || c == 'e' as int || c == 'E' as int || c == DOT || c == 'x' as int || c == 'X' as int
  }

  /** The characters that end a number; `nextNumber` leaves them in the slot. */
  predicate IsDelimiter(c: int)
  {
    c == COMMA || c == RBRACKET || c == RBRACE
  }

  /**
   * The values a decode can deliver inside an object: never an object, a
   * string only when empty, arrays of such values.
   */
  predicate Producible(v: JsonValue)
  {
    match v
    case Object(_) => false
    case String(s) => s == []
    case Array(items) => forall j :: 0 <= j < |items| ==> Producible(items[j])
    case _ => true
  }

  predicate AllProducible(obj: map<Text, JsonValue>)
  {
    forall k :: k in obj ==> Producible(obj[k])
  }

  // ---------------------------------------------------------------------
  // Keys
  // ---------------------------------------------------------------------

  /**
   * The loop of `nextKey` from the iteration `|sb|`, `sb` holding the
   * characters read so far: every character comes from `next()` without
   * skipping whitespace; whitespace or a character other than a key
   * character or `"` fails, `"` ends the key, which must not be empty after
   * trimming, and the 1024th iteration ends the loop.
   */
  function KeyLoop(cur: Cursor, sb: Text): (r: Result<(Text, Cursor)>)
    ensures r.Ok? ==> Measure(r.value.1) < Measure(cur) && r.value.1.slot == EMPTY
    ensures r.Ok? && AllKeyChars(sb) ==> IsKey(r.value.0) && sb <= r.value.0
    decreases MAX_STRING_LENGTH - |sb|
  {
    if |sb| >= MAX_STRING_LENGTH then Fail(JsonException(MaxLengthReached))
    else
      var p :- Next(cur, false);
      var (c, after) := p;
      if IsSpace(c) || !(IsKeyChar(c) || c == QUOTE) then Fail(JsonException(KeyInvalidChar))
      else if c == QUOTE then
        KeyCharsTrim(sb);
        var s := Trim(sb);
        if |s| == 0 then Fail(JsonException(KeyEmpty)) else Ok((s, after))
      else
        KeyCharsSnoc(sb, c, KeyLoop(after, sb + [c]));
        KeyLoop(after, sb + [c])
  }

  /** Key characters hold no whitespace, so trimming leaves them alone. */
  lemma {:induction false} KeyCharsTrim(sb: Text)
    ensures AllKeyChars(sb) ==> Trim(sb) == sb
  {
    if AllKeyChars(sb) {
      assert NoSpace(sb);
    }
  }

  /** Appending a key character keeps a text of key characters, and a result extending `sb + [c]` extends `sb`. */
  lemma {:induction false} KeyCharsSnoc(sb: Text, c: int, r: Result<(Text, Cursor)>)
    ensures AllKeyChars(sb) && IsKeyChar(c) ==> AllKeyChars(sb + [c])
    ensures r.Ok? && sb + [c] <= r.value.0 ==> sb <= r.value.0
  {
  }

  /** `nextKey`, called once the opening quote has been read. */
  function NextKey(cur: Cursor): (r: Result<(Text, Cursor)>)
    ensures r.Ok? ==> IsKey(r.value.0) && Measure(r.value.1) < Measure(cur) && r.value.1.slot == EMPTY
  {
    KeyLoop(cur, [])
  }

  // ---------------------------------------------------------------------
  // Strings
  // ---------------------------------------------------------------------

  /**
   * The escape table of `nextString`: the character after a backslash
   * becomes `\b`, `\t`, `\n`, `\f`, `\r`, itself for `"`, `\` and `/`, and
   * nothing for `u`; any other character fails.
   */
  function Unescape(e: int): (r: Result<Text>)
    ensures r.Ok? ==> |r.value| <= 1
    ensures r.Fail? ==> r.err == JsonException(InvalidEscape)
  {
    if e == 'b' as int then Ok([8])
    else if e == 't' as int then Ok([9])
    else if e == 'n' as int then Ok([10])
    else if e == 'f' as int then Ok([12])
    else if e == 'r' as int then Ok([13])
    else if e == 'u' as int then Ok([])
    else if e == QUOTE || e == BACKSLASH || e == SLASH then Ok([e])
    else Fail(JsonException(InvalidEscape))
  }

  /** The character after a backslash, read with `next()` and looked up in the escape table. */
  function EscapeAfter(cur: Cursor): (r: Result<(Text, Cursor)>)
    ensures r.Ok? ==> Measure(r.value.1) < Measure(cur) && r.value.1.slot == EMPTY
  {
    var q :- Next(cur, false);
    var u :- Unescape(q.0);
    Ok((u, q.1))
  }

  /**
   * The loop of `nextString` from iteration `i`, `sb` holding the text so
   * far: raw `\n` and `\r` fail, a backslash and the character after it
   * form one escape, `"` ends the string.
   */
  function StringChars(cur: Cursor, i: nat, sb: Text): (r: Result<(Text, Cursor)>)
    ensures r.Ok? ==> Measure(r.value.1) < Measure(cur) && r.value.1.slot == EMPTY
    decreases MAX_STRING_LENGTH - i
  {
    if i >= MAX_STRING_LENGTH then Fail(JsonException(MaxLengthReached))
    else
      var p :- Next(cur, false);
      var (c, after) := p;
      if c == NEWLINE || c == RETURN then Fail(JsonException(InvalidChar))
      else if c == BACKSLASH then
        var e :- EscapeAfter(after);
        StringChars(e.1, i + 1, sb + e.0)
      else if c == QUOTE then Ok((sb, after))
      else StringChars(after, i + 1, sb + [c])
  }

  /** One iteration of the string loop, case by case on what `next()` delivers. */
  lemma {:induction false} StringIteration(cur: Cursor, i: nat, sb: Text)
    requires i < MAX_STRING_LENGTH
    ensures Next(cur, false).Fail? ==> StringChars(cur, i, sb) == Fail(Next(cur, false).err)
    ensures Next(cur, false).Ok? ==>
              var (c, after) := Next(cur, false).value;
              && (c == NEWLINE || c == RETURN ==> StringChars(cur, i, sb) == Fail(JsonException(InvalidChar)))
              && (c == QUOTE ==> StringChars(cur, i, sb) == Ok((sb, after)))
              && (c != NEWLINE && c != RETURN && c != BACKSLASH && c != QUOTE ==>
                    StringChars(cur, i, sb) == StringChars(after, i + 1, sb + [c]))
              && (c == BACKSLASH && Next(after, false).Fail? ==>
                    StringChars(cur, i, sb) == Fail(Next(after, false).err))
              && (c == BACKSLASH && Next(after, false).Ok? ==>
                    var (e, next) := Next(after, false).value;
                    StringChars(cur, i, sb) ==
                      if Unescape(e).Ok? then StringChars(next, i + 1, sb + Unescape(e).value)
                      else Fail(Unescape(e).err))
  {
  }

  /** `nextString`: the characters up to the first unescaped quote, as a string value. */
  function NextString(cur: Cursor): (r: Result<(JsonValue, Cursor)>)
    ensures r.Ok? ==> r.value.0.String? && Measure(r.value.1) < Measure(cur)
  {
    var p :- StringChars(cur, 0, []);
    Ok((String(p.0), p.1))
  }

  // ---------------------------------------------------------------------
  // Literals and numbers
  // ---------------------------------------------------------------------

  function NextNull(cur: Cursor, strict: bool): (r: Result<(JsonValue, Cursor)>)
    ensures r.Ok? ==> r.value.0 == Null && Measure(r.value.1) < Measure(cur)
  {
    var after :- CheckNextString(cur, Chars("null"), !strict);
    Ok((Null, after))
  }

  function NextTrue(cur: Cursor, strict: bool): (r: Result<(JsonValue, Cursor)>)
    ensures r.Ok? ==> r.value.0 == Boolean(true) && Measure(r.value.1) < Measure(cur)
  {
    var after :- CheckNextString(cur, Chars("true"), !strict);
    Ok((Boolean(true), after))
  }

  function NextFalse(cur: Cursor, strict: bool): (r: Result<(JsonValue, Cursor)>)
    ensures r.Ok? ==> r.value.0 == Boolean(false) && Measure(r.value.1) < Measure(cur)
  {
    var after :- CheckNextString(cur, Chars("false"), !strict);
    Ok((Boolean(false), after))
  }

  /**
   * The loop of `nextNumber` from iteration `|sb|`: a peeked delimiter ends
   * the token, which `parseNumber` converts, and stays in the slot; any other
   * character is consumed and must be a number character.
   */
  function NumberChars(cur: Cursor, strict: bool, sb: Text): (r: Result<(JsonValue, Cursor)>)
    ensures r.Ok? ==> (r.value.0.Integer? || r.value.0.Double?) && IsDelimiter(r.value.1.slot)
    ensures r.Ok? ==> Measure(r.value.1) <= Measure(cur) && (sb == [] ==> Measure(r.value.1) < Measure(cur))
    decreases MAX_STRING_LENGTH - |sb|
  {
    if |sb| >= MAX_STRING_LENGTH then Fail(JsonException(MaxLengthReached))
    else
      var p :- Peek(cur, !strict);
      var (c, peeked) := p;
      if IsDelimiter(c) then
        var v :- ParseNumber(sb);
        Ok((v, peeked))
      else
        var q :- Next(peeked, false);
        if IsNumberChar(c) then NumberChars(q.1, strict, sb + [c])
        else Fail(JsonException(ParsingError))
  }

  /** `nextNumber`. */
  function NextNumber(cur: Cursor, strict: bool): (r: Result<(JsonValue, Cursor)>)
    ensures r.Ok? ==> (r.value.0.Integer? || r.value.0.Double?) && Measure(r.value.1) < Measure(cur)
  {
    NumberChars(cur, strict, [])
  }

  // ---------------------------------------------------------------------
  // Values, objects and arrays
  // ---------------------------------------------------------------------

  /**
   * `nextValue`: dispatch on the peeked character, which stays in the slot
   * for the parser chosen.
   */
  function ParseValue(cur: Cursor, strict: bool): (r: Result<(JsonValue, Cursor)>)
    ensures r.Ok? ==> Producible(r.value.0) && Measure(r.value.1) < Measure(cur)
    decreases Measure(cur), 2
  {
    var p :- Peek(cur, !strict);
    var (c, peeked) := p;
    if c == 'n' as int then NextNull(peeked, strict)
    else if c == 't' as int then NextTrue(peeked, strict)
    else if c == 'f' as int then NextFalse(peeked, strict)
    else if c == QUOTE then NextString(peeked)
    else if c == LBRACE then
      assert Next(peeked, !strict) == Ok((LBRACE, Cursor(peeked.input, EMPTY)));
      assert ObjectEntries(peeked, strict, 0, map[]).Fail?;
      ParseObject(peeked, strict)
    else if c == LBRACKET then ParseArray(peeked, strict)
    else NextNumber(peeked, strict)
  }

  /** `nextObject`. */
  function ParseObject(cur: Cursor, strict: bool): (r: Result<(JsonValue, Cursor)>)
    ensures r.Ok? ==> r.value.0.Object? && AllProducible(r.value.0.members) && Measure(r.value.1) < Measure(cur)
    decreases Measure(cur), 1
  {
    ObjectEntries(cur, strict, 0, map[])
  }

  /**
   * One entry of `nextObject` after its opening quote: the key, `:` right
   * after it, the check that the key is new, and the value.
   */
  function Member(cur: Cursor, strict: bool, obj: map<Text, JsonValue>): (r: Result<(Text, JsonValue, Cursor)>)
    ensures r.Ok? ==> IsKey(r.value.0) && r.value.0 !in obj && Producible(r.value.1)
    ensures r.Ok? ==> Measure(r.value.2) < Measure(cur)
    decreases Measure(cur), 0
  {
    var k :- NextKey(cur);
    var (key, afterKey) := k;
    var afterColon :- CheckNextChar(afterKey, COLON, false);
    if key in obj then Fail(JsonException(DuplicateKey(key)))
    else
      var v :- ParseValue(afterColon, strict);
      Ok((key, v.0, v.1))
  }

  /**
   * The loop of `nextObject` from iteration `i`, `obj` holding the entries
   * so far: a `}` or a quoted entry, and after an entry `,` to go on or `}`
   * to end.
   */
  function ObjectEntries(cur: Cursor, strict: bool, i: nat, obj: map<Text, JsonValue>): (r: Result<(JsonValue, Cursor)>)
    ensures r.Ok? ==> r.value.0.Object? && obj.Keys <= r.value.0.members.Keys && Measure(r.value.1) < Measure(cur)
    ensures r.Ok? && AllProducible(obj) ==> AllProducible(r.value.0.members)
    decreases Measure(cur), 0
  {
    if i >= MAX_STRING_LENGTH then Fail(JsonException(MaxLengthReached))
    else
      var p :- Next(cur, !strict);
      if p.0 == RBRACE then Ok((Object(obj), p.1))
      else if p.0 != QUOTE then Fail(JsonException(InvalidKey))
      else
        var m :- Member(p.1, strict, obj);
        var (key, value, afterValue) := m;
        var s :- Next(afterValue, !strict);
        if s.0 == COMMA then ObjectEntries(s.1, strict, i + 1, obj[key := value])
        else if s.0 == RBRACE then Ok((Object(obj[key := value]), s.1))
        else Fail(JsonException(ExpectedCommaOrBrace))
  }

  /**
   * `nextArray`: `[`, then a peek; a `]` there gives the empty array and
   * stays in the slot, anything else starts the first element.
   */
  function ParseArray(cur: Cursor, strict: bool): (r: Result<(JsonValue, Cursor)>)
    ensures r.Ok? ==> r.value.0.Array? && Measure(r.value.1) < Measure(cur)
    ensures r.Ok? ==> forall j :: 0 <= j < |r.value.0.items| ==> Producible(r.value.0.items[j])
    decreases Measure(cur), 1
  {
    var afterOpen :- CheckNextChar(cur, LBRACKET, !strict);
    var p :- Peek(afterOpen, !strict);
    if p.0 == RBRACKET then Ok((Array([]), p.1))
    else
      var v :- ParseValue(p.1, strict);
      ArrayElements(v.1, strict, [v.0])
  }

  /**
   * The `while (true)` loop of `nextArray`, `arr` holding the elements so
   * far: the separator comes from `next()` without skipping whitespace and
   * must be `,`, which is followed by another element, or `]`.
   */
  function ArrayElements(cur: Cursor, strict: bool, arr: seq<JsonValue>): (r: Result<(JsonValue, Cursor)>)
    ensures r.Ok? ==> r.value.0.Array? && arr <= r.value.0.items && Measure(r.value.1) < Measure(cur)
    ensures r.Ok? && (forall j :: 0 <= j < |arr| ==> Producible(arr[j])) ==>
              forall j :: 0 <= j < |r.value.0.items| ==> Producible(r.value.0.items[j])
    decreases Measure(cur), 0
  {
    var p :- Next(cur, false);
    if p.0 == COMMA then
      var v :- ParseValue(p.1, strict);
      ArrayElements(v.1, strict, arr + [v.0])
    else if p.0 == RBRACKET then Ok((Array(arr), p.1))
    else Fail(JsonException(ExpectedCommaOrBracket))
  }

  /** `decode` on a fresh reader over `input`: one `nextObject`. */
  function Decode(input: seq<int>, strict: bool): (r: Result<JsonValue>)
    ensures r.Ok? ==> r.value.Object? && AllProducible(r.value.members)
  {
    var p :- ParseObject(Cursor(input, EMPTY), strict);
    Ok(p.0)
  }
}
