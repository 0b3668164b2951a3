/**
 * `JsonDecoder` (src/jsondecoder.cpp) as a class over a `JsonStreamReader`.
 * Every parsing method is proved to do what the function of module Grammar
 * for the same step says, on the reader's state before the call; the
 * properties proved about those functions therefore hold of the methods.
 */
module Decoder {
  import opened Ascii
  import opened Json
  import opened Failures
  import opened Cursors
  import opened Numbers
  import opened Grammar
  import opened StreamReader

  class JsonDecoder {
    const reader: JsonStreamReader
    const strict: bool
    /** Written by `nextArray` and `nextNumber`, never read. */
    var lastChar: int

    ghost predicate Valid()
      reads this, reader
    {
      reader.Valid()
    }

    constructor (reader: JsonStreamReader, strict: bool := false)
      ensures this.reader == reader && this.strict == strict && lastChar == EMPTY
    {
      this.reader := reader;
      this.strict := strict;
      lastChar := EMPTY;
    }

    /** The forwarder `next(ignoreWhitespace)`. */
    method Next(ignoreWhitespace: bool := false) returns (r: Result<int>)
      requires Valid()
      modifies reader
      ensures Valid()
      ensures Agrees(r, Cursors.Next(old(reader.State()), ignoreWhitespace), reader.State())
    {
      r := reader.Next(ignoreWhitespace);
    }

    /** The forwarder `checkNext(x)`, which never skips whitespace. */
    method CheckNext(x: int) returns (r: Result<()>)
      requires Valid()
      modifies reader
      ensures Valid()
      ensures AgreesUnit(r, Cursors.CheckNextChar(old(reader.State()), x, false), reader.State())
    {
      r := reader.CheckNextChar(x);
    }

    /** The forwarder `next(n)`. */
    method NextN(n: int) returns (r: Result<Text>)
      requires Valid()
      modifies reader
      ensures Valid()
      ensures Agrees(r, Cursors.NextN(old(reader.State()), n, false), reader.State())
    {
      r := reader.NextN(n);
    }

    method Decode() returns (r: Result<JsonValue>)
      requires Valid()
      modifies this, reader
      ensures Valid()
      ensures Agrees(r, ParseObject(old(reader.State()), strict), reader.State())
    {
      r := NextObject();
    }

    method NextKey() returns (r: Result<Text>)
      requires Valid()
      modifies reader
      ensures Valid()
      ensures Agrees(r, Grammar.NextKey(old(reader.State())), reader.State())
    {
      var sb: Text := [];
      for i := 0 to MAX_STRING_LENGTH
        invariant Valid() && |sb| == i
        invariant KeyLoop(reader.State(), sb) == Grammar.NextKey(old(reader.State()))
      {
        var c :- Next();
        if IsSpace(c) || !(IsKeyChar(c) || c == QUOTE) {
          return Fail(JsonException(KeyInvalidChar));
        }
        if c == QUOTE {
          var s := Trim(sb);
          if |s| == 0 {
            return Fail(JsonException(KeyEmpty));
          }
          return Ok(s);
        }
        sb := sb + [c];
      }
      return Fail(JsonException(MaxLengthReached));
    }

    method NextObject() returns (r: Result<JsonValue>)
      requires Valid()
      modifies this, reader
      ensures Valid()
      ensures Agrees(r, ParseObject(old(reader.State()), strict), reader.State())
      decreases Measure(reader.State()), 1
    {
      ghost var start := reader.State();
      var obj: map<Text, JsonValue> := map[];
      var key: Text;
      for i := 0 to MAX_STRING_LENGTH
        invariant Valid()
        invariant Measure(reader.State()) <= Measure(start)
        invariant ObjectEntries(reader.State(), strict, i, obj) == ParseObject(start, strict)
      {
        ghost var before, entries := reader.State(), obj;
        var c :- Next(!strict);
        ghost var afterQuote := reader.State();
        assert Cursors.Next(before, !strict) == Ok((c, afterQuote));
        if c == RBRACE {
          return Ok(Object(obj));
        } else if c != QUOTE {
          return Fail(JsonException(InvalidKey));
        }
        key :- NextKey();
        ghost var afterKey := reader.State();
        assert Grammar.NextKey(afterQuote) == Ok((key, afterKey));
        var u :- CheckNext(COLON);
        ghost var afterColon := reader.State();
        assert CheckNextChar(afterKey, COLON, false) == Ok(afterColon);
        if key in obj {
          assert Member(afterQuote, strict, obj) == Fail(JsonException(DuplicateKey(key)));
          return Fail(JsonException(DuplicateKey(key)));
        }
        var v :- NextValue();
        ghost var afterValue := reader.State();
        assert ParseValue(afterColon, strict) == Ok((v, afterValue));
        assert Member(afterQuote, strict, obj) == Ok((key, v, afterValue));
        obj := obj[key := v];
        var sep :- Next(!strict);
        assert Cursors.Next(afterValue, !strict) == Ok((sep, reader.State()));
        if sep == RBRACE {
          return Ok(Object(obj));
        } else if sep != COMMA {
          return Fail(JsonException(ExpectedCommaOrBrace));
        }
        assert ObjectEntries(before, strict, i, entries) == ObjectEntries(reader.State(), strict, i + 1, obj);
      }
      return Fail(JsonException(MaxLengthReached));
    }

    method NextValue() returns (r: Result<JsonValue>)
      requires Valid()
      modifies this, reader
      ensures Valid()
      ensures Agrees(r, ParseValue(old(reader.State()), strict), reader.State())
      decreases Measure(reader.State()), 2
    {
      var c :- reader.Peek(!strict);
      if c == 'n' as int {
        r := NextNull();
      } else if c == 't' as int {
        r := NextTrue();
      } else if c == 'f' as int {
        r := NextFalse();
      } else if c == QUOTE {
        r := NextString();
      } else if c == LBRACE {
        r := NextObject();
      } else if c == LBRACKET {
        r := NextArray();
      } else {
        r := NextNumber();
      }
    }

    method NextNull() returns (r: Result<JsonValue>)
      requires Valid()
      modifies reader
      ensures Valid()
      ensures Agrees(r, Grammar.NextNull(old(reader.State()), strict), reader.State())
    {
      var u :- reader.CheckNextString(Chars("null"), !strict);
      return Ok(Null);
    }

    method NextTrue() returns (r: Result<JsonValue>)
      requires Valid()
      modifies reader
      ensures Valid()
      ensures Agrees(r, Grammar.NextTrue(old(reader.State()), strict), reader.State())
    {
      var u :- reader.CheckNextString(Chars("true"), !strict);
      return Ok(Boolean(true));
    }

    method NextFalse() returns (r: Result<JsonValue>)
      requires Valid()
      modifies reader
      ensures Valid()
      ensures Agrees(r, Grammar.NextFalse(old(reader.State()), strict), reader.State())
    {
      var u :- reader.CheckNextString(Chars("false"), !strict);
      return Ok(Boolean(false));
    }

    method NextString() returns (r: Result<JsonValue>)
      requires Valid()
      modifies reader
      ensures Valid()
      ensures Agrees(r, Grammar.NextString(old(reader.State())), reader.State())
    {
      ghost var start := reader.State();
      var sb: Text := [];
      for i := 0 to MAX_STRING_LENGTH
        invariant Valid()
        invariant StringChars(reader.State(), i, sb) == StringChars(start, 0, [])
      {
        StringIteration(reader.State(), i, sb);
        var c :- Next();
        if c == NEWLINE || c == RETURN {
          return Fail(JsonException(InvalidChar));
        }
        if c == BACKSLASH {
          var e :- Next();
          var u :- Unescape(e);
          sb := sb + u;
        } else if c == QUOTE {
          return Ok(String(sb));
        } else {
          sb := sb + [c];
        }
      }
      return Fail(JsonException(MaxLengthReached));
    }

    method NextArray() returns (r: Result<JsonValue>)
      requires Valid()
      modifies this, reader
      ensures Valid()
      ensures Agrees(r, ParseArray(old(reader.State()), strict), reader.State())
      decreases Measure(reader.State()), 1
    {
      ghost var start := reader.State();
      var u :- reader.CheckNextChar(LBRACKET, !strict);
      ghost var afterOpen := reader.State();
      assert CheckNextChar(start, LBRACKET, !strict) == Ok(afterOpen);
      var c :- reader.Peek(!strict);
      ghost var peeked := reader.State();
      assert Peek(afterOpen, !strict) == Ok((c, peeked));
      if c == RBRACKET {
        return Ok(Array([]));
      }
      lastChar := c;
      var first :- NextValue();
      assert ParseValue(peeked, strict) == Ok((first, reader.State()));
      var arr := [first];
      assert ParseArray(start, strict) == ArrayElements(reader.State(), strict, arr);
      while true
        invariant Valid()
        invariant Measure(reader.State()) < Measure(start)
        invariant ArrayElements(reader.State(), strict, arr) == ParseArray(start, strict)
        decreases Measure(reader.State())
      {
        ghost var before, elements := reader.State(), arr;
        var s :- reader.Next();
        ghost var afterSep := reader.State();
        assert Cursors.Next(before, false) == Ok((s, afterSep));
        if s == COMMA {
          var v :- NextValue();
          assert ParseValue(afterSep, strict) == Ok((v, reader.State()));
          arr := arr + [v];
          assert ArrayElements(before, strict, elements) == ArrayElements(reader.State(), strict, arr);
        } else if s == RBRACKET {
          return Ok(Array(arr));
        } else {
          return Fail(JsonException(ExpectedCommaOrBracket));
        }
      }
    }

    method NextNumber() returns (r: Result<JsonValue>)
      requires Valid()
      modifies this, reader
      ensures Valid()
      ensures Agrees(r, Grammar.NextNumber(old(reader.State()), strict), reader.State())
      ensures r.Ok? ==> lastChar == reader.lastChar
    {
      ghost var start := reader.State();
      var sb: Text := [];
      for i := 0 to MAX_STRING_LENGTH
        invariant Valid() && |sb| == i
        invariant NumberChars(reader.State(), strict, sb) == Grammar.NextNumber(start, strict)
      {
        var c :- reader.Peek(!strict);
        if c == COMMA || c == RBRACKET || c == RBRACE {
          lastChar := c;
          return ParseNumber(sb);
        }
        var d :- reader.Next();
        if IsNumberChar(c) {
          sb := sb + [c];
        } else {
          return Fail(JsonException(ParsingError));
        }
      }
      return Fail(JsonException(MaxLengthReached));
    }
  }
}
