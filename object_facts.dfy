/**
 * Properties of `nextObject` and `decode` (src/jsondecoder.cpp): the
 * per-iteration rules of the entry loop, the duplicate-key check, the
 * iteration guard, and the round trip of a whole object body. `decode`
 * never reads an opening `{` itself, so the text it accepts for an object
 * is its body: the entries and the closing `}`.
 */
module ObjectFacts {
  import opened Ascii
  import opened Json
  import opened Failures
  import opened Cursors
  import opened Grammar
  import opened GrammarFacts
  import opened RoundTrip

  // ---------------------------------------------------------------------
  // One iteration of the entry loop
  // ---------------------------------------------------------------------

  /** The 1025th iteration is not run: "maximum string-length reached!". */
  lemma {:induction false} ObjectLimit(cur: Cursor, strict: bool, i: nat, obj: map<Text, JsonValue>)
    requires i >= MAX_STRING_LENGTH
    ensures ObjectEntries(cur, strict, i, obj) == Fail(JsonException(MaxLengthReached))
  {
  }

  /**
   * The first token of an iteration, read with `next(!strict)`: `}` returns
   * the entries collected so far (so `,}` is accepted), anything but `"`
   * fails with "invalid key".
   */
  lemma {:induction false} ObjectFirst(cur: Cursor, strict: bool, i: nat, obj: map<Text, JsonValue>, c: int, after: Cursor)
    requires i < MAX_STRING_LENGTH && Next(cur, !strict) == Ok((c, after)) && c != QUOTE
    ensures ObjectEntries(cur, strict, i, obj) ==
              if c == RBRACE then Ok((Object(obj), after)) else Fail(JsonException(InvalidKey))
  {
  }

  /**
   * After an entry, the token read with `next(!strict)` must be `,`, which
   * starts the next iteration with the entry added, or `}`, which returns
   * the object with the entry added; anything else fails with
   * "expected a ',' or '}'".
   */
  lemma {:induction false} ObjectStep(cur: Cursor, strict: bool, i: nat, obj: map<Text, JsonValue>,
                   c1: Cursor, k: Text, v: JsonValue, after: Cursor, s: int, next: Cursor)
    requires i < MAX_STRING_LENGTH && Next(cur, !strict) == Ok((QUOTE, c1))
    requires Member(c1, strict, obj) == Ok((k, v, after)) && Next(after, !strict) == Ok((s, next))
    ensures ObjectEntries(cur, strict, i, obj) ==
              if s == COMMA then ObjectEntries(next, strict, i + 1, obj[k := v])
              else if s == RBRACE then Ok((Object(obj[k := v]), next))
              else Fail(JsonException(ExpectedCommaOrBrace))
  {
  }

  /** An entry whose key, `:` and value are read in turn. */
  lemma {:induction false} MemberReads(c1: Cursor, strict: bool, obj: map<Text, JsonValue>, k: Text, c2: Cursor, c3: Cursor, v: JsonValue, after: Cursor)
    requires NextKey(c1) == Ok((k, c2)) && CheckNextChar(c2, COLON, false) == Ok(c3)
    requires k !in obj && ParseValue(c3, strict) == Ok((v, after))
    ensures Member(c1, strict, obj) == Ok((k, v, after))
  {
  }

  /**
   * A key already in the object fails with "duplicate key <k>" once the `:`
   * after it has been read, whatever follows: the value is never read.
   */
  lemma {:induction false} DuplicateKeyStep(cur: Cursor, strict: bool, i: nat, obj: map<Text, JsonValue>, k: Text, rest: seq<int>)
    requires Valid(cur) && i < MAX_STRING_LENGTH && IsKey(k) && k in obj
    requires Pending(cur) == [QUOTE] + (k + ([QUOTE] + ([COLON] + rest)))
    ensures ObjectEntries(cur, strict, i, obj) == Fail(JsonException(DuplicateKey(k)))
  {
    var c1 := Cursor(k + ([QUOTE] + ([COLON] + rest)), EMPTY);
    NextFirst(cur, !strict, QUOTE, k + ([QUOTE] + ([COLON] + rest)));
    NextKeyRoundTrip(c1, k, [COLON] + rest);
    var c2 := Cursor([COLON] + rest, EMPTY);
    NextFirst(c2, false, COLON, rest);
    assert CheckNextChar(c2, COLON, false) == Ok(Cursor(rest, EMPTY));
    assert Member(c1, strict, obj) == Fail(JsonException(DuplicateKey(k)));
  }

  /**
   * The colon must follow the key's closing quote at once: it is read with
   * `checkNext(':')`, which skips no whitespace, and any other character
   * fails with "expected ':' found '<c>'!".
   */
  lemma {:induction false} MissingColonStep(cur: Cursor, strict: bool, i: nat, obj: map<Text, JsonValue>, k: Text, c: int, rest: seq<int>)
    requires Valid(cur) && i < MAX_STRING_LENGTH && IsKey(k)
    requires c != COLON && c != EOF && c != EMPTY
    requires Pending(cur) == [QUOTE] + (k + ([QUOTE] + ([c] + rest)))
    ensures ObjectEntries(cur, strict, i, obj) == Fail(StreamException(Mismatch(COLON, c)))
  {
    var c1 := Cursor(k + ([QUOTE] + ([c] + rest)), EMPTY);
    NextFirst(cur, !strict, QUOTE, k + ([QUOTE] + ([c] + rest)));
    NextKeyRoundTrip(c1, k, [c] + rest);
    var c2 := Cursor([c] + rest, EMPTY);
    NextDelivers(c2, false);
    assert CheckNextChar(c2, COLON, false) == Fail(StreamException(Mismatch(COLON, c)));
    assert Member(c1, strict, obj) == Fail(StreamException(Mismatch(COLON, c)));
  }

  // ---------------------------------------------------------------------
  // Object bodies
  // ---------------------------------------------------------------------

  /** `"key":value`, the text of one entry. */
  function EntryText(e: (Text, JsonValue)): Text
  {
    [QUOTE] + (e.0 + ([QUOTE] + ([COLON] + Encode(e.1))))
  }

  /** Entries separated by commas, then `}`: an object as `decode` reads it. */
  function Body(es: seq<(Text, JsonValue)>): Text
  {
    if es == [] then [RBRACE]
    else EntryText(es[0]) + (if |es| == 1 then [RBRACE] else [COMMA] + Body(es[1..]))
  }

  /** Each entry followed by a comma. */
  function Prefix(es: seq<(Text, JsonValue)>): Text
  {
    if es == [] then [] else EntryText(es[0]) + ([COMMA] + Prefix(es[1..]))
  }

  /** The entries inserted in order into `obj`, as `object[key] = value` does. */
  function Insert(obj: map<Text, JsonValue>, es: seq<(Text, JsonValue)>): map<Text, JsonValue>
    decreases |es|
  {
    if es == [] then obj else Insert(obj[es[0].0 := es[0].1], es[1..])
  }

  /** Entries with valid, pairwise distinct keys, none already in `obj`, and plain values. */
  predicate GoodEntries(es: seq<(Text, JsonValue)>, obj: map<Text, JsonValue>)
  {
    (forall j :: 0 <= j < |es| ==> IsKey(es[j].0) && Plain(es[j].1) && es[j].0 !in obj) &&
    (forall j, l :: 0 <= j < l < |es| ==> es[j].0 != es[l].0)
  }

  lemma {:induction false} GoodEntriesHead(es: seq<(Text, JsonValue)>, obj: map<Text, JsonValue>)
    requires es != [] && GoodEntries(es, obj)
    ensures IsKey(es[0].0) && Plain(es[0].1) && es[0].0 !in obj
  {
  }

  lemma {:induction false} InsertCons(obj: map<Text, JsonValue>, es: seq<(Text, JsonValue)>)
    requires es != []
    ensures Insert(obj, es) == Insert(obj[es[0].0 := es[0].1], es[1..])
  {
  }

  lemma {:induction false} PrefixThen(es: seq<(Text, JsonValue)>, rest: seq<int>)
    requires es != []
    ensures Prefix(es) + rest == EntryText(es[0]) + ([COMMA] + (Prefix(es[1..]) + rest))
  {
    var e, p := EntryText(es[0]), Prefix(es[1..]);
    assert Prefix(es) == e + ([COMMA] + p);
    AppendAssoc(e, [COMMA] + p, rest);
    AppendAssoc([COMMA], p, rest);
  }

  lemma {:induction false} GoodEntriesTail(es: seq<(Text, JsonValue)>, obj: map<Text, JsonValue>)
    requires es != [] && GoodEntries(es, obj)
    ensures GoodEntries(es[1..], obj[es[0].0 := es[0].1])
  {
    forall l | 0 <= l < |es| - 1 ensures es[1..][l].0 != es[0].0 {
      assert es[1..][l] == es[l + 1];
    }
  }

  /**
   * The object built from such entries holds the entries of `obj` and each
   * entry's key bound to its value, and nothing else.
   */
  lemma {:induction false} InsertSpec(obj: map<Text, JsonValue>, es: seq<(Text, JsonValue)>)
    requires GoodEntries(es, obj)
    ensures Insert(obj, es).Keys == obj.Keys + set j | 0 <= j < |es| :: es[j].0
    ensures forall k :: k in obj ==> Insert(obj, es)[k] == obj[k]
    ensures forall j :: 0 <= j < |es| ==> Insert(obj, es)[es[j].0] == es[j].1
    decreases |es|
  {
    if es != [] {
      var o := obj[es[0].0 := es[0].1];
      GoodEntriesTail(es, obj);
      InsertSpec(o, es[1..]);
      var m := Insert(obj, es);
      assert m == Insert(o, es[1..]);
      assert (set j | 0 <= j < |es| :: es[j].0) == {es[0].0} + set j | 0 <= j < |es[1..]| :: es[1..][j].0 by {
        forall j | 0 <= j < |es| ensures es[j].0 in {es[0].0} + set j | 0 <= j < |es[1..]| :: es[1..][j].0 {
          if j > 0 {
            assert es[j] == es[1..][j - 1];
          }
        }
      }
      forall j | 0 <= j < |es| ensures m[es[j].0] == es[j].1 {
        if j > 0 {
          assert es[j] == es[1..][j - 1];
        }
      }
    }
  }

  lemma {:induction false} EntryTextThen(k: Text, v: JsonValue, x: seq<int>)
    ensures EntryText((k, v)) + x == [QUOTE] + (k + ([QUOTE] + ([COLON] + (Encode(v) + x))))
  {
  }

  /**
   * One entry and the separator after it: the key is read back, the value
   * is read back, and the loop goes on after `,` or returns after `}`.
   */
  lemma {:induction false} EntryStep(cur: Cursor, strict: bool, i: nat, obj: map<Text, JsonValue>, k: Text, v: JsonValue, s: int, rest: seq<int>)
    requires Valid(cur) && i < MAX_STRING_LENGTH && IsKey(k) && k !in obj && Plain(v)
    requires s == COMMA || s == RBRACE
    requires Pending(cur) == EntryText((k, v)) + ([s] + rest)
    ensures ObjectEntries(cur, strict, i, obj) ==
              if s == COMMA then ObjectEntries(Cursor(rest, EMPTY), strict, i + 1, obj[k := v])
              else Ok((Object(obj[k := v]), Cursor(rest, EMPTY)))
  {
    var x := Encode(v) + ([s] + rest);
    EntryTextThen(k, v, [s] + rest);
    var c1 := Cursor(k + ([QUOTE] + ([COLON] + x)), EMPTY);
    NextFirst(cur, !strict, QUOTE, k + ([QUOTE] + ([COLON] + x)));
    NextKeyRoundTrip(c1, k, [COLON] + x);
    var c2 := Cursor([COLON] + x, EMPTY);
    NextFirst(c2, false, COLON, x);
    var c3 := Cursor(x, EMPTY);
    assert CheckNextChar(c2, COLON, false) == Ok(c3);
    var after := ParseEncoded(c3, strict, v, s, rest);
    MemberReads(c1, strict, obj, k, c2, c3, v, after);
    NextFirst(after, !strict, s, rest);
    ObjectStep(cur, strict, i, obj, c1, k, v, after, s, Cursor(rest, EMPTY));
  }

  lemma {:induction false} BodyThen(es: seq<(Text, JsonValue)>, rest: seq<int>)
    requires es != []
    ensures |es| == 1 ==> Body(es) + rest == EntryText(es[0]) + ([RBRACE] + rest)
    ensures |es| > 1 ==> Body(es) + rest == EntryText(es[0]) + ([COMMA] + (Body(es[1..]) + rest))
  {
    var e := EntryText(es[0]);
    if |es| == 1 {
      assert Body(es) == e + [RBRACE];
      AppendAssoc(e, [RBRACE], rest);
    } else {
      var b := Body(es[1..]);
      assert Body(es) == e + ([COMMA] + b);
      AppendAssoc(e, [COMMA] + b, rest);
      AppendAssoc([COMMA], b, rest);
    }
  }

  /**
   * The entry loop reads an object body back to the entries inserted in
   * order, and leaves the reader after the closing `}`.
   */
  lemma {:induction false} BodyRun(cur: Cursor, strict: bool, i: nat, obj: map<Text, JsonValue>,
                                   es: seq<(Text, JsonValue)>, rest: seq<int>)
    requires Valid(cur) && GoodEntries(es, obj)
    requires i < MAX_STRING_LENGTH && i + |es| <= MAX_STRING_LENGTH
    requires Pending(cur) == Body(es) + rest
    ensures ObjectEntries(cur, strict, i, obj) == Ok((Object(Insert(obj, es)), Cursor(rest, EMPTY)))
    decreases |es|
  {
    if es == [] {
      NextFirst(cur, !strict, RBRACE, rest);
      ObjectFirst(cur, strict, i, obj, RBRACE, Cursor(rest, EMPTY));
    } else {
      var k, v := es[0].0, es[0].1;
      BodyThen(es, rest);
      GoodEntriesHead(es, obj);
      InsertCons(obj, es);
      var o := obj[k := v];
      if |es| == 1 {
        EntryStep(cur, strict, i, obj, k, v, RBRACE, rest);
        assert es[1..] == [];
      } else {
        EntryStep(cur, strict, i, obj, k, v, COMMA, Body(es[1..]) + rest);
        GoodEntriesTail(es, obj);
        BodyRun(Cursor(Body(es[1..]) + rest, EMPTY), strict, i + 1, o, es[1..], rest);
      }
    }
  }

  /** One iteration over an entry followed by a comma: the loop moves on to the next entry and index. */
  lemma {:induction false} PrefixStep(cur: Cursor, strict: bool, i: nat, obj: map<Text, JsonValue>, es: seq<(Text, JsonValue)>, rest: seq<int>)
    requires Valid(cur) && GoodEntries(es, obj) && es != [] && i < MAX_STRING_LENGTH
    requires Pending(cur) == Prefix(es) + rest
    ensures ObjectEntries(cur, strict, i, obj) ==
              ObjectEntries(Cursor(Prefix(es[1..]) + rest, EMPTY), strict, i + 1, obj[es[0].0 := es[0].1])
  {
    PrefixThen(es, rest);
    GoodEntriesHead(es, obj);
    EntryStep(cur, strict, i, obj, es[0].0, es[0].1, COMMA, Prefix(es[1..]) + rest);
  }

  /** What the entries after the first still satisfy once the first is inserted. */
  lemma {:induction false} PrefixTail(cur: Cursor, i: nat, obj: map<Text, JsonValue>, es: seq<(Text, JsonValue)>, rest: seq<int>,
                   n: nat, m: map<Text, JsonValue>)
    returns (next: Cursor, o: map<Text, JsonValue>)
    requires GoodEntries(es, obj) && es != [] && n == i + |es| && n <= MAX_STRING_LENGTH && m == Insert(obj, es)
    ensures next == Cursor(Prefix(es[1..]) + rest, EMPTY) && o == obj[es[0].0 := es[0].1]
    ensures Valid(next) && GoodEntries(es[1..], o)
    ensures i < MAX_STRING_LENGTH && n == i + 1 + |es[1..]| && Pending(next) == Prefix(es[1..]) + rest && m == Insert(o, es[1..])
  {
    next, o := Cursor(Prefix(es[1..]) + rest, EMPTY), obj[es[0].0 := es[0].1];
    GoodEntriesTail(es, obj);
    InsertCons(obj, es);
  }

  /**
   * The entry loop reads entries each followed by a comma, one per
   * iteration, and is then at the text that follows them; `n` and `m` name
   * the iteration and the object it reaches.
   */
  lemma {:induction false} PrefixRun(cur: Cursor, strict: bool, i: nat, obj: map<Text, JsonValue>,
                                     es: seq<(Text, JsonValue)>, rest: seq<int>, n: nat, m: map<Text, JsonValue>)
    returns (at: Cursor)
    requires Valid(cur) && GoodEntries(es, obj)
    requires n == i + |es| && n <= MAX_STRING_LENGTH
    requires Pending(cur) == Prefix(es) + rest && m == Insert(obj, es)
    ensures Valid(at) && Pending(at) == rest
    ensures ObjectEntries(cur, strict, i, obj) == ObjectEntries(at, strict, n, m)
    decreases |es|
  {
    if es == [] {
      at := cur;
      assert Prefix(es) + rest == rest;
    } else {
      var next, o := PrefixTail(cur, i, obj, es, rest, n, m);
      at := PrefixRun(next, strict, i + 1, o, es[1..], rest, n, m);
      PrefixStep(cur, strict, i, obj, es, rest);
    }
  }

  // ---------------------------------------------------------------------
  // decode
  // ---------------------------------------------------------------------

  /**
   * Up to 1024 entries with distinct valid keys and plain values: `decode`
   * reads their body back to the object that binds each key to its value.
   */
  lemma {:induction false} DecodeRoundTrip(es: seq<(Text, JsonValue)>, rest: seq<int>, strict: bool)
    requires GoodEntries(es, map[]) && |es| <= MAX_STRING_LENGTH
    ensures Decode(Body(es) + rest, strict) == Ok(Object(Insert(map[], es)))
  {
    BodyRun(Cursor(Body(es) + rest, EMPTY), strict, 0, map[], es, rest);
  }

  /** A comma before the closing `}` is accepted: `"a":1,}` reads as `"a":1}`. */
  lemma {:induction false} DecodeTrailingComma(es: seq<(Text, JsonValue)>, rest: seq<int>, strict: bool)
    requires GoodEntries(es, map[]) && |es| < MAX_STRING_LENGTH
    ensures Decode(Prefix(es) + ([RBRACE] + rest), strict) == Ok(Object(Insert(map[], es)))
  {
    var cur := Cursor(Prefix(es) + ([RBRACE] + rest), EMPTY);
    var at := PrefixRun(cur, strict, 0, map[], es, [RBRACE] + rest, |es|, Insert(map[], es));
    NextFirst(at, !strict, RBRACE, rest);
    ObjectFirst(at, strict, |es|, Insert(map[], es), RBRACE, Cursor(rest, EMPTY));
  }

  /**
   * A key that an earlier entry of the same object already has fails with
   * "duplicate key <k>", whatever value follows it.
   */
  lemma {:induction false} DecodeDuplicateKey(es: seq<(Text, JsonValue)>, j: nat, rest: seq<int>, strict: bool)
    requires GoodEntries(es, map[]) && |es| < MAX_STRING_LENGTH && j < |es|
    ensures var k := es[j].0;
            Decode(Prefix(es) + ([QUOTE] + (k + ([QUOTE] + ([COLON] + rest)))), strict) ==
              Fail(JsonException(DuplicateKey(k)))
  {
    var k := es[j].0;
    var tail := [QUOTE] + (k + ([QUOTE] + ([COLON] + rest)));
    var cur := Cursor(Prefix(es) + tail, EMPTY);
    var at := PrefixRun(cur, strict, 0, map[], es, tail, |es|, Insert(map[], es));
    InsertSpec(map[], es);
    DuplicateKeyStep(at, strict, |es|, Insert(map[], es), k, rest);
  }

  /** 1024 entries each followed by a comma exhaust the entry loop, whatever follows. */
  lemma {:induction false} DecodeTooManyEntries(es: seq<(Text, JsonValue)>, rest: seq<int>, strict: bool)
    requires GoodEntries(es, map[]) && |es| == MAX_STRING_LENGTH
    ensures Decode(Prefix(es) + rest, strict) == Fail(JsonException(MaxLengthReached))
  {
    var cur := Cursor(Prefix(es) + rest, EMPTY);
    var at := PrefixRun(cur, strict, 0, map[], es, rest, |es|, Insert(map[], es));
    ObjectLimit(at, strict, |es|, Insert(map[], es));
  }

  /** Whitespace between a key and its `:` fails in either mode: `"a" :1}` is rejected. */
  lemma {:induction false} DecodeMissingColon(k: Text, c: int, rest: seq<int>, strict: bool)
    requires IsKey(k) && c != COLON && c != EOF && c != EMPTY
    ensures Decode([QUOTE] + (k + ([QUOTE] + ([c] + rest))), strict) == Fail(StreamException(Mismatch(COLON, c)))
  {
    var cur := Cursor([QUOTE] + (k + ([QUOTE] + ([c] + rest))), EMPTY);
    MissingColonStep(cur, strict, 0, map[], k, c, rest);
  }

  /**
   * The root must be an object body: when the first character `decode`
   * reads (after whitespace, in non-strict mode) is neither `"` nor `}`,
   * as for `[1,2,3]`, `42` or `{`, it fails with "invalid key".
   */
  lemma {:induction false} DecodeRootNotObject(input: seq<int>, strict: bool)
    requires var k := if strict then 0 else LeadingSpaces(input);
             k < |input| && input[k] != QUOTE && input[k] != RBRACE && input[k] != EOF && input[k] != EMPTY
    ensures Decode(input, strict) == Fail(JsonException(InvalidKey))
  {
    var cur := Cursor(input, EMPTY);
    var k := if strict then 0 else LeadingSpaces(input);
    NextFromSource(input, !strict);
    ObjectFirst(cur, strict, 0, map[], input[k], Cursor(input[k + 1..], EMPTY));
  }
}
