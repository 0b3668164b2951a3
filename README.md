# moba-lib-json: the stream reader and the decoder

This project models the JSON reading core of moba-lib-json in Dafny and
proves properties of that model. The core has two parts:

- **`JsonStreamReader`** is a cursor over a character source. `read()`
  returns the next character, or -1 once the source is used up. A
  one-character pushback slot, `lastChar`, holds what `peek` saw until the
  next `next` takes it; 0 means the slot is empty. `next` can skip
  whitespace. It fails with "input stream corrupted!" on the end marker or
  on a NUL. `checkNext` consumes one character, or each character of a
  string, and fails on a mismatch. `next(n)` collects `n` characters.
- **`JsonDecoder`** is a recursive-descent parser over such a reader.
  `decode` reads one object with `nextObject`. Keys come from `nextKey`.
  Values come from `nextValue`, which peeks and then dispatches to
  `nextNull`, `nextTrue`, `nextFalse`, `nextString`, `nextObject`,
  `nextArray` or `nextNumber`. `nextNumber` converts its token with
  `parseNumber`. The loops of `nextKey`, `nextString`, `nextNumber` and
  `nextObject` stop after `MAX_STRING_LENGTH` = 1024 iterations with
  "maximum string-length reached!". The separator loop of `nextArray` and
  the reader's own loops have no such bound. In strict mode the decoder
  skips no whitespace between tokens.

The model has two layers:

- **Specification layer.** This is a set of functions over a value
  `Cursor(input, slot)`. `input` is the unread rest of the source, as
  `seq<int>` with -1 as the end marker. `slot` is the pushback character,
  0 when empty. The functions are in module `Cursors` (the stream reader),
  `Numbers` (`parseNumber`, `strtol`, `atol`) and `Grammar` (the decoder's
  parsing functions). Each loop of the source is a recursive function over
  its iteration index. A result is `Ok(value)` or `Fail(error)`. Each kind
  of exception the source throws has its own error constructor, so every
  error condition is told apart.
- **Imperative layer.** Two classes mirror the source's objects:
  `StreamReader.JsonStreamReader` and `Decoder.JsonDecoder`. The reader's
  fields are the source, a read position and `lastChar`. The methods use
  `while` loops where the source loops. Each method is proved to agree
  with its specification function: the same result or the same error, and
  the new reader state equal to the cursor that the function returns.

The properties are proved as lemmas about the specification layer:

- `GrammarFacts` covers keys, strings, numbers, the dispatch and arrays.
- `RoundTrip` proves that the text of literals, integers and arrays of
  them reads back. The `Encode` function writes that text.
- `ObjectFacts` proves that `decode` reads an object body back to the
  map it denotes. It also covers the duplicate-key, trailing-comma,
  missing-colon and entry-limit behaviour.

The model follows the code as written, including its quirks. The lemmas
state each quirk outright:

- `nextValue` leaves the peeked character in the slot, so the parser it
  picks reads that character as its first token. Two consequences follow:
  - a string value always comes out as the empty string, and its text is
    left unread (`StringValueIsEmpty`);
  - a nested object always fails with "invalid key"
    (`NestedObjectRejected`).
- `[]` returns the empty array and leaves its `]` in the slot, which then
  closes an enclosing array (`EmptyArrayLeavesBracket`,
  `EmptyArrayClosesOuter`).
- `\u` appends nothing, and the four hexadecimal digits after it are read
  as ordinary characters (`UnicodeEscapeDropped`).
- In non-strict mode `nextNumber` skips whitespace inside a number, so
  `1 2` reads as `12` (`NumberSpacesSkipped`).
- The separator after an array element is read without skipping
  whitespace, so `[true ,1]` fails with "expected ',' or ']'"
  (`LiteralSeparatorSpace`). After a number element the `,` has already
  been peeked past any whitespace in non-strict mode, so `[1 ,2]` is
  accepted there (`SpacedNumberSeparator`); strict mode rejects it with
  "parsing error" (`StrictNumberSeparatorSpace`).
- The only letters the number tokenizer accepts are `e`, `E`, `x` and
  `X`. So `0x1A` fails (`HexLetterRejected`), and `0x1e5` is 485
  (`HexWithExponentLetter`).
- `,}` is accepted at the end of an object (`DecodeTrailingComma`).

**Where the code departs from JSON.** Section 4 of RFC 8259 writes an
object as `{`, its members, `}`. `decode` calls `nextObject` directly
(src/jsondecoder.cpp:38-40), and `nextObject` never consumes a `{`: its
first token must be `"` or `}`. A document written as `{...}` therefore
fails with "invalid key" (`LeadingBraceRejected`, `DecodeRootNotObject`).
The input `decode` accepts is the body of an object without its opening
brace. The model follows the code.

## Model

| member | source | states |
|---|---|---|
| `Cursors.Read` | src/jsonstreamreader.cpp:72 | `read()` on an exhausted source gives -1 and stays exhausted; otherwise it gives the first value and drops it |
| `Cursors.ReadSkipping` | src/jsonstreamreader.cpp:70-73 | The do-while read loop consumes a suffix, at least one value of a non-empty source, and is a single `read()` when whitespace is not skipped |
| `Cursors.Next` | src/jsonstreamreader.cpp:64-79 | A successful `next` empties the slot and strictly shrinks what is left to read; from a valid state it never delivers -1 or 0; its only failure is "input stream corrupted!"; without whitespace skipping it delivers exactly the first pending character |
| `Cursors.Peek` | src/jsonstreamreader.cpp:33-37 | `peek` leaves the character it returns in the slot and keeps the state valid |
| `Cursors.CheckNextChar` | src/jsonstreamreader.cpp:53-58 | A successful `checkNext(x)` consumes a character and empties the slot |
| `Cursors.CheckNextString` | src/jsonstreamreader.cpp:43-47 | A successful `checkNext(s)` never moves the reader back, and on a non-empty `s` consumes input and empties the slot |
| `Cursors.NextN` | src/jsonstreamreader.cpp:81-92 | `next(n)` returns exactly `n` characters (none for `n <= 0`, without reading) |
| `Cursors.NextNLoop` | src/jsonstreamreader.cpp:88-91 | The collecting loop only appends to what it has, one character per remaining iteration |
| `Cursors.LeadingSpaces` | src/jsonstreamreader.cpp:71-73 | The counted prefix is all whitespace and the character after it is not |
| `Cursors.NextFromSlot` | src/jsonstreamreader.cpp:65-69 | A pushed-back character is returned and the slot emptied, with nothing read, whatever the whitespace flag |
| `Cursors.SkipLeading` | src/jsonstreamreader.cpp:70-73 | Skipping whitespace returns the first non-whitespace value and the rest after it, or the end marker |
| `Cursors.NextFromSource` | src/jsonstreamreader.cpp:64-79 | With an empty slot, `next(true)` returns the first non-whitespace character and `next(false)` the very next one; the end marker or a NUL there fails |
| `Cursors.NextDelivers` | src/jsonstreamreader.cpp:64-79 | The first pending character is delivered whenever it is deliverable and not whitespace to be skipped |
| `Cursors.PeekDelivers` | src/jsonstreamreader.cpp:33-37 | The same for `peek`, which leaves the character in the slot |
| `Cursors.PeekThenNext` | src/jsonstreamreader.cpp:29-37 | `peek` succeeds exactly when `next` would, and the `next` after it returns the same character and reaches the same state as a lone `next`, under either whitespace flag |
| `Cursors.PeekIdempotent` | src/jsonstreamreader.cpp:33-37 | Peeking again returns the same character and changes nothing |
| `Cursors.CheckNextCharSpec` | src/jsonstreamreader.cpp:53-58 | `checkNext(x)` succeeds exactly when `next` delivers `x`, and then leaves the reader where `next` does; on any other character it fails naming the expected and the found character |
| `Cursors.CheckNextStringLoop` | src/jsonstreamreader.cpp:43-47 | The per-character check loop succeeds exactly when the collecting loop of `next(n)` reads the same characters, and ends in the same state |
| `Cursors.NextNLoopDelivers` | src/jsonstreamreader.cpp:88-91 | Without whitespace skipping, the collected characters are exactly those that were pending before |
| `Cursors.NextNDelivers` | src/jsonstreamreader.cpp:81-92 | `next(n, false)` returns exactly the next `n` pending characters |
| `Cursors.CheckNextStringIsNextN` | src/jsonstreamreader.cpp:43-47 | `checkNext(s)` succeeds exactly when `next` of the length of `s` returns `s`, and leaves the reader where `next` of the length of `s` does; for `""` it reads nothing |
| `Cursors.CheckNextStringDelivers` | src/jsonstreamreader.cpp:43-47 | When the pending text starts with a deliverable `s` (free of whitespace, if that is skipped), `checkNext(s)` consumes exactly `s` |
| `Cursors.CheckNextStringAppend` | src/jsonstreamreader.cpp:43-47 | Checking `a + b` is checking `a` and then `b`; a failure in `a` is the failure of the whole |
| `Cursors.CheckNextStringCons` | src/jsonstreamreader.cpp:43-47 | A successful check of a non-empty `s` starts with a `next` that delivers `s[0]` |
| `Cursors.CheckNextStringOne` | src/jsonstreamreader.cpp:43-47 | Checking a one-character string is one `next` that delivers it |
| `StreamReader.JsonStreamReader.constructor` | src/jsonstreamreader.cpp:65 | A new reader is over the whole source with an empty slot |
| `StreamReader.JsonStreamReader.Read` | src/jsonstreamreader.cpp:72 | `read()` returns the next source value and advances, or returns -1 at the end |
| `StreamReader.JsonStreamReader.Next` | src/jsonstreamreader.cpp:64-79 | The slot test and the do-while loop return what `Cursors.Next` specifies, and the new reader state is its cursor |
| `StreamReader.JsonStreamReader.Peek` | src/jsonstreamreader.cpp:29-37 | Agrees with `Cursors.Peek`: the character is stored back in `lastChar` |
| `StreamReader.JsonStreamReader.CheckNextChar` | src/jsonstreamreader.cpp:49-58 | Agrees with `Cursors.CheckNextChar`, the mismatch error included |
| `StreamReader.JsonStreamReader.CheckNextString` | src/jsonstreamreader.cpp:39-47 | The loop over the characters of `s` agrees with `Cursors.CheckNextString` |
| `StreamReader.JsonStreamReader.NextN` | src/jsonstreamreader.cpp:81-96 | The `for` loop agrees with `Cursors.NextN` |
| `Numbers.DigitValue` | src/jsondecoder.cpp:269 | The digit table of `strtol`: exactly letters and digits have a value, decimal digits below ten |
| `Numbers.IsDigitOf` | src/jsondecoder.cpp:269 | A digit of base 10 is a decimal digit; a digit of base 16 is a decimal digit or a letter `a`-`f` in either case |
| `Numbers.Accumulate` | src/jsondecoder.cpp:269 | The digit loop never lowers a non-negative value and stops at the first character that is not a digit of the base |
| `Numbers.Magnitude` | src/jsondecoder.cpp:269 | In base 16 an optional `0x` or `0X` is skipped before the digits; in other bases the digits start at once |
| `Numbers.StrToL` | src/jsondecoder.cpp:269-280 | `strtol`/`atol`: the result is negative only after a leading `-`, never positive after one, and 0 for a text of whitespace |
| `Numbers.IsHexToken` | src/jsondecoder.cpp:268 | The `0x`/`0X` test implies a token longer than 2 that starts with a digit |
| `Numbers.IsFloatToken` | src/jsondecoder.cpp:272 | The float test holds exactly when some position holds `.`, `e` or `E` |
| `Numbers.ParseNumber` | src/jsondecoder.cpp:255-284 | `parseNumber` yields an integer or a double, and fails exactly when the trimmed token is empty or starts with neither a digit nor `-` |
| `Numbers.DigitChar` | src/jsondecoder.cpp:269 | The digit written for `d` has value `d` in `strtol`'s digit table |
| `Numbers.Digits` | src/jsondecoder.cpp:269 | The notation of `n` in a base is non-empty and made only of digits of that base |
| `Numbers.AccumulateDigits` | src/jsondecoder.cpp:269 | `strtol`'s digit loop reads the notation of `n` in any base from 2 to 16 back to `n` |
| `Numbers.StrToLDecimal` | src/jsondecoder.cpp:280 | `atol` inverts decimal notation, sign included |
| `Numbers.StrToLDigits` | src/jsondecoder.cpp:269 | A digit string has no sign and no whitespace, and `strtol` reads it back in its base |
| `Numbers.DecimalTextShape` | src/jsondecoder.cpp:256-280 | Decimal text is trimmed already, starts with a digit or `-`, and is neither a hexadecimal nor a floating-point token |
| `Numbers.ParseDecimalRoundTrip` | src/jsondecoder.cpp:255-284 | Every integer written in decimal is parsed back to itself |
| `Numbers.ParseHexRoundTrip` | src/jsondecoder.cpp:268-270 | `0x` followed by the base-16 digits of `n` is parsed to `n` |
| `Numbers.ParseHexToken` | src/jsondecoder.cpp:268-270 | A token starting with `0x` or `0X` and at least one more character is read in base 16 from its third character |
| `Numbers.ParseFloatToken` | src/jsondecoder.cpp:272-278 | Any other valid token holding `.`, `e` or `E` becomes a double |
| `Numbers.ParseDecimalToken` | src/jsondecoder.cpp:280 | The remaining valid tokens go through `atol` |
| `Numbers.HexBeforeFloat` | src/jsondecoder.cpp:268-278 | The hexadecimal test comes first: `0x1e5` is the integer 485, not a double |
| `Numbers.HexPrefixTwice` | src/jsondecoder.cpp:268-269 | `strtol` skips a `0x` of its own after the one `parseNumber` strips: `0x0x1` is 1 |
| `Numbers.NegativeHexIsDecimal` | src/jsondecoder.cpp:268-280 | `-0x1A` fails the hexadecimal test and `atol` reads it as 0 |
| `Numbers.FractionIsDouble` | src/jsondecoder.cpp:272-278 | `1.5` becomes a double |
| `Numbers.ExponentIsDouble` | src/jsondecoder.cpp:272-278 | `2E3` becomes a double |
| `Numbers.BadTokens` | src/jsondecoder.cpp:258-265 | The empty token fails with "empty value"; `.5` and `+1` fail with "number starts not with digit or -" |
| `Grammar.KeyLoop` | src/jsondecoder.cpp:45-62 | Its character test is `Grammar.IsKeyChar` (letters, digits, `_`, line 48). A key the loop returns is 1 to 1023 key characters and extends the characters collected so far, and the reader has moved past the quote |
| `Grammar.NextKey` | src/jsondecoder.cpp:42-63 | A key `nextKey` returns is non-empty, shorter than 1024 and made only of letters, digits and `_` |
| `Grammar.Unescape` | src/jsondecoder.cpp:155-191 | An escape contributes at most one character, and its only failure is "invalid escape-sequence" |
| `Grammar.EscapeAfter` | src/jsondecoder.cpp:155-191 | The character after a backslash is consumed with the slot left empty |
| `Grammar.StringChars` | src/jsondecoder.cpp:148-201 | The string loop ends past its closing quote with the slot empty |
| `Grammar.StringIteration` | src/jsondecoder.cpp:149-198 | One iteration case by case: `\n` or `\r` fails, `"` returns the text, a backslash and its successor go through the escape table, any other character is appended |
| `Grammar.NextString` | src/jsondecoder.cpp:145-202 | `nextString` yields a string value and consumes input |
| `Grammar.NextNull` | src/jsondecoder.cpp:130-133 | `nextNull` yields null |
| `Grammar.NextTrue` | src/jsondecoder.cpp:135-138 | `nextTrue` yields true |
| `Grammar.NextFalse` | src/jsondecoder.cpp:140-143 | `nextFalse` yields false |
| `Grammar.NumberChars` | src/jsondecoder.cpp:236-252 | Its delimiter test is `Grammar.IsDelimiter` (`,` `]` `}`, line 239) and its character test `Grammar.IsNumberChar` (digits, `-`, `e`, `E`, `.`, `x`, `X`, line 246). The number loop yields an integer or a double and leaves a delimiter `,` `]` `}` in the slot |
| `Grammar.NextNumber` | src/jsondecoder.cpp:233-253 | `nextNumber` yields an integer or a double and consumes input |
| `Grammar.ParseValue` | src/jsondecoder.cpp:104-128 | A value `nextValue` delivers contains no object and no non-empty string |
| `Grammar.ParseObject` | src/jsondecoder.cpp:65-102 | `nextObject` yields an object whose members contain no nested object and no non-empty string |
| `Grammar.Member` | src/jsondecoder.cpp:77-88 | The key of an entry is valid and new to the object, and its value is one `nextValue` can deliver |
| `Grammar.ObjectEntries` | src/jsondecoder.cpp:70-101 | The entry loop only adds keys to what it has |
| `Grammar.ParseArray` | src/jsondecoder.cpp:204-231 | `nextArray` yields an array whose elements are deliverable values |
| `Grammar.ArrayElements` | src/jsondecoder.cpp:216-230 | The separator loop only appends elements to what it has |
| `Grammar.Decode` | src/jsondecoder.cpp:38-40 | `decode` yields an object |
| `Decoder.JsonDecoder.constructor` | src/jsondecoder.cpp:31-32 | The decoder keeps its reader and its mode, with `lastChar` 0 |
| `Decoder.JsonDecoder.Next` | src/jsondecoder.h:63 | The decoder's `next` forwards to the reader's |
| `Decoder.JsonDecoder.CheckNext` | src/jsondecoder.h:62 | The decoder's `checkNext(x)` forwards to the reader's, without skipping whitespace |
| `Decoder.JsonDecoder.NextN` | src/jsondecoder.h:64 | The decoder's `next(n)` forwards to the reader's |
| `Decoder.JsonDecoder.Decode` | src/jsondecoder.cpp:38-40 | Agrees with `Grammar.ParseObject` |
| `Decoder.JsonDecoder.NextKey` | src/jsondecoder.cpp:42-63 | The key loop agrees with `Grammar.NextKey` |
| `Decoder.JsonDecoder.NextObject` | src/jsondecoder.cpp:65-102 | The entry loop agrees with `Grammar.ParseObject` |
| `Decoder.JsonDecoder.NextValue` | src/jsondecoder.cpp:104-128 | The dispatch agrees with `Grammar.ParseValue` |
| `Decoder.JsonDecoder.NextNull` | src/jsondecoder.cpp:130-133 | Agrees with `Grammar.NextNull` |
| `Decoder.JsonDecoder.NextTrue` | src/jsondecoder.cpp:135-138 | Agrees with `Grammar.NextTrue` |
| `Decoder.JsonDecoder.NextFalse` | src/jsondecoder.cpp:140-143 | Agrees with `Grammar.NextFalse` |
| `Decoder.JsonDecoder.NextString` | src/jsondecoder.cpp:145-202 | The string loop with its escape table agrees with `Grammar.NextString` |
| `Decoder.JsonDecoder.NextArray` | src/jsondecoder.cpp:204-231 | The peek and the separator loop agree with `Grammar.ParseArray` |
| `Decoder.JsonDecoder.NextNumber` | src/jsondecoder.cpp:233-253 | The token loop agrees with `Grammar.NextNumber`, and on success `lastChar` holds the delimiter left in the reader's slot |
| `GrammarFacts.SkipSpaces` | src/jsonstreamreader.cpp:71-73 | Leading whitespace makes no difference to a read that skips it |
| `GrammarFacts.NextKeyRoundTrip` | src/jsondecoder.cpp:42-63 | A key of 1 to 1023 key characters followed by `"` is read back exactly, and the reader is left after the quote |
| `GrammarFacts.NextKeyDelivers` | src/jsondecoder.cpp:42-63 | Conversely, a key `nextKey` returns is valid and is exactly the text before the closing quote |
| `GrammarFacts.EmptyKey` | src/jsondecoder.cpp:55-57 | A quote right away fails with "key is empty" |
| `GrammarFacts.KeyForeignChar` | src/jsondecoder.cpp:48-50 | A character that is neither a key character nor `"` fails with "key contains invalide char!" |
| `GrammarFacts.KeyWithSpace` | src/jsondecoder.cpp:48-50 | Whitespace inside a key is such a character |
| `GrammarFacts.KeyTooLong` | src/jsondecoder.cpp:45-62 | 1024 key characters fail with "maximum string-length reached!" |
| `GrammarFacts.EscapeChar` | src/jsondecoder.cpp:155-191 | An escaped character is written as one or two characters |
| `GrammarFacts.UnescapeEscape` | src/jsondecoder.cpp:155-191 | Every two-character escape is a backslash and a character that the escape table maps back to the original |
| `GrammarFacts.EscapedDeliverable` | src/jsondecoder.cpp:155-191 | Escaping keeps a text free of end markers and NULs |
| `GrammarFacts.StringStep` | src/jsondecoder.cpp:149-198 | One iteration of the string loop reads the escaped form of one character and appends that character |
| `GrammarFacts.StringRun` | src/jsondecoder.cpp:148-200 | The string loop reads the escaped form of a text one character per iteration |
| `GrammarFacts.NextStringRoundTrip` | src/jsondecoder.cpp:145-202 | The escaped form of any deliverable text shorter than 1024, followed by `"`, is read back to that text, leaving the reader after the quote |
| `GrammarFacts.RawLineBreak` | src/jsondecoder.cpp:151-153 | A raw line feed or carriage return fails with "invalid char" |
| `GrammarFacts.BadEscape` | src/jsondecoder.cpp:188-189 | A backslash before a character outside the escape table fails with "invalid escape-sequence" |
| `GrammarFacts.UnicodeEscapeDropped` | src/jsondecoder.cpp:178-180 | `\u` appends nothing and uses up one iteration, and the loop goes on at the character after the `u` |
| `GrammarFacts.StringTooLong` | src/jsondecoder.cpp:148-201 | 1024 characters without a closing quote fail with "maximum string-length reached!" |
| `GrammarFacts.NextNumberReads` | src/jsondecoder.cpp:233-253 | `nextNumber` collects the number characters up to a delimiter, returns what `parseNumber` makes of them, and leaves the delimiter in the slot |
| `GrammarFacts.NumberTooLong` | src/jsondecoder.cpp:236-252 | 1024 number characters without a delimiter fail with "maximum string-length reached!" |
| `GrammarFacts.NumberForeignChar` | src/jsondecoder.cpp:244-250 | A character that is neither a number character nor a delimiter is consumed and fails with "parsing error" |
| `GrammarFacts.StrictNumberSpace` | src/jsondecoder.cpp:237-250 | In strict mode whitespace in or after a number fails with "parsing error" |
| `GrammarFacts.NumberSpacesSkipped` | src/jsondecoder.cpp:237 | In non-strict mode whitespace between number characters is dropped |
| `GrammarFacts.HexLetterRejected` | src/jsondecoder.cpp:246-250 | `0x1A` fails with "parsing error" at the `A` |
| `GrammarFacts.HexWithExponentLetter` | src/jsondecoder.cpp:233-270 | `0x1e5` is collected in full and read as 485 |
| `GrammarFacts.Dispatch` | src/jsondecoder.cpp:104-128 | `nextValue` hands the state after its peek, the peeked character still in the slot, to the parser that character selects, numbers being the default |
| `GrammarFacts.NestedObjectRejected` | src/jsondecoder.cpp:119-120 | A value starting with `{` fails with "invalid key" |
| `GrammarFacts.StringValueIsEmpty` | src/jsondecoder.cpp:116-117 | A value starting with `"` is the empty string, and only the opening quote is consumed |
| `GrammarFacts.ArrayClosedBySlot` | src/jsondecoder.cpp:217-225 | A `]` left in the slot ends the separator loop at once |
| `GrammarFacts.ArraySeparatorRejected` | src/jsondecoder.cpp:216-229 | When the slot is empty, the separator loop reads the next source character with `next()`, which skips no whitespace in either mode; any character but `,` or `]`, whitespace included, fails with "expected ',' or ']'". A number element leaves the slot full instead (see `RoundTrip.SpacedNumberSeparator`) |
| `GrammarFacts.EmptyArrayLeavesBracket` | src/jsondecoder.cpp:207-212 | `[]` gives the empty array and leaves its `]` in the slot |
| `GrammarFacts.EmptyArrayClosesOuter` | src/jsondecoder.cpp:204-231 | `[[]` is a complete array holding one empty array |
| `GrammarFacts.LeadingBraceRejected` | src/jsondecoder.cpp:38-81 | A document starting with `{` fails with "invalid key" |
| `RoundTrip.SpacedCheck` | src/jsonstreamreader.cpp:43-47 | `checkNext(w, true)` reads `w` through any whitespace in front of each of its characters |
| `RoundTrip.SpacedLiteral` | src/jsondecoder.cpp:104-143 | In non-strict mode `n u l l`, `t r u e` and `f a l s e`, with any whitespace between the letters, read as their literal |
| `RoundTrip.StrictSpacedLiteral` | src/jsondecoder.cpp:104-143 | In strict mode whitespace after a literal's first letter fails, naming the expected letter and the whitespace found |
| `RoundTrip.LiteralSeparatorSpace` | src/jsondecoder.cpp:204-229 | Whitespace between a `null`, `true` or `false` element and its separator fails with "expected ',' or ']'" in either mode |
| `RoundTrip.SpacedInteger` | src/jsondecoder.cpp:233-242 | In non-strict mode the peek that ends a number skips the whitespace after it: decimal text, whitespace and `,` read as the integer, with the `,` left in the slot |
| `RoundTrip.SpacedNumberSeparator` | src/jsondecoder.cpp:204-242 | In non-strict mode whitespace between a number element and its `,` is accepted: `[1 ,x]` reads as the array of 1 and `x`, the separator loop taking the `,` from the slot |
| `RoundTrip.StrictNumberSeparatorSpace` | src/jsondecoder.cpp:204-250 | In strict mode whitespace after a number element fails with "parsing error", not with "expected ',' or ']'" |
| `RoundTrip.EncodeStarts` | src/jsondecoder.cpp:104-128 | An encoded value starts with the character that selects its own parser |
| `RoundTrip.ParseWord` | src/jsondecoder.cpp:104-143 | `null`, `true` and `false`, dispatched on their first letter, are read in full to their value in either mode, and the reader is left after the word |
| `RoundTrip.ParseInteger` | src/jsondecoder.cpp:104-128 | Decimal text, dispatched on its digit or `-`, is read as that integer and the delimiter after it stays in the slot |
| `RoundTrip.ParseEncoded` | src/jsondecoder.cpp:104-231 | `nextValue` reads the text of a literal, an integer or a non-empty array of them back to the value, in either mode, and stops before the delimiter after it |
| `RoundTrip.ParseArrayEncoded` | src/jsondecoder.cpp:204-231 | `[`, the elements, `]` are read back to the array, and the reader is left after the `]` |
| `RoundTrip.CommaRun` | src/jsondecoder.cpp:216-230 | The separator loop appends the elements after each `,` in order, and ends after the `]` |
| `RoundTrip.ArrayStep` | src/jsondecoder.cpp:219-222 | On `,` the separator loop appends the next value and goes on |
| `RoundTrip.ArrayClose` | src/jsondecoder.cpp:224-225 | On `]` the separator loop returns the elements so far |
| `ObjectFacts.ObjectLimit` | src/jsondecoder.cpp:70-101 | The 1025th iteration of the entry loop is not run: "maximum string-length reached!" |
| `ObjectFacts.ObjectFirst` | src/jsondecoder.cpp:71-81 | The first token of an iteration: `}` returns the object so far, anything but `"` fails with "invalid key" |
| `ObjectFacts.ObjectStep` | src/jsondecoder.cpp:77-99 | After an entry, `,` goes on with the entry added, `}` returns it, anything else fails with "expected a ',' or '}'" |
| `ObjectFacts.MemberReads` | src/jsondecoder.cpp:77-88 | An entry is its key, the colon and its value read in turn |
| `ObjectFacts.DuplicateKeyStep` | src/jsondecoder.cpp:83-87 | A key already in the object fails with "duplicate key <k>" once its colon is read, and the value is never read |
| `ObjectFacts.MissingColonStep` | src/jsondecoder.cpp:83 | The colon must follow the key's closing quote at once; any other character fails naming `:` and that character |
| `ObjectFacts.InsertSpec` | src/jsondecoder.cpp:88 | Inserting distinct new keys in order yields a map holding the old entries and each key bound to its value, and nothing else |
| `ObjectFacts.BodyRun` | src/jsondecoder.cpp:70-101 | The entry loop reads an object body back to the entries inserted in order and leaves the reader after `}` |
| `ObjectFacts.PrefixRun` | src/jsondecoder.cpp:70-99 | The entry loop reads entries each followed by `,` one per iteration |
| `ObjectFacts.DecodeRoundTrip` | src/jsondecoder.cpp:38-102 | Up to 1024 entries with distinct valid keys and literal, integer or array values are decoded to the object that binds each key to its value |
| `ObjectFacts.DecodeTrailingComma` | src/jsondecoder.cpp:90-95 | A comma before the closing `}` is accepted |
| `ObjectFacts.DecodeDuplicateKey` | src/jsondecoder.cpp:85-87 | A key repeated from an earlier entry fails with "duplicate key <k>", whatever value follows |
| `ObjectFacts.DecodeTooManyEntries` | src/jsondecoder.cpp:70-101 | 1024 entries each followed by `,` fail with "maximum string-length reached!" |
| `ObjectFacts.DecodeMissingColon` | src/jsondecoder.cpp:83 | Whitespace between a key and its colon fails in either mode |
| `ObjectFacts.DecodeRootNotObject` | src/jsondecoder.cpp:38-81 | A document whose first character is neither `"` nor `}` fails with "invalid key" |
| `Ascii.TrimLeft` | src/jsondecoder.cpp:256 | The result is a suffix of the text, only whitespace precedes it, and it does not start with whitespace |
| `Ascii.TrimRight` | src/jsondecoder.cpp:256 | The result is a prefix of the text, only whitespace follows it, and it does not end with whitespace |
| `Ascii.Trim` | src/jsondecoder.cpp:256 | Trimming keeps a slice of the text that only whitespace precedes and follows, with no whitespace at either of its ends, and does not change a text without whitespace |

## Left out

- Conversion to `double` (`stringstream >> double`) is not modelled. A floating-point token becomes `Double(token)` and keeps its text unconverted.
- Numbers.ParseNumber: `strtol` and `atol` are modelled over unbounded integers. Neither the saturation of `strtol` at the range of `long` nor the undefined overflow of `atol` is modelled. Their leading whitespace, optional sign and `strtol`'s own optional `0x` in base 16 are modelled (`Numbers.StrToL`, `Numbers.Magnitude`).
- The `catch` block of `parseNumber` (src/jsondecoder.cpp:281-283) is not modelled. None of the conversions modelled can throw.
- `read()` is abstract in the source, and `jsonstreamreader.h` is not part of this model. The source is a sequence of `int` values ending in -1. The conversion of `read()`'s result to `char` is not modelled, so whether a byte 0xFF compares equal to -1 (signed versus unsigned `char`) is not modelled either.
- The definitions of the decoder's forwarders `next`, `checkNext(x)` and `next(n)`, declared at src/jsondecoder.h:62-64, are not among the source files modelled. They are assumed to forward to the reader: `next(ignoreWhitespace = false)` passes its flag on, while `checkNext(x)` and `next(n)` pass `false`, so they skip no whitespace.
- `checkNext(char, bool)`, `next(int, bool)` and `next(int)` lack the class qualifier in src/jsonstreamreader.cpp (lines 53, 81 and 94). They are modelled as the member functions that the qualified calls reach.
- Exceptions are modelled as error values. Each message has its own constructor; a mismatch error carries the expected and the found character. The message strings themselves are not built.
- After a failure the reader's state is left unspecified: the error is the whole result.
- `isspace`, `isalnum` and `boost::algorithm::trim` are modelled for the C locale.
- `std::shared_ptr`, destructors and object identity are not modelled. The `JsonObject` map is modelled as a Dafny `map`, without `std::map`'s key order.
- `Decoder.JsonDecoder.Decode`, `NextObject`, `NextValue` and `NextArray` may change the decoder's `lastChar`. The source writes that field (src/jsondecoder.cpp:213, 240) but never reads it, and only `NextNumber` states its new value.
- `RoundTrip.ParseEncoded` and `ObjectFacts.DecodeRoundTrip` cover what the decoder can read back: literals, integers, non-empty arrays of them, and objects of such entries. Strings, doubles, empty arrays and nested objects have no round trip, because the code reads them differently (see the lemmas on strings, `[]` and nested objects above).
- Cursors.ReadSkipping: its own contract states only what it consumes; the value it returns is stated by `Cursors.SkipLeading`.
- Cursors.Peek: its own contract states only the slot and validity; what it returns is stated by `Cursors.PeekDelivers`, `Cursors.PeekThenNext` and `Cursors.PeekIdempotent`.
- Cursors.CheckNextChar: its own contract states only progress; success, failure and the error are stated by `Cursors.CheckNextCharSpec`.
- Cursors.CheckNextString: its own contract states only progress; what it accepts is stated by `Cursors.CheckNextStringIsNextN`, `Cursors.CheckNextStringDelivers` and `Cursors.CheckNextStringAppend`.
- Cursors.NextN: its own contract states the length of the result; its characters are stated by `Cursors.NextNDelivers`.
- Cursors.NextNDelivers: covers `next(n, false)` only. With whitespace skipping, what `next(n, true)` returns is stated only through `Cursors.CheckNextStringIsNextN`, which ties it to `checkNext(s, true)` for any flag.
- StreamReader.JsonStreamReader.constructor: the constructor is declared in jsonstreamreader.h, which is not part of this model. A new reader is assumed to start at the beginning of its source with `lastChar` 0, the empty-slot value that `next` tests for (src/jsonstreamreader.cpp:65).
- Grammar.EscapeAfter: its own contract states only progress; the escapes it reads are stated by `Grammar.StringIteration` and `GrammarFacts.UnescapeEscape`.
- Grammar.KeyLoop: its own contract states the shape of the key; what is read is stated by `GrammarFacts.NextKeyRoundTrip`, `GrammarFacts.NextKeyDelivers` and the key error lemmas.
- Grammar.NextKey: the same; see `GrammarFacts.NextKeyRoundTrip` and `GrammarFacts.NextKeyDelivers`.
- Grammar.StringChars: its own contract states only progress; each iteration is stated by `Grammar.StringIteration`, whole strings by `GrammarFacts.NextStringRoundTrip` and the string error lemmas.
- Grammar.NextString: its own contract states only the kind of result; see `GrammarFacts.NextStringRoundTrip`.
- Grammar.NumberChars: its own contract states the kind of result and the delimiter left in the slot; the token is stated by `GrammarFacts.NextNumberReads`.
- Grammar.NextNumber: the same; see `GrammarFacts.NextNumberReads` and the number error lemmas.
- Grammar.ParseValue: its own contract states which values can come out; the dispatch is stated by `GrammarFacts.Dispatch` and the values by `RoundTrip.ParseEncoded`.
- Grammar.ParseObject: its own contract states the kind of result; the entries are stated by the lemmas of `ObjectFacts`.
- Grammar.Member: its own contract states the key's validity and novelty; see `ObjectFacts.MemberReads` and `ObjectFacts.DuplicateKeyStep`.
- Grammar.ObjectEntries: its own contract states that keys are only added; each iteration is stated by `ObjectFacts.ObjectFirst`, `ObjectFacts.ObjectStep` and `ObjectFacts.ObjectLimit`.
- Grammar.ParseArray: its own contract states the kind of result; see `RoundTrip.ParseArrayEncoded` and `GrammarFacts.EmptyArrayLeavesBracket`.
- Grammar.ArrayElements: its own contract states that elements are only appended; see `RoundTrip.ArrayStep`, `RoundTrip.ArrayClose` and `RoundTrip.CommaRun`.
- Grammar.Decode: its own contract states the kind of result; what it decodes is stated by `ObjectFacts.DecodeRoundTrip` and the `Decode` error lemmas of `ObjectFacts`.
