/**
 * The two exception classes of the decoder as values: `JsonStreamReaderException`
 * (raised by the reader) and `JsonException` (raised by the decoder), one tag
 * per message the source throws, and the result type that propagates them.
 */
module Failures {
  import opened Ascii

  /** Messages of `JsonStreamReaderException`. */
  datatype ReaderFault =
    | Corrupted                              // "input stream corrupted!"
    | Mismatch(expected: int, found: int)    // "expected '<x>' found '<c>'!"

  /** Messages of `JsonException`. */
  datatype JsonFault =
    | KeyInvalidChar            // "key contains invalide char!"
    | KeyEmpty                  // "key is empty"
    | MaxLengthReached          // "maximum string-length reached!"
    | InvalidKey                // "invalid key"
    | DuplicateKey(key: Text)   // "duplicate key <key>"
    | ExpectedCommaOrBrace      // "expected a ',' or '}'"
    | ExpectedCommaOrBracket    // "expected ',' or ']'"
    | InvalidChar               // "invalid char"
    | InvalidEscape             // "invalid escape-sequence"
    | ParsingError              // "parsing error"
    | EmptyValue                // "empty value"
    | NotDigitOrMinus           // "parsing error, number starts not with digit or -"

  datatype Error =
    | StreamException(reader: ReaderFault)
    | JsonException(json: JsonFault)

  /** A thrown exception aborts the whole decode; `:-` propagates it. */
  datatype Result<T> = Ok(value: T) | Fail(err: Error)
  {
    predicate IsFailure()
    {
      Fail?
    }

    function PropagateFailure<U>(): Result<U>
      requires Fail?
    {
      Fail(err)
    }

    function Extract(): T
      requires Ok?
    {
      value
    }
  }
}
