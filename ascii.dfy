/**
 * Characters as the decoder sees them, the character classes of the C locale
 * (`isspace`, `isalnum`) and the whitespace trimming the decoder applies
 * (`boost::algorithm::trim`, which classifies with the same locale).
 */
module Ascii {

  /** A character is the integer value of a C `char`; a text is a sequence of them. */
  type Text = seq<int>

  /** Dafny string literal to text, used to write the source's literal words. */
  function Chars(s: string): Text
  {
    if s == [] then [] else [s[0] as int] + Chars(s[1..])
  }

  const QUOTE: int := '"' as int
  const BACKSLASH: int := '\\' as int
  const SLASH: int := '/' as int
  const COLON: int := ':' as int
  const COMMA: int := ',' as int
  const LBRACE: int := '{' as int
  const RBRACE: int := '}' as int
  const LBRACKET: int := '[' as int
  const RBRACKET: int := ']' as int
  const UNDERSCORE: int := '_' as int
  const MINUS: int := '-' as int
  const DOT: int := '.' as int
  const NEWLINE: int := '\n' as int
  const RETURN: int := '\r' as int

  /** `isspace` in the C locale: space, `\t`, `\n`, `\v`, `\f`, `\r`. */
  predicate IsSpace(c: int)
  {
    c == ' ' as int || '\t' as int <= c <= '\r' as int
  }

  predicate IsDigit(c: int)
  {
    '0' as int <= c <= '9' as int
  }

  /** `isalnum` in the C locale: `[A-Za-z0-9]`. */
  predicate IsAlnum(c: int)
  {
    IsDigit(c) || 'A' as int <= c <= 'Z' as int || 'a' as int <= c <= 'z' as int
  }

  predicate NoSpace(s: Text)
  {
    forall j :: 0 <= j < |s| ==> !IsSpace(s[j])
  }

  predicate AllSpace(s: Text)
  {
    forall j :: 0 <= j < |s| ==> IsSpace(s[j])
  }

  /** Drops the leading whitespace, and only that. */
  function TrimLeft(s: Text): (r: Text)
    ensures |r| <= |s| && r == s[|s| - |r|..]
    ensures forall j :: 0 <= j < |s| - |r| ==> IsSpace(s[j])
    ensures r != [] ==> !IsSpace(r[0])
    decreases |s|
  {
    if s != [] && IsSpace(s[0]) then TrimLeft(s[1..]) else s
  }

  /** Drops the trailing whitespace, and only that. */
  function TrimRight(s: Text): (r: Text)
    ensures |r| <= |s| && r == s[..|r|]
    ensures forall j :: |r| <= j < |s| ==> IsSpace(s[j])
    ensures r != [] ==> !IsSpace(r[|r| - 1])
    decreases |s|
  {
    if s != [] && IsSpace(s[|s| - 1]) then TrimRight(s[..|s| - 1]) else s
  }

  /** A slice of a suffix is a slice of the whole. */
  lemma {:induction false} SliceOfSuffix(s: Text, k: nat, n: nat)
    requires k + n <= |s|
    ensures s[k..][..n] == s[k..k + n]
  {
  }

  /** The whitespace after `TrimRight(s[k..])` is whitespace at the end of `s`. */
  lemma {:induction false} SpaceInSuffix(s: Text, k: nat, n: nat)
    requires k + n <= |s|
    requires forall j :: n <= j < |s| - k ==> IsSpace(s[k..][j])
    ensures AllSpace(s[k + n..])
  {
    var t := s[k + n..];
    forall j | 0 <= j < |t|
      ensures IsSpace(t[j])
    {
      assert t[j] == s[k..][n + j];
    }
  }

  lemma {:induction false} SpaceInPrefix(s: Text, k: nat)
    requires k <= |s|
    requires forall j :: 0 <= j < k ==> IsSpace(s[j])
    ensures AllSpace(s[..k])
  {
  }

  /**
   * `boost::algorithm::trim`: what it keeps is a slice of `s` that only
   * whitespace precedes and follows, with no whitespace at either of its
   * own ends.
   */
  function Trim(s: Text): (r: Text)
    ensures exists k :: 0 <= k <= |s| - |r| && r == s[k..k + |r|] && AllSpace(s[..k]) && AllSpace(s[k + |r|..])
    ensures r != [] ==> !IsSpace(r[0]) && !IsSpace(r[|r| - 1])
    ensures NoSpace(s) ==> r == s
  {
    var l := TrimLeft(s);
    var k := |s| - |l|;
    var r := TrimRight(l);
    SliceOfSuffix(s, k, |r|);
    SpaceInSuffix(s, k, |r|);
    SpaceInPrefix(s, k);
    assert AllSpace(s[..k]) && AllSpace(s[k + |r|..]) && r == s[k..k + |r|];
    r
  }
}
