/** Bytes, C strings, and substrings found at a position. */
module Bytes {
  type byte = b: int | 0 <= b < 256
  type bytes = seq<byte>

  datatype Option<+T> = None | Some(value: T)

  const NUL: byte := 0
  const TAB: byte := 9
  const NEWLINE: byte := 10
  const SPACE: byte := 32
  const QUOTE: byte := 34
  const COMMA: byte := 44
  const MINUS: byte := 45
  const SLASH: byte := 47
  const ZERO: byte := 48
  const COLON: byte := 58
  const OPEN_BRACKET: byte := 91
  const BACKSLASH: byte := 92
  const CLOSE_BRACKET: byte := 93
  const LETTER_U: byte := 117
  const OPEN_BRACE: byte := 123
  const CLOSE_BRACE: byte := 125

  /** The codes of characters, to say what bytes look like. */
  function Ascii(s: string): (r: bytes)
    ensures |r| == |s| && forall i :: 0 <= i < |s| && s[i] < 256 as char ==> r[i] == s[i] as int
  {
    seq(|s|, i requires 0 <= i < |s| => if s[i] < 256 as char then s[i] as int else 0)
  }

  predicate NulFree(s: bytes) {
    forall i :: 0 <= i < |s| ==> s[i] != NUL
  }

  /** The contents of a C string: bytes up to, and without, the terminator. */
  type cstring = s: bytes | NulFree(s)

  /** What the C string functions see of a block of memory that holds `s`. */
  function CString(s: bytes): (r: cstring)
    ensures r <= s
    ensures |r| < |s| ==> s[|r|] == NUL
  {
    if s == [] || s[0] == NUL then [] else [s[0]] + CString(s[1..])
  }

  lemma {:induction false} CStringOfNulFree(s: bytes, rest: bytes)
    requires NulFree(s)
    ensures CString(s + [NUL] + rest) == s
  {
    if s == [] {
      assert ([] + [NUL] + rest)[0] == NUL;
    } else {
      CStringOfNulFree(s[1..], rest);
      assert (s + [NUL] + rest)[1..] == s[1..] + [NUL] + rest;
    }
  }

  /** Text cut at the first NUL is the same whatever follows a terminator. */
  lemma {:induction false} CStringOfPrefix(s: bytes, rest: bytes)
    ensures CString(s + [NUL] + rest) == CString(s)
  {
    if s == [] || s[0] == NUL {
      assert (s + [NUL] + rest)[0] == NUL;
    } else {
      CStringOfPrefix(s[1..], rest);
      assert (s + [NUL] + rest)[1..] == s[1..] + [NUL] + rest;
    }
  }

  lemma {:induction false} CStringIdentity(s: bytes)
    requires NulFree(s)
    ensures CString(s) == s
  {
    CStringOfNulFree(s, []);
    CStringOfPrefix(s, []);
  }

  lemma CStringEnds(s: bytes)
    requires NUL in s
    ensures |CString(s)| < |s| && s[|CString(s)|] == NUL
    ensures forall i :: 0 <= i < |CString(s)| ==> s[i] == CString(s)[i] && s[i] != NUL
  {
  }

  lemma NulFreeConcat(a: bytes, b: bytes)
    requires NulFree(a) && NulFree(b)
    ensures NulFree(a + b)
  {
  }

  /** `t` occurs in `s` at position `i`. */
  predicate At(s: bytes, i: nat, t: bytes) {
    i + |t| <= |s| && s[i..i + |t|] == t
  }

  lemma AtConcat(s: bytes, i: nat, a: bytes, b: bytes)
    ensures At(s, i, a + b) <==> At(s, i, a) && At(s, i + |a|, b)
  {
    var ab := a + b;
    if At(s, i, ab) {
      assert s[i..i + |a|] == ab[..|a|] == a;
      assert s[i + |a|..i + |a| + |b|] == ab[|a|..] == b;
    }
    if At(s, i, a) && At(s, i + |a|, b) {
      assert s[i..i + |ab|] == s[i..i + |a|] + s[i + |a|..i + |a| + |b|];
    }
  }

  lemma AtByte(s: bytes, i: nat, t: bytes, k: nat)
    requires At(s, i, t) && k < |t|
    ensures i + |t| <= |s| && s[i + k] == t[k]
  {
    assert s[i..i + |t|][k] == s[i + k];
  }

  function Repeat(unit: bytes, n: nat): (r: bytes)
    ensures |r| == n * |unit|
  {
    if n == 0 then [] else unit + Repeat(unit, n - 1)
  }

  // ----- pieces of text put together

  /** The bytes `x` have moved from the text that is left to the text that is done. */
  lemma Moved(done: bytes, x: bytes, done': bytes, left: bytes, left': bytes)
    requires done' == done + x && left == x + left'
    ensures done' + left' == done + left
  {
  }

  lemma Regrouped(a: bytes, b: bytes, c: bytes)
    ensures a + b + c == a + (b + c)
  {
  }

  lemma Three(a: bytes, b: bytes, c: bytes, d: bytes)
    ensures a + b + c + d == a + (b + (c + d))
  {
  }

  lemma Four(a: bytes, b: bytes, c: bytes, d: bytes, e: bytes)
    ensures a + b + c + d + e == a + (b + (c + (d + e)))
  {
  }
}
