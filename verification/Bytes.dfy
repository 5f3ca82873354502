/** Bytes, C strings, decimal numerals and a little arithmetic: what the other modules share. */
module Bytes {

  type byte = b: int | 0 <= b < 256
  type bytes = seq<byte>

  datatype Option<+T> = None | Some(value: T)

  const NUL: byte := 0
  const LF: byte := 10
  const CR: byte := 13
  const SPACE: byte := 32
  const DOLLAR: byte := 36
  const STAR: byte := 42
  const PLUS: byte := 43
  const MINUS: byte := 45
  const ZERO: byte := 48
  const COLON: byte := 58

  const CRLF: bytes := [CR, LF]

  predicate IsDigit(c: byte) {
    48 <= c <= 57
  }

  /** isspace in the C locale. */
  predicate IsSpace(c: byte) {
    c == SPACE || 9 <= c <= 13
  }

  /** What a C function sees of s: everything before the first NUL. */
  function CStr(s: bytes): (r: bytes)
    ensures NUL !in r
  {
    if s == [] || s[0] == NUL then [] else [s[0]] + CStr(s[1..])
  }

  lemma {:induction false} CStrClean(s: bytes)
    requires NUL !in s
    ensures CStr(s) == s
  {
    if s != [] {
      assert s[0] in s && forall x | x in s[1..] :: x in s;
      CStrClean(s[1..]);
    }
  }

  function Concat(chunks: seq<bytes>): bytes {
    if chunks == [] then [] else chunks[0] + Concat(chunks[1..])
  }

  predicate Distinct(names: seq<bytes>) {
    forall i, j | 0 <= i < j < |names| :: names[i] != names[j]
  }

  lemma Multiple(d: int, n: int)
    requires d > 0 && n >= 1
    ensures d * n >= d
  {
  }

  lemma SmallMultiple(d: int, n: int)
    requires -d < d * n < d
    ensures n == 0
  {
    assert d * -n == -(d * n);
    if n >= 1 {
      Multiple(d, n);
    } else if n <= -1 {
      Multiple(d, -n);
    }
  }

  /** The decimal numeral of a natural number, most significant digit first. */
  function Decimal(n: nat): (d: bytes)
    ensures |d| >= 1
    ensures forall i :: 0 <= i < |d| ==> IsDigit(d[i])
  {
    if n < 10 then [ZERO + n] else Decimal(n / 10) + [ZERO + n % 10]
  }

  function SignedDecimal(v: int): (d: bytes)
    ensures |d| >= 1
    ensures forall i :: 0 <= i < |d| ==> d[i] == MINUS || IsDigit(d[i])
  {
    if v < 0 then [MINUS] + Decimal(-v) else Decimal(v)
  }
}
