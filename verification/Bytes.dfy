/**
 Go strings and byte slices. A byte with code b is the character with code b, so that
 ASCII literals can be written as string literals.
 */
module Bytes {
  type byte = c: char | c as int < 256 witness 'a'
  type bytes = seq<byte>

  /** Go's strings.HasPrefix(s, p). */
  predicate HasPrefix(s: bytes, p: bytes) {
    |p| <= |s| && s[..|p|] == p
  }

  /** Go's strings.HasSuffix(s, p). */
  predicate HasSuffix(s: bytes, p: bytes) {
    |p| <= |s| && s[|s| - |p|..] == p
  }

  /** All pieces one after the other. */
  function Concat(pieces: seq<bytes>): bytes {
    if pieces == [] then [] else pieces[0] + Concat(pieces[1..])
  }

  lemma ConcatAssoc<T>(a: seq<T>, b: seq<T>, c: seq<T>)
    ensures a + (b + c) == (a + b) + c
  {}

  lemma ConcatNil<T>(a: seq<T>)
    ensures [] + a == a && a + [] == a
  {}

  lemma ConsConcat<T>(a: seq<T>, b: seq<T>)
    requires a != []
    ensures a + b == [a[0]] + (a[1..] + b) && (a + b)[1..] == a[1..] + b
  {}

  predicate IsDigit(c: byte) { '0' <= c <= '9' }

  function HexDigit(n: nat): byte
    requires n < 16
  { if n < 10 then (n + '0' as int) as char else (n - 10 + 'a' as int) as char }

  predicate IsUpper(c: byte) { 'A' <= c <= 'Z' }

  predicate IsLower(c: byte) { 'a' <= c <= 'z' }

  predicate IsAlnum(c: byte) { IsDigit(c) || IsUpper(c) || IsLower(c) }
}
