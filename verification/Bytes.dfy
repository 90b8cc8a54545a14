/** Bytes, the C character classes the package manager relies on, and
    the one notion of "this text occurs here" used by the byte-level parsers. */
module Bytes {

  type byte = x: int | 0 <= x < 256
  type bytes = seq<byte>

  datatype Option<+T> = None | Some(value: T)

  // isdigit, isalpha, isalnum and isspace in the C locale.
  predicate IsDigit(c: int) { 0x30 <= c <= 0x39 }
  predicate IsAlpha(c: int) { 0x41 <= c <= 0x5A || 0x61 <= c <= 0x7A }
  predicate IsAlnum(c: int) { IsDigit(c) || IsAlpha(c) }
  predicate IsSpace(c: int) { c == 0x20 || 0x09 <= c <= 0x0D }

  function AsciiText(s: string): bytes
    requires forall i | 0 <= i < |s| :: s[i] < 128 as char
  {
    seq(|s|, i requires 0 <= i < |s| => s[i] as int)
  }

  // What a buffer of n bytes keeps of s.
  function Prefix(s: bytes, n: nat): bytes
  {
    if |s| <= n then s else s[..n]
  }

  // The text t occurs in s at index i and ends no later than index n.
  predicate At(s: bytes, n: nat, i: nat, t: bytes)
    requires n <= |s|
  {
    i + |t| <= n && s[i..i + |t|] == t
  }

  lemma AtAppend(s: bytes, n: nat, i: nat, a: bytes, b: bytes)
    requires n <= |s|
    ensures At(s, n, i, a + b) <==> At(s, n, i, a) && At(s, n, i + |a|, b)
  {
    var m := i + |a|;
    if At(s, n, i, a + b) {
      assert s[i..m] == s[i..m + |b|][..|a|] == (a + b)[..|a|] == a;
      assert s[m..m + |b|] == s[i..m + |b|][|a|..] == (a + b)[|a|..] == b;
    }
    if At(s, n, i, a) && At(s, n, m, b) {
      assert s[i..m + |b|] == s[i..m] + s[m..m + |b|];
    }
  }

  lemma AtOne(s: bytes, n: nat, i: nat, c: byte)
    requires n <= |s|
    ensures At(s, n, i, [c]) <==> i < n && s[i] == c
  {
    if i < n { assert s[i..i + 1] == [s[i]]; }
  }
}
