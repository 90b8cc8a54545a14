/** Version strings cut into tokens, for the two comparators of the package manager, and the
    C number readers that saturate instead of wrapping. */
module VersionTokens {
  import opened Bytes

  const ULONG_MAX: nat := 0xFFFF_FFFF_FFFF_FFFF
  const LONG_MAX: nat := 0x7FFF_FFFF_FFFF_FFFF
  const SEGMENT: nat := 63

  function Sign(n: int): int { if n > 0 then 1 else if n < 0 then -1 else 0 }
  function Clamp(n: nat, max: nat): nat { if n > max then max else n }

  // The length of the leading run of digits.
  function DigitRun(s: bytes): (k: nat)
    ensures k <= |s| && (forall i | 0 <= i < k :: IsDigit(s[i])) && (k < |s| ==> !IsDigit(s[k]))
  {
    if s != [] && IsDigit(s[0]) then 1 + DigitRun(s[1..]) else 0
  }

  predicate AllDigits(s: bytes) { forall i | 0 <= i < |s| :: IsDigit(s[i]) }

  // The number a digit string denotes.
  function Decimal(s: bytes): nat
    requires AllDigits(s)
  {
    if s == [] then 0 else Decimal(s[..|s| - 1]) * 10 + (s[|s| - 1] - 0x30)
  }

  // strtoul or strtol on a digit run: the value, or the largest the type holds.
  function ReadNumber(s: bytes, max: nat): nat { Clamp(Decimal(s[..DigitRun(s)]), max) }

  // The length of the leading run of letters, at most limit.
  function AlphaRun(s: bytes, limit: nat): (k: nat)
    ensures k <= |s| && k <= limit && (forall i | 0 <= i < k :: IsAlpha(s[i]))
    ensures k < |s| && k < limit ==> !IsAlpha(s[k])
    decreases limit
  {
    if limit > 0 && s != [] && IsAlpha(s[0]) then 1 + AlphaRun(s[1..], limit - 1) else 0
  }

  /* ---- kratos_version_cmp ---- */

  // A segment: a number, or up to 63 letters.
  datatype Token = Num(n: nat) | Word(letters: bytes)

  function Tokens(s: bytes): seq<Token>
    decreases |s|
  {
    if s == [] then []
    else if IsDigit(s[0]) then [Num(ReadNumber(s, ULONG_MAX))] + Tokens(s[DigitRun(s)..])
    else if IsAlpha(s[0]) then [Word(s[..AlphaRun(s, SEGMENT)])] + Tokens(s[AlphaRun(s, SEGMENT)..])
    else Tokens(s[1..])
  }

  /* ---- repo_version_cmp ---- */

  // A run of digits, or any other byte.
  datatype RToken = RNum(n: nat) | RByte(c: byte)

  function RTokens(s: bytes): seq<RToken>
    decreases |s|
  {
    if s == [] then []
    else if IsDigit(s[0]) then [RNum(ReadNumber(s, LONG_MAX))] + RTokens(s[DigitRun(s)..])
    else [RByte(s[0])] + RTokens(s[1..])
  }

  lemma RunEnds(s: bytes, k: nat)
    requires k <= |s| && AllDigits(s[..k]) && (k < |s| ==> !IsDigit(s[k]))
    ensures DigitRun(s) == k
  {
  }

  lemma NoDigits(s: bytes)
    requires s == []
    ensures Decimal(s) == 0
  {
  }

  lemma NextDigit(s: bytes, i: nat, j: nat)
    requires i <= j < |s| && AllDigits(s[i..j]) && IsDigit(s[j])
    ensures AllDigits(s[i..j + 1]) && Decimal(s[i..j + 1]) == Decimal(s[i..j]) * 10 + (s[j] - 0x30)
  {
    assert s[i..j + 1][..j - i] == s[i..j];
  }

  lemma ClampNext(v: nat, d: nat, max: nat)
    requires d < 10
    ensures Clamp(Clamp(v, max) * 10 + d, max) == Clamp(v * 10 + d, max)
  {
  }

  // strtoul and strtol at a digit: the saturated value and the position after the digits.
  method Strto(s: bytes, i: nat, max: nat) returns (n: nat, j: nat)
    requires i < |s| && IsDigit(s[i]) && max >= 9
    ensures i < j <= |s| && n == ReadNumber(s[i..], max) && j - i == DigitRun(s[i..])
  {
    hide Decimal, DigitRun;
    n, j := 0, i;
    NoDigits(s[i..i]);
    while j < |s| && IsDigit(s[j])
      invariant i <= j <= |s| && AllDigits(s[i..j]) && n == Clamp(Decimal(s[i..j]), max)
    {
      NextDigit(s, i, j);
      ClampNext(Decimal(s[i..j]), s[j] - 0x30, max);
      n := Clamp(n * 10 + (s[j] - 0x30), max);
      j := j + 1;
    }
    assert s[i..][..j - i] == s[i..j];
    RunEnds(s[i..], j - i);
  }
}
