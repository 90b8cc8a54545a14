/** repo_version_cmp (pkg/kratos-repo.c): a total preorder on version strings, and where it
    and kratos_version_cmp agree. */
module RepoVersion {
  import opened Bytes
  import opened VersionTokens
  import DepsVersion

  // The byte a token starts with, as far as a comparison with another byte can tell.
  function First(x: RToken): int { if x.RNum? then 0x30 else x.c as int }

  function TokenCmp(x: RToken, y: RToken): (r: int)
    ensures -1 <= r <= 1
  {
    if x.RNum? && y.RNum? then Sign(x.n - y.n) else Sign(First(x) - First(y))
  }

  function Cmp(a: seq<RToken>, b: seq<RToken>): (r: int)
    ensures -1 <= r <= 1
  {
    if a == [] && b == [] then 0
    else if a == [] then -1
    else if b == [] then 1
    else
      var c := TokenCmp(a[0], b[0]);
      if c != 0 then c else Cmp(a[1..], b[1..])
  }

  function VersionCmp(v: bytes, w: bytes): (r: int)
    ensures -1 <= r <= 1
  {
    Cmp(RTokens(v), RTokens(w))
  }

  // Tokens of a version never hold a digit as a plain byte.
  predicate Proper(a: seq<RToken>) { forall i | 0 <= i < |a| && a[i].RByte? :: !IsDigit(a[i].c) }

  lemma {:induction false} TokensProper(s: bytes)
    ensures Proper(RTokens(s))
    decreases |s|
  {
    if s != [] {
      TokensProper(if IsDigit(s[0]) then s[DigitRun(s)..] else s[1..]);
    }
  }

  /* ---- A total preorder ---- */

  lemma {:induction false} Laws(a: seq<RToken>, b: seq<RToken>, c: seq<RToken>)
    requires Proper(a) && Proper(b) && Proper(c)
    ensures Cmp(a, b) == -Cmp(b, a)
    ensures Cmp(a, b) == 0 <==> a == b
    ensures Cmp(a, b) <= 0 && Cmp(b, c) <= 0 ==> Cmp(a, c) <= 0
  {
    if a != [] && b != [] {
      Laws(a[1..], b[1..], if c == [] then [] else c[1..]);
      assert a == [a[0]] + a[1..] && b == [b[0]] + b[1..];
    }
  }

  // Reflexive, sign-antisymmetric and transitive on all strings, and zero exactly on strings
  // with the same tokens.
  lemma TotalPreorder(u: bytes, v: bytes, w: bytes)
    ensures VersionCmp(u, u) == 0 && VersionCmp(u, v) == -VersionCmp(v, u)
    ensures VersionCmp(u, v) == 0 <==> RTokens(u) == RTokens(v)
    ensures VersionCmp(u, v) <= 0 && VersionCmp(v, w) <= 0 ==> VersionCmp(u, w) <= 0
    ensures VersionCmp(u, v) < 0 && VersionCmp(v, w) <= 0 ==> VersionCmp(u, w) < 0
    ensures VersionCmp(u, v) <= 0 && VersionCmp(v, w) < 0 ==> VersionCmp(u, w) < 0
  {
    hide RTokens, Cmp, Proper;
    TokensProper(u);
    TokensProper(v);
    TokensProper(w);
    var a, b, c := RTokens(u), RTokens(v), RTokens(w);
    Laws(a, a, a);
    Laws(a, b, c);
    Laws(b, c, a);
    Laws(c, a, b);
  }

  /* ---- The procedure ---- */

  // repo_version_cmp: its result has the sign of the token comparison.
  method RepoVersionCmp(a: bytes, b: bytes) returns (r: int)
    ensures Sign(r) == VersionCmp(a, b)
  {
    hide DigitRun, ReadNumber;
    var i: nat, j: nat := 0, 0;
    assert a[0..] == a && b[0..] == b;
    while i < |a| && j < |b|
      invariant i <= |a| && j <= |b|
      invariant Cmp(RTokens(a[i..]), RTokens(b[j..])) == VersionCmp(a, b)
      decreases |a| - i
    {
      ghost var s, t := a[i..], b[j..];
      if IsDigit(a[i]) && IsDigit(b[j]) {
        var va, vb, i', j';
        va, i' := Strto(a, i, LONG_MAX);
        vb, j' := Strto(b, j, LONG_MAX);
        assert s[i' - i..] == a[i'..] && t[j' - j..] == b[j'..];
        assert RTokens(s) == [RNum(va)] + RTokens(a[i'..]) && RTokens(t) == [RNum(vb)] + RTokens(b[j'..]);
        if va != vb { return if va > vb then 1 else -1; }
        i, j := i', j';
      } else {
        assert s[1..] == a[i + 1..] && t[1..] == b[j + 1..];
        assert First(RTokens(s)[0]) == if IsDigit(a[i]) then 0x30 else a[i] as int;
        assert First(RTokens(t)[0]) == if IsDigit(b[j]) then 0x30 else b[j] as int;
        if a[i] != b[j] { return a[i] as int - b[j] as int; }
        i, j := i + 1, j + 1;
      }
    }
    assert RTokens(a[i..]) == [] <==> i == |a|;
    assert RTokens(b[j..]) == [] <==> j == |b|;
    if i < |a| { return 1; }
    if j < |b| { return -1; }
    return 0;
  }

  /* ---- The two comparators on dotted-numeric versions ---- */

  const DOT: byte := 0x2E

  predicate Numerals(parts: seq<bytes>)
  {
    parts != [] && forall i | 0 <= i < |parts| :: parts[i] != [] && AllDigits(parts[i])
  }

  // N(.N)*
  function Dotted(parts: seq<bytes>): bytes
    requires parts != []
  {
    if |parts| == 1 then parts[0] else parts[0] + ([DOT] + Dotted(parts[1..]))
  }

  function Values(parts: seq<bytes>, max: nat): seq<nat>
    requires forall i | 0 <= i < |parts| :: AllDigits(parts[i])
  {
    if parts == [] then [] else [Clamp(Decimal(parts[0]), max)] + Values(parts[1..], max)
  }

  // Component by component, the longer version newer.
  function ListCmp(x: seq<nat>, y: seq<nat>): (r: int)
    ensures -1 <= r <= 1
  {
    if x == [] && y == [] then 0
    else if x == [] then -1
    else if y == [] then 1
    else if x[0] != y[0] then Sign(x[0] as int - y[0] as int)
    else ListCmp(x[1..], y[1..])
  }

  function Nums(x: seq<nat>): seq<Token>
  {
    if x == [] then [] else [Num(x[0])] + Nums(x[1..])
  }
  function RNums(x: seq<nat>): seq<RToken>
  {
    if |x| == 0 then [] else if |x| == 1 then [RNum(x[0])] else [RNum(x[0]), RByte(DOT)] + RNums(x[1..])
  }

  lemma LeadingNumber(t: bytes, rest: bytes, max: nat)
    requires t != [] && AllDigits(t) && (rest != [] ==> !IsDigit(rest[0]))
    ensures DigitRun(t + rest) == |t| && ReadNumber(t + rest, max) == Clamp(Decimal(t), max)
    ensures (t + rest)[|t|..] == rest && IsDigit((t + rest)[0])
  {
    assert (t + rest)[..|t|] == t;
    RunEnds(t + rest, |t|);
  }

  lemma {:induction false} DottedTokens(parts: seq<bytes>)
    requires Numerals(parts)
    ensures Tokens(Dotted(parts)) == Nums(Values(parts, ULONG_MAX))
    ensures RTokens(Dotted(parts)) == RNums(Values(parts, LONG_MAX))
    decreases |parts|
  {
    hide DigitRun, ReadNumber, AlphaRun, Decimal;
    var t := parts[0];
    var rest := if |parts| == 1 then [] else [DOT] + Dotted(parts[1..]);
    assert Dotted(parts) == t + rest;
    LeadingNumber(t, rest, ULONG_MAX);
    LeadingNumber(t, rest, LONG_MAX);
    if |parts| > 1 {
      DottedTokens(parts[1..]);
      assert rest[1..] == Dotted(parts[1..]);
    } else {
      assert parts[1..] == [];
    }
  }

  lemma {:induction false} ListCmpTokens(x: seq<nat>, y: seq<nat>)
    ensures DepsVersion.Cmp(Nums(x), Nums(y)) == ListCmp(x, y)
    ensures Cmp(RNums(x), RNums(y)) == ListCmp(x, y)
  {
    if x != [] && y != [] {
      ListCmpTokens(x[1..], y[1..]);
      if |x| > 1 && |y| > 1 && x[0] == y[0] {
        assert RNums(x)[1..] == [RByte(DOT)] + RNums(x[1..]) && RNums(y)[1..] == [RByte(DOT)] + RNums(y[1..]);
        assert RNums(x)[1..][1..] == RNums(x[1..]) && RNums(y)[1..][1..] == RNums(y[1..]);
      }
    }
  }

  // What the shorter clamp hides: at the first component where the 64-bit values differ,
  // both exceed what strtol can return.
  predicate Masked(p: seq<bytes>, q: seq<bytes>)
    requires forall i | 0 <= i < |p| :: AllDigits(p[i])
    requires forall i | 0 <= i < |q| :: AllDigits(q[i])
  {
    p != [] && q != [] &&
    var m, n := Clamp(Decimal(p[0]), ULONG_MAX), Clamp(Decimal(q[0]), ULONG_MAX);
    if m == n then Masked(p[1..], q[1..]) else m >= LONG_MAX && n >= LONG_MAX
  }

  // The components after the first difference, which then decide for strtol.
  function Beyond(p: seq<bytes>, q: seq<bytes>): (r: (seq<bytes>, seq<bytes>))
    requires forall i | 0 <= i < |p| :: AllDigits(p[i])
    requires forall i | 0 <= i < |q| :: AllDigits(q[i])
    requires Masked(p, q)
    ensures forall i | 0 <= i < |r.0| :: AllDigits(r.0[i])
    ensures forall i | 0 <= i < |r.1| :: AllDigits(r.1[i])
  {
    if Clamp(Decimal(p[0]), ULONG_MAX) == Clamp(Decimal(q[0]), ULONG_MAX) then Beyond(p[1..], q[1..])
    else (p[1..], q[1..])
  }

  lemma {:induction false} ClampsAgree(p: seq<bytes>, q: seq<bytes>)
    requires forall i | 0 <= i < |p| :: AllDigits(p[i])
    requires forall i | 0 <= i < |q| :: AllDigits(q[i])
    ensures !Masked(p, q) ==>
      ListCmp(Values(p, ULONG_MAX), Values(q, ULONG_MAX)) == ListCmp(Values(p, LONG_MAX), Values(q, LONG_MAX))
    ensures Masked(p, q) ==>
      ListCmp(Values(p, ULONG_MAX), Values(q, ULONG_MAX)) != 0 &&
      ListCmp(Values(p, LONG_MAX), Values(q, LONG_MAX)) ==
        ListCmp(Values(Beyond(p, q).0, LONG_MAX), Values(Beyond(p, q).1, LONG_MAX))
  {
    hide Decimal;
    if p != [] && q != [] {
      ClampsAgree(p[1..], q[1..]);
    }
  }

  // On dotted-numeric versions the comparators agree exactly when strtol's smaller
  // range hides nothing, or what follows the hidden difference happens to order them alike.
  lemma DottedAgree(p: seq<bytes>, q: seq<bytes>)
    requires Numerals(p) && Numerals(q)
    ensures DepsVersion.VersionCmp(Dotted(p), Dotted(q)) == VersionCmp(Dotted(p), Dotted(q)) <==>
      !Masked(p, q) ||
      ListCmp(Values(Beyond(p, q).0, LONG_MAX), Values(Beyond(p, q).1, LONG_MAX)) ==
        ListCmp(Values(p, ULONG_MAX), Values(q, ULONG_MAX))
  {
    hide Tokens, RTokens, Cmp, DepsVersion.Cmp, Masked, Values, Beyond, ListCmp;
    DottedTokens(p);
    DottedTokens(q);
    ListCmpTokens(Values(p, ULONG_MAX), Values(q, ULONG_MAX));
    ListCmpTokens(Values(p, LONG_MAX), Values(q, LONG_MAX));
    ClampsAgree(p, q);
  }

  lemma {:induction false} SmallNotMasked(p: seq<bytes>, q: seq<bytes>)
    requires forall i | 0 <= i < |p| :: AllDigits(p[i]) && Decimal(p[i]) <= LONG_MAX
    requires forall i | 0 <= i < |q| :: AllDigits(q[i]) && Decimal(q[i]) <= LONG_MAX
    ensures !Masked(p, q)
  {
    hide Decimal;
    if p != [] && q != [] {
      assert AllDigits(p[0]) && AllDigits(q[0]);
      SmallNotMasked(p[1..], q[1..]);
    }
  }

  // In particular they agree whenever every component fits a long.
  lemma DottedAgreeInRange(p: seq<bytes>, q: seq<bytes>)
    requires Numerals(p) && Numerals(q)
    requires forall i | 0 <= i < |p| :: Decimal(p[i]) <= LONG_MAX
    requires forall i | 0 <= i < |q| :: Decimal(q[i]) <= LONG_MAX
    ensures DepsVersion.VersionCmp(Dotted(p), Dotted(q)) == VersionCmp(Dotted(p), Dotted(q))
  {
    hide Dotted, VersionCmp, DepsVersion.VersionCmp, Decimal;
    SmallNotMasked(p, q);
    DottedAgree(p, q);
  }

  // 1.0rc1 against 1.0: a pre-release for one comparator, a later release for the other.
  lemma PreReleaseWitness()
    ensures var rc, release := [0x31, 0x2E, 0x30, 0x72, 0x63, 0x31], [0x31, 0x2E, 0x30];
      DepsVersion.VersionCmp(rc, release) == -1 && VersionCmp(rc, release) == 1
  {
    hide Tokens, RTokens;
    var tail := [0x72, 0x63, 0x31];
    OneDotZero(tail);
    OneDotZero([]);
    LetterFirst(tail);
    NoTokens();
    CommonStart([Num(1), Num(0)], Tokens(tail), [], [RNum(1), RByte(DOT), RNum(0)], RTokens(tail), []);
    assert [0x31, 0x2E, 0x30] + tail == [0x31, 0x2E, 0x30, 0x72, 0x63, 0x31];
    assert [0x31, 0x2E, 0x30] + [] == [0x31, 0x2E, 0x30];
  }

  lemma {:induction false} CommonStart(p: seq<Token>, a: seq<Token>, b: seq<Token>, q: seq<RToken>, c: seq<RToken>,
      d: seq<RToken>)
    ensures DepsVersion.Cmp(p + a, p + b) == DepsVersion.Cmp(a, b)
    ensures Cmp(q + c, q + d) == Cmp(c, d)
    decreases |p| + |q|
  {
    if p != [] {
      assert (p + a)[1..] == p[1..] + a && (p + b)[1..] == p[1..] + b;
      DepsVersion.TokenCmpLaws(p[0], p[0], p[0]);
      CommonStart(p[1..], a, b, q, c, d);
    } else if q != [] {
      assert p + a == a && p + b == b;
      assert (q + c)[1..] == q[1..] + c && (q + d)[1..] == q[1..] + d;
      CommonStart(p, a, b, q[1..], c, d);
    } else {
      assert p + a == a && p + b == b && q + c == c && q + d == d;
    }
  }

  lemma OneDotZero(tail: bytes)
    requires tail == [] || !IsDigit(tail[0])
    ensures var s := [0x31, 0x2E, 0x30] + tail;
      Tokens(s) == [Num(1), Num(0)] + Tokens(tail) && RTokens(s) == [RNum(1), RByte(DOT), RNum(0)] + RTokens(tail)
  {
    hide Tokens, RTokens;
    var s := [0x31, 0x2E, 0x30] + tail;
    DigitTokens(s);
    assert s[1..] == [0x2E] + ([0x30] + tail);
    DotToken([0x30] + tail);
    DigitTokens([0x30] + tail);
    assert ([0x30] + tail)[1..] == tail;
  }

  lemma DotToken(s: bytes)
    ensures Tokens([DOT] + s) == Tokens(s) && RTokens([DOT] + s) == [RByte(DOT)] + RTokens(s)
  {
    assert ([DOT] + s)[1..] == s;
  }

  lemma LetterFirst(s: bytes)
    requires s != [] && IsAlpha(s[0])
    ensures Tokens(s) != [] && !Tokens(s)[0].Num? && RTokens(s) != []
  {
  }

  lemma NoTokens()
    ensures Tokens([]) == [] && RTokens([]) == []
  {
  }

  function Ones(k: nat): bytes { if k == 0 then [] else Ones(k - 1) + [0x31] }
  function Pow10(k: nat): nat { if k == 0 then 1 else 10 * Pow10(k - 1) }

  lemma {:induction false} OnesValue(k: nat)
    ensures AllDigits(Ones(k)) && 9 * Decimal(Ones(k)) + 1 == Pow10(k)
  {
    if k > 0 {
      OnesValue(k - 1);
      assert Ones(k)[..|Ones(k)| - 1] == Ones(k - 1);
    }
  }

  // Two numbers are compared by value, except that one comparator takes all from 2^64 - 1 on for
  // equal and the other all from 2^63 - 1 on.
  lemma OnePart(p: bytes, q: bytes)
    requires p != [] && AllDigits(p) && q != [] && AllDigits(q)
    ensures var m, n := Decimal(p), Decimal(q);
      DepsVersion.VersionCmp(p, q) ==
        (if m >= 18_446_744_073_709_551_615 && n >= 18_446_744_073_709_551_615 then 0 else Sign(m - n)) &&
      VersionCmp(p, q) ==
        (if m >= 9_223_372_036_854_775_807 && n >= 9_223_372_036_854_775_807 then 0 else Sign(m - n))
  {
    hide Tokens, RTokens, Cmp, DepsVersion.Cmp, Decimal;
    DottedTokens([p]);
    DottedTokens([q]);
    ListCmpTokens(Values([p], ULONG_MAX), Values([q], ULONG_MAX));
    ListCmpTokens(Values([p], LONG_MAX), Values([q], LONG_MAX));
    OneValue(p, q, ULONG_MAX);
    OneValue(p, q, LONG_MAX);
  }

  lemma OneValue(p: bytes, q: bytes, max: nat)
    requires AllDigits(p) && AllDigits(q)
    ensures ListCmp(Values([p], max), Values([q], max)) == Sign(Clamp(Decimal(p), max) - Clamp(Decimal(q), max))
  {
    hide Decimal;
    assert [p][1..] == [] && [q][1..] == [];
  }

  // 11111111111111111111 against 11111111111111111112: strtol returns LONG_MAX for both.
  lemma MaskedWitness()
    ensures DepsVersion.VersionCmp(Ones(20), Ones(19) + [0x32]) == -1 && VersionCmp(Ones(20), Ones(19) + [0x32]) == 0
  {
    hide DepsVersion.VersionCmp, VersionCmp, Decimal, Ones;
    OnesAndNext(19);
    PowTwenty();
    BeyondLong(Ones(20), Ones(19) + [0x32]);
  }

  lemma PowTwenty()
    ensures Pow10(20) == 100_000_000_000_000_000_000
  {
    assert Pow10(10) == 10_000_000_000;
  }

  lemma BeyondLong(p: bytes, q: bytes)
    requires p != [] && AllDigits(p) && q != [] && AllDigits(q)
    requires LONG_MAX <= Decimal(p) < ULONG_MAX && Decimal(q) == Decimal(p) + 1
    ensures DepsVersion.VersionCmp(p, q) == -1 && VersionCmp(p, q) == 0
  {
    hide DepsVersion.VersionCmp, VersionCmp, Decimal;
    OnePart(p, q);
  }

  lemma OnesAndNext(k: nat)
    ensures var p, q := Ones(k + 1), Ones(k) + [0x32];
      p != [] && AllDigits(p) && AllDigits(q) && 9 * Decimal(p) + 1 == Pow10(k + 1) && Decimal(q) == Decimal(p) + 1
  {
    OnesValue(k);
    OnesValue(k + 1);
    assert (Ones(k) + [0x31])[..|Ones(k)|] == Ones(k) && (Ones(k) + [0x32])[..|Ones(k)|] == Ones(k);
  }

  lemma DigitTokens(s: bytes)
    requires s != [] && IsDigit(s[0]) && (|s| == 1 || !IsDigit(s[1]))
    ensures Tokens(s) == [Num(s[0] - 0x30)] + Tokens(s[1..]) && RTokens(s) == [RNum(s[0] - 0x30)] + RTokens(s[1..])
  {
    DepsVersion.DigitToken(s);
    RunEnds(s, 1);
    assert s[..1] == [s[0]];
    assert Decimal([s[0]]) == s[0] - 0x30 by { assert [s[0]][..0] == []; }
  }
}
