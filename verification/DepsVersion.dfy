/** kratos_version_cmp (pkg/kratos-deps.c): a comparison of token sequences in which the end
    of a version is older than a number and newer than a letter. */
module DepsVersion {
  import opened Bytes
  import opened VersionTokens

  // strcmp, up to sign.
  function StrCmp(a: bytes, b: bytes): (r: int)
    ensures -1 <= r <= 1
  {
    if a == [] && b == [] then 0
    else if a == [] then -1
    else if b == [] then 1
    else if a[0] != b[0] then Sign(a[0] as int - b[0] as int)
    else StrCmp(a[1..], b[1..])
  }

  // Numbers by value, words by strcmp, a number before a word.
  function TokenCmp(x: Token, y: Token): (r: int)
    ensures -1 <= r <= 1
  {
    match (x, y)
    case (Num(m), Num(n)) => Sign(m - n)
    case (Num(_), Word(_)) => -1
    case (Word(_), Num(_)) => 1
    case (Word(v), Word(w)) => StrCmp(v, w)
  }

  function Cmp(a: seq<Token>, b: seq<Token>): (r: int)
    ensures -1 <= r <= 1
  {
    if a == [] && b == [] then 0
    else if a == [] then if b[0].Num? then -1 else 1
    else if b == [] then if a[0].Num? then 1 else -1
    else
      var c := TokenCmp(a[0], b[0]);
      if c != 0 then c else Cmp(a[1..], b[1..])
  }

  function VersionCmp(v: bytes, w: bytes): int { Cmp(Tokens(v), Tokens(w)) }

  /* ---- Laws ---- */

  lemma {:induction false} StrCmpLaws(a: bytes, b: bytes, c: bytes)
    ensures StrCmp(a, b) == -StrCmp(b, a)
    ensures StrCmp(a, b) == 0 <==> a == b
    ensures StrCmp(a, b) <= 0 && StrCmp(b, c) <= 0 ==> StrCmp(a, c) <= 0
  {
    if a != [] && b != [] {
      StrCmpLaws(a[1..], b[1..], if c == [] then [] else c[1..]);
      assert a == [a[0]] + a[1..] && b == [b[0]] + b[1..];
    }
  }

  // A single token order is total.
  lemma TokenCmpLaws(x: Token, y: Token, z: Token)
    ensures TokenCmp(x, y) == -TokenCmp(y, x)
    ensures TokenCmp(x, y) == 0 <==> x == y
    ensures TokenCmp(x, y) <= 0 && TokenCmp(y, z) <= 0 ==> TokenCmp(x, z) <= 0
  {
    hide StrCmp;
    if x.Word? && y.Word? { StrCmpLaws(x.letters, y.letters, if z.Word? then z.letters else []); }
  }

  // Swapping the arguments flips the sign.
  lemma {:induction false} Antisymmetric(a: seq<Token>, b: seq<Token>)
    ensures Cmp(a, b) == -Cmp(b, a)
  {
    hide TokenCmp;
    if a != [] && b != [] {
      TokenCmpLaws(a[0], b[0], a[0]);
      Antisymmetric(a[1..], b[1..]);
    }
  }

  // Versions compare equal exactly when their tokens agree, so ties are interchangeable.
  lemma {:induction false} EqualIffSameTokens(a: seq<Token>, b: seq<Token>)
    ensures Cmp(a, b) == 0 <==> a == b
  {
    hide TokenCmp;
    if a != [] && b != [] {
      TokenCmpLaws(a[0], b[0], a[0]);
      EqualIffSameTokens(a[1..], b[1..]);
      assert a == [a[0]] + a[1..] && b == [b[0]] + b[1..];
    }
  }

  datatype Kind = End | Digits | Letters
  function KindOf(a: seq<Token>): Kind { if a == [] then End else if a[0].Num? then Digits else Letters }

  // After their longest common beginning one version ends, one continues with a
  // number and one with a letter.
  predicate ThreeWaySplit(a: seq<Token>, b: seq<Token>, c: seq<Token>)
  {
    if a != [] && b != [] && c != [] && a[0] == b[0] == c[0] then ThreeWaySplit(a[1..], b[1..], c[1..])
    else KindOf(a) != KindOf(b) && KindOf(b) != KindOf(c) && KindOf(a) != KindOf(c)
  }

  predicate Chain(a: seq<Token>, b: seq<Token>, c: seq<Token>) { Cmp(a, b) <= 0 && Cmp(b, c) <= 0 ==> Cmp(a, c) <= 0 }

  // The comparison orders the three versions consistently, whichever way they are taken.
  predicate Transitive(a: seq<Token>, b: seq<Token>, c: seq<Token>)
  {
    Chain(a, b, c) && Chain(a, c, b) && Chain(b, a, c) && Chain(b, c, a) && Chain(c, a, b) && Chain(c, b, a)
  }

  lemma HeadsDecide(a: seq<Token>, b: seq<Token>, c: seq<Token>)
    requires !(a != [] && b != [] && c != [] && a[0] == b[0] == c[0])
    ensures Transitive(a, b, c) <==> !ThreeWaySplit(a, b, c)
  {
    hide StrCmp, Cmp;
    Antisymmetric(a, b);
    Antisymmetric(b, c);
    Antisymmetric(a, c);
    Unfold(a, b);
    Unfold(b, c);
    Unfold(a, c);
    EqualIffSameTokens(a, b);
    EqualIffSameTokens(b, c);
    EqualIffSameTokens(a, c);
    if a != [] && b != [] && c != [] {
      TokenCmpLaws(a[0], b[0], c[0]);
      TokenCmpLaws(a[0], c[0], b[0]);
      TokenCmpLaws(b[0], a[0], c[0]);
      TokenCmpLaws(b[0], c[0], a[0]);
      TokenCmpLaws(c[0], a[0], b[0]);
      TokenCmpLaws(c[0], b[0], a[0]);
    }
  }

  lemma Unfold(a: seq<Token>, b: seq<Token>)
    ensures a == [] && b != [] ==> Cmp(a, b) == if b[0].Num? then -1 else 1
    ensures a != [] && b == [] ==> Cmp(a, b) == if a[0].Num? then 1 else -1
    ensures a != [] && b != [] && a[0] != b[0] ==> Cmp(a, b) == TokenCmp(a[0], b[0]) != 0
    ensures a != [] && b != [] && a[0] == b[0] ==> Cmp(a, b) == Cmp(a[1..], b[1..])
  {
    hide TokenCmp;
    if a != [] && b != [] { TokenCmpLaws(a[0], b[0], a[0]); }
  }

  // Exactly when three versions are ordered consistently: always, unless they split three ways.
  lemma {:induction false} TransitiveExactly(a: seq<Token>, b: seq<Token>, c: seq<Token>)
    ensures Transitive(a, b, c) <==> !ThreeWaySplit(a, b, c)
  {
    if a != [] && b != [] && c != [] && a[0] == b[0] == c[0] {
      hide Cmp, TokenCmp;
      TransitiveExactly(a[1..], b[1..], c[1..]);
      Unfold(a, b);
      Unfold(b, c);
      Unfold(a, c);
      Unfold(b, a);
      Unfold(c, b);
      Unfold(c, a);
    } else {
      HeadsDecide(a, b, c);
    }
  }

  // Versions whose tokens have the same kind at every shared position never split three ways.
  predicate SameKinds(a: seq<Token>, b: seq<Token>)
  {
    forall i | 0 <= i < |a| && i < |b| :: a[i].Num? == b[i].Num?
  }

  lemma {:induction false} SameKindsTransitive(a: seq<Token>, b: seq<Token>, c: seq<Token>)
    requires SameKinds(a, b) && SameKinds(b, c) && SameKinds(a, c)
    ensures !ThreeWaySplit(a, b, c) && Transitive(a, b, c)
  {
    hide Transitive;
    TransitiveExactly(a, b, c);
    if a != [] && b != [] && c != [] && a[0] == b[0] == c[0] {
      SameKindsTransitive(a[1..], b[1..], c[1..]);
      TransitiveExactly(a[1..], b[1..], c[1..]);
    }
  }

  lemma DigitToken(s: bytes)
    requires s != [] && IsDigit(s[0]) && (|s| == 1 || !IsDigit(s[1]))
    ensures Tokens(s) == [Num(s[0] - 0x30)] + Tokens(s[1..])
  {
    assert DigitRun(s) == 1 by { assert DigitRun(s[1..]) == 0; }
    assert s[..1] == [s[0]];
    assert Decimal([s[0]]) == s[0] - 0x30 by { assert [s[0]][..0] == []; }
  }

  lemma LetterToken(s: bytes)
    requires |s| == 1 && IsAlpha(s[0])
    ensures Tokens(s) == [Word(s)]
  {
    assert AlphaRun(s, SEGMENT) == 1;
    assert s[..1] == s && s[1..] == [];
  }

  // 1.a < 1 < 1.0 < 1.a
  lemma CycleWitness()
    ensures var one, oneA, oneZero := [0x31], [0x31, 0x2E, 0x61], [0x31, 0x2E, 0x30];
      VersionCmp(oneA, one) == -1 && VersionCmp(one, oneZero) == -1 && VersionCmp(oneZero, oneA) == -1
  {
    hide Tokens;
    CycleTokens();
  }

  lemma CycleTokens()
    ensures Tokens([0x31]) == [Num(1)]
    ensures Tokens([0x31, 0x2E, 0x61]) == [Num(1), Word([0x61])]
    ensures Tokens([0x31, 0x2E, 0x30]) == [Num(1), Num(0)]
  {
    hide Tokens;
    var one, oneA, oneZero := [0x31], [0x31, 0x2E, 0x61], [0x31, 0x2E, 0x30];
    assert Tokens([]) == [] by { NoTokens(); }
    DigitToken(one);
    DigitToken(oneA);
    assert one[1..] == [] == [0x30][1..] && oneA[1..] == [0x2E] + [0x61] && oneZero[1..] == [0x2E] + [0x30];
    DotSkipped([0x61]);
    LetterToken([0x61]);
    DigitToken(oneZero);
    DotSkipped([0x30]);
    DigitToken([0x30]);
  }

  lemma NoTokens()
    ensures Tokens([]) == []
  {
  }

  /* ---- The procedure ---- */

  method SkipSeparators(s: bytes, i: nat) returns (j: nat)
    requires i <= |s|
    ensures i <= j <= |s| && (j < |s| ==> IsAlnum(s[j])) && Tokens(s[j..]) == Tokens(s[i..])
  {
    j := i;
    while j < |s| && !IsAlnum(s[j])
      invariant i <= j <= |s| && Tokens(s[j..]) == Tokens(s[i..])
    {
      assert s[j..][1..] == s[j + 1..];
      j := j + 1;
    }
  }

  // The copy loop of a segment, which leaves room for the terminator in its 64 bytes.
  method TakeLetters(s: bytes, i: nat) returns (seg: bytes, j: nat)
    requires i <= |s|
    ensures i <= j <= |s| && seg == s[i..j] && j - i == AlphaRun(s[i..], SEGMENT)
  {
    j := i;
    while j < |s| && IsAlpha(s[j]) && j - i < SEGMENT
      invariant i <= j <= |s| && j - i <= SEGMENT
      invariant AlphaRun(s[i..], SEGMENT) == j - i + AlphaRun(s[j..], SEGMENT - (j - i))
    {
      assert s[j..][1..] == s[j + 1..];
      j := j + 1;
    }
    return s[i..j], j;
  }

  // One round of the loop of kratos_version_cmp, both versions standing at a segment.
  method CompareSegments(v: bytes, p1: nat, w: bytes, p2: nat) returns (c: int, q1: nat, q2: nat)
    requires p1 < |v| && IsAlnum(v[p1]) && p2 < |w| && IsAlnum(w[p2])
    ensures Tokens(v[p1..]) != [] && Tokens(w[p2..]) != [] && c == TokenCmp(Tokens(v[p1..])[0], Tokens(w[p2..])[0])
    ensures c == 0 ==> p1 < q1 <= |v| && p2 < q2 <= |w|
    ensures c == 0 ==> Tokens(v[q1..]) == Tokens(v[p1..])[1..] && Tokens(w[q2..]) == Tokens(w[p2..])[1..]
  {
    hide DigitRun, AlphaRun, ReadNumber, StrCmp, Tokens;
    ghost var s, t := v[p1..], w[p2..];
    FirstToken(s);
    FirstToken(t);
    if IsDigit(v[p1]) && IsDigit(w[p2]) {
      var num1, num2;
      num1, q1 := Strto(v, p1, ULONG_MAX);
      num2, q2 := Strto(w, p2, ULONG_MAX);
      NumberOf(s);
      NumberOf(t);
      assert s[q1 - p1..] == v[q1..] && t[q2 - p2..] == w[q2..];
      c := if num1 != num2 then if num1 > num2 then 1 else -1 else 0;
      assert Tokens(s)[0] == Num(num1) && Tokens(t)[0] == Num(num2);
    } else {
      var seg1, seg2;
      seg1, q1 := TakeLetters(v, p1);
      seg2, q2 := TakeLetters(w, p2);
      LettersOf(s);
      LettersOf(t);
      assert seg1 == s[..q1 - p1] && seg2 == t[..q2 - p2];
      assert s[q1 - p1..] == v[q1..] && t[q2 - p2..] == w[q2..];
      c := StrCmp(seg1, seg2);
      EmptySegment(seg1, seg2);
      EmptySegment(seg2, seg1);
    }
  }

  lemma EmptySegment(a: bytes, b: bytes)
    ensures a == [] && b != [] ==> StrCmp(a, b) == -1 && StrCmp(b, a) == 1
  {
  }

  // kratos_version_cmp; None stands for NULL.
  method KratosVersionCmp(ver1: Option<bytes>, ver2: Option<bytes>) returns (r: int)
    ensures r == match (ver1, ver2)
      case (None, None) => 0
      case (None, Some(_)) => -1
      case (Some(_), None) => 1
      case (Some(v), Some(w)) => VersionCmp(v, w)
  {
    hide Tokens, TokenCmp;
    if ver1.None? { return if ver2.None? then 0 else -1; }
    if ver2.None? { return 1; }
    var v, w := ver1.value, ver2.value;
    var p1: nat, p2: nat := 0, 0;
    assert v[0..] == v && w[0..] == w;
    while p1 < |v| || p2 < |w|
      invariant p1 <= |v| && p2 <= |w|
      invariant Cmp(Tokens(v[p1..]), Tokens(w[p2..])) == VersionCmp(v, w)
      decreases |v| - p1 + |w| - p2
    {
      p1 := SkipSeparators(v, p1);
      p2 := SkipSeparators(w, p2);
      FirstToken(v[p1..]);
      FirstToken(w[p2..]);
      if p1 == |v| && p2 == |w| { return 0; }
      if p1 == |v| { return if IsDigit(w[p2]) then -1 else 1; }
      if p2 == |w| { return if IsDigit(v[p1]) then 1 else -1; }
      var c, q1, q2 := CompareSegments(v, p1, w, p2);
      if c != 0 { return c; }
      p1, p2 := q1, q2;
    }
    FirstToken(v[p1..]);
    FirstToken(w[p2..]);
    return 0;
  }

  lemma FirstToken(s: bytes)
    requires s == [] || IsAlnum(s[0])
    ensures if s == [] then Tokens(s) == [] else Tokens(s) != [] && Tokens(s)[0].Num? == IsDigit(s[0])
  {
  }

  lemma NumberOf(s: bytes)
    requires s != [] && IsDigit(s[0])
    ensures Tokens(s) == [Num(ReadNumber(s, ULONG_MAX))] + Tokens(s[DigitRun(s)..])
  {
  }

  // The segment taken at a number is empty, at a letter it is the whole token.
  lemma LettersOf(s: bytes)
    requires s != [] && IsAlnum(s[0])
    ensures var k := AlphaRun(s, SEGMENT);
      if IsDigit(s[0]) then k == 0 else k > 0 && Tokens(s) == [Word(s[..k])] + Tokens(s[k..])
  {
  }

  /* ---- Long words ---- */

  predicate AllAlpha(s: bytes) { forall i | 0 <= i < |s| :: IsAlpha(s[i]) }

  // The first word of a text that begins with the letters s, and no letter behind them.
  lemma LettersFirst(s: bytes, rest: bytes)
    requires s != [] && AllAlpha(s) && (rest == [] || |s| >= 63 || !IsAlpha(rest[0]))
    ensures var k := if |s| < 63 then |s| else 63;
      Tokens(s + rest) == [Word(s[..k])] + Tokens((s + rest)[k..])
  {
    hide Tokens;
    var a := s + rest;
    var k := AlphaRun(a, SEGMENT);
    assert forall i | 0 <= i < |s| :: a[i] == s[i] && IsAlpha(a[i]);
    if |s| < |a| { assert a[|s|] == rest[0]; }
    assert k == if |s| < 63 then |s| else 63;
    assert a[..k] == s[..k];
    LettersOf(a);
  }

  // A word is cut every 63 letters: a dot between two words goes unnoticed exactly when the first
  // has a multiple of 63 letters.
  lemma {:induction false} LongWords(s: bytes, t: bytes)
    requires s != [] && AllAlpha(s) && t != [] && AllAlpha(t)
    ensures VersionCmp(s + t, s + [0x2E] + t) == 0 <==> |s| % 63 == 0
  {
    hide Cmp;
    EqualIffSameTokens(Tokens(s + t), Tokens(s + [0x2E] + t));
    CutWords(s, t);
  }

  lemma {:induction false} CutWords(s: bytes, t: bytes)
    requires s != [] && AllAlpha(s) && t != [] && AllAlpha(t)
    ensures Tokens(s + t) == Tokens(s + [0x2E] + t) <==> |s| % 63 == 0
    decreases |s|
  {
    hide Tokens;
    var a, b := s + t, s + [0x2E] + t;
    assert a + [] == a && b == s + ([0x2E] + t);
    LettersFirst(a, []);
    LettersFirst(s, [0x2E] + t);
    if |s| > 63 {
      assert a[63..] == s[63..] + t && b[63..] == s[63..] + [0x2E] + t && a[..63] == s[..63];
      assert Tokens(a)[1..] == Tokens(a[63..]) && Tokens(b)[1..] == Tokens(b[63..]) && Tokens(a)[0] == Tokens(b)[0];
      CutWords(s[63..], t);
    } else if |s| == 63 {
      assert a[63..] == t && b[63..] == [0x2E] + t && a[..63] == s == s[..63];
      DotSkipped(t);
      assert Tokens(a) == [Word(s)] + Tokens(t) && Tokens(b) == [Word(s)] + Tokens(t);
    } else {
      assert Tokens(b)[0] == Word(s[..|s|]) && |Tokens(a)[0].letters| > |s|;
    }
  }

  lemma DotSkipped(t: bytes)
    ensures Tokens([0x2E] + t) == Tokens(t)
  {
    assert ([0x2E] + t)[1..] == t;
  }

  // Every byte but a letter or digit only separates.
  lemma Separators(c: byte)
    ensures Tokens([c]) == [] <==> !(48 <= c <= 57 || 65 <= c <= 90 || 97 <= c <= 122)
  {
    assert [c][1..] == [];
  }

  /* ---- kratos_version_satisfies ---- */

  datatype Op = Any | Eq | Ge | Le | Gt | Lt | Ne

  // Whether an installed version meets a requirement. The empty requirement always
  // holds, and an empty installed version meets no other.
  predicate Satisfies(installed: bytes, op: Op, required: bytes)
  {
    if op == Any || required == [] then true
    else if installed == [] then false
    else
      var c := VersionCmp(installed, required);
      match op
      case Eq => c == 0
      case Ge => c >= 0
      case Le => c <= 0
      case Gt => c > 0
      case Lt => c < 0
      case Ne => c != 0
      case Any => true
  }

  function Opposite(op: Op): Op
    requires op != Any
  {
    match op case Eq => Ne case Ne => Eq case Ge => Lt case Lt => Ge case Le => Gt case _ => Le
  }

  // Of an operator and its opposite exactly one holds; and mirrored requirements agree.
  lemma SatisfiesExactlyOne(installed: bytes, op: Op, required: bytes)
    requires op != Any && installed != [] && required != []
    ensures Satisfies(installed, op, required) <==> !Satisfies(installed, Opposite(op), required)
    ensures Satisfies(installed, Ge, required) <==> Satisfies(required, Le, installed)
    ensures Satisfies(installed, Eq, required) <==> Tokens(installed) == Tokens(required)
  {
    hide Cmp;
    Antisymmetric(Tokens(installed), Tokens(required));
    EqualIffSameTokens(Tokens(installed), Tokens(required));
  }
}
