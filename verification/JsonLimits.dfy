/** How deep a document may nest and how long a number may be (pkg/kratos-json.c). */
module JsonLimits {
  import opened Bytes
  import opened JsonGrammar
  import opened JsonReader
  import opened JsonTheorems

  function Times(c: byte, k: nat): bytes
  {
    if k == 0 then [] else [c] + Times(c, k - 1)
  }

  lemma {:induction false} TimesAt(c: byte, k: nat)
    ensures |Times(c, k)| == k && forall i | 0 <= i < k :: Times(c, k)[i] == c
  {
    if k > 0 { TimesAt(c, k - 1); }
  }

  // k brackets opened and closed again.
  function Nest(k: nat): bytes
  {
    if k == 0 then [] else [0x5B] + Nest(k - 1) + [0x5D]
  }

  function NestTree(k: nat): Tree
    requires k > 0
  {
    if k == 1 then TEmptyArray([]) else TArray(OneElem([], NestTree(k - 1), []))
  }

  lemma {:induction false} NestDerived(k: nat)
    requires k > 0
    ensures var t := NestTree(k); TreeOk(t) && InLimits(t) && Height(t) == k && Yield(t) == Nest(k)
  {
    if k > 1 {
      NestDerived(k - 1);
      var inner := Nest(k - 1);
      assert ElemsYield(OneElem([], NestTree(k - 1), [])) == [] + (inner + []) == inner;
      assert [0x5B] + (inner + [0x5D]) == [0x5B] + inner + [0x5D];
    } else {
      assert [0x5B] + ([] + [0x5D]) == [0x5B] + [] + [0x5D] && Nest(0) == [];
    }
  }

  lemma {:induction false} NestOpens(k: nat, i: nat)
    requires i < k
    ensures |Nest(k)| == 2 * k && Nest(k)[i] == 0x5B
  {
    if i > 0 { NestOpens(k - 1, i - 1); } else { NestLength(k); }
  }

  lemma {:induction false} NestLength(k: nat)
    ensures |Nest(k)| == 2 * k
  {
    if k > 0 { NestLength(k - 1); }
  }

  // More brackets than the depth leaves room for are refused.
  lemma {:induction false} TooDeep(s: bytes, n: nat, i: nat, d: nat, k: nat)
    requires n <= |s| && i + k <= n && d <= 64 < d + k && forall j | i <= j < i + k :: s[j] == 0x5B
    ensures ReadValue(s, n, i, d) == None
    decreases k
  {
    hide ReadObject, ReadString, ReadNumber, ReadLiteral;
    assert SkipWs(s, n, i) == i;
    if d < 64 {
      assert s[i + 1] == 0x5B && SkipWs(s, n, i + 1) == i + 1;
      TooDeep(s, n, i + 1, d + 1, k - 1);
      assert ReadElems(s, n, i + 1, d + 1) == None;
    }
    assert ReadArray(s, n, i, d) == None;
  }

  lemma NestedExactly(k: nat)
    requires k > 0
    ensures ReadDoc(Nest(k), |Nest(k)|).Some? <==> k <= 64
  {
    hide ReadValue;
    NestLength(k);
    var s := Nest(k);
    if k <= 64 {
      NestDerived(k);
      var d := Doc([], NestTree(k), []);
      assert [] + (s + []) == s && s[..2 * k] == s;
      ReadDocComplete(s, 2 * k, d);
    } else {
      forall j | 0 <= j < k ensures s[j] == 0x5B { NestOpens(k, j); }
      TooDeep(s, 2 * k, 0, 0, k);
    }
  }

  // k ones are read as a number as long as they are at most 63.
  lemma LongNumberExactly(k: nat)
    requires k > 0
    ensures ReadDoc(Times(0x31, k), |Times(0x31, k)|).Some? <==> k <= 63
  {
    hide NumberEnd, NumOk, NumYield;
    var s := Times(0x31, k);
    TimesAt(0x31, k);
    var lit := NumLit(false, s, [], []);
    OnesAreNumber(s, lit);
    assert s[0..k] == s;
    NumberComplete(s, k, 0, lit);
    NumberRead(s, k);
  }

  lemma OnesAreNumber(s: bytes, lit: NumLit)
    requires s != [] && (forall i | 0 <= i < |s| :: s[i] == 0x31) && lit == NumLit(false, s, [], [])
    ensures NumOk(lit) && NumYield(lit) == s
  {
  }

  lemma NumberRead(s: bytes, n: nat)
    requires n == |s| > 0 && IsDigit(s[0]) && NumberEnd(s, n, 0) == Some(n)
    ensures ReadDoc(s, n).Some? <==> n <= 63
  {
    hide NumberEnd, ReadObject, ReadArray, ReadString, ReadLiteral;
    assert SkipWs(s, n, 0) == 0;
  }
}
