/** The first primes, from which FIPS 180-4 takes its constants. */
module Primes {
  import HashBytes

  predicate IsPrime(n: nat) { n >= 2 && forall d | 2 <= d < n :: !Divides(d, n) }

  predicate Divides(d: nat, n: nat)
    requires d > 0
  {
    n % d == 0
  }

  // Divisible by none of the primes below 21 but itself.
  predicate Sieved(n: nat)
  {
    n >= 2 && (n == 2 || n % 2 != 0) && (n == 3 || n % 3 != 0) && (n == 5 || n % 5 != 0) && (n == 7 || n % 7 != 0) &&
    (n == 11 || n % 11 != 0) && (n == 13 || n % 13 != 0) && (n == 17 || n % 17 != 0) && (n == 19 || n % 19 != 0)
  }

  lemma PrimeIsSieved(n: nat)
    requires 2 <= n < 441
    ensures IsPrime(n) <==> Sieved(n)
  {
    hide Sieved;
    if IsPrime(n) {
      forall p | 2 <= p ensures n == p || n % p != 0 { NoFactor(n, p); }
      NoneDivides(n);
    } else {
      var d :| 2 <= d < n && Divides(d, n);
      SmallerFactor(n, d, n / d);
    }
  }

  lemma NoFactor(n: nat, p: nat)
    requires IsPrime(n) && 2 <= p
    ensures n == p || n % p != 0
  {
    if p < n { assert !Divides(p, n); }
  }

  lemma NoneDivides(n: nat)
    requires 2 <= n && forall p | 2 <= p :: n == p || n % p != 0
    ensures Sieved(n)
  {
  }

  lemma SmallerFactor(n: nat, d: nat, e: nat)
    requires n < 441 && 2 <= d < n && n == d * e
    ensures !Sieved(n)
  {
    Bounds(d, e);
    if d <= 20 {
      Multiple(n, d, e);
    } else {
      Multiple(n, e, d);
    }
  }

  lemma Bounds(d: nat, e: nat)
    requires d * e < 441 && 2 <= d < d * e
    ensures 2 <= e < d * e && (d > 20 ==> e <= 20)
  {
    Grows(d, e, 1);
    Grows(e, d, 2);
    BothBig(d, e);
  }

  lemma BothBig(d: nat, e: nat)
    ensures d > 20 && e > 20 ==> d * e >= 441
  {
    if d > 20 && e > 20 { assert d * e >= 21 * e >= 21 * 21; }
  }

  lemma Grows(a: nat, b: nat, c: nat)
    ensures b <= c ==> a * b <= a * c
    ensures c <= b ==> a * c <= a * b
  {
  }

  // A multiple of a number up to 20 is one of a prime up to 19.
  lemma Multiple(n: nat, f: nat, g: nat)
    requires 2 <= f <= 20 && f < n && n == f * g
    ensures !Sieved(n)
  {
    hide Sieved, Least;
    var m := Least(f);
    var k := f / m;
    assert f == m * k;
    assert n == m * (k * g) by { Associate(m, k, g); }
    Remainder(m, k * g);
    SmallDivisor(n, m);
  }

  lemma Associate(a: nat, b: nat, c: nat)
    ensures a * b * c == a * (b * c)
  {
  }

  lemma Remainder(m: nat, k: nat)
    requires m > 0
    ensures m * k % m == 0
  {
    HashBytes.DivUnique(m * k, m, k, 0);
  }

  lemma SmallDivisor(n: nat, m: nat)
    requires m in [2, 3, 5, 7, 11, 13, 17, 19] && m < n && n % m == 0
    ensures !Sieved(n)
  {
  }

  function Least(f: nat): (m: nat)
    requires 2 <= f <= 20
    ensures m in [2, 3, 5, 7, 11, 13, 17, 19] && f % m == 0 && m <= f
  {
    if f % 2 == 0 then 2 else if f % 3 == 0 then 3 else f
  }
  const ROWS: seq<seq<nat>> := [
    [2, 3, 5, 7], [11, 13, 17, 19], [23, 29, 31, 37], [41, 43, 47, 53],
    [59, 61, 67, 71], [73, 79, 83, 89], [97, 101, 103, 107], [109, 113, 127, 131],
    [137, 139, 149, 151], [157, 163, 167, 173], [179, 181, 191, 193], [197, 199, 211, 223],
    [227, 229, 233, 239], [241, 251, 257, 263], [269, 271, 277, 281], [283, 293, 307, 311],
    [313, 317, 331, 337], [347, 349, 353, 359], [367, 373, 379, 383], [389, 397, 401, 409]
  ]

  function Prime(t: nat): nat
    requires t < 80
  {
    ROWS[t / 4][t % 4]
  }

  // The numbers behind the prime before, up to this one: none but this is prime.
  predicate Next(t: nat)
    requires t < 80
  {
    Sieved(Prime(t)) && forall n | (if t == 0 then 0 else Prime(t - 1) + 1) <= n < Prime(t) :: !Sieved(n)
  }

  // From lo up to hi, these four and no others pass the sieve.
  predicate Only(lo: nat, hi: nat, a: nat, b: nat, c: nat, d: nat)
    decreases hi - lo
  {
    if lo >= hi then true
    else if Sieved(lo) then (lo == a || lo == b || lo == c || lo == d) && Only(lo + 1, hi, a, b, c, d)
    else lo != a && lo != b && lo != c && lo != d && Only(lo + 1, hi, a, b, c, d)
  }

  lemma {:induction false} OnlyAt(lo: nat, hi: nat, a: nat, b: nat, c: nat, d: nat, n: nat)
    requires Only(lo, hi, a, b, c, d) && lo <= n < hi
    ensures Sieved(n) <==> n in [a, b, c, d]
    decreases hi - lo
  {
    hide Sieved;
    if lo < n { OnlyAt(lo + 1, hi, a, b, c, d, n); }
  }

  // Prime(t) is prime, and no prime lies between it and the one before.
  lemma PrimesInOrder(t: nat)
    requires t < 80
    ensures IsPrime(Prime(t)) && Prime(t) < 410
    ensures t > 0 ==> Prime(t - 1) < Prime(t)
    ensures forall n | (if t == 0 then 0 else Prime(t - 1) + 1) <= n < Prime(t) :: !IsPrime(n)
  {
    hide IsPrime, Sieved, Prime;
    Chosen(t);
    PrimeIsSieved(Prime(t));
    forall n | (if t == 0 then 0 else Prime(t - 1) + 1) <= n < Prime(t) ensures !IsPrime(n) {
      if n >= 2 { PrimeIsSieved(n); } else { NotBelowTwo(n); }
    }
  }

  lemma NotBelowTwo(n: nat)
    ensures n < 2 ==> !IsPrime(n) && !Sieved(n)
  {
  }

  lemma Chosen(t: nat)
    requires t < 80
    ensures Next(t) && 2 <= Prime(t) < 410 && (t > 0 ==> Prime(t - 1) < Prime(t))
  {
    hide Next, Prime;
    match t / 4
    case 0 => Row0(t);
    case 1 => Row1(t);
    case 2 => Row2(t);
    case 3 => Row3(t);
    case 4 => Row4(t);
    case 5 => Row5(t);
    case 6 => Row6(t);
    case 7 => Row7(t);
    case 8 => Row8(t);
    case 9 => Row9(t);
    case 10 => Row10(t);
    case 11 => Row11(t);
    case 12 => Row12(t);
    case 13 => Row13(t);
    case 14 => Row14(t);
    case 15 => Row15(t);
    case 16 => Row16(t);
    case 17 => Row17(t);
    case 18 => Row18(t);
    case _ => Row19(t);
  }

  lemma Row0(t: nat)
    requires 0 <= t < 4
    ensures Next(t) && 2 <= Prime(t) < 410 && (t > 0 ==> Prime(t - 1) < Prime(t))
  {
    hide Sieved;
    forall n | 0 <= n < 8 ensures Sieved(n) <==> n in [2, 3, 5, 7] { Range0(n); }
  }

  lemma Range0(n: nat)
    requires 0 <= n < 8
    ensures Sieved(n) <==> n in [2, 3, 5, 7]
  {
    assert Only(0, 8, 2, 3, 5, 7);
    OnlyAt(0, 8, 2, 3, 5, 7, n);
  }

  lemma Row1(t: nat)
    requires 4 <= t < 8
    ensures Next(t) && 2 <= Prime(t) < 410 && (t > 0 ==> Prime(t - 1) < Prime(t))
  {
    hide Sieved;
    forall n | 8 <= n < 20 ensures Sieved(n) <==> n in [11, 13, 17, 19] { Range1(n); }
  }

  lemma Range1(n: nat)
    requires 8 <= n < 20
    ensures Sieved(n) <==> n in [11, 13, 17, 19]
  {
    assert Only(10, 20, 11, 13, 17, 19);
    assert Only(8, 20, 11, 13, 17, 19);
    OnlyAt(8, 20, 11, 13, 17, 19, n);
  }

  lemma Row2(t: nat)
    requires 8 <= t < 12
    ensures Next(t) && 2 <= Prime(t) < 410 && (t > 0 ==> Prime(t - 1) < Prime(t))
  {
    hide Sieved;
    forall n | 20 <= n < 38 ensures Sieved(n) <==> n in [23, 29, 31, 37] { Range2(n); }
  }

  lemma Range2(n: nat)
    requires 20 <= n < 38
    ensures Sieved(n) <==> n in [23, 29, 31, 37]
  {
    assert Only(28, 38, 23, 29, 31, 37);
    assert Only(20, 38, 23, 29, 31, 37);
    OnlyAt(20, 38, 23, 29, 31, 37, n);
  }

  lemma Row3(t: nat)
    requires 12 <= t < 16
    ensures Next(t) && 2 <= Prime(t) < 410 && (t > 0 ==> Prime(t - 1) < Prime(t))
  {
    hide Sieved;
    forall n | 38 <= n < 54 ensures Sieved(n) <==> n in [41, 43, 47, 53] { Range3(n); }
  }

  lemma Range3(n: nat)
    requires 38 <= n < 54
    ensures Sieved(n) <==> n in [41, 43, 47, 53]
  {
    assert Only(44, 54, 41, 43, 47, 53);
    assert Only(38, 54, 41, 43, 47, 53);
    OnlyAt(38, 54, 41, 43, 47, 53, n);
  }

  lemma Row4(t: nat)
    requires 16 <= t < 20
    ensures Next(t) && 2 <= Prime(t) < 410 && (t > 0 ==> Prime(t - 1) < Prime(t))
  {
    hide Sieved;
    forall n | 54 <= n < 72 ensures Sieved(n) <==> n in [59, 61, 67, 71] { Range4(n); }
  }

  lemma Range4(n: nat)
    requires 54 <= n < 72
    ensures Sieved(n) <==> n in [59, 61, 67, 71]
  {
    assert Only(62, 72, 59, 61, 67, 71);
    assert Only(54, 72, 59, 61, 67, 71);
    OnlyAt(54, 72, 59, 61, 67, 71, n);
  }

  lemma Row5(t: nat)
    requires 20 <= t < 24
    ensures Next(t) && 2 <= Prime(t) < 410 && (t > 0 ==> Prime(t - 1) < Prime(t))
  {
    hide Sieved;
    forall n | 72 <= n < 90 ensures Sieved(n) <==> n in [73, 79, 83, 89] { Range5(n); }
  }

  lemma Range5(n: nat)
    requires 72 <= n < 90
    ensures Sieved(n) <==> n in [73, 79, 83, 89]
  {
    assert Only(80, 90, 73, 79, 83, 89);
    assert Only(72, 90, 73, 79, 83, 89);
    OnlyAt(72, 90, 73, 79, 83, 89, n);
  }

  lemma Row6(t: nat)
    requires 24 <= t < 28
    ensures Next(t) && 2 <= Prime(t) < 410 && (t > 0 ==> Prime(t - 1) < Prime(t))
  {
    hide Sieved;
    forall n | 90 <= n < 108 ensures Sieved(n) <==> n in [97, 101, 103, 107] { Range6(n); }
  }

  lemma Range6(n: nat)
    requires 90 <= n < 108
    ensures Sieved(n) <==> n in [97, 101, 103, 107]
  {
    assert Only(98, 108, 97, 101, 103, 107);
    assert Only(90, 108, 97, 101, 103, 107);
    OnlyAt(90, 108, 97, 101, 103, 107, n);
  }

  lemma Row7(t: nat)
    requires 28 <= t < 32
    ensures Next(t) && 2 <= Prime(t) < 410 && (t > 0 ==> Prime(t - 1) < Prime(t))
  {
    hide Sieved;
    forall n | 108 <= n < 132 ensures Sieved(n) <==> n in [109, 113, 127, 131] { Range7(n); }
  }

  lemma Range7(n: nat)
    requires 108 <= n < 132
    ensures Sieved(n) <==> n in [109, 113, 127, 131]
  {
    assert Only(122, 132, 109, 113, 127, 131);
    assert Only(112, 132, 109, 113, 127, 131);
    assert Only(108, 132, 109, 113, 127, 131);
    OnlyAt(108, 132, 109, 113, 127, 131, n);
  }

  lemma Row8(t: nat)
    requires 32 <= t < 36
    ensures Next(t) && 2 <= Prime(t) < 410 && (t > 0 ==> Prime(t - 1) < Prime(t))
  {
    hide Sieved;
    forall n | 132 <= n < 152 ensures Sieved(n) <==> n in [137, 139, 149, 151] { Range8(n); }
  }

  lemma Range8(n: nat)
    requires 132 <= n < 152
    ensures Sieved(n) <==> n in [137, 139, 149, 151]
  {
    assert Only(142, 152, 137, 139, 149, 151);
    assert Only(132, 152, 137, 139, 149, 151);
    OnlyAt(132, 152, 137, 139, 149, 151, n);
  }

  lemma Row9(t: nat)
    requires 36 <= t < 40
    ensures Next(t) && 2 <= Prime(t) < 410 && (t > 0 ==> Prime(t - 1) < Prime(t))
  {
    hide Sieved;
    forall n | 152 <= n < 174 ensures Sieved(n) <==> n in [157, 163, 167, 173] { Range9(n); }
  }

  lemma Range9(n: nat)
    requires 152 <= n < 174
    ensures Sieved(n) <==> n in [157, 163, 167, 173]
  {
    assert Only(164, 174, 157, 163, 167, 173);
    assert Only(154, 174, 157, 163, 167, 173);
    assert Only(152, 174, 157, 163, 167, 173);
    OnlyAt(152, 174, 157, 163, 167, 173, n);
  }

  lemma Row10(t: nat)
    requires 40 <= t < 44
    ensures Next(t) && 2 <= Prime(t) < 410 && (t > 0 ==> Prime(t - 1) < Prime(t))
  {
    hide Sieved;
    forall n | 174 <= n < 194 ensures Sieved(n) <==> n in [179, 181, 191, 193] { Range10(n); }
  }

  lemma Range10(n: nat)
    requires 174 <= n < 194
    ensures Sieved(n) <==> n in [179, 181, 191, 193]
  {
    assert Only(184, 194, 179, 181, 191, 193);
    assert Only(174, 194, 179, 181, 191, 193);
    OnlyAt(174, 194, 179, 181, 191, 193, n);
  }

  lemma Row11(t: nat)
    requires 44 <= t < 48
    ensures Next(t) && 2 <= Prime(t) < 410 && (t > 0 ==> Prime(t - 1) < Prime(t))
  {
    hide Sieved;
    forall n | 194 <= n < 224 ensures Sieved(n) <==> n in [197, 199, 211, 223] { Range11(n); }
  }

  lemma Range11(n: nat)
    requires 194 <= n < 224
    ensures Sieved(n) <==> n in [197, 199, 211, 223]
  {
    assert Only(214, 224, 197, 199, 211, 223);
    assert Only(204, 224, 197, 199, 211, 223);
    assert Only(194, 224, 197, 199, 211, 223);
    OnlyAt(194, 224, 197, 199, 211, 223, n);
  }

  lemma Row12(t: nat)
    requires 48 <= t < 52
    ensures Next(t) && 2 <= Prime(t) < 410 && (t > 0 ==> Prime(t - 1) < Prime(t))
  {
    hide Sieved;
    forall n | 224 <= n < 240 ensures Sieved(n) <==> n in [227, 229, 233, 239] { Range12(n); }
  }

  lemma Range12(n: nat)
    requires 224 <= n < 240
    ensures Sieved(n) <==> n in [227, 229, 233, 239]
  {
    assert Only(230, 240, 227, 229, 233, 239);
    assert Only(224, 240, 227, 229, 233, 239);
    OnlyAt(224, 240, 227, 229, 233, 239, n);
  }

  lemma Row13(t: nat)
    requires 52 <= t < 56
    ensures Next(t) && 2 <= Prime(t) < 410 && (t > 0 ==> Prime(t - 1) < Prime(t))
  {
    hide Sieved;
    forall n | 240 <= n < 264 ensures Sieved(n) <==> n in [241, 251, 257, 263] { Range13(n); }
  }

  lemma Range13(n: nat)
    requires 240 <= n < 264
    ensures Sieved(n) <==> n in [241, 251, 257, 263]
  {
    assert Only(254, 264, 241, 251, 257, 263);
    assert Only(244, 264, 241, 251, 257, 263);
    assert Only(240, 264, 241, 251, 257, 263);
    OnlyAt(240, 264, 241, 251, 257, 263, n);
  }

  lemma Row14(t: nat)
    requires 56 <= t < 60
    ensures Next(t) && 2 <= Prime(t) < 410 && (t > 0 ==> Prime(t - 1) < Prime(t))
  {
    hide Sieved;
    forall n | 264 <= n < 282 ensures Sieved(n) <==> n in [269, 271, 277, 281] { Range14(n); }
  }

  lemma Range14(n: nat)
    requires 264 <= n < 282
    ensures Sieved(n) <==> n in [269, 271, 277, 281]
  {
    assert Only(272, 282, 269, 271, 277, 281);
    assert Only(264, 282, 269, 271, 277, 281);
    OnlyAt(264, 282, 269, 271, 277, 281, n);
  }

  lemma Row15(t: nat)
    requires 60 <= t < 64
    ensures Next(t) && 2 <= Prime(t) < 410 && (t > 0 ==> Prime(t - 1) < Prime(t))
  {
    hide Sieved;
    forall n | 282 <= n < 312 ensures Sieved(n) <==> n in [283, 293, 307, 311] { Range15(n); }
  }

  lemma Range15(n: nat)
    requires 282 <= n < 312
    ensures Sieved(n) <==> n in [283, 293, 307, 311]
  {
    assert Only(302, 312, 283, 293, 307, 311);
    assert Only(292, 312, 283, 293, 307, 311);
    assert Only(282, 312, 283, 293, 307, 311);
    OnlyAt(282, 312, 283, 293, 307, 311, n);
  }

  lemma Row16(t: nat)
    requires 64 <= t < 68
    ensures Next(t) && 2 <= Prime(t) < 410 && (t > 0 ==> Prime(t - 1) < Prime(t))
  {
    hide Sieved;
    forall n | 312 <= n < 338 ensures Sieved(n) <==> n in [313, 317, 331, 337] { Range16(n); }
  }

  lemma Range16(n: nat)
    requires 312 <= n < 338
    ensures Sieved(n) <==> n in [313, 317, 331, 337]
  {
    assert Only(328, 338, 313, 317, 331, 337);
    assert Only(318, 338, 313, 317, 331, 337);
    assert Only(312, 338, 313, 317, 331, 337);
    OnlyAt(312, 338, 313, 317, 331, 337, n);
  }

  lemma Row17(t: nat)
    requires 68 <= t < 72
    ensures Next(t) && 2 <= Prime(t) < 410 && (t > 0 ==> Prime(t - 1) < Prime(t))
  {
    hide Sieved;
    forall n | 338 <= n < 360 ensures Sieved(n) <==> n in [347, 349, 353, 359] { Range17(n); }
  }

  lemma Range17(n: nat)
    requires 338 <= n < 360
    ensures Sieved(n) <==> n in [347, 349, 353, 359]
  {
    assert Only(350, 360, 347, 349, 353, 359);
    assert Only(340, 360, 347, 349, 353, 359);
    assert Only(338, 360, 347, 349, 353, 359);
    OnlyAt(338, 360, 347, 349, 353, 359, n);
  }

  lemma Row18(t: nat)
    requires 72 <= t < 76
    ensures Next(t) && 2 <= Prime(t) < 410 && (t > 0 ==> Prime(t - 1) < Prime(t))
  {
    hide Sieved;
    forall n | 360 <= n < 384 ensures Sieved(n) <==> n in [367, 373, 379, 383] { Range18(n); }
  }

  lemma Range18(n: nat)
    requires 360 <= n < 384
    ensures Sieved(n) <==> n in [367, 373, 379, 383]
  {
    assert Only(374, 384, 367, 373, 379, 383);
    assert Only(364, 384, 367, 373, 379, 383);
    assert Only(360, 384, 367, 373, 379, 383);
    OnlyAt(360, 384, 367, 373, 379, 383, n);
  }

  lemma Row19(t: nat)
    requires 76 <= t < 80
    ensures Next(t) && 2 <= Prime(t) < 410 && (t > 0 ==> Prime(t - 1) < Prime(t))
  {
    hide Sieved;
    forall n | 384 <= n < 410 ensures Sieved(n) <==> n in [389, 397, 401, 409] { Range19(n); }
  }

  lemma Range19(n: nat)
    requires 384 <= n < 410
    ensures Sieved(n) <==> n in [389, 397, 401, 409]
  {
    assert Only(400, 410, 389, 397, 401, 409);
    assert Only(390, 410, 389, 397, 401, 409);
    assert Only(384, 410, 389, 397, 401, 409);
    OnlyAt(384, 410, 389, 397, 401, 409, n);
  }
}
