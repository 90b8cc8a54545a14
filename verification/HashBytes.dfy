/** A number below 256 survives the trip through a byte. */
module ByteBits {

  lemma ByteValue(v: int)
    requires 0 <= v < 256
    ensures (v as bv8) as int == v
  {
  }
}

/** Byte strings shared by the two hash engines. */
module HashBytes {
  import opened ByteBits

  function Zeros(n: nat): (z: seq<bv8>)
    ensures |z| == n && forall i | 0 <= i < n :: z[i] == 0
  {
    seq(n, _ => 0)
  }

  // The number a byte string denotes, most significant byte first.
  function Value(b: seq<bv8>): nat
  {
    if b == [] then 0 else Value(b[..|b| - 1]) * 256 + b[|b| - 1] as nat
  }

  function Pow256(k: nat): (p: nat)
    ensures p > 0
  {
    if k == 0 then 1 else 256 * Pow256(k - 1)
  }

  // The low k bytes of n, most significant first.
  function BigEndian(n: nat, k: nat): (b: seq<bv8>)
    ensures |b| == k
  {
    if k == 0 then [] else BigEndian(n / 256, k - 1) + [(n % 256) as bv8]
  }

  // A number of one byte stands behind zeros.
  lemma {:induction false} ZeroBytes(k: nat)
    ensures BigEndian(0, k) == Zeros(k)
  {
    if k > 0 { ZeroBytes(k - 1); }
  }

  lemma {:induction false} BigEndianValue(n: nat, k: nat)
    requires n < Pow256(k)
    ensures Value(BigEndian(n, k)) == n
  {
    if k > 0 {
      BigEndianValue(n / 256, k - 1);
      ByteValue(n % 256);
      var b := BigEndian(n, k);
      assert b[..k - 1] == BigEndian(n / 256, k - 1);
    }
  }

  lemma DivUnique(n: int, d: int, q: int, r: int)
    requires n == d * q + r && 0 <= r < d
    ensures n / d == q
  {
    if n / d > q { MulMono(d, q + 1, n / d); }
    if n / d < q { MulMono(d, n / d + 1, q); }
  }

  lemma MulMono(d: nat, a: int, b: int)
    requires a <= b
    ensures d * a <= d * b
  {
    assert d * (b - a) >= 0;
  }

  lemma DivSteps(n: nat, k: nat)
    ensures n / 256 / Pow256(k) == n / Pow256(k + 1)
    ensures n % Pow256(k + 1) / 256 == n / 256 % Pow256(k) && n % Pow256(k + 1) % 256 == n % 256
  {
    var p := Pow256(k);
    var x := n / 256;
    var y := x / p;
    var r := 256 * (x % p) + n % 256;
    assert x == p * y + x % p;
    assert n == 256 * p * y + r;
    DivUnique(n, 256 * p, y, r);
    assert n % (256 * p) == r;
  }

  // Byte i from the top is n shifted right by 8 * (k - 1 - i) bits.
  lemma {:induction false} BigEndianAt(n: nat, k: nat, i: nat)
    requires i < k
    ensures BigEndian(n, k)[i] == (n / Pow256(k - 1 - i) % 256) as bv8
  {
    if i < k - 1 {
      BigEndianAt(n / 256, k - 1, i);
      DivSteps(n, k - 2 - i);
    }
  }

  // n shifted right by k bytes.
  function Shift(n: nat, k: nat): nat
    decreases k
  {
    if k == 0 then n else Shift(n / 256, k - 1)
  }

  // A number's bytes are those of its high part, then those of its low part.
  lemma {:induction false} BigEndianSplit(n: nat, a: nat, b: nat)
    ensures BigEndian(n, a + b) == BigEndian(Shift(n, b), a) + BigEndian(n, b)
    decreases b
  {
    if b > 0 {
      BigEndianSplit(n / 256, a, b - 1);
    }
  }

  lemma {:induction false} ShiftDivides(n: nat, k: nat)
    ensures Shift(n, k) == n / Pow256(k)
    decreases k
  {
    if k > 0 {
      ShiftDivides(n / 256, k - 1);
      DivSteps(n, k - 1);
    }
  }

  lemma {:induction false} BigEndianMod(n: nat, k: nat)
    ensures BigEndian(n % Pow256(k), k) == BigEndian(n, k)
    decreases k
  {
    if k > 0 {
      DivSteps(n, k - 1);
      BigEndianMod(n / 256, k - 1);
    }
  }

  const TWO64: nat := 0x1_0000_0000_0000_0000

  function BigEndian64(n: nat): seq<bv8> { BigEndian(n, 8) }

  lemma Pow256Eight()
    ensures Pow256(8) == TWO64
  {
    assert Pow256(2) == 0x1_0000 && Pow256(4) == 0x1_0000_0000 && Pow256(6) == 0x1_0000_0000_0000;
  }

  // Only the low 64 bits of a number reach its eight bytes.
  lemma BigEndian64Wraps(n: nat)
    ensures BigEndian64(n % TWO64) == BigEndian64(n)
    ensures n < TWO64 ==> Value(BigEndian64(n)) == n
  {
    Pow256Eight();
    BigEndianMod(n, 8);
    if n < TWO64 { BigEndianValue(n, 8); }
  }

  function BigEndian128(n: nat): seq<bv8> { BigEndian(n, 16) }

  lemma BigEndian128Words(n: nat)
    ensures BigEndian128(n) == BigEndian64(n / TWO64) + BigEndian64(n % TWO64)
  {
    Pow256Eight();
    BigEndianSplit(n, 8, 8);
    ShiftDivides(n, 8);
    BigEndianMod(n, 8);
  }

  lemma BigEndian128Wraps(n: nat)
    ensures n < TWO64 * TWO64 ==> Value(BigEndian128(n)) == n
  {
    if n < TWO64 * TWO64 {
      Pow256Eight();
      assert Pow256(16) == TWO64 * TWO64 by { PowSum(8, 8); }
      BigEndianValue(n, 16);
    }
  }

  lemma {:induction false} PowSum(a: nat, b: nat)
    ensures Pow256(a + b) == Pow256(a) * Pow256(b)
  {
    if a > 0 {
      PowSum(a - 1, b);
      assert 256 * Pow256(a - 1 + b) == 256 * Pow256(a - 1) * Pow256(b);
    }
  }

  // The length loop of both final functions: a 64-bit word shifted out byte by byte.
  method ShiftOut(n: nat) returns (bytes: seq<bv8>)
    ensures bytes == BigEndian64(n)
  {
    hide BigEndian, Pow256;
    var out := new bv8[8];
    for i := 0 to 8
      invariant out[..i] == BigEndian64(n)[..i]
    {
      out[i] := (n / Pow256(7 - i) % 256) as bv8;
      BigEndianAt(n, 8, i);
    }
    return out[..];
  }

  function Flatten(chunks: seq<seq<bv8>>): seq<bv8>
  {
    if chunks == [] then [] else Flatten(chunks[..|chunks| - 1]) + chunks[|chunks| - 1]
  }

  lemma FlattenNext(chunks: seq<seq<bv8>>, i: nat)
    ensures Flatten(chunks[..0]) == []
    ensures i < |chunks| ==> Flatten(chunks[..i + 1]) == Flatten(chunks[..i]) + chunks[i]
  {
    if i < |chunks| { assert chunks[..i + 1][..i] == chunks[..i]; }
  }
}
