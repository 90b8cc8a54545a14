/** The tables of FIPS 180-4 are the first bits of roots of the first primes (sections 4.2.2,
    4.2.3, 5.3.3 and 5.3.5). */
module HashTables {
  import opened Primes
  import opened HashBytes
  import Sha256
  import Sha512

  const TWO32: nat := 0x1_0000_0000

  function Square(n: nat): nat { n * n }
  function Cube(n: nat): nat { n * n * n }

  // With q the whole part, n / scale is the fractional part of the root, cut off.
  predicate SquareBetween(p: nat, q: nat, n: nat, scale: nat)
  {
    Square(q * scale + n) <= p * Square(scale) < Square(q * scale + n + 1)
  }

  predicate CubeBetween(p: nat, q: nat, n: nat, scale: nat)
  {
    Cube(q * scale + n) <= p * Cube(scale) < Cube(q * scale + n + 1)
  }

  // The first bits of the fractional part of the square root or the cube root of p.
  ghost predicate SquareRootBits(p: nat, n: nat, scale: nat)
  {
    n < scale && exists q: nat :: SquareBetween(p, q, n, scale)
  }

  ghost predicate CubeRootBits(p: nat, n: nat, scale: nat)
  {
    n < scale && exists q: nat :: CubeBetween(p, q, n, scale)
  }

  // Section 4.2.2: the round constants of SHA-256.
  lemma Rounds256(t: nat)
    requires t < 64
    ensures CubeRootBits(Prime(t), Sha256.K256(t) as nat, TWO32)
  {
    match t / 4
    case 0 => Rounds256Row0(t);
    case 1 => Rounds256Row1(t);
    case 2 => Rounds256Row2(t);
    case 3 => Rounds256Row3(t);
    case 4 => Rounds256Row4(t);
    case 5 => Rounds256Row5(t);
    case 6 => Rounds256Row6(t);
    case 7 => Rounds256Row7(t);
    case 8 => Rounds256Row8(t);
    case 9 => Rounds256Row9(t);
    case 10 => Rounds256Row10(t);
    case 11 => Rounds256Row11(t);
    case 12 => Rounds256Row12(t);
    case 13 => Rounds256Row13(t);
    case 14 => Rounds256Row14(t);
    case _ => Rounds256Row15(t);
  }

  lemma Rounds256Row0(t: nat)
    requires 0 <= t < 4
    ensures CubeRootBits(Prime(t), Sha256.K256(t) as nat, TWO32)
  {
    match t
    case 0 => Root256(0, 1, 0x428a2f98);
    case 1 => Root256(1, 1, 0x71374491);
    case 2 => Root256(2, 1, 0xb5c0fbcf);
    case _ => Root256(3, 1, 0xe9b5dba5);
  }

  lemma Rounds256Row1(t: nat)
    requires 4 <= t < 8
    ensures CubeRootBits(Prime(t), Sha256.K256(t) as nat, TWO32)
  {
    match t
    case 4 => Root256(4, 2, 0x3956c25b);
    case 5 => Root256(5, 2, 0x59f111f1);
    case 6 => Root256(6, 2, 0x923f82a4);
    case _ => Root256(7, 2, 0xab1c5ed5);
  }

  lemma Rounds256Row2(t: nat)
    requires 8 <= t < 12
    ensures CubeRootBits(Prime(t), Sha256.K256(t) as nat, TWO32)
  {
    match t
    case 8 => Root256(8, 2, 0xd807aa98);
    case 9 => Root256(9, 3, 0x12835b01);
    case 10 => Root256(10, 3, 0x243185be);
    case _ => Root256(11, 3, 0x550c7dc3);
  }

  lemma Rounds256Row3(t: nat)
    requires 12 <= t < 16
    ensures CubeRootBits(Prime(t), Sha256.K256(t) as nat, TWO32)
  {
    match t
    case 12 => Root256(12, 3, 0x72be5d74);
    case 13 => Root256(13, 3, 0x80deb1fe);
    case 14 => Root256(14, 3, 0x9bdc06a7);
    case _ => Root256(15, 3, 0xc19bf174);
  }

  lemma Rounds256Row4(t: nat)
    requires 16 <= t < 20
    ensures CubeRootBits(Prime(t), Sha256.K256(t) as nat, TWO32)
  {
    match t
    case 16 => Root256(16, 3, 0xe49b69c1);
    case 17 => Root256(17, 3, 0xefbe4786);
    case 18 => Root256(18, 4, 0x0fc19dc6);
    case _ => Root256(19, 4, 0x240ca1cc);
  }

  lemma Rounds256Row5(t: nat)
    requires 20 <= t < 24
    ensures CubeRootBits(Prime(t), Sha256.K256(t) as nat, TWO32)
  {
    match t
    case 20 => Root256(20, 4, 0x2de92c6f);
    case 21 => Root256(21, 4, 0x4a7484aa);
    case 22 => Root256(22, 4, 0x5cb0a9dc);
    case _ => Root256(23, 4, 0x76f988da);
  }

  lemma Rounds256Row6(t: nat)
    requires 24 <= t < 28
    ensures CubeRootBits(Prime(t), Sha256.K256(t) as nat, TWO32)
  {
    match t
    case 24 => Root256(24, 4, 0x983e5152);
    case 25 => Root256(25, 4, 0xa831c66d);
    case 26 => Root256(26, 4, 0xb00327c8);
    case _ => Root256(27, 4, 0xbf597fc7);
  }

  lemma Rounds256Row7(t: nat)
    requires 28 <= t < 32
    ensures CubeRootBits(Prime(t), Sha256.K256(t) as nat, TWO32)
  {
    match t
    case 28 => Root256(28, 4, 0xc6e00bf3);
    case 29 => Root256(29, 4, 0xd5a79147);
    case 30 => Root256(30, 5, 0x06ca6351);
    case _ => Root256(31, 5, 0x14292967);
  }

  lemma Rounds256Row8(t: nat)
    requires 32 <= t < 36
    ensures CubeRootBits(Prime(t), Sha256.K256(t) as nat, TWO32)
  {
    match t
    case 32 => Root256(32, 5, 0x27b70a85);
    case 33 => Root256(33, 5, 0x2e1b2138);
    case 34 => Root256(34, 5, 0x4d2c6dfc);
    case _ => Root256(35, 5, 0x53380d13);
  }

  lemma Rounds256Row9(t: nat)
    requires 36 <= t < 40
    ensures CubeRootBits(Prime(t), Sha256.K256(t) as nat, TWO32)
  {
    match t
    case 36 => Root256(36, 5, 0x650a7354);
    case 37 => Root256(37, 5, 0x766a0abb);
    case 38 => Root256(38, 5, 0x81c2c92e);
    case _ => Root256(39, 5, 0x92722c85);
  }

  lemma Rounds256Row10(t: nat)
    requires 40 <= t < 44
    ensures CubeRootBits(Prime(t), Sha256.K256(t) as nat, TWO32)
  {
    match t
    case 40 => Root256(40, 5, 0xa2bfe8a1);
    case 41 => Root256(41, 5, 0xa81a664b);
    case 42 => Root256(42, 5, 0xc24b8b70);
    case _ => Root256(43, 5, 0xc76c51a3);
  }

  lemma Rounds256Row11(t: nat)
    requires 44 <= t < 48
    ensures CubeRootBits(Prime(t), Sha256.K256(t) as nat, TWO32)
  {
    match t
    case 44 => Root256(44, 5, 0xd192e819);
    case 45 => Root256(45, 5, 0xd6990624);
    case 46 => Root256(46, 5, 0xf40e3585);
    case _ => Root256(47, 6, 0x106aa070);
  }

  lemma Rounds256Row12(t: nat)
    requires 48 <= t < 52
    ensures CubeRootBits(Prime(t), Sha256.K256(t) as nat, TWO32)
  {
    match t
    case 48 => Root256(48, 6, 0x19a4c116);
    case 49 => Root256(49, 6, 0x1e376c08);
    case 50 => Root256(50, 6, 0x2748774c);
    case _ => Root256(51, 6, 0x34b0bcb5);
  }

  lemma Rounds256Row13(t: nat)
    requires 52 <= t < 56
    ensures CubeRootBits(Prime(t), Sha256.K256(t) as nat, TWO32)
  {
    match t
    case 52 => Root256(52, 6, 0x391c0cb3);
    case 53 => Root256(53, 6, 0x4ed8aa4a);
    case 54 => Root256(54, 6, 0x5b9cca4f);
    case _ => Root256(55, 6, 0x682e6ff3);
  }

  lemma Rounds256Row14(t: nat)
    requires 56 <= t < 60
    ensures CubeRootBits(Prime(t), Sha256.K256(t) as nat, TWO32)
  {
    match t
    case 56 => Root256(56, 6, 0x748f82ee);
    case 57 => Root256(57, 6, 0x78a5636f);
    case 58 => Root256(58, 6, 0x84c87814);
    case _ => Root256(59, 6, 0x8cc70208);
  }

  lemma Rounds256Row15(t: nat)
    requires 60 <= t < 64
    ensures CubeRootBits(Prime(t), Sha256.K256(t) as nat, TWO32)
  {
    match t
    case 60 => Root256(60, 6, 0x90befffa);
    case 61 => Root256(61, 6, 0xa4506ceb);
    case 62 => Root256(62, 6, 0xbef9a3f7);
    case _ => Root256(63, 6, 0xc67178f2);
  }

  lemma Root256(t: nat, q: nat, n: bv32)
    requires t < 64 && Sha256.K256(t) == n && CubeBetween(Prime(t), q, n as nat, TWO32)
    ensures CubeRootBits(Prime(t), Sha256.K256(t) as nat, TWO32)
  {
  }

  // Section 5.3.3: the initial words of SHA-256.
  lemma Initial256()
    ensures SquareRootBits(Prime(0), Sha256.H0.a as nat, TWO32)
    ensures SquareRootBits(Prime(1), Sha256.H0.b as nat, TWO32)
    ensures SquareRootBits(Prime(2), Sha256.H0.c as nat, TWO32)
    ensures SquareRootBits(Prime(3), Sha256.H0.d as nat, TWO32)
    ensures SquareRootBits(Prime(4), Sha256.H0.e as nat, TWO32)
    ensures SquareRootBits(Prime(5), Sha256.H0.f as nat, TWO32)
    ensures SquareRootBits(Prime(6), Sha256.H0.g as nat, TWO32)
    ensures SquareRootBits(Prime(7), Sha256.H0.h as nat, TWO32)
  {
    Start256(0, Sha256.H0.a, 1, 0x6a09e667);
    Start256(1, Sha256.H0.b, 1, 0xbb67ae85);
    Start256(2, Sha256.H0.c, 2, 0x3c6ef372);
    Start256(3, Sha256.H0.d, 2, 0xa54ff53a);
    Start256(4, Sha256.H0.e, 3, 0x510e527f);
    Start256(5, Sha256.H0.f, 3, 0x9b05688c);
    Start256(6, Sha256.H0.g, 4, 0x1f83d9ab);
    Start256(7, Sha256.H0.h, 4, 0x5be0cd19);
  }

  lemma Start256(t: nat, w: bv32, q: nat, n: bv32)
    requires t < 80 && w == n && SquareBetween(Prime(t), q, n as nat, TWO32)
    ensures SquareRootBits(Prime(t), w as nat, TWO32)
  {
  }

  // Section 4.2.3: the round constants of SHA-512.
  lemma Rounds512(t: nat)
    requires t < 80
    ensures CubeRootBits(Prime(t), Sha512.FIPS_K[t] as nat, TWO64)
  {
    match t / 4
    case 0 => Rounds512Row0(t);
    case 1 => Rounds512Row1(t);
    case 2 => Rounds512Row2(t);
    case 3 => Rounds512Row3(t);
    case 4 => Rounds512Row4(t);
    case 5 => Rounds512Row5(t);
    case 6 => Rounds512Row6(t);
    case 7 => Rounds512Row7(t);
    case 8 => Rounds512Row8(t);
    case 9 => Rounds512Row9(t);
    case 10 => Rounds512Row10(t);
    case 11 => Rounds512Row11(t);
    case 12 => Rounds512Row12(t);
    case 13 => Rounds512Row13(t);
    case 14 => Rounds512Row14(t);
    case 15 => Rounds512Row15(t);
    case 16 => Rounds512Row16(t);
    case 17 => Rounds512Row17(t);
    case 18 => Rounds512Row18(t);
    case _ => Rounds512Row19(t);
  }

  lemma Rounds512Row0(t: nat)
    requires 0 <= t < 4
    ensures CubeRootBits(Prime(t), Sha512.FIPS_K[t] as nat, TWO64)
  {
    match t
    case 0 => Root512(0, 1, 0x428a2f98d728ae22);
    case 1 => Root512(1, 1, 0x7137449123ef65cd);
    case 2 => Root512(2, 1, 0xb5c0fbcfec4d3b2f);
    case _ => Root512(3, 1, 0xe9b5dba58189dbbc);
  }

  lemma Rounds512Row1(t: nat)
    requires 4 <= t < 8
    ensures CubeRootBits(Prime(t), Sha512.FIPS_K[t] as nat, TWO64)
  {
    match t
    case 4 => Root512(4, 2, 0x3956c25bf348b538);
    case 5 => Root512(5, 2, 0x59f111f1b605d019);
    case 6 => Root512(6, 2, 0x923f82a4af194f9b);
    case _ => Root512(7, 2, 0xab1c5ed5da6d8118);
  }

  lemma Rounds512Row2(t: nat)
    requires 8 <= t < 12
    ensures CubeRootBits(Prime(t), Sha512.FIPS_K[t] as nat, TWO64)
  {
    match t
    case 8 => Root512(8, 2, 0xd807aa98a3030242);
    case 9 => Root512(9, 3, 0x12835b0145706fbe);
    case 10 => Root512(10, 3, 0x243185be4ee4b28c);
    case _ => Root512(11, 3, 0x550c7dc3d5ffb4e2);
  }

  lemma Rounds512Row3(t: nat)
    requires 12 <= t < 16
    ensures CubeRootBits(Prime(t), Sha512.FIPS_K[t] as nat, TWO64)
  {
    match t
    case 12 => Root512(12, 3, 0x72be5d74f27b896f);
    case 13 => Root512(13, 3, 0x80deb1fe3b1696b1);
    case 14 => Root512(14, 3, 0x9bdc06a725c71235);
    case _ => Root512(15, 3, 0xc19bf174cf692694);
  }

  lemma Rounds512Row4(t: nat)
    requires 16 <= t < 20
    ensures CubeRootBits(Prime(t), Sha512.FIPS_K[t] as nat, TWO64)
  {
    match t
    case 16 => Root512(16, 3, 0xe49b69c19ef14ad2);
    case 17 => Root512(17, 3, 0xefbe4786384f25e3);
    case 18 => Root512(18, 4, 0x0fc19dc68b8cd5b5);
    case _ => Root512(19, 4, 0x240ca1cc77ac9c65);
  }

  lemma Rounds512Row5(t: nat)
    requires 20 <= t < 24
    ensures CubeRootBits(Prime(t), Sha512.FIPS_K[t] as nat, TWO64)
  {
    match t
    case 20 => Root512(20, 4, 0x2de92c6f592b0275);
    case 21 => Root512(21, 4, 0x4a7484aa6ea6e483);
    case 22 => Root512(22, 4, 0x5cb0a9dcbd41fbd4);
    case _ => Root512(23, 4, 0x76f988da831153b5);
  }

  lemma Rounds512Row6(t: nat)
    requires 24 <= t < 28
    ensures CubeRootBits(Prime(t), Sha512.FIPS_K[t] as nat, TWO64)
  {
    match t
    case 24 => Root512(24, 4, 0x983e5152ee66dfab);
    case 25 => Root512(25, 4, 0xa831c66d2db43210);
    case 26 => Root512(26, 4, 0xb00327c898fb213f);
    case _ => Root512(27, 4, 0xbf597fc7beef0ee4);
  }

  lemma Rounds512Row7(t: nat)
    requires 28 <= t < 32
    ensures CubeRootBits(Prime(t), Sha512.FIPS_K[t] as nat, TWO64)
  {
    match t
    case 28 => Root512(28, 4, 0xc6e00bf33da88fc2);
    case 29 => Root512(29, 4, 0xd5a79147930aa725);
    case 30 => Root512(30, 5, 0x06ca6351e003826f);
    case _ => Root512(31, 5, 0x142929670a0e6e70);
  }

  lemma Rounds512Row8(t: nat)
    requires 32 <= t < 36
    ensures CubeRootBits(Prime(t), Sha512.FIPS_K[t] as nat, TWO64)
  {
    match t
    case 32 => Root512(32, 5, 0x27b70a8546d22ffc);
    case 33 => Root512(33, 5, 0x2e1b21385c26c926);
    case 34 => Root512(34, 5, 0x4d2c6dfc5ac42aed);
    case _ => Root512(35, 5, 0x53380d139d95b3df);
  }

  lemma Rounds512Row9(t: nat)
    requires 36 <= t < 40
    ensures CubeRootBits(Prime(t), Sha512.FIPS_K[t] as nat, TWO64)
  {
    match t
    case 36 => Root512(36, 5, 0x650a73548baf63de);
    case 37 => Root512(37, 5, 0x766a0abb3c77b2a8);
    case 38 => Root512(38, 5, 0x81c2c92e47edaee6);
    case _ => Root512(39, 5, 0x92722c851482353b);
  }

  lemma Rounds512Row10(t: nat)
    requires 40 <= t < 44
    ensures CubeRootBits(Prime(t), Sha512.FIPS_K[t] as nat, TWO64)
  {
    match t
    case 40 => Root512(40, 5, 0xa2bfe8a14cf10364);
    case 41 => Root512(41, 5, 0xa81a664bbc423001);
    case 42 => Root512(42, 5, 0xc24b8b70d0f89791);
    case _ => Root512(43, 5, 0xc76c51a30654be30);
  }

  lemma Rounds512Row11(t: nat)
    requires 44 <= t < 48
    ensures CubeRootBits(Prime(t), Sha512.FIPS_K[t] as nat, TWO64)
  {
    match t
    case 44 => Root512(44, 5, 0xd192e819d6ef5218);
    case 45 => Root512(45, 5, 0xd69906245565a910);
    case 46 => Root512(46, 5, 0xf40e35855771202a);
    case _ => Root512(47, 6, 0x106aa07032bbd1b8);
  }

  lemma Rounds512Row12(t: nat)
    requires 48 <= t < 52
    ensures CubeRootBits(Prime(t), Sha512.FIPS_K[t] as nat, TWO64)
  {
    match t
    case 48 => Root512(48, 6, 0x19a4c116b8d2d0c8);
    case 49 => Root512(49, 6, 0x1e376c085141ab53);
    case 50 => Root512(50, 6, 0x2748774cdf8eeb99);
    case _ => Root512(51, 6, 0x34b0bcb5e19b48a8);
  }

  lemma Rounds512Row13(t: nat)
    requires 52 <= t < 56
    ensures CubeRootBits(Prime(t), Sha512.FIPS_K[t] as nat, TWO64)
  {
    match t
    case 52 => Root512(52, 6, 0x391c0cb3c5c95a63);
    case 53 => Root512(53, 6, 0x4ed8aa4ae3418acb);
    case 54 => Root512(54, 6, 0x5b9cca4f7763e373);
    case _ => Root512(55, 6, 0x682e6ff3d6b2b8a3);
  }

  lemma Rounds512Row14(t: nat)
    requires 56 <= t < 60
    ensures CubeRootBits(Prime(t), Sha512.FIPS_K[t] as nat, TWO64)
  {
    match t
    case 56 => Root512(56, 6, 0x748f82ee5defb2fc);
    case 57 => Root512(57, 6, 0x78a5636f43172f60);
    case 58 => Root512(58, 6, 0x84c87814a1f0ab72);
    case _ => Root512(59, 6, 0x8cc702081a6439ec);
  }

  lemma Rounds512Row15(t: nat)
    requires 60 <= t < 64
    ensures CubeRootBits(Prime(t), Sha512.FIPS_K[t] as nat, TWO64)
  {
    match t
    case 60 => Root512(60, 6, 0x90befffa23631e28);
    case 61 => Root512(61, 6, 0xa4506cebde82bde9);
    case 62 => Root512(62, 6, 0xbef9a3f7b2c67915);
    case _ => Root512(63, 6, 0xc67178f2e372532b);
  }

  lemma Rounds512Row16(t: nat)
    requires 64 <= t < 68
    ensures CubeRootBits(Prime(t), Sha512.FIPS_K[t] as nat, TWO64)
  {
    match t
    case 64 => Root512(64, 6, 0xca273eceea26619c);
    case 65 => Root512(65, 6, 0xd186b8c721c0c207);
    case 66 => Root512(66, 6, 0xeada7dd6cde0eb1e);
    case _ => Root512(67, 6, 0xf57d4f7fee6ed178);
  }

  lemma Rounds512Row17(t: nat)
    requires 68 <= t < 72
    ensures CubeRootBits(Prime(t), Sha512.FIPS_K[t] as nat, TWO64)
  {
    match t
    case 68 => Root512(68, 7, 0x06f067aa72176fba);
    case 69 => Root512(69, 7, 0x0a637dc5a2c898a6);
    case 70 => Root512(70, 7, 0x113f9804bef90dae);
    case _ => Root512(71, 7, 0x1b710b35131c471b);
  }

  lemma Rounds512Row18(t: nat)
    requires 72 <= t < 76
    ensures CubeRootBits(Prime(t), Sha512.FIPS_K[t] as nat, TWO64)
  {
    match t
    case 72 => Root512(72, 7, 0x28db77f523047d84);
    case 73 => Root512(73, 7, 0x32caab7b40c72493);
    case 74 => Root512(74, 7, 0x3c9ebe0a15c9bebc);
    case _ => Root512(75, 7, 0x431d67c49c100d4c);
  }

  lemma Rounds512Row19(t: nat)
    requires 76 <= t < 80
    ensures CubeRootBits(Prime(t), Sha512.FIPS_K[t] as nat, TWO64)
  {
    match t
    case 76 => Root512(76, 7, 0x4cc5d4becb3e42b6);
    case 77 => Root512(77, 7, 0x597f299cfc657e2a);
    case 78 => Root512(78, 7, 0x5fcb6fab3ad6faec);
    case _ => Root512(79, 7, 0x6c44198c4a475817);
  }

  lemma Root512(t: nat, q: nat, n: bv64)
    requires t < 80 && Sha512.FIPS_K[t] == n && CubeBetween(Prime(t), q, n as nat, TWO64)
    ensures CubeRootBits(Prime(t), Sha512.FIPS_K[t] as nat, TWO64)
  {
  }

  // Section 5.3.5: the initial words of SHA-512.
  lemma Initial512()
    ensures SquareRootBits(Prime(0), Sha512.Fips().iv.a as nat, TWO64)
    ensures SquareRootBits(Prime(1), Sha512.Fips().iv.b as nat, TWO64)
    ensures SquareRootBits(Prime(2), Sha512.Fips().iv.c as nat, TWO64)
    ensures SquareRootBits(Prime(3), Sha512.Fips().iv.d as nat, TWO64)
    ensures SquareRootBits(Prime(4), Sha512.Fips().iv.e as nat, TWO64)
    ensures SquareRootBits(Prime(5), Sha512.Fips().iv.f as nat, TWO64)
    ensures SquareRootBits(Prime(6), Sha512.Fips().iv.g as nat, TWO64)
    ensures SquareRootBits(Prime(7), Sha512.Fips().iv.h as nat, TWO64)
  {
    Start512(0, Sha512.Fips().iv.a, 1, 0x6a09e667f3bcc908);
    Start512(1, Sha512.Fips().iv.b, 1, 0xbb67ae8584caa73b);
    Start512(2, Sha512.Fips().iv.c, 2, 0x3c6ef372fe94f82b);
    Start512(3, Sha512.Fips().iv.d, 2, 0xa54ff53a5f1d36f1);
    Start512(4, Sha512.Fips().iv.e, 3, 0x510e527fade682d1);
    Start512(5, Sha512.Fips().iv.f, 3, 0x9b05688c2b3e6c1f);
    Start512(6, Sha512.Fips().iv.g, 4, 0x1f83d9abfb41bd6b);
    Start512(7, Sha512.Fips().iv.h, 4, 0x5be0cd19137e2179);
  }

  lemma Start512(t: nat, w: bv64, q: nat, n: bv64)
    requires t < 80 && w == n && SquareBetween(Prime(t), q, n as nat, TWO64)
    ensures SquareRootBits(Prime(t), w as nat, TWO64)
  {
  }
}
