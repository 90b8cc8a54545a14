/** SHA-512: the hash of FIPS 180-4 as a function of the tables it uses and the whole message,
    the buffered init/update/final engine of init/kratos-crypt.c proved to compute it with the
    tables of the source, and what those tables, which are not the standard's, make of it. */
module Sha512 {
  import opened HashBytes

  const BLOCK: nat := 128

  // The eight working variables, or the eight words of a hash value.
  datatype Words = Words(a: bv64, b: bv64, c: bv64, d: bv64, e: bv64, f: bv64, g: bv64, h: bv64)

  /* ---- FIPS 180-4, sections 3.2, 4.1.3, 4.2.3, 5.1.2, 5.3.5 and 6.4.2 ---- */

  // The 80 round constants, and with them the eight words the hash value starts from.
  type Table = k: seq<bv64> | |k| == 80 witness seq(80, _ => 0)
  datatype Tables = Tables(iv: Words, k: Table)

  // Sections 4.2.3 and 5.3.5.
  const FIPS_K: seq<bv64> :=
    ([0x428a2f98d728ae22, 0x7137449123ef65cd, 0xb5c0fbcfec4d3b2f, 0xe9b5dba58189dbbc] +
     [0x3956c25bf348b538, 0x59f111f1b605d019, 0x923f82a4af194f9b, 0xab1c5ed5da6d8118] +
     [0xd807aa98a3030242, 0x12835b0145706fbe, 0x243185be4ee4b28c, 0x550c7dc3d5ffb4e2] +
     [0x72be5d74f27b896f, 0x80deb1fe3b1696b1, 0x9bdc06a725c71235, 0xc19bf174cf692694] +
     [0xe49b69c19ef14ad2, 0xefbe4786384f25e3, 0x0fc19dc68b8cd5b5, 0x240ca1cc77ac9c65]) +
    ([0x2de92c6f592b0275, 0x4a7484aa6ea6e483, 0x5cb0a9dcbd41fbd4, 0x76f988da831153b5] +
     [0x983e5152ee66dfab, 0xa831c66d2db43210, 0xb00327c898fb213f, 0xbf597fc7beef0ee4] +
     [0xc6e00bf33da88fc2, 0xd5a79147930aa725, 0x06ca6351e003826f, 0x142929670a0e6e70] +
     [0x27b70a8546d22ffc, 0x2e1b21385c26c926, 0x4d2c6dfc5ac42aed, 0x53380d139d95b3df] +
     [0x650a73548baf63de, 0x766a0abb3c77b2a8, 0x81c2c92e47edaee6, 0x92722c851482353b]) +
    ([0xa2bfe8a14cf10364, 0xa81a664bbc423001, 0xc24b8b70d0f89791, 0xc76c51a30654be30] +
     [0xd192e819d6ef5218, 0xd69906245565a910, 0xf40e35855771202a, 0x106aa07032bbd1b8] +
     [0x19a4c116b8d2d0c8, 0x1e376c085141ab53, 0x2748774cdf8eeb99, 0x34b0bcb5e19b48a8] +
     [0x391c0cb3c5c95a63, 0x4ed8aa4ae3418acb, 0x5b9cca4f7763e373, 0x682e6ff3d6b2b8a3] +
     [0x748f82ee5defb2fc, 0x78a5636f43172f60, 0x84c87814a1f0ab72, 0x8cc702081a6439ec]) +
    ([0x90befffa23631e28, 0xa4506cebde82bde9, 0xbef9a3f7b2c67915, 0xc67178f2e372532b] +
     [0xca273eceea26619c, 0xd186b8c721c0c207, 0xeada7dd6cde0eb1e, 0xf57d4f7fee6ed178] +
     [0x06f067aa72176fba, 0x0a637dc5a2c898a6, 0x113f9804bef90dae, 0x1b710b35131c471b] +
     [0x28db77f523047d84, 0x32caab7b40c72493, 0x3c9ebe0a15c9bebc, 0x431d67c49c100d4c] +
     [0x4cc5d4becb3e42b6, 0x597f299cfc657e2a, 0x5fcb6fab3ad6faec, 0x6c44198c4a475817])

  function Fips(): Tables
  {
    Tables(Words(
      0x6a09e667f3bcc908, 0xbb67ae8584caa73b, 0x3c6ef372fe94f82b, 0xa54ff53a5f1d36f1,
      0x510e527fade682d1, 0x9b05688c2b3e6c1f, 0x1f83d9abfb41bd6b, 0x5be0cd19137e2179), FIPS_K)
  }

  function Ch(x: bv64, y: bv64, z: bv64): bv64 { (x & y) ^ (!x & z) }
  function Maj(x: bv64, y: bv64, z: bv64): bv64 { (x & y) ^ (x & z) ^ (y & z) }
  function Rotr(x: bv64, n: bv8): bv64
    requires 0 < n < 64
  {
    (x >> n) | (x << (64 - n))
  }
  function BigSigma0(x: bv64): bv64 { Rotr(x, 28) ^ Rotr(x, 34) ^ Rotr(x, 39) }
  function BigSigma1(x: bv64): bv64 { Rotr(x, 14) ^ Rotr(x, 18) ^ Rotr(x, 41) }
  function SmallSigma0(x: bv64): bv64 { Rotr(x, 1) ^ Rotr(x, 8) ^ (x >> 7) }
  function SmallSigma1(x: bv64): bv64 { Rotr(x, 19) ^ Rotr(x, 61) ^ (x >> 6) }

  // Addition modulo 2^64.
  function Plus(x: bv64, y: bv64): bv64 { x + y }

  // The big-endian word at byte i.
  function WordAt(data: seq<bv8>, i: nat): bv64
    requires i + 8 <= |data|
  {
    ((data[i] as bv64) << 56) | ((data[i + 1] as bv64) << 48) | ((data[i + 2] as bv64) << 40) |
    ((data[i + 3] as bv64) << 32) | ((data[i + 4] as bv64) << 24) | ((data[i + 5] as bv64) << 16) |
    ((data[i + 6] as bv64) << 8) | (data[i + 7] as bv64)
  }

  // The message schedule.
  function W(block: seq<bv8>, t: nat): bv64
    requires |block| == BLOCK && t < 80
  {
    if t < 16 then WordAt(block, t * 8)
    else
      Plus(Plus(Plus(SmallSigma1(W(block, t - 2)), W(block, t - 7)), SmallSigma0(W(block, t - 15))), W(block, t - 16))
  }

  function Step(v: Words, k: bv64, w: bv64): Words
  {
    var t1 := Plus(Plus(Plus(Plus(v.h, BigSigma1(v.e)), Ch(v.e, v.f, v.g)), k), w);
    var t2 := Plus(BigSigma0(v.a), Maj(v.a, v.b, v.c));
    Words(Plus(t1, t2), v.a, v.b, v.c, Plus(v.d, t1), v.e, v.f, v.g)
  }

  // The working variables after t rounds with the constants k.
  function Rounds(k: Table, h: Words, block: seq<bv8>, t: nat): Words
    requires |block| == BLOCK && t <= 80
  {
    if t == 0 then h else Step(Rounds(k, h, block, t - 1), k[t - 1], W(block, t - 1))
  }

  function Add(u: Words, v: Words): Words
  {
    Words(Plus(u.a, v.a), Plus(u.b, v.b), Plus(u.c, v.c), Plus(u.d, v.d),
          Plus(u.e, v.e), Plus(u.f, v.f), Plus(u.g, v.g), Plus(u.h, v.h))
  }

  function Compress(k: Table, h: Words, block: seq<bv8>): Words
    requires |block| == BLOCK
  {
    Add(h, Rounds(k, h, block, 80))
  }

  // The hash value after the first i blocks of m.
  function Chain(T: Tables, m: seq<bv8>, i: nat): Words
    requires i * BLOCK <= |m|
  {
    if i == 0 then T.iv else Compress(T.k, Chain(T, m, i - 1), m[(i - 1) * BLOCK..i * BLOCK])
  }

  // FIPS 180-4 defines the hash of messages of fewer than 2^128 bits; on longer ones the
  // functions below keep the low 128 bits of the length, as the engine does.
  const MAX_BYTES: nat := TWO64 * TWO64 / 8

  // A one bit, the fewest zero bits that leave sixteen bytes in the last block, and the bit length.
  function ZeroCount(n: nat): nat { (239 - n % BLOCK) % BLOCK }

  function Pad(m: seq<bv8>): seq<bv8>
  {
    m + [0x80] + Zeros(ZeroCount(|m|)) + BigEndian128(8 * |m|)
  }

  function WordBytes(w: bv64): (b: seq<bv8>)
    ensures |b| == 8
  {
    [((w >> 56) & 0xFF) as bv8, ((w >> 48) & 0xFF) as bv8, ((w >> 40) & 0xFF) as bv8, ((w >> 32) & 0xFF) as bv8,
     ((w >> 24) & 0xFF) as bv8, ((w >> 16) & 0xFF) as bv8, ((w >> 8) & 0xFF) as bv8, (w & 0xFF) as bv8]
  }

  function DigestBytes(ws: seq<bv64>): (d: seq<bv8>)
    ensures |d| == 8 * |ws|
  {
    if ws == [] then [] else DigestBytes(ws[..|ws| - 1]) + WordBytes(ws[|ws| - 1])
  }

  function ToSeq(v: Words): seq<bv64> { [v.a, v.b, v.c, v.d, v.e, v.f, v.g, v.h] }

  // The digest with given tables: SHA-512 with those of the standard, and what the source
  // computes with its own.
  function Hash(T: Tables, m: seq<bv8>): (d: seq<bv8>)
    ensures |d| == 64
  {
    PadFillsBlocks(m);
    var p := Pad(m);
    DigestBytes(ToSeq(Chain(T, p, |p| / BLOCK)))
  }

  // Section 5.1.2: the padded length is a whole number of blocks, the zeros are the fewest
  // possible, and the message and its bit length can be read back from the padded message.
  lemma PadFillsBlocks(m: seq<bv8>)
    ensures |Pad(m)| % BLOCK == 0 && m + [0x80] <= Pad(m)
    ensures |m| < MAX_BYTES ==> Value(Pad(m)[|Pad(m)| - 16..]) == 8 * |m|
  {
    hide BigEndian, Value;
    BigEndian128Wraps(8 * |m|);
    ZeroCountFits(|m|, 0);
    assert Pad(m)[|Pad(m)| - 16..] == BigEndian128(8 * |m|);
  }

  lemma ZeroCountFits(n: nat, k: nat)
    ensures (n + 1 + ZeroCount(n) + 16) % BLOCK == 0
    ensures k < ZeroCount(n) ==> (n + 1 + k + 16) % BLOCK != 0
  {
    var q, r := n / BLOCK, n % BLOCK;
    var more := if r <= 111 then 1 else 2;
    assert n + 1 + ZeroCount(n) + 16 == BLOCK * (q + more);
    DivUnique(n + 1 + ZeroCount(n) + 16, BLOCK, q + more, 0);
    if k < ZeroCount(n) { DivUnique(n + 1 + k + 16, BLOCK, q + more - 1, r + 1 + k + 16 - BLOCK * (more - 1)); }
  }

  lemma PadInjective(m: seq<bv8>, n: seq<bv8>)
    requires |m| < MAX_BYTES && |n| < MAX_BYTES && Pad(m) == Pad(n)
    ensures m == n
  {
    PadFillsBlocks(m);
    PadFillsBlocks(n);
    assert m == Pad(m)[..|m|] && n == Pad(n)[..|n|];
  }

  /* ---- The streaming engine ---- */

  // The tables of init/kratos-crypt.c.
  const KRATOS_K: seq<bv64> :=
    ([0x428a2f98d728ae22, 0x7137449123ef65cd, 0xb5c0fbcfec4d3b2f, 0xe9b5dba58189dbbc] +
     [0x3956c25bf348b538, 0x59f111f1b605d019, 0x923f82a4af194f9b, 0xab1c5ed5da6d8118] +
     [0xd807aa98a3030242, 0x12835b0145706fbe, 0x243185be4ee4b28c, 0x550c7dc3d5ffb4e2] +
     [0x72be5d74f27b896f, 0x80deb1fe3b1696b1, 0x9bdc06a725c71235, 0xc19bf174cf692694] +
     [0xe49b69c19ef14ad2, 0xefbe4786384f25e3, 0x0fc19dc68b8cd5b5, 0x240ca1cc77ac9c65]) +
    ([0x2de92c6f592b0275, 0x4a7484aa6ea6e483, 0x5cb0a9dcbd41fbd4, 0x76f988da831153b5] +
     [0x983e5152ee66dfab, 0xa831c66d2db43210, 0xb00327c898fb213f, 0xbf597fc7beef0ee4] +
     [0xc6e00bf33da88fc2, 0xd5a79147930aa725, 0x06ca6351e003826f, 0x142929670a0e6e70] +
     [0x27b70a8546d22ffc, 0x2e1b21385c26c926, 0x4d2c6dfc5ac42aed, 0x53380d139d95b3df] +
     [0x650a73548baf63de, 0x766a0abb3c77b2a8, 0x81c2c92e47edaee6, 0x92722c851482353b]) +
    ([0xa2bfe8a14cf10364, 0xa81a664bbc423001, 0xc24b8b70d0f89791, 0xc76c51a30654be30] +
     [0xd192e819d6ef5218, 0xd69906245565a910, 0xf40e35855771202a, 0x106aa07032bbd1b8] +
     [0x19a4c116b8d2d0c8, 0x1e376c085141ab53, 0x2748774cdf8eeeb9, 0x34b0bcb5e19b48a8] +
     [0x391c0cb3c5c95a63, 0x4ed8aa4ae3418acb, 0x5b9cca4f7763e373, 0x682e6ff3d6b2b8a3] +
     [0x748f82ee5defb2fc, 0x78a5636f43172f60, 0x84c87814a1f0ab72, 0x8cc702081a6439ec]) +
    ([0x90befffa23631e28, 0xa4506cebde82bde9, 0xbef9a3f7b2c67915, 0xc67178f2e372532b] +
     [0xca273eceea26619c, 0xd186b8c721c0c207, 0xeada7dd6cde0eb1e, 0xf57d4f7fee6ed178] +
     [0x06f067aa72176fba, 0x0a637dc5a2c898a6, 0x113f9804bef90dae, 0x1b710b35131c471b] +
     [0x28db77f523047d84, 0x32caab7b40c72493, 0x3c9ebe0a15c9bebc, 0x431d67c49c100d4c] +
     [0x4cc5d4becb3e42b6, 0x597f299cfc657e2a, 0x5fcb6fab3ad6faec, 0x6c44198c4a475817])

  function Kratos(): Tables
  {
    Tables(Words(
      0x6a09e667f3bcc908, 0xbb67ae8584caa73b, 0x3c6ef372fe94f82b, 0xa54ff53a5f1d36f1,
      0x510e527fea6db109, 0x9b05688c2b3e6c1f, 0x1f83d9abfb41bd6b, 0x5be0cd19137e2179), KRATOS_K)
  }

  function FromArray(s: seq<bv64>): Words
    requires |s| == 8
  {
    Words(s[0], s[1], s[2], s[3], s[4], s[5], s[6], s[7])
  }

  // The first loops of sha512_transform: the message schedule of one block.
  method Schedule(data: seq<bv8>) returns (m: array<bv64>)
    requires |data| == BLOCK
    ensures fresh(m) && m.Length == 80 && forall j | 0 <= j < 80 :: m[j] == W(data, j)
  {
    hide Plus, SmallSigma0, SmallSigma1, WordAt;
    m := new bv64[80];
    for i := 0 to 16
      invariant forall j | 0 <= j < i :: m[j] == W(data, j)
    {
      m[i] := WordAt(data, i * 8);
    }
    for i := 16 to 80
      invariant forall j | 0 <= j < i :: m[j] == W(data, j)
    {
      m[i] := Plus(Plus(Plus(SmallSigma1(m[i - 2]), m[i - 7]), SmallSigma0(m[i - 15])), m[i - 16]);
    }
  }

  // The round loop of sha512_transform.
  method RunRounds(start: Words, m: array<bv64>, ghost data: seq<bv8>) returns (v: Words)
    requires |data| == BLOCK && m.Length == 80 && forall j | 0 <= j < 80 :: m[j] == W(data, j)
    ensures v == Rounds(Kratos().k, start, data, 80)
  {
    hide Plus, Kratos, BigSigma0, BigSigma1, Ch, Maj, W;
    var a, b, c, d := start.a, start.b, start.c, start.d;
    var e, f, g, h := start.e, start.f, start.g, start.h;
    for i := 0 to 80
      invariant Words(a, b, c, d, e, f, g, h) == Rounds(Kratos().k, start, data, i)
    {
      var t1 := Plus(Plus(Plus(Plus(h, BigSigma1(e)), Ch(e, f, g)), Kratos().k[i]), m[i]);
      var t2 := Plus(BigSigma0(a), Maj(a, b, c));
      h := g;
      g := f;
      f := e;
      e := Plus(d, t1);
      d := c;
      c := b;
      b := a;
      a := Plus(t1, t2);
    }
    return Words(a, b, c, d, e, f, g, h);
  }

  // sha512_transform
  method Transform(state: array<bv64>, data: seq<bv8>)
    requires state.Length == 8 && |data| == BLOCK
    modifies state
    ensures FromArray(state[..]) == Compress(Kratos().k, FromArray(old(state[..])), data)
  {
    hide Plus, W, Rounds, Kratos;
    var m := Schedule(data);
    var v := RunRounds(FromArray(state[..]), m, data);
    state[0], state[1] := Plus(state[0], v.a), Plus(state[1], v.b);
    state[2], state[3] := Plus(state[2], v.c), Plus(state[3], v.d);
    state[4], state[5] := Plus(state[4], v.e), Plus(state[5], v.f);
    state[6], state[7] := Plus(state[6], v.g), Plus(state[7], v.h);
  }

  /* ---- Buffering ---- */

  lemma {:induction false} ChainPrefix(T: Tables, m: seq<bv8>, n: seq<bv8>, i: nat)
    requires i * BLOCK <= |m|
    ensures Chain(T, m + n, i) == Chain(T, m, i)
  {
    hide Compress;
    if i > 0 {
      ChainPrefix(T, m, n, i - 1);
      assert (m + n)[(i - 1) * BLOCK..i * BLOCK] == m[(i - 1) * BLOCK..i * BLOCK];
    }
  }

  lemma ChainBlock(T: Tables, m: seq<bv8>, b: seq<bv8>)
    requires |m| % BLOCK == 0 && |b| == BLOCK
    ensures Chain(T, m + b, |m + b| / BLOCK) == Compress(T.k, Chain(T, m, |m| / BLOCK), b)
  {
    hide Compress;
    var i := |m| / BLOCK;
    ChainPrefix(T, m, b, i);
    assert (m + b)[i * BLOCK..(i + 1) * BLOCK] == b;
  }

  // The whole blocks of a message, and what is left over.
  function Whole(m: seq<bv8>): seq<bv8> { m[..|m| - |m| % BLOCK] }
  function Tail(m: seq<bv8>): seq<bv8> { m[|m| - |m| % BLOCK..] }

  lemma WholeTail(w: seq<bv8>, t: seq<bv8>)
    requires |w| % BLOCK == 0 && |t| < BLOCK
    ensures Whole(w + t) == w && Tail(w + t) == t && |w + t| % BLOCK == |t| && |w + t| / BLOCK == |w| / BLOCK
  {
  }

  lemma SplitWhole(m: seq<bv8>)
    ensures Whole(m) + Tail(m) == m && |Whole(m)| % BLOCK == 0 && |Whole(m)| / BLOCK == |m| / BLOCK
  {
  }

  // The bytes of an update, in the order the engine takes them: what the first block used, the
  // whole blocks after it, and the rest.
  lemma Reassociate(was: seq<bv8>, data: seq<bv8>, first: nat, i: nat, now: seq<bv8>, kept: seq<bv8>)
    requires first <= i <= |data| && now + kept == was + data[..first] && (kept == [] || i == first)
    ensures was + data == now + data[first..i] + (kept + data[i..])
  {
    assert was + data == was + data[..first] + data[first..i] + data[i..];
    if i == first { assert now + data[first..i] == now; }
  }

  // The two 64-bit words of the bit counter after n bytes, low word first.
  function Low(n: nat): (c: nat)
    ensures c < TWO64
  {
    8 * n % TWO64
  }
  function High(n: nat): (c: nat)
    ensures c < TWO64
  {
    8 * n / TWO64 % TWO64
  }

  // The counter of the update, which adds the low 64 bits of the bits fed and a carry when the low
  // word ends up below them: the low word is right, and the high one exactly for updates shorter
  // than 2^61 bytes.
  lemma CounterExact(n: nat, k: nat)
    requires k < TWO64
    ensures var added := 8 * k % TWO64;
      Low(n + k) == (Low(n) + added) % TWO64 &&
      (High(n + k) == (High(n) + if Low(n + k) < added then 1 else 0) % TWO64 <==> 8 * k < TWO64)
  {
    hide Low, High;
    var over, added := 8 * k / TWO64, 8 * k % TWO64;
    var part := added / 8;
    assert 8 * k == TWO64 * over + added && added == 8 * part && k == TWO64 / 8 * over + part;
    CounterLaws(n, part);
    var q, r := 8 * (n + part) / TWO64, 8 * (n + part) % TWO64;
    assert 8 * (n + k) == TWO64 * (q + over) + r;
    DivUnique(8 * (n + k), TWO64, q + over, r);
    Words128(n + k);
    Words128(n + part);
    assert over < 8;
    WrapDiffers(q, over);
  }

  lemma Words128(n: nat)
    ensures Low(n) == 8 * n % TWO64 && High(n) == 8 * n / TWO64 % TWO64
  {
  }

  lemma WrapDiffers(q: nat, over: nat)
    requires over < 8
    ensures (q + over) % TWO64 == q % TWO64 <==> over == 0
  {
    var high, low := q / TWO64, q % TWO64;
    if low + over < TWO64 {
      DivUnique(q + over, TWO64, high, low + over);
    } else {
      DivUnique(q + over, TWO64, high + 1, low + over - TWO64);
    }
  }

  // The carry: the low word wraps exactly when it ends up below the bits added.
  lemma CounterLaws(n: nat, k: nat)
    requires 8 * k < TWO64
    ensures Low(n) / 8 % BLOCK == n % BLOCK
    ensures Low(n + k) == (Low(n) + 8 * k) % TWO64
    ensures High(n + k) == (High(n) + if Low(n + k) < 8 * k then 1 else 0) % TWO64
  {
    Wrap(8 * n, 8 * k);
  }

  lemma Wrap(n: nat, k: nat)
    requires k < TWO64 && n % 8 == 0
    ensures n % TWO64 / 8 % BLOCK == n / 8 % BLOCK
    ensures (n + k) % TWO64 == (n % TWO64 + k) % TWO64
    ensures (n + k) / TWO64 == n / TWO64 + if (n + k) % TWO64 < k then 1 else 0
    ensures (n + k) / TWO64 % TWO64 == (n / TWO64 % TWO64 + if (n + k) % TWO64 < k then 1 else 0) % TWO64
  {
    var q, r := n / TWO64, n % TWO64;
    WrapTail(n);
    var carry := if r + k < TWO64 then 0 else 1;
    DivUnique(n + k, TWO64, q + carry, r + k - carry * TWO64);
    WrapSum(q, carry);
  }

  lemma WrapTail(n: nat)
    requires n % 8 == 0
    ensures n % TWO64 / 8 % BLOCK == n / 8 % BLOCK
  {
    var m := n / 8;
    var high, low := m / (TWO64 / 8), m % (TWO64 / 8);
    assert n == TWO64 * high + 8 * low && 0 <= 8 * low < TWO64;
    DivUnique(n, TWO64, high, 8 * low);
    assert n % TWO64 == 8 * low;
    assert m == BLOCK * (TWO64 / 8 / BLOCK * high) + low;
  }

  lemma WrapSum(x: nat, c: nat)
    ensures (x + c) % TWO64 == (x % TWO64 + c) % TWO64
  {
  }

  lemma CounterWords(n: nat)
    ensures BigEndian128(8 * n) == BigEndian64(High(n)) + BigEndian64(Low(n))
  {
    hide BigEndian;
    BigEndian128Words(8 * n);
    BigEndian64Wraps(8 * n / TWO64);
  }

  // The empty message has no whole block and no rest.
  lemma StartsEmpty()
    ensures Low(0) == 0 && High(0) == 0 && Whole([]) == [] && Tail([]) == [] && Chain(Kratos(), [], 0) == Kratos().iv
  {
    hide Kratos;
  }

  method SetWords(state: array<bv64>)
    requires state.Length == 8
    modifies state
    ensures FromArray(state[..]) == Kratos().iv
  {
    state[0], state[1] := 0x6a09e667f3bcc908, 0xbb67ae8584caa73b;
    state[2], state[3] := 0x3c6ef372fe94f82b, 0xa54ff53a5f1d36f1;
    state[4], state[5] := 0x510e527fea6db109, 0x9b05688c2b3e6c1f;
    state[6], state[7] := 0x1f83d9abfb41bd6b, 0x5be0cd19137e2179;
  }

  class Engine {
    const state: array<bv64>
    const buffer: array<bv8>
    var low: nat
    var high: nat
    ghost var msg: seq<bv8>

    // As below, and the 128-bit counter holds the number of bits fed.
    ghost predicate Valid()
      reads this, state, buffer
    {
      Absorbed() && high == High(|msg|)
    }

    // The state has absorbed every complete block of the bytes fed so far, the buffer starts with
    // the rest, and the low word of the counter is right.
    ghost predicate Absorbed()
      reads this, state, buffer
    {
      state.Length == 8 && buffer.Length == BLOCK && low == Low(|msg|) &&
      FromArray(state[..]) == Chain(Kratos(), Whole(msg), |msg| / BLOCK) && buffer[..|msg| % BLOCK] == Tail(msg)
    }

    // sha512_init
    constructor ()
      ensures Valid() && msg == [] && fresh(state) && fresh(buffer)
    {
      hide Kratos, Chain, FromArray, Whole, Tail, Low, High;
      state := new bv64[8];
      buffer := new bv8[BLOCK];
      low, high, msg := 0, 0, [];
      new;
      SetWords(state);
      StartsEmpty();
    }

    // The memcpy calls of sha512_update.
    method Fill(idx: nat, data: seq<bv8>)
      requires buffer.Length == BLOCK && idx + |data| <= BLOCK
      modifies buffer
      ensures buffer[..idx + |data|] == old(buffer[..idx]) + data
    {
      forall k | 0 <= k < |data| { buffer[idx + k] := data[k]; }
    }

    // The whole blocks of data from start on.
    method Blocks(data: seq<bv8>, start: nat, ghost seen: seq<bv8>) returns (i: nat, ghost now: seq<bv8>)
      requires state.Length == 8 && start <= |data| && |seen| % BLOCK == 0
      requires FromArray(state[..]) == Chain(Kratos(), seen, |seen| / BLOCK)
      modifies state
      ensures start <= i <= |data| < i + BLOCK && now == seen + data[start..i] && |now| % BLOCK == 0
      ensures FromArray(state[..]) == Chain(Kratos(), now, |now| / BLOCK)
      ensures start + BLOCK > |data| ==> i == start && now == seen
    {
      hide Kratos, Compress, Chain, FromArray;
      i, now := start, seen;
      while i + BLOCK <= |data|
        invariant start <= i <= |data| && now == seen + data[start..i] && |now| % BLOCK == 0
        invariant FromArray(state[..]) == Chain(Kratos(), now, |now| / BLOCK)
      {
        var block := data[i..i + BLOCK];
        Transform(state, block);
        ChainBlock(Kratos(), now, block);
        assert data[start..i + BLOCK] == data[start..i] + block;
        now := now + block;
        i := i + BLOCK;
      }
    }

    // The block the buffer completes, when data reaches its end.
    method FirstBlock(data: seq<bv8>, idx: nat, ghost seen: seq<bv8>) returns (i: nat, left: nat, ghost now: seq<bv8>)
      requires state.Length == 8 && buffer.Length == BLOCK && idx < BLOCK && |seen| % BLOCK == 0
      requires FromArray(state[..]) == Chain(Kratos(), seen, |seen| / BLOCK)
      modifies state, buffer
      ensures i <= |data| && left < BLOCK && (left > 0 ==> i == 0 && left + |data| < BLOCK) && |now| % BLOCK == 0
      ensures FromArray(state[..]) == Chain(Kratos(), now, |now| / BLOCK)
      ensures now + buffer[..left] == seen + old(buffer[..idx]) + data[..i]
    {
      hide Kratos, Compress, Chain, FromArray;
      i, left, now := 0, idx, seen;
      if |data| >= BLOCK - idx {
        i, left := BLOCK - idx, 0;
        Fill(idx, data[..i]);
        Transform(state, buffer[..]);
        ChainBlock(Kratos(), seen, buffer[..]);
        now := seen + buffer[..];
      }
    }

    // The bit counter of sha512_update, for any size_t: what is shifted out of the length is lost.
    method Count(len: nat)
      requires low == Low(|msg|) && high == High(|msg|) && len < TWO64
      modifies `low, `high
      ensures low == Low(|msg| + len) && (high == High(|msg| + len) <==> 8 * len < TWO64)
    {
      hide Low, High;
      CounterExact(|msg|, len);
      var added := 8 * len % TWO64;
      low := (low + added) % TWO64;
      if low < added { high := (high + 1) % TWO64; }
    }

    // sha512_update
    method Update(data: seq<bv8>)
      requires Valid() && |data| < TWO64
      modifies this, state, buffer
      ensures Absorbed() && msg == old(msg) + data && (Valid() <==> 8 * |data| < TWO64)
    {
      hide Kratos, Compress, Chain, Low, High, Whole, Tail, FromArray;
      CounterLaws(|msg|, 0);
      SplitWhole(msg);
      ghost var seen := Whole(msg);
      var first, i, idx;
      var index := low / 8 % BLOCK;
      Count(|data|);
      first, idx, seen := FirstBlock(data, index, seen);
      ghost var kept, now := buffer[..idx], seen;
      i, seen := Blocks(data, first, seen);
      Fill(idx, data[i..]);
      Reassociate(msg, data, first, i, now, kept);
      msg := msg + data;
      WholeTail(seen, kept + data[i..]);
    }

    // sha512_final
    method Final() returns (digest: array<bv8>)
      requires Valid()
      modifies this, state, buffer
      ensures fresh(digest) && digest.Length == 64
      ensures digest[..] == Hash(Kratos(), old(msg))
    {
      hide Kratos, Compress, Chain, BigEndian, Value, Whole, Tail, Pad;
      Finish();
      PadFillsBlocks(old(msg));
      WholeTail(msg, []);
      assert msg + [] == msg;
      digest := Output(state);
    }

    // Its two updates with the padding and the length.
    method Finish()
      requires Valid()
      modifies this, state, buffer
      ensures Valid() && msg == Pad(old(msg))
    {
      hide Kratos, Valid, Absorbed, BigEndian, Value, Low, High;
      assert low == Low(|msg|) && high == High(|msg|) by { CounterShows(this); }
      CounterLaws(|msg|, 0);
      var highBytes := ShiftOut(high);
      var lowBytes := ShiftOut(low);
      assert highBytes + lowBytes == BigEndian128(8 * |msg|) by {
        CounterWords(|msg|);
      }
      var idx := low / 8 % BLOCK;
      var padLen := if idx < 112 then 112 - idx else 240 - idx;
      assert padLen == 1 + ZeroCount(|msg|);
      Update([0x80] + Zeros(padLen - 1));
      Update(highBytes + lowBytes);
      assert msg == Pad(old(msg));
    }
  }

  lemma CounterShows(e: Engine)
    requires e.Valid()
    ensures e.low == Low(|e.msg|) && e.high == High(|e.msg|)
  {
  }

  lemma DigestNext(ws: seq<bv64>, i: nat)
    ensures DigestBytes([]) == []
    ensures i < |ws| ==> DigestBytes(ws[..i + 1]) == DigestBytes(ws[..i]) + WordBytes(ws[i])
  {
    hide WordBytes;
    if i < |ws| { assert ws[..i + 1][..i] == ws[..i]; }
  }

  method PutFour(digest: array<bv8>, at: nat, b: seq<bv8>)
    requires at + 4 <= digest.Length && |b| == 4
    modifies digest
    ensures digest[..at + 4] == old(digest[..at]) + b
  {
    digest[at], digest[at + 1], digest[at + 2], digest[at + 3] := b[0], b[1], b[2], b[3];
  }

  lemma Rejoin(a: seq<bv8>, w: seq<bv8>)
    requires |w| == 8
    ensures a + w[..4] + w[4..] == a + w
  {
  }

  // The last loop of sha512_final.
  method Output(state: array<bv64>) returns (digest: array<bv8>)
    requires state.Length == 8
    ensures fresh(digest) && digest.Length == 64 && digest[..] == DigestBytes(ToSeq(FromArray(state[..])))
  {
    hide WordBytes, DigestBytes;
    DigestNext([], 0);
    digest := new bv8[64];
    for i := 0 to 8
      invariant digest[..8 * i] == DigestBytes(state[..i])
    {
      var w := WordBytes(state[i]);
      PutFour(digest, 8 * i, w[..4]);
      PutFour(digest, 8 * i + 4, w[4..]);
      DigestNext(state[..], i);
      Rejoin(DigestBytes(state[..i]), w);
    }
    assert state[..8] == ToSeq(FromArray(state[..]));
    assert digest[..64] == digest[..];
  }

  // However a message is split into updates, each shorter than 2^61 bytes, the digest is the
  // hash of the whole.
  method HashChunks(chunks: seq<seq<bv8>>) returns (digest: array<bv8>)
    requires forall i | 0 <= i < |chunks| :: 8 * |chunks[i]| < TWO64
    ensures digest.Length == 64
    ensures digest[..] == Hash(Kratos(), Flatten(chunks))
  {
    hide Flatten, Hash, Kratos;
    FlattenNext(chunks, 0);
    var ctx := new Engine();
    for i := 0 to |chunks|
      invariant ctx.Valid() && fresh(ctx) && fresh(ctx.state) && fresh(ctx.buffer)
      invariant ctx.msg == Flatten(chunks[..i])
    {
      ctx.Update(chunks[i]);
      FlattenNext(chunks, i);
    }
    assert chunks[..|chunks|] == chunks;
    digest := ctx.Final();
  }

  /* ---- The source's tables against those of the standard ---- */

  // They differ in round constant 50 and in the fifth initial word, and nowhere else.
  lemma TablesDiffer()
    ensures Kratos().k == Fips().k[50 := 0x2748774cdf8eeeb9] && Kratos().k[50] != Fips().k[50]
    ensures Kratos().iv == Fips().iv.(e := 0x510e527fea6db109) && Kratos().iv.e != Fips().iv.e
  {
  }

  // Two tables of round constants that differ at the index j alone.
  predicate DifferAt(k: Table, l: Table, j: nat)
    requires j < 80
  {
    k[j] != l[j] && forall t | 0 <= t < 80 && t != j :: k[t] == l[t]
  }

  function Minus(x: bv64, y: bv64): bv64 { x - y }

  lemma PlusMinus(x: bv64, y: bv64)
    ensures Minus(Plus(x, y), y) == x && Plus(x, y) == Plus(y, x)
  {
  }

  lemma Cancel(x: bv64, y: bv64, z: bv64)
    ensures Plus(x, z) == Plus(y, z) ==> x == y
    ensures Plus(z, x) == Plus(z, y) ==> x == y
  {
    hide Plus, Minus;
    PlusMinus(x, z);
    PlusMinus(y, z);
  }

  // A round can be undone, and its result shows its constant.
  lemma StepInjective(u: Words, v: Words, k: bv64, l: bv64, w: bv64)
    ensures Step(u, k, w) == Step(v, k, w) ==> u == v
    ensures Step(u, k, w) == Step(u, l, w) ==> k == l
  {
    hide Plus, BigSigma0, BigSigma1, Ch, Maj;
    var t2 := Plus(BigSigma0(u.a), Maj(u.a, u.b, u.c));
    var t1 := Plus(Plus(Plus(Plus(u.h, BigSigma1(u.e)), Ch(u.e, u.f, u.g)), k), w);
    if Step(u, k, w) == Step(v, k, w) {
      var s1 := Plus(Plus(Plus(Plus(v.h, BigSigma1(v.e)), Ch(v.e, v.f, v.g)), k), w);
      Cancel(t1, s1, t2);
      Cancel(u.d, v.d, t1);
      var head, tail := Plus(u.h, BigSigma1(u.e)), Plus(v.h, BigSigma1(u.e));
      Cancel(Plus(Plus(head, Ch(u.e, u.f, u.g)), k), Plus(Plus(tail, Ch(u.e, u.f, u.g)), k), w);
      Cancel(Plus(head, Ch(u.e, u.f, u.g)), Plus(tail, Ch(u.e, u.f, u.g)), k);
      Cancel(head, tail, Ch(u.e, u.f, u.g));
      Cancel(u.h, v.h, BigSigma1(u.e));
    }
    if Step(u, k, w) == Step(u, l, w) {
      var s1 := Plus(Plus(Plus(Plus(u.h, BigSigma1(u.e)), Ch(u.e, u.f, u.g)), l), w);
      var head := Plus(Plus(u.h, BigSigma1(u.e)), Ch(u.e, u.f, u.g));
      Cancel(t1, s1, t2);
      Cancel(Plus(head, k), Plus(head, l), w);
      Cancel(k, l, head);
    }
  }

  // A single wrong constant separates the working variables from its round on, for good.
  lemma {:induction false} RoundsPart(k: Table, l: Table, j: nat, h: Words, block: seq<bv8>, t: nat)
    requires j < 80 && DifferAt(k, l, j) && |block| == BLOCK && t <= 80
    ensures Rounds(k, h, block, t) == Rounds(l, h, block, t) <==> t <= j
  {
    hide Step, W;
    if t > 0 {
      var u, v, w := Rounds(k, h, block, t - 1), Rounds(l, h, block, t - 1), W(block, t - 1);
      RoundsPart(k, l, j, h, block, t - 1);
      StepInjective(u, v, k[t - 1], l[t - 1], w);
    }
  }

  // So from equal hash values no block leads to equal hash values.
  lemma CompressParts(k: Table, l: Table, j: nat, h: Words, block: seq<bv8>)
    requires j < 80 && DifferAt(k, l, j) && |block| == BLOCK
    ensures Compress(k, h, block) != Compress(l, h, block)
  {
    hide Rounds, Plus;
    RoundsPart(k, l, j, h, block, 80);
    var u, v := Rounds(k, h, block, 80), Rounds(l, h, block, 80);
    Cancel(u.a, v.a, h.a);
    Cancel(u.b, v.b, h.b);
    Cancel(u.c, v.c, h.c);
    Cancel(u.d, v.d, h.d);
    Cancel(u.e, v.e, h.e);
    Cancel(u.f, v.f, h.f);
    Cancel(u.g, v.g, h.g);
    Cancel(u.h, v.h, h.h);
  }

  lemma WordBytesInjective(u: bv64, v: bv64)
    requires WordBytes(u) == WordBytes(v)
    ensures u == v
  {
    var x, y := WordBytes(u), WordBytes(v);
    assert x[0] == y[0] && x[1] == y[1] && x[2] == y[2] && x[3] == y[3];
    assert x[4] == y[4] && x[5] == y[5] && x[6] == y[6] && x[7] == y[7];
  }

  lemma {:induction false} DigestBytesInjective(u: seq<bv64>, v: seq<bv64>)
    requires |u| == |v| && DigestBytes(u) == DigestBytes(v)
    ensures u == v
  {
    hide WordBytes;
    if u != [] {
      var n := |u| - 1;
      var x, y := DigestBytes(u[..n]), DigestBytes(v[..n]);
      assert x == DigestBytes(u)[..8 * n] == DigestBytes(v)[..8 * n] == y;
      assert WordBytes(u[n]) == DigestBytes(u)[8 * n..] == DigestBytes(v)[8 * n..] == WordBytes(v[n]);
      DigestBytesInjective(u[..n], v[..n]);
      WordBytesInjective(u[n], v[n]);
      assert u == u[..n] + [u[n]] && v == v[..n] + [v[n]];
    }
  }

  // The padded message is a message too, and takes one more block.
  lemma PadTwice(m: seq<bv8>)
    ensures |Pad(Pad(m))| == |Pad(m)| + BLOCK && Pad(m) <= Pad(Pad(m))
  {
    hide BigEndian;
    PadFillsBlocks(m);
    assert ZeroCount(|Pad(m)|) == 111;
  }

  // Two hashes that differ in one round constant, whatever their initial words: of every message,
  // or else of that message padded, they give different digests.
  lemma OneConstantParts(T: Tables, U: Tables, j: nat, m: seq<bv8>)
    requires j < 80 && DifferAt(T.k, U.k, j)
    ensures Hash(T, m) != Hash(U, m) || Hash(T, Pad(m)) != Hash(U, Pad(m))
  {
    hide DifferAt, Chain, Pad, DigestBytes, Compress;
    var p, q := Pad(m), Pad(Pad(m));
    PadFillsBlocks(m);
    PadFillsBlocks(p);
    PadTwice(m);
    var n := |p| / BLOCK;
    var last := q[|p|..];
    assert q == p + last && |last| == BLOCK;
    if Hash(T, m) == Hash(U, m) {
      SameChain(Chain(T, p, n), Chain(U, p, n));
      ChainBlock(T, p, last);
      ChainBlock(U, p, last);
      CompressParts(T.k, U.k, j, Chain(U, p, n), last);
      if Hash(T, p) == Hash(U, p) {
        SameChain(Chain(T, q, |q| / BLOCK), Chain(U, q, |q| / BLOCK));
      }
    }
  }

  // The source's digest is SHA-512 of no message and that message padded both; with the tables of
  // the standard it would be SHA-512 of every message.
  lemma DigestsPart(m: seq<bv8>)
    ensures Hash(Kratos(), m) != Hash(Fips(), m) || Hash(Kratos(), Pad(m)) != Hash(Fips(), Pad(m))
  {
    hide Hash, Pad;
    TablesDiffer();
    assert DifferAt(Kratos().k, Fips().k, 50);
    hide Kratos, Fips;
    OneConstantParts(Kratos(), Fips(), 50, m);
  }

  ghost predicate SameDigest(T: Tables, U: Tables, m: seq<bv8>) { Hash(T, m) == Hash(U, m) }

  // Two hashes with the same initial words and at most the one round constant j different give
  // every message the same digest exactly when that constant is the same too.
  lemma OneConstantDecides(T: Tables, U: Tables, j: nat)
    requires j < 80 && T.iv == U.iv && forall t | 0 <= t < 80 && t != j :: T.k[t] == U.k[t]
    ensures (forall m :: SameDigest(T, U, m)) <==> T.k[j] == U.k[j]
  {
    hide Hash, Pad;
    if T.k[j] == U.k[j] {
      assert T.k == U.k;
      assert T == U;
    } else {
      OneConstantParts(T, U, j, []);
      assert !SameDigest(T, U, []) || !SameDigest(T, U, Pad([]));
    }
  }

  lemma SameChain(u: Words, v: Words)
    requires DigestBytes(ToSeq(u)) == DigestBytes(ToSeq(v))
    ensures u == v
  {
    hide DigestBytes;
    DigestBytesInjective(ToSeq(u), ToSeq(v));
    var x, y := ToSeq(u), ToSeq(v);
    assert x[0] == y[0] && x[1] == y[1] && x[2] == y[2] && x[3] == y[3];
    assert x[4] == y[4] && x[5] == y[5] && x[6] == y[6] && x[7] == y[7];
  }
}
