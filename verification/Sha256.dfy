/** SHA-256: the hash of FIPS 180-4 as a function of the whole message, and the
    buffered init/update/final engine of pkg/kratos-sha256.c proved to compute it. */
module Sha256 {
  import opened HashBytes

  const BLOCK: nat := 64

  // The eight working variables, or the eight words of a hash value.
  datatype Words = Words(a: bv32, b: bv32, c: bv32, d: bv32, e: bv32, f: bv32, g: bv32, h: bv32)

  /* ---- FIPS 180-4, sections 3.2, 4.1.2, 5.1.1, 5.3.3 and 6.2.2 ---- */

  function K256(t: nat): bv32
    requires t < 64
  {
    ([0x428a2f98, 0x71374491, 0xb5c0fbcf, 0xe9b5dba5, 0x3956c25b, 0x59f111f1, 0x923f82a4, 0xab1c5ed5] +
      [0xd807aa98, 0x12835b01, 0x243185be, 0x550c7dc3, 0x72be5d74, 0x80deb1fe, 0x9bdc06a7, 0xc19bf174] +
      [0xe49b69c1, 0xefbe4786, 0x0fc19dc6, 0x240ca1cc, 0x2de92c6f, 0x4a7484aa, 0x5cb0a9dc, 0x76f988da] +
      [0x983e5152, 0xa831c66d, 0xb00327c8, 0xbf597fc7, 0xc6e00bf3, 0xd5a79147, 0x06ca6351, 0x14292967] +
      [0x27b70a85, 0x2e1b2138, 0x4d2c6dfc, 0x53380d13, 0x650a7354, 0x766a0abb, 0x81c2c92e, 0x92722c85] +
      [0xa2bfe8a1, 0xa81a664b, 0xc24b8b70, 0xc76c51a3, 0xd192e819, 0xd6990624, 0xf40e3585, 0x106aa070] +
      [0x19a4c116, 0x1e376c08, 0x2748774c, 0x34b0bcb5, 0x391c0cb3, 0x4ed8aa4a, 0x5b9cca4f, 0x682e6ff3] +
      [0x748f82ee, 0x78a5636f, 0x84c87814, 0x8cc70208, 0x90befffa, 0xa4506ceb, 0xbef9a3f7, 0xc67178f2])[t]
  }

  const H0 := Words(0x6a09e667, 0xbb67ae85, 0x3c6ef372, 0xa54ff53a, 0x510e527f, 0x9b05688c, 0x1f83d9ab, 0x5be0cd19)

  function Ch(x: bv32, y: bv32, z: bv32): bv32 { (x & y) ^ (!x & z) }
  function Maj(x: bv32, y: bv32, z: bv32): bv32 { (x & y) ^ (x & z) ^ (y & z) }
  function Rotr(x: bv32, n: bv8): bv32
    requires 0 < n < 32
  {
    (x >> n) | (x << (32 - n))
  }
  function BigSigma0(x: bv32): bv32 { Rotr(x, 2) ^ Rotr(x, 13) ^ Rotr(x, 22) }
  function BigSigma1(x: bv32): bv32 { Rotr(x, 6) ^ Rotr(x, 11) ^ Rotr(x, 25) }
  function SmallSigma0(x: bv32): bv32 { Rotr(x, 7) ^ Rotr(x, 18) ^ (x >> 3) }
  function SmallSigma1(x: bv32): bv32 { Rotr(x, 17) ^ Rotr(x, 19) ^ (x >> 10) }

  // Addition modulo 2^32.
  function Plus(x: bv32, y: bv32): bv32 { x + y }

  // The big-endian word at byte i.
  function WordAt(data: seq<bv8>, i: nat): bv32
    requires i + 4 <= |data|
  {
    ((data[i] as bv32) << 24) | ((data[i + 1] as bv32) << 16) | ((data[i + 2] as bv32) << 8) | (data[i + 3] as bv32)
  }

  // The message schedule.
  function W(block: seq<bv8>, t: nat): bv32
    requires |block| == BLOCK && t < 64
  {
    if t < 16 then WordAt(block, t * 4)
    else
      Plus(Plus(Plus(SmallSigma1(W(block, t - 2)), W(block, t - 7)), SmallSigma0(W(block, t - 15))), W(block, t - 16))
  }

  function Step(v: Words, k: bv32, w: bv32): Words
  {
    var t1 := Plus(Plus(Plus(Plus(v.h, BigSigma1(v.e)), Ch(v.e, v.f, v.g)), k), w);
    var t2 := Plus(BigSigma0(v.a), Maj(v.a, v.b, v.c));
    Words(Plus(t1, t2), v.a, v.b, v.c, Plus(v.d, t1), v.e, v.f, v.g)
  }

  function Rounds(h: Words, block: seq<bv8>, t: nat): Words
    requires |block| == BLOCK && t <= 64
  {
    if t == 0 then h else Step(Rounds(h, block, t - 1), K256(t - 1), W(block, t - 1))
  }

  function Add(u: Words, v: Words): Words
  {
    Words(Plus(u.a, v.a), Plus(u.b, v.b), Plus(u.c, v.c), Plus(u.d, v.d),
          Plus(u.e, v.e), Plus(u.f, v.f), Plus(u.g, v.g), Plus(u.h, v.h))
  }

  function Compress(h: Words, block: seq<bv8>): Words
    requires |block| == BLOCK
  {
    Add(h, Rounds(h, block, 64))
  }

  // The hash value after the first i blocks of m.
  function Chain(m: seq<bv8>, i: nat): Words
    requires i * BLOCK <= |m|
  {
    if i == 0 then H0 else Compress(Chain(m, i - 1), m[(i - 1) * BLOCK..i * BLOCK])
  }

  // FIPS 180-4 defines the hash of messages of fewer than 2^64 bits; on longer ones the
  // functions below keep the low 64 bits of the length, as the engine does.
  const MAX_BYTES: nat := TWO64 / 8

  // A one bit, the fewest zero bits that leave eight bytes in the last block, and the bit length.
  function ZeroCount(n: nat): nat { (119 - n % BLOCK) % BLOCK }

  function Pad(m: seq<bv8>): seq<bv8>
  {
    m + [0x80] + Zeros(ZeroCount(|m|)) + BigEndian64(8 * |m|)
  }

  function WordBytes(w: bv32): (b: seq<bv8>)
    ensures |b| == 4
  {
    [((w >> 24) & 0xFF) as bv8, ((w >> 16) & 0xFF) as bv8, ((w >> 8) & 0xFF) as bv8, (w & 0xFF) as bv8]
  }

  function DigestBytes(ws: seq<bv32>): (d: seq<bv8>)
    ensures |d| == 4 * |ws|
  {
    if ws == [] then [] else DigestBytes(ws[..|ws| - 1]) + WordBytes(ws[|ws| - 1])
  }

  function ToSeq(v: Words): seq<bv32> { [v.a, v.b, v.c, v.d, v.e, v.f, v.g, v.h] }

  function Hash(m: seq<bv8>): seq<bv8>
  {
    PadFillsBlocks(m);
    var p := Pad(m);
    DigestBytes(ToSeq(Chain(p, |p| / BLOCK)))
  }

  // Section 5.1.1: the padded length is a whole number of blocks, the zeros are the fewest
  // possible, and the message and its bit length can be read back from the padded message.
  lemma PadFillsBlocks(m: seq<bv8>)
    ensures |Pad(m)| % BLOCK == 0 && m + [0x80] <= Pad(m)
    ensures |m| < MAX_BYTES ==> Value(Pad(m)[|Pad(m)| - 8..]) == 8 * |m|
  {
    hide BigEndian, Value;
    BigEndian64Wraps(8 * |m|);
    ZeroCountFits(|m|, 0);
    assert Pad(m)[|Pad(m)| - 8..] == BigEndian64(8 * |m|);
  }

  lemma ZeroCountFits(n: nat, k: nat)
    ensures (n + 1 + ZeroCount(n) + 8) % BLOCK == 0
    ensures k < ZeroCount(n) ==> (n + 1 + k + 8) % BLOCK != 0
  {
    var q, r := n / BLOCK, n % BLOCK;
    var more := if r <= 55 then 1 else 2;
    assert n + 1 + ZeroCount(n) + 8 == BLOCK * (q + more);
    DivUnique(n + 1 + ZeroCount(n) + 8, BLOCK, q + more, 0);
    if k < ZeroCount(n) { DivUnique(n + 1 + k + 8, BLOCK, q + more - 1, r + 1 + k + 8 - BLOCK * (more - 1)); }
  }

  lemma PadInjective(m: seq<bv8>, n: seq<bv8>)
    requires |m| < MAX_BYTES && |n| < MAX_BYTES && Pad(m) == Pad(n)
    ensures m == n
  {
    PadFillsBlocks(m);
    PadFillsBlocks(n);
    assert m == Pad(m)[..|m|] && n == Pad(n)[..|n|];
  }

  /* ---- The streaming engine ---- */

  function FromArray(s: seq<bv32>): Words
    requires |s| == 8
  {
    Words(s[0], s[1], s[2], s[3], s[4], s[5], s[6], s[7])
  }

  // The first loops of sha256_transform: the message schedule of one block.
  method Schedule(data: seq<bv8>) returns (m: array<bv32>)
    requires |data| == BLOCK
    ensures fresh(m) && m.Length == 64 && forall j | 0 <= j < 64 :: m[j] == W(data, j)
  {
    hide Plus, SmallSigma0, SmallSigma1, WordAt;
    m := new bv32[64];
    for i := 0 to 16
      invariant forall j | 0 <= j < i :: m[j] == W(data, j)
    {
      m[i] := WordAt(data, i * 4);
    }
    for i := 16 to 64
      invariant forall j | 0 <= j < i :: m[j] == W(data, j)
    {
      m[i] := Plus(Plus(Plus(SmallSigma1(m[i - 2]), m[i - 7]), SmallSigma0(m[i - 15])), m[i - 16]);
    }
  }

  // The round loop of sha256_transform.
  method RunRounds(start: Words, m: array<bv32>, ghost data: seq<bv8>) returns (v: Words)
    requires |data| == BLOCK && m.Length == 64 && forall j | 0 <= j < 64 :: m[j] == W(data, j)
    ensures v == Rounds(start, data, 64)
  {
    hide Plus, K256, BigSigma0, BigSigma1, Ch, Maj, W;
    var a, b, c, d := start.a, start.b, start.c, start.d;
    var e, f, g, h := start.e, start.f, start.g, start.h;
    for i := 0 to 64
      invariant Words(a, b, c, d, e, f, g, h) == Rounds(start, data, i)
    {
      var t1 := Plus(Plus(Plus(Plus(h, BigSigma1(e)), Ch(e, f, g)), K256(i)), m[i]);
      var t2 := Plus(BigSigma0(a), Maj(a, b, c));
      h := g;
      g := f;
      f := e;
      e := Plus(d, t1);
      d := c;
      c := b;
      b := a;
      a := Plus(t1, t2);
    }
    return Words(a, b, c, d, e, f, g, h);
  }

  // sha256_transform
  method Transform(state: array<bv32>, data: seq<bv8>)
    requires state.Length == 8 && |data| == BLOCK
    modifies state
    ensures FromArray(state[..]) == Compress(FromArray(old(state[..])), data)
  {
    hide Plus, W, Rounds;
    var m := Schedule(data);
    var v := RunRounds(FromArray(state[..]), m, data);
    state[0], state[1] := Plus(state[0], v.a), Plus(state[1], v.b);
    state[2], state[3] := Plus(state[2], v.c), Plus(state[3], v.d);
    state[4], state[5] := Plus(state[4], v.e), Plus(state[5], v.f);
    state[6], state[7] := Plus(state[6], v.g), Plus(state[7], v.h);
  }

  /* ---- Buffering ---- */

  lemma {:induction false} ChainPrefix(m: seq<bv8>, n: seq<bv8>, i: nat)
    requires i * BLOCK <= |m|
    ensures Chain(m + n, i) == Chain(m, i)
  {
    hide Compress;
    if i > 0 {
      ChainPrefix(m, n, i - 1);
      assert (m + n)[(i - 1) * BLOCK..i * BLOCK] == m[(i - 1) * BLOCK..i * BLOCK];
    }
  }

  lemma ChainBlock(m: seq<bv8>, b: seq<bv8>)
    requires |m| % BLOCK == 0 && |b| == BLOCK
    ensures Chain(m + b, |m + b| / BLOCK) == Compress(Chain(m, |m| / BLOCK), b)
  {
    hide Compress;
    var i := |m| / BLOCK;
    ChainPrefix(m, b, i);
    assert (m + b)[i * BLOCK..(i + 1) * BLOCK] == b;
  }

  // The whole blocks of a message, and what is left over.
  function Whole(m: seq<bv8>): seq<bv8> { m[..|m| - |m| % BLOCK] }
  function Tail(m: seq<bv8>): seq<bv8> { m[|m| - |m| % BLOCK..] }

  lemma WholeTail(w: seq<bv8>, t: seq<bv8>)
    requires |w| % BLOCK == 0 && |t| < BLOCK
    ensures Whole(w + t) == w && Tail(w + t) == t && |w + t| % BLOCK == |t| && |w + t| / BLOCK == |w| / BLOCK
  {
  }

  lemma SplitWhole(m: seq<bv8>)
    ensures Whole(m) + Tail(m) == m && |Whole(m)| % BLOCK == 0 && |Whole(m)| / BLOCK == |m| / BLOCK
  {
  }

  // The bytes of an update, in the order the engine takes them: what the first block used, the
  // whole blocks after it, and the rest.
  lemma Reassociate(was: seq<bv8>, data: seq<bv8>, first: nat, i: nat, now: seq<bv8>, kept: seq<bv8>)
    requires first <= i <= |data| && now + kept == was + data[..first] && (kept == [] || i == first)
    ensures was + data == now + data[first..i] + (kept + data[i..])
  {
    assert was + data == was + data[..first] + data[first..i] + data[i..];
    if i == first { assert now + data[first..i] == now; }
  }

  // The value a 64-bit counter shows after counting to n.
  function Counter(n: nat): (c: nat)
    ensures c < TWO64
  {
    n % TWO64
  }

  lemma CounterLaws(n: nat, k: nat)
    ensures Counter(n) % BLOCK == n % BLOCK && Counter(Counter(n) + k) == Counter(n + k)
    ensures Counter(Counter(n) * 8) == 8 * n % TWO64
  {
    var q, r := n / TWO64, n % TWO64;
    var a, b := r / BLOCK, r % BLOCK;
    DivUnique(n, BLOCK, TWO64 / BLOCK * q + a, b);
    DivUnique(8 * n, TWO64, 8 * q + 8 * r / TWO64, 8 * r % TWO64);
    CounterSum(n, k);
  }

  lemma CounterSum(n: nat, k: nat)
    ensures Counter(Counter(n) + k) == Counter(n + k)
  {
    var q, r := n / TWO64, n % TWO64;
    DivUnique(n + k, TWO64, q + (r + k) / TWO64, (r + k) % TWO64);
  }

  class Engine {
    const state: array<bv32>
    const buffer: array<bv8>
    var count: nat
    ghost var msg: seq<bv8>

    // The state has absorbed every complete block of the bytes fed so far, and the
    // buffer starts with the rest. The counter is 64 bits wide.
    ghost predicate Valid()
      reads this, state, buffer
    {
      state.Length == 8 && buffer.Length == BLOCK && count == Counter(|msg|) &&
      FromArray(state[..]) == Chain(Whole(msg), |msg| / BLOCK) && buffer[..|msg| % BLOCK] == Tail(msg)
    }

    // kratos_sha256_init
    constructor ()
      ensures Valid() && msg == [] && fresh(state) && fresh(buffer)
    {
      state := new bv32[8];
      buffer := new bv8[BLOCK];
      count, msg := 0, [];
      new;
      state[0], state[1], state[2], state[3] := 0x6a09e667, 0xbb67ae85, 0x3c6ef372, 0xa54ff53a;
      state[4], state[5], state[6], state[7] := 0x510e527f, 0x9b05688c, 0x1f83d9ab, 0x5be0cd19;
    }

    // The memcpy calls of kratos_sha256_update.
    method Fill(idx: nat, data: seq<bv8>)
      requires buffer.Length == BLOCK && idx + |data| <= BLOCK
      modifies buffer
      ensures buffer[..idx + |data|] == old(buffer[..idx]) + data
    {
      forall k | 0 <= k < |data| { buffer[idx + k] := data[k]; }
    }

    // The whole blocks of data from start on.
    method Blocks(data: seq<bv8>, start: nat, ghost seen: seq<bv8>) returns (i: nat, ghost now: seq<bv8>)
      requires state.Length == 8 && start <= |data| && |seen| % BLOCK == 0
      requires FromArray(state[..]) == Chain(seen, |seen| / BLOCK)
      modifies state
      ensures start <= i <= |data| < i + BLOCK && now == seen + data[start..i] && |now| % BLOCK == 0
      ensures FromArray(state[..]) == Chain(now, |now| / BLOCK)
      ensures start + BLOCK > |data| ==> i == start && now == seen
    {
      hide Compress, Chain, FromArray;
      i, now := start, seen;
      while i + BLOCK <= |data|
        invariant start <= i <= |data| && now == seen + data[start..i] && |now| % BLOCK == 0
        invariant FromArray(state[..]) == Chain(now, |now| / BLOCK)
      {
        var block := data[i..i + BLOCK];
        Transform(state, block);
        ChainBlock(now, block);
        assert data[start..i + BLOCK] == data[start..i] + block;
        now := now + block;
        i := i + BLOCK;
      }
    }

    // The block the buffer completes, when data reaches its end.
    method FirstBlock(data: seq<bv8>, idx: nat, ghost seen: seq<bv8>) returns (i: nat, left: nat, ghost now: seq<bv8>)
      requires state.Length == 8 && buffer.Length == BLOCK && idx < BLOCK && |seen| % BLOCK == 0
      requires FromArray(state[..]) == Chain(seen, |seen| / BLOCK)
      modifies state, buffer
      ensures i <= |data| && left < BLOCK && (left > 0 ==> i == 0 && left + |data| < BLOCK) && |now| % BLOCK == 0
      ensures FromArray(state[..]) == Chain(now, |now| / BLOCK)
      ensures now + buffer[..left] == seen + old(buffer[..idx]) + data[..i]
    {
      hide Compress, Chain, FromArray;
      i, left, now := 0, idx, seen;
      if idx > 0 && idx + |data| >= BLOCK {
        i, left := BLOCK - idx, 0;
        Fill(idx, data[..i]);
        Transform(state, buffer[..]);
        ChainBlock(seen, buffer[..]);
        now := seen + buffer[..];
      }
    }

    // kratos_sha256_update
    method Update(data: seq<bv8>)
      requires Valid()
      modifies this, state, buffer
      ensures Valid() && msg == old(msg) + data
    {
      hide Compress, Chain, Counter, Whole, Tail, FromArray;
      CounterLaws(|msg|, |data|);
      SplitWhole(msg);
      ghost var seen := Whole(msg);
      var first, i, idx;
      first, idx, seen := FirstBlock(data, count % BLOCK, seen);
      ghost var kept, now := buffer[..idx], seen;
      count := Counter(count + |data|);
      i, seen := Blocks(data, first, seen);
      Fill(idx, data[i..]);
      Reassociate(msg, data, first, i, now, kept);
      msg := msg + data;
      WholeTail(seen, kept + data[i..]);
    }

    // kratos_sha256_final
    method Final() returns (digest: array<bv8>)
      requires Valid()
      modifies this, state, buffer
      ensures fresh(digest) && digest.Length == 32
      ensures digest[..] == Hash(old(msg))
    {
      hide Compress, Chain, BigEndian, Value, Counter, Whole, Tail;
      CounterLaws(|msg|, 0);
      var lenBytes := ShiftOut(Counter(count * 8));
      BigEndian64Wraps(8 * |msg|);
      var idx := count % BLOCK;
      var padLen := if idx < 56 then 56 - idx else 120 - idx;
      assert padLen == 1 + ZeroCount(|msg|);
      Update([0x80] + Zeros(padLen - 1));
      Update(lenBytes);
      PadFillsBlocks(old(msg));
      assert msg == Pad(old(msg));
      assert msg + [] == msg;
      WholeTail(msg, []);
      digest := Output(state);
    }
  }

  lemma DigestNext(ws: seq<bv32>, i: nat)
    ensures DigestBytes([]) == []
    ensures i < |ws| ==> DigestBytes(ws[..i + 1]) == DigestBytes(ws[..i]) + WordBytes(ws[i])
  {
    hide WordBytes;
    if i < |ws| { assert ws[..i + 1][..i] == ws[..i]; }
  }

  // The last loop of kratos_sha256_final.
  method Output(state: array<bv32>) returns (digest: array<bv8>)
    requires state.Length == 8
    ensures fresh(digest) && digest.Length == 32 && digest[..] == DigestBytes(ToSeq(FromArray(state[..])))
  {
    hide WordBytes, DigestBytes;
    DigestNext([], 0);
    digest := new bv8[32];
    for i := 0 to 8
      invariant digest[..4 * i] == DigestBytes(state[..i])
    {
      var w := WordBytes(state[i]);
      digest[4 * i], digest[4 * i + 1], digest[4 * i + 2], digest[4 * i + 3] := w[0], w[1], w[2], w[3];
      DigestNext(state[..], i);
      assert digest[..4 * (i + 1)] == digest[..4 * i] + w;
    }
    assert state[..8] == ToSeq(FromArray(state[..]));
    assert digest[..32] == digest[..];
  }

  // However a message is split into updates, the digest is the hash of the whole.
  method HashChunks(chunks: seq<seq<bv8>>) returns (digest: array<bv8>)
    ensures digest.Length == 32
    ensures digest[..] == Hash(Flatten(chunks))
  {
    hide Flatten, Hash;
    FlattenNext(chunks, 0);
    var ctx := new Engine();
    for i := 0 to |chunks|
      invariant ctx.Valid() && fresh(ctx) && fresh(ctx.state) && fresh(ctx.buffer)
      invariant ctx.msg == Flatten(chunks[..i])
    {
      ctx.Update(chunks[i]);
      FlattenNext(chunks, i);
    }
    assert chunks[..|chunks|] == chunks;
    digest := ctx.Final();
  }
}
