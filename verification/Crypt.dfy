/** The password hashing of init/kratos-crypt.c: SHA-crypt over a hash that takes its tables as a
    parameter, since the source's are not those of SHA-512; the salt taken out of a stored hash,
    the stretched digest, and the permuted base-64 text, with a decoder for that text. */
module Crypt {
  import opened HashBytes
  import opened ByteBits
  import Sha512

  type text = seq<bv8>

  const DOLLAR: bv8 := 0x24
  const PREFIX: text := [0x24, 0x36, 0x24] // "$6$"
  const MAX_SALT: nat := 16
  const MAX_KEY: nat := 256
  const ROUNDS: nat := 5000

  /* ---- Salt ---- */

  // strchr, with the end of the string where there is no such byte.
  function Find(s: text, c: bv8): (i: nat)
    ensures i <= |s| && c !in s[..i] && (i < |s| ==> s[i] == c)
  {
    if s == [] || s[0] == c then 0
    else
      var i := 1 + Find(s[1..], c);
      assert s[..i] == [s[0]] + s[1..][..i - 1];
      i
  }

  function Min(a: nat, b: nat): nat { if a <= b then a else b }

  function ExtractSalt(s: text): (salt: text)
    ensures |salt| <= MAX_SALT && DOLLAR !in salt
  {
    var sp := if PREFIX <= s then s[3..] else s;
    sp[..Min(Find(sp, DOLLAR), MAX_SALT)]
  }

  /* ---- The digest (steps A to I of the SHA-crypt definition), over a hash with given tables ---- */

  // The first n bytes of the digest d repeated for ever.
  function Cycle(d: text, n: nat): (c: text)
    requires |d| == 64
    ensures |c| == n
  {
    seq(n, i => d[i % 64])
  }

  function Repeat(s: text, n: nat): text
  {
    if n == 0 then [] else Repeat(s, n - 1) + s
  }

  // For each bit of n from the lowest: the digest for a one, the key for a zero.
  function Bits(key: text, d: text, n: nat): text
  {
    if n == 0 then [] else (if n % 2 == 1 then d else key) + Bits(key, d, n / 2)
  }

  function DigestB(T: Sha512.Tables, key: text, salt: text): text { Sha512.Hash(T, key + salt + key) }
  function DigestA(T: Sha512.Tables, key: text, salt: text): (d: text)
    ensures |d| == 64
  {
    var b := DigestB(T, key, salt);
    Sha512.Hash(T, key + salt + Cycle(b, |key|) + Bits(key, b, |key|))
  }
  function PString(T: Sha512.Tables, key: text): text { Cycle(Sha512.Hash(T, Repeat(key, |key|)), |key|) }
  function SString(T: Sha512.Tables, salt: text, a: text): text
    requires |a| == 64
  {
    Cycle(Sha512.Hash(T, Repeat(salt, 16 + a[0] as nat)), |salt|)
  }

  function RoundInput(p: text, s: text, c: text, r: nat): text
  {
    (if r % 2 == 1 then p else c) + (if r % 3 != 0 then s else []) + (if r % 7 != 0 then p else []) +
    (if r % 2 == 1 then c else p)
  }
  function Stretch(T: Sha512.Tables, p: text, s: text, a: text, r: nat): (c: text)
    requires |a| == 64
    ensures |c| == 64
  {
    if r == 0 then a else Sha512.Hash(T, RoundInput(p, s, Stretch(T, p, s, a, r - 1), r - 1))
  }

  function StretchedDigest(T: Sha512.Tables, key: text, salt: text): (c: text)
    ensures |c| == 64
  {
    var a := DigestA(T, key, salt);
    Stretch(T, PString(T, key), SString(T, salt, a), a, ROUNDS)
  }

  /* ---- The base-64 text ---- */

  function B64Char(v: nat): bv8
    requires v < 64
  {
    if v < 12 then (0x2E + v) as bv8 // ./0-9
    else if v < 38 then (0x41 + v - 12) as bv8
    else (0x61 + v - 38) as bv8
  }

  // b64_from_24bit: n characters, least significant six bits first.
  function B64(w: nat, n: nat): (t: text)
    ensures |t| == n
  {
    if n == 0 then [] else [B64Char(w % 64)] + B64(w / 64, n - 1)
  }

  function Word24(b2: bv8, b1: bv8, b0: bv8): nat { b2 as nat * 0x10000 + b1 as nat * 0x100 + b0 as nat }

  // The digest byte that group g (of 21) puts in place k: the three bytes g, g + 21, g + 42 rotated by g.
  function Place(g: nat, k: nat): (i: nat)
    requires g < 21 && k < 3
    ensures i < 63
  {
    g + 21 * ((g + k) % 3)
  }

  function Group(c: text, g: nat): (t: text)
    requires |c| == 64 && g < 21
    ensures |t| == 4
  {
    B64(Word24(c[Place(g, 0)], c[Place(g, 1)], c[Place(g, 2)]), 4)
  }

  function Groups(c: text, g: nat): (t: text)
    requires |c| == 64 && g <= 21
    ensures |t| == 4 * g
  {
    if g == 0 then [] else Groups(c, g - 1) + Group(c, g - 1)
  }

  function B64Digest(c: text): (t: text)
    requires |c| == 64
    ensures |t| == 86
  {
    Groups(c, 21) + B64(c[63] as nat, 2)
  }

  // kratos_crypt as a function of the password and the salt or stored hash.
  function CryptText(T: Sha512.Tables, key: text, salt: text): text
  {
    var s := ExtractSalt(salt);
    PREFIX + s + [DOLLAR] + B64Digest(StretchedDigest(T, key, s))
  }

  /* ---- What a stored hash is good for ---- */

  lemma FindAt(s: text, c: bv8, i: nat)
    requires i < |s| && s[i] == c && c !in s[..i]
    ensures Find(s, c) == i
  {
    assert s[..i + 1][i] == c;
  }

  // The salt survives in the output, whatever salt was given.
  lemma SaltSurvives(T: Sha512.Tables, key: text, salt: text)
    ensures ExtractSalt(CryptText(T, key, salt)) == ExtractSalt(salt)
  {
    hide StretchedDigest, B64Digest, Find;
    var s := ExtractSalt(salt);
    var out := CryptText(T, key, salt);
    var sp := out[3..];
    var tail := B64Digest(StretchedDigest(T, key, s));
    assert out == PREFIX + (s + [DOLLAR] + tail);
    assert sp == s + [DOLLAR] + tail;
    assert sp[..|s|] == s;
    FindAt(sp, DOLLAR, |s|);
  }

  // A stored hash used as the salt reproduces itself, so it verifies its own password.
  lemma StoredHashVerifies(T: Sha512.Tables, key: text, salt: text)
    ensures CryptText(T, key, CryptText(T, key, salt)) == CryptText(T, key, salt)
  {
    hide StretchedDigest, ExtractSalt;
    SaltSurvives(T, key, salt);
  }

  /* ---- Decoding the base-64 text ---- */

  function B64Value(c: bv8): nat
  {
    var v := c as nat;
    if v < 0x3A then (if v >= 0x2E then v - 0x2E else 0)
    else if v < 0x5B then (if v >= 0x41 then v - 0x41 + 12 else 0)
    else if v >= 0x61 then v - 0x61 + 38 else 0
  }

  function Unpack(t: text): nat
  {
    if t == [] then 0 else B64Value(t[0]) + 64 * Unpack(t[1..])
  }

  function DecodeByte(t: text, i: nat): nat
    requires |t| == 86 && i < 64
  {
    if i == 63 then Unpack(t[84..])
    else
      var g, part := i % 21, i / 21;
      var w := Unpack(t[4 * g..4 * g + 4]);
      var k := (part + 2 * g) % 3; // the place where byte g + 21 * part was put
      if k == 0 then w / 0x10000 else if k == 1 then w / 0x100 % 0x100 else w % 0x100
  }

  lemma B64CharValue(v: nat)
    requires v < 64
    ensures B64Value(B64Char(v)) == v
  {
    ByteValue(0x2E + Min(v, 11));
    if 12 <= v < 38 { ByteValue(0x41 + v - 12); }
    if 38 <= v { ByteValue(0x61 + v - 38); }
  }

  function Pow64(n: nat): nat { if n == 0 then 1 else 64 * Pow64(n - 1) }

  lemma {:induction false} UnpackB64(w: nat, n: nat)
    requires w < Pow64(n)
    ensures Unpack(B64(w, n)) == w
  {
    hide B64Value, B64Char;
    if n > 0 {
      UnpackB64(w / 64, n - 1);
      B64CharValue(w % 64);
      assert B64(w, n)[1..] == B64(w / 64, n - 1);
    }
  }

  lemma {:induction false} GroupsSlice(c: text, g: nat, h: nat)
    requires |c| == 64 && g < h <= 21
    ensures Groups(c, h)[4 * g..4 * g + 4] == Group(c, g)
  {
    hide Group;
    if g < h - 1 { GroupsSlice(c, g, h - 1); }
  }

  lemma Parts(x: nat, y: nat, z: nat)
    requires x < 0x100 && y < 0x100 && z < 0x100
    ensures var w := x * 0x10000 + y * 0x100 + z;
      w < 0x100_0000 && w / 0x10000 == x && w / 0x100 % 0x100 == y && w % 0x100 == z
  {
    var w, u := x * 0x10000 + y * 0x100 + z, x * 0x100 + y;
    DivUnique(w, 0x10000, x, y * 0x100 + z);
    DivUnique(w, 0x100, u, z);
    DivUnique(u, 0x100, x, y);
  }

  lemma B64DigestSlice(c: text, g: nat)
    requires |c| == 64 && g < 21
    ensures B64Digest(c)[4 * g..4 * g + 4] == Group(c, g)
  {
    hide Groups, Group, B64;
    GroupsSlice(c, g, 21);
    assert B64Digest(c)[4 * g..4 * g + 4] == Groups(c, 21)[4 * g..4 * g + 4];
  }

  lemma PlaceOf(i: nat)
    requires i < 63
    ensures Place(i % 21, (i / 21 + 2 * (i % 21)) % 3) == i
  {
    var g, part := i % 21, i / 21;
    var t, k := (part + 2 * g) / 3, (part + 2 * g) % 3;
    assert k == part + 2 * g - 3 * t;
    DivUnique(g + k, 3, g - t, part);
  }

  // Each of the 64 digest bytes can be read back from the 86 characters.
  lemma DecodeRight(c: text, i: nat)
    requires |c| == 64 && i < 64
    ensures DecodeByte(B64Digest(c), i) == c[i] as nat
  {
    hide Groups, Group, B64, Unpack, Word24;
    if i == 63 {
      assert B64Digest(c)[84..] == B64(c[63] as nat, 2);
      assert Pow64(2) == 4096;
      UnpackB64(c[63] as nat, 2);
    } else {
      var g := i % 21;
      B64DigestSlice(c, g);
      DecodeGroup(c, g);
      PlaceOf(i);
    }
  }

  lemma UnpackWord24(b2: bv8, b1: bv8, b0: bv8)
    ensures var w := Unpack(B64(Word24(b2, b1, b0), 4));
      w / 0x10000 == b2 as nat && w / 0x100 % 0x100 == b1 as nat && w % 0x100 == b0 as nat
  {
    hide B64, Unpack, Word24;
    var w := Word24(b2, b1, b0);
    Word24Is(b2, b1, b0);
    FourCharacters(w);
    Parts(b2 as nat, b1 as nat, b0 as nat);
  }

  lemma Word24Is(b2: bv8, b1: bv8, b0: bv8)
    ensures Word24(b2, b1, b0) == b2 as nat * 0x10000 + b1 as nat * 0x100 + b0 as nat < 0x100_0000
  {
  }

  lemma FourCharacters(w: nat)
    requires w < 0x100_0000
    ensures Unpack(B64(w, 4)) == w
  {
    hide B64, Unpack;
    assert Pow64(4) == 0x100_0000 by { assert Pow64(2) == 4096; }
    UnpackB64(w, 4);
  }

  lemma DecodeGroup(c: text, g: nat)
    requires |c| == 64 && g < 21
    ensures var w := Unpack(Group(c, g));
      w / 0x10000 == c[Place(g, 0)] as nat && w / 0x100 % 0x100 == c[Place(g, 1)] as nat &&
        w % 0x100 == c[Place(g, 2)] as nat
  {
    hide B64, Unpack, Place, Word24;
    UnpackWord24(c[Place(g, 0)], c[Place(g, 1)], c[Place(g, 2)]);
  }

  // So no two digests share a text.
  lemma B64DigestInjective(c: text, d: text)
    requires |c| == |d| == 64 && B64Digest(c) == B64Digest(d)
    ensures c == d
  {
    hide B64Digest, DecodeByte;
    forall i | 0 <= i < 64 ensures c[i] == d[i] {
      DecodeRight(c, i);
      DecodeRight(d, i);
    }
  }

  // So the source's text for a password is the one of SHA-512crypt, which uses the tables of the
  // standard, exactly when the two stretched digests coincide.
  lemma TextsAgree(key: text, salt: text)
    ensures CryptText(Sha512.Kratos(), key, salt) == CryptText(Sha512.Fips(), key, salt) <==>
      StretchedDigest(Sha512.Kratos(), key, ExtractSalt(salt)) == StretchedDigest(Sha512.Fips(), key, ExtractSalt(salt))
  {
    hide StretchedDigest, B64Digest, ExtractSalt, Sha512.Kratos, Sha512.Fips;
    var s := ExtractSalt(salt);
    var c, d := StretchedDigest(Sha512.Kratos(), key, s), StretchedDigest(Sha512.Fips(), key, s);
    var head := PREFIX + s + [DOLLAR];
    if head + B64Digest(c) == head + B64Digest(d) {
      assert B64Digest(c) == (head + B64Digest(c))[|head|..] == (head + B64Digest(d))[|head|..] == B64Digest(d);
      B64DigestInjective(c, d);
    }
  }

  // The 63 bytes of the 21 full groups: every one in exactly one place.
  lemma EachByteOnce(g: nat, k: nat, i: nat)
    requires g < 21 && k < 3 && i < 63
    ensures Place(g, k) == i <==> g == i % 21 && k == (i / 21 + 2 * g) % 3
  {
    PlaceOf(i);
  }

  /* ---- The procedures ---- */

  // memcpy of a salt that ends at a '$', at its own end or after 16 bytes.
  method CleanSalt(salt: text) returns (clean: text)
    ensures clean == ExtractSalt(salt)
  {
    var sp := if PREFIX <= salt then salt[3..] else salt;
    var len := 0;
    while len < |sp| && sp[len] != DOLLAR
      invariant len <= |sp| && DOLLAR !in sp[..len]
    {
      len := len + 1;
    }
    if len < |sp| { FindAt(sp, DOLLAR, len); }
    assert sp[..|sp|] == sp;
    assert len == Find(sp, DOLLAR);
    if len > MAX_SALT { len := MAX_SALT; }
    return sp[..len];
  }

  // The first n bytes of d repeated: the copy loops of steps F and H.
  method CycleInto(d: text, n: nat) returns (out: text)
    requires |d| == 64
    ensures out == Cycle(d, n)
  {
    var a := new bv8[n];
    for i := 0 to n
      invariant a[..i] == Cycle(d, n)[..i]
    {
      a[i] := d[i % 64];
    }
    return a[..];
  }

  // Step C: whole copies of the digest while more than 64 bytes are left, then the rest.
  method FeedCycle(ctx: Sha512.Engine, d: text, n: nat)
    requires ctx.Valid() && |d| == 64
    modifies ctx, ctx.state, ctx.buffer
    ensures ctx.Valid() && ctx.msg == old(ctx.msg) + Cycle(d, n)
  {
    hide Sha512.Engine.Valid, Sha512.Engine.Absorbed, Cycle;
    var rem: nat := n;
    ghost var copies: nat := 0;
    assert d[..64] == d;
    while rem > 64
      invariant ctx.Valid() && 64 * copies + rem == n
      invariant ctx.msg == old(ctx.msg) + Cycle(d, n)[..64 * copies]
    {
      CycleNext(d, n, copies, 64);
      ctx.Update(d);
      rem := rem - 64;
      copies := copies + 1;
    }
    CycleNext(d, n, copies, rem);
    if rem > 0 { ctx.Update(d[..rem]); }
    assert Cycle(d, n)[..n] == Cycle(d, n);
  }

  // One more copy of the digest, or a part of one, behind whole copies.
  lemma CycleNext(d: text, n: nat, copies: nat, m: nat)
    requires |d| == 64 && m <= 64 && 64 * copies + m <= n
    ensures Cycle(d, n)[..64 * copies] + d[..m] == Cycle(d, n)[..64 * copies + m]
  {
    var c := Cycle(d, n);
    forall i | 0 <= i < m ensures c[64 * copies + i] == d[i] { DivUnique(64 * copies + i, 64, copies, i); }
  }

  // Step D: one update per bit of the key length.
  method FeedBits(ctx: Sha512.Engine, key: text, d: text)
    requires ctx.Valid() && |d| == 64 && |key| <= MAX_KEY
    modifies ctx, ctx.state, ctx.buffer
    ensures ctx.Valid() && ctx.msg == old(ctx.msg) + Bits(key, d, |key|)
  {
    hide Sha512.Engine.Valid, Sha512.Engine.Absorbed;
    var v: nat := |key|;
    while v > 0
      invariant ctx.Valid() && ctx.msg + Bits(key, d, v) == old(ctx.msg) + Bits(key, d, |key|)
    {
      ghost var before := ctx.msg;
      var piece := if v % 2 == 1 then d else key;
      ctx.Update(piece);
      assert before + (piece + Bits(key, d, v / 2)) == ctx.msg + Bits(key, d, v / 2);
      v := v / 2;
    }
  }

  method HashRepeated(s: text, n: nat) returns (d: text)
    requires |s| <= MAX_KEY
    ensures d == Sha512.Hash(Sha512.Kratos(), Repeat(s, n))
  {
    hide Sha512.Engine.Valid, Sha512.Engine.Absorbed, Sha512.Hash, Sha512.Kratos;
    var ctx := new Sha512.Engine();
    for i := 0 to n
      invariant ctx.Valid() && fresh(ctx) && fresh(ctx.state) && fresh(ctx.buffer) && ctx.msg == Repeat(s, i)
    {
      ctx.Update(s);
    }
    var out := ctx.Final();
    return out[..];
  }

  // One of the 5000 rounds of step I.
  method Round(p: text, s: text, c: text, r: nat) returns (d: text)
    requires |p| <= MAX_KEY && |s| <= MAX_SALT && |c| == 64
    ensures d == Sha512.Hash(Sha512.Kratos(), RoundInput(p, s, c, r))
  {
    hide Sha512.Hash, Sha512.Kratos, Sha512.Engine.Valid, Sha512.Engine.Absorbed;
    var ctx := new Sha512.Engine();
    FeedRound(ctx, p, s, c, r);
    var out := ctx.Final();
    return out[..];
  }

  method FeedRound(ctx: Sha512.Engine, p: text, s: text, c: text, r: nat)
    requires ctx.Valid() && ctx.msg == [] && |p| <= MAX_KEY && |s| <= MAX_SALT && |c| == 64
    modifies ctx, ctx.state, ctx.buffer
    ensures ctx.Valid() && ctx.msg == RoundInput(p, s, c, r)
  {
    hide Sha512.Engine.Valid, Sha512.Engine.Absorbed;
    if r % 2 == 1 { ctx.Update(p); } else { ctx.Update(c); }
    if r % 3 != 0 { ctx.Update(s); }
    if r % 7 != 0 { ctx.Update(p); }
    if r % 2 == 1 { ctx.Update(c); } else { ctx.Update(p); }
  }

  // b64_from_24bit: appends n characters of the 24-bit word at the end of the output.
  method B64From24Bit(b2: bv8, b1: bv8, b0: bv8, n: nat, out: text) returns (next: text)
    ensures next == out + B64(Word24(b2, b1, b0), n)
  {
    var w, left := Word24(b2, b1, b0), n;
    next := out;
    while left > 0
      invariant 0 <= left <= n && next + B64(w, left) == out + B64(Word24(b2, b1, b0), n)
    {
      ghost var before, rest := next, B64(w / 64, left - 1);
      next := next + [B64Char(w % 64)];
      assert before + ([B64Char(w % 64)] + rest) == next + rest;
      w, left := w / 64, left - 1;
    }
  }

  // The digest bytes named in the g-th call of b64_from_24bit.
  function CallBytes(g: nat): (t: (nat, nat, nat))
    requires g < 21
    ensures t == (Place(g, 0), Place(g, 1), Place(g, 2))
  {
    match g
    case 0 => (0, 21, 42)
    case 1 => (22, 43, 1)
    case 2 => (44, 2, 23)
    case 3 => (3, 24, 45)
    case 4 => (25, 46, 4)
    case 5 => (47, 5, 26)
    case 6 => (6, 27, 48)
    case 7 => (28, 49, 7)
    case 8 => (50, 8, 29)
    case 9 => (9, 30, 51)
    case 10 => (31, 52, 10)
    case 11 => (53, 11, 32)
    case 12 => (12, 33, 54)
    case 13 => (34, 55, 13)
    case 14 => (56, 14, 35)
    case 15 => (15, 36, 57)
    case 16 => (37, 58, 16)
    case 17 => (59, 17, 38)
    case 18 => (18, 39, 60)
    case 19 => (40, 61, 19)
    case _ => (62, 20, 41)
  }

  // Step J.
  method EncodeDigest(c: text) returns (t: text)
    requires |c| == 64
    ensures t == B64Digest(c)
  {
    hide B64, Word24, CallBytes, Place;
    var ptr: text := [];
    for g := 0 to 21
      invariant ptr == Groups(c, g)
    {
      var (i2, i1, i0) := CallBytes(g);
      ptr := B64From24Bit(c[i2], c[i1], c[i0], 4, ptr);
    }
    ptr := B64From24Bit(0, 0, c[63], 2, ptr);
    Word24Low(c[63]);
    return ptr;
  }

  lemma Word24Low(b: bv8)
    ensures Word24(0, 0, b) == b as nat
  {
  }

  // Steps A to D of kratos_crypt.
  method FirstDigest(key: text, cleanSalt: text) returns (digestA: text)
    requires |key| <= MAX_KEY && |cleanSalt| <= MAX_SALT
    ensures digestA == DigestA(Sha512.Kratos(), key, cleanSalt)
  {
    hide Sha512.Hash, Sha512.Kratos, Sha512.Engine.Valid, Sha512.Engine.Absorbed, Cycle, Bits;
    var ctxB := new Sha512.Engine();
    ctxB.Update(key);
    ctxB.Update(cleanSalt);
    ctxB.Update(key);
    assert ctxB.msg == key + cleanSalt + key;
    var b := ctxB.Final();
    var digestB := b[..];

    var ctxA := new Sha512.Engine();
    ctxA.Update(key);
    ctxA.Update(cleanSalt);
    assert ctxA.msg == key + cleanSalt;
    FeedCycle(ctxA, digestB, |key|);
    FeedBits(ctxA, key, digestB);
    var a := ctxA.Final();
    return a[..];
  }

  // kratos_crypt
  method KratosCrypt(key: text, salt: text) returns (result: text)
    requires |key| <= MAX_KEY
    ensures result == CryptText(Sha512.Kratos(), key, salt)
  {
    hide Sha512.Hash, Sha512.Kratos, Cycle, DigestA, Repeat, RoundInput, B64Digest, ExtractSalt;
    var cleanSalt := CleanSalt(salt);
    var digestA := FirstDigest(key, cleanSalt);
    var dp := HashRepeated(key, |key|);
    var p := CycleInto(dp, |key|);
    var ds := HashRepeated(cleanSalt, 16 + digestA[0] as nat);
    var s := CycleInto(ds, |cleanSalt|);
    var c := digestA;
    for r := 0 to ROUNDS
      invariant c == Stretch(Sha512.Kratos(), p, s, digestA, r)
    {
      c := Round(p, s, c, r);
    }
    var tail := EncodeDigest(c);
    return PREFIX + cleanSalt + [DOLLAR] + tail;
  }

  // constant_time_streq: every position is looked at, and the answer is equality.
  method ConstantTimeStreq(a: text, b: text) returns (equal: bool)
    ensures equal <==> a == b
  {
    var max := if |a| > |b| then |a| else |b|;
    var diff: bv8 := if |a| != |b| then 1 else 0;
    for i := 0 to max
      invariant diff == 0 <==> |a| == |b| && a[..i] == b[..i]
    {
      var ca := if i < |a| then a[i] else 0;
      var cb := if i < |b| then b[i] else 0;
      OrXorZero(diff, ca, cb);
      if |a| == |b| { assert a[..i + 1] == a[..i] + [ca] && b[..i + 1] == b[..i] + [cb]; }
      diff := diff | (ca ^ cb);
    }
    return diff == 0;
  }

  lemma OrXorZero(d: bv8, x: bv8, y: bv8)
    ensures (d | (x ^ y)) == 0 <==> d == 0 && x == y
  {
  }
}
