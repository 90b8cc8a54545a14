/** The password scheme byte by byte: what each of its strings holds, how often each goes into the
    hash, and what every character of the text stands for. */
module CryptScheme {
  import opened ByteBits
  import opened HashBytes
  import opened Crypt
  import Sha512

  /* ---- Salt and layout ---- */

  // The salt is what stands behind "$6$", if that is there, up to a dollar sign, the end or 16 bytes.
  lemma ExtractedSalt(salt: text)
    ensures var sp := if [0x24, 0x36, 0x24] <= salt then salt[3..] else salt;
      var s := ExtractSalt(salt);
      s <= sp && |s| <= 16 && 0x24 !in s && (|s| == 16 || |s| == |sp| || sp[|s|] == 0x24)
  {
  }

  // The character code of a six-bit value: "./", digits, capitals, small letters.
  function Code(v: nat): nat
    requires v < 64
  {
    if v < 2 then 46 + v else if v < 12 then 48 + (v - 2) else if v < 38 then 65 + (v - 12) else 97 + (v - 38)
  }

  lemma CharIs(v: nat)
    requires v < 64
    ensures B64Char(v) as nat == Code(v)
  {
    ByteValue(Code(v));
  }

  lemma TextLayout(T: Sha512.Tables, key: text, salt: text)
    ensures var s, t := ExtractSalt(salt), CryptText(T, key, salt);
      |t| == |s| + 90 && t[..3] == [0x24, 0x36, 0x24] && t[3..3 + |s|] == s && t[3 + |s|] == 0x24 &&
      t[4 + |s|..] == B64Digest(StretchedDigest(T, key, s))
  {
    hide ExtractSalt, B64Digest, StretchedDigest;
  }

  /* ---- The strings ---- */

  // m is s, n times over.
  predicate Repeats(m: text, s: text, n: nat)
  {
    |m| == |s| * n && forall i | 0 <= i < |m| :: m[i] == s[i % |s|]
  }

  lemma {:induction false} RepeatIs(s: text, n: nat)
    ensures Repeats(Repeat(s, n), s, n)
  {
    if n > 0 {
      RepeatIs(s, n - 1);
      OneMore(Repeat(s, n - 1), s, n - 1);
    }
  }

  lemma OneMore(m: text, s: text, n: nat)
    requires Repeats(m, s, n)
    ensures Repeats(m + s, s, n + 1)
  {
    Grown(|s|, n, 1);
    forall i | |m| <= i < |m| + |s| ensures i % |s| == i - |m| {
      DivUnique(i, |s|, n, i - |m|);
      LeftOver(i, |s|, n, i - |m|);
    }
  }

  lemma LeftOver(i: nat, d: nat, q: nat, r: nat)
    requires d > 0 && i / d == q && i == d * q + r
    ensures i % d == r
  {
  }

  // The password's string: as many bytes of the digest of the password times its length.
  lemma PStringIs(T: Sha512.Tables, key: text) returns (m: text)
    ensures Repeats(m, key, |key|) && |PString(T, key)| == |key|
    ensures forall i | 0 <= i < |key| :: PString(T, key)[i] == Sha512.Hash(T, m)[i % 64]
  {
    hide Sha512.Hash;
    m := Repeat(key, |key|);
    RepeatIs(key, |key|);
  }

  // The salt's string, likewise, from the salt repeated 16 times and once for each unit of the
  // first byte of the first digest.
  lemma SStringIs(T: Sha512.Tables, salt: text, a: text) returns (m: text)
    requires |a| == 64
    ensures Repeats(m, salt, 16 + a[0] as nat) && |SString(T, salt, a)| == |salt|
    ensures forall i | 0 <= i < |salt| :: SString(T, salt, a)[i] == Sha512.Hash(T, m)[i % 64]
  {
    hide Sha512.Hash;
    m := Repeat(salt, 16 + a[0] as nat);
    RepeatIs(salt, 16 + a[0] as nat);
  }

  // The number bits spell, lowest first, and the text that has the digest for a one and the
  // password for a zero.
  function Number(bits: seq<bool>): nat
  {
    if bits == [] then 0 else (if bits[0] then 1 else 0) + 2 * Number(bits[1..])
  }

  function Spelled(bits: seq<bool>, one: text, zero: text): text
  {
    if bits == [] then []
    else
      var n := |bits| - 1;
      Spelled(bits[..n], one, zero) + if bits[n] then one else zero
  }

  lemma {:induction false} SpelledFirst(bits: seq<bool>, one: text, zero: text)
    requires bits != []
    ensures Spelled(bits, one, zero) == (if bits[0] then one else zero) + Spelled(bits[1..], one, zero)
  {
    var n := |bits| - 1;
    if n > 0 {
      SpelledFirst(bits[..n], one, zero);
      assert bits[1..][..n - 1] == bits[..n][1..];
    } else {
      assert bits[..0] == [] && bits[1..] == [];
    }
  }

  lemma {:induction false} BitsIs(key: text, d: text, n: nat) returns (bits: seq<bool>)
    ensures Number(bits) == n && (bits == [] || bits[|bits| - 1]) && Bits(key, d, n) == Spelled(bits, d, key)
  {
    if n == 0 {
      bits := [];
    } else {
      var rest := BitsIs(key, d, n / 2);
      bits := [n % 2 == 1] + rest;
      assert bits[1..] == rest;
      SpelledFirst(bits, d, key);
    }
  }

  // The first digest is that of the password, the salt, the digest of password, salt and password
  // in as many bytes as the password has, and that digest or the password for each binary digit of
  // the password's length.
  lemma FirstDigestIs(T: Sha512.Tables, key: text, salt: text) returns (cycle: text, bits: seq<bool>)
    ensures var b := Sha512.Hash(T, key + salt + key);
      |cycle| == |key| && (forall i | 0 <= i < |key| :: cycle[i] == b[i % 64]) &&
      Number(bits) == |key| && (bits == [] || bits[|bits| - 1]) &&
      DigestA(T, key, salt) == Sha512.Hash(T, key + salt + cycle + Spelled(bits, b, key))
  {
    hide Sha512.Hash;
    var b := Sha512.Hash(T, key + salt + key);
    cycle := Cycle(b, |key|);
    bits := BitsIs(key, b, |key|);
  }

  /* ---- The rounds ---- */

  // The digest so far stands first in even rounds and last in odd ones, the password's string at the
  // other end; between them the salt's string but in every third round, and the password's again
  // but in every seventh.
  lemma RoundInputIs(p: text, s: text, c: text, r: nat)
    ensures var m := RoundInput(p, s, c, r);
      var first, last := if r % 2 == 0 then c else p, if r % 2 == 0 then p else c;
      m ==
        if r % 21 == 0 then first + last
        else if r % 7 == 0 then first + s + last
        else if r % 3 == 0 then first + p + last
        else first + s + p + last
  {
    ThirdAndSeventh(r);
  }

  lemma ThirdAndSeventh(r: nat)
    ensures r % 21 == 0 <==> r % 3 == 0 && r % 7 == 0
  {
    var q, t := r / 21, r % 21;
    DivUnique(r, 3, 7 * q + t / 3, t % 3);
    DivUnique(r, 7, 3 * q + t / 7, t % 7);
    Below21(t);
  }

  lemma Below21(t: nat)
    requires t < 21
    ensures t == 0 <==> t % 3 == 0 && t % 7 == 0
  {
  }

  // 5000 rounds, each hashing what its number selects, from the first digest on.
  lemma StretchedIs(T: Sha512.Tables, key: text, salt: text, r: nat)
    ensures var a := DigestA(T, key, salt);
      var p, s := PString(T, key), SString(T, salt, a);
      StretchedDigest(T, key, salt) == Stretch(T, p, s, a, 5000) && Stretch(T, p, s, a, 0) == a &&
      Stretch(T, p, s, a, r + 1) == Sha512.Hash(T, RoundInput(p, s, Stretch(T, p, s, a, r), r))
  {
    hide DigestA, PString, SString, RoundInput, Sha512.Hash;
  }

  // The bytes hashed in the first r rounds.
  function Fed(p: text, s: text, c: text, r: nat): nat
  {
    if r == 0 then 0 else Fed(p, s, c, r - 1) + |RoundInput(p, s, c, r - 1)|
  }

  lemma {:induction false} FedIs(p: text, s: text, c: text, r: nat)
    ensures Fed(p, s, c, r) == |c| * r + |p| * (2 * r - (r + 6) / 7) + |s| * (r - (r + 2) / 3)
  {
    hide RoundInput;
    if r > 0 {
      var n := r - 1;
      FedIs(p, s, c, n);
      RoundLength(p, s, c, n);
      Counted(n);
      Grown(|c|, n, 1);
      Grown(|p|, 2 * n - (n + 6) / 7, if n % 7 == 0 then 1 else 2);
      Grown(|s|, n - (n + 2) / 3, if n % 3 == 0 then 0 else 1);
    }
  }

  lemma RoundLength(p: text, s: text, c: text, r: nat)
    ensures |RoundInput(p, s, c, r)| ==
      |c| * 1 + |p| * (if r % 7 == 0 then 1 else 2) + |s| * (if r % 3 == 0 then 0 else 1)
  {
  }

  lemma Counted(r: nat)
    ensures 2 * (r + 1) - (r + 7) / 7 == 2 * r - (r + 6) / 7 + if r % 7 == 0 then 1 else 2
    ensures (r + 1) - (r + 3) / 3 == r - (r + 2) / 3 + if r % 3 == 0 then 0 else 1
  {
  }

  lemma Grown(a: nat, b: int, c: int)
    ensures a * (b + c) == a * b + a * c
  {
  }

  // Over the 5000 rounds the password's string is hashed 9285 times and the salt's 3333 times.
  lemma FedInAll(p: text, s: text, c: text)
    requires |c| == 64
    ensures Fed(p, s, c, 5000) == 320000 + 9285 * |p| + 3333 * |s|
  {
    hide Fed;
    FedIs(p, s, c, 5000);
    assert (5000 + 6) / 7 == 715 && (5000 + 2) / 3 == 1667;
  }

  /* ---- The characters ---- */

  // Four characters of the text spell three bytes of the digest, 21 apart, lowest six bits first;
  // which of them is the highest goes round with the number of the group.
  lemma GroupSpells(c: text, g: nat, i: nat)
    requires |c| == 64 && g < 21 && i < 4
    ensures var x, y, z := c[g] as nat, c[g + 21] as nat, c[g + 42] as nat;
      var w :=
        if g % 3 == 0 then x * 65536 + y * 256 + z
        else if g % 3 == 1 then y * 65536 + z * 256 + x
        else z * 65536 + x * 256 + y;
      B64Digest(c)[4 * g + i] as nat == Code(Sextet(w, i))
  {
    hide B64Digest, Groups, B64, B64Char, Code, Sextet, Place;
    B64DigestSlice(c, g);
    assert B64Digest(c)[4 * g + i] == B64Digest(c)[4 * g..4 * g + 4][i];
    Chars(Word24(c[Place(g, 0)], c[Place(g, 1)], c[Place(g, 2)]), 4, i);
    Places(g);
  }

  lemma Places(g: nat)
    requires g < 21
    ensures g % 3 == 0 ==> Place(g, 0) == g && Place(g, 1) == g + 21 && Place(g, 2) == g + 42
    ensures g % 3 == 1 ==> Place(g, 0) == g + 21 && Place(g, 1) == g + 42 && Place(g, 2) == g
    ensures g % 3 == 2 ==> Place(g, 0) == g + 42 && Place(g, 1) == g && Place(g, 2) == g + 21
  {
  }

  // Two characters spell a byte, lowest six bits first.
  predicate SpellsByte(t: text, b: bv8)
  {
    var w := b as nat;
    |t| == 2 && w < 256 && t[0] as nat == Code(w % 64) && t[1] as nat == Code(w / 64)
  }

  // Two characters for the last byte.
  lemma LastSpells(c: text)
    requires |c| == 64
    ensures SpellsByte(B64Digest(c)[84..], c[63])
  {
    hide Groups, SpellsByte, B64;
    TwoChars(c[63]);
    assert B64Digest(c)[84..] == B64(c[63] as nat, 2);
  }

  lemma TwoChars(b: bv8)
    ensures SpellsByte(B64(b as nat, 2), b)
  {
    hide B64Char, Code;
    var w := b as nat;
    CharIs(w % 64);
    CharIs(w / 64 % 64);
    assert B64(w, 2) == [B64Char(w % 64)] + B64(w / 64, 1);
    assert B64(w / 64, 1) == [B64Char(w / 64 % 64)] + B64(w / 64 / 64, 0);
  }

  // Six bits of a number, the i-th from below.
  function Sextet(w: nat, i: nat): (v: nat)
    ensures v < 64
  {
    if i == 0 then w % 64 else Sextet(w / 64, i - 1)
  }

  lemma {:induction false} Chars(w: nat, n: nat, i: nat)
    requires i < n
    ensures B64(w, n)[i] as nat == Code(Sextet(w, i))
  {
    hide B64Char, Code;
    if i == 0 { CharIs(w % 64); } else { Chars(w / 64, n - 1, i - 1); }
  }
}
