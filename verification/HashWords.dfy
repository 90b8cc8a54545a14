/** The words of the two hash engines are the big-endian numbers their bytes spell. */
module HashWords {
  import opened HashBytes
  import Sha256
  import Sha512

  lemma TwoBytes(a: bv8, b: bv8)
    ensures (((a as bv16) << 8) | (b as bv16)) as nat == a as nat * 256 + b as nat
  {
  }

  lemma TwoHalves(a: bv16, b: bv16)
    ensures (((a as bv32) << 16) | (b as bv32)) as nat == a as nat * 0x1_0000 + b as nat
  {
  }

  lemma TwoWords(a: bv32, b: bv32)
    ensures (((a as bv64) << 32) | (b as bv64)) as nat == a as nat * 0x1_0000_0000 + b as nat
  {
  }

  lemma Halves(a: bv8, b: bv8, c: bv8, d: bv8)
    ensures ((a as bv32) << 24) | ((b as bv32) << 16) | ((c as bv32) << 8) | (d as bv32) ==
      (((((a as bv16) << 8) | (b as bv16)) as bv32) << 16) | ((((c as bv16) << 8) | (d as bv16)) as bv32)
  {
  }

  lemma Number4(a: nat, b: nat, c: nat, d: nat)
    ensures (a * 256 + b) * 0x1_0000 + (c * 256 + d) == ((a * 256 + b) * 256 + c) * 256 + d
  {
  }

  lemma FourBytes(a: bv8, b: bv8, c: bv8, d: bv8)
    ensures (((a as bv32) << 24) | ((b as bv32) << 16) | ((c as bv32) << 8) | (d as bv32)) as nat ==
      ((a as nat * 256 + b as nat) * 256 + c as nat) * 256 + d as nat
  {
    Halves(a, b, c, d);
    TwoBytes(a, b);
    TwoBytes(c, d);
    TwoHalves(((a as bv16) << 8) | (b as bv16), ((c as bv16) << 8) | (d as bv16));
    Number4(a as nat, b as nat, c as nat, d as nat);
  }

  lemma ValueOfFour(b: seq<bv8>)
    requires |b| == 4
    ensures Value(b) == ((b[0] as nat * 256 + b[1] as nat) * 256 + b[2] as nat) * 256 + b[3] as nat
  {
    assert b[..3][..2] == b[..2] && b[..2][..1] == b[..1] && b[..1][..0] == [];
    assert Value(b[..1]) == b[0] as nat;
    assert Value(b[..2]) == Value(b[..1]) * 256 + b[1] as nat;
    assert Value(b[..3]) == Value(b[..2]) * 256 + b[2] as nat;
  }

  // A word of a block is the number its four bytes spell.
  lemma WordValue32(d: seq<bv8>, i: nat)
    requires i + 4 <= |d|
    ensures Sha256.WordAt(d, i) as nat == Value(d[i..i + 4])
  {
    FourBytes(d[i], d[i + 1], d[i + 2], d[i + 3]);
    ValueOfFour(d[i..i + 4]);
  }

  // And a word of a digest is written as the number it is.
  lemma BytesValue32(w: bv32)
    ensures Value(Sha256.WordBytes(w)) == w as nat
  {
    var b := Sha256.WordBytes(w);
    Written32(w);
    WordValue32(b, 0);
    assert b[0..4] == b;
  }

  lemma Written32(w: bv32)
    ensures Sha256.WordAt(Sha256.WordBytes(w), 0) == w
  {
  }

  function Four(a: bv8, b: bv8, c: bv8, d: bv8): bv32
  {
    ((a as bv32) << 24) | ((b as bv32) << 16) | ((c as bv32) << 8) | (d as bv32)
  }

  function Eight(a: bv8, b: bv8, c: bv8, d: bv8, e: bv8, f: bv8, g: bv8, h: bv8): bv64
  {
    ((a as bv64) << 56) | ((b as bv64) << 48) | ((c as bv64) << 40) | ((d as bv64) << 32) |
    ((e as bv64) << 24) | ((f as bv64) << 16) | ((g as bv64) << 8) | (h as bv64)
  }

  function Joined(x: bv32, y: bv32): bv64 { ((x as bv64) << 32) | (y as bv64) }

  lemma EightIsJoined(a: bv8, b: bv8, c: bv8, d: bv8, e: bv8, f: bv8, g: bv8, h: bv8)
    ensures Eight(a, b, c, d, e, f, g, h) == Joined(Four(a, b, c, d), Four(e, f, g, h))
  {
  }

  lemma Spelled32(d: seq<bv8>, i: nat)
    requires i + 4 <= |d|
    ensures Sha256.WordAt(d, i) == Four(d[i], d[i + 1], d[i + 2], d[i + 3])
  {
  }

  lemma Spelled64(d: seq<bv8>, i: nat)
    requires i + 8 <= |d|
    ensures Sha512.WordAt(d, i) == Eight(d[i], d[i + 1], d[i + 2], d[i + 3], d[i + 4], d[i + 5], d[i + 6], d[i + 7])
  {
  }

  lemma EightBytes(d: seq<bv8>)
    requires |d| == 8
    ensures Sha512.WordAt(d, 0) == Joined(Sha256.WordAt(d, 0), Sha256.WordAt(d, 4))
  {
    hide Sha256.WordAt, Sha512.WordAt, Four, Eight, Joined;
    Spelled32(d, 0);
    Spelled32(d, 4);
    Spelled64(d, 0);
    EightIsJoined(d[0], d[1], d[2], d[3], d[4], d[5], d[6], d[7]);
  }

  lemma ValueOfEight(b: seq<bv8>)
    requires |b| == 8
    ensures Value(b) == Value(b[..4]) * 0x1_0000_0000 + Value(b[4..])
  {
    ValueOfFour(b[4..]);
    assert b[..7][..6] == b[..6] && b[..6][..5] == b[..5] && b[..5][..4] == b[..4];
    assert Value(b[..5]) == Value(b[..4]) * 256 + b[4] as nat;
    assert Value(b[..6]) == Value(b[..5]) * 256 + b[5] as nat;
    assert Value(b[..7]) == Value(b[..6]) * 256 + b[6] as nat;
  }

  lemma WordValue64(d: seq<bv8>, i: nat)
    requires i + 8 <= |d|
    ensures Sha512.WordAt(d, i) as nat == Value(d[i..i + 8])
  {
    hide Sha256.WordAt, Value;
    var b := d[i..i + 8];
    Shifted(d, i);
    EightBytes(b);
    TwoWords(Sha256.WordAt(b, 0), Sha256.WordAt(b, 4));
    WordValue32(b, 0);
    WordValue32(b, 4);
    ValueOfEight(b);
    assert b[0..4] == b[..4] && b[4..8] == b[4..];
  }

  lemma Shifted(d: seq<bv8>, i: nat)
    requires i + 8 <= |d|
    ensures Sha512.WordAt(d, i) == Sha512.WordAt(d[i..i + 8], 0)
  {
  }

  lemma BytesValue64(w: bv64)
    ensures Value(Sha512.WordBytes(w)) == w as nat
  {
    hide Value;
    var b := Sha512.WordBytes(w);
    Written64(w);
    WordValue64(b, 0);
    assert b[0..8] == b;
  }

  lemma Written64(w: bv64)
    ensures Sha512.WordAt(Sha512.WordBytes(w), 0) == w
  {
  }
}
