/** SHA-256 of "abc", the example the standard is published with (FIPS 180-4, section 6.2): the
    padding, the schedule, every round and the digest. */
module Sha256Example {
  import opened HashBytes
  import opened Sha256

  const ABC: seq<bv8> := [0x61, 0x62, 0x63]

  // The one block of the padded message.
  predicate IsBlock(b: seq<bv8>)
  {
    |b| == BLOCK && b[0] == 0x61 && b[1] == 0x62 && b[2] == 0x63 && b[3] == 0x80 && b[BLOCK - 1] == 24 &&
    forall j | 4 <= j < BLOCK - 1 :: b[j] == 0
  }

  lemma Padded()
    ensures IsBlock(Pad(ABC))
  {
    hide BigEndian;
    LengthBytes();
    BlockIs(Pad(ABC));
  }

  lemma BlockIs(b: seq<bv8>)
    requires b == ABC + [0x80] + Zeros(52) + (Zeros(7) + [24])
    ensures IsBlock(b)
  {
  }

  lemma LengthBytes()
    ensures BigEndian64(24) == Zeros(7) + [24]
  {
    ZeroBytes(7);
    assert 24 as nat / 256 == 0 && (24 % 256) as bv8 == 24;
  }

  lemma DigestAppend(ws: seq<bv32>, w: bv32)
    ensures DigestBytes(ws + [w]) == DigestBytes(ws) + WordBytes(w)
  {
    assert (ws + [w])[..|ws|] == ws;
  }

  lemma Schedule0(b: seq<bv8>)
    requires IsBlock(b)
    ensures W(b, 0) == 0x61626380 && W(b, 1) == 0x00000000 && W(b, 2) == 0x00000000 && W(b, 3) == 0x00000000
    ensures W(b, 4) == 0x00000000 && W(b, 5) == 0x00000000 && W(b, 6) == 0x00000000 && W(b, 7) == 0x00000000
  {
  }

  lemma Schedule8(b: seq<bv8>)
    requires IsBlock(b)
    ensures W(b, 8) == 0x00000000 && W(b, 9) == 0x00000000 && W(b, 10) == 0x00000000 && W(b, 11) == 0x00000000
    ensures W(b, 12) == 0x00000000 && W(b, 13) == 0x00000000 && W(b, 14) == 0x00000000 && W(b, 15) == 0x00000018
  {
  }

  lemma Schedule16(b: seq<bv8>)
    requires IsBlock(b)
    ensures W(b, 16) == 0x61626380 && W(b, 17) == 0x000f0000 && W(b, 18) == 0x7da86405 && W(b, 19) == 0x600003c6
    ensures W(b, 20) == 0x3e9d7b78 && W(b, 21) == 0x0183fc00 && W(b, 22) == 0x12dcbfdb && W(b, 23) == 0xe2e2c38e
  {
    Schedule0(b);
    Schedule8(b);
  }

  lemma Schedule24(b: seq<bv8>)
    requires IsBlock(b)
    ensures W(b, 24) == 0xc8215c1a && W(b, 25) == 0xb73679a2 && W(b, 26) == 0xe5bc3909 && W(b, 27) == 0x32663c5b
    ensures W(b, 28) == 0x9d209d67 && W(b, 29) == 0xec8726cb && W(b, 30) == 0x702138a4 && W(b, 31) == 0xd3b7973b
  {
    Schedule8(b);
    Schedule16(b);
  }

  lemma Schedule32(b: seq<bv8>)
    requires IsBlock(b)
    ensures W(b, 32) == 0x93f5997f && W(b, 33) == 0x3b68ba73 && W(b, 34) == 0xaff4ffc1 && W(b, 35) == 0xf10a5c62
    ensures W(b, 36) == 0x0a8b3996 && W(b, 37) == 0x72af830a && W(b, 38) == 0x9409e33e && W(b, 39) == 0x24641522
  {
    Schedule16(b);
    Schedule24(b);
  }

  lemma Schedule40(b: seq<bv8>)
    requires IsBlock(b)
    ensures W(b, 40) == 0x9f47bf94 && W(b, 41) == 0xf0a64f5a && W(b, 42) == 0x3e246a79 && W(b, 43) == 0x27333ba3
    ensures W(b, 44) == 0x0c4763f2 && W(b, 45) == 0x840abf27 && W(b, 46) == 0x7a290d5d && W(b, 47) == 0x065c43da
  {
    Schedule24(b);
    Schedule32(b);
  }

  lemma Schedule48(b: seq<bv8>)
    requires IsBlock(b)
    ensures W(b, 48) == 0xfb3e89cb && W(b, 49) == 0xcc7617db && W(b, 50) == 0xb9e66c34 && W(b, 51) == 0xa9993667
    ensures W(b, 52) == 0x84badedd && W(b, 53) == 0xc21462bc && W(b, 54) == 0x1487472c && W(b, 55) == 0xb20f7a99
  {
    Schedule32(b);
    Schedule40(b);
  }

  lemma Schedule56(b: seq<bv8>)
    requires IsBlock(b)
    ensures W(b, 56) == 0xef57b9cd && W(b, 57) == 0xebe6b238 && W(b, 58) == 0x9fe3095e && W(b, 59) == 0x78bc8d4b
    ensures W(b, 60) == 0xa43fcf15 && W(b, 61) == 0x668b2ff8 && W(b, 62) == 0xeeaba2cc && W(b, 63) == 0x12b1edeb
  {
    Schedule40(b);
    Schedule48(b);
  }

  lemma Rounds8(b: seq<bv8>)
    requires |b| == BLOCK && IsBlock(b)
    ensures Rounds(H0, b, 8) ==
      Words(0x85a07b5f, 0xe5030380, 0x2b4209f5, 0x04409a6a, 0x0c657a79, 0x9b27a401, 0x714260ad, 0x43ada245)
  {
    hide IsBlock, W, Rounds, K256;
    Constants0();
    Schedule0(b);
    Start(b);
    var v := Words(0x6a09e667, 0xbb67ae85, 0x3c6ef372, 0xa54ff53a, 0x510e527f, 0x9b05688c, 0x1f83d9ab, 0x5be0cd19);
    v := Round(b, 0, v, 0x428a2f98, 0x61626380, 0x5d6aebcd, 0xfa2a4622);
    v := Round(b, 1, v, 0x71374491, 0x00000000, 0x5a6ad9ad, 0x78ce7989);
    v := Round(b, 2, v, 0xb5c0fbcf, 0x00000000, 0xc8c347a7, 0xf92939eb);
    v := Round(b, 3, v, 0xe9b5dba5, 0x00000000, 0xd550f666, 0x24e00850);
    v := Round(b, 4, v, 0x3956c25b, 0x00000000, 0x04409a6a, 0x43ada245);
    v := Round(b, 5, v, 0x59f111f1, 0x00000000, 0x2b4209f5, 0x714260ad);
    v := Round(b, 6, v, 0x923f82a4, 0x00000000, 0xe5030380, 0x9b27a401);
    v := Round(b, 7, v, 0xab1c5ed5, 0x00000000, 0x85a07b5f, 0x0c657a79);
  }

  lemma Rounds16(b: seq<bv8>)
    requires |b| == BLOCK && IsBlock(b)
    ensures Rounds(H0, b, 16) ==
      Words(0xb0fa238e, 0xc0645fde, 0xd932eb16, 0x87912990, 0x07590dcd, 0x0b92f20c, 0x745a48de, 0x1e578218)
  {
    hide IsBlock, W, Rounds, K256;
    Constants8();
    Schedule8(b);
    Rounds8(b);
    var v := Words(0x85a07b5f, 0xe5030380, 0x2b4209f5, 0x04409a6a, 0x0c657a79, 0x9b27a401, 0x714260ad, 0x43ada245);
    v := Round(b, 8, v, 0xd807aa98, 0x00000000, 0x8e04ecb9, 0x32ca2d8c);
    v := Round(b, 9, v, 0x12835b01, 0x00000000, 0x8c87346b, 0x1cc92596);
    v := Round(b, 10, v, 0x243185be, 0x00000000, 0x4798a3f4, 0x436b23e8);
    v := Round(b, 11, v, 0x550c7dc3, 0x00000000, 0xf71fc5a9, 0x816fd6e9);
    v := Round(b, 12, v, 0x72be5d74, 0x00000000, 0x87912990, 0x1e578218);
    v := Round(b, 13, v, 0x80deb1fe, 0x00000000, 0xd932eb16, 0x745a48de);
    v := Round(b, 14, v, 0x9bdc06a7, 0x00000000, 0xc0645fde, 0x0b92f20c);
    v := Round(b, 15, v, 0xc19bf174, 0x00000018, 0xb0fa238e, 0x07590dcd);
  }

  lemma Rounds24(b: seq<bv8>)
    requires |b| == BLOCK && IsBlock(b)
    ensures Rounds(H0, b, 24) ==
      Words(0xc5d53d8d, 0xa7a3623f, 0xc2606d6d, 0x9dc68b63, 0xaa47c347, 0x49f5114a, 0xe1257970, 0x8ada8930)
  {
    hide IsBlock, W, Rounds, K256;
    Constants16();
    Schedule16(b);
    Rounds16(b);
    var v := Words(0xb0fa238e, 0xc0645fde, 0xd932eb16, 0x87912990, 0x07590dcd, 0x0b92f20c, 0x745a48de, 0x1e578218);
    v := Round(b, 16, v, 0xe49b69c1, 0x61626380, 0x21da9a9b, 0x8034229c);
    v := Round(b, 17, v, 0xefbe4786, 0x000f0000, 0xc2fbd9d1, 0x846ee454);
    v := Round(b, 18, v, 0x0fc19dc6, 0x7da86405, 0xfe777bbf, 0xcc899961);
    v := Round(b, 19, v, 0x240ca1cc, 0x600003c6, 0xe1f20c33, 0xb0638179);
    v := Round(b, 20, v, 0x2de92c6f, 0x3e9d7b78, 0x9dc68b63, 0x8ada8930);
    v := Round(b, 21, v, 0x4a7484aa, 0x0183fc00, 0xc2606d6d, 0xe1257970);
    v := Round(b, 22, v, 0x5cb0a9dc, 0x12dcbfdb, 0xa7a3623f, 0x49f5114a);
    v := Round(b, 23, v, 0x76f988da, 0xe2e2c38e, 0xc5d53d8d, 0xaa47c347);
  }

  lemma Rounds32(b: seq<bv8>)
    requires |b| == BLOCK && IsBlock(b)
    ensures Rounds(H0, b, 32) ==
      Words(0x73b33bf5, 0xea992a22, 0xa0060b30, 0x363482c9, 0xba591112, 0x0109ab3a, 0xade79437, 0x6112a3b7)
  {
    hide IsBlock, W, Rounds, K256;
    Constants24();
    Schedule24(b);
    Rounds24(b);
    var v := Words(0xc5d53d8d, 0xa7a3623f, 0xc2606d6d, 0x9dc68b63, 0xaa47c347, 0x49f5114a, 0xe1257970, 0x8ada8930);
    v := Round(b, 24, v, 0x983e5152, 0xc8215c1a, 0x1c2c2838, 0x2823ef91);
    v := Round(b, 25, v, 0xa831c66d, 0xb73679a2, 0xcde8037d, 0x14383d8e);
    v := Round(b, 26, v, 0xb00327c8, 0xe5bc3909, 0xb62ec4bc, 0xc74c6516);
    v := Round(b, 27, v, 0xbf597fc7, 0x32663c5b, 0x77d37528, 0xedffbff8);
    v := Round(b, 28, v, 0xc6e00bf3, 0x9d209d67, 0x363482c9, 0x6112a3b7);
    v := Round(b, 29, v, 0xd5a79147, 0xec8726cb, 0xa0060b30, 0xade79437);
    v := Round(b, 30, v, 0x06ca6351, 0x702138a4, 0xea992a22, 0x0109ab3a);
    v := Round(b, 31, v, 0x14292967, 0xd3b7973b, 0x73b33bf5, 0xba591112);
  }

  lemma Rounds40(b: seq<bv8>)
    requires |b| == BLOCK && IsBlock(b)
    ensures Rounds(H0, b, 40) ==
      Words(0x79ea687a, 0x6dc57a8a, 0x34df1604, 0x41a65cb1, 0x1efbc0a0, 0xf0781bc8, 0xa507a53d, 0x0772a26b)
  {
    hide IsBlock, W, Rounds, K256;
    Constants32();
    Schedule32(b);
    Rounds32(b);
    var v := Words(0x73b33bf5, 0xea992a22, 0xa0060b30, 0x363482c9, 0xba591112, 0x0109ab3a, 0xade79437, 0x6112a3b7);
    v := Round(b, 32, v, 0x27b70a85, 0x93f5997f, 0x98e12507, 0x9cd9f5f6);
    v := Round(b, 33, v, 0x2e1b2138, 0x3b68ba73, 0xfe604df5, 0x59249dd3);
    v := Round(b, 34, v, 0x4d2c6dfc, 0xaff4ffc1, 0xa9a7738c, 0x085f3833);
    v := Round(b, 35, v, 0x53380d13, 0xf10a5c62, 0x65a0cfe4, 0xf4b002d6);
    v := Round(b, 36, v, 0x650a7354, 0x0a8b3996, 0x41a65cb1, 0x0772a26b);
    v := Round(b, 37, v, 0x766a0abb, 0x72af830a, 0x34df1604, 0xa507a53d);
    v := Round(b, 38, v, 0x81c2c92e, 0x9409e33e, 0x6dc57a8a, 0xf0781bc8);
    v := Round(b, 39, v, 0x92722c85, 0x24641522, 0x79ea687a, 0x1efbc0a0);
  }

  lemma Rounds48(b: seq<bv8>)
    requires |b| == BLOCK && IsBlock(b)
    ensures Rounds(H0, b, 48) ==
      Words(0x4172328d, 0xa14c14b0, 0x72ab4b91, 0x26628815, 0xfecf0bc6, 0xd57b94a9, 0xb7755da1, 0xa80f11f0)
  {
    hide IsBlock, W, Rounds, K256;
    Constants40();
    Schedule40(b);
    Rounds40(b);
    var v := Words(0x79ea687a, 0x6dc57a8a, 0x34df1604, 0x41a65cb1, 0x1efbc0a0, 0xf0781bc8, 0xa507a53d, 0x0772a26b);
    v := Round(b, 40, v, 0xa2bfe8a1, 0x9f47bf94, 0xd6670766, 0x26352d63);
    v := Round(b, 41, v, 0xa81a664b, 0xf0a64f5a, 0xdf46652f, 0x838b2711);
    v := Round(b, 42, v, 0xc24b8b70, 0x3e246a79, 0x17aa0dfe, 0xdecd4715);
    v := Round(b, 43, v, 0xc76c51a3, 0x27333ba3, 0x9d4baf93, 0xfda24c2e);
    v := Round(b, 44, v, 0xd192e819, 0x0c4763f2, 0x26628815, 0xa80f11f0);
    v := Round(b, 45, v, 0xd6990624, 0x840abf27, 0x72ab4b91, 0xb7755da1);
    v := Round(b, 46, v, 0xf40e3585, 0x7a290d5d, 0xa14c14b0, 0xd57b94a9);
    v := Round(b, 47, v, 0x106aa070, 0x065c43da, 0x4172328d, 0xfecf0bc6);
  }

  lemma Rounds56(b: seq<bv8>)
    requires |b| == BLOCK && IsBlock(b)
    ensures Rounds(H0, b, 56) ==
      Words(0x38cc9913, 0x3ec45cdb, 0xf5702fdb, 0x101fd28f, 0x54cb266b, 0xe50e1b4f, 0x9f4787c3, 0x529e7d00)
  {
    hide IsBlock, W, Rounds, K256;
    Constants48();
    Schedule48(b);
    Rounds48(b);
    var v := Words(0x4172328d, 0xa14c14b0, 0x72ab4b91, 0x26628815, 0xfecf0bc6, 0xd57b94a9, 0xb7755da1, 0xa80f11f0);
    v := Round(b, 48, v, 0x19a4c116, 0xfb3e89cb, 0x05757ceb, 0xbd714038);
    v := Round(b, 49, v, 0x1e376c08, 0xcc7617db, 0xf11bfaa8, 0x6e5c390c);
    v := Round(b, 50, v, 0x2748774c, 0xb9e66c34, 0x7a0508a1, 0x52f1ccf7);
    v := Round(b, 51, v, 0x34b0bcb5, 0xa9993667, 0x886e7a22, 0x49231c1e);
    v := Round(b, 52, v, 0x391c0cb3, 0x84badedd, 0x101fd28f, 0x529e7d00);
    v := Round(b, 53, v, 0x4ed8aa4a, 0xc21462bc, 0xf5702fdb, 0x9f4787c3);
    v := Round(b, 54, v, 0x5b9cca4f, 0x1487472c, 0x3ec45cdb, 0xe50e1b4f);
    v := Round(b, 55, v, 0x682e6ff3, 0xb20f7a99, 0x38cc9913, 0x54cb266b);
  }

  lemma Rounds64(b: seq<bv8>)
    requires |b| == BLOCK && IsBlock(b)
    ensures Rounds(H0, b, 64) ==
      Words(0x506e3058, 0xd39a2165, 0x04d24d6c, 0xb85e2ce9, 0x5ef50f24, 0xfb121210, 0x948d25b6, 0x961f4894)
  {
    hide IsBlock, W, Rounds, K256;
    Constants56();
    Schedule56(b);
    Rounds56(b);
    var v := Words(0x38cc9913, 0x3ec45cdb, 0xf5702fdb, 0x101fd28f, 0x54cb266b, 0xe50e1b4f, 0x9f4787c3, 0x529e7d00);
    v := Round(b, 56, v, 0x748f82ee, 0xef57b9cd, 0xfcd1887b, 0x9b5e906c);
    v := Round(b, 57, v, 0x78a5636f, 0xebe6b238, 0xc062d46f, 0x7e44008e);
    v := Round(b, 58, v, 0x84c87814, 0x9fe3095e, 0xffb70472, 0x6d83bfc6);
    v := Round(b, 59, v, 0x8cc70208, 0x78bc8d4b, 0xb6ae8fff, 0xb21bad3d);
    v := Round(b, 60, v, 0x90befffa, 0xa43fcf15, 0xb85e2ce9, 0x961f4894);
    v := Round(b, 61, v, 0xa4506ceb, 0x668b2ff8, 0x04d24d6c, 0x948d25b6);
    v := Round(b, 62, v, 0xbef9a3f7, 0xeeaba2cc, 0xd39a2165, 0xfb121210);
    v := Round(b, 63, v, 0xc67178f2, 0x12b1edeb, 0x506e3058, 0x5ef50f24);
  }

  lemma Start(b: seq<bv8>)
    requires |b| == BLOCK
    ensures Rounds(H0, b, 0) ==
      Words(0x6a09e667, 0xbb67ae85, 0x3c6ef372, 0xa54ff53a, 0x510e527f, 0x9b05688c, 0x1f83d9ab, 0x5be0cd19)
  {
  }

  // One round from the values v, which gives two new words.
  lemma Round(b: seq<bv8>, t: nat, v: Words, k: bv32, w: bv32, x: bv32, y: bv32) returns (r: Words)
    requires |b| == BLOCK && t < 64 && Rounds(H0, b, t) == v && K256(t) == k && W(b, t) == w
    requires Step(v, k, w).a == x && Step(v, k, w).e == y
    ensures r == Words(x, v.a, v.b, v.c, y, v.e, v.f, v.g) && Rounds(H0, b, t + 1) == r
  {
    r := Step(v, k, w);
  }

  lemma Constants0()
    ensures K256(0) == 0x428a2f98 && K256(1) == 0x71374491 && K256(2) == 0xb5c0fbcf && K256(3) == 0xe9b5dba5
    ensures K256(4) == 0x3956c25b && K256(5) == 0x59f111f1 && K256(6) == 0x923f82a4 && K256(7) == 0xab1c5ed5
  {
  }

  lemma Constants8()
    ensures K256(8) == 0xd807aa98 && K256(9) == 0x12835b01 && K256(10) == 0x243185be && K256(11) == 0x550c7dc3
    ensures K256(12) == 0x72be5d74 && K256(13) == 0x80deb1fe && K256(14) == 0x9bdc06a7 && K256(15) == 0xc19bf174
  {
  }

  lemma Constants16()
    ensures K256(16) == 0xe49b69c1 && K256(17) == 0xefbe4786 && K256(18) == 0x0fc19dc6 && K256(19) == 0x240ca1cc
    ensures K256(20) == 0x2de92c6f && K256(21) == 0x4a7484aa && K256(22) == 0x5cb0a9dc && K256(23) == 0x76f988da
  {
  }

  lemma Constants24()
    ensures K256(24) == 0x983e5152 && K256(25) == 0xa831c66d && K256(26) == 0xb00327c8 && K256(27) == 0xbf597fc7
    ensures K256(28) == 0xc6e00bf3 && K256(29) == 0xd5a79147 && K256(30) == 0x06ca6351 && K256(31) == 0x14292967
  {
  }

  lemma Constants32()
    ensures K256(32) == 0x27b70a85 && K256(33) == 0x2e1b2138 && K256(34) == 0x4d2c6dfc && K256(35) == 0x53380d13
    ensures K256(36) == 0x650a7354 && K256(37) == 0x766a0abb && K256(38) == 0x81c2c92e && K256(39) == 0x92722c85
  {
  }

  lemma Constants40()
    ensures K256(40) == 0xa2bfe8a1 && K256(41) == 0xa81a664b && K256(42) == 0xc24b8b70 && K256(43) == 0xc76c51a3
    ensures K256(44) == 0xd192e819 && K256(45) == 0xd6990624 && K256(46) == 0xf40e3585 && K256(47) == 0x106aa070
  {
  }

  lemma Constants48()
    ensures K256(48) == 0x19a4c116 && K256(49) == 0x1e376c08 && K256(50) == 0x2748774c && K256(51) == 0x34b0bcb5
    ensures K256(52) == 0x391c0cb3 && K256(53) == 0x4ed8aa4a && K256(54) == 0x5b9cca4f && K256(55) == 0x682e6ff3
  {
  }

  lemma Constants56()
    ensures K256(56) == 0x748f82ee && K256(57) == 0x78a5636f && K256(58) == 0x84c87814 && K256(59) == 0x8cc70208
    ensures K256(60) == 0x90befffa && K256(61) == 0xa4506ceb && K256(62) == 0xbef9a3f7 && K256(63) == 0xc67178f2
  {
  }

  lemma Compressed(b: seq<bv8>)
    requires |b| == BLOCK && IsBlock(b)
    ensures Compress(H0, b) ==
      Words(0xba7816bf, 0x8f01cfea, 0x414140de, 0x5dae2223, 0xb00361a3, 0x96177a9c, 0xb410ff61, 0xf20015ad)
  {
    hide Rounds, IsBlock;
    Rounds64(b);
  }

  const OUT := Words(
      0xba7816bf, 0x8f01cfea, 0x414140de, 0x5dae2223,
      0xb00361a3, 0x96177a9c, 0xb410ff61, 0xf20015ad)

  const DIGEST: seq<bv8> :=
    [0xba, 0x78, 0x16, 0xbf] + [0x8f, 0x01, 0xcf, 0xea] +
    [0x41, 0x41, 0x40, 0xde] + [0x5d, 0xae, 0x22, 0x23] +
    [0xb0, 0x03, 0x61, 0xa3] + [0x96, 0x17, 0x7a, 0x9c] +
    [0xb4, 0x10, 0xff, 0x61] + [0xf2, 0x00, 0x15, 0xad]

  lemma Digest()
    ensures Hash(ABC) == DIGEST
  {
    hide Pad, Compress, IsBlock, DigestBytes;
    var p := Pad(ABC);
    Padded();
    BlockLength(p);
    Compressed(p);
    assert p[0..BLOCK] == p;
    OneBlock(p);
    Bytes();
  }

  lemma BlockLength(b: seq<bv8>)
    requires IsBlock(b)
    ensures |b| == BLOCK
  {
  }

  lemma OneBlock(p: seq<bv8>)
    requires |p| == BLOCK
    ensures Chain(p, 1) == Compress(H0, p)
  {
    hide Compress;
    assert p[0..BLOCK] == p;
    assert Chain(p, 0) == H0;
  }

  lemma Bytes()
    ensures DigestBytes(ToSeq(OUT)) == DIGEST
  {
    hide DigestBytes;
    var s := ToSeq(OUT);
    NoBytes();
    DigestAppend(s[..0], s[0]);
    DigestAppend(s[..1], s[1]);
    DigestAppend(s[..2], s[2]);
    DigestAppend(s[..3], s[3]);
    DigestAppend(s[..4], s[4]);
    DigestAppend(s[..5], s[5]);
    DigestAppend(s[..6], s[6]);
    DigestAppend(s[..7], s[7]);
    assert s[..1] == s[..0] + [s[0]] && s[..2] == s[..1] + [s[1]] &&
      s[..3] == s[..2] + [s[2]] && s[..4] == s[..3] + [s[3]] &&
      s[..5] == s[..4] + [s[4]] && s[..6] == s[..5] + [s[5]] &&
      s[..7] == s[..6] + [s[6]] && s[..8] == s[..7] + [s[7]];
    assert s[..8] == s && s[..0] == [];
  }

  lemma NoBytes()
    ensures DigestBytes([]) == []
  {
  }
}
