/** SHA-512 of "abc", the example the standard is published with (FIPS 180-4, section 6.4): the
    padding, the schedule, every round and the digest. */
module Sha512Example {
  import opened HashBytes
  import opened Sha512

  const ABC: seq<bv8> := [0x61, 0x62, 0x63]

  // The one block of the padded message.
  predicate IsBlock(b: seq<bv8>)
  {
    |b| == BLOCK && b[0] == 0x61 && b[1] == 0x62 && b[2] == 0x63 && b[3] == 0x80 && b[BLOCK - 1] == 24 &&
    forall j | 4 <= j < BLOCK - 1 :: b[j] == 0
  }

  lemma Padded()
    ensures IsBlock(Pad(ABC))
  {
    hide BigEndian;
    LengthBytes();
    BlockIs(Pad(ABC));
  }

  lemma BlockIs(b: seq<bv8>)
    requires b == ABC + [0x80] + Zeros(108) + (Zeros(15) + [24])
    ensures IsBlock(b)
  {
  }

  lemma LengthBytes()
    ensures BigEndian128(24) == Zeros(15) + [24]
  {
    ZeroBytes(15);
    assert 24 as nat / 256 == 0 && (24 % 256) as bv8 == 24;
  }

  lemma DigestAppend(ws: seq<bv64>, w: bv64)
    ensures DigestBytes(ws + [w]) == DigestBytes(ws) + WordBytes(w)
  {
    assert (ws + [w])[..|ws|] == ws;
  }

  lemma Schedule0(b: seq<bv8>)
    requires IsBlock(b)
    ensures W(b, 0) == 0x6162638000000000 && W(b, 1) == 0x0000000000000000
    ensures W(b, 2) == 0x0000000000000000 && W(b, 3) == 0x0000000000000000
    ensures W(b, 4) == 0x0000000000000000 && W(b, 5) == 0x0000000000000000
    ensures W(b, 6) == 0x0000000000000000 && W(b, 7) == 0x0000000000000000
  {
  }

  lemma Schedule8(b: seq<bv8>)
    requires IsBlock(b)
    ensures W(b, 8) == 0x0000000000000000 && W(b, 9) == 0x0000000000000000
    ensures W(b, 10) == 0x0000000000000000 && W(b, 11) == 0x0000000000000000
    ensures W(b, 12) == 0x0000000000000000 && W(b, 13) == 0x0000000000000000
    ensures W(b, 14) == 0x0000000000000000 && W(b, 15) == 0x0000000000000018
  {
  }

  lemma Schedule16(b: seq<bv8>)
    requires IsBlock(b)
    ensures W(b, 16) == 0x6162638000000000 && W(b, 17) == 0x00030000000000c0
    ensures W(b, 18) == 0x0a9699a24c700003 && W(b, 19) == 0x00000c0060000603
    ensures W(b, 20) == 0x549ef62639858996 && W(b, 21) == 0x00c0003300003c00
    ensures W(b, 22) == 0x1497007a8a0e9dbc && W(b, 23) == 0x62e56500cc0780f0
  {
    Schedule0(b);
    Schedule8(b);
  }

  lemma Schedule24(b: seq<bv8>)
    requires IsBlock(b)
    ensures W(b, 24) == 0x7760dd475a538797 && W(b, 25) == 0xf1554b711c1c0003
    ensures W(b, 26) == 0xca2993a4345d9ff2 && W(b, 27) == 0x5e0e66b5c783dd32
    ensures W(b, 28) == 0xe25a625d00494b62 && W(b, 29) == 0x9f44486fb1e4fbd2
    ensures W(b, 30) == 0xb31b8c2b06085f2f && W(b, 31) == 0x0e987660934142f6
  {
    Schedule8(b);
    Schedule16(b);
  }

  lemma Schedule32(b: seq<bv8>)
    requires IsBlock(b)
    ensures W(b, 32) == 0xa4af2cfd09fbb924 && W(b, 33) == 0xad289e2e0bd53186
    ensures W(b, 34) == 0x3c74563aa2f9673e && W(b, 35) == 0x6ccdcd14cc14b53f
    ensures W(b, 36) == 0xc3f925b337f22bde && W(b, 37) == 0x5bcc77a75ad95b54
    ensures W(b, 38) == 0x3ec2257adca09a52 && W(b, 39) == 0x28246960001fc5eb
  {
    Schedule16(b);
    Schedule24(b);
  }

  lemma Schedule40(b: seq<bv8>)
    requires IsBlock(b)
    ensures W(b, 40) == 0x04e33a75ce2be88a && W(b, 41) == 0x7d5314b3c359e0e7
    ensures W(b, 42) == 0xaef7a285ff251266 && W(b, 43) == 0x0b8472581deea04f
    ensures W(b, 44) == 0xb174e26eddc7b033 && W(b, 45) == 0x5d63bae58ddd88de
    ensures W(b, 46) == 0x4c044007b744ccbb && W(b, 47) == 0xe6a9aa4d74dc7d43
  {
    Schedule24(b);
    Schedule32(b);
  }

  lemma Schedule48(b: seq<bv8>)
    requires IsBlock(b)
    ensures W(b, 48) == 0xebeaf1237248019c && W(b, 49) == 0x361e80b2d00f3193
    ensures W(b, 50) == 0x2e9839125df3b175 && W(b, 51) == 0x3319629293ad5363
    ensures W(b, 52) == 0x9cbc5d89ac1b89d5 && W(b, 53) == 0x275e23ffeeca50b7
    ensures W(b, 54) == 0x3b80d680bf69ef58 && W(b, 55) == 0x0d0696933945a125
  {
    Schedule32(b);
    Schedule40(b);
  }

  lemma Schedule56(b: seq<bv8>)
    requires IsBlock(b)
    ensures W(b, 56) == 0x7533eabcb786ff00 && W(b, 57) == 0xb89826cee6fbf0e5
    ensures W(b, 58) == 0x249b4fbcad623e9f && W(b, 59) == 0x4aea9df2b02d6f1e
    ensures W(b, 60) == 0x2cc57475a55e8d8f && W(b, 61) == 0xb2574ae938d8be89
    ensures W(b, 62) == 0xc1b35a57b16d6aea && W(b, 63) == 0xcc4918b5949206bb
  {
    Schedule40(b);
    Schedule48(b);
  }

  lemma Schedule64(b: seq<bv8>)
    requires IsBlock(b)
    ensures W(b, 64) == 0x5099c3add79f90ec && W(b, 65) == 0x5ea81d78e7660bf1
    ensures W(b, 66) == 0xebee6267405ac2a9 && W(b, 67) == 0xb01f21926108a4ab
    ensures W(b, 68) == 0x786433dd2fe65556 && W(b, 69) == 0xc54a6eaa24a0552c
    ensures W(b, 70) == 0xb3c8f1530bdbaa9e && W(b, 71) == 0xbb8abfe56f469338
  {
    Schedule48(b);
    Schedule56(b);
  }

  lemma Schedule72(b: seq<bv8>)
    requires IsBlock(b)
    ensures W(b, 72) == 0xf63d4265cc1c5a78 && W(b, 73) == 0xbe8355ea73129afb
    ensures W(b, 74) == 0x49e2db8ebdcfbeb5 && W(b, 75) == 0x82269d4a883a3d99
    ensures W(b, 76) == 0xfdf53df3011f362b && W(b, 77) == 0x464af5671d71c12e
    ensures W(b, 78) == 0xe449b68198ec611c && W(b, 79) == 0x92aeeed1a7bcf7d2
  {
    Schedule56(b);
    Schedule64(b);
  }

  lemma Rounds8(b: seq<bv8>)
    requires |b| == BLOCK && IsBlock(b)
    ensures Rounds(Fips().k, Fips().iv, b, 8) ==
      Words(0x8093d195e0054fa3, 0xc4875b0c7abc076b, 0xaf573b02403e89cd, 0xb680953951604860,
            0x86f67263a0f0ec0a, 0x5a6c781f54dcc00c, 0x96f60209b6dc35ba, 0x745aca4a342ed2e2)
  {
    hide IsBlock, W, Rounds, Fips, FIPS_K;
    Constants0();
    Schedule0(b);
    Start(b);
    var v := Words(0x6a09e667f3bcc908, 0xbb67ae8584caa73b, 0x3c6ef372fe94f82b, 0xa54ff53a5f1d36f1,
            0x510e527fade682d1, 0x9b05688c2b3e6c1f, 0x1f83d9abfb41bd6b, 0x5be0cd19137e2179);
    v := Round(b, 0, v, 0x428a2f98d728ae22, 0x6162638000000000, 0xf6afceb8bcfcddf5, 0x58cb02347ab51f91);
    v := Round(b, 1, v, 0x7137449123ef65cd, 0x0000000000000000, 0x1320f8c9fb872cc0, 0xc3d4ebfd48650ffa);
    v := Round(b, 2, v, 0xb5c0fbcfec4d3b2f, 0x0000000000000000, 0xebcffc07203d91f3, 0xdfa9b239f2697812);
    v := Round(b, 3, v, 0xe9b5dba58189dbbc, 0x0000000000000000, 0x5a83cb3e80050e82, 0x0b47b4bb1928990e);
    v := Round(b, 4, v, 0x3956c25bf348b538, 0x0000000000000000, 0xb680953951604860, 0x745aca4a342ed2e2);
    v := Round(b, 5, v, 0x59f111f1b605d019, 0x0000000000000000, 0xaf573b02403e89cd, 0x96f60209b6dc35ba);
    v := Round(b, 6, v, 0x923f82a4af194f9b, 0x0000000000000000, 0xc4875b0c7abc076b, 0x5a6c781f54dcc00c);
    v := Round(b, 7, v, 0xab1c5ed5da6d8118, 0x0000000000000000, 0x8093d195e0054fa3, 0x86f67263a0f0ec0a);
  }

  lemma Rounds16(b: seq<bv8>)
    requires |b| == BLOCK && IsBlock(b)
    ensures Rounds(Fips().k, Fips().iv, b, 16) ==
      Words(0x0ae07c86b1181c75, 0xfa967eed85a08028, 0x44249631255d2ca0, 0x5e41214388186c14,
            0xa77b7c035dd4c161, 0x874bfe5f6aae9f2f, 0x860acf9effba6f61, 0xcdf3bff2883fc9d9)
  {
    hide IsBlock, W, Rounds, Fips, FIPS_K;
    Constants8();
    Schedule8(b);
    Rounds8(b);
    var v := Words(0x8093d195e0054fa3, 0xc4875b0c7abc076b, 0xaf573b02403e89cd, 0xb680953951604860,
            0x86f67263a0f0ec0a, 0x5a6c781f54dcc00c, 0x96f60209b6dc35ba, 0x745aca4a342ed2e2);
    v := Round(b, 8, v, 0xd807aa98a3030242, 0x0000000000000000, 0xf1eca5544cb89225, 0xd0403c398fc40002);
    v := Round(b, 9, v, 0x12835b0145706fbe, 0x0000000000000000, 0x81782d4a5db48f03, 0x00091f460be46c52);
    v := Round(b, 10, v, 0x243185be4ee4b28c, 0x0000000000000000, 0x69854c4aa0f25b59, 0xd375471bde1ba3f4);
    v := Round(b, 11, v, 0x550c7dc3d5ffb4e2, 0x0000000000000000, 0xdb0a9963f80c2eaa, 0x475975b91a7a462c);
    v := Round(b, 12, v, 0x72be5d74f27b896f, 0x0000000000000000, 0x5e41214388186c14, 0xcdf3bff2883fc9d9);
    v := Round(b, 13, v, 0x80deb1fe3b1696b1, 0x0000000000000000, 0x44249631255d2ca0, 0x860acf9effba6f61);
    v := Round(b, 14, v, 0x9bdc06a725c71235, 0x0000000000000000, 0xfa967eed85a08028, 0x874bfe5f6aae9f2f);
    v := Round(b, 15, v, 0xc19bf174cf692694, 0x0000000000000018, 0x0ae07c86b1181c75, 0xa77b7c035dd4c161);
  }

  lemma Rounds24(b: seq<bv8>)
    requires |b| == BLOCK && IsBlock(b)
    ensures Rounds(Fips().k, Fips().iv, b, 24) ==
      Words(0x4f6877b58fe55484, 0x3e2644567b709a78, 0xda34d6673d452dcf, 0x8dc5ae65569d3855,
            0xc66005f87db55233, 0x0ac2b11da8f571c6, 0x8e30ff09ad488753, 0x4bb9e66d1145bfdc)
  {
    hide IsBlock, W, Rounds, Fips, FIPS_K;
    Constants16();
    Schedule16(b);
    Rounds16(b);
    var v := Words(0x0ae07c86b1181c75, 0xfa967eed85a08028, 0x44249631255d2ca0, 0x5e41214388186c14,
            0xa77b7c035dd4c161, 0x874bfe5f6aae9f2f, 0x860acf9effba6f61, 0xcdf3bff2883fc9d9);
    v := Round(b, 16, v, 0xe49b69c19ef14ad2, 0x6162638000000000, 0xcaf81a425d800537, 0x2deecc6b39d64d78);
    v := Round(b, 17, v, 0xefbe4786384f25e3, 0x00030000000000c0, 0x4725be249ad19e6b, 0xf47e8353f8047455);
    v := Round(b, 18, v, 0x0fc19dc68b8cd5b5, 0x0a9699a24c700003, 0x3c4b4104168e3edb, 0x29695fd88d81dbd0);
    v := Round(b, 19, v, 0x240ca1cc77ac9c65, 0x00000c0060000603, 0x9a3fb4d38ab6cf06, 0xf14998dd5f70767e);
    v := Round(b, 20, v, 0x2de92c6f592b0275, 0x549ef62639858996, 0x8dc5ae65569d3855, 0x4bb9e66d1145bfdc);
    v := Round(b, 21, v, 0x4a7484aa6ea6e483, 0x00c0003300003c00, 0xda34d6673d452dcf, 0x8e30ff09ad488753);
    v := Round(b, 22, v, 0x5cb0a9dcbd41fbd4, 0x1497007a8a0e9dbc, 0x3e2644567b709a78, 0x0ac2b11da8f571c6);
    v := Round(b, 23, v, 0x76f988da831153b5, 0x62e56500cc0780f0, 0x4f6877b58fe55484, 0xc66005f87db55233);
  }

  lemma Rounds32(b: seq<bv8>)
    requires |b| == BLOCK && IsBlock(b)
    ensures Rounds(Fips().k, Fips().iv, b, 32) ==
      Words(0xff4d3f1f0d46a736, 0x4c4fbbb75f1873a6, 0x74bf40f869094c63, 0xe62349090f47d30a,
            0x3cd388e119e8162e, 0x73e025d91b9efea3, 0xf0aec2fe1437f085, 0x0fcdf99710f21584)
  {
    hide IsBlock, W, Rounds, Fips, FIPS_K;
    Constants24();
    Schedule24(b);
    Rounds24(b);
    var v := Words(0x4f6877b58fe55484, 0x3e2644567b709a78, 0xda34d6673d452dcf, 0x8dc5ae65569d3855,
            0xc66005f87db55233, 0x0ac2b11da8f571c6, 0x8e30ff09ad488753, 0x4bb9e66d1145bfdc);
    v := Round(b, 24, v, 0x983e5152ee66dfab, 0x7760dd475a538797, 0x9aff71163fa3a940, 0xd3ecf13769180e6f);
    v := Round(b, 25, v, 0xa831c66d2db43210, 0xf1554b711c1c0003, 0x0bc5f791f8e6816b, 0x6ddf1fd7edcce336);
    v := Round(b, 26, v, 0xb00327c898fb213f, 0xca2993a4345d9ff2, 0x884c3bc27bc4f941, 0xe6e48c9a8e948365);
    v := Round(b, 27, v, 0xbf597fc7beef0ee4, 0x5e0e66b5c783dd32, 0xeab4a9e5771b8d09, 0x09068a4e255a0dac);
    v := Round(b, 28, v, 0xc6e00bf33da88fc2, 0xe25a625d00494b62, 0xe62349090f47d30a, 0x0fcdf99710f21584);
    v := Round(b, 29, v, 0xd5a79147930aa725, 0x9f44486fb1e4fbd2, 0x74bf40f869094c63, 0xf0aec2fe1437f085);
    v := Round(b, 30, v, 0x06ca6351e003826f, 0xb31b8c2b06085f2f, 0x4c4fbbb75f1873a6, 0x73e025d91b9efea3);
    v := Round(b, 31, v, 0x142929670a0e6e70, 0x0e987660934142f6, 0xff4d3f1f0d46a736, 0x3cd388e119e8162e);
  }

  lemma Rounds40(b: seq<bv8>)
    requires |b| == BLOCK && IsBlock(b)
    ensures Rounds(Fips().k, Fips().iv, b, 40) ==
      Words(0x8e01e125b855d225, 0xb3bb8542b3376de5, 0x002bb8e4cd989567, 0x88df85b0bbe77514,
            0x0c710a47ba6a567b, 0xb49596c20feba7de, 0x66adcfa249ac7bbd, 0x8fbfd0162bbf4675)
  {
    hide IsBlock, W, Rounds, Fips, FIPS_K;
    Constants32();
    Schedule32(b);
    Rounds32(b);
    var v := Words(0xff4d3f1f0d46a736, 0x4c4fbbb75f1873a6, 0x74bf40f869094c63, 0xe62349090f47d30a,
            0x3cd388e119e8162e, 0x73e025d91b9efea3, 0xf0aec2fe1437f085, 0x0fcdf99710f21584);
    v := Round(b, 32, v, 0x27b70a8546d22ffc, 0xa4af2cfd09fbb924, 0xa0509015ca08c8d4, 0xe1034573654a106f);
    v := Round(b, 33, v, 0x2e1b21385c26c926, 0xad289e2e0bd53186, 0x60d4e6995ed91fe6, 0xefabbd8bf47c041a);
    v := Round(b, 34, v, 0x4d2c6dfc5ac42aed, 0x3c74563aa2f9673e, 0x2c59ec7743632621, 0x0fbae670fa780fd3);
    v := Round(b, 35, v, 0x53380d139d95b3df, 0x6ccdcd14cc14b53f, 0x1a081afc59fdbc2c, 0xf098082f502b44cd);
    v := Round(b, 36, v, 0x650a73548baf63de, 0xc3f925b337f22bde, 0x88df85b0bbe77514, 0x8fbfd0162bbf4675);
    v := Round(b, 37, v, 0x766a0abb3c77b2a8, 0x5bcc77a75ad95b54, 0x002bb8e4cd989567, 0x66adcfa249ac7bbd);
    v := Round(b, 38, v, 0x81c2c92e47edaee6, 0x3ec2257adca09a52, 0xb3bb8542b3376de5, 0xb49596c20feba7de);
    v := Round(b, 39, v, 0x92722c851482353b, 0x28246960001fc5eb, 0x8e01e125b855d225, 0x0c710a47ba6a567b);
  }

  lemma Rounds48(b: seq<bv8>)
    requires |b| == BLOCK && IsBlock(b)
    ensures Rounds(Fips().k, Fips().iv, b, 48) ==
      Words(0x6b69fc1bb482feac, 0xf61e672694de2d67, 0x021fbadbabab5ac6, 0xc47c9d5c7ea8a234,
            0x35264334c03ac8ad, 0xc6bc35740d8daa9a, 0xe95c2a57572d64d9, 0x858d832ae0e8911c)
  {
    hide IsBlock, W, Rounds, Fips, FIPS_K;
    Constants40();
    Schedule40(b);
    Rounds40(b);
    var v := Words(0x8e01e125b855d225, 0xb3bb8542b3376de5, 0x002bb8e4cd989567, 0x88df85b0bbe77514,
            0x0c710a47ba6a567b, 0xb49596c20feba7de, 0x66adcfa249ac7bbd, 0x8fbfd0162bbf4675);
    v := Round(b, 40, v, 0xa2bfe8a14cf10364, 0x04e33a75ce2be88a, 0xb01521dd6a6be12c, 0x169008b3a4bb170b);
    v := Round(b, 41, v, 0xa81a664bbc423001, 0x7d5314b3c359e0e7, 0xe96f89dd48cbd851, 0xf0996439e7b50cb1);
    v := Round(b, 42, v, 0xc24b8b70d0f89791, 0xaef7a285ff251266, 0xbc05ba8de5d3c480, 0x639cb938e14dc190);
    v := Round(b, 43, v, 0xc76c51a30654be30, 0x0b8472581deea04f, 0x35d7e7f41defcbd5, 0xcc5100997f5710f2);
    v := Round(b, 44, v, 0xd192e819d6ef5218, 0xb174e26eddc7b033, 0xc47c9d5c7ea8a234, 0x858d832ae0e8911c);
    v := Round(b, 45, v, 0xd69906245565a910, 0x5d63bae58ddd88de, 0x021fbadbabab5ac6, 0xe95c2a57572d64d9);
    v := Round(b, 46, v, 0xf40e35855771202a, 0x4c044007b744ccbb, 0xf61e672694de2d67, 0xc6bc35740d8daa9a);
    v := Round(b, 47, v, 0x106aa07032bbd1b8, 0xe6a9aa4d74dc7d43, 0x6b69fc1bb482feac, 0x35264334c03ac8ad);
  }

  lemma Rounds56(b: seq<bv8>)
    requires |b| == BLOCK && IsBlock(b)
    ensures Rounds(Fips().k, Fips().iv, b, 56) ==
      Words(0x63b460e42748817e, 0xf650857b5babda4d, 0xd63f68037ddf06aa, 0x03df11b32d42e203,
            0xc6b4dd2a9931c509, 0x9ccfb31a86df0f86, 0xa6781efe1aa1ce02, 0x504f94e40591cffa)
  {
    hide IsBlock, W, Rounds, Fips, FIPS_K;
    Constants48();
    Schedule48(b);
    Rounds48(b);
    var v := Words(0x6b69fc1bb482feac, 0xf61e672694de2d67, 0x021fbadbabab5ac6, 0xc47c9d5c7ea8a234,
            0x35264334c03ac8ad, 0xc6bc35740d8daa9a, 0xe95c2a57572d64d9, 0x858d832ae0e8911c);
    v := Round(b, 48, v, 0x19a4c116b8d2d0c8, 0xebeaf1237248019c, 0x571f323d96b3a047, 0x271580ed6c3e5650);
    v := Round(b, 49, v, 0x1e376c085141ab53, 0x361e80b2d00f3193, 0xca9bd862c5050918, 0xdfe091dab182e645);
    v := Round(b, 50, v, 0x2748774cdf8eeb99, 0x2e9839125df3b175, 0x813a43dd2c502043, 0x07a0d8ef821c5e1a);
    v := Round(b, 51, v, 0x34b0bcb5e19b48a8, 0x3319629293ad5363, 0xd43f83727325dd77, 0x483f80a82eaee23e);
    v := Round(b, 52, v, 0x391c0cb3c5c95a63, 0x9cbc5d89ac1b89d5, 0x03df11b32d42e203, 0x504f94e40591cffa);
    v := Round(b, 53, v, 0x4ed8aa4ae3418acb, 0x275e23ffeeca50b7, 0xd63f68037ddf06aa, 0xa6781efe1aa1ce02);
    v := Round(b, 54, v, 0x5b9cca4f7763e373, 0x3b80d680bf69ef58, 0xf650857b5babda4d, 0x9ccfb31a86df0f86);
    v := Round(b, 55, v, 0x682e6ff3d6b2b8a3, 0x0d0696933945a125, 0x63b460e42748817e, 0xc6b4dd2a9931c509);
  }

  lemma Rounds64(b: seq<bv8>)
    requires |b| == BLOCK && IsBlock(b)
    ensures Rounds(Fips().k, Fips().iv, b, 64) ==
      Words(0xab44e86276478d85, 0xa81dedbb9f19e643, 0xcfcd928c5424e2b6, 0x3857dfd2fc37d3ba,
            0xcd881ee59ca6bc53, 0x84058865d60a05fa, 0x09aee5bda1644de5, 0xa6af4e9c9f807e51)
  {
    hide IsBlock, W, Rounds, Fips, FIPS_K;
    Constants56();
    Schedule56(b);
    Rounds56(b);
    var v := Words(0x63b460e42748817e, 0xf650857b5babda4d, 0xd63f68037ddf06aa, 0x03df11b32d42e203,
            0xc6b4dd2a9931c509, 0x9ccfb31a86df0f86, 0xa6781efe1aa1ce02, 0x504f94e40591cffa);
    v := Round(b, 56, v, 0x748f82ee5defb2fc, 0x7533eabcb786ff00, 0x7a52912943d52b05, 0xd2e89bbd91e00be0);
    v := Round(b, 57, v, 0x78a5636f43172f60, 0xb89826cee6fbf0e5, 0x4b81c3aec976ea4b, 0x70505988124351ac);
    v := Round(b, 58, v, 0x84c87814a1f0ab72, 0x249b4fbcad623e9f, 0x581ecb3355dcd9b8, 0x6a3c9b0f71c8bf36);
    v := Round(b, 59, v, 0x8cc702081a6439ec, 0x4aea9df2b02d6f1e, 0x2c074484ef1eac8c, 0x4797cde4ed370692);
    v := Round(b, 60, v, 0x90befffa23631e28, 0x2cc57475a55e8d8f, 0x3857dfd2fc37d3ba, 0xa6af4e9c9f807e51);
    v := Round(b, 61, v, 0xa4506cebde82bde9, 0xb2574ae938d8be89, 0xcfcd928c5424e2b6, 0x09aee5bda1644de5);
    v := Round(b, 62, v, 0xbef9a3f7b2c67915, 0xc1b35a57b16d6aea, 0xa81dedbb9f19e643, 0x84058865d60a05fa);
    v := Round(b, 63, v, 0xc67178f2e372532b, 0xcc4918b5949206bb, 0xab44e86276478d85, 0xcd881ee59ca6bc53);
  }

  lemma Rounds72(b: seq<bv8>)
    requires |b| == BLOCK && IsBlock(b)
    ensures Rounds(Fips().k, Fips().iv, b, 72) ==
      Words(0xf15e9664b2803575, 0x7652c579cb60f19c, 0xfb6aaae5d0b6a447, 0x181839d609c79748,
            0x947c3dfafee570ef, 0xaff62c9665ff80fa, 0xe3711cb6564d112d, 0x0ada78ba2d446140)
  {
    hide IsBlock, W, Rounds, Fips, FIPS_K;
    Constants64();
    Schedule64(b);
    Rounds64(b);
    var v := Words(0xab44e86276478d85, 0xa81dedbb9f19e643, 0xcfcd928c5424e2b6, 0x3857dfd2fc37d3ba,
            0xcd881ee59ca6bc53, 0x84058865d60a05fa, 0x09aee5bda1644de5, 0xa6af4e9c9f807e51);
    v := Round(b, 64, v, 0xca273eceea26619c, 0x5099c3add79f90ec, 0x5a806d7e9821a501, 0xaa84b086688a5c45);
    v := Round(b, 65, v, 0xd186b8c721c0c207, 0x5ea81d78e7660bf1, 0xeeb9c21bb0102598, 0x3b5fed0d6a1f96e1);
    v := Round(b, 66, v, 0xeada7dd6cde0eb1e, 0xebee6267405ac2a9, 0x46c4210ab2cc155d, 0x29fab5a7bff53366);
    v := Round(b, 67, v, 0xf57d4f7fee6ed178, 0xb01f21926108a4ab, 0x54ba35cf56a0340e, 0x1c66f46d95690bcf);
    v := Round(b, 68, v, 0x06f067aa72176fba, 0x786433dd2fe65556, 0x181839d609c79748, 0x0ada78ba2d446140);
    v := Round(b, 69, v, 0x0a637dc5a2c898a6, 0xc54a6eaa24a0552c, 0xfb6aaae5d0b6a447, 0xe3711cb6564d112d);
    v := Round(b, 70, v, 0x113f9804bef90dae, 0xb3c8f1530bdbaa9e, 0x7652c579cb60f19c, 0xaff62c9665ff80fa);
    v := Round(b, 71, v, 0x1b710b35131c471b, 0xbb8abfe56f469338, 0xf15e9664b2803575, 0x947c3dfafee570ef);
  }

  lemma Rounds80(b: seq<bv8>)
    requires |b| == BLOCK && IsBlock(b)
    ensures Rounds(Fips().k, Fips().iv, b, 80) ==
      Words(0x73a54f399fa4b1b2, 0x10d9c4c4295599f6, 0xd67806db8b148677, 0x654ef9abec389ca9,
            0xd08446aa79693ed7, 0x9bb4d39778c07f9e, 0x25c96a7768fb2aa3, 0xceb9fc3691ce8326)
  {
    hide IsBlock, W, Rounds, Fips, FIPS_K;
    Constants72();
    Schedule72(b);
    Rounds72(b);
    var v := Words(0xf15e9664b2803575, 0x7652c579cb60f19c, 0xfb6aaae5d0b6a447, 0x181839d609c79748,
            0x947c3dfafee570ef, 0xaff62c9665ff80fa, 0xe3711cb6564d112d, 0x0ada78ba2d446140);
    v := Round(b, 72, v, 0x28db77f523047d84, 0xf63d4265cc1c5a78, 0x358406d165aee9ab, 0x8c7b5fd91a794ca0);
    v := Round(b, 73, v, 0x32caab7b40c72493, 0xbe8355ea73129afb, 0x20878dcd29cdfaf5, 0x054d3536539948d0);
    v := Round(b, 74, v, 0x3c9ebe0a15c9bebc, 0x49e2db8ebdcfbeb5, 0x33d48dabb5521de2, 0x2ba18245b50de4cf);
    v := Round(b, 75, v, 0x431d67c49c100d4c, 0x82269d4a883a3d99, 0xc8960e6be864b916, 0x995019a6ff3ba3de);
    v := Round(b, 76, v, 0x4cc5d4becb3e42b6, 0xfdf53df3011f362b, 0x654ef9abec389ca9, 0xceb9fc3691ce8326);
    v := Round(b, 77, v, 0x597f299cfc657e2a, 0x464af5671d71c12e, 0xd67806db8b148677, 0x25c96a7768fb2aa3);
    v := Round(b, 78, v, 0x5fcb6fab3ad6faec, 0xe449b68198ec611c, 0x10d9c4c4295599f6, 0x9bb4d39778c07f9e);
    v := Round(b, 79, v, 0x6c44198c4a475817, 0x92aeeed1a7bcf7d2, 0x73a54f399fa4b1b2, 0xd08446aa79693ed7);
  }

  lemma Start(b: seq<bv8>)
    requires |b| == BLOCK
    ensures Rounds(Fips().k, Fips().iv, b, 0) ==
      Words(0x6a09e667f3bcc908, 0xbb67ae8584caa73b, 0x3c6ef372fe94f82b, 0xa54ff53a5f1d36f1,
            0x510e527fade682d1, 0x9b05688c2b3e6c1f, 0x1f83d9abfb41bd6b, 0x5be0cd19137e2179)
  {
  }

  // One round from the values v, which gives two new words.
  lemma Round(b: seq<bv8>, t: nat, v: Words, k: bv64, w: bv64, x: bv64, y: bv64) returns (r: Words)
    requires |b| == BLOCK && t < 80 && Rounds(Fips().k, Fips().iv, b, t) == v && Fips().k[t] == k && W(b, t) == w
    requires Step(v, k, w).a == x && Step(v, k, w).e == y
    ensures r == Words(x, v.a, v.b, v.c, y, v.e, v.f, v.g) && Rounds(Fips().k, Fips().iv, b, t + 1) == r
  {
    r := Step(v, k, w);
  }

  lemma Constants0()
    ensures Fips().k[0] == 0x428a2f98d728ae22 && Fips().k[1] == 0x7137449123ef65cd
    ensures Fips().k[2] == 0xb5c0fbcfec4d3b2f && Fips().k[3] == 0xe9b5dba58189dbbc
    ensures Fips().k[4] == 0x3956c25bf348b538 && Fips().k[5] == 0x59f111f1b605d019
    ensures Fips().k[6] == 0x923f82a4af194f9b && Fips().k[7] == 0xab1c5ed5da6d8118
  {
  }

  lemma Constants8()
    ensures Fips().k[8] == 0xd807aa98a3030242 && Fips().k[9] == 0x12835b0145706fbe
    ensures Fips().k[10] == 0x243185be4ee4b28c && Fips().k[11] == 0x550c7dc3d5ffb4e2
    ensures Fips().k[12] == 0x72be5d74f27b896f && Fips().k[13] == 0x80deb1fe3b1696b1
    ensures Fips().k[14] == 0x9bdc06a725c71235 && Fips().k[15] == 0xc19bf174cf692694
  {
  }

  lemma Constants16()
    ensures Fips().k[16] == 0xe49b69c19ef14ad2 && Fips().k[17] == 0xefbe4786384f25e3
    ensures Fips().k[18] == 0x0fc19dc68b8cd5b5 && Fips().k[19] == 0x240ca1cc77ac9c65
    ensures Fips().k[20] == 0x2de92c6f592b0275 && Fips().k[21] == 0x4a7484aa6ea6e483
    ensures Fips().k[22] == 0x5cb0a9dcbd41fbd4 && Fips().k[23] == 0x76f988da831153b5
  {
  }

  lemma Constants24()
    ensures Fips().k[24] == 0x983e5152ee66dfab && Fips().k[25] == 0xa831c66d2db43210
    ensures Fips().k[26] == 0xb00327c898fb213f && Fips().k[27] == 0xbf597fc7beef0ee4
    ensures Fips().k[28] == 0xc6e00bf33da88fc2 && Fips().k[29] == 0xd5a79147930aa725
    ensures Fips().k[30] == 0x06ca6351e003826f && Fips().k[31] == 0x142929670a0e6e70
  {
  }

  lemma Constants32()
    ensures Fips().k[32] == 0x27b70a8546d22ffc && Fips().k[33] == 0x2e1b21385c26c926
    ensures Fips().k[34] == 0x4d2c6dfc5ac42aed && Fips().k[35] == 0x53380d139d95b3df
    ensures Fips().k[36] == 0x650a73548baf63de && Fips().k[37] == 0x766a0abb3c77b2a8
    ensures Fips().k[38] == 0x81c2c92e47edaee6 && Fips().k[39] == 0x92722c851482353b
  {
  }

  lemma Constants40()
    ensures Fips().k[40] == 0xa2bfe8a14cf10364 && Fips().k[41] == 0xa81a664bbc423001
    ensures Fips().k[42] == 0xc24b8b70d0f89791 && Fips().k[43] == 0xc76c51a30654be30
    ensures Fips().k[44] == 0xd192e819d6ef5218 && Fips().k[45] == 0xd69906245565a910
    ensures Fips().k[46] == 0xf40e35855771202a && Fips().k[47] == 0x106aa07032bbd1b8
  {
  }

  lemma Constants48()
    ensures Fips().k[48] == 0x19a4c116b8d2d0c8 && Fips().k[49] == 0x1e376c085141ab53
    ensures Fips().k[50] == 0x2748774cdf8eeb99 && Fips().k[51] == 0x34b0bcb5e19b48a8
    ensures Fips().k[52] == 0x391c0cb3c5c95a63 && Fips().k[53] == 0x4ed8aa4ae3418acb
    ensures Fips().k[54] == 0x5b9cca4f7763e373 && Fips().k[55] == 0x682e6ff3d6b2b8a3
  {
  }

  lemma Constants56()
    ensures Fips().k[56] == 0x748f82ee5defb2fc && Fips().k[57] == 0x78a5636f43172f60
    ensures Fips().k[58] == 0x84c87814a1f0ab72 && Fips().k[59] == 0x8cc702081a6439ec
    ensures Fips().k[60] == 0x90befffa23631e28 && Fips().k[61] == 0xa4506cebde82bde9
    ensures Fips().k[62] == 0xbef9a3f7b2c67915 && Fips().k[63] == 0xc67178f2e372532b
  {
  }

  lemma Constants64()
    ensures Fips().k[64] == 0xca273eceea26619c && Fips().k[65] == 0xd186b8c721c0c207
    ensures Fips().k[66] == 0xeada7dd6cde0eb1e && Fips().k[67] == 0xf57d4f7fee6ed178
    ensures Fips().k[68] == 0x06f067aa72176fba && Fips().k[69] == 0x0a637dc5a2c898a6
    ensures Fips().k[70] == 0x113f9804bef90dae && Fips().k[71] == 0x1b710b35131c471b
  {
  }

  lemma Constants72()
    ensures Fips().k[72] == 0x28db77f523047d84 && Fips().k[73] == 0x32caab7b40c72493
    ensures Fips().k[74] == 0x3c9ebe0a15c9bebc && Fips().k[75] == 0x431d67c49c100d4c
    ensures Fips().k[76] == 0x4cc5d4becb3e42b6 && Fips().k[77] == 0x597f299cfc657e2a
    ensures Fips().k[78] == 0x5fcb6fab3ad6faec && Fips().k[79] == 0x6c44198c4a475817
  {
  }

  lemma Compressed(b: seq<bv8>)
    requires |b| == BLOCK && IsBlock(b)
    ensures Compress(Fips().k, Fips().iv, b) ==
      Words(0xddaf35a193617aba, 0xcc417349ae204131, 0x12e6fa4e89a97ea2, 0x0a9eeee64b55d39a,
            0x2192992a274fc1a8, 0x36ba3c23a3feebbd, 0x454d4423643ce80e, 0x2a9ac94fa54ca49f)
  {
    hide Rounds, IsBlock;
    Rounds80(b);
  }

  const OUT := Words(
      0xddaf35a193617aba, 0xcc417349ae204131, 0x12e6fa4e89a97ea2, 0x0a9eeee64b55d39a,
      0x2192992a274fc1a8, 0x36ba3c23a3feebbd, 0x454d4423643ce80e, 0x2a9ac94fa54ca49f)

  const DIGEST: seq<bv8> :=
    [0xdd, 0xaf, 0x35, 0xa1, 0x93, 0x61, 0x7a, 0xba] + [0xcc, 0x41, 0x73, 0x49, 0xae, 0x20, 0x41, 0x31] +
    [0x12, 0xe6, 0xfa, 0x4e, 0x89, 0xa9, 0x7e, 0xa2] + [0x0a, 0x9e, 0xee, 0xe6, 0x4b, 0x55, 0xd3, 0x9a] +
    [0x21, 0x92, 0x99, 0x2a, 0x27, 0x4f, 0xc1, 0xa8] + [0x36, 0xba, 0x3c, 0x23, 0xa3, 0xfe, 0xeb, 0xbd] +
    [0x45, 0x4d, 0x44, 0x23, 0x64, 0x3c, 0xe8, 0x0e] + [0x2a, 0x9a, 0xc9, 0x4f, 0xa5, 0x4c, 0xa4, 0x9f]

  lemma Digest()
    ensures Hash(Fips(), ABC) == DIGEST
  {
    hide Pad, Compress, IsBlock, DigestBytes, Fips;
    var p := Pad(ABC);
    Padded();
    BlockLength(p);
    Compressed(p);
    assert p[0..BLOCK] == p;
    OneBlock(p);
    Bytes();
  }

  lemma BlockLength(b: seq<bv8>)
    requires IsBlock(b)
    ensures |b| == BLOCK
  {
  }

  lemma OneBlock(p: seq<bv8>)
    requires |p| == BLOCK
    ensures Chain(Fips(), p, 1) == Compress(Fips().k, Fips().iv, p)
  {
    hide Compress, Fips;
    assert p[0..BLOCK] == p;
    assert Chain(Fips(), p, 0) == Fips().iv;
  }

  lemma Bytes()
    ensures DigestBytes(ToSeq(OUT)) == DIGEST
  {
    hide DigestBytes;
    var s := ToSeq(OUT);
    NoBytes();
    DigestAppend(s[..0], s[0]);
    DigestAppend(s[..1], s[1]);
    DigestAppend(s[..2], s[2]);
    DigestAppend(s[..3], s[3]);
    DigestAppend(s[..4], s[4]);
    DigestAppend(s[..5], s[5]);
    DigestAppend(s[..6], s[6]);
    DigestAppend(s[..7], s[7]);
    assert s[..1] == s[..0] + [s[0]] && s[..2] == s[..1] + [s[1]] &&
      s[..3] == s[..2] + [s[2]] && s[..4] == s[..3] + [s[3]] &&
      s[..5] == s[..4] + [s[4]] && s[..6] == s[..5] + [s[5]] &&
      s[..7] == s[..6] + [s[6]] && s[..8] == s[..7] + [s[7]];
    assert s[..8] == s && s[..0] == [];
  }

  lemma NoBytes()
    ensures DigestBytes([]) == []
  {
  }
}
