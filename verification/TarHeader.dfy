/** The 512-byte archive header: octal fields, layout and checksum (pkg/kratos-tar.c). */
module TarHeader {
  import opened Bytes
  import opened TarPath

  const BLOCK := 512
  const SPACES: bytes := [0x20, 0x20, 0x20, 0x20, 0x20, 0x20, 0x20, 0x20]
  const USTAR: bytes := [0x75, 0x73, 0x74, 0x61, 0x72]

  /* ---- Octal numbers ---- */

  predicate IsOctal(c: byte) { 0x30 <= c <= 0x37 }

  function Pow8(k: nat): (p: nat)
    ensures p > 0
  {
    if k == 0 then 1 else 8 * Pow8(k - 1)
  }

  function OctalDigits(v: nat): (d: bytes)
    ensures d != [] && forall c | c in d :: IsOctal(c)
  {
    if v < 8 then [0x30 + v] else OctalDigits(v / 8) + [0x30 + v % 8]
  }

  function Repeat(c: byte, n: nat): (r: bytes)
    ensures |r| == n && forall i | 0 <= i < n :: r[i] == c
  {
    seq(n, _ => c)
  }

  // What snprintf leaves in a field of the given size when asked for size - 1 digits: the digits
  // padded on the left, cut to fit, and a NUL.
  function OctalField(v: nat, size: nat): (r: bytes)
    requires size > 0
    ensures |r| == size
  {
    var d := OctalDigits(v);
    Prefix(Repeat(0x30, if |d| < size - 1 then size - 1 - |d| else 0) + d, size - 1) + [0]
  }

  // The number a field holds: blanks and NULs skipped, then the digits up to the first other byte.
  function Octal(s: bytes): nat
  {
    if s != [] && (s[0] == 0x20 || s[0] == 0) then Octal(s[1..]) else OctalRun(s, 0)
  }

  function OctalRun(s: bytes, v: nat): nat
    decreases |s|
  {
    if s != [] && IsOctal(s[0]) then OctalRun(s[1..], v * 8 + (s[0] as int - 0x30)) else v
  }

  // parse_octal
  method ParseOctal(str: bytes) returns (val: nat)
    ensures val == Octal(str)
  {
    var i := 0;
    assert str[0..] == str;
    while i < |str| && (str[i] == 0x20 || str[i] == 0)
      invariant i <= |str| && Octal(str[i..]) == Octal(str)
    {
      assert str[i..][1..] == str[i + 1..];
      i := i + 1;
    }
    val := 0;
    while i < |str| && IsOctal(str[i])
      invariant i <= |str| && OctalRun(str[i..], val) == Octal(str)
    {
      assert str[i..][1..] == str[i + 1..];
      val := val * 8 + (str[i] as int - 0x30);
      i := i + 1;
    }
  }

  // The digits of d continue the number v.
  function Append(v: nat, d: bytes): (r: nat)
    requires forall c | c in d :: IsOctal(c)
  {
    if d == [] then v
    else
      var c := d[|d| - 1];
      assert c in d && IsOctal(c);
      Append(v, d[..|d| - 1]) * 8 + (c as int - 0x30)
  }

  lemma {:induction false} RunAppend(d: bytes, rest: bytes, v: nat)
    requires forall c | c in d :: IsOctal(c)
    ensures OctalRun(d + rest, v) == OctalRun(rest, Append(v, d))
    decreases |d|
  {
    if d == [] {
      assert d + rest == rest;
    } else {
      var n := |d| - 1;
      assert d + rest == d[..n] + ([d[n]] + rest);
      RunAppend(d[..n], [d[n]] + rest, v);
      assert ([d[n]] + rest)[1..] == rest;
    }
  }

  lemma {:induction false} DigitsValue(v: nat)
    ensures Append(0, OctalDigits(v)) == v
  {
    if v >= 8 {
      DigitsValue(v / 8);
      assert OctalDigits(v)[..|OctalDigits(v)| - 1] == OctalDigits(v / 8);
    }
  }

  lemma {:induction false} ZerosValue(n: nat)
    ensures Append(0, Repeat(0x30, n)) == 0
  {
    if n > 0 {
      assert Repeat(0x30, n)[..n - 1] == Repeat(0x30, n - 1);
      ZerosValue(n - 1);
    }
  }

  lemma {:induction false} AppendTwice(v: nat, a: bytes, b: bytes)
    requires forall c | c in a + b :: IsOctal(c)
    requires forall c | c in a :: IsOctal(c)
    requires forall c | c in b :: IsOctal(c)
    ensures Append(v, a + b) == Append(Append(v, a), b)
    decreases |b|
  {
    if b == [] {
      assert a + b == a;
    } else {
      var n := |b| - 1;
      assert (a + b)[..|a + b| - 1] == a + b[..n];
      AppendTwice(v, a, b[..n]);
    }
  }

  lemma {:induction false} DigitCount(v: nat, w: nat)
    requires w > 0
    ensures |OctalDigits(v)| <= w <==> v < Pow8(w)
    decreases w
  {
    if v >= 8 && w > 1 { DigitCount(v / 8, w - 1); }
    if w == 1 { assert Pow8(1) == 8; }
    if v >= 8 && w > 1 { assert v / 8 < Pow8(w - 1) <==> v < 8 * Pow8(w - 1); }
    if v < 8 && w > 1 { assert Pow8(w) >= 8; }
  }

  // Cutting digits off the end makes the number smaller.
  lemma {:induction false} CutValue(v: nat, n: nat)
    requires n <= |OctalDigits(v)|
    ensures var d := OctalDigits(v)[..n];
      (forall c | c in d :: IsOctal(c)) && Append(0, d) <= v && (n < |OctalDigits(v)| && v > 0 ==> Append(0, d) < v)
  {
    var all := OctalDigits(v);
    if n == |all| {
      assert all[..n] == all;
      DigitsValue(v);
    } else if v >= 8 {
      assert all[..n] == OctalDigits(v / 8)[..n];
      CutValue(v / 8, n);
    }
  }

  // A number written into a field is read back from it, whatever follows, exactly when it fits.
  lemma OctalRoundTrip(v: nat, size: nat, rest: bytes)
    requires size > 1
    ensures v < Pow8(size - 1) <==> Octal(OctalField(v, size) + rest) == v
  {
    hide Octal, OctalRun, OctalDigits, Append, Pow8;
    var d := OctalDigits(v);
    var w := size - 1;
    DigitCount(v, w);
    var tail: bytes := [0] + rest;
    if |d| <= w {
      var zeros := Repeat(0x30, w - |d|);
      assert OctalField(v, size) + rest == zeros + d + tail;
      ReadDigits(zeros + d, tail);
      ZerosValue(w - |d|);
      AppendTwice(0, zeros, d);
      DigitsValue(v);
    } else {
      assert Repeat(0x30, 0) + d == d;
      assert OctalField(v, size) + rest == d[..w] + tail;
      CutValue(v, w);
      ReadDigits(d[..w], tail);
      assert v > 0 by { if v == 0 { assert |OctalDigits(0)| == 1 by { OneDigit(); } } }
    }
  }

  lemma OneDigit()
    ensures |OctalDigits(0)| == 1
  {
  }

  lemma ReadDigits(d: bytes, tail: bytes)
    requires d != [] && (forall c | c in d :: IsOctal(c)) && tail != [] && !IsOctal(tail[0])
    ensures Octal(d + tail) == Append(0, d)
  {
    assert d[0] in d && (d + tail)[0] == d[0];
    RunAppend(d, tail, 0);
  }

  /* ---- Layout ---- */

  // What a header says about an entry.
  datatype Header = Header(name: bytes, mode: nat, uid: nat, gid: nat, size: nat, mtime: nat, flag: byte, link: bytes)

  // A text field: strncpy into a zeroed field, always leaving a NUL at the end.
  function TextField(s: bytes): (r: bytes)
    ensures |r| == 100
  {
    Prefix(s, 99) + Repeat(0, 100 - |Prefix(s, 99)|)
  }

  function ByteAt(h: Header, chksum: bytes, i: nat): byte
    requires |chksum| == 8 && i < BLOCK
  {
    if i < 100 then TextField(h.name)[i]
    else if i < 108 then OctalField(h.mode, 8)[i - 100]
    else if i < 116 then OctalField(h.uid, 8)[i - 108]
    else if i < 124 then OctalField(h.gid, 8)[i - 116]
    else if i < 136 then OctalField(h.size, 12)[i - 124]
    else if i < 148 then OctalField(h.mtime, 12)[i - 136]
    else if i < 156 then chksum[i - 148]
    else if i < 157 then h.flag
    else if i < 257 then TextField(h.link)[i - 157]
    else if i < 262 then USTAR[i - 257]
    else if i < 263 then 0x20
    else 0
  }

  function Layout(h: Header, chksum: bytes): (r: bytes)
    requires |chksum| == 8
    ensures |r| == BLOCK && forall i | 0 <= i < BLOCK :: r[i] == ByteAt(h, chksum, i)
  {
    seq(BLOCK, i requires 0 <= i < BLOCK => ByteAt(h, chksum, i))
  }

  function Sum(b: bytes): nat
  {
    if b == [] then 0 else Sum(b[..|b| - 1]) + b[|b| - 1]
  }

  // How many bytes a signed char reads as negative.
  function High(b: bytes): nat
  {
    if b == [] then 0 else High(b[..|b| - 1]) + if b[|b| - 1] >= 128 then 1 else 0
  }

  // The header with its checksum field blanked.
  function Masked(hdr: bytes): (r: bytes)
    requires |hdr| == BLOCK
    ensures |r| == BLOCK
  {
    hdr[..148] + SPACES + hdr[156..]
  }

  function Seal(sum: nat): (r: bytes)
    ensures |r| == 8
  {
    OctalField(sum, 7) + [0x20]
  }

  // The finished header.
  function HeaderBytes(h: Header): (r: bytes)
    ensures |r| == BLOCK
  {
    Layout(h, Seal(Sum(Layout(h, SPACES))))
  }

  predicate ChecksumOk(hdr: bytes)
    requires |hdr| == BLOCK
  {
    var stored, sum := Octal(hdr[148..156]), Sum(Masked(hdr));
    stored == sum || stored == sum - 256 * High(Masked(hdr))
  }

  // verify_tar_checksum
  method VerifyTarChecksum(hdr: bytes) returns (ok: bool)
    requires |hdr| == BLOCK
    ensures ok == ChecksumOk(hdr)
  {
    var stored := ParseOctal(hdr[148..156]);
    var unsignedSum: int, signedSum: int := 0, 0;
    ghost var m := Masked(hdr);
    for i := 0 to BLOCK
      invariant unsignedSum == Sum(m[..i]) && signedSum == Sum(m[..i]) - 256 * High(m[..i])
    {
      assert m[..i + 1][..i] == m[..i];
      if 148 <= i < 156 {
        unsignedSum, signedSum := unsignedSum + 0x20, signedSum + 0x20;
      } else {
        unsignedSum := unsignedSum + hdr[i];
        signedSum := signedSum + if hdr[i] >= 128 then hdr[i] as int - 256 else hdr[i];
      }
    }
    assert m[..BLOCK] == m;
    return stored == unsignedSum || stored == signedSum;
  }

  method Put(hdr: array<byte>, at: nat, text: bytes)
    requires at + |text| <= hdr.Length
    modifies hdr
    ensures forall i | 0 <= i < hdr.Length :: hdr[i] == if at <= i < at + |text| then text[i - at] else old(hdr[i])
  {
    for i := 0 to |text|
      invariant forall k | 0 <= k < hdr.Length :: hdr[k] == if at <= k < at + i then text[k - at] else old(hdr[k])
    {
      hdr[at + i] := text[i];
    }
  }

  // The header part of append_file_to_tar.
  method WriteHeader(h: Header) returns (out: bytes)
    ensures out == HeaderBytes(h)
  {
    hide OctalField, Sum, Seal, TextField;
    var hdr := new byte[BLOCK](_ => 0);
    FillHeader(hdr, h);
    assert hdr[..] == Layout(h, SPACES);
    var sum: nat := 0;
    SumEmpty();
    assert hdr[..0] == [];
    for i := 0 to BLOCK
      invariant sum == Sum(hdr[..i]) && hdr[..] == Layout(h, SPACES)
    {
      SumNext(hdr[..i], hdr[i]);
      assert hdr[..i + 1] == hdr[..i] + [hdr[i]];
      sum := sum + hdr[i];
    }
    assert hdr[..BLOCK] == hdr[..];
    Put(hdr, 148, Seal(sum));
    assert hdr[..] == HeaderBytes(h);
    return hdr[..];
  }

  lemma SumEmpty()
    ensures Sum([]) == 0
  {
  }

  lemma SumNext(b: bytes, c: byte)
    ensures Sum(b + [c]) == Sum(b) + c && High(b + [c]) == High(b) + if c >= 128 then 1 else 0
  {
    assert (b + [c])[..|b|] == b;
  }

  method FillHeader(hdr: array<byte>, h: Header)
    requires hdr.Length == BLOCK && forall i | 0 <= i < BLOCK :: hdr[i] == 0
    modifies hdr
    ensures forall i | 0 <= i < BLOCK :: hdr[i] == ByteAt(h, SPACES, i)
  {
    hide OctalField;
    Put(hdr, 0, Prefix(h.name, 99));
    Put(hdr, 100, OctalField(h.mode, 8));
    Put(hdr, 108, OctalField(h.uid, 8));
    Put(hdr, 116, OctalField(h.gid, 8));
    Put(hdr, 136, OctalField(h.mtime, 12));
    Put(hdr, 257, USTAR + [0x20]);
    Put(hdr, 156, [h.flag]);
    Put(hdr, 124, OctalField(h.size, 12));
    Put(hdr, 157, Prefix(h.link, 99));
    Put(hdr, 148, SPACES);
  }

  /* ---- Reading what was written ---- */

  lemma {:induction false} SumBound(b: bytes)
    ensures Sum(b) <= 255 * |b|
  {
    if b != [] { SumBound(b[..|b| - 1]); }
  }

  // A written header passes its checksum.
  lemma SealVerifies(h: Header)
    ensures ChecksumOk(HeaderBytes(h)) && Octal(HeaderBytes(h)[148..156]) == Sum(Masked(HeaderBytes(h)))
  {
    hide Octal, OctalField, Sum, Pow8, ByteAt;
    var blank := Layout(h, SPACES);
    var sum, hdr := Sum(blank), HeaderBytes(h);
    forall i | 0 <= i < BLOCK && !(148 <= i < 156) ensures hdr[i] == blank[i] {
      OutsideChecksum(h, SPACES, Seal(sum), i);
    }
    forall i | 148 <= i < 156 ensures hdr[i] == Seal(sum)[i - 148] && blank[i] == 0x20 {
      InsideChecksum(h, SPACES, i);
      InsideChecksum(h, Seal(sum), i);
    }
    assert Masked(hdr) == blank;
    assert hdr[148..156] == Seal(sum);
    SumBound(blank);
    assert Pow8(6) == 262144 by { Pow8Six(); }
    OctalRoundTrip(sum, 7, [0x20]);
  }

  lemma Pow8Six()
    ensures Pow8(6) == 262144 && Pow8(7) == 2097152 && Pow8(11) == 8589934592
  {
    assert Pow8(3) == 512;
    assert Pow8(6) == 262144;
    assert Pow8(9) == 134217728;
  }

  lemma OutsideChecksum(h: Header, a: bytes, b: bytes, i: nat)
    requires |a| == 8 && |b| == 8 && i < BLOCK && !(148 <= i < 156)
    ensures ByteAt(h, a, i) == ByteAt(h, b, i)
  {
  }

  lemma InsideChecksum(h: Header, a: bytes, i: nat)
    requires |a| == 8 && 148 <= i < 156
    ensures ByteAt(h, a, i) == a[i - 148]
  {
  }

  // No header the writer sealed can have a single byte outside the checksum field changed
  // without the reader noticing, although it also accepts the sum of the bytes read as signed.
  lemma SingleByteDetected(hdr: bytes, i: nat, c: byte)
    requires |hdr| == BLOCK && i < BLOCK && !(148 <= i < 156)
    requires Octal(hdr[148..156]) == Sum(Masked(hdr)) && c != hdr[i]
    ensures !ChecksumOk(hdr[i := c])
  {
    hide Octal, Sum;
    var changed := hdr[i := c];
    assert changed[148..156] == hdr[148..156];
    assert Masked(changed) == Masked(hdr)[i := c];
    SumOfUpdate(Masked(hdr), i, c);
  }

  lemma {:induction false} SumOfUpdate(b: bytes, i: nat, c: byte)
    requires i < |b|
    ensures Sum(b[i := c]) == Sum(b) + c as int - b[i] as int
  {
    var n := |b| - 1;
    if i < n {
      assert b[i := c][..n] == b[..n][i := c];
      SumOfUpdate(b[..n], i, c);
    } else {
      assert b[i := c][..n] == b[..n];
    }
  }

  // The text of a field up to its NUL.
  function Text(b: bytes): bytes
  {
    if b == [] || b[0] == 0 then [] else [b[0]] + Text(b[1..])
  }

  lemma {:induction false} TextOf(s: bytes, rest: bytes)
    requires 0 !in s && (rest == [] || rest[0] == 0)
    ensures Text(s + rest) == s
  {
    if s == [] {
      assert s + rest == rest;
    } else {
      assert (s + rest)[1..] == s[1..] + rest;
      TextOf(s[1..], rest);
    }
  }

  lemma TextFieldReads(s: bytes)
    requires 0 !in s
    ensures Text(TextField(s)) == Prefix(s, 99)
  {
    TextOf(Prefix(s, 99), Repeat(0, 100 - |Prefix(s, 99)|));
  }

  // The pieces of a written header.
  lemma Pieces(h: Header)
    ensures var b := HeaderBytes(h);
      b[..100] == TextField(h.name) && b[100..108] == OctalField(h.mode, 8) &&
      b[124..136] == OctalField(h.size, 12) && b[156] == h.flag && b[157..257] == TextField(h.link) && b[345] == 0
  {
    hide TextField, OctalField, Sum;
    var b := HeaderBytes(h);
    assert forall i | 0 <= i < 100 :: b[..100][i] == b[i];
  }
}
