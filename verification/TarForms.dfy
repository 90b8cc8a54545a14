/** What the reader takes beyond what the writer makes: names in two parts, leading dots and
    slashes, blank-filled numbers, archives that just end, and where its limits are. */
module TarForms {
  import opened Bytes
  import opened CStrings
  import opened TarPath
  import opened TarHeader
  import opened FileSystem
  import opened TarTree
  import opened TarExtract
  import opened TarRoundTrip

  /* ---- Names ---- */

  // A field filled up with NULs.
  function Field(s: bytes, n: nat): bytes
    requires |s| <= n
  {
    s + Repeat(0, n - |s|)
  }

  lemma FieldText(s: bytes, n: nat)
    requires |s| <= n && 0 !in s
    ensures Text(Field(s, n)) == s
  {
    TextOf(s, Repeat(0, n - |s|));
  }

  // A name in two parts: up to 155 bytes and up to 100, with the magic "ustar" between them.
  lemma TwoPartName(name: bytes, prefix: bytes, middle: bytes, owners: bytes, padding: bytes)
    requires |name| <= 100 && 0 < |prefix| <= 155 && 0 !in name && 0 !in prefix
    requires |middle| == 157 && |owners| == 83 && |padding| == 12
    ensures var magic := [0x75, 0x73, 0x74, 0x61, 0x72];
      var hdr := Field(name, 100) + middle + magic + owners + Field(prefix, 155) + padding;
      |hdr| == 512 && FullName(hdr) == prefix + [0x2F] + name
  {
    hide Text;
    var a, b, magic := Field(name, 100), Field(prefix, 155), [0x75, 0x73, 0x74, 0x61, 0x72];
    var hdr := a + middle + magic + owners + b + padding;
    FieldText(name, 100);
    FieldText(prefix, 155);
    assert hdr[..100] == a && hdr[257..262] == magic && hdr[345..500] == b;
    assert hdr[345] == b[0] == prefix[0] && prefix[0] in prefix;
  }

  // Without a prefix, or without the magic, the name is the first field alone.
  lemma OnePartName(hdr: bytes, name: bytes)
    requires |hdr| == 512 && |name| <= 100 && 0 !in name && hdr[..100] == Field(name, 100)
    requires hdr[345] == 0 || hdr[257..262] != [0x75, 0x73, 0x74, 0x61, 0x72]
    ensures FullName(hdr) == name
  {
    FieldText(name, 100);
  }

  // Any number of "./" and then of "/" is taken off the front.
  function Dots(k: nat): bytes { if k == 0 then [] else [0x2E, 0x2F] + Dots(k - 1) }
  function Slashes(k: nat): bytes { if k == 0 then [] else [0x2F] + Slashes(k - 1) }

  lemma CleanStrips(k: nat, j: nat, p: bytes)
    requires p == [] || (p[0] != 0x2F && !([0x2E, 0x2F] <= p))
    ensures Clean(Dots(k) + (Slashes(j) + p)) == p
  {
    assert if j == 0 then Slashes(j) + p == p else (Slashes(j) + p)[0] == 0x2F;
    DotsOff(k, Slashes(j) + p);
    SlashesOff(j, p);
  }

  lemma {:induction false} DotsOff(k: nat, t: bytes)
    requires !([0x2E, 0x2F] <= t)
    ensures StripDots(Dots(k) + t) == t
  {
    var s := Dots(k) + t;
    if k == 0 {
      assert s == t && (|t| >= 2 ==> t[..2] == [t[0], t[1]]);
    } else {
      assert s[2..] == Dots(k - 1) + t;
      DotsOff(k - 1, t);
    }
  }

  lemma {:induction false} SlashesOff(j: nat, p: bytes)
    requires p == [] || p[0] != 0x2F
    ensures StripSlashes(Slashes(j) + p) == p
  {
    if j == 0 {
      assert Slashes(0) + p == p;
    } else {
      assert (Slashes(j) + p)[1..] == Slashes(j - 1) + p;
      SlashesOff(j - 1, p);
    }
  }

  /* ---- Numbers ---- */

  // Blanks and NULs before an octal number do not matter.
  lemma {:induction false} OctalBlanks(blanks: bytes, s: bytes)
    requires forall c | c in blanks :: c == 0x20 || c == 0
    ensures Octal(blanks + s) == Octal(s)
  {
    if blanks == [] {
      assert blanks + s == s;
    } else {
      assert (blanks + s)[1..] == blanks[1..] + s && blanks[0] in blanks;
      assert forall c | c in blanks[1..] :: c in blanks;
      OctalBlanks(blanks[1..], s);
    }
  }

  // The sum of the bytes, each read as a signed char.
  function SignedSum(s: bytes): int
  {
    if s == [] then 0 else (if s[0] < 128 then s[0] else s[0] - 256) + SignedSum(s[1..])
  }

  function UnsignedSum(s: bytes): nat
  {
    if s == [] then 0 else s[0] + UnsignedSum(s[1..])
  }

  // A header passes exactly when its checksum field holds one of the two sums of the other bytes
  // and eight blanks.
  lemma ChecksumExactly(hdr: bytes)
    requires |hdr| == 512
    ensures var stored, rest := Octal(hdr[148..156]), hdr[..148] + hdr[156..];
      ChecksumOk(hdr) <==> stored == UnsignedSum(rest) + 256 || stored == SignedSum(rest) + 256
  {
    hide Octal, Sum, High, SignedSum, UnsignedSum;
    var a, b, z := hdr[..148], hdr[156..], [0x20, 0x20, 0x20, 0x20, 0x20, 0x20, 0x20, 0x20];
    BlanksSum(z);
    Sums(a + z, b);
    Sums(a, z);
    Sums(a, b);
    assert Masked(hdr) == a + z + b;
    Agree(a);
    Agree(b);
  }

  lemma {:induction false} BlanksSum(z: bytes)
    requires forall c | c in z :: c == 0x20
    ensures Sum(z) == 32 * |z| && High(z) == 0
  {
    if z != [] {
      var init := z[..|z| - 1];
      assert z[|z| - 1] in z && forall c | c in init :: c in z;
      BlanksSum(init);
    }
  }

  lemma {:induction false} Sums(a: bytes, b: bytes)
    ensures Sum(a + b) == Sum(a) + Sum(b) && High(a + b) == High(a) + High(b)
    ensures SignedSum(a + b) == SignedSum(a) + SignedSum(b) && UnsignedSum(a + b) == UnsignedSum(a) + UnsignedSum(b)
  {
    SumsRight(a, b);
    SumsLeft(a, b);
  }

  lemma {:induction false} SumsRight(a: bytes, b: bytes)
    ensures Sum(a + b) == Sum(a) + Sum(b) && High(a + b) == High(a) + High(b)
  {
    if b == [] {
      assert a + b == a;
    } else {
      assert (a + b)[..|a + b| - 1] == a + b[..|b| - 1];
      SumsRight(a, b[..|b| - 1]);
    }
  }

  lemma {:induction false} SumsLeft(a: bytes, b: bytes)
    ensures SignedSum(a + b) == SignedSum(a) + SignedSum(b) && UnsignedSum(a + b) == UnsignedSum(a) + UnsignedSum(b)
  {
    if a == [] {
      assert a + b == b;
    } else {
      assert (a + b)[1..] == a[1..] + b;
      SumsLeft(a[1..], b);
    }
  }

  lemma {:induction false} Agree(s: bytes)
    ensures Sum(s) == UnsignedSum(s) && Sum(s) - 256 * High(s) == SignedSum(s)
  {
    if s != [] {
      var init, last := s[..|s| - 1], [s[|s| - 1]];
      assert s == init + last;
      Agree(init);
      Sums(init, last);
      assert last[1..] == [] && last[..0] == [];
    }
  }

  /* ---- Ends ---- */

  // An archive that ends within a block is in order behind one zero block and not otherwise; two
  // zero blocks end it whatever follows.
  lemma Ends(fs: Fs, dest: Path, part: bytes, more: bytes)
    requires 0 < |part| < 512
    ensures Extract(part, fs, dest, 0) == (fs, READ)
    ensures Extract(Repeat(0, 512) + part, fs, dest, 0) == (fs, OK)
    ensures Extract(Repeat(0, 512) + (Repeat(0, 512) + more), fs, dest, 0) == (fs, OK)
    ensures Extract([], fs, dest, 0) == Extract(Repeat(0, 512), fs, dest, 0) == (fs, OK)
  {
    var z := Repeat(0, 512);
    assert IsZero(z);
    var s, t := z + part, z + (z + more);
    assert s[..512] == z && s[512..] == part && t[..512] == z && t[512..] == z + more;
    assert (z + more)[..512] == z && z[..512] == z && z[512..] == [];
  }

  /* ---- Limits ---- */

  function Letters(k: nat): bytes { if k == 0 then [] else [0x78] + Letters(k - 1) }

  lemma {:induction false} LettersAre(k: nat)
    ensures |Letters(k)| == k && forall c | c in Letters(k) :: c == 0x78
  {
    if k > 0 { LettersAre(k - 1); }
  }

  // The longest path that is accepted has 4063 bytes.
  lemma PathLength(k: nat, p: bytes)
    requires k > 0
    ensures (SafeRelpath(Letters(k)) <==> k < 4064) && (SafeRelpath(p) ==> |p| < 4064)
  {
    hide Find;
    var s := Letters(k);
    LettersAre(k);
    assert s[0] in s;
    if |s| >= 2 { assert s[1] in s; }
    NoDotsIn(s, SLASH + DOTDOT);
    NoDotsIn(s, [0x5C] + DOTDOT);
  }

  // A link target is resolved as far as its first 4095 bytes.
  lemma TargetCut(rel: bytes, link: bytes)
    requires |link| >= 4095
    ensures SafeTarget(rel, link) <==> SafeTarget(rel, link[..4095]) && forall c | c in link :: c >= 32
  {
    hide Resolve, Fields, Directory;
    assert Prefix(link, 4095) == link[..4095] == Prefix(link[..4095], 4095);
    assert forall c | c in link[..4095] :: c in link;
  }

  lemma NoDotsIn(s: bytes, pattern: bytes)
    requires (forall c | c in s :: c == 0x78) && |pattern| == 3 && pattern[1] == 0x2E
    ensures !Contains(s, pattern)
  {
    hide Find;
    forall i: nat | i <= |s| ensures !At(s, |s|, i, pattern) {
      if i + 3 <= |s| { assert s[i..i + 3][1] == s[i + 1] && s[i + 1] in s; }
    }
  }

  // How far an entry gets: the checks in their order, a file of more than 512 MiB being too large.
  lemma EntryCodes(hdr: bytes, rest: bytes, fs: Fs, dest: Path)
    requires |hdr| == 512
    ensures var o, flag := Step(hdr, rest, fs, dest), hdr[156];
      if !ChecksumOk(hdr) then o == Stop(fs, CORRUPT)
      else if EntryName(hdr) == [] then o == Go(fs, 0)
      else if !SafeRelpath(EntryName(hdr)) then o == Stop(fs, PATH_TRAVERSAL)
      else if Size(hdr) > 536870912 then o == Stop(fs, SIZE_LIMIT)
      else if flag == 0x32 && !SafeTarget(EntryName(hdr), LinkName(hdr)) then o == Stop(fs, SYMLINK_ESCAPE)
      else if flag == 0x31 && !SafeRelpath(Clean(LinkName(hdr))) then o == Stop(fs, PATH_TRAVERSAL)
      else if flag !in [0, 0x30, 0x31, 0x32, 0x35] then o == Stop(fs, UNSAFE_TYPE)
      else o.Go? || (flag in [0, 0x30] && (o.code == WRITE || o.code == READ))
  {
    hide ChecksumOk, EntryName, SafeRelpath, SafeTarget, LinkName, Mode, Size, Clean, MakeDir, MakeSymLink,
      MakeHardLink, MakeFile;
  }

  // A record takes whole blocks of 512 bytes: one for the header and as many as the data needs.
  lemma RecordLength(rel: bytes, node: Node)
    requires !node.Special?
    ensures |Record(rel, node)| == 512 * (1 + if node.File? then (|node.data| + 511) / 512 else 0)
    ensures |Archive([])| == 1024
  {
    hide HeaderBytes, HeaderFor;
    if node.File? { PaddedIs(node.data, []); }
  }
}
