/** Unpacking an archive (kratos_tar_extract_fd in pkg/kratos-tar.c) below a directory dest of
    a file system whose symbolic links are followed. */
module TarExtract {
  import opened Bytes
  import opened CStrings
  import opened TarPath
  import opened TarHeader
  import opened FileSystem
  import opened TarTree

  datatype Code = OK | READ | WRITE | CORRUPT | PATH_TRAVERSAL | UNSAFE_TYPE | SYMLINK_ESCAPE | SIZE_LIMIT

  const MAX_FILE := 512 * 1024 * 1024

  /* ---- Where an entry goes ---- */

  // The entry's own path, unless its name ends in a slash or in "." and so can only be a
  // directory that is already there.
  function Target(rel: bytes): (p: Option<Path>)
    ensures p.Some? ==> p.value != []
  {
    if Base(rel) == [] || Base(rel) == DOT then None else Some(Directory(rel) + [Base(rel)])
  }

  // make_parent_dirs
  function MakeParents(fs: Fs, dest: Path, dirs: Path): Fs
  {
    if dirs == [] then fs else MkDir(MakeParents(fs, dest, Above(dirs)), dest, dirs, 0x1ED)
  }

  function MakeDir(fs: Fs, dest: Path, rel: bytes, mode: nat): Fs
  {
    var made := MakeParents(fs, dest, Directory(rel));
    match Target(rel) case None => made case Some(p) => MkDir(made, dest, p, mode)
  }

  function MakeSymLink(fs: Fs, dest: Path, rel: bytes, target: bytes): Fs
  {
    var made := MakeParents(fs, dest, Directory(rel));
    match Target(rel) case None => made case Some(p) => SymLink(Unlink(made, dest, p), dest, p, target)
  }

  function MakeHardLink(fs: Fs, dest: Path, from: bytes, rel: bytes): Fs
  {
    var made := MakeParents(fs, dest, Directory(rel));
    match (Target(rel), Target(from))
    case (None, _) => made
    case (Some(p), None) => Unlink(made, dest, p)
    case (Some(p), Some(f)) => HardLink(Unlink(made, dest, p), dest, f, p)
  }

  // The file system with the parents made and the old file gone, and with the new one if it
  // could be opened.
  function MakeFile(fs: Fs, dest: Path, rel: bytes, mode: nat, data: bytes): (Fs, Option<Fs>)
  {
    var made := MakeParents(fs, dest, Directory(rel));
    match Target(rel)
    case None => (made, None)
    case Some(p) => (Unlink(made, dest, p), WriteFile(Unlink(made, dest, p), dest, p, mode, data))
  }

  /* ---- Headers ---- */

  function FullName(hdr: bytes): bytes
    requires |hdr| == BLOCK
  {
    if hdr[345] != 0 && hdr[257..262] == USTAR then Text(hdr[345..500]) + SLASH + Text(hdr[..100]) else Text(hdr[..100])
  }

  // Leading "./" and then leading "/" taken off.
  function StripDots(s: bytes): bytes
  {
    if |s| >= 2 && s[0] == 0x2E && s[1] == 0x2F then StripDots(s[2..]) else s
  }

  function StripSlashes(s: bytes): bytes
  {
    if s != [] && s[0] == 0x2F then StripSlashes(s[1..]) else s
  }

  function Clean(s: bytes): bytes { StripSlashes(StripDots(s)) }

  function EntryName(hdr: bytes): bytes
    requires |hdr| == BLOCK
  {
    Clean(FullName(hdr))
  }

  function LinkName(hdr: bytes): bytes
    requires |hdr| == BLOCK
  {
    Text(hdr[157..257])
  }

  function Mode(hdr: bytes): nat
    requires |hdr| == BLOCK
  {
    Octal(hdr[100..108])
  }

  function Size(hdr: bytes): nat
    requires |hdr| == BLOCK
  {
    Octal(hdr[124..136])
  }

  predicate IsZero(block: bytes) { forall c | c in block :: c == 0 }

  /* ---- Extraction ---- */

  function Rounded(size: nat): (n: nat)
    ensures size <= n < size + BLOCK && n % BLOCK == 0
  {
    (size + BLOCK - 1) / BLOCK * BLOCK
  }

  // What an entry's header asks for, given the rest of the archive.
  datatype Outcome = Go(fs: Fs, used: nat) | Stop(fs: Fs, code: Code)

  function Step(hdr: bytes, rest: bytes, fs: Fs, dest: Path): (o: Outcome)
    requires |hdr| == BLOCK
    ensures o.Go? ==> o.used <= |rest|
  {
    var rel, link, mode, size, flag := EntryName(hdr), LinkName(hdr), Mode(hdr), Size(hdr), hdr[156];
    if !ChecksumOk(hdr) then Stop(fs, CORRUPT)
    else if rel == [] then Go(fs, 0)
    else if !SafeRelpath(rel) then Stop(fs, PATH_TRAVERSAL)
    else if size > MAX_FILE then Stop(fs, SIZE_LIMIT)
    else if flag == 0x35 then Go(MakeDir(fs, dest, rel, ModeOr(mode, 0x1ED)), 0)
    else if flag == 0x32 then
      if !SafeTarget(rel, link) then Stop(fs, SYMLINK_ESCAPE) else Go(MakeSymLink(fs, dest, rel, link), 0)
    else if flag == 0x31 then
      if !SafeRelpath(Clean(link)) then Stop(fs, PATH_TRAVERSAL) else Go(MakeHardLink(fs, dest, Clean(link), rel), 0)
    else if flag == 0x30 || flag == 0 then Contents(rest, fs, dest, rel, ModeOr(mode, 0x1A4), size)
    else Stop(fs, UNSAFE_TYPE)
  }

  // A regular file: whole blocks are read, the last one cut to the size.
  function Contents(rest: bytes, fs: Fs, dest: Path, rel: bytes, mode: nat, size: nat): (o: Outcome)
    ensures o.Go? ==> o.used <= |rest|
  {
    var data := if |rest| < Rounded(size) then rest[..|rest| / BLOCK * BLOCK] else rest[..size];
    var (before, opened_) := MakeFile(fs, dest, rel, mode, data);
    match opened_
    case None => Stop(before, WRITE)
    case Some(after) => if |rest| < Rounded(size) then Stop(after, READ) else Go(after, Rounded(size))
  }

  function Extract(s: bytes, fs: Fs, dest: Path, zeros: nat): (Fs, Code)
    decreases |s|
  {
    if s == [] then (fs, OK)
    else if |s| < BLOCK then (fs, if zeros >= 1 then OK else READ)
    else if IsZero(s[..BLOCK]) then if zeros + 1 >= 2 then (fs, OK) else Extract(s[BLOCK..], fs, dest, zeros + 1)
    else
      match Step(s[..BLOCK], s[BLOCK..], fs, dest)
      case Stop(fs', code) => (fs', code)
      case Go(fs', used) => Extract(s[BLOCK + used..], fs', dest, 0)
  }

  /* ---- The reader's loops ---- */

  class Reader {
    const input: bytes
    const dest: Path
    var pos: nat
    var fs: Fs

    constructor (input: bytes, fs: Fs, dest: Path)
      ensures this.input == input && this.dest == dest && this.fs == fs && pos == 0
    {
      this.input, this.dest, this.fs, pos := input, dest, fs, 0;
    }

    method MakeParentDirs(dirs: Path)
      modifies this`fs
      ensures fs == MakeParents(old(fs), dest, dirs)
    {
      for i := 0 to |dirs|
        invariant fs == MakeParents(old(fs), dest, dirs[..i])
      {
        assert Above(dirs[..i + 1]) == dirs[..i];
        fs := MkDir(fs, dest, dirs[..i + 1], 0x1ED);
      }
      assert dirs[..|dirs|] == dirs;
    }

    // The regular-file branch, with the header already read.
    method ExtractFile(rel: bytes, mode: nat, size: nat) returns (code: Code)
      requires pos <= |input|
      modifies this
      ensures old(pos) <= pos <= |input|
      ensures match Contents(input[old(pos)..], old(fs), dest, rel, mode, size)
        case Stop(f, c) => fs == f && code == c && c != OK
        case Go(f, used) => fs == f && code == OK && pos == old(pos) + used
    {
      hide Directory, Base, MakeParents, Follow;
      ghost var rest := input[pos..];
      MakeParentDirs(Directory(rel));
      var target := Target(rel);
      if target == None { return WRITE; }
      fs := Unlink(fs, dest, target.value);
      ghost var cleared := fs;
      var opened_ := WriteFile(fs, dest, target.value, mode, []);
      if opened_ == None { return WRITE; }
      var p := Where(fs, dest, target.value).value;
      fs := opened_.value;
      var left := size;
      ghost var done: nat := 0;
      while left > 0
        invariant done % BLOCK == 0 && old(pos) + done == pos && done <= |rest|
        invariant left == if size < done then 0 else size - done
        invariant if size > 0 then done < size + BLOCK else done == 0
        invariant fs == cleared[p := OFile(mode, rest[..if size < done then size else done])]
        decreases left
      {
        if |input| - pos < BLOCK {
          Stuck(|rest|, done, size);
          return READ;
        }
        var block := input[pos..pos + BLOCK];
        pos := pos + BLOCK;
        var toWrite := if left < BLOCK then left else BLOCK;
        assert block == rest[done..done + BLOCK];
        TakeMore(rest, done, toWrite);
        fs := fs[p := OFile(mode, fs[p].data + block[..toWrite])];
        left := left - toWrite;
        done := done + BLOCK;
      }
      Finished(done, size);
      assert fs[p] == OFile(mode, rest[..size]);
      return OK;
    }

    // One entry, with its header already read.
    method ExtractEntry(hdr: bytes) returns (code: Code)
      requires |hdr| == BLOCK && pos <= |input|
      modifies this
      ensures old(pos) <= pos <= |input|
      ensures match Step(hdr, input[old(pos)..], old(fs), dest)
        case Stop(f, c) => fs == f && code == c && c != OK
        case Go(f, used) => fs == f && code == OK && pos == old(pos) + used
    {
      hide Directory, Base, MakeParents, Where, SafeRelpath, SafeTarget, ChecksumOk, Clean, Text, Octal, FullName;
      var sealed := VerifyTarChecksum(hdr);
      if !sealed { return CORRUPT; }
      var rel := Clean(FullName(hdr));
      if rel == [] { return OK; }
      var safe := IsSafeRelpath(rel);
      if !safe { return PATH_TRAVERSAL; }
      var link := Text(hdr[157..257]);
      var mode := ParseOctal(hdr[100..108]);
      var size := ParseOctal(hdr[124..136]);
      var flag := if hdr[156] != 0 then hdr[156] else 0x30;
      if size > MAX_FILE { return SIZE_LIMIT; }
      if flag == 0x35 {
        MakeParentDirs(Directory(rel));
        var target := Target(rel);
        if target != None { fs := MkDir(fs, dest, target.value, if mode != 0 then mode % 512 else 0x1ED); }
      } else if flag == 0x32 {
        var inside := IsSafeSymlinkTarget(rel, link);
        if !inside { return SYMLINK_ESCAPE; }
        MakeParentDirs(Directory(rel));
        var target := Target(rel);
        if target != None {
          fs := Unlink(fs, dest, target.value);
          fs := SymLink(fs, dest, target.value, link);
        }
      } else if flag == 0x31 {
        var from := Clean(link);
        var safeLink := IsSafeRelpath(from);
        if !safeLink { return PATH_TRAVERSAL; }
        MakeParentDirs(Directory(rel));
        var target, source := Target(rel), Target(from);
        if target != None {
          fs := Unlink(fs, dest, target.value);
          if source != None { fs := HardLink(fs, dest, source.value, target.value); }
        }
      } else if flag == 0x30 {
        code := ExtractFile(rel, if mode != 0 then mode % 512 else 0x1A4, size);
        return code;
      } else {
        return UNSAFE_TYPE;
      }
      return OK;
    }

    // kratos_tar_extract_fd, without a callback
    method ExtractFd() returns (code: Code)
      requires pos <= |input|
      modifies this
      ensures (fs, code) == Extract(input[old(pos)..], old(fs), dest, 0)
    {
      hide Step;
      var zeros := 0;
      while true
        invariant pos <= |input| && 0 <= zeros < 2
        invariant Extract(input[old(pos)..], old(fs), dest, 0) == Extract(input[pos..], fs, dest, zeros)
        decreases |input| - pos
      {
        ghost var s := input[pos..];
        if pos == |input| { return OK; }
        if |input| - pos < BLOCK { return if zeros >= 1 then OK else READ; }
        var hdr := input[pos..pos + BLOCK];
        assert hdr == s[..BLOCK];
        pos := pos + BLOCK;
        assert input[pos..] == s[BLOCK..];
        var isZero := true;
        for i := 0 to BLOCK
          invariant isZero && IsZero(hdr[..i])
        {
          if hdr[i] != 0 { assert hdr[i] in hdr; isZero := false; break; }
          assert hdr[..i + 1] == hdr[..i] + [hdr[i]];
        }
        assert isZero ==> hdr[..BLOCK] == hdr;
        assert isZero == IsZero(hdr);
        if isZero {
          zeros := zeros + 1;
          if zeros >= 2 { break; }
          continue;
        }
        zeros := 0;
        ghost var at, before := pos, fs;
        code := ExtractEntry(hdr);
        if code != OK { return; }
        assert Step(hdr, s[BLOCK..], before, dest).Go?;
        assert input[pos..] == s[BLOCK + (pos - at)..];
      }
      return OK;
    }
  }

  lemma TakeMore(s: bytes, done: nat, n: nat)
    requires done + BLOCK <= |s| && n <= BLOCK
    ensures s[..done + n] == s[..done] + s[done..done + BLOCK][..n]
  {
  }

  lemma Stuck(n: nat, done: nat, size: nat)
    requires done % BLOCK == 0 && done <= n < done + BLOCK && done < size
    ensures n < Rounded(size) && n / BLOCK * BLOCK == done
  {
  }

  lemma Finished(done: nat, size: nat)
    requires done % BLOCK == 0 && size <= done && (if size > 0 then done < size + BLOCK else done == 0)
    ensures done == Rounded(size)
  {
  }
}
