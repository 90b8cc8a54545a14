/** Whether unpacking stays below its directory (pkg/kratos-tar.c), symbolic links followed. */
module TarContainment {
  import opened Bytes
  import opened CStrings
  import opened TarPath
  import opened TarHeader
  import opened FileSystem
  import opened TarTree
  import opened TarExtract
  import opened TarRoundTrip

  /* ---- What an archive asks for ---- */

  // An entry whose header passes every check.
  predicate Accepted(hdr: bytes)
    requires |hdr| == BLOCK
  {
    var rel, flag := EntryName(hdr), hdr[156];
    ChecksumOk(hdr) &&
    (rel == [] || (SafeRelpath(rel) && Size(hdr) <= MAX_FILE && flag in [0, 0x30, 0x31, 0x32, 0x35] &&
      (flag == 0x32 ==> SafeTarget(rel, LinkName(hdr))) && (flag == 0x31 ==> SafeRelpath(Clean(LinkName(hdr))))))
  }

  // The bytes of contents behind a header.
  function Skip(hdr: bytes): nat
    requires |hdr| == BLOCK
  {
    if EntryName(hdr) != [] && hdr[156] in [0, 0x30] then Rounded(Size(hdr)) else 0
  }

  // The headers the reader comes to, up to the first it refuses.
  function Headers(s: bytes, zeros: nat): (hdrs: seq<bytes>)
    ensures forall hdr | hdr in hdrs :: |hdr| == BLOCK
    decreases |s|
  {
    if |s| < BLOCK then []
    else
      var hdr := s[..BLOCK];
      if IsZero(hdr) then if zeros + 1 >= 2 then [] else Headers(s[BLOCK..], zeros + 1)
      else if !Accepted(hdr) || Skip(hdr) > |s| - BLOCK then [hdr]
      else [hdr] + Headers(s[BLOCK + Skip(hdr)..], 0)
  }

  // An entry that keeps the rule: its parents run through no listed link, a symbolic link is listed,
  // and the source of a hard link is neither a listed link nor behind one; or else no target climbs.
  predicate Clear(hdr: bytes, rule: Rule)
    requires |hdr| == BLOCK
  {
    var rel, link, flag := EntryName(hdr), LinkName(hdr), hdr[156];
    Accepted(hdr) && rel != [] ==>
      MayEnter(rule, Directory(rel)) &&
      (flag == 0x32 ==> match Target(rel) case None => true case Some(p) => LinkOk(rule, p, link)) &&
      (flag == 0x31 ==> match Target(Clean(link)) case None => true case Some(f) => MayEnter(rule, f))
  }

  /* ---- One entry ---- */

  lemma {:induction false} NamesKeep(fields: seq<bytes>)
    ensures forall f | f in Names(fields) :: f in fields && f != DOT
  {
    if fields != [] { NamesKeep(fields[..|fields| - 1]); }
  }

  lemma SafeIsPlain(rel: bytes)
    requires SafeRelpath(rel)
    ensures Plain(Directory(rel)) && (Target(rel).Some? ==> Plain(Target(rel).value))
  {
    hide Fields, Names, Parent, Base;
    var up, last := Parent(rel), Base(rel);
    assert Prefix(rel, PATH_MAX - 1) == rel;
    NoParentComponent(rel);
    Halves(rel);
    if 0x2F in rel { FieldsJoin(up, 0x2F, last, SLASH); } else { FieldsOfOne([], SLASH); }
    FieldsOfOne(last, SLASH);
    assert forall f | f in Fields(up, SLASH) + Fields(last, SLASH) :: f in Fields(rel, SLASH);
    assert forall f | f in Fields(up, SLASH) :: f in Fields(up, SLASH) + Fields(last, SLASH);
    if last != [] { assert last in Fields(last, SLASH) && last in Fields(up, SLASH) + Fields(last, SLASH); }
    NamesKeep(Fields(up, SLASH));
  }

  lemma {:induction false} ParentsKept(fs: Fs, dest: Path, dirs: Path, rule: Rule)
    requires Plain(dirs) && Guarded(fs, dest, rule) && MayEnter(rule, dirs)
    ensures Kept(dest, rule, fs, MakeParents(fs, dest, dirs))
  {
    hide MkDir, Unlink, SymLink, WriteFile;
    if dirs != [] {
      var up := Above(dirs);
      assert forall c | c in up :: c in dirs;
      assert forall k | 0 < k <= |up| :: up[..k] == dirs[..k];
      ParentsKept(fs, dest, up, rule);
      var made := MakeParents(fs, dest, up);
      CallsKept(made, dest, dirs, 0x1ED, [], [], rule);
      KeptTrans(dest, rule, fs, made, MakeParents(fs, dest, dirs));
    }
  }

  // The parents made and the old object gone.
  lemma ClearedKept(fs: Fs, dest: Path, rel: bytes, rule: Rule)
    requires SafeRelpath(rel) && Guarded(fs, dest, rule) && MayEnter(rule, Directory(rel))
    ensures var made := MakeParents(fs, dest, Directory(rel));
      Kept(dest, rule, fs, made) && (Target(rel).Some? ==>
        Plain(Target(rel).value) && MayEnter(rule, Above(Target(rel).value)) &&
        Kept(dest, rule, fs, Unlink(made, dest, Target(rel).value)))
  {
    hide MkDir, Unlink, SymLink, WriteFile, MakeParents, SafeRelpath, Directory, Base, MayEnter;
    var made := MakeParents(fs, dest, Directory(rel));
    SafeIsPlain(rel);
    ParentsKept(fs, dest, Directory(rel), rule);
    match Target(rel)
    case None =>
    case Some(p) =>
      assert Above(p) == Directory(rel);
      CallsKept(made, dest, p, 0, [], [], rule);
      KeptTrans(dest, rule, fs, made, Unlink(made, dest, p));
  }

  lemma StepKept(hdr: bytes, rest: bytes, fs: Fs, dest: Path, rule: Rule)
    requires |hdr| == BLOCK && Guarded(fs, dest, rule) && Clear(hdr, rule)
    ensures Kept(dest, rule, fs, Step(hdr, rest, fs, dest).fs)
  {
    hide MkDir, Unlink, SymLink, HardLink, WriteFile, MakeParents, SafeRelpath, SafeTarget, Directory, Base, MayEnter,
      LinkOk, Octal, ChecksumOk, EntryName, LinkName, Mode, Size, Clean, Guarded;
    var rel, link, flag := EntryName(hdr), LinkName(hdr), hdr[156];
    assert Kept(dest, rule, fs, fs);
    if Accepted(hdr) && rel != [] {
      var made := MakeParents(fs, dest, Directory(rel));
      ClearedKept(fs, dest, rel, rule);
      match Target(rel)
      case None =>
      case Some(p) =>
        var gone := Unlink(made, dest, p);
        var after := Step(hdr, rest, fs, dest).fs;
        if flag == 0x35 {
          CallsKept(made, dest, p, ModeOr(Mode(hdr), 0x1ED), [], [], rule);
          KeptTrans(dest, rule, fs, made, after);
        } else if flag == 0x32 {
          CallsKept(gone, dest, p, 0, [], link, rule);
          KeptTrans(dest, rule, fs, gone, after);
        } else if flag == 0x31 {
          SafeIsPlain(Clean(link));
          if Target(Clean(link)).Some? {
            HardLinkKept(gone, dest, Target(Clean(link)).value, p, rule);
            KeptTrans(dest, rule, fs, gone, after);
          }
        } else {
          FileKept(rest, fs, dest, rel, ModeOr(Mode(hdr), 0x1A4), Size(hdr), rule);
        }
    }
  }

  lemma FileKept(rest: bytes, fs: Fs, dest: Path, rel: bytes, mode: nat, size: nat, rule: Rule)
    requires SafeRelpath(rel) && Guarded(fs, dest, rule) && MayEnter(rule, Directory(rel))
    ensures Kept(dest, rule, fs, Contents(rest, fs, dest, rel, mode, size).fs)
  {
    hide MkDir, Unlink, SymLink, WriteFile, MakeParents, SafeRelpath, Directory, Base, MayEnter, Guarded;
    ClearedKept(fs, dest, rel, rule);
    match Target(rel)
    case None =>
    case Some(p) =>
      var gone := Unlink(MakeParents(fs, dest, Directory(rel)), dest, p);
      var data := if |rest| < Rounded(size) then rest[..|rest| / BLOCK * BLOCK] else rest[..size];
      CallsKept(gone, dest, p, mode, data, [], rule);
      var w := WriteFile(gone, dest, p, mode, data);
      if w.Some? { KeptTrans(dest, rule, fs, gone, w.value); }
  }

  /* ---- Any archive ---- */

  lemma StepUses(hdr: bytes, rest: bytes, fs: Fs, dest: Path)
    requires |hdr| == BLOCK
    ensures var o := Step(hdr, rest, fs, dest); o.Go? ==> Accepted(hdr) && o.used == Skip(hdr)
  {
    hide MakeDir, MakeSymLink, MakeHardLink, MakeFile, SafeRelpath, SafeTarget, Octal, ChecksumOk, EntryName, LinkName,
      Mode, Size, Clean;
  }

  // Unpacking an archive all of whose entries keep the rule, where the links already there do.
  lemma {:induction false} ExtractKept(s: bytes, fs: Fs, dest: Path, zeros: nat, rule: Rule)
    requires Guarded(fs, dest, rule) && forall hdr | hdr in Headers(s, zeros) :: Clear(hdr, rule)
    ensures Kept(dest, rule, fs, Extract(s, fs, dest, zeros).0)
    decreases |s|
  {
    hide Step, IsZero, Clear, Guarded, Skip, Accepted;
    if |s| >= BLOCK {
      var hdr, rest := s[..BLOCK], s[BLOCK..];
      if IsZero(hdr) {
        if zeros + 1 < 2 { ExtractKept(rest, fs, dest, zeros + 1, rule); }
      } else {
        assert hdr in Headers(s, zeros);
        StepKept(hdr, rest, fs, dest, rule);
        StepUses(hdr, rest, fs, dest);
        match Step(hdr, rest, fs, dest)
        case Stop(_, _) =>
        case Go(next, used) =>
          var more := s[BLOCK + used..];
          assert forall h | h in Headers(more, 0) :: h in Headers(s, zeros);
          ExtractKept(more, next, dest, 0, rule);
          KeptTrans(dest, rule, fs, next, Extract(more, next, dest, 0).0);
      }
    }
  }

  // The symbolic link an entry makes, and the source its hard link is made from.
  function LinkMadeBy(hdr: bytes): Option<Path>
    requires |hdr| == BLOCK
  {
    if Accepted(hdr) && EntryName(hdr) != [] && hdr[156] == 0x32 then Target(EntryName(hdr)) else None
  }

  function SourceOf(hdr: bytes): Option<Path>
    requires |hdr| == BLOCK
  {
    if Accepted(hdr) && EntryName(hdr) != [] && hdr[156] == 0x31 then Target(Clean(LinkName(hdr))) else None
  }

  function LinksIn(s: bytes): set<Path>
  {
    set hdr | hdr in Headers(s, 0) && LinkMadeBy(hdr).Some? :: LinkMadeBy(hdr).value
  }

  function LinksBelow(fs: Fs, dest: Path): set<Path>
  {
    set q | q in fs && dest < q && fs[q].OLink? :: q[|dest|..]
  }

  // Neither the directories above an entry nor the source of a hard link run through a link of
  // the archive or of the target directory, and the source is none itself.
  predicate RunsThroughNone(s: bytes, links: set<Path>)
  {
    forall hdr | hdr in Headers(s, 0) && Accepted(hdr) && EntryName(hdr) != [] ::
      Avoids(Directory(EntryName(hdr)), links) && (SourceOf(hdr).Some? ==> Avoids(SourceOf(hdr).value, links))
  }

  // An archive whose names run through no symbolic link changes nothing outside its directory.
  lemma ContainedAvoiding(s: bytes, fs: Fs, dest: Path)
    requires RunsThroughNone(s, LinksIn(s) + LinksBelow(fs, dest))
    ensures Contained(dest, fs, Extract(s, fs, dest, 0).0)
  {
    hide Headers, Accepted, Avoids, Directory, Target, EntryName, LinkName, Extract, Clean;
    var rule := Avoid(LinksIn(s) + LinksBelow(fs, dest));
    forall q | dest < q && q in fs && fs[q].OLink? ensures q[|dest|..] in rule.links {
      assert q[|dest|..] in LinksBelow(fs, dest);
    }
    forall hdr | hdr in Headers(s, 0) ensures Clear(hdr, rule) {
      if LinkMadeBy(hdr).Some? { assert LinkMadeBy(hdr).value in LinksIn(s); }
    }
    ExtractKept(s, fs, dest, 0, rule);
  }

  // Nor does one without a symbolic link that climbs, where none does yet: its names may then run
  // through any link.
  lemma ContainedDescending(s: bytes, fs: Fs, dest: Path)
    requires forall q | dest < q && q in fs && fs[q].OLink? :: Descends(fs[q].target)
    requires forall hdr | hdr in Headers(s, 0) && LinkMadeBy(hdr).Some? :: DOTDOT !in Fields(LinkName(hdr), SLASH)
    ensures Contained(dest, fs, Extract(s, fs, dest, 0).0)
  {
    hide Headers, Directory, Target, EntryName, LinkName, Extract, Clean, Fields, SafeRelpath, ChecksumOk, Octal;
    forall hdr | hdr in Headers(s, 0) ensures Clear(hdr, Descend) {}
    ExtractKept(s, fs, dest, 0, Descend);
  }

  /* ---- Archives that leave ---- */

  const D: bytes := [0x64]
  const E: bytes := [0x65]
  const X: bytes := [0x78]
  const Y: bytes := [0x79]
  const ANY := Meta(0x1FF, 0, 0, 0)

  lemma NoDotIsSafe(p: bytes)
    requires p != [] && p[0] !in SLASHES && |p| < PATH_MAX - 32 && forall c | c in p :: c >= 32 && c != 0x2E
    ensures SafeRelpath(p)
  {
    hide Find;
    NoDotPattern(p, SLASH + DOTDOT);
    NoDotPattern(p, [0x5C] + DOTDOT);
  }

  lemma NoDotPattern(p: bytes, pattern: bytes)
    requires 0x2E !in p && |pattern| == 3 && pattern[1] == 0x2E
    ensures !Contains(p, pattern)
  {
    hide Find;
    forall i: nat | i <= |p| ensures !At(p, |p|, i, pattern) {
      if i + 3 <= |p| { assert p[i..i + 3][1] == p[i + 1]; }
    }
  }

  // "x" is ".", so that "x/y" is "y", which is "..", and "y/e" is a file beside the directory.
  function Climber(): bytes
  {
    Record(Join([X]), Link(ANY, DOT)) + (Record(Join([X, Y]), Link(ANY, DOTDOT)) +
      (Record(Join([Y, E]), File(ANY, [])) + Repeat(0, 2 * BLOCK)))
  }

  lemma TwoNames(a: bytes, b: bytes)
    requires GoodName(a) && GoodName(b)
    ensures Join([a]) == a && Join([a, b]) == a + SLASH + b && GoodPath([a]) && GoodPath([a, b])
    ensures Above([a]) == [] && Above([a, b]) == [a]
  {
    assert [a, b][..1] == [a] && [a][..0] == [];
  }

  lemma OneStep(place: Path, name: bytes)
    requires name == DOTDOT ==> place != []
    ensures Resolve(place, [name]).Some?
  {
    assert [name][..0] == [];
    assert Resolve(place, []) == Some(place);
  }

  // A target of one name.
  lemma OneNameTarget(rel: bytes, place: Path, name: bytes)
    requires Directory(rel) == place && (name == DOT || (name == DOTDOT && place != []))
    ensures SafeTarget(rel, name)
  {
    hide Fields, Directory, Resolve;
    FieldsOfOne(name, SLASHES);
    OneStep(place, name);
    assert name[0] == 0x2E;
  }

  lemma LinkStored(here: Path, target: bytes)
    requires GoodPath(here) && here != [] && |Join(here)| <= 99 && SafeRelpath(Join(here))
    requires target == DOT || (target == DOTDOT && Above(here) != [])
    ensures Storable(here, Link(ANY, target))
  {
    hide Fields, Directory, SafeRelpath, SafeTarget, Join, GoodPath;
    Located(here);
    OneNameTarget(Join(here), Above(here), target);
  }

  lemma FirstStored()
    ensures Storable([X], Link(ANY, DOT))
  {
    hide SafeRelpath, Join, GoodPath, Storable;
    TwoNames(X, Y);
    NoDotIsSafe(X);
    LinkStored([X], DOT);
  }

  lemma SecondStored()
    ensures Storable([X, Y], Link(ANY, DOTDOT))
  {
    hide SafeRelpath, Join, GoodPath, Storable;
    TwoNames(X, Y);
    NoDotIsSafe(X + SLASH + Y);
    LinkStored([X, Y], DOTDOT);
  }

  lemma ThirdStored()
    ensures Storable([Y, E], File(ANY, []))
  {
    hide SafeRelpath, Join;
    TwoNames(Y, E);
    NoDotIsSafe(Y + SLASH + E);
  }

  lemma LinkRecord(fs: Fs, dest: Path, here: Path, target: bytes, more: bytes)
    requires GoodPath(here) && here != [] && Storable(here, Link(ANY, target))
    ensures Extract(Record(Join(here), Link(ANY, target)) + more, fs, dest, 0) ==
      Extract(more, MakeSymLink(fs, dest, Join(here), target), dest, 0)
  {
    hide Step, Join, HeaderBytes, HeaderFor, Fitting, Refusal, IsZero, MakeSymLink;
    var node := Link(ANY, target);
    var hdr := HeaderBytes(HeaderFor(Join(here), node));
    var s := Record(Join(here), node) + more;
    assert s[..BLOCK] == hdr && s[BLOCK..] == more;
    HeaderReads(here, node);
    StepReads(fs, dest, here, node, more);
    assert s[BLOCK + 0..] == more;
  }

  // Where a link stands: its parents are there and nothing is in its place.
  lemma LinkAt(fs: Fs, dest: Path, here: Path, target: bytes, p: Path)
    requires GoodPath(here) && here != [] && |Join(here)| < PATH_MAX - 1
    requires MakeParents(fs, dest, Above(here)) == fs && Where(fs, dest, here) == Some(p) && p !in fs
    ensures MakeSymLink(fs, dest, Join(here), target) == fs[p := OLink(target)]
  {
    hide Join, Where, MakeParents, Target, Directory;
    Located(here);
  }

  lemma EmptyFileRecord(fs: Fs, dest: Path, here: Path, more: bytes, p: Path)
    requires GoodPath(here) && here != [] && Storable(here, File(ANY, []))
    requires MakeParents(fs, dest, Above(here)) == fs && Where(fs, dest, here) == Some(p) && p !in fs
    ensures Extract(Record(Join(here), File(ANY, [])) + more, fs, dest, 0) ==
      Extract(more, fs[p := OFile(0x1FF, [])], dest, 0)
  {
    hide Step, Join, HeaderBytes, HeaderFor, IsZero, Where, MakeParents, Target, Directory;
    var node := File(ANY, []);
    var hdr := HeaderBytes(HeaderFor(Join(here), node));
    var s := Record(Join(here), node) + more;
    PaddedEmpty();
    assert s == hdr + more;
    assert s[..BLOCK] == hdr && s[BLOCK..] == more;
    HeaderReads(here, node);
    StepReads(fs, dest, here, node, more);
    Located(here);
    assert more[..0] == [];
    assert s[BLOCK + 0..] == more;
  }

  // A lookup through one link in dest.
  lemma ThroughLink(fs: Fs, name: bytes, target: bytes)
    requires name != DOT && name != DOTDOT && [D, name] in fs && fs[[D, name]] == OLink(target)
    requires target in [DOT, DOTDOT]
    ensures Follow(fs, [D], [name], MAX_LINKS) == Some(if target == DOT then [D] else [])
    ensures MakeParents(fs, [D], [name]) == fs
  {
    assert [D] + [name] == [D, name];
    FieldsOfOne(target, SLASH);
    var names := Fields(target, SLASH) + [name][1..];
    assert names == [target] && names[1..] == [];
    assert Follow(fs, [D], names, MAX_LINKS - 1) == Some(if target == DOT then [D] else []);
  }

  // The directory "d", and what the first n records put there.
  function Climbed(n: nat): Fs
  {
    if n == 0 then map[[D] := ODir(0x1ED)]
    else if n == 1 then Climbed(0)[[D, X] := OLink(DOT)]
    else if n == 2 then Climbed(1)[[D, Y] := OLink(DOTDOT)]
    else Climbed(2)[[E] := OFile(0x1FF, [])]
  }

  lemma FirstRecord(more: bytes)
    ensures Extract(Record(Join([X]), Link(ANY, DOT)) + more, Climbed(0), [D], 0) == Extract(more, Climbed(1), [D], 0)
  {
    hide Extract, Join, Record, Storable, GoodName;
    var fs := Climbed(0);
    TwoNames(X, Y);
    FirstStored();
    assert [D] + [X] == [D, X];
    LinkRecord(fs, [D], [X], DOT, more);
    LinkAt(fs, [D], [X], DOT, [D, X]);
  }

  lemma SecondRecord(more: bytes)
    ensures Extract(Record(Join([X, Y]), Link(ANY, DOTDOT)) + more, Climbed(1), [D], 0) ==
      Extract(more, Climbed(2), [D], 0)
  {
    hide Extract, Follow, Join, Record, Storable, GoodName;
    var fs := Climbed(1);
    TwoNames(X, Y);
    SecondStored();
    assert [D] + [Y] == [D, Y];
    ThroughLink(fs, X, DOT);
    LinkRecord(fs, [D], [X, Y], DOTDOT, more);
    LinkAt(fs, [D], [X, Y], DOTDOT, [D, Y]);
  }

  lemma ThirdRecord(more: bytes)
    ensures Extract(Record(Join([Y, E]), File(ANY, [])) + more, Climbed(2), [D], 0) == Extract(more, Climbed(3), [D], 0)
  {
    hide Extract, Follow, Join, Record, Storable, GoodName;
    var fs := Climbed(2);
    TwoNames(Y, E);
    ThirdStored();
    assert [] + [E] == [E];
    ThroughLink(fs, Y, DOTDOT);
    EmptyFileRecord(fs, [D], [Y, E], more, [E]);
  }

  // Unpacked into "d", where there is nothing, that archive makes a file outside "d".
  lemma EscapeWitness()
    ensures var (after, code) := Extract(Climber(), Climbed(0), [D], 0);
      code == OK && [E] in after && [E] !in Climbed(0) && !Contained([D], Climbed(0), after)
  {
    hide Extract, Join, Record, Repeat;
    var tail := Repeat(0, 2 * BLOCK);
    var inner := Record(Join([Y, E]), File(ANY, [])) + tail;
    FirstRecord(Record(Join([X, Y]), Link(ANY, DOTDOT)) + inner);
    SecondRecord(inner);
    ThirdRecord(tail);
    TwoZeroBlocks(Climbed(3), [D]);
    assert !([D] < [E]) && !Same(Climbed(3), Climbed(0), [E]);
  }

  const UPUP: bytes := DOTDOT + SLASH + DOTDOT

  lemma UpUp()
    ensures Fields(UPUP, SLASHES) == Fields(UPUP, SLASH) == [DOTDOT, DOTDOT]
    ensures Resolve([X, Y], [DOTDOT, DOTDOT]).Some? && Resolve([], [DOTDOT, DOTDOT]).None?
  {
    hide Fields;
    FieldsOfOne(DOTDOT, SLASHES);
    FieldsOfOne(DOTDOT, SLASH);
    FieldsJoin(DOTDOT, 0x2F, DOTDOT, SLASHES);
    FieldsJoin(DOTDOT, 0x2F, DOTDOT, SLASH);
    TwoUp([X, Y]);
    TwoUp([]);
  }

  lemma Further(place: Path, fields: seq<bytes>, f: bytes)
    ensures Resolve(place, []) == Some(place)
    ensures Resolve(place, fields + [f]) ==
      match Resolve(place, fields)
      case None => None
      case Some(at) =>
        if f == DOTDOT then if at == [] then None else Some(at[..|at| - 1])
        else if f == DOT then Some(at)
        else Some(at + [f])
  {
    assert (fields + [f])[..|fields|] == fields;
  }

  lemma TwoUp(place: Path)
    ensures Resolve(place, [DOTDOT, DOTDOT]).Some? <==> |place| >= 2
  {
    hide Resolve;
    Further(place, [], DOTDOT);
    Further(place, [DOTDOT], DOTDOT);
    assert [] + [DOTDOT] == [DOTDOT] && [DOTDOT] + [DOTDOT] == [DOTDOT, DOTDOT];
  }

  // "d" with "x/y/e", which is "../..".
  function Deep(): Fs
  {
    map[[D] := ODir(0x1ED), [D, X] := ODir(0x1ED), [D, X, Y] := ODir(0x1ED), [D, X, Y, E] := OLink(UPUP)]
  }

  // A hard link to an accepted symbolic link stands where the same target is not accepted, and a
  // name below it is outside.
  lemma CopiedLinkWitness()
    ensures var name, after := Join([X, Y, E]), MakeHardLink(Deep(), [D], Join([X, Y, E]), E);
      SafeTarget(name, UPUP) && SafeRelpath(name) && SafeRelpath(E) && !SafeTarget(E, UPUP) &&
      after == Deep()[[D, E] := OLink(UPUP)] && Where(after, [D], [E, X]) == Some([X])
  {
    hide Fields, Follow, Where, SafeRelpath, Join, Directory, Target, MakeParents, Deep, Resolve;
    DeepNames();
    UpUp();
    Copied();
    ParentsStand(Deep(), [D], []);
    assert UPUP[0] == 0x2E;
  }

  lemma DeepNames()
    ensures var name := Join([X, Y, E]);
      SafeRelpath(name) && Directory(name) == [X, Y] && Target(name) == Some([X, Y, E])
    ensures SafeRelpath(E) && Directory(E) == [] && Target(E) == Some([E])
  {
    hide SafeRelpath, Join, Directory, Target;
    var here: Path := [X, Y, E];
    assert Above(here) == [X, Y];
    TwoNames(X, Y);
    TwoNames(E, X);
    NextJoin([X, Y], E);
    assert [X, Y] + [E] == here;
    NoDotIsSafe(X + SLASH + Y + SLASH + E);
    NoDotIsSafe(E);
    Located(here);
    Located([E]);
  }

  lemma Copied()
    ensures Where(Deep(), [D], [X, Y, E]) == Some([D, X, Y, E]) && Where(Deep(), [D], [E]) == Some([D, E])
    ensures Where(Deep()[[D, E] := OLink(UPUP)], [D], [E, X]) == Some([X])
    ensures [D, X, Y, E] in Deep() && Deep()[[D, X, Y, E]] == OLink(UPUP) && [D, E] !in Deep()
  {
    hide Fields, Follow;
    var dest, up, after := [D], [X, Y], Deep()[[D, E] := OLink(UPUP)];
    assert Above([X, Y, E]) == up && Above([E, X]) == [E] && Above([E]) == [];
    forall k | 0 < k <= |up| ensures IsDir(Deep(), dest + up[..k]) {
      assert dest + up[..1] == [D, X] && dest + up[..2] == [D, X, Y];
    }
    WhereStanding(Deep(), dest, [X, Y, E]);
    assert dest + [X, Y, E] == [D, X, Y, E];
    assert Standing(Deep(), dest, []);
    WhereStanding(Deep(), dest, [E]);
    assert dest + [E] == [D, E];
    assert UPUP[0] == 0x2E;
    FollowLink(after, dest, E, MAX_LINKS);
    UpUp();
    var ups := [DOTDOT, DOTDOT];
    ClimbTwo(after);
    assert [] + [X] == [X];
  }

  lemma FollowLink(fs: Fs, at: Path, name: bytes, n: nat)
    requires name != DOT && name != DOTDOT && at + [name] in fs && fs[at + [name]].OLink? && n > 0
    requires !(SLASH <= fs[at + [name]].target)
    ensures Follow(fs, at, [name], n) == Follow(fs, at, Fields(fs[at + [name]].target, SLASH), n - 1)
  {
    hide Fields;
    var f := Fields(fs[at + [name]].target, SLASH);
    assert f + [name][1..] == f;
  }

  lemma ClimbTwo(fs: Fs)
    ensures Follow(fs, [D], [DOTDOT, DOTDOT], MAX_LINKS - 1) == Some([])
  {
    var ups := [DOTDOT, DOTDOT];
    assert ups[1..] == [DOTDOT] && [DOTDOT][1..] == [] && Above([D]) == [];
    assert Follow(fs, [], [DOTDOT], MAX_LINKS - 1) == Follow(fs, [], [], MAX_LINKS - 1);
  }

  // A backslash splits a target for the check but not for the kernel: "x\\y/../.." is accepted at
  // the top although its components lead above it.
  lemma BackslashWitness()
    ensures var target := X + [0x5C] + (Y + SLASH + UPUP);
      SafeTarget(E, target) && Resolve([], Fields(target, SLASH)).None?
  {
    hide Fields, Resolve, Directory;
    var back, target := X + [0x5C] + Y, X + [0x5C] + (Y + SLASH + UPUP);
    BackslashFields();
    assert Directory(E) == [] by { TwoNames(E, X); Located([E]); }
    assert Resolve([], [X, Y] + [DOTDOT, DOTDOT]).Some? by {
      Further([], [], X);
      Further([], [X], Y);
      assert [] + [X] == [X] && [X] + [Y] == [X, Y];
      ThenTwoUp([X, Y]);
    }
    assert Resolve([], [back] + [DOTDOT, DOTDOT]).None? by {
      Further([], [], back);
      assert [] + [back] == [back];
      ThenTwoUp([back]);
    }
    assert target[0] == 0x78;
  }

  lemma BackslashFields()
    ensures var target := X + [0x5C] + (Y + SLASH + UPUP);
      Fields(target, SLASHES) == [X, Y] + [DOTDOT, DOTDOT] &&
      Fields(target, SLASH) == [X + [0x5C] + Y] + [DOTDOT, DOTDOT]
  {
    hide Fields;
    var back, last := X + [0x5C] + Y, Y + SLASH + UPUP;
    var target := X + [0x5C] + last;
    assert target == back + SLASH + UPUP;
    UpUp();
    FieldsOfOne(X, SLASHES);
    FieldsOfOne(Y, SLASHES);
    FieldsOfOne(back, SLASH);
    FieldsJoin(Y, 0x2F, UPUP, SLASHES);
    FieldsJoin(X, 0x5C, last, SLASHES);
    FieldsJoin(back, 0x2F, UPUP, SLASH);
    assert [X] + ([Y] + [DOTDOT, DOTDOT]) == [X, Y] + [DOTDOT, DOTDOT];
  }

  lemma ThenTwoUp(down: Path)
    requires Resolve([], down) == Some(down)
    ensures Resolve([], down + [DOTDOT, DOTDOT]).Some? <==> |down| >= 2
  {
    hide Resolve;
    Further([], down, DOTDOT);
    Further([], down + [DOTDOT], DOTDOT);
    assert down + [DOTDOT] + [DOTDOT] == down + [DOTDOT, DOTDOT];
  }
}
