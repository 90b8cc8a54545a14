/** Unpacking what the archive walk wrote rebuilds the tree (pkg/kratos-tar.c). */
module TarRoundTrip {
  import opened Bytes
  import opened CStrings
  import opened TarPath
  import opened TarHeader
  import opened FileSystem
  import opened TarTree
  import opened TarExtract

  /* ---- Paths and their text ---- */

  predicate GoodName(name: bytes)
  {
    name != [] && 0x2F !in name && 0 !in name && name != DOT
  }

  predicate GoodPath(path: Path) { forall c | c in path :: GoodName(c) }

  lemma {:induction false} SplitLast(a: bytes, b: bytes)
    requires 0x2F !in b
    ensures Parent(a + SLASH + b) == a && Base(a + SLASH + b) == b
    ensures Parent(b) == [] && Base(b) == b
    decreases |b|
  {
    var all := a + SLASH + b;
    if b == [] {
      assert all[..|all| - 1] == a && all[|all| - 1] == 0x2F;
    } else {
      var n := |b| - 1;
      assert b[n] in b;
      assert forall c | c in b[..n] :: c in b;
      SplitLast(a, b[..n]);
      assert all[..|all| - 1] == a + SLASH + b[..n] && all[|all| - 1] == b[n];
      assert b[..n] + [b[n]] == b;
    }
  }

  lemma {:induction false} JoinFields(path: Path)
    requires GoodPath(path)
    ensures Fields(Join(path), SLASH) == path && (path != [] ==> Join(path) != [])
  {
    if path != [] {
      var n := |path| - 1;
      assert path[n] in path && forall c | c in path[..n] :: c in path;
      JoinFields(path[..n]);
      FieldsOfOne(path[n], SLASH);
      if n > 0 { FieldsJoin(Join(path[..n]), 0x2F, path[n], SLASH); }
      assert path[..n] + [path[n]] == path;
    } else {
      FieldsOfOne([], SLASH);
    }
  }

  lemma {:induction false} NamesOfGood(path: Path)
    requires GoodPath(path)
    ensures Names(path) == path
  {
    if path != [] {
      var n := |path| - 1;
      assert path[n] in path && forall c | c in path[..n] :: c in path;
      NamesOfGood(path[..n]);
    }
  }

  // Where the reader puts an entry named by a path, with and without a final slash.
  lemma Located(path: Path)
    requires GoodPath(path) && path != [] && |Join(path)| < PATH_MAX - 1
    ensures Directory(Join(path)) == Above(path) && Target(Join(path)) == Some(path)
    ensures Directory(Join(path) + SLASH) == path && Target(Join(path) + SLASH) == None
  {
    hide Fields, Names, Parent, Base, Join;
    var up, last := Above(path), path[|path| - 1];
    Halved(path);
    SplitLast(Join(path), []);
    assert Join(path) + SLASH + [] == Join(path) + SLASH;
    JoinFields(up);
    JoinFields(path);
    NamesOfGood(up);
    NamesOfGood(path);
    assert up + [last] == path;
  }

  lemma Halved(path: Path)
    requires GoodPath(path) && path != []
    ensures Parent(Join(path)) == Join(Above(path)) && Base(Join(path)) == path[|path| - 1]
    ensures GoodName(path[|path| - 1]) && GoodPath(Above(path))
  {
    hide Parent, Base;
    var up, last := Above(path), path[|path| - 1];
    assert last in path && forall c | c in up :: c in path;
    SplitLast(Join(up), last);
    JoinFields(up);
    if up == [] { assert Join(up) == []; }
  }

  // Nothing is stripped from the front of a good path's text.
  lemma {:induction false} CleanJoin(path: Path)
    requires GoodPath(path) && path != []
    ensures Clean(Join(path)) == Join(path) && Clean(Join(path) + SLASH) == Join(path) + SLASH
  {
    Start(path);
  }

  lemma {:induction false} Start(path: Path)
    requires GoodPath(path) && path != []
    ensures var s := Join(path) + SLASH; |s| >= 2 && s[0] != 0x2F && !(s[0] == 0x2E && s[1] == 0x2F)
  {
    var n := |path| - 1;
    var last := path[n];
    assert last in path && forall c | c in path[..n] :: c in path;
    if n == 0 {
      assert Join(path) == last;
      assert last[0] in last;
      if |last| == 1 { assert last == [last[0]]; } else { assert last[1] in last; }
    } else {
      Start(path[..n]);
      var up := Join(path[..n]);
      JoinFields(path[..n]);
      assert Join(path) + SLASH == (up + SLASH) + last + SLASH;
    }
  }

  /* ---- Trees that can be stored ---- */

  // What a header holds uncut.
  predicate Fitting(here: Path, node: Node)
  {
    |Join(here)| <= 99 &&
    match node
    case File(_, data) => |data| < Pow8(11)
    case Link(_, target) => |target| <= 99 && 0 !in target
    case _ => true
  }

  // The code with which the reader refuses what the header asks for.
  function Refusal(here: Path, node: Node): Code
  {
    if !SafeRelpath(Join(here)) then PATH_TRAVERSAL
    else
      match node
      case File(_, data) => if |data| > MAX_FILE then SIZE_LIMIT else OK
      case Link(_, target) => if SafeTarget(Join(here), target) then OK else SYMLINK_ESCAPE
      case _ => OK
  }

  // A record the reader takes as it was meant; special files have none.
  predicate Taken(here: Path, node: Node)
  {
    !node.Special? ==> Fitting(here, node) && Refusal(here, node) == OK
  }

  predicate Storable(here: Path, node: Node)
    decreases node
  {
    Taken(here, node) && (node.Dir? ==> StorableAll(here, node.entries))
  }

  predicate StorableAll(path: Path, entries: seq<Entry>)
    decreases entries
  {
    Distinct(entries) && forall e | e in entries :: GoodName(e.name) && Storable(path + [e.name], e.node)
  }

  // The two halves of this: what the writer needs, and what only the reader asks for.
  predicate Packable(here: Path, node: Node)
    decreases node
  {
    (!node.Special? ==> Fitting(here, node)) && (node.Dir? ==> PackableAll(here, node.entries))
  }

  predicate PackableAll(path: Path, entries: seq<Entry>)
    decreases entries
  {
    Distinct(entries) && forall e | e in entries :: GoodName(e.name) && Packable(path + [e.name], e.node)
  }

  predicate Unrefused(here: Path, node: Node)
    decreases node
  {
    (!node.Special? ==> Refusal(here, node) == OK) && (node.Dir? ==> UnrefusedAll(here, node.entries))
  }

  predicate UnrefusedAll(path: Path, entries: seq<Entry>)
    decreases entries
  {
    forall e | e in entries :: Unrefused(path + [e.name], e.node)
  }

  lemma {:induction false} StorableHalves(path: Path, entries: seq<Entry>)
    ensures StorableAll(path, entries) <==> PackableAll(path, entries) && UnrefusedAll(path, entries)
    decreases entries
  {
    hide Fitting, Refusal, Distinct;
    forall e | e in entries
      ensures Storable(path + [e.name], e.node) <==>
        Packable(path + [e.name], e.node) && Unrefused(path + [e.name], e.node)
    {
      if e.node.Dir? { StorableHalves(path + [e.name], e.node.entries); }
    }
  }

  // Nothing in the file system stands in the way: directories meet directories or nothing, files
  // and links meet anything but a directory.
  predicate Fits(fs: Fs, at: Path, node: Node)
    decreases node
  {
    match node
    case Dir(_, entries) => (at in fs ==> fs[at].ODir?) && FitsAll(fs, at, entries)
    case Special(_) => true
    case _ => at in fs ==> !fs[at].ODir?
  }

  predicate FitsAll(fs: Fs, at: Path, entries: seq<Entry>)
    decreases entries
  {
    forall e | e in entries :: Fits(fs, at + [e.name], e.node)
  }

  lemma {:induction false} FitsFrame(a: Fs, b: Fs, here: Path, node: Node)
    requires Fits(a, here, node) && forall q | here <= q :: Same(a, b, q)
    ensures Fits(b, here, node)
    decreases node
  {
    assert here <= here && Same(a, b, here);
    if node.Dir? {
      forall e | e in node.entries ensures Fits(b, here + [e.name], e.node) {
        forall q | here + [e.name] <= q ensures Same(a, b, q) { Under(here, e.name, q); }
        FitsFrame(a, b, here + [e.name], e.node);
      }
    }
  }

  lemma StandingFrame(a: Fs, b: Fs, dest: Path, path: Path)
    requires Standing(a, dest, path) && forall q | q <= dest + path :: Same(a, b, q)
    ensures Standing(b, dest, path)
  {
    forall k | 0 < k <= |path| ensures IsDir(b, dest + path[..k]) {
      var q := dest + path[..k];
      assert q == (dest + path)[..|q|];
      assert Same(a, b, q) && IsDir(a, q);
    }
  }

  lemma StandingAbove(fs: Fs, dest: Path, path: Path)
    requires path != []
    ensures Standing(fs, dest, path) <==> IsDir(fs, dest + path) && Standing(fs, dest, Above(path))
  {
    assert path[..|path|] == path;
    assert forall k | 0 < k <= |Above(path)| :: Above(path)[..k] == path[..k];
    if Standing(fs, dest, path) {
      forall k | 0 < k <= |Above(path)| ensures IsDir(fs, dest + Above(path)[..k]) {
        assert IsDir(fs, dest + path[..k]);
      }
    }
    if IsDir(fs, dest + path) && Standing(fs, dest, Above(path)) {
      forall k | 0 < k <= |path| ensures IsDir(fs, dest + path[..k]) {
        if k < |path| { assert IsDir(fs, dest + Above(path)[..k]); }
      }
    }
  }

  lemma {:induction false} ParentsStand(fs: Fs, dest: Path, path: Path)
    requires Plain(path) && Standing(fs, dest, path)
    ensures MakeParents(fs, dest, path) == fs
  {
    hide Where, Standing;
    if path != [] {
      assert forall c | c in Above(path) :: c in path;
      StandingAbove(fs, dest, path);
      ParentsStand(fs, dest, Above(path));
      WhereStanding(fs, dest, path);
    }
  }

  // The path of a record that is taken has no "." or "..".
  lemma TakenIsPlain(here: Path, node: Node)
    requires GoodPath(here) && Taken(here, node) && !node.Special?
    ensures Plain(here)
  {
    hide SafeRelpath;
    JoinFields(here);
    NoParentComponent(Join(here));
  }

  // Placing a node touches no path that is not at or below it.
  lemma {:induction false} PlaceTouches(fs: Fs, at: Path, rel: Path, node: Node, q: Path)
    requires !(at <= q)
    ensures Same(Place(fs, at, rel, node), fs, q)
    decreases node
  {
    if node.Dir? {
      var made := if at in fs then fs else fs[at := ODir(DirMode(rel, node.meta.mode))];
      PlaceAllTouches(made, at, rel, node.entries, q);
    }
  }

  lemma {:induction false} PlaceAllTouches(fs: Fs, at: Path, rel: Path, entries: seq<Entry>, q: Path)
    requires !(at < q)
    ensures Same(PlaceAll(fs, at, rel, entries), fs, q)
    decreases entries
  {
    if entries != [] {
      var e := entries[0];
      Under(at, e.name, q);
      PlaceTouches(fs, at + [e.name], rel + [e.name], e.node, q);
      PlaceAllTouches(Place(fs, at + [e.name], rel + [e.name], e.node), at, rel, entries[1..], q);
    }
  }

  /* ---- One record ---- */

  function StoredName(here: Path, node: Node): bytes
  {
    if node.Dir? && |Join(here)| < 99 then Join(here) + SLASH else Join(here)
  }

  // What the reader makes of a written header.
  lemma HeaderReads(here: Path, node: Node)
    requires GoodPath(here) && here != [] && !node.Special? && Fitting(here, node)
    ensures var hdr := HeaderBytes(HeaderFor(Join(here), node));
      ChecksumOk(hdr) && !IsZero(hdr) && EntryName(hdr) == StoredName(here, node) &&
      (SafeRelpath(EntryName(hdr)) <==> SafeRelpath(Join(here))) &&
      Mode(hdr) == node.meta.mode % 4096 && Size(hdr) == (if node.File? then |node.data| else 0) &&
      hdr[156] == (match node case Dir(_, _) => 0x35 case Link(_, _) => 0x32 case _ => 0x30) &&
      (node.Link? ==> LinkName(hdr) == node.target)
  {
    hide Octal, Layout, Join, Clean, SafeRelpath, SafeTarget, Text, TextField, OctalField, ChecksumOk, HeaderBytes,
      Pow8;
    var rel := Join(here);
    var h := HeaderFor(rel, node);
    var hdr := HeaderBytes(h);
    SealVerifies(h);
    Pieces(h);
    JoinFields(here);
    CleanJoin(here);
    NoNul(here);
    assert Prefix(rel, 99) == rel;
    assert h.name == StoredName(here, node) && Prefix(h.name, 99) == h.name && 0 !in h.name by {
      if node.Dir? { LastNotSlash(here); }
    }
    TextFieldReads(h.name);
    assert FullName(hdr) == h.name;
    SlashIsSafe(rel);
    NotBlank(hdr, h.name);
    Pow8Six();
    OctalRoundTrip(h.mode, 8, []);
    OctalRoundTrip(h.size, 12, []);
    assert OctalField(h.mode, 8) + [] == OctalField(h.mode, 8) && OctalField(h.size, 12) + [] == OctalField(h.size, 12);
    if node.Link? { TextFieldReads(node.target); }
  }

  lemma NotBlank(hdr: bytes, name: bytes)
    requires |hdr| == BLOCK && hdr[..100] == TextField(name) && name != [] && 0 !in name
    ensures !IsZero(hdr)
  {
    assert hdr[0] == hdr[..100][0] == name[0];
    assert name[0] in name && hdr[0] in hdr;
  }

  lemma {:induction false} NoNul(path: Path)
    requires GoodPath(path)
    ensures 0 !in Join(path)
  {
    if path != [] {
      var n := |path| - 1;
      assert path[n] in path && forall c | c in path[..n] :: c in path;
      NoNul(path[..n]);
    }
  }

  lemma LastNotSlash(path: Path)
    requires GoodPath(path) && path != []
    ensures Join(path) != [] && Join(path)[|Join(path)| - 1] != 0x2F
  {
    var last := path[|path| - 1];
    assert last in path && last[|last| - 1] in last;
  }

  lemma {:induction false} PaddedIs(data: bytes, more: bytes)
    ensures |Padded(data)| == Rounded(|data|) && (Padded(data) + more)[..|data|] == data
    decreases |data|
  {
    if |data| >= BLOCK {
      PaddedIs(data[BLOCK..], more);
      assert Padded(data) + more == data[..BLOCK] + (Padded(data[BLOCK..]) + more);
      assert data == data[..BLOCK] + data[BLOCK..];
      assert (data[..BLOCK] + (Padded(data[BLOCK..]) + more))[..|data|] ==
        data[..BLOCK] + (Padded(data[BLOCK..]) + more)[..|data| - BLOCK];
    }
  }

  // What the reader does with a written header.
  lemma StepReads(fs: Fs, dest: Path, here: Path, node: Node, rest: bytes)
    requires GoodPath(here) && here != [] && !node.Special? && Fitting(here, node)
    ensures Step(HeaderBytes(HeaderFor(Join(here), node)), rest, fs, dest) ==
      if Refusal(here, node) != OK then Stop(fs, Refusal(here, node))
      else
        match node
        case Dir(m, _) => Go(MakeDir(fs, dest, StoredName(here, node), ModeOr(m.mode % 4096, 0x1ED)), 0)
        case Link(_, target) => Go(MakeSymLink(fs, dest, Join(here), target), 0)
        case File(m, data) => Contents(rest, fs, dest, Join(here), ModeOr(m.mode % 4096, 0x1A4), |data|)
  {
    hide Octal, Join, Clean, SafeRelpath, SafeTarget, ChecksumOk, HeaderBytes, HeaderFor, EntryName, LinkName, Mode,
      Size, Directory, Target, Contents, MakeDir, MakeSymLink, Pow8;
    HeaderReads(here, node);
    JoinFields(here);
  }

  // What a record on its own does: directories are made, their entries come later.
  function Made(fs: Fs, at: Path, rel: Path, node: Node): Fs
  {
    match node
    case Dir(m, _) => if at in fs then fs else fs[at := ODir(DirMode(rel, m.mode))]
    case _ => Place(fs, at, rel, node)
  }

  lemma StepMakes(fs: Fs, dest: Path, here: Path, node: Node, more: bytes)
    requires GoodPath(here) && here != [] && Taken(here, node) && !node.Special?
    requires Fits(fs, dest + here, node) && Standing(fs, dest, Above(here))
    ensures var rest := if node.File? then Padded(node.data) + more else more;
      Step(HeaderBytes(HeaderFor(Join(here), node)), rest, fs, dest) ==
        Go(Made(fs, dest + here, here, node), if node.File? then |Padded(node.data)| else 0)
  {
    hide Join, HeaderBytes, HeaderFor, Padded, Directory, Target, FitsAll, Refusal, Fitting, Step, Where, Standing;
    StepReads(fs, dest, here, node, if node.File? then Padded(node.data) + more else more);
    TakenIsPlain(here, node);
    FittingIsShort(here, node);
    Located(here);
    assert forall c | c in Above(here) :: c in here;
    ParentsStand(fs, dest, Above(here));
    WhereStanding(fs, dest, here);
    match node
    case Dir(_, _) =>
    case File(m, data) =>
      PaddedIs(data, more);
      FileMade(fs, dest, here, ModeOr(m.mode % 4096, 0x1A4), data);
    case Link(_, target) => LinkMade(fs, dest, here, target);
  }

  lemma FittingIsShort(here: Path, node: Node)
    requires Fitting(here, node)
    ensures |Join(here)| <= 99
  {
  }

  lemma Cleared(fs: Fs, dest: Path, here: Path)
    requires here != [] && Plain(here) && Standing(fs, dest, Above(here))
    requires dest + here in fs ==> !fs[dest + here].ODir?
    ensures Unlink(fs, dest, here) == fs - {dest + here} && Where(fs - {dest + here}, dest, here) == Some(dest + here)
  {
    hide Where;
    WhereStanding(fs, dest, here);
    var after := fs - {dest + here};
    forall q | q <= dest + Above(here) ensures Same(fs, after, q) {}
    StandingFrame(fs, after, dest, Above(here));
    WhereStanding(after, dest, here);
  }

  lemma FileMade(fs: Fs, dest: Path, here: Path, mode: nat, data: bytes)
    requires here != [] && Plain(here) && Standing(fs, dest, Above(here))
    requires dest + here in fs ==> !fs[dest + here].ODir?
    ensures WriteFile(Unlink(fs, dest, here), dest, here, mode, data) == Some(fs[dest + here := OFile(mode, data)])
  {
    hide Where, Unlink;
    Cleared(fs, dest, here);
    assert (fs - {dest + here})[dest + here := OFile(mode, data)] == fs[dest + here := OFile(mode, data)];
  }

  lemma LinkMade(fs: Fs, dest: Path, here: Path, target: bytes)
    requires here != [] && Plain(here) && Standing(fs, dest, Above(here))
    requires dest + here in fs ==> !fs[dest + here].ODir?
    ensures SymLink(Unlink(fs, dest, here), dest, here, target) == fs[dest + here := OLink(target)]
  {
    hide Where, Unlink;
    Cleared(fs, dest, here);
    assert (fs - {dest + here})[dest + here := OLink(target)] == fs[dest + here := OLink(target)];
  }

  // What a record does to the rest of the extraction.
  lemma RecordExtracts(fs: Fs, dest: Path, here: Path, node: Node, more: bytes)
    requires GoodPath(here) && here != [] && Taken(here, node)
    requires Fits(fs, dest + here, node) && Standing(fs, dest, Above(here))
    ensures Extract(Record(Join(here), node) + more, fs, dest, 0) ==
      Extract(more, Made(fs, dest + here, here, node), dest, 0)
  {
    hide Step, Join, HeaderBytes, HeaderFor, Padded, Fitting, Refusal, Fits, IsZero, Standing;
    if node.Special? {
      assert [] + more == more;
    } else {
      var hdr := HeaderBytes(HeaderFor(Join(here), node));
      var rest := if node.File? then Padded(node.data) + more else more;
      var s := Record(Join(here), node) + more;
      assert s == hdr + rest;
      assert s[..BLOCK] == hdr && s[BLOCK..] == rest;
      HeaderReads(here, node);
      StepMakes(fs, dest, here, node, more);
      var used := if node.File? then |Padded(node.data)| else 0;
      assert s[BLOCK + used..] == more;
    }
  }

  lemma RecordRefused(fs: Fs, dest: Path, here: Path, node: Node, more: bytes)
    requires GoodPath(here) && here != [] && !node.Special? && Fitting(here, node) && Refusal(here, node) != OK
    ensures Extract(Record(Join(here), node) + more, fs, dest, 0) == (fs, Refusal(here, node))
  {
    hide Step, Join, HeaderBytes, HeaderFor, Padded, Fitting, Refusal, IsZero;
    var hdr := HeaderBytes(HeaderFor(Join(here), node));
    var rest := if node.File? then Padded(node.data) + more else more;
    var s := Record(Join(here), node) + more;
    assert s == hdr + rest;
    assert s[..BLOCK] == hdr && s[BLOCK..] == rest;
    HeaderReads(here, node);
    StepReads(fs, dest, here, node, rest);
  }

  /* ---- The walk ---- */

  // What unpacking the walk of a tree comes to: records are taken in order, up to the first that
  // is refused.
  function Put(fs: Fs, at: Path, rel: Path, node: Node): (Fs, Code)
    decreases node
  {
    if node.Special? then (fs, OK)
    else if Refusal(rel, node) != OK then (fs, Refusal(rel, node))
    else if node.Dir? then PutAll(Made(fs, at, rel, node), at, rel, node.entries)
    else (Place(fs, at, rel, node), OK)
  }

  function PutAll(fs: Fs, at: Path, rel: Path, entries: seq<Entry>): (Fs, Code)
    decreases entries
  {
    if entries == [] then (fs, OK)
    else
      var name := entries[0].name;
      var (next, code) := Put(fs, at + [name], rel + [name], entries[0].node);
      if code != OK then (next, code) else PutAll(next, at, rel, entries[1..])
  }

  // It goes through exactly when nothing is refused, and then puts the whole tree.
  lemma {:induction false} PutPlaces(fs: Fs, at: Path, rel: Path, node: Node)
    ensures var (after, code) := Put(fs, at, rel, node);
      (code == OK <==> Unrefused(rel, node)) && (code == OK ==> after == Place(fs, at, rel, node))
    decreases node
  {
    hide Refusal;
    if node.Dir? { PutAllPlaces(Made(fs, at, rel, node), at, rel, node.entries); }
  }

  lemma {:induction false} PutAllPlaces(fs: Fs, at: Path, rel: Path, entries: seq<Entry>)
    ensures var (after, code) := PutAll(fs, at, rel, entries);
      (code == OK <==> UnrefusedAll(rel, entries)) && (code == OK ==> after == PlaceAll(fs, at, rel, entries))
    decreases entries
  {
    hide Put, Place, Unrefused;
    if entries != [] {
      var e, rest := entries[0], entries[1..];
      PutPlaces(fs, at + [e.name], rel + [e.name], e.node);
      assert UnrefusedAll(rel, entries) <==> Unrefused(rel + [e.name], e.node) && UnrefusedAll(rel, rest) by {
        assert forall x :: x in entries <==> x == e || x in rest;
      }
      var (next, code) := Put(fs, at + [e.name], rel + [e.name], e.node);
      if code == OK { PutAllPlaces(next, at, rel, rest); }
    }
  }

  // Whether the extraction of more goes on after a result.
  function Then(result: (Fs, Code), more: bytes, dest: Path): (Fs, Code)
  {
    if result.1 == OK then Extract(more, result.0, dest, 0) else result
  }

  lemma {:induction false} WalkExtracts(fs: Fs, dest: Path, path: Path, entries: seq<Entry>, more: bytes)
    requires GoodPath(path) && PackableAll(path, entries)
    requires FitsAll(fs, dest + path, entries) && Standing(fs, dest, path)
    ensures Extract(Walk(Join(path), entries) + more, fs, dest, 0) ==
      Then(PutAll(fs, dest + path, path, entries), more, dest)
    decreases entries
  {
    hide Extract, Join, Record, Packable, Fits, Place, Put, Standing;
    if entries == [] {
      assert [] + more == more;
    } else {
      var e, rest := entries[0], entries[1..];
      var here := path + [e.name];
      assert dest + path + [e.name] == dest + here;
      assert e in entries && Above(here) == path;
      NextJoin(path, e.name);
      EntryExtracts(fs, dest, here, e.node, Walk(Join(path), rest) + more);
      assert Walk(Join(path), entries) + more == WalkEntry(Join(path), e) + (Walk(Join(path), rest) + more);
      assert forall x | x in rest :: x in entries;
      assert PackableAll(path, rest);
      var (next, code) := Put(fs, dest + here, here, e.node);
      if code == OK {
        PutPlaces(fs, dest + here, here, e.node);
        OthersFit(fs, dest, path, entries);
        WalkExtracts(next, dest, path, rest, more);
      }
    }
  }

  lemma NextJoin(path: Path, name: bytes)
    ensures Join(path + [name]) == NextRel(Join(path), name)
  {
    assert (path + [name])[..|path|] == path;
  }

  // Placing the first entry leaves the others and the directory as they were.
  lemma OthersFit(fs: Fs, dest: Path, path: Path, entries: seq<Entry>)
    requires entries != [] && Distinct(entries) && FitsAll(fs, dest + path, entries) && Standing(fs, dest, path)
    ensures var name := entries[0].name;
      var next := Place(fs, dest + path + [name], path + [name], entries[0].node);
      FitsAll(next, dest + path, entries[1..]) && Standing(next, dest, path)
  {
    hide Fits, Place, Standing;
    var e := entries[0];
    var at := dest + path;
    var here := at + [e.name];
    var next := Place(fs, here, path + [e.name], e.node);
    forall x | x in entries[1..] ensures Fits(next, at + [x.name], x.node) {
      var there := at + [x.name];
      forall q | there <= q ensures Same(fs, next, q) {
        Under(at, x.name, q);
        Under(at, e.name, q);
        PlaceTouches(fs, here, path + [e.name], e.node, q);
      }
      FitsFrame(fs, next, there, x.node);
    }
    forall q | q <= at ensures Same(fs, next, q) { PlaceTouches(fs, here, path + [e.name], e.node, q); }
    StandingFrame(fs, next, dest, path);
  }

  lemma {:induction false} EntryExtracts(fs: Fs, dest: Path, here: Path, node: Node, more: bytes)
    requires here != [] && GoodPath(here) && Packable(here, node)
    requires Fits(fs, dest + here, node) && Standing(fs, dest, Above(here))
    ensures var inside := if node.Dir? then Walk(Join(here), node.entries) else [];
      Extract(Record(Join(here), node) + inside + more, fs, dest, 0) ==
        Then(Put(fs, dest + here, here, node), more, dest)
    decreases node
  {
    hide Extract, Join, Record, Walk, PlaceAll, PutAll, Standing, Fitting, Refusal;
    var record := Record(Join(here), node);
    var at := dest + here;
    var inside := if node.Dir? then Walk(Join(here), node.entries) else [];
    assert record + inside + more == record + (inside + more);
    if !node.Special? && Refusal(here, node) != OK {
      RecordRefused(fs, dest, here, node, inside + more);
    } else {
      RecordExtracts(fs, dest, here, node, inside + more);
      if node.Dir? {
        var made := Made(fs, at, here, node);
        forall e | e in node.entries ensures Fits(made, at + [e.name], e.node) {
          FitsFrame(fs, made, at + [e.name], e.node);
        }
        forall q | q <= dest + Above(here) ensures Same(fs, made, q) {}
        StandingFrame(fs, made, dest, Above(here));
        StandingAbove(made, dest, here);
        WalkExtracts(made, dest, here, node.entries, more);
      } else {
        assert inside + more == more;
      }
    }
  }

  // Unpacking an archive where nothing stands in its way puts the archived tree there, up to the
  // first record that is refused.
  lemma ArchiveExtracts(fs: Fs, dest: Path, entries: seq<Entry>)
    requires PackableAll([], entries) && FitsAll(fs, dest, entries)
    ensures Extract(Archive(entries), fs, dest, 0) == PutAll(fs, dest, [], entries)
  {
    hide Extract, PutAll, PackableAll, FitsAll;
    assert dest + [] == dest;
    WalkExtracts(fs, dest, [], entries, Repeat(0, 2 * BLOCK));
    var result := PutAll(fs, dest, [], entries);
    TwoZeroBlocks(result.0, dest);
  }

  // And all of it when there is none.
  lemma RoundTrip(fs: Fs, dest: Path, entries: seq<Entry>)
    requires StorableAll([], entries) && FitsAll(fs, dest, entries)
    ensures Extract(Archive(entries), fs, dest, 0) == (PlaceAll(fs, dest, [], entries), OK)
  {
    hide Extract, PlaceAll, PutAll, StorableAll, PackableAll, UnrefusedAll, FitsAll, Archive;
    StorableHalves([], entries);
    ArchiveExtracts(fs, dest, entries);
    PutAllPlaces(fs, dest, [], entries);
  }

  lemma TwoZeroBlocks(fs: Fs, dest: Path)
    ensures Extract(Repeat(0, 2 * BLOCK), fs, dest, 0) == (fs, OK)
  {
    var s := Repeat(0, 2 * BLOCK);
    assert IsZero(s[..BLOCK]) && IsZero(s[BLOCK..][..BLOCK]);
  }

  lemma {:induction false} EmptyFits(fs: Fs, dest: Path, at: Path, node: Node)
    requires (forall q | q in fs :: !(dest < q)) && dest < at
    ensures Fits(fs, at, node)
    decreases node
  {
    if node.Dir? {
      forall e | e in node.entries ensures Fits(fs, at + [e.name], e.node) {
        EmptyFits(fs, dest, at + [e.name], e.node);
      }
    }
  }

  lemma {:induction false} StorableIsWellNamed(here: Path, node: Node)
    requires Storable(here, node)
    ensures WellNamed(node)
    decreases node
  {
    if node.Dir? {
      forall e | e in node.entries ensures WellNamed(e.node) { StorableIsWellNamed(here + [e.name], e.node); }
    }
  }

  // Unpacked into a directory with nothing in it, an archive succeeds and leaves at every path
  // below it exactly what the tree has there: contents and mode of a file, target of a link, a
  // directory; nothing where the tree has nothing or a special file; and all else as it was.
  lemma Rebuilds(fs: Fs, dest: Path, entries: seq<Entry>, q: Path)
    requires StorableAll([], entries) && forall p | p in fs :: !(dest < p)
    ensures var (after, code) := Extract(Archive(entries), fs, dest, 0);
      code == OK &&
      if !(dest < q) then Same(after, fs, q)
      else
        var rel := q[|dest|..];
        match Lookup(entries, rel)
        case None => q !in after
        case Some(Special(_)) => q !in after
        case Some(File(m, data)) =>
          q in after && after[q] == OFile(if m.mode % 4096 == 0 then 0x1A4 else m.mode % 512, data)
        case Some(Link(_, target)) => q in after && after[q] == OLink(target)
        case Some(Dir(m, _)) =>
          q in after &&
          after[q] == ODir(if |Join(rel)| < 99 || m.mode % 4096 == 0 then 0x1ED else m.mode % 512)
  {
    hide Extract, PlaceAll, Lookup, Storable, WellNamed, Archive;
    forall e | e in entries ensures Fits(fs, dest + [e.name], e.node) && WellNamed(e.node) {
      EmptyFits(fs, dest, dest + [e.name], e.node);
      StorableIsWellNamed([] + [e.name], e.node);
    }
    RoundTrip(fs, dest, entries);
    PlacedAll(fs, dest, [], entries, q);
    if dest < q { assert [] + q[|dest|..] == q[|dest|..]; }
  }
}
