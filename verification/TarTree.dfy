/** Directory trees, the archive walk over them (pkg/kratos-tar.c) and the manifest walk
    that has to list the same files (pkg/kratos-pack.c). */
module TarTree {
  import opened Bytes
  import opened CStrings
  import opened TarPath
  import opened TarHeader
  import opened FileSystem

  datatype Meta = Meta(mode: nat, uid: nat, gid: nat, mtime: nat)

  // What lstat finds. Special stands for devices, sockets and pipes.
  datatype Node =
    | Dir(meta: Meta, entries: seq<Entry>)
    | File(meta: Meta, data: bytes)
    | Link(meta: Meta, target: bytes)
    | Special(meta: Meta)
  datatype Entry = Entry(name: bytes, node: Node)

  // The relative name of an entry of the directory rel.
  function NextRel(rel: bytes, name: bytes): bytes
  {
    if rel == [] then name else rel + SLASH + name
  }

  function Join(path: Path): bytes
  {
    if path == [] then [] else NextRel(Join(path[..|path| - 1]), path[|path| - 1])
  }

  /* ---- Writing ---- */

  // The name of a directory gets a final slash when there is room for it.
  function DirName(name: bytes): bytes
  {
    if name != [] && name[|name| - 1] != 0x2F && |name| < 99 then name + SLASH else name
  }

  function HeaderFor(rel: bytes, node: Node): Header
    requires !node.Special?
  {
    var m := node.meta;
    match node
    case Dir(_, _) => Header(DirName(Prefix(rel, 99)), m.mode % 4096, m.uid, m.gid, 0, m.mtime, 0x35, [])
    case Link(_, target) => Header(Prefix(rel, 99), m.mode % 4096, m.uid, m.gid, 0, m.mtime, 0x32, target)
    case File(_, data) => Header(Prefix(rel, 99), m.mode % 4096, m.uid, m.gid, |data|, m.mtime, 0x30, [])
  }

  // File contents in blocks, the last one filled up with NULs.
  function Padded(data: bytes): bytes
    decreases |data|
  {
    if data == [] then []
    else if |data| < BLOCK then data + Repeat(0, BLOCK - |data|)
    else data[..BLOCK] + Padded(data[BLOCK..])
  }

  // What one entry adds to the archive; special files add nothing.
  function Record(rel: bytes, node: Node): bytes
  {
    if node.Special? then []
    else HeaderBytes(HeaderFor(rel, node)) + if node.File? then Padded(node.data) else []
  }

  function Walk(rel: bytes, entries: seq<Entry>): bytes
    decreases entries
  {
    if entries == [] then [] else WalkEntry(rel, entries[0]) + Walk(rel, entries[1..])
  }

  function WalkEntry(rel: bytes, e: Entry): bytes
    decreases e
  {
    var next := NextRel(rel, e.name);
    Record(next, e.node) + if e.node.Dir? then Walk(next, e.node.entries) else []
  }

  // The whole archive of a directory.
  function Archive(entries: seq<Entry>): bytes
  {
    Walk([], entries) + Repeat(0, 2 * BLOCK)
  }

  class Writer {
    var out: bytes

    constructor ()
      ensures out == []
    {
      out := [];
    }

    // append_file_to_tar
    method AppendFile(rel: bytes, node: Node) returns (status: int)
      modifies this
      ensures out == old(out) + Record(rel, node)
      ensures status == if node.Special? then -1 else 0
    {
      hide HeaderBytes, Padded;
      if node.Special? { return -1; }
      var hdr := WriteHeader(HeaderFor(rel, node));
      out := out + hdr;
      PaddedEmpty();
      if node.File? && |node.data| > 0 { AppendData(node.data); }
      assert hdr + [] == hdr;
      return 0;
    }

    // Its copy loop.
    method AppendData(data: bytes)
      modifies this
      ensures out == old(out) + Padded(data)
    {
      hide Padded, BlockAt;
      var pos: nat := 0;
      ghost var done: bytes := [];
      assert data[0..] == data;
      while pos < |data|
        invariant pos <= |data| && out == old(out) + done && done + Padded(data[pos..]) == Padded(data)
        decreases |data| - pos
      {
        PaddedNext(data, pos);
        var rd := if |data| - pos < BLOCK then |data| - pos else BLOCK;
        var block := data[pos..pos + rd];
        if rd < BLOCK { block := block + Repeat(0, BLOCK - rd); }
        assert block == BlockAt(data, pos) by { BlockIs(data, pos); }
        out := out + block;
        Reassociate(done, block, Padded(data[pos + rd..]));
        done := done + block;
        pos := pos + rd;
      }
      assert data[pos..] == [];
      PaddedEmpty();
    }

    // append_tree_recursive
    method AppendTree(rel: bytes, entries: seq<Entry>)
      modifies this
      ensures out == old(out) + Walk(rel, entries)
      decreases entries
    {
      hide Record, Walk;
      assert entries[0..] == entries;
      for i := 0 to |entries|
        invariant out + Walk(rel, entries[i..]) == old(out) + Walk(rel, entries)
      {
        var e := entries[i];
        var next := NextRel(rel, e.name);
        WalkStep(rel, entries, i);
        ghost var before := out;
        var _ := AppendFile(next, e.node);
        if e.node.Dir? { AppendTree(next, e.node.entries); }
        assert out == before + WalkEntry(rel, e);
        assert out + Walk(rel, entries[i + 1..]) == before + Walk(rel, entries[i..]);
      }
      NoWalk(rel, entries[|entries|..]);
    }

    // kratos_tar_create on a whole directory, from an empty file.
    method Create(entries: seq<Entry>)
      modifies this
      ensures out == Archive(entries)
    {
      hide Walk;
      out := [];
      AppendTree([], entries);
      out := out + Repeat(0, 2 * BLOCK);
    }
  }

  lemma WalkStep(rel: bytes, entries: seq<Entry>, i: nat)
    requires i < |entries|
    ensures Walk(rel, entries[i..]) == WalkEntry(rel, entries[i]) + Walk(rel, entries[i + 1..])
  {
    assert entries[i..][1..] == entries[i + 1..];
  }

  lemma NoWalk(rel: bytes, entries: seq<Entry>)
    requires entries == []
    ensures Walk(rel, entries) == []
  {
  }

  lemma PaddedEmpty()
    ensures Padded([]) == []
  {
  }

  // The block that starts at pos.
  function BlockAt(data: bytes, pos: nat): bytes
    requires pos < |data|
  {
    var n := |data| - pos;
    if n < BLOCK then data[pos..pos + n] + Repeat(0, BLOCK - n) else data[pos..pos + BLOCK]
  }

  lemma BlockIs(data: bytes, pos: nat)
    requires pos < |data|
    ensures var n := |data| - pos;
      BlockAt(data, pos) == if n < BLOCK then data[pos..pos + n] + Repeat(0, BLOCK - n) else data[pos..pos + BLOCK]
  {
  }

  lemma Reassociate(a: bytes, b: bytes, c: bytes)
    ensures a + (b + c) == a + b + c
  {
  }

  lemma PaddedNext(data: bytes, pos: nat)
    requires pos < |data|
    ensures var n := |data| - pos;
      Padded(data[pos..]) == BlockAt(data, pos) + Padded(data[pos + if n < BLOCK then n else BLOCK..])
  {
    if |data| - pos >= BLOCK {
      assert data[pos..][BLOCK..] == data[pos + BLOCK..] && data[pos..][..BLOCK] == data[pos..pos + BLOCK];
    }
  }

  /* ---- Trees as file systems ---- */

  function ModeOr(mode: nat, default: nat): nat
  {
    if mode == 0 then default else mode % 512
  }

  // The mode an archived directory comes back with: the one its parent walk gives it, unless the
  // name had no room for the slash.
  function DirMode(path: Path, mode: nat): nat
  {
    if |Join(path)| < 99 then 0x1ED else ModeOr(mode % 4096, 0x1ED)
  }

  // A node put at the path at, its name in the archive being rel.
  function Place(fs: Fs, at: Path, rel: Path, node: Node): Fs
    decreases node
  {
    match node
    case Dir(m, entries) => PlaceAll(if at in fs then fs else fs[at := ODir(DirMode(rel, m.mode))], at, rel, entries)
    case File(m, data) => fs[at := OFile(ModeOr(m.mode % 4096, 0x1A4), data)]
    case Link(_, target) => fs[at := OLink(target)]
    case Special(_) => fs
  }

  // A directory's entries put, in turn, where they belong.
  function PlaceAll(fs: Fs, at: Path, rel: Path, entries: seq<Entry>): Fs
    decreases entries
  {
    if entries == [] then fs
    else
      var name := entries[0].name;
      PlaceAll(Place(fs, at + [name], rel + [name], entries[0].node), at, rel, entries[1..])
  }

  // The node at a path of the tree.
  function Lookup(entries: seq<Entry>, path: Path): Option<Node>
    decreases path, entries
  {
    if path == [] || entries == [] then None
    else
      var e := entries[0];
      if e.name != path[0] then Lookup(entries[1..], path)
      else if |path| == 1 then Some(e.node)
      else if e.node.Dir? then Lookup(e.node.entries, path[1..])
      else None
  }

  predicate Distinct(entries: seq<Entry>)
  {
    forall i, j | 0 <= i < j < |entries| :: entries[i].name != entries[j].name
  }

  predicate WellNamed(node: Node)
  {
    node.Dir? ==> Distinct(node.entries) && forall e | e in node.entries :: WellNamed(e.node)
  }

  // What a node of the tree leaves at the path q, its name in the archive being rel: of a file's
  // mode the low nine bits, or 0644 where it had none; a directory is new with mode 0755, unless
  // its name fills the header field, and then with its own like a file.
  function Left(fs: Fs, q: Path, rel: Path, node: Node): Obj
    requires !node.Special?
  {
    match node
    case Dir(m, _) =>
      if q in fs then fs[q] else ODir(if |Join(rel)| < 99 || m.mode % 4096 == 0 then 0x1ED else m.mode % 512)
    case File(m, data) => OFile(if m.mode % 4096 == 0 then 0x1A4 else m.mode % 512, data)
    case Link(_, target) => OLink(target)
  }

  // Whether a path holds what a tree put at the path at has there; nothing is expected of paths
  // the tree does not have, and of special files, than that they are as before.
  predicate AsPlaced(before: Fs, after: Fs, q: Path, at: Path, rel: Path, found: Option<Node>)
    requires at <= q
  {
    if found == None || found.value.Special? then Same(after, before, q)
    else q in after && after[q] == Left(before, q, rel + q[|at|..], found.value)
  }

  // Placing a tree makes every path of the tree hold what the tree has there, special files
  // excepted, and changes no other path.
  lemma {:induction false} PlacedAll(fs: Fs, at: Path, rel: Path, entries: seq<Entry>, q: Path)
    requires Distinct(entries) && forall e | e in entries :: WellNamed(e.node)
    ensures var after := PlaceAll(fs, at, rel, entries);
      if at < q then AsPlaced(fs, after, q, at, rel, Lookup(entries, q[|at|..])) else Same(after, fs, q)
    decreases entries
  {
    if entries != [] {
      var e, rest := entries[0], entries[1..];
      var here, name := at + [e.name], rel + [e.name];
      Under(at, e.name, q);
      var next := Place(fs, here, name, e.node);
      Placed(fs, here, name, e.node, q);
      PlacedAll(next, at, rel, rest, q);
      if at < q {
        var r := q[|at|..];
        if r[0] == e.name {
          assert q[..|here|] == here && here <= q;
          NotThere(rest, r);
          assert rel + r == name + q[|here|..];
          if here < q { assert r[1..] == q[|here|..]; }
        }
      }
    }
  }

  lemma {:induction false} Placed(fs: Fs, here: Path, rel: Path, node: Node, q: Path)
    requires WellNamed(node)
    ensures var after := Place(fs, here, rel, node);
      if q == here then AsPlaced(fs, after, q, here, rel, Some(node))
      else if here < q && node.Dir? then AsPlaced(fs, after, q, here, rel, Lookup(node.entries, q[|here|..]))
      else Same(after, fs, q)
    decreases node
  {
    hide ModeOr, DirMode;
    if q == here { assert rel + q[|here|..] == rel; }
    ModeKept(rel, node.meta.mode);
    match node
    case Dir(m, entries) =>
      var made := if here in fs then fs else fs[here := ODir(DirMode(rel, m.mode))];
      PlacedAll(made, here, rel, entries, q);
    case _ =>
  }

  lemma ModeKept(rel: Path, mode: nat)
    ensures ModeOr(mode % 4096, 0x1A4) == if mode % 4096 == 0 then 0x1A4 else mode % 512
    ensures DirMode(rel, mode) == if |Join(rel)| < 99 || mode % 4096 == 0 then 0x1ED else mode % 512
  {
    LowBits(mode);
  }

  lemma LowBits(mode: nat)
    ensures mode % 4096 % 512 == mode % 512
  {
    var q, r := mode / 4096, mode % 4096;
    LowNine(mode, 8 * q + r / 512, r % 512);
  }

  lemma LowNine(n: nat, q: nat, r: nat)
    requires n == 512 * q + r && r < 512
    ensures n % 512 == r
  {
  }

  lemma Under(path: Path, name: bytes, q: Path)
    ensures path + [name] <= q <==> path < q && q[|path|] == name
  {
    var here := path + [name];
    if here <= q {
      assert q[..|path|] == q[..|here|][..|path|] == path && q[|path|] == q[..|here|][|path|];
    }
    if path < q && q[|path|] == name { assert q[..|here|] == q[..|path|] + [q[|path|]]; }
  }

  lemma {:induction false} NotThere(entries: seq<Entry>, r: Path)
    requires r != [] && forall e | e in entries :: e.name != r[0]
    ensures Lookup(entries, r) == None
  {
    if entries != [] { NotThere(entries[1..], r); }
  }

  /* ---- The manifest ---- */

  // The lines build_manifest_recursive writes, as paths.
  function Manifest(path: Path, entries: seq<Entry>): seq<Path>
    decreases entries
  {
    if entries == [] then []
    else
      var e := entries[0];
      (if e.node.Dir? then Manifest(path + [e.name], e.node.entries) else [path + [e.name]]) +
        Manifest(path, entries[1..])
  }

  // The manifest lists exactly the paths of the tree that are not directories.
  lemma {:induction false} ManifestLists(path: Path, entries: seq<Entry>, q: Path)
    requires Distinct(entries) && forall e | e in entries :: WellNamed(e.node)
    ensures q in Manifest(path, entries) <==>
      path < q && Lookup(entries, q[|path|..]).Some? && !Lookup(entries, q[|path|..]).value.Dir?
    decreases entries
  {
    if entries != [] {
      var e, rest := entries[0], entries[1..];
      var here := path + [e.name];
      Under(path, e.name, q);
      ManifestLists(path, rest, q);
      if e.node.Dir? { ManifestLists(here, e.node.entries, q); }
      if path < q {
        var r := q[|path|..];
        if r[0] == e.name {
          assert q[..|here|] == here && here <= q;
          NotThere(rest, r);
          if here < q { assert r[1..] == q[|here|..]; } else { assert q == here; }
        }
      }
    }
  }

  // The manifest file: one line per path, with a leading slash.
  function Lines(rel: bytes, entries: seq<Entry>): seq<bytes>
    decreases entries
  {
    if entries == [] then []
    else LinesEntry(rel, entries[0]) + Lines(rel, entries[1..])
  }

  function LinesEntry(rel: bytes, e: Entry): seq<bytes>
    decreases e
  {
    var next := NextRel(rel, e.name);
    if e.node.Dir? then Lines(next, e.node.entries) else [SLASH + next]
  }

  lemma LinesStep(rel: bytes, entries: seq<Entry>, i: nat)
    requires i < |entries|
    ensures Lines(rel, entries[i..]) == LinesEntry(rel, entries[i]) + Lines(rel, entries[i + 1..])
  {
    assert entries[i..][1..] == entries[i + 1..];
  }

  class ManifestFile {
    var lines: seq<bytes>

    constructor ()
      ensures lines == []
    {
      lines := [];
    }

    // build_manifest_recursive
    method Build(rel: bytes, entries: seq<Entry>)
      modifies this
      ensures lines == old(lines) + Lines(rel, entries)
      decreases entries
    {
      hide Lines;
      assert entries[0..] == entries;
      for i := 0 to |entries|
        invariant lines + Lines(rel, entries[i..]) == old(lines) + Lines(rel, entries)
      {
        var e := entries[i];
        var next := NextRel(rel, e.name);
        LinesStep(rel, entries, i);
        ghost var before := lines;
        if e.node.Dir? {
          Build(next, e.node.entries);
        } else {
          lines := lines + [SLASH + next];
        }
        assert lines == before + LinesEntry(rel, e);
        assert lines + Lines(rel, entries[i + 1..]) == before + Lines(rel, entries[i..]);
      }
      NoLines(rel, entries[|entries|..]);
    }
  }

  lemma NoLines(rel: bytes, entries: seq<Entry>)
    requires entries == []
    ensures Lines(rel, entries) == []
  {
  }

  function LinesOf(paths: seq<Path>): seq<bytes>
  {
    if paths == [] then [] else [SLASH + Join(paths[0])] + LinesOf(paths[1..])
  }

  // The lines of the manifest file name the paths of the manifest, in order.
  lemma {:induction false} LinesName(path: Path, entries: seq<Entry>)
    requires path == [] || Join(path) != []
    requires forall e | e in entries :: Named(e)
    ensures Lines(Join(path), entries) == LinesOf(Manifest(path, entries))
    decreases entries
  {
    hide Lines, LinesOf, Manifest, Join;
    if entries == [] {
      NoLines(Join(path), entries);
      NoPaths(path);
    } else {
      var e, rest := entries[0], entries[1..];
      var here := path + [e.name];
      assert entries[0..] == entries;
      LinesStep(Join(path), entries, 0);
      LinesName(path, rest);
      assert Join(here) == NextRel(Join(path), e.name) && Join(here) != [] by { JoinHere(path, e); }
      var mine := if e.node.Dir? then Manifest(here, e.node.entries) else [here];
      assert LinesEntry(Join(path), e) == LinesOf(mine) by {
        if e.node.Dir? { LinesName(here, e.node.entries); } else { OneLine(here); }
      }
      ManifestStep(path, entries);
      LinesOfAppend(mine, Manifest(path, rest));
    }
  }

  lemma NoPaths(path: Path)
    ensures LinesOf(Manifest(path, [])) == []
  {
  }

  lemma OneLine(here: Path)
    ensures LinesOf([here]) == [SLASH + Join(here)]
  {
    assert [here][1..] == [];
  }

  lemma JoinHere(path: Path, e: Entry)
    requires (path == [] || Join(path) != []) && Named(e)
    ensures Join(path + [e.name]) == NextRel(Join(path), e.name) != []
  {
    assert (path + [e.name])[..|path|] == path;
  }

  lemma ManifestStep(path: Path, entries: seq<Entry>)
    requires entries != []
    ensures var e := entries[0];
      var mine := if e.node.Dir? then Manifest(path + [e.name], e.node.entries) else [path + [e.name]];
      Manifest(path, entries) == mine + Manifest(path, entries[1..])
  {
  }

  predicate Named(e: Entry)
    decreases e
  {
    e.name != [] && (e.node.Dir? ==> forall x | x in e.node.entries :: Named(x))
  }

  lemma {:induction false} LinesOfAppend(a: seq<Path>, b: seq<Path>)
    ensures LinesOf(a + b) == LinesOf(a) + LinesOf(b)
  {
    if a == [] {
      assert a + b == b;
    } else {
      assert (a + b)[1..] == a[1..] + b;
      LinesOfAppend(a[1..], b);
    }
  }

  predicate IsSpecial(entries: seq<Entry>, q: Path)
  {
    Lookup(entries, q).Some? && Lookup(entries, q).value.Special?
  }

  lemma NoRoot(entries: seq<Entry>)
    ensures Lookup(entries, []) == None
  {
  }
}
