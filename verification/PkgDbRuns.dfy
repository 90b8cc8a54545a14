/** What runs of installs, upgrades and removes keep (pkg/kratos-pkg.c), for packages whose
    manifest and payload come from the same tree (pkg/kratos-pack.c, pkg/kratos-tar.c). */
module PkgDbRuns {
  import opened Bytes
  import opened TarPath
  import opened TarHeader
  import opened FileSystem
  import opened TarTree
  import opened TarExtract
  import opened TarRoundTrip
  import opened TarContainment
  import opened TarManifest
  import opened PkgDb
  import DepList
  import DepsVersion

  // Whether a manifest lists a path.
  predicate Lists(lines: seq<bytes>, q: Path)
  {
    exists c :: c in Load(lines) && Target(c) == Some(q)
  }

  predicate Owner(s: State, n: bytes, q: Path) { n in s.manifests && Lists(s.manifests[n], q) }

  // A listed text that is the plain spelling of its path.
  predicate Canonical(c: bytes) { Target(c).Some? && c == Join(Target(c).value) }

  predicate CanonicalLines(lines: seq<bytes>) { forall c | c in Load(lines) :: Canonical(c) }

  // A path reached through real directories and no link.
  predicate Stands(fs: Fs, p: Path) { p != [] && Plain(p) && Standing(fs, [], Above(p)) }

  // The disk holds exactly the base files, untouched, and the files the manifests list, each in a
  // real directory; no path belongs to two packages or to a package and the base.
  ghost predicate Consistent(s: State, base: Fs)
  {
    s.metas.Keys == s.manifests.Keys &&
    (forall q :: IsFile(s.disk, q) <==> q in base || exists n :: Owner(s, n, q)) &&
    (forall q | q in base :: q in s.disk && s.disk[q] == base[q]) &&
    (forall n, q | Owner(s, n, q) :: Stands(s.disk, q) && q !in base && forall m | Owner(s, m, q) :: m == n) &&
    (forall n | n in s.manifests :: CanonicalLines(s.manifests[n]))
  }

  // No device, socket or pipe in the tree.
  predicate NoSpecial(node: Node)
  {
    !node.Special? && (node.Dir? ==> forall e | e in node.entries :: NoSpecial(e.node))
  }

  // A package packed from a tree.
  predicate PackedFrom(k: Kpkg, tree: seq<Entry>)
  {
    k.payload == Some(Archive(tree)) && k.manifest == Some(Lines([], tree)) &&
    StorableAll([], tree) && forall e | e in tree :: NoSpecial(e.node)
  }

  // Installing it runs into no file of the base or of another package.
  predicate Admissible(s: State, base: Fs, k: Kpkg, tree: seq<Entry>)
  {
    PackedFrom(k, tree) && FitsAll(s.disk, [], tree) &&
    forall q | q in Manifest([], tree) ::
      q !in base && forall n | n in s.manifests && (k.meta == None || n != k.meta.value.name) :: !Owner(s, n, q)
  }

  /* ---- Manifests of trees ---- */

  predicate Gives(line: bytes, c: bytes)
  {
    line != [] && SafeRelpath(StripSlashes(line)) && c == StripSlashes(line)
  }

  lemma {:induction false} LoadHolds(lines: seq<bytes>, c: bytes)
    ensures c in Load(lines) <==> exists line :: line in lines && Gives(line, c)
  {
    hide SafeRelpath, StripSlashes;
    if lines != [] {
      var n := |lines| - 1;
      LoadHolds(lines[..n], c);
      assert forall line :: line in lines <==> line in lines[..n] || line == lines[n];
      assert c in Load(lines) <==> c in Load(lines[..n]) || Gives(lines[n], c);
    }
  }

  lemma {:induction false} LinesOfHolds(paths: seq<Path>, line: bytes)
    ensures line in LinesOf(paths) <==> exists p :: p in paths && Spells(line, p)
  {
    hide Join;
    if paths != [] {
      LinesOfHolds(paths[1..], line);
      assert forall p :: p in paths <==> p == paths[0] || p in paths[1..];
      assert line in LinesOf(paths) <==> Spells(line, paths[0]) || line in LinesOf(paths[1..]);
    }
  }

  predicate Spells(line: bytes, p: Path) { line == SLASH + Join(p) }

  predicate Spelled(p: Path)
  {
    p != [] && GoodPath(p) && SafeRelpath(Join(p)) && |Join(p)| <= 99
  }

  // Every path of a storable tree's manifest has a plain, safe spelling.
  lemma {:induction false} ManifestSpelled(path: Path, entries: seq<Entry>)
    requires GoodPath(path) && StorableAll(path, entries) && forall e | e in entries :: NoSpecial(e.node)
    ensures forall p | p in Manifest(path, entries) :: Spelled(p)
    decreases entries
  {
    hide SafeRelpath, Join;
    if entries != [] {
      var e := entries[0];
      var here := path + [e.name];
      assert e in entries;
      if e.node.Dir? { ManifestSpelled(here, e.node.entries); }
      assert forall x | x in entries[1..] :: x in entries;
      ManifestSpelled(path, entries[1..]);
    }
  }

  lemma {:induction false} AllNamed(path: Path, e: Entry)
    requires GoodName(e.name) && Storable(path + [e.name], e.node)
    ensures Named(e)
    decreases e
  {
    if e.node.Dir? {
      forall x | x in e.node.entries ensures Named(x) { AllNamed(path + [e.name], x); }
    }
  }

  lemma LineOfSpelled(p: Path)
    requires Spelled(p)
    ensures StripSlashes(SLASH + Join(p)) == Join(p) && Target(Join(p)) == Some(p) && Canonical(Join(p))
  {
    hide Join;
    Located(p);
    CleanJoin(p);
    JoinFields(p);
    Start(p);
    var s := Join(p);
    assert (SLASH + s)[1..] == s;
    assert s[0] == (s + SLASH)[0] != 0x2F;
  }

  // The manifest of a storable tree lists exactly the paths of its files and links, spelled plainly.
  lemma TreeLists(tree: seq<Entry>)
    requires StorableAll([], tree) && forall e | e in tree :: NoSpecial(e.node)
    ensures CanonicalLines(Lines([], tree)) && forall q :: Lists(Lines([], tree), q) <==> q in Manifest([], tree)
  {
    hide Lines, Manifest, StorableAll, Join, Load, SafeRelpath, StripSlashes, Target, Canonical;
    var lines, paths := Lines([], tree), Manifest([], tree);
    ManifestSpelled([], tree);
    NamedTree(tree);
    LinesName([], tree);
    assert lines == LinesOf(paths) by { EmptyJoin(); }
    forall c | c in Load(lines) ensures exists p :: p in paths && c == Join(p) && Target(c) == Some(p) && Canonical(c) {
      LoadHolds(lines, c);
      var line :| line in lines && Gives(line, c);
      LinesOfHolds(paths, line);
      var p :| p in paths && Spells(line, p);
      LineOfSpelled(p);
    }
    forall q | q in paths ensures Lists(lines, q) {
      LineOfSpelled(q);
      LinesOfHolds(paths, SLASH + Join(q));
      LoadHolds(lines, Join(q));
      assert Spells(SLASH + Join(q), q) && Gives(SLASH + Join(q), Join(q));
    }
  }

  lemma EmptyJoin()
    ensures Join([]) == []
  {
  }

  lemma NamedTree(tree: seq<Entry>)
    requires StorableAll([], tree)
    ensures forall e | e in tree :: Named(e)
  {
    forall e | e in tree ensures Named(e) { AllNamed([], e); }
  }

  /* ---- Unpacking ---- */

  lemma {:induction false} FitsLookup(fs: Fs, path: Path, entries: seq<Entry>, r: Path)
    requires FitsAll(fs, path, entries) && Lookup(entries, r).Some?
    ensures Fits(fs, path + r, Lookup(entries, r).value)
    decreases r, entries
  {
    var e := entries[0];
    if e.name != r[0] {
      FitsLookup(fs, path, entries[1..], r);
    } else {
      assert e in entries;
      var here := path + [e.name];
      if |r| == 1 {
        assert path + r == here;
      } else if e.node.Dir? {
        FitsLookup(fs, here, e.node.entries, r[1..]);
        assert here + r[1..] == path + r;
      }
    }
  }

  lemma {:induction false} PlainTree(entries: seq<Entry>, r: Path)
    requires (forall e | e in entries :: NoSpecial(e.node)) && Lookup(entries, r).Some?
    ensures !Lookup(entries, r).value.Special?
    decreases r, entries
  {
    var e := entries[0];
    assert e in entries && forall x | x in entries[1..] :: x in entries;
    if e.name != r[0] {
      PlainTree(entries[1..], r);
    } else if |r| > 1 && e.node.Dir? {
      PlainTree(e.node.entries, r[1..]);
    }
  }

  // The path has what the tree has there.
  predicate Holds(after: Fs, before: Fs, tree: seq<Entry>, q: Path)
  {
    Lookup(tree, q).Some? && !Lookup(tree, q).value.Special? &&
    q in after && after[q] == Left(before, q, q, Lookup(tree, q).value)
  }

  // Unpacking a package's tree adds or replaces the files of its manifest and no other file.
  lemma Unpacked(fs: Fs, tree: seq<Entry>, q: Path)
    requires StorableAll([], tree) && FitsAll(fs, [], tree) && forall e | e in tree :: NoSpecial(e.node)
    ensures var (after, code) := Extract(Archive(tree), fs, [], 0);
      code == OK && (IsFile(after, q) <==> IsFile(fs, q) || q in Manifest([], tree)) &&
      (q !in Manifest([], tree) && IsFile(fs, q) ==> after[q] == fs[q]) &&
      (q in Manifest([], tree) ==> Holds(after, fs, tree, q)) && (IsDir(fs, q) ==> IsDir(after, q)) &&
      (Lookup(tree, q).Some? && Lookup(tree, q).value.Dir? ==> IsDir(after, q))
  {
    hide Extract, PlaceAll, Lookup, Storable, WellNamed, Archive, Manifest;
    RoundTrip(fs, [], tree);
    forall e | e in tree ensures WellNamed(e.node) { StorableIsWellNamed([] + [e.name], e.node); }
    PlacedAll(fs, [], [], tree, q);
    ManifestLists([], tree, q);
    assert q[0..] == q && [] + q == q;
    if q == [] { NoRoot(tree); }
    if Lookup(tree, q).Some? {
      FitsLookup(fs, [], tree, q);
      PlainTree(tree, q);
    }
  }

  lemma {:induction false} PrefixIsDir(entries: seq<Entry>, r: Path, k: nat)
    requires Lookup(entries, r).Some? && 0 < k < |r|
    ensures Lookup(entries, r[..k]).Some? && Lookup(entries, r[..k]).value.Dir?
    decreases r, entries
  {
    var e := entries[0];
    if e.name != r[0] {
      PrefixIsDir(entries[1..], r, k);
    } else if k > 1 {
      assert r[..k][1..] == r[1..][..k - 1];
      PrefixIsDir(e.node.entries, r[1..], k - 1);
    }
  }

  // The unpacked files stand in real directories.
  lemma TreeStands(fs: Fs, tree: seq<Entry>, q: Path)
    requires StorableAll([], tree) && FitsAll(fs, [], tree) && forall e | e in tree :: NoSpecial(e.node)
    ensures var after := Extract(Archive(tree), fs, [], 0).0;
      DirsStay(fs, after) && (q in Manifest([], tree) ==> Stands(after, q))
  {
    hide Extract, Lookup, StorableAll, Archive, Manifest, Join, SafeRelpath, Target;
    var after := Extract(Archive(tree), fs, [], 0).0;
    forall d | IsDir(fs, d) ensures IsDir(after, d) { Unpacked(fs, tree, d); }
    if q in Manifest([], tree) {
      ManifestSpelled([], tree);
      LineOfSpelled(q);
      SafeIsPlain(Join(q));
      forall e | e in tree ensures WellNamed(e.node) { StorableIsNamed(tree, e); }
      StorableIsDistinct(tree);
      ManifestLists([], tree, q);
      assert q[0..] == q;
      forall k | 0 < k <= |Above(q)| ensures IsDir(after, [] + Above(q)[..k]) {
        assert [] + Above(q)[..k] == q[..k];
        PrefixIsDir(tree, q, k);
        Unpacked(fs, tree, q[..k]);
      }
    }
  }

  lemma StorableIsDistinct(tree: seq<Entry>)
    requires StorableAll([], tree)
    ensures Distinct(tree)
  {
  }

  lemma StorableIsNamed(tree: seq<Entry>, e: Entry)
    requires StorableAll([], tree) && e in tree
    ensures WellNamed(e.node)
  {
    StorableIsWellNamed([] + [e.name], e.node);
  }

  /* ---- Unlinking ---- */

  ghost predicate DirsStay(a: Fs, b: Fs)
  {
    forall q | IsDir(a, q) :: IsDir(b, q)
  }

  lemma StillStands(a: Fs, b: Fs, p: Path)
    requires Stands(a, p) && DirsStay(a, b)
    ensures Stands(b, p)
  {
  }

  lemma {:induction false} UnlinkKeepsDirs(fs: Fs, rels: seq<bytes>)
    ensures DirsStay(fs, UnlinkAll(fs, rels))
  {
    hide Target, Where;
    if rels != [] { UnlinkKeepsDirs(fs, rels[..|rels| - 1]); }
  }

  // Unlinking listed paths, each in a real directory, clears those that are files or links.
  lemma {:induction false} UnlinkAllEffect(fs: Fs, rels: seq<bytes>, q: Path)
    requires forall c | c in rels && Target(c).Some? :: Stands(fs, Target(c).value)
    ensures var after := UnlinkAll(fs, rels);
      if IsFile(fs, q) && exists c :: c in rels && Target(c) == Some(q) then q !in after else Same(after, fs, q)
  {
    hide Target, Where, Standing;
    if rels != [] {
      var n := |rels| - 1;
      assert forall c | c in rels :: c in rels[..n] || c == rels[n];
      UnlinkAllEffect(fs, rels[..n], q);
      if Target(rels[n]).Some? {
        var p := Target(rels[n]).value;
        var before := UnlinkAll(fs, rels[..n]);
        assert rels[n] in rels;
        UnlinkKeepsDirs(fs, rels[..n]);
        StillStands(fs, before, p);
        WhereStanding(before, [], p);
        assert [] + p == p;
      }
    }
  }

  lemma {:induction false} MissingHolds(old_: seq<bytes>, new_: seq<bytes>, c: bytes)
    ensures c in Missing(old_, new_) <==> c in old_ && c !in new_
  {
    if old_ != [] {
      var n := |old_| - 1;
      MissingHolds(old_[..n], new_, c);
      assert c in old_ <==> c in old_[..n] || c == old_[n];
    }
  }

  lemma AllMissing(old_: seq<bytes>, new_: seq<bytes>)
    ensures forall c | c in Missing(old_, new_) :: c in old_
  {
    forall c | c in Missing(old_, new_) ensures c in old_ { MissingHolds(old_, new_, c); }
  }

  // With plain spellings on both sides, comparing texts compares paths.
  lemma OrphanPaths(oldLines: seq<bytes>, newLines: seq<bytes>, q: Path)
    requires CanonicalLines(oldLines) && CanonicalLines(newLines)
    ensures (exists c :: c in Missing(Load(oldLines), Load(newLines)) && Target(c) == Some(q)) <==>
      Lists(oldLines, q) && !Lists(newLines, q)
  {
    hide Load, Missing, Target, Canonical;
    var gone := Missing(Load(oldLines), Load(newLines));
    if c :| c in gone && Target(c) == Some(q) {
      assert c in Load(oldLines) by { MissingHolds(Load(oldLines), Load(newLines), c); }
      forall d | d in Load(newLines) && Target(d) == Some(q) ensures d == c { SameSpelling(c, d); }
      MissingHolds(Load(oldLines), Load(newLines), c);
    }
    if Lists(oldLines, q) && !Lists(newLines, q) {
      var c :| c in Load(oldLines) && Target(c) == Some(q);
      MissingHolds(Load(oldLines), Load(newLines), c);
    }
  }

  lemma SameSpelling(c: bytes, d: bytes)
    requires Canonical(c) && Canonical(d) && Target(c) == Target(d)
    ensures c == d
  {
  }

  /* ---- One operation ---- */

  lemma ListedStand(s: State, base: Fs, name: bytes, fs: Fs)
    requires Consistent(s, base) && name in s.manifests && DirsStay(s.disk, fs)
    ensures forall c | c in Load(s.manifests[name]) && Target(c).Some? :: Stands(fs, Target(c).value)
  {
    hide Load, Target, CanonicalLines, Stands;
    forall c | c in Load(s.manifests[name]) && Target(c).Some? ensures Stands(fs, Target(c).value) {
      assert Owner(s, name, Target(c).value);
      StillStands(s.disk, fs, Target(c).value);
    }
  }

  // A successful install leaves the package's own files with the contents the tree gives them,
  // deletes exactly the files of its old version that the new one does not have, and leaves
  // every other file alone.
  lemma InstallEffect(s: State, base: Fs, k: Kpkg, force: bool, tree: seq<Entry>, q: Path)
    requires Consistent(s, base) && Passes(s, k, force) && Admissible(s, base, k, tree)
    ensures var (t, ok) := Install(s, k, force);
      var name := k.meta.value.name;
      ok && (IsFile(t.disk, q) <==> q in Manifest([], tree) || (IsFile(s.disk, q) && !Owner(s, name, q))) &&
      (q in Manifest([], tree) ==> Holds(t.disk, s.disk, tree, q)) &&
      (q !in Manifest([], tree) && IsFile(t.disk, q) ==> t.disk[q] == s.disk[q])
  {
    hide AllSafe, DepList.Parse, Load, Missing, UnlinkAll, Manifest, Lines, Archive, StorableAll, FitsAll, Extract,
      Target, Lookup, CanonicalLines;
    var name := k.meta.value.name;
    var after := Extract(Archive(tree), s.disk, [], 0).0;
    Unpacked(s.disk, tree, q);
    TreeLists(tree);
    if name in s.manifests {
      OrphanPaths(s.manifests[name], Lines([], tree), q);
      TreeStands(s.disk, tree, q);
      ListedStand(s, base, name, after);
      AllMissing(Load(s.manifests[name]), Load(Lines([], tree)));
      UnlinkAllEffect(after, Missing(Load(s.manifests[name]), Load(Lines([], tree))), q);
    } else {
      NothingUnlinked(after);
    }
  }

  lemma InstallOwners(s: State, base: Fs, k: Kpkg, force: bool, tree: seq<Entry>, n: bytes, q: Path)
    requires Consistent(s, base) && Passes(s, k, force) && Admissible(s, base, k, tree)
    ensures var t := Install(s, k, force).0;
      Owner(t, n, q) <==> if n == k.meta.value.name then q in Manifest([], tree) else Owner(s, n, q)
  {
    hide AllSafe, DepList.Parse, Load, Missing, UnlinkAll, Manifest, Lines, Archive, StorableAll, FitsAll, Extract,
      Target, Lists, CanonicalLines;
    Unpacked(s.disk, tree, q);
    TreeLists(tree);
  }

  lemma InstallStands(s: State, base: Fs, k: Kpkg, force: bool, tree: seq<Entry>, n: bytes, q: Path)
    requires Consistent(s, base) && Passes(s, k, force) && Admissible(s, base, k, tree)
    ensures var t := Install(s, k, force).0; Owner(t, n, q) ==> Stands(t.disk, q)
  {
    hide AllSafe, DepList.Parse, Load, Missing, UnlinkAll, Manifest, Lines, Archive, StorableAll, FitsAll, Extract,
      Target, Lists, CanonicalLines, Stands;
    var t := Install(s, k, force).0;
    var after := Extract(Archive(tree), s.disk, [], 0).0;
    Unpacked(s.disk, tree, q);
    TreeStands(s.disk, tree, q);
    if Owner(t, n, q) {
      InstallOwners(s, base, k, force, tree, n, q);
      if q !in Manifest([], tree) { StillStands(s.disk, after, q); }
      NothingUnlinked(after);
      var name := k.meta.value.name;
      if name in s.manifests { UnlinkKeepsDirs(after, Missing(Load(s.manifests[name]), Load(Lines([], tree)))); }
      StillStands(after, t.disk, q);
    }
  }

  lemma InstallKeeps(s: State, base: Fs, k: Kpkg, force: bool, tree: seq<Entry>)
    requires Consistent(s, base) && (Passes(s, k, force) ==> Admissible(s, base, k, tree))
    ensures Consistent(Install(s, k, force).0, base)
  {
    hide AllSafe, DepList.Parse, Load, Missing, UnlinkAll, Manifest, Lines, Archive, StorableAll, FitsAll, Extract,
      Target, Lists, CanonicalLines, Lookup, Stands;
    if Passes(s, k, force) {
      var t := Install(s, k, force).0;
      var name := k.meta.value.name;
      Unpacked(s.disk, tree, []);
      TreeLists(tree);
      forall n, q ensures Owner(t, n, q) <==> if n == name then q in Manifest([], tree) else Owner(s, n, q) {
        InstallOwners(s, base, k, force, tree, n, q);
      }
      forall n, q | Owner(t, n, q) ensures Stands(t.disk, q) { InstallStands(s, base, k, force, tree, n, q); }
      forall q ensures IsFile(t.disk, q) <==> q in base || exists n :: Owner(t, n, q) {
        InstallEffect(s, base, k, force, tree, q);
        OneOwner(s, base, t, tree, name, q);
      }
      forall q | q in base ensures q in t.disk && t.disk[q] == base[q] {
        InstallEffect(s, base, k, force, tree, q);
        assert IsFile(s.disk, q);
        assert !Owner(s, name, q);
      }
    }
  }

  // The files that stay are those of the base, of the new version and of the other packages.
  lemma OneOwner(s: State, base: Fs, t: State, tree: seq<Entry>, name: bytes, q: Path)
    requires Consistent(s, base)
    requires forall n :: Owner(t, n, q) <==> if n == name then q in Manifest([], tree) else Owner(s, n, q)
    requires IsFile(t.disk, q) <==> q in Manifest([], tree) || (IsFile(s.disk, q) && !Owner(s, name, q))
    ensures IsFile(t.disk, q) <==> q in base || exists n :: Owner(t, n, q)
  {
    hide Manifest, Lists, CanonicalLines;
    if q in Manifest([], tree) {
      assert Owner(t, name, q);
    } else if IsFile(s.disk, q) && !Owner(s, name, q) {
      if n :| Owner(s, n, q) { assert Owner(t, n, q); }
    }
    if n :| Owner(t, n, q) && n != name {
      assert Owner(s, n, q) && IsFile(s.disk, q);
    }
  }

  // Removing deletes exactly the package's own files.
  lemma RemoveEffect(s: State, base: Fs, name: bytes, q: Path)
    requires Consistent(s, base) && name in s.metas
    ensures var (t, ok) := Remove(s, name);
      ok && if Owner(s, name, q) then q !in t.disk else Same(t.disk, s.disk, q)
  {
    hide Load, UnlinkAll, Target, CanonicalLines;
    ListedStand(s, base, name, s.disk);
    UnlinkAllEffect(s.disk, Load(s.manifests[name]), q);
    if Owner(s, name, q) { assert IsFile(s.disk, q); }
  }

  lemma RemoveKeeps(s: State, base: Fs, name: bytes)
    requires Consistent(s, base)
    ensures Consistent(Remove(s, name).0, base)
  {
    hide Load, UnlinkAll, Lists, CanonicalLines, Stands;
    if name in s.metas {
      var t := Remove(s, name).0;
      forall n, q ensures Owner(t, n, q) <==> n != name && Owner(s, n, q) {}
      UnlinkKeepsDirs(s.disk, Load(s.manifests[name]));
      forall n, q | Owner(t, n, q) ensures Stands(t.disk, q) {
        assert Owner(s, n, q);
        StillStands(s.disk, t.disk, q);
      }
      forall q ensures IsFile(t.disk, q) <==> q in base || exists n :: Owner(t, n, q) {
        RemoveEffect(s, base, name, q);
        if IsFile(t.disk, q) && q !in base {
          var n :| Owner(s, n, q);
          assert Owner(t, n, q);
        }
        if n :| Owner(t, n, q) { assert Owner(s, n, q) && IsFile(s.disk, q); }
        if q in base { assert IsFile(s.disk, q); }
      }
      forall q | q in base ensures q in t.disk && t.disk[q] == base[q] { RemoveEffect(s, base, name, q); }
    }
  }

  /* ---- Collisions ---- */

  // Nothing in an install looks at what other packages own. A package that brings a path of
  // another one takes it over, and when it is removed again the path is gone, although the other
  // manifest still lists it.
  lemma CollisionDeletes(s: State, base: Fs, k: Kpkg, force: bool, tree: seq<Entry>, n: bytes, q: Path)
    requires Consistent(s, base) && Passes(s, k, force) && PackedFrom(k, tree) && FitsAll(s.disk, [], tree)
    requires k.meta.value.name !in s.metas && Owner(s, n, q) && q in Manifest([], tree)
    ensures var t := Install(s, k, force).0;
      var u := Remove(t, k.meta.value.name).0;
      Holds(t.disk, s.disk, tree, q) && Owner(u, n, q) && q !in u.disk && !exists c :: Consistent(u, c)
  {
    hide AllSafe, DepList.Parse, DepList.Met, DepList.Hits, Load, UnlinkAll, Manifest, Lines, Archive, StorableAll,
      FitsAll, Extract, Target, Lookup, CanonicalLines, Stands, Holds;
    var name := k.meta.value.name;
    var t := Install(s, k, force).0;
    var u := Remove(t, name).0;
    Unpacked(s.disk, tree, q);
    TreeLists(tree);
    TreeStands(s.disk, tree, q);
    var after := Extract(Archive(tree), s.disk, [], 0).0;
    NothingUnlinked(after);
    assert t == State(after, s.metas[name := k.meta.value], s.manifests[name := Lines([], tree)]);
    assert n in s.manifests && n != name;
    var listed := Load(Lines([], tree));
    forall c | c in listed && Target(c).Some? ensures Stands(t.disk, Target(c).value) {
      assert Lists(Lines([], tree), Target(c).value);
      TreeStands(s.disk, tree, Target(c).value);
    }
    UnlinkAllEffect(t.disk, listed, q);
    HeldIsFile(t.disk, s.disk, tree, q);
    forall c ensures !Consistent(u, c) { MissingFile(u, c, n, q); }
  }

  lemma MissingFile(s: State, base: Fs, n: bytes, q: Path)
    requires Owner(s, n, q) && q !in s.disk
    ensures !Consistent(s, base)
  {
    assert !IsFile(s.disk, q);
  }

  lemma HeldIsFile(after: Fs, before: Fs, tree: seq<Entry>, q: Path)
    requires Holds(after, before, tree, q) && q in Manifest([], tree) && StorableAll([], tree)
    ensures IsFile(after, q)
  {
    hide Storable, WellNamed;
    forall e | e in tree ensures WellNamed(e.node) { StorableIsWellNamed([] + [e.name], e.node); }
    ManifestLists([], tree, q);
    assert q[0..] == q;
  }

  /* ---- Runs ---- */

  datatype Op = Put(k: Kpkg, force: bool, tree: seq<Entry>) | Drop(name: bytes)

  ghost function Do(s: State, op: Op): State
  {
    match op case Put(k, force, _) => Install(s, k, force).0 case Drop(name) => Remove(s, name).0
  }

  ghost function Run(s: State, ops: seq<Op>): State
  {
    if ops == [] then s else Do(Run(s, ops[..|ops| - 1]), ops[|ops| - 1])
  }

  ghost predicate Allowed(s: State, base: Fs, op: Op)
  {
    op.Put? && Passes(s, op.k, op.force) ==> Admissible(s, base, op.k, op.tree)
  }

  ghost predicate AllAllowed(s: State, base: Fs, ops: seq<Op>)
  {
    forall i | 0 <= i < |ops| :: Allowed(Run(s, ops[..i]), base, ops[i])
  }

  // Over every run of installs, forced upgrades and removes, failed ones included, the disk is
  // exactly the base and what the current manifests list.
  lemma {:induction false} RunKeepsConsistent(s: State, base: Fs, ops: seq<Op>)
    requires Consistent(s, base) && AllAllowed(s, base, ops)
    ensures Consistent(Run(s, ops), base)
  {
    hide Consistent, Passes, Admissible, Install, Remove;
    if ops != [] {
      var n := |ops| - 1;
      forall i | 0 <= i < n ensures Allowed(Run(s, ops[..n][..i]), base, ops[..n][i]) {
        assert ops[..n][..i] == ops[..i];
      }
      RunKeepsConsistent(s, base, ops[..n]);
      assert Allowed(Run(s, ops[..n]), base, ops[n]);
      match ops[n]
      case Put(k, force, tree) => InstallKeeps(Run(s, ops[..n]), base, k, force, tree);
      case Drop(name) => RemoveKeeps(Run(s, ops[..n]), base, name);
    }
  }

  // Over every run of non-forced installs from an empty database, every installed package's
  // dependencies are met by what is installed, those on glibc and kpm excepted.
  lemma {:induction false} RunKeepsDependencies(s: State, ops: seq<Op>)
    requires s.metas == map[] && forall op | op in ops :: op.Put? && !op.force
    ensures DepList.MetOutsideBase(Run(s, ops).metas)
  {
    hide DepList.MetOutsideBase, Install, Passes;
    if ops == [] {
      DepList.NothingInstalled();
    } else {
      var n := |ops| - 1;
      assert forall op | op in ops[..n] :: op in ops;
      assert ops[n] in ops;
      RunKeepsDependencies(s, ops[..n]);
      var before := Run(s, ops[..n]);
      NonForcedInstall(before, ops[n].k);
      if ops[n].k.meta.Some? { DepList.InstallKeepsDependencies(before.metas, ops[n].k.meta.value); }
    }
  }

  // Over the same runs, no package went in while one of its conflicts was installed, and no two
  // packages that name each other are both there.
  lemma {:induction false} RunWithoutConflicts(s: State, ops: seq<Op>)
    requires s.metas == map[] && forall op | op in ops :: op.Put? && !op.force
    ensures DepList.NoneMutual(Run(s, ops).metas)
    ensures forall i | 0 <= i < |ops| :: InstalledUnopposed(Run(s, ops[..i]), ops[i].k)
  {
    hide DepList.NoneMutual, Install, Passes, InstalledUnopposed;
    if ops == [] {
      assert DepList.NoneMutual(map[]) by { NothingMutual(); }
    } else {
      var n := |ops| - 1;
      var init := ops[..n];
      assert forall op | op in init :: op in ops;
      assert ops[n] in ops;
      RunWithoutConflicts(s, init);
      forall i | 0 <= i < |ops| ensures InstalledUnopposed(Run(s, ops[..i]), ops[i].k) {
        if i < n { assert init[..i] == ops[..i] && init[i] == ops[i]; }
        Unopposed(Run(s, ops[..i]), ops[i].k);
      }
      var before := Run(s, init);
      NonForcedInstall(before, ops[n].k);
      if ops[n].k.meta.Some? { DepList.InstallKeepsNoneMutual(before.metas, ops[n].k.meta.value); }
    }
  }

  // If the package goes in, none of its conflicts names an installed package's version.
  ghost predicate InstalledUnopposed(s: State, k: Kpkg)
  {
    Install(s, k, false).1 ==>
      k.meta.Some? &&
      forall r | r in DepList.Parse(k.meta.value.conflicts) && r.name in s.metas ::
        !DepsVersion.Satisfies(s.metas[r.name].version, r.op, r.version)
  }

  lemma Unopposed(s: State, k: Kpkg)
    ensures InstalledUnopposed(s, k)
  {
    hide Install, DepList.Parse, DepsVersion.Satisfies;
    InstallExactly(s, k, false);
  }

  lemma NothingMutual()
    ensures DepList.NoneMutual(map[])
  {
  }

  lemma NonForcedInstall(s: State, k: Kpkg)
    ensures var (t, ok) := Install(s, k, false);
      if ok then k.meta.Some? && t.metas == DepList.Install(s.metas, k.meta.value) else t.metas == s.metas
  {
    hide AllSafe, DepList.Parse, DepList.Met, DepList.Hits, Load, Missing, UnlinkAll, Extract;
  }

  function FilesOf(disk: Fs): Fs { map q | q in disk && !disk[q].ODir? :: disk[q] }

  // A system with nothing installed is consistent with its own files as the base.
  lemma FreshIsConsistent(disk: Fs)
    ensures Consistent(State(disk, map[], map[]), FilesOf(disk))
  {
  }

  // From a system with nothing installed, over every run that runs into no file of it, its files
  // stay as they were and the others are exactly those the manifests list; once everything is
  // removed again they alone are left.
  lemma FreshRun(disk: Fs, ops: seq<Op>)
    requires AllAllowed(State(disk, map[], map[]), FilesOf(disk), ops)
    ensures var s, t := State(disk, map[], map[]), Run(State(disk, map[], map[]), ops);
      Consistent(t, FilesOf(disk)) && (t.metas == map[] ==> FilesOf(t.disk) == FilesOf(disk))
  {
    hide Run, AllAllowed, Lists, Stands, CanonicalLines;
    var s, base := State(disk, map[], map[]), FilesOf(disk);
    FreshIsConsistent(disk);
    RunKeepsConsistent(s, base, ops);
    var t := Run(s, ops);
    if t.metas == map[] {
      assert t.manifests.Keys == {};
      forall q ensures IsFile(t.disk, q) <==> q in base {}
    }
  }

  /* ---- A collision in a run ---- */

  // A package of one empty file "x", without dependencies.
  function OneFile(): seq<Entry> { [Entry(X, File(ANY, []))] }

  function Solo(name: bytes): Kpkg
  {
    var meta := DepList.Meta(name, [], [], []);
    Kpkg(true, Some(meta), true, Some(Lines([], OneFile())), Some(Archive(OneFile())))
  }

  lemma OneFilePacked(name: bytes)
    ensures PackedFrom(Solo(name), OneFile()) && [X] in Manifest([], OneFile()) && Lines([], OneFile()) == [SLASH + X]
  {
    hide SafeRelpath, Archive;
    TwoNames(X, Y);
    NoDotIsSafe(X);
    Pow8Six();
    OneEntry(OneFile()[0], []);
    assert [] + [X] == [X] && OneFile()[1..] == [];
    assert Storable([X], OneFile()[0].node) by { hide Join, Pow8; }
    assert NextRel([], X) == X;
  }

  lemma SoloPasses(s: State, name: bytes)
    requires name !in s.metas
    ensures Passes(s, Solo(name), false)
  {
    hide SafeRelpath, StripSlashes, Join, Lines, Manifest, Archive, StorableAll, DepList.Parse, DepList.Met,
      DepList.Hits;
    OneFilePacked(name);
    TwoNames(X, Y);
    NoDotIsSafe(X);
    LineOfSpelled([X]);
    DepList.NothingToParse();
  }

  lemma SoloFits(disk: Fs)
    requires [X] in disk ==> IsFile(disk, [X])
    ensures FitsAll(disk, [], OneFile())
  {
    assert [] + [X] == [X];
  }

  const EMPTY := State(map[], map[], map[])

  lemma FirstSolo()
    ensures var t := Install(EMPTY, Solo(X), false).0;
      Consistent(t, map[]) && X in t.metas && Y !in t.metas && Owner(t, X, [X]) && IsFile(t.disk, [X])
  {
    hide AllSafe, DepList.Parse, Load, Manifest, Lines, Archive, StorableAll, FitsAll, Extract, CanonicalLines, Stands,
      Lists, DepList.Met, DepList.Hits;
    var tree, k := OneFile(), Solo(X);
    OneFilePacked(X);
    SoloPasses(EMPTY, X);
    SoloFits(map[]);
    FreshIsConsistent(map[]);
    assert FilesOf(map[]) == map[];
    assert Admissible(EMPTY, map[], k, tree);
    InstallKeeps(EMPTY, map[], k, false, tree);
    InstallOwners(EMPTY, map[], k, false, tree, X, [X]);
    Unpacked(map[], tree, [X]);
  }

  lemma KeepsMetas(s: State, k: Kpkg, name: bytes)
    requires Passes(s, k, false) && name in s.metas && name != k.meta.value.name
    ensures name in Remove(Install(s, k, false).0, k.meta.value.name).0.metas
  {
    hide AllSafe, DepList.Parse, DepList.Met, DepList.Hits, Load, Missing, UnlinkAll, Extract;
  }

  // Two packages that both bring "x" pass every check one after the other; removing the second
  // deletes the file of the first.
  lemma CollisionWitness()
    ensures var ops := [Put(Solo(X), false, OneFile()), Put(Solo(Y), false, OneFile()), Drop(Y)];
      var u := Run(EMPTY, ops);
      X in u.metas && Owner(u, X, [X]) && [X] !in u.disk
  {
    hide Passes, PackedFrom, FitsAll, Consistent, Install, Remove, OneFile, Lists, Manifest, Run, Lines, Archive;
    var tree := OneFile();
    var first, second, third := Put(Solo(X), false, tree), Put(Solo(Y), false, tree), Drop(Y);
    var s := Do(EMPTY, first);
    FirstSolo();
    OneFilePacked(Y);
    SoloPasses(s, Y);
    SoloFits(s.disk);
    CollisionDeletes(s, map[], Solo(Y), false, tree, X, [X]);
    KeepsMetas(s, Solo(Y), X);
    ThreeSteps(EMPTY, first, second, third);
  }

  lemma ThreeSteps(s: State, a: Op, b: Op, c: Op)
    ensures Run(s, [a, b, c]) == Do(Do(Do(s, a), b), c)
  {
    hide Do;
    assert [a, b, c][..2] == [a, b] && [a, b][..1] == [a] && [a][..0] == [];
    assert Run(s, []) == s;
    assert Run(s, [a]) == Do(s, a);
  }
}
