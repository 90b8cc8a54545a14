/** The installed system: disk, package database and manifests, under install, forced
    upgrade and remove (pkg/kratos-pkg.c). Hooks do nothing. */
module PkgDb {
  import opened Bytes
  import opened TarPath
  import opened FileSystem
  import opened TarTree
  import opened TarExtract
  import opened TarRoundTrip
  import DepList
  import DepsVersion

  // The database holds, for each package, its metadata and the lines of its manifest.
  datatype State = State(disk: Fs, metas: map<bytes, DepList.Meta>, manifests: map<bytes, seq<bytes>>)

  // A package file: whether it unpacks, its metadata, whether its checksums match, the lines of
  // its manifest and its payload archive.
  datatype Kpkg = Kpkg(unpacks: bool, meta: Option<DepList.Meta>, checksumsOk: bool,
                       manifest: Option<seq<bytes>>, payload: Option<bytes>)

  /* ---- Manifests ---- */

  // The paths a manifest lists, as text: slashes in front dropped, empty and unsafe lines skipped.
  function Load(lines: seq<bytes>): seq<bytes>
  {
    if lines == [] then []
    else
      var init, line := Load(lines[..|lines| - 1]), lines[|lines| - 1];
      if line != [] && SafeRelpath(StripSlashes(line)) then init + [StripSlashes(line)] else init
  }

  predicate AllSafe(lines: seq<bytes>)
  {
    forall line | line in lines :: line != [] ==> SafeRelpath(StripSlashes(line))
  }

  // Unlinking what stands at a listed path, if it is a file or a link.
  function UnlinkAt(fs: Fs, rel: bytes): Fs
  {
    match Target(rel) case None => fs case Some(p) => Unlink(fs, [], p)
  }

  function UnlinkAll(fs: Fs, rels: seq<bytes>): Fs
  {
    if rels == [] then fs else UnlinkAt(UnlinkAll(fs, rels[..|rels| - 1]), rels[|rels| - 1])
  }

  // The listed paths that the new list does not hold, compared as text.
  function Missing(old_: seq<bytes>, new_: seq<bytes>): seq<bytes>
  {
    if old_ == [] then []
    else
      var init, rel := Missing(old_[..|old_| - 1], new_), old_[|old_| - 1];
      if rel in new_ then init else init + [rel]
  }

  /* ---- Operations ---- */

  function ManifestLines(m: Option<seq<bytes>>): seq<bytes> { if m == None then [] else m.value }

  // The checks of an install before the payload is touched.
  ghost predicate Passes(s: State, k: Kpkg, force: bool)
  {
    k.unpacks && k.meta.Some? && (k.meta.value.name in s.metas ==> force) && k.checksumsOk &&
    (force || DepList.Compatible(DepList.VersionsOf(s.metas), k.meta.value)) &&
    AllSafe(ManifestLines(k.manifest))
  }

  function Unpack(fs: Fs, payload: Option<bytes>): (Fs, Code)
  {
    match payload case None => (fs, OK) case Some(tar) => Extract(tar, fs, [], 0)
  }

  ghost function Install(s: State, k: Kpkg, force: bool): (State, bool)
  {
    if !Passes(s, k, force) then (s, false)
    else
      var (disk, code) := Unpack(s.disk, k.payload);
      if code != OK then (s.(disk := disk), false) else (Commit(s.(disk := disk), k), true)
  }

  // Recording a package whose payload is on disk, and clearing what its old version leaves.
  function Commit(s: State, k: Kpkg): State
    requires k.meta.Some?
  {
    var m := k.meta.value;
    var orphans :=
      if m.name in s.metas && m.name in s.manifests then
        Missing(Load(s.manifests[m.name]), Load(ManifestLines(k.manifest)))
      else [];
    var manifests := if k.manifest == None then s.manifests else s.manifests[m.name := k.manifest.value];
    State(UnlinkAll(s.disk, orphans), s.metas[m.name := m], manifests)
  }

  function Remove(s: State, name: bytes): (State, bool)
  {
    if name !in s.metas then (s, false)
    else
      var listed := if name in s.manifests then Load(s.manifests[name]) else [];
      (State(UnlinkAll(s.disk, listed), s.metas - {name}, s.manifests - {name}), true)
  }

  class Database {
    var disk: Fs
    var metas: map<bytes, DepList.Meta>
    var manifests: map<bytes, seq<bytes>>

    constructor (disk: Fs)
      ensures this.disk == disk && metas == map[] && manifests == map[]
    {
      this.disk, metas, manifests := disk, map[], map[];
    }

    function Now(): State
      reads this
    {
      State(disk, metas, manifests)
    }

    // path_set_load
    static method PathSetLoad(lines: seq<bytes>) returns (paths: seq<bytes>)
      ensures paths == Load(lines)
    {
      hide SafeRelpath;
      paths := [];
      for i := 0 to |lines|
        invariant paths == Load(lines[..i])
      {
        assert lines[..i + 1][..i] == lines[..i];
        if lines[i] == [] { continue; }
        var clean := StripSlashes(lines[i]);
        var safe := IsSafeRelpath(clean);
        if !safe { continue; }
        paths := paths + [clean];
      }
      assert lines[..|lines|] == lines;
    }

    // path_set_contains
    static method PathSetContains(paths: seq<bytes>, path: bytes) returns (found: bool)
      ensures found <==> path in paths
    {
      for i := 0 to |paths|
        invariant path !in paths[..i]
      {
        if paths[i] == path { return true; }
      }
      return false;
    }

    // remove_orphaned_files
    method RemoveOrphanedFiles(oldLines: seq<bytes>, newLines: seq<bytes>)
      modifies this`disk
      ensures disk == UnlinkAll(old(disk), Missing(Load(oldLines), Load(newLines)))
    {
      var olds := PathSetLoad(oldLines);
      if |olds| == 0 { return; }
      var news := PathSetLoad(newLines);
      ghost var gone: seq<bytes> := [];
      for i := 0 to |olds|
        invariant gone == Missing(olds[..i], news) && disk == UnlinkAll(old(disk), gone)
      {
        assert olds[..i + 1][..i] == olds[..i];
        var kept := PathSetContains(news, olds[i]);
        if kept { continue; }
        assert (gone + [olds[i]])[..|gone|] == gone;
        disk := UnlinkAt(disk, olds[i]);
        gone := gone + [olds[i]];
      }
      assert olds[..|olds|] == olds;
    }

    // The check of the manifest's lines in install_kpkg.
    static method CheckManifest(lines: seq<bytes>) returns (ok: bool)
      ensures ok <==> AllSafe(lines)
    {
      for i := 0 to |lines|
        invariant AllSafe(lines[..i])
      {
        if lines[i] == [] { continue; }
        var safe := IsSafeRelpath(StripSlashes(lines[i]));
        if !safe { assert lines[i] in lines; return false; }
      }
      assert lines[..|lines|] == lines;
      return true;
    }

    // install_kpkg. A failure never changes the database, and changes the disk only when it is
    // the payload that fails to unpack.
    method InstallKpkg(k: Kpkg, force: bool) returns (ok: bool)
      modifies this
      ensures (Now(), ok) == Install(old(Now()), k, force)
      ensures !ok ==> metas == old(metas) && manifests == old(manifests)
      ensures !ok && disk != old(disk) ==> Passes(old(Now()), k, force) && Unpack(old(disk), k.payload).1 != OK
    {
      hide Extract, Load, UnlinkAll, Missing, AllSafe, DepList.Parse, DepList.Met, DepList.Hits;
      if !k.unpacks { return false; }
      if k.meta == None { return false; }
      var m := k.meta.value;
      var already := m.name in metas;
      if already && !force { return false; }
      if !k.checksumsOk { return false; }
      if !force {
        var clash := DepList.CheckConflicts(m.conflicts, DepList.VersionsOf(metas));
        if clash { return false; }
      }
      if !force && m.depends != [] {
        var deps := DepList.ParseDependencies(m.depends);
        var satisfied := DepList.CheckDependenciesSatisfied(deps, DepList.VersionsOf(metas));
        if !satisfied { return false; }
      }
      DepList.NothingToParse();
      var safe := CheckManifest(ManifestLines(k.manifest));
      if !safe { return false; }
      assert Passes(old(Now()), k, force);
      if k.payload != None {
        var reader := new Reader(k.payload.value, disk, []);
        assert k.payload.value[0..] == k.payload.value;
        var code := reader.ExtractFd();
        disk := reader.fs;
        if code != OK { return false; }
      }
      ghost var unpacked := Now();
      metas := metas[m.name := m];
      var backup: Option<seq<bytes>> := None;
      if already && m.name in manifests { backup := Some(manifests[m.name]); }
      if k.manifest != None { manifests := manifests[m.name := k.manifest.value]; }
      if backup != None {
        RemoveOrphanedFiles(backup.value, ManifestLines(k.manifest));
      } else {
        NothingUnlinked(disk);
      }
      assert Now() == Commit(unpacked, k);
      return true;
    }

    // remove_pkg
    method RemovePkg(name: bytes) returns (ok: bool)
      modifies this
      ensures (Now(), ok) == Remove(old(Now()), name)
    {
      hide SafeRelpath, Target;
      if name !in metas { return false; }
      NothingUnlinked(disk);
      if name in manifests {
        var lines := manifests[name];
        for i := 0 to |lines|
          invariant metas == old(metas) && manifests == old(manifests) && disk == UnlinkAll(old(disk), Load(lines[..i]))
        {
          assert lines[..i + 1][..i] == lines[..i];
          if lines[i] == [] { continue; }
          var clean := StripSlashes(lines[i]);
          var safe := IsSafeRelpath(clean);
          if !safe { continue; }
          ghost var done := Load(lines[..i]);
          assert (done + [clean])[..|done|] == done;
          disk := UnlinkAt(disk, clean);
        }
        assert lines[..|lines|] == lines;
      }
      metas := metas - {name};
      manifests := manifests - {name};
      return true;
    }
  }

  lemma NothingUnlinked(fs: Fs)
    ensures UnlinkAll(fs, []) == fs
  {
  }

  /* ---- When an install succeeds ---- */

  // An install goes through exactly when every one of these holds: the package unpacks, has
  // metadata and right checksums; it is new and compatible with what is installed, or forced; the
  // lines of its manifest are safe; and its payload, if any, unpacks. Then its metadata and
  // manifest are recorded, and otherwise the database is as before.
  lemma InstallExactly(s: State, k: Kpkg, force: bool)
    ensures var (t, ok) := Install(s, k, force);
      (ok <==>
        k.unpacks && k.meta.Some? && k.checksumsOk && (force || k.meta.value.name !in s.metas) &&
        (force ||
          ((forall r | r in DepList.Parse(k.meta.value.conflicts) ::
              !(r.name in s.metas && DepsVersion.Satisfies(s.metas[r.name].version, r.op, r.version))) &&
           (forall r | r in DepList.Parse(k.meta.value.depends) ::
              if r.name in s.metas then DepsVersion.Satisfies(s.metas[r.name].version, r.op, r.version)
              else r.name == [0x67, 0x6C, 0x69, 0x62, 0x63] || r.name == [0x6B, 0x70, 0x6D]))) &&
        (k.manifest.Some? ==>
          forall line | line in k.manifest.value :: line == [] || SafeRelpath(StripSlashes(line))) &&
        (k.payload.Some? ==> Extract(k.payload.value, s.disk, [], 0).1 == OK)) &&
      (if ok then
         t.metas == s.metas[k.meta.value.name := k.meta.value] &&
         t.manifests ==
           if k.manifest == None then s.manifests else s.manifests[k.meta.value.name := k.manifest.value]
       else t.metas == s.metas && t.manifests == s.manifests)
  {
    hide Extract, DepList.Parse, DepsVersion.Satisfies, SafeRelpath, StripSlashes, Load, Missing, UnlinkAll;
    SameRules(s.metas);
  }

  lemma SameRules(db: DepList.Installed)
    ensures forall r: DepList.Rule ::
      (DepList.Hits(DepList.VersionsOf(db), r) <==>
        r.name in db && DepsVersion.Satisfies(db[r.name].version, r.op, r.version)) &&
      (DepList.Met(DepList.VersionsOf(db), r) <==>
        if r.name in db then DepsVersion.Satisfies(db[r.name].version, r.op, r.version)
        else r.name == [0x67, 0x6C, 0x69, 0x62, 0x63] || r.name == [0x6B, 0x70, 0x6D])
  {
    hide DepsVersion.Satisfies;
  }

  // A package with a rule that hits an installed one is refused, and nothing changes.
  lemma ConflictRefused(s: State, k: Kpkg, r: DepList.Rule)
    requires k.meta.Some? && r in DepList.Parse(k.meta.value.conflicts)
    requires r.name in s.metas && DepsVersion.Satisfies(s.metas[r.name].version, r.op, r.version)
    ensures Install(s, k, false) == (s, false)
  {
    hide Extract, DepList.Parse, DepsVersion.Satisfies, SafeRelpath, StripSlashes, Load, Missing, UnlinkAll;
    SameRules(s.metas);
  }
}
