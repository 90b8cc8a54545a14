/** Recursive installation of a package and its dependencies
    (install_repo_pkg_recursive in pkg/kratos-pkg.c). */
module Resolve {
  import opened Bytes
  import DepList
  import Repo

  const MAX_DEPTH := 20

  // The synchronised repositories, and which download-and-install attempts go through, given
  // the package and the installs done before it.
  datatype Env = Env(repos: seq<Repo.Repository>, works: (bytes, seq<bytes>) -> bool)

  // The installed names, and the installs done so far in order.
  datatype State = State(db: set<bytes>, log: seq<bytes>)

  // Packages the OS build compiles into the system.
  predicate BaseProvided(name: bytes)
  {
    name in [
      [0x67, 0x6C, 0x69, 0x62, 0x63],                                                     // glibc
      [0x78, 0x7A],                                                                       // xz
      [0x7A, 0x6C, 0x69, 0x62],                                                           // zlib
      [0x7A, 0x73, 0x74, 0x64],                                                           // zstd
      [0x62, 0x7A, 0x69, 0x70, 0x32],                                                     // bzip2
      [0x6C, 0x69, 0x6E, 0x75, 0x78, 0x2D, 0x68, 0x65, 0x61, 0x64, 0x65, 0x72, 0x73],     // linux-headers
      [0x6B, 0x6D, 0x6F, 0x64],                                                           // kmod
      [0x66, 0x69, 0x6C, 0x65],                                                           // file
      [0x6D, 0x62, 0x65, 0x64, 0x74, 0x6C, 0x73]                                          // mbedtls
    ]
  }

  function Lookup(repos: seq<Repo.Repository>, name: bytes): Option<Repo.Pkg>
  {
    match Repo.Pick(Repo.Offers(repos, name)) case None => None case Some(o) => Some(o.pkg)
  }

  function Names(rules: seq<DepList.Rule>): (r: seq<bytes>)
    ensures |r| == |rules| && forall i | 0 <= i < |r| :: r[i] == rules[i].name
  {
    if rules == [] then [] else [rules[0].name] + Names(rules[1..])
  }

  // The names a package of the index depends on.
  function Deps(repos: seq<Repo.Repository>, name: bytes): seq<bytes>
  {
    match Lookup(repos, name) case None => [] case Some(p) => Names(DepList.Parse(p.depends))
  }

  predicate Indexed(repos: seq<Repo.Repository>, name: bytes) { Lookup(repos, name).Some? }

  function Resolve(env: Env, s: State, name: bytes, force: bool, depth: nat): (r: (State, bool))
    decreases if depth > MAX_DEPTH then 0 else MAX_DEPTH + 1 - depth, 0
  {
    if depth > MAX_DEPTH then (s, false)
    else if name in s.db && !force then (s, true)
    else if !Indexed(env.repos, name) then (s, BaseProvided(name))
    else
      var (t, ok) := ResolveAll(env, s, Deps(env.repos, name), depth + 1);
      if ok && env.works(name, t.log) then (State(t.db + {name}, t.log + [name]), true) else (t, false)
  }

  function ResolveAll(env: Env, s: State, names: seq<bytes>, depth: nat): (r: (State, bool))
    decreases if depth > MAX_DEPTH then 0 else MAX_DEPTH + 1 - depth, 1, |names|
  {
    if names == [] then (s, true)
    else
      var (t, ok) := Resolve(env, s, names[0], false, depth);
      if ok then ResolveAll(env, t, names[1..], depth) else (t, false)
  }

  /* ---- What every call keeps ---- */

  // A dependency is taken care of when it is installed or comes with the system.
  predicate Provided(repos: seq<Repo.Repository>, db: set<bytes>, name: bytes)
  {
    name in db || (!Indexed(repos, name) && BaseProvided(name))
  }

  predicate AllProvided(repos: seq<Repo.Repository>, db: set<bytes>, names: seq<bytes>)
  {
    forall d | d in names :: Provided(repos, db, d)
  }

  // The database is closed under the dependencies the index records.
  predicate Closed(repos: seq<Repo.Repository>, db: set<bytes>)
  {
    forall n | n in db :: AllProvided(repos, db, Deps(repos, n))
  }

  function Elements(names: seq<bytes>): (r: set<bytes>)
    ensures forall n :: n in r <==> n in names
  {
    if names == [] then {} else Elements(names[..|names| - 1]) + {names[|names| - 1]}
  }

  // Every install of the log found its dependencies already taken care of.
  predicate Ordered(repos: seq<Repo.Repository>, db: set<bytes>, log: seq<bytes>)
  {
    log == [] ||
    (Ordered(repos, db, log[..|log| - 1]) &&
     AllProvided(repos, db + Elements(log[..|log| - 1]), Deps(repos, log[|log| - 1])))
  }

  // No install of the log repeats a package that was there before it.
  predicate Fresh(db: set<bytes>, log: seq<bytes>)
  {
    log == [] || (Fresh(db, log[..|log| - 1]) && log[|log| - 1] !in db + Elements(log[..|log| - 1]))
  }

  lemma {:induction false} Concatenate(repos: seq<Repo.Repository>, db: set<bytes>, a: seq<bytes>, b: seq<bytes>)
    ensures Ordered(repos, db, a) && Ordered(repos, db + Elements(a), b) ==> Ordered(repos, db, a + b)
    ensures Fresh(db, a) && Fresh(db + Elements(a), b) ==> Fresh(db, a + b)
  {
    hide AllProvided;
    if b == [] {
      assert a + b == a;
    } else {
      var n := |b| - 1;
      assert (a + b)[..|a + b| - 1] == a + b[..n];
      assert db + Elements(a + b[..n]) == db + Elements(a) + Elements(b[..n]);
      Concatenate(repos, db, a, b[..n]);
    }
  }

  // Each install of an ordered, fresh log seen at its own position.
  lemma {:induction false} At(repos: seq<Repo.Repository>, db: set<bytes>, log: seq<bytes>, i: nat)
    requires i < |log|
    ensures Ordered(repos, db, log) ==> AllProvided(repos, db + Elements(log[..i]), Deps(repos, log[i]))
    ensures Fresh(db, log) ==> log[i] !in db + Elements(log[..i])
  {
    hide AllProvided;
    if i < |log| - 1 {
      assert log[..|log| - 1][..i] == log[..i];
      At(repos, db, log[..|log| - 1], i);
    }
  }

  // What a call does from s to t: it appends installs to the log and to the database, each
  // after its dependencies.
  ghost predicate Extends(repos: seq<Repo.Repository>, s: State, t: State, done: seq<bytes>)
  {
    t.log == s.log + done && t.db == s.db + Elements(done) && Ordered(repos, s.db, done)
  }

  // Every call, whether it succeeds or fails, only adds installs, each placed after its
  // dependencies and, unless forced, none of a package already there. A successful call leaves
  // the package taken care of and installs it last.
  lemma {:induction false} CallExtends(env: Env, s: State, name: bytes, force: bool, depth: nat)
    returns (done: seq<bytes>)
    ensures var (t, ok) := Resolve(env, s, name, force, depth);
      Extends(env.repos, s, t, done) && (!force ==> Fresh(s.db, done)) &&
      (ok ==> Provided(env.repos, t.db, name) && (done != [] ==> done[|done| - 1] == name && Indexed(env.repos, name)))
    decreases if depth > MAX_DEPTH then 0 else MAX_DEPTH + 1 - depth, 0
  {
    hide Indexed, Deps, BaseProvided, Fresh, AllProvided, Extends;
    done := [];
    NothingDone(env.repos, s);
    if depth <= MAX_DEPTH && (name !in s.db || force) && Indexed(env.repos, name) {
      var (t, ok) := ResolveAll(env, s, Deps(env.repos, name), depth + 1);
      done := AllExtend(env, s, Deps(env.repos, name), depth + 1, name);
      if ok && env.works(name, t.log) {
        OneMoreDone(env.repos, s, t, done, name);
        done := done + [name];
      }
    }
  }

  lemma NothingDone(repos: seq<Repo.Repository>, s: State)
    ensures Extends(repos, s, s, []) && Fresh(s.db, [])
  {
    Empty(repos, s.db);
  }

  lemma OneMoreDone(repos: seq<Repo.Repository>, s: State, t: State, done: seq<bytes>, name: bytes)
    requires Extends(repos, s, t, done) && AllProvided(repos, t.db, Deps(repos, name)) && name !in done
    ensures Extends(repos, s, State(t.db + {name}, t.log + [name]), done + [name])
    ensures Fresh(s.db, done) && name !in s.db ==> Fresh(s.db, done + [name])
  {
    hide AllProvided, Deps, Ordered, Fresh;
    AppendOne(repos, s.db, done, name);
  }

  lemma AppendOne(repos: seq<Repo.Repository>, db: set<bytes>, log: seq<bytes>, name: bytes)
    ensures Ordered(repos, db, log + [name]) <==>
      Ordered(repos, db, log) && AllProvided(repos, db + Elements(log), Deps(repos, name))
    ensures Fresh(db, log + [name]) <==> Fresh(db, log) && name !in db + Elements(log)
  {
    hide AllProvided;
    assert (log + [name])[..|log|] == log;
  }

  // Dependencies of one parent, taken in turn: when they all go through, the parent itself was
  // not installed on the way.
  lemma {:induction false} AllExtend(env: Env, s: State, names: seq<bytes>, depth: nat, parent: bytes)
    returns (done: seq<bytes>)
    requires forall d | d in names :: d in Deps(env.repos, parent)
    ensures var (t, ok) := ResolveAll(env, s, names, depth);
      Extends(env.repos, s, t, done) && Fresh(s.db, done) &&
      (ok ==> AllProvided(env.repos, t.db, names) && parent !in done)
    decreases if depth > MAX_DEPTH then 0 else MAX_DEPTH + 1 - depth, 1, |names|
  {
    hide Indexed, Deps, BaseProvided, Ordered, Fresh;
    if names == [] {
      done := [];
      Empty(env.repos, s.db);
    } else {
      done := CallExtends(env, s, names[0], false, depth);
      var (t, ok) := Resolve(env, s, names[0], false, depth);
      if ok {
        if parent in done { NotOnTheWay(env.repos, s.db, done, parent); }
        var more := AllExtend(env, t, names[1..], depth, parent);
        Concatenate(env.repos, s.db, done, more);
        done := done + more;
      }
    }
  }

  lemma Empty(repos: seq<Repo.Repository>, db: set<bytes>)
    ensures Ordered(repos, db, []) && Fresh(db, [])
  {
  }

  // A parent cannot be installed in the course of installing one of its own dependencies.
  lemma NotOnTheWay(repos: seq<Repo.Repository>, db: set<bytes>, done: seq<bytes>, parent: bytes)
    requires done != [] && Ordered(repos, db, done) && Fresh(db, done)
    requires Indexed(repos, done[|done| - 1]) && done[|done| - 1] in Deps(repos, parent)
    ensures parent !in done
  {
    hide Ordered, Fresh, Indexed, Deps, BaseProvided;
    var last := done[|done| - 1];
    forall i | 0 <= i < |done| ensures done[i] != parent {
      At(repos, db, done, i);
      At(repos, db, done, |done| - 1);
      assert forall n | n in done[..i] :: n in done[..|done| - 1];
    }
  }

  // Closure under index dependencies survives every call, successful or not.
  lemma StaysClosed(env: Env, s: State, name: bytes, force: bool, depth: nat)
    requires Closed(env.repos, s.db)
    ensures Closed(env.repos, Resolve(env, s, name, force, depth).0.db)
  {
    hide Resolve, Deps, BaseProvided, Indexed, Ordered;
    var done := CallExtends(env, s, name, force, depth);
    var t := Resolve(env, s, name, force, depth).0;
    forall n | n in t.db ensures AllProvided(env.repos, t.db, Deps(env.repos, n)) {
      if n in done {
        var i :| 0 <= i < |done| && done[i] == n;
        At(env.repos, s.db, done, i);
        assert forall m | m in done[..i] :: m in done;
      }
    }
  }

  /* ---- Cycles ---- */

  // A set of indexed packages none of which is installed and each of which needs another of
  // them. A dependency cycle among packages not yet installed is one.
  predicate Unfounded(repos: seq<Repo.Repository>, db: set<bytes>, names: set<bytes>)
  {
    names !! db && forall n | n in names :: Indexed(repos, n) && exists d :: d in Deps(repos, n) && d in names
  }

  predicate IsCycle(repos: seq<Repo.Repository>, c: seq<bytes>)
  {
    c != [] && forall i | 0 <= i < |c| :: Indexed(repos, c[i]) && Successor(c, i) in Deps(repos, c[i])
  }

  function Successor(c: seq<bytes>, i: nat): (r: bytes)
    requires i < |c|
    ensures r in c
  {
    if i + 1 == |c| then c[0] else c[i + 1]
  }

  // No call ever installs a member of such a set, and calls on its members fail.
  lemma {:induction false} UnfoundedFails(env: Env, s: State, name: bytes, force: bool, depth: nat, names: set<bytes>)
    requires Unfounded(env.repos, s.db, names)
    ensures var (t, ok) := Resolve(env, s, name, force, depth); names !! t.db && (ok ==> name !in names)
    decreases if depth > MAX_DEPTH then 0 else MAX_DEPTH + 1 - depth, 0
  {
    hide Indexed, Deps, BaseProvided;
    if depth <= MAX_DEPTH && (name !in s.db || force) && Indexed(env.repos, name) {
      UnfoundedAll(env, s, Deps(env.repos, name), depth + 1, names);
    }
  }

  lemma {:induction false} UnfoundedAll(env: Env, s: State, deps: seq<bytes>, depth: nat, names: set<bytes>)
    requires Unfounded(env.repos, s.db, names)
    ensures var (t, ok) := ResolveAll(env, s, deps, depth);
      names !! t.db && (ok ==> forall d | d in deps :: d !in names)
    decreases if depth > MAX_DEPTH then 0 else MAX_DEPTH + 1 - depth, 1, |deps|
  {
    hide Indexed, Deps, BaseProvided;
    if deps != [] {
      UnfoundedFails(env, s, deps[0], false, depth, names);
      var (t, ok) := Resolve(env, s, deps[0], false, depth);
      if ok { UnfoundedAll(env, t, deps[1..], depth, names); }
    }
  }

  lemma CycleIsUnfounded(repos: seq<Repo.Repository>, db: set<bytes>, c: seq<bytes>)
    requires IsCycle(repos, c) && forall n | n in c :: n !in db
    ensures Unfounded(repos, db, Elements(c))
  {
    hide Deps, Indexed, Successor, Elements;
    forall n | n in Elements(c) ensures Indexed(repos, n) && exists d :: d in Deps(repos, n) && d in Elements(c) {
      assert n in c;
      var i :| 0 <= i < |c| && c[i] == n;
      assert Successor(c, i) in Elements(c);
    }
  }

  // Installing any member of a dependency cycle none of which is installed fails, whatever the
  // outcome of the installs.
  lemma CycleFails(env: Env, s: State, c: seq<bytes>, k: nat, force: bool, depth: nat)
    requires IsCycle(env.repos, c) && k < |c| && forall n | n in c :: n !in s.db
    ensures !Resolve(env, s, c[k], force, depth).1
  {
    hide Resolve, Unfounded, IsCycle, Elements;
    CycleIsUnfounded(env.repos, s.db, c);
    UnfoundedFails(env, s, c[k], force, depth, Elements(c));
    assert c[k] in Elements(c);
  }

  /* ---- Long chains ---- */

  // Packages each of which needs just the next one.
  predicate Line(repos: seq<Repo.Repository>, names: seq<bytes>)
  {
    names != [] && (forall i | 0 <= i < |names| :: Indexed(repos, names[i])) &&
    (forall i | 0 <= i < |names| - 1 :: Deps(repos, names[i]) == [names[i + 1]]) &&
    Deps(repos, names[|names| - 1]) == []
  }

  // When none is there yet and every install would go through, such a line is installed exactly
  // when it has at most 21 packages.
  lemma LineExactly(env: Env, s: State, names: seq<bytes>, force: bool)
    requires Line(env.repos, names) && forall n | n in names :: n !in s.db
    requires forall n, log :: env.works(n, log)
    ensures Resolve(env, s, names[0], force, 0).1 <==> |names| <= 21
  {
    LineFrom(env, s, names, force, 0);
  }

  lemma {:induction false} LineFrom(env: Env, s: State, names: seq<bytes>, force: bool, depth: nat)
    requires Line(env.repos, names) && forall n | n in names :: n !in s.db
    requires forall n, log :: env.works(n, log)
    ensures Resolve(env, s, names[0], force, depth).1 <==> depth + |names| <= 21
    decreases |names|
  {
    hide Deps, Indexed;
    assert names[0] in names;
    if depth <= 20 && |names| > 1 {
      var rest := names[1..];
      assert forall n | n in rest :: n in names;
      forall i | 0 <= i < |rest| - 1 ensures Deps(env.repos, rest[i]) == [rest[i + 1]] {
        assert rest[i] == names[i + 1] && rest[i + 1] == names[i + 2];
      }
      LineFrom(env, s, rest, false, depth + 1);
      assert Deps(env.repos, names[0]) == [names[1]] && rest[0] == names[1];
      OneName(env, s, names[1], depth + 1);
    } else if depth <= 20 {
      assert Deps(env.repos, names[0]) == [];
    }
  }

  lemma OneName(env: Env, s: State, name: bytes, depth: nat)
    ensures ResolveAll(env, s, [name], depth) == Resolve(env, s, name, false, depth)
  {
    hide Resolve;
    assert [name][1..] == [];
  }

  /* ---- Packages the index does not have ---- */

  predicate PartOfSystem(name: bytes)
  {
    name == AsciiText("glibc") || name == AsciiText("xz") || name == AsciiText("zlib") || name == AsciiText("zstd") ||
    name == AsciiText("bzip2") || name == AsciiText("linux-headers") || name == AsciiText("kmod") ||
    name == AsciiText("file") || name == AsciiText("mbedtls")
  }

  // A package that no repository offers counts as installed exactly when it is part of the system.
  lemma UnofferedExactly(env: Env, s: State, name: bytes, force: bool, depth: nat)
    requires depth <= 20 && (name !in s.db || force) && forall i, j :: !Repo.Offered(env.repos, name, i, j)
    ensures Resolve(env, s, name, force, depth) == (s, PartOfSystem(name))
  {
    hide Repo.Pick, Repo.Offers, BaseProvided, PartOfSystem;
    var _, _ := Repo.PickIsChosen(env.repos, name);
    SystemNames(name);
  }

  lemma SystemNames(name: bytes)
    ensures BaseProvided(name) <==> PartOfSystem(name)
  {
    hide AsciiText;
    ShortNames();
    LongNames();
  }

  lemma ShortNames()
    ensures AsciiText("glibc") == [0x67, 0x6C, 0x69, 0x62, 0x63] && AsciiText("xz") == [0x78, 0x7A]
    ensures AsciiText("zlib") == [0x7A, 0x6C, 0x69, 0x62] && AsciiText("zstd") == [0x7A, 0x73, 0x74, 0x64]
    ensures AsciiText("kmod") == [0x6B, 0x6D, 0x6F, 0x64] && AsciiText("file") == [0x66, 0x69, 0x6C, 0x65]
  {
  }

  lemma LongNames()
    ensures AsciiText("bzip2") == [0x62, 0x7A, 0x69, 0x70, 0x32]
    ensures AsciiText("mbedtls") == [0x6D, 0x62, 0x65, 0x64, 0x74, 0x6C, 0x73]
    ensures AsciiText("linux-headers") ==
      [0x6C, 0x69, 0x6E, 0x75, 0x78, 0x2D, 0x68, 0x65, 0x61, 0x64, 0x65, 0x72, 0x73]
  {
  }

  /* ---- Success ---- */

  // A chain of dependencies whose inner packages are not installed.
  predicate Chain(repos: seq<Repo.Repository>, db: set<bytes>, p: seq<bytes>)
  {
    p != [] && forall i | 0 <= i < |p| - 1 :: (i > 0 ==> p[i] !in db) && p[i + 1] in Deps(repos, p[i])
  }

  // Every chain from name has at most edges steps and reaches only packages that the index or
  // the system has.
  ghost predicate Reachable(repos: seq<Repo.Repository>, db: set<bytes>, name: bytes, edges: int)
  {
    forall p | Chain(repos, db, p) && p[0] == name ::
      |p| - 1 <= edges && (Indexed(repos, p[|p| - 1]) || BaseProvided(p[|p| - 1]) || (|p| > 1 && p[|p| - 1] in db))
  }

  // When every install goes through, everything needed can be found and no chain is too long,
  // the call succeeds.
  lemma {:induction false} ReachableSucceeds(env: Env, s: State, name: bytes, force: bool, depth: nat)
    requires forall n, log :: env.works(n, log)
    requires (name in s.db && !force && depth <= 20) || Reachable(env.repos, s.db, name, 20 - depth)
    ensures Resolve(env, s, name, force, depth).1
    decreases if depth > MAX_DEPTH then 0 else MAX_DEPTH + 1 - depth, 0
  {
    hide Deps, BaseProvided, Indexed;
    if !(name in s.db && !force && depth <= MAX_DEPTH) {
      assert Chain(env.repos, s.db, [name]);
      assert [name][|[name]| - 1] == name;
      if Indexed(env.repos, name) {
        forall d | d in Deps(env.repos, name) ensures Ready(env.repos, s.db, d, depth + 1) {
          NextReady(env.repos, s.db, name, d, depth);
        }
        AllSucceed(env, s, Deps(env.repos, name), depth + 1);
      }
    }
  }

  ghost predicate Ready(repos: seq<Repo.Repository>, db: set<bytes>, name: bytes, depth: nat)
  {
    (name in db && depth <= MAX_DEPTH) || Reachable(repos, db, name, MAX_DEPTH - depth)
  }

  lemma NextReady(repos: seq<Repo.Repository>, db: set<bytes>, name: bytes, d: bytes, depth: nat)
    requires Reachable(repos, db, name, MAX_DEPTH - depth) && d in Deps(repos, name)
    ensures Ready(repos, db, d, depth + 1)
  {
    hide Deps, BaseProvided, Indexed;
    assert Chain(repos, db, [name, d]);
    if d !in db {
      forall p | Chain(repos, db, p) && p[0] == d
        ensures |p| - 1 <= MAX_DEPTH - depth - 1 &&
          (Indexed(repos, p[|p| - 1]) || BaseProvided(p[|p| - 1]) || (|p| > 1 && p[|p| - 1] in db))
      {
        var q := [name] + p;
        assert Chain(repos, db, q);
        assert q[0] == name && q[|q| - 1] == p[|p| - 1];
      }
    }
  }

  lemma {:induction false} AllSucceed(env: Env, s: State, names: seq<bytes>, depth: nat)
    requires forall n, log :: env.works(n, log)
    requires forall d | d in names :: Ready(env.repos, s.db, d, depth)
    ensures ResolveAll(env, s, names, depth).1
    decreases if depth > MAX_DEPTH then 0 else MAX_DEPTH + 1 - depth, 1, |names|
  {
    hide Deps, BaseProvided, Indexed, Reachable;
    if names != [] {
      assert Ready(env.repos, s.db, names[0], depth);
      ReachableSucceeds(env, s, names[0], false, depth);
      var t := Resolve(env, s, names[0], false, depth).0;
      var done := CallExtends(env, s, names[0], false, depth);
      forall d | d in names[1..] ensures Ready(env.repos, t.db, d, depth) {
        assert Ready(env.repos, s.db, d, depth);
        MoreInstalled(env.repos, s.db, t.db, d, depth);
      }
      AllSucceed(env, t, names[1..], depth);
    }
  }

  lemma MoreInstalled(repos: seq<Repo.Repository>, db: set<bytes>, more: set<bytes>, name: bytes, depth: nat)
    requires db <= more && Ready(repos, db, name, depth)
    ensures Ready(repos, more, name, depth)
  {
    hide Deps, BaseProvided, Indexed;
    if !(name in db && depth <= MAX_DEPTH) {
      forall p | Chain(repos, more, p) && p[0] == name
        ensures |p| - 1 <= MAX_DEPTH - depth &&
          (Indexed(repos, p[|p| - 1]) || BaseProvided(p[|p| - 1]) || (|p| > 1 && p[|p| - 1] in more))
      {
        assert Chain(repos, db, p);
      }
    }
  }

  /* ---- The recursion itself ---- */

  class Installer {
    const env: Env
    var db: set<bytes>
    var log: seq<bytes>

    constructor (env: Env, db: set<bytes>)
      ensures this.env == env && this.db == db && log == []
    {
      this.env, this.db, log := env, db, [];
    }

    // install_repo_pkg_recursive
    method InstallRecursive(name: bytes, force: bool, depth: nat) returns (status: int)
      modifies this
      ensures status == 0 || status == -1
      ensures (State(db, log), status == 0) == Resolve(env, State(old(db), old(log)), name, force, depth)
      decreases if depth > MAX_DEPTH then 0 else MAX_DEPTH + 1 - depth
    {
      hide Indexed, BaseProvided, Repo.Pick, Repo.Offers, DepList.Parse;
      if depth > MAX_DEPTH { return -1; }
      if name in db && !force { return 0; }
      var pkg := Repo.Find(env.repos, name);
      assert pkg == Lookup(env.repos, name);
      LookupIs(env.repos, name);
      if pkg == None {
        return if BaseProvided(name) then 0 else -1;
      }
      var rules := DepList.ParseDependencies(pkg.value.depends);
      ghost var start := State(db, log);
      ghost var names := Names(rules);
      for i := 0 to |rules|
        invariant ResolveAll(env, start, names, depth + 1) == ResolveAll(env, State(db, log), names[i..], depth + 1)
      {
        assert names[i..][0] == rules[i].name && names[i..][1..] == names[i + 1..];
        var ok := InstallRecursive(rules[i].name, false, depth + 1);
        if ok != 0 { return -1; }
      }
      if !env.works(name, log) { return -1; }
      db, log := db + {name}, log + [name];
      return 0;
    }
  }

  lemma LookupIs(repos: seq<Repo.Repository>, name: bytes)
    ensures Indexed(repos, name) <==> Lookup(repos, name).Some?
  {
  }
}
