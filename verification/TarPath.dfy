/** The lexical path checks of the archive reader (pkg/kratos-tar.c). */
module TarPath {
  import opened Bytes
  import opened CStrings

  const PATH_MAX := 4096
  const SLASH: bytes := [0x2F]
  const SLASHES: bytes := [0x2F, 0x5C]
  const DOT: bytes := [0x2E]
  const DOTDOT: bytes := [0x2E, 0x2E]

  /* ---- Entry paths ---- */

  // A path that stays below the directory it is relative to.
  predicate SafeRelpath(p: bytes)
  {
    p != [] && p[0] !in SLASHES &&
    p != DOTDOT && !(DOTDOT + SLASH <= p) && !Contains(p, SLASH + DOTDOT) && !Contains(p, [0x5C] + DOTDOT) &&
    (forall c | c in p :: c >= 32 || c == 0x09) &&
    |p| < PATH_MAX - 32
  }

  // kratos_is_safe_relpath
  method IsSafeRelpath(p: bytes) returns (ok: bool)
    ensures ok == SafeRelpath(p)
  {
    if p == [] { return false; }
    if p[0] == 0x2F || p[0] == 0x5C { return false; }
    if p == DOTDOT || DOTDOT + SLASH <= p || Contains(p, SLASH + DOTDOT + SLASH) ||
      Contains(p, SLASH + DOTDOT) || Contains(p, [0x5C] + DOTDOT)
    {
      LongerPattern(p);
      return false;
    }
    for i := 0 to |p|
      invariant forall c | c in p[..i] :: c >= 32 || c == 0x09
    {
      if p[i] < 32 && p[i] != 0x09 {
        assert p[i] in p;
        return false;
      }
      assert p[..i + 1] == p[..i] + [p[i]];
    }
    assert p[..|p|] == p;
    if |p| >= PATH_MAX - 32 { return false; }
    return true;
  }

  // "/../" occurs only where "/.." does.
  lemma LongerPattern(p: bytes)
    ensures Contains(p, SLASH + DOTDOT + SLASH) ==> Contains(p, SLASH + DOTDOT)
  {
    hide Find;
    match Find(p, SLASH + DOTDOT + SLASH) {
      case Some(i) =>
        assert SLASH + DOTDOT + SLASH == (SLASH + DOTDOT) + SLASH;
        AtAppend(p, |p|, i, SLASH + DOTDOT, SLASH);
      case None =>
    }
  }

  // An accepted path has no ".." component.
  lemma NoParentComponent(p: bytes)
    requires SafeRelpath(p)
    ensures DOTDOT !in Fields(p, SLASH)
  {
    hide Fields, SafeRelpath;
    forall f | f in Fields(p, SLASH) ensures f != DOTDOT {
      assert p[0..] == p;
      var i := FieldAt(p, 0, SLASH, f);
      if f == DOTDOT { ParentIsUnsafe(p, i); }
    }
  }

  lemma ParentIsUnsafe(p: bytes, i: nat)
    requires i + 2 <= |p| && p[i..i + 2] == DOTDOT
    requires i == 0 || p[i - 1] == 0x2F
    requires i + 2 == |p| || p[i + 2] == 0x2F
    ensures !SafeRelpath(p)
  {
    hide Find;
    if i == 0 {
      if |p| == 2 { assert p == p[..2]; } else { assert p[..3] == p[..2] + [p[2]]; }
    } else {
      assert p[i - 1..i - 1 + 3] == [p[i - 1]] + p[i..i + 2];
      assert At(p, |p|, i - 1, SLASH + DOTDOT);
    }
  }

  // Every field stands in the text between separators or at its ends.
  lemma {:induction false} FieldAt(s: bytes, from: nat, seps: bytes, f: bytes) returns (i: nat)
    requires from <= |s| && f in Fields(s[from..], seps)
    requires from == 0 || from == |s| || s[from - 1] in seps || s[from] in seps
    ensures i + |f| <= |s| && s[i..i + |f|] == f
    ensures i == 0 || s[i - 1] in seps
    ensures i + |f| == |s| || s[i + |f|] in seps
    decreases |s| - from
  {
    hide Fields;
    if from == |s| {
      FieldsOfOne(s[from..], seps);
      assert false;
    } else if s[from] in seps {
      SkipSeparator(s, seps, from);
      i := FieldAt(s, from + 1, seps, f);
    } else {
      var k := FieldEnd(s[from..], seps);
      assert forall j | from <= j < from + k :: s[j] == s[from..][j - from];
      TakeField(s, seps, from, from + k);
      if f == s[from..from + k] {
        i := from;
      } else {
        i := FieldAt(s, from + k, seps, f);
      }
    }
  }

  // A directory's entry carries a final slash, which changes nothing.
  lemma SlashIsSafe(p: bytes)
    requires |p| < PATH_MAX - 33
    ensures SafeRelpath(p + SLASH) <==> SafeRelpath(p)
  {
    hide Find;
    NoNewMatch(p, SLASH + DOTDOT);
    NoNewMatch(p, [0x5C] + DOTDOT);
    DotsPrefix(p);
    assert (p + SLASH)[0] == if p == [] then 0x2F else p[0];
    if SafeRelpath(p + SLASH) {
      OldMatch(p, SLASH + DOTDOT);
      OldMatch(p, [0x5C] + DOTDOT);
      assert forall c | c in p :: c in p + SLASH;
    }
  }

  lemma OldMatch(p: bytes, pattern: bytes)
    ensures Contains(p, pattern) ==> Contains(p + SLASH, pattern)
  {
    hide Find;
    match Find(p, pattern) {
      case Some(i) =>
        assert (p + SLASH)[i..i + |pattern|] == p[i..i + |pattern|];
        assert At(p + SLASH, |p| + 1, i, pattern);
      case None =>
    }
  }

  lemma DotsPrefix(p: bytes)
    ensures DOTDOT + SLASH <= p + SLASH <==> p == DOTDOT || DOTDOT + SLASH <= p
  {
    if DOTDOT + SLASH <= p + SLASH {
      if |p| == 2 { assert p == (p + SLASH)[..2] == DOTDOT; } else { assert p[..3] == (p + SLASH)[..3]; }
    }
  }

  lemma NoNewMatch(p: bytes, pattern: bytes)
    requires pattern != [] && pattern[|pattern| - 1] != 0x2F
    ensures Contains(p + SLASH, pattern) ==> Contains(p, pattern)
  {
    hide Find;
    var s, n := p + SLASH, |pattern|;
    match Find(s, pattern) {
      case Some(i) =>
        assert s[i..i + n][n - 1] == s[i + n - 1];
        assert s[i..i + n] == p[i..i + n];
        assert At(p, |p|, i, pattern);
      case None =>
    }
  }

  /* ---- Symbolic link targets ---- */

  // The directory names a path walks through, "." dropped.
  function Names(fields: seq<bytes>): seq<bytes>
  {
    if fields == [] then []
    else
      var init := Names(fields[..|fields| - 1]);
      if fields[|fields| - 1] == DOT then init else init + [fields[|fields| - 1]]
  }

  // Where an entry lives: the names of the directories above it.
  function Directory(rel: bytes): seq<bytes>
  {
    Names(Fields(Parent(Prefix(rel, PATH_MAX - 1)), SLASH))
  }

  // Resolving a relative path component by component from a directory, given by the names on
  // the way to it from the root. There is no result when a ".." steps above the root.
  function Resolve(place: seq<bytes>, fields: seq<bytes>): Option<seq<bytes>>
  {
    if fields == [] then Some(place)
    else
      match Resolve(place, fields[..|fields| - 1])
      case None => None
      case Some(at) =>
        var f := fields[|fields| - 1];
        if f == DOTDOT then if at == [] then None else Some(at[..|at| - 1])
        else if f == DOT then Some(at)
        else Some(at + [f])
  }

  // A link target the reader accepts for an entry.
  predicate SafeTarget(rel: bytes, link: bytes)
  {
    link != [] && link[0] !in SLASHES && (forall c | c in link :: c >= 32) &&
    Resolve(Directory(rel), Fields(Prefix(link, PATH_MAX - 1), SLASHES)).Some?
  }

  // is_safe_symlink_target, which only counts how deep it is.
  method IsSafeSymlinkTarget(rel: bytes, link: bytes) returns (ok: bool)
    ensures ok <==> SafeTarget(rel, link)
  {
    hide Fields, Parent;
    if link == [] { return false; }
    if link[0] == 0x2F || link[0] == 0x5C { return false; }
    for i := 0 to |link|
      invariant forall c | c in link[..i] :: c >= 32
    {
      if link[i] < 32 {
        assert link[i] in link;
        return false;
      }
      assert link[..i + 1] == link[..i] + [link[i]];
    }
    assert link[..|link|] == link;

    var depth := DirectoryDepth(rel);
    ok := TraceTarget(Prefix(link, PATH_MAX - 1), depth, Directory(rel));
  }

  // The first loop: how deep the entry's directory is.
  method DirectoryDepth(rel: bytes) returns (depth: nat)
    ensures depth == |Directory(rel)|
  {
    hide Fields, Parent;
    var dir := Parent(Prefix(rel, PATH_MAX - 1));
    ghost var dirs := Fields(dir, SLASH);
    depth := 0;
    ghost var n: nat := 0;
    var tok, pos := NextToken(dir, SLASH, 0);
    assert dir[0..] == dir;
    while tok != None
      invariant pos <= |dir| && n <= |dirs| && depth == |Names(dirs[..n])|
      invariant dirs[n..] == if tok == None then [] else [tok.value] + Fields(dir[pos..], SLASH)
      decreases |dirs| - n
    {
      assert dirs[n] == tok.value && dirs[..n + 1][..n] == dirs[..n] && dirs[n..][1..] == dirs[n + 1..];
      if tok.value != DOT { depth := depth + 1; }
      n := n + 1;
      tok, pos := NextToken(dir, SLASH, pos);
    }
    assert dirs[..n] == dirs;
  }

  // The second loop: following the target down and up from that depth.
  method TraceTarget(copy: bytes, start: nat, ghost place: seq<bytes>) returns (ok: bool)
    requires start == |place|
    ensures ok <==> Resolve(place, Fields(copy, SLASHES)).Some?
  {
    hide Fields;
    var depth: int := start;
    ghost var fields := Fields(copy, SLASHES);
    ghost var n: nat := 0;
    var tok, pos := NextToken(copy, SLASHES, 0);
    assert copy[0..] == copy;
    while tok != None
      invariant pos <= |copy| && n <= |fields|
      invariant fields[n..] == if tok == None then [] else [tok.value] + Fields(copy[pos..], SLASHES)
      invariant Resolve(place, fields[..n]).Some? && depth == |Resolve(place, fields[..n]).value|
      decreases |fields| - n
    {
      assert fields[n] == tok.value && fields[..n + 1][..n] == fields[..n] && fields[n..][1..] == fields[n + 1..];
      n := n + 1;
      if tok.value == DOTDOT {
        depth := depth - 1;
        if depth < 0 {
          StaysOut(place, fields, n);
          return false;
        }
      } else if tok.value != DOT {
        depth := depth + 1;
      }
      tok, pos := NextToken(copy, SLASHES, pos);
    }
    assert fields[..n] == fields;
    return depth >= 0;
  }

  // Once above the root, nothing later brings the resolution back.
  lemma {:induction false} StaysOut(place: seq<bytes>, fields: seq<bytes>, n: nat)
    requires n <= |fields| && Resolve(place, fields[..n]).None?
    ensures Resolve(place, fields).None?
    decreases |fields|
  {
    if n == |fields| {
      assert fields[..n] == fields;
    } else {
      assert fields[..|fields| - 1][..n] == fields[..n];
      StaysOut(place, fields[..|fields| - 1], n);
    }
  }

  // A target is refused for leaving the root exactly when some prefix of its components does.
  lemma ResolveAllPrefixes(place: seq<bytes>, fields: seq<bytes>)
    ensures Resolve(place, fields).Some? <==> forall n | 0 <= n <= |fields| :: Resolve(place, fields[..n]).Some?
  {
    assert fields[..|fields|] == fields;
    forall n | 0 <= n <= |fields| && Resolve(place, fields[..n]).None? ensures Resolve(place, fields).None? {
      StaysOut(place, fields, n);
    }
  }

  // Without backslashes the components are the ordinary ones.
  lemma {:induction false} OrdinaryComponents(link: bytes)
    requires 0x5C !in link
    ensures Fields(link, SLASHES) == Fields(link, SLASH)
    decreases |link|
  {
    if link != [] {
      var k := FieldEnd(link, SLASH);
      if link[0] != 0x2F { FieldEndIs(link, SLASHES, k); }
      OrdinaryComponents(if link[0] == 0x2F then link[1..] else link[k..]);
    }
  }

  // A path without ".." leads down through its names.
  lemma {:induction false} ResolveNames(fields: seq<bytes>)
    requires DOTDOT !in fields
    ensures Resolve([], fields) == Some(Names(fields))
  {
    if fields != [] { ResolveNames(fields[..|fields| - 1]); }
  }

  // A path is what stands before its last slash and what stands after it.
  lemma {:induction false} Halves(rel: bytes)
    ensures 0x2F !in Base(rel)
    ensures if 0x2F in rel then rel == Parent(rel) + SLASH + Base(rel) else Parent(rel) == [] && Base(rel) == rel
  {
    if rel != [] && rel[|rel| - 1] != 0x2F {
      var n := |rel| - 1;
      assert rel == rel[..n] + [rel[n]];
      Halves(rel[..n]);
    }
  }

  // For an accepted entry path and a relative target of ordinary characters: the entry's directory
  // is where its own path leads from the root, and the target is accepted exactly when following
  // it from there, component by component, never steps above the root.
  lemma TargetStaysInside(rel: bytes, link: bytes)
    requires SafeRelpath(rel) && link != [] && link[0] != 0x2F && 0x5C !in link && (forall c | c in link :: c >= 32)
    requires |link| < PATH_MAX
    ensures Resolve([], Fields(Parent(rel), SLASH)) == Some(Directory(rel))
    ensures var fields := Fields(link, SLASH);
      SafeTarget(rel, link) <==> forall n | 0 <= n <= |fields| :: Resolve(Directory(rel), fields[..n]).Some?
  {
    hide Fields, Parent, Base, Find;
    var up := Fields(Parent(rel), SLASH);
    NoParentComponent(rel);
    Halves(rel);
    if 0x2F in rel {
      FieldsJoin(Parent(rel), 0x2F, Base(rel), SLASH);
      assert forall f | f in up :: f in up + Fields(Base(rel), SLASH);
    } else {
      FieldsOfOne([], SLASH);
    }
    ResolveNames(up);
    OrdinaryComponents(link);
    assert link[0] in link;
    ResolveAllPrefixes(Directory(rel), Fields(link, SLASH));
  }
}
