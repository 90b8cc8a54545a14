/** The file system the package manager writes to: a map from absolute paths, names looked up
    one by one and symbolic links followed on the way, as the kernel does. */
module FileSystem {
  import opened Bytes
  import opened CStrings
  import opened TarPath

  type Path = seq<bytes>
  datatype Obj = ODir(mode: nat) | OFile(mode: nat, data: bytes) | OLink(target: bytes)
  type Fs = map<Path, Obj>

  // The links followed in one lookup before it fails.
  const MAX_LINKS := 40

  function Above(p: Path): Path
    requires p != []
  {
    p[..|p| - 1]
  }

  predicate Same(a: Fs, b: Fs, q: Path)
  {
    (q in a <==> q in b) && (q in a ==> a[q] == b[q])
  }

  /* ---- Lookup ---- */

  // The directory reached from the directory at by a list of names, if there is one.
  function Follow(fs: Fs, at: Path, names: seq<bytes>, links: nat): Option<Path>
    decreases links, |names|
  {
    if names == [] then Some(at)
    else if names[0] == DOT then Follow(fs, at, names[1..], links)
    else if names[0] == DOTDOT then Follow(fs, if at == [] then [] else Above(at), names[1..], links)
    else
      var p := at + [names[0]];
      if p !in fs then None
      else
        match fs[p]
        case ODir(_) => Follow(fs, p, names[1..], links)
        case OFile(_, _) => None
        case OLink(target) =>
          if links == 0 then None
          else Follow(fs, if SLASH <= target then [] else at, Fields(target, SLASH) + names[1..], links - 1)
  }

  // Where a path below the directory dest really stands: its last name is not followed, and the
  // directory above it has to be there.
  function Where(fs: Fs, dest: Path, path: Path): Option<Path>
    requires path != []
  {
    match Follow(fs, dest, Above(path), MAX_LINKS)
    case None => None
    case Some(d) => Some(d + [path[|path| - 1]])
  }

  /* ---- System calls on a path below dest ---- */

  function MkDir(fs: Fs, dest: Path, path: Path, mode: nat): Fs
    requires path != []
  {
    match Where(fs, dest, path)
    case None => fs
    case Some(p) => if p in fs then fs else fs[p := ODir(mode)]
  }

  function Unlink(fs: Fs, dest: Path, path: Path): Fs
    requires path != []
  {
    match Where(fs, dest, path)
    case None => fs
    case Some(p) => if p in fs && !fs[p].ODir? then fs - {p} else fs
  }

  // open with O_CREAT and O_TRUNC of a name that unlink has just cleared, writing data, and chmod.
  function WriteFile(fs: Fs, dest: Path, path: Path, mode: nat, data: bytes): Option<Fs>
    requires path != []
  {
    match Where(fs, dest, path)
    case None => None
    case Some(p) => if p in fs then None else Some(fs[p := OFile(mode, data)])
  }

  function SymLink(fs: Fs, dest: Path, path: Path, target: bytes): Fs
    requires path != []
  {
    match Where(fs, dest, path)
    case None => fs
    case Some(p) => if p in fs then fs else fs[p := OLink(target)]
  }

  // link, which gives a symbolic link itself a second name instead of following it.
  function HardLink(fs: Fs, dest: Path, from: Path, path: Path): Fs
    requires from != [] && path != []
  {
    match (Where(fs, dest, from), Where(fs, dest, path))
    case (Some(f), Some(p)) => if f !in fs || fs[f].ODir? || p in fs then fs else fs[p := fs[f]]
    case _ => fs
  }

  /* ---- Real directories ---- */

  predicate IsDir(fs: Fs, p: Path) { p in fs && fs[p].ODir? }
  predicate IsFile(fs: Fs, p: Path) { p in fs && !fs[p].ODir? }

  // Names a lookup takes as they are.
  predicate Plain(path: Path) { forall c | c in path :: c != DOT && c != DOTDOT }

  // Every directory on the way from dest down to path is one, and no link.
  predicate Standing(fs: Fs, dest: Path, path: Path)
  {
    forall k | 0 < k <= |path| :: IsDir(fs, dest + path[..k])
  }

  lemma {:induction false} FollowStanding(fs: Fs, dest: Path, path: Path, links: nat)
    requires Plain(path) && Standing(fs, dest, path)
    ensures Follow(fs, dest, path, links) == Some(dest + path)
    decreases |path|
  {
    if path == [] {
      assert dest + path == dest;
    } else {
      var next, rest := dest + [path[0]], path[1..];
      assert path[..1] == [path[0]] && IsDir(fs, dest + path[..1]) && path[0] in path;
      forall k | 0 < k <= |rest| ensures IsDir(fs, next + rest[..k]) {
        assert path[..k + 1] == [path[0]] + rest[..k];
        assert next + rest[..k] == dest + path[..k + 1];
      }
      assert forall c | c in rest :: c in path;
      FollowStanding(fs, next, rest, links);
      assert next + rest == dest + path;
    }
  }

  lemma WhereStanding(fs: Fs, dest: Path, path: Path)
    requires path != [] && Plain(path) && Standing(fs, dest, Above(path))
    ensures Where(fs, dest, path) == Some(dest + path)
  {
    hide Follow;
    assert forall c | c in Above(path) :: c in path;
    FollowStanding(fs, dest, Above(path), MAX_LINKS);
    assert dest + Above(path) + [path[|path| - 1]] == dest + path;
  }

  /* ---- Many links ---- */

  function Times(name: bytes, k: nat): Path
  {
    if k == 0 then [] else [name] + Times(name, k - 1)
  }

  // A link to its own directory can be run through as often as links are still followed.
  lemma {:induction false} LinksFollowed(fs: Fs, at: Path, name: bytes, k: nat, links: nat)
    requires name != DOT && name != DOTDOT && at + [name] in fs && fs[at + [name]] == OLink([0x2E])
    ensures Follow(fs, at, Times(name, k), links) == if k <= links then Some(at) else None
    decreases k
  {
    hide Fields;
    if k > 0 {
      var names := Times(name, k);
      assert names[0] == name && names[1..] == Times(name, k - 1);
      FieldsOfOne([0x2E], SLASH);
      if links > 0 {
        LinksFollowed(fs, at, name, k - 1, links - 1);
        var more := [DOT] + Times(name, k - 1);
        assert more[1..] == Times(name, k - 1);
        var target: bytes := [0x2E];
        assert target[0] != SLASH[0] && Fields(target, SLASH) + names[1..] == more;
        assert Follow(fs, at, names, links) == Follow(fs, at, more, links - 1);
        assert Follow(fs, at, more, links - 1) == Follow(fs, at, Times(name, k - 1), links - 1);
      }
    }
  }

  lemma FortyLinks(fs: Fs, dest: Path, name: bytes, k: nat, last: bytes)
    requires name != DOT && name != DOTDOT && dest + [name] in fs && fs[dest + [name]] == OLink([0x2E])
    ensures Where(fs, dest, Times(name, k) + [last]) == if k <= 40 then Some(dest + [last]) else None
  {
    hide Follow;
    LinksFollowed(fs, dest, name, k, MAX_LINKS);
    assert Above(Times(name, k) + [last]) == Times(name, k);
  }

  /* ---- Containment ---- */

  // Nothing but what is below dest was created, replaced or removed.
  ghost predicate Contained(dest: Path, before: Fs, after: Fs)
  {
    forall p | !(dest < p) :: Same(after, before, p)
  }

  // The place a call reaches is outside dest.
  predicate Outside(fs: Fs, dest: Path, path: Path)
    requires path != []
  {
    Where(fs, dest, path).Some? && !(dest <= Above(Where(fs, dest, path).value))
  }

  // Each system call changes something outside dest exactly when the directory it reaches is
  // outside and nothing makes it fail: mkdir, symlink and link want the place free, unlink wants a
  // file or link there, and link a source that is no directory.
  lemma CallsContained(fs: Fs, dest: Path, path: Path, from: Path, mode: nat, data: bytes, target: bytes)
    requires path != [] && from != []
    ensures var out, place, source := Outside(fs, dest, path), Where(fs, dest, path), Where(fs, dest, from);
      (Contained(dest, fs, MkDir(fs, dest, path, mode)) <==> !out || place.value in fs) &&
      (Contained(dest, fs, Unlink(fs, dest, path)) <==> !out || place.value !in fs || fs[place.value].ODir?) &&
      (Contained(dest, fs, SymLink(fs, dest, path, target)) <==> !out || place.value in fs) &&
      (Contained(dest, fs, HardLink(fs, dest, from, path)) <==>
        !out || place.value in fs || source == None || source.value !in fs || fs[source.value].ODir?) &&
      match WriteFile(fs, dest, path, mode, data)
      case None => place == None || place.value in fs
      case Some(after) => Contained(dest, fs, after) <==> !out
  {
    hide Follow, Contained;
    match Where(fs, dest, path) {
      case None => Unchanged(fs, dest);
      case Some(p) =>
        BelowIs(dest, p);
        OneChange(fs, MkDir(fs, dest, path, mode), dest, p);
        OneChange(fs, Unlink(fs, dest, path), dest, p);
        OneChange(fs, SymLink(fs, dest, path, target), dest, p);
        OneChange(fs, HardLink(fs, dest, from, path), dest, p);
        var w := WriteFile(fs, dest, path, mode, data);
        if w.Some? { OneChange(fs, w.value, dest, p); }
    }
  }

  lemma Unchanged(fs: Fs, dest: Path)
    ensures Contained(dest, fs, fs)
  {
  }

  lemma BelowIs(dest: Path, p: Path)
    requires p != []
    ensures dest < p <==> dest <= Above(p)
  {
    if dest < p { assert Above(p)[..|dest|] == p[..|dest|]; }
  }

  lemma OneChange(fs: Fs, after: Fs, dest: Path, p: Path)
    requires forall q | q != p :: Same(after, fs, q)
    requires (p in after) == (p in fs) ==> after == fs
    ensures Contained(dest, fs, after) <==> dest < p || (p in after) == (p in fs)
  {
    if Contained(dest, fs, after) && !(dest < p) { assert Same(after, fs, p); }
  }

  /* ---- Two rules that keep a run contained ---- */

  // Either no path runs through a link, the links being among the listed ones, or no link climbs.
  datatype Rule = Avoid(links: set<Path>) | Descend

  // A target that leads down from where the link stands.
  predicate Descends(target: bytes)
  {
    !(SLASH <= target) && DOTDOT !in Fields(target, SLASH)
  }

  predicate LinkOk(rule: Rule, path: Path, target: bytes)
  {
    match rule case Avoid(links) => path in links case Descend => Descends(target)
  }

  // Every symbolic link below dest keeps the rule.
  ghost predicate Guarded(fs: Fs, dest: Path, rule: Rule)
  {
    forall q | dest < q && q in fs && fs[q].OLink? :: LinkOk(rule, q[|dest|..], fs[q].target)
  }

  // A path that neither runs through a listed link nor ends in one.
  predicate Avoids(path: Path, links: set<Path>)
  {
    forall k | 0 < k <= |path| :: path[..k] !in links
  }

  predicate MayEnter(rule: Rule, path: Path) { rule.Avoid? ==> Avoids(path, rule.links) }

  // A lookup that avoids the links goes straight down, or fails.
  lemma {:induction false} FollowAvoiding(fs: Fs, dest: Path, done: Path, rest: Path, rule: Rule, n: nat)
    requires rule.Avoid? && Plain(rest) && Guarded(fs, dest, rule) && MayEnter(rule, done + rest)
    ensures var r := Follow(fs, dest + done, rest, n); r == None || r == Some(dest + (done + rest))
    decreases |rest|
  {
    if rest == [] {
      assert done + rest == done;
    } else {
      var next := done + [rest[0]];
      var p := dest + next;
      assert dest + done + [rest[0]] == p && rest[0] in rest;
      assert next + rest[1..] == done + rest;
      assert p[|dest|..] == next == (done + rest)[..|next|];
      assert forall c | c in rest[1..] :: c in rest;
      if p in fs && fs[p].ODir? { FollowAvoiding(fs, dest, next, rest[1..], rule, n); }
    }
  }

  // A lookup of names other than ".." through links that descend stays below dest, or fails.
  lemma {:induction false} FollowDescending(fs: Fs, dest: Path, at: Path, names: seq<bytes>, n: nat)
    requires dest <= at && DOTDOT !in names && Guarded(fs, dest, Descend)
    ensures var r := Follow(fs, at, names, n); r == None || dest <= r.value
    decreases n, |names|
  {
    if names != [] {
      assert forall c | c in names[1..] :: c in names;
      var p := at + [names[0]];
      if names[0] == DOT {
        FollowDescending(fs, dest, at, names[1..], n);
      } else if IsDir(fs, p) {
        FollowDescending(fs, dest, p, names[1..], n);
      } else if p in fs && fs[p].OLink? && n > 0 {
        FollowDescending(fs, dest, at, Fields(fs[p].target, SLASH) + names[1..], n - 1);
      }
    }
  }

  lemma WhereGuarded(fs: Fs, dest: Path, path: Path, rule: Rule)
    requires path != [] && Plain(path) && Guarded(fs, dest, rule) && MayEnter(rule, Above(path))
    ensures var r := Where(fs, dest, path); r == None || (dest < r.value && (rule.Avoid? ==> r.value == dest + path))
  {
    hide Follow, Avoids;
    var up := Above(path);
    assert forall c | c in up :: c in path;
    if rule.Avoid? {
      assert [] + up == up && dest + [] == dest;
      FollowAvoiding(fs, dest, [], up, rule, MAX_LINKS);
      assert dest + up + [path[|path| - 1]] == dest + path;
    } else {
      FollowDescending(fs, dest, dest, up, MAX_LINKS);
    }
  }

  // A state reached with nothing changed outside dest and every link keeping the rule.
  ghost predicate Kept(dest: Path, rule: Rule, before: Fs, after: Fs)
  {
    Contained(dest, before, after) && Guarded(after, dest, rule)
  }

  // What a system call on path needs to keep the rule.
  lemma CallsKept(fs: Fs, dest: Path, path: Path, mode: nat, data: bytes, target: bytes, rule: Rule)
    requires path != [] && Plain(path) && Guarded(fs, dest, rule) && MayEnter(rule, Above(path))
    ensures Kept(dest, rule, fs, MkDir(fs, dest, path, mode)) && Kept(dest, rule, fs, Unlink(fs, dest, path))
    ensures LinkOk(rule, path, target) ==> Kept(dest, rule, fs, SymLink(fs, dest, path, target))
    ensures var w := WriteFile(fs, dest, path, mode, data); w.Some? ==> Kept(dest, rule, fs, w.value)
  {
    hide Follow, Where, Avoids, Descends;
    WhereGuarded(fs, dest, path, rule);
    assert (dest + path)[|dest|..] == path;
  }

  // A second name is given only to what a link may be.
  lemma HardLinkKept(fs: Fs, dest: Path, from: Path, path: Path, rule: Rule)
    requires path != [] && Plain(path) && Guarded(fs, dest, rule) && MayEnter(rule, Above(path))
    requires from != [] && Plain(from) && MayEnter(rule, from)
    ensures Kept(dest, rule, fs, HardLink(fs, dest, from, path))
  {
    hide Follow, Where, Avoids, Descends;
    WhereGuarded(fs, dest, path, rule);
    if rule.Avoid? { NotALink(dest, from, fs, rule); }
    WhereGuarded(fs, dest, from, rule);
  }

  lemma NotALink(dest: Path, from: Path, fs: Fs, rule: Rule)
    requires rule.Avoid? && from != [] && MayEnter(rule, from) && Guarded(fs, dest, rule)
    ensures dest + from in fs ==> !fs[dest + from].OLink?
    ensures MayEnter(rule, Above(from))
  {
    assert from[..|from|] == from && (dest + from)[|dest|..] == from && dest < dest + from;
    forall k | 0 < k <= |Above(from)| ensures Above(from)[..k] !in rule.links {
      assert Above(from)[..k] == from[..k];
    }
  }

  lemma KeptTrans(dest: Path, rule: Rule, a: Fs, b: Fs, c: Fs)
    requires Contained(dest, a, b) && Kept(dest, rule, b, c)
    ensures Kept(dest, rule, a, c)
  {
    forall p | !(dest < p) ensures Same(c, a, p) { assert Same(b, a, p) && Same(c, b, p); }
  }
}
