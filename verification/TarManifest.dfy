/** Whether a packed payload unpacks to what its manifest lists (pkg/kratos-pack.c against
    pkg/kratos-tar.c). The packer checks neither names nor targets nor sizes. */
module TarManifest {
  import opened Bytes
  import opened CStrings
  import opened TarPath
  import opened TarHeader
  import opened FileSystem
  import opened TarTree
  import opened TarExtract
  import opened TarRoundTrip
  import opened TarContainment

  // The manifest of a tree agrees, at a path, with what is found below dest.
  predicate Agrees(after: Fs, dest: Path, entries: seq<Entry>, q: Path)
  {
    q in Manifest([], entries) <==> IsFile(after, dest + q)
  }

  lemma {:induction false} PackableIsWellNamed(here: Path, node: Node)
    requires Packable(here, node)
    ensures WellNamed(node)
    decreases node
  {
    if node.Dir? {
      forall e | e in node.entries ensures WellNamed(e.node) { PackableIsWellNamed(here + [e.name], e.node); }
    }
  }

  lemma PlacedAgrees(fs: Fs, dest: Path, entries: seq<Entry>, q: Path)
    requires Distinct(entries) && forall e | e in entries :: WellNamed(e.node)
    requires q != [] && forall p | p in fs :: !(dest < p)
    ensures Agrees(PlaceAll(fs, dest, [], entries), dest, entries, q) <==> !IsSpecial(entries, q)
  {
    hide Lookup, PlaceAll, Manifest, Distinct, WellNamed;
    ManifestLists([], entries, q);
    PlacedAll(fs, dest, [], entries, dest + q);
    assert q[0..] == q && (dest + q)[|dest|..] == q && [] + q == q;
    assert dest < dest + q;
  }

  // Unpacked into an empty directory, the payload goes through and makes a regular file or link of
  // every line of the manifest, and of nothing else, exactly when the tree has no special file and
  // nothing in it that the reader refuses.
  lemma ManifestMatches(fs: Fs, dest: Path, entries: seq<Entry>)
    requires PackableAll([], entries) && forall p | p in fs :: !(dest < p)
    ensures var (after, code) := Extract(Archive(entries), fs, dest, 0);
      (code == OK <==> UnrefusedAll([], entries)) &&
      (code == OK && (forall q | q != [] :: Agrees(after, dest, entries, q)) <==>
        UnrefusedAll([], entries) && forall q :: !IsSpecial(entries, q))
  {
    hide Extract, PutAll, PlaceAll, Packable, UnrefusedAll, WellNamed, Archive, IsSpecial, Agrees;
    forall e | e in entries ensures Fits(fs, dest + [e.name], e.node) && WellNamed(e.node) {
      EmptyFits(fs, dest, dest + [e.name], e.node);
      PackableIsWellNamed([] + [e.name], e.node);
    }
    ArchiveExtracts(fs, dest, entries);
    PutAllPlaces(fs, dest, [], entries);
    forall q | q != [] ensures Agrees(PlaceAll(fs, dest, [], entries), dest, entries, q) <==> !IsSpecial(entries, q) {
      PlacedAgrees(fs, dest, entries, q);
    }
    assert !IsSpecial(entries, []) by { RootIsNoEntry(entries); }
  }

  lemma RootIsNoEntry(entries: seq<Entry>)
    ensures !IsSpecial(entries, [])
  {
    NoRoot(entries);
  }

  const SLASH_E: bytes := SLASH + E

  lemma OneEntry(e: Entry, q: Path)
    requires !e.node.Special? && !e.node.Dir?
    ensures !IsSpecial([e], q) && [e.name] in Manifest([], [e])
  {
    assert [e][1..] == [] && [] + [e.name] == [e.name];
    assert Lookup([], q) == None;
  }

  lemma AbsoluteLinkFits()
    ensures PackableAll([], [Entry(X, Link(ANY, SLASH_E))]) && Refusal([X], Link(ANY, SLASH_E)) == SYMLINK_ESCAPE
  {
    hide SafeRelpath;
    TwoNames(X, Y);
    NoDotIsSafe(X);
    assert [] + [X] == [X] && SLASH_E[0] == 0x2F;
  }

  // A tree with one absolute link is packed and listed, and nothing of it is unpacked.
  lemma AbsoluteLinkWitness(fs: Fs, dest: Path)
    requires forall p | p in fs :: !(dest < p)
    ensures var tree := [Entry(X, Link(ANY, SLASH_E))];
      PackableAll([], tree) && [X] in Manifest([], tree) && (forall q :: !IsSpecial(tree, q)) &&
      Extract(Archive(tree), fs, dest, 0) == (fs, SYMLINK_ESCAPE)
  {
    hide Extract, Archive, IsSpecial, Manifest, Refusal, Packable;
    var e := Entry(X, Link(ANY, SLASH_E));
    var tree := [e];
    AbsoluteLinkFits();
    OneEntry(e, []);
    forall q ensures !IsSpecial(tree, q) { OneEntry(e, q); }
    assert dest < dest + [X] && [] + [X] == [X];
    ArchiveExtracts(fs, dest, tree);
  }

  // A path of more than 99 bytes is cut in its header, and comes back under another name.
  lemma LongNameCut(here: Path, node: Node)
    requires GoodPath(here) && here != [] && !node.Special? && |Join(here)| > 99
    ensures EntryName(HeaderBytes(HeaderFor(Join(here), node))) == Clean(Join(here)[..99]) != Join(here)
  {
    hide Join, HeaderBytes, TextField, Text;
    var rel := Join(here);
    Pieces(HeaderFor(rel, node));
    NoNul(here);
    assert forall c | c in rel[..99] :: c in rel;
    TextFieldReads(rel[..99]);
    CleanShortens(rel[..99]);
  }

  lemma {:induction false} CleanShortens(s: bytes)
    ensures |Clean(s)| <= |s|
  {
    SlashesShorten(StripDots(s));
    DotsShorten(s);
  }

  lemma {:induction false} DotsShorten(s: bytes)
    ensures |StripDots(s)| <= |s|
  {
    if |s| >= 2 { DotsShorten(s[2..]); }
  }

  lemma {:induction false} SlashesShorten(s: bytes)
    ensures |StripSlashes(s)| <= |s|
  {
    if s != [] { SlashesShorten(s[1..]); }
  }
}
