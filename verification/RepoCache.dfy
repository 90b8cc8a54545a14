/** The local cache of indexes and packages: checked downloads and atomic replacement
    (pkg/kratos-repo.c), interruptions included. */
module RepoCache {
  import opened Bytes
  import opened CStrings
  import opened HashBytes
  import Sha256

  type Data = seq<bv8>

  /* ---- Checksums as text ---- */

  function Nibble(v: nat): (c: byte)
    requires v < 16
  {
    if v < 10 then 0x30 + v else 0x57 + v
  }

  function HexText(d: Data): (t: bytes)
    ensures |t| == 2 * |d|
  {
    if d == [] then [] else HexText(d[..|d| - 1]) + [Nibble(d[|d| - 1] as nat / 16), Nibble(d[|d| - 1] as nat % 16)]
  }

  function Lower(c: byte): byte { if 0x41 <= c <= 0x5A then c + 32 else c }

  // strcasecmp returning 0
  predicate SameText(a: bytes, b: bytes)
  {
    |a| == |b| && forall i | 0 <= i < |a| :: Lower(a[i]) == Lower(b[i])
  }

  // kratos_sha256_file on a file it can read: the contents pass through a fixed buffer.
  method Sha256File(content: Data) returns (hex: bytes)
    ensures hex == HexText(Sha256.Hash(content))
  {
    hide Sha256.Hash, Sha256.Engine.Valid;
    var ctx := new Sha256.Engine();
    var pos: nat := 0;
    while pos < |content|
      invariant pos <= |content| && ctx.Valid() && fresh(ctx) && fresh(ctx.state) && fresh(ctx.buffer)
      invariant ctx.msg == content[..pos]
      decreases |content| - pos
    {
      var n := if |content| - pos < 8192 then |content| - pos else 8192;
      ctx.Update(content[pos..pos + n]);
      assert content[..pos] + content[pos..pos + n] == content[..pos + n];
      pos := pos + n;
    }
    assert content[..pos] == content;
    var digest := ctx.Final();
    hex := [];
    for i := 0 to digest.Length
      invariant hex == HexText(digest[..i])
    {
      assert digest[..i + 1][..i] == digest[..i];
      hex := hex + [Nibble(digest[i] as nat / 16), Nibble(digest[i] as nat % 16)];
    }
    assert digest[..digest.Length] == digest[..];
  }

  lemma {:induction false} HexTextAt(d: Data, i: nat)
    requires i < |d|
    ensures HexText(d)[2 * i] == Nibble(d[i] as nat / 16) && HexText(d)[2 * i + 1] == Nibble(d[i] as nat % 16)
  {
    if i < |d| - 1 { HexTextAt(d[..|d| - 1], i); }
  }

  // Each byte becomes two digits, the high four bits first, in small letters.
  lemma HexTextIs(d: Data, i: nat)
    requires i < |d|
    ensures var high, low := d[i] as nat / 16, d[i] as nat % 16;
      HexText(d)[2 * i] as int == (if high < 10 then 48 + high else 87 + high) &&
      HexText(d)[2 * i + 1] as int == (if low < 10 then 48 + low else 87 + low)
  {
    HexTextAt(d, i);
  }

  // Texts are compared without regard to case: at each place the bytes are equal, or they are a
  // capital and the small letter 32 above it.
  lemma SameTextIs(a: bytes, b: bytes)
    ensures SameText(a, b) <==>
      |a| == |b| &&
      forall i | 0 <= i < |a| ::
        a[i] == b[i] || (0x41 <= a[i] <= 0x5A && b[i] as int == a[i] + 0x20) ||
        (0x41 <= b[i] <= 0x5A && a[i] as int == b[i] + 0x20)
  {
  }

  lemma NibbleDistinct(u: nat, v: nat)
    requires u < 16 && v < 16 && Lower(Nibble(u)) == Lower(Nibble(v))
    ensures u == v
  {
  }

  // A checksum text, in whatever case, matches at most one digest.
  lemma ChecksumPinsDigest(d: Data, e: Data, text: bytes)
    requires SameText(HexText(d), text) && SameText(HexText(e), text)
    ensures d == e
  {
    hide HexText, Nibble, Lower;
    forall i | 0 <= i < |d| ensures d[i] == e[i] {
      HexTextAt(d, i);
      HexTextAt(e, i);
      assert Lower(HexText(d)[2 * i]) == Lower(text[2 * i]) == Lower(HexText(e)[2 * i]);
      assert Lower(HexText(d)[2 * i + 1]) == Lower(text[2 * i + 1]) == Lower(HexText(e)[2 * i + 1]);
      SameNibbles(d[i], e[i]);
    }
  }

  lemma SameNibbles(x: bv8, y: bv8)
    requires Lower(Nibble(x as nat / 16)) == Lower(Nibble(y as nat / 16))
    requires Lower(Nibble(x as nat % 16)) == Lower(Nibble(y as nat % 16))
    ensures x == y
  {
    hide Nibble, Lower;
    NibblesPin(x as nat, y as nat);
    SameByte(x, y);
  }

  lemma NibblesPin(u: nat, v: nat)
    requires u < 256 && v < 256
    requires Lower(Nibble(u / 16)) == Lower(Nibble(v / 16)) && Lower(Nibble(u % 16)) == Lower(Nibble(v % 16))
    ensures u == v
  {
    hide Nibble, Lower;
    NibbleDistinct(u / 16, v / 16);
    NibbleDistinct(u % 16, v % 16);
  }

  lemma SameByte(x: bv8, y: bv8)
    requires x as nat == y as nat
    ensures x == y
  {
    assert (x as nat) as bv8 == x && (y as nat) as bv8 == y;
  }

  /* ---- Downloading a package ---- */

  datatype Item = Item(url: bytes, sha256: bytes)

  function OutPath(dir: bytes, url: bytes): bytes { dir + [0x2F] + Base(url) }
  function TmpPath(out: bytes): bytes { out + [0x2E, 0x74, 0x6D, 0x70] }

  lemma TmpDiffers(out: bytes)
    ensures TmpPath(out) != out
  {
    assert |TmpPath(out)| == |out| + 4;
  }

  class Cache {
    var files: map<bytes, Data>

    constructor (files: map<bytes, Data>)
      ensures this.files == files
    {
      this.files := files;
    }

    // kratos_repo_download_pkg; fetched is what the download delivers, if it succeeds, and
    // renames whether the final rename does. A path is only returned for a file that matches the
    // checksum of the index; the file at that path is never replaced by one that does not; and no
    // other file but the temporary one changes.
    method DownloadPkg(item: Item, dir: bytes, fetched: Option<Data>, renames: bool) returns (r: Option<bytes>)
      modifies this
      ensures r.Some? ==>
        r.value == dir + [0x2F] + Base(item.url) && r.value in files &&
        (item.sha256 == [] || SameText(HexText(Sha256.Hash(files[r.value])), item.sha256))
      ensures r.Some? ==> files == old(files) || fetched == Some(files[r.value])
      ensures var out := dir + [0x2F] + Base(item.url);
        (r == None && out in files ==> out in old(files) && files[out] == old(files)[out]) &&
        (r == None && out in old(files) ==>
          (item.sha256 == [] || SameText(HexText(Sha256.Hash(old(files)[out])), item.sha256) ==> out in files)) &&
        forall p | p != out && p != out + [0x2E, 0x74, 0x6D, 0x70] :: (p in files <==> p in old(files)) &&
          (p in files ==> files[p] == old(files)[p])
    {
      hide SameText, HexText, Base, Sha256.Hash;
      if item.url == [] { return None; }
      var out := OutPath(dir, item.url);
      var tmp := TmpPath(out);
      TmpDiffers(out);
      if out in files && item.sha256 != [] {
        var computed := Sha256File(files[out]);
        if SameText(computed, item.sha256) { return Some(out); }
        files := files - {out};
      }
      if fetched == None {
        files := files - {tmp};
        return None;
      }
      files := files[tmp := fetched.value];
      if item.sha256 != [] {
        var computed := Sha256File(files[tmp]);
        if !SameText(computed, item.sha256) {
          files := files - {tmp};
          return None;
        }
      }
      if !renames {
        files := files - {tmp};
        return None;
      }
      files := files[out := files[tmp]] - {tmp};
      return Some(out);
    }
  }

  /* ---- Updating an index ---- */

  // What counts as an index, and which index a signature verifies under the installed key.
  datatype Rules = Rules(parses: Data -> bool, verifies: (Data, Data) -> bool)

  datatype Pc = Idle | Fetched | Parsed | SigFetched | Verified | Ready

  // An update since it began: the index and signature it found in place, what it downloaded,
  // whether it found a key, and which of its two renames have happened.
  datatype Log = Log(index: Option<Data>, sig: Option<Data>, fetched: Data, fetchedSig: Data, keyed: bool,
                     sigMoved: bool, indexMoved: bool)

  // The four files of a repository's cache directory, the update under way or the last one, and
  // whether the update that put the index there found a key.
  datatype Update = Update(pc: Pc, index: Option<Data>, tmp: Option<Data>, sig: Option<Data>, sigTmp: Option<Data>,
                           log: Log, keyedIndex: bool)

  function Begin(s: Update, fetched: Data): Update
  {
    s.(log := Log(s.index, s.sig, fetched, [], false, false, false))
  }

  // One step of an update. A failed or interrupted download may leave anything in its own
  // temporary file; the key is looked for in each update, and each rename may fail.
  ghost predicate UpdateStep(rules: Rules, s: Update, t: Update)
  {
    match s.pc
    case Idle =>
      (exists c :: t == Begin(s, c).(tmp := Some(c), pc := Fetched)) || (exists c :: t == Begin(s, []).(tmp := c))
    case Fetched =>
      s.tmp.Some? && t == if rules.parses(s.tmp.value) then s.(pc := Parsed) else s.(tmp := None, pc := Idle)
    case Parsed =>
      var keyed := s.log.(keyed := true);
      (exists c :: t == s.(sigTmp := Some(c), log := keyed.(fetchedSig := c), pc := SigFetched)) ||
      (exists c :: t == s.(sigTmp := c, log := keyed, tmp := None, pc := Idle)) ||
      t == s.(pc := Ready)
    case SigFetched =>
      s.tmp.Some? && s.sigTmp.Some? &&
      t ==
        if rules.verifies(s.tmp.value, s.sigTmp.value) then s.(pc := Verified)
        else s.(tmp := None, sigTmp := None, pc := Idle)
    case Verified =>
      t == s.(sig := s.sigTmp, sigTmp := None, log := s.log.(sigMoved := true), pc := Ready) ||
      t == s.(sigTmp := None, pc := Ready)
    case Ready =>
      t == s.(index := s.tmp, tmp := None, log := s.log.(indexMoved := true), keyedIndex := s.log.keyed, pc := Idle) ||
      t == s.(tmp := None, pc := Idle)
  }

  // The process can die between any two steps; the files stay as they are.
  ghost predicate MachineStep(rules: Rules, s: Update, t: Update) { UpdateStep(rules, s, t) || t == s.(pc := Idle) }

  ghost predicate Checked(rules: Rules, content: Data, keyed: bool)
  {
    rules.parses(content) && (keyed ==> exists sig :: rules.verifies(content, sig))
  }

  // What is in place is what the log says.
  ghost predicate Logged(rules: Rules, s: Update)
  {
    var l := s.log;
    s.index == (if l.indexMoved then Some(l.fetched) else l.index) &&
    s.sig == (if l.sigMoved then Some(l.fetchedSig) else l.sig) &&
    (l.sigMoved ==> l.keyed && rules.verifies(l.fetched, l.fetchedSig)) &&
    (s.pc != Idle ==> s.tmp == Some(l.fetched) && !l.indexMoved) &&
    (s.pc == SigFetched || s.pc == Verified ==> s.sigTmp == Some(l.fetchedSig)) &&
    (s.pc != Idle && s.pc != Ready ==> !l.sigMoved)
  }

  ghost predicate Consistent(rules: Rules, first: Option<Data>, s: Update)
  {
    Logged(rules, s) &&
    (s.index == first || (s.index.Some? && Checked(rules, s.index.value, s.keyedIndex))) &&
    (s.pc == Parsed || s.pc == SigFetched ==> rules.parses(s.tmp.value)) &&
    (s.pc == Fetched || s.pc == Parsed ==> !s.log.keyed) &&
    (s.pc == SigFetched || s.pc == Verified ==> s.log.keyed) &&
    (s.pc == Verified ==> rules.verifies(s.tmp.value, s.sigTmp.value) && rules.parses(s.tmp.value)) &&
    (s.pc == Ready ==> Checked(rules, s.tmp.value, s.log.keyed))
  }

  ghost predicate Starts(s: Update)
  {
    s.pc == Idle && !s.log.sigMoved && !s.log.indexMoved && s.log.index == s.index && s.log.sig == s.sig
  }

  ghost predicate IsRun(rules: Rules, run: seq<Update>)
  {
    run != [] && Starts(run[0]) && forall k | 0 < k < |run| :: StepAt(rules, run, k)
  }

  ghost predicate StepAt(rules: Rules, run: seq<Update>, k: nat)
    requires 0 < k < |run|
  {
    MachineStep(rules, run[k - 1], run[k])
  }

  lemma StepKeepsLogged(rules: Rules, s: Update, t: Update)
    requires Logged(rules, s) && MachineStep(rules, s, t)
    requires s.pc == Fetched || s.pc == Parsed ==> !s.log.keyed
    requires s.pc == SigFetched || s.pc == Verified ==> s.log.keyed
    requires s.pc == Verified ==> rules.verifies(s.tmp.value, s.sigTmp.value)
    ensures Logged(rules, t)
  {
  }

  lemma StepKeepsConsistent(rules: Rules, first: Option<Data>, s: Update, t: Update)
    requires Consistent(rules, first, s) && MachineStep(rules, s, t)
    ensures Consistent(rules, first, t)
  {
    StepKeepsLogged(rules, s, t);
    assert s.pc != Idle ==> s.tmp == Some(s.log.fetched);
    assert s.pc == SigFetched || s.pc == Verified ==> s.sigTmp == Some(s.log.fetchedSig);
    hide Logged;
  }

  // Over every run of updates, interrupted anywhere, the index in place is the one it started
  // with or one that parsed and, if the update that installed it found a key, that the signature
  // it downloaded verified.
  lemma {:induction false} IndexIsAlwaysChecked(rules: Rules, run: seq<Update>, k: nat)
    requires IsRun(rules, run) && k < |run|
    ensures Consistent(rules, run[0].index, run[k])
    ensures var now := run[k];
      now.index == run[0].index ||
      (now.index.Some? && rules.parses(now.index.value) &&
        (now.keyedIndex ==> exists sig :: rules.verifies(now.index.value, sig)))
  {
    hide MachineStep, Checked;
    if k > 0 {
      IndexIsAlwaysChecked(rules, run, k - 1);
      assert StepAt(rules, run, k);
      StepKeepsConsistent(rules, run[0].index, run[k - 1], run[k]);
    }
    InPlace(rules, run[0].index, run[k]);
  }

  lemma InPlace(rules: Rules, first: Option<Data>, s: Update)
    requires Consistent(rules, first, s)
    ensures s.index == first ||
      (s.index.Some? && rules.parses(s.index.value) &&
        (s.keyedIndex ==> exists sig :: rules.verifies(s.index.value, sig)))
  {
  }

  /* ---- Index and signature ---- */

  ghost predicate Match(rules: Rules, index: Option<Data>, sig: Option<Data>)
  {
    sig.Some? && index.Some? ==> rules.verifies(index.value, sig.value)
  }

  // The signature in place verifies the index in place.
  ghost predicate Paired(rules: Rules, s: Update) { Match(rules, s.index, s.sig) }

  // Both renames of the update or neither: it did not end between them, and none of them failed
  // alone.
  predicate Whole(log: Log) { log.sigMoved == log.indexMoved }

  // Every update up to state k that is over was whole.
  predicate AllWhole(run: seq<Update>, k: nat)
  {
    forall j | 0 <= j < |run| && j <= k && run[j].pc == Idle :: Whole(run[j].log)
  }

  // The update of state k began in state j.
  predicate Began(run: seq<Update>, j: nat, k: nat)
  {
    j <= k < |run| && (j < k || k == 0) && run[j].pc == Idle &&
    run[j].index == run[k].log.index && run[j].sig == run[k].log.sig
  }

  lemma {:induction false} Beginning(rules: Rules, run: seq<Update>, k: nat) returns (j: nat)
    requires IsRun(rules, run) && k < |run|
    ensures Began(run, j, k)
  {
    if k == 0 {
      j := 0;
    } else {
      assert StepAt(rules, run, k);
      if run[k - 1].pc == Idle && run[k] != run[k - 1] { j := k - 1; } else { j := Beginning(rules, run, k - 1); }
    }
  }

  // When index and signature match once an update is over, or cut off: always if both were
  // renamed; if neither was, when they matched before; and if one was, when it is missing its
  // partner of before or matches it.
  lemma PairedExactly(rules: Rules, run: seq<Update>, k: nat) returns (j: nat)
    requires IsRun(rules, run) && k < |run| && run[k].pc == Idle
    ensures Began(run, j, k)
    ensures var l, before := run[k].log, run[j];
      Paired(rules, run[k]) <==>
        match (l.sigMoved, l.indexMoved)
        case (true, true) => true
        case (false, false) => Paired(rules, before)
        case (true, false) => before.index.Some? ==> rules.verifies(before.index.value, l.fetchedSig)
        case (false, true) => before.sig.Some? ==> rules.verifies(l.fetched, before.sig.value)
  {
    hide IsRun, Checked;
    j := Beginning(rules, run, k);
    IndexIsAlwaysChecked(rules, run, k);
  }

  // In every run that starts with a matching pair, they match between updates as long as every
  // update was whole.
  lemma {:induction false} WholeUpdatesPair(rules: Rules, run: seq<Update>, k: nat)
    requires IsRun(rules, run) && Paired(rules, run[0]) && k < |run| && run[k].pc == Idle && AllWhole(run, k)
    ensures Paired(rules, run[k])
    decreases k
  {
    hide IsRun;
    var j := PairedExactly(rules, run, k);
    assert Whole(run[k].log);
    if j < k { WholeUpdatesPair(rules, run, j); }
  }

  ghost predicate Parts(rules: Rules, first: Update, last: Update)
  {
    Paired(rules, first) && last.pc == Idle && !Paired(rules, last)
  }

  // An update cut off between its two renames leaves an index and a signature that do not match.
  lemma InterruptedUpdateWitness(rules: Rules, old_: Data, new_: Data, oldSig: Data, newSig: Data)
    requires rules.parses(new_) && rules.verifies(old_, oldSig) && rules.verifies(new_, newSig)
    requires !rules.verifies(old_, newSig)
    ensures exists run: seq<Update> :: IsRun(rules, run) && Parts(rules, run[0], run[|run| - 1])
  {
    var log := Log(Some(old_), Some(oldSig), [], [], true, false, false);
    var s0 := Update(Idle, Some(old_), None, Some(oldSig), None, log, true);
    var s1 := Begin(s0, new_).(tmp := Some(new_), pc := Fetched);
    var s2 := s1.(pc := Parsed);
    var s3 := s2.(sigTmp := Some(newSig), log := s2.log.(keyed := true).(fetchedSig := newSig), pc := SigFetched);
    var s4 := s3.(pc := Verified);
    var s5 := s4.(sig := Some(newSig), sigTmp := None, log := s4.log.(sigMoved := true), pc := Ready);
    var s6 := s5.(pc := Idle);
    var run := [s0, s1, s2, s3, s4, s5, s6];
    assert UpdateStep(rules, s0, s1) && UpdateStep(rules, s1, s2) && UpdateStep(rules, s2, s3);
    assert UpdateStep(rules, s3, s4) && UpdateStep(rules, s4, s5);
    assert IsRun(rules, run);
    assert Parts(rules, run[0], run[6]);
  }
}
