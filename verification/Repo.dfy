/** Choosing a package among repositories, and the upgrade pass (pkg/kratos-repo.c). */
module Repo {
  import opened Bytes
  import opened CStrings
  import RepoVersion

  datatype Pkg = Pkg(name: bytes, version: bytes, depends: bytes)
  datatype Repository = Repository(priority: int, packages: seq<Pkg>)

  // A package offered by a repository of some priority.
  datatype Offer = Offer(priority: int, pkg: Pkg)

  /* ---- The choice ---- */

  function OffersOf(priority: int, pkgs: seq<Pkg>, name: bytes): seq<Offer>
  {
    if pkgs == [] then []
    else
      var rest := OffersOf(priority, pkgs[..|pkgs| - 1], name);
      var p := pkgs[|pkgs| - 1];
      if p.name == name then rest + [Offer(priority, p)] else rest
  }

  // Every offer of the named package, in the order the loops visit them.
  function Offers(repos: seq<Repository>, name: bytes): seq<Offer>
  {
    if repos == [] then []
    else
      var r := repos[|repos| - 1];
      Offers(repos[..|repos| - 1], name) + OffersOf(r.priority, r.packages, name)
  }

  predicate Better(x: Offer, y: Offer)
  {
    x.priority > y.priority || (x.priority == y.priority && RepoVersion.VersionCmp(x.pkg.version, y.pkg.version) > 0)
  }

  // Replace the candidate whenever a better offer comes along.
  function Pick(offers: seq<Offer>): (r: Option<Offer>)
    ensures r.None? <==> offers == []
  {
    if offers == [] then None
    else
      var x, best := offers[|offers| - 1], Pick(offers[..|offers| - 1]);
      if best.None? || Better(x, best.value) then Some(x) else best
  }

  lemma BetterOrders(x: Offer, y: Offer, z: Offer)
    ensures !Better(x, x) && (Better(x, y) ==> !Better(y, x))
    ensures Better(x, y) && !Better(z, y) ==> Better(x, z)
    ensures Better(x, y) && Better(y, z) ==> Better(x, z)
    ensures !Better(x, y) && !Better(y, z) ==> !Better(x, z)
  {
    hide RepoVersion.VersionCmp;
    var u, v, w := x.pkg.version, y.pkg.version, z.pkg.version;
    RepoVersion.TotalPreorder(u, v, w);
    RepoVersion.TotalPreorder(w, v, u);
    RepoVersion.TotalPreorder(v, u, w);
    RepoVersion.TotalPreorder(v, w, u);
    RepoVersion.TotalPreorder(u, w, v);
    RepoVersion.TotalPreorder(w, u, v);
  }

  // The offer at k beats every earlier one and is beaten by no other.
  predicate FirstBest(offers: seq<Offer>, k: nat)
    requires k < |offers|
  {
    (forall i | 0 <= i < k :: Better(offers[k], offers[i])) &&
    (forall i | k <= i < |offers| :: !Better(offers[i], offers[k]))
  }

  // The choice is an offer that no offer beats, and the first such.
  lemma {:induction false} PickIsBest(offers: seq<Offer>) returns (k: nat)
    requires offers != []
    ensures k < |offers| && Pick(offers) == Some(offers[k]) && FirstBest(offers, k)
  {
    hide Better, Pick;
    var n := |offers| - 1;
    var x, init := offers[n], offers[..n];
    PickLast(init, x);
    assert offers == init + [x];
    BetterOrders(x, x, x);
    if init == [] {
      k := 0;
    } else {
      var j := PickIsBest(init);
      if Better(x, init[j]) {
        k := n;
        forall i | 0 <= i < n ensures Better(x, offers[i]) { BetterOrders(x, init[j], init[i]); }
      } else {
        k := j;
      }
    }
  }

  lemma PickLast(init: seq<Offer>, x: Offer)
    ensures Pick(init + [x]) == if init == [] || Better(x, Pick(init).value) then Some(x) else Pick(init)
  {
    hide Better;
    assert (init + [x])[..|init|] == init;
  }

  // The choice is an offer of the highest priority and, among those, of the highest version.
  lemma Unbeaten(offers: seq<Offer>)
    requires offers != []
    ensures var best := Pick(offers).value;
      best in offers &&
      forall y | y in offers ::
        y.priority < best.priority ||
        (y.priority == best.priority && RepoVersion.VersionCmp(y.pkg.version, best.pkg.version) <= 0)
  {
    hide RepoVersion.VersionCmp, Pick;
    var k := PickIsBest(offers);
    var best := Pick(offers).value;
    forall y | y in offers ensures !Better(y, best) {
      BetterOrders(best, y, y);
    }
  }

  /* ---- The choice among the repositories ---- */

  predicate Offered(repos: seq<Repository>, name: bytes, i: int, j: int)
  {
    0 <= i < |repos| && 0 <= j < |repos[i].packages| && repos[i].packages[j].name == name
  }

  // The package at (i, j): every other one of the name has a lower priority, or the same and no
  // higher version; and every one listed before it is lower in one of the two.
  ghost predicate Chosen(repos: seq<Repository>, name: bytes, i: nat, j: nat)
  {
    Offered(repos, name, i, j) &&
    var p, v := repos[i].priority, repos[i].packages[j].version;
    forall k, l | Offered(repos, name, k, l) ::
      repos[k].priority < p ||
      (repos[k].priority == p &&
        var c := RepoVersion.VersionCmp(repos[k].packages[l].version, v);
        if k < i || (k == i && l < j) then c < 0 else c <= 0)
  }

  // Where the offer of (i, j) stands among all.
  function Position(repos: seq<Repository>, name: bytes, i: nat, j: nat): nat
    requires i < |repos| && j <= |repos[i].packages|
  {
    |Offers(repos[..i], name)| + |OffersOf(repos[i].priority, repos[i].packages[..j], name)|
  }

  lemma {:induction false} OffersOfPrefix(priority: int, pkgs: seq<Pkg>, name: bytes, j: nat)
    requires j <= |pkgs|
    ensures OffersOf(priority, pkgs[..j], name) <= OffersOf(priority, pkgs, name)
    decreases |pkgs|
  {
    if j == |pkgs| {
      assert pkgs[..j] == pkgs;
    } else {
      assert pkgs[..|pkgs| - 1][..j] == pkgs[..j];
      OffersOfPrefix(priority, pkgs[..|pkgs| - 1], name, j);
    }
  }

  lemma {:induction false} OffersPrefix(repos: seq<Repository>, name: bytes, i: nat)
    requires i <= |repos|
    ensures Offers(repos[..i], name) <= Offers(repos, name)
    decreases |repos|
  {
    if i == |repos| {
      assert repos[..i] == repos;
    } else {
      assert repos[..|repos| - 1][..i] == repos[..i];
      OffersPrefix(repos[..|repos| - 1], name, i);
    }
  }

  // Each offered package is among the offers, at its position.
  lemma OfferAt(repos: seq<Repository>, name: bytes, i: nat, j: nat)
    requires Offered(repos, name, i, j)
    ensures var at := Position(repos, name, i, j);
      at < |Offers(repos, name)| && Offers(repos, name)[at] == Offer(repos[i].priority, repos[i].packages[j])
  {
    hide Offers, OffersOf;
    var r := repos[i];
    OffersNext(repos, name, i, j);
    OffersPrefix(repos, name, i + 1);
    OffersOfPrefix(r.priority, r.packages, name, j + 1);
    assert r.packages[..|r.packages|] == r.packages;
    var mine := OffersOf(r.priority, r.packages[..j], name);
    assert OffersOf(r.priority, r.packages, name)[|mine|] == (mine + [Offer(r.priority, r.packages[j])])[|mine|];
  }

  // Positions follow the order of the loops.
  lemma PositionsInOrder(repos: seq<Repository>, name: bytes, k: nat, l: nat, i: nat, j: nat)
    requires Offered(repos, name, k, l) && Offered(repos, name, i, j) && (k < i || (k == i && l < j))
    ensures Position(repos, name, k, l) < Position(repos, name, i, j)
  {
    hide Offers, OffersOf;
    var r := repos[k];
    OffersNext(repos, name, k, l);
    if k < i {
      assert repos[..i][..k + 1] == repos[..k + 1];
      OffersPrefix(repos[..i], name, k + 1);
      OffersOfPrefix(r.priority, r.packages, name, l + 1);
    } else {
      assert r.packages[..j][..l + 1] == r.packages[..l + 1];
      OffersOfPrefix(r.priority, r.packages[..j], name, l + 1);
    }
  }

  // And every offer comes from a package.
  lemma {:induction false} OfferFrom(repos: seq<Repository>, name: bytes, at: nat) returns (i: nat, j: nat)
    requires at < |Offers(repos, name)|
    ensures Offered(repos, name, i, j) && Position(repos, name, i, j) == at
    decreases |repos|
  {
    var n := |repos| - 1;
    var init, r := repos[..n], repos[n];
    if at < |Offers(init, name)| {
      i, j := OfferFrom(init, name, at);
      assert init[..i] == repos[..i];
    } else {
      i := n;
      j := OfferOfFrom(r.priority, r.packages, name, at - |Offers(init, name)|);
    }
  }

  lemma {:induction false} OfferOfFrom(priority: int, pkgs: seq<Pkg>, name: bytes, at: nat) returns (j: nat)
    requires at < |OffersOf(priority, pkgs, name)|
    ensures j < |pkgs| && pkgs[j].name == name && |OffersOf(priority, pkgs[..j], name)| == at
    decreases |pkgs|
  {
    var n := |pkgs| - 1;
    if at < |OffersOf(priority, pkgs[..n], name)| {
      j := OfferOfFrom(priority, pkgs[..n], name, at);
      assert pkgs[..n][..j] == pkgs[..j];
    } else {
      j := n;
    }
  }

  // What the loops choose, in terms of the repositories: nothing only where nothing of the name is
  // offered.
  lemma PickIsChosen(repos: seq<Repository>, name: bytes) returns (i: nat, j: nat)
    ensures match Pick(Offers(repos, name))
      case None => forall k, l :: !Offered(repos, name, k, l)
      case Some(o) =>
        Chosen(repos, name, i, j) && o.pkg == repos[i].packages[j] && o.priority == repos[i].priority
  {
    hide Offers, Pick, RepoVersion.VersionCmp, Position;
    var offers := Offers(repos, name);
    i, j := 0, 0;
    if offers == [] {
      assert Pick(offers) == None by { NonePicked(offers); }
      forall k, l | Offered(repos, name, k, l) ensures false { OfferAt(repos, name, k, l); }
    } else {
      var at := PickIsBest(offers);
      i, j := OfferFrom(repos, name, at);
      OfferAt(repos, name, i, j);
      forall k, l | Offered(repos, name, k, l)
        ensures var x, y := Position(repos, name, k, l), Offer(repos[k].priority, repos[k].packages[l]);
          x < |offers| && offers[x] == y && (k < i || (k == i && l < j) ==> x < at)
      {
        OfferAt(repos, name, k, l);
        if k < i || (k == i && l < j) { PositionsInOrder(repos, name, k, l, i, j); }
      }
      forall k, l | Offered(repos, name, k, l)
        ensures var y := Offer(repos[k].priority, repos[k].packages[l]);
          !Better(y, offers[at]) && (k < i || (k == i && l < j) ==> Better(offers[at], y))
      {
        var y := offers[Position(repos, name, k, l)];
        BetterOrders(offers[at], y, y);
      }
      ChosenFrom(repos, name, i, j, offers[at]);
    }
  }

  lemma NonePicked(offers: seq<Offer>)
    requires offers == []
    ensures Pick(offers) == None
  {
  }

  lemma ChosenFrom(repos: seq<Repository>, name: bytes, i: nat, j: nat, o: Offer)
    requires Offered(repos, name, i, j) && o == Offer(repos[i].priority, repos[i].packages[j])
    requires forall k, l | Offered(repos, name, k, l) ::
      var y := Offer(repos[k].priority, repos[k].packages[l]);
      !Better(y, o) && (k < i || (k == i && l < j) ==> Better(o, y))
    ensures Chosen(repos, name, i, j)
  {
    hide RepoVersion.VersionCmp;
    forall k, l | Offered(repos, name, k, l)
      ensures RepoVersion.VersionCmp(repos[k].packages[l].version, o.pkg.version) ==
        -RepoVersion.VersionCmp(o.pkg.version, repos[k].packages[l].version)
    {
      RepoVersion.TotalPreorder(o.pkg.version, repos[k].packages[l].version, o.pkg.version);
    }
  }

  // Whatever the order of the offers, the choice has the same priority and an equal version.
  lemma OfferOrder(a: seq<Offer>, b: seq<Offer>)
    requires a != [] && multiset(a) == multiset(b)
    ensures b != [] && Pick(a).value.priority == Pick(b).value.priority
    ensures RepoVersion.VersionCmp(Pick(a).value.pkg.version, Pick(b).value.pkg.version) == 0
  {
    hide RepoVersion.VersionCmp, Pick;
    assert a[0] in multiset(b);
    Unbeaten(a);
    Unbeaten(b);
    var x, y := Pick(a).value, Pick(b).value;
    assert x in multiset(b) && y in multiset(a);
    assert x in b && y in a;
    RepoVersion.TotalPreorder(x.pkg.version, y.pkg.version, x.pkg.version);
  }

  // A repository up to the order of its packages.
  datatype Stock = Stock(priority: int, packages: multiset<Pkg>)

  function Stocks(repos: seq<Repository>): seq<Stock>
  {
    if repos == [] then []
    else
      var r := repos[|repos| - 1];
      Stocks(repos[..|repos| - 1]) + [Stock(r.priority, multiset(r.packages))]
  }

  // How often an offer is among those of a repository, and of all of them.
  function Times(s: Stock, o: Offer): nat { if s.priority == o.priority then s.packages[o.pkg] else 0 }

  function AllTimes(stocks: seq<Stock>, o: Offer): nat
  {
    if stocks == [] then 0 else AllTimes(stocks[..|stocks| - 1], o) + Times(stocks[|stocks| - 1], o)
  }

  lemma {:induction false} OffersOfCounts(priority: int, pkgs: seq<Pkg>, name: bytes, o: Offer)
    ensures multiset(OffersOf(priority, pkgs, name))[o] ==
      if o.pkg.name == name && o.priority == priority then multiset(pkgs)[o.pkg] else 0
  {
    if pkgs != [] {
      OffersOfCounts(priority, pkgs[..|pkgs| - 1], name, o);
      assert pkgs == pkgs[..|pkgs| - 1] + [pkgs[|pkgs| - 1]];
    }
  }

  lemma {:induction false} OffersCount(repos: seq<Repository>, name: bytes, o: Offer)
    ensures multiset(Offers(repos, name))[o] == if o.pkg.name == name then AllTimes(Stocks(repos), o) else 0
  {
    if repos != [] {
      var r, init := repos[|repos| - 1], repos[..|repos| - 1];
      OffersCount(init, name, o);
      OffersOfCounts(r.priority, r.packages, name, o);
      assert Stocks(repos)[..|repos| - 1] == Stocks(init) by { StocksLength(init); }
    }
  }

  lemma {:induction false} StocksLength(repos: seq<Repository>)
    ensures |Stocks(repos)| == |repos|
  {
    if repos != [] { StocksLength(repos[..|repos| - 1]); }
  }

  lemma {:induction false} TimesWithout(stocks: seq<Stock>, i: nat, o: Offer)
    requires i < |stocks|
    ensures AllTimes(stocks, o) == AllTimes(stocks[..i] + stocks[i + 1..], o) + Times(stocks[i], o)
  {
    var n := |stocks| - 1;
    if i == n {
      assert stocks[..i] + stocks[i + 1..] == stocks[..n];
    } else {
      TimesWithout(stocks[..n], i, o);
      var rest := stocks[..i] + stocks[i + 1..];
      assert rest[..n - 1] == stocks[..n][..i] + stocks[..n][i + 1..] && rest[n - 1] == stocks[n];
    }
  }

  lemma Without(b: seq<Stock>, i: nat)
    requires i < |b|
    ensures multiset(b[..i] + b[i + 1..]) == multiset(b) - multiset{b[i]}
  {
    assert b == b[..i] + [b[i]] + b[i + 1..];
  }

  lemma {:induction false} TimesPermuted(a: seq<Stock>, b: seq<Stock>, o: Offer)
    requires multiset(a) == multiset(b)
    ensures AllTimes(a, o) == AllTimes(b, o)
  {
    if a == [] {
      assert |multiset(b)| == 0;
    } else {
      var n := |a| - 1;
      assert a[n] in multiset(b);
      var i :| 0 <= i < |b| && b[i] == a[n];
      Without(a, n);
      assert a[..n] + a[n + 1..] == a[..n];
      var rest := b[..i] + b[i + 1..];
      Without(b, i);
      TimesWithout(b, i, o);
      TimesPermuted(a[..n], rest, o);
    }
  }

  // Whatever the order of the repositories and of the packages in each, the choice has the same
  // priority and an equal version.
  lemma OrderDoesNotMatter(a: seq<Repository>, b: seq<Repository>, name: bytes)
    requires multiset(Stocks(a)) == multiset(Stocks(b))
    ensures match (Pick(Offers(a, name)), Pick(Offers(b, name)))
      case (None, None) => true
      case (Some(x), Some(y)) =>
        x.priority == y.priority && RepoVersion.VersionCmp(x.pkg.version, y.pkg.version) == 0
      case _ => false
  {
    hide RepoVersion.VersionCmp, Pick, Offers, AllTimes;
    var x, y := Offers(a, name), Offers(b, name);
    forall o ensures multiset(x)[o] == multiset(y)[o] {
      OffersCount(a, name, o);
      OffersCount(b, name, o);
      TimesPermuted(Stocks(a), Stocks(b), o);
    }
    assert multiset(x) == multiset(y);
    assert |x| == |multiset(x)| == |multiset(y)| == |y|;
    if x != [] { OfferOrder(x, y); }
  }

  // kratos_repo_find on loaded repositories.
  method Find(repos: seq<Repository>, name: bytes) returns (r: Option<Pkg>)
    ensures r == match Pick(Offers(repos, name)) case None => None case Some(o) => Some(o.pkg)
    ensures match r
      case None => forall k, l :: !Offered(repos, name, k, l)
      case Some(p) => exists i: nat, j: nat :: Chosen(repos, name, i, j) && repos[i].packages[j] == p
  {
    hide RepoVersion.VersionCmp, Offers, OffersOf, Pick, Chosen;
    ghost var _, _ := PickIsChosen(repos, name);
    NoOffers(repos[..0], name);
    var best: Option<Pkg> := None;
    var bestPriority := -1;
    for i := 0 to |repos|
      invariant Pick(Offers(repos[..i], name)) == if best.None? then None else Some(Offer(bestPriority, best.value))
    {
      var repo := repos[i];
      ghost var before := Offers(repos[..i], name);
      OffersNext(repos, name, i, 0);
      for j := 0 to |repo.packages|
        invariant Pick(before + OffersOf(repo.priority, repo.packages[..j], name)) ==
          if best.None? then None else Some(Offer(bestPriority, best.value))
      {
        var pkg := repo.packages[j];
        OffersNext(repos, name, i, j);
        if pkg.name != name { continue; }
        PickNext(before, OffersOf(repo.priority, repo.packages[..j], name), Offer(repo.priority, pkg));
        if best == None || repo.priority > bestPriority {
          best, bestPriority := Some(pkg), repo.priority;
        } else {
          var c := RepoVersion.RepoVersionCmp(pkg.version, best.value.version);
          if repo.priority == bestPriority && c > 0 {
            best, bestPriority := Some(pkg), repo.priority;
          }
        }
      }
      assert repo.packages[..|repo.packages|] == repo.packages;
    }
    assert repos[..|repos|] == repos;
    return best;
  }

  lemma NoOffers(repos: seq<Repository>, name: bytes)
    requires repos == []
    ensures Offers(repos, name) == [] && Pick(Offers(repos, name)) == None
  {
  }

  lemma PickNext(before: seq<Offer>, more: seq<Offer>, x: Offer)
    ensures var best := Pick(before + more);
      Pick(before + (more + [x])) == if best.None? || Better(x, best.value) then Some(x) else best
  {
    var s := before + (more + [x]);
    assert s[..|s| - 1] == before + more;
  }

  lemma OffersNext(repos: seq<Repository>, name: bytes, i: nat, j: nat)
    requires i < |repos| && j <= |repos[i].packages|
    ensures var r := repos[i];
      Offers(repos[..i + 1], name) == Offers(repos[..i], name) + OffersOf(r.priority, r.packages, name) &&
      Offers(repos[..i], name) + OffersOf(r.priority, r.packages[..0], name) == Offers(repos[..i], name) &&
      (j < |r.packages| ==>
        OffersOf(r.priority, r.packages[..j + 1], name) ==
          if r.packages[j].name == name then
            OffersOf(r.priority, r.packages[..j], name) + [Offer(r.priority, r.packages[j])]
          else OffersOf(r.priority, r.packages[..j], name))
  {
    assert repos[..i + 1][..i] == repos[..i];
    if j < |repos[i].packages| { assert repos[i].packages[..j + 1][..j] == repos[i].packages[..j]; }
  }

  /* ---- The upgrade pass ---- */

  type Db = map<bytes, bytes>

  // Database entries the enumeration passes over: dot files and names with ".hooks" in them.
  predicate Hidden(name: bytes)
  {
    name == [] || name[0] == 0x2E || Contains(name, [0x2E, 0x68, 0x6F, 0x6F, 0x6B, 0x73])
  }

  // The upgrade the pass attempts for an installed package, if any.
  function Candidate(repos: seq<Repository>, db: Db, name: bytes): Option<Pkg>
  {
    if Hidden(name) || name !in db || db[name] == [] then None
    else
      match Pick(Offers(repos, name))
      case None => None
      case Some(o) => if RepoVersion.VersionCmp(o.pkg.version, db[name]) <= 0 then None else Some(o.pkg)
  }

  // An upgrade is attempted exactly for an entry that is no dot file and has no ".hooks" in its
  // name, with a version, when the package find chooses has a higher one.
  lemma CandidateExactly(repos: seq<Repository>, db: Db, name: bytes)
    ensures var listed := name != [] && name[0] != 0x2E && !Contains(name, [0x2E, 0x68, 0x6F, 0x6F, 0x6B, 0x73]) &&
        name in db && db[name] != [];
      match Candidate(repos, db, name)
      case Some(p) =>
        listed && RepoVersion.VersionCmp(p.version, db[name]) > 0 &&
        exists i: nat, j: nat :: Chosen(repos, name, i, j) && repos[i].packages[j] == p
      case None =>
        !listed || (forall k, l :: !Offered(repos, name, k, l)) ||
        exists i: nat, j: nat ::
          Chosen(repos, name, i, j) && RepoVersion.VersionCmp(repos[i].packages[j].version, db[name]) <= 0
  {
    hide RepoVersion.VersionCmp, Offers, Pick, Chosen, Offered;
    var i, j := PickIsChosen(repos, name);
  }

  // One installed package visited: a successful forced install replaces its version, a failed
  // download or install leaves the entry alone.
  function Visit(repos: seq<Repository>, works: Pkg -> bool, db: Db, name: bytes): Db
  {
    match Candidate(repos, db, name)
    case None => db
    case Some(p) => if works(p) then db[name := p.version] else db
  }

  function Pass(repos: seq<Repository>, works: Pkg -> bool, db: Db, names: seq<bytes>): Db
  {
    if names == [] then db
    else Visit(repos, works, Pass(repos, works, db, names[..|names| - 1]), names[|names| - 1])
  }

  // No entry disappears and no version goes down.
  predicate Advances(old_: Db, new_: Db)
  {
    old_.Keys == new_.Keys && forall n | n in old_ :: RepoVersion.VersionCmp(old_[n], new_[n]) <= 0
  }

  lemma AdvancesLaws(a: Db, b: Db, c: Db)
    ensures Advances(a, a)
    ensures Advances(a, b) && Advances(b, c) ==> Advances(a, c)
  {
    hide RepoVersion.VersionCmp;
    forall n | n in a ensures RepoVersion.VersionCmp(a[n], a[n]) == 0 {
      RepoVersion.TotalPreorder(a[n], a[n], a[n]);
    }
    if Advances(a, b) && Advances(b, c) {
      forall n | n in a ensures RepoVersion.VersionCmp(a[n], c[n]) <= 0 {
        RepoVersion.TotalPreorder(a[n], b[n], c[n]);
      }
    }
  }

  lemma {:induction false} PassAdvances(repos: seq<Repository>, works: Pkg -> bool, db: Db, names: seq<bytes>)
    ensures Advances(db, Pass(repos, works, db, names))
  {
    hide RepoVersion.VersionCmp, Offers, Pick, Hidden;
    AdvancesLaws(db, db, db);
    if names != [] {
      var before, n := Pass(repos, works, db, names[..|names| - 1]), names[|names| - 1];
      PassAdvances(repos, works, db, names[..|names| - 1]);
      AdvancesLaws(before, before, before);
      var after := Visit(repos, works, before, n);
      if n in before { RepoVersion.TotalPreorder(after[n], before[n], after[n]); }
      AdvancesLaws(db, before, after);
    }
  }

  datatype PassInput = PassInput(repos: seq<Repository>, works: Pkg -> bool, names: seq<bytes>)

  function Run(db: Db, passes: seq<PassInput>): Db
    decreases |passes|
  {
    if passes == [] then db
    else
      var p := passes[0];
      Run(Pass(p.repos, p.works, db, p.names), passes[1..])
  }

  // Over any run of passes, with any indexes and any failures, no installed version goes down.
  lemma {:induction false} RunAdvances(db: Db, passes: seq<PassInput>)
    ensures Advances(db, Run(db, passes))
    decreases |passes|
  {
    hide Advances, Pass;
    AdvancesLaws(db, db, db);
    if passes != [] {
      var p := passes[0];
      var next := Pass(p.repos, p.works, db, p.names);
      PassAdvances(p.repos, p.works, db, p.names);
      RunAdvances(next, passes[1..]);
      AdvancesLaws(db, next, Run(db, passes));
    }
  }

  // Every upgrade the pass attempts goes through.
  predicate AllWork(repos: seq<Repository>, works: Pkg -> bool, db: Db, names: seq<bytes>)
  {
    names == [] ||
    (AllWork(repos, works, db, names[..|names| - 1]) &&
     match Candidate(repos, Pass(repos, works, db, names[..|names| - 1]), names[|names| - 1])
     case None => true
     case Some(p) => works(p))
  }

  // A pass changes an entry only by installing, with success, the package find chooses for it.
  lemma {:induction false} ChangedByWorking(repos: seq<Repository>, works: Pkg -> bool, db: Db, names: seq<bytes>,
      name: bytes)
    requires name in db
    ensures var after := Pass(repos, works, db, names);
      name in after &&
      (after[name] == db[name] ||
        exists i: nat, j: nat :: Chosen(repos, name, i, j) && works(repos[i].packages[j]) &&
          repos[i].packages[j].version == after[name])
  {
    hide RepoVersion.VersionCmp, Candidate, Chosen, Offered;
    if names != [] {
      var init, last := names[..|names| - 1], names[|names| - 1];
      ChangedByWorking(repos, works, db, init, name);
      if last == name { CandidateExactly(repos, Pass(repos, works, db, init), name); }
    }
  }

  // After a pass in which every upgrade went through, the same index offers no upgrade for any
  // package the pass visited: a second pass finds none.
  lemma {:induction false} SecondPassFindsNone(repos: seq<Repository>, works: Pkg -> bool, db: Db, names: seq<bytes>,
      name: bytes)
    requires AllWork(repos, works, db, names) && name in names
    ensures Candidate(repos, Pass(repos, works, db, names), name) == None
  {
    hide RepoVersion.VersionCmp, Offers, Pick, Hidden;
    var init, last := names[..|names| - 1], names[|names| - 1];
    var before := Pass(repos, works, db, init);
    if name == last {
      var after := Visit(repos, works, before, last);
      if last in after { RepoVersion.TotalPreorder(after[last], after[last], after[last]); }
    } else {
      SecondPassFindsNone(repos, works, db, init, name);
    }
  }

  // kratos_repo_upgrade
  class Upgrader {
    const repos: seq<Repository>
    var db: Db

    constructor (repos: seq<Repository>, db: Db)
      ensures this.repos == repos && this.db == db
    {
      this.repos, this.db := repos, db;
    }

    // The selection loop, which keeps the priority inside the candidate.
    method Select(name: bytes) returns (best: Option<Offer>)
      ensures best == Pick(Offers(repos, name))
      ensures match best
        case None => forall k, l :: !Offered(repos, name, k, l)
        case Some(o) => exists i: nat, j: nat :: Chosen(repos, name, i, j) && repos[i].packages[j] == o.pkg
    {
      hide RepoVersion.VersionCmp, Offers, OffersOf, Pick, Chosen;
      ghost var _, _ := PickIsChosen(repos, name);
      best := None;
      NoOffers(repos[..0], name);
      for i := 0 to |repos|
        invariant best == Pick(Offers(repos[..i], name))
      {
        var repo := repos[i];
        ghost var before := Offers(repos[..i], name);
        OffersNext(repos, name, i, 0);
        for j := 0 to |repo.packages|
          invariant best == Pick(before + OffersOf(repo.priority, repo.packages[..j], name))
        {
          var pkg := repo.packages[j];
          OffersNext(repos, name, i, j);
          if pkg.name != name { continue; }
          PickNext(before, OffersOf(repo.priority, repo.packages[..j], name), Offer(repo.priority, pkg));
          if best == None || repo.priority > best.value.priority {
            best := Some(Offer(repo.priority, pkg));
          } else {
            var c := RepoVersion.RepoVersionCmp(pkg.version, best.value.pkg.version);
            if repo.priority == best.value.priority && c > 0 { best := Some(Offer(repo.priority, pkg)); }
          }
        }
        assert repo.packages[..|repo.packages|] == repo.packages;
      }
      assert repos[..|repos|] == repos;
    }

    // One pass over the database entries in the order names; works says which
    // downloads and installs succeed. Returns -1 when one of them failed.
    method Upgrade(names: seq<bytes>, works: Pkg -> bool) returns (status: int)
      modifies this
      ensures db == Pass(repos, works, old(db), names)
      ensures status == 0 <==> AllWork(repos, works, old(db), names)
    {
      hide RepoVersion.VersionCmp, Offers, Pick, Hidden;
      var failed := 0;
      for i := 0 to |names|
        invariant db == Pass(repos, works, old(db), names[..i])
        invariant failed >= 0 && (failed == 0 <==> AllWork(repos, works, old(db), names[..i]))
      {
        var name := names[i];
        assert names[..i + 1][..i] == names[..i];
        if Hidden(name) || name !in db || db[name] == [] { continue; }
        var best := Select(name);
        if best == None { continue; }
        var c := RepoVersion.RepoVersionCmp(best.value.pkg.version, db[name]);
        if c <= 0 { continue; }
        if works(best.value.pkg) {
          db := db[name := best.value.pkg.version];
        } else {
          failed := failed + 1;
        }
      }
      assert names[..|names|] == names;
      return if failed > 0 then -1 else 0;
    }
  }
}
