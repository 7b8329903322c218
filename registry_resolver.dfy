/**
 * The registry resolver: group the local packages by target registry,
 * download each group's latest published version into the scratch
 * directory, recover the commit each was published from, and give every
 * downloaded package a git repository of its own.
 */
module RegistryResolver {
  import opened Wrappers
  import opened Text
  import opened Packages

  const DOWNLOAD_CONTEXT := "failed to download packages"
  const INITIALIZE_CONTEXT := "failed to initialize repository package"
  const IDENTITY_UNKNOWN := "Author identity unknown"

  /** The git commands `initialize_registry_package` may run, in their order. */
  const GIT_INIT := ["init"]
  const GIT_ADD_ALL := ["add", "."]
  const GIT_COMMIT := ["commit", "-m", "init"]
  const GIT_SET_EMAIL := ["config", "user.email", "test@registry"]
  const GIT_SET_NAME := ["config", "user.name", "test"]
  const GIT_SCRIPT := [GIT_INIT, GIT_ADD_ALL, GIT_COMMIT, GIT_SET_EMAIL, GIT_SET_NAME, GIT_COMMIT]

  /**
   * The registry a package is downloaded from: the override when given, else
   * the first entry of its `publish` list, else `None` (the default registry).
   */
  function RegistryOf(p: Package, registry: Option<string>): Option<string> {
    if registry.Some? then registry
    else if p.publish.Some? && p.publish.value != [] then Some(p.publish.value[0])
    else None
  }

  /** A run of adjacent packages that share a registry. */
  datatype Group = Group(registry: Option<string>, members: seq<Package>)

  /** The packages of the groups, concatenated in order. */
  function Members(gs: seq<Group>): seq<Package>
    decreases |gs|
  {
    if gs == [] then [] else gs[0].members + Members(gs[1..])
  }

  /** The names of `ps`, in order. */
  function Names(ps: seq<Package>): seq<string> {
    seq(|ps|, i requires 0 <= i < |ps| => ps[i].name)
  }

  /**
   * `gs` cuts `ps` into maximal runs of adjacent packages with equal registry:
   * the groups concatenate back to `ps`, no group is empty, every member's
   * registry is its group's, and neighbouring groups have different registries.
   */
  ghost predicate IsRegistryChunking(ps: seq<Package>, gs: seq<Group>, registry: Option<string>) {
    && Members(gs) == ps
    && (forall i :: 0 <= i < |gs| ==> gs[i].members != [])
    && (forall i, p :: 0 <= i < |gs| && p in gs[i].members ==> RegistryOf(p, registry) == gs[i].registry)
    && (forall i :: 0 < i < |gs| ==> gs[i - 1].registry != gs[i].registry)
  }

  /** A package whose registry is that of the first group joins that group. */
  lemma ChunkingJoinFirst(p: Package, ps: seq<Package>, gs: seq<Group>, registry: Option<string>)
    requires IsRegistryChunking(ps, gs, registry) && gs != [] && gs[0].registry == RegistryOf(p, registry)
    ensures IsRegistryChunking([p] + ps, [Group(gs[0].registry, [p] + gs[0].members)] + gs[1..], registry)
  {
    var hs := [Group(gs[0].registry, [p] + gs[0].members)] + gs[1..];
    assert hs[1..] == gs[1..];
    assert Members(gs) == gs[0].members + Members(gs[1..]);
    assert Members(hs) == [p] + Members(gs);
    assert forall i :: 0 < i < |hs| ==> hs[i] == gs[i];
  }

  /** A package whose registry differs from that of the first group starts a group of its own. */
  lemma ChunkingStartGroup(p: Package, ps: seq<Package>, gs: seq<Group>, registry: Option<string>)
    requires IsRegistryChunking(ps, gs, registry) && (gs == [] || gs[0].registry != RegistryOf(p, registry))
    ensures IsRegistryChunking([p] + ps, [Group(RegistryOf(p, registry), [p])] + gs, registry)
  {
    var hs := [Group(RegistryOf(p, registry), [p])] + gs;
    assert hs[1..] == gs;
    assert forall i :: 0 < i < |hs| ==> hs[i] == gs[i - 1];
  }

  /** `Itertools::chunk_by` keyed by `RegistryOf`. */
  function ChunkByRegistry(ps: seq<Package>, registry: Option<string>): (gs: seq<Group>)
    ensures IsRegistryChunking(ps, gs, registry)
    decreases |ps|
  {
    if ps == [] then []
    else
      var key := RegistryOf(ps[0], registry);
      var rest := ChunkByRegistry(ps[1..], registry);
      assert ps == [ps[0]] + ps[1..];
      if rest != [] && rest[0].registry == key then
        ChunkingJoinFirst(ps[0], ps[1..], rest, registry);
        [Group(key, [ps[0]] + rest[0].members)] + rest[1..]
      else
        ChunkingStartGroup(ps[0], ps[1..], rest, registry);
        [Group(key, [ps[0]])] + rest
  }

  /** Dropping the first package of the first group leaves a chunking of the rest. */
  lemma ChunkingTail(ps: seq<Package>, gs: seq<Group>, registry: Option<string>)
    requires ps != [] && IsRegistryChunking(ps, gs, registry)
    ensures gs != [] && gs[0].members[0] == ps[0] && gs[0].registry == RegistryOf(ps[0], registry)
    ensures |gs[0].members| == 1 ==> IsRegistryChunking(ps[1..], gs[1..], registry)
    ensures |gs[0].members| > 1 ==>
              IsRegistryChunking(ps[1..], [Group(gs[0].registry, gs[0].members[1..])] + gs[1..], registry)
  {
    assert Members(gs) == gs[0].members + Members(gs[1..]);
    assert gs[0].members[0] in gs[0].members;
    if |gs[0].members| == 1 {
      assert forall i :: 0 <= i < |gs[1..]| ==> gs[1..][i] == gs[i + 1];
    } else {
      var hs := [Group(gs[0].registry, gs[0].members[1..])] + gs[1..];
      assert hs[1..] == gs[1..];
      assert Members(hs) == gs[0].members[1..] + Members(gs[1..]);
      assert forall i :: 0 < i < |hs| ==> hs[i] == gs[i];
      forall p | p in hs[0].members ensures RegistryOf(p, registry) == hs[0].registry {
        assert p in gs[0].members;
      }
    }
  }

  /** The chunking is unique: any cut into maximal same-registry runs is the one `chunk_by` produces. */
  lemma {:induction false} ChunkingIsUnique(ps: seq<Package>, gs: seq<Group>, registry: Option<string>)
    requires IsRegistryChunking(ps, gs, registry)
    ensures gs == ChunkByRegistry(ps, registry)
    decreases |ps|
  {
    if ps == [] {
      NoGroupsWithoutMembers(gs);
    } else {
      ChunkingTail(ps, gs, registry);
      var rest := ChunkByRegistry(ps[1..], registry);
      if |gs[0].members| == 1 {
        ChunkingIsUnique(ps[1..], gs[1..], registry);
        assert rest != [] ==> rest[0].registry == gs[1].registry != gs[0].registry;
        assert gs[0].members == [ps[0]];
        assert gs == [gs[0]] + gs[1..];
      } else {
        var hs := [Group(gs[0].registry, gs[0].members[1..])] + gs[1..];
        ChunkingIsUnique(ps[1..], hs, registry);
        assert gs[0].members == [ps[0]] + gs[0].members[1..];
        assert gs == [Group(gs[0].registry, [ps[0]] + rest[0].members)] + rest[1..];
      }
    }
  }

  /** Non-empty groups hold no packages only when there are no groups. */
  lemma NoGroupsWithoutMembers(gs: seq<Group>)
    requires forall i :: 0 <= i < |gs| ==> gs[i].members != []
    ensures Members(gs) == [] <==> gs == []
  {
    if gs != [] {
      assert Members(gs) == gs[0].members + Members(gs[1..]);
    }
  }

  /** With a registry override every package lands in a single group. */
  lemma OverrideMakesOneGroup(ps: seq<Package>, registry: Option<string>)
    requires registry.Some?
    ensures |ChunkByRegistry(ps, registry)| == if ps == [] then 0 else 1
    ensures ps != [] ==> ChunkByRegistry(ps, registry) == [Group(registry, ps)]
  {
    var gs := ChunkByRegistry(ps, registry);
    NoGroupsWithoutMembers(gs);
    if ps != [] {
      assert Members(gs) == gs[0].members + Members(gs[1..]);
      assert RegistryOf(gs[0].members[0], registry) == gs[0].registry;
      assert forall i :: 0 <= i < |gs| ==> RegistryOf(gs[i].members[0], registry) == gs[i].registry == registry;
      assert gs[1..] == [] && Members(gs[1..]) == [];
      assert gs[0].members == ps && gs[0].registry == registry;
      assert gs == [Group(gs[0].registry, gs[0].members)];
    }
  }

  /** The downloader configured for one group. */
  function RequestFor(g: Group, directory: Path): DownloadRequest {
    DownloadRequest(Names(g.members), directory, g.registry)
  }

  /** Group `i`'s download failed while every earlier one succeeded. */
  ghost predicate FirstFailedDownload(gs: seq<Group>, directory: Path,
                                      download: DownloadRequest -> Result<seq<Package>, Error>, i: int) {
    && 0 <= i < |gs|
    && download(RequestFor(gs[i], directory)).Err?
    && forall j :: 0 <= j < i ==> download(RequestFor(gs[j], directory)).Ok?
  }

  /**
   * The packages downloaded group by group, in order; the first failed
   * download aborts with the downloads' context around its error.
   */
  function Downloaded(gs: seq<Group>, directory: Path, download: DownloadRequest -> Result<seq<Package>, Error>)
    : (r: Result<seq<Package>, Error>)
    ensures r.Ok? <==> forall i :: 0 <= i < |gs| ==> download(RequestFor(gs[i], directory)).Ok?
    ensures r.Err? ==> exists i :: FirstFailedDownload(gs, directory, download, i)
                                   && r.error == Context(DOWNLOAD_CONTEXT, download(RequestFor(gs[i], directory)).error)
    ensures r.Ok? ==> forall p :: p in r.value <==>
                        exists i :: 0 <= i < |gs| && download(RequestFor(gs[i], directory)).Ok?
                                    && p in download(RequestFor(gs[i], directory)).value
    decreases |gs|
  {
    if gs == [] then Ok([])
    else
      var init := gs[..|gs| - 1];
      var last := |gs| - 1;
      assert forall i :: 0 <= i < |init| ==> init[i] == gs[i];
      match Downloaded(init, directory, download)
      case Err(e) =>
        assert exists i :: FirstFailedDownload(init, directory, download, i)
                           && e == Context(DOWNLOAD_CONTEXT, download(RequestFor(init[i], directory)).error);
        Err(e)
      case Ok(acc) =>
        match download(RequestFor(gs[last], directory))
        case Err(e) =>
          assert FirstFailedDownload(gs, directory, download, last);
          Err(Context(DOWNLOAD_CONTEXT, e))
        case Ok(fetched) => Ok(acc + fetched)
  }

  /** Once a prefix of the groups fails to download, the whole download fails the same way. */
  lemma {:induction false} DownloadErrorPersists(gs: seq<Group>, k: nat, directory: Path,
                                                 download: DownloadRequest -> Result<seq<Package>, Error>)
    requires k <= |gs| && Downloaded(gs[..k], directory, download).Err?
    ensures Downloaded(gs, directory, download) == Downloaded(gs[..k], directory, download)
    decreases |gs| - k
  {
    if k < |gs| {
      var prefix := gs[..k + 1];
      assert prefix[..|prefix| - 1] == gs[..k];
      assert Downloaded(prefix, directory, download) == Downloaded(gs[..k], directory, download);
      DownloadErrorPersists(gs, k + 1, directory, download);
    } else {
      assert gs[..k] == gs;
    }
  }

  /** The loop over the registry groups that collects every group's download. */
  method DownloadAll(gs: seq<Group>, directory: Path, download: DownloadRequest -> Result<seq<Package>, Error>)
    returns (r: Result<seq<Package>, Error>)
    ensures r == Downloaded(gs, directory, download)
  {
    var registryPackages: seq<Package> := [];
    var i := 0;
    while i < |gs|
      invariant 0 <= i <= |gs|
      invariant Downloaded(gs[..i], directory, download) == Ok(registryPackages)
    {
      assert gs[..i + 1][..i] == gs[..i];
      match download(RequestFor(gs[i], directory))
      case Err(e) =>
        DownloadErrorPersists(gs, i + 1, directory, download);
        return Err(Context(DOWNLOAD_CONTEXT, e));
      case Ok(fetched) =>
        registryPackages := registryPackages + fetched;
      i := i + 1;
    }
    assert gs[..i] == gs;
    return Ok(registryPackages);
  }

  /** The sequences of `xss` concatenated in order. */
  function Concat<T>(xss: seq<seq<T>>): seq<T>
    decreases |xss|
  {
    if xss == [] then [] else xss[0] + Concat(xss[1..])
  }

  /** Concatenating one more sequence appends it. */
  lemma {:induction false} ConcatSnoc<T>(xss: seq<seq<T>>, xs: seq<T>)
    ensures Concat(xss + [xs]) == Concat(xss) + xs
    decreases |xss|
  {
    if xss != [] {
      assert (xss + [xs])[1..] == xss[1..] + [xs];
      ConcatSnoc(xss[1..], xs);
    }
  }

  /** What each group's download returned, in group order, when every download succeeded. */
  function Fetched(gs: seq<Group>, directory: Path, download: DownloadRequest -> Result<seq<Package>, Error>)
    : seq<seq<Package>>
    requires forall i :: 0 <= i < |gs| ==> download(RequestFor(gs[i], directory)).Ok?
  {
    seq(|gs|, i requires 0 <= i < |gs| => download(RequestFor(gs[i], directory)).value)
  }

  /**
   * A successful download is every group's packages concatenated in group
   * order, each group's exactly once, as `extend` builds it.
   */
  lemma {:induction false} DownloadedConcatenatesGroups(gs: seq<Group>, directory: Path,
                                                        download: DownloadRequest -> Result<seq<Package>, Error>)
    requires Downloaded(gs, directory, download).Ok?
    ensures Downloaded(gs, directory, download).value == Concat(Fetched(gs, directory, download))
    decreases |gs|
  {
    if gs != [] {
      var init := gs[..|gs| - 1];
      assert forall i :: 0 <= i < |init| ==> init[i] == gs[i];
      DownloadedConcatenatesGroups(init, directory, download);
      var fetched := download(RequestFor(gs[|gs| - 1], directory)).value;
      assert Fetched(gs, directory, download) == Fetched(init, directory, download) + [fetched];
      ConcatSnoc(Fetched(init, directory, download), fetched);
    }
  }

  /** The names of the groups' members, group by group, are the names of all members in order. */
  lemma {:induction false} NamesOfMembers(gs: seq<Group>)
    ensures Concat(seq(|gs|, i requires 0 <= i < |gs| => Names(gs[i].members))) == Names(Members(gs))
    decreases |gs|
  {
    if gs != [] {
      var nss := seq(|gs|, i requires 0 <= i < |gs| => Names(gs[i].members));
      NamesOfMembers(gs[1..]);
      assert nss[1..] == seq(|gs[1..]|, i requires 0 <= i < |gs[1..]| => Names(gs[1..][i].members));
      assert Names(gs[0].members + Members(gs[1..])) == Names(gs[0].members) + Names(Members(gs[1..]));
    }
  }

  /**
   * The downloads request every package by name exactly once, in the order
   * of the packages: the requests' name lists concatenate to their names.
   */
  lemma RequestsNameEveryPackageOnce(ps: seq<Package>, registry: Option<string>, directory: Path)
    ensures var gs := ChunkByRegistry(ps, registry);
            Concat(seq(|gs|, i requires 0 <= i < |gs| => RequestFor(gs[i], directory).names)) == Names(ps)
  {
    var gs := ChunkByRegistry(ps, registry);
    NamesOfMembers(gs);
    assert seq(|gs|, i requires 0 <= i < |gs| => RequestFor(gs[i], directory).names)
        == seq(|gs|, i requires 0 <= i < |gs| => Names(gs[i].members));
  }

  /** The error text of a failed `git commit` that asks for a committer identity. */
  predicate IsIdentityUnknown(message: string) {
    StartsWith(Trim(message), IDENTITY_UNKNOWN)
  }

  /** The git commands run in a package directory, and how the sequence ended. */
  datatype GitRun = GitRun(commands: seq<seq<string>>, result: Result<(), Error>)

  /**
   * Give a downloaded package a git repository unless it has one: `init`,
   * `add .` and `commit`; when the commit fails for want of an identity, set
   * a throwaway identity and commit once more. Any other commit failure is
   * ignored.
   */
  function InitRepo(d: PackageDir): (r: GitRun)
    ensures r.commands == [] <==> d.hasGitRepo
    ensures r.result.Ok? <==>
              || d.hasGitRepo
              || (&& d.git(0).Ok? && d.git(1).Ok?
                  && (|| d.git(2).Ok?
                      || !IsIdentityUnknown(d.git(2).error)
                      || (d.git(3).Ok? && d.git(4).Ok? && d.git(5).Ok?)))
  {
    if d.hasGitRepo then GitRun([], Ok(()))
    else if d.git(0).Err? then GitRun(GIT_SCRIPT[..1], Err(Failure(d.git(0).error)))
    else if d.git(1).Err? then GitRun(GIT_SCRIPT[..2], Err(Failure(d.git(1).error)))
    else if d.git(2).Ok? || !IsIdentityUnknown(d.git(2).error) then GitRun(GIT_SCRIPT[..3], Ok(()))
    else if d.git(3).Err? then GitRun(GIT_SCRIPT[..4], Err(Failure(d.git(3).error)))
    else if d.git(4).Err? then GitRun(GIT_SCRIPT[..5], Err(Failure(d.git(4).error)))
    else if d.git(5).Err? then GitRun(GIT_SCRIPT, Err(Failure(d.git(5).error)))
    else GitRun(GIT_SCRIPT, Ok(()))
  }

  /** How many commands of the script `InitRepo` runs in `d`. */
  function InitRepoLength(d: PackageDir): nat {
    if d.hasGitRepo then 0
    else if d.git(0).Err? then 1
    else if d.git(1).Err? then 2
    else if d.git(2).Ok? || !IsIdentityUnknown(d.git(2).error) then 3
    else if d.git(3).Err? then 4
    else if d.git(4).Err? then 5
    else 6
  }

  /** The commands run are a prefix of the script, and an error is the last command's. */
  lemma InitRepoRunsPrefix(d: PackageDir)
    ensures var r := InitRepo(d);
            && r.commands <= GIT_SCRIPT
            && (r.result.Err? ==> r.commands != [] && d.git(|r.commands| - 1).Err?
                                  && r.result.error == Failure(d.git(|r.commands| - 1).error))
  {
    var n := InitRepoLength(d);
    assert InitRepo(d).commands == GIT_SCRIPT[..n];
    assert |GIT_SCRIPT[..n]| == n;
  }

  /**
   * Every command but the last succeeded, except a first commit that failed
   * for want of an identity, which alone leads to the identity commands.
   */
  lemma InitRepoConfiguresIdentityOnlyWhenUnknown(d: PackageDir)
    ensures var r := InitRepo(d);
            && (forall n :: 0 <= n < |r.commands| - 1 ==> d.git(n).Ok? || (n == 2 && IsIdentityUnknown(d.git(2).error)))
            && (|r.commands| > 3 ==> d.git(2).Err? && IsIdentityUnknown(d.git(2).error))
  {
    var r := InitRepo(d);
    if d.hasGitRepo || d.git(0).Err? || d.git(1).Err? {
      assert |r.commands| <= 2;
    } else if d.git(2).Ok? || !IsIdentityUnknown(d.git(2).error) {
      assert |r.commands| == 3;
    } else {
      assert d.git(0).Ok? && d.git(1).Ok?;
      assert |r.commands| == InitRepoLength(d) && 4 <= InitRepoLength(d);
    }
  }

/** The commit recorded for a downloaded package: from `.cargo_vcs_info.json` if the file exists. */
  function VcsSha1(d: PackageDir): Option<string> {
    if d.vcsInfo.Some? then d.vcsInfo.value else None
  }

  /**
   * `initialize_registry_package` for one package: read and delete the vcs
   * info file, then set up the git repository.
   */
  function InitializeOne(p: Package, d: PackageDir): (r: Result<PublishedPackage, Error>)
    ensures r.Ok? ==> r.value.package == p
    ensures r.Ok? && d.vcsInfo.None? ==> r.value.sha1 == None
    ensures r.Ok? && d.vcsInfo.Some? ==> r.value.sha1 == d.vcsInfo.value
    ensures r.Ok? <==> (d.vcsInfo.None? || d.removeVcsInfo.Ok?) && InitRepo(d).result.Ok?
    ensures d.vcsInfo.Some? && d.removeVcsInfo.Err? ==> r == Err(Failure(d.removeVcsInfo.error))
  {
    if d.vcsInfo.Some? && d.removeVcsInfo.Err? then Err(Failure(d.removeVcsInfo.error))
    else
      var git := InitRepo(d);
      if git.result.Err? then Err(git.result.error) else Ok(PublishedPackage(p, VcsSha1(d)))
  }

  /** The per-package step of `initialize_registry_package`, with each package's directory from `packageDir`. */
  function InitializeWith(packageDir: Package -> PackageDir): Package -> Result<PublishedPackage, Error> {
    p => InitializeOne(p, packageDir(p))
  }

  /** Package `i` failed to initialize while every earlier one succeeded. */
  ghost predicate FirstFailedInit(ps: seq<Package>, init: Package -> Result<PublishedPackage, Error>, i: int) {
    && 0 <= i < |ps|
    && init(ps[i]).Err?
    && forall j :: 0 <= j < i ==> init(ps[j]).Ok?
  }

  /**
   * `initialize_registry_package` over all downloaded packages, `init` being
   * the step for one package: one published package per downloaded package,
   * in order, or the first failing package's error.
   */
  function InitializedAll(ps: seq<Package>, init: Package -> Result<PublishedPackage, Error>)
    : (r: Result<seq<PublishedPackage>, Error>)
    ensures r.Ok? <==> forall i :: 0 <= i < |ps| ==> init(ps[i]).Ok?
    ensures r.Ok? ==> |r.value| == |ps| && forall i :: 0 <= i < |ps| ==> r.value[i] == init(ps[i]).value
    ensures r.Err? ==> exists i :: FirstFailedInit(ps, init, i) && r.error == init(ps[i]).error
    decreases |ps|
  {
    if ps == [] then Ok([])
    else
      var front := ps[..|ps| - 1];
      var last := |ps| - 1;
      assert forall i :: 0 <= i < |front| ==> front[i] == ps[i];
      match InitializedAll(front, init)
      case Err(e) =>
        assert exists i :: FirstFailedInit(front, init, i) && e == init(front[i]).error;
        Err(e)
      case Ok(acc) =>
        match init(ps[last])
        case Err(e) =>
          assert FirstFailedInit(ps, init, last);
          Err(e)
        case Ok(published) => Ok(acc + [published])
  }

  /** Once a prefix of the packages fails to initialize, the whole run fails the same way. */
  lemma {:induction false} InitErrorPersists(ps: seq<Package>, k: nat, init: Package -> Result<PublishedPackage, Error>)
    requires k <= |ps| && InitializedAll(ps[..k], init).Err?
    ensures InitializedAll(ps, init) == InitializedAll(ps[..k], init)
    decreases |ps| - k
  {
    if k < |ps| {
      var prefix := ps[..k + 1];
      assert prefix[..|prefix| - 1] == ps[..k];
      assert InitializedAll(prefix, init) == InitializedAll(ps[..k], init);
      InitErrorPersists(ps, k + 1, init);
    } else {
      assert ps[..k] == ps;
    }
  }

  /** One more package: its failure ends the whole run with its error, its success extends the result. */
  lemma InitStep(ps: seq<Package>, i: nat, init: Package -> Result<PublishedPackage, Error>, acc: seq<PublishedPackage>)
    requires i < |ps| && InitializedAll(ps[..i], init) == Ok(acc)
    ensures init(ps[i]).Err? ==> InitializedAll(ps, init) == Err(init(ps[i]).error)
    ensures init(ps[i]).Ok? ==> InitializedAll(ps[..i + 1], init) == Ok(acc + [init(ps[i]).value])
  {
    assert ps[..i + 1][..i] == ps[..i];
    if init(ps[i]).Err? {
      InitErrorPersists(ps, i + 1, init);
    }
  }

  /** `initialize_registry_package`: the loop that prepares every downloaded package. */
  method InitializeRegistryPackages(ps: seq<Package>, packageDir: Package -> PackageDir)
    returns (r: Result<seq<PublishedPackage>, Error>)
    ensures r == InitializedAll(ps, InitializeWith(packageDir))
  {
    var registryPackages: seq<PublishedPackage> := [];
    for i := 0 to |ps|
      invariant InitializedAll(ps[..i], InitializeWith(packageDir)) == Ok(registryPackages)
    {
      var p := ps[i];
      var d := packageDir(p);
      InitStep(ps, i, InitializeWith(packageDir), registryPackages);
      assert InitializeWith(packageDir)(p) == InitializeOne(p, d);
      var sha1: Option<string>;
      if d.vcsInfo.Some? {
        sha1 := d.vcsInfo.value;
        if d.removeVcsInfo.Err? {
          return Err(Failure(d.removeVcsInfo.error));
        }
      } else {
        sha1 := None;
      }
      var git := InitRepo(d);
      if git.result.Err? {
        return Err(git.result.error);
      }
      registryPackages := registryPackages + [PublishedPackage(p, sha1)];
    }
    assert ps[..|ps|] == ps;
    return Ok(registryPackages);
  }

  /** Wraps a packages list read from a manifest as published packages without a commit. */
  function WithoutSha1(ps: seq<Package>): seq<PublishedPackage> {
    seq(|ps|, i requires 0 <= i < |ps| => PublishedPackage(ps[i], None))
  }

  /**
   * `get_registry_packages` as a function of the collection's state: read the
   * packages from the given manifest, or download them group by group into
   * the scratch directory and prepare them; then insert them all.
   */
  function RegistryRun(s: Snapshot, registryManifest: Option<Path>, localPackages: seq<Package>,
                       registry: Option<string>, host: Host): Step
  {
    match registryManifest
    case Some(manifest) =>
      (match host.publishableFromManifest(manifest)
       case Err(e) => Step(s, Err(e))
       case Ok(ps) => Step(s.(packages := ExtendMap(s.packages, WithoutSha1(ps))), Ok(())))
    case None =>
      var (slot, dir) := AcquireTempDir(s.tempDir, host.tempdir);
      var s1 := s.(tempDir := slot);
      if dir.Err? then Step(s1, Err(dir.error))
      else
        match Downloaded(ChunkByRegistry(localPackages, registry), dir.value.path, host.download)
        case Err(e) => Step(s1, Err(e))
        case Ok(downloaded) =>
          match InitializedAll(downloaded, InitializeWith(host.packageDir))
          case Err(e) => Step(s1, Err(Context(INITIALIZE_CONTEXT, e)))
          case Ok(published) => Step(s1.(packages := ExtendMap(s1.packages, published)), Ok(()))
  }

  /**
   * The registry resolver keeps the collection's invariant, never replaces a
   * scratch directory it finds, and inserts nothing when it fails.
   */
  lemma RegistryRunKeepsInvariant(s: Snapshot, registryManifest: Option<Path>, localPackages: seq<Package>,
                                  registry: Option<string>, host: Host)
    requires KeysAreNames(s.packages)
    ensures var t := RegistryRun(s, registryManifest, localPackages, registry, host);
            && KeysAreNames(t.state.packages)
            && (s.tempDir.Some? ==> t.state.tempDir == s.tempDir)
            && (t.state.tempDir.None? ==> s.tempDir.None?)
            && (t.result.Err? ==> t.state.packages == s.packages)
  {
    match registryManifest
    case Some(manifest) =>
      if host.publishableFromManifest(manifest).Ok? {
        ExtendMapKeepsKeysAreNames(s.packages, WithoutSha1(host.publishableFromManifest(manifest).value));
      }
    case None =>
      var (slot, dir) := AcquireTempDir(s.tempDir, host.tempdir);
      if dir.Ok? {
        var d := Downloaded(ChunkByRegistry(localPackages, registry), dir.value.path, host.download);
        if d.Ok? && InitializedAll(d.value, InitializeWith(host.packageDir)).Ok? {
          ExtendMapKeepsKeysAreNames(s.packages, InitializedAll(d.value, InitializeWith(host.packageDir)).value);
        }
      }
  }

  /**
   * With a manifest given, nothing is downloaded and no scratch directory is
   * created; every package read from the manifest is inserted with no commit,
   * and every entry of the result was there before or is such a package.
   */
  lemma ManifestPackagesHaveNoSha1(s: Snapshot, manifest: Path, localPackages: seq<Package>,
                                   registry: Option<string>, host: Host)
    requires host.publishableFromManifest(manifest).Ok?
    ensures var read := host.publishableFromManifest(manifest).value;
            var t := RegistryRun(s, Some(manifest), localPackages, registry, host);
            && t.result.Ok?
            && t.state.tempDir == s.tempDir
            && (forall p :: p in read ==> p.name in t.state.packages)
            && (forall k :: k in t.state.packages ==>
                  (k in s.packages && t.state.packages[k] == s.packages[k])
                  || (t.state.packages[k].sha1 == None && t.state.packages[k].package in read))
  {
    var read := host.publishableFromManifest(manifest).value;
    var pubs := WithoutSha1(read);
    ExtendMapProvenance(s.packages, pubs);
    ExtendMapCoversNames(s.packages, pubs);
    forall p | p in read ensures p.name in ExtendMap(s.packages, pubs) {
      var i :| 0 <= i < |read| && read[i] == p;
      assert pubs[i].package.name == p.name;
    }
  }

  /**
   * Without a manifest, a successful run inserts every downloaded package,
   * each carrying the commit from its vcs info file when that file exists and
   * no commit otherwise; nothing else changes.
   */
  lemma DownloadedPackagesCarryVcsSha1(s: Snapshot, localPackages: seq<Package>, registry: Option<string>, host: Host)
    ensures var t := RegistryRun(s, None, localPackages, registry, host);
            t.result.Ok? ==>
              && t.state.tempDir.Some?
              && Downloaded(ChunkByRegistry(localPackages, registry), t.state.tempDir.value.path, host.download).Ok?
    ensures var t := RegistryRun(s, None, localPackages, registry, host);
            t.result.Ok? ==>
              var dir := t.state.tempDir.value.path;
              var downloaded := Downloaded(ChunkByRegistry(localPackages, registry), dir, host.download).value;
              && (forall p :: p in downloaded ==> p.name in t.state.packages)
              && (forall k :: k in t.state.packages ==>
                    (k in s.packages && t.state.packages[k] == s.packages[k])
                    || (t.state.packages[k].package in downloaded
                        && t.state.packages[k].sha1 == VcsSha1(host.packageDir(t.state.packages[k].package))))
  {
    var (slot, dir) := AcquireTempDir(s.tempDir, host.tempdir);
    if dir.Ok? {
      var d := Downloaded(ChunkByRegistry(localPackages, registry), dir.value.path, host.download);
      if d.Ok? && InitializedAll(d.value, InitializeWith(host.packageDir)).Ok? {
        InitializedCarryVcsSha1(d.value, host.packageDir);
        InsertedFromPackages(s.packages, d.value, InitializedAll(d.value, InitializeWith(host.packageDir)).value, host.packageDir);
      }
    }
  }

  /** Each prepared package is the downloaded one, carrying the commit of its vcs info file, if any. */
  lemma InitializedCarryVcsSha1(ps: seq<Package>, packageDir: Package -> PackageDir)
    requires InitializedAll(ps, InitializeWith(packageDir)).Ok?
    ensures var pubs := InitializedAll(ps, InitializeWith(packageDir)).value;
            && |pubs| == |ps|
            && forall i :: 0 <= i < |ps| ==> pubs[i] == PublishedPackage(ps[i], VcsSha1(packageDir(ps[i])))
  {
    var pubs := InitializedAll(ps, InitializeWith(packageDir)).value;
    forall i | 0 <= i < |ps| ensures pubs[i] == PublishedPackage(ps[i], VcsSha1(packageDir(ps[i]))) {
      assert InitializeWith(packageDir)(ps[i]) == InitializeOne(ps[i], packageDir(ps[i]));
    }
  }

  /**
   * Inserting packages prepared from `ps` covers every name in `ps`, and each
   * entry is either untouched or one of `ps` with its vcs commit.
   */
  lemma InsertedFromPackages(m: map<string, PublishedPackage>, ps: seq<Package>, pubs: seq<PublishedPackage>,
                             packageDir: Package -> PackageDir)
    requires |pubs| == |ps|
    requires forall i :: 0 <= i < |ps| ==> pubs[i] == PublishedPackage(ps[i], VcsSha1(packageDir(ps[i])))
    ensures forall p :: p in ps ==> p.name in ExtendMap(m, pubs)
    ensures forall k :: k in ExtendMap(m, pubs) ==>
              (k in m && ExtendMap(m, pubs)[k] == m[k])
              || (ExtendMap(m, pubs)[k].package in ps
                  && ExtendMap(m, pubs)[k].sha1 == VcsSha1(packageDir(ExtendMap(m, pubs)[k].package)))
  {
    ExtendMapProvenance(m, pubs);
    ExtendMapCoversNames(m, pubs);
    forall p | p in ps ensures p.name in ExtendMap(m, pubs) {
      var i :| 0 <= i < |ps| && ps[i] == p;
      assert pubs[i].package.name == p.name;
    }
    forall k | k in ExtendMap(m, pubs) && ExtendMap(m, pubs)[k] in pubs
      ensures ExtendMap(m, pubs)[k].package in ps
      ensures ExtendMap(m, pubs)[k].sha1 == VcsSha1(packageDir(ExtendMap(m, pubs)[k].package))
    {
      var i :| 0 <= i < |pubs| && pubs[i] == ExtendMap(m, pubs)[k];
    }
  }
}
