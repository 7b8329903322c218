/**
 * `PackagesCollection`, the published packages keyed by name, with the scratch
 * directory it may own, and `get_latest_packages`, which fills a fresh
 * collection from the registry and then from git tags.
 */
module PublishedPackages {
  import opened Wrappers
  import opened Packages
  import opened TagMatcher
  import RegistryResolver
  import opened TagResolver

  class PackagesCollection {
    /** Published packages by package name. */
    var packages: map<string, PublishedPackage>
    /** The scratch directory packages are stored in, created on first use. */
    var tempDir: Option<ScratchDir>

    /** Every entry sits under its own package's name. */
    ghost predicate Valid()
      reads this
    {
      KeysAreNames(packages)
    }

    /** The collection's fields as a value. */
    function Snap(): Snapshot
      reads this
    {
      Snapshot(packages, tempDir)
    }

    /** `new`: no packages and no scratch directory. */
    constructor ()
      ensures Valid()
      ensures packages == map[] && tempDir == None
    {
      packages := map[];
      tempDir := None;
    }

    /** `get_published_package`: the entry stored under `name`. */
    function GetPublishedPackage(name: string): (r: Option<PublishedPackage>)
      reads this
      ensures r.Some? <==> name in packages
      ensures r.Some? ==> r.value == packages[name]
      ensures Valid() && r.Some? ==> r.value.package.name == name
    {
      if name in packages then Some(packages[name]) else None
    }

    /** `get_package`: the manifest of the entry stored under `name`. */
    function GetPackage(name: string): (r: Option<Package>)
      reads this
      ensures r.Some? <==> GetPublishedPackage(name).Some?
      ensures r.Some? ==> r.value == GetPublishedPackage(name).value.package
      ensures Valid() && r.Some? ==> r.value.name == name
    {
      match GetPublishedPackage(name)
      case None => None
      case Some(p) => Some(p.package)
    }

    /**
     * `temp_dir`: the held scratch directory, or a new one when none is held
     * yet (`created` is what creating one yields). A held directory is never
     * replaced, so one is created at most once over the collection's life.
     */
    method TempDir(created: Result<ScratchDir, string>) returns (r: Result<ScratchDir, Error>)
      requires Valid()
      modifies this`tempDir
      ensures Valid()
      ensures (tempDir, r) == AcquireTempDir(old(tempDir), created)
      ensures old(tempDir).Some? ==> tempDir == old(tempDir) && r == Ok(old(tempDir).value)
    {
      if tempDir.None? {
        match created
        case Err(e) =>
          return Err(Context(TEMP_DIR_CONTEXT, Failure(e)));
        case Ok(dir) =>
          tempDir := Some(dir);
      }
      return Ok(tempDir.value);
    }

    /** `push`: store `p` under its name, replacing any entry with that name. */
    method Push(p: PublishedPackage)
      requires Valid()
      modifies this`packages
      ensures Valid()
      ensures packages == old(packages)[p.package.name := p]
      ensures GetPublishedPackage(p.package.name) == Some(p) && GetPackage(p.package.name) == Some(p.package)
    {
      packages := packages[p.package.name := p];
    }

    /** `extend`: store each of `ps` under its name, in order, later ones replacing earlier ones. */
    method Extend(ps: seq<PublishedPackage>)
      requires Valid()
      modifies this`packages
      ensures Valid()
      ensures packages == ExtendMap(old(packages), ps)
    {
      ghost var before := packages;
      for i := 0 to |ps|
        invariant packages == ExtendMap(before, ps[..i])
      {
        assert ps[..i + 1][..i] == ps[..i];
        packages := packages[ps[i].package.name := ps[i]];
      }
      assert ps[..|ps|] == ps;
      ExtendMapKeepsKeysAreNames(before, ps);
    }

    /** `get_registry_packages`: read or download the registry's packages and store them. */
    method GetRegistryPackages(registryManifest: Option<Path>, localPackages: seq<Package>,
                               registry: Option<string>, host: Host)
      returns (r: Result<(), Error>)
      requires Valid()
      modifies this
      ensures Valid()
      ensures Step(Snap(), r) == RegistryResolver.RegistryRun(old(Snap()), registryManifest, localPackages, registry, host)
    {
      match registryManifest {
        case Some(manifest) =>
          var read := host.publishableFromManifest(manifest);
          if read.Err? {
            return Err(read.error);
          }
          Extend(RegistryResolver.WithoutSha1(read.value));
        case None =>
          var dir := TempDir(host.tempdir);
          if dir.Err? {
            return Err(dir.error);
          }
          var groups := RegistryResolver.ChunkByRegistry(localPackages, registry);
          var downloaded := RegistryResolver.DownloadAll(groups, dir.value.path, host.download);
          if downloaded.Err? {
            return Err(downloaded.error);
          }
          var published := RegistryResolver.InitializeRegistryPackages(downloaded.value, host.packageDir);
          if published.Err? {
            return Err(Context(RegistryResolver.INITIALIZE_CONTEXT, published.error));
          }
          Extend(published.value);
      }
      return Ok(());
    }

    /** `get_latest_tagged_packages`: store each package from the worktree of its latest release tag. */
    method GetLatestTaggedPackages(project: Project, repo: Repo, ps: seq<Package>, host: Host)
      returns (r: Result<(), Error>)
      requires Valid()
      modifies this
      ensures Valid()
      ensures Step(Snap(), r) == TagRun(old(Snap()), ps, project, repo, host)
    {
      var tags := repo.tagsDescending;
      for i := 0 to |ps|
        invariant Valid()
        invariant TagRun(old(Snap()), ps, project, repo, host) == TagRun(Snap(), ps[i..], project, repo, host)
      {
        var package := ps[i];
        assert ps[i..][1..] == ps[i + 1..];
        var releaseTags := FilterReleaseTags(tags, package.name, project);
        if releaseTags == [] {
          continue;
        }
        var releaseTag := releaseTags[0];
        var dir := TempDir(host.tempdir);
        if dir.Err? {
          return Err(dir.error);
        }
        var storeDir := dir.value.path + [package.name];
        var added := repo.addWorktree(storeDir, releaseTag);
        if added.Err? {
          return Err(added.error);
        }
        var metadata := repo.manifestAtTag(storeDir + [CARGO_TOML], releaseTag);
        if metadata.Err? {
          return Err(Context(ManifestContext(releaseTag), metadata.error));
        }
        var found := FindByName(metadata.value, package.name);
        if found.None? {
          return Err(Failure(NotInManifestMessage(package.name, releaseTag)));
        }
        Push(PublishedPackage(found.value, repo.tagCommit(releaseTag)));
      }
      return Ok(());
    }
  }

  /** `get_latest_packages` as a function: the registry resolver on an empty collection, then the tag resolver. */
  function Resolve(project: Project, repo: Repo, registryPackages: seq<Package>, gitOnlyPackages: seq<Package>,
                   registryManifest: Option<Path>, registry: Option<string>, host: Host): Step
  {
    var reg := RegistryResolver.RegistryRun(Snapshot(map[], None), registryManifest, registryPackages, registry, host);
    if reg.result.Err? then reg else TagRun(reg.state, gitOnlyPackages, project, repo, host)
  }

  /** `get_latest_packages`: a new collection filled from the registry, then from git tags. */
  method GetLatestPackages(project: Project, repo: Repo, registryPackages: seq<Package>, gitOnlyPackages: seq<Package>,
                           registryManifest: Option<Path>, registry: Option<string>, host: Host)
    returns (r: Result<PackagesCollection, Error>)
    ensures var t := Resolve(project, repo, registryPackages, gitOnlyPackages, registryManifest, registry, host);
            && (r.Ok? <==> t.result.Ok?)
            && (r.Err? ==> r.error == t.result.error)
            && (r.Ok? ==> fresh(r.value) && r.value.Valid() && r.value.Snap() == t.state)
  {
    var collection := new PackagesCollection();
    var fromRegistry := collection.GetRegistryPackages(registryManifest, registryPackages, registry, host);
    if fromRegistry.Err? {
      return Err(fromRegistry.error);
    }
    var fromTags := collection.GetLatestTaggedPackages(project, repo, gitOnlyPackages, host);
    if fromTags.Err? {
      return Err(fromTags.error);
    }
    return Ok(collection);
  }

  /**
   * A resolved collection stores every entry under its own name, and the
   * tag phase keeps the scratch directory the registry phase created.
   */
  lemma ResolvedKeysAreNames(project: Project, repo: Repo, registryPackages: seq<Package>, gitOnlyPackages: seq<Package>,
                             registryManifest: Option<Path>, registry: Option<string>, host: Host)
    ensures var reg := RegistryResolver.RegistryRun(Snapshot(map[], None), registryManifest, registryPackages, registry, host);
            var t := Resolve(project, repo, registryPackages, gitOnlyPackages, registryManifest, registry, host);
            && KeysAreNames(t.state.packages)
            && (reg.state.tempDir.Some? ==> t.state.tempDir == reg.state.tempDir)
  {
    var reg := RegistryResolver.RegistryRun(Snapshot(map[], None), registryManifest, registryPackages, registry, host);
    RegistryResolver.RegistryRunKeepsInvariant(Snapshot(map[], None), registryManifest, registryPackages, registry, host);
    if reg.result.Ok? {
      TagRunKeepsInvariant(reg.state, gitOnlyPackages, project, repo, host);
    }
  }

  /**
   * A successful resolution holds every released git-only package under its
   * name, keeps every registry entry whose name no git-only package carries,
   * and holds nothing else.
   */
  lemma ResolvedHoldsBothSources(project: Project, repo: Repo, registryPackages: seq<Package>,
                                 gitOnlyPackages: seq<Package>, registryManifest: Option<Path>,
                                 registry: Option<string>, host: Host)
    ensures var reg := RegistryResolver.RegistryRun(Snapshot(map[], None), registryManifest, registryPackages, registry, host);
            var t := Resolve(project, repo, registryPackages, gitOnlyPackages, registryManifest, registry, host);
            t.result.Ok? ==>
              && reg.result.Ok?
              && (forall i :: 0 <= i < |gitOnlyPackages| && HasReleaseTag(gitOnlyPackages[i], project, repo) ==>
                    gitOnlyPackages[i].name in t.state.packages)
              && (forall k :: k in reg.state.packages && (forall i :: 0 <= i < |gitOnlyPackages| ==> gitOnlyPackages[i].name != k) ==>
                    k in t.state.packages && t.state.packages[k] == reg.state.packages[k])
              && (forall k :: k in t.state.packages ==>
                    k in reg.state.packages
                    || exists i :: 0 <= i < |gitOnlyPackages| && gitOnlyPackages[i].name == k
                                   && HasReleaseTag(gitOnlyPackages[i], project, repo))
  {
    var reg := RegistryResolver.RegistryRun(Snapshot(map[], None), registryManifest, registryPackages, registry, host);
    RegistryResolver.RegistryRunKeepsInvariant(Snapshot(map[], None), registryManifest, registryPackages, registry, host);
    if reg.result.Ok? {
      TagRunStoresReleased(reg.state, gitOnlyPackages, project, repo, host);
      TagRunAddsOnlyReleased(reg.state, gitOnlyPackages, project, repo, host);
      TagRunKeepsOthers(reg.state, gitOnlyPackages, project, repo, host);
    }
  }

  /**
   * With the registry packages read from a manifest and no git-only package
   * released, no scratch directory is ever created.
   */
  lemma NoScratchDirWithoutDownloads(project: Project, repo: Repo, registryPackages: seq<Package>,
                                     gitOnlyPackages: seq<Package>, manifest: Path,
                                     registry: Option<string>, host: Host)
    requires forall i :: 0 <= i < |gitOnlyPackages| ==> !HasReleaseTag(gitOnlyPackages[i], project, repo)
    ensures Resolve(project, repo, registryPackages, gitOnlyPackages, Some(manifest), registry, host).state.tempDir == None
  {
    var reg := RegistryResolver.RegistryRun(Snapshot(map[], None), Some(manifest), registryPackages, registry, host);
    if reg.result.Ok? {
      TagRunSkipsUnreleased(reg.state, gitOnlyPackages, project, repo, host);
    }
  }
}
