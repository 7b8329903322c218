/**
 * The git-tag resolver: for each package that is not published to a
 * registry, find its latest release tag, check that revision out into a
 * worktree under the scratch directory, and record the package's manifest
 * there together with the commit the tag points to.
 */
module TagResolver {
  import opened Wrappers
  import opened Packages
  import opened TagMatcher

  const CARGO_TOML := "Cargo.toml"

  /** Context added when the manifest in the worktree cannot be read. */
  function ManifestContext(tag: string): string {
    "failed to get root manifest metadata at tag '" + tag + "'"
  }

  /** Error when the worktree's manifest does not list the package. */
  function NotInManifestMessage(name: string, tag: string): string {
    "could not retrieve package '" + name + "' in manifest at tag '" + tag + "'"
  }

  /** The first release tag of `name` in the newest-first tag list, if any. */
  function LatestReleaseTag(tags: seq<string>, name: string, project: Project): Option<string> {
    var releaseTags := FilterReleaseTags(tags, name, project);
    if releaseTags == [] then None else Some(releaseTags[0])
  }

  /** `LatestReleaseTag` is the earliest tag in the list that the template recognises. */
  lemma LatestReleaseTagIsEarliestMatch(tags: seq<string>, name: string, project: Project, k: nat)
    requires k < |tags| && IsReleaseTag(tags[k], name, project)
    requires forall j :: 0 <= j < k ==> !IsReleaseTag(tags[j], name, project)
    ensures LatestReleaseTag(tags, name, project) == Some(tags[k])
  {
    FirstResultIsEarliest(tags, name, project);
  }

  /**
   * The manifest entry for `p` in its worktree under `dir` checked out at
   * `tag`, or `None` when the manifest cannot be read or does not list `p`.
   */
  function TreePackage(repo: Repo, dir: ScratchDir, p: Package, tag: string): (r: Option<Package>)
    ensures r.Some? ==> r.value.name == p.name
  {
    match repo.manifestAtTag(dir.path + [p.name] + [CARGO_TOML], tag)
    case Err(_) => None
    case Ok(metadata) => FindByName(metadata, p.name)
  }

  /** One iteration of `get_latest_tagged_packages`' loop, for package `p`. */
  function TagStep(s: Snapshot, p: Package, project: Project, repo: Repo, host: Host): Step {
    match LatestReleaseTag(repo.tagsDescending, p.name, project)
    case None => Step(s, Ok(()))
    case Some(tag) =>
      var (slot, dir) := AcquireTempDir(s.tempDir, host.tempdir);
      var s1 := s.(tempDir := slot);
      if dir.Err? then Step(s1, Err(dir.error))
      else
        var store := dir.value.path + [p.name];
        match repo.addWorktree(store, tag)
        case Err(e) => Step(s1, Err(e))
        case Ok(_) =>
          match repo.manifestAtTag(store + [CARGO_TOML], tag)
          case Err(e) => Step(s1, Err(Context(ManifestContext(tag), e)))
          case Ok(metadata) =>
            match FindByName(metadata, p.name)
            case None => Step(s1, Err(Failure(NotInManifestMessage(p.name, tag))))
            case Some(found) =>
              Step(s1.(packages := s1.packages[found.name := PublishedPackage(found, repo.tagCommit(tag))]), Ok(()))
  }

  /** `get_latest_tagged_packages` as a function of the collection's state: the steps in order, up to the first error. */
  function TagRun(s: Snapshot, ps: seq<Package>, project: Project, repo: Repo, host: Host): Step
    decreases |ps|
  {
    if ps == [] then Step(s, Ok(()))
    else
      var t := TagStep(s, ps[0], project, repo, host);
      if t.result.Err? then t else TagRun(t.state, ps[1..], project, repo, host)
  }

  /** `p` has been released under the project's tag template. */
  predicate HasReleaseTag(p: Package, project: Project, repo: Repo) {
    LatestReleaseTag(repo.tagsDescending, p.name, project).Some?
  }

  /**
   * One step: a package without a release tag is skipped and changes nothing;
   * a package with one that succeeds is stored under its own name, from the
   * manifest at its latest release tag, with that tag's commit, and no other
   * entry changes. The step keeps the invariant and never replaces the
   * scratch directory.
   */
  lemma TagStepEffect(s: Snapshot, p: Package, project: Project, repo: Repo, host: Host)
    requires KeysAreNames(s.packages)
    ensures var t := TagStep(s, p, project, repo, host);
            && KeysAreNames(t.state.packages)
            && (s.tempDir.Some? ==> t.state.tempDir == s.tempDir)
            && (t.state.tempDir.None? ==> s.tempDir.None?)
            && (!HasReleaseTag(p, project, repo) ==> t == Step(s, Ok(())))
            && (t.result.Ok? && HasReleaseTag(p, project, repo) ==>
                  var tag := LatestReleaseTag(repo.tagsDescending, p.name, project).value;
                  && t.state.tempDir.Some?
                  && TreePackage(repo, t.state.tempDir.value, p, tag).Some?
                  && p.name in t.state.packages
                  && t.state.packages[p.name]
                     == PublishedPackage(TreePackage(repo, t.state.tempDir.value, p, tag).value, repo.tagCommit(tag)))
            && (forall k :: k != p.name ==> (k in t.state.packages <==> k in s.packages))
            && (forall k :: k != p.name && k in s.packages ==> t.state.packages[k] == s.packages[k])
  {
  }

  /**
   * The first matching tag wins: when the k-th tag of the newest-first list
   * is the first release tag of `p`, a successful step records the package
   * read from the tree of exactly that tag, with that tag's commit.
   */
  lemma TagStepUsesNewestReleaseTag(s: Snapshot, p: Package, project: Project, repo: Repo, host: Host, k: nat)
    requires KeysAreNames(s.packages)
    requires k < |repo.tagsDescending| && IsReleaseTag(repo.tagsDescending[k], p.name, project)
    requires forall j :: 0 <= j < k ==> !IsReleaseTag(repo.tagsDescending[j], p.name, project)
    ensures var t := TagStep(s, p, project, repo, host);
            var tag := repo.tagsDescending[k];
            t.result.Ok? ==>
              && t.state.tempDir.Some?
              && TreePackage(repo, t.state.tempDir.value, p, tag).Some?
              && p.name in t.state.packages
              && t.state.packages[p.name]
                 == PublishedPackage(TreePackage(repo, t.state.tempDir.value, p, tag).value, repo.tagCommit(tag))
  {
    LatestReleaseTagIsEarliestMatch(repo.tagsDescending, p.name, project, k);
    TagStepEffect(s, p, project, repo, host);
  }

  /** The tag resolver keeps the collection's invariant and never replaces the scratch directory. */
  lemma {:induction false} TagRunKeepsInvariant(s: Snapshot, ps: seq<Package>, project: Project, repo: Repo, host: Host)
    requires KeysAreNames(s.packages)
    ensures var t := TagRun(s, ps, project, repo, host);
            && KeysAreNames(t.state.packages)
            && (s.tempDir.Some? ==> t.state.tempDir == s.tempDir)
            && (t.state.tempDir.None? ==> s.tempDir.None?)
    decreases |ps|
  {
    if ps != [] {
      TagStepEffect(s, ps[0], project, repo, host);
      var t := TagStep(s, ps[0], project, repo, host);
      if t.result.Ok? {
        TagRunKeepsInvariant(t.state, ps[1..], project, repo, host);
      }
    }
  }

  /** When none of the packages has a release tag, the run changes nothing and succeeds. */
  lemma {:induction false} TagRunSkipsUnreleased(s: Snapshot, ps: seq<Package>, project: Project, repo: Repo, host: Host)
    requires forall i :: 0 <= i < |ps| ==> !HasReleaseTag(ps[i], project, repo)
    ensures TagRun(s, ps, project, repo, host) == Step(s, Ok(()))
    decreases |ps|
  {
    if ps != [] {
      assert !HasReleaseTag(ps[0], project, repo);
      assert forall i :: 0 <= i < |ps[1..]| ==> ps[1..][i] == ps[i + 1];
      TagRunSkipsUnreleased(s, ps[1..], project, repo, host);
    }
  }

  /** The tag resolver never removes an entry, whether it succeeds or not. */
  lemma {:induction false} TagRunNeverRemoves(s: Snapshot, ps: seq<Package>, project: Project, repo: Repo, host: Host)
    requires KeysAreNames(s.packages)
    ensures forall k :: k in s.packages ==> k in TagRun(s, ps, project, repo, host).state.packages
    decreases |ps|
  {
    if ps != [] {
      TagStepEffect(s, ps[0], project, repo, host);
      var t := TagStep(s, ps[0], project, repo, host);
      if t.result.Ok? {
        TagRunNeverRemoves(t.state, ps[1..], project, repo, host);
      }
    }
  }

  /** A successful run stores every released package under its own name. */
  lemma {:induction false} TagRunStoresReleased(s: Snapshot, ps: seq<Package>, project: Project, repo: Repo, host: Host)
    requires KeysAreNames(s.packages)
    ensures var t := TagRun(s, ps, project, repo, host);
            t.result.Ok? ==>
              forall i :: 0 <= i < |ps| && HasReleaseTag(ps[i], project, repo) ==>
                ps[i].name in t.state.packages && t.state.packages[ps[i].name].package.name == ps[i].name
    decreases |ps|
  {
    TagRunKeepsInvariant(s, ps, project, repo, host);
    if ps != [] {
      TagStepEffect(s, ps[0], project, repo, host);
      var t := TagStep(s, ps[0], project, repo, host);
      if t.result.Ok? {
        TagRunStoresReleased(t.state, ps[1..], project, repo, host);
        TagRunNeverRemoves(t.state, ps[1..], project, repo, host);
        assert forall i :: 1 <= i < |ps| ==> ps[i] == ps[1..][i - 1];
      }
    }
  }

  /** A successful run adds no entry except under the name of a released package. */
  lemma {:induction false} TagRunAddsOnlyReleased(s: Snapshot, ps: seq<Package>, project: Project, repo: Repo, host: Host)
    requires KeysAreNames(s.packages)
    ensures var t := TagRun(s, ps, project, repo, host);
            t.result.Ok? ==>
              forall k :: k in t.state.packages ==>
                k in s.packages || exists i :: 0 <= i < |ps| && ps[i].name == k && HasReleaseTag(ps[i], project, repo)
    decreases |ps|
  {
    if ps != [] {
      TagStepEffect(s, ps[0], project, repo, host);
      var t := TagStep(s, ps[0], project, repo, host);
      if t.result.Ok? {
        TagRunAddsOnlyReleased(t.state, ps[1..], project, repo, host);
        var u := TagRun(t.state, ps[1..], project, repo, host);
        forall k | u.result.Ok? && k in u.state.packages
          ensures k in s.packages || exists i :: 0 <= i < |ps| && ps[i].name == k && HasReleaseTag(ps[i], project, repo)
        {
          if k !in t.state.packages {
            var i :| 0 <= i < |ps[1..]| && ps[1..][i].name == k && HasReleaseTag(ps[1..][i], project, repo);
            assert ps[i + 1] == ps[1..][i];
          } else if k !in s.packages {
            assert ps[0].name == k;
          }
        }
      }
    }
  }

  /** A successful run leaves every name that none of the packages carries as it was. */
  lemma {:induction false} TagRunKeepsOthers(s: Snapshot, ps: seq<Package>, project: Project, repo: Repo, host: Host)
    requires KeysAreNames(s.packages)
    ensures var t := TagRun(s, ps, project, repo, host);
            t.result.Ok? ==>
              forall k :: k in s.packages && (forall i :: 0 <= i < |ps| ==> ps[i].name != k) ==>
                k in t.state.packages && t.state.packages[k] == s.packages[k]
    decreases |ps|
  {
    if ps != [] {
      TagStepEffect(s, ps[0], project, repo, host);
      var t := TagStep(s, ps[0], project, repo, host);
      if t.result.Ok? {
        TagRunKeepsOthers(t.state, ps[1..], project, repo, host);
        assert forall i :: 0 <= i < |ps[1..]| ==> ps[1..][i] == ps[i + 1];
      }
    }
  }

  /**
   * When a released package's name is not repeated later in the list, a
   * successful run records for it the package read from the tree of its
   * latest release tag, with that tag's commit.
   */
  lemma {:induction false} TagRunRecordsLatestCommit(s: Snapshot, ps: seq<Package>, project: Project, repo: Repo,
                                                     host: Host, i: nat)
    requires KeysAreNames(s.packages)
    requires i < |ps| && HasReleaseTag(ps[i], project, repo)
    requires forall j :: i < j < |ps| ==> ps[j].name != ps[i].name
    ensures var t := TagRun(s, ps, project, repo, host);
            var tag := LatestReleaseTag(repo.tagsDescending, ps[i].name, project).value;
            t.result.Ok? ==>
              && t.state.tempDir.Some?
              && TreePackage(repo, t.state.tempDir.value, ps[i], tag).Some?
              && ps[i].name in t.state.packages
              && t.state.packages[ps[i].name]
                 == PublishedPackage(TreePackage(repo, t.state.tempDir.value, ps[i], tag).value, repo.tagCommit(tag))
    decreases |ps|
  {
    TagStepEffect(s, ps[0], project, repo, host);
    var t := TagStep(s, ps[0], project, repo, host);
    if t.result.Ok? {
      if i == 0 {
        TagRunKeepsOthers(t.state, ps[1..], project, repo, host);
        TagRunKeepsInvariant(t.state, ps[1..], project, repo, host);
        assert forall j :: 0 <= j < |ps[1..]| ==> ps[1..][j].name != ps[0].name;
      } else {
        TagRunRecordsLatestCommit(t.state, ps[1..], project, repo, host, i - 1);
      }
    }
  }

  /** The tag template `v{version}`, which ignores the package name. */
  function BareVersion(name: string, version: string): string {
    "v" + version
  }

  /** The version text found in `v2.0.0` is `2.0.0`. */
  lemma VersionOfV200(s: string)
    requires s == "v2.0.0"
    ensures Semver.FindText(s) == Some(s[1..6]) && s[1..6] == "2.0.0"
  {
    assert Semver.IsVersionSplit(s, 1, 2, 4, 6);
    Semver.FindTextOfFirstSplit(s, 1, 2, 4, 6);
  }

  /**
   * A package with a release tag is stored exactly when the scratch directory
   * is available, its worktree at the tag can be added, and the manifest
   * there lists the package.
   */
  lemma TagStepSucceedsUnlessSetUpFails(s: Snapshot, p: Package, project: Project, repo: Repo, host: Host)
    requires HasReleaseTag(p, project, repo)
    ensures var tag := LatestReleaseTag(repo.tagsDescending, p.name, project).value;
            var dir := AcquireTempDir(s.tempDir, host.tempdir).1;
            TagStep(s, p, project, repo, host).result.Ok? <==>
              && dir.Ok?
              && repo.addWorktree(dir.value.path + [p.name], tag).Ok?
              && TreePackage(repo, dir.value, p, tag).Some?
  {
  }

  /**
   * The errors of a step for a package with a release tag, in the order they
   * are checked: the scratch directory's, the worktree's as is, the manifest
   * read's with the manifest context naming the tag, and a failure naming
   * the package and the tag when the manifest does not list it. A failed
   * step stores nothing.
   */
  lemma TagStepErrors(s: Snapshot, p: Package, project: Project, repo: Repo, host: Host)
    requires HasReleaseTag(p, project, repo)
    ensures var tag := LatestReleaseTag(repo.tagsDescending, p.name, project).value;
            var dir := AcquireTempDir(s.tempDir, host.tempdir).1;
            var t := TagStep(s, p, project, repo, host);
            && (t.result.Err? ==> t.state.packages == s.packages)
            && (dir.Err? ==> t.result == Err(dir.error))
            && (dir.Ok? ==>
                  var store := dir.value.path + [p.name];
                  var manifest := repo.manifestAtTag(store + [CARGO_TOML], tag);
                  && (repo.addWorktree(store, tag).Err? ==> t.result == Err(repo.addWorktree(store, tag).error))
                  && (repo.addWorktree(store, tag).Ok? && manifest.Err? ==>
                        t.result == Err(Context(ManifestContext(tag), manifest.error)))
                  && (repo.addWorktree(store, tag).Ok? && manifest.Ok? && FindByName(manifest.value, p.name).None? ==>
                        t.result == Err(Failure(NotInManifestMessage(p.name, tag)))))
  {
  }

  /** Under `v{version}`, the latest release tag among `v2.0.0` and `v1.0.0` is `v2.0.0`. */
  lemma NewerOfTwoTagsIsLatest(tags: seq<string>, name: string, project: Project)
    requires project == Project(BareVersion) && tags == ["v2.0.0", "v1.0.0"]
    ensures LatestReleaseTag(tags, name, project) == Some(tags[0]) && tags[0] == "v2.0.0"
  {
    V200IsReleaseTag(tags[0], name);
    LatestReleaseTagIsEarliestMatch(tags, name, project, 0);
  }

  /** Under the template `v{version}`, `v2.0.0` is a release tag of every package. */
  lemma V200IsReleaseTag(tag: string, name: string)
    requires tag == "v2.0.0"
    ensures IsReleaseTag(tag, name, Project(BareVersion))
  {
    VersionOfV200(tag);
    assert tag == "v" + tag[1..6];
  }

  /**
   * With tags sorted newest first, `v2.0.0` then `v1.0.0`, a template that
   * recognises both, and trees that hold a different manifest of `p` at each
   * tag, the package is recorded from the tree at `v2.0.0` and not from the
   * one at `v1.0.0`; the step succeeds when the scratch directory and the
   * worktree can be set up.
   */
  lemma NewestOfTwoMatchingTagsWins(s: Snapshot, p: Package, newer: Package, older: Package,
                                    project: Project, repo: Repo, host: Host)
    requires KeysAreNames(s.packages)
    requires project == Project(BareVersion) && repo.tagsDescending == ["v2.0.0", "v1.0.0"]
    requires newer.name == p.name && older.name == p.name && newer != older
    requires forall m :: repo.manifestAtTag(m, "v2.0.0") == Ok([newer])
    requires forall m :: repo.manifestAtTag(m, "v1.0.0") == Ok([older])
    ensures var t := TagStep(s, p, project, repo, host);
            && (t.result.Ok? ==>
                  && p.name in t.state.packages
                  && t.state.packages[p.name] == PublishedPackage(newer, repo.tagCommit("v2.0.0"))
                  && t.state.packages[p.name].package != older)
            && ((s.tempDir.Some? || host.tempdir.Ok?) && (forall w :: repo.addWorktree(w, "v2.0.0").Ok?) ==> t.result.Ok?)
  {
    var tag := repo.tagsDescending[0];
    NewerOfTwoTagsIsLatest(repo.tagsDescending, p.name, project);
    var dir := AcquireTempDir(s.tempDir, host.tempdir).1;
    if dir.Ok? {
      assert TreePackage(repo, dir.value, p, tag) == Some(newer) by {
        assert FindByName([newer], p.name) == Some(newer);
      }
    }
    TagStepEffect(s, p, project, repo, host);
    TagStepSucceedsUnlessSetUpFails(s, p, project, repo, host);
  }
}
