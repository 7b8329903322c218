/**
 * The data model shared by the two resolvers: local and published packages,
 * the error values, the collection's state as a value, and the outside world
 * (temporary directories, manifests, downloads, package directories, git)
 * as oracles.
 */
module Packages {
  import opened Wrappers

  /** A file-system path as its list of components; joining appends one. */
  type Path = seq<string>

  /** Manifest metadata of a package: the fields the resolvers consult. */
  datatype Package = Package(
    name: string,
    version: string,
    /** The manifest's `publish` list of registries, when present. */
    publish: Option<seq<string>>,
    manifestPath: Path)

  /** A package as it was published, with the commit it was published from when known. */
  datatype PublishedPackage = PublishedPackage(package: Package, sha1: Option<string>) {
    /** `published_at_sha1`. */
    function PublishedAtSha1(): Option<string> {
      sha1
    }
  }

  /** An `anyhow` error: a root message, possibly wrapped in layers of context. */
  datatype Error = Failure(message: string) | Context(message: string, cause: Error)

  /** A scratch directory created by `tempdir()`. */
  datatype ScratchDir = ScratchDir(path: Path)

  /** The collection's two fields, as a value. */
  datatype Snapshot = Snapshot(packages: map<string, PublishedPackage>, tempDir: Option<ScratchDir>)

  /** The collection after a resolver has run, and what the resolver returned. */
  datatype Step = Step(state: Snapshot, result: Result<(), Error>)

  /** What a downloader is configured with: package names, destination, optional registry. */
  datatype DownloadRequest = DownloadRequest(names: seq<string>, directory: Path, registry: Option<string>)

  /** What a git subprocess reports: success, or the text of its error. */
  type GitReply = Result<(), string>

  /**
   * What the file system and git answer inside one downloaded package's
   * directory. `vcsInfo` is `None` when `.cargo_vcs_info.json` is absent and
   * `Some(sha1)` when present, `sha1` being what could be read from it;
   * `git(n)` is the reply to the n-th git command run in the directory.
   */
  datatype PackageDir = PackageDir(
    vcsInfo: Option<Option<string>>,
    removeVcsInfo: Result<(), string>,
    hasGitRepo: bool,
    git: nat -> GitReply)

  /** The outside world as seen by the registry resolver and by the tag resolver. */
  datatype Host = Host(
    /** What `tempdir()` returns when it is called. */
    tempdir: Result<ScratchDir, string>,
    /** `next_ver::publishable_packages_from_manifest(path)`. */
    publishableFromManifest: Path -> Result<seq<Package>, Error>,
    /** `PackageDownloader::download` for a configured downloader. */
    download: DownloadRequest -> Result<seq<Package>, Error>,
    /** The directory a downloaded package was unpacked into. */
    packageDir: Package -> PackageDir)

  /** The repository handle. */
  datatype Repo = Repo(
    /** `get_tags_version_sorted(true)`: all tags, newest version first. */
    tagsDescending: seq<string>,
    /** `add_worktree(path, tag)`. */
    addWorktree: (Path, string) -> Result<(), Error>,
    /**
     * `cargo_utils::get_manifest_metadata(manifest)`, reduced to its package
     * list, where `manifest` lies in a worktree checked out at `tag`: what the
     * tree of that tag holds.
     */
    manifestAtTag: (Path, string) -> Result<seq<Package>, Error>,
    /** `get_tag_commit(tag)`. */
    tagCommit: string -> Option<string>)

  const TEMP_DIR_CONTEXT := "failed to get a temporary directory"

  /** The collection's invariant: every entry is stored under its own package's name. */
  predicate KeysAreNames(m: map<string, PublishedPackage>) {
    forall k :: k in m ==> m[k].package.name == k
  }

  /**
   * `temp_dir`: reuse the directory in the slot, or create one when the slot
   * is empty. Returns the new slot and the directory (or the creation error).
   */
  function AcquireTempDir(slot: Option<ScratchDir>, created: Result<ScratchDir, string>)
    : (r: (Option<ScratchDir>, Result<ScratchDir, Error>))
    ensures slot.Some? ==> r.0 == slot && r.1 == Ok(slot.value)
    ensures r.1.Ok? ==> r.0 == Some(r.1.value)
    ensures slot.None? ==> (r.1.Ok? <==> created.Ok?) && (created.Ok? ==> r.1.value == created.value)
    ensures r.1.Err? ==> r.0.None? && r.1.error == Context(TEMP_DIR_CONTEXT, Failure(created.error))
  {
    if slot.Some? then (slot, Ok(slot.value))
    else
      match created
      case Ok(dir) => (Some(dir), Ok(dir))
      case Err(e) => (None, Err(Context(TEMP_DIR_CONTEXT, Failure(e))))
  }

  /** `BTreeMap::insert` of each published package under its own name, in order. */
  function ExtendMap(m: map<string, PublishedPackage>, ps: seq<PublishedPackage>): map<string, PublishedPackage>
    decreases |ps|
  {
    if ps == [] then m
    else
      var last := ps[|ps| - 1];
      ExtendMap(m, ps[..|ps| - 1])[last.package.name := last]
  }

  /** Inserting packages under their own names keeps every key equal to its package's name. */
  lemma {:induction false} ExtendMapKeepsKeysAreNames(m: map<string, PublishedPackage>, ps: seq<PublishedPackage>)
    requires KeysAreNames(m)
    ensures KeysAreNames(ExtendMap(m, ps))
    decreases |ps|
  {
    if ps != [] {
      ExtendMapKeepsKeysAreNames(m, ps[..|ps| - 1]);
    }
  }

  /** Last writer wins: a name ends up mapped to the last package in `ps` with that name. */
  lemma {:induction false} ExtendMapLastWins(m: map<string, PublishedPackage>, ps: seq<PublishedPackage>, i: nat)
    requires i < |ps|
    requires forall j :: i < j < |ps| ==> ps[j].package.name != ps[i].package.name
    ensures ps[i].package.name in ExtendMap(m, ps) && ExtendMap(m, ps)[ps[i].package.name] == ps[i]
    decreases |ps|
  {
    if i < |ps| - 1 {
      ExtendMapLastWins(m, ps[..|ps| - 1], i);
    }
  }

  /** Names that no package in `ps` carries keep their entry, or their absence. */
  lemma {:induction false} ExtendMapOthersUnchanged(m: map<string, PublishedPackage>, ps: seq<PublishedPackage>, k: string)
    requires forall j :: 0 <= j < |ps| ==> ps[j].package.name != k
    ensures k in ExtendMap(m, ps) <==> k in m
    ensures k in m ==> ExtendMap(m, ps)[k] == m[k]
    decreases |ps|
  {
    if ps != [] {
      ExtendMapOthersUnchanged(m, ps[..|ps| - 1], k);
    }
  }

  /** Every entry of the result was already there or is one of the inserted packages. */
  lemma {:induction false} ExtendMapProvenance(m: map<string, PublishedPackage>, ps: seq<PublishedPackage>)
    ensures forall k :: k in ExtendMap(m, ps) ==> (k in m && ExtendMap(m, ps)[k] == m[k]) || ExtendMap(m, ps)[k] in ps
    decreases |ps|
  {
    if ps != [] {
      ExtendMapProvenance(m, ps[..|ps| - 1]);
    }
  }

  /** Every inserted package's name is a key of the result. */
  lemma {:induction false} ExtendMapCoversNames(m: map<string, PublishedPackage>, ps: seq<PublishedPackage>)
    ensures forall j :: 0 <= j < |ps| ==> ps[j].package.name in ExtendMap(m, ps)
    decreases |ps|
  {
    if ps != [] {
      ExtendMapCoversNames(m, ps[..|ps| - 1]);
    }
  }

  /** `Iterator::find(|p| p.name == name)`: the first package with that name. */
  function FindByName(ps: seq<Package>, name: string): (r: Option<Package>)
    ensures r.None? <==> forall j :: 0 <= j < |ps| ==> ps[j].name != name
    ensures r.Some? ==> r.value.name == name && r.value in ps
    ensures r.Some? ==> exists i :: 0 <= i < |ps| && ps[i] == r.value && forall j :: 0 <= j < i ==> ps[j].name != name
    decreases |ps|
  {
    if ps == [] then None
    else if ps[0].name == name then Some(ps[0])
    else
      var r := FindByName(ps[1..], name);
      assert r.Some? ==> exists i :: 0 <= i < |ps[1..]| && ps[1..][i] == r.value
                                     && forall j :: 0 <= j < i ==> ps[1..][j].name != name;
      assert forall j :: 0 <= j < |ps[1..]| ==> ps[1..][j] == ps[j + 1];
      r
  }
}
