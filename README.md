# Published packages of release-plz, in Dafny

This project models how release-plz finds the latest *published* version of
each package of a workspace (`crates/release_plz_core/src/published_packages.rs`).
The result is a `PackagesCollection`, a map from package name to a
`PublishedPackage` (the package's manifest as published, plus the commit it
was published from, when known), together with the scratch directory the
published sources were stored in.

Packages come from two sources.

* **Registry packages.** These are read from a local registry manifest when
  one is given. Otherwise they are downloaded into the scratch directory, one
  download per run of adjacent packages that share a target registry. The
  target registry is the override if given, else the first entry of the
  package's `publish` list, else the default registry. Each downloaded package
  then gets its commit from `.cargo_vcs_info.json`, and that file is deleted.
  A package without a git repository gets one: `git init`, `git add .` and
  `git commit`. When the commit fails with "Author identity unknown", a
  throwaway identity is configured and the commit is retried.
* **Git-only packages.** Each one's latest release tag is the first tag, in
  the newest-first tag list, that contains a `\d+\.\d+\.\d+` version and that
  the project's tag template renders back exactly from the package name and
  that version. The tag is checked out as a worktree under the scratch
  directory, and the package is read from the manifest there. It is recorded
  with the commit the tag points to. A package without a release tag is
  skipped.

Modules:

| file | module | contents |
|---|---|---|
| `wrappers.dfy` | `Wrappers` | `Option`, `Result` |
| `text.dfy` | `Text` | ASCII digits, Unicode white space, `trim`, `starts_with` |
| `semver.dfy` | `Semver` | a scanner for the version regex, proved to find the leftmost-longest match of a reference definition |
| `tag_matcher.dfy` | `TagMatcher` | `filter_release_tags` and its properties |
| `packages.dfy` | `Packages` | the data model, the collection's state as a value, `temp_dir`, `extend`, `find` |
| `registry_resolver.dfy` | `RegistryResolver` | registry grouping, downloads, `initialize_registry_package`, `get_registry_packages` as a function of the state |
| `tag_resolver.dfy` | `TagResolver` | `get_latest_tagged_packages` as a function of the state, and its properties |
| `published_packages.dfy` | `PublishedPackages` | the `PackagesCollection` class, its methods proved against those functions, and `get_latest_packages` |

The outside world is passed in as values. `Host` supplies what `tempdir()`
returns, reading the registry manifest, downloading and the state of each
package directory. `Repo` supplies the sorted tags, `add_worktree`,
`get_tag_commit` and what a manifest in a worktree holds; that manifest
depends on the tag the worktree was checked out at. The git replies in a package directory are indexed by the
order of the commands run there. Paths are sequences of components, and
`join` appends one component.

The imperative code is modelled as imperative Dafny. Its methods are
`PackagesCollection.TempDir`, `Push`, `Extend`, `GetRegistryPackages`,
`GetLatestTaggedPackages`, the download loop `DownloadAll`, the
initialization loop `InitializeRegistryPackages` and the driver
`GetLatestPackages`. Each is proved equal to a function of the old state
(`AcquireTempDir`, `ExtendMap`, `RegistryRun`, `TagRun`, `Downloaded`,
`InitializedAll`, `Resolve`), and the properties are proved as lemmas about
those functions.

In `initialize_registry_package`, a failed first `git commit` whose message
does not start with "Author identity unknown" is ignored, and the package is
still recorded (`published_packages.rs:233-241`). `InitRepo` models that.

## Model

| member | source | states |
|---|---|---|
| Text.Trim | crates/release_plz_core/src/published_packages.rs:234 | the result is a slice of the input with only white space removed on either side, and neither end of it is white space |
| Semver.FindFrom | crates/release_plz_core/src/published_packages.rs:263 | a span found from a position starts at or after it and ends within the string; `FindFromIsLeftmostLongest` states which span it is |
| Semver.Find | crates/release_plz_core/src/published_packages.rs:263 | a found span is non-empty and within the string; `FindIsLeftmostLongest` states that it is the regex engine's match |
| Semver.MatchAt | crates/release_plz_core/src/published_packages.rs:255 | a match anchored at a position ends strictly after it and within the string |
| Semver.MatchAtSound | crates/release_plz_core/src/published_packages.rs:255 | what the scanner reports at a position is a `\d+\.\d+\.\d+` substring by the reference definition |
| Semver.MatchAtComplete | crates/release_plz_core/src/published_packages.rs:255 | every version substring starting at a position is found there, and the scanner's end is the longest |
| Semver.MatchAtIsLongest | crates/release_plz_core/src/published_packages.rs:255 | no version substring starting where the scanner matched ends beyond the scanner's end |
| Semver.NoVersionWhereNoMatch | crates/release_plz_core/src/published_packages.rs:255 | where the scanner finds no match, no version substring starts |
| Semver.SkipNonDigit | crates/release_plz_core/src/published_packages.rs:255 | scanning from a non-digit gives the same answer as scanning from the next position |
| Semver.SkipNonDigits | crates/release_plz_core/src/published_packages.rs:255 | scanning skips any stretch of non-digits unchanged |
| Semver.MatchAtSplit | crates/release_plz_core/src/published_packages.rs:255 | a version split followed by a non-digit or the end is exactly what the scanner reports at its start |
| Semver.FindTextOfFirstSplit | crates/release_plz_core/src/published_packages.rs:255-263 | when no digit precedes a version split that no digit follows, the version text is that split's slice |
| Semver.FindFromNoneIsComplete | crates/release_plz_core/src/published_packages.rs:255 | when scanning from a position finds nothing, no version substring starts at or after it |
| Semver.FindFromIsLeftmostLongest | crates/release_plz_core/src/published_packages.rs:255-263 | scanning from a position yields the leftmost, then longest, version substring at or after it, or none exists |
| Semver.FindIsLeftmostLongest | crates/release_plz_core/src/published_packages.rs:255-263 | `find` returns the regex engine's leftmost-longest match, and nothing exactly when the tag holds no version |
| Semver.FindIsTheLeftmostLongest | crates/release_plz_core/src/published_packages.rs:255-263 | every leftmost-longest version substring is what `find` reports |
| Semver.FindTextIsLeftmostLongestText | crates/release_plz_core/src/published_packages.rs:263 | the version text exists exactly when the tag holds a version substring, and it is the text of the leftmost-longest match |
| Semver.LeftmostLongestIsUnique | crates/release_plz_core/src/published_packages.rs:255 | the leftmost-longest match is unique, so the version text is well defined |
| TagMatcher.IsReleaseTag | crates/release_plz_core/src/published_packages.rs:261-266 | a tag is a release tag when its leftmost version renders back to it under the template; `KeptIffTemplateRendersLeftmostVersion` states it against the reference match |
| TagMatcher.FilterReleaseTags | crates/release_plz_core/src/published_packages.rs:249-267 | a tag is in the result exactly when it is in the input and is a release tag of the package, and the result is no longer than the input |
| TagMatcher.FilterSelectsInOrder | crates/release_plz_core/src/published_packages.rs:261-266 | the result is an order-preserving selection: as many elements as release-tag positions, and its k-th element is the tag at the k-th such position |
| TagMatcher.PositionsAreReleaseTags | crates/release_plz_core/src/published_packages.rs:261-266 | the release-tag positions lie in range, ascend strictly, and include a position exactly when its tag is a release tag |
| TagMatcher.FirstResultIsEarliest | crates/release_plz_core/src/published_packages.rs:143-146 | the result is empty exactly when no tag is a release tag, and its first element is the earliest release tag of the input |
| TagMatcher.KeptIffTemplateRendersLeftmostVersion | crates/release_plz_core/src/published_packages.rs:261-266 | a tag is kept exactly when the template, rendered with the package and the leftmost-longest version in the tag, equals the tag; tags without a version are dropped |
| TagMatcher.NotReleaseTagIfFirstCharDiffers | crates/release_plz_core/src/published_packages.rs:266 | a tag whose first character no rendering of the template can produce is never kept |
| TagMatcher.FilterHead | crates/release_plz_core/src/published_packages.rs:258-266 | the head of the tag list is kept exactly when it is a release tag, ahead of the filtered rest |
| TagMatcher.VersionOfAppTag | crates/release_plz_core/src/published_packages.rs:263 | the version found in `app-v2.0.0` is `2.0.0` |
| TagMatcher.BareVersionTagsAreNotApps | crates/release_plz_core/src/published_packages.rs:266 | under the template `{name}-v{version}`, a tag starting with `v` is not a release tag of `app` |
| TagMatcher.AppTagIsRelease | crates/release_plz_core/src/published_packages.rs:263-266 | under `{name}-v{version}`, `app-v2.0.0` is a release tag of `app` |
| TagMatcher.OnlyTheOwnTagMatches | crates/release_plz_core/src/published_packages.rs:249-267 | of `v1.2.0`, `v1.1.0` and `app-v2.0.0`, only `app-v2.0.0` is a release tag of `app` under `{name}-v{version}` |
| Packages.AcquireTempDir | crates/release_plz_core/src/published_packages.rs:47-53 | a held directory is reused, unchanged; with none held the created one is stored and returned; a creation error is returned with the "failed to get a temporary directory" context and nothing is stored |
| Packages.ExtendMap | crates/release_plz_core/src/published_packages.rs:59-62 | insertion of each package under its name in order; `ExtendMapLastWins`, `ExtendMapOthersUnchanged`, `ExtendMapProvenance`, `ExtendMapCoversNames` and `ExtendMapKeepsKeysAreNames` state its effect |
| Packages.ExtendMapKeepsKeysAreNames | crates/release_plz_core/src/published_packages.rs:59-62 | inserting packages under their own names keeps every key equal to its entry's package name |
| Packages.ExtendMapLastWins | crates/release_plz_core/src/published_packages.rs:59-62 | a name ends up mapped to the last inserted package with that name |
| Packages.ExtendMapOthersUnchanged | crates/release_plz_core/src/published_packages.rs:59-62 | names not carried by any inserted package keep their entry, or their absence |
| Packages.ExtendMapProvenance | crates/release_plz_core/src/published_packages.rs:59-62 | every entry after the insertion was there before or is one of the inserted packages |
| Packages.ExtendMapCoversNames | crates/release_plz_core/src/published_packages.rs:59-62 | every inserted package's name is a key afterwards |
| Packages.FindByName | crates/release_plz_core/src/published_packages.rs:171-181 | nothing is found exactly when no package has the name; what is found has the name and is the first package with it |
| RegistryResolver.RegistryOf | crates/release_plz_core/src/published_packages.rs:93-100 | the override, else the first `publish` entry, else the default registry; `ChunkByRegistry` and `OverrideMakesOneGroup` state the grouping it induces |
| RegistryResolver.ChunkByRegistry | crates/release_plz_core/src/published_packages.rs:92-101 | the groups concatenate back to the packages, none is empty, every member's registry is its group's, and neighbouring groups differ in registry |
| RegistryResolver.ChunkingJoinFirst | crates/release_plz_core/src/published_packages.rs:92-101 | a package whose registry is the first group's joins that group, and the result is still a chunking |
| RegistryResolver.ChunkingStartGroup | crates/release_plz_core/src/published_packages.rs:92-101 | a package whose registry differs from the first group's (or with no groups) opens a group of its own, and the result is still a chunking |
| RegistryResolver.ChunkingTail | crates/release_plz_core/src/published_packages.rs:92-101 | removing the first package from a chunking leaves a chunking of the remaining packages |
| RegistryResolver.ChunkingIsUnique | crates/release_plz_core/src/published_packages.rs:92-101 | any cut into maximal same-registry runs is exactly the one computed |
| RegistryResolver.NoGroupsWithoutMembers | crates/release_plz_core/src/published_packages.rs:92-101 | non-empty groups hold no packages only when there are no groups |
| RegistryResolver.OverrideMakesOneGroup | crates/release_plz_core/src/published_packages.rs:94-95 | with a registry override all packages form one group for that registry (none when there are no packages) |
| RegistryResolver.Downloaded | crates/release_plz_core/src/published_packages.rs:103-115 | the downloads succeed exactly when every group's does; on failure the error is the first failing group's wrapped in "failed to download packages"; on success a package was downloaded exactly when some group's download returned it; `DownloadedConcatenatesGroups` states the order |
| RegistryResolver.ConcatSnoc | crates/release_plz_core/src/published_packages.rs:110-114 | concatenating one more list appends it |
| RegistryResolver.DownloadedConcatenatesGroups | crates/release_plz_core/src/published_packages.rs:102-115 | a successful download is the groups' downloads concatenated in group order, each exactly once |
| RegistryResolver.NamesOfMembers | crates/release_plz_core/src/published_packages.rs:104 | the groups' name lists concatenate to the names of all members, in order |
| RegistryResolver.RequestsNameEveryPackageOnce | crates/release_plz_core/src/published_packages.rs:92-106 | the download requests name every package exactly once, in the order of the packages |
| RegistryResolver.DownloadErrorPersists | crates/release_plz_core/src/published_packages.rs:103-115 | once a prefix of the groups fails, the whole download fails with that error |
| RegistryResolver.DownloadAll | crates/release_plz_core/src/published_packages.rs:102-115 | the loop returns what `Downloaded` specifies |
| RegistryResolver.InitRepo | crates/release_plz_core/src/published_packages.rs:228-242 | no git command runs exactly when the directory has a repository; the set-up succeeds exactly when init and add succeed and the first commit succeeds, fails for another reason, or is followed by three successful commands |
| RegistryResolver.InitRepoRunsPrefix | crates/release_plz_core/src/published_packages.rs:228-242 | the commands run are a prefix of init, add, commit, set email, set name and commit, and an error is the last command's |
| RegistryResolver.InitRepoConfiguresIdentityOnlyWhenUnknown | crates/release_plz_core/src/published_packages.rs:233-241 | every command before the last succeeded, except a first commit that failed with "Author identity unknown", and only that failure leads to the identity commands |
| RegistryResolver.InitializeOne | crates/release_plz_core/src/published_packages.rs:215-243 | the published package is the downloaded one; its commit is the one read from the vcs info file when the file exists and none otherwise; a failure to delete the file is returned; success exactly when the deletion (if any) and the git set-up succeed |
| RegistryResolver.InitializedAll | crates/release_plz_core/src/published_packages.rs:213-246 | for any per-package step: success exactly when every package succeeds; then one published package per package, in order; otherwise the first failing package's error |
| RegistryResolver.InitErrorPersists | crates/release_plz_core/src/published_packages.rs:213-246 | once a prefix of the packages fails, the whole run fails with that error |
| RegistryResolver.InitStep | crates/release_plz_core/src/published_packages.rs:213-246 | after a successful prefix, a failing package ends the run with its error, and a successful one extends the result by its published package |
| RegistryResolver.InitializeRegistryPackages | crates/release_plz_core/src/published_packages.rs:213-246 | the loop returns what `InitializedAll` specifies with `InitializeOne` as the step |
| RegistryResolver.RegistryRun | crates/release_plz_core/src/published_packages.rs:72-126 | `get_registry_packages` on the collection's state; `RegistryRunKeepsInvariant`, `ManifestPackagesHaveNoSha1` and `DownloadedPackagesCarryVcsSha1` state its effect |
| RegistryResolver.RegistryRunKeepsInvariant | crates/release_plz_core/src/published_packages.rs:72-126 | the registry phase keeps every key equal to its package's name, never replaces a held scratch directory, and inserts nothing when it fails |
| RegistryResolver.ManifestPackagesHaveNoSha1 | crates/release_plz_core/src/published_packages.rs:78-86 | with a manifest, no scratch directory is created, every package read is inserted, with no commit, and nothing else changes |
| RegistryResolver.DownloadedPackagesCarryVcsSha1 | crates/release_plz_core/src/published_packages.rs:87-122 | without a manifest, on success every downloaded package is inserted, each with the commit from its vcs info file (or none when the file is absent), and nothing else changes |
| RegistryResolver.InitializedCarryVcsSha1 | crates/release_plz_core/src/published_packages.rs:215-243 | each prepared package is the downloaded one at the same position, carrying the commit of its vcs info file, if any |
| RegistryResolver.InsertedFromPackages | crates/release_plz_core/src/published_packages.rs:120-122 | inserting packages prepared this way covers every downloaded name, and every entry is either untouched or a downloaded package with its vcs commit |
| TagResolver.LatestReleaseTag | crates/release_plz_core/src/published_packages.rs:143-146 | the first release tag of the newest-first list; `LatestReleaseTagIsEarliestMatch` and `TagMatcher.FirstResultIsEarliest` state which tag it is |
| TagResolver.LatestReleaseTagIsEarliestMatch | crates/release_plz_core/src/published_packages.rs:143-146 | the latest release tag is the earliest tag in the newest-first list that is a release tag of the package |
| TagResolver.TreePackage | crates/release_plz_core/src/published_packages.rs:164-181 | what is read for a package from its worktree manifest at a tag carries the package's name |
| TagResolver.TagStep | crates/release_plz_core/src/published_packages.rs:142-187 | one loop iteration; `TagStepEffect`, `TagStepErrors` and `TagStepSucceedsUnlessSetUpFails` state its effect |
| TagResolver.TagStepEffect | crates/release_plz_core/src/published_packages.rs:142-187 | a package without a release tag changes nothing; on success a released package is stored under its name as the package read from the worktree manifest at its latest release tag, with that tag's commit; no other name changes; the invariant holds and the scratch directory is never replaced |
| TagResolver.TagStepErrors | crates/release_plz_core/src/published_packages.rs:150-181 | a failed step stores nothing; the error is the scratch directory's, else the worktree's, else the manifest read's with the context naming the tag, else the failure naming the package and the tag when the manifest does not list it |
| TagResolver.TagStepSucceedsUnlessSetUpFails | crates/release_plz_core/src/published_packages.rs:150-186 | a released package's step succeeds exactly when the scratch directory is available, the worktree at the tag is added and the manifest there lists the package |
| TagResolver.TagStepUsesNewestReleaseTag | crates/release_plz_core/src/published_packages.rs:143-186 | when the k-th tag is the first release tag, a successful step stores the package read from the tree checked out at exactly that tag, with that tag's commit |
| TagResolver.TagRun | crates/release_plz_core/src/published_packages.rs:134-190 | the loop as a function of the state, stopping at the first error; the `TagRun…` lemmas state its effect |
| TagResolver.TagRunKeepsInvariant | crates/release_plz_core/src/published_packages.rs:134-190 | the tag phase keeps every key equal to its package's name and never replaces a held scratch directory |
| TagResolver.TagRunSkipsUnreleased | crates/release_plz_core/src/published_packages.rs:144-148 | when no package has a release tag, the phase succeeds and changes nothing |
| TagResolver.TagRunNeverRemoves | crates/release_plz_core/src/published_packages.rs:134-190 | the tag phase never removes an entry, whether it succeeds or fails |
| TagResolver.TagRunStoresReleased | crates/release_plz_core/src/published_packages.rs:142-186 | on success every package with a release tag is stored under its own name |
| TagResolver.TagRunAddsOnlyReleased | crates/release_plz_core/src/published_packages.rs:142-186 | on success every new key is the name of a package with a release tag |
| TagResolver.TagRunKeepsOthers | crates/release_plz_core/src/published_packages.rs:134-190 | on success names that no package carries keep their entries |
| TagResolver.TagRunRecordsLatestCommit | crates/release_plz_core/src/published_packages.rs:142-186 | on success a released package not repeated later in the list is stored as read from the tree of its latest release tag, with that tag's commit |
| TagResolver.VersionOfV200 | crates/release_plz_core/src/published_packages.rs:263 | the version found in `v2.0.0` is `2.0.0` |
| TagResolver.NewerOfTwoTagsIsLatest | crates/release_plz_core/src/published_packages.rs:143-146 | under the template `v{version}`, the latest release tag of `v2.0.0`, `v1.0.0` is `v2.0.0` |
| TagResolver.NewestOfTwoMatchingTagsWins | crates/release_plz_core/src/published_packages.rs:143-186 | with tags `v2.0.0` then `v1.0.0`, the template `v{version}` and different manifests at the two tags, the package stored is the one at `v2.0.0`, not the one at `v1.0.0`; the step succeeds when the scratch directory and the worktree can be set up |
| PublishedPackages.PackagesCollection.constructor | crates/release_plz_core/src/published_packages.rs:40-45 | a new collection holds no packages and no scratch directory |
| PublishedPackages.PackagesCollection.GetPublishedPackage | crates/release_plz_core/src/published_packages.rs:36-38 | an entry is returned exactly when the name is a key, and it is the package with that name |
| PublishedPackages.PackagesCollection.GetPackage | crates/release_plz_core/src/published_packages.rs:32-34 | the manifest of the published package stored under the name, which is the package of that name |
| PublishedPackages.PackagesCollection.TempDir | crates/release_plz_core/src/published_packages.rs:47-53 | the new slot and result are `AcquireTempDir`'s; a held directory is returned and never replaced, so at most one is created per collection |
| PublishedPackages.PackagesCollection.Push | crates/release_plz_core/src/published_packages.rs:55-57 | the package is stored under its name, replacing only that entry, and both lookups then return it |
| PublishedPackages.PackagesCollection.Extend | crates/release_plz_core/src/published_packages.rs:59-62 | the map becomes `ExtendMap` of the old map, and keys stay the entries' names |
| PublishedPackages.PackagesCollection.GetRegistryPackages | crates/release_plz_core/src/published_packages.rs:72-126 | the new state and the result are those of `RegistryRun` on the old state |
| PublishedPackages.PackagesCollection.GetLatestTaggedPackages | crates/release_plz_core/src/published_packages.rs:134-190 | the new state and the result are those of `TagRun` on the old state |
| PublishedPackages.GetLatestPackages | crates/release_plz_core/src/published_packages.rs:196-211 | a fresh, valid collection in the state `Resolve` describes, or `Resolve`'s error |
| PublishedPackages.Resolve | crates/release_plz_core/src/published_packages.rs:196-211 | the registry phase on an empty collection, then the tag phase unless the first failed; `ResolvedKeysAreNames`, `ResolvedHoldsBothSources` and `NoScratchDirWithoutDownloads` state its outcome |
| PublishedPackages.ResolvedKeysAreNames | crates/release_plz_core/src/published_packages.rs:196-211 | every entry of the result sits under its own name, and the tag phase keeps the scratch directory the registry phase created |
| PublishedPackages.ResolvedHoldsBothSources | crates/release_plz_core/src/published_packages.rs:196-211 | on success the registry phase succeeded, every released git-only package is present, registry entries not named by a git-only package are kept, and nothing else is present |
| PublishedPackages.NoScratchDirWithoutDownloads | crates/release_plz_core/src/published_packages.rs:196-211 | with a registry manifest and no released git-only package, no scratch directory is created |

## Left out

- File system, network, git and `tempdir()` are not executed. Their answers are parameters (`Host`, `Repo`, `PackageDir`).
- The conversion of the scratch directory path to UTF-8 (`published_packages.rs:89`, "invalid tempdir path") and of the worktree manifest path (`:164-166`) is not modelled; paths are sequences of strings, which always convert.
- `package_path().unwrap()` (`:216`) is assumed to succeed; the model has no manifest without a parent directory.
- Deleting the scratch directory when the collection is dropped, and the worktrees and files an aborted run leaves behind, are not modelled.
- `read_sha1_from_cargo_vcs_info` is not part of this model: its answer is the `vcsInfo` field of `PackageDir`.
- `Project::git_tag` is not part of this model: the tag template is a parameter.
- `cargo_metadata`'s manifest parsing is not part of this model: a manifest is its list of packages.
- Laziness of the iterators is not modelled. The tag list is read once and the packages are visited in order, which matches the eager reading.
- `PublishedPackage.PublishedAtSha1` returns the stored commit and has no property of its own beyond that.
- Unicode: `Text.IsWhitespace` lists the `White_Space` characters that `str::trim` removes. Digits are ASCII only, as the regex's `(?-u:\d)` requires.
