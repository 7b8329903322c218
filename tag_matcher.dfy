/**
 * The tag matcher: which of a repository's tags are release tags of a given
 * package under the project's tag-naming template.
 */
module TagMatcher {
  import opened Wrappers
  import Semver

  /** The project handle: only its tag template `git_tag(package, version)` matters here. */
  datatype Project = Project(gitTag: (string, string) -> string)

  /**
   * A tag is a release tag of `package` when it contains a version substring
   * and rendering the template with the package and the leftmost such
   * version gives back exactly the tag.
   */
  predicate IsReleaseTag(tag: string, package: string, project: Project) {
    match Semver.FindText(tag)
    case None => false
    case Some(version) => project.gitTag(package, version) == tag
  }

  /** `filter_release_tags`: the release tags of `package` among `tags`, in the order given. */
  function FilterReleaseTags(tags: seq<string>, package: string, project: Project): (r: seq<string>)
    ensures |r| <= |tags|
    ensures forall t :: t in r <==> t in tags && IsReleaseTag(t, package, project)
    decreases |tags|
  {
    if tags == [] then []
    else
      var rest := FilterReleaseTags(tags[1..], package, project);
      assert forall t :: t in tags <==> t == tags[0] || t in tags[1..];
      if IsReleaseTag(tags[0], package, project) then [tags[0]] + rest else rest
  }

  /** The positions `i..` of `tags` that hold release tags of `package`, ascending. */
  function ReleaseTagPositions(tags: seq<string>, package: string, project: Project, i: nat): (r: seq<nat>)
    requires i <= |tags|
    decreases |tags| - i
  {
    if i == |tags| then []
    else
      var rest := ReleaseTagPositions(tags, package, project, i + 1);
      if IsReleaseTag(tags[i], package, project) then [i] + rest else rest
  }

  /**
   * The positions lie in `i..|tags|`, ascend strictly, and a position is
   * listed exactly when its tag is a release tag.
   */
  lemma {:induction false} PositionsAreReleaseTags(tags: seq<string>, package: string, project: Project, i: nat)
    requires i <= |tags|
    ensures var pos := ReleaseTagPositions(tags, package, project, i);
            && (forall k :: 0 <= k < |pos| ==> i <= pos[k] < |tags|)
            && (forall k, l :: 0 <= k < l < |pos| ==> pos[k] < pos[l])
            && (forall n :: i <= n < |tags| ==> (n in pos <==> IsReleaseTag(tags[n], package, project)))
    decreases |tags| - i
  {
    if i < |tags| {
      PositionsAreReleaseTags(tags, package, project, i + 1);
      var posRest := ReleaseTagPositions(tags, package, project, i + 1);
      if IsReleaseTag(tags[i], package, project) {
        var pos := [i] + posRest;
        assert ReleaseTagPositions(tags, package, project, i) == pos;
        assert forall k :: 1 <= k < |pos| ==> pos[k] == posRest[k - 1];
        assert forall n :: n in pos <==> n == i || n in posRest;
      }
    }
  }

  /**
   * The filter is an order-preserving selection: its k-th result is the tag at
   * the k-th position holding a release tag (positions that, by
   * `PositionsAreReleaseTags`, ascend and cover every release tag).
   */
  lemma {:induction false} FilterSelectsInOrder(tags: seq<string>, package: string, project: Project, i: nat)
    requires i <= |tags|
    ensures var r := FilterReleaseTags(tags[i..], package, project);
            var pos := ReleaseTagPositions(tags, package, project, i);
            && |pos| == |r|
            && (forall k :: 0 <= k < |pos| ==> i <= pos[k] < |tags| && r[k] == tags[pos[k]])
    decreases |tags| - i
  {
    if i < |tags| {
      FilterSelectsInOrder(tags, package, project, i + 1);
      assert tags[i..][1..] == tags[i + 1..];
      var r := FilterReleaseTags(tags[i..], package, project);
      var rest := FilterReleaseTags(tags[i + 1..], package, project);
      var pos := ReleaseTagPositions(tags, package, project, i);
      var posRest := ReleaseTagPositions(tags, package, project, i + 1);
      if IsReleaseTag(tags[i], package, project) {
        assert r == [tags[i]] + rest && pos == [i] + posRest;
        assert forall k :: 1 <= k < |pos| ==> pos[k] == posRest[k - 1] && r[k] == rest[k - 1];
      } else {
        assert r == rest && pos == posRest;
      }
    }
  }

  /**
   * The first result is the earliest release tag in the input: on a list
   * sorted newest first, index 0 is the latest release of the package.
   * There is no first result exactly when no tag is a release tag.
   */
  lemma {:induction false} FirstResultIsEarliest(tags: seq<string>, package: string, project: Project)
    ensures FilterReleaseTags(tags, package, project) == [] <==>
              forall k :: 0 <= k < |tags| ==> !IsReleaseTag(tags[k], package, project)
    ensures forall k :: 0 <= k < |tags| && IsReleaseTag(tags[k], package, project)
                     && (forall j :: 0 <= j < k ==> !IsReleaseTag(tags[j], package, project))
                     ==> FilterReleaseTags(tags, package, project) != []
                         && FilterReleaseTags(tags, package, project)[0] == tags[k]
    decreases |tags|
  {
    if tags != [] {
      FirstResultIsEarliest(tags[1..], package, project);
      var rest := FilterReleaseTags(tags[1..], package, project);
      if IsReleaseTag(tags[0], package, project) {
        assert FilterReleaseTags(tags, package, project) == [tags[0]] + rest;
      } else {
        assert FilterReleaseTags(tags, package, project) == rest;
        forall k | 0 < k < |tags| ensures tags[k] == tags[1..][k - 1] {
        }
      }
    }
  }

  /**
   * The filter keeps a tag exactly when it contains a `\d+\.\d+\.\d+`
   * substring and the template, rendered with the package and the leftmost
   * such substring, equals the tag; a tag without a version is dropped.
   */
  lemma KeptIffTemplateRendersLeftmostVersion(tags: seq<string>, package: string, project: Project, t: string)
    ensures t in FilterReleaseTags(tags, package, project) <==>
              t in tags
              && exists m: Semver.Span :: Semver.IsLeftmostLongest(t, m) && project.gitTag(package, t[m.start..m.end]) == t
    ensures !Semver.HasVersion(t) ==> t !in FilterReleaseTags(tags, package, project)
  {
    Semver.FindIsLeftmostLongest(t);
    match Semver.Find(t)
    case None =>
      forall m: Semver.Span ensures !Semver.IsLeftmostLongest(t, m) {
        assert Semver.IsLeftmostLongest(t, m) ==> Semver.IsVersionAt(t, m.start, m.end);
      }
    case Some(found) =>
      forall m: Semver.Span | Semver.IsLeftmostLongest(t, m) ensures m == found {
        Semver.LeftmostLongestIsUnique(t, m, found);
      }
  }

  /** The tag template `{name}-v{version}` (used by the examples below). */
  function NameDashVersion(name: string, version: string): string {
    name + "-v" + version
  }

  /** The version text found in `app-v2.0.0` is `2.0.0`. */
  lemma VersionOfAppTag(s: string)
    requires s == "app-v2.0.0"
    ensures Semver.FindText(s) == Some(s[5..10]) && s[5..10] == "2.0.0"
  {
    assert Semver.IsVersionSplit(s, 5, 6, 8, 10);
    Semver.FindTextOfFirstSplit(s, 5, 6, 8, 10);
  }

  /** A tag that does not start like the rendered template is never a release tag. */
  lemma NotReleaseTagIfFirstCharDiffers(tag: string, package: string, project: Project)
    requires tag != []
    requires forall v :: project.gitTag(package, v) != [] && project.gitTag(package, v)[0] != tag[0]
    ensures !IsReleaseTag(tag, package, project)
  {
  }

  /** One step of the filter: the head is kept exactly when it is a release tag. */
  lemma FilterHead(tags: seq<string>, package: string, project: Project)
    requires tags != []
    ensures FilterReleaseTags(tags, package, project)
            == (if IsReleaseTag(tags[0], package, project) then [tags[0]] else [])
               + FilterReleaseTags(tags[1..], package, project)
  {
  }

  /** Under `{name}-v{version}`, a tag of `app` starts with `a`, so `v1.2.0` and `v1.1.0` are not release tags of `app`. */
  lemma BareVersionTagsAreNotApps(tag: string)
    requires tag != [] && tag[0] == 'v'
    ensures !IsReleaseTag(tag, "app", Project(NameDashVersion))
  {
    forall v ensures NameDashVersion("app", v)[0] == 'a' {
    }
    NotReleaseTagIfFirstCharDiffers(tag, "app", Project(NameDashVersion));
  }

  /** Under `{name}-v{version}`, `app-v2.0.0` is a release tag of `app`. */
  lemma AppTagIsRelease(tag: string)
    requires tag == "app-v2.0.0"
    ensures IsReleaseTag(tag, "app", Project(NameDashVersion))
  {
    VersionOfAppTag(tag);
    assert tag[..5] == "app" + "-v";
    assert tag == tag[..5] + tag[5..10];
  }

  /**
   * With the template `{name}-v{version}`, of the tags `v1.2.0`, `v1.1.0`
   * and `app-v2.0.0` only `app-v2.0.0` is a release tag of `app`.
   */
  lemma OnlyTheOwnTagMatches(tags: seq<string>, project: Project)
    requires tags == ["v1.2.0", "v1.1.0", "app-v2.0.0"] && project == Project(NameDashVersion)
    ensures FilterReleaseTags(tags, "app", project) == ["app-v2.0.0"]
  {
    BareVersionTagsAreNotApps(tags[0]);
    BareVersionTagsAreNotApps(tags[1]);
    AppTagIsRelease(tags[2]);
    FilterHead(tags, "app", project);
    FilterHead(tags[1..], "app", project);
    FilterHead(tags[2..], "app", project);
    assert tags[1..][1..] == tags[2..] && tags[2..][1..] == [];
  }
}
