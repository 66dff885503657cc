/**
 Stored links to external issues (`src/queries/issue_links.rs`) and the repository half of
 their keys (`src/trackers.rs`). The repository of a stored link must be recovered in the
 shape `RepoKey` computes for a target, for rows written before and after the qualified key
 existed; where it is not, the exact condition is stated.
 */
module IssueLinks {
  import opened Options
  import opened Text
  import opened Forge
  import Utf8

  datatype ExternalLink = ExternalLink(projectId: int, fingerprint: string, integrationId: Option<int>,
                                       externalId: string, externalUrl: string)

  /** `owner/repo`, or GitLab's encoded namespace path. */
  function RepoKey(ref: ForgeRef): Option<string> {
    match (ref.owner, ref.repo, ref.gitlabPath)
    case (Some(owner), Some(repo), _) => Some(owner + "/" + repo)
    case (_, _, Some(path)) => Some(path)
    case _ => None
  }

  /** The repository followed by the forge's own issue number. */
  function QualifiedExternalId(ref: ForgeRef, raw: string): string {
    match RepoKey(ref) case Some(key) => key + "#" + raw case None => raw
  }

  /** Which repository a stored link points at. */
  function LinkRepoKey(link: ExternalLink): Option<string> {
    match RSplitOnce(link.externalId, '#')
    case Some((prefix, _)) => if prefix != "" then Some(prefix) else RepoKeyFromUrl(link.externalUrl)
    case None => RepoKeyFromUrl(link.externalUrl)
  }

  /** The position of the last segment equal to `x`. */
  function LastIndexOf(segments: seq<string>, x: string): (r: Option<nat>)
    ensures r.Some? ==> r.value < |segments| && segments[r.value] == x
    ensures r.Some? ==> forall i :: r.value < i < |segments| ==> segments[i] != x
    ensures r.None? ==> x !in segments
  {
    if segments == [] then None
    else
      var n := |segments| - 1;
      if segments[n] == x then Some(n) else LastIndexOf(segments[..n], x)
  }

  function RepoKeyFromUrl(url: string): Option<string> {
    match SplitOnce(AfterScheme(url), '/')
    case None => None
    case Some((_, rest)) => RepoKeyFromPath(TrimChar(rest, '/'))
  }

  function RepoKeyFromPath(path: string): Option<string> {
    match SplitOnceStr(path, "/-/")
    case Some((namespace, _)) => if namespace == "" then None else Some(GitlabPath(namespace))
    case None =>
      var segments := Segments(path, '/');
      match LastIndexOf(segments, "issues")
      case None => None
      case Some(at) => if at < 2 then None else Some(segments[at - 2] + "/" + segments[at - 1])
  }

  // ---- Keys and qualified ids --------------------------------------------------------------

  /** A reference some forge and URL derive. */
  ghost predicate IsDerived(ref: ForgeRef) {
    exists forge, url :: DeriveForgeRef(forge, url) == Derived(ref)
  }

  /** A single path segment. */
  predicate Segment(s: string) { s != "" && '/' !in s }

  /** Derived references have one of two shapes. */
  ghost predicate OwnerRepoShape(ref: ForgeRef) {
    && ref.owner.Some? && ref.repo.Some? && ref.gitlabPath.None?
    && Segment(ref.owner.value) && Segment(ref.repo.value)
  }

  ghost predicate GitlabShape(ref: ForgeRef) {
    && ref.owner.None? && ref.repo.None? && ref.gitlabPath.Some?
    && exists path :: path != "" && ref.gitlabPath.value == GitlabPath(path)
  }

  lemma DerivedShapes(ref: ForgeRef)
    requires IsDerived(ref)
    ensures OwnerRepoShape(ref) || GitlabShape(ref)
  {
    hide ExtractHostname, RepoPath, Segments, GitlabPath;
    var forge, url :| DeriveForgeRef(forge, url) == Derived(ref);
    var path := RepoPath(url);
    if forge == GitLab {
      assert path != "" && ref.gitlabPath.value == GitlabPath(path);
    }
  }

  lemma EncodedIsNonEmpty(path: string)
    requires path != ""
    ensures GitlabPath(path) != ""
  {
    GitlabPathRoundTrip(path);
    assert PercentDecode("") == [];
    assert Utf8.Decode([]) == "";
  }

  /** Keys of the two shapes never collide, and within a shape a key is as good as its parts. */
  lemma KeysIdentifyRepositories(a: ForgeRef, b: ForgeRef)
    requires IsDerived(a) && IsDerived(b)
    ensures RepoKey(a).Some? && RepoKey(a).value != ""
    ensures RepoKey(a) == RepoKey(b) <==> a.owner == b.owner && a.repo == b.repo && a.gitlabPath == b.gitlabPath
  {
    DerivedShapes(a);
    DerivedShapes(b);
    KeyHasSlash(a);
    KeyHasSlash(b);
    if OwnerRepoShape(a) && OwnerRepoShape(b) {
      SplitAtFirst(a.owner.value, '/', a.repo.value);
      SplitAtFirst(b.owner.value, '/', b.repo.value);
    }
  }

  lemma KeyHasSlash(ref: ForgeRef)
    requires OwnerRepoShape(ref) || GitlabShape(ref)
    ensures RepoKey(ref).Some? && RepoKey(ref).value != ""
    ensures OwnerRepoShape(ref) <==> '/' in RepoKey(ref).value
  {
    if OwnerRepoShape(ref) {
      assert (ref.owner.value + "/" + ref.repo.value)[|ref.owner.value|] == '/';
    } else {
      var path :| path != "" && ref.gitlabPath.value == GitlabPath(path);
      EncodedIsNonEmpty(path);
      GitlabPathRoundTrip(path);
    }
  }

  /**
   Two derived references share a qualified id exactly when they name one repository and one
   issue number; issue numbers hold no `#`.
   */
  lemma QualifiedIdsIdentifyIssues(a: ForgeRef, b: ForgeRef, rawA: string, rawB: string)
    requires IsDerived(a) && IsDerived(b) && '#' !in rawA && '#' !in rawB
    ensures QualifiedExternalId(a, rawA) == QualifiedExternalId(b, rawB)
            <==> RepoKey(a) == RepoKey(b) && rawA == rawB
  {
    KeysIdentifyRepositories(a, b);
    KeysIdentifyRepositories(b, a);
    SplitAtLast(RepoKey(a).value, '#', rawA);
    SplitAtLast(RepoKey(b).value, '#', rawB);
  }

  /** A link stored for a target points back at the target's repository, whatever its URL is. */
  lemma StoredKeyIsRecovered(ref: ForgeRef, raw: string, link: ExternalLink)
    requires IsDerived(ref) && '#' !in raw && link.externalId == QualifiedExternalId(ref, raw)
    ensures LinkRepoKey(link) == RepoKey(ref)
  {
    KeysIdentifyRepositories(ref, ref);
    SplitAtLast(RepoKey(ref).value, '#', raw);
  }

  // ---- Links written before the qualified key ----------------------------------------------

  lemma TwoPartsTrim(a: string, b: string)
    requires a != "" && a[0] != '/' && b != "" && b[|b| - 1] != '/'
    ensures TrimChar(a + b, '/') == a + b
  {
  }

  lemma FourSegments(a: string, b: string, c: string, d: string)
    requires Segment(a) && Segment(b) && Segment(c) && Segment(d)
    ensures Segments(a + ['/'] + (b + ['/'] + (c + ['/'] + d)), '/') == [a, b, c, d]
  {
    hide Segments;
    SegmentsOfMore(a, b + ['/'] + (c + ['/'] + d));
    SegmentsOfMore(b, c + ['/'] + d);
    SegmentsOfMore(c, d);
    SegmentsOfOne(d);
    assert [a] + ([b] + ([c] + [d])) == [a, b, c, d];
  }

  lemma IssuePagePath(owner: string, repo: string, number: string)
    ensures owner + "/" + repo + "/issues/" + number == owner + ['/'] + (repo + ['/'] + ("issues" + ['/'] + number))
  {
    assert "/issues/" == ['/'] + "issues" + ['/'];
  }

  lemma LastOfFour(a: string, b: string, c: string, d: string)
    requires c != d
    ensures LastIndexOf([a, b, c, d], c) == Some(2)
  {
    assert [a, b, c, d][2] == c && [a, b, c, d][3] != c;
  }

  /** The page of an issue holds `/-/` exactly when the repository is named `-`. */
  lemma PageHoldsDash(owner: string, repo: string, number: string)
    requires Segment(owner) && Segment(repo) && Segment(number)
    ensures Free(owner + "/" + repo + "/issues/" + number, "/-/") <==> repo != "-"
  {
    var page := owner + "/" + repo + "/issues/" + number;
    FreeMeans(page, "/-/");
    if repo == "-" {
      assert page[|owner|..|owner| + 3] == "/-/";
      assert !Clear(page, "/-/", |owner|);
    } else {
      forall i: nat
        ensures Clear(page, "/-/", i)
      {
        if i + 3 <= |page| {
          assert page[i..i + 3][0] == page[i] && page[i..i + 3][1] == page[i + 1] && page[i..i + 3][2] == page[i + 2];
          if !SlashOfPage(owner, repo, i) {
            NoOtherSlash(owner, repo, number, i);
          } else if !SlashOfPage(owner, repo, i + 2) {
            NoOtherSlash(owner, repo, number, i + 2);
          } else {
            assert repo == [repo[0]] && page[i + 1] == repo[0];
          }
        }
      }
    }
  }

  /** The three slashes of an issue page. */
  predicate SlashOfPage(owner: string, repo: string, i: nat) {
    i == |owner| || i == |owner| + 1 + |repo| || i == |owner| + |repo| + 8
  }

  lemma NoOtherSlash(owner: string, repo: string, number: string, i: nat)
    requires Segment(owner) && Segment(repo) && Segment(number)
    requires i < |owner + "/" + repo + "/issues/" + number| && !SlashOfPage(owner, repo, i)
    ensures (owner + "/" + repo + "/issues/" + number)[i] != '/'
  {
    var page := owner + "/" + repo + "/issues/" + number;
    var n := |owner| + 1 + |repo|;
    if i < |owner| {
      assert page[i] == owner[i];
    } else if i < n {
      assert page[i] == repo[i - |owner| - 1];
    } else if i < n + 7 {
      assert page[i] == "/issues/"[i - n];
    } else {
      assert page[i] == number[i - n - 8];
    }
  }

  /** The path of a GitHub or Forgejo issue page names its repository. */
  lemma LegacyOwnerRepoPath(owner: string, repo: string, number: string)
    requires Segment(owner) && Segment(repo) && Segment(number) && number != "issues" && repo != "-"
    ensures RepoKeyFromPath(owner + "/" + repo + "/issues/" + number) == Some(owner + "/" + repo)
  {
    hide Free, SplitOnceStr, Segments, LastIndexOf;
    PageHoldsDash(owner, repo, number);
    NothingToSplitStr(owner + "/" + repo + "/issues/" + number, "/-/");
    IssuePagePath(owner, repo, number);
    FourSegments(owner, repo, "issues", number);
    LastOfFour(owner, repo, "issues", number);
  }

  /** The path of a GitLab issue page names its namespace, however deep. */
  lemma {:induction false} LegacyGitlabSplit(namespace: string, rest: string)
    requires Free(namespace + "/", "/-/")
    ensures SplitOnceStr(namespace + "/-/" + rest, "/-/") == Some((namespace, rest))
  {
    var s := namespace + "/-/" + rest;
    if namespace == "" {
      assert s[..3] == "/-/" && s[3..] == rest;
    } else {
      assert s[1..] == namespace[1..] + "/-/" + rest;
      assert (namespace + "/")[1..] == namespace[1..] + "/";
      LegacyGitlabSplit(namespace[1..], rest);
      NotHere(namespace, rest);
      assert [s[0]] + namespace[1..] == namespace;
    }
  }

  lemma NotHere(namespace: string, rest: string)
    requires namespace != "" && Free(namespace + "/", "/-/")
    ensures (namespace + "/-/" + rest)[..3] != "/-/"
  {
    var s := namespace + "/-/" + rest;
    if |namespace| >= 2 {
      assert s[..3] == (namespace + "/")[..3];
    } else {
      assert s[1] == '/' != "/-/"[1];
    }
  }

  lemma UrlPath(scheme: string, host: string, path: string)
    requires ':' !in scheme && '/' !in host
    ensures RepoKeyFromUrl(scheme + "://" + host + "/" + path) == RepoKeyFromPath(TrimChar(path, '/'))
  {
    assert scheme + "://" + host + "/" + path == scheme + "://" + (host + "/" + path);
    SchemeEnds(scheme, host + "/" + path);
    SplitAtFirst(host, '/', path);
  }

  /** A key read behind `/-/` is a GitLab key, or none. */
  lemma KeyBehindDash(path: string)
    requires !Free(path, "/-/")
    ensures var key := RepoKeyFromPath(path); key.Some? ==> '/' !in key.value
  {
    hide GitlabPath;
    NothingToSplitStr(path, "/-/");
    GitlabPathRoundTrip(SplitOnceStr(path, "/-/").value.0);
  }

  /** An id without a repository in front of the number. */
  predicate BareNumber(id: string) { '#' !in id || (id[0] == '#' && '#' !in id[1..]) }

  /** A stored bare number is read through its URL. */
  lemma BareNumberReadsUrl(link: ExternalLink, scheme: string, host: string, rest: string)
    requires BareNumber(link.externalId) && ':' !in scheme && '/' !in host
    requires link.externalUrl == scheme + "://" + host + "/" + rest
    ensures LinkRepoKey(link) == RepoKeyFromPath(TrimChar(rest, '/'))
  {
    var id := link.externalId;
    if '#' in id {
      assert id == "" + ['#'] + id[1..];
      SplitAtLast("", '#', id[1..]);
    } else {
      NothingToSplit(id, '#');
    }
    UrlPath(scheme, host, rest);
  }

  /**
   A legacy GitHub or Forgejo link, a bare number whose URL is the issue page, gives the key
   computed for its repository today if and only if the repository is not named `-`.
   */
  lemma LegacyOwnerRepoAgrees(ref: ForgeRef, link: ExternalLink, scheme: string, host: string, number: string)
    requires OwnerRepoShape(ref) && ':' !in scheme && '/' !in host
    requires Segment(number) && '#' !in number && number != "issues"
    requires link.externalId == number
    requires link.externalUrl == scheme + "://" + host + "/" + (ref.owner.value + "/" + ref.repo.value + "/issues/" + number)
    ensures LinkRepoKey(link) == RepoKey(ref) <==> ref.repo.value != "-"
  {
    hide Free, RepoKeyFromPath, RepoKeyFromUrl, TrimChar;
    var path := ref.owner.value + "/" + ref.repo.value + "/issues/" + number;
    BareNumberReadsUrl(link, scheme, host, path);
    TwoPartsTrim(ref.owner.value + "/" + ref.repo.value + "/issues/", number);
    if ref.repo.value != "-" {
      LegacyOwnerRepoPath(ref.owner.value, ref.repo.value, number);
    } else {
      PageHoldsDash(ref.owner.value, ref.repo.value, number);
      KeyBehindDash(path);
      KeyHasSlash(ref);
    }
  }

  /** The coordinates of the GitHub repository `acme/-`. */
  const DASH := ForgeRef("github.com", Some("acme"), Some("-"), None)

  /** Issue 7 of the GitHub repository `acme/-`, stored as a bare number, is not recognised. */
  lemma DashRepositoryIsMissed(link: ExternalLink)
    requires link.externalId == "7" && link.externalUrl == "https" + "://" + "github.com" + "/" + "acme/-/issues/7"
    ensures DeriveForgeRef(ForgeType.GitHub, "https" + "://" + "github.com" + "/" + "acme/-") == Derived(DASH)
    ensures LinkRepoKey(link) != RepoKey(DASH)
  {
    hide LinkRepoKey, RepoKey, DeriveForgeRef;
    DashIsDerived();
    DashIsMissed(link, "https", "github.com", "acme", "7");
  }

  lemma DashIsMissed(link: ExternalLink, scheme: string, host: string, owner: string, number: string)
    requires Segment(owner) && Segment(number) && number != "issues" && '#' !in number && ':' !in scheme && '/' !in host
    requires link.externalId == number && link.externalUrl == scheme + "://" + host + "/" + (owner + "/-/issues/" + number)
    ensures LinkRepoKey(link) != RepoKey(ForgeRef(host, Some(owner), Some("-"), None))
  {
    hide LinkRepoKey, RepoKey;
    assert owner + "/-/issues/" + number == owner + "/" + "-" + "/issues/" + number;
    LegacyOwnerRepoAgrees(ForgeRef(host, Some(owner), Some("-"), None), link, scheme, host, number);
  }

  lemma DashIsDerived()
    ensures DeriveForgeRef(ForgeType.GitHub, "https" + "://" + "github.com" + "/" + "acme/-") == Derived(DASH)
  {
    hide DeriveForgeRef, Segments, WellFormed, Render;
    var sp := Url("https", None, None);
    DashIsWellFormed(sp);
    SpellingsAgree(ForgeType.GitHub, sp, "github.com", "acme/-", false, 0);
    SegmentsOfMore("acme", "-");
    SegmentsOfOne("-");
    assert "acme" + ['/'] + "-" == "acme/-";
  }

  lemma DashIsWellFormed(sp: Spelling)
    requires sp == Url("https", None, None)
    ensures WellFormed(sp, "github.com", "acme/-")
    ensures Render(sp, "github.com", "acme/-", false, 0) == "https" + "://" + "github.com" + "/" + "acme/-"
  {
    assert Tail(false, 0) == "";
  }

  /**
   A legacy GitLab link, a bare number behind any URL, gives the key computed for its namespace
   path today if and only if the URL's path, cut at its first `/-/`, is that path.
   */
  lemma LegacyGitlabExactly(ref: ForgeRef, path: string, link: ExternalLink, scheme: string, host: string, rest: string)
    requires GitlabShape(ref) && path != "" && ref.gitlabPath.value == GitlabPath(path)
    requires BareNumber(link.externalId) && ':' !in scheme && '/' !in host
    requires link.externalUrl == scheme + "://" + host + "/" + rest
    ensures LinkRepoKey(link) == RepoKey(ref) <==>
      var split := SplitOnceStr(TrimChar(rest, '/'), "/-/"); split.Some? && split.value.0 == path
  {
    hide LinkRepoKey, GitlabPath, TrimChar, SplitOnceStr, Segments, LastIndexOf;
    BareNumberReadsUrl(link, scheme, host, rest);
    GitlabPathRoundTrip(path);
    match SplitOnceStr(TrimChar(rest, '/'), "/-/")
    case Some((namespace, _)) => GitlabPathRoundTrip(namespace);
    case None => PageKeyHasSlash(TrimChar(rest, '/'));
  }

  /** A key read from a page without `/-/` is an owner and a repository. */
  lemma PageKeyHasSlash(path: string)
    requires SplitOnceStr(path, "/-/").None?
    ensures var key := RepoKeyFromPath(path); key.Some? ==> '/' in key.value
  {
    hide SplitOnceStr, Segments;
    var segments := Segments(path, '/');
    var at := LastIndexOf(segments, "issues");
    if at.Some? && at.value >= 2 {
      var owner, repo := segments[at.value - 2], segments[at.value - 1];
      assert (owner + "/" + repo)[|owner|] == '/';
    }
  }

  /** The same for GitLab, whose issue pages lie behind `/-/`. */
  lemma LegacyGitlabAgrees(ref: ForgeRef, path: string, link: ExternalLink, scheme: string, host: string, number: string)
    requires GitlabShape(ref) && ref.gitlabPath.value == GitlabPath(path)
    requires WellFormedPath(path) && Free(path + "/", "/-/") && ':' !in scheme && '/' !in host
    requires Segment(number) && '#' !in number
    requires link.externalId == number
    requires link.externalUrl == scheme + "://" + host + "/" + (path + "/-/" + ("issues/" + number))
    ensures LinkRepoKey(link) == RepoKey(ref)
  {
    hide LinkRepoKey, GitlabPath, TrimChar, Free, SplitOnceStr, IsWhitespace, EndsWith;
    var page := "issues/" + number;
    assert path + ("/-/" + page) == path + "/-/" + page;
    assert ("/-/" + page)[|"/-/" + page| - 1] == number[|number| - 1];
    TwoPartsTrim(path, "/-/" + page);
    LegacyGitlabSplit(path, page);
    LegacyGitlabExactly(ref, path, link, scheme, host, path + "/-/" + page);
  }

  /**
   A GitLab issue page without `/-/` is read as an `owner/repo` page, and such a key is never
   the key of a GitLab target: a link stored that way is not recognised.
   */
  lemma OldGitlabPageIsNotRecognised(ref: ForgeRef, link: ExternalLink, scheme: string, host: string, owner: string, repo: string, number: string)
    requires GitlabShape(ref) && ':' !in scheme && '/' !in host
    requires Segment(owner) && Segment(repo) && repo != "-"
    requires Segment(number) && '#' !in number && number != "issues"
    requires link.externalId == number
    requires link.externalUrl == scheme + "://" + host + "/" + (owner + "/" + repo + "/issues/" + number)
    ensures LinkRepoKey(link) == Some(owner + "/" + repo) && LinkRepoKey(link) != RepoKey(ref)
  {
    hide LinkRepoKey, RepoKeyFromPath, TrimChar;
    BareNumberReadsUrl(link, scheme, host, owner + "/" + repo + "/issues/" + number);
    TwoPartsTrim(owner + "/" + repo + "/issues/", number);
    LegacyOwnerRepoPath(owner, repo, number);
    KeyHasSlash(ref);
    assert (owner + "/" + repo)[|owner|] == '/';
  }
}
