/**
 Repository coordinates from a repository URL (`src/forge.rs`): host, path, forge reference,
 and the percent-encoded GitLab path. However a repository's URL is spelled, the parsers agree
 on it.
 */
module Forge {
  import opened Options
  import opened MachineTypes
  import opened Text
  import Utf8

  datatype ForgeType = GitHub | GitLab | Gitea | Bitbucket | Sourcehut | Gitee | Azure | Unknown

  datatype ForgeRef = ForgeRef(host: string, owner: Option<string>, repo: Option<string>, gitlabPath: Option<string>)

  datatype Derived = Derived(ref: ForgeRef) | NoHostname | NoPath | NotOwnerRepo(segments: nat) | NotATracker

  // ---- The parsers -------------------------------------------------------------------------

  /** The host of a `git@host:path` text, if it has that shape. */
  function ScpParts(url: string): Option<(string, string)> {
    if StartsWith(url, "git@") then SplitOnce(url[4..], ':') else None
  }

  function ExtractHostname(url: string): string { HostOfTrimmed(Trim(url)) }

  function HostOfTrimmed(url: string): string {
    match ScpParts(url)
    case Some((host, _)) => host
    case None =>
      var authority := Piece(AfterScheme(url), '/').0;
      var afterUserinfo := match RSplitOnce(authority, '@') case Some((_, rest)) => rest case None => authority;
      Piece(afterUserinfo, ':').0
  }

  /** The URL without trailing slashes and without one `.git`. */
  function Cleaned(url: string): string { StripSuffix(TrimEndChar(url, '/'), ".git") }

  function RepoPath(repoUrl: string): string {
    var url := Cleaned(Trim(repoUrl));
    match ScpParts(url)
    case Some((_, path)) => TrimChar(path, '/')
    case None =>
      match SplitOnce(AfterScheme(url), '/')
      case Some((_, path)) => TrimChar(path, '/')
      case None => ""
  }

  function NormalizeRepoUrl(repoUrl: string): string { NormalizeCleaned(Cleaned(repoUrl)) }

  function NormalizeCleaned(url: string): string {
    match ScpParts(url)
    case Some((host, path)) => "https://" + host + "/" + path
    case None =>
      if StartsWith(url, "ssh://") then
        var rest := match SplitOnce(url[6..], '@') case Some((_, r)) => r case None => url[6..];
        "https://" + rest
      else url
  }

  function DeriveForgeRef(forge: ForgeType, repoUrl: string): Derived {
    var host, path := ExtractHostname(repoUrl), RepoPath(repoUrl);
    if host == "" then NoHostname
    else if path == "" then NoPath
    else FromCoordinates(forge, host, path)
  }

  /** What a host and path are worth on a forge. */
  function FromCoordinates(forge: ForgeType, host: string, path: string): Derived {
    match forge
    case GitLab => Derived(ForgeRef(host, None, None, Some(GitlabPath(path))))
    case GitHub | Gitea =>
      var segments := Segments(path, '/');
      if |segments| != 2 then NotOwnerRepo(|segments|)
      else Derived(ForgeRef(host, Some(segments[0]), Some(segments[1]), None))
    case _ => NotATracker
  }

  // ---- Percent-encoding (section 2.1 of RFC 3986) ------------------------------------------

  /** The bytes left alone: ASCII alphanumerics, `-`, `_` and `.`. */
  predicate Unreserved(b: byte) {
    var n := b as int;
    || '0' as int <= n <= '9' as int || 'A' as int <= n <= 'Z' as int || 'a' as int <= n <= 'z' as int
    || n == '-' as int || n == '_' as int || n == '.' as int
  }

  function HexDigit(n: nat): (c: char)
    requires n < 16
    ensures c in "0123456789ABCDEF"
  {
    "0123456789ABCDEF"[n]
  }

  function HexValue(c: char): (n: nat)
    ensures n < 16
  {
    if '0' <= c <= '9' then c as int - '0' as int
    else if 'A' <= c <= 'F' then c as int - 'A' as int + 10
    else 0
  }

  function PercentEncodeByte(b: byte): (s: string)
    ensures s != ""
  {
    if Unreserved(b) then [b as int as char] else ['%', HexDigit(b as int / 16), HexDigit(b as int % 16)]
  }

  function PercentEncode(b: bytes): string {
    if b == [] then "" else PercentEncodeByte(b[0]) + PercentEncode(b[1..])
  }

  /** Section 2.1 of RFC 3986 read backwards; a lone `%` and a character above 0xFF end the text. */
  function PercentDecode(s: string): bytes {
    if s == "" then []
    else if s[0] == '%' then
      if |s| < 3 then [] else [(16 * HexValue(s[1]) + HexValue(s[2])) as byte] + PercentDecode(s[3..])
    else if s[0] as int < 256 then [s[0] as int as byte] + PercentDecode(s[1..])
    else []
  }

  function GitlabPath(path: string): string { PercentEncode(Utf8.Encode(path)) }

  lemma HexRoundTrip(n: nat)
    requires n < 16
    ensures HexValue(HexDigit(n)) == n
  {
  }

  lemma HexPair(n: nat)
    requires n < 256
    ensures 16 * HexValue(HexDigit(n / 16)) + HexValue(HexDigit(n % 16)) == n
  {
    HexRoundTrip(n / 16);
    HexRoundTrip(n % 16);
  }

  lemma PercentByte(b: byte, rest: string)
    ensures PercentDecode(PercentEncodeByte(b) + rest) == [b] + PercentDecode(rest)
  {
    var s := PercentEncodeByte(b) + rest;
    hide HexDigit, HexValue;
    if Unreserved(b) {
      assert s[1..] == rest;
    } else {
      HexPair(b as int);
      assert s[3..] == rest;
    }
  }

  lemma {:induction false} PercentRoundTrip(b: bytes)
    ensures PercentDecode(PercentEncode(b)) == b
  {
    if b != [] {
      hide PercentDecode;
      PercentRoundTrip(b[1..]);
      PercentByte(b[0], PercentEncode(b[1..]));
    } else {
      NothingToDecode();
    }
  }

  lemma NothingToDecode()
    ensures PercentDecode("") == []
  {
  }

  /** The characters an encoded path can hold. */
  predicate EncodedChar(c: char) {
    c == '%' || '0' <= c <= '9' || 'A' <= c <= 'Z' || 'a' <= c <= 'z' || c == '-' || c == '_' || c == '.'
  }

  lemma {:induction false} EncodedAlphabet(b: bytes)
    ensures forall i :: 0 <= i < |PercentEncode(b)| ==> EncodedChar(PercentEncode(b)[i])
  {
    if b != [] {
      EncodedAlphabet(b[1..]);
      var head := PercentEncodeByte(b[0]);
      forall i | 0 <= i < |head|
        ensures EncodedChar(head[i])
      {
      }
    }
  }

  /** The GitLab path is recovered from its encoding, which holds neither `/` nor `#`. */
  lemma {:induction false} GitlabPathRoundTrip(path: string)
    ensures Utf8.Decode(PercentDecode(GitlabPath(path))) == path
    ensures '/' !in GitlabPath(path) && '#' !in GitlabPath(path)
  {
    PercentRoundTrip(Utf8.Encode(path));
    Utf8.DecodeEncode(path);
    EncodedAlphabet(Utf8.Encode(path));
  }

  // ---- Spellings of one repository ---------------------------------------------------------

  /** `scheme://[user@]host[:port]/path` or `git@host:path`. */
  datatype Spelling = Url(scheme: string, user: Option<string>, port: Option<string>) | Scp

  predicate WellFormedHost(host: string) {
    host != "" && '/' !in host && '@' !in host && ':' !in host
  }

  /** A path without the decorations the parsers strip. */
  predicate WellFormedPath(path: string) {
    && path != "" && path[0] != '/' && path[|path| - 1] != '/'
    && !IsWhitespace(path[|path| - 1]) && !EndsWith(path, ".git")
  }

  predicate WellFormedSpelling(sp: Spelling) {
    sp.Url? ==>
      && sp.scheme != "" && ':' !in sp.scheme && '@' !in sp.scheme && !IsWhitespace(sp.scheme[0])
      && (sp.user.Some? ==> '/' !in sp.user.value)
      && (sp.port.Some? ==> '/' !in sp.port.value && '@' !in sp.port.value)
  }

  function HostPort(port: Option<string>, host: string): string {
    match port case None => host case Some(p) => host + ":" + p
  }

  function Authority(sp: Spelling, host: string): string
    requires sp.Url?
  {
    match sp.user
    case None => HostPort(sp.port, host)
    case Some(u) => u + "@" + HostPort(sp.port, host)
  }

  function Bare(sp: Spelling, host: string, path: string): string {
    match sp
    case Scp => "git@" + host + ":" + path
    case Url(scheme, _, _) => scheme + "://" + Authority(sp, host) + "/" + path
  }

  function Tail(dotGit: bool, slashes: nat): string {
    (if dotGit then ".git" else "") + Repeat('/', slashes)
  }

  /** A repository's URL as somebody wrote it. */
  function Render(sp: Spelling, host: string, path: string, dotGit: bool, slashes: nat): string {
    Bare(sp, host, path) + Tail(dotGit, slashes)
  }

  ghost predicate WellFormed(sp: Spelling, host: string, path: string) {
    WellFormedSpelling(sp) && WellFormedHost(host) && WellFormedPath(path)
  }

  lemma BareEnds(sp: Spelling, host: string, path: string)
    requires WellFormed(sp, host, path)
    ensures var b := Bare(sp, host, path);
            && b != "" && !IsWhitespace(b[0]) && b[|b| - 1] == path[|path| - 1]
            && !EndsWith(b, ".git")
  {
    var b := Bare(sp, host, path);
    match sp
    case Scp =>
      assert b == ("git@" + host) + [':'] + path;
      EndsWithAfter("git@" + host, ':', path, ".git");
    case Url(scheme, _, _) =>
      assert b == (scheme + "://" + Authority(sp, host)) + ['/'] + path;
      EndsWithAfter(scheme + "://" + Authority(sp, host), '/', path, ".git");
  }

  lemma RenderTrims(sp: Spelling, host: string, path: string, dotGit: bool, slashes: nat)
    requires WellFormed(sp, host, path)
    ensures Trim(Render(sp, host, path, dotGit, slashes)) == Render(sp, host, path, dotGit, slashes)
  {
    BareEnds(sp, host, path);
    NothingToTrim(Render(sp, host, path, dotGit, slashes));
  }

  /** Slashes and `.git` come off, and nothing else. */
  lemma RenderCleans(sp: Spelling, host: string, path: string, dotGit: bool, slashes: nat)
    requires WellFormed(sp, host, path)
    ensures Cleaned(Render(sp, host, path, dotGit, slashes)) == Bare(sp, host, path)
  {
    var b := Bare(sp, host, path);
    BareEnds(sp, host, path);
    var named := b + if dotGit then ".git" else "";
    assert Render(sp, host, path, dotGit, slashes) == named + Repeat('/', slashes);
    TrimEndRepeated(named, '/', slashes);
    if dotGit {
      assert named[|named| - 4..] == ".git" && named[..|named| - 4] == b;
    } else {
      assert named == b;
    }
  }

  lemma NotScp(scheme: string, rest: string)
    requires ':' !in scheme && '@' !in scheme
    ensures !StartsWith(scheme + "://" + rest, "git@")
  {
    var s := scheme + "://" + rest;
    if |scheme| >= 4 {
      assert s[3] == scheme[3] != "git@"[3];
    } else {
      assert s[|scheme|] == ':' != "git@"[|scheme|];
    }
  }

  lemma ScpIsSplit(host: string, rest: string)
    requires ':' !in host
    ensures ScpParts("git@" + host + ":" + rest) == Some((host, rest))
  {
    var s := "git@" + host + ":" + rest;
    assert s[4..] == host + [':'] + rest;
    SplitAtFirst(host, ':', rest);
  }

  lemma AuthorityHasNoSlash(sp: Spelling, host: string)
    requires sp.Url? && WellFormedSpelling(sp) && WellFormedHost(host)
    ensures '/' !in Authority(sp, host)
  {
  }

  lemma HostOfAuthority(sp: Spelling, host: string)
    requires sp.Url? && WellFormedSpelling(sp) && WellFormedHost(host)
    ensures var a := Authority(sp, host);
            var afterUserinfo := match RSplitOnce(a, '@') case Some((_, rest)) => rest case None => a;
            Piece(afterUserinfo, ':').0 == host
  {
    var hp := HostPort(sp.port, host);
    match sp.user {
      case None => NothingToSplit(hp, '@');
      case Some(u) => SplitAtLast(u, '@', hp);
    }
    match sp.port {
      case None => PieceBeforeSeparator(host, ':', "");
      case Some(p) => PieceBeforeSeparator(host, ':', p);
    }
  }

  lemma HostOfRender(sp: Spelling, host: string, path: string, rest: string)
    requires WellFormed(sp, host, path)
    ensures HostOfTrimmed(Bare(sp, host, path) + rest) == host
  {
    match sp
    case Scp =>
      assert Bare(sp, host, path) + rest == "git@" + host + ":" + (path + rest);
      ScpIsSplit(host, path + rest);
    case Url(scheme, _, _) =>
      var a := Authority(sp, host);
      assert Bare(sp, host, path) + rest == scheme + "://" + (a + "/" + (path + rest));
      NotScp(scheme, a + "/" + (path + rest));
      SchemeEnds(scheme, a + "/" + (path + rest));
      AuthorityHasNoSlash(sp, host);
      PieceBeforeSeparator(a, '/', path + rest);
      HostOfAuthority(sp, host);
  }

  lemma PathOfRender(sp: Spelling, host: string, path: string, dotGit: bool, slashes: nat)
    requires WellFormed(sp, host, path)
    ensures RepoPath(Render(sp, host, path, dotGit, slashes)) == path
  {
    RenderTrims(sp, host, path, dotGit, slashes);
    RenderCleans(sp, host, path, dotGit, slashes);
    assert TrimChar(path, '/') == path;
    match sp
    case Scp =>
      ScpIsSplit(host, path);
    case Url(scheme, _, _) =>
      var a := Authority(sp, host);
      assert Bare(sp, host, path) == scheme + "://" + (a + "/" + path);
      NotScp(scheme, a + "/" + path);
      SchemeEnds(scheme, a + "/" + path);
      AuthorityHasNoSlash(sp, host);
      SplitAtFirst(a, '/', path);
  }

  /**
   Every spelling of a repository, with or without user, port, `.git` and trailing slashes,
   derives the coordinates of its host and path.
   */
  lemma SpellingsAgree(forge: ForgeType, sp: Spelling, host: string, path: string, dotGit: bool, slashes: nat)
    requires WellFormed(sp, host, path)
    ensures DeriveForgeRef(forge, Render(sp, host, path, dotGit, slashes)) == FromCoordinates(forge, host, path)
  {
    RenderTrims(sp, host, path, dotGit, slashes);
    HostOfRender(sp, host, path, Tail(dotGit, slashes));
    PathOfRender(sp, host, path, dotGit, slashes);
  }

  /** `owner` and `repo`, with one or more slashes between them. */
  predicate IsOwnerRepo(path: string, owner: string, slashes: nat, repo: string) {
    && owner != "" && '/' !in owner && repo != "" && '/' !in repo && slashes >= 1
    && path == owner + Repeat('/', slashes) + repo
  }

  /** GitLab's reference: the path, percent-encoded, and nothing else. */
  predicate IsGitlabRef(ref: ForgeRef, host: string, path: string) {
    && ref.host == host && ref.owner.None? && ref.repo.None? && ref.gitlabPath.Some?
    && Utf8.Decode(PercentDecode(ref.gitlabPath.value)) == path
    && forall c :: c in ref.gitlabPath.value ==> EncodedChar(c)
  }

  /**
   What a spelled repository derives: on GitHub and Gitea its host, owner and repository if the
   path is `owner/repo`, and an error if it is anything else; on GitLab its host and encoded
   path; elsewhere an error.
   */
  lemma DerivesExactly(forge: ForgeType, sp: Spelling, host: string, path: string, dotGit: bool, slashes: nat)
    requires WellFormed(sp, host, path)
    ensures var d := DeriveForgeRef(forge, Render(sp, host, path, dotGit, slashes));
            match forge
            case GitLab => d.Derived? && IsGitlabRef(d.ref, host, path)
            case GitHub | Gitea =>
              && (d.Derived? || d.NotOwnerRepo?)
              && (d.Derived? <==> exists owner, k, repo :: IsOwnerRepo(path, owner, k, repo))
              && (forall owner, k, repo :: IsOwnerRepo(path, owner, k, repo) ==>
                    d == Derived(ForgeRef(host, Some(owner), Some(repo), None)))
            case _ => d.NotATracker?
  {
    hide Segments, DeriveForgeRef, Render, GitlabPath, IsWhitespace, EndsWith;
    SpellingsAgree(forge, sp, host, path, dotGit, slashes);
    match forge
    case GitLab =>
      GitlabPathRoundTrip(path);
      GitlabAlphabet(path);
    case GitHub | Gitea =>
      forall owner, k, repo | IsOwnerRepo(path, owner, k, repo)
        ensures Segments(path, '/') == [owner, repo]
      {
        SegmentsOfTwo(owner, k, repo);
      }
      if |Segments(path, '/')| == 2 {
        var owner, k, repo := TwoSegments(path);
        assert IsOwnerRepo(path, owner, k, repo);
      }
    case _ =>
  }

  /** A URL without a host is refused as such. */
  lemma NoHostUrl(forge: ForgeType, scheme: string, rest: string)
    requires scheme != "" && ':' !in scheme && '@' !in scheme && !IsWhitespace(scheme[0])
    requires rest != "" && !IsWhitespace(rest[|rest| - 1])
    ensures DeriveForgeRef(forge, scheme + "://" + ("/" + rest)) == NoHostname
  {
    hide IsWhitespace, FindScheme, RepoPath, FromCoordinates, Trim, ScpParts;
    NothingToTrim(scheme + "://" + ("/" + rest));
    PlainUrlIsNotScp(scheme, "/" + rest);
    SchemeEnds(scheme, "/" + rest);
    NothingToSplit("", '@');
  }

  lemma PlainUrlIsNotScp(scheme: string, rest: string)
    requires ':' !in scheme && '@' !in scheme
    ensures ScpParts(scheme + "://" + rest).None?
  {
    NotScp(scheme, rest);
  }

  /** So is one that ends with its host. */
  lemma NoPathUrl(forge: ForgeType, scheme: string, host: string)
    requires scheme != "" && ':' !in scheme && '@' !in scheme && !IsWhitespace(scheme[0])
    requires WellFormedHost(host) && !IsWhitespace(host[|host| - 1]) && !EndsWith(scheme + "://" + host, ".git")
    ensures DeriveForgeRef(forge, scheme + "://" + host) == NoPath
  {
    hide IsWhitespace, FindScheme, FromCoordinates, Trim, ScpParts, EndsWith, RSplitOnce, SplitOnce, Piece;
    var url := scheme + "://" + host;
    NothingToTrim(url);
    PlainUrlIsNotScp(scheme, host);
    SchemeEnds(scheme, host);
    NothingToSplit(host, '@');
    NothingToSplit(host, '/');
    PieceBeforeSeparator(host, '/', "");
    PieceBeforeSeparator(host, ':', "");
    assert url[|url| - 1] == host[|host| - 1] != '/';
  }

  /** A letter, a digit, `-`, `_` or `.`. */
  predicate PlainChar(c: char) {
    '0' <= c <= '9' || 'A' <= c <= 'Z' || 'a' <= c <= 'z' || c == '-' || c == '_' || c == '.'
  }

  lemma PlainBytes(c: char)
    ensures PlainChar(c) ==> Utf8.EncodeChar(c) == [c as int as byte] && PercentEncodeByte(c as int as byte) == [c]
    ensures !PlainChar(c) ==> forall i :: 0 <= i < |Utf8.EncodeChar(c)| ==> |PercentEncodeByte(Utf8.EncodeChar(c)[i])| == 3
  {
  }

  lemma {:induction false} PercentEncodeConcat(a: bytes, b: bytes)
    ensures PercentEncode(a + b) == PercentEncode(a) + PercentEncode(b)
  {
    if a == [] {
      assert a + b == b;
    } else {
      assert (a + b)[1..] == a[1..] + b;
      PercentEncodeConcat(a[1..], b);
    }
  }

  lemma {:induction false} AllEscaped(b: bytes)
    requires forall i :: 0 <= i < |b| ==> |PercentEncodeByte(b[i])| == 3
    ensures |PercentEncode(b)| == 3 * |b|
  {
    if b != [] {
      AllEscaped(b[1..]);
    }
  }

  /** A path is its own encoding exactly when it holds only letters, digits, `-`, `_` and `.`. */
  lemma {:induction false} PlainPathsStay(path: string)
    ensures GitlabPath(path) == path <==> forall i :: 0 <= i < |path| ==> PlainChar(path[i])
    ensures |GitlabPath(path)| >= |path|
  {
    if path != "" {
      hide PercentEncode, Utf8.EncodeChar, PercentEncodeByte;
      var c, rest := path[0], path[1..];
      PlainPathsStay(rest);
      PlainBytes(c);
      PercentEncodeConcat(Utf8.EncodeChar(c), Utf8.Encode(rest));
      assert path == [c] + rest;
      if PlainChar(c) {
        EncodeOne(c as int as byte);
        assert GitlabPath(path) == [c] + GitlabPath(rest);
        assert GitlabPath(path)[1..] == GitlabPath(rest);
      } else {
        AllEscaped(Utf8.EncodeChar(c));
        assert |GitlabPath(path)| > |path|;
      }
    } else {
      NothingEncoded();
    }
  }

  lemma EncodeOne(b: byte)
    ensures PercentEncode([b]) == PercentEncodeByte(b)
  {
    assert PercentEncode([]) == "";
  }

  lemma NothingEncoded()
    ensures GitlabPath("") == ""
  {
  }

  lemma GitlabAlphabet(path: string)
    ensures forall c :: c in GitlabPath(path) ==> EncodedChar(c)
  {
    EncodedAlphabet(Utf8.Encode(path));
  }

  /** The spelling `NormalizeRepoUrl` rewrites to. */
  function Normal(sp: Spelling): Spelling {
    match sp
    case Scp => Url("https", None, None)
    case Url(scheme, user, port) =>
      if scheme != "ssh" then sp
      else if user.None? then Url("https", None, port)
      else match SplitOnce(user.value, '@')
        case None => Url("https", None, port)
        case Some((_, u)) => Url("https", Some(u), port)
  }

  lemma NormalIsWellFormed(sp: Spelling)
    requires WellFormedSpelling(sp)
    ensures WellFormedSpelling(Normal(sp))
  {
    if sp.Url? && sp.scheme == "ssh" && sp.user.Some? && '@' in sp.user.value {
      SplitTakesPart(sp.user.value, '@');
    } else if sp.Url? && sp.user.Some? && '@' !in sp.user.value {
      NothingToSplit(sp.user.value, '@');
    }
  }

  lemma {:induction false} SplitTakesPart(s: string, c: char)
    requires c in s
    ensures SplitOnce(s, c).Some?
    ensures forall d :: d in SplitOnce(s, c).value.1 ==> d in s
  {
    if s[0] != c {
      SplitTakesPart(s[1..], c);
    }
  }

  lemma NotSsh(scheme: string, rest: string)
    requires ':' !in scheme
    ensures StartsWith(scheme + "://" + rest, "ssh://") <==> scheme == "ssh"
  {
    var s := scheme + "://" + rest;
    if |scheme| > 3 {
      assert s[3] == scheme[3] != "ssh://"[3];
    } else if |scheme| < 3 {
      assert s[|scheme|] == ':' != "ssh://"[|scheme|];
    } else {
      assert s[..3] == scheme && "ssh://"[..3] == "ssh";
      assert scheme == "ssh" ==> s[..6] == "ssh://";
    }
  }

  lemma BareIsPrefixed(sp: Spelling, host: string, path: string)
    requires sp.Url?
    ensures Bare(sp, host, path) == sp.scheme + "://" + (Authority(sp, host) + "/" + path)
  {
    assert sp.scheme + "://" + Authority(sp, host) + "/" + path == sp.scheme + "://" + (Authority(sp, host) + "/" + path);
  }

  /** Dropping up to the first `@` of an ssh URL drops userinfo, never a piece of the host. */
  lemma SshUserDropped(user: Option<string>, port: Option<string>, host: string, path: string)
    requires WellFormed(Url("ssh", user, port), host, path)
    requires user.None? ==> '@' !in path
    ensures var rest := Authority(Url("ssh", user, port), host) + "/" + path;
            (match SplitOnce(rest, '@') case Some((_, r)) => r case None => rest)
            == Authority(Normal(Url("ssh", user, port)), host) + "/" + path
  {
    hide SplitOnce, IsWhitespace, EndsWith;
    var hp := HostPort(port, host);
    match user {
      case None =>
        NothingToSplit(hp + "/" + path, '@');
      case Some(u) =>
        if '@' in u {
          assert u + "@" + hp + "/" + path == u + ("@" + hp + "/" + path);
          SplitOnceExtends(u, "@" + hp + "/" + path, '@');
          var kept := SplitOnce(u, '@').value.1;
          assert kept + ("@" + hp + "/" + path) == kept + "@" + hp + "/" + path;
        } else {
          NothingToSplit(u, '@');
          assert u + "@" + hp + "/" + path == u + ['@'] + (hp + "/" + path);
          SplitAtFirst(u, '@', hp + "/" + path);
        }
    }
  }

  lemma NormalizeUrl(sp: Spelling, host: string, path: string)
    requires WellFormed(sp, host, path) && sp.Url?
    requires sp.scheme == "ssh" && sp.user.None? ==> '@' !in path
    ensures var b := Bare(sp, host, path);
            && ScpParts(b).None?
            && (sp.scheme != "ssh" ==> !StartsWith(b, "ssh://"))
            && (sp.scheme == "ssh" ==> StartsWith(b, "ssh://") && b[6..] == Authority(sp, host) + "/" + path)
  {
    hide Authority;
    var rest := Authority(sp, host) + "/" + path;
    BareIsPrefixed(sp, host, path);
    NotScp(sp.scheme, rest);
    NotSsh(sp.scheme, rest);
  }

  lemma NormalizeScp(host: string, path: string)
    requires ':' !in host
    ensures NormalizeCleaned(Bare(Scp, host, path)) == Bare(Url("https", None, None), host, path)
  {
    hide SplitOnce, ScpParts;
    ScpIsSplit(host, path);
    assert "https" + "://" + host + "/" + path == "https://" + host + "/" + path;
  }

  lemma NormalizeSshUrl(user: Option<string>, port: Option<string>, host: string, path: string)
    requires WellFormed(Url("ssh", user, port), host, path)
    requires user.None? ==> '@' !in path
    ensures NormalizeCleaned(Bare(Url("ssh", user, port), host, path)) == Bare(Normal(Url("ssh", user, port)), host, path)
  {
    hide SplitOnce, ScpParts, Authority, Bare, IsWhitespace, EndsWith;
    var sp := Url("ssh", user, port);
    NormalizeUrl(sp, host, path);
    SshUserDropped(user, port, host, path);
    BareIsPrefixed(Normal(sp), host, path);
    assert "https" + "://" == "https://";
  }

  /** Normalising strips the decorations and rewrites the spelling, keeping host and path. */
  lemma NormalizeIsNormal(sp: Spelling, host: string, path: string, dotGit: bool, slashes: nat)
    requires WellFormed(sp, host, path)
    requires sp.Url? && sp.scheme == "ssh" && sp.user.None? ==> '@' !in path
    ensures NormalizeRepoUrl(Render(sp, host, path, dotGit, slashes)) == Bare(Normal(sp), host, path)
  {
    hide Cleaned, Render, SplitOnce, ScpParts, Authority, Bare, IsWhitespace, EndsWith;
    RenderCleans(sp, host, path, dotGit, slashes);
    if sp.Scp? {
      NormalizeScp(host, path);
    } else if sp.scheme == "ssh" {
      NormalizeSshUrl(sp.user, sp.port, host, path);
    } else {
      NormalizeUrl(sp, host, path);
    }
  }

  /** Normalising keeps the coordinates. */
  lemma NormalizeKeepsCoordinates(forge: ForgeType, sp: Spelling, host: string, path: string, dotGit: bool, slashes: nat)
    requires WellFormed(sp, host, path)
    requires sp.Url? && sp.scheme == "ssh" && sp.user.None? ==> '@' !in path
    ensures DeriveForgeRef(forge, NormalizeRepoUrl(Render(sp, host, path, dotGit, slashes)))
            == DeriveForgeRef(forge, Render(sp, host, path, dotGit, slashes))
  {
    NormalizeIsNormal(sp, host, path, dotGit, slashes);
    NormalIsWellFormed(sp);
    SpellingsAgree(forge, sp, host, path, dotGit, slashes);
    SpellingsAgree(forge, Normal(sp), host, path, false, 0);
    assert Render(Normal(sp), host, path, false, 0) == Bare(Normal(sp), host, path);
  }

  // ---- Exactly when normalising keeps the coordinates --------------------------------------

  /** How many `@` a text holds. */
  function Ats(s: string): nat { if s == "" then 0 else (if s[0] == '@' then 1 else 0) + Ats(s[1..]) }

  lemma {:induction false} AtsConcat(a: string, b: string)
    ensures Ats(a + b) == Ats(a) + Ats(b)
  {
    if a == "" {
      assert a + b == b;
    } else {
      assert (a + b)[1..] == a[1..] + b;
      AtsConcat(a[1..], b);
    }
  }

  lemma {:induction false} NoAts(s: string)
    ensures Ats(s) == 0 <==> '@' !in s
  {
    if s != "" {
      NoAts(s[1..]);
    }
  }

  /** A piece of a text holds no more of them. */
  lemma AtsOfSlice(s: string, i: nat, j: nat)
    requires i <= j <= |s|
    ensures Ats(s[i..j]) <= Ats(s)
  {
    hide Ats;
    assert s == s[..i] + (s[i..j] + s[j..]);
    AtsConcat(s[..i], s[i..j] + s[j..]);
    AtsConcat(s[i..j], s[j..]);
  }

  lemma {:induction false} SplitParts(s: string, c: char)
    requires SplitOnce(s, c).Some?
    ensures var (a, b) := SplitOnce(s, c).value; s == a + [c] + b && c !in a
  {
    if s[0] == c {
      assert s == "" + [c] + s[1..];
    } else {
      SplitParts(s[1..], c);
      var (a, b) := SplitOnce(s[1..], c).value;
      assert s == ([s[0]] + a) + [c] + b;
    }
  }

  lemma {:induction false} AtsOfSplit(s: string, c: char)
    requires SplitOnce(s, c).Some?
    ensures Ats(SplitOnce(s, c).value.1) <= Ats(s)
  {
    hide Ats, SplitOnce;
    SplitParts(s, c);
    var (a, b) := SplitOnce(s, c).value;
    AtsConcat(a + [c], b);
  }

  lemma {:induction false} AtsOfTrim(s: string)
    ensures Ats(TrimStart(s)) <= Ats(s) && Ats(TrimEnd(s)) <= Ats(s)
  {
    if s != "" {
      AtsOfTrim(s[1..]);
      AtsOfTrim(s[..|s| - 1]);
      AtsOfSlice(s, 0, |s| - 1);
      assert s[0..|s| - 1] == s[..|s| - 1];
    }
  }

  lemma {:induction false} AtsOfTrimChar(s: string, c: char)
    ensures Ats(TrimStartChar(s, c)) <= Ats(s) && Ats(TrimEndChar(s, c)) <= Ats(s)
  {
    if s != "" {
      AtsOfTrimChar(s[1..], c);
      AtsOfTrimChar(s[..|s| - 1], c);
      AtsOfSlice(s, 0, |s| - 1);
      assert s[0..|s| - 1] == s[..|s| - 1];
    }
  }

  lemma {:induction false} AtsOfScheme(s: string)
    ensures Ats(AfterScheme(s)) <= Ats(s)
  {
    if |s| >= 3 && s[..3] != "://" {
      AtsOfScheme(s[1..]);
    } else if |s| >= 3 {
      AtsOfSlice(s, 3, |s|);
      assert s[3..|s|] == s[3..];
    }
  }

  lemma AtsOfClean(s: string)
    ensures Ats(Cleaned(s)) <= Ats(s)
  {
    var t := TrimEndChar(s, '/');
    AtsOfTrimChar(s, '/');
    if EndsWith(t, ".git") {
      AtsOfSlice(t, 0, |t| - 4);
      assert t[0..|t| - 4] == t[..|t| - 4];
    }
  }

  /** The path of a URL holds no more `@` than the URL. */
  lemma AtsOfPath(url: string)
    ensures Ats(RepoPath(url)) <= Ats(url)
  {
    hide Cleaned, TrimStart, TrimEnd, SplitOnce, FindScheme, TrimStartChar, TrimEndChar, Ats;
    var trimmed := Trim(url);
    AtsOfTrim(url);
    AtsOfTrim(TrimStart(url));
    var c := Cleaned(trimmed);
    AtsOfClean(trimmed);
    AtsOfSlice(c, if |c| < 4 then 0 else 4, |c|);
    assert |c| >= 4 ==> c[4..|c|] == c[4..];
    NoAts("");
    var found := if ScpParts(c).Some? then ScpParts(c) else SplitOnce(AfterScheme(c), '/');
    AtsOfScheme(c);
    if found.Some? {
      if ScpParts(c).Some? {
        AtsOfSplit(c[4..], ':');
      } else {
        AtsOfSplit(AfterScheme(c), '/');
      }
      AtsOfTrimChar(found.value.1, '/');
      AtsOfTrimChar(TrimStartChar(found.value.1, '/'), '/');
    }
  }

  lemma CutAtFirst(before: string, path: string)
    requires '@' !in before && '@' in path
    ensures SplitOnce(before + path, '@').Some?
    ensures Ats("https://" + SplitOnce(before + path, '@').value.1) < Ats(path)
  {
    var rest := before + path;
    var k :| 0 <= k < |path| && path[k] == '@';
    assert rest[|before| + k] == '@';
    SplitOnceExtends(rest, "", '@');
    SplitParts(rest, '@');
    var (a, b) := SplitOnce(rest, '@').value;
    AtsConcat(before, path);
    AtsConcat(a + ['@'], b);
    AtsConcat(a, ['@']);
    AtsConcat("https://", b);
    NoAts(before);
    NoAts(a);
    NoAts("https://");
    assert Ats(['@']) == 1;
  }

  /** An ssh URL without userinfo loses the part of its path up to the first `@`. */
  lemma SshPathCut(port: Option<string>, host: string, path: string)
    requires WellFormed(Url("ssh", None, port), host, path) && '@' in path
    ensures Ats(NormalizeCleaned(Bare(Url("ssh", None, port), host, path))) < Ats(path)
  {
    var sp := Url("ssh", None, port);
    var before := HostPort(port, host) + "/";
    assert '@' !in before;
    CutAtFirst(before, path);
    hide Bare, SplitOnce, Ats, EndsWith, IsWhitespace;
    var rest := before + path;
    assert Authority(sp, host) + "/" + path == rest;
    BareIsPrefixed(sp, host, path);
    NotScp("ssh", rest);
    NotSsh("ssh", rest);
    assert Bare(sp, host, path)[6..] == rest;
  }

  /**
   The exact condition: normalising keeps host and path unless the URL is an ssh URL without
   userinfo and with an `@` in its path.
   */
  lemma NormalizeKeepsExactly(sp: Spelling, host: string, path: string, dotGit: bool, slashes: nat)
    requires WellFormed(sp, host, path)
    ensures var normal := NormalizeRepoUrl(Render(sp, host, path, dotGit, slashes));
            ExtractHostname(normal) == host && RepoPath(normal) == path
            <==> !(sp.Url? && sp.scheme == "ssh" && sp.user.None? && '@' in path)
  {
    var normal := NormalizeRepoUrl(Render(sp, host, path, dotGit, slashes));
    if sp.Url? && sp.scheme == "ssh" && sp.user.None? && '@' in path {
      RenderCleans(sp, host, path, dotGit, slashes);
      SshPathCut(sp.port, host, path);
      AtsOfPath(normal);
    } else {
      NormalizeIsNormal(sp, host, path, dotGit, slashes);
      NormalIsWellFormed(sp);
      var plain := Render(Normal(sp), host, path, false, 0);
      assert plain == Bare(Normal(sp), host, path);
      RenderTrims(Normal(sp), host, path, false, 0);
      HostOfRender(Normal(sp), host, path, "");
      assert Bare(Normal(sp), host, path) + "" == plain;
      PathOfRender(Normal(sp), host, path, false, 0);
    }
  }

  // ---- The path cannot choose the host -----------------------------------------------------

  /** Whatever the scheme, the authority and the two paths are, the hostname is the same. */
  lemma HostIgnoresPath(scheme: string, authority: string, path: string, path': string)
    ensures ExtractHostname(scheme + "://" + authority + "/" + path)
            == ExtractHostname(scheme + "://" + authority + "/" + path')
  {
    var start := TrimStart(scheme) + "://" + authority;
    HostDecidedBefore(scheme, authority, path);
    HostDecidedBefore(scheme, authority, path');
    HostOfStart(TrimStart(scheme), authority, TrimEnd(path));
    HostOfStart(TrimStart(scheme), authority, TrimEnd(path'));
  }

  lemma HostDecidedBefore(scheme: string, authority: string, path: string)
    ensures Trim(scheme + "://" + authority + "/" + path)
            == TrimStart(scheme) + "://" + authority + "/" + TrimEnd(path)
  {
    assert scheme + "://" + authority + "/" + path == scheme + [':'] + ("//" + authority + "/" + path);
    TrimStartStops(scheme, ':', "//" + authority + "/" + path);
    var started := TrimStart(scheme) + "://" + authority;
    assert TrimStart(scheme) + [':'] + ("//" + authority + "/" + path) == started + ['/'] + path;
    TrimEndStops(started, '/', path);
  }

  /** The host of a trimmed URL, computed from what precedes the path. */
  function HostBefore(start: string): string
    requires ':' in start && FindScheme(start).Some?
  {
    if StartsWith(start, "git@") && ':' in start[4..] then
      match SplitOnce(start[4..], ':') case Some((host, _)) => host case None => ""
    else
      var authority := Piece(FindScheme(start).value, '/').0;
      var afterUserinfo := match RSplitOnce(authority, '@') case Some((_, rest)) => rest case None => authority;
      Piece(afterUserinfo, ':').0
  }

  lemma HostOfStart(scheme: string, authority: string, path: string)
    ensures FindScheme(scheme + "://" + authority).Some?
    ensures HostOfTrimmed(scheme + "://" + authority + "/" + path) == HostBefore(scheme + "://" + authority)
  {
    var start := scheme + "://" + authority;
    var url := start + "/" + path;
    SchemeIsFound(scheme, authority);
    assert start[|scheme|] == ':';
    if |scheme| < 4 {
      assert start[|scheme|] == url[|scheme|] == ':' != "git@"[|scheme|];
    } else {
      assert start[..4] == url[..4];
      assert start[4..][|scheme| - 4] == ':';
    }
    if StartsWith(start, "git@") {
      assert url[4..] == start[4..] + ("/" + path);
      SplitOnceExtends(start[4..], "/" + path, ':');
    } else {
      assert url == start + ("/" + path);
      FindSchemeExtends(start, "/" + path);
      var after := FindScheme(start).value;
      assert after + ("/" + path) == after + ['/'] + path;
      PieceBeforeSeparator(after, '/', path);
    }
  }
}
