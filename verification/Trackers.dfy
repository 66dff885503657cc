/**
 Filing an issue into an external tracker (`src/trackers.rs`): which repositories an
 integration can file into, which one a call means, whether a stored link already answers it,
 and what a call leaves behind in the link table and on the forge.
 */
module Trackers {
  import opened Options
  import opened Text
  import opened Forge
  import opened IssueLinks

  datatype Kind = GitHubKind | GitLabKind | ForgejoKind | Webhook | Slack | Email {
    predicate IsTracker() { GitHubKind? || GitLabKind? || ForgejoKind? }

    /** The forge tag a repository must carry, and the forge it stands for. */
    function Forge(): Option<(string, ForgeType)> {
      match this
      case GitHubKind => Some(("github", ForgeType.GitHub))
      case GitLabKind => Some(("gitlab", ForgeType.GitLab))
      case ForgejoKind => Some(("gitea", ForgeType.Gitea))
      case _ => None
    }
  }

  datatype Integration = Integration(id: int, orgId: int, kind: Kind, url: Option<string>,
                                     secret: Option<string>, encrypted: bool)

  datatype ProjectRepo = ProjectRepo(id: int, projectId: int, repoUrl: string, forgeType: string,
                                     forgeTypeOverride: Option<string>) {
    function EffectiveForgeType(): string {
      match forgeTypeOverride
      case Some(tag) => if tag != "" then tag else forgeType
      case None => forgeType
    }
  }

  datatype TrackerMatch = TrackerMatch(integration: Integration, repo: ProjectRepo, ref: ForgeRef)

  // ---- Hosts -------------------------------------------------------------------------------

  /** The lower-cased host behind an `api.` prefix. */
  function StripApi(host: string): Option<string> {
    if StartsWith(host, "api.") then Some(Lower(host[4..])) else None
  }

  predicate HostsMatch(integrationHost: string, repoHost: string) {
    || Lower(integrationHost) == Lower(repoHost)
    || StripApi(integrationHost) == Some(Lower(repoHost))
    || StripApi(repoHost) == Some(Lower(integrationHost))
  }

  /** `a` is `b`, or its API host, up to the case of ASCII letters; `api.` itself is lower-case. */
  predicate IsOrApiOf(a: string, b: string) {
    SameText(a, b) || (|a| >= 4 && a[..4] == "api." && SameText(a[4..], b))
  }

  /** Two hosts match exactly when they are the same up to case, or one is the other behind `api.`. */
  lemma HostsMatchExactly(a: string, b: string)
    ensures HostsMatch(a, b) <==> IsOrApiOf(a, b) || IsOrApiOf(b, a)
  {
    hide Lower, SameText;
    LowerForgetsCase(a, b);
    LowerForgetsCase(b, a);
    SameTextSymmetric(a, b);
    if |a| >= 4 {
      LowerForgetsCase(a[4..], b);
    }
    if |b| >= 4 {
      LowerForgetsCase(b[4..], a);
    }
  }

  lemma SameTextSymmetric(a: string, b: string)
    ensures SameText(a, b) <==> SameText(b, a)
  {
  }

  // ---- Targets -----------------------------------------------------------------------------

  /** Coordinates for filing this integration into this repo, or `None` if the pair can't be used. */
  function TrackerRepoMatch(integration: Integration, repo: ProjectRepo): Option<ForgeRef> {
    match integration.kind.Forge()
    case None => None
    case Some((tag, forge)) =>
      if repo.EffectiveForgeType() != tag || integration.url.None? then None
      else if !HostsMatch(ExtractHostname(integration.url.value), ExtractHostname(repo.repoUrl)) then None
      else match DeriveForgeRef(forge, repo.repoUrl)
        case Derived(ref) => Some(ref)
        case _ => None
  }

  /** Everything a call reads that is not the link table; it may change freely between calls. */
  datatype Config = Config(
    integrations: seq<Integration>,
    repos: seq<ProjectRepo>,
    excluded: set<int>,
    licensed: bool,
    issues: set<(int, string)>,
    decrypt: Option<string -> Option<string>>)

  datatype LinkRequest = LinkRequest(orgId: int, projectId: int, fingerprint: string, integrationId: int, repoId: Option<int>)

  /** The pair is usable for this project: kind, exclusion, organisation, forge and host all fit. */
  ghost predicate Fits(cfg: Config, orgId: int, projectId: int, m: TrackerMatch) {
    && m.integration.orgId == orgId && m.integration.kind.IsTracker() && m.integration.id !in cfg.excluded
    && m.repo in cfg.repos && m.repo.projectId == projectId
    && TrackerRepoMatch(m.integration, m.repo) == Some(m.ref)
  }

  /** A pair of `ResolveMatchingTrackers`. */
  ghost predicate CanFile(cfg: Config, orgId: int, projectId: int, m: TrackerMatch) {
    m.integration in cfg.integrations && Fits(cfg, orgId, projectId, m)
  }

  function MatchesOf(integration: Integration, repos: seq<ProjectRepo>, projectId: int): seq<TrackerMatch> {
    if repos == [] then []
    else
      var n := |repos| - 1;
      MatchesOf(integration, repos[..n], projectId)
      + match TrackerRepoMatch(integration, repos[n])
        case Some(ref) => if repos[n].projectId == projectId then [TrackerMatch(integration, repos[n], ref)] else []
        case None => []
  }

  function AllMatches(integrations: seq<Integration>, cfg: Config, orgId: int, projectId: int): seq<TrackerMatch> {
    if integrations == [] then []
    else
      var n := |integrations| - 1;
      var i := integrations[n];
      AllMatches(integrations[..n], cfg, orgId, projectId)
      + if i.orgId == orgId && i.kind.IsTracker() && i.id !in cfg.excluded then MatchesOf(i, cfg.repos, projectId) else []
  }

  lemma {:induction false} MatchesOfExact(integration: Integration, repos: seq<ProjectRepo>, projectId: int, m: TrackerMatch)
    ensures m in MatchesOf(integration, repos, projectId) <==>
      m.integration == integration && m.repo in repos && m.repo.projectId == projectId
      && TrackerRepoMatch(integration, m.repo) == Some(m.ref)
  {
    hide TrackerRepoMatch;
    if repos != [] {
      var n := |repos| - 1;
      MatchesOfExact(integration, repos[..n], projectId, m);
      assert m.repo in repos <==> m.repo in repos[..n] || m.repo == repos[n];
    }
  }

  lemma {:induction false} AllMatchesExact(integrations: seq<Integration>, cfg: Config, orgId: int, projectId: int, m: TrackerMatch)
    ensures m in AllMatches(integrations, cfg, orgId, projectId) <==>
      m.integration in integrations && Fits(cfg, orgId, projectId, m)
  {
    hide TrackerRepoMatch, MatchesOf;
    if integrations != [] {
      var n := |integrations| - 1;
      AllMatchesExact(integrations[..n], cfg, orgId, projectId, m);
      MatchesOfExact(integrations[n], cfg.repos, projectId, m);
      assert m.integration in integrations <==> m.integration in integrations[..n] || m.integration == integrations[n];
    }
  }

  /** The inner loop: one integration against every repository. */
  method MatchRepos(integration: Integration, repos: seq<ProjectRepo>, projectId: int, before: seq<TrackerMatch>)
    returns (matches: seq<TrackerMatch>)
    ensures matches == before + MatchesOf(integration, repos, projectId)
  {
    hide TrackerRepoMatch;
    matches := before;
    for k := 0 to |repos|
      invariant matches == before + MatchesOf(integration, repos[..k], projectId)
    {
      assert repos[..k + 1][..k] == repos[..k];
      if repos[k].projectId == projectId {
        match TrackerRepoMatch(integration, repos[k])
        case Some(ref) => matches := matches + [TrackerMatch(integration, repos[k], ref)];
        case None =>
      }
    }
    assert repos[..|repos|] == repos;
  }

  /** Every (tracker integration, repository) pair that can file for this project, and no other. */
  method ResolveMatchingTrackers(cfg: Config, orgId: int, projectId: int) returns (matches: seq<TrackerMatch>)
    ensures matches == AllMatches(cfg.integrations, cfg, orgId, projectId)
    ensures forall m :: m in matches <==> CanFile(cfg, orgId, projectId, m)
  {
    hide MatchesOf, Fits;
    matches := [];
    for n := 0 to |cfg.integrations|
      invariant matches == AllMatches(cfg.integrations[..n], cfg, orgId, projectId)
    {
      var integration := cfg.integrations[n];
      assert cfg.integrations[..n + 1][..n] == cfg.integrations[..n];
      if integration.orgId == orgId && integration.kind.IsTracker() && integration.id !in cfg.excluded {
        matches := MatchRepos(integration, cfg.repos, projectId, matches);
      }
    }
    assert cfg.integrations[..|cfg.integrations|] == cfg.integrations;
    forall m
      ensures m in matches <==> CanFile(cfg, orgId, projectId, m)
    {
      AllMatchesExact(cfg.integrations, cfg, orgId, projectId, m);
    }
  }

  // ---- One call ----------------------------------------------------------------------------

  datatype LinkError =
    | IssueNotFound | IntegrationNotFound | LicenseRequired
    | NoCredential | NoBaseUrl | NoMatchingRepository | RepositoryNotUsable | Ambiguous
    | Blocked | Rejected | Unavailable

  datatype LinkResult = Linked(externalId: string, externalUrl: string, created: bool) | Failed(error: LinkError)

  /** What the forge does with the POST: open an issue, open one whose answer is lost, or refuse. */
  datatype ForgeReply = Opened(raw: string, url: string) | OpenedUnreadably | Refused(error: LinkError)

  /** What happens outside: the SSRF check, the forge, the insert. */
  datatype Outside = Outside(blocked: bool, reply: ForgeReply, insertFails: bool)

  /** An issue opened on a forge by a call. */
  datatype RemoteIssue = RemoteIssue(projectId: int, fingerprint: string, integrationId: int, key: Option<string>)

  datatype World = World(links: seq<ExternalLink>, remote: seq<RemoteIssue>)

  function FindIntegration(integrations: seq<Integration>, id: int, orgId: int): Option<Integration> {
    if integrations == [] then None
    else if integrations[0].id == id && integrations[0].orgId == orgId then Some(integrations[0])
    else FindIntegration(integrations[1..], id, orgId)
  }

  function Token(i: Integration, decrypt: Option<string -> Option<string>>): Option<string> {
    match (i.secret, i.encrypted, decrypt)
    case (Some(s), true, Some(f)) => f(s)
    case (Some(s), false, _) => Some(s)
    case _ => None
  }

  function OfIntegration(matches: seq<TrackerMatch>, id: int): seq<TrackerMatch> {
    if matches == [] then []
    else (if matches[0].integration.id == id then [matches[0]] else []) + OfIntegration(matches[1..], id)
  }

  function OfRepo(matches: seq<TrackerMatch>, repoId: int): Option<TrackerMatch> {
    if matches == [] then None
    else if matches[0].repo.id == repoId then Some(matches[0])
    else OfRepo(matches[1..], repoId)
  }

  datatype Choice = Target(m: TrackerMatch) | NoTarget(error: LinkError)

  function Choose(matches: seq<TrackerMatch>, repoId: Option<int>): Choice {
    if matches == [] then NoTarget(NoMatchingRepository)
    else match repoId
      case None => if |matches| == 1 then Target(matches[0]) else NoTarget(Ambiguous)
      case Some(id) => match OfRepo(matches, id)
        case Some(m) => Target(m)
        case None => NoTarget(RepositoryNotUsable)
  }

  /** A stored link answers a call: same issue and integration, and not shown to be another repository. */
  predicate Answers(l: ExternalLink, req: LinkRequest, choice: Choice) {
    && l.projectId == req.projectId && l.fingerprint == req.fingerprint
    && l.integrationId == Some(req.integrationId)
    && match choice
       case NoTarget(_) => true
       case Target(m) =>
         match (LinkRepoKey(l), RepoKey(m.ref))
         case (Some(have), Some(want)) => have == want
         case (None, _) => true
         case (Some(_), None) => false
  }

  function FirstAnswer(links: seq<ExternalLink>, req: LinkRequest, choice: Choice): (r: Option<ExternalLink>)
    ensures r.None? <==> forall i :: 0 <= i < |links| ==> !Answers(links[i], req, choice)
    ensures r.Some? ==> r.value in links && Answers(r.value, req, choice)
  {
    if links == [] then None
    else if Answers(links[0], req, choice) then Some(links[0])
    else FirstAnswer(links[1..], req, choice)
  }

  /** `ON CONFLICT (fingerprint, integration_id, external_id) DO NOTHING`. */
  predicate Conflicts(links: seq<ExternalLink>, l: ExternalLink) {
    exists i :: 0 <= i < |links| && links[i].fingerprint == l.fingerprint
                && links[i].integrationId == l.integrationId && links[i].externalId == l.externalId
  }

  /** The checks before any target is looked for; the integration and its base URL when they pass. */
  function Gate(cfg: Config, req: LinkRequest): (r: Option<LinkError>) {
    match FindIntegration(cfg.integrations, req.integrationId, req.orgId)
    case None => Some(IntegrationNotFound)
    case Some(i) =>
      if !i.kind.IsTracker() then Some(IntegrationNotFound)
      else if !cfg.licensed then Some(LicenseRequired)
      else if (req.projectId, req.fingerprint) !in cfg.issues then Some(IssueNotFound)
      else if Token(i, cfg.decrypt).None? then Some(NoCredential)
      else if i.url.None? then Some(NoBaseUrl)
      else None
  }

  function ChoiceOf(cfg: Config, req: LinkRequest): Choice {
    Choose(OfIntegration(AllMatches(cfg.integrations, cfg, req.orgId, req.projectId), req.integrationId), req.repoId)
  }

  /** Past the stored links: post to the forge, store what it answered. */
  function Post(w: World, req: LinkRequest, m: TrackerMatch, env: Outside): (World, LinkResult) {
    if env.blocked then (w, Failed(Blocked))
    else
      var remote := w.remote + [RemoteIssue(req.projectId, req.fingerprint, req.integrationId, RepoKey(m.ref))];
      match env.reply
      case Refused(e) => (w, Failed(e))
      case OpenedUnreadably => (w.(remote := remote), Failed(Unavailable))
      case Opened(raw, url) =>
        var id := QualifiedExternalId(m.ref, raw);
        var link := ExternalLink(req.projectId, req.fingerprint, Some(req.integrationId), id, url);
        var links := if env.insertFails || Conflicts(w.links, link) then w.links else w.links + [link];
        (World(links, remote), Linked(id, url, true))
  }

  /** One filing call. */
  function File(w: World, cfg: Config, req: LinkRequest, env: Outside): (World, LinkResult) {
    match Gate(cfg, req)
    case Some(e) => (w, Failed(e))
    case None =>
      var choice := ChoiceOf(cfg, req);
      match FirstAnswer(w.links, req, choice)
      case Some(l) => (w, Linked(l.externalId, l.externalUrl, false))
      case None =>
        match choice
        case NoTarget(e) => (w, Failed(e))
        case Target(m) => Post(w, req, m, env)
  }

  class TrackerStore {
    var links: seq<ExternalLink>
    var remote: seq<RemoteIssue>

    ghost function Value(): World
      reads this
    {
      World(links, remote)
    }

    constructor (links: seq<ExternalLink>, remote: seq<RemoteIssue>)
      ensures Value() == World(links, remote)
    {
      this.links, this.remote := links, remote;
    }

    /** Create the tracker issue and store the link, or hand back the link that already exists. */
    method LinkIssue(cfg: Config, req: LinkRequest, env: Outside) returns (result: LinkResult)
      modifies this
      ensures (Value(), result) == File(old(Value()), cfg, req, env)
    {
      hide AllMatches, FirstAnswer, Answers, Conflicts, QualifiedExternalId, RepoKey;
      var gate := Gate(cfg, req);
      if gate.Some? {
        return Failed(gate.value);
      }
      var all := ResolveMatchingTrackers(cfg, req.orgId, req.projectId);
      var choice := Choose(OfIntegration(all, req.integrationId), req.repoId);
      var existing := FindAnswer(req, choice);
      if existing.Some? {
        return Linked(existing.value.externalId, existing.value.externalUrl, false);
      }
      if choice.NoTarget? {
        return Failed(choice.error);
      }
      if env.blocked {
        return Failed(Blocked);
      }
      if env.reply.Refused? {
        return Failed(env.reply.error);
      }
      remote := remote + [RemoteIssue(req.projectId, req.fingerprint, req.integrationId, RepoKey(choice.m.ref))];
      if env.reply.OpenedUnreadably? {
        return Failed(Unavailable);
      }
      var id := QualifiedExternalId(choice.m.ref, env.reply.raw);
      var link := ExternalLink(req.projectId, req.fingerprint, Some(req.integrationId), id, env.reply.url);
      if !env.insertFails {
        InsertLink(link);
      }
      return Linked(id, env.reply.url, true);
    }

    /** The first stored link that answers, in table order. */
    method FindAnswer(req: LinkRequest, choice: Choice) returns (found: Option<ExternalLink>)
      ensures found == FirstAnswer(links, req, choice)
    {
      for n := 0 to |links|
        invariant FirstAnswer(links, req, choice) == FirstAnswer(links[n..], req, choice)
      {
        if Answers(links[n], req, choice) {
          return Some(links[n]);
        }
        assert links[n..][1..] == links[n + 1..];
      }
      return None;
    }

    method InsertLink(link: ExternalLink)
      modifies this`links
      ensures links == if Conflicts(old(links), link) then old(links) else old(links) + [link]
    {
      for n := 0 to |links|
        invariant links == old(links)
        invariant forall i :: 0 <= i < n ==>
          !(links[i].fingerprint == link.fingerprint && links[i].integrationId == link.integrationId
            && links[i].externalId == link.externalId)
      {
        if links[n].fingerprint == link.fingerprint && links[n].integrationId == link.integrationId
           && links[n].externalId == link.externalId {
          return;
        }
      }
      links := links + [link];
    }
  }

  // ---- What a call can do ------------------------------------------------------------------

  lemma {:induction false} OfIntegrationExact(matches: seq<TrackerMatch>, id: int, m: TrackerMatch)
    ensures m in OfIntegration(matches, id) <==> m in matches && m.integration.id == id
  {
    if matches != [] {
      OfIntegrationExact(matches[1..], id, m);
    }
  }

  lemma {:induction false} OfRepoExact(matches: seq<TrackerMatch>, repoId: int)
    ensures OfRepo(matches, repoId).Some? ==>
      OfRepo(matches, repoId).value in matches && OfRepo(matches, repoId).value.repo.id == repoId
    ensures OfRepo(matches, repoId).None? ==> forall m :: m in matches ==> m.repo.id != repoId
  {
    if matches != [] {
      OfRepoExact(matches[1..], repoId);
    }
  }

  /** The target of a call is a usable pair of the named integration, and the named repository if one is named. */
  lemma {:induction false} TargetCanFile(cfg: Config, req: LinkRequest)
    requires ChoiceOf(cfg, req).Target?
    ensures var m := ChoiceOf(cfg, req).m;
            && CanFile(cfg, req.orgId, req.projectId, m) && m.integration.id == req.integrationId
            && (req.repoId.Some? ==> m.repo.id == req.repoId.value)
            && IsDerived(m.ref)
  {
    hide AllMatches, TrackerRepoMatch;
    var m := ChoiceOf(cfg, req).m;
    var all := AllMatches(cfg.integrations, cfg, req.orgId, req.projectId);
    var own := OfIntegration(all, req.integrationId);
    if req.repoId.Some? {
      OfRepoExact(own, req.repoId.value);
    }
    assert m in own;
    OfIntegrationExact(all, req.integrationId, m);
    AllMatchesExact(cfg.integrations, cfg, req.orgId, req.projectId, m);
    MatchIsDerived(m.integration, m.repo, m.ref);
  }

  /** A call that names a repository finds a target exactly when some usable pair of its integration has it. */
  lemma {:induction false} NamedTargetResolves(cfg: Config, req: LinkRequest)
    requires req.repoId.Some?
    ensures ChoiceOf(cfg, req).Target? <==>
      exists m :: CanFile(cfg, req.orgId, req.projectId, m) && m.integration.id == req.integrationId && m.repo.id == req.repoId.value
  {
    hide AllMatches, TrackerRepoMatch, Fits;
    var all := AllMatches(cfg.integrations, cfg, req.orgId, req.projectId);
    var own := OfIntegration(all, req.integrationId);
    OfRepoExact(own, req.repoId.value);
    forall m
      ensures m in own <==> CanFile(cfg, req.orgId, req.projectId, m) && m.integration.id == req.integrationId
    {
      OfIntegrationExact(all, req.integrationId, m);
      AllMatchesExact(cfg.integrations, cfg, req.orgId, req.projectId, m);
    }
  }

  lemma MatchIsDerived(integration: Integration, repo: ProjectRepo, ref: ForgeRef)
    requires TrackerRepoMatch(integration, repo) == Some(ref)
    ensures IsDerived(ref) && integration.url.Some?
    ensures HostsMatch(ExtractHostname(integration.url.value), ExtractHostname(repo.repoUrl))
    ensures if integration.kind == GitLabKind then ref.gitlabPath.Some? else ref.owner.Some? && ref.repo.Some?
  {
    hide HostsMatch, ExtractHostname, RepoPath, Segments, GitlabPath;
    assert DeriveForgeRef(integration.kind.Forge().value.1, repo.repoUrl) == Derived(ref);
  }

  lemma {:induction false} NothingPostedBefore(w: World, cfg: Config, req: LinkRequest, env: Outside)
    requires File(w, cfg, req, env).0.remote != w.remote
    ensures Gate(cfg, req).None? && ChoiceOf(cfg, req).Target? && FirstAnswer(w.links, req, ChoiceOf(cfg, req)).None?
    ensures File(w, cfg, req, env) == Post(w, req, ChoiceOf(cfg, req).m, env)
  {
    hide Gate, ChoiceOf, FirstAnswer, Post;
  }

  lemma CanFileMatches(cfg: Config, req: LinkRequest, m: TrackerMatch)
    requires CanFile(cfg, req.orgId, req.projectId, m)
    ensures TrackerRepoMatch(m.integration, m.repo) == Some(m.ref)
  {
  }

  // ---- Targets and gates, field by field ---------------------------------------------------

  /** The forge tag a repository carries: the operator's override if there is a non-empty one. */
  predicate Tagged(repo: ProjectRepo, tag: string) {
    if repo.forgeTypeOverride.Some? && repo.forgeTypeOverride.value != "" then repo.forgeTypeOverride.value == tag
    else repo.forgeType == tag
  }

  /** The kind of the integration, the tag of the repository and the forge its URL is read for belong together. */
  predicate KindReads(kind: Kind, repo: ProjectRepo, ref: ForgeRef) {
    || (kind == GitHubKind && Tagged(repo, "github") && DeriveForgeRef(ForgeType.GitHub, repo.repoUrl) == Derived(ref))
    || (kind == GitLabKind && Tagged(repo, "gitlab") && DeriveForgeRef(ForgeType.GitLab, repo.repoUrl) == Derived(ref))
    || (kind == ForgejoKind && Tagged(repo, "gitea") && DeriveForgeRef(ForgeType.Gitea, repo.repoUrl) == Derived(ref))
  }

  predicate OnHostOf(integration: Integration, repo: ProjectRepo) {
    integration.url.Some? &&
    (var a, b := ExtractHostname(integration.url.value), ExtractHostname(repo.repoUrl);
     IsOrApiOf(a, b) || IsOrApiOf(b, a))
  }

  /**
   The call may file into this pair: the named integration of its organisation, not excluded by
   the project, and a repository of the project on the integration's host and of its forge.
   */
  predicate FilesInto(cfg: Config, req: LinkRequest, m: TrackerMatch) {
    && m.integration in cfg.integrations && m.integration.id == req.integrationId && m.integration.orgId == req.orgId
    && m.integration.id !in cfg.excluded
    && m.repo in cfg.repos && m.repo.projectId == req.projectId
    && KindReads(m.integration.kind, m.repo, m.ref) && OnHostOf(m.integration, m.repo)
  }

  lemma MatchesFieldByField(integration: Integration, repo: ProjectRepo, ref: ForgeRef)
    ensures TrackerRepoMatch(integration, repo) == Some(ref) <==>
      KindReads(integration.kind, repo, ref) && OnHostOf(integration, repo)
  {
    hide DeriveForgeRef, ExtractHostname, HostsMatch, IsOrApiOf;
    if integration.url.Some? {
      HostsMatchExactly(ExtractHostname(integration.url.value), ExtractHostname(repo.repoUrl));
    }
  }

  lemma FilesIntoExactly(cfg: Config, req: LinkRequest, m: TrackerMatch)
    ensures FilesInto(cfg, req, m) <==>
      CanFile(cfg, req.orgId, req.projectId, m) && m.integration.id == req.integrationId
  {
    hide TrackerRepoMatch, OnHostOf, DeriveForgeRef;
    MatchesFieldByField(m.integration, m.repo, m.ref);
  }

  /** The integration of that id and organisation: the first one, should there be several. */
  ghost predicate Names(integrations: seq<Integration>, id: int, orgId: int, i: Integration) {
    exists k :: 0 <= k < |integrations| && integrations[k] == i && i.id == id && i.orgId == orgId
                && forall j :: 0 <= j < k ==> integrations[j].id != id || integrations[j].orgId != orgId
  }

  lemma NamesCons(integrations: seq<Integration>, id: int, orgId: int, i: Integration)
    requires integrations != [] && !(integrations[0].id == id && integrations[0].orgId == orgId)
    requires Names(integrations[1..], id, orgId, i)
    ensures Names(integrations, id, orgId, i)
  {
    var rest := integrations[1..];
    var k :| 0 <= k < |rest| && rest[k] == i && i.id == id && i.orgId == orgId
             && forall j :: 0 <= j < k ==> rest[j].id != id || rest[j].orgId != orgId;
    assert integrations[k + 1] == i;
    forall j | 0 <= j < k + 1
      ensures integrations[j].id != id || integrations[j].orgId != orgId
    {
      if j > 0 {
        assert integrations[j] == rest[j - 1];
      }
    }
  }

  lemma {:induction false} FindsNamed(integrations: seq<Integration>, id: int, orgId: int)
    ensures var found := FindIntegration(integrations, id, orgId);
            if found.Some? then Names(integrations, id, orgId, found.value)
            else forall i :: i in integrations ==> i.id != id || i.orgId != orgId
  {
    if integrations != [] && !(integrations[0].id == id && integrations[0].orgId == orgId) {
      FindsNamed(integrations[1..], id, orgId);
      if FindIntegration(integrations[1..], id, orgId).Some? {
        NamesCons(integrations, id, orgId, FindIntegration(integrations[1..], id, orgId).value);
      }
    } else if integrations != [] {
      assert integrations[0] in integrations;
    }
  }

  lemma NamesOne(integrations: seq<Integration>, id: int, orgId: int, a: Integration, b: Integration)
    requires Names(integrations, id, orgId, a) && Names(integrations, id, orgId, b)
    ensures a == b && a in integrations
  {
  }

  /** A stored secret that is in the clear, or that the server's key decrypts. */
  predicate HasCredential(i: Integration, decrypt: Option<string -> Option<string>>) {
    i.secret.Some? && (i.encrypted ==> decrypt.Some? && decrypt.value(i.secret.value).Some?)
  }

  predicate IssueExists(cfg: Config, req: LinkRequest) { (req.projectId, req.fingerprint) in cfg.issues }

  predicate TracksIssues(kind: Kind) { kind == GitHubKind || kind == GitLabKind || kind == ForgejoKind }

  /** Everything a call needs before a target is looked for. */
  ghost predicate GatesPass(cfg: Config, req: LinkRequest, i: Integration) {
    && Names(cfg.integrations, req.integrationId, req.orgId, i) && TracksIssues(i.kind)
    && cfg.licensed && IssueExists(cfg, req) && HasCredential(i, cfg.decrypt) && i.url.Some?
  }

  /** What a call for a tracker integration lacks first. */
  predicate FirstMissing(cfg: Config, req: LinkRequest, i: Integration, e: LinkError) {
    TracksIssues(i.kind) &&
    match e
    case LicenseRequired => !cfg.licensed
    case IssueNotFound => cfg.licensed && !IssueExists(cfg, req)
    case NoCredential => cfg.licensed && IssueExists(cfg, req) && !HasCredential(i, cfg.decrypt)
    case NoBaseUrl => cfg.licensed && IssueExists(cfg, req) && HasCredential(i, cfg.decrypt) && i.url.None?
    case _ => false
  }

  /** The gates let a call pass exactly when it has all of that, and otherwise name the first thing missing. */
  lemma {:induction false} GatesExactly(cfg: Config, req: LinkRequest)
    ensures match Gate(cfg, req)
            case None => exists i :: GatesPass(cfg, req, i)
            case Some(IntegrationNotFound) =>
              forall i :: Names(cfg.integrations, req.integrationId, req.orgId, i) ==> !TracksIssues(i.kind)
            case Some(e) =>
              exists i :: Names(cfg.integrations, req.integrationId, req.orgId, i) && FirstMissing(cfg, req, i, e)
  {
    hide Names;
    FindsNamed(cfg.integrations, req.integrationId, req.orgId);
    match FindIntegration(cfg.integrations, req.integrationId, req.orgId)
    case None => NobodyNamed(cfg.integrations, req.integrationId, req.orgId);
    case Some(i) =>
      forall j | Names(cfg.integrations, req.integrationId, req.orgId, j)
        ensures j == i
      {
        NamesOne(cfg.integrations, req.integrationId, req.orgId, i, j);
      }
      match Gate(cfg, req)
      case None => assert GatesPass(cfg, req, i);
      case Some(e) => assert e != IntegrationNotFound ==> FirstMissing(cfg, req, i, e);
  }

  lemma NobodyNamed(integrations: seq<Integration>, id: int, orgId: int)
    requires forall i :: i in integrations ==> i.id != id || i.orgId != orgId
    ensures forall i :: !Names(integrations, id, orgId, i)
  {
  }

  lemma {:induction false} OwnMatches(cfg: Config, req: LinkRequest, m: TrackerMatch)
    ensures m in OfIntegration(AllMatches(cfg.integrations, cfg, req.orgId, req.projectId), req.integrationId)
            <==> FilesInto(cfg, req, m)
  {
    hide AllMatches, OfIntegration, Fits, FilesInto;
    OfIntegrationExact(AllMatches(cfg.integrations, cfg, req.orgId, req.projectId), req.integrationId, m);
    AllMatchesExact(cfg.integrations, cfg, req.orgId, req.projectId, m);
    FilesIntoExactly(cfg, req, m);
  }

  /** Primary keys are unique in both tables. */
  ghost predicate KeysUnique(cfg: Config) {
    && (forall i, j :: 0 <= i < j < |cfg.integrations| ==> cfg.integrations[i] != cfg.integrations[j])
    && (forall i, j :: 0 <= i < j < |cfg.repos| ==> cfg.repos[i] != cfg.repos[j])
  }

  ghost predicate NoRepeats(matches: seq<TrackerMatch>) {
    forall i, j :: 0 <= i < j < |matches| ==> matches[i] != matches[j]
  }

  lemma ConcatNoRepeats(a: seq<TrackerMatch>, b: seq<TrackerMatch>)
    requires NoRepeats(a) && NoRepeats(b) && forall m :: m in a ==> m !in b
    ensures NoRepeats(a + b)
  {
    forall i, j | 0 <= i < j < |a + b|
      ensures (a + b)[i] != (a + b)[j]
    {
      if i < |a| && |a| <= j {
        assert a[i] in a && b[j - |a|] in b;
      }
    }
  }

  lemma {:induction false} MatchesOfDistinct(integration: Integration, repos: seq<ProjectRepo>, projectId: int)
    requires forall i, j :: 0 <= i < j < |repos| ==> repos[i] != repos[j]
    ensures NoRepeats(MatchesOf(integration, repos, projectId))
  {
    if repos != [] {
      hide TrackerRepoMatch;
      var n := |repos| - 1;
      MatchesOfDistinct(integration, repos[..n], projectId);
      forall m | m in MatchesOf(integration, repos[..n], projectId)
        ensures m.repo != repos[n]
      {
        MatchesOfExact(integration, repos[..n], projectId, m);
      }
    }
  }

  lemma {:induction false} AllMatchesDistinct(integrations: seq<Integration>, cfg: Config, orgId: int, projectId: int)
    requires KeysUnique(cfg) && forall i, j :: 0 <= i < j < |integrations| ==> integrations[i] != integrations[j]
    ensures NoRepeats(AllMatches(integrations, cfg, orgId, projectId))
  {
    if integrations != [] {
      hide TrackerRepoMatch, MatchesOf, NoRepeats;
      var n := |integrations| - 1;
      var last := integrations[n];
      AllMatchesDistinct(integrations[..n], cfg, orgId, projectId);
      MatchesOfDistinct(last, cfg.repos, projectId);
      var before, own := AllMatches(integrations[..n], cfg, orgId, projectId), MatchesOf(last, cfg.repos, projectId);
      forall m | m in before
        ensures m !in own
      {
        AllMatchesExact(integrations[..n], cfg, orgId, projectId, m);
        MatchesOfExact(last, cfg.repos, projectId, m);
      }
      ConcatNoRepeats(before, own);
      assert before + [] == before;
    }
  }

  lemma {:induction false} OfIntegrationDistinct(matches: seq<TrackerMatch>, id: int)
    requires NoRepeats(matches)
    ensures NoRepeats(OfIntegration(matches, id))
  {
    if matches != [] {
      OfIntegrationDistinct(matches[1..], id);
      OfIntegrationExact(matches[1..], id, matches[0]);
      assert matches[0] !in matches[1..];
      ConcatNoRepeats(if matches[0].integration.id == id then [matches[0]] else [], OfIntegration(matches[1..], id));
    }
  }

  /** A list without repeats has one element exactly when all its members are the same. */
  lemma OnlyMember(own: seq<TrackerMatch>)
    requires NoRepeats(own)
    ensures |own| == 1 <==> exists m :: m in own && forall m' :: m' in own ==> m' == m
  {
    if |own| == 1 {
      assert own[0] in own;
    } else if |own| > 1 {
      assert own[0] in own && own[1] in own && own[0] != own[1];
    }
  }

  /** What is chosen from a list of usable pairs, by membership. */
  lemma ChooseExactly(own: seq<TrackerMatch>, repoId: Option<int>)
    requires NoRepeats(own)
    ensures match Choose(own, repoId)
            case Target(m) =>
              && m in own
              && (repoId.Some? ==> m.repo.id == repoId.value)
              && (repoId.None? ==> forall m' :: m' in own ==> m' == m)
            case NoTarget(e) =>
              match e
              case NoMatchingRepository => forall m :: m !in own
              case RepositoryNotUsable =>
                repoId.Some? && (exists m :: m in own) && forall m :: m in own ==> m.repo.id != repoId.value
              case Ambiguous => repoId.None? && exists m, m' :: m in own && m' in own && m != m'
              case _ => false
  {
    hide NoRepeats;
    OnlyMember(own);
    if repoId.Some? {
      OfRepoExact(own, repoId.value);
    }
    if own != [] {
      assert own[0] in own;
    }
    if |own| > 1 {
      TwoMembers(own);
    }
  }

  /**
   A call that names no repository finds a target exactly when one pair and no other fits; with
   none it has no matching repository, with several it is refused as ambiguous, and with a name
   that none of them bears the repository is not usable.
   */
  lemma {:induction false} ChoiceExactly(cfg: Config, req: LinkRequest)
    requires KeysUnique(cfg)
    ensures match ChoiceOf(cfg, req)
            case Target(m) =>
              && FilesInto(cfg, req, m)
              && (req.repoId.Some? ==> m.repo.id == req.repoId.value)
              && (req.repoId.None? ==> forall m' :: FilesInto(cfg, req, m') ==> m' == m)
            case NoTarget(e) =>
              match e
              case NoMatchingRepository => forall m :: !FilesInto(cfg, req, m)
              case RepositoryNotUsable =>
                && req.repoId.Some? && (exists m :: FilesInto(cfg, req, m))
                && forall m :: FilesInto(cfg, req, m) ==> m.repo.id != req.repoId.value
              case Ambiguous =>
                req.repoId.None? && exists m, m' :: FilesInto(cfg, req, m) && FilesInto(cfg, req, m') && m != m'
              case _ => false
  {
    hide AllMatches, FilesInto, NoRepeats, OfIntegration, Choose;
    var all := AllMatches(cfg.integrations, cfg, req.orgId, req.projectId);
    var own := OfIntegration(all, req.integrationId);
    AllMatchesDistinct(cfg.integrations, cfg, req.orgId, req.projectId);
    OfIntegrationDistinct(all, req.integrationId);
    ChooseExactly(own, req.repoId);
    forall m
      ensures m in own <==> FilesInto(cfg, req, m)
    {
      OwnMatches(cfg, req, m);
    }
  }

  lemma TwoMembers(own: seq<TrackerMatch>)
    requires NoRepeats(own) && |own| > 1
    ensures own[0] in own && own[1] in own && own[0] != own[1]
  {
  }

  /**
   The forge is posted to only for a resolved target, past every gate, of the organisation's own
   tracker that is not excluded, into a repository of this project on the integration's host;
   a call whose target does not resolve opens nothing.
   */
  lemma {:induction false} OnlyResolvedTargetsArePosted(w: World, cfg: Config, req: LinkRequest, env: Outside)
    requires File(w, cfg, req, env).0.remote != w.remote
    ensures Gate(cfg, req).None? && ChoiceOf(cfg, req).Target?
    ensures var m := ChoiceOf(cfg, req).m;
            && File(w, cfg, req, env).0.remote
               == w.remote + [RemoteIssue(req.projectId, req.fingerprint, req.integrationId, RepoKey(m.ref))]
            && CanFile(cfg, req.orgId, req.projectId, m) && m.integration.id == req.integrationId
            && FilesInto(cfg, req, m) && exists i :: GatesPass(cfg, req, i)
  {
    hide FirstAnswer, Conflicts, ChoiceOf, Gate, CanFile, FilesInto, GatesPass, Names, RepoKey, QualifiedExternalId, IsDerived;
    NothingPostedBefore(w, cfg, req, env);
    TargetCanFile(cfg, req);
    FilesIntoExactly(cfg, req, ChoiceOf(cfg, req).m);
    GatesExactly(cfg, req);
  }

  // ---- Whole runs --------------------------------------------------------------------------

  datatype Call = Call(cfg: Config, req: LinkRequest, env: Outside)

  /** Serial calls, each with its own configuration. */
  function Run(w: World, calls: seq<Call>): World {
    if calls == [] then w
    else
      var n := |calls| - 1;
      File(Run(w, calls[..n]), calls[n].cfg, calls[n].req, calls[n].env).0
  }

  /** Issue numbers hold no `#`. */
  ghost predicate PlainNumbers(calls: seq<Call>) {
    forall i :: 0 <= i < |calls| && calls[i].env.reply.Opened? ==> '#' !in calls[i].env.reply.raw
  }

  /** The call gets as far as the forge, and the forge opens an issue. */
  predicate Posts(w: World, c: Call) {
    && Gate(c.cfg, c.req).None? && ChoiceOf(c.cfg, c.req).Target?
    && FirstAnswer(w.links, c.req, ChoiceOf(c.cfg, c.req)).None?
    && !c.env.blocked && !c.env.reply.Refused?
  }

  /** The link of an issue opened for target `m`. */
  function LinkOf(c: Call, m: TrackerMatch): ExternalLink
    requires c.env.reply.Opened?
  {
    ExternalLink(c.req.projectId, c.req.fingerprint, Some(c.req.integrationId),
                 QualifiedExternalId(m.ref, c.env.reply.raw), c.env.reply.url)
  }

  /** The forge's answer could be read, the insert went through, and no row was in its way. */
  predicate Stores(w: World, c: Call) {
    && c.env.reply.Opened? && !c.env.insertFails && ChoiceOf(c.cfg, c.req).Target?
    && !Conflicts(w.links, LinkOf(c, ChoiceOf(c.cfg, c.req).m))
  }

  /** What a call changes: a remote issue if it posts, and a link too if that is stored. */
  lemma {:induction false} ChangesExactly(w: World, c: Call)
    ensures var w' := File(w, c.cfg, c.req, c.env).0;
            && (w'.remote != w.remote <==> Posts(w, c))
            && (w'.links != w.links <==> Posts(w, c) && Stores(w, c))
  {
    hide Gate, ChoiceOf, FirstAnswer, Conflicts, QualifiedExternalId, RepoKey;
    var w' := File(w, c.cfg, c.req, c.env).0;
    if Posts(w, c) {
      assert |w'.remote| == |w.remote| + 1;
      if Stores(w, c) {
        assert |w'.links| == |w.links| + 1;
      }
    }
  }

  /**
   A call posts exactly when it passes the gates, has a target, no link of the issue and its
   integration names the target's repository or none, and neither the address check nor the
   forge refuses.
   */
  lemma {:induction false} PostsExactly(w: World, c: Call)
    ensures Posts(w, c) <==>
      && (exists i :: GatesPass(c.cfg, c.req, i)) && ChoiceOf(c.cfg, c.req).Target?
      && (forall k :: 0 <= k < |w.links| ==> !BlocksIssue(w.links[k], IssueOf(c.req, ChoiceOf(c.cfg, c.req).m)))
      && !c.env.blocked && !c.env.reply.Refused?
  {
    hide ChoiceOf, Gate, LinkRepoKey, RepoKey, IsDerived, CanFile, Names, FirstAnswer;
    GatesExactly(c.cfg, c.req);
    GatesAreOne(c.cfg, c.req);
    if ChoiceOf(c.cfg, c.req).Target? {
      TargetCanFile(c.cfg, c.req);
      var m := ChoiceOf(c.cfg, c.req).m;
      KeysIdentifyRepositories(m.ref, m.ref);
      forall k | 0 <= k < |w.links|
        ensures Answers(w.links[k], c.req, ChoiceOf(c.cfg, c.req)) <==> BlocksIssue(w.links[k], IssueOf(c.req, m))
      {
      }
    }
  }

  lemma GatesAreOne(cfg: Config, req: LinkRequest)
    ensures forall i, e :: GatesPass(cfg, req, i) ==> Gate(cfg, req) != Some(e)
  {
    hide Names, Gate;
    GatesExactly(cfg, req);
    forall i, j | Names(cfg.integrations, req.integrationId, req.orgId, i) && Names(cfg.integrations, req.integrationId, req.orgId, j)
      ensures i == j
    {
      NamesOne(cfg.integrations, req.integrationId, req.orgId, i, j);
    }
  }

  /** The remote issue a call for target `m` opens. */
  function IssueOf(req: LinkRequest, m: TrackerMatch): RemoteIssue {
    RemoteIssue(req.projectId, req.fingerprint, req.integrationId, RepoKey(m.ref))
  }

  /** A row in the way of a new link is another project's, with the same fingerprint and external id. */
  lemma {:induction false} ConflictsAreForeign(w: World, c: Call, i: nat)
    requires Posts(w, c) && c.env.reply.Opened? && '#' !in c.env.reply.raw && i < |w.links|
    requires var l := LinkOf(c, ChoiceOf(c.cfg, c.req).m);
             && w.links[i].fingerprint == l.fingerprint && w.links[i].integrationId == l.integrationId
             && w.links[i].externalId == l.externalId
    ensures w.links[i].projectId != c.req.projectId
  {
    hide Gate, ChoiceOf, LinkRepoKey, QualifiedExternalId, RepoKey, IsDerived, CanFile;
    TargetCanFile(c.cfg, c.req);
    var m := ChoiceOf(c.cfg, c.req).m;
    StoredKeyIsRecovered(m.ref, c.env.reply.raw, w.links[i]);
    KeysIdentifyRepositories(m.ref, m.ref);
    assert !Answers(w.links[i], c.req, ChoiceOf(c.cfg, c.req));
  }

  /** Whenever a call opens an issue, its link is stored. */
  ghost predicate LinksStored(w: World, calls: seq<Call>) {
    calls == [] ||
    (var n := |calls| - 1;
     var before := Run(w, calls[..n]);
     LinksStored(w, calls[..n]) && (Posts(before, calls[n]) ==> Stores(before, calls[n])))
  }

  /** A stored link for the repository of `r`. */
  predicate LinkFor(l: ExternalLink, r: RemoteIssue) {
    && l.projectId == r.projectId && l.fingerprint == r.fingerprint
    && l.integrationId == Some(r.integrationId) && LinkRepoKey(l) == r.key
  }

  ghost predicate HasLink(links: seq<ExternalLink>, r: RemoteIssue) {
    exists i :: 0 <= i < |links| && LinkFor(links[i], r)
  }

  /** Every issue opened has a link that names its repository. */
  ghost predicate AllLinked(w: World) {
    forall k :: 0 <= k < |w.remote| ==> HasLink(w.links, w.remote[k])
  }

  lemma HasLinkExtends(links: seq<ExternalLink>, l: ExternalLink, r: RemoteIssue)
    requires HasLink(links, r) || LinkFor(l, r)
    ensures HasLink(links + [l], r)
  {
    if HasLink(links, r) {
      var i :| 0 <= i < |links| && LinkFor(links[i], r);
      assert (links + [l])[i] == links[i];
    } else {
      assert (links + [l])[|links|] == l;
    }
  }

  /** A link that keeps `r` from being opened: same issue and integration, same or unknown repository. */
  predicate BlocksIssue(l: ExternalLink, r: RemoteIssue) {
    && l.projectId == r.projectId && l.fingerprint == r.fingerprint && l.integrationId == Some(r.integrationId)
    && (LinkRepoKey(l).None? || LinkRepoKey(l) == r.key)
  }

  /** One issue opened, its link stored, and nothing stood in the way. */
  ghost predicate AddsOne(w: World, w': World, r: RemoteIssue, l: ExternalLink) {
    && w' == World(w.links + [l], w.remote + [r]) && LinkFor(l, r)
    && forall i :: 0 <= i < |w.links| ==> !BlocksIssue(w.links[i], r)
  }

  /** What one call does to the two tables when its link is stored. */
  lemma {:induction false} OneCall(w: World, c: Call)
    requires c.env.reply.Opened? ==> '#' !in c.env.reply.raw
    requires Posts(w, c) ==> Stores(w, c)
    ensures var w' := File(w, c.cfg, c.req, c.env).0;
            w' == w || exists r, l :: AddsOne(w, w', r, l)
  {
    hide File, Posts, Stores, AddsOne;
    ChangesExactly(w, c);
    if Posts(w, c) {
      PostAddsOne(w, c);
    }
  }

  lemma {:induction false} PostAddsOne(w: World, c: Call)
    requires c.env.reply.Opened? ==> '#' !in c.env.reply.raw
    requires Posts(w, c) && Stores(w, c)
    ensures exists r, l :: AddsOne(w, File(w, c.cfg, c.req, c.env).0, r, l)
  {
    hide AllMatches, Conflicts, LinkRepoKey, QualifiedExternalId, RepoKey, FindIntegration, Choose;
    TargetCanFile(c.cfg, c.req);
    var m := ChoiceOf(c.cfg, c.req).m;
    var r := RemoteIssue(c.req.projectId, c.req.fingerprint, c.req.integrationId, RepoKey(m.ref));
    var l := LinkOf(c, m);
    StoredKeyIsRecovered(m.ref, c.env.reply.raw, l);
    KeysIdentifyRepositories(m.ref, m.ref);
    assert LinkFor(l, r);
    forall i | 0 <= i < |w.links|
      ensures !BlocksIssue(w.links[i], r)
    {
      assert !Answers(w.links[i], c.req, ChoiceOf(c.cfg, c.req));
    }
    assert AddsOne(w, File(w, c.cfg, c.req, c.env).0, r, l);
  }

  ghost predicate NoDuplicates(remote: seq<RemoteIssue>) {
    forall i, j :: 0 <= i < j < |remote| ==> remote[i] != remote[j]
  }

  lemma {:induction false} RunKeepsOnePerRepository(links: seq<ExternalLink>, calls: seq<Call>)
    requires PlainNumbers(calls) && LinksStored(World(links, []), calls)
    ensures var w := Run(World(links, []), calls);
            && links <= w.links && AllLinked(w) && NoDuplicates(w.remote)
            && forall k, i :: 0 <= k < |w.remote| && 0 <= i < |links| ==> !BlocksIssue(links[i], w.remote[k])
  {
    if calls != [] {
      hide File, LinkRepoKey;
      var n := |calls| - 1;
      RunKeepsOnePerRepository(links, calls[..n]);
      var before, after := Run(World(links, []), calls[..n]), Run(World(links, []), calls);
      OneCall(before, calls[n]);
      if after != before {
        var r, l :| AddsOne(before, after, r, l);
        StepKeepsOne(links, before, r, l);
      }
    }
  }

  lemma StepKeepsOne(links: seq<ExternalLink>, w: World, r: RemoteIssue, l: ExternalLink)
    requires links <= w.links && AllLinked(w) && NoDuplicates(w.remote) && LinkFor(l, r)
    requires forall k, i :: 0 <= k < |w.remote| && 0 <= i < |links| ==> !BlocksIssue(links[i], w.remote[k])
    requires forall i :: 0 <= i < |w.links| ==> !BlocksIssue(w.links[i], r)
    ensures var w' := World(w.links + [l], w.remote + [r]);
            && links <= w'.links && AllLinked(w') && NoDuplicates(w'.remote)
            && forall k, i :: 0 <= k < |w'.remote| && 0 <= i < |links| ==> !BlocksIssue(links[i], w'.remote[k])
  {
    hide LinkRepoKey;
    var w' := World(w.links + [l], w.remote + [r]);
    forall k | 0 <= k < |w'.remote|
      ensures HasLink(w'.links, w'.remote[k])
    {
      HasLinkExtends(w.links, l, w'.remote[k]);
    }
    forall k | 0 <= k < |w.remote|
      ensures w.remote[k] != r
    {
      var i :| 0 <= i < |w.links| && LinkFor(w.links[i], w.remote[k]);
      assert !BlocksIssue(w.links[i], r);
    }
    forall i | 0 <= i < |links|
      ensures !BlocksIssue(links[i], r)
    {
      assert links[i] == w.links[i];
    }
  }

  /**
   Over every run of serial calls, whatever the repositories, integrations and settings are at
   each call: if every opened issue's link was stored and no link is removed, at most one
   remote issue is opened per project, fingerprint, integration and repository key. A link
   that was there before counts as one, and a link whose repository cannot be read blocks
   them all.
   */
  lemma {:induction false} AtMostOneIssuePerRepository(links: seq<ExternalLink>, calls: seq<Call>)
    requires PlainNumbers(calls) && LinksStored(World(links, []), calls)
    ensures var remote := Run(World(links, []), calls).remote;
            && NoDuplicates(remote)
            && forall k, i :: 0 <= k < |remote| && 0 <= i < |links| ==> !BlocksIssue(links[i], remote[k])
  {
    RunKeepsOnePerRepository(links, calls);
  }

  /** The same, played out on a store. */
  method FileSerially(store: TrackerStore, calls: seq<Call>)
    requires store.remote == [] && PlainNumbers(calls) && LinksStored(store.Value(), calls)
    modifies store
    ensures store.Value() == Run(old(store.Value()), calls)
    ensures NoDuplicates(store.remote)
    ensures forall k, i :: 0 <= k < |store.remote| && 0 <= i < |old(store.links)| ==>
      !BlocksIssue(old(store.links)[i], store.remote[k])
  {
    hide File, BlocksIssue, LinksStored;
    ghost var start := store.Value();
    for n := 0 to |calls|
      invariant store.Value() == Run(start, calls[..n])
    {
      assert calls[..n + 1][..n] == calls[..n];
      var _ := store.LinkIssue(calls[n].cfg, calls[n].req, calls[n].env);
    }
    assert calls[..|calls|] == calls;
    AtMostOneIssuePerRepository(start.links, calls);
  }

  // ---- Refiling ----------------------------------------------------------------------------

  lemma {:induction false} FirstAnswerAppended(links: seq<ExternalLink>, l: ExternalLink, req: LinkRequest, choice: Choice)
    requires FirstAnswer(links, req, choice).None?
    ensures FirstAnswer(links + [l], req, choice) == if Answers(l, req, choice) then Some(l) else None
  {
    if links == [] {
      assert links + [l] == [l];
    } else {
      assert (links + [l])[1..] == links[1..] + [l];
      FirstAnswerAppended(links[1..], l, req, choice);
    }
  }

  /** Two targets of one repository key are answered by the same stored link. */
  lemma {:induction false} SameKeySameAnswer(links: seq<ExternalLink>, a: LinkRequest, b: LinkRequest, m: TrackerMatch, n: TrackerMatch)
    requires b == a.(repoId := b.repoId) && RepoKey(m.ref) == RepoKey(n.ref)
    ensures FirstAnswer(links, a, Target(m)) == FirstAnswer(links, b, Target(n))
  {
    hide LinkRepoKey, RepoKey;
    if links != [] {
      SameKeySameAnswer(links[1..], a, b, m, n);
    }
  }

  /** The call opened an issue and its link was stored. */
  ghost predicate FiledAndStored(w: World, c: Call) {
    Posts(w, c) && Stores(w, c) && '#' !in c.env.reply.raw
  }

  lemma QualifiedByKey(ref: ForgeRef, raw: string)
    requires RepoKey(ref).Some?
    ensures QualifiedExternalId(ref, raw) == RepoKey(ref).value + "#" + raw
  {
  }

  /** The link such a call stored: the issue, the integration, the target's key and the forge's number, the forge's URL. */
  lemma {:induction false} FiledLink(w: World, c: Call) returns (l: ExternalLink)
    requires FiledAndStored(w, c)
    ensures Gate(c.cfg, c.req).None? && ChoiceOf(c.cfg, c.req).Target?
    ensures FirstAnswer(w.links, c.req, ChoiceOf(c.cfg, c.req)).None?
    ensures File(w, c.cfg, c.req, c.env).0.links == w.links + [l]
    ensures File(w, c.cfg, c.req, c.env).1 == Linked(l.externalId, l.externalUrl, true)
    ensures l.projectId == c.req.projectId && l.fingerprint == c.req.fingerprint && l.integrationId == Some(c.req.integrationId)
    ensures RepoKey(ChoiceOf(c.cfg, c.req).m.ref).Some?
    ensures l.externalId == RepoKey(ChoiceOf(c.cfg, c.req).m.ref).value + "#" + c.env.reply.raw && l.externalUrl == c.env.reply.url
    ensures LinkRepoKey(l) == RepoKey(ChoiceOf(c.cfg, c.req).m.ref) && LinkRepoKey(l).Some?
  {
    hide Gate, ChoiceOf, Conflicts, LinkRepoKey, QualifiedExternalId, RepoKey, IsDerived, CanFile, FirstAnswer;
    TargetCanFile(c.cfg, c.req);
    var m := ChoiceOf(c.cfg, c.req).m;
    l := LinkOf(c, m);
    StoredKeyIsRecovered(m.ref, c.env.reply.raw, l);
    KeysIdentifyRepositories(m.ref, m.ref);
    QualifiedByKey(m.ref, c.env.reply.raw);
  }

  /**
   Filing an issue again, under any later configuration and with or without naming the
   repository, opens nothing: a target of the same repository key is answered by the link
   stored first, and a target that no longer resolves by some stored link of the issue.
   */
  lemma {:induction false} RefilingIsIdempotent(w: World, c: Call, again: Call)
    requires FiledAndStored(w, c)
    requires again.req == c.req.(repoId := again.req.repoId) && Gate(again.cfg, again.req).None?
    ensures var (w', r) := File(w, c.cfg, c.req, c.env);
            var (w'', r') := File(w', again.cfg, again.req, again.env);
            match ChoiceOf(again.cfg, again.req)
            case NoTarget(_) => w'' == w' && r'.Linked? && !r'.created
            case Target(m) => RepoKey(m.ref) == RepoKey(ChoiceOf(c.cfg, c.req).m.ref) ==>
                                w'' == w' && r' == Linked(r.externalId, r.externalUrl, false)
  {
    var l := FiledLink(w, c);
    hide Gate, ChoiceOf, LinkRepoKey, RepoKey, FirstAnswer, Post;
    var choice, later := ChoiceOf(c.cfg, c.req), ChoiceOf(again.cfg, again.req);
    var w' := File(w, c.cfg, c.req, c.env).0;
    match later
    case NoTarget(_) =>
      assert Answers(w'.links[|w.links|], again.req, later);
    case Target(m) =>
      if RepoKey(m.ref) == RepoKey(choice.m.ref) {
        SameKeySameAnswer(w.links, c.req, again.req, choice.m, m);
        FirstAnswerAppended(w.links, l, again.req, later);
      }
  }

  /**
   Respelling the repository's URL between two calls, from https to ssh or `git@host:`, with
   another user or port, with or without `.git` and trailing slashes, opens no second issue.
   */
  lemma {:induction false} RespellingOpensNothing(w: World, c: Call, again: Call, host: string, path: string,
                                                  sp: Spelling, sp': Spelling, dotGit: bool, dotGit': bool, slashes: nat, slashes': nat)
    requires FiledAndStored(w, c)
    requires again.req == c.req.(repoId := again.req.repoId) && Gate(again.cfg, again.req).None?
    requires WellFormed(sp, host, path) && WellFormed(sp', host, path)
    requires ChoiceOf(c.cfg, c.req).Target? && ChoiceOf(again.cfg, again.req).Target?
    requires var m, m' := ChoiceOf(c.cfg, c.req).m, ChoiceOf(again.cfg, again.req).m;
             && m'.integration.kind == m.integration.kind
             && m.repo.repoUrl == Render(sp, host, path, dotGit, slashes)
             && m'.repo.repoUrl == Render(sp', host, path, dotGit', slashes')
    ensures var (w', r) := File(w, c.cfg, c.req, c.env);
            File(w', again.cfg, again.req, again.env) == (w', Linked(r.externalId, r.externalUrl, false))
  {
    hide ChoiceOf, Gate, File, Render, WellFormed, CanFile, FiledAndStored, RepoKey, FromCoordinates;
    var m, m' := ChoiceOf(c.cfg, c.req).m, ChoiceOf(again.cfg, again.req).m;
    SpelledRef(c.cfg, c.req, sp, host, path, dotGit, slashes);
    SpelledRef(again.cfg, again.req, sp', host, path, dotGit', slashes');
    RefilingIsIdempotent(w, c, again);
  }

  lemma {:induction false} SpelledRef(cfg: Config, req: LinkRequest, sp: Spelling, host: string, path: string, dotGit: bool, slashes: nat)
    requires ChoiceOf(cfg, req).Target? && WellFormed(sp, host, path)
    requires ChoiceOf(cfg, req).m.repo.repoUrl == Render(sp, host, path, dotGit, slashes)
    ensures var m := ChoiceOf(cfg, req).m;
            && m.integration.kind.Forge().Some?
            && FromCoordinates(m.integration.kind.Forge().value.1, host, path) == Derived(m.ref)
  {
    hide ChoiceOf, Render, WellFormed, CanFile, HostsMatch, ExtractHostname, FromCoordinates, DeriveForgeRef;
    TargetCanFile(cfg, req);
    var m := ChoiceOf(cfg, req).m;
    CanFileMatches(cfg, req, m);
    SpellingsAgree(m.integration.kind.Forge().value.1, sp, host, path, dotGit, slashes);
  }

  /** A call whose link was lost opens a second issue when repeated. */
  lemma {:induction false} LostLinkOpensAnother(w: World, c: Call)
    requires Posts(w, c) && !Stores(w, c)
    ensures var w' := File(w, c.cfg, c.req, c.env).0;
            var w'' := File(w', c.cfg, c.req, c.env).0;
            |w''.remote| == |w.remote| + 2 && !NoDuplicates(w''.remote)
  {
    hide Gate, ChoiceOf, Conflicts, LinkRepoKey, QualifiedExternalId, RepoKey, FirstAnswer;
    var w' := File(w, c.cfg, c.req, c.env).0;
    var w'' := File(w', c.cfg, c.req, c.env).0;
    ChangesExactly(w, c);
    assert w''.remote[|w.remote|] == w''.remote[|w.remote| + 1];
  }

  /**
   The exact condition: after a call that opened an issue, repeating it opens nothing whatever
   the forge would do, if and only if the forge's answer was read and its link inserted.
   */
  lemma {:induction false} RepeatsAreSafeExactlyWhen(w: World, c: Call)
    requires Posts(w, c) && (c.env.reply.Opened? ==> '#' !in c.env.reply.raw)
    ensures var w' := File(w, c.cfg, c.req, c.env).0;
            (forall env :: File(w', c.cfg, c.req, env).0.remote == w'.remote) <==> Stores(w, c)
  {
    hide File, Stores, ChoiceOf, RepoKey;
    var w' := File(w, c.cfg, c.req, c.env).0;
    if Stores(w, c) {
      forall env
        ensures File(w', c.cfg, c.req, env).0.remote == w'.remote
      {
        OpenedIsStored(w, c);
        RefilingIsIdempotent(w, c, c.(env := env));
      }
    } else {
      LostLinkOpensAnother(w, c);
      ChangesOne(w, c);
    }
  }

  lemma OpenedIsStored(w: World, c: Call)
    requires Posts(w, c) && Stores(w, c) && (c.env.reply.Opened? ==> '#' !in c.env.reply.raw)
    ensures FiledAndStored(w, c)
  {
  }

  lemma {:induction false} ChangesOne(w: World, c: Call)
    requires Posts(w, c)
    ensures |File(w, c.cfg, c.req, c.env).0.remote| == |w.remote| + 1
  {
    hide Gate, ChoiceOf, FirstAnswer, Conflicts, QualifiedExternalId, RepoKey;
  }
}
