/**
 Listing the tags of an OCI repository: `fetchTags` and `negotiateBearerToken`
 in `internal/resolver/oci_resolver.go`, over a registry given by its answers.
 */
module OciTags {
  import opened Model
  import opened RegistryHeaders

  const MAX_OCI_PAGES: nat := 50
  const MAX_ATTEMPTS: nat := 8

  /** What a request is sent with: nothing, a token, or the credentials configured for a host. */
  datatype Auth = Anonymous | Bearer(token: string) | Basic(host: string)

  datatype Body = Unreadable | Undecodable | Tags(tags: seq<string>)

  datatype Reply =
    | NoReply
    | Unauthorized(challenge: string)
    | NotFound
    | OtherStatus(code: nat)
    | Success(body: Body, link: string)

  datatype TokenReply = NoToken(reason: string) | TokenPayload(token: string, accessToken: string)

  /** The outside world: which URLs a request can be built for, what a registry answers, what a token endpoint
      answers on behalf of a registry host, for which hosts credentials are configured, and URL resolution.
      A registry may answer the same URL differently on different pages of one listing. */
  datatype Registry = Registry(
    buildable: string -> bool,
    answer: (nat, string, Auth) -> Reply,
    tokenAnswer: (string, string) -> TokenReply,
    hasBasic: string -> bool,
    resolve: (string, string) -> string
  )

  /** One HTTP request, for the tags of a page or for a token, and what it is sent with. */
  datatype Call = TagCall(page: nat, url: string, auth: Auth) | TokenCall(url: string, auth: Auth)

  datatype Negotiated = Negotiated(token: Result<string, ResolveError>, calls: seq<Call>)

  function TokenURL(realm: string, service: string, scope: string): string {
    realm + "?scope=" + scope + (if service != "" then "&service=" + service else "")
  }

  /** Where a challenge sends for a token: the realm has host-specific defaults, the scope a repository-specific one. */
  function TokenEndpoint(challenge: string, host: string, repository: string): Option<string> {
    var c := AuthChallenge(challenge);
    var realm :=
      if c.realm != "" then c.realm
      else if host == "ghcr.io" then "https://ghcr.io/token"
      else if host == "registry-1.docker.io" then "https://auth.docker.io/token"
      else "";
    var service := if c.realm == "" && host == "registry-1.docker.io" then "registry.docker.io" else c.service;
    var scope := if c.scope == "" then "repository:" + repository + ":pull" else c.scope;
    if realm == "" then None else Some(TokenURL(realm, service, scope))
  }

  /** `negotiateBearerToken`. A token is asked for with the credentials of the registry's host, if it has any. */
  function NegotiateBearer(reg: Registry, challenge: string, host: string, repository: string): Negotiated {
    match TokenEndpoint(challenge, host, repository)
    case None => Negotiated(Err(Failure(NoRealm)), [])
    case Some(url) =>
      if !reg.buildable(url) then Negotiated(Err(Failure(BuildRequest)), [])
      else
        var calls := [TokenCall(url, if reg.hasBasic(host) then Basic(host) else Anonymous)];
        match reg.tokenAnswer(host, url)
        case NoToken(reason) => Negotiated(Err(Failure(External(reason))), calls)
        case TokenPayload(token, accessToken) =>
          if token != "" then Negotiated(Ok(token), calls)
          else if accessToken != "" then Negotiated(Ok(accessToken), calls)
          else Negotiated(Err(Failure(EmptyToken)), calls)
  }

  datatype Authenticated = Authenticated(auth: Result<Auth, ResolveError>, calls: seq<Call>)

  /** What a first 401 leads to: a bearer token, else configured basic credentials, else an error. */
  function Authenticate(reg: Registry, challenge: string, host: string, repository: string): Authenticated {
    var n := if challenge == "" then Negotiated(Ok(""), []) else NegotiateBearer(reg, challenge, host, repository);
    if n.token.Ok? && n.token.value != "" then Authenticated(Ok(Bearer(n.token.value)), n.calls)
    else if reg.hasBasic(host) then Authenticated(Ok(Basic(host)), n.calls)
    else if n.token.Err? then Authenticated(Err(n.token.error), n.calls)
    else Authenticated(Err(Failure(Status(401))), n.calls)
  }

  /** What one page comes to once authentication is settled. */
  datatype PageOutcome = Page(tags: seq<string>, link: string) | Gone | Broken(error: ResolveError)

  function Settle(reply: Reply): PageOutcome {
    match reply
    case NoReply => Broken(Failure(Transport))
    case Unauthorized(_) => Broken(Failure(Status(401)))
    case NotFound => Gone
    case OtherStatus(code) => Broken(Failure(Status(code)))
    case Success(Unreadable, _) => Broken(Failure(ReadBody))
    case Success(Undecodable, _) => Broken(Failure(Decode))
    case Success(Tags(tags), link) => Page(tags, link)
  }

  datatype PageRun = PageRun(outcome: PageOutcome, auth: Auth, calls: seq<Call>)

  predicate Challenged(reg: Registry, page: nat, url: string, auth: Auth) {
    auth.Anonymous? && reg.answer(page, url, auth).Unauthorized?
  }

  /** One page: a request, and after a first 401 one more with the credentials it led to. */
  function FetchPage(reg: Registry, host: string, repository: string, page: nat, url: string, auth: Auth): PageRun {
    if !reg.buildable(url) then PageRun(Broken(Failure(BuildRequest)), auth, [])
    else
      var first := [TagCall(page, url, auth)];
      if !Challenged(reg, page, url, auth) then PageRun(Settle(reg.answer(page, url, auth)), auth, first)
      else
        var a := Authenticate(reg, reg.answer(page, url, auth).challenge, host, repository);
        match a.auth
        case Err(e) => PageRun(Broken(e), auth, first + a.calls)
        case Ok(granted) =>
          PageRun(Settle(reg.answer(page, url, granted)), granted, first + a.calls + [TagCall(page, url, granted)])
  }

  datatype Fetched = Fetched(result: Result<seq<string>, ResolveError>, calls: seq<Call>)

  function Collected(all: seq<string>): Result<seq<string>, ResolveError> {
    if all == [] then Err(ChartNotFound) else Ok(all)
  }

  /** The pages from number `page` on, with `all` already collected. */
  function FetchFrom(reg: Registry, host: string, repository: string, startURL: string,
                     auth: Auth, url: string, page: nat, all: seq<string>): Fetched
    decreases MAX_OCI_PAGES - page
  {
    if page >= MAX_OCI_PAGES || url == "" then Fetched(Collected(all), [])
    else
      var run := FetchPage(reg, host, repository, page, url, auth);
      match run.outcome
      case Broken(e) => Fetched(Err(e), run.calls)
      case Gone => Fetched(Collected(all), run.calls)
      case Page(tags, link) =>
        var next := NextPageURL(reg.resolve, startURL, link);
        var rest := FetchFrom(reg, host, repository, startURL, run.auth, next, page + 1, all + tags);
        Fetched(rest.result, run.calls + rest.calls)
  }

  function StartURL(host: string, repository: string): string {
    "https://" + host + "/v2/" + repository + "/tags/list"
  }

  function Fetch(reg: Registry, host: string, repository: string): Fetched {
    FetchFrom(reg, host, repository, StartURL(host, repository), Anonymous, StartURL(host, repository), 0, [])
  }

  /** The paging and authentication loops. The exit for exhausted attempts is never taken. */
  method FetchTags(reg: Registry, host: string, repository: string)
    returns (r: Result<seq<string>, ResolveError>, calls: seq<Call>)
    ensures r == Fetch(reg, host, repository).result
    ensures calls == Fetch(reg, host, repository).calls
  {
    hide Authenticate, NextPageURL, FetchFrom, FetchPage, StartURL, NegotiateBearer, AuthChallenge, TokenURL, TokenEndpoint;
    var startURL := StartURL(host, repository);
    ghost var whole := Fetch(reg, host, repository);
    var token, useBasic := "", false;
    var all: seq<string> := [];
    var nextURL := startURL;
    calls := [];

    var page := 0;
    while page < MAX_OCI_PAGES && nextURL != ""
      invariant 0 <= page <= MAX_OCI_PAGES
      invariant
        var rest := FetchFrom(reg, host, repository, startURL, AuthOf(token, useBasic, host), nextURL, page, all);
        whole == Fetched(rest.result, calls + rest.calls)
      decreases MAX_OCI_PAGES - page
    {
      var body: Option<Body> := None;
      var linkHeader := "";
      var stopPaging := false;
      ghost var auth0, calls0 := AuthOf(token, useBasic, host), calls;
      ghost var run := FetchPage(reg, host, repository, page, nextURL, auth0);
      ghost var pageEnd := calls0 + run.calls;
      FetchStepAfter(reg, host, repository, startURL, auth0, nextURL, page, all, calls0);
      PageCasesAfter(reg, host, repository, page, nextURL, auth0, calls0);

      var attempt := 0;
      while attempt < MAX_ATTEMPTS
        invariant 0 <= attempt <= 1
        invariant body.None? && !stopPaging
        invariant attempt == 0 ==> AuthOf(token, useBasic, host) == auth0 && calls == calls0
        invariant attempt == 1 ==>
                    && reg.buildable(nextURL) && !AuthOf(token, useBasic, host).Anonymous?
                    && run.auth == AuthOf(token, useBasic, host)
                    && run.outcome == Settle(reg.answer(page, nextURL, run.auth))
                    && pageEnd == calls + [TagCall(page, nextURL, run.auth)]
        decreases MAX_ATTEMPTS - attempt
      {
        if !reg.buildable(nextURL) {
          return Err(Failure(BuildRequest)), calls;
        }
        var auth := AuthOf(token, useBasic, host);
        calls := calls + [TagCall(page, nextURL, auth)];
        var reply := reg.answer(page, nextURL, auth);
        assert !Challenged(reg, page, nextURL, auth) ==> calls == pageEnd && run.outcome == Settle(reply);
        match reply {
          case NoReply =>
            return Err(Failure(Transport)), calls;
          case Unauthorized(challenge) =>
            if token == "" && !useBasic {
              var a := Authenticate(reg, challenge, host, repository);
              AuthenticateGrants(reg, challenge, host, repository);
              calls := calls + a.calls;
              match a.auth {
                case Err(e) =>
                  return Err(e), calls;
                case Ok(Bearer(t)) => token := t;
                case Ok(_) => useBasic := true;
              }
              attempt := attempt + 1;
              continue;
            }
            return Err(Failure(Status(401))), calls;
          case NotFound =>
            if |all| > 0 {
              stopPaging := true;
              break;
            }
            return Err(ChartNotFound), calls;
          case OtherStatus(code) =>
            return Err(Failure(Status(code))), calls;
          case Success(b, link) =>
            if b.Unreadable? {
              return Err(Failure(ReadBody)), calls;
            }
            body, linkHeader := Some(b), link;
            break;
        }
      }

      if stopPaging {
        break;
      }
      if body.None? {
        assert false;
      }
      match body.value {
        case Unreadable => assert false;
        case Undecodable =>
          return Err(Failure(Decode)), calls;
        case Tags(tags) =>
          all := all + tags;
      }
      nextURL := NextPageURL(reg.resolve, startURL, linkHeader);
      page := page + 1;
    }
    if page >= MAX_OCI_PAGES || nextURL == "" {
      FetchEnd(reg, host, repository, startURL, AuthOf(token, useBasic, host), nextURL, page, all);
    }
    if |all| == 0 {
      return Err(ChartNotFound), calls;
    }
    return Ok(all), calls;
  }

  lemma FetchStep(reg: Registry, host: string, repository: string, startURL: string,
                  auth: Auth, url: string, page: nat, all: seq<string>)
    requires page < MAX_OCI_PAGES && url != ""
    ensures
      var run := FetchPage(reg, host, repository, page, url, auth);
      var whole := FetchFrom(reg, host, repository, startURL, auth, url, page, all);
      && (run.outcome.Broken? ==> whole == Fetched(Err(run.outcome.error), run.calls))
      && (run.outcome.Gone? ==> whole == Fetched(Collected(all), run.calls))
      && (run.outcome.Page? ==>
            var next := NextPageURL(reg.resolve, startURL, run.outcome.link);
            var rest := FetchFrom(reg, host, repository, startURL, run.auth, next, page + 1, all + run.outcome.tags);
            whole == Fetched(rest.result, run.calls + rest.calls))
  {
    hide FetchPage, NextPageURL;
  }

  lemma PageCases(reg: Registry, host: string, repository: string, page: nat, url: string, auth: Auth)
    ensures
      var run := FetchPage(reg, host, repository, page, url, auth);
      var reply := reg.answer(page, url, auth);
      var first := [TagCall(page, url, auth)];
      && (!reg.buildable(url) ==> run == PageRun(Broken(Failure(BuildRequest)), auth, []))
      && (reg.buildable(url) && !Challenged(reg, page, url, auth) ==> run == PageRun(Settle(reply), auth, first))
      && (reg.buildable(url) && Challenged(reg, page, url, auth) ==>
            var a := Authenticate(reg, reply.challenge, host, repository);
            && (a.auth.Err? ==> run == PageRun(Broken(a.auth.error), auth, first + a.calls))
            && (a.auth.Ok? ==>
                  && run.auth == a.auth.value && run.outcome == Settle(reg.answer(page, url, run.auth))
                  && run.calls == first + a.calls + [TagCall(page, url, run.auth)]))
  {
    hide Authenticate;
  }

  /** `FetchStep` with the requests made before the page. */
  lemma FetchStepAfter(reg: Registry, host: string, repository: string, startURL: string,
                       auth: Auth, url: string, page: nat, all: seq<string>, before: seq<Call>)
    requires page < MAX_OCI_PAGES && url != ""
    ensures
      var run := FetchPage(reg, host, repository, page, url, auth);
      var end := before + run.calls;
      var later := FetchFrom(reg, host, repository, startURL, auth, url, page, all);
      var whole := Fetched(later.result, before + later.calls);
      && (run.outcome.Broken? ==> whole == Fetched(Err(run.outcome.error), end))
      && (run.outcome.Gone? ==> whole == Fetched(Collected(all), end))
      && (run.outcome.Page? ==>
            var next := NextPageURL(reg.resolve, startURL, run.outcome.link);
            var rest := FetchFrom(reg, host, repository, startURL, run.auth, next, page + 1, all + run.outcome.tags);
            whole == Fetched(rest.result, end + rest.calls))
  {
    hide FetchPage, NextPageURL, FetchFrom;
    FetchStep(reg, host, repository, startURL, auth, url, page, all);
  }

  /** `PageCases` with the requests made before the page. */
  lemma PageCasesAfter(reg: Registry, host: string, repository: string, page: nat, url: string, auth: Auth, before: seq<Call>)
    ensures
      var run := FetchPage(reg, host, repository, page, url, auth);
      var reply := reg.answer(page, url, auth);
      var end := before + run.calls;
      var sent := before + [TagCall(page, url, auth)];
      && (!reg.buildable(url) ==> run.outcome == Broken(Failure(BuildRequest)) && run.auth == auth && end == before)
      && (reg.buildable(url) && !Challenged(reg, page, url, auth) ==>
            run.outcome == Settle(reply) && run.auth == auth && end == sent)
      && (reg.buildable(url) && Challenged(reg, page, url, auth) ==>
            var a := Authenticate(reg, reply.challenge, host, repository);
            && (a.auth.Err? ==> run.outcome == Broken(a.auth.error) && end == sent + a.calls)
            && (a.auth.Ok? ==>
                  && run.auth == a.auth.value && run.outcome == Settle(reg.answer(page, url, run.auth))
                  && end == sent + a.calls + [TagCall(page, url, run.auth)]))
  {
    hide FetchPage, Authenticate, Settle;
    PageCases(reg, host, repository, page, url, auth);
  }

  lemma FetchEnd(reg: Registry, host: string, repository: string, startURL: string,
                 auth: Auth, url: string, page: nat, all: seq<string>)
    requires page >= MAX_OCI_PAGES || url == ""
    ensures FetchFrom(reg, host, repository, startURL, auth, url, page, all) == Fetched(Collected(all), [])
  {
  }

  /** The header a request carries: a token wins over basic credentials. */
  function AuthOf(token: string, useBasic: bool, host: string): Auth {
    if token != "" then Bearer(token) else if useBasic then Basic(host) else Anonymous
  }

  /** Authentication yields usable credentials and makes at most one request, for a token. */
  lemma AuthenticateGrants(reg: Registry, challenge: string, host: string, repository: string)
    ensures
      var a := Authenticate(reg, challenge, host, repository);
      && |a.calls| <= 1 && (forall c :: c in a.calls ==> c.TokenCall?)
      && (a.auth.Ok? ==> a.auth.value == Basic(host) || (a.auth.value.Bearer? && a.auth.value.token != ""))
      && (a.auth.Err? ==> a.auth.error.Failure?)
  {
    hide TokenEndpoint;
  }
}
