/**
 Which requests the tag fetcher makes, and what it sends with them
 (`fetchTags` and `negotiateBearerToken` in `internal/resolver/oci_resolver.go`).
 */
module OciRequests {
  import opened Text
  import opened Model
  import opened RegistryHeaders
  import opened OciTags
  import opened OciPaging

  /** The chain reaches page `k`, and a request for it can be built. */
  predicate Asked(reg: Registry, host: string, repository: string, pages: nat -> PageOutcome, k: nat) {
    var url := ChainUrl(reg, host, repository, pages, k);
    k < MAX_OCI_PAGES && url != "" && reg.buildable(url)
  }

  /** The token endpoint a challenge makes the fetcher ask. */
  function Sought(reg: Registry, host: string, repository: string, challenge: string): Option<string> {
    match if challenge == "" then None else TokenEndpoint(challenge, host, repository)
    case None => None
    case Some(url) => if reg.buildable(url) then Some(url) else None
  }

  /** The token endpoint page `k` makes the fetcher ask: only the first challenge does. */
  function SoughtAt(reg: Registry, host: string, repository: string, pages: nat -> PageOutcome, k: nat): Option<string> {
    if !Asked(reg, host, repository, pages, k) || !AuthAt(reg, host, repository, pages, k).Anonymous? then None
    else
      match Reply401(reg, k, ChainUrl(reg, host, repository, pages, k))
      case None => None
      case Some(challenge) => Sought(reg, host, repository, challenge)
  }

  /** What a token is asked for with. */
  function TokenAuth(reg: Registry, host: string): Auth {
    if reg.hasBasic(host) then Basic(host) else Anonymous
  }

  /** The request is made because of page `k`: for the page itself, with the authorisation of before or after it,
      or for the token its challenge sends for. */
  predicate IsForPage(reg: Registry, host: string, repository: string, pages: nat -> PageOutcome, k: nat, c: Call) {
    match c
    case TagCall(page, url, auth) =>
      && page == k && Asked(reg, host, repository, pages, k) && url == ChainUrl(reg, host, repository, pages, k)
      && (auth == AuthAt(reg, host, repository, pages, k) || auth == AuthAt(reg, host, repository, pages, k + 1))
    case TokenCall(url, auth) =>
      SoughtAt(reg, host, repository, pages, k) == Some(url) && auth == TokenAuth(reg, host)
  }

  ghost predicate IsForSomePage(reg: Registry, host: string, repository: string, pages: nat -> PageOutcome, start: nat, c: Call) {
    exists k: nat :: start <= k < MAX_OCI_PAGES && IsForPage(reg, host, repository, pages, k, c)
  }

  lemma AuthenticateCalls(reg: Registry, challenge: string, host: string, repository: string)
    ensures
      Authenticate(reg, challenge, host, repository).calls ==
      match Sought(reg, host, repository, challenge)
      case None => []
      case Some(url) => [TokenCall(url, TokenAuth(reg, host))]
  {
    hide TokenEndpoint;
  }

  lemma PageRequests(reg: Registry, host: string, repository: string, pages: nat -> PageOutcome, page: nat, c: Call)
    requires page < MAX_OCI_PAGES && ChainUrl(reg, host, repository, pages, page) != ""
    ensures
      var run := FetchPage(reg, host, repository, page, ChainUrl(reg, host, repository, pages, page),
                           AuthAt(reg, host, repository, pages, page));
      c in run.calls <==> IsForPage(reg, host, repository, pages, page, c)
  {
    hide Authenticate, Settle, ChainUrl, Sought, TokenAuth;
    var url, auth := ChainUrl(reg, host, repository, pages, page), AuthAt(reg, host, repository, pages, page);
    PageCases(reg, host, repository, page, url, auth);
    if reg.buildable(url) && Challenged(reg, page, url, auth) {
      var challenge := reg.answer(page, url, auth).challenge;
      AuthenticateGrants(reg, challenge, host, repository);
      AuthenticateCalls(reg, challenge, host, repository);
    }
  }

  lemma SomePageStep(reg: Registry, host: string, repository: string, pages: nat -> PageOutcome, page: nat, c: Call)
    requires page < MAX_OCI_PAGES
    ensures
      IsForSomePage(reg, host, repository, pages, page, c) <==>
      IsForPage(reg, host, repository, pages, page, c) || IsForSomePage(reg, host, repository, pages, page + 1, c)
  {
    hide IsForPage;
  }

  /** Once the chain has ended, it stays ended. */
  lemma NothingAfter(reg: Registry, host: string, repository: string, pages: nat -> PageOutcome, k: nat, c: Call)
    requires k >= MAX_OCI_PAGES || ChainUrl(reg, host, repository, pages, k) == ""
    ensures !IsForSomePage(reg, host, repository, pages, k, c)
  {
    hide UrlAt, AuthAt;
    forall n: nat | k <= n < MAX_OCI_PAGES ensures !IsForPage(reg, host, repository, pages, n, c) {
      if k < n && ChainUrl(reg, host, repository, pages, n) != "" {
        ReachedContributes(reg.resolve, StartURL(host, repository), pages, k, n);
      }
    }
  }

  lemma {:induction false} RequestsFrom(reg: Registry, host: string, repository: string, pages: nat -> PageOutcome,
                                        page: nat, all: seq<string>, c: Call)
    requires page <= MAX_OCI_PAGES && Shows(reg, host, repository, pages)
    ensures
      var url, auth := ChainUrl(reg, host, repository, pages, page), AuthAt(reg, host, repository, pages, page);
      c in FetchFrom(reg, host, repository, StartURL(host, repository), auth, url, page, all).calls <==>
      IsForSomePage(reg, host, repository, pages, page, c)
    decreases MAX_OCI_PAGES - page
  {
    hide FetchPage, NextPageURL, Shown, Granted, FetchFrom, StartURL, IsForPage, IsForSomePage, Shows;
    var startURL := StartURL(host, repository);
    var url, auth := ChainUrl(reg, host, repository, pages, page), AuthAt(reg, host, repository, pages, page);
    if page == MAX_OCI_PAGES || url == "" {
      FetchEnd(reg, host, repository, startURL, auth, url, page, all);
      NothingAfter(reg, host, repository, pages, page, c);
    } else {
      var run := FetchPage(reg, host, repository, page, url, auth);
      PageIsShown(reg, host, repository, page, url, auth);
      ShowsAt(reg, host, repository, pages, page);
      PageRequests(reg, host, repository, pages, page, c);
      FetchStep(reg, host, repository, startURL, auth, url, page, all);
      SomePageStep(reg, host, repository, pages, page, c);
      if run.outcome.Page? {
        RequestsFrom(reg, host, repository, pages, page + 1, all + run.outcome.tags, c);
      } else {
        NothingAfter(reg, host, repository, pages, page + 1, c);
      }
    }
  }

  /** Against any registry, the requests made are exactly those of the chain: each page that is reached is asked for
      under its own URL, none is skipped, only the first challenge sends for a token, and no page before the first
      grant is asked for with authorisation. */
  lemma RequestsFollowChain(reg: Registry, host: string, repository: string, c: Call)
    ensures
      c in Fetch(reg, host, repository).calls <==>
      IsForSomePage(reg, host, repository, Seen(reg, host, repository), 0, c)
  {
    hide FetchFrom, Shows, IsForSomePage, Seen;
    EveryRegistryShows(reg, host, repository);
    RequestsFrom(reg, host, repository, Seen(reg, host, repository), 0, [], c);
  }

  // ---------------------------------------------------------------- Where authorisation goes

  /** Every request that carries authorisation is for a URL of the given set. */
  ghost predicate AuthorisedWithin(calls: seq<Call>, within: string -> bool) {
    forall c :: c in calls && !c.auth.Anonymous? ==> within(c.url)
  }

  /** If page `k` is asked for with authorisation, its URL is in the set; and if the host has credentials, so is the
      token endpoint that page makes the fetcher ask. */
  predicate PageWithin(reg: Registry, host: string, repository: string, pages: nat -> PageOutcome, within: string -> bool, k: nat) {
    && (Asked(reg, host, repository, pages, k) && !AuthAt(reg, host, repository, pages, k + 1).Anonymous? ==>
          within(ChainUrl(reg, host, repository, pages, k)))
    && (reg.hasBasic(host) && SoughtAt(reg, host, repository, pages, k).Some? ==>
          within(SoughtAt(reg, host, repository, pages, k).value))
  }

  lemma PageWithinExactly(reg: Registry, host: string, repository: string, pages: nat -> PageOutcome, within: string -> bool, k: nat)
    ensures
      PageWithin(reg, host, repository, pages, within, k) <==>
      forall c: Call :: IsForPage(reg, host, repository, pages, k, c) && !c.auth.Anonymous? ==> within(c.url)
  {
    hide ChainUrl, Granted, SoughtAt, Asked;
    var url, after := ChainUrl(reg, host, repository, pages, k), AuthAt(reg, host, repository, pages, k + 1);
    if Asked(reg, host, repository, pages, k) {
      assert IsForPage(reg, host, repository, pages, k, TagCall(k, url, after));
    }
    if SoughtAt(reg, host, repository, pages, k).Some? {
      var token := SoughtAt(reg, host, repository, pages, k).value;
      assert IsForPage(reg, host, repository, pages, k, TokenCall(token, TokenAuth(reg, host)));
    }
  }

  /** Links and challenges may lead anywhere, and authorisation follows them. Against any registry, the authorised
      requests stay within a set of URLs, say those of the registry's host, exactly when the pages asked for with
      authorisation do and, if the host has credentials, the token endpoint asked does. */
  lemma AuthorisedRequestsStayWithin(reg: Registry, host: string, repository: string, within: string -> bool)
    ensures
      AuthorisedWithin(Fetch(reg, host, repository).calls, within) <==>
      forall k: nat :: k < MAX_OCI_PAGES ==> PageWithin(reg, host, repository, Seen(reg, host, repository), within, k)
  {
    hide Fetch, Seen, IsForPage, PageWithin;
    var pages := Seen(reg, host, repository);
    if AuthorisedWithin(Fetch(reg, host, repository).calls, within) {
      forall k: nat | k < MAX_OCI_PAGES ensures PageWithin(reg, host, repository, pages, within, k) {
        forall c: Call | IsForPage(reg, host, repository, pages, k, c) && !c.auth.Anonymous? ensures within(c.url) {
          RequestsFollowChain(reg, host, repository, c);
        }
        PageWithinExactly(reg, host, repository, pages, within, k);
      }
    }
    if forall k: nat :: k < MAX_OCI_PAGES ==> PageWithin(reg, host, repository, pages, within, k) {
      forall c: Call | c in Fetch(reg, host, repository).calls && !c.auth.Anonymous? ensures within(c.url) {
        RequestsFollowChain(reg, host, repository, c);
        var k: nat :| k < MAX_OCI_PAGES && IsForPage(reg, host, repository, pages, k, c);
        PageWithinExactly(reg, host, repository, pages, within, k);
      }
    }
  }

  // ---------------------------------------------------------------- It leaves

  /** A registry that asks for credentials with `challenge`, then shows one page with a link. */
  function Asking(challenge: string, link: string): Registry {
    Registry(
      url => true,
      (page: nat, url, auth: Auth) =>
        if auth.Anonymous? then Unauthorized(challenge) else Success(Tags(["1.0.0"]), if page == 0 then link else ""),
      (host, url) => NoToken("refused"),
      host => true,
      (base, target) => target)
  }

  lemma AskingSendsFirst(challenge: string, link: string, host: string, repository: string)
    ensures
      var reg := Asking(challenge, link);
      && Authenticate(reg, challenge, host, repository).auth == Ok(Basic(host))
      && FetchPage(reg, host, repository, 0, StartURL(host, repository), Anonymous) ==
         PageRun(Page(["1.0.0"], link), Basic(host),
                 [TagCall(0, StartURL(host, repository), Anonymous)] + Authenticate(reg, challenge, host, repository).calls +
                 [TagCall(0, StartURL(host, repository), Basic(host))])
  {
    hide TokenEndpoint, StartURL;
  }

  lemma StartIsSomewhere(host: string, repository: string)
    ensures StartURL(host, repository) != ""
  {
  }

  /** The link of a first page is followed, wherever it leads, with the credentials of the registry's host. */
  lemma LinkTakesAuthorisationAlong(host: string, repository: string, elsewhere: string)
    requires CleanTarget(elsewhere)
    ensures
      var reg := Asking("", PrintLink((elsewhere, [NEXT_ATTR])));
      TagCall(1, elsewhere, Basic(host)) in Fetch(reg, host, repository).calls
  {
    hide FetchPage, FetchFrom, Authenticate, NextLinkTarget, PrintLink, StartURL, CleanTarget;
    var link := PrintLink((elsewhere, [NEXT_ATTR]));
    var reg, startURL := Asking("", link), StartURL(host, repository);
    StartIsSomewhere(host, repository);
    AskingSendsFirst("", link, host, repository);
    NextLinkRoundTrip(elsewhere);
    FetchStep(reg, host, repository, startURL, Anonymous, startURL, 0, []);
    SecondPageIsAsked(reg, host, repository, startURL, elsewhere, [] + ["1.0.0"]);
  }

  lemma SecondPageIsAsked(reg: Registry, host: string, repository: string, startURL: string, url: string, all: seq<string>)
    requires reg.buildable(url) && CleanTarget(url)
    ensures TagCall(1, url, Basic(host)) in FetchFrom(reg, host, repository, startURL, Basic(host), url, 1, all).calls
  {
    hide NextPageURL, FetchFrom, FetchPage;
    PageCases(reg, host, repository, 1, url, Basic(host));
    FetchStep(reg, host, repository, startURL, Basic(host), url, 1, all);
  }

  /** The realm of a challenge is asked for a token, wherever it is, with the credentials of the registry's host. */
  lemma RealmIsSentCredentials(host: string, repository: string, realm: string)
    requires realm != "" && CleanValue(realm)
    ensures
      var reg := Asking(PrintChallenge("Bearer", [("realm", realm)], ""), "");
      TokenCall(TokenURL(realm, "", "repository:" + repository + ":pull"), Basic(host)) in Fetch(reg, host, repository).calls
  {
    hide FetchPage, FetchFrom, Authenticate, PrintChallenge, TokenURL, StartURL, AuthChallenge, CleanValue, NextPageURL;
    var challenge := PrintChallenge("Bearer", [("realm", realm)], "");
    var reg, startURL := Asking(challenge, ""), StartURL(host, repository);
    RealmIsRead(realm);
    StartIsSomewhere(host, repository);
    AskingSendsFirst(challenge, "", host, repository);
    AuthenticateCalls(reg, challenge, host, repository);
    FetchStep(reg, host, repository, startURL, Anonymous, startURL, 0, []);
  }

  /** A challenge that names a realm and nothing else reads back as that. */
  lemma RealmIsRead(realm: string)
    requires CleanValue(realm)
    ensures
      var challenge := PrintChallenge("Bearer", [("realm", realm)], "");
      challenge != "" && AuthChallenge(challenge) == Challenge(realm, "", "")
  {
    hide AuthChallenge, ApplyParts, CleanValue;
    var params := [("realm", realm)];
    ChallengeIsRead("Bearer", params, "");
    ApplyPartsReadsParams(params, "");
    var c := AuthChallenge(PrintChallenge("Bearer", params, ""));
    assert ToLower("realm") == "realm" && params[0].0 == "realm";
    assert c.Get("realm") == realm;
    assert c.Get("service") == "" && c.Get("scope") == "";
  }
}
