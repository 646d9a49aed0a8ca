/**
 What the tag fetcher's loops amount to: a request budget against any registry, and,
 against a registry whose authorised answers are fixed, the concatenation of a chain of pages.
 */
module OciPaging {
  import opened Model
  import opened RegistryHeaders
  import opened OciTags

  // ---------------------------------------------------------------- Request budget

  function Count(calls: seq<Call>, p: Call -> bool): nat {
    if calls == [] then 0 else (if p(calls[0]) then 1 else 0) + Count(calls[1..], p)
  }

  lemma {:induction false} CountConcat(a: seq<Call>, b: seq<Call>, p: Call -> bool)
    ensures Count(a + b, p) == Count(a, p) + Count(b, p)
    decreases |a|
  {
    if a == [] {
      assert a + b == b;
    } else {
      assert (a + b)[1..] == a[1..] + b;
      CountConcat(a[1..], b, p);
    }
  }

  function IsTag(): Call -> bool { (c: Call) => c.TagCall? }

  function IsToken(): Call -> bool { (c: Call) => c.TokenCall? }

  function OnPage(k: nat): Call -> bool { (c: Call) => c.TagCall? && c.page == k }

  /** All tag requests carry the same authorisation. */
  ghost predicate AllUse(calls: seq<Call>, auth: Auth) {
    forall c :: c in calls && c.TagCall? ==> c.auth == auth
  }

  /** Anonymous requests first, then requests that all carry the same granted authorisation. */
  ghost predicate SwitchesOnce(calls: seq<Call>) {
    exists granted: Auth :: SwitchesTo(calls, granted)
  }

  ghost predicate SwitchesTo(calls: seq<Call>, granted: Auth) {
    exists cut: nat :: cut <= |calls| && AllUse(calls[..cut], Anonymous) && AllUse(calls[cut..], granted)
  }

  ghost predicate WithinBudget(calls: seq<Call>, auth: Auth, page: nat) {
    var spare := if auth.Anonymous? then 1 else 0;
    && Count(calls, IsToken()) <= spare
    && Count(calls, IsTag()) <= MAX_OCI_PAGES - page + spare
    && (forall k: nat :: Count(calls, OnPage(k)) <= if k < page then 0 else 2)
    && (!auth.Anonymous? ==> AllUse(calls, auth))
    && SwitchesOnce(calls)
  }

  lemma {:induction false} CountNone(calls: seq<Call>, p: Call -> bool)
    requires forall c :: c in calls ==> !p(c)
    ensures Count(calls, p) == 0
    decreases |calls|
  {
    if calls == [] {
    } else {
      assert calls[0] in calls;
      CountNone(calls[1..], p);
    }
  }

  lemma {:induction false} CountAtMostLength(calls: seq<Call>, p: Call -> bool)
    ensures Count(calls, p) <= |calls|
    decreases |calls|
  {
    if calls == [] {
    } else {
      CountAtMostLength(calls[1..], p);
    }
  }

  lemma CountOne(c: Call, p: Call -> bool)
    ensures Count([c], p) == if p(c) then 1 else 0
  {
    assert [c][1..] == [];
  }

  /** One page: one tag request if already authorised, at most two and a token request if not. */
  lemma PageBudget(reg: Registry, host: string, repository: string, page: nat, url: string, auth: Auth)
    ensures
      var run := FetchPage(reg, host, repository, page, url, auth);
      var switched := auth.Anonymous? && !run.auth.Anonymous?;
      && (!auth.Anonymous? ==> run.auth == auth && AllUse(run.calls, auth))
      && Count(run.calls, IsToken()) <= (if auth.Anonymous? && (switched || !run.outcome.Page?) then 1 else 0)
      && Count(run.calls, IsTag()) <= (if switched then 2 else 1)
      && (forall k: nat :: Count(run.calls, OnPage(k)) <= if k == page then 2 else 0)
      && (!switched ==> AllUse(run.calls, auth))
      && (switched ==> SwitchesTo(run.calls, run.auth))
  {
    hide Authenticate;
    var run := FetchPage(reg, host, repository, page, url, auth);
    var first := TagCall(page, url, auth);
    CountOne(first, IsToken());
    CountOne(first, IsTag());
    forall k: nat ensures Count([first], OnPage(k)) == if k == page then 1 else 0 { CountOne(first, OnPage(k)); }
    if reg.buildable(url) && Challenged(reg, page, url, auth) {
      var challenge := reg.answer(page, url, auth).challenge;
      var a := Authenticate(reg, challenge, host, repository);
      AuthenticateGrants(reg, challenge, host, repository);
      CountConcat([first], a.calls, IsToken());
      CountConcat([first], a.calls, IsTag());
      CountAtMostLength(a.calls, IsToken());
      CountNone(a.calls, IsTag());
      forall k: nat ensures Count([first] + a.calls, OnPage(k)) == if k == page then 1 else 0 {
        CountConcat([first], a.calls, OnPage(k));
        CountNone(a.calls, OnPage(k));
      }
      if a.auth.Ok? {
        var second := TagCall(page, url, a.auth.value);
        CountConcat([first] + a.calls, [second], IsToken());
        CountConcat([first] + a.calls, [second], IsTag());
        CountOne(second, IsToken());
        CountOne(second, IsTag());
        forall k: nat ensures Count([first] + a.calls + [second], OnPage(k)) == if k == page then 2 else 0 {
          CountConcat([first] + a.calls, [second], OnPage(k));
          CountOne(second, OnPage(k));
        }
        assert run.calls[..1] == [first] && run.calls[1..] == a.calls + [second];
      }
    }
  }

  lemma SwitchAcross(a: seq<Call>, b: seq<Call>, auth: Auth)
    requires AllUse(b, auth) && SwitchesTo(a, auth)
    ensures SwitchesOnce(a + b)
  {
    var cut: nat :| cut <= |a| && AllUse(a[..cut], Anonymous) && AllUse(a[cut..], auth);
    assert (a + b)[..cut] == a[..cut] && (a + b)[cut..] == a[cut..] + b;
    assert SwitchesTo(a + b, auth);
  }

  lemma SwitchBefore(a: seq<Call>, b: seq<Call>)
    requires AllUse(a, Anonymous) && SwitchesOnce(b)
    ensures SwitchesOnce(a + b)
  {
    var granted: Auth :| SwitchesTo(b, granted);
    var cut: nat :| cut <= |b| && AllUse(b[..cut], Anonymous) && AllUse(b[cut..], granted);
    assert (a + b)[..|a| + cut] == a + b[..cut] && (a + b)[|a| + cut..] == b[cut..];
    assert SwitchesTo(a + b, granted);
  }

  lemma NeverSwitching(calls: seq<Call>, auth: Auth)
    requires AllUse(calls, auth)
    ensures SwitchesOnce(calls)
  {
    assert calls[..0] == [] && calls[0..] == calls;
    assert SwitchesTo(calls, auth);
  }

  lemma {:induction false} FetchFromBudget(reg: Registry, host: string, repository: string, startURL: string,
                                           auth: Auth, url: string, page: nat, all: seq<string>)
    requires page <= MAX_OCI_PAGES
    ensures WithinBudget(FetchFrom(reg, host, repository, startURL, auth, url, page, all).calls, auth, page)
    decreases MAX_OCI_PAGES - page
  {
    hide FetchPage, NextPageURL, Count;
    if page >= MAX_OCI_PAGES || url == "" {
      FetchEnd(reg, host, repository, startURL, auth, url, page, all);
      EmptyWithinBudget(auth, page);
    } else {
      var run := FetchPage(reg, host, repository, page, url, auth);
      FetchStep(reg, host, repository, startURL, auth, url, page, all);
      PageBudget(reg, host, repository, page, url, auth);
      var rest: seq<Call> := [];
      if run.outcome.Page? {
        var next := NextPageURL(reg.resolve, startURL, run.outcome.link);
        rest := FetchFrom(reg, host, repository, startURL, run.auth, next, page + 1, all + run.outcome.tags).calls;
        FetchFromBudget(reg, host, repository, startURL, run.auth, next, page + 1, all + run.outcome.tags);
      } else {
        EmptyWithinBudget(run.auth, page + 1);
      }
      assert run.calls + [] == run.calls;
      BudgetAdds(run.calls, rest, auth, run.auth, page, run.outcome.Page?);
    }
  }

  lemma EmptyWithinBudget(auth: Auth, page: nat)
    requires page <= MAX_OCI_PAGES
    ensures WithinBudget([], auth, page)
  {
    NeverSwitching([], auth);
  }

  /** A page's requests followed by those of the later pages stay within the budget. */
  lemma BudgetAdds(first: seq<Call>, rest: seq<Call>, auth: Auth, after: Auth, page: nat, more: bool)
    requires page < MAX_OCI_PAGES
    requires WithinBudget(rest, after, page + 1) && (!more ==> rest == [])
    requires !auth.Anonymous? ==> after == auth && AllUse(first, auth)
    requires
      var switched := auth.Anonymous? && !after.Anonymous?;
      && Count(first, IsToken()) <= (if auth.Anonymous? && (switched || !more) then 1 else 0)
      && Count(first, IsTag()) <= (if switched then 2 else 1)
      && (forall k: nat :: Count(first, OnPage(k)) <= if k == page then 2 else 0)
      && (!switched ==> AllUse(first, auth))
      && (switched ==> SwitchesTo(first, after))
    ensures WithinBudget(first + rest, auth, page)
  {
    hide AllUse;
    CountConcat(first, rest, IsToken());
    CountConcat(first, rest, IsTag());
    forall k: nat ensures Count(first + rest, OnPage(k)) <= if k < page then 0 else 2 {
      CountConcat(first, rest, OnPage(k));
      assert Count(rest, OnPage(k)) <= if k < page + 1 then 0 else 2;
    }
    if auth.Anonymous? {
      if after.Anonymous? {
        SwitchBefore(first, rest);
      } else {
        SwitchAcross(first, rest, after);
      }
    } else {
      AllUseConcat(first, rest, auth);
      NeverSwitching(first + rest, auth);
    }
    CountNothing();
  }

  lemma CountNothing()
    ensures Count([], IsToken()) == 0
  {
  }

  lemma AllUseConcat(a: seq<Call>, b: seq<Call>, auth: Auth)
    requires AllUse(a, auth) && AllUse(b, auth)
    ensures AllUse(a + b, auth)
  {
  }

  /** Against any registry: at most 51 tag requests and one token request, at most two attempts
      a page, and the authorisation changes at most once, from none to the granted one. */
  lemma RequestBudget(reg: Registry, host: string, repository: string)
    ensures
      var calls := Fetch(reg, host, repository).calls;
      && Count(calls, IsTag()) <= 51
      && Count(calls, IsToken()) <= 1
      && (forall k: nat :: Count(calls, OnPage(k)) <= 2)
      && SwitchesOnce(calls)
  {
    hide FetchFrom, Count;
    FetchFromBudget(reg, host, repository, StartURL(host, repository), Anonymous, StartURL(host, repository), 0, []);
  }

  // ---------------------------------------------------------------- Refinement

  function Reply401(reg: Registry, page: nat, url: string): Option<string> {
    if !reg.buildable(url) then None
    else match reg.answer(page, url, Anonymous) case Unauthorized(challenge) => Some(challenge) case _ => None
  }

  /** The authorisation that a first 401 at `url` leads to, if it leads to one. */
  function Granted(reg: Registry, host: string, repository: string, page: nat, url: string): Option<Auth> {
    match Reply401(reg, page, url)
    case None => None
    case Some(challenge) =>
      match Authenticate(reg, challenge, host, repository).auth
      case Ok(auth) => Some(auth)
      case Err(_) => None
  }

  function Answered(reg: Registry, page: nat, url: string, auth: Auth): PageOutcome {
    if !reg.buildable(url) then Broken(Failure(BuildRequest)) else Settle(reg.answer(page, url, auth))
  }

  /** What a page comes to for a visitor who arrives with `auth`: a refused grant is the failure of its negotiation. */
  function Shown(reg: Registry, host: string, repository: string, page: nat, url: string, auth: Auth): PageOutcome {
    match if auth.Anonymous? then Reply401(reg, page, url) else None
    case None => Answered(reg, page, url, auth)
    case Some(challenge) =>
      match Authenticate(reg, challenge, host, repository).auth
      case Ok(granted) => Answered(reg, page, url, granted)
      case Err(e) => Broken(e)
  }

  /** The URL of page `k` of the chain, or "" when the chain has ended. */
  function UrlAt(resolve: (string, string) -> string, startURL: string, pages: nat -> PageOutcome, k: nat): string {
    if k == 0 then startURL
    else
      var before := UrlAt(resolve, startURL, pages, k - 1);
      if before == "" then ""
      else match pages(k - 1) case Page(_, link) => NextPageURL(resolve, startURL, link) case _ => ""
  }

  /** Page `k` exists and is readable, so it contributes its tags. */
  predicate Contributes(resolve: (string, string) -> string, startURL: string, pages: nat -> PageOutcome, k: nat) {
    UrlAt(resolve, startURL, pages, k) != "" && pages(k).Page?
  }

  /** The first page number at or after `k` that does not contribute, cut at the page limit. */
  function ChainEnd(resolve: (string, string) -> string, startURL: string, pages: nat -> PageOutcome, k: nat): (m: nat)
    requires k <= MAX_OCI_PAGES
    ensures k <= m <= MAX_OCI_PAGES
    ensures forall i :: k <= i < m ==> Contributes(resolve, startURL, pages, i)
    ensures m == MAX_OCI_PAGES || !Contributes(resolve, startURL, pages, m)
    decreases MAX_OCI_PAGES - k
  {
    if k == MAX_OCI_PAGES || !Contributes(resolve, startURL, pages, k) then k
    else ChainEnd(resolve, startURL, pages, k + 1)
  }

  /** The tags of pages `first` up to `end`, in order. */
  function TagsBetween(resolve: (string, string) -> string, startURL: string, pages: nat -> PageOutcome,
                       first: nat, end: nat): seq<string>
    requires first <= end
    requires forall i :: first <= i < end ==> Contributes(resolve, startURL, pages, i)
    decreases end - first
  {
    if first == end then []
    else
      assert Contributes(resolve, startURL, pages, first);
      pages(first).tags + TagsBetween(resolve, startURL, pages, first + 1, end)
  }

  /** The tags of the whole chain. */
  function ChainTags(resolve: (string, string) -> string, startURL: string, pages: nat -> PageOutcome): seq<string> {
    TagsBetween(resolve, startURL, pages, 0, ChainEnd(resolve, startURL, pages, 0))
  }

  /** The failure the chain runs into before the page limit, if any. */
  function ChainFailure(resolve: (string, string) -> string, startURL: string, pages: nat -> PageOutcome,
                        k: nat): Option<ResolveError>
    requires k <= MAX_OCI_PAGES
  {
    var end := ChainEnd(resolve, startURL, pages, k);
    var last := UrlAt(resolve, startURL, pages, end);
    if end < MAX_OCI_PAGES && last != "" && pages(end).Broken? then Some(pages(end).error) else None
  }

  /** Listing: all pages of the chain concatenated, unless the chain runs into a failure. */
  function Listing(resolve: (string, string) -> string, startURL: string, pages: nat -> PageOutcome)
    : Result<seq<string>, ResolveError>
  {
    match ChainFailure(resolve, startURL, pages, 0)
    case Some(e) => Err(e)
    case None => Collected(ChainTags(resolve, startURL, pages))
  }

  function ChainUrl(reg: Registry, host: string, repository: string, pages: nat -> PageOutcome, k: nat): string {
    UrlAt(reg.resolve, StartURL(host, repository), pages, k)
  }

  /** The authorisation page `k` is first asked for with: what the first grant on an earlier page gave. */
  function AuthAt(reg: Registry, host: string, repository: string, pages: nat -> PageOutcome, k: nat): Auth {
    if k == 0 then Anonymous
    else
      var before := AuthAt(reg, host, repository, pages, k - 1);
      match if before.Anonymous? then Granted(reg, host, repository, k - 1, ChainUrl(reg, host, repository, pages, k - 1)) else None
      case Some(granted) => granted
      case None => before
  }

  /** Page by page along the chain, and nowhere else, the registry shows `pages` to the fetcher. */
  ghost predicate Shows(reg: Registry, host: string, repository: string, pages: nat -> PageOutcome) {
    forall k: nat :: k < MAX_OCI_PAGES ==> ShowsPage(reg, host, repository, pages, k)
  }

  predicate ShowsPage(reg: Registry, host: string, repository: string, pages: nat -> PageOutcome, k: nat) {
    var url := ChainUrl(reg, host, repository, pages, k);
    url != "" ==> Shown(reg, host, repository, k, url, AuthAt(reg, host, repository, pages, k)) == pages(k)
  }

  lemma PageIsShown(reg: Registry, host: string, repository: string, page: nat, url: string, auth: Auth)
    ensures
      var run := FetchPage(reg, host, repository, page, url, auth);
      && run.outcome == Shown(reg, host, repository, page, url, auth)
      && run.auth == (match if auth.Anonymous? then Granted(reg, host, repository, page, url) else None
                      case Some(granted) => granted
                      case None => auth)
  {
    hide Authenticate, Settle;
    PageCases(reg, host, repository, page, url, auth);
  }

  lemma {:induction false} FetchFromFollowsChain(
    reg: Registry, host: string, repository: string, pages: nat -> PageOutcome, page: nat, all: seq<string>)
    requires page <= MAX_OCI_PAGES && Shows(reg, host, repository, pages)
    ensures
      var startURL := StartURL(host, repository);
      var url, auth := ChainUrl(reg, host, repository, pages, page), AuthAt(reg, host, repository, pages, page);
      FetchFrom(reg, host, repository, startURL, auth, url, page, all).result ==
      match ChainFailure(reg.resolve, startURL, pages, page)
      case Some(e) => Err(e)
      case None =>
        var end := ChainEnd(reg.resolve, startURL, pages, page);
        Collected(all + TagsBetween(reg.resolve, startURL, pages, page, end))
    decreases MAX_OCI_PAGES - page
  {
    hide FetchPage, NextPageURL, Shown, Granted, FetchFrom, StartURL;
    var startURL := StartURL(host, repository);
    var url, auth := ChainUrl(reg, host, repository, pages, page), AuthAt(reg, host, repository, pages, page);
    var end := ChainEnd(reg.resolve, startURL, pages, page);
    if page == MAX_OCI_PAGES || url == "" {
      FetchEnd(reg, host, repository, startURL, auth, url, page, all);
      assert all + [] == all;
    } else {
      var run := FetchPage(reg, host, repository, page, url, auth);
      PageIsShown(reg, host, repository, page, url, auth);
      assert ShowsPage(reg, host, repository, pages, page);
      FetchStep(reg, host, repository, startURL, auth, url, page, all);
      if run.outcome.Page? {
        var tags := run.outcome.tags;
        assert ChainUrl(reg, host, repository, pages, page + 1) == NextPageURL(reg.resolve, startURL, run.outcome.link);
        FetchFromFollowsChain(reg, host, repository, pages, page + 1, all + tags);
        var later := TagsBetween(reg.resolve, startURL, pages, page + 1, end);
        assert (all + tags) + later == all + (tags + later);
      } else {
        assert end == page;
        assert all + [] == all;
      }
    }
  }

  /** Fetching is listing what the registry shows along the chain, wherever the first 401 comes. */
  lemma PagingRefinement(reg: Registry, host: string, repository: string, pages: nat -> PageOutcome)
    requires Shows(reg, host, repository, pages)
    ensures Fetch(reg, host, repository).result == Listing(reg.resolve, StartURL(host, repository), pages)
  {
    hide FetchFrom, ChainEnd, TagsBetween, Shows, ChainFailure;
    FetchFromFollowsChain(reg, host, repository, pages, 0, []);
    assert [] + ChainTags(reg.resolve, StartURL(host, repository), pages) == ChainTags(reg.resolve, StartURL(host, repository), pages);
  }

  // ---------------------------------------------------------------- Every registry shows some pages

  /** With which URL and authorisation the fetcher arrives at a page; "" when the chain has ended. */
  datatype Arrival = Arrival(url: string, auth: Auth)

  function ArrivalAt(reg: Registry, host: string, repository: string, k: nat): Arrival {
    if k == 0 then Arrival(StartURL(host, repository), Anonymous)
    else
      var before := ArrivalAt(reg, host, repository, k - 1);
      var url :=
        if before.url == "" then ""
        else
          match Shown(reg, host, repository, k - 1, before.url, before.auth)
          case Page(_, link) => NextPageURL(reg.resolve, StartURL(host, repository), link)
          case _ => "";
      match if before.auth.Anonymous? then Granted(reg, host, repository, k - 1, before.url) else None
      case Some(granted) => Arrival(url, granted)
      case None => Arrival(url, before.auth)
  }

  /** What the registry shows the fetcher, page by page. */
  function Seen(reg: Registry, host: string, repository: string): nat -> PageOutcome {
    (k: nat) =>
      var arrival := ArrivalAt(reg, host, repository, k);
      Shown(reg, host, repository, k, arrival.url, arrival.auth)
  }

  lemma {:induction false} SeenArrivals(reg: Registry, host: string, repository: string, k: nat)
    ensures
      var pages := Seen(reg, host, repository);
      ArrivalAt(reg, host, repository, k) ==
      Arrival(ChainUrl(reg, host, repository, pages, k), AuthAt(reg, host, repository, pages, k))
    decreases k
  {
    hide Shown, Granted, NextPageURL, StartURL;
    if k == 0 {
    } else {
      SeenArrivals(reg, host, repository, k - 1);
    }
  }

  /** Any registry shows the pages it is seen to show, so what holds of a registry that shows pages holds of every one. */
  lemma EveryRegistryShows(reg: Registry, host: string, repository: string)
    ensures Shows(reg, host, repository, Seen(reg, host, repository))
  {
    hide Shown, ChainUrl, AuthAt, ArrivalAt;
    forall k: nat | k < MAX_OCI_PAGES ensures ShowsPage(reg, host, repository, Seen(reg, host, repository), k) {
      SeenArrivals(reg, host, repository, k);
    }
  }

  /** Against any registry at all, fetching is listing the pages it shows. */
  lemma FetchingIsListing(reg: Registry, host: string, repository: string)
    ensures
      Fetch(reg, host, repository).result ==
      Listing(reg.resolve, StartURL(host, repository), Seen(reg, host, repository))
  {
    hide Fetch, Listing, Shows, Seen;
    EveryRegistryShows(reg, host, repository);
    PagingRefinement(reg, host, repository, Seen(reg, host, repository));
  }

  /** The URL of page `k` of the chain when what a page shows depends on its URL alone. */
  function ContentUrl(resolve: (string, string) -> string, startURL: string, content: string -> PageOutcome, k: nat): string {
    if k == 0 then startURL
    else
      var before := ContentUrl(resolve, startURL, content, k - 1);
      if before == "" then ""
      else match content(before) case Page(_, link) => NextPageURL(resolve, startURL, link) case _ => ""
  }

  function ByUrl(resolve: (string, string) -> string, startURL: string, content: string -> PageOutcome): nat -> PageOutcome {
    (k: nat) => content(ContentUrl(resolve, startURL, content, k))
  }

  /** The chain of `content` by URL is the chain of its pages by number. */
  lemma {:induction false} ByUrlIsContent(resolve: (string, string) -> string, startURL: string, content: string -> PageOutcome, k: nat)
    ensures UrlAt(resolve, startURL, ByUrl(resolve, startURL, content), k) == ContentUrl(resolve, startURL, content, k)
    decreases k
  {
    hide NextPageURL;
    if k == 0 {
    } else {
      ByUrlIsContent(resolve, startURL, content, k - 1);
    }
  }

  /** Against a registry that shows the fetcher, along the chain, what is a function of the URL, fetching lists that function. */
  lemma PagingByUrl(reg: Registry, host: string, repository: string, content: string -> PageOutcome)
    requires
      var startURL := StartURL(host, repository);
      var pages := ByUrl(reg.resolve, startURL, content);
      forall k: nat :: k < MAX_OCI_PAGES && ContentUrl(reg.resolve, startURL, content, k) != "" ==>
        var url := ContentUrl(reg.resolve, startURL, content, k);
        Shown(reg, host, repository, k, url, AuthAt(reg, host, repository, pages, k)) == content(url)
    ensures
      var startURL := StartURL(host, repository);
      Fetch(reg, host, repository).result == Listing(reg.resolve, startURL, ByUrl(reg.resolve, startURL, content))
  {
    hide Fetch, Listing, Shown, AuthAt, UrlAt, ContentUrl, StartURL;
    var pages := ByUrl(reg.resolve, StartURL(host, repository), content);
    forall k: nat | k < MAX_OCI_PAGES ensures ShowsPage(reg, host, repository, pages, k) {
      ByUrlIsContent(reg.resolve, StartURL(host, repository), content, k);
    }
    PagingRefinement(reg, host, repository, pages);
  }

  // ---------------------------------------------------------------- Authentication

  /** The chain is served openly up to a first challenge, whose grant opens that page and those after it. What a
      page past the first grant would answer anonymously, or grant, is of no account. */
  ghost predicate Serves(reg: Registry, host: string, repository: string, pages: nat -> PageOutcome) {
    && (forall k: nat :: k < MAX_OCI_PAGES ==> OpensUp(reg, host, repository, pages, k))
    && (forall j: nat, k: nat :: j <= k < MAX_OCI_PAGES ==> StaysOpen(reg, host, repository, pages, j, k))
  }

  /** To a visitor without authorisation, page `k` is itself, or challenges and grants. */
  predicate OpensUp(reg: Registry, host: string, repository: string, pages: nat -> PageOutcome, k: nat) {
    var url := ChainUrl(reg, host, repository, pages, k);
    if url == "" || !AuthAt(reg, host, repository, pages, k).Anonymous? then true
    else if Reply401(reg, k, url).Some? then Granted(reg, host, repository, k, url).Some?
    else Answered(reg, k, url, Anonymous) == pages(k)
  }

  /** What page `j` grants, if it is the first to grant, opens page `k`. */
  predicate StaysOpen(reg: Registry, host: string, repository: string, pages: nat -> PageOutcome, j: nat, k: nat) {
    var url := ChainUrl(reg, host, repository, pages, k);
    var granted := Granted(reg, host, repository, j, ChainUrl(reg, host, repository, pages, j));
    url != "" && AuthAt(reg, host, repository, pages, j).Anonymous? && granted.Some? ==>
      Answered(reg, k, url, granted.value) == pages(k)
  }

  lemma {:induction false} AuthIsGranted(reg: Registry, host: string, repository: string, pages: nat -> PageOutcome, k: nat)
    returns (door: nat)
    requires !AuthAt(reg, host, repository, pages, k).Anonymous?
    ensures door < k && AuthAt(reg, host, repository, pages, door).Anonymous?
    ensures Granted(reg, host, repository, door, ChainUrl(reg, host, repository, pages, door)) ==
            Some(AuthAt(reg, host, repository, pages, k))
    decreases k
  {
    hide Granted, ChainUrl;
    door := k - 1;
    if !AuthAt(reg, host, repository, pages, k - 1).Anonymous? {
      door := AuthIsGranted(reg, host, repository, pages, k - 1);
    }
  }

  lemma ServingShows(reg: Registry, host: string, repository: string, pages: nat -> PageOutcome)
    requires Serves(reg, host, repository, pages)
    ensures Shows(reg, host, repository, pages)
  {
    hide ChainUrl, AuthAt, Reply401, Answered;
    forall k: nat | k < MAX_OCI_PAGES ensures ShowsPage(reg, host, repository, pages, k) {
      assert OpensUp(reg, host, repository, pages, k);
      if AuthAt(reg, host, repository, pages, k).Anonymous? {
        assert StaysOpen(reg, host, repository, pages, k, k);
      } else {
        var door := AuthIsGranted(reg, host, repository, pages, k);
        assert StaysOpen(reg, host, repository, pages, door, k);
      }
    }
  }

  /** Along the chain, anyone is shown its pages without a challenge. */
  ghost predicate IsOpen(reg: Registry, host: string, repository: string, pages: nat -> PageOutcome) {
    forall k: nat :: k < MAX_OCI_PAGES ==> IsOpenAt(reg, host, repository, pages, k)
  }

  predicate IsOpenAt(reg: Registry, host: string, repository: string, pages: nat -> PageOutcome, k: nat) {
    var url := ChainUrl(reg, host, repository, pages, k);
    url != "" ==> Reply401(reg, k, url).None? && Answered(reg, k, url, Anonymous) == pages(k)
  }

  lemma {:induction false} OpenStaysAnonymous(reg: Registry, host: string, repository: string, pages: nat -> PageOutcome, k: nat)
    requires IsOpen(reg, host, repository, pages) && k < MAX_OCI_PAGES && ChainUrl(reg, host, repository, pages, k) != ""
    ensures AuthAt(reg, host, repository, pages, k) == Anonymous
    decreases k
  {
    hide Reply401, Answered;
    if k == 0 {
    } else {
      OpenStaysAnonymous(reg, host, repository, pages, k - 1);
      assert IsOpenAt(reg, host, repository, pages, k - 1);
    }
  }

  lemma OpenShows(reg: Registry, host: string, repository: string, pages: nat -> PageOutcome)
    requires IsOpen(reg, host, repository, pages)
    ensures Shows(reg, host, repository, pages)
  {
    hide Reply401, Answered, ChainUrl, AuthAt;
    forall k: nat | k < MAX_OCI_PAGES ensures ShowsPage(reg, host, repository, pages, k) {
      if ChainUrl(reg, host, repository, pages, k) != "" {
        OpenStaysAnonymous(reg, host, repository, pages, k);
        assert IsOpenAt(reg, host, repository, pages, k);
      }
    }
  }

  /** A registry that guards the pages of a chain, at any of them and in any way that its grants open up, yields
      the same tags, or the same error, as one that shows the same chain to anyone. */
  lemma AuthTransparency(guarded: Registry, open: Registry, host: string, repository: string, pages: nat -> PageOutcome)
    requires guarded.resolve == open.resolve
    requires IsOpen(open, host, repository, pages) && Serves(guarded, host, repository, pages)
    ensures Fetch(guarded, host, repository).result == Fetch(open, host, repository).result
  {
    hide Fetch, Listing, Shows, Serves, IsOpen;
    ServingShows(guarded, host, repository, pages);
    OpenShows(open, host, repository, pages);
    PagingRefinement(guarded, host, repository, pages);
    PagingRefinement(open, host, repository, pages);
  }

  lemma {:induction false} NoGrantYet(reg: Registry, host: string, repository: string, pages: nat -> PageOutcome, k: nat)
    requires forall i: nat :: i < k ==> Granted(reg, host, repository, i, ChainUrl(reg, host, repository, pages, i)).None?
    ensures AuthAt(reg, host, repository, pages, k) == Anonymous
    decreases k
  {
    hide Granted, ChainUrl;
    if k == 0 {
    } else {
      NoGrantYet(reg, host, repository, pages, k - 1);
    }
  }

  lemma {:induction false} ReachedContributes(resolve: (string, string) -> string, startURL: string, pages: nat -> PageOutcome,
                                              i: nat, k: nat)
    requires i < k && UrlAt(resolve, startURL, pages, k) != ""
    ensures Contributes(resolve, startURL, pages, i)
    decreases k
  {
    hide NextPageURL;
    if i == k - 1 {
    } else {
      ReachedContributes(resolve, startURL, pages, i, k - 1);
    }
  }

  lemma {:induction false} ChainEndIs(resolve: (string, string) -> string, startURL: string, pages: nat -> PageOutcome,
                                      k: nat, end: nat)
    requires k <= end < MAX_OCI_PAGES && !Contributes(resolve, startURL, pages, end)
    requires forall i :: k <= i < end ==> Contributes(resolve, startURL, pages, i)
    ensures ChainEnd(resolve, startURL, pages, k) == end
    decreases end - k
  {
    hide Contributes;
    if k == end {
    } else {
      ChainEndIs(resolve, startURL, pages, k + 1, end);
    }
  }

  /** If the first page of the chain that challenges refuses its grant, the fetch fails with that negotiation's error. */
  lemma RefusedGrant(reg: Registry, host: string, repository: string, k: nat)
    requires k < MAX_OCI_PAGES
    requires forall i: nat :: i < k ==> Granted(reg, host, repository, i, ArrivalAt(reg, host, repository, i).url).None?
    requires
      var url := ArrivalAt(reg, host, repository, k).url;
      url != "" && Reply401(reg, k, url).Some? && Granted(reg, host, repository, k, url).None?
    ensures
      var challenge := Reply401(reg, k, ArrivalAt(reg, host, repository, k).url).value;
      Fetch(reg, host, repository).result == Err(Authenticate(reg, challenge, host, repository).auth.error)
  {
    hide Fetch, Shows, UrlAt, StartURL, AuthAt, Reply401, Authenticate, ChainEnd, ArrivalAt, Granted, Seen;
    var startURL, pages := StartURL(host, repository), Seen(reg, host, repository);
    EveryRegistryShows(reg, host, repository);
    PagingRefinement(reg, host, repository, pages);
    SeenArrivals(reg, host, repository, k);
    forall i: nat | i < k ensures Granted(reg, host, repository, i, ChainUrl(reg, host, repository, pages, i)).None? {
      SeenArrivals(reg, host, repository, i);
    }
    NoGrantYet(reg, host, repository, pages, k);
    ShowsAt(reg, host, repository, pages, k);
    RefusalIsShown(reg, host, repository, k, ChainUrl(reg, host, repository, pages, k));
    forall i: nat | i < k ensures Contributes(reg.resolve, startURL, pages, i) {
      ReachedContributes(reg.resolve, startURL, pages, i, k);
    }
    ChainEndIs(reg.resolve, startURL, pages, 0, k);
  }

  lemma RefusalIsShown(reg: Registry, host: string, repository: string, page: nat, url: string)
    requires Reply401(reg, page, url).Some? && Granted(reg, host, repository, page, url).None?
    ensures
      var a := Authenticate(reg, Reply401(reg, page, url).value, host, repository).auth;
      a.Err? && Shown(reg, host, repository, page, url, Anonymous) == Broken(a.error)
  {
    hide Authenticate;
  }

  lemma ShowsAt(reg: Registry, host: string, repository: string, pages: nat -> PageOutcome, k: nat)
    requires Shows(reg, host, repository, pages) && k < MAX_OCI_PAGES
    ensures ShowsPage(reg, host, repository, pages, k)
  {
  }

  // ---------------------------------------------------------------- Not found

  /** Against any registry: the list is never empty, and chart-not-found is reported exactly when the chain of pages
      it shows ends without failure and without tags. */
  lemma NotFoundExactly(reg: Registry, host: string, repository: string)
    ensures
      var r := Fetch(reg, host, repository).result;
      var startURL, pages := StartURL(host, repository), Seen(reg, host, repository);
      && (r.Ok? ==> r.value != [])
      && (r == Err(ChartNotFound) <==>
            ChainFailure(reg.resolve, startURL, pages, 0).None? && ChainTags(reg.resolve, startURL, pages) == [])
  {
    hide Fetch, Shows, ChainTags, ChainFailure, StartURL, Seen;
    EveryRegistryShows(reg, host, repository);
    FetchingIsListing(reg, host, repository);
    ChainFailureIsNoSentinel(reg, host, repository, Seen(reg, host, repository));
  }

  lemma ChainFailureIsNoSentinel(reg: Registry, host: string, repository: string, pages: nat -> PageOutcome)
    requires Shows(reg, host, repository, pages)
    ensures
      var failure := ChainFailure(reg.resolve, StartURL(host, repository), pages, 0);
      failure.Some? ==> failure.value.Failure?
  {
    hide Shows, UrlAt, FetchPage, StartURL, AuthAt, Shown;
    var startURL := StartURL(host, repository);
    var end := ChainEnd(reg.resolve, startURL, pages, 0);
    var last := UrlAt(reg.resolve, startURL, pages, end);
    if end < MAX_OCI_PAGES && last != "" {
      ShowsAt(reg, host, repository, pages, end);
      ShownIsNoSentinel(reg, host, repository, end, last, AuthAt(reg, host, repository, pages, end));
    }
  }

  lemma ShownIsNoSentinel(reg: Registry, host: string, repository: string, page: nat, url: string, auth: Auth)
    ensures
      var outcome := Shown(reg, host, repository, page, url, auth);
      outcome.Broken? ==> outcome.error.Failure?
  {
    hide Authenticate;
    if Reply401(reg, page, url).Some? {
      AuthenticateGrants(reg, Reply401(reg, page, url).value, host, repository);
    }
  }
}
