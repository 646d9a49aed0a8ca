/**
 What the tag fetcher makes of the replies it gets, told from its requests and the registry's replies alone
 (`fetchTags` in `internal/resolver/oci_resolver.go`).
 */
module OciReplies {
  import opened Text
  import opened Model
  import opened RegistryHeaders
  import opened OciTags

  function ReplyTo(reg: Registry, c: Call): Reply
    requires c.TagCall?
  {
    reg.answer(c.page, c.url, c.auth)
  }

  /** The reply is a page that can be read. */
  predicate IsPage(reg: Registry, c: Call) {
    c.TagCall? && ReplyTo(reg, c).Success? && ReplyTo(reg, c).body.Tags?
  }

  /** The reply is the challenge to a request without authorisation. */
  predicate IsChallenge(reg: Registry, c: Call) {
    c.TagCall? && c.auth.Anonymous? && ReplyTo(reg, c).Unauthorized?
  }

  /** The tags of all the pages that came, in the order they came. */
  function TagsHeard(reg: Registry, calls: seq<Call>): seq<string> {
    if calls == [] then []
    else (if IsPage(reg, calls[0]) then ReplyTo(reg, calls[0]).body.tags else []) + TagsHeard(reg, calls[1..])
  }

  /** The collected tags, or chart-not-found if there are none. */
  predicate IsCollection(result: Result<seq<string>, ResolveError>, tags: seq<string>) {
    if tags == [] then result == Err(ChartNotFound) else result == Ok(tags)
  }

  /** How the fetch ends after its last request: the reply decides. */
  predicate Ends(reg: Registry, startURL: string, result: Result<seq<string>, ResolveError>, last: Call, heard: seq<string>) {
    match last
    case TokenCall(_, _) => result.Err? && result.error.Failure?
    case TagCall(page, url, auth) =>
      match reg.answer(page, url, auth)
      case NoReply => result == Err(Failure(Transport))
      case Unauthorized(_) =>
        if auth.Anonymous? then result.Err? && result.error.Failure? else result == Err(Failure(Status(401)))
      case NotFound => IsCollection(result, heard)
      case OtherStatus(code) => result == Err(Failure(Status(code)))
      case Success(Unreadable, _) => result == Err(Failure(ReadBody))
      case Success(Undecodable, _) => result == Err(Failure(Decode))
      case Success(Tags(_), link) =>
        var next := NextPageURL(reg.resolve, startURL, link);
        if page + 1 < 50 && next != "" then !reg.buildable(next) && result == Err(Failure(BuildRequest))
        else IsCollection(result, heard)
  }

  /** The whole story of a fetch: every reply but the last is a page or the first challenge, the last one decides. */
  ghost predicate Tells(reg: Registry, startURL: string, url: string, page: nat, all: seq<string>,
                        result: Result<seq<string>, ResolveError>, calls: seq<Call>) {
    && (forall i :: 0 <= i < |calls| - 1 ==> calls[i].TokenCall? || IsPage(reg, calls[i]) || IsChallenge(reg, calls[i]))
    && (calls != [] ==> Ends(reg, startURL, result, calls[|calls| - 1], all + TagsHeard(reg, calls)))
    && (calls == [] ==>
          if page < 50 && url != "" then !reg.buildable(url) && result == Err(Failure(BuildRequest)) else IsCollection(result, all))
  }

  lemma {:induction false} HeardConcat(reg: Registry, a: seq<Call>, b: seq<Call>)
    ensures TagsHeard(reg, a + b) == TagsHeard(reg, a) + TagsHeard(reg, b)
    decreases |a|
  {
    hide IsPage;
    if a == [] {
      assert a + b == b;
    } else {
      assert (a + b)[1..] == a[1..] + b;
      HeardConcat(reg, a[1..], b);
    }
  }

  lemma {:induction false} NoPagesNoTags(reg: Registry, calls: seq<Call>)
    requires forall c :: c in calls ==> !IsPage(reg, c)
    ensures TagsHeard(reg, calls) == []
    decreases |calls|
  {
    hide IsPage;
    if calls == [] {
    } else {
      assert calls[0] in calls;
      NoPagesNoTags(reg, calls[1..]);
    }
  }

  /** What a page that was asked for leaves: its last request decides, and no earlier one is a page. */
  ghost predicate PageTells(reg: Registry, page: nat, run: PageRun) {
    && (forall i :: 0 <= i < |run.calls| - 1 ==> run.calls[i].TokenCall? || IsChallenge(reg, run.calls[i]))
    && run.calls != []
    && var last := run.calls[|run.calls| - 1];
       match last
       case TokenCall(_, _) => run.outcome.Broken? && run.outcome.error.Failure?
       case TagCall(n, url, auth) =>
         && n == page
         && match reg.answer(n, url, auth)
            case NoReply => run.outcome == Broken(Failure(Transport))
            case Unauthorized(_) =>
              if auth.Anonymous? then run.outcome.Broken? && run.outcome.error.Failure? else run.outcome == Broken(Failure(Status(401)))
            case NotFound => run.outcome == Gone
            case OtherStatus(code) => run.outcome == Broken(Failure(Status(code)))
            case Success(Unreadable, _) => run.outcome == Broken(Failure(ReadBody))
            case Success(Undecodable, _) => run.outcome == Broken(Failure(Decode))
            case Success(Tags(tags), link) => run.outcome == Page(tags, link)
  }

  lemma FetchedPageTells(reg: Registry, host: string, repository: string, page: nat, url: string, auth: Auth)
    ensures
      var run := FetchPage(reg, host, repository, page, url, auth);
      if reg.buildable(url) then PageTells(reg, page, run) else run.calls == [] && run.outcome == Broken(Failure(BuildRequest))
  {
    hide Authenticate;
    PageCases(reg, host, repository, page, url, auth);
    if reg.buildable(url) && Challenged(reg, page, url, auth) {
      var a := Authenticate(reg, reg.answer(page, url, auth).challenge, host, repository);
      AuthenticateGrants(reg, reg.answer(page, url, auth).challenge, host, repository);
      var run, first := FetchPage(reg, host, repository, page, url, auth), TagCall(page, url, auth);
      assert IsChallenge(reg, first) && run.calls[0] == first;
      if a.calls == [] {
        assert run.calls == if a.auth.Ok? then [first, TagCall(page, url, run.auth)] else [first];
      } else {
        assert a.calls[0] in a.calls && a.calls[0].TokenCall?;
        assert run.calls == if a.auth.Ok? then [first, a.calls[0], TagCall(page, url, run.auth)] else [first, a.calls[0]];
      }
    }
  }

  /** The tags a page's requests bring: those of its last one, if that is a page. */
  lemma PageHeard(reg: Registry, page: nat, run: PageRun)
    requires PageTells(reg, page, run)
    ensures TagsHeard(reg, run.calls) == if run.outcome.Page? then run.outcome.tags else []
    ensures IsPage(reg, run.calls[|run.calls| - 1]) <==> run.outcome.Page?
  {
    var n := |run.calls| - 1;
    var front, last := run.calls[..n], run.calls[n];
    assert run.calls == front + [last];
    forall c | c in front ensures !IsPage(reg, c) {
      var i :| 0 <= i < n && run.calls[i] == c;
    }
    NoPagesNoTags(reg, front);
    HeardConcat(reg, front, [last]);
    assert TagsHeard(reg, [last][1..]) == [];
  }

  /** A page after which the chain ends, with or without a failure. */
  lemma LastPageTells(reg: Registry, host: string, repository: string, startURL: string, url: string, page: nat, all: seq<string>,
                      run: PageRun, result: Result<seq<string>, ResolveError>)
    requires PageTells(reg, page, run) && !run.outcome.Page?
    requires match run.outcome case Broken(e) => result == Err(e) case Gone => result == Collected(all) case _ => false
    ensures Tells(reg, startURL, url, page, all, result, run.calls)
  {
    hide TagsHeard;
    PageHeard(reg, page, run);
    assert all + [] == all;
  }

  /** A page followed by the rest of the chain. */
  lemma EarlierPageTells(reg: Registry, startURL: string, url: string, page: nat, all: seq<string>,
                         run: PageRun, next: string, result: Result<seq<string>, ResolveError>, rest: seq<Call>)
    requires PageTells(reg, page, run) && run.outcome.Page?
    requires next == NextPageURL(reg.resolve, startURL, run.outcome.link)
    requires Tells(reg, startURL, next, page + 1, all + run.outcome.tags, result, rest)
    ensures Tells(reg, startURL, url, page, all, result, run.calls + rest)
  {
    hide TagsHeard, NextPageURL, IsCollection;
    PageHeard(reg, page, run);
    HeardConcat(reg, run.calls, rest);
    var calls, n := run.calls + rest, |run.calls|;
    assert all + (run.outcome.tags + TagsHeard(reg, rest)) == all + run.outcome.tags + TagsHeard(reg, rest);
    if rest == [] {
      assert calls == run.calls;
      NothingHeard(reg);
      assert all + run.outcome.tags + [] == all + run.outcome.tags;
    } else {
      hide PageTells;
      assert calls[|calls| - 1] == rest[|rest| - 1];
      forall i | 0 <= i < |calls| - 1
        ensures calls[i].TokenCall? || IsPage(reg, calls[i]) || IsChallenge(reg, calls[i])
      {
        if i >= n { assert calls[i] == rest[i - n]; } else { EarlierReply(reg, page, run, i); }
      }
    }
  }

  lemma NothingHeard(reg: Registry)
    ensures TagsHeard(reg, []) == []
  {
  }

  lemma EarlierReply(reg: Registry, page: nat, run: PageRun, i: nat)
    requires PageTells(reg, page, run) && run.outcome.Page? && i < |run.calls|
    ensures run.calls[i].TokenCall? || IsPage(reg, run.calls[i]) || IsChallenge(reg, run.calls[i])
  {
    hide TagsHeard;
    PageHeard(reg, page, run);
  }

  lemma {:induction false} FetchFromTells(reg: Registry, host: string, repository: string, startURL: string,
                                          auth: Auth, url: string, page: nat, all: seq<string>)
    ensures
      var run := FetchFrom(reg, host, repository, startURL, auth, url, page, all);
      Tells(reg, startURL, url, page, all, run.result, run.calls)
    decreases 50 - page
  {
    hide FetchPage, FetchFrom, NextPageURL, Tells, PageTells;
    if page >= 50 || url == "" {
      FetchEnd(reg, host, repository, startURL, auth, url, page, all);
      NoCallsTell(reg, startURL, url, page, all);
    } else {
      var run := FetchPage(reg, host, repository, page, url, auth);
      FetchedPageTells(reg, host, repository, page, url, auth);
      FetchStep(reg, host, repository, startURL, auth, url, page, all);
      if !reg.buildable(url) {
        UnbuildableTells(reg, startURL, url, page, all);
      } else if run.outcome.Page? {
        var next := NextPageURL(reg.resolve, startURL, run.outcome.link);
        var rest := FetchFrom(reg, host, repository, startURL, run.auth, next, page + 1, all + run.outcome.tags);
        FetchFromTells(reg, host, repository, startURL, run.auth, next, page + 1, all + run.outcome.tags);
        EarlierPageTells(reg, startURL, url, page, all, run, next, rest.result, rest.calls);
      } else {
        LastPageTells(reg, host, repository, startURL, url, page, all, run,
                      FetchFrom(reg, host, repository, startURL, auth, url, page, all).result);
      }
    }
  }

  lemma NoCallsTell(reg: Registry, startURL: string, url: string, page: nat, all: seq<string>)
    requires page >= 50 || url == ""
    ensures Tells(reg, startURL, url, page, all, Collected(all), [])
  {
  }

  lemma UnbuildableTells(reg: Registry, startURL: string, url: string, page: nat, all: seq<string>)
    requires page < 50 && url != "" && !reg.buildable(url)
    ensures Tells(reg, startURL, url, page, all, Err(Failure(BuildRequest)), [])
  {
  }

  /** Against any registry, the replies decide the result. Every reply but the last is a page or the first challenge.
      The last one is a failure of exactly its own cause if it is no reply, another status, a second 401, or a body that
      cannot be read or decoded; after a 404, or a page that no other follows, the tags of all pages are returned,
      or chart-not-found if there are none. The first request is for the list of the repository's tags. */
  lemma RepliesDecide(reg: Registry, host: string, repository: string)
    ensures
      var startURL := "https://" + host + "/v2/" + repository + "/tags/list";
      var (r, calls) := (Fetch(reg, host, repository).result, Fetch(reg, host, repository).calls);
      && (forall i :: 0 <= i < |calls| - 1 ==> calls[i].TokenCall? || IsPage(reg, calls[i]) || IsChallenge(reg, calls[i]))
      && (if reg.buildable(startURL)
          then
            && calls != [] && calls[0] == TagCall(0, startURL, Anonymous)
            && Ends(reg, startURL, r, calls[|calls| - 1], TagsHeard(reg, calls))
          else calls == [] && r == Err(Failure(BuildRequest)))
  {
    hide FetchPage, FetchFrom, Ends, TagsHeard, IsPage, IsChallenge, PageTells;
    var startURL := StartURL(host, repository);
    FetchFromTells(reg, host, repository, startURL, Anonymous, startURL, 0, []);
    var calls := Fetch(reg, host, repository).calls;
    assert [] + TagsHeard(reg, calls) == TagsHeard(reg, calls);
    FetchStep(reg, host, repository, startURL, Anonymous, startURL, 0, []);
    FirstRequest(reg, host, repository, startURL);
    FetchedPageTells(reg, host, repository, 0, startURL, Anonymous);
  }

  lemma FirstRequest(reg: Registry, host: string, repository: string, url: string)
    ensures
      var calls := FetchPage(reg, host, repository, 0, url, Anonymous).calls;
      if reg.buildable(url) then calls != [] && calls[0] == TagCall(0, url, Anonymous) else calls == []
  {
    hide Authenticate;
    PageCases(reg, host, repository, 0, url, Anonymous);
  }

  /** So tags are returned only after a 404 or a page that no other follows, and are then those of all pages; and
      chart-not-found only in the same two cases, when no page had any. */
  lemma SuccessExactly(reg: Registry, host: string, repository: string)
    ensures
      var (r, calls) := (Fetch(reg, host, repository).result, Fetch(reg, host, repository).calls);
      r.Ok? || r == Err(ChartNotFound) ==>
        && calls != [] && calls[|calls| - 1].TagCall?
        && (ReplyTo(reg, calls[|calls| - 1]).NotFound? || IsPage(reg, calls[|calls| - 1]))
        && IsCollection(r, TagsHeard(reg, calls))
  {
    hide Fetch, TagsHeard, NextPageURL;
    RepliesDecide(reg, host, repository);
  }
}
