/**
 The caching OCI resolver: `ResolveLatest`, `cachedTags`, `storeTags` and `parseOCIRepo`
 in `internal/resolver/oci_resolver.go`. Clock readings are arguments.
 */
module OciResolver {
  import opened Text
  import opened Model
  import opened SemVer
  import Tags
  import opened OciTags

  datatype Target = Target(host: string, repository: string)

  datatype CacheEntry = CacheEntry(tags: seq<string>, expiresAt: int)

  type Cache = map<string, CacheEntry>

  const DEFAULT_TTL: int := 300

  /** The host up to the first slash, and the path after it. */
  function SplitAddress(rest: string): (string, string) {
    var idx := Index(rest, '/');
    if idx == -1 then (rest, "") else (rest[..idx], TrimBy(rest[idx + 1..], IsSlash))
  }

  function ParseOCIRepo(repoURL: string): Result<(string, string), ResolveError> {
    var trimmed := TrimSpace(repoURL);
    if trimmed == "" then Err(Failure(MissingArgument))
    else
      var bare := TrimPrefix(TrimPrefix(TrimPrefix(trimmed, "oci://"), "https://"), "http://");
      var rest := TrimBy(bare, IsSlash);
      if rest == "" then Err(Failure(EmptyRepository)) else Ok(SplitAddress(rest))
  }

  /** The artifact a chart of a repository is stored under. */
  function TargetOf(repoURL: string, chartName: string): Result<Target, ResolveError> {
    match ParseOCIRepo(repoURL)
    case Err(e) => Err(e)
    case Ok((host, path)) =>
      var chart := TrimSpace(chartName);
      if chart == "" then Err(Failure(MissingArgument))
      else Ok(Target(host, TrimBy(TrimBy(path, IsSlash) + "/" + chart, IsSlash)))
  }

  function CacheKey(t: Target): string {
    t.host + "/" + t.repository
  }

  /** The cached tags, unless there are none or they have expired. */
  function CachedTags(cache: Cache, key: string, now: int): Option<seq<string>> {
    if key in cache && now <= cache[key].expiresAt then Some(cache[key].tags) else None
  }

  function StoreTags(cache: Cache, key: string, tags: seq<string>, now: int, ttl: int): Cache {
    cache[key := CacheEntry(tags, now + ttl)]
  }

  /** What resolving without any cache would answer. */
  function Uncached(core: CoreParser, reg: Registry, repoURL: string, chartName: string): Result<string, ResolveError> {
    match TargetOf(repoURL, chartName)
    case Err(e) => Err(e)
    case Ok(t) =>
      match Fetch(reg, t.host, t.repository).result
      case Err(e) => Err(e)
      case Ok(tags) => Tags.PickLatest(core, tags)
  }

  lemma ParsedHostIsSlashFree(repoURL: string)
    ensures ParseOCIRepo(repoURL).Ok? ==> '/' !in ParseOCIRepo(repoURL).value.0 && ParseOCIRepo(repoURL).value.0 != ""
  {
    hide TrimSpace, TrimPrefix, TrimBy;
    var trimmed := TrimSpace(repoURL);
    var bare := TrimPrefix(TrimPrefix(TrimPrefix(trimmed, "oci://"), "https://"), "http://");
    var i, j := TrimBySlice(bare, IsSlash);
  }

  function HostAndPath(host: string, path: string): string {
    if path == "" then host else host + "/" + path
  }

  lemma HasNoScheme(host: string, path: string, scheme: string)
    requires host != "" && '/' !in host && Trimmed(path, IsSlash)
    requires scheme == "oci://" || scheme == "https://" || scheme == "http://"
    ensures !(scheme <= HostAndPath(host, path))
  {
    var text, k := HostAndPath(host, path), |scheme| - 2;
    assert path != "" ==> text[|host|] == '/' && text[|host| + 1] == path[0];
    assert forall i :: 0 <= i < |host| ==> text[i] == host[i] && host[i] in host;
    if k + 1 < |text| {
      assert k <= |host| ==> !(text[k] == '/' && text[k + 1] == '/');
      assert k > |host| && path != "" ==> text[|host|] != scheme[|host|];
    }
  }

  /** A repository's host and path are recovered from its address, with or without a scheme. */
  lemma AddressRoundTrip(scheme: string, host: string, path: string)
    requires scheme == "" || scheme == "oci://" || scheme == "https://" || scheme == "http://"
    requires host != "" && '/' !in host && Trimmed(path, IsSlash)
    requires Trimmed(scheme + HostAndPath(host, path), IsSpace)
    ensures ParseOCIRepo(scheme + HostAndPath(host, path)) == Ok((host, path))
  {
    hide IsSpace, TrimBy, TrimPrefix, HostAndPath, SplitAddress;
    var text := HostAndPath(host, path);
    TrimByKeeps(scheme + text, IsSpace);
    HasNoScheme(host, path, "oci://");
    HasNoScheme(host, path, "https://");
    HasNoScheme(host, path, "http://");
    SchemeIsStripped(scheme, text);
    TextIsSlashTrimmed(host, path);
    SplitAddressRoundTrip(host, path);
  }

  lemma SplitAddressRoundTrip(host: string, path: string)
    requires host != "" && '/' !in host && Trimmed(path, IsSlash)
    ensures SplitAddress(HostAndPath(host, path)) == (host, path) && HostAndPath(host, path) != ""
  {
    hide TrimBy, Index;
    var text := HostAndPath(host, path);
    if path != "" {
      IndexOfHead(host, '/', path);
      assert text == host + ['/'] + path;
      assert text[..|host|] == host && text[|host| + 1..] == path;
      TrimByKeeps(path, IsSlash);
    }
  }

  /** A chart is stored under its own name below the path of its repository, if that has one. */
  lemma ArtifactAddress(scheme: string, host: string, path: string, chart: string)
    requires scheme == "" || scheme == "oci://" || scheme == "https://" || scheme == "http://"
    requires host != "" && '/' !in host && Trimmed(path, IsSlash)
    requires Trimmed(scheme + HostAndPath(host, path), IsSpace)
    requires chart != "" && Trimmed(chart, IsSpace) && Trimmed(chart, IsSlash)
    ensures
      TargetOf(scheme + HostAndPath(host, path), chart) == Ok(Target(host, if path == "" then chart else path + "/" + chart))
  {
    hide IsSpace, TrimBy, HostAndPath, ParseOCIRepo;
    AddressRoundTrip(scheme, host, path);
    TrimByKeeps(chart, IsSpace);
    TrimByKeeps(path, IsSlash);
    if path == "" {
      TrimByCore("/", chart, "", IsSlash);
      assert "" + "/" + chart == "/" + chart + "";
    } else {
      var text := path + "/" + chart;
      assert text[0] == path[0] && text[|text| - 1] == chart[|chart| - 1];
      TrimByKeeps(text, IsSlash);
    }
  }

  ghost predicate Slashes(s: string) { Only(s, IsSlash) }

  ghost predicate HttpSlashes(s: string) { Slashes(s) || ("http://" <= s && Slashes(s[7..])) }

  ghost predicate HttpsSlashes(s: string) { HttpSlashes(s) || ("https://" <= s && HttpSlashes(s[8..])) }

  /** Nothing but slashes, and before them schemes in the one order in which they are all stripped. */
  ghost predicate NamesNoHost(s: string) { HttpsSlashes(s) || ("oci://" <= s && HttpsSlashes(s[6..])) }

  lemma StrippedAway(s: string)
    ensures NamesNoHost(s) <==> Slashes(TrimPrefix(TrimPrefix(TrimPrefix(s, "oci://"), "https://"), "http://"))
  {
    hide Slashes, TrimPrefix, HttpSlashes, HttpsSlashes;
    OciIsStripped(s);
    HttpsIsStripped(TrimPrefix(s, "oci://"));
    HttpIsStripped(TrimPrefix(TrimPrefix(s, "oci://"), "https://"));
  }

  lemma HttpIsStripped(s: string)
    ensures HttpSlashes(s) <==> Slashes(TrimPrefix(s, "http://"))
  {
    hide Slashes;
    LeadingCharacter(s);
    assert "http://" <= s ==> s[0] == "http://"[0];
  }

  lemma HttpsIsStripped(s: string)
    ensures HttpsSlashes(s) <==> HttpSlashes(TrimPrefix(s, "https://"))
  {
    hide Slashes;
    LeadingCharacter(s);
    assert "https://" <= s ==> s[0] == "https://"[0] && s[4] == "https://"[4];
    assert "http://" <= s ==> s[4] == "http://"[4];
  }

  lemma OciIsStripped(s: string)
    ensures NamesNoHost(s) <==> HttpsSlashes(TrimPrefix(s, "oci://"))
  {
    hide Slashes;
    LeadingCharacter(s);
    assert "oci://" <= s ==> s[0] == "oci://"[0];
    assert "https://" <= s ==> s[0] == "https://"[0];
    assert "http://" <= s ==> s[0] == "http://"[0];
  }

  lemma LeadingCharacter(s: string)
    ensures s != "" && Slashes(s) ==> s[0] == '/'
  {
    assert s != "" ==> s[0] in s;
  }

  /** An address is refused when it is blank or names no host, and after it a blank chart name; nothing else is. */
  lemma RefusedExactly(repoURL: string, chartName: string)
    ensures
      var t := TargetOf(repoURL, chartName);
      if Only(repoURL, IsSpace) then t == Err(Failure(MissingArgument))
      else if NamesNoHost(TrimSpace(repoURL)) then t == Err(Failure(EmptyRepository))
      else if Only(chartName, IsSpace) then t == Err(Failure(MissingArgument))
      else t.Ok?
  {
    hide IsSpace, TrimBy, TrimPrefix, NamesNoHost, SplitAddress, Only;
    var bare := TrimPrefix(TrimPrefix(TrimPrefix(TrimSpace(repoURL), "oci://"), "https://"), "http://");
    TrimsAway(repoURL, IsSpace);
    TrimsAway(chartName, IsSpace);
    StrippedAway(TrimSpace(repoURL));
    assert Slashes(bare) <==> Only(bare, IsSlash);
    TrimsAway(bare, IsSlash);
  }

  lemma SchemeIsStripped(scheme: string, text: string)
    requires scheme == "" || scheme == "oci://" || scheme == "https://" || scheme == "http://"
    requires !("oci://" <= text) && !("https://" <= text) && !("http://" <= text)
    ensures TrimPrefix(TrimPrefix(TrimPrefix(scheme + text, "oci://"), "https://"), "http://") == text
  {
    assert "" + text == text;
    if scheme != "" {
      var whole := scheme + text;
      assert scheme <= whole && whole[|scheme|..] == text;
      assert whole[0] == scheme[0] && whole[4] == scheme[4];
      if scheme == "http://" { assert !("https://" <= whole) && !("oci://" <= whole); }
      if scheme == "https://" { assert !("oci://" <= whole); }
    }
  }

  lemma TextIsSlashTrimmed(host: string, path: string)
    requires host != "" && '/' !in host && Trimmed(path, IsSlash)
    ensures TrimBy(HostAndPath(host, path), IsSlash) == HostAndPath(host, path)
  {
    var text := HostAndPath(host, path);
    assert text[0] == host[0] && host[0] in host && host[|host| - 1] in host;
    TrimByKeeps(text, IsSlash);
  }

  lemma CacheKeyText(t: Target)
    ensures CacheKey(t) == t.host + "/" + t.repository
  {
  }

  /** Slash-free hosts make the cache key of an artifact its own. */
  lemma CacheKeyIsInjective(a: Target, b: Target)
    requires '/' !in a.host && '/' !in b.host && CacheKey(a) == CacheKey(b)
    ensures a == b
  {
    IndexOfHead(a.host, '/', a.repository);
    IndexOfHead(b.host, '/', b.repository);
    var key := CacheKey(a);
    assert key == a.host + ['/'] + a.repository == b.host + ['/'] + b.repository;
    assert key[..|a.host|] == a.host && key[|a.host| + 1..] == a.repository;
    assert key[..|b.host|] == b.host && key[|b.host| + 1..] == b.repository;
  }

  /** Every cached entry is what the registry would answer for each artifact stored under its key. */
  ghost predicate Faithful(reg: Registry, cache: Cache) {
    forall t: Target :: '/' !in t.host && CacheKey(t) in cache ==>
      Fetch(reg, t.host, t.repository).result == Ok(cache[CacheKey(t)].tags)
  }

  lemma StoringKeepsFaith(reg: Registry, cache: Cache, t: Target, tags: seq<string>, now: int, ttl: int)
    requires Faithful(reg, cache) && '/' !in t.host
    requires Fetch(reg, t.host, t.repository).result == Ok(tags)
    ensures Faithful(reg, StoreTags(cache, CacheKey(t), tags, now, ttl))
  {
    hide CacheKey, Fetch;
    var stored := StoreTags(cache, CacheKey(t), tags, now, ttl);
    forall u: Target | '/' !in u.host && CacheKey(u) in stored
      ensures Fetch(reg, u.host, u.repository).result == Ok(stored[CacheKey(u)].tags)
    {
      if CacheKey(u) == CacheKey(t) {
        CacheKeyIsInjective(u, t);
      }
    }
  }

  class OCIResolver {
    const core: CoreParser
    const reg: Registry
    const ttl: int
    var cache: Cache

    constructor (core: CoreParser, reg: Registry, ttl: int)
      ensures cache == map[] && this.core == core && this.reg == reg
      ensures this.ttl == (if ttl <= 0 then 300 else ttl)
      ensures Faithful(reg, cache)
    {
      this.core := core;
      this.reg := reg;
      this.ttl := if ttl <= 0 then DEFAULT_TTL else ttl;
      cache := map[];
    }

    /** Resolves from the cache while its entry is alive and from the registry otherwise. With a
        faithful cache the answer is the uncached one; a failure leaves the cache as it was. */
    method ResolveLatest(repoURL: string, chartName: string, lookupAt: int, storeAt: int)
      returns (r: Result<string, ResolveError>)
      modifies this`cache
      ensures Faithful(reg, old(cache)) ==> r == Uncached(core, reg, repoURL, chartName) && Faithful(reg, cache)
      ensures TargetOf(repoURL, chartName).Err? ==> r == Err(TargetOf(repoURL, chartName).error) && cache == old(cache)
      ensures TargetOf(repoURL, chartName).Ok? ==>
                var t := TargetOf(repoURL, chartName).value;
                var key := t.host + "/" + t.repository;
                if key in old(cache) && lookupAt <= old(cache)[key].expiresAt
                then r == Tags.PickLatest(core, old(cache)[key].tags) && cache == old(cache)
                else
                  var fetched := Fetch(reg, t.host, t.repository).result;
                  if fetched.Err? then r == Err(fetched.error) && cache == old(cache)
                  else
                    && r == Tags.PickLatest(core, fetched.value)
                    && cache == old(cache)[key := CacheEntry(fetched.value, storeAt + ttl)]
    {
      hide Fetch, ParseOCIRepo, CacheKey, Tags.PickLatest, TrimBy;
      ParsedHostIsSlashFree(repoURL);
      var parsed := ParseOCIRepo(repoURL);
      if parsed.Err? {
        return Err(parsed.error);
      }
      var (host, path) := parsed.value;
      var chart := TrimSpace(chartName);
      if chart == "" {
        return Err(Failure(MissingArgument));
      }
      var repository := TrimBy(TrimBy(path, IsSlash) + "/" + chart, IsSlash);
      var target := Target(host, repository);
      var key := CacheKey(target);
      CacheKeyText(target);
      var cached := CachedTags(cache, key, lookupAt);
      if cached.Some? {
        r := Tags.PickLatestSemverTag(core, cached.value);
        return;
      }
      var fetched, _ := FetchTags(reg, host, repository);
      if fetched.Err? {
        return Err(fetched.error);
      }
      if Faithful(reg, cache) {
        StoringKeepsFaith(reg, cache, target, fetched.value, storeAt, ttl);
      }
      cache := StoreTags(cache, key, fetched.value, storeAt, ttl);
      r := Tags.PickLatestSemverTag(core, fetched.value);
    }
  }
}
