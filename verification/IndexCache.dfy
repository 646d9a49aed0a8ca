/**
 The index cache of the repository resolver (`internal/resolver/repository_resolver.go`):
 its sequential behaviour, and its lock-by-lock behaviour when calls overlap.
 */
module IndexCache {
  import opened Text
  import opened Model

  type Charts = map<string, seq<string>>

  datatype Entry = Entry(repoURL: string, fetchedAt: int, expiresAt: int, charts: Charts, lastError: Option<ResolveError>)

  type Cache = map<string, Entry>

  /** What asking for an index comes to: its charts, or the reason there are none. */
  type Answer = Result<Charts, ResolveError>

  // ---------------------------------------------------------------- Decoded indexes

  function NonBlank(versions: seq<string>): seq<string> {
    if versions == [] then []
    else
      var last := versions[|versions| - 1];
      NonBlank(versions[..|versions| - 1]) + if TrimSpace(last) == "" then [] else [last]
  }

  /** `kept` lists in order the positions of exactly the versions that are not blank, and `texts` those versions. */
  ghost predicate ListsNonBlank(kept: seq<nat>, texts: seq<string>, versions: seq<string>) {
    && |kept| == |texts|
    && (forall i :: 0 <= i < |kept| ==> kept[i] < |versions| && versions[kept[i]] == texts[i])
    && (forall i, j :: 0 <= i < j < |kept| ==> kept[i] < kept[j])
    && (forall k: nat :: k < |versions| ==> (k in kept <==> TrimSpace(versions[k]) != ""))
  }

  lemma ListsOneMore(kept: seq<nat>, texts: seq<string>, front: seq<string>, last: string)
    requires ListsNonBlank(kept, texts, front)
    ensures TrimSpace(last) == "" ==> ListsNonBlank(kept, texts, front + [last])
    ensures TrimSpace(last) != "" ==> ListsNonBlank(kept + [|front|], texts + [last], front + [last])
  {
    hide TrimSpace;
    var n := |front|;
    assert n !in kept;
    forall k: nat ensures k in kept + [n] <==> k in kept || k == n { }
  }

  /** Dropping the blank versions keeps exactly the others, in order. */
  lemma {:induction false} NonBlankKeeps(versions: seq<string>) returns (kept: seq<nat>)
    ensures ListsNonBlank(kept, NonBlank(versions), versions)
    decreases |versions|
  {
    hide TrimSpace;
    kept := [];
    if versions == [] {
    } else {
      hide ListsNonBlank;
      var n := |versions| - 1;
      kept := NonBlankKeeps(versions[..n]);
      ListsOneMore(kept, NonBlank(versions[..n]), versions[..n], versions[n]);
      assert versions[..n] + [versions[n]] == versions;
      assert NonBlank(versions[..n]) + [] == NonBlank(versions[..n]);
      if TrimSpace(versions[n]) != "" {
        kept := kept + [n];
      }
    }
  }

  /** The charts of a decoded index: blank versions dropped, and charts left without versions. */
  function IndexCharts(entries: map<string, seq<string>>): Charts {
    map name | name in entries && NonBlank(entries[name]) != [] :: NonBlank(entries[name])
  }

  method ParseRepoIndex(entries: map<string, seq<string>>) returns (out: Charts)
    ensures out == IndexCharts(entries)
  {
    hide TrimSpace;
    out := map[];
    // Map iteration takes the keys in any order.
    var remaining := entries.Keys;
    while remaining != {}
      invariant remaining <= entries.Keys
      invariant out == map name | name in entries.Keys - remaining && NonBlank(entries[name]) != [] :: NonBlank(entries[name])
      decreases remaining
    {
      var name :| name in remaining;
      var versions: seq<string> := [];
      for i := 0 to |entries[name]|
        invariant versions == NonBlank(entries[name][..i])
      {
        assert entries[name][..i + 1][..i] == entries[name][..i];
        if TrimSpace(entries[name][i]) == "" { continue; }
        versions := versions + [entries[name][i]];
      }
      assert entries[name][..|entries[name]|] == entries[name];
      if |versions| > 0 {
        out := out[name := versions];
      }
      remaining := remaining - {name};
    }
  }

  // ---------------------------------------------------------------- One call at a time

  predicate Fresh(cache: Cache, url: string, now: int) {
    url in cache && now <= cache[url].expiresAt
  }

  /** `getOrRefresh` without interference: `lookAt` and `stampAt` are its two clock readings,
      `answer` is what the repository answers if asked. */
  function GetOrRefresh(cache: Cache, url: string, lookAt: int, answer: Answer, stampAt: int, ttl: int)
    : (Result<Entry, ResolveError>, Cache)
  {
    if Fresh(cache, url, lookAt) then (Ok(cache[url]), cache)
    else
      match answer
      case Ok(charts) =>
        var entry := Entry(url, stampAt, stampAt + ttl, charts, None);
        (Ok(entry), cache[url := entry])
      case Err(e) =>
        if url in cache then
          var stale := cache[url].(lastError := Some(e));
          (Ok(stale), cache[url := stale])
        else (Err(e), cache)
  }

  function FirstVersion(charts: Charts, chartName: string): Result<string, ResolveError> {
    if chartName !in charts || charts[chartName] == [] then Err(ChartNotFound) else Ok(charts[chartName][0])
  }

  /** Arguments the resolver refuses before it looks at its cache. */
  function Refusal(url: string, chartName: string): Option<ResolveError> {
    if url == "" || chartName == "" then Some(Failure(MissingArgument))
    else if HasPrefix(url, "oci://") then Some(UnsupportedRepo)
    else None
  }

  /** What resolving without any cache would answer. */
  function Uncached(answer: Answer, url: string, chartName: string): Result<string, ResolveError> {
    match Refusal(url, chartName)
    case Some(e) => Err(e)
    case None =>
      match answer
      case Err(e) => Err(e)
      case Ok(charts) => FirstVersion(charts, chartName)
  }

  /** What a look-up comes to, by the age of the entry and the answer of the repository: an entry answers as long as its
      lifetime lasts, the last moment included; after that, and without one, the repository does; if it fails, an old
      entry answers, marked with the failure and otherwise as it was, and without one the failure. */
  lemma LookupByAge(cache: Cache, url: string, lookAt: int, answer: Answer, stampAt: int, ttl: int)
    ensures
      var (r, after) := GetOrRefresh(cache, url, lookAt, answer, stampAt, ttl);
      && (url in cache && lookAt <= cache[url].expiresAt ==> r == Ok(cache[url]) && after == cache)
      && (url !in cache || lookAt > cache[url].expiresAt ==>
            && (answer.Ok? ==> r == Ok(Entry(url, stampAt, stampAt + ttl, answer.value, None)) && after == cache[url := r.value])
            && (answer.Err? && url in cache ==>
                  r == Ok(cache[url].(lastError := Some(answer.error))) && after == cache[url := r.value])
            && (answer.Err? && url !in cache ==> r == Err(answer.error) && after == cache))
  {
  }

  /** What resolving against an index comes to: a refusal without asking for an empty argument or an `oci://` address,
      the failure to get the index, the first version of the chart, or chart-not-found if it has none. */
  lemma ResolutionExactly(answer: Answer, url: string, chartName: string)
    ensures
      var r := Uncached(answer, url, chartName);
      if url == "" || chartName == "" then r == Err(Failure(MissingArgument))
      else if "oci://" <= url then r == Err(UnsupportedRepo)
      else if answer.Err? then r == Err(answer.error)
      else if chartName in answer.value && answer.value[chartName] != [] then r == Ok(answer.value[chartName][0])
      else r == Err(ChartNotFound)
  {
  }

  /** An entry is stamped with the lifetime it was given, under its own URL. */
  predicate WellStamped(cache: Cache, ttl: int) {
    forall url :: url in cache ==> cache[url].repoURL == url && cache[url].expiresAt == cache[url].fetchedAt + ttl
  }

  class RepositoryResolver {
    const ttl: int
    var cache: Cache

    ghost predicate Valid()
      reads this
    {
      ttl > 0 && WellStamped(cache, ttl)
    }

    constructor (ttl: int)
      ensures Valid() && cache == map[] && this.ttl == (if ttl <= 0 then 300 else ttl)
    {
      this.ttl := if ttl <= 0 then 300 else ttl;
      cache := map[];
    }

    /** Asks the repository; only an answer with charts changes the cache. */
    method RefreshRepoIndex(url: string, answer: Answer, now: int) returns (r: Result<Entry, ResolveError>)
      requires Valid()
      modifies this`cache
      ensures Valid()
      ensures HasPrefix(url, "oci://") ==> r == Err(UnsupportedRepo) && cache == old(cache)
      ensures !HasPrefix(url, "oci://") && answer.Err? ==> r == Err(answer.error) && cache == old(cache)
      ensures !HasPrefix(url, "oci://") && answer.Ok? ==>
                && r == Ok(Entry(url, now, now + ttl, answer.value, None))
                && cache == old(cache)[url := r.value]
    {
      if HasPrefix(url, "oci://") {
        return Err(UnsupportedRepo);
      }
      if answer.Err? {
        return Err(answer.error);
      }
      var entry := Entry(url, now, now + ttl, answer.value, None);
      cache := cache[url := entry];
      return Ok(entry);
    }

    /** The stale-on-error lookup. */
    method GetEntry(url: string, lookAt: int, answer: Answer, stampAt: int) returns (r: Result<Entry, ResolveError>)
      requires Valid() && !HasPrefix(url, "oci://")
      modifies this`cache
      ensures Valid()
      ensures (r, cache) == GetOrRefresh(old(cache), url, lookAt, answer, stampAt, ttl)
    {
      if url in cache && lookAt <= cache[url].expiresAt {
        return Ok(cache[url]);
      }
      r := RefreshRepoIndex(url, answer, stampAt);
      if r.Ok? {
        return;
      }
      if url in cache {
        var stale := cache[url].(lastError := Some(r.error));
        cache := cache[url := stale];
        return Ok(stale);
      }
    }

    method ResolveLatest(url: string, chartName: string, lookAt: int, answer: Answer, stampAt: int)
      returns (r: Result<string, ResolveError>)
      requires Valid()
      modifies this`cache
      ensures Valid()
      ensures Refusal(url, chartName).Some? ==> r == Err(Refusal(url, chartName).value) && cache == old(cache)
      ensures Refusal(url, chartName).None? ==>
                var (entry, after) := GetOrRefresh(old(cache), url, lookAt, answer, stampAt, ttl);
                && cache == after
                && r == match entry case Ok(e) => FirstVersion(e.charts, chartName) case Err(e) => Err(e)
    {
      if url == "" || chartName == "" {
        return Err(Failure(MissingArgument));
      }
      if HasPrefix(url, "oci://") {
        return Err(UnsupportedRepo);
      }
      var entry := GetEntry(url, lookAt, answer, stampAt);
      if entry.Err? {
        return Err(entry.error);
      }
      if chartName !in entry.value.charts || |entry.value.charts[chartName]| == 0 {
        return Err(ChartNotFound);
      }
      return Ok(entry.value.charts[chartName][0]);
    }
  }

  /** A call that does not overlap any other. */
  datatype Visit = Visit(url: string, lookAt: int, answer: Answer, stampAt: int)

  function After(visits: seq<Visit>, ttl: int): Cache {
    if visits == [] then map[]
    else
      var v := visits[|visits| - 1];
      GetOrRefresh(After(visits[..|visits| - 1], ttl), v.url, v.lookAt, v.answer, v.stampAt, ttl).1
  }

  function Outcome(visits: seq<Visit>, ttl: int): Result<Entry, ResolveError>
    requires visits != []
  {
    var v := visits[|visits| - 1];
    GetOrRefresh(After(visits[..|visits| - 1], ttl), v.url, v.lookAt, v.answer, v.stampAt, ttl).0
  }

  /** Visit `i` asked the repository for `url` and got charts. */
  predicate Succeeded(visits: seq<Visit>, ttl: int, url: string, i: nat) {
    i < |visits| && visits[i].url == url && visits[i].answer.Ok? && !Fresh(After(visits[..i], ttl), url, visits[i].lookAt)
  }

  /** `i` is the latest visit that fetched `url`. */
  ghost predicate LatestFetch(visits: seq<Visit>, ttl: int, url: string, i: nat) {
    Succeeded(visits, ttl, url, i) && forall j :: i < j < |visits| ==> !Succeeded(visits, ttl, url, j)
  }

  ghost predicate ClockAdvances(visits: seq<Visit>) {
    && (forall i :: 0 <= i < |visits| ==> visits[i].lookAt <= visits[i].stampAt)
    && (forall i, j :: 0 <= i < j < |visits| ==> visits[i].stampAt <= visits[j].lookAt)
  }

  /** `entry` is what the visit got for `url`, with the visit's stamp. */
  predicate Holds(entry: Entry, url: string, v: Visit, ttl: int) {
    && v.answer.Ok? && entry.charts == v.answer.value
    && entry.repoURL == url && entry.fetchedAt == v.stampAt && entry.expiresAt == v.stampAt + ttl
  }

  lemma HoldsIgnoresError(a: Entry, b: Entry, url: string, v: Visit, ttl: int)
    requires Holds(a, url, v, ttl) && a.(lastError := None) == b.(lastError := None)
    ensures Holds(b, url, v, ttl)
  {
  }

  lemma VisitEffect(cache: Cache, v: Visit, ttl: int, url: string)
    ensures
      var after := GetOrRefresh(cache, v.url, v.lookAt, v.answer, v.stampAt, ttl).1;
      if v.url == url && v.answer.Ok? && !Fresh(cache, url, v.lookAt)
      then url in after && Holds(after[url], url, v, ttl)
      else (url in after <==> url in cache) && (url in cache ==> after[url].(lastError := None) == cache[url].(lastError := None))
  {
  }

  /** `entry` is what the latest visit that fetched `url` got for it. */
  ghost predicate IsFromLatestFetch(visits: seq<Visit>, ttl: int, url: string, entry: Entry) {
    exists i: nat :: LatestFetch(visits, ttl, url, i) && Holds(entry, url, visits[i], ttl)
  }

  ghost predicate NeverFetched(visits: seq<Visit>, ttl: int, url: string) {
    forall i: nat :: !Succeeded(visits, ttl, url, i)
  }

  lemma SucceededEarlier(visits: seq<Visit>, ttl: int, url: string, i: nat)
    requires i < |visits| - 1
    ensures Succeeded(visits[..|visits| - 1], ttl, url, i) == Succeeded(visits, ttl, url, i)
  {
    hide After, Fresh;
    assert visits[..|visits| - 1][..i] == visits[..i];
  }

  lemma LatestFetchStays(visits: seq<Visit>, ttl: int, url: string, i: nat)
    requires visits != [] && !Succeeded(visits, ttl, url, |visits| - 1)
    requires LatestFetch(visits[..|visits| - 1], ttl, url, i)
    ensures i < |visits| - 1 && LatestFetch(visits, ttl, url, i)
  {
    hide Succeeded;
    SucceededIsWithin(visits[..|visits| - 1], ttl, url, i);
    forall j: nat | j < |visits| - 1
      ensures Succeeded(visits[..|visits| - 1], ttl, url, j) == Succeeded(visits, ttl, url, j)
    {
      SucceededEarlier(visits, ttl, url, j);
    }
  }

  lemma SucceededIsWithin(visits: seq<Visit>, ttl: int, url: string, i: nat)
    requires Succeeded(visits, ttl, url, i)
    ensures i < |visits|
  {
  }

  lemma LatestFetchOf(visits: seq<Visit>, ttl: int, url: string, entry: Entry) returns (i: nat)
    requires IsFromLatestFetch(visits, ttl, url, entry)
    ensures i < |visits| && LatestFetch(visits, ttl, url, i) && Holds(entry, url, visits[i], ttl)
  {
    hide After, Fresh, Holds;
    i :| LatestFetch(visits, ttl, url, i) && Holds(entry, url, visits[i], ttl);
  }

  /** A visit that does not fetch `url` changes nothing about its latest fetch. */
  lemma OtherVisit(visits: seq<Visit>, ttl: int, url: string)
    requires visits != [] && !Succeeded(visits, ttl, url, |visits| - 1)
    ensures
      var front := visits[..|visits| - 1];
      && (NeverFetched(front, ttl, url) ==> NeverFetched(visits, ttl, url))
      && (forall a: Entry, b: Entry :: IsFromLatestFetch(front, ttl, url, a) && b.(lastError := None) == a.(lastError := None) ==>
            IsFromLatestFetch(visits, ttl, url, b))
  {
    hide Succeeded, LatestFetch, Holds;
    var front := visits[..|visits| - 1];
    forall i: nat | Succeeded(visits, ttl, url, i) ensures Succeeded(front, ttl, url, i) {
      SucceededIsWithin(visits, ttl, url, i);
      SucceededEarlier(visits, ttl, url, i);
    }
    forall a: Entry, b: Entry | IsFromLatestFetch(front, ttl, url, a) && b.(lastError := None) == a.(lastError := None)
      ensures IsFromLatestFetch(visits, ttl, url, b)
    {
      var i := LatestFetchOf(front, ttl, url, a);
      LatestFetchStays(visits, ttl, url, i);
      HoldsIgnoresError(a, b, url, visits[i], ttl);
    }
  }

  lemma LastVisitFetched(visits: seq<Visit>, ttl: int, url: string, entry: Entry)
    requires visits != [] && Succeeded(visits, ttl, url, |visits| - 1) && Holds(entry, url, visits[|visits| - 1], ttl)
    ensures IsFromLatestFetch(visits, ttl, url, entry)
  {
    hide Fresh, Holds;
    assert LatestFetch(visits, ttl, url, |visits| - 1);
  }

  /** The cache holds a URL exactly when some visit fetched it, and then what the latest such visit got, stamped
      when it got it: a failed refresh neither loses an entry nor extends its life. */
  lemma {:induction false} CacheHoldsLatestFetch(visits: seq<Visit>, ttl: int, url: string)
    ensures url in After(visits, ttl) ==> IsFromLatestFetch(visits, ttl, url, After(visits, ttl)[url])
    ensures url !in After(visits, ttl) ==> NeverFetched(visits, ttl, url)
    decreases |visits|
  {
    hide GetOrRefresh, Holds, Fresh, IsFromLatestFetch;
    if visits == [] {
    } else {
      var n := |visits| - 1;
      var front, v := visits[..n], visits[n];
      CacheHoldsLatestFetch(front, ttl, url);
      VisitEffect(After(front, ttl), v, ttl, url);
      if Succeeded(visits, ttl, url, n) {
        LastVisitFetched(visits, ttl, url, After(visits, ttl)[url]);
      } else {
        hide NeverFetched;
        OtherVisit(visits, ttl, url);
      }
    }
  }

  /** For calls that do not overlap: an answer is what the latest successful fetch of the URL got, it is expired
      only if the refresh in this very call failed, and an error means the URL was never fetched. */
  lemma SequentialAnswers(visits: seq<Visit>, ttl: int)
    requires visits != []
    ensures
      var (v, r) := (visits[|visits| - 1], Outcome(visits, ttl));
      && (r.Ok? ==> IsFromLatestFetch(visits, ttl, v.url, r.value))
      && (r.Ok? && v.lookAt > r.value.expiresAt && v.lookAt <= v.stampAt && ttl >= 0 ==> v.answer.Err?)
      && (r.Err? <==> v.answer.Err? && NeverFetched(visits, ttl, v.url))
      && (r.Err? ==> r.error == v.answer.error)
  {
    hide IsFromLatestFetch;
    var v := visits[|visits| - 1];
    CacheHoldsLatestFetch(visits, ttl, v.url);
    if Outcome(visits, ttl).Ok? {
      SomethingWasFetched(visits, ttl, v.url, Outcome(visits, ttl).value);
    }
  }

  lemma SomethingWasFetched(visits: seq<Visit>, ttl: int, url: string, entry: Entry)
    requires IsFromLatestFetch(visits, ttl, url, entry)
    ensures !NeverFetched(visits, ttl, url)
  {
  }

  /** For calls that do not overlap, an entry's fetch time never goes back. */
  lemma SequentialFetchTimesAdvance(visits: seq<Visit>, ttl: int, url: string)
    requires visits != [] && ClockAdvances(visits)
    requires url in After(visits[..|visits| - 1], ttl)
    ensures url in After(visits, ttl)
    ensures After(visits[..|visits| - 1], ttl)[url].fetchedAt <= After(visits, ttl)[url].fetchedAt
  {
    var n := |visits| - 1;
    var front := visits[..n];
    CacheHoldsLatestFetch(front, ttl, url);
    var i := LatestFetchOf(front, ttl, url, After(front, ttl)[url]);
    assert front[i] == visits[i];
    VisitEffect(After(front, ttl), visits[n], ttl, url);
  }
}
