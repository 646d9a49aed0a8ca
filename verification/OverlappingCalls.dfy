/**
 Overlapping calls of `getOrRefresh` (`internal/resolver/repository_resolver.go`): each step
 holds the lock at most once, and the steps of different calls interleave in any way.
 */
module OverlappingCalls {
  import opened Model
  import opened IndexCache

  /** Where a call stands. The clock is read together with the look-up and with the arrival of an answer. */
  datatype Call =
    | Looking(url: string)
    | Fetching(url: string)
    | Storing(entry: Entry)
    | Rescuing(url: string, error: ResolveError)
    | WritingBack(url: string, entry: Entry)
    | Done(url: string, result: Result<Entry, ResolveError>)
  {
    function Url(): string {
      match this
      case Looking(url) => url
      case Fetching(url) => url
      case Storing(entry) => entry.repoURL
      case Rescuing(url, _) => url
      case WritingBack(url, _) => url
      case Done(url, _) => url
    }
  }

  /** One step of a call; `answer` matters only when the call is waiting for one. */
  function StepCall(call: Call, cache: Cache, now: int, ttl: int, answer: Answer): (Call, Cache) {
    match call
    case Looking(url) =>
      if Fresh(cache, url, now) then (Done(url, Ok(cache[url])), cache) else (Fetching(url), cache)
    case Fetching(url) =>
      (match answer
       case Ok(charts) => (Storing(Entry(url, now, now + ttl, charts, None)), cache)
       case Err(e) => (Rescuing(url, e), cache))
    case Storing(entry) =>
      (Done(entry.repoURL, Ok(entry)), cache[entry.repoURL := entry])
    case Rescuing(url, e) =>
      if url in cache then (WritingBack(url, cache[url].(lastError := Some(e))), cache)
      else (Done(url, Err(e)), cache)
    case WritingBack(url, entry) =>
      (Done(url, Ok(entry)), cache[url := entry])
    case Done(_, _) => (call, cache)
  }

  /** A successful fetch: what was got, and when. */
  datatype Fetched = Fetched(url: string, charts: Charts, at: int)

  datatype System = System(cache: Cache, calls: seq<Call>, now: int, fetches: seq<Fetched>)

  datatype Step = Open(url: string) | Advance(c: nat, answer: Answer) | Tick(d: nat)

  const START := System(map[], [], 0, [])

  predicate Enabled(s: System, step: Step) {
    step.Advance? ==> step.c < |s.calls| && !s.calls[step.c].Done?
  }

  function Next(s: System, ttl: int, step: Step): System
    requires Enabled(s, step)
  {
    match step
    case Open(url) => s.(calls := s.calls + [Looking(url)])
    case Tick(d) => s.(now := s.now + d)
    case Advance(c, answer) =>
      var (call, cache) := StepCall(s.calls[c], s.cache, s.now, ttl, answer);
      s.(calls := s.calls[c := call], cache := cache,
         fetches := if call.Storing? then s.fetches + [Fetched(call.entry.repoURL, call.entry.charts, call.entry.fetchedAt)]
                    else s.fetches)
  }

  /** `steps` is a run from `s` to `t`. */
  ghost predicate Runs(s: System, ttl: int, steps: seq<Step>, t: System)
    decreases |steps|
  {
    if steps == [] then s == t
    else Enabled(s, steps[0]) && Runs(Next(s, ttl, steps[0]), ttl, steps[1..], t)
  }

  // ---------------------------------------------------------------- Provenance

  /** The entry is for `url`, has its full lifetime, and its charts come from a fetch of `url` at its stamp. */
  ghost predicate Genuine(entry: Entry, url: string, ttl: int, fetches: seq<Fetched>) {
    && entry.repoURL == url
    && entry.expiresAt == entry.fetchedAt + ttl
    && Fetched(url, entry.charts, entry.fetchedAt) in fetches
  }

  ghost predicate GenuineCall(call: Call, ttl: int, fetches: seq<Fetched>) {
    match call
    case Storing(entry) => Genuine(entry, entry.repoURL, ttl, fetches)
    case WritingBack(url, entry) => Genuine(entry, url, ttl, fetches)
    case Done(url, Ok(entry)) => Genuine(entry, url, ttl, fetches)
    case _ => true
  }

  ghost predicate AllGenuine(s: System, ttl: int) {
    && (forall url :: url in s.cache ==> Genuine(s.cache[url], url, ttl, s.fetches))
    && (forall c :: 0 <= c < |s.calls| ==> GenuineCall(s.calls[c], ttl, s.fetches))
    && (forall f :: f in s.fetches ==> f.at <= s.now)
  }

  lemma StepKeepsGenuine(s: System, ttl: int, step: Step)
    requires AllGenuine(s, ttl) && Enabled(s, step)
    ensures AllGenuine(Next(s, ttl, step), ttl)
  {
    var t := Next(s, ttl, step);
    assert forall f :: f in s.fetches ==> f in t.fetches;
    if step.Advance? {
      var call := s.calls[step.c];
      assert GenuineCall(call, ttl, s.fetches);
      assert GenuineCall(t.calls[step.c], ttl, t.fetches);
    }
  }

  /** In every reachable state, cached and returned entries were really fetched, for their own URL, at their stamp. */
  lemma {:induction false} EntriesAreGenuine(s: System, ttl: int, steps: seq<Step>, t: System)
    requires AllGenuine(s, ttl) && Runs(s, ttl, steps, t)
    ensures AllGenuine(t, ttl)
    decreases |steps|
  {
    hide AllGenuine, Next;
    if steps == [] {
    } else {
      StepKeepsGenuine(s, ttl, steps[0]);
      EntriesAreGenuine(Next(s, ttl, steps[0]), ttl, steps[1..], t);
    }
  }

  lemma StartIsGenuine(ttl: int)
    ensures AllGenuine(START, ttl)
  {
  }

  // ---------------------------------------------------------------- No error after a success

  predicate FailedFor(s: System, c: nat) {
    c < |s.calls| && s.calls[c].Done? && s.calls[c].result.Err?
  }

  lemma StepKeepsKeys(s: System, ttl: int, step: Step)
    requires AllGenuine(s, ttl) && Enabled(s, step)
    ensures s.cache.Keys <= Next(s, ttl, step).cache.Keys
    ensures forall c: nat :: c < |s.calls| ==> c < |Next(s, ttl, step).calls| && Next(s, ttl, step).calls[c].Url() == s.calls[c].Url()
    ensures forall c: nat :: FailedFor(Next(s, ttl, step), c) && Next(s, ttl, step).calls[c].url in s.cache ==> FailedFor(s, c)
  {
    if step.Advance? {
      assert GenuineCall(s.calls[step.c], ttl, s.fetches);
    }
  }

  /** URLs are never dropped from the cache, and once a URL is cached no call for it that has not already failed
      fails, whether it is under way or starts later. */
  lemma {:induction false} NoFailureAfterSuccess(s: System, ttl: int, steps: seq<Step>, t: System, c: nat)
    requires AllGenuine(s, ttl) && Runs(s, ttl, steps, t)
    requires FailedFor(t, c) && t.calls[c].url in s.cache
    ensures FailedFor(s, c)
    decreases |steps|
  {
    hide AllGenuine;
    if steps == [] {
    } else {
      var s1 := Next(s, ttl, steps[0]);
      StepKeepsGenuine(s, ttl, steps[0]);
      StepKeepsKeys(s, ttl, steps[0]);
      NoFailureAfterSuccess(s1, ttl, steps[1..], t, c);
      UrlsAreKept(s1, ttl, steps[1..], t, c);
    }
  }

  lemma {:induction false} UrlsAreKept(s: System, ttl: int, steps: seq<Step>, t: System, c: nat)
    requires AllGenuine(s, ttl) && Runs(s, ttl, steps, t) && c < |s.calls|
    ensures c < |t.calls| && t.calls[c].Url() == s.calls[c].Url()
    ensures s.cache.Keys <= t.cache.Keys
    decreases |steps|
  {
    hide AllGenuine;
    if steps == [] {
    } else {
      StepKeepsGenuine(s, ttl, steps[0]);
      StepKeepsKeys(s, ttl, steps[0]);
      UrlsAreKept(Next(s, ttl, steps[0]), ttl, steps[1..], t, c);
    }
  }

  // ---------------------------------------------------------------- Overwriting newer entries

  /** The call is about to write an entry under the lock. */
  predicate Pending(call: Call) {
    call.Storing? || call.WritingBack?
  }

  /** What a step writes for `url`. */
  function Written(s: System, step: Step, url: string): Option<Entry> {
    if step.Advance? && step.c < |s.calls| && Pending(s.calls[step.c]) && s.calls[step.c].Url() == url
    then Some(s.calls[step.c].entry)
    else None
  }

  /** What a run writes for `url` last. */
  ghost function LastWritten(s: System, ttl: int, steps: seq<Step>, url: string): Option<Entry>
    decreases |steps|
  {
    if steps == [] || !Enabled(s, steps[0]) then None
    else
      var later := LastWritten(Next(s, ttl, steps[0]), ttl, steps[1..], url);
      if later.Some? then later else Written(s, steps[0], url)
  }

  /** The step sets the fetch time of `url` back. */
  predicate SetsBack(s: System, ttl: int, step: Step, url: string)
    requires Enabled(s, step)
  {
    var after := Next(s, ttl, step).cache;
    url in s.cache && url in after && after[url].fetchedAt < s.cache[url].fetchedAt
  }

  lemma StepWrites(s: System, ttl: int, step: Step, url: string)
    requires Enabled(s, step)
    ensures
      var after := Next(s, ttl, step).cache;
      match Written(s, step, url)
      case Some(entry) => url in after && after[url] == entry
      case None => (url in after <==> url in s.cache) && (url in s.cache ==> after[url] == s.cache[url])
  {
  }

  /** A run leaves in the cache what it wrote last. */
  lemma {:induction false} CacheIsLastWritten(s: System, ttl: int, steps: seq<Step>, t: System, url: string)
    requires Runs(s, ttl, steps, t)
    ensures
      match LastWritten(s, ttl, steps, url)
      case Some(entry) => url in t.cache && t.cache[url] == entry
      case None => (url in t.cache <==> url in s.cache) && (url in s.cache ==> t.cache[url] == s.cache[url])
    decreases |steps|
  {
    hide Next, Enabled, Written;
    if steps == [] {
    } else {
      StepWrites(s, ttl, steps[0], url);
      CacheIsLastWritten(Next(s, ttl, steps[0]), ttl, steps[1..], t, url);
    }
  }

  lemma {:induction false} CallWaits(s: System, ttl: int, steps: seq<Step>, t: System, c: nat)
    requires Runs(s, ttl, steps, t) && c < |s.calls|
    requires forall i :: 0 <= i < |steps| && steps[i].Advance? ==> steps[i].c != c
    ensures c < |t.calls| && t.calls[c] == s.calls[c]
    decreases |steps|
  {
    hide StepCall;
    if steps == [] {
    } else {
      assert steps[0].Advance? ==> steps[0].c != c;
      CallWaits(Next(s, ttl, steps[0]), ttl, steps[1..], t, c);
    }
  }

  /** When a call gets its entry to write, by reading a stale one or by stamping a fetched one, nothing newer is cached. */
  lemma NothingNewerYet(s: System, ttl: int, c: nat, answer: Answer)
    requires AllGenuine(s, ttl) && Enabled(s, Advance(c, answer)) && Pending(Next(s, ttl, Advance(c, answer)).calls[c])
    ensures
      var after := Next(s, ttl, Advance(c, answer));
      && |after.calls| == |s.calls|
      && var url := after.calls[c].Url();
      && url == s.calls[c].Url()
      && (url in after.cache ==> after.cache[url].fetchedAt <= after.calls[c].entry.fetchedAt)
  {
    var url := s.calls[c].Url();
    if url in s.cache { assert Genuine(s.cache[url], url, ttl, s.fetches); }
    assert GenuineCall(s.calls[c], ttl, s.fetches);
  }

  /** From the moment a call gets the entry it will write, by reading a stale one or by stamping a fetched one, let
      other calls run, and then the call write. Its write sets the fetch time back exactly when the last write of the
      others in between was of an entry fetched after its own. */
  lemma FetchTimeDropsExactly(s: System, ttl: int, c: nat, answer: Answer, steps: seq<Step>, t: System, ignored: Answer)
    requires AllGenuine(s, ttl) && Enabled(s, Advance(c, answer)) && Pending(Next(s, ttl, Advance(c, answer)).calls[c])
    requires Runs(Next(s, ttl, Advance(c, answer)), ttl, steps, t)
    requires forall i :: 0 <= i < |steps| && steps[i].Advance? ==> steps[i].c != c
    ensures Enabled(t, Advance(c, ignored))
    ensures
      var start := Next(s, ttl, Advance(c, answer));
      var url := start.calls[c].Url();
      var last := LastWritten(start, ttl, steps, url);
      SetsBack(t, ttl, Advance(c, ignored), url) <==>
      last.Some? && last.value.fetchedAt > start.calls[c].entry.fetchedAt
  {
    hide AllGenuine, Next, LastWritten;
    var start := Next(s, ttl, Advance(c, answer));
    NothingNewerYet(s, ttl, c, answer);
    var url := start.calls[c].Url();
    CallWaits(start, ttl, steps, t, c);
    CacheIsLastWritten(start, ttl, steps, t, url);
    StepWrites(t, ttl, Advance(c, ignored), url);
  }

  ghost predicate Reachable(s: System, ttl: int) {
    exists steps :: Runs(START, ttl, steps, s)
  }

  lemma {:induction false} RunsAppend(s: System, ttl: int, steps: seq<Step>, t: System, step: Step)
    requires Runs(s, ttl, steps, t) && Enabled(t, step)
    ensures Runs(s, ttl, steps + [step], Next(t, ttl, step))
    decreases |steps|
  {
    hide Next;
    if steps == [] {
      assert [step][1..] == [];
    } else {
      assert (steps + [step])[1..] == steps[1..] + [step];
      RunsAppend(Next(s, ttl, steps[0]), ttl, steps[1..], t, step);
    }
  }

  lemma Reach(s: System, ttl: int, step: Step, t: System)
    requires Reachable(s, ttl) && Enabled(s, step) && Next(s, ttl, step) == t
    ensures Reachable(t, ttl)
  {
    hide Next;
    var steps :| Runs(START, ttl, steps, s);
    RunsAppend(START, ttl, steps, s, step);
  }

  /** A successful call that runs after others adds its entry. */
  lemma ReachRefresh(s: System, ttl: int, url: string, charts: Charts, any: ResolveError)
    requires Reachable(s, ttl) && !Fresh(s.cache, url, s.now)
    ensures
      var entry := Entry(url, s.now, s.now + ttl, charts, None);
      Reachable(System(s.cache[url := entry], s.calls + [Done(url, Ok(entry))], s.now, s.fetches + [Fetched(url, charts, s.now)]), ttl)
  {
    hide Reachable;
    var c := |s.calls|;
    var entry := Entry(url, s.now, s.now + ttl, charts, None);
    var fetches := s.fetches + [Fetched(url, charts, s.now)];
    var s1 := s.(calls := s.calls + [Looking(url)]);
    Reach(s, ttl, Open(url), s1);
    var s2 := s.(calls := s.calls + [Fetching(url)]);
    assert s1.calls[c := Fetching(url)] == s2.calls;
    Reach(s1, ttl, Advance(c, Ok(charts)), s2);
    var s3 := s.(calls := s.calls + [Storing(entry)], fetches := fetches);
    assert s2.calls[c := Storing(entry)] == s3.calls;
    Reach(s2, ttl, Advance(c, Ok(charts)), s3);
    var s4 := System(s.cache[url := entry], s.calls + [Done(url, Ok(entry))], s.now, fetches);
    assert s3.calls[c := Done(url, Ok(entry))] == s4.calls;
    Reach(s3, ttl, Advance(c, Ok(charts)), s4);
  }

  /** A call whose refresh fails over an expired entry gets to where it is about to write the entry back. */
  lemma ReachStaleRead(s: System, ttl: int, url: string, e: ResolveError)
    requires Reachable(s, ttl) && url in s.cache && !Fresh(s.cache, url, s.now)
    ensures Reachable(s.(calls := s.calls + [WritingBack(url, s.cache[url].(lastError := Some(e)))]), ttl)
  {
    hide Reachable;
    var c := |s.calls|;
    var s1 := s.(calls := s.calls + [Looking(url)]);
    Reach(s, ttl, Open(url), s1);
    var s2 := s.(calls := s.calls + [Fetching(url)]);
    assert s1.calls[c := Fetching(url)] == s2.calls;
    Reach(s1, ttl, Advance(c, Err(e)), s2);
    var s3 := s.(calls := s.calls + [Rescuing(url, e)]);
    assert s2.calls[c := Rescuing(url, e)] == s3.calls;
    Reach(s2, ttl, Advance(c, Err(e)), s3);
    var back := WritingBack(url, s.cache[url].(lastError := Some(e)));
    var s4 := s.(calls := s.calls + [back]);
    assert s3.calls[c := back] == s4.calls;
    Reach(s3, ttl, Advance(c, Err(e)), s4);
  }

  /** Overlapping calls can set a fetch time back: a call that read the old entry before another call's
      successful refresh writes it back afterwards. */
  lemma RefreshCanBeLost(url: string, ttl: nat, older: Charts, newer: Charts, e: ResolveError)
    ensures exists s, step :: Reachable(s, ttl) && Enabled(s, step) && SetsBack(s, ttl, step, url)
  {
    hide Reachable;
    ReachStart(ttl);
    ReachRefresh(START, ttl, url, older, e);
    var entry := Entry(url, 0, ttl, older, None);
    var filled := System(map[url := entry], [Done(url, Ok(entry))], 0, [Fetched(url, older, 0)]);
    assert START.calls + [Done(url, Ok(entry))] == filled.calls && START.fetches + [Fetched(url, older, 0)] == filled.fetches;
    assert START.cache[url := entry] == filled.cache;
    var expired := filled.(now := ttl + 1);
    Reach(filled, ttl, Tick(ttl + 1), expired);
    ReachStaleRead(expired, ttl, url, e);
    var reading := expired.(calls := expired.calls + [WritingBack(url, entry.(lastError := Some(e)))]);
    ReachRefresh(reading, ttl, url, newer, e);
    var renewed := Entry(url, ttl + 1, ttl + 1 + ttl, newer, None);
    var s := System(reading.cache[url := renewed], reading.calls + [Done(url, Ok(renewed))], ttl + 1,
                    reading.fetches + [Fetched(url, newer, ttl + 1)]);
    assert s.calls[1] == WritingBack(url, entry.(lastError := Some(e)));
    assert Reachable(s, ttl) && SetsBack(s, ttl, Advance(1, Err(e)), url);
  }

  /** In every reachable state, cached and returned entries are genuine. */
  lemma ReachableIsGenuine(s: System, ttl: int)
    requires Reachable(s, ttl)
    ensures AllGenuine(s, ttl)
  {
    hide AllGenuine;
    StartIsGenuine(ttl);
    var steps :| Runs(START, ttl, steps, s);
    EntriesAreGenuine(START, ttl, steps, s);
  }

  lemma ReachStart(ttl: int)
    ensures Reachable(START, ttl)
  {
    assert Runs(START, ttl, [], START);
  }

  // ---------------------------------------------------------------- Without overlap

  /** Steps of one call with nothing in between, until it is done; every answer it waits for is `answer`. */
  function Alone(call: Call, cache: Cache, lookAt: int, answer: Answer, stampAt: int, ttl: int, fuel: nat): (Call, Cache)
    decreases fuel
  {
    if fuel == 0 || call.Done? then (call, cache)
    else
      var (next, after) := StepCall(call, cache, if call.Looking? then lookAt else stampAt, ttl, answer);
      Alone(next, after, lookAt, answer, stampAt, ttl, fuel - 1)
  }

  /** A call that runs alone is done after four steps, with the answer and the cache of the sequential look-up. */
  lemma AloneIsSequential(cache: Cache, url: string, lookAt: int, answer: Answer, stampAt: int, ttl: int)
    requires WellStamped(cache, ttl)
    ensures
      var (r, after) := GetOrRefresh(cache, url, lookAt, answer, stampAt, ttl);
      Alone(Looking(url), cache, lookAt, answer, stampAt, ttl, 4) == (Done(url, r), after)
  {
    var (c1, k1) := StepCall(Looking(url), cache, lookAt, ttl, answer);
    if !c1.Done? {
      var (c2, k2) := StepCall(c1, k1, stampAt, ttl, answer);
      var (c3, k3) := StepCall(c2, k2, stampAt, ttl, answer);
      if !c3.Done? {
        var (c4, k4) := StepCall(c3, k3, stampAt, ttl, answer);
        assert Alone(c3, k3, lookAt, answer, stampAt, ttl, 1) == (c4, k4);
      }
      assert Alone(c2, k2, lookAt, answer, stampAt, ttl, 2) == Alone(c3, k3, lookAt, answer, stampAt, ttl, 1);
      assert Alone(c1, k1, lookAt, answer, stampAt, ttl, 3) == Alone(c2, k2, lookAt, answer, stampAt, ttl, 2);
    }
  }
}
