/**
 Where latest versions come from, when upstream may answer anything at any time: the workers of
 `Builder.Build` share caches (`internal/catalog/builder.go`), yet never mix up what they hear.
 */
module Provenance {
  import opened Model
  import opened SemVer
  import Tags
  import OciResolver
  import IndexCache
  import OverlappingCalls
  import opened Catalog
  import opened WorkerPool
  import CacheTransparency

  /** Something upstream told a worker: the tags of an artifact, or the charts of an index. */
  datatype News = TagNews(target: OciResolver.Target, tags: seq<string>) | IndexNews(url: string, charts: IndexCache.Charts)

  /** What a step hears. */
  function NewsOf(p: Pool, step: Step): set<News> {
    if !step.Work? || step.w >= |p.workers| then {}
    else
      match p.workers[step.w]
      case OciFetching(_, _, t) => if step.answers.tags.Ok? then {TagNews(t, step.answers.tags.value)} else {}
      case Indexing(_, _, Fetching(url)) => if step.answers.index.Ok? then {IndexNews(url, step.answers.index.value)} else {}
      case _ => {}
  }

  /** What a run hears. */
  ghost function Heard(cfg: Config, p: Pool, steps: seq<Step>): set<News>
    decreases |steps|
  {
    if steps == [] || !Enabled(cfg, p, steps[0]) then {}
    else NewsOf(p, steps[0]) + Heard(cfg, Next(cfg, p, steps[0]), steps[1..])
  }

  /** What a run may go by: what it hears, and the caches it starts with. */
  datatype Origin = Origin(news: set<News>, oci: OciResolver.Cache, index: IndexCache.Cache)

  predicate TagsKnown(o: Origin, t: OciResolver.Target, tags: seq<string>) {
    TagNews(t, tags) in o.news || (OciResolver.CacheKey(t) in o.oci && o.oci[OciResolver.CacheKey(t)].tags == tags)
  }

  /** The tags cached under a key are those of an artifact with that key, or were there before. */
  ghost predicate KeyKnown(o: Origin, key: string, tags: seq<string>) {
    || (exists t: OciResolver.Target :: '/' !in t.host && OciResolver.CacheKey(t) == key && TagNews(t, tags) in o.news)
    || (key in o.oci && o.oci[key].tags == tags)
  }

  predicate ChartsKnown(o: Origin, url: string, charts: IndexCache.Charts) {
    IndexNews(url, charts) in o.news || (url in o.index && o.index[url].charts == charts)
  }

  /** The version was picked from tags of the record's own artifact. */
  ghost predicate IsPicked(cfg: Config, o: Origin, record: ChartRecord, latest: string) {
    exists t, tags :: OciResolver.TargetOf(record.repoURL, record.chartName) == Ok(t) && TagsKnown(o, t, tags) &&
      Tags.PickLatest(cfg.env.core, tags) == Ok(latest)
  }

  /** The version is the first of the record's own chart in an index of its own repository. */
  ghost predicate IsListed(o: Origin, record: ChartRecord, latest: string) {
    exists charts :: ChartsKnown(o, record.repoURL, charts) && IndexCache.FirstVersion(charts, record.chartName) == Ok(latest)
  }

  /** The latest version of workload `i` is unknown, or is accounted for. */
  ghost predicate LatestKnown(cfg: Config, o: Origin, i: nat, latest: string) {
    && i < |cfg.workloads|
    && var record := Prepare(cfg.env, cfg.workloads[i]);
       || latest == "unknown"
       || (record.sourceKind.OCIRegistry? && IsPicked(cfg, o, record, latest))
       || (!record.sourceKind.OCIRegistry? && IsListed(o, record, latest))
  }

  predicate CallKnown(o: Origin, call: OverlappingCalls.Call) {
    match call
    case Storing(entry) => ChartsKnown(o, entry.repoURL, entry.charts)
    case WritingBack(url, entry) => ChartsKnown(o, url, entry.charts)
    case Done(url, Ok(entry)) => ChartsKnown(o, url, entry.charts)
    case _ => true
  }

  predicate IsOciRecord(cfg: Config, i: nat, record: ChartRecord, t: OciResolver.Target) {
    && i < |cfg.workloads| && record == Prepare(cfg.env, cfg.workloads[i]) && record.sourceKind.OCIRegistry?
    && OciResolver.TargetOf(record.repoURL, record.chartName) == Ok(t)
  }

  predicate IsIndexRecord(cfg: Config, i: nat, record: ChartRecord, url: string) {
    && i < |cfg.workloads| && record == Prepare(cfg.env, cfg.workloads[i]) && !record.sourceKind.OCIRegistry?
    && record.repoURL == url
  }

  ghost predicate WorkerKnown(cfg: Config, o: Origin, worker: Worker) {
    match worker
    case OciLooking(i, record, t) => IsOciRecord(cfg, i, record, t)
    case OciFetching(i, record, t) => IsOciRecord(cfg, i, record, t)
    case OciStoring(i, record, t, tags) => IsOciRecord(cfg, i, record, t) && TagsKnown(o, t, tags)
    case Indexing(i, record, call) => IsIndexRecord(cfg, i, record, call.Url()) && CallKnown(o, call)
    case Writing(i, record) => LatestKnown(cfg, o, i, record.latestVersion)
    case _ => true
  }

  ghost predicate OciKnown(o: Origin, oci: OciResolver.Cache) {
    forall key :: key in oci ==> KeyKnown(o, key, oci[key].tags)
  }

  ghost predicate IndexKnown(o: Origin, index: IndexCache.Cache) {
    forall url :: url in index ==> ChartsKnown(o, url, index[url].charts)
  }

  ghost predicate PoolKnown(cfg: Config, o: Origin, p: Pool) {
    && OciKnown(o, p.oci) && IndexKnown(o, p.index)
    && (forall w :: 0 <= w < |p.workers| ==> WorkerKnown(cfg, o, p.workers[w]))
    && (forall i :: 0 <= i < |p.records| && p.records[i].Some? ==> LatestKnown(cfg, o, i, p.records[i].value.latestVersion))
  }

  /** The artifact of a key is the only one with a slash-free host. */
  lemma KeyToTags(o: Origin, t: OciResolver.Target, tags: seq<string>)
    requires '/' !in t.host && KeyKnown(o, OciResolver.CacheKey(t), tags)
    ensures TagsKnown(o, t, tags)
  {
    hide OciResolver.CacheKey;
    if u: OciResolver.Target :| '/' !in u.host && OciResolver.CacheKey(u) == OciResolver.CacheKey(t) && TagNews(u, tags) in o.news {
      OciResolver.CacheKeyIsInjective(u, t);
    }
  }

  lemma ConcludedKnown(cfg: Config, o: Origin, i: nat, latest: Result<string, ResolveError>)
    requires i < |cfg.workloads|
    requires latest.Ok? ==> LatestKnown(cfg, o, i, latest.value)
    ensures WorkerKnown(cfg, o, Concluded(cfg.env, i, Prepare(cfg.env, cfg.workloads[i]), latest))
  {
    hide Prepare, IsPicked, IsListed;
    NothingResolvedYet(cfg.env, cfg.workloads[i]);
    FinishKeepsLatest(cfg.env.core, Resolved(Prepare(cfg.env, cfg.workloads[i]), latest));
  }

  lemma FinishKeepsLatest(core: CoreParser, record: ChartRecord)
    ensures Finish(core, record).latestVersion == record.latestVersion
  {
  }

  lemma UnknownIsKnown(cfg: Config, o: Origin, i: nat)
    requires i < |cfg.workloads|
    ensures LatestKnown(cfg, o, i, "unknown")
  {
  }

  lemma PreparedKnown(cfg: Config, o: Origin, i: nat)
    requires i < |cfg.workloads|
    ensures WorkerKnown(cfg, o, Prepared(cfg.env, i, Prepare(cfg.env, cfg.workloads[i])))
  {
    hide Prepare, CanResolve, Finish, Concluded, LatestKnown, OciResolver.TargetOf, IndexCache.Refusal;
    var record := Prepare(cfg.env, cfg.workloads[i]);
    NothingResolvedYet(cfg.env, cfg.workloads[i]);
    FinishKeepsLatest(cfg.env.core, record);
    UnknownIsKnown(cfg, o, i);
    forall e: ResolveError ensures WorkerKnown(cfg, o, Concluded(cfg.env, i, record, Err(e))) {
      ConcludedKnown(cfg, o, i, Err(e));
    }
  }

  lemma PickedIsKnown(cfg: Config, o: Origin, i: nat, record: ChartRecord, t: OciResolver.Target, tags: seq<string>)
    requires IsOciRecord(cfg, i, record, t) && TagsKnown(o, t, tags)
    ensures WorkerKnown(cfg, o, Concluded(cfg.env, i, record, Tags.PickLatest(cfg.env.core, tags)))
  {
    hide Prepare, TagsKnown, Concluded, OciResolver.TargetOf, Tags.PickLatest, IsListed;
    var latest := Tags.PickLatest(cfg.env.core, tags);
    if latest.Ok? {
      assert IsPicked(cfg, o, record, latest.value);
    }
    ConcludedKnown(cfg, o, i, latest);
  }

  lemma ListedIsKnown(cfg: Config, o: Origin, i: nat, record: ChartRecord, url: string, charts: IndexCache.Charts)
    requires IsIndexRecord(cfg, i, record, url) && ChartsKnown(o, url, charts)
    ensures WorkerKnown(cfg, o, Concluded(cfg.env, i, record, IndexCache.FirstVersion(charts, record.chartName)))
  {
    hide Prepare, ChartsKnown, Concluded, IndexCache.FirstVersion, IsPicked;
    var latest := IndexCache.FirstVersion(charts, record.chartName);
    if latest.Ok? {
      assert IsListed(o, record, latest.value);
    }
    ConcludedKnown(cfg, o, i, latest);
  }

  lemma OciStepKnown(cfg: Config, o: Origin, worker: Worker, oci: OciResolver.Cache, index: IndexCache.Cache, now: int, answers: Answers)
    requires worker.OciLooking? || worker.OciFetching? || worker.OciStoring?
    requires worker.i < |cfg.workloads| && WorkerKnown(cfg, o, worker) && OciKnown(o, oci)
    requires worker.OciFetching? && answers.tags.Ok? ==> TagNews(worker.target, answers.tags.value) in o.news
    ensures
      var (next, oci', index') := WorkerStep(cfg, worker, oci, index, now, answers);
      WorkerKnown(cfg, o, next) && OciKnown(o, oci') && index' == index
  {
    hide Prepare, Concluded, OciResolver.TargetOf, Tags.PickLatest, OciResolver.CacheKey, LatestKnown, KeyKnown;
    var t := worker.target;
    CacheTransparency.TargetHostIsSlashFree(worker.record.repoURL, worker.record.chartName);
    match worker {
      case OciLooking(i, record, _) =>
        var cached := OciResolver.CachedTags(oci, OciResolver.CacheKey(t), now);
        if cached.Some? {
          KeyToTags(o, t, cached.value);
          PickedIsKnown(cfg, o, i, record, t, cached.value);
        }
      case OciFetching(i, record, _) =>
        if answers.tags.Err? { ConcludedKnown(cfg, o, i, Err(answers.tags.error)); }
      case OciStoring(i, record, _, tags) =>
        PickedIsKnown(cfg, o, i, record, t, tags);
        TagsToKey(o, t, tags);
    }
  }

  lemma TagsToKey(o: Origin, t: OciResolver.Target, tags: seq<string>)
    requires '/' !in t.host && TagsKnown(o, t, tags)
    ensures KeyKnown(o, OciResolver.CacheKey(t), tags)
  {
    hide OciResolver.CacheKey;
  }

  lemma CallStepKnown(o: Origin, call: OverlappingCalls.Call, index: IndexCache.Cache, now: int, ttl: int, answer: IndexCache.Answer)
    requires CallKnown(o, call) && IndexKnown(o, index)
    requires call.Fetching? && answer.Ok? ==> IndexNews(call.url, answer.value) in o.news
    ensures
      var (next, after) := OverlappingCalls.StepCall(call, index, now, ttl, answer);
      CallKnown(o, next) && IndexKnown(o, after) && next.Url() == call.Url()
  {
  }

  lemma IndexStepKnown(cfg: Config, o: Origin, worker: Worker, oci: OciResolver.Cache, index: IndexCache.Cache, now: int, answers: Answers)
    requires worker.Indexing? && worker.i < |cfg.workloads| && WorkerKnown(cfg, o, worker) && IndexKnown(o, index)
    requires worker.call.Fetching? && answers.index.Ok? ==> IndexNews(worker.call.url, answers.index.value) in o.news
    ensures
      var (next, oci', index') := WorkerStep(cfg, worker, oci, index, now, answers);
      WorkerKnown(cfg, o, next) && IndexKnown(o, index') && oci' == oci
  {
    hide Prepare, Concluded, IndexCache.FirstVersion, LatestKnown, ChartsKnown;
    match worker.call {
      case Done(url, Ok(entry)) =>
        ListedIsKnown(cfg, o, worker.i, worker.record, url, entry.charts);
      case Done(_, Err(e)) =>
        ConcludedKnown(cfg, o, worker.i, Err(e));
      case _ =>
        CallStepKnown(o, worker.call, index, now, cfg.indexTTL, answers.index);
    }
  }

  lemma WorkKnown(cfg: Config, o: Origin, p: Pool, w: nat, answers: Answers)
    requires PoolKnown(cfg, o, p) && Enabled(cfg, p, Work(w, answers)) && NewsOf(p, Work(w, answers)) <= o.news
    ensures
      var (next, oci, index) := WorkerStep(cfg, p.workers[w], p.oci, p.index, p.now, answers);
      WorkerKnown(cfg, o, next) && OciKnown(o, oci) && IndexKnown(o, index)
  {
    hide Prepare, Prepared, Concluded, OciKnown, IndexKnown, LatestKnown, CallKnown, IsOciRecord, IsIndexRecord, TagsKnown,
         OciResolver.CachedTags;
    var worker := p.workers[w];
    assert WorkerKnown(cfg, o, worker);
    if worker.Preparing? {
      PreparedKnown(cfg, o, worker.i);
    } else if worker.Indexing? {
      IndexStepKnown(cfg, o, worker, p.oci, p.index, p.now, answers);
    } else if !worker.Writing? {
      OciStepKnown(cfg, o, worker, p.oci, p.index, p.now, answers);
    }
  }

  lemma StepKnown(cfg: Config, o: Origin, p: Pool, step: Step)
    requires PoolKnown(cfg, o, p) && Enabled(cfg, p, step) && NewsOf(p, step) <= o.news
    ensures PoolKnown(cfg, o, Next(cfg, p, step))
  {
    hide WorkerStep, OciKnown, IndexKnown, LatestKnown, IsOciRecord, IsIndexRecord, CallKnown, TagsKnown, NewsOf;
    match step {
      case Work(w, answers) =>
        WorkKnown(cfg, o, p, w, answers);
        assert WorkerKnown(cfg, o, p.workers[w]);
      case _ =>
    }
  }

  lemma {:induction false} RunKnown(cfg: Config, o: Origin, p: Pool, steps: seq<Step>, q: Pool)
    requires PoolKnown(cfg, o, p) && Runs(cfg, p, steps, q) && Heard(cfg, p, steps) <= o.news
    ensures PoolKnown(cfg, o, q)
    decreases |steps|
  {
    hide PoolKnown, Enabled, Next, NewsOf;
    if steps == [] {
    } else {
      StepKnown(cfg, o, p, steps[0]);
      RunKnown(cfg, o, Next(cfg, p, steps[0]), steps[1..], q);
    }
  }

  /** Under every schedule, whatever upstream answers and however often it changes its mind: the latest version of a
      record is unknown, or was picked from what this run heard for that record's own artifact or repository, or from
      what the caches it started with held for it. */
  lemma LatestVersionsAreHeard(cfg: Config, oci: OciResolver.Cache, index: IndexCache.Cache, now: int, steps: seq<Step>, q: Pool)
    requires Runs(cfg, Init(cfg, oci, index, now), steps, q)
    ensures
      var o := Origin(Heard(cfg, Init(cfg, oci, index, now), steps), oci, index);
      forall i :: 0 <= i < |q.records| && q.records[i].Some? ==> LatestKnown(cfg, o, i, q.records[i].value.latestVersion)
  {
    hide Heard, Runs, LatestKnown;
    var p := Init(cfg, oci, index, now);
    var o := Origin(Heard(cfg, p, steps), oci, index);
    RunKnown(cfg, o, p, steps, q);
  }
}
