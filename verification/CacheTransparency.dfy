/**
 While upstream and the cluster answer consistently, the shared caches cannot be seen in the
 result of a build: every schedule gives the records of a sequential, uncached build.
 */
module CacheTransparency {
  import opened Model
  import opened SemVer
  import Tags
  import OciTags
  import OciResolver
  import IndexCache
  import OverlappingCalls
  import opened Catalog
  import opened WorkerPool

  function TrueTags(env: Env, t: OciResolver.Target): Result<seq<string>, ResolveError> {
    OciTags.Fetch(env.registry, t.host, t.repository).result
  }

  /** The answers upstream gives the worker, which a step may rely on only where it waits for them. */
  function TrueAnswers(env: Env, worker: Worker): Answers {
    match worker
    case OciFetching(_, _, t) => Answers(TrueTags(env, t), Err(ChartNotFound))
    case Indexing(_, _, Fetching(url)) => Answers(Err(ChartNotFound), env.index(url))
    case _ => Answers(Err(ChartNotFound), Err(ChartNotFound))
  }

  /** A step that hears from upstream hears what upstream would tell anyone. */
  predicate Honest(cfg: Config, p: Pool, step: Step)
    requires Enabled(cfg, p, step)
  {
    step.Work? ==>
      match p.workers[step.w]
      case OciFetching(_, _, t) => step.answers.tags == TrueTags(cfg.env, t)
      case Indexing(_, _, Fetching(url)) => step.answers.index == cfg.env.index(url)
      case _ => true
  }

  ghost predicate HonestRun(cfg: Config, p: Pool, steps: seq<Step>, q: Pool)
    decreases |steps|
  {
    if steps == [] then p == q
    else
      && Enabled(cfg, p, steps[0]) && Honest(cfg, p, steps[0])
      && HonestRun(cfg, Next(cfg, p, steps[0]), steps[1..], q)
  }

  /** Every cached index is what the repository would answer. */
  ghost predicate IndexFaithful(env: Env, index: IndexCache.Cache) {
    forall url :: url in index ==> env.index(url) == Ok(index[url].charts)
  }

  predicate CallIsTrue(env: Env, call: OverlappingCalls.Call) {
    match call
    case Storing(entry) => env.index(entry.repoURL) == Ok(entry.charts)
    case Rescuing(url, e) => env.index(url) == Err(e)
    case WritingBack(url, entry) => env.index(url) == Ok(entry.charts)
    case Done(url, Ok(entry)) => env.index(url) == Ok(entry.charts)
    case Done(url, Err(e)) => env.index(url) == Err(e)
    case _ => true
  }

  /** What a worker holds is what a worker without caches would hold. */
  predicate WorkerIsTrue(cfg: Config, worker: Worker) {
    if worker.Slot().None? then true
    else
      && worker.i < |cfg.workloads|
      && var record := Prepare(cfg.env, cfg.workloads[worker.i]);
         match worker
         case Preparing(_) => true
         case OciLooking(_, r, t) => r == record && OciTrue(record, t)
         case OciFetching(_, r, t) => r == record && OciTrue(record, t)
         case OciStoring(_, r, t, tags) => r == record && OciTrue(record, t) && TrueTags(cfg.env, t) == Ok(tags)
         case Indexing(_, r, call) => r == record && IndexTrue(record, call) && CallIsTrue(cfg.env, call)
         case Writing(_, r) => r == BuildSingle(cfg.env, cfg.workloads[worker.i])
  }

  predicate OciTrue(record: ChartRecord, t: OciResolver.Target) {
    && CanResolve(record) && record.sourceKind.OCIRegistry?
    && OciResolver.TargetOf(record.repoURL, record.chartName) == Ok(t)
  }

  predicate IndexTrue(record: ChartRecord, call: OverlappingCalls.Call) {
    && CanResolve(record) && !record.sourceKind.OCIRegistry?
    && IndexCache.Refusal(record.repoURL, record.chartName).None?
    && call.Url() == record.repoURL
  }

  ghost predicate PoolIsTrue(cfg: Config, p: Pool) {
    && OciResolver.Faithful(cfg.env.registry, p.oci)
    && IndexFaithful(cfg.env, p.index)
    && (forall w :: 0 <= w < |p.workers| ==> WorkerIsTrue(cfg, p.workers[w]))
    && (forall i :: 0 <= i < |p.records| && i < |cfg.workloads| && p.records[i].Some? ==>
          p.records[i].value == BuildSingle(cfg.env, cfg.workloads[i]))
  }

  lemma ConcludedIsTrue(cfg: Config, i: nat, latest: Result<string, ResolveError>)
    requires i < |cfg.workloads|
    requires
      var record := Prepare(cfg.env, cfg.workloads[i]);
      CanResolve(record) && latest == ResolveUncached(cfg.env, record)
    ensures WorkerIsTrue(cfg, Concluded(cfg.env, i, Prepare(cfg.env, cfg.workloads[i]), latest))
  {
    hide Prepare, CanResolve, ResolveUncached, Finish, Resolved;
  }

  lemma PreparedIsTrue(cfg: Config, i: nat)
    requires i < |cfg.workloads|
    ensures WorkerIsTrue(cfg, Prepared(cfg.env, i, Prepare(cfg.env, cfg.workloads[i])))
  {
    hide Prepare, CanResolve, Finish, Resolved, OciResolver.TargetOf, IndexCache.Refusal, Concluded, OciTags.Fetch, Tags.PickLatest;
    var record := Prepare(cfg.env, cfg.workloads[i]);
    if CanResolve(record) {
      if record.sourceKind.OCIRegistry? {
        var t := OciResolver.TargetOf(record.repoURL, record.chartName);
        if t.Err? { ConcludedIsTrue(cfg, i, Err(t.error)); }
      } else {
        var refusal := IndexCache.Refusal(record.repoURL, record.chartName);
        if refusal.Some? { ConcludedIsTrue(cfg, i, Err(refusal.value)); }
      }
    }
  }

  lemma TargetHostIsSlashFree(repoURL: string, chartName: string)
    ensures
      var t := OciResolver.TargetOf(repoURL, chartName);
      t.Ok? ==> '/' !in t.value.host
  {
    hide OciResolver.ParseOCIRepo;
    OciResolver.ParsedHostIsSlashFree(repoURL);
  }

  /** A step of a worker at one of the OCI stages. */
  lemma OciStepIsTrue(cfg: Config, worker: Worker, oci: OciResolver.Cache, index: IndexCache.Cache, now: int, answers: Answers)
    requires worker.OciLooking? || worker.OciFetching? || worker.OciStoring?
    requires WorkerIsTrue(cfg, worker) && OciResolver.Faithful(cfg.env.registry, oci)
    requires worker.OciFetching? ==> answers.tags == TrueTags(cfg.env, worker.target)
    ensures
      var (next, oci', index') := WorkerStep(cfg, worker, oci, index, now, answers);
      WorkerIsTrue(cfg, next) && OciResolver.Faithful(cfg.env.registry, oci') && index' == index
  {
    hide Prepare, CanResolve, Concluded, OciResolver.TargetOf, OciTags.Fetch, Tags.PickLatest, OciResolver.CacheKey, OciResolver.Faithful;
    var env, t := cfg.env, worker.target;
    TargetHostIsSlashFree(worker.record.repoURL, worker.record.chartName);
    match worker {
      case OciLooking(i, record, _) =>
        var cached := OciResolver.CachedTags(oci, OciResolver.CacheKey(t), now);
        if cached.Some? {
          CachedIsTrue(env, oci, t, now);
          ConcludedIsTrue(cfg, i, Tags.PickLatest(env.core, cached.value));
        }
      case OciFetching(i, record, _) =>
        if answers.tags.Err? { ConcludedIsTrue(cfg, i, Err(answers.tags.error)); }
      case OciStoring(i, record, _, tags) =>
        OciResolver.StoringKeepsFaith(env.registry, oci, t, tags, now, cfg.ociTTL);
        ConcludedIsTrue(cfg, i, Tags.PickLatest(env.core, tags));
    }
  }

  lemma CachedIsTrue(env: Env, oci: OciResolver.Cache, t: OciResolver.Target, now: int)
    requires OciResolver.Faithful(env.registry, oci) && '/' !in t.host
    ensures
      var cached := OciResolver.CachedTags(oci, OciResolver.CacheKey(t), now);
      cached.Some? ==> TrueTags(env, t) == Ok(cached.value)
  {
    hide OciTags.Fetch, OciResolver.CacheKey;
  }

  /** A step of a worker inside an index look-up. With faithful entries the stale rescue is never reached. */
  lemma IndexStepIsTrue(cfg: Config, worker: Worker, oci: OciResolver.Cache, index: IndexCache.Cache, now: int, answers: Answers)
    requires worker.Indexing? && WorkerIsTrue(cfg, worker) && IndexFaithful(cfg.env, index)
    requires worker.call.Fetching? ==> answers.index == cfg.env.index(worker.call.url)
    ensures
      var (next, oci', index') := WorkerStep(cfg, worker, oci, index, now, answers);
      WorkerIsTrue(cfg, next) && IndexFaithful(cfg.env, index') && oci' == oci
  {
    hide Prepare, CanResolve, Concluded, IndexCache.Refusal, IndexCache.FirstVersion;
    match worker.call {
      case Done(_, Ok(entry)) =>
        ConcludedIsTrue(cfg, worker.i, IndexCache.FirstVersion(entry.charts, worker.record.chartName));
      case Done(_, Err(e)) =>
        ConcludedIsTrue(cfg, worker.i, Err(e));
      case _ =>
        CallStepIsTrue(cfg.env, worker.call, index, now, cfg.indexTTL, answers.index);
    }
  }

  lemma CallStepIsTrue(env: Env, call: OverlappingCalls.Call, index: IndexCache.Cache, now: int, ttl: int, answer: IndexCache.Answer)
    requires CallIsTrue(env, call) && IndexFaithful(env, index)
    requires call.Fetching? ==> answer == env.index(call.url)
    ensures
      var (next, after) := OverlappingCalls.StepCall(call, index, now, ttl, answer);
      CallIsTrue(env, next) && IndexFaithful(env, after) && next.Url() == call.Url()
  {
  }

  lemma StepStaysTrue(cfg: Config, p: Pool, step: Step)
    requires PoolIsTrue(cfg, p) && Enabled(cfg, p, step) && Honest(cfg, p, step)
    ensures PoolIsTrue(cfg, Next(cfg, p, step))
  {
    hide WorkerIsTrue, WorkerStep, OciResolver.Faithful, IndexFaithful, BuildSingle;
    match step {
      case Send(w) => PreparingIsTrue(cfg, p.sent);
      case Exit(w) => WaitingIsTrue(cfg);
      case Work(w, answers) =>
        WorkIsTrue(cfg, p, w, answers);
      case _ =>
    }
  }

  lemma PreparingIsTrue(cfg: Config, i: nat)
    requires i < |cfg.workloads|
    ensures WorkerIsTrue(cfg, Preparing(i))
  {
  }

  lemma WaitingIsTrue(cfg: Config)
    ensures WorkerIsTrue(cfg, Idle) && WorkerIsTrue(cfg, Exited)
  {
  }

  lemma WorkIsTrue(cfg: Config, p: Pool, w: nat, answers: Answers)
    requires PoolIsTrue(cfg, p) && Enabled(cfg, p, Work(w, answers)) && Honest(cfg, p, Work(w, answers))
    ensures
      var (next, oci, index) := WorkerStep(cfg, p.workers[w], p.oci, p.index, p.now, answers);
      && WorkerIsTrue(cfg, next) && OciResolver.Faithful(cfg.env.registry, oci) && IndexFaithful(cfg.env, index)
    ensures p.workers[w].Writing? ==> p.workers[w].record == BuildSingle(cfg.env, cfg.workloads[p.workers[w].i])
  {
    hide Prepare, Prepared, Concluded, OciResolver.Faithful, IndexFaithful, BuildSingle, OciTrue, IndexTrue, CallIsTrue,
         OciResolver.CachedTags;
    var worker := p.workers[w];
    assert WorkerIsTrue(cfg, worker);
    if worker.Preparing? {
      PreparedIsTrue(cfg, worker.i);
    } else if worker.Indexing? {
      IndexStepIsTrue(cfg, worker, p.oci, p.index, p.now, answers);
    } else if !worker.Writing? {
      OciStepIsTrue(cfg, worker, p.oci, p.index, p.now, answers);
    }
  }

  lemma {:induction false} RunStaysTrue(cfg: Config, p: Pool, steps: seq<Step>, q: Pool)
    requires PoolIsTrue(cfg, p) && HonestRun(cfg, p, steps, q)
    ensures PoolIsTrue(cfg, q) && Runs(cfg, p, steps, q)
    decreases |steps|
  {
    hide PoolIsTrue, Enabled, Next, Honest;
    if steps == [] {
    } else {
      StepStaysTrue(cfg, p, steps[0]);
      RunStaysTrue(cfg, Next(cfg, p, steps[0]), steps[1..], q);
    }
  }

  /** The records of the sequential build that asks upstream for everything. */
  function UncachedBuild(env: Env, workloads: seq<WorkloadRecord>): seq<ChartRecord> {
    seq(|workloads|, i requires 0 <= i < |workloads| => BuildSingle(env, workloads[i]))
  }

  ghost predicate Built(p: Pool, records: seq<ChartRecord>) {
    |p.records| == |records| && forall i :: 0 <= i < |records| ==> p.records[i] == Some(records[i])
  }

  /** Any number of workers, any interleaving, any expiries and any duplicate misses: a finished build, started with
      caches that are empty or agree with upstream, holds exactly the uncached records. */
  lemma CachesAreTransparent(cfg: Config, oci: OciResolver.Cache, index: IndexCache.Cache, now: int, steps: seq<Step>, q: Pool)
    requires OciResolver.Faithful(cfg.env.registry, oci) && IndexFaithful(cfg.env, index)
    requires HonestRun(cfg, Init(cfg, oci, index, now), steps, q) && q.joined
    ensures Built(q, UncachedBuild(cfg.env, cfg.workloads))
    ensures OciResolver.Faithful(cfg.env.registry, q.oci) && IndexFaithful(cfg.env, q.index)
  {
    hide OciResolver.Faithful, IndexFaithful, BuildSingle, WorkerPool.Accounted, Enabled, Next, Honest;
    var p := Init(cfg, oci, index, now);
    WaitingIsTrue(cfg);
    assert PoolIsTrue(cfg, p);
    RunStaysTrue(cfg, p, steps, q);
    forall i | 0 <= i < |cfg.workloads| ensures |q.records| == |cfg.workloads| && q.records[i].Some? {
      JoinedMeansWritten(cfg, oci, index, now, steps, q, i);
    }
    InitIsAccounted(cfg, oci, index, now);
    RunKeepsAccounts(cfg, p, steps, q);
    AccountedLength(cfg, q);
  }

  lemma AccountedLength(cfg: Config, q: Pool)
    requires Accounted(cfg, q)
    ensures |q.records| == |cfg.workloads|
  {
  }

  lemma EmptyCachesAreFaithful(env: Env)
    ensures OciResolver.Faithful(env.registry, map[]) && IndexFaithful(env, map[])
  {
  }

  /** The first build of a process, whose caches are empty, holds exactly the uncached records. */
  lemma FirstBuildIsUncached(cfg: Config, now: int, steps: seq<Step>, q: Pool)
    requires HonestRun(cfg, Init(cfg, map[], map[], now), steps, q) && q.joined
    ensures Built(q, UncachedBuild(cfg.env, cfg.workloads))
    ensures OciResolver.Faithful(cfg.env.registry, q.oci) && IndexFaithful(cfg.env, q.index)
  {
    hide OciResolver.Faithful, IndexFaithful, HonestRun, UncachedBuild, Init;
    EmptyCachesAreFaithful(cfg.env);
    CachesAreTransparent(cfg, map[], map[], now, steps, q);
  }

  /** `Build` under an arbitrary scheduler: it always finishes, with the uncached records. */
  method Build(cfg: Config, oci: OciResolver.Cache, index: IndexCache.Cache, now: int) returns (q: Pool)
    requires OciResolver.Faithful(cfg.env.registry, oci) && IndexFaithful(cfg.env, index)
    ensures q.joined && Built(q, UncachedBuild(cfg.env, cfg.workloads))
    ensures OciResolver.Faithful(cfg.env.registry, q.oci) && IndexFaithful(cfg.env, q.index)
  {
    hide OciResolver.Faithful, IndexFaithful, BuildSingle, Accounted, PoolIsTrue, WorkerStep, TrueAnswers, Measure;
    q := Init(cfg, oci, index, now);
    InitIsAccounted(cfg, oci, index, now);
    InitIsTrue(cfg, oci, index, now);
    AccountedSent(cfg, q);
    while !q.joined
      invariant Accounted(cfg, q) && PoolIsTrue(cfg, q) && q.sent <= |cfg.workloads|
      decreases Measure(cfg, q)
    {
      // Time may pass before any step.
      var d: nat := *;
      StepKeepsAccounts(cfg, q, Tick(d));
      StepStaysTrue(cfg, q, Tick(d));
      MeasureFalls(cfg, q, Tick(d));
      q := Next(cfg, q, Tick(d));
      SchedulableStep(cfg, q);
      var step :| Enabled(cfg, q, step) && !step.Tick? && Honest(cfg, q, step);
      StepKeepsAccounts(cfg, q, step);
      StepStaysTrue(cfg, q, step);
      MeasureFalls(cfg, q, step);
      q := Next(cfg, q, step);
    }
    JoinedIsBuilt(cfg, q);
  }

  lemma InitIsTrue(cfg: Config, oci: OciResolver.Cache, index: IndexCache.Cache, now: int)
    requires OciResolver.Faithful(cfg.env.registry, oci) && IndexFaithful(cfg.env, index)
    ensures PoolIsTrue(cfg, Init(cfg, oci, index, now))
  {
    hide OciResolver.Faithful, IndexFaithful, BuildSingle;
    WaitingIsTrue(cfg);
  }

  lemma AccountedSent(cfg: Config, q: Pool)
    requires Accounted(cfg, q)
    ensures q.sent <= |cfg.workloads|
  {
  }

  lemma SchedulableStep(cfg: Config, p: Pool)
    requires Accounted(cfg, p) && !p.joined
    ensures exists step :: Enabled(cfg, p, step) && !step.Tick? && Honest(cfg, p, step)
  {
    hide Accounted;
    var none := Answers(Err(ChartNotFound), Err(ChartNotFound));
    var step := NeverStuck(cfg, p, none);
    if step.Work? {
      var honest := Work(step.w, TrueAnswers(cfg.env, p.workers[step.w]));
      assert Enabled(cfg, p, honest) && Honest(cfg, p, honest);
    } else {
      assert Honest(cfg, p, step);
    }
  }

  lemma JoinedIsBuilt(cfg: Config, q: Pool)
    requires Accounted(cfg, q) && PoolIsTrue(cfg, q) && q.joined
    ensures Built(q, UncachedBuild(cfg.env, cfg.workloads))
    ensures OciResolver.Faithful(cfg.env.registry, q.oci) && IndexFaithful(cfg.env, q.index)
  {
    hide OciResolver.Faithful, IndexFaithful, BuildSingle, WorkerIsTrue, Accounted;
    AccountedLength(cfg, q);
    forall i | 0 <= i < |cfg.workloads| ensures q.records[i].Some? {
      AllWritten(cfg, q, i);
    }
  }
}
