/**
 The stages together: discovery, the manager's snapshot, the concurrent build and publication
 (`publishMetrics` in `internal/server/server.go`).
 */
module Pipeline {
  import opened Text
  import opened Model
  import Discovery
  import OciResolver
  import IndexCache
  import VersionEngine
  import Catalog
  import opened WorkerPool
  import CacheTransparency
  import ChartMetrics
  import Handshake

  // ---------------------------------------------------------------- Any answers from upstream

  /** A record is of workload `i`. */
  predicate IsOf(cfg: Config, i: nat, record: ChartRecord) {
    i < |cfg.workloads| && record.workloadID == cfg.workloads[i].id
  }

  /** A finished record is of its workload and carries the engine's verdict on its own versions. */
  predicate IsFinished(cfg: Config, i: nat, record: ChartRecord) {
    IsOf(cfg, i, record) && record.status == ChartMetrics.Verdict(cfg.env.core, record).status
  }

  predicate WorkerIsStamped(cfg: Config, worker: Worker) {
    match worker
    case OciLooking(i, record, _) => IsOf(cfg, i, record)
    case OciFetching(i, record, _) => IsOf(cfg, i, record)
    case OciStoring(i, record, _, _) => IsOf(cfg, i, record)
    case Indexing(i, record, _) => IsOf(cfg, i, record)
    case Writing(i, record) => IsFinished(cfg, i, record)
    case _ => true
  }

  ghost predicate PoolIsStamped(cfg: Config, p: Pool) {
    && (forall w :: 0 <= w < |p.workers| ==> WorkerIsStamped(cfg, p.workers[w]))
    && (forall i :: 0 <= i < |p.records| && p.records[i].Some? ==> IsFinished(cfg, i, p.records[i].value))
  }

  lemma FinishingStamps(cfg: Config, i: nat, record: ChartRecord, latest: Result<string, ResolveError>)
    requires IsOf(cfg, i, record)
    ensures WorkerIsStamped(cfg, Concluded(cfg.env, i, record, latest))
    ensures IsFinished(cfg, i, Catalog.Finish(cfg.env.core, record))
  {
    hide VersionEngine.Assess;
  }

  lemma PreparedIsStamped(cfg: Config, i: nat, record: ChartRecord)
    requires IsOf(cfg, i, record)
    ensures WorkerIsStamped(cfg, Prepared(cfg.env, i, record))
  {
    hide Catalog.CanResolve, OciResolver.TargetOf, IndexCache.Refusal, Concluded, Catalog.Finish, IsFinished;
    FinishingStamps(cfg, i, record, Err(ChartNotFound));
    forall e: ResolveError ensures WorkerIsStamped(cfg, Concluded(cfg.env, i, record, Err(e))) {
      FinishingStamps(cfg, i, record, Err(e));
    }
  }

  lemma WorkerStepStamps(cfg: Config, worker: Worker, oci: OciResolver.Cache, index: IndexCache.Cache, now: int, answers: Answers)
    requires worker.Slot().Some? && worker.i < |cfg.workloads| && WorkerIsStamped(cfg, worker)
    ensures WorkerIsStamped(cfg, WorkerStep(cfg, worker, oci, index, now, answers).0)
  {
    hide Catalog.Prepare, Catalog.CanResolve, OciResolver.TargetOf, IndexCache.Refusal, IndexCache.FirstVersion, Concluded, IsFinished,
         Catalog.Finish, OciResolver.CachedTags, OciResolver.CacheKey;
    if worker.Preparing? {
      var record := Catalog.Prepare(cfg.env, cfg.workloads[worker.i]);
      Catalog.PrepareKeepsID(cfg.env, cfg.workloads[worker.i]);
      PreparedIsStamped(cfg, worker.i, record);
    } else if !worker.Writing? {
      forall latest ensures WorkerIsStamped(cfg, Concluded(cfg.env, worker.i, worker.record, latest)) {
        FinishingStamps(cfg, worker.i, worker.record, latest);
      }
    }
  }

  lemma StepStamps(cfg: Config, p: Pool, step: Step)
    requires PoolIsStamped(cfg, p) && Enabled(cfg, p, step)
    ensures PoolIsStamped(cfg, Next(cfg, p, step))
  {
    hide WorkerStep, IsFinished, IsOf;
    if step.Work? {
      assert WorkerIsStamped(cfg, p.workers[step.w]);
      WorkerStepStamps(cfg, p.workers[step.w], p.oci, p.index, p.now, step.answers);
    }
  }

  lemma {:induction false} RunStamps(cfg: Config, p: Pool, steps: seq<Step>, q: Pool)
    requires PoolIsStamped(cfg, p) && Runs(cfg, p, steps, q)
    ensures PoolIsStamped(cfg, q)
    decreases |steps|
  {
    hide PoolIsStamped, Enabled, Next;
    if steps == [] {
    } else {
      StepStamps(cfg, p, steps[0]);
      RunStamps(cfg, Next(cfg, p, steps[0]), steps[1..], q);
    }
  }

  /** Workload lists as the composite discoverer returns them. */
  ghost predicate Merged(workloads: seq<WorkloadRecord>) {
    Discovery.Ascending(workloads) && Discovery.UniqueApps(workloads)
  }

  lemma MergedHasUniqueIDs(workloads: seq<WorkloadRecord>)
    requires Merged(workloads)
    ensures ChartMetrics.UniqueIDs(workloads)
  {
    hide Before;
    forall i, j | 0 <= i < j < |workloads| ensures workloads[i].id != workloads[j].id {
      assert Before(workloads[i].id, workloads[j].id);
      BeforeIrreflexive(workloads[i].id);
    }
  }

  /** From any merged workloads, under every schedule, whatever the caches hold and upstream answers: after the
      build every workload has exactly one series in each of the four vectors, the vectors agree, and the
      published status of each record is the status the build gave it. */
  lemma EndToEndGauges(cfg: Config, oci: OciResolver.Cache, index: IndexCache.Cache, now: int, steps: seq<Step>, q: Pool,
                       records: seq<ChartRecord>)
    requires Merged(cfg.workloads)
    requires Runs(cfg, Init(cfg, oci, index, now), steps, q) && q.joined
    requires CacheTransparency.Built(q, records)
    ensures
      var g := ChartMetrics.Published(cfg.env.core, cfg.workloads, records);
      && ChartMetrics.InSync(g, |cfg.workloads|)
      && |records| == |cfg.workloads|
      && (forall i :: 0 <= i < |records| ==>
            ChartMetrics.InfoOf(cfg.workloads[i], records[i], records[i].status) in g.info)
  {
    hide IsOf, ChartMetrics.Verdict, ChartMetrics.Published, ChartMetrics.InSync, ChartMetrics.InfoOf, Merged, Enabled, Next, Accounted;
    var p := Init(cfg, oci, index, now);
    assert PoolIsStamped(cfg, p);
    RunStamps(cfg, p, steps, q);
    InitIsAccounted(cfg, oci, index, now);
    RunKeepsAccounts(cfg, p, steps, q);
    CacheTransparency.AccountedLength(cfg, q);
    forall i | 0 <= i < |records| ensures IsFinished(cfg, i, records[i]) {
      assert q.records[i] == Some(records[i]);
    }
    FinishedAreMatched(cfg, records);
    MergedHasUniqueIDs(cfg.workloads);
    MergedHasUniqueApps(cfg.workloads);
    ChartMetrics.GaugesAgree(cfg.env.core, cfg.workloads, records);
  }

  lemma FinishedAreMatched(cfg: Config, records: seq<ChartRecord>)
    requires |records| == |cfg.workloads|
    requires forall i :: 0 <= i < |records| ==> IsFinished(cfg, i, records[i])
    ensures ChartMetrics.Matched(cfg.workloads, records)
  {
    hide ChartMetrics.Verdict;
  }

  lemma MergedHasUniqueApps(workloads: seq<WorkloadRecord>)
    requires Merged(workloads)
    ensures Discovery.UniqueApps(workloads)
  {
  }

  // ---------------------------------------------------------------- One cycle

  lemma UncachedAreMatched(env: Catalog.Env, workloads: seq<WorkloadRecord>)
    ensures ChartMetrics.Matched(workloads, CacheTransparency.UncachedBuild(env, workloads))
  {
    hide Catalog.BuildSingle;
    forall i | 0 <= i < |workloads| ensures Catalog.BuildSingle(env, workloads[i]).workloadID == workloads[i].id {
      Catalog.BuildSingleResult(env, workloads[i]);
    }
  }

  /** One discovery attempt and one publication. The gauges show the stored records, built as if no cache and no
      concurrency existed, and agree with each other; if every source fails the earlier records are shown. */
  method Cycle(manager: Handshake.Manager, metrics: ChartMetrics.ChartMetrics, sources: seq<Discovery.Answer>,
               env: Catalog.Env, workers: int, ociTTL: int, indexTTL: int,
               oci: OciResolver.Cache, index: IndexCache.Cache, now: int)
    returns (oci': OciResolver.Cache, index': IndexCache.Cache)
    requires manager.Valid() && Merged(manager.records)
    requires OciResolver.Faithful(env.registry, oci) && CacheTransparency.IndexFaithful(env, index)
    modifies manager, metrics
    ensures manager.Valid() && manager.closed && Merged(manager.records)
    ensures (forall i :: 0 <= i < |sources| ==> sources[i].Err?) ==> manager.records == old(manager.records)
    ensures (exists i :: 0 <= i < |sources| && sources[i].Ok?) &&
            Discovery.IdsAgree(Discovery.Elements(Discovery.Reported(sources))) ==>
              Discovery.IsCanonical(manager.records, Discovery.Elements(Discovery.Reported(sources)))
    ensures metrics.Current() ==
            ChartMetrics.Published(env.core, manager.records, CacheTransparency.UncachedBuild(env, manager.records))
    ensures ChartMetrics.InSync(metrics.Current(), |manager.records|)
    ensures OciResolver.Faithful(env.registry, oci') && CacheTransparency.IndexFaithful(env, index')
  {
    hide OciResolver.Faithful, CacheTransparency.IndexFaithful, ChartMetrics.Published, ChartMetrics.InSync, Catalog.BuildSingle,
         Discovery.IsCanonical, Discovery.IdsAgree, Discovery.Reported, Discovery.Ascending, Discovery.UniqueApps;
    var attempt := Discovery.Discover(sources);
    manager.ReconcileOnce(attempt);
    var workloads := manager.Snapshot();
    var cfg := Config(env, workers, ociTTL, indexTTL, workloads);
    var pool := CacheTransparency.Build(cfg, oci, index, now);
    oci', index' := pool.oci, pool.index;
    ghost var uncached := CacheTransparency.UncachedBuild(env, workloads);
    var records := seq(|pool.records|, i requires 0 <= i < |pool.records| && pool.records[i].Some? => pool.records[i].value);
    assert records == uncached;
    metrics.Publish(env.core, workloads, records);
    UncachedAreMatched(env, workloads);
    MergedHasUniqueIDs(workloads);
    ChartMetrics.GaugesAgree(env.core, workloads, uncached);
  }

  // ---------------------------------------------------------------- Whole runs

  /** If every successful attempt found merged workloads, as the composite's attempts do, then in every run of the
      handshake every published snapshot is merged. */
  lemma EveryPublicationIsMerged(steps: seq<Handshake.Step>, t: Handshake.State, j: nat)
    requires Handshake.Runs(Handshake.START, steps, t) && j < |t.published|
    requires forall i :: 0 <= i < |t.attempts| && t.attempts[i].Ok? ==> Merged(t.attempts[i].value)
    ensures Merged(t.published[j].snapshot)
  {
    hide Merged, Handshake.Runs;
    Handshake.HandshakeHolds(steps, t);
    var seen := t.attempts[..t.published[j].stored];
    if i: nat :| i < |seen| && seen[i].Ok? {
      var k := Handshake.LatestSuccessAfter(seen, i);
      Handshake.LastGoodIsLatestSuccess(seen, k);
      assert t.attempts[k] == seen[k];
    } else {
      Handshake.NoSuccessNothingGood(seen);
      NothingIsMerged();
    }
  }

  /** From whole runs of the handshake to the gauges: whatever build over a published snapshot comes to its end, under
      whatever schedule, caches and answers, its publication has one series for each workload in each vector, in agreement. */
  lemma EveryPublicationAgrees(steps: seq<Handshake.Step>, t: Handshake.State, j: nat, cfg: Config,
                               oci: OciResolver.Cache, index: IndexCache.Cache, now: int,
                               buildSteps: seq<Step>, q: Pool, records: seq<ChartRecord>)
    requires Handshake.Runs(Handshake.START, steps, t) && j < |t.published|
    requires forall i :: 0 <= i < |t.attempts| && t.attempts[i].Ok? ==> Merged(t.attempts[i].value)
    requires cfg.workloads == t.published[j].snapshot
    requires Runs(cfg, Init(cfg, oci, index, now), buildSteps, q) && q.joined && CacheTransparency.Built(q, records)
    ensures ChartMetrics.InSync(ChartMetrics.Published(cfg.env.core, t.published[j].snapshot, records), |t.published[j].snapshot|)
  {
    hide Merged, Handshake.Runs, Runs, ChartMetrics.InSync, ChartMetrics.Published;
    EveryPublicationIsMerged(steps, t, j);
    EndToEndGauges(cfg, oci, index, now, buildSteps, q, records);
  }

  lemma NothingIsMerged()
    ensures Merged([])
  {
  }
}
