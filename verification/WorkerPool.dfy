/**
 The concurrent build: `Builder.Build` in `internal/catalog/builder.go`, with the locked steps
 of the two caching resolvers its workers share, as an interleaved transition system.
 */
module WorkerPool {
  import opened Model
  import opened SemVer
  import Tags
  import OciResolver
  import IndexCache
  import opened OverlappingCalls
  import opened Catalog

  datatype Config = Config(env: Env, workers: int, ociTTL: int, indexTTL: int, workloads: seq<WorkloadRecord>)
  {
    /** The builder runs at least one worker. */
    function Crew(): nat { if workers < 1 then 1 else workers }
  }

  /** Where a worker stands: idle in its receive, at some step of one workload, or returned. */
  datatype Worker =
    | Idle
    | Preparing(i: nat)
    | OciLooking(i: nat, record: ChartRecord, target: OciResolver.Target)
    | OciFetching(i: nat, record: ChartRecord, target: OciResolver.Target)
    | OciStoring(i: nat, record: ChartRecord, target: OciResolver.Target, tags: seq<string>)
    | Indexing(i: nat, record: ChartRecord, call: Call)
    | Writing(i: nat, record: ChartRecord)
    | Exited
  {
    function Slot(): Option<nat> {
      if Idle? || Exited? then None else Some(i)
    }

    /** How many steps the worker is from idling, at most. */
    function Rank(): nat {
      match this
      case Exited => 0
      case Idle => 1
      case Writing(_, _) => 2
      case OciStoring(_, _, _, _) => 3
      case OciFetching(_, _, _) => 4
      case OciLooking(_, _, _) => 5
      case Indexing(_, _, call) =>
        (match call
         case Done(_, _) => 3
         case Storing(_) => 4
         case WritingBack(_, _) => 4
         case Rescuing(_, _) => 5
         case Fetching(_) => 6
         case Looking(_) => 7)
      case Preparing(_) => 8
    }
  }

  datatype Pool = Pool(
    sent: nat,
    closed: bool,
    joined: bool,
    workers: seq<Worker>,
    records: seq<Option<ChartRecord>>,
    oci: OciResolver.Cache,
    index: IndexCache.Cache,
    now: int
  )

  /** What upstream says to a worker that is waiting for it. */
  datatype Answers = Answers(tags: Result<seq<string>, ResolveError>, index: IndexCache.Answer)

  datatype Step = Send(w: nat) | Close | Work(w: nat, answers: Answers) | Exit(w: nat) | Join | Tick(d: nat)

  function Init(cfg: Config, oci: OciResolver.Cache, index: IndexCache.Cache, now: int): Pool {
    Pool(0, false, false, seq(cfg.Crew(), w => Idle), seq(|cfg.workloads|, i => None), oci, index, now)
  }

  /** The channel is unbuffered: a send needs a worker that is receiving. */
  predicate Enabled(cfg: Config, p: Pool, step: Step) {
    match step
    case Send(w) => !p.closed && p.sent < |cfg.workloads| && w < |p.workers| && p.workers[w].Idle?
    case Close => !p.closed && p.sent == |cfg.workloads|
    case Work(w, _) => w < |p.workers| && p.workers[w].Slot().Some? && p.workers[w].i < |cfg.workloads| && p.workers[w].i < |p.records|
    case Exit(w) => p.closed && w < |p.workers| && p.workers[w].Idle?
    case Join => p.closed && !p.joined && forall w :: 0 <= w < |p.workers| ==> p.workers[w].Exited?
    case Tick(_) => true
  }

  function Concluded(env: Env, i: nat, record: ChartRecord, latest: Result<string, ResolveError>): Worker {
    Writing(i, Finish(env.core, Resolved(record, latest)))
  }

  function Prepared(env: Env, i: nat, record: ChartRecord): Worker {
    if !CanResolve(record) then Writing(i, Finish(env.core, record))
    else if record.sourceKind.OCIRegistry? then
      match OciResolver.TargetOf(record.repoURL, record.chartName)
      case Err(e) => Concluded(env, i, record, Err(e))
      case Ok(target) => OciLooking(i, record, target)
    else
      match IndexCache.Refusal(record.repoURL, record.chartName)
      case Some(e) => Concluded(env, i, record, Err(e))
      case None => Indexing(i, record, Looking(record.repoURL))
  }

  /** One step of a busy worker: at most one access to each shared cache, under its lock. */
  function WorkerStep(cfg: Config, worker: Worker, oci: OciResolver.Cache, index: IndexCache.Cache, now: int, answers: Answers)
    : (Worker, OciResolver.Cache, IndexCache.Cache)
    requires worker.Slot().Some? && worker.i < |cfg.workloads|
  {
    var env := cfg.env;
    match worker
    case Preparing(i) => (Prepared(env, i, Prepare(env, cfg.workloads[i])), oci, index)
    case OciLooking(i, record, target) =>
      (match OciResolver.CachedTags(oci, OciResolver.CacheKey(target), now)
       case Some(tags) => (Concluded(env, i, record, Tags.PickLatest(env.core, tags)), oci, index)
       case None => (OciFetching(i, record, target), oci, index))
    case OciFetching(i, record, target) =>
      (match answers.tags
       case Ok(tags) => (OciStoring(i, record, target, tags), oci, index)
       case Err(e) => (Concluded(env, i, record, Err(e)), oci, index))
    case OciStoring(i, record, target, tags) =>
      (Concluded(env, i, record, Tags.PickLatest(env.core, tags)),
       OciResolver.StoreTags(oci, OciResolver.CacheKey(target), tags, now, cfg.ociTTL), index)
    case Indexing(i, record, call) =>
      (match call
       case Done(_, Ok(entry)) => (Concluded(env, i, record, IndexCache.FirstVersion(entry.charts, record.chartName)), oci, index)
       case Done(_, Err(e)) => (Concluded(env, i, record, Err(e)), oci, index)
       case _ =>
         var (next, after) := StepCall(call, index, now, cfg.indexTTL, answers.index);
         (Indexing(i, record, next), oci, after))
    case Writing(_, _) => (Idle, oci, index)
  }

  function Next(cfg: Config, p: Pool, step: Step): Pool
    requires Enabled(cfg, p, step)
  {
    match step
    case Send(w) => p.(sent := p.sent + 1, workers := p.workers[w := Preparing(p.sent)])
    case Close => p.(closed := true)
    case Work(w, answers) =>
      var worker := p.workers[w];
      var (next, oci, index) := WorkerStep(cfg, worker, p.oci, p.index, p.now, answers);
      p.(workers := p.workers[w := next], oci := oci, index := index,
         records := if worker.Writing? then p.records[worker.i := Some(worker.record)] else p.records)
    case Exit(w) => p.(workers := p.workers[w := Exited])
    case Join => p.(joined := true)
    case Tick(d) => p.(now := p.now + d)
  }

  ghost predicate Runs(cfg: Config, p: Pool, steps: seq<Step>, q: Pool)
    decreases |steps|
  {
    if steps == [] then p == q
    else Enabled(cfg, p, steps[0]) && Runs(cfg, Next(cfg, p, steps[0]), steps[1..], q)
  }

  // ---------------------------------------------------------------- Every index in exactly one place

  ghost predicate Held(p: Pool, i: nat) {
    exists w :: 0 <= w < |p.workers| && p.workers[w].Slot() == Some(i)
  }

  /** Every sent index is either held by exactly one worker or written; nothing else is held or written. */
  ghost predicate Accounted(cfg: Config, p: Pool) {
    && |p.workers| == cfg.Crew() && |p.records| == |cfg.workloads| && p.sent <= |cfg.workloads|
    && (p.closed ==> p.sent == |cfg.workloads|)
    && (forall w :: 0 <= w < |p.workers| && p.workers[w].Exited? ==> p.closed)
    && (p.joined ==> p.closed && forall w :: 0 <= w < |p.workers| ==> p.workers[w].Exited?)
    && (forall w :: 0 <= w < |p.workers| && p.workers[w].Slot().Some? ==>
          p.workers[w].i < p.sent && p.records[p.workers[w].i].None?)
    && (forall v, w :: 0 <= v < w < |p.workers| && p.workers[v].Slot().Some? ==> p.workers[v].Slot() != p.workers[w].Slot())
    && (forall i :: 0 <= i < p.sent && p.records[i].None? ==> Held(p, i))
    && (forall i :: p.sent <= i < |p.records| ==> p.records[i].None?)
  }

  lemma InitIsAccounted(cfg: Config, oci: OciResolver.Cache, index: IndexCache.Cache, now: int)
    ensures Accounted(cfg, Init(cfg, oci, index, now))
  {
  }

  lemma WorkerStepKeepsSlot(cfg: Config, worker: Worker, oci: OciResolver.Cache, index: IndexCache.Cache, now: int, answers: Answers)
    requires worker.Slot().Some? && worker.i < |cfg.workloads|
    ensures
      var next := WorkerStep(cfg, worker, oci, index, now, answers).0;
      && next.Slot() == (if worker.Writing? then None else worker.Slot())
      && (worker.Writing? ==> next.Idle?)
      && next.Rank() < worker.Rank()
  {
    hide Prepare, CanResolve, Finish, Resolved, OciResolver.TargetOf, IndexCache.Refusal, Tags.PickLatest, OciResolver.CacheKey;
  }

  lemma HeldElsewhere(p: Pool, q: Pool, w: nat, i: nat)
    requires Held(p, i) && w < |p.workers| && |q.workers| == |p.workers|
    requires forall v :: 0 <= v < |p.workers| && v != w ==> q.workers[v] == p.workers[v]
    requires q.workers[w].Slot() == p.workers[w].Slot() || p.workers[w].Slot() != Some(i)
    ensures Held(q, i)
  {
    var v :| 0 <= v < |p.workers| && p.workers[v].Slot() == Some(i);
    assert q.workers[v].Slot() == Some(i);
  }

  lemma StepKeepsAccounts(cfg: Config, p: Pool, step: Step)
    requires Accounted(cfg, p) && Enabled(cfg, p, step)
    ensures Accounted(cfg, Next(cfg, p, step))
  {
    hide WorkerStep, Held;
    var q := Next(cfg, p, step);
    match step {
      case Send(w) =>
        HoldsItsOwn(q, w);
        forall i | 0 <= i < q.sent && q.records[i].None? ensures Held(q, i) {
          if i < p.sent { HeldElsewhere(p, q, w, i); }
        }
      case Work(w, answers) =>
        WorkerStepKeepsSlot(cfg, p.workers[w], p.oci, p.index, p.now, answers);
        forall i | 0 <= i < q.sent && q.records[i].None? ensures Held(q, i) {
          HeldElsewhere(p, q, w, i);
        }
      case Exit(w) =>
        forall i | 0 <= i < q.sent && q.records[i].None? ensures Held(q, i) {
          HeldElsewhere(p, q, w, i);
        }
      case _ =>
        forall i | 0 <= i < q.sent && q.records[i].None? ensures Held(q, i) {
          HeldSame(p, q, i);
        }
    }
  }

  lemma HoldsItsOwn(p: Pool, w: nat)
    requires w < |p.workers| && p.workers[w].Slot().Some?
    ensures Held(p, p.workers[w].i)
  {
  }

  lemma HeldSame(p: Pool, q: Pool, i: nat)
    requires Held(p, i) && q.workers == p.workers
    ensures Held(q, i)
  {
  }

  /** In every reachable state the accounts are in order. */
  lemma {:induction false} RunKeepsAccounts(cfg: Config, p: Pool, steps: seq<Step>, q: Pool)
    requires Accounted(cfg, p) && Runs(cfg, p, steps, q)
    ensures Accounted(cfg, q)
    decreases |steps|
  {
    hide Accounted, Enabled, Next;
    if steps == [] {
    } else {
      StepKeepsAccounts(cfg, p, steps[0]);
      RunKeepsAccounts(cfg, Next(cfg, p, steps[0]), steps[1..], q);
    }
  }

  /** How often a run writes slot `i`. */
  ghost function Writes(cfg: Config, p: Pool, steps: seq<Step>, i: nat): nat
    decreases |steps|
  {
    if steps == [] || !Enabled(cfg, p, steps[0]) then 0
    else
      (if WritesSlot(p, steps[0], i) then 1 else 0) + Writes(cfg, Next(cfg, p, steps[0]), steps[1..], i)
  }

  predicate WritesSlot(p: Pool, step: Step, i: nat) {
    step.Work? && step.w < |p.workers| && p.workers[step.w].Writing? && p.workers[step.w].i == i
  }

  /** Over any run a slot is written exactly as often as it went from empty to filled: at most once. */
  lemma {:induction false} WrittenOnce(cfg: Config, p: Pool, steps: seq<Step>, q: Pool, i: nat)
    requires Accounted(cfg, p) && Runs(cfg, p, steps, q) && i < |cfg.workloads|
    ensures |p.records| == |q.records| == |cfg.workloads|
    ensures Writes(cfg, p, steps, i) == (if q.records[i].Some? then 1 else 0) - (if p.records[i].Some? then 1 else 0)
    decreases |steps|
  {
    hide WorkerStep, Held;
    RunKeepsAccounts(cfg, p, steps, q);
    if steps == [] {
    } else {
      StepKeepsAccounts(cfg, p, steps[0]);
      WrittenOnce(cfg, Next(cfg, p, steps[0]), steps[1..], q, i);
    }
  }

  /** When the build has joined its workers, every slot has been written exactly once. */
  lemma JoinedMeansWritten(cfg: Config, oci: OciResolver.Cache, index: IndexCache.Cache, now: int,
                           steps: seq<Step>, q: Pool, i: nat)
    requires Runs(cfg, Init(cfg, oci, index, now), steps, q) && q.joined && i < |cfg.workloads|
    ensures |q.records| == |cfg.workloads| && q.records[i].Some?
    ensures Writes(cfg, Init(cfg, oci, index, now), steps, i) == 1
  {
    InitIsAccounted(cfg, oci, index, now);
    RunKeepsAccounts(cfg, Init(cfg, oci, index, now), steps, q);
    AllWritten(cfg, q, i);
    WrittenOnce(cfg, Init(cfg, oci, index, now), steps, q, i);
  }

  lemma AllWritten(cfg: Config, q: Pool, i: nat)
    requires Accounted(cfg, q) && q.joined && i < |cfg.workloads|
    ensures q.records[i].Some?
  {
    assert forall w :: 0 <= w < |q.workers| ==> q.workers[w].Slot().None?;
    assert !Held(q, i);
  }

  // ---------------------------------------------------------------- Liveness

  function RankSum(workers: seq<Worker>): nat {
    if workers == [] then 0 else workers[0].Rank() + RankSum(workers[1..])
  }

  lemma {:induction false} RankSumUpdate(workers: seq<Worker>, w: nat, worker: Worker)
    requires w < |workers|
    ensures RankSum(workers[w := worker]) == RankSum(workers) - workers[w].Rank() + worker.Rank()
    decreases |workers|
  {
    var updated := workers[w := worker];
    if w == 0 {
      assert updated[1..] == workers[1..];
    } else {
      assert updated[1..] == workers[1..][w - 1 := worker];
      RankSumUpdate(workers[1..], w - 1, worker);
    }
  }

  function Measure(cfg: Config, p: Pool): nat
    requires p.sent <= |cfg.workloads|
  {
    8 * (|cfg.workloads| - p.sent) + RankSum(p.workers) + (if p.closed then 0 else 1) + (if p.joined then 0 else 1)
  }

  /** Whatever the schedule and the answers, every step but the passing of time brings the build nearer its end. */
  lemma MeasureFalls(cfg: Config, p: Pool, step: Step)
    requires Accounted(cfg, p) && Enabled(cfg, p, step)
    ensures Next(cfg, p, step).sent <= |cfg.workloads|
    ensures if step.Tick? then Measure(cfg, Next(cfg, p, step)) == Measure(cfg, p)
            else Measure(cfg, Next(cfg, p, step)) < Measure(cfg, p)
  {
    hide WorkerStep, Held;
    match step {
      case Send(w) => RankSumUpdate(p.workers, w, Preparing(p.sent));
      case Work(w, answers) =>
        WorkerStepKeepsSlot(cfg, p.workers[w], p.oci, p.index, p.now, answers);
        RankSumUpdate(p.workers, w, WorkerStep(cfg, p.workers[w], p.oci, p.index, p.now, answers).0);
      case Exit(w) => RankSumUpdate(p.workers, w, Exited);
      case _ =>
    }
  }

  /** A build that has not joined its workers can always take a step other than letting time pass,
      whatever upstream answers. */
  lemma NeverStuck(cfg: Config, p: Pool, answers: Answers) returns (step: Step)
    requires Accounted(cfg, p) && !p.joined
    ensures Enabled(cfg, p, step) && !step.Tick?
    ensures step.Work? ==> step.answers == answers
  {
    hide Held;
    if w: nat :| w < |p.workers| && p.workers[w].Slot().Some? {
      return Work(w, answers);
    }
    assert forall w :: 0 <= w < |p.workers| ==> p.workers[w].Idle? || p.workers[w].Exited?;
    if !p.closed {
      assert p.workers[0].Idle?;
      return if p.sent < |cfg.workloads| then Send(0) else Close;
    }
    if w: nat :| w < |p.workers| && p.workers[w].Idle? {
      return Exit(w);
    }
    return Join;
  }

  function WorkSteps(steps: seq<Step>): nat {
    if steps == [] then 0 else (if steps[0].Tick? then 0 else 1) + WorkSteps(steps[1..])
  }

  /** Every run takes at most 8 steps per workload, one per worker and two more, besides the passing of time. */
  lemma {:induction false} RunsAreBounded(cfg: Config, p: Pool, steps: seq<Step>, q: Pool)
    requires Accounted(cfg, p) && Runs(cfg, p, steps, q)
    ensures q.sent <= |cfg.workloads| && WorkSteps(steps) + Measure(cfg, q) <= Measure(cfg, p)
    decreases |steps|
  {
    hide Enabled, Next, Held;
    if steps == [] {
    } else {
      StepKeepsAccounts(cfg, p, steps[0]);
      MeasureFalls(cfg, p, steps[0]);
      RunsAreBounded(cfg, Next(cfg, p, steps[0]), steps[1..], q);
    }
  }

  lemma {:induction false} IdleRankSum(workers: seq<Worker>)
    requires forall w :: 0 <= w < |workers| ==> workers[w].Idle?
    ensures RankSum(workers) == |workers|
    decreases |workers|
  {
    if workers == [] {
    } else {
      IdleRankSum(workers[1..]);
    }
  }

  /** Looking for cached tags: an entry answers as long as its lifetime lasts, the last moment included, and never after. */
  lemma LookupByAge(cfg: Config, worker: Worker, oci: OciResolver.Cache, index: IndexCache.Cache, now: int, answers: Answers)
    requires worker.OciLooking? && worker.i < |cfg.workloads|
    ensures
      var (next, oci', index') := WorkerStep(cfg, worker, oci, index, now, answers);
      var key := worker.target.host + "/" + worker.target.repository;
      && oci' == oci && index' == index
      && (key in oci && now <= oci[key].expiresAt ==>
            next == Concluded(cfg.env, worker.i, worker.record, Tags.PickLatest(cfg.env.core, oci[key].tags)))
      && (key !in oci || now > oci[key].expiresAt ==> next == OciFetching(worker.i, worker.record, worker.target))
  {
    hide Concluded, Tags.PickLatest;
  }

  /** Storing fetched tags gives them the configured lifetime from then on. */
  lemma StoreByClock(cfg: Config, worker: Worker, oci: OciResolver.Cache, index: IndexCache.Cache, now: int, answers: Answers)
    requires worker.OciStoring? && worker.i < |cfg.workloads|
    ensures
      var (next, oci', index') := WorkerStep(cfg, worker, oci, index, now, answers);
      oci' == oci[worker.target.host + "/" + worker.target.repository := OciResolver.CacheEntry(worker.tags, now + cfg.ociTTL)] && index' == index
  {
    hide Concluded, Tags.PickLatest;
  }

  lemma InitMeasure(cfg: Config, oci: OciResolver.Cache, index: IndexCache.Cache, now: int)
    ensures Measure(cfg, Init(cfg, oci, index, now)) == 8 * |cfg.workloads| + (if cfg.workers < 1 then 1 else cfg.workers) + 2
  {
    IdleRankSum(Init(cfg, oci, index, now).workers);
  }
}
