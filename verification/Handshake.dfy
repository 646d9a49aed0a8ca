/**
 The discovery manager (`internal/discovery/manager.go`) and its handshake with the metrics
 pipeline (`runMetricsPipeline` in `internal/server/server.go`).
 */
module Handshake {
  import opened Model

  type Records = seq<WorkloadRecord>

  /** What one discovery attempt comes to. */
  type Attempt = Result<Records, ResolveError>

  function Absorb(records: Records, attempt: Attempt): Records {
    match attempt
    case Ok(found) => found
    case Err(_) => records
  }

  /** The records of the last successful attempt; none before the first success. */
  function LastGood(attempts: seq<Attempt>): Records {
    if attempts == [] then [] else Absorb(LastGood(attempts[..|attempts| - 1]), attempts[|attempts| - 1])
  }

  ghost predicate IsLatestSuccess(attempts: seq<Attempt>, i: nat) {
    i < |attempts| && attempts[i].Ok? && forall j :: i < j < |attempts| ==> attempts[j].Err?
  }

  /** The last good records are those of the attempt after which none succeeded. */
  lemma {:induction false} LastGoodIsLatestSuccess(attempts: seq<Attempt>, i: nat)
    requires IsLatestSuccess(attempts, i)
    ensures attempts[i] == Ok(LastGood(attempts))
    decreases |attempts|
  {
    var n := |attempts| - 1;
    if i == n {
    } else {
      LastGoodIsLatestSuccess(attempts[..n], i);
    }
  }

  lemma {:induction false} NoSuccessNothingGood(attempts: seq<Attempt>)
    requires forall i :: 0 <= i < |attempts| ==> attempts[i].Err?
    ensures LastGood(attempts) == []
    decreases |attempts|
  {
    if attempts == [] {
    } else {
      NoSuccessNothingGood(attempts[..|attempts| - 1]);
    }
  }

  lemma {:induction false} LatestSuccessAfter(attempts: seq<Attempt>, i: nat) returns (k: nat)
    requires i < |attempts| && attempts[i].Ok?
    ensures i <= k && IsLatestSuccess(attempts, k)
    decreases |attempts| - i
  {
    k := i;
    if j: nat :| i < j < |attempts| && attempts[j].Ok? {
      k := LatestSuccessAfter(attempts, j);
    }
  }

  // ---------------------------------------------------------------- The manager

  class Manager {
    var records: Records
    var closed: bool
    var onceDone: bool
    var closes: nat

    ghost predicate Valid()
      reads this
    {
      closed == onceDone && closes == if closed then 1 else 0
    }

    constructor ()
      ensures Valid() && records == [] && !closed
    {
      records, closed, onceDone, closes := [], false, false, 0;
    }

    /** Closing a closed channel panics. */
    method CloseFirstReconcileDone()
      requires !closed
      modifies this`closed, this`closes
      ensures closed && closes == old(closes) + 1
    {
      closed, closes := true, closes + 1;
    }

    method SignalFirstReconcileDone()
      requires Valid()
      modifies this`closed, this`closes, this`onceDone
      ensures Valid() && closed
    {
      if !onceDone {
        CloseFirstReconcileDone();
        onceDone := true;
      }
    }

    /** A failed attempt keeps the records of the last successful one; either way the first attempt is signalled. */
    method ReconcileOnce(attempt: Attempt)
      requires Valid()
      modifies this
      ensures Valid() && closed
      ensures records == Absorb(old(records), attempt)
    {
      if attempt.Ok? {
        records := attempt.value;
      }
      SignalFirstReconcileDone();
    }

    method Snapshot() returns (out: Records)
      ensures out == records
    {
      out := records;
    }

    /** The attempts of a run: one at the start and one at every tick until it is cancelled. */
    method Run(attempts: seq<Attempt>)
      requires Valid() && records == [] && !closed && attempts != []
      modifies this
      ensures Valid() && closed && closes == 1
      ensures records == LastGood(attempts)
    {
      assert attempts[..1] == [attempts[0]] && [attempts[0]][..0] == [];
      ReconcileOnce(attempts[0]);
      for i := 1 to |attempts|
        invariant Valid() && closed && records == LastGood(attempts[..i])
      {
        assert attempts[..i + 1][..i] == attempts[..i];
        ReconcileOnce(attempts[i]);
      }
      assert attempts[..|attempts|] == attempts;
    }
  }

  // ---------------------------------------------------------------- The handshake

  datatype ManagerAt = Discovering | Updating(found: Records) | Signalling | Resting | ManagerStopped

  datatype PublisherAt = Waiting | Snapping | Building(snapshot: Records, stored: nat) | Sleeping | PublisherStopped

  /** A published snapshot, and how many attempts the manager had absorbed when it was taken. */
  datatype Publication = Publication(snapshot: Records, stored: nat)

  datatype State = State(
    records: Records,
    closed: bool,
    closes: nat,
    cancelled: bool,
    manager: ManagerAt,
    publisher: PublisherAt,
    attempts: seq<Attempt>,
    published: seq<Publication>
  )

  datatype Step =
    | Attempted(attempt: Attempt)
    | Store
    | Signal
    | ManagerTick
    | ManagerStop
    | Proceed
    | Snap
    | Publish
    | PublisherTick
    | PublisherStop
    | Cancel

  const START := State([], false, 0, false, Discovering, Waiting, [], [])

  /** How many attempts are reflected in the stored records. */
  function Stored(s: State): nat {
    if s.manager.Updating? && s.attempts != [] then |s.attempts| - 1 else |s.attempts|
  }

  predicate Enabled(s: State, step: Step) {
    match step
    case Attempted(_) => s.manager.Discovering?
    case Store => s.manager.Updating?
    case Signal => s.manager.Signalling?
    case ManagerTick => s.manager.Resting?
    case ManagerStop => s.manager.Resting? && s.cancelled
    case Proceed => s.publisher.Waiting? && (s.closed || s.cancelled)
    case Snap => s.publisher.Snapping?
    case Publish => s.publisher.Building?
    case PublisherTick => s.publisher.Sleeping?
    case PublisherStop => s.publisher.Sleeping? && s.cancelled
    case Cancel => true
  }

  function Next(s: State, step: Step): State
    requires Enabled(s, step)
  {
    match step
    case Attempted(attempt) =>
      s.(attempts := s.attempts + [attempt], manager := if attempt.Ok? then Updating(attempt.value) else Signalling)
    case Store => s.(records := s.manager.found, manager := Signalling)
    case Signal => s.(closed := true, closes := if s.closed then s.closes else s.closes + 1, manager := Resting)
    case ManagerTick => s.(manager := Discovering)
    case ManagerStop => s.(manager := ManagerStopped)
    case Proceed => s.(publisher := Snapping)
    case Snap => s.(publisher := Building(s.records, Stored(s)))
    case Publish =>
      s.(published := s.published + [Publication(s.publisher.snapshot, s.publisher.stored)], publisher := Sleeping)
    case PublisherTick => s.(publisher := Snapping)
    case PublisherStop => s.(publisher := PublisherStopped)
    case Cancel => s.(cancelled := true)
  }

  ghost predicate Runs(s: State, steps: seq<Step>, t: State)
    decreases |steps|
  {
    if steps == [] then s == t
    else Enabled(s, steps[0]) && Runs(Next(s, steps[0]), steps[1..], t)
  }

  /** A snapshot shows the last good records of the first `stored` attempts. */
  predicate Shows(s: State, snapshot: Records, stored: nat) {
    stored <= Stored(s) && snapshot == LastGood(s.attempts[..stored])
  }

  /** The stored records are the last good ones, and the channel is closed only after they were stored. */
  ghost predicate StoreIsSound(s: State) {
    && (s.manager.Updating? ==> s.attempts != [] && s.attempts[|s.attempts| - 1] == Ok(s.manager.found))
    && s.records == LastGood(s.attempts[..Stored(s)])
    && s.closes == (if s.closed then 1 else 0)
    && (s.closed ==> Stored(s) >= 1)
    && (s.manager.Signalling? || s.manager.Resting? || s.manager.ManagerStopped? ==> s.attempts != [])
    && (s.manager.Resting? || s.manager.ManagerStopped? ==> s.closed)
    && (s.manager.Discovering? && s.attempts != [] ==> s.closed)
  }

  /** Everything published or about to be shows last good records, of ever more attempts. */
  ghost predicate PublishedIsSound(s: State) {
    && (s.publisher.Building? ==> Shows(s, s.publisher.snapshot, s.publisher.stored))
    && (forall j :: 0 <= j < |s.published| ==> Shows(s, s.published[j].snapshot, s.published[j].stored))
    && (forall j, k :: 0 <= j < k < |s.published| ==> s.published[j].stored <= s.published[k].stored)
    && (s.publisher.Building? ==> forall j :: 0 <= j < |s.published| ==> s.published[j].stored <= s.publisher.stored)
  }

  ghost predicate Sound(s: State) {
    StoreIsSound(s) && PublishedIsSound(s)
  }

  lemma ShowsLater(s: State, t: State, snapshot: Records, stored: nat)
    requires Shows(s, snapshot, stored) && Stored(s) <= Stored(t)
    requires s.attempts <= t.attempts
    ensures Shows(t, snapshot, stored)
  {
    assert t.attempts[..stored] == s.attempts[..stored];
  }

  lemma StoredGrows(s: State, step: Step)
    requires StoreIsSound(s) && Enabled(s, step)
    ensures s.attempts <= Next(s, step).attempts && Stored(s) <= Stored(Next(s, step))
  {
    hide LastGood;
  }

  lemma StepStaysSound(s: State, step: Step)
    requires Sound(s) && Enabled(s, step)
    ensures Sound(Next(s, step))
  {
    hide StoreIsSound, PublishedIsSound, Next;
    StoreStaysSound(s, step);
    PublishedStaysSound(s, step);
  }

  lemma StoreStaysSound(s: State, step: Step)
    requires StoreIsSound(s) && Enabled(s, step)
    ensures StoreIsSound(Next(s, step))
  {
    hide LastGood;
    RecordsAreLastGood(s, step);
  }

  lemma PublishedStaysSound(s: State, step: Step)
    requires StoreIsSound(s) && PublishedIsSound(s) && Enabled(s, step)
    ensures PublishedIsSound(Next(s, step))
  {
    hide LastGood, Shows;
    var t := Next(s, step);
    StoredGrows(s, step);
    if s.publisher.Building? { ShowsLater(s, t, s.publisher.snapshot, s.publisher.stored); }
    forall j | 0 <= j < |s.published|
      ensures Shows(t, s.published[j].snapshot, s.published[j].stored) && s.published[j].stored <= Stored(s)
    {
      ShowsLater(s, t, s.published[j].snapshot, s.published[j].stored);
      ShowsAtMostStored(s, s.published[j].snapshot, s.published[j].stored);
    }
    if step.Snap? { SnapShows(t); }
  }

  lemma ShowsAtMostStored(s: State, snapshot: Records, stored: nat)
    requires Shows(s, snapshot, stored)
    ensures stored <= Stored(s)
  {
  }

  lemma SnapShows(t: State)
    requires t.publisher == Building(t.records, Stored(t))
    requires t.records == LastGood(t.attempts[..Stored(t)])
    ensures Shows(t, t.publisher.snapshot, t.publisher.stored)
  {
  }

  lemma LastGoodAbsorbs(attempts: seq<Attempt>)
    requires attempts != []
    ensures LastGood(attempts) == Absorb(LastGood(attempts[..|attempts| - 1]), attempts[|attempts| - 1])
  {
  }

  lemma RecordsAreLastGood(s: State, step: Step)
    requires StoreIsSound(s) && Enabled(s, step)
    ensures Next(s, step).records == LastGood(Next(s, step).attempts[..Stored(Next(s, step))])
  {
    hide LastGood;
    var t := Next(s, step);
    assert s.attempts[..|s.attempts|] == s.attempts && t.attempts[..|t.attempts|] == t.attempts;
    match step {
      case Attempted(attempt) =>
        assert t.attempts[..|s.attempts|] == s.attempts;
        LastGoodAbsorbs(t.attempts);
      case Store =>
        LastGoodAbsorbs(s.attempts);
      case _ =>
    }
  }

  lemma {:induction false} RunStaysSound(s: State, steps: seq<Step>, t: State)
    requires Sound(s) && Runs(s, steps, t)
    ensures Sound(t)
    decreases |steps|
  {
    hide Sound, Enabled, Next;
    if steps == [] {
    } else {
      StepStaysSound(s, steps[0]);
      RunStaysSound(Next(s, steps[0]), steps[1..], t);
    }
  }

  // ---------------------------------------------------------------- Waiting for the first attempt

  /** Whenever the publisher leaves its wait in the run, the channel is closed. */
  ghost predicate WaitsItOut(s: State, steps: seq<Step>)
    decreases |steps|
  {
    if steps == [] || !Enabled(s, steps[0]) then true
    else (steps[0].Proceed? ==> s.closed) && WaitsItOut(Next(s, steps[0]), steps[1..])
  }

  /** Everything published or about to be reflects at least one attempt. */
  ghost predicate Informed(s: State) {
    && (!s.publisher.Waiting? ==> s.closed)
    && (s.publisher.Building? ==> s.publisher.stored >= 1)
    && (forall j :: 0 <= j < |s.published| ==> s.published[j].stored >= 1)
  }

  lemma StepStaysInformed(s: State, step: Step)
    requires StoreIsSound(s) && Informed(s) && Enabled(s, step) && (step.Proceed? ==> s.closed)
    ensures Informed(Next(s, step))
  {
    hide LastGood;
  }

  lemma {:induction false} WaitingInforms(s: State, steps: seq<Step>, t: State)
    requires Sound(s) && Informed(s) && Runs(s, steps, t) && WaitsItOut(s, steps)
    ensures Informed(t)
    decreases |steps|
  {
    hide StoreIsSound, PublishedIsSound, Informed, Enabled, Next;
    if steps == [] {
    } else {
      StepStaysSound(s, steps[0]);
      StepStaysInformed(s, steps[0]);
      WaitingInforms(Next(s, steps[0]), steps[1..], t);
    }
  }

  /** A run that has not been cancelled has waited. */
  lemma {:induction false} UncancelledWaits(s: State, steps: seq<Step>, t: State)
    requires Runs(s, steps, t)
    ensures s.cancelled ==> t.cancelled
    ensures !t.cancelled ==> WaitsItOut(s, steps)
    decreases |steps|
  {
    if steps == [] {
    } else {
      UncancelledWaits(Next(s, steps[0]), steps[1..], t);
    }
  }

  ghost predicate Publishes(steps: seq<Step>) {
    exists i :: 0 <= i < |steps| && steps[i].Publish?
  }

  /** At some point of the run a snapshot is taken before any attempt is stored, and published later. */
  ghost predicate SnapsBlank(s: State, steps: seq<Step>)
    decreases |steps|
  {
    if steps == [] || !Enabled(s, steps[0]) then false
    else (steps[0].Snap? && Stored(s) == 0 && Publishes(steps[1..])) || SnapsBlank(Next(s, steps[0]), steps[1..])
  }

  /** Something published reflects no attempt. */
  ghost predicate HasBlank(s: State) {
    exists j :: 0 <= j < |s.published| && s.published[j].stored == 0
  }

  lemma StepAndBlanks(s: State, step: Step)
    requires Enabled(s, step)
    ensures HasBlank(Next(s, step)) <==> HasBlank(s) || (step.Publish? && s.publisher.stored == 0)
  {
    var t := Next(s, step);
    if j :| 0 <= j < |s.published| && s.published[j].stored == 0 {
      assert t.published[j].stored == 0;
    }
    if step.Publish? {
      assert t.published[|s.published|].stored == s.publisher.stored;
    }
  }

  lemma PublishesStep(steps: seq<Step>)
    requires steps != []
    ensures Publishes(steps) <==> steps[0].Publish? || Publishes(steps[1..])
  {
    if i :| 0 <= i < |steps[1..]| && steps[1..][i].Publish? {
      assert steps[i + 1].Publish?;
    }
  }

  lemma {:induction false} BlanksOfRun(s: State, steps: seq<Step>, t: State)
    requires Runs(s, steps, t)
    ensures
      HasBlank(t) <==>
      HasBlank(s) || SnapsBlank(s, steps) || (s.publisher.Building? && s.publisher.stored == 0 && Publishes(steps))
    decreases |steps|
  {
    hide HasBlank, Publishes, Stored;
    if steps == [] {
      NothingPublishes();
    } else {
      StepAndBlanks(s, steps[0]);
      PublishesStep(steps);
      BlanksOfRun(Next(s, steps[0]), steps[1..], t);
    }
  }

  lemma NothingPublishes()
    ensures !Publishes([])
  {
  }

  // ---------------------------------------------------------------- Whole runs

  /** Over every run: the channel is closed at most once, the stored records are the last good ones, and nothing is
      published from fewer attempts than before. If the publisher waited, as it has unless it was cancelled before
      the first attempt ended, every publication reflects at least that attempt, so once that succeeded it shows a
      successful attempt's records; cancelling the run later takes none of this back. */
  lemma HandshakeHolds(steps: seq<Step>, t: State)
    requires Runs(START, steps, t)
    ensures t.closes <= 1
    ensures t.records == LastGood(t.attempts[..Stored(t)])
    ensures forall j :: 0 <= j < |t.published| ==>
              && t.published[j].stored <= |t.attempts|
              && t.published[j].snapshot == LastGood(t.attempts[..t.published[j].stored])
    ensures forall j, k :: 0 <= j < k < |t.published| ==> t.published[j].stored <= t.published[k].stored
    ensures !t.cancelled ==> WaitsItOut(START, steps)
    ensures WaitsItOut(START, steps) ==> forall j :: 0 <= j < |t.published| ==> t.published[j].stored >= 1
    ensures WaitsItOut(START, steps) && |t.attempts| > 0 && t.attempts[0].Ok? ==>
              forall j :: 0 <= j < |t.published| ==>
                exists i :: 0 <= i < t.published[j].stored && t.attempts[i] == Ok(t.published[j].snapshot)
  {
    hide Runs, WaitsItOut;
    RunStaysSound(START, steps, t);
    UncancelledWaits(START, steps, t);
    if WaitsItOut(START, steps) {
      WaitingInforms(START, steps, t);
      forall j | 0 <= j < |t.published| && |t.attempts| > 0 && t.attempts[0].Ok?
        ensures exists i :: 0 <= i < t.published[j].stored && t.attempts[i] == Ok(t.published[j].snapshot)
      {
        var i := ShownAttempt(t, t.published[j].snapshot, t.published[j].stored);
      }
    }
  }

  lemma ShownAttempt(t: State, snapshot: Records, stored: nat) returns (i: nat)
    requires Shows(t, snapshot, stored) && stored >= 1 && t.attempts[0].Ok?
    ensures i < stored && t.attempts[i] == Ok(snapshot)
  {
    var seen := t.attempts[..stored];
    i := LatestSuccessAfter(seen, 0);
    LastGoodIsLatestSuccess(seen, i);
  }

  /** Something is published that reflects no attempt exactly when a snapshot that is published later is taken before
      any attempt is stored; that takes a publisher that was cancelled out of its wait on an open channel. */
  lemma BlankPublicationExactly(steps: seq<Step>, t: State)
    requires Runs(START, steps, t)
    ensures HasBlank(t) <==> SnapsBlank(START, steps)
    ensures HasBlank(t) ==> t.cancelled && !WaitsItOut(START, steps)
  {
    hide Runs, WaitsItOut, SnapsBlank;
    BlanksOfRun(START, steps, t);
    HandshakeHolds(steps, t);
  }

  /** It happens: cancelled before the first attempt ends, a run publishes an empty snapshot. */
  lemma CancelledRunPublishesNothingFound()
    ensures
      var t := State([], false, 0, true, Discovering, Sleeping, [], [Publication([], 0)]);
      Runs(START, [Cancel, Proceed, Snap, Publish], t)
  {
    var s1 := Next(START, Cancel);
    var s2 := Next(s1, Proceed);
    var s3 := Next(s2, Snap);
    var s4 := Next(s3, Publish);
    assert Runs(s4, [], s4);
    assert [Publish][1..] == [] && Runs(s3, [Publish], s4);
    assert [Snap, Publish][1..] == [Publish] && Runs(s2, [Snap, Publish], s4);
    assert [Proceed, Snap, Publish][1..] == [Snap, Publish] && Runs(s1, [Proceed, Snap, Publish], s4);
    assert [Cancel, Proceed, Snap, Publish][1..] == [Proceed, Snap, Publish];
  }
}
