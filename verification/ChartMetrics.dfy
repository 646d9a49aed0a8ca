/**
 Publishing the chart gauges (`internal/metrics/charts.go`).
 */
module ChartMetrics {
  import opened Model
  import opened SemVer
  import VersionEngine
  import Discovery

  datatype InfoLabels = InfoLabels(
    app: string,
    namespace: string,
    chart: string,
    repo: string,
    sourceKind: string,
    currentVersion: string,
    latestVersion: string,
    deploymentType: string,
    status: string
  )

  datatype NarrowLabels = NarrowLabels(app: string, namespace: string, chart: string)

  /** The series of the four gauge vectors. */
  datatype Gauges = Gauges(
    info: map<InfoLabels, nat>,
    outdated: map<NarrowLabels, nat>,
    lag: map<NarrowLabels, nat>,
    unknown: map<NarrowLabels, nat>
  )

  const NO_SERIES := Gauges(map[], map[], map[], map[])

  function EmptyToUnknown(v: string): string {
    if v == "" then "unknown" else v
  }

  function NarrowOf(l: InfoLabels): NarrowLabels {
    NarrowLabels(l.app, l.namespace, l.chart)
  }

  function InfoOf(w: WorkloadRecord, rec: ChartRecord, status: VersionStatus): InfoLabels {
    InfoLabels(
      w.appName, w.namespace, EmptyToUnknown(rec.chartName), EmptyToUnknown(rec.repoURL),
      EmptyToUnknown(KindText(rec.sourceKind)), EmptyToUnknown(rec.currentVersion), EmptyToUnknown(rec.latestVersion),
      w.deploymentType, StatusText(status))
  }

  /** The workloads by ID, later ones replacing earlier ones. */
  function ByID(workloads: seq<WorkloadRecord>): map<string, WorkloadRecord> {
    if workloads == [] then map[]
    else
      var last := workloads[|workloads| - 1];
      ByID(workloads[..|workloads| - 1])[last.id := last]
  }

  /** Setting the four series of one record. */
  function WithSeries(g: Gauges, l: InfoLabels, result: VersionEngine.CompareResult): Gauges {
    Gauges(
      g.info[l := 1],
      g.outdated[NarrowOf(l) := if result.status.Outdated? then 1 else 0],
      g.lag[NarrowOf(l) := result.lag],
      g.unknown[NarrowOf(l) := if result.status.UnknownStatus? then 1 else 0])
  }

  function Verdict(core: CoreParser, rec: ChartRecord): VersionEngine.CompareResult {
    VersionEngine.Assess(core, rec.currentVersion, rec.latestVersion)
  }

  /** The gauges after publishing the records over `workloads`, starting from none. */
  function Published(core: CoreParser, workloads: seq<WorkloadRecord>, records: seq<ChartRecord>): Gauges {
    if records == [] then NO_SERIES
    else
      var rec := records[|records| - 1];
      var before := Published(core, workloads, records[..|records| - 1]);
      if rec.workloadID !in ByID(workloads) then before
      else
        var result := Verdict(core, rec);
        WithSeries(before, InfoOf(ByID(workloads)[rec.workloadID], rec, result.status), result)
  }

  class ChartMetrics {
    var info: map<InfoLabels, nat>
    var outdated: map<NarrowLabels, nat>
    var lag: map<NarrowLabels, nat>
    var unknown: map<NarrowLabels, nat>

    constructor ()
      ensures Current() == NO_SERIES
    {
      info, outdated, lag, unknown := map[], map[], map[], map[];
    }

    function Current(): Gauges
      reads this
    {
      Gauges(info, outdated, lag, unknown)
    }

    /** What is published depends on the arguments alone: no earlier series survives. */
    method Publish(core: CoreParser, workloads: seq<WorkloadRecord>, records: seq<ChartRecord>)
      modifies this
      ensures Current() == Published(core, workloads, records)
    {
      hide EmptyToUnknown, KindText, Verdict, StatusText;
      info, outdated, lag, unknown := map[], map[], map[], map[];
      var byID: map<string, WorkloadRecord> := map[];
      for i := 0 to |workloads|
        invariant byID == ByID(workloads[..i])
        invariant Current() == NO_SERIES
      {
        assert workloads[..i + 1][..i] == workloads[..i];
        byID := byID[workloads[i].id := workloads[i]];
      }
      assert workloads[..|workloads|] == workloads;
      for i := 0 to |records|
        invariant Current() == Published(core, workloads, records[..i])
      {
        assert records[..i + 1][..i] == records[..i];
        var rec := records[i];
        if rec.workloadID !in byID { continue; }
        var workload := byID[rec.workloadID];
        var result := Verdict(core, rec);
        info := info[InfoOf(workload, rec, result.status) := 1];
        var labels := NarrowLabels(workload.appName, workload.namespace, EmptyToUnknown(rec.chartName));
        outdated := outdated[labels := if result.status.Outdated? then 1 else 0];
        lag := lag[labels := result.lag];
        unknown := unknown[labels := if result.status.UnknownStatus? then 1 else 0];
      }
      assert records[..|records|] == records;
    }
  }

  // ---------------------------------------------------------------- Agreement

  /** The sum of a gauge vector over all its series. */
  ghost function Sum(m: map<NarrowLabels, nat>): nat
    decreases m.Keys
  {
    if m == map[] then 0
    else
      var k :| k in m;
      m[k] + Sum(m - {k})
  }

  lemma {:induction false} SumInsert(m: map<NarrowLabels, nat>, k: NarrowLabels, v: nat)
    requires k !in m
    ensures Sum(m[k := v]) == Sum(m) + v
    decreases m.Keys
  {
    var larger := m[k := v];
    assert k in larger;
    var x :| x in larger && Sum(larger) == larger[x] + Sum(larger - {x});
    if x == k {
      assert larger - {k} == m;
    } else {
      assert larger - {x} == (m - {x})[k := v];
      SumInsert(m - {x}, k, v);
      SumRemove(m, x);
    }
  }

  lemma {:induction false} SumRemove(m: map<NarrowLabels, nat>, x: NarrowLabels)
    requires x in m
    ensures Sum(m) == m[x] + Sum(m - {x})
    decreases m.Keys, 0
  {
    var y :| y in m && Sum(m) == m[y] + Sum(m - {y});
    if y != x {
      SumRemove(m - {y}, x);
      SumRemove(m - {x}, y);
      assert m - {y} - {x} == m - {x} - {y};
    }
  }

  ghost function WithStatus(info: map<InfoLabels, nat>, status: VersionStatus): set<InfoLabels> {
    set l | l in info && l.status == StatusText(status)
  }

  /** The narrow gauges say of an info series what its own status says. */
  predicate SeriesAgrees(g: Gauges, l: InfoLabels) {
    var n := NarrowOf(l);
    && l in g.info && g.info[l] == 1
    && n in g.outdated && g.outdated[n] == (if l.status == StatusText(Outdated) then 1 else 0)
    && n in g.unknown && g.unknown[n] == (if l.status == StatusText(UnknownStatus) then 1 else 0)
    && n in g.lag && (g.lag[n] >= 1 <==> l.status == StatusText(Outdated))
  }

  ghost predicate HasInfo(g: Gauges, n: NarrowLabels) {
    exists l :: l in g.info && NarrowOf(l) == n
  }

  ghost predicate SameShape(g: Gauges, count: nat) {
    && |g.info| == |g.outdated| == |g.lag| == |g.unknown| == count
    && g.outdated.Keys == g.lag.Keys == g.unknown.Keys
  }

  ghost predicate Agreeing(g: Gauges) {
    && (forall l :: l in g.info ==> SeriesAgrees(g, l))
    && (forall n :: n in g.outdated ==> HasInfo(g, n))
  }

  ghost predicate SumsMatch(g: Gauges) {
    && Sum(g.outdated) == |WithStatus(g.info, Outdated)|
    && Sum(g.unknown) == |WithStatus(g.info, UnknownStatus)|
  }

  /** All four vectors have `count` series over the same applications and agree on each of them and in their sums. */
  ghost predicate InSync(g: Gauges, count: nat) {
    SameShape(g, count) && Agreeing(g) && SumsMatch(g)
  }

  lemma StatusTextsDiffer(a: VersionStatus, b: VersionStatus)
    ensures StatusText(a) == StatusText(b) <==> a == b
  {
  }

  lemma CountInsert(info: map<InfoLabels, nat>, l: InfoLabels, actual: VersionStatus, status: VersionStatus)
    requires l !in info && l.status == StatusText(actual)
    ensures |WithStatus(info[l := 1], status)| == |WithStatus(info, status)| + if actual == status then 1 else 0
  {
    hide StatusText;
    StatusTextsDiffer(actual, status);
    if actual == status {
      assert WithStatus(info[l := 1], status) == WithStatus(info, status) + {l};
    } else {
      assert WithStatus(info[l := 1], status) == WithStatus(info, status);
    }
  }

  /** Adding the series of an application that has none yet keeps the vectors in sync. */
  lemma AddSeriesInSync(g: Gauges, count: nat, l: InfoLabels, result: VersionEngine.CompareResult)
    requires InSync(g, count) && NarrowOf(l) !in g.outdated
    requires l.status == StatusText(result.status) && (result.lag >= 1 <==> result.status.Outdated?)
    ensures InSync(WithSeries(g, l, result), count + 1)
  {
    hide Agreeing, SumsMatch, StatusText;
    NewSeriesIsNew(g, l);
    AddSeriesAgreeing(g, l, result);
    AddSeriesSums(g, l, result);
  }

  lemma NewSeriesIsNew(g: Gauges, l: InfoLabels)
    requires Agreeing(g) && NarrowOf(l) !in g.outdated
    ensures l !in g.info
  {
    hide StatusText;
    assert l in g.info ==> SeriesAgrees(g, l);
  }

  lemma AddSeriesAgreeing(g: Gauges, l: InfoLabels, result: VersionEngine.CompareResult)
    requires Agreeing(g) && NarrowOf(l) !in g.outdated
    requires g.outdated.Keys == g.lag.Keys == g.unknown.Keys
    requires l.status == StatusText(result.status) && (result.lag >= 1 <==> result.status.Outdated?)
    ensures Agreeing(WithSeries(g, l, result))
  {
    hide StatusText, HasInfo;
    var n, h := NarrowOf(l), WithSeries(g, l, result);
    StatusTextsDiffer(result.status, Outdated);
    StatusTextsDiffer(result.status, UnknownStatus);
    forall k | k in h.info ensures SeriesAgrees(h, k) {
      if k != l { assert SeriesAgrees(g, k); }
    }
    forall m | m in h.outdated ensures HasInfo(h, m) {
      if m == n {
        InfoIsThere(h, l);
      } else {
        InfoSurvives(g, h, m);
      }
    }
  }

  lemma AddSeriesSums(g: Gauges, l: InfoLabels, result: VersionEngine.CompareResult)
    requires SumsMatch(g) && l !in g.info && NarrowOf(l) !in g.outdated && NarrowOf(l) !in g.unknown
    requires l.status == StatusText(result.status)
    ensures SumsMatch(WithSeries(g, l, result))
  {
    hide StatusText, Sum, WithStatus;
    SumInsert(g.outdated, NarrowOf(l), if result.status.Outdated? then 1 else 0);
    SumInsert(g.unknown, NarrowOf(l), if result.status.UnknownStatus? then 1 else 0);
    CountInsert(g.info, l, result.status, Outdated);
    CountInsert(g.info, l, result.status, UnknownStatus);
  }

  lemma InfoIsThere(g: Gauges, l: InfoLabels)
    requires l in g.info
    ensures HasInfo(g, NarrowOf(l))
  {
  }

  lemma InfoSurvives(g: Gauges, h: Gauges, m: NarrowLabels)
    requires HasInfo(g, m) && forall k :: k in g.info ==> k in h.info
    ensures HasInfo(h, m)
  {
  }

  /** The records of a build: one for each workload, in order. */
  ghost predicate Matched(workloads: seq<WorkloadRecord>, records: seq<ChartRecord>) {
    |records| == |workloads| && forall i :: 0 <= i < |records| ==> records[i].workloadID == workloads[i].id
  }

  ghost predicate UniqueIDs(workloads: seq<WorkloadRecord>) {
    forall i, j :: 0 <= i < j < |workloads| ==> workloads[i].id != workloads[j].id
  }

  lemma {:induction false} ByIDFinds(workloads: seq<WorkloadRecord>, i: nat)
    requires UniqueIDs(workloads) && i < |workloads|
    ensures workloads[i].id in ByID(workloads) && ByID(workloads)[workloads[i].id] == workloads[i]
    decreases |workloads|
  {
    var n := |workloads| - 1;
    if i == n {
    } else {
      ByIDFinds(workloads[..n], i);
    }
  }

  function SeriesOf(core: CoreParser, w: WorkloadRecord, rec: ChartRecord): InfoLabels {
    InfoOf(w, rec, Verdict(core, rec).status)
  }

  /** The labels a record's narrow series have. */
  function LabelsOf(w: WorkloadRecord, rec: ChartRecord): NarrowLabels {
    NarrowLabels(w.appName, w.namespace, EmptyToUnknown(rec.chartName))
  }

  /** No two workloads are of one application with one chart name. */
  ghost predicate DistinctLabels(workloads: seq<WorkloadRecord>, records: seq<ChartRecord>) {
    forall i, j :: 0 <= i < j < |records| && j < |workloads| ==>
      LabelsOf(workloads[i], records[i]) != LabelsOf(workloads[j], records[j])
  }

  /** The labels are those of one of the first `k` records. */
  ghost predicate IsOfFirst(n: NarrowLabels, workloads: seq<WorkloadRecord>, records: seq<ChartRecord>, k: nat) {
    exists i :: 0 <= i < k && i < |workloads| && i < |records| && LabelsOf(workloads[i], records[i]) == n
  }

  /** The narrow series are those of the first `k` records. */
  ghost predicate FromFirst(g: Gauges, workloads: seq<WorkloadRecord>, records: seq<ChartRecord>, k: nat) {
    && (forall n :: n in g.outdated ==> IsOfFirst(n, workloads, records, k))
    && (forall i :: 0 <= i < k && i < |workloads| && i < |records| ==> LabelsOf(workloads[i], records[i]) in g.outdated)
  }

  /** Publishing one more record of a build. */
  lemma PublishedStep(core: CoreParser, workloads: seq<WorkloadRecord>, records: seq<ChartRecord>, i: nat)
    requires Matched(workloads, records) && UniqueIDs(workloads) && i < |records|
    ensures
      Published(core, workloads, records[..i + 1]) ==
      WithSeries(Published(core, workloads, records[..i]), SeriesOf(core, workloads[i], records[i]), Verdict(core, records[i]))
    ensures NarrowOf(SeriesOf(core, workloads[i], records[i])) == LabelsOf(workloads[i], records[i])
  {
    hide Verdict, EmptyToUnknown, KindText, StatusText, WithSeries;
    assert records[..i + 1][..i] == records[..i];
    ByIDFinds(workloads, i);
  }

  lemma {:induction false} PublishedLabels(core: CoreParser, workloads: seq<WorkloadRecord>, records: seq<ChartRecord>, k: nat)
    requires Matched(workloads, records) && UniqueIDs(workloads) && k <= |records|
    ensures FromFirst(Published(core, workloads, records[..k]), workloads, records, k)
    ensures |Published(core, workloads, records[..k]).outdated| <= k
    decreases k
  {
    hide Published, SeriesOf, LabelsOf, Verdict;
    if k == 0 {
      NoSeriesYet(core, workloads, records);
    } else {
      var i := k - 1;
      PublishedLabels(core, workloads, records, i);
      PublishedStep(core, workloads, records, i);
      var g, h := Published(core, workloads, records[..i]), Published(core, workloads, records[..k]);
      var n := LabelsOf(workloads[i], records[i]);
      assert h.outdated.Keys == g.outdated.Keys + {n};
      forall m | m in h.outdated ensures IsOfFirst(m, workloads, records, k) {
        if m in g.outdated {
          assert IsOfFirst(m, workloads, records, i);
        }
      }
      KeysAreCounted(g.outdated, h.outdated, n);
    }
  }

  lemma KeysAreCounted(m: map<NarrowLabels, nat>, larger: map<NarrowLabels, nat>, n: NarrowLabels)
    requires larger.Keys == m.Keys + {n}
    ensures |larger| == |m| + if n in m then 0 else 1
  {
    assert |larger| == |larger.Keys| && |m| == |m.Keys|;
    if n in m { assert larger.Keys == m.Keys; }
  }

  lemma NoSeriesYet(core: CoreParser, workloads: seq<WorkloadRecord>, records: seq<ChartRecord>)
    ensures records[..0] == [] && Published(core, workloads, records[..0]) == NO_SERIES
  {
  }

  /** Two records with the same labels leave fewer narrow series than records. */
  lemma {:induction false} SharedLabelsLoseSeries(core: CoreParser, workloads: seq<WorkloadRecord>, records: seq<ChartRecord>,
                                                  i: nat, j: nat, k: nat)
    requires Matched(workloads, records) && UniqueIDs(workloads) && i < j < k <= |records|
    requires LabelsOf(workloads[i], records[i]) == LabelsOf(workloads[j], records[j])
    ensures |Published(core, workloads, records[..k]).outdated| < k
    decreases k
  {
    hide Published, SeriesOf, LabelsOf, Verdict, IsOfFirst, UniqueIDs;
    var last := k - 1;
    PublishedLabels(core, workloads, records, last);
    PublishedStep(core, workloads, records, last);
    var g, h := Published(core, workloads, records[..last]), Published(core, workloads, records[..k]);
    var n := LabelsOf(workloads[last], records[last]);
    assert h.outdated.Keys == g.outdated.Keys + {n};
    KeysAreCounted(g.outdated, h.outdated, n);
    if j < last { SharedLabelsLoseSeries(core, workloads, records, i, j, last); }
  }

  lemma {:induction false} PublishedInSync(core: CoreParser, workloads: seq<WorkloadRecord>, records: seq<ChartRecord>, k: nat)
    requires Matched(workloads, records) && UniqueIDs(workloads) && DistinctLabels(workloads, records) && k <= |records|
    ensures
      var g := Published(core, workloads, records[..k]);
      && InSync(g, k)
      && (forall i :: 0 <= i < k ==> SeriesOf(core, workloads[i], records[i]) in g.info)
    decreases k
  {
    hide InSync, Verdict, SeriesOf, LabelsOf, Published;
    if k == 0 {
      NoSeriesYet(core, workloads, records);
      NoSeriesInSync();
    } else {
      var i := k - 1;
      PublishedInSync(core, workloads, records, i);
      PublishedStep(core, workloads, records, i);
      PublishedLabels(core, workloads, records, i);
      InfoFacts(core, workloads[i], records[i]);
      var g := Published(core, workloads, records[..i]);
      assert !IsOfFirst(LabelsOf(workloads[i], records[i]), workloads, records, i);
      AddSeriesInSync(g, i, SeriesOf(core, workloads[i], records[i]), Verdict(core, records[i]));
    }
  }

  lemma NoSeriesInSync()
    ensures InSync(NO_SERIES, 0)
  {
    assert WithStatus(NO_SERIES.info, Outdated) == {} && WithStatus(NO_SERIES.info, UnknownStatus) == {};
  }

  lemma InfoFacts(core: CoreParser, w: WorkloadRecord, rec: ChartRecord)
    ensures
      var (result, l) := (Verdict(core, rec), SeriesOf(core, w, rec));
      && l.status == StatusText(result.status) && l.app == w.appName && l.namespace == w.namespace
      && (result.lag >= 1 <==> result.status.Outdated?)
  {
    hide StatusText, EmptyToUnknown, KindText, VersionEngine.Assess;
    VersionEngine.LagMarksOutdated(core, rec.currentVersion, rec.latestVersion);
  }

  /** For the records of a build over workloads with unique IDs, the four vectors have one series for each workload
      and agree exactly when no two workloads are of one application with one chart name. */
  lemma InSyncExactly(core: CoreParser, workloads: seq<WorkloadRecord>, records: seq<ChartRecord>)
    requires Matched(workloads, records) && UniqueIDs(workloads)
    ensures InSync(Published(core, workloads, records), |workloads|) <==> DistinctLabels(workloads, records)
  {
    hide Published, SeriesOf, LabelsOf, Agreeing, SumsMatch;
    assert records[..|records|] == records;
    if DistinctLabels(workloads, records) {
      PublishedInSync(core, workloads, records, |records|);
    } else {
      var i, j :| 0 <= i < j < |records| && j < |workloads| && LabelsOf(workloads[i], records[i]) == LabelsOf(workloads[j], records[j]);
      SharedLabelsLoseSeries(core, workloads, records, i, j, |records|);
    }
  }

  /** With unique applications the vectors always agree, and show every workload. */
  lemma GaugesAgree(core: CoreParser, workloads: seq<WorkloadRecord>, records: seq<ChartRecord>)
    requires Matched(workloads, records) && UniqueIDs(workloads) && Discovery.UniqueApps(workloads)
    ensures
      var g := Published(core, workloads, records);
      && InSync(g, |workloads|)
      && (forall i :: 0 <= i < |workloads| ==> SeriesOf(core, workloads[i], records[i]) in g.info)
  {
    hide InSync, Published, SeriesOf;
    assert records[..|records|] == records;
    forall i, j | 0 <= i < j < |records| ensures LabelsOf(workloads[i], records[i]) != LabelsOf(workloads[j], records[j]) {
      assert Discovery.KeyOf(workloads[i]) != Discovery.KeyOf(workloads[j]);
    }
    PublishedInSync(core, workloads, records, |records|);
  }

  /** No application is reported as both outdated and unknown. */
  lemma NeverBoth(g: Gauges, count: nat, n: NarrowLabels)
    requires InSync(g, count) && n in g.outdated
    ensures n in g.unknown && g.outdated[n] + g.unknown[n] <= 1
  {
    hide Sum, WithStatus, StatusText;
    assert HasInfo(g, n);
    var l :| l in g.info && NarrowOf(l) == n;
    assert SeriesAgrees(g, l);
    StatusTextsDiffer(Outdated, UnknownStatus);
  }

  /** How the agreement breaks: the second of two workloads with the same labels overwrites the narrow series of the
      first while both info series stay. */
  lemma DuplicateApplicationsDisagree(core: CoreParser, w1: WorkloadRecord, w2: WorkloadRecord, r1: ChartRecord, r2: ChartRecord)
    requires w1.id != w2.id && Discovery.KeyOf(w1) == Discovery.KeyOf(w2)
    requires r1.workloadID == w1.id && r2.workloadID == w2.id && r1.chartName == r2.chartName
    requires Verdict(core, r1).status.Outdated? && !Verdict(core, r2).status.Outdated?
    ensures
      var g := Published(core, [w1, w2], [r1, r2]);
      && |g.info| == 2 && |g.outdated| == 1
      && Sum(g.outdated) == 0 && SeriesOf(core, w1, r1) in WithStatus(g.info, Outdated)
  {
    hide Verdict, StatusText, EmptyToUnknown, KindText, Published, Sum;
    TwoPublished(core, w1, w2, r1, r2);
    var l1, l2 := SeriesOf(core, w1, r1), SeriesOf(core, w2, r2);
    StatusTextsDiffer(Verdict(core, r1).status, Verdict(core, r2).status);
    var g := Published(core, [w1, w2], [r1, r2]);
    assert NarrowOf(l1) == NarrowOf(l2) && l1 != l2;
    assert g.info.Keys == {l1, l2} && g.outdated.Keys == {NarrowOf(l2)};
    assert g.outdated == map[][NarrowOf(l2) := 0];
    SumInsert(map[], NarrowOf(l2), 0);
    SumOfNone();
  }

  lemma TwoPublished(core: CoreParser, w1: WorkloadRecord, w2: WorkloadRecord, r1: ChartRecord, r2: ChartRecord)
    requires w1.id != w2.id && r1.workloadID == w1.id && r2.workloadID == w2.id
    ensures Published(core, [w1, w2], [r1, r2]) ==
            WithSeries(WithSeries(NO_SERIES, SeriesOf(core, w1, r1), Verdict(core, r1)), SeriesOf(core, w2, r2), Verdict(core, r2))
  {
    hide Verdict, InfoOf, WithSeries, ByID;
    var ws, rs := [w1, w2], [r1, r2];
    ByIDFinds(ws, 0);
    ByIDFinds(ws, 1);
    assert Published(core, ws, []) == NO_SERIES;
    assert [r1][..0] == [] && rs[..1] == [r1];
    assert Published(core, ws, [r1]) == WithSeries(NO_SERIES, SeriesOf(core, w1, r1), Verdict(core, r1));
  }

  lemma SumOfNone()
    ensures Sum(map[]) == 0
  {
  }
}
