/**
 What the published series say, label by label and value by value (`internal/metrics/charts.go`).
 */
module PublishedSeries {
  import opened Text
  import opened Model
  import opened SemVer
  import VersionEngine
  import Discovery
  import opened ChartMetrics

  // ---------------------------------------------------------------- Labels

  /** A label shows a text, or `unknown` if there is none. */
  predicate ShowsText(value: string, text: string) {
    if text == "" then value == "unknown" else value == text
  }

  predicate ShowsKind(value: string, kind: SourceKind) {
    match kind
    case UnknownKind => value == "unknown"
    case HelmRepo => value == "helm_repo"
    case OCIRegistry => value == "oci_registry"
    case Git => value == "git"
  }

  predicate IsBehind(core: CoreParser, current: string, latest: string) {
    var cur, lat := NewVersion(core, TrimSpace(current)), NewVersion(core, TrimSpace(latest));
    cur.Some? && lat.Some? && Compare(cur.value, lat.value) < 0
  }

  predicate IsUndecided(core: CoreParser, current: string, latest: string) {
    NewVersion(core, TrimSpace(current)).None? || NewVersion(core, TrimSpace(latest)).None?
  }

  predicate ShowsStatus(core: CoreParser, value: string, current: string, latest: string) {
    if IsUndecided(core, current, latest) then value == "unknown"
    else if IsBehind(core, current, latest) then value == "outdated"
    else value == "up_to_date"
  }

  /** Each label of an info series, from the workload and the record it is about. */
  predicate Describes(core: CoreParser, l: InfoLabels, w: WorkloadRecord, rec: ChartRecord) {
    && l.app == w.appName && l.namespace == w.namespace && l.deploymentType == w.deploymentType
    && ShowsText(l.chart, rec.chartName) && ShowsText(l.repo, rec.repoURL) && ShowsKind(l.sourceKind, rec.sourceKind)
    && ShowsText(l.currentVersion, rec.currentVersion) && ShowsText(l.latestVersion, rec.latestVersion)
    && ShowsStatus(core, l.status, rec.currentVersion, rec.latestVersion)
  }

  lemma DescribesSeries(core: CoreParser, l: InfoLabels, w: WorkloadRecord, rec: ChartRecord)
    ensures Describes(core, l, w, rec) <==> l == SeriesOf(core, w, rec)
  {
    hide NewVersion, Compare, TrimSpace, VersionEngine.Assess;
    VersionEngine.StatusOfTexts(core, rec.currentVersion, rec.latestVersion);
  }

  /** The series is about a record and the workload its ID names. */
  ghost predicate IsOfRecord(core: CoreParser, workloads: seq<WorkloadRecord>, records: seq<ChartRecord>, l: InfoLabels) {
    exists i, j :: IsAbout(core, workloads, records, l, i, j)
  }

  predicate IsAbout(core: CoreParser, workloads: seq<WorkloadRecord>, records: seq<ChartRecord>, l: InfoLabels, i: nat, j: nat) {
    && i < |records| && j < |workloads| && records[i].workloadID == workloads[j].id
    && Describes(core, l, workloads[j], records[i])
  }

  lemma {:induction false} ByIDIsListed(workloads: seq<WorkloadRecord>, id: string) returns (j: nat)
    requires id in ByID(workloads)
    ensures j < |workloads| && workloads[j].id == id && ByID(workloads)[id] == workloads[j]
    decreases |workloads|
  {
    j := |workloads| - 1;
    if workloads[j].id == id {
    } else {
      j := ByIDIsListed(workloads[..j], id);
    }
  }

  lemma OfRecordStep(core: CoreParser, workloads: seq<WorkloadRecord>, front: seq<ChartRecord>, last: ChartRecord, l: InfoLabels)
    requires UniqueIDs(workloads)
    ensures
      IsOfRecord(core, workloads, front + [last], l) <==>
      IsOfRecord(core, workloads, front, l) ||
      (last.workloadID in ByID(workloads) && Describes(core, l, ByID(workloads)[last.workloadID], last))
  {
    hide Describes, ByID, UniqueIDs;
    var records, n := front + [last], |front|;
    if i: nat, j: nat :| IsAbout(core, workloads, front, l, i, j) {
      assert IsAbout(core, workloads, records, l, i, j);
    }
    if last.workloadID in ByID(workloads) {
      var j := ByIDIsListed(workloads, last.workloadID);
      assert IsAbout(core, workloads, records, l, n, j) <==> Describes(core, l, workloads[j], last);
    }
    if i: nat, j: nat :| IsAbout(core, workloads, records, l, i, j) {
      if i < n {
        assert IsAbout(core, workloads, front, l, i, j);
      } else {
        ByIDFinds(workloads, j);
      }
    }
  }

  /** The info series are exactly those of the records whose ID names a workload, each set to 1. */
  lemma {:induction false} InfoSeriesExactly(core: CoreParser, workloads: seq<WorkloadRecord>, records: seq<ChartRecord>, l: InfoLabels)
    requires UniqueIDs(workloads)
    ensures
      var g := Published(core, workloads, records);
      && (l in g.info <==> IsOfRecord(core, workloads, records, l))
      && (l in g.info ==> g.info[l] == 1)
    decreases |records|
  {
    hide Describes, ByID, UniqueIDs, Verdict, SeriesOf, IsOfRecord;
    if records == [] {
      NothingIsOfRecord(core, workloads, l);
    } else {
      var n := |records| - 1;
      var front, last := records[..n], records[n];
      assert records == front + [last];
      InfoSeriesExactly(core, workloads, front, l);
      OfRecordStep(core, workloads, front, last, l);
      LastPublished(core, workloads, records);
      if last.workloadID in ByID(workloads) {
        DescribesSeries(core, l, ByID(workloads)[last.workloadID], last);
      }
    }
  }

  lemma NothingIsOfRecord(core: CoreParser, workloads: seq<WorkloadRecord>, l: InfoLabels)
    ensures !IsOfRecord(core, workloads, [], l)
  {
  }

  lemma LastPublished(core: CoreParser, workloads: seq<WorkloadRecord>, records: seq<ChartRecord>)
    requires records != []
    ensures
      var last, before := records[|records| - 1], Published(core, workloads, records[..|records| - 1]);
      Published(core, workloads, records) ==
      if last.workloadID !in ByID(workloads) then before
      else WithSeries(before, SeriesOf(core, ByID(workloads)[last.workloadID], last), Verdict(core, last))
  {
    hide ByID, Verdict, InfoOf, WithSeries;
  }

  // ---------------------------------------------------------------- Values

  /** The lag of two texts: zero unless the first is behind, else their weighted distance modulo 2^64, at least one. */
  predicate IsLag(core: CoreParser, lag: nat, current: string, latest: string) {
    if !IsBehind(core, current, latest) then lag == 0
    else
      var cur, lat := NewVersion(core, TrimSpace(current)).value, NewVersion(core, TrimSpace(latest)).value;
      var wrapped := (10000 * (lat.major - cur.major) + 100 * (lat.minor - cur.minor) + (lat.patch - cur.patch)) % TWO_64;
      lag == if wrapped < 1 then 1 else wrapped
  }

  /** The labels of a record's narrow series. */
  predicate AreNarrow(n: NarrowLabels, w: WorkloadRecord, rec: ChartRecord) {
    n.app == w.appName && n.namespace == w.namespace && ShowsText(n.chart, rec.chartName)
  }

  /** The narrow series of `n` show what the record's versions call for. */
  predicate ShowsValues(core: CoreParser, g: Gauges, n: NarrowLabels, rec: ChartRecord) {
    && n in g.outdated && g.outdated[n] == (if IsBehind(core, rec.currentVersion, rec.latestVersion) then 1 else 0)
    && n in g.unknown && g.unknown[n] == (if IsUndecided(core, rec.currentVersion, rec.latestVersion) then 1 else 0)
    && n in g.lag && IsLag(core, g.lag[n], rec.currentVersion, rec.latestVersion)
  }

  lemma NarrowIsOne(n: NarrowLabels, core: CoreParser, w: WorkloadRecord, rec: ChartRecord)
    ensures AreNarrow(n, w, rec) <==> n == NarrowOf(SeriesOf(core, w, rec))
  {
    hide Verdict, KindText, StatusText;
  }

  lemma VerdictShows(core: CoreParser, before: Gauges, n: NarrowLabels, w: WorkloadRecord, rec: ChartRecord)
    requires AreNarrow(n, w, rec)
    ensures ShowsValues(core, WithSeries(before, SeriesOf(core, w, rec), Verdict(core, rec)), n, rec)
  {
    hide NewVersion, Compare, TrimSpace, VersionEngine.Assess, SeriesOf, AreNarrow;
    NarrowIsOne(n, core, w, rec);
    VersionEngine.StatusOfTexts(core, rec.currentVersion, rec.latestVersion);
    VersionEngine.LagOfTexts(core, rec.currentVersion, rec.latestVersion);
  }

  /** Record `i` is of workload `j`, and no later record of any workload has its narrow labels. */
  ghost predicate IsLastWith(workloads: seq<WorkloadRecord>, records: seq<ChartRecord>, n: NarrowLabels, i: nat, j: nat) {
    && i < |records| && j < |workloads| && records[i].workloadID == workloads[j].id && AreNarrow(n, workloads[j], records[i])
    && forall p, q :: i < p < |records| && 0 <= q < |workloads| && records[p].workloadID == workloads[q].id ==>
         !AreNarrow(n, workloads[q], records[p])
  }

  /** The narrow series show the last record with their labels. */
  lemma {:induction false} NarrowSeriesShowLast(core: CoreParser, workloads: seq<WorkloadRecord>, records: seq<ChartRecord>,
                                                n: NarrowLabels, i: nat, j: nat)
    requires UniqueIDs(workloads) && IsLastWith(workloads, records, n, i, j)
    ensures ShowsValues(core, Published(core, workloads, records), n, records[i])
    decreases |records|
  {
    hide ByID, UniqueIDs, Verdict, SeriesOf, AreNarrow, IsBehind, IsUndecided, IsLag;
    var last := |records| - 1;
    LastPublished(core, workloads, records);
    if i == last {
      ByIDFinds(workloads, j);
      VerdictShows(core, Published(core, workloads, records[..last]), n, workloads[j], records[i]);
    } else {
      NarrowSeriesShowLast(core, workloads, records[..last], n, i, j);
      if records[last].workloadID in ByID(workloads) {
        var q := ByIDIsListed(workloads, records[last].workloadID);
        NarrowIsOne(n, core, workloads[q], records[last]);
      }
    }
  }

  /** For the records of a build over workloads with unique IDs and applications, every workload's own series show its
      own record: all labels of the info series, the flags and the lag. */
  lemma EveryWorkloadIsShown(core: CoreParser, workloads: seq<WorkloadRecord>, records: seq<ChartRecord>, i: nat)
    returns (l: InfoLabels, n: NarrowLabels)
    requires Matched(workloads, records) && UniqueIDs(workloads) && Discovery.UniqueApps(workloads) && i < |records|
    ensures
      var g := Published(core, workloads, records);
      && l in g.info && Describes(core, l, workloads[i], records[i])
      && AreNarrow(n, workloads[i], records[i]) && ShowsValues(core, g, n, records[i])
  {
    hide Published, SeriesOf, Describes, ShowsValues;
    l := SeriesOf(core, workloads[i], records[i]);
    n := NarrowOf(l);
    DescribesSeries(core, l, workloads[i], records[i]);
    NarrowIsOne(n, core, workloads[i], records[i]);
    assert IsAbout(core, workloads, records, l, i, i);
    InfoSeriesExactly(core, workloads, records, l);
    forall p, q | i < p < |records| && 0 <= q < |workloads| && records[p].workloadID == workloads[q].id
      ensures !AreNarrow(n, workloads[q], records[p])
    {
      assert q == p;
      assert Discovery.KeyOf(workloads[i]) != Discovery.KeyOf(workloads[p]);
    }
    NarrowSeriesShowLast(core, workloads, records, n, i, i);
  }
}
