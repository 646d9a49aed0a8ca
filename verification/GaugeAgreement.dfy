/**
 When the gauge vectors agree although two workloads share their narrow labels
 (`internal/metrics/charts.go`): each narrow series is written by all the records it stands for.
 */
module GaugeAgreement {
  import opened Model
  import opened SemVer
  import opened ChartMetrics

  // ---------------------------------------------------------------- Counting flags

  ghost predicate Flags(m: map<NarrowLabels, nat>) {
    forall n :: n in m ==> m[n] <= 1
  }

  ghost function Ones(m: map<NarrowLabels, nat>): set<NarrowLabels> {
    set n | n in m && m[n] == 1
  }

  lemma {:induction false} SumOfFlags(m: map<NarrowLabels, nat>)
    requires Flags(m)
    ensures Sum(m) == |Ones(m)|
    decreases m.Keys
  {
    if m == map[] {
      SumOfNone();
      assert Ones(m) == {};
    } else {
      var x :| x in m;
      SumRemove(m, x);
      SumOfFlags(m - {x});
      if m[x] == 1 {
        assert Ones(m) == Ones(m - {x}) + {x};
      } else {
        assert Ones(m) == Ones(m - {x});
      }
    }
  }

  ghost function Narrowed(s: set<InfoLabels>): set<NarrowLabels> {
    set l | l in s :: NarrowOf(l)
  }

  /** No two series of `s` have the same narrow labels. */
  ghost predicate Apart(s: set<InfoLabels>) {
    forall a, b :: a in s && b in s && NarrowOf(a) == NarrowOf(b) ==> a == b
  }

  lemma {:induction false} NarrowedSize(s: set<InfoLabels>)
    ensures |Narrowed(s)| <= |s| && (|Narrowed(s)| == |s| <==> Apart(s))
    decreases s
  {
    if s == {} {
      assert Narrowed(s) == {};
    } else {
      var x :| x in s;
      var t := s - {x};
      NarrowedSize(t);
      assert s == t + {x};
      assert Narrowed(s) == Narrowed(t) + {NarrowOf(x)};
      if NarrowOf(x) in Narrowed(t) {
        var y :| y in t && NarrowOf(y) == NarrowOf(x);
        assert Narrowed(s) == Narrowed(t);
      } else {
        assert forall y :: y in t ==> NarrowOf(y) in Narrowed(t);
      }
    }
  }

  // ---------------------------------------------------------------- Any gauges

  /** The narrow vectors hold flags, for the same labels. */
  ghost predicate WellFormed(g: Gauges) {
    && Flags(g.outdated) && Flags(g.unknown)
    && g.outdated.Keys == g.lag.Keys == g.unknown.Keys
  }

  lemma OnesOfStatus(g: Gauges)
    requires WellFormed(g) && Agreeing(g)
    ensures Narrowed(WithStatus(g.info, Outdated)) == Ones(g.outdated)
    ensures Narrowed(WithStatus(g.info, UnknownStatus)) == Ones(g.unknown)
  {
    hide StatusText;
    forall n | n in Ones(g.outdated) ensures n in Narrowed(WithStatus(g.info, Outdated)) {
      var l := SeriesFor(g, n);
      assert l in WithStatus(g.info, Outdated);
    }
    forall n | n in Ones(g.unknown) ensures n in Narrowed(WithStatus(g.info, UnknownStatus)) {
      assert n in g.outdated.Keys;
      var l := SeriesFor(g, n);
      assert l in WithStatus(g.info, UnknownStatus);
    }
    forall l | l in g.info ensures SeriesAgrees(g, l) {
    }
  }

  lemma SeriesFor(g: Gauges, n: NarrowLabels) returns (l: InfoLabels)
    requires Agreeing(g) && n in g.outdated
    ensures l in g.info && NarrowOf(l) == n && SeriesAgrees(g, l)
  {
    hide StatusText, SeriesAgrees;
    assert HasInfo(g, n);
    l :| l in g.info && NarrowOf(l) == n;
  }

  /** For gauges that agree series by series, the sums match exactly when no two outdated series, and no two unknown
      ones, share their narrow labels. */
  lemma SumsMatchExactly(g: Gauges)
    requires WellFormed(g) && Agreeing(g)
    ensures SumsMatch(g) <==> Apart(WithStatus(g.info, Outdated)) && Apart(WithStatus(g.info, UnknownStatus))
  {
    hide WithStatus, Apart, Narrowed, Ones, Agreeing, Sum;
    OnesOfStatus(g);
    SumOfFlags(g.outdated);
    SumOfFlags(g.unknown);
    NarrowedSize(WithStatus(g.info, Outdated));
    NarrowedSize(WithStatus(g.info, UnknownStatus));
  }

  // ---------------------------------------------------------------- Published gauges

  ghost predicate IsSeriesOfFirst(core: CoreParser, workloads: seq<WorkloadRecord>, records: seq<ChartRecord>, k: nat, l: InfoLabels) {
    exists i :: 0 <= i < k && i < |workloads| && i < |records| && SeriesOf(core, workloads[i], records[i]) == l
  }

  /** The narrow series `n` show the verdict on this record. */
  predicate ShowsRecord(g: Gauges, n: NarrowLabels, w: WorkloadRecord, rec: ChartRecord, core: CoreParser) {
    var result := Verdict(core, rec);
    && LabelsOf(w, rec) == n
    && n in g.outdated && g.outdated[n] == (if result.status.Outdated? then 1 else 0)
    && n in g.unknown && g.unknown[n] == (if result.status.UnknownStatus? then 1 else 0)
    && n in g.lag && g.lag[n] == result.lag
  }

  ghost predicate ShowsSome(g: Gauges, n: NarrowLabels, core: CoreParser, workloads: seq<WorkloadRecord>, records: seq<ChartRecord>, k: nat) {
    exists i :: 0 <= i < k && i < |workloads| && i < |records| && ShowsRecord(g, n, workloads[i], records[i], core)
  }

  /** The info series are those of the first `k` records, and each narrow series shows one of them. */
  ghost predicate FromRecords(g: Gauges, core: CoreParser, workloads: seq<WorkloadRecord>, records: seq<ChartRecord>, k: nat) {
    && WellFormed(g)
    && (forall l :: l in g.info ==> g.info[l] == 1 && IsSeriesOfFirst(core, workloads, records, k, l))
    && (forall i :: 0 <= i < k && i < |workloads| && i < |records| ==> SeriesOf(core, workloads[i], records[i]) in g.info)
    && (forall n :: n in g.outdated ==> ShowsSome(g, n, core, workloads, records, k))
  }

  lemma InfoOfFirstGrows(core: CoreParser, workloads: seq<WorkloadRecord>, records: seq<ChartRecord>, k: nat, l: InfoLabels)
    requires IsSeriesOfFirst(core, workloads, records, k, l)
    ensures IsSeriesOfFirst(core, workloads, records, k + 1, l)
  {
    hide SeriesOf;
  }

  lemma ShownElsewhere(g: Gauges, h: Gauges, n: NarrowLabels, core: CoreParser,
                       workloads: seq<WorkloadRecord>, records: seq<ChartRecord>, k: nat)
    requires ShowsSome(g, n, core, workloads, records, k)
    requires n in h.outdated && n in h.unknown && n in h.lag && n in g.outdated && n in g.unknown && n in g.lag
    requires h.outdated[n] == g.outdated[n] && h.unknown[n] == g.unknown[n] && h.lag[n] == g.lag[n]
    ensures ShowsSome(h, n, core, workloads, records, k + 1)
  {
    hide LabelsOf, Verdict;
    var i :| 0 <= i < k && i < |workloads| && i < |records| && ShowsRecord(g, n, workloads[i], records[i], core);
    assert ShowsRecord(h, n, workloads[i], records[i], core);
  }

  lemma {:induction false} PublishedFromRecords(core: CoreParser, workloads: seq<WorkloadRecord>, records: seq<ChartRecord>, k: nat)
    requires Matched(workloads, records) && UniqueIDs(workloads) && k <= |records|
    ensures FromRecords(Published(core, workloads, records[..k]), core, workloads, records, k)
    decreases k
  {
    hide Published, SeriesOf, LabelsOf, Verdict, UniqueIDs;
    if k == 0 {
      NoSeriesYet(core, workloads, records);
    } else {
      var i := k - 1;
      PublishedFromRecords(core, workloads, records, i);
      PublishedStep(core, workloads, records, i);
      var g, h := Published(core, workloads, records[..i]), Published(core, workloads, records[..k]);
      FromRecordsStep(g, h, core, workloads, records, i);
    }
  }

  lemma FromRecordsStep(g: Gauges, h: Gauges, core: CoreParser, workloads: seq<WorkloadRecord>, records: seq<ChartRecord>, i: nat)
    requires |records| == |workloads| && i < |records| && FromRecords(g, core, workloads, records, i)
    requires h == WithSeries(g, SeriesOf(core, workloads[i], records[i]), Verdict(core, records[i]))
    requires NarrowOf(SeriesOf(core, workloads[i], records[i])) == LabelsOf(workloads[i], records[i])
    ensures FromRecords(h, core, workloads, records, i + 1)
  {
    hide SeriesOf, LabelsOf, Verdict, NarrowOf, IsSeriesOfFirst, ShowsSome;
    var added, n := SeriesOf(core, workloads[i], records[i]), LabelsOf(workloads[i], records[i]);
    forall l | l in h.info ensures IsSeriesOfFirst(core, workloads, records, i + 1, l) {
      if l == added {
        LastSeriesIsOfFirst(core, workloads, records, i);
      } else {
        InfoOfFirstGrows(core, workloads, records, i, l);
      }
    }
    forall m | m in h.outdated ensures ShowsSome(h, m, core, workloads, records, i + 1) {
      if m == n {
        LastIsShown(h, core, workloads, records, i);
      } else {
        ShownElsewhere(g, h, m, core, workloads, records, i);
      }
    }
  }

  lemma LastSeriesIsOfFirst(core: CoreParser, workloads: seq<WorkloadRecord>, records: seq<ChartRecord>, i: nat)
    requires |records| == |workloads| && i < |records|
    ensures IsSeriesOfFirst(core, workloads, records, i + 1, SeriesOf(core, workloads[i], records[i]))
  {
    hide SeriesOf;
  }

  lemma LastIsShown(h: Gauges, core: CoreParser, workloads: seq<WorkloadRecord>, records: seq<ChartRecord>, i: nat)
    requires |records| == |workloads| && i < |records|
    requires ShowsRecord(h, LabelsOf(workloads[i], records[i]), workloads[i], records[i], core)
    ensures ShowsSome(h, LabelsOf(workloads[i], records[i]), core, workloads, records, i + 1)
  {
    hide LabelsOf, ShowsRecord;
  }

  // ---------------------------------------------------------------- Exactly when they agree

  ghost predicate SameStatuses(core: CoreParser, workloads: seq<WorkloadRecord>, records: seq<ChartRecord>)
    requires |records| == |workloads|
  {
    forall i, j :: 0 <= i < |records| && 0 <= j < |records| && LabelsOf(workloads[i], records[i]) == LabelsOf(workloads[j], records[j]) ==>
      Verdict(core, records[i]).status == Verdict(core, records[j]).status
  }

  /** Two records have the same labels and the given status. */
  predicate Alike(core: CoreParser, w: WorkloadRecord, r: ChartRecord, v: WorkloadRecord, s: ChartRecord, status: VersionStatus) {
    LabelsOf(w, r) == LabelsOf(v, s) && Verdict(core, r).status == status == Verdict(core, s).status
  }

  ghost predicate SameSeries(core: CoreParser, workloads: seq<WorkloadRecord>, records: seq<ChartRecord>, status: VersionStatus)
    requires |records| == |workloads|
  {
    forall i, j :: 0 <= i < |records| && 0 <= j < |records| && Alike(core, workloads[i], records[i], workloads[j], records[j], status) ==>
      SeriesOf(core, workloads[i], records[i]) == SeriesOf(core, workloads[j], records[j])
  }

  /** Two workloads of one application with one chart name have the same series, or are both up to date. */
  ghost predicate Harmless(core: CoreParser, workloads: seq<WorkloadRecord>, records: seq<ChartRecord>)
    requires |records| == |workloads|
  {
    forall i, j :: 0 <= i < |records| && 0 <= j < |records| && LabelsOf(workloads[i], records[i]) == LabelsOf(workloads[j], records[j]) ==>
      Compatible(core, workloads[i], records[i], workloads[j], records[j])
  }

  predicate Compatible(core: CoreParser, w: WorkloadRecord, r: ChartRecord, v: WorkloadRecord, s: ChartRecord) {
    || SeriesOf(core, w, r) == SeriesOf(core, v, s)
    || (Verdict(core, r).status.UpToDate? && Verdict(core, s).status.UpToDate?)
  }

  lemma SeriesFacts(core: CoreParser, w: WorkloadRecord, rec: ChartRecord)
    ensures
      var l := SeriesOf(core, w, rec);
      && NarrowOf(l) == LabelsOf(w, rec) && l.status == StatusText(Verdict(core, rec).status)
  {
    hide StatusText, EmptyToUnknown, KindText, Verdict;
  }

  /** What a narrow series that shows one record says agrees with another record's info series when their statuses do. */
  lemma ShownAgrees(g: Gauges, core: CoreParser, w: WorkloadRecord, r: ChartRecord, v: WorkloadRecord, s: ChartRecord)
    requires ShowsRecord(g, LabelsOf(w, r), w, r, core) && LabelsOf(w, r) == LabelsOf(v, s)
    requires SeriesOf(core, v, s) in g.info && g.info[SeriesOf(core, v, s)] == 1
    ensures SeriesAgrees(g, SeriesOf(core, v, s)) <==> Verdict(core, r).status == Verdict(core, s).status
  {
    hide StatusText, LabelsOf, SeriesOf, Verdict, NarrowOf;
    SeriesFacts(core, v, s);
    InfoFacts(core, w, r);
    StatusTextsDiffer(Verdict(core, s).status, Outdated);
    StatusTextsDiffer(Verdict(core, s).status, UnknownStatus);
  }

  lemma ShownRecord(g: Gauges, core: CoreParser, workloads: seq<WorkloadRecord>, records: seq<ChartRecord>, n: NarrowLabels)
    returns (i: nat)
    requires FromRecords(g, core, workloads, records, |records|) && |records| == |workloads| && n in g.outdated
    ensures i < |records| && ShowsRecord(g, n, workloads[i], records[i], core)
  {
    hide ShowsRecord, IsSeriesOfFirst, WellFormed, SeriesOf;
    assert ShowsSome(g, n, core, workloads, records, |records|);
    i :| 0 <= i < |records| && i < |workloads| && ShowsRecord(g, n, workloads[i], records[i], core);
  }

  lemma InfoRecord(g: Gauges, core: CoreParser, workloads: seq<WorkloadRecord>, records: seq<ChartRecord>, l: InfoLabels)
    returns (i: nat)
    requires FromRecords(g, core, workloads, records, |records|) && |records| == |workloads| && l in g.info
    ensures i < |records| && SeriesOf(core, workloads[i], records[i]) == l
  {
    hide ShowsSome, WellFormed, SeriesOf;
    assert IsSeriesOfFirst(core, workloads, records, |records|, l);
    i :| 0 <= i < |records| && i < |workloads| && SeriesOf(core, workloads[i], records[i]) == l;
  }

  lemma AgreeingExactly(g: Gauges, core: CoreParser, workloads: seq<WorkloadRecord>, records: seq<ChartRecord>)
    requires |records| == |workloads| && FromRecords(g, core, workloads, records, |records|)
    requires FromFirst(g, workloads, records, |records|)
    ensures Agreeing(g) <==> SameStatuses(core, workloads, records)
  {
    hide SeriesAgrees, LabelsOf, SeriesOf, Verdict, NarrowOf, StatusText, IsSeriesOfFirst, ShowsSome, WellFormed, IsOfFirst;
    if Agreeing(g) {
      forall i, j | 0 <= i < |records| && 0 <= j < |records| && LabelsOf(workloads[i], records[i]) == LabelsOf(workloads[j], records[j])
        ensures Verdict(core, records[i]).status == Verdict(core, records[j]).status
      {
        var k := ShownRecord(g, core, workloads, records, LabelsOf(workloads[i], records[i]));
        ShownHasLabels(g, core, workloads[k], records[k], LabelsOf(workloads[i], records[i]));
        ShownAgrees(g, core, workloads[k], records[k], workloads[i], records[i]);
        ShownAgrees(g, core, workloads[k], records[k], workloads[j], records[j]);
      }
    }
    if SameStatuses(core, workloads, records) {
      forall l | l in g.info ensures SeriesAgrees(g, l) {
        var j := InfoRecord(g, core, workloads, records, l);
        var k := ShownRecord(g, core, workloads, records, LabelsOf(workloads[j], records[j]));
        ShownHasLabels(g, core, workloads[k], records[k], LabelsOf(workloads[j], records[j]));
        ShownAgrees(g, core, workloads[k], records[k], workloads[j], records[j]);
      }
      forall n | n in g.outdated ensures HasInfo(g, n) {
        var k := ShownRecord(g, core, workloads, records, n);
        ShownHasLabels(g, core, workloads[k], records[k], n);
        SeriesFacts(core, workloads[k], records[k]);
        InfoIsThere(g, SeriesOf(core, workloads[k], records[k]));
      }
    }
  }

  lemma ShownHasLabels(g: Gauges, core: CoreParser, w: WorkloadRecord, rec: ChartRecord, n: NarrowLabels)
    requires ShowsRecord(g, n, w, rec, core)
    ensures LabelsOf(w, rec) == n
  {
  }

  /** For records with equal statuses per labels, those of one status have series apart exactly when they are equal. */
  lemma ApartExactly(g: Gauges, core: CoreParser, workloads: seq<WorkloadRecord>, records: seq<ChartRecord>, status: VersionStatus)
    requires |records| == |workloads| && FromRecords(g, core, workloads, records, |records|)
    ensures
      Apart(WithStatus(g.info, status)) <==> SameSeries(core, workloads, records, status)
  {
    hide LabelsOf, SeriesOf, Verdict, NarrowOf, StatusText, IsSeriesOfFirst, ShowsSome, WellFormed;
    var s := WithStatus(g.info, status);
    forall i | 0 <= i < |records|
      ensures SeriesOf(core, workloads[i], records[i]) in s <==> Verdict(core, records[i]).status == status
      ensures NarrowOf(SeriesOf(core, workloads[i], records[i])) == LabelsOf(workloads[i], records[i])
    {
      SeriesFacts(core, workloads[i], records[i]);
      StatusTextsDiffer(Verdict(core, records[i]).status, status);
    }
    if !Apart(s) {
      var a, b :| a in s && b in s && NarrowOf(a) == NarrowOf(b) && a != b;
      var i := InfoRecord(g, core, workloads, records, a);
      var j := InfoRecord(g, core, workloads, records, b);
    }
  }

  /** For the records of a build over workloads with unique IDs, the vectors agree, series by series and in their sums,
      exactly when any two workloads of one application with one chart name have the same series or are both up to date. */
  lemma AgreementExactly(core: CoreParser, workloads: seq<WorkloadRecord>, records: seq<ChartRecord>)
    requires Matched(workloads, records) && UniqueIDs(workloads)
    ensures
      var g := Published(core, workloads, records);
      Agreeing(g) && SumsMatch(g) <==> Harmless(core, workloads, records)
  {
    hide Published, LabelsOf, SeriesOf, Verdict, UniqueIDs, FromFirst, Agreeing, SumsMatch, WithStatus, Apart, IsSeriesOfFirst, ShowsSome;
    var g := Published(core, workloads, records);
    assert records[..|records|] == records;
    PublishedFromRecords(core, workloads, records, |records|);
    PublishedLabels(core, workloads, records, |records|);
    AgreeingExactly(g, core, workloads, records);
    ApartExactly(g, core, workloads, records, Outdated);
    ApartExactly(g, core, workloads, records, UnknownStatus);
    forall i, j | 0 <= i < |records| && 0 <= j < |records| && SeriesOf(core, workloads[i], records[i]) == SeriesOf(core, workloads[j], records[j])
      ensures Verdict(core, records[i]).status == Verdict(core, records[j]).status
    {
      SeriesFacts(core, workloads[i], records[i]);
      SeriesFacts(core, workloads[j], records[j]);
      StatusTextsDiffer(Verdict(core, records[i]).status, Verdict(core, records[j]).status);
    }
    if Agreeing(g) {
      SumsMatchExactly(g);
    }
    HarmlessExactly(core, workloads, records);
  }

  lemma HarmlessExactly(core: CoreParser, workloads: seq<WorkloadRecord>, records: seq<ChartRecord>)
    requires |records| == |workloads|
    ensures
      Harmless(core, workloads, records) <==>
      && SameStatuses(core, workloads, records)
      && SameSeries(core, workloads, records, Outdated) && SameSeries(core, workloads, records, UnknownStatus)
  {
    hide LabelsOf, SeriesOf, Verdict;
    forall i, j | 0 <= i < |records| && 0 <= j < |records| && SeriesOf(core, workloads[i], records[i]) == SeriesOf(core, workloads[j], records[j])
      ensures Verdict(core, records[i]).status == Verdict(core, records[j]).status
    {
      SeriesFacts(core, workloads[i], records[i]);
      SeriesFacts(core, workloads[j], records[j]);
      StatusTextsDiffer(Verdict(core, records[i]).status, Verdict(core, records[j]).status);
    }
  }
}
