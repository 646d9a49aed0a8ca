/**
 Which storage objects are reported, told from the objects and their labels alone
 (`internal/discovery/helm_release.go`).
 */
module ReleaseObjects {
  import opened Text
  import opened Model
  import opened Discovery
  import opened HelmReleases

  /** The release an object belongs to: what its label `name` says, or its own name without such a label. */
  predicate IsNamed(o: HelmObject, name: string) {
    if "name" in o.labels && o.labels["name"] != "" then name == o.labels["name"] else name == o.name
  }

  ghost predicate SameRelease(a: HelmObject, b: HelmObject) {
    a.namespace == b.namespace && exists name :: IsNamed(a, name) && IsNamed(b, name)
  }

  predicate IsTerraform(o: HelmObject) {
    "app.kubernetes.io/managed-by" in o.labels && o.labels["app.kubernetes.io/managed-by"] == "Terraform"
  }

  /** Each field of the record of an object. */
  predicate DescribesObject(r: WorkloadRecord, isSecret: bool, o: HelmObject) {
    && r.id == (if isSecret then "helm_release_secret" else "helm_release_configmap") + ":" + o.namespace + ":" + o.name
    && IsNamed(o, r.appName) && r.namespace == o.namespace && r.sourceNamespace == o.namespace
    && r.sourceType == (if isSecret then HelmReleaseSecret else HelmReleaseCM)
    && r.deploymentType == (if IsTerraform(o) then "terraform" else "helm")
  }

  lemma DescribesRecord(r: WorkloadRecord, isSecret: bool, o: HelmObject)
    ensures DescribesObject(r, isSecret, o) <==> r == RecordOf(if isSecret then HelmReleaseSecret else HelmReleaseCM, o)
  {
  }

  // ---------------------------------------------------------------- Revisions

  /** A label that is absent, empty or no number counts as revision -1. */
  lemma NoRevision(labels: map<string, string>)
    requires
      "version" !in labels || labels["version"] == "" ||
      exists i :: 0 < i < |labels["version"]| && !IsDigit(labels["version"][i])
    ensures ParseRevision(labels) == -1
  {
    hide DecimalValue;
    if "version" in labels && labels["version"] != "" {
      var s := labels["version"];
      var i :| 0 < i < |s| && !IsDigit(s[i]);
      assert s[1..][i - 1] == s[i];
      assert s[i] in s && s[i] in s[1..];
    }
  }

  /** A sign is read: `+` changes nothing, `-` negates. */
  lemma SignedRevision(labels: map<string, string>, n: nat)
    requires "version" in labels && n < 0x8000_0000_0000_0000
    ensures labels["version"] == "+" + Decimal(n) ==> ParseRevision(labels) == n
    ensures labels["version"] == "-" + Decimal(n) ==> ParseRevision(labels) == -(n as int)
  {
    hide DecimalValue, Decimal;
    DecimalRoundTrip(n);
    assert ("+" + Decimal(n))[1..] == Decimal(n) && ("-" + Decimal(n))[1..] == Decimal(n);
    assert ("+" + Decimal(n))[0] == '+' && ("-" + Decimal(n))[0] == '-';
  }

  // ---------------------------------------------------------------- Selection

  /** Object `i` goes before object `j`: it has the higher revision, or the same one and is listed first. */
  predicate GoesBefore(objects: seq<HelmObject>, i: nat, j: nat)
    requires i < |objects| && j < |objects|
  {
    var ri, rj := ParseRevision(objects[i].labels), ParseRevision(objects[j].labels);
    ri > rj || (ri == rj && i < j)
  }

  /** Object `i` goes before every other object of its release. */
  ghost predicate IsKept(objects: seq<HelmObject>, i: nat) {
    i < |objects| && forall j: nat :: j < |objects| && j != i && SameRelease(objects[j], objects[i]) ==> GoesBefore(objects, i, j)
  }

  /** The record is that of the kept object `i`; Secrets are listed before config maps. */
  ghost predicate IsOfKept(secrets: seq<HelmObject>, configMaps: seq<HelmObject>, r: WorkloadRecord, i: nat) {
    IsKept(secrets + configMaps, i) && DescribesObject(r, i < |secrets|, (secrets + configMaps)[i])
  }

  lemma CandidateFacts(secrets: seq<HelmObject>, configMaps: seq<HelmObject>, i: nat)
    requires i < |secrets| + |configMaps|
    ensures
      var objects, candidates := secrets + configMaps, Listed(secrets, configMaps);
      && |candidates| == |objects| == |secrets| + |configMaps|
      && candidates[i].revision == ParseRevision(objects[i].labels)
      && DescribesObject(candidates[i].record, i < |secrets|, objects[i])
  {
    hide ParseRevision, RecordOf;
    DescribesRecord(Listed(secrets, configMaps)[i].record, i < |secrets|, (secrets + configMaps)[i]);
  }

  lemma SameReleaseExactly(a: HelmObject, b: HelmObject, r: WorkloadRecord, s: WorkloadRecord, x: bool, y: bool)
    requires DescribesObject(r, x, a) && DescribesObject(s, y, b)
    ensures SameRelease(a, b) <==> KeyOf(r) == KeyOf(s)
  {
    if SameRelease(a, b) {
      var name :| IsNamed(a, name) && IsNamed(b, name);
    }
    if KeyOf(r) == KeyOf(s) { assert IsNamed(a, r.appName) && IsNamed(b, r.appName); }
  }

  lemma KeptExactly(secrets: seq<HelmObject>, configMaps: seq<HelmObject>, i: nat)
    requires i < |secrets| + |configMaps|
    ensures IsKept(secrets + configMaps, i) <==> IsFirstLatest(Listed(secrets, configMaps), i)
  {
    hide Listed, DescribesObject, SameRelease, ParseRevision, KeyOf;
    var objects, candidates := secrets + configMaps, Listed(secrets, configMaps);
    CandidateFacts(secrets, configMaps, i);
    forall j: nat | j < |objects|
      ensures SameRelease(objects[j], objects[i]) <==> KeyOf(candidates[j].record) == KeyOf(candidates[i].record)
      ensures candidates[j].revision == ParseRevision(objects[j].labels)
    {
      CandidateFacts(secrets, configMaps, j);
      SameReleaseExactly(objects[j], objects[i], candidates[j].record, candidates[i].record, j < |secrets|, i < |secrets|);
    }
    if IsFirstLatest(candidates, i) {
      forall j: nat | j < |objects| && j != i && SameRelease(objects[j], objects[i]) ensures GoesBefore(objects, i, j) {
        assert candidates[j].revision <= candidates[i].revision;
      }
    }
    if IsKept(objects, i) {
      forall j | 0 <= j < |candidates| && KeyOf(candidates[j].record) == KeyOf(candidates[i].record)
        ensures candidates[j].revision <= candidates[i].revision && (j < i ==> candidates[j].revision < candidates[i].revision)
      {
        if j != i { assert GoesBefore(objects, i, j); }
      }
    }
  }

  lemma SelectedExactly(secrets: seq<HelmObject>, configMaps: seq<HelmObject>, r: WorkloadRecord, i: nat)
    requires i < |secrets| + |configMaps|
    ensures
      IsOfKept(secrets, configMaps, r, i) <==>
      IsFirstLatest(Listed(secrets, configMaps), i) && Listed(secrets, configMaps)[i].record == r
  {
    hide Listed, IsKept, IsFirstLatest, DescribesObject, RecordOf;
    KeptExactly(secrets, configMaps, i);
    CandidateFacts(secrets, configMaps, i);
    DescribesRecord(r, i < |secrets|, (secrets + configMaps)[i]);
    DescribesRecord(Listed(secrets, configMaps)[i].record, i < |secrets|, (secrets + configMaps)[i]);
  }

  lemma LatestIsListed(candidates: seq<RevisionCandidate>, r: WorkloadRecord) returns (i: nat)
    requires IsSelected(candidates, r)
    ensures i < |candidates| && IsFirstLatest(candidates, i) && candidates[i].record == r
  {
    hide KeyOf;
    i :| IsFirstLatest(candidates, i) && candidates[i].record == r;
  }

  lemma SelectedIsReported(out: seq<WorkloadRecord>, candidates: seq<RevisionCandidate>, i: nat)
    requires SelectsReleases(out, candidates) && i < |candidates| && IsFirstLatest(candidates, i)
    ensures candidates[i].record in out
  {
    hide IsFirstLatest, IsSelected, UniqueApps, Represented;
    var o := Representative(out, candidates[i].record);
    var j := LatestIsListed(candidates, o);
    FirstLatestIsUnique(candidates, i, j);
  }

  /** Exactly the records of the kept objects are reported: for each release, named by label or by object, the object
      of the highest revision, the first listed of equals, and so a Secret before a config map. */
  lemma ReportedExactly(secrets: seq<HelmObject>, configMaps: seq<HelmObject>, out: seq<WorkloadRecord>, r: WorkloadRecord)
    requires forall o :: o in secrets + configMaps ==> '/' !in o.namespace
    requires ListsRecords(out, Latest(Listed(secrets, configMaps)))
    ensures r in out <==> exists i: nat :: i < |secrets| + |configMaps| && IsOfKept(secrets, configMaps, r, i)
    ensures forall i, j :: 0 <= i < j < |out| ==> out[i].namespace != out[j].namespace || out[i].appName != out[j].appName
  {
    hide Listed, IsFirstLatest, IsSelected, IsOfKept, ListsRecords, Latest, Represented;
    var candidates := Listed(secrets, configMaps);
    SlashFreeObjects(secrets, configMaps);
    ReleaseSelection(out, candidates);
    if r in out {
      var i := LatestIsListed(candidates, r);
      CandidatesLength(secrets, configMaps);
      SelectedExactly(secrets, configMaps, r, i);
    }
    if i: nat :| i < |secrets| + |configMaps| && IsOfKept(secrets, configMaps, r, i) {
      CandidatesLength(secrets, configMaps);
      SelectedExactly(secrets, configMaps, r, i);
      SelectedIsReported(out, candidates, i);
    }
    forall i, j | 0 <= i < j < |out| ensures out[i].namespace != out[j].namespace || out[i].appName != out[j].appName {
      assert KeyOf(out[i]) != KeyOf(out[j]);
    }
  }

  lemma CandidatesLength(secrets: seq<HelmObject>, configMaps: seq<HelmObject>)
    ensures |Listed(secrets, configMaps)| == |secrets| + |configMaps|
  {
    hide CandidateOf;
  }

  lemma SlashFreeObjects(secrets: seq<HelmObject>, configMaps: seq<HelmObject>)
    requires forall o :: o in secrets + configMaps ==> '/' !in o.namespace
    ensures SlashFree(Listed(secrets, configMaps))
  {
    hide Listed, DescribesObject;
    CandidatesLength(secrets, configMaps);
    forall i | 0 <= i < |Listed(secrets, configMaps)| ensures '/' !in Listed(secrets, configMaps)[i].record.namespace {
      CandidateFacts(secrets, configMaps, i);
      NamespaceOf(Listed(secrets, configMaps)[i].record, i < |secrets|, (secrets + configMaps)[i]);
      assert (secrets + configMaps)[i] in secrets + configMaps;
    }
  }

  lemma NamespaceOf(r: WorkloadRecord, isSecret: bool, o: HelmObject)
    requires DescribesObject(r, isSecret, o)
    ensures r.namespace == o.namespace
  {
  }

  /** Two revisions of one labelled release: only the higher one can be reported, or the first listed of equals. */
  lemma LowerRevisionIsDropped(objects: seq<HelmObject>, i: nat, j: nat, name: string, m: nat, n: nat)
    requires i < |objects| && j < |objects| && i != j && objects[i].namespace == objects[j].namespace && name != ""
    requires "name" in objects[i].labels && objects[i].labels["name"] == name
    requires "name" in objects[j].labels && objects[j].labels["name"] == name
    requires "version" in objects[i].labels && objects[i].labels["version"] == Decimal(m) && m < 0x8000_0000_0000_0000
    requires "version" in objects[j].labels && objects[j].labels["version"] == Decimal(n) && n < 0x8000_0000_0000_0000
    requires m < n || (m == n && j < i)
    ensures !IsKept(objects, i)
  {
    hide ParseRevision, Decimal;
    RevisionRoundTrip(objects[i].labels, m);
    RevisionRoundTrip(objects[j].labels, n);
    assert IsNamed(objects[i], name) && IsNamed(objects[j], name);
    assert SameRelease(objects[j], objects[i]);
  }
}
