/**
 Discovery as the server wires it (`internal/server/server.go`): Argo CD applications and Helm
 releases of one cluster, merged. What the merge assumes of its sources is proved of these two.
 */
module ClusterDiscovery {
  import opened Text
  import opened Model
  import opened Discovery
  import Argo = ArgoApplications
  import Helm = HelmReleases
  import Catalog

  /** Kubernetes namespaces contain neither `:` nor `/`. */
  predicate IsNamespace(ns: string) { ':' !in ns && '/' !in ns }

  /** In one listing, an object is known by its namespace and name. */
  ghost predicate DistinctApps(apps: seq<Argo.App>) {
    && (forall i :: 0 <= i < |apps| ==> IsNamespace(apps[i].namespace))
    && (forall i, j :: 0 <= i < j < |apps| ==> (apps[i].namespace, apps[i].name) != (apps[j].namespace, apps[j].name))
  }

  ghost predicate DistinctObjects(objects: seq<Helm.HelmObject>) {
    && (forall i :: 0 <= i < |objects| ==> IsNamespace(objects[i].namespace))
    && (forall i, j :: 0 <= i < j < |objects| ==>
          (objects[i].namespace, objects[i].name) != (objects[j].namespace, objects[j].name))
  }

  // ---------------------------------------------------------------- Equal IDs, equal records

  /** The record of some listed application or storage object. */
  ghost predicate Originates(apps: seq<Argo.App>, secrets: seq<Helm.HelmObject>, cms: seq<Helm.HelmObject>, r: WorkloadRecord) {
    || (exists a :: a in apps && Argo.RecordOf(a) == r)
    || (exists o :: o in secrets && Helm.RecordOf(HelmReleaseSecret, o) == r)
    || (exists o :: o in cms && Helm.RecordOf(HelmReleaseCM, o) == r)
  }

  lemma AppsAgree(apps: seq<Argo.App>, a: Argo.App, b: Argo.App)
    requires DistinctApps(apps) && a in apps && b in apps && Argo.RecordOf(a).id == Argo.RecordOf(b).id
    ensures a == b
  {
    Catalog.WorkloadIDIsInjective(ArgoCDApplication, a.namespace, a.name, ArgoCDApplication, b.namespace, b.name);
  }

  lemma ObjectsAgree(objects: seq<Helm.HelmObject>, kind: SourceType, a: Helm.HelmObject, b: Helm.HelmObject)
    requires DistinctObjects(objects) && a in objects && b in objects && !kind.OtherSource?
    requires Helm.RecordOf(kind, a).id == Helm.RecordOf(kind, b).id
    ensures a == b
  {
    Catalog.WorkloadIDIsInjective(kind, a.namespace, a.name, kind, b.namespace, b.name);
  }

  /** An ID names the source it is from. */
  lemma OriginOfID(apps: seq<Argo.App>, secrets: seq<Helm.HelmObject>, cms: seq<Helm.HelmObject>, r: WorkloadRecord)
    returns (namespace: string, name: string)
    requires DistinctApps(apps) && DistinctObjects(secrets) && DistinctObjects(cms)
    requires Originates(apps, secrets, cms, r)
    ensures !r.sourceType.OtherSource? && ':' !in namespace && r.id == WorkloadID(r.sourceType, namespace, name)
    ensures r.sourceType.ArgoCDApplication? ==> exists a :: a in apps && Argo.RecordOf(a) == r
    ensures r.sourceType.HelmReleaseSecret? ==> exists o :: o in secrets && Helm.RecordOf(HelmReleaseSecret, o) == r
    ensures r.sourceType.HelmReleaseCM? ==> exists o :: o in cms && Helm.RecordOf(HelmReleaseCM, o) == r
  {
    hide WorkloadID, Helm.ReleaseName, Helm.DeploymentType;
    if a :| a in apps && Argo.RecordOf(a) == r {
      namespace, name := a.namespace, a.name;
    } else if o :| o in secrets && Helm.RecordOf(HelmReleaseSecret, o) == r {
      namespace, name := o.namespace, o.name;
    } else {
      var o :| o in cms && Helm.RecordOf(HelmReleaseCM, o) == r;
      namespace, name := o.namespace, o.name;
    }
  }

  lemma SameIDSameRecord(apps: seq<Argo.App>, secrets: seq<Helm.HelmObject>, cms: seq<Helm.HelmObject>,
                         r: WorkloadRecord, s: WorkloadRecord)
    requires DistinctApps(apps) && DistinctObjects(secrets) && DistinctObjects(cms)
    requires Originates(apps, secrets, cms, r) && Originates(apps, secrets, cms, s) && r.id == s.id
    ensures r == s
  {
    hide WorkloadID, Helm.RecordOf, Argo.RecordOf, DistinctApps, DistinctObjects, Originates;
    var ns1, n1 := OriginOfID(apps, secrets, cms, r);
    var ns2, n2 := OriginOfID(apps, secrets, cms, s);
    Catalog.WorkloadIDIsInjective(r.sourceType, ns1, n1, s.sourceType, ns2, n2);
    match r.sourceType {
      case ArgoCDApplication =>
        var a :| a in apps && Argo.RecordOf(a) == r;
        var b :| b in apps && Argo.RecordOf(b) == s;
        AppsAgree(apps, a, b);
      case HelmReleaseSecret =>
        var a :| a in secrets && Helm.RecordOf(HelmReleaseSecret, a) == r;
        var b :| b in secrets && Helm.RecordOf(HelmReleaseSecret, b) == s;
        ObjectsAgree(secrets, HelmReleaseSecret, a, b);
      case HelmReleaseCM =>
        var a :| a in cms && Helm.RecordOf(HelmReleaseCM, a) == r;
        var b :| b in cms && Helm.RecordOf(HelmReleaseCM, b) == s;
        ObjectsAgree(cms, HelmReleaseCM, a, b);
    }
  }

  lemma ArgoOriginates(apps: seq<Argo.App>, secrets: seq<Helm.HelmObject>, cms: seq<Helm.HelmObject>, r: WorkloadRecord)
    requires r in Argo.RecordsOf(apps)
    ensures Originates(apps, secrets, cms, r) && r.sourceType == ArgoCDApplication
  {
    Argo.RecordsAreOfApps(apps, r);
    var i :| 0 <= i < |apps| && apps[i].usesHelm && Argo.DescribesApp(r, apps[i]);
    Argo.DescribesRecord(r, apps[i]);
    assert apps[i] in apps;
  }

  lemma HelmOriginates(apps: seq<Argo.App>, secrets: seq<Helm.HelmObject>, cms: seq<Helm.HelmObject>, r: WorkloadRecord)
    requires Helm.IsSelected(Helm.Listed(secrets, cms), r)
    ensures Originates(apps, secrets, cms, r) && r.sourceType != ArgoCDApplication
  {
    hide WorkloadID, Helm.ReleaseName, Helm.DeploymentType, Helm.ParseRevision;
    var candidates := Helm.Listed(secrets, cms);
    var i: nat :| Helm.IsFirstLatest(candidates, i) && candidates[i].record == r;
    if i < |secrets| {
      assert secrets[i] in secrets;
    } else {
      assert cms[i - |secrets|] in cms;
    }
  }

  lemma ListedIsSlashFree(secrets: seq<Helm.HelmObject>, cms: seq<Helm.HelmObject>)
    requires DistinctObjects(secrets) && DistinctObjects(cms)
    ensures Helm.SlashFree(Helm.Listed(secrets, cms))
  {
    hide WorkloadID, Helm.ReleaseName, Helm.DeploymentType, Helm.ParseRevision;
  }

  /** Across both sources, records with equal IDs are equal, and only Argo CD records have the Argo CD source type. */
  lemma SourcesAgree(apps: seq<Argo.App>, secrets: seq<Helm.HelmObject>, cms: seq<Helm.HelmObject>, helm: seq<WorkloadRecord>)
    requires DistinctApps(apps) && DistinctObjects(secrets) && DistinctObjects(cms)
    requires Helm.SelectsReleases(helm, Helm.Listed(secrets, cms))
    ensures IdsAgree(Elements(Argo.RecordsOf(apps) + helm))
    ensures forall a :: a in Argo.RecordsOf(apps) ==> a.sourceType == ArgoCDApplication
    ensures forall h :: h in helm ==> h.sourceType != ArgoCDApplication
  {
    hide Originates, Helm.IsSelected, DistinctApps, DistinctObjects, UniqueApps, Represented;
    var argo := Argo.RecordsOf(apps);
    forall r | r in argo ensures Originates(apps, secrets, cms, r) && r.sourceType == ArgoCDApplication {
      ArgoOriginates(apps, secrets, cms, r);
    }
    forall r | r in helm ensures Originates(apps, secrets, cms, r) && r.sourceType != ArgoCDApplication {
      HelmOriginates(apps, secrets, cms, r);
    }
    forall r, s | r in Elements(argo + helm) && s in Elements(argo + helm) && r.id == s.id ensures r == s {
      SameIDSameRecord(apps, secrets, cms, r, s);
    }
  }

  // ---------------------------------------------------------------- The merged result

  /** One record per application of either kind, ascending by ID: its Argo CD record of smallest ID if it has one,
      and otherwise the record of the first-listed storage object of its maximal revision. */
  ghost predicate ReportsCluster(out: seq<WorkloadRecord>, argo: seq<WorkloadRecord>, candidates: seq<Helm.RevisionCandidate>) {
    && Ascending(out) && UniqueApps(out)
    && (forall o :: o in out ==> IsRightRecord(argo, candidates, o))
    && (forall a :: a in argo ==> Represented(out, a))
    && (forall i :: 0 <= i < |candidates| ==> Represented(out, candidates[i].record))
  }

  ghost predicate IsRightRecord(argo: seq<WorkloadRecord>, candidates: seq<Helm.RevisionCandidate>, o: WorkloadRecord) {
    if Represented(argo, o)
    then o in argo && forall a :: a in argo && KeyOf(a) == KeyOf(o) ==> a == o || Before(o.id, a.id)
    else Helm.IsSelected(candidates, o)
  }

  lemma CanonicalReportsCluster(argo: seq<WorkloadRecord>, helm: seq<WorkloadRecord>, candidates: seq<Helm.RevisionCandidate>,
                                out: seq<WorkloadRecord>)
    requires forall a :: a in argo ==> a.sourceType == ArgoCDApplication
    requires forall h :: h in helm ==> h.sourceType != ArgoCDApplication
    requires Helm.SelectsReleases(helm, candidates)
    requires IsCanonical(out, Elements(argo + helm))
    ensures ReportsCluster(out, argo, candidates)
  {
    hide Before, Preferred, Helm.IsSelected, Helm.SelectsReleases, Represented;
    CanonicalIsOnePerApp(out, Elements(argo + helm));
    Helm.MergedCoverage(argo, helm, candidates, out);
    forall o | o in out ensures IsRightRecord(argo, candidates, o) {
      Helm.MergedSelection(argo, helm, candidates, out, o);
    }
  }

  /** A source that failed contributes nothing. */
  function ArgoPart(apps: Argo.Listing): seq<Argo.App> {
    if apps.Ok? then apps.value else []
  }

  function HelmPart(listings: (Helm.Listing, Helm.Listing)): (seq<Helm.HelmObject>, seq<Helm.HelmObject>) {
    if listings.0.Ok? && listings.1.Ok? then (listings.0.value, listings.1.value) else ([], [])
  }

  /** The whole of discovery, from what the cluster lists to the merged workloads. */
  method DiscoverCluster(apps: Argo.Listing, deployedSecrets: Helm.Listing, deployedCMs: Helm.Listing,
                         ownedSecrets: Helm.Listing, ownedCMs: Helm.Listing)
    returns (r: Answer)
    requires DistinctApps(ArgoPart(apps))
    requires
      var (secrets, cms) := HelmPart(Helm.Chosen(deployedSecrets, deployedCMs, ownedSecrets, ownedCMs));
      DistinctObjects(secrets) && DistinctObjects(cms)
    ensures
      var chosen := Helm.Chosen(deployedSecrets, deployedCMs, ownedSecrets, ownedCMs);
      var (secrets, cms) := HelmPart(chosen);
      && (r.Err? <==> apps.Err? && (chosen.0.Err? || chosen.1.Err?))
      && (r.Ok? ==> ReportsCluster(r.value, Argo.RecordsOf(ArgoPart(apps)), Helm.Listed(secrets, cms)))
  {
    hide Helm.Listed, IsCanonical, IdsAgree, ReportsCluster, DistinctApps, DistinctObjects, Helm.Latest, Helm.ListsRecords,
         Helm.SelectsReleases, Ascending, UniqueApps;
    var first := Argo.DiscoverApplications(apps);
    var second := Helm.DiscoverReleases(deployedSecrets, deployedCMs, ownedSecrets, ownedCMs);
    r := Discover([first, second]);
    ghost var (secrets, cms) := HelmPart(Helm.Chosen(deployedSecrets, deployedCMs, ownedSecrets, ownedCMs));
    ghost var argo, helm := Argo.RecordsOf(ArgoPart(apps)), if second.Ok? then second.value else [];
    assert r.Err? <==> [first, second][0].Err? && [first, second][1].Err?;
    ReportedByTwo(first, second);
    if second.Ok? {
      ListedIsSlashFree(secrets, cms);
      Helm.ReleaseSelection(helm, Helm.Listed(secrets, cms));
    } else {
      NothingSelected();
    }
    SourcesAgree(ArgoPart(apps), secrets, cms, helm);
    if r.Ok? {
      CanonicalReportsCluster(argo, helm, Helm.Listed(secrets, cms), r.value);
    }
  }

  lemma ReportedByTwo(first: Answer, second: Answer)
    ensures
      Reported([first, second]) == (if first.Ok? then first.value else []) + (if second.Ok? then second.value else [])
  {
    assert [first, second][..1] == [first] && [first][..0] == [];
    assert Reported([first]) == if first.Ok? then first.value else [];
    assert Reported([first]) + [] == Reported([first]);
  }

  lemma NothingSelected()
    ensures Helm.SelectsReleases([], Helm.Listed([], []))
  {
  }

  // ---------------------------------------------------------------- Back to the source object

  /** Enrichment looks up the very object a Helm record was discovered from. */
  lemma HelmRecordFindsItsObject(kind: SourceType, o: Helm.HelmObject)
    requires kind.HelmReleaseSecret? || kind.HelmReleaseCM?
    requires IsNamespace(o.namespace) && TrimSpace(o.name) != ""
    ensures
      var w := Helm.RecordOf(kind, o);
      Catalog.SourceObjectName(w.id) == Some(o.name) && Catalog.SourceNamespace(w) == o.namespace
  {
    hide TrimSpace;
    Catalog.ObjectNameRoundTrip(kind, o.namespace, o.name);
  }
}
