/**
 Finding Argo CD applications (`internal/discovery/argocd.go`).
 */
module ArgoApplications {
  import opened Model
  import opened Discovery

  /** An application object: whether its sources use Helm, and the destination namespace it asks for, if any. */
  datatype App = App(namespace: string, name: string, usesHelm: bool, destination: string)

  type Listing = Result<seq<App>, ResolveError>

  function RecordOf(a: App): WorkloadRecord {
    WorkloadRecord(
      WorkloadID(ArgoCDApplication, a.namespace, a.name), a.name,
      if a.destination != "" then a.destination else a.namespace, a.namespace,
      ArgoCDApplication, "argocd")
  }

  /** The records of the applications that use Helm, in listing order. */
  function RecordsOf(apps: seq<App>): seq<WorkloadRecord> {
    if apps == [] then []
    else RecordsOf(apps[..|apps| - 1]) + if apps[|apps| - 1].usesHelm then [RecordOf(apps[|apps| - 1])] else []
  }

  /** Each field of the record of an application: named after it, placed where it deploys to, or where it lives if it
      does not say, and known by where it lives. */
  predicate DescribesApp(r: WorkloadRecord, a: App) {
    && r.id == "argocd_application:" + a.namespace + ":" + a.name && r.appName == a.name
    && r.namespace == (if a.destination == "" then a.namespace else a.destination) && r.sourceNamespace == a.namespace
    && r.sourceType == ArgoCDApplication && r.deploymentType == "argocd"
  }

  lemma DescribesRecord(r: WorkloadRecord, a: App)
    ensures DescribesApp(r, a) <==> r == RecordOf(a)
  {
  }

  method DiscoverApplications(apps: Listing) returns (r: Answer)
    ensures r == match apps case Ok(listed) => Ok(RecordsOf(listed)) case Err(e) => Err(e)
  {
    if apps.Err? {
      return Err(apps.error);
    }
    var out: seq<WorkloadRecord> := [];
    for i := 0 to |apps.value|
      invariant out == RecordsOf(apps.value[..i])
    {
      assert apps.value[..i + 1][..i] == apps.value[..i];
      if !apps.value[i].usesHelm { continue; }
      out := out + [RecordOf(apps.value[i])];
    }
    assert apps.value[..|apps.value|] == apps.value;
    return Ok(out);
  }

  /** The reported records are those of the applications that use Helm, and no others. */
  lemma {:induction false} RecordsAreOfApps(apps: seq<App>, r: WorkloadRecord)
    ensures r in RecordsOf(apps) <==> exists i :: 0 <= i < |apps| && apps[i].usesHelm && DescribesApp(r, apps[i])
    decreases |apps|
  {
    hide DescribesApp, RecordOf;
    if apps == [] {
    } else {
      var n := |apps| - 1;
      var front := apps[..n];
      RecordsAreOfApps(front, r);
      DescribesRecord(r, apps[n]);
      assert forall i :: 0 <= i < n ==> front[i] == apps[i];
    }
  }
}
