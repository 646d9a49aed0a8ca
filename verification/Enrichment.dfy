/**
 From what the cluster answers to what is recorded: the fields, errors and verdicts of the records that
 `buildSingle` makes (`internal/catalog/builder.go`), told from the raw answers.
 */
module Enrichment {
  import opened Text
  import opened Model
  import opened SemVer
  import Tags
  import VersionEngine
  import OciTags
  import OciResolver
  import IndexCache
  import Argo = ArgoApplications
  import Helm = HelmReleases
  import opened Catalog

  /** The record shows these fields, and no latest version yet. */
  predicate Says(urls: UrlParser, r: ChartRecord, id: string, chart: string, repo: string, current: string, error: Option<ResolveError>) {
    && r.workloadID == id && r.chartName == chart && r.repoURL == repo && r.currentVersion == current
    && r.sourceKind == Classify(urls, repo) && r.resolutionError == error
    && r.latestVersion == "unknown" && r.status == UnknownStatus
  }

  // ---------------------------------------------------------------- Argo CD

  /** What an Argo CD record says: the application's chart, repository and revision, each with its default; and if the
      application cannot be had or has no spec, nothing but that. It is looked up by the namespace it lives in. */
  lemma ArgoPopulation(env: Env, w: WorkloadRecord)
    requires w.sourceType == ArgoCDApplication
    ensures
      var r := Populate(env, w);
      match env.cluster.application(if w.sourceNamespace == "" then w.namespace else w.sourceNamespace, w.appName)
      case AppSource(chart, repo, revision) =>
        Says(env.urls, r, w.id, FirstNonEmpty(chart, "", w.appName), FirstNonEmpty(repo, "", "unknown"),
             FirstNonEmpty(revision, "", "unknown"), None)
      case AppError(reason) => Says(env.urls, r, w.id, w.appName, "unknown", "unknown", Some(Failure(External(reason))))
      case AppWithoutSpec => Says(env.urls, r, w.id, w.appName, "unknown", "unknown", Some(Failure(MissingSpec)))
  {
    hide Classify;
    UnknownIsUnknownKind(env.urls);
  }

  /** Enrichment asks for the very application a record was discovered from, wherever it deploys to. */
  lemma ArgoRecordFindsItsApp(env: Env, a: Argo.App, chart: string, repo: string, revision: string)
    requires a.namespace != "" && env.cluster.application(a.namespace, a.name) == AppSource(chart, repo, revision)
    ensures
      Says(env.urls, Populate(env, Argo.RecordOf(a)), "argocd_application:" + a.namespace + ":" + a.name,
           FirstNonEmpty(chart, "", a.name), FirstNonEmpty(repo, "", "unknown"), FirstNonEmpty(revision, "", "unknown"), None)
  {
    hide Classify, Populate;
    ArgoPopulation(env, Argo.RecordOf(a));
  }

  // ---------------------------------------------------------------- Helm

  lemma HelmKeeps(env: Env, w: WorkloadRecord)
    ensures Populate(env, w).workloadID == w.id && Populate(env, w).latestVersion == "unknown" && Populate(env, w).status == UnknownStatus
  {
    hide Classify, ChartLabelParts, SourceObjectName, TrimSpace, ApplyHelmLabels, ApplyHelmPayload, HelmObjectOf;
    forall chartLabel: string, payload: Payload
      ensures
        var r := ApplyHelmPayload(env.urls, ApplyHelmLabels(Blank(w), chartLabel), payload);
        r.workloadID == w.id && r.latestVersion == "unknown" && r.status == UnknownStatus
    {
      HelmFieldsKeepRest(env.urls, Blank(w), chartLabel, payload);
    }
  }

  lemma HelmFieldsKeepRest(urls: UrlParser, r: ChartRecord, chartLabel: string, payload: Payload)
    ensures
      var s := ApplyHelmPayload(urls, ApplyHelmLabels(r, chartLabel), payload);
      s.workloadID == r.workloadID && s.latestVersion == r.latestVersion && s.status == r.status
  {
    hide Classify, ChartLabelParts, TrimSpace;
  }

  /** Enrichment asks for the very Secret or config map a record was discovered from, and records its payload first,
      its chart label second, and the release name last. */
  lemma HelmRecordSaysItsObject(env: Env, kind: SourceType, o: Helm.HelmObject, chartLabel: string, payload: Payload)
    requires kind.HelmReleaseSecret? || kind.HelmReleaseCM?
    requires ':' !in o.namespace && o.namespace != "" && TrimSpace(o.name) != ""
    requires
      Stored(chartLabel, payload) ==
      if kind.HelmReleaseSecret? then env.cluster.secret(o.namespace, o.name) else env.cluster.configMap(o.namespace, o.name)
    ensures
      var w := Helm.RecordOf(kind, o);
      var (r, fromLabel) := (Populate(env, w), ChartLabelParts(chartLabel));
      && r.workloadID == w.id && r.latestVersion == "unknown"
      && r.chartName == FirstNonEmpty(PayloadName(payload), fromLabel.0, w.appName)
      && r.currentVersion == FirstNonEmpty(PayloadVersion(payload), fromLabel.1, "unknown")
      && r.repoURL == FirstNonEmpty(PayloadSource(payload), "", "unknown")
      && r.sourceKind == Classify(env.urls, r.repoURL)
      && (r.resolutionError.Some? <==> payload.BadPayload?)
  {
    hide Classify, Populate, TrimSpace, ChartLabelParts, PayloadName, PayloadVersion, PayloadSource, Helm.ReleaseName,
         Helm.DeploymentType, FirstNonEmpty;
    var w := Helm.RecordOf(kind, o);
    ObjectNameRoundTrip(kind, o.namespace, o.name);
    HelmPopulation(env, w, chartLabel, payload);
    HelmKeeps(env, w);
  }

  /** A Helm record whose ID names no object, or whose object cannot be had, says nothing but that. */
  lemma HelmFailures(env: Env, w: WorkloadRecord)
    requires w.sourceType.HelmReleaseSecret? || w.sourceType.HelmReleaseCM?
    ensures
      var r := Populate(env, w);
      match SourceObjectName(w.id)
      case None => Says(env.urls, r, w.id, w.appName, "unknown", "unknown", Some(Failure(InvalidWorkloadID)))
      case Some(name) =>
        var namespace := if w.sourceNamespace == "" then w.namespace else w.sourceNamespace;
        var stored := if w.sourceType.HelmReleaseSecret? then env.cluster.secret(namespace, name) else env.cluster.configMap(namespace, name);
        stored.ObjectError? ==> Says(env.urls, r, w.id, w.appName, "unknown", "unknown", Some(Failure(External(stored.reason))))
  {
    hide Classify, SourceObjectName, ApplyHelmLabels, ApplyHelmPayload;
    UnknownIsUnknownKind(env.urls);
  }

  /** A record of any other source says nothing. */
  lemma OtherSourcesSayNothing(env: Env, w: WorkloadRecord)
    requires w.sourceType.OtherSource?
    ensures Says(env.urls, Populate(env, w), w.id, w.appName, "unknown", "unknown", None)
  {
    hide Classify;
    UnknownIsUnknownKind(env.urls);
  }

  // ---------------------------------------------------------------- Resolution

  /** A record of a named chart is resolved exactly when its repository is an index or a registry; then it is not
      overridden. */
  lemma ResolvedByKind(env: Env, record: ChartRecord)
    requires KindMatches(env.urls, record) && TrimSpace(record.chartName) != ""
    ensures CanResolve(record) <==> record.sourceKind.HelmRepo? || record.sourceKind.OCIRegistry?
    ensures CanResolve(record) ==> ApplyRepoOverride(env.urls, env.overrides, record) == record
  {
    hide Classify, TrimSpace, ApplyRepoOverride;
    UnknownIsUnknownKind(env.urls);
    if TrimSpace(record.repoURL) == "" { BlankIsUnknownKind(env.urls, record.repoURL); }
    if record.sourceKind.HelmRepo? || record.sourceKind.OCIRegistry? {
      ResolvableIsNotOverridden(env.urls, env.overrides, record);
    }
  }

  /** What resolving leaves as an error: a failure replaces what population left; a chart that is not found or a
      repository that is not supported, like a success, leaves it as it was. */
  lemma ResolutionErrors(env: Env, w: WorkloadRecord)
    ensures
      var before, after := Prepare(env, w), BuildSingle(env, w);
      if CanResolve(before) && ResolveUncached(env, before).Err? && ResolveUncached(env, before).error.Failure?
      then after.resolutionError == Some(ResolveUncached(env, before).error)
      else after.resolutionError == before.resolutionError
  {
    hide Prepare, CanResolve, ResolveUncached, VersionEngine.Assess;
  }

  lemma PopulatedIsPrepared(env: Env, w: WorkloadRecord)
    requires TrimSpace(Populate(env, w).chartName) != ""
    requires Populate(env, w).sourceKind.HelmRepo? || Populate(env, w).sourceKind.OCIRegistry?
    ensures Prepare(env, w) == Populate(env, w) && CanResolve(Prepare(env, w))
  {
    hide Classify, TrimSpace, Populate, ApplyRepoOverride, CanResolve, KindMatches;
    SourceKindInvariant(env, w);
    ResolvedByKind(env, Populate(env, w));
  }

  /** From an Argo CD application and the tags of its chart to the verdict: the record says the application's
      revision, the picked tag, and the status the tags call for, if and only if that tag does not start with two `v`s. */
  lemma ArgoRegistryVerdict(env: Env, a: Argo.App, chart: string, repo: string, revision: string,
                            t: OciResolver.Target, tags: seq<string>)
    requires a.namespace != "" && env.cluster.application(a.namespace, a.name) == AppSource(chart, repo, revision)
    requires TrimSpace(chart) != "" && chart != "" && repo != "" && Classify(env.urls, repo) == OCIRegistry
    requires revision != "" && TrimSpace(revision) != "" && NewVersion(env.core, TrimSpace(revision)).Some?
    requires OciResolver.TargetOf(repo, chart) == Ok(t) && OciTags.Fetch(env.registry, t.host, t.repository).result == Ok(tags)
    ensures
      var r := BuildSingle(env, Argo.RecordOf(a));
      var current, latest := NewVersion(env.core, TrimSpace(revision)).value, VersionEngine.LatestFromTags(env.core, tags);
      && r.chartName == chart && r.repoURL == repo && r.sourceKind == OCIRegistry
      && r.currentVersion == revision && r.latestVersion == latest
      && (r.status == VersionEngine.DeservedStatus(env.core, current, tags) <==> !HasPrefix(latest, "vv"))
  {
    hide Classify, TrimSpace, Populate, Prepare, CanResolve, NewVersion, OciResolver.TargetOf, OciTags.Fetch,
         VersionEngine.DeservedStatus, VersionEngine.LatestFromTags, Argo.RecordOf, ResolveUncached, Finish;
    var w := Argo.RecordOf(a);
    ArgoRecordFindsItsApp(env, a, chart, repo, revision);
    PopulatedIsPrepared(env, w);
    RegistryStatusIsDeserved(env, w, t, tags);
    BuildKeepsFields(env, w);
  }

  /** The same from the versions of its chart in an index: the first one is recorded. */
  lemma ArgoIndexVerdict(env: Env, a: Argo.App, chart: string, repo: string, revision: string, charts: IndexCache.Charts)
    requires a.namespace != "" && env.cluster.application(a.namespace, a.name) == AppSource(chart, repo, revision)
    requires TrimSpace(chart) != "" && chart != "" && repo != "" && Classify(env.urls, repo) == HelmRepo
    requires revision != "" && TrimSpace(revision) != "" && NewVersion(env.core, TrimSpace(revision)).Some?
    requires env.index(repo) == Ok(charts) && chart in charts && charts[chart] != []
    ensures
      var r := BuildSingle(env, Argo.RecordOf(a));
      var current, versions := NewVersion(env.core, TrimSpace(revision)).value, charts[chart];
      && r.chartName == chart && r.repoURL == repo && r.sourceKind == HelmRepo
      && r.currentVersion == revision && r.latestVersion == versions[0]
      && (r.status == VersionEngine.DeservedStatus(env.core, current, versions) <==>
            VersionEngine.FirstTells(env.core, current, versions) || Tags.NothingParses(env.core, versions))
  {
    hide Classify, TrimSpace, Populate, Prepare, CanResolve, NewVersion, VersionEngine.DeservedStatus, VersionEngine.FirstTells,
         Tags.NothingParses, Argo.RecordOf, ResolveUncached, Finish;
    var w := Argo.RecordOf(a);
    ArgoRecordFindsItsApp(env, a, chart, repo, revision);
    PopulatedIsPrepared(env, w);
    IndexStatusIsDeserved(env, w, charts);
    BuildKeepsFields(env, w);
  }

  lemma BuildKeepsFields(env: Env, w: WorkloadRecord)
    ensures
      var before, after := Prepare(env, w), BuildSingle(env, w);
      && after.workloadID == before.workloadID && after.chartName == before.chartName && after.repoURL == before.repoURL
      && after.sourceKind == before.sourceKind && after.currentVersion == before.currentVersion
  {
    hide Prepare, CanResolve, ResolveUncached, VersionEngine.Assess;
  }

  // ---------------------------------------------------------------- Kinds of sources

  /** The addresses of the known registries, in any case and with any scheme, are registries. */
  lemma KnownRegistriesAreRegistries(urls: UrlParser, repo: string, marker: string)
    requires marker in ["ghcr.io/", "registry-1.docker.io/", "docker.io/", "quay.io/", "public.ecr.aws/"]
    requires Contains(ToLower(TrimSpace(repo)), marker)
    ensures Classify(urls, repo) == OCIRegistry
  {
    hide Contains, TrimSpace;
  }

  /** Neither an `oci://` address nor one of a known registry. */
  predicate IsPlain(repo: string) {
    var lower := ToLower(TrimSpace(repo));
    !HasPrefix(lower, "oci://") &&
    forall marker :: marker in ["ghcr.io/", "registry-1.docker.io/", "docker.io/", "quay.io/", "public.ecr.aws/"] ==> !Contains(lower, marker)
  }

  /** Any other web address is a Git source if it is on GitHub or its path ends in `.git`, and an index otherwise. */
  lemma WebSources(urls: UrlParser, repo: string, u: Url)
    requires IsPlain(repo) && urls(TrimSpace(repo)) == Some(u) && u.host != ""
    requires HasPrefix(ToLower(TrimSpace(repo)), "http://") || HasPrefix(ToLower(TrimSpace(repo)), "https://")
    ensures Classify(urls, repo) == if Contains(ToLower(u.host), "github.com") || HasSuffix(ToLower(u.path), ".git") then Git else HelmRepo
  {
    hide Contains, TrimSpace, HasSuffix, HasPrefix;
    PlainIsNoRegistry(repo);
    LowerIsEmpty(u.host);
  }

  /** An address of another scheme is an index only if it looks like one, and one without a host is nothing. */
  lemma OtherSources(urls: UrlParser, repo: string)
    requires IsPlain(repo)
    requires !HasPrefix(ToLower(TrimSpace(repo)), "http://") && !HasPrefix(ToLower(TrimSpace(repo)), "https://")
    ensures
      match urls(TrimSpace(repo))
      case None => Classify(urls, repo) == UnknownKind
      case Some(u) =>
        var host, path := ToLower(u.host), ToLower(u.path);
        var onGit := Contains(host, "github.com") || HasSuffix(path, ".git");
        var asIndex := Contains(host, "github.io") || Contains(path, "helm") || Contains(path, "charts");
        && (Classify(urls, repo) == Git <==> u.host != "" && onGit)
        && (Classify(urls, repo) == HelmRepo <==> u.host != "" && !onGit && asIndex)
        && Classify(urls, repo) != OCIRegistry
  {
    hide Contains, TrimSpace, HasSuffix, HasPrefix;
    PlainIsNoRegistry(repo);
    if urls(TrimSpace(repo)).Some? { LowerIsEmpty(urls(TrimSpace(repo)).value.host); }
  }

  lemma LowerIsEmpty(s: string)
    ensures ToLower(s) == "" <==> s == ""
  {
  }

  lemma PlainIsNoRegistry(repo: string)
    requires IsPlain(repo)
    ensures !HasPrefix(ToLower(TrimSpace(repo)), "oci://") && !LooksLikeRegistry(ToLower(TrimSpace(repo)))
  {
    hide Contains, TrimSpace, HasPrefix;
    var markers := ["ghcr.io/", "registry-1.docker.io/", "docker.io/", "quay.io/", "public.ecr.aws/"];
    assert markers[0] in markers && markers[1] in markers && markers[2] in markers && markers[3] in markers && markers[4] in markers;
  }
}
