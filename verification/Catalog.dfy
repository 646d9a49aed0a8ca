/**
 Enriching one workload into a chart record: `buildSingle` and its helpers
 in `internal/catalog/builder.go`.
 */
module Catalog {
  import opened Text
  import opened Model
  import opened SemVer
  import Tags
  import VersionEngine
  import OciTags
  import OciResolver
  import IndexCache

  // ---------------------------------------------------------------- Source kinds

  datatype Url = Url(host: string, path: string)

  /** URLs have a host only after a slash. */
  ghost predicate HostNeedsSlash(parse: string -> Option<Url>) {
    forall s :: parse(s).Some? && parse(s).value.host != "" ==> '/' in s
  }

  type UrlParser = parse: string -> Option<Url> | HostNeedsSlash(parse) witness (s: string) => None

  predicate LooksLikeRegistry(repo: string) {
    || Contains(repo, "ghcr.io/")
    || Contains(repo, "registry-1.docker.io/")
    || Contains(repo, "docker.io/")
    || Contains(repo, "quay.io/")
    || Contains(repo, "public.ecr.aws/")
  }

  function Classify(urls: UrlParser, repo: string): SourceKind {
    var r := TrimSpace(repo);
    var lr := ToLower(r);
    if HasPrefix(lr, "oci://") || LooksLikeRegistry(lr) then OCIRegistry
    else
      match urls(r)
      case None => UnknownKind
      case Some(u) =>
        var (host, path) := (ToLower(u.host), ToLower(u.path));
        if host == "" then UnknownKind
        else if Contains(host, "github.com") || HasSuffix(path, ".git") then Git
        else if Contains(host, "github.io") || Contains(path, "helm") || Contains(path, "charts") then HelmRepo
        else if HasPrefix(lr, "http://") || HasPrefix(lr, "https://") then HelmRepo
        else UnknownKind
  }

  // ---------------------------------------------------------------- Identifiers and labels

  /** The object name at the end of a workload ID; it may itself contain colons. */
  function SourceObjectName(workloadID: string): Option<string> {
    var parts := SplitN(workloadID, ':', 3);
    if |parts| != 3 || TrimSpace(parts[2]) == "" then None else Some(parts[2])
  }

  predicate DashDigit(v: string, i: int) {
    0 <= i && i + 1 < |v| && v[i] == '-' && IsDigit(v[i + 1])
  }

  /** `splitChartLabel`: at the last dash that a digit follows. */
  method SplitChartLabel(v: string) returns (name: string, version: string)
    ensures (name, version) == ChartLabelParts(v)
  {
    var i := |v| - 1;
    while i >= 0
      invariant -1 <= i < |v| || v == ""
      invariant forall k :: i < k < |v| ==> !DashDigit(v, k)
    {
      if v[i] == '-' {
        if i + 1 < |v| && '0' <= v[i + 1] <= '9' {
          LastDashDigitIs(v, i);
          return v[..i], v[i + 1..];
        }
      }
      i := i - 1;
    }
    return v, "";
  }

  /** The last position of a dash that a digit follows, or -1. */
  function LastDashDigit(v: string, end: nat): (i: int)
    requires end <= |v|
    ensures -1 <= i < end
    ensures i >= 0 ==> DashDigit(v, i)
    ensures forall k :: i < k < end ==> !DashDigit(v, k)
  {
    if end == 0 then -1 else if DashDigit(v, end - 1) then end - 1 else LastDashDigit(v, end - 1)
  }

  function ChartLabelParts(v: string): (string, string) {
    var i := LastDashDigit(v, |v|);
    if i < 0 then (v, "") else (v[..i], v[i + 1..])
  }

  lemma LastDashDigitIs(v: string, i: int)
    requires DashDigit(v, i) && forall k :: i < k < |v| ==> !DashDigit(v, k)
    ensures LastDashDigit(v, |v|) == i
  {
  }

  /** A label built from a name and a version splits back into them exactly when the version
      starts with a digit and contains no dash that a digit follows. */
  lemma ChartLabelRoundTrip(name: string, version: string)
    ensures
      ChartLabelParts(name + "-" + version) == (name, version) <==>
      version != "" && IsDigit(version[0]) && forall k :: 0 <= k < |version| ==> !DashDigit(version, k)
  {
    var v := name + "-" + version;
    var n := |name|;
    assert v[n] == '-' && v[..n] == name && v[n + 1..] == version;
    assert forall k :: 0 <= k < |version| ==> v[n + 1 + k] == version[k];
    assert forall k :: 0 <= k < |version| ==> DashDigit(version, k) == DashDigit(v, n + 1 + k);
    if version != "" && IsDigit(version[0]) && forall k :: 0 <= k < |version| ==> !DashDigit(version, k) {
      forall k | n < k < |v| ensures !DashDigit(v, k) {
        assert DashDigit(version, k - n - 1) == DashDigit(v, n + 1 + (k - n - 1));
      }
      LastDashDigitIs(v, n);
    } else {
      var i := LastDashDigit(v, |v|);
      assert i >= 0 ==> |v[..i]| == i;
      assert |v| > n;
    }
  }

  /** The name in a workload ID is recovered whenever source and namespace are free of colons and the name is not blank. */
  lemma ObjectNameRoundTrip(s: SourceType, namespace: string, name: string)
    requires ':' !in SourceTypeText(s) && ':' !in namespace
    ensures SourceObjectName(WorkloadID(s, namespace, name)) == if TrimSpace(name) == "" then None else Some(name)
  {
    IDParts(s, namespace, name);
  }

  lemma IDParts(s: SourceType, namespace: string, name: string)
    requires ':' !in SourceTypeText(s) && ':' !in namespace
    ensures SplitN(WorkloadID(s, namespace, name), ':', 3) == [SourceTypeText(s), namespace, name]
  {
    hide SourceTypeText, Index;
    var rest := namespace + [':'] + name;
    assert WorkloadID(s, namespace, name) == SourceTypeText(s) + [':'] + rest;
    SplitHead(SourceTypeText(s), ':', rest);
    SplitHead(namespace, ':', name);
    assert SplitN(rest, ':', 2) == [namespace] + SplitN(name, ':', 1);
  }

  /** The IDs of two objects with colon-free namespaces are equal only if source, namespace and name are. */
  lemma WorkloadIDIsInjective(s1: SourceType, ns1: string, n1: string, s2: SourceType, ns2: string, n2: string)
    requires !s1.OtherSource? && !s2.OtherSource? && ':' !in ns1 && ':' !in ns2
    requires WorkloadID(s1, ns1, n1) == WorkloadID(s2, ns2, n2)
    ensures s1 == s2 && ns1 == ns2 && n1 == n2
  {
    hide WorkloadID;
    IDParts(s1, ns1, n1);
    IDParts(s2, ns2, n2);
    assert [SourceTypeText(s1), ns1, n1] == [SourceTypeText(s2), ns2, n2];
    assert |SourceTypeText(s1)| == |SourceTypeText(s2)|;
  }

  // ---------------------------------------------------------------- Populating a record

  datatype AppAnswer = AppError(reason: string) | AppWithoutSpec | AppSource(chart: string, repo: string, targetRevision: string)

  datatype Payload = NoPayload | BadPayload(reason: string) | Release(name: string, version: string, sources: seq<string>)

  datatype ObjectAnswer = ObjectError(reason: string) | Stored(chartLabel: string, payload: Payload)

  /** What the cluster holds: Argo CD applications, and the secrets and config maps of Helm releases. */
  datatype Cluster = Cluster(
    application: (string, string) -> AppAnswer,
    secret: (string, string) -> ObjectAnswer,
    configMap: (string, string) -> ObjectAnswer
  )

  datatype Env = Env(
    core: CoreParser,
    urls: UrlParser,
    cluster: Cluster,
    overrides: map<string, string>,
    registry: OciTags.Registry,
    index: string -> IndexCache.Answer
  )

  function Blank(w: WorkloadRecord): ChartRecord {
    ChartRecord(w.id, w.appName, "unknown", UnknownKind, "unknown", "unknown", UnknownStatus, None)
  }

  function SourceNamespace(w: WorkloadRecord): string {
    if w.sourceNamespace == "" then w.namespace else w.sourceNamespace
  }

  function PopulateFromArgoCD(env: Env, w: WorkloadRecord, record: ChartRecord): ChartRecord {
    match env.cluster.application(SourceNamespace(w), w.appName)
    case AppError(reason) => record.(resolutionError := Some(Failure(External(reason))))
    case AppWithoutSpec => record.(resolutionError := Some(Failure(MissingSpec)))
    case AppSource(chart, repo, targetRevision) =>
      var r1 := if chart != "" then record.(chartName := chart) else record;
      var r2 := if repo != "" then r1.(repoURL := repo, sourceKind := Classify(env.urls, repo)) else r1;
      if targetRevision != "" then r2.(currentVersion := targetRevision) else r2
  }

  function ApplyHelmLabels(record: ChartRecord, chartLabel: string): ChartRecord {
    if chartLabel == "" then record
    else
      var (name, version) := ChartLabelParts(chartLabel);
      var r1 := if name != "" then record.(chartName := name) else record;
      if version != "" && r1.currentVersion == "unknown" then r1.(currentVersion := version) else r1
  }

  function ApplyHelmPayload(urls: UrlParser, record: ChartRecord, payload: Payload): ChartRecord {
    match payload
    case NoPayload => record
    case BadPayload(reason) =>
      if record.resolutionError.None? then record.(resolutionError := Some(Failure(External(reason)))) else record
    case Release(name, version, sources) =>
      var r1 := if name != "" then record.(chartName := name) else record;
      var r2 := if version != "" then r1.(currentVersion := version) else r1;
      if |sources| > 0 && r2.repoURL == "unknown" && TrimSpace(sources[0]) != ""
      then r2.(repoURL := TrimSpace(sources[0]), sourceKind := Classify(urls, TrimSpace(sources[0])))
      else r2
  }

  function HelmObjectOf(cluster: Cluster, w: WorkloadRecord, objectName: string): ObjectAnswer {
    if w.sourceType.HelmReleaseSecret? then cluster.secret(SourceNamespace(w), objectName)
    else cluster.configMap(SourceNamespace(w), objectName)
  }

  function PopulateFromHelmObject(env: Env, w: WorkloadRecord, record: ChartRecord): ChartRecord {
    match SourceObjectName(w.id)
    case None => record.(resolutionError := Some(Failure(InvalidWorkloadID)))
    case Some(objectName) =>
      match HelmObjectOf(env.cluster, w, objectName)
      case ObjectError(reason) => record.(resolutionError := Some(Failure(External(reason))))
      case Stored(chartLabel, payload) =>
        var r := ApplyHelmPayload(env.urls, ApplyHelmLabels(record, chartLabel), payload);
        if r.repoURL != "unknown" && r.sourceKind.UnknownKind? then r.(sourceKind := Classify(env.urls, r.repoURL)) else r
  }

  function Populate(env: Env, w: WorkloadRecord): ChartRecord {
    match w.sourceType
    case ArgoCDApplication => PopulateFromArgoCD(env, w, Blank(w))
    case HelmReleaseSecret => PopulateFromHelmObject(env, w, Blank(w))
    case HelmReleaseCM => PopulateFromHelmObject(env, w, Blank(w))
    case OtherSource(_) => Blank(w)
  }

  predicate CanOverride(record: ChartRecord) {
    TrimSpace(record.repoURL) == "" || record.repoURL == "unknown" || record.sourceKind.Git?
  }

  function ApplyRepoOverride(urls: UrlParser, overrides: map<string, string>, record: ChartRecord): ChartRecord {
    var key := ToLower(TrimSpace(record.chartName));
    if CanOverride(record) && key != "" && key in overrides && TrimSpace(overrides[key]) != ""
    then record.(repoURL := overrides[key], sourceKind := Classify(urls, overrides[key]))
    else record
  }

  /** The record before its latest version is resolved. */
  function Prepare(env: Env, w: WorkloadRecord): ChartRecord {
    ApplyRepoOverride(env.urls, env.overrides, Populate(env, w))
  }

  predicate CanResolve(record: ChartRecord) {
    && TrimSpace(record.chartName) != "" && TrimSpace(record.repoURL) != "" && record.repoURL != "unknown"
    && (record.sourceKind.HelmRepo? || record.sourceKind.OCIRegistry?)
  }

  // ---------------------------------------------------------------- Resolving and finishing

  function Resolved(record: ChartRecord, latest: Result<string, ResolveError>): ChartRecord {
    match latest
    case Ok(version) => record.(latestVersion := version)
    case Err(Failure(cause)) => record.(resolutionError := Some(Failure(cause)))
    case Err(_) => record.(latestVersion := "unknown")
  }

  function Finish(core: CoreParser, record: ChartRecord): ChartRecord {
    record.(status := VersionEngine.Assess(core, record.currentVersion, record.latestVersion).status)
  }

  /** Asking upstream directly, by source kind. */
  function ResolveUncached(env: Env, record: ChartRecord): Result<string, ResolveError> {
    if record.sourceKind.OCIRegistry? then OciResolver.Uncached(env.core, env.registry, record.repoURL, record.chartName)
    else IndexCache.Uncached(env.index(record.repoURL), record.repoURL, record.chartName)
  }

  /** The record of one workload when every answer comes straight from upstream. */
  function BuildSingle(env: Env, w: WorkloadRecord): ChartRecord {
    var record := Prepare(env, w);
    Finish(env.core, if CanResolve(record) then Resolved(record, ResolveUncached(env, record)) else record)
  }

  // ---------------------------------------------------------------- Invariants

  predicate KindMatches(urls: UrlParser, record: ChartRecord) {
    record.sourceKind == Classify(urls, record.repoURL)
  }

  lemma SlashlessIsUnknown(urls: UrlParser, repo: string)
    requires '/' !in TrimSpace(repo)
    ensures Classify(urls, repo) == UnknownKind
  {
    hide TrimSpace;
    var r := TrimSpace(repo);
    var lr := ToLower(r);
    forall i | 0 <= i < |lr| ensures lr[i] != '/' {
      assert r[i] in r;
    }
    if Contains(lr, "ghcr.io/") { ContainedSlash(lr, "ghcr.io/", 7); }
    if Contains(lr, "registry-1.docker.io/") { ContainedSlash(lr, "registry-1.docker.io/", 20); }
    if Contains(lr, "docker.io/") { ContainedSlash(lr, "docker.io/", 9); }
    if Contains(lr, "quay.io/") { ContainedSlash(lr, "quay.io/", 7); }
    if Contains(lr, "public.ecr.aws/") { ContainedSlash(lr, "public.ecr.aws/", 14); }
    if HasPrefix(lr, "oci://") { PrefixedSlash(lr, "oci://", 4); }
  }

  lemma ContainedSlash(s: string, sub: string, k: nat)
    requires Contains(s, sub) && k < |sub| && sub[k] == '/'
    ensures '/' in s
  {
    var i :| 0 <= i <= |s| && HasPrefix(s[i..], sub);
    assert s[i..][k] == sub[k];
    assert s[i + k] in s;
  }

  lemma PrefixedSlash(s: string, prefix: string, k: nat)
    requires HasPrefix(s, prefix) && k < |prefix| && prefix[k] == '/'
    ensures '/' in s
  {
    assert s[k] == prefix[k];
  }

  lemma UnknownIsUnknownKind(urls: UrlParser)
    ensures Classify(urls, "unknown") == UnknownKind
  {
    TrimSpaceKeepsGraphic("unknown");
    SlashlessIsUnknown(urls, "unknown");
  }

  lemma BlankIsUnknownKind(urls: UrlParser, repo: string)
    requires TrimSpace(repo) == ""
    ensures Classify(urls, repo) == UnknownKind
  {
    SlashlessIsUnknown(urls, repo);
  }

  /** Through population and override, the source kind is the classification of the repository URL. */
  lemma SourceKindInvariant(env: Env, w: WorkloadRecord)
    ensures KindMatches(env.urls, Blank(w))
    ensures KindMatches(env.urls, Populate(env, w))
    ensures KindMatches(env.urls, Prepare(env, w))
    ensures KindMatches(env.urls, BuildSingle(env, w))
  {
    hide Classify, ChartLabelParts, SourceObjectName, TrimSpace, ToLower, VersionEngine.Assess, ResolveUncached;
    UnknownIsUnknownKind(env.urls);
  }

  /** A record whose discovered source can be resolved is never overridden. */
  lemma ResolvableIsNotOverridden(urls: UrlParser, overrides: map<string, string>, record: ChartRecord)
    requires KindMatches(urls, record) && (record.sourceKind.HelmRepo? || record.sourceKind.OCIRegistry?)
    ensures ApplyRepoOverride(urls, overrides, record) == record
  {
    hide Classify, TrimSpace;
    UnknownIsUnknownKind(urls);
    if TrimSpace(record.repoURL) == "" { BlankIsUnknownKind(urls, record.repoURL); }
  }

  /** The records of named charts that can be neither resolved nor repaired by an override: exactly those whose
      repository was discovered but is of no known kind. */
  lemma LeftUnrepaired(urls: UrlParser, record: ChartRecord)
    requires KindMatches(urls, record) && TrimSpace(record.chartName) != ""
    ensures
      !CanResolve(record) && !CanOverride(record) <==>
      record.sourceKind.UnknownKind? && TrimSpace(record.repoURL) != "" && record.repoURL != "unknown"
  {
    hide Classify, TrimSpace;
    UnknownIsUnknownKind(urls);
    if TrimSpace(record.repoURL) == "" { BlankIsUnknownKind(urls, record.repoURL); }
  }

  /** It happens: a repository given without any slash stays as it is, whatever the overrides. */
  lemma SlashlessIsLeftUnrepaired(urls: UrlParser, overrides: map<string, string>, record: ChartRecord)
    requires record.repoURL == "charts.example.com" && KindMatches(urls, record)
    ensures ApplyRepoOverride(urls, overrides, record) == record && !CanResolve(record)
  {
    hide TrimSpace, Classify;
    TrimSpaceKeepsGraphic(record.repoURL);
    SlashlessIsUnknown(urls, record.repoURL);
  }

  lemma OverrideIsIdempotent(urls: UrlParser, overrides: map<string, string>, record: ChartRecord)
    ensures
      var once := ApplyRepoOverride(urls, overrides, record);
      ApplyRepoOverride(urls, overrides, once) == once
  {
    hide Classify, TrimSpace, ToLower;
  }

  /** Chart names that differ only in case and surrounding space are overridden alike. */
  lemma OverrideIgnoresCase(urls: UrlParser, overrides: map<string, string>, record: ChartRecord, name: string)
    requires ToLower(TrimSpace(name)) == ToLower(TrimSpace(record.chartName))
    ensures ApplyRepoOverride(urls, overrides, record.(chartName := name)) ==
            ApplyRepoOverride(urls, overrides, record).(chartName := name)
  {
    hide Classify, TrimSpace, ToLower;
  }

  lemma OciPrefixIsRegistry(urls: UrlParser, repo: string)
    requires HasPrefix(repo, "oci://")
    ensures Classify(urls, repo) == OCIRegistry
  {
    hide IsSpace, TrimSpace, LooksLikeRegistry;
    assert !IsSpace('o') && !IsSpace('/') by { GraphicIsNotSpace('o'); GraphicIsNotSpace('/'); }
    TrimSpaceKeepsPrefix(repo, "oci://");
    assert ToLower("oci://") == "oci://";
    ToLowerPrefix(TrimSpace(repo), "oci://");
  }

  lemma GraphicIsNotSpace(c: char)
    requires Graphic(c)
    ensures !IsSpace(c)
  {
  }

  /** A record that the build sends to the index resolver is not refused by it. */
  lemma IndexDispatchIsAccepted(env: Env, w: WorkloadRecord)
    requires CanResolve(Prepare(env, w)) && !Prepare(env, w).sourceKind.OCIRegistry?
    ensures IndexCache.Refusal(Prepare(env, w).repoURL, Prepare(env, w).chartName).None?
  {
    hide Classify, Populate, ApplyRepoOverride, IsSpace;
    SourceKindInvariant(env, w);
    var record := Prepare(env, w);
    if HasPrefix(record.repoURL, "oci://") { OciPrefixIsRegistry(env.urls, record.repoURL); }
    assert TrimSpace("") == "";
  }

  lemma HelmFieldsKeepID(urls: UrlParser, r: ChartRecord, chartLabel: string, payload: Payload)
    ensures ApplyHelmPayload(urls, ApplyHelmLabels(r, chartLabel), payload).workloadID == r.workloadID
  {
    hide Classify, ChartLabelParts, TrimSpace;
  }

  lemma PopulateKeepsID(env: Env, w: WorkloadRecord)
    ensures Populate(env, w).workloadID == w.id
  {
    hide Classify, ChartLabelParts, SourceObjectName, TrimSpace, ApplyHelmLabels, ApplyHelmPayload, HelmObjectOf;
    forall chartLabel: string, payload: Payload
      ensures ApplyHelmPayload(env.urls, ApplyHelmLabels(Blank(w), chartLabel), payload).workloadID == w.id
    {
      HelmFieldsKeepID(env.urls, Blank(w), chartLabel, payload);
    }
  }

  lemma PrepareKeepsID(env: Env, w: WorkloadRecord)
    ensures Prepare(env, w).workloadID == w.id
  {
    hide Classify, Populate, TrimSpace, ToLower;
    PopulateKeepsID(env, w);
  }

  /** The record keeps the workload's ID, and its status is the engine's verdict on its own versions. */
  lemma BuildSingleResult(env: Env, w: WorkloadRecord)
    ensures
      var r := BuildSingle(env, w);
      && r.workloadID == w.id
      && r.status == VersionEngine.Assess(env.core, r.currentVersion, r.latestVersion).status
  {
    hide Prepare, CanResolve, VersionEngine.Assess, ResolveUncached;
    PrepareKeepsID(env, w);
  }

  // ---------------------------------------------------------------- What a record says

  function FirstNonEmpty(a: string, b: string, fallback: string): string {
    if a != "" then a else if b != "" then b else fallback
  }

  function PayloadName(p: Payload): string { if p.Release? then p.name else "" }

  function PayloadVersion(p: Payload): string { if p.Release? then p.version else "" }

  function PayloadSource(p: Payload): string {
    if p.Release? && p.sources != [] then TrimSpace(p.sources[0]) else ""
  }

  /** A Helm record is told by its payload first, by the chart label second, and by the workload last. */
  lemma HelmPopulation(env: Env, w: WorkloadRecord, chartLabel: string, payload: Payload)
    requires w.sourceType.HelmReleaseSecret? || w.sourceType.HelmReleaseCM?
    requires SourceObjectName(w.id).Some?
    requires
      var (namespace, name) := (if w.sourceNamespace == "" then w.namespace else w.sourceNamespace, SourceObjectName(w.id).value);
      Stored(chartLabel, payload) ==
      if w.sourceType.HelmReleaseSecret? then env.cluster.secret(namespace, name) else env.cluster.configMap(namespace, name)
    ensures
      var (r, fromLabel) := (Populate(env, w), ChartLabelParts(chartLabel));
      && r.chartName == FirstNonEmpty(PayloadName(payload), fromLabel.0, w.appName)
      && r.currentVersion == FirstNonEmpty(PayloadVersion(payload), fromLabel.1, "unknown")
      && r.repoURL == FirstNonEmpty(PayloadSource(payload), "", "unknown")
      && r.sourceKind == Classify(env.urls, r.repoURL)
      && (r.resolutionError.Some? <==> payload.BadPayload?)
  {
    hide Classify, SourceObjectName, ApplyHelmLabels, ApplyHelmPayload, FirstNonEmpty, KindMatches, Prepare, BuildSingle,
         PayloadName, PayloadVersion, PayloadSource, ChartLabelParts, Populate;
    SourceKindInvariant(env, w);
    StoredIsPopulated(env, w, chartLabel, payload);
    LabelsApplied(Blank(w), chartLabel);
    var labelled := ApplyHelmLabels(Blank(w), chartLabel);
    PayloadApplied(env.urls, labelled, payload);
    KindOf(env.urls, Populate(env, w));
    FirstOfThree(PayloadName(payload), ChartLabelParts(chartLabel).0, w.appName);
    FirstOfThree(PayloadVersion(payload), ChartLabelParts(chartLabel).1, "unknown");
  }

  lemma StoredIsPopulated(env: Env, w: WorkloadRecord, chartLabel: string, payload: Payload)
    requires w.sourceType.HelmReleaseSecret? || w.sourceType.HelmReleaseCM?
    requires SourceObjectName(w.id).Some?
    requires HelmObjectOf(env.cluster, w, SourceObjectName(w.id).value) == Stored(chartLabel, payload)
    ensures
      var (r, s) := (Populate(env, w), ApplyHelmPayload(env.urls, ApplyHelmLabels(Blank(w), chartLabel), payload));
      && r.chartName == s.chartName && r.currentVersion == s.currentVersion && r.repoURL == s.repoURL
      && r.resolutionError == s.resolutionError
  {
    hide Classify, SourceObjectName, HelmObjectOf, ApplyHelmLabels, ApplyHelmPayload, Blank;
  }

  lemma KindOf(urls: UrlParser, record: ChartRecord)
    requires KindMatches(urls, record)
    ensures record.sourceKind == Classify(urls, record.repoURL)
  {
  }

  lemma FirstOfThree(a: string, b: string, c: string)
    ensures FirstNonEmpty(a, "", FirstNonEmpty(b, "", c)) == FirstNonEmpty(a, b, c)
  {
  }

  lemma LabelsApplied(r: ChartRecord, chartLabel: string)
    requires r.currentVersion == "unknown"
    ensures
      var fromLabel := ChartLabelParts(chartLabel);
      ApplyHelmLabels(r, chartLabel) ==
      r.(chartName := FirstNonEmpty(fromLabel.0, "", r.chartName), currentVersion := FirstNonEmpty(fromLabel.1, "", "unknown"))
  {
    assert ChartLabelParts("") == ("", "");
  }

  lemma PayloadApplied(urls: UrlParser, r: ChartRecord, payload: Payload)
    requires r.repoURL == "unknown" && r.resolutionError.None?
    ensures
      var s := ApplyHelmPayload(urls, r, payload);
      && s.chartName == FirstNonEmpty(PayloadName(payload), "", r.chartName)
      && s.currentVersion == FirstNonEmpty(PayloadVersion(payload), "", r.currentVersion)
      && s.repoURL == FirstNonEmpty(PayloadSource(payload), "", "unknown")
      && (s.resolutionError.Some? <==> payload.BadPayload?)
  {
    hide Classify, TrimSpace;
  }

  lemma UnknownLatestIsUnknown(core: CoreParser, current: string)
    ensures VersionEngine.Assess(core, current, "unknown").status == UnknownStatus
  {
    hide NewVersion, Compare;
    TrimSpaceKeepsGraphic("unknown");
  }

  lemma NothingResolvedYet(env: Env, w: WorkloadRecord)
    ensures Prepare(env, w).latestVersion == "unknown"
  {
    hide Classify, ChartLabelParts, SourceObjectName, TrimSpace, ToLower, ApplyHelmLabels, ApplyHelmPayload;
    forall r: ChartRecord, chartLabel: string, payload: Payload
      ensures ApplyHelmPayload(env.urls, ApplyHelmLabels(r, chartLabel), payload).latestVersion == r.latestVersion
    {
      HelmKeepsLatest(env.urls, r, chartLabel, payload);
    }
  }

  lemma HelmKeepsLatest(urls: UrlParser, r: ChartRecord, chartLabel: string, payload: Payload)
    ensures ApplyHelmPayload(urls, ApplyHelmLabels(r, chartLabel), payload).latestVersion == r.latestVersion
  {
    hide Classify, ChartLabelParts, TrimSpace;
  }

  /** A workload that cannot be resolved, or whose resolution fails in any way, is reported as unknown. */
  lemma UnresolvedIsUnknown(env: Env, w: WorkloadRecord)
    requires CanResolve(Prepare(env, w)) ==> ResolveUncached(env, Prepare(env, w)).Err?
    ensures
      var r := BuildSingle(env, w);
      r.latestVersion == "unknown" && r.status == UnknownStatus
  {
    hide Prepare, CanResolve, ResolveUncached, VersionEngine.Assess;
    NothingResolvedYet(env, w);
    UnknownLatestIsUnknown(env.core, Prepare(env, w).currentVersion);
  }

  /** From registry to verdict: a workload whose chart is in a registry with these tags gets the status they call
      for exactly when the tag picked from them does not start with two `v`s. */
  lemma RegistryStatusIsDeserved(env: Env, w: WorkloadRecord, t: OciResolver.Target, tags: seq<string>)
    requires
      var record := Prepare(env, w);
      && CanResolve(record) && record.sourceKind.OCIRegistry?
      && OciResolver.TargetOf(record.repoURL, record.chartName) == Ok(t)
      && TrimSpace(record.currentVersion) != "" && NewVersion(env.core, TrimSpace(record.currentVersion)).Some?
    requires OciTags.Fetch(env.registry, t.host, t.repository).result == Ok(tags)
    ensures
      var current := NewVersion(env.core, TrimSpace(Prepare(env, w).currentVersion)).value;
      var latest := VersionEngine.LatestFromTags(env.core, tags);
      && BuildSingle(env, w).latestVersion == latest
      && (BuildSingle(env, w).status == VersionEngine.DeservedStatus(env.core, current, tags) <==> !HasPrefix(latest, "vv"))
  {
    hide Prepare, CanResolve, VersionEngine.Assess, VersionEngine.DeservedStatus, OciResolver.TargetOf, OciTags.Fetch, NewVersion,
         TrimSpace, Tags.Pick;
    VersionEngine.OutdatedIffNewerExists(env.core, Prepare(env, w).currentVersion, tags);
    Tags.PickIsFirstMaximal(env.core, tags, 0);
  }

  /** From index to verdict: a workload whose chart has these versions in an index gets the status they call for
      exactly when the first one parses and is newer than the current version if any is, or when none parses. */
  lemma IndexStatusIsDeserved(env: Env, w: WorkloadRecord, charts: IndexCache.Charts)
    requires
      var record := Prepare(env, w);
      && CanResolve(record) && record.sourceKind.HelmRepo?
      && env.index(record.repoURL) == Ok(charts) && record.chartName in charts && charts[record.chartName] != []
      && TrimSpace(record.currentVersion) != "" && NewVersion(env.core, TrimSpace(record.currentVersion)).Some?
    ensures
      var record := Prepare(env, w);
      var versions := charts[record.chartName];
      var current := NewVersion(env.core, TrimSpace(record.currentVersion)).value;
      && BuildSingle(env, w).latestVersion == versions[0]
      && (BuildSingle(env, w).status == VersionEngine.DeservedStatus(env.core, current, versions) <==>
            VersionEngine.FirstTells(env.core, current, versions) || Tags.NothingParses(env.core, versions))
  {
    hide Prepare, CanResolve, VersionEngine.Assess, VersionEngine.DeservedStatus, VersionEngine.FirstTells, NewVersion, TrimSpace,
         Tags.NothingParses, IndexCache.Refusal;
    var record := Prepare(env, w);
    IndexDispatchIsAccepted(env, w);
    VersionEngine.FirstEntryStatus(env.core, record.currentVersion, charts[record.chartName]);
  }
}
