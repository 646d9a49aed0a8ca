/**
 Finding Helm releases from their storage objects and keeping the latest revision
 of each (`internal/discovery/helm_release.go`).
 */
module HelmReleases {
  import opened Text
  import opened Model
  import opened Discovery

  datatype HelmObject = HelmObject(namespace: string, name: string, labels: map<string, string>)

  type Listing = Result<seq<HelmObject>, ResolveError>

  datatype RevisionCandidate = RevisionCandidate(record: WorkloadRecord, revision: int)

  /** A label's value, "" when it is absent. */
  function Label(labels: map<string, string>, key: string): string {
    if key in labels then labels[key] else ""
  }

  function ReleaseName(labels: map<string, string>, fallback: string): string {
    if Label(labels, "name") != "" then Label(labels, "name") else fallback
  }

  function DeploymentType(labels: map<string, string>): string {
    if Label(labels, "app.kubernetes.io/managed-by") == "Terraform" then "terraform" else "helm"
  }

  function DecimalValue(digits: string): nat
    requires forall c :: c in digits ==> IsDigit(c)
  {
    if digits == "" then 0
    else
      assert IsDigit(digits[|digits| - 1]) by { assert digits[|digits| - 1] in digits; }
      10 * DecimalValue(digits[..|digits| - 1]) + (digits[|digits| - 1] as int - '0' as int)
  }

  /** `strconv.Atoi`: an optional sign, decimal digits, and a 64-bit range. */
  function Atoi(s: string): Option<int> {
    var negative := HasPrefix(s, "-");
    var digits := if negative || HasPrefix(s, "+") then s[1..] else s;
    if digits == "" || exists c :: c in digits && !IsDigit(c) then None
    else
      var n: int := if negative then -(DecimalValue(digits) as int) else DecimalValue(digits);
      if -0x8000_0000_0000_0000 <= n < 0x8000_0000_0000_0000 then Some(n) else None
  }

  function ParseRevision(labels: map<string, string>): int {
    match Atoi(Label(labels, "version"))
    case Some(n) => n
    case None => -1
  }

  /** Decimal digits without leading zeros, as Helm writes its revision label. */
  function Decimal(n: nat): (s: string)
    ensures s != "" && forall c :: c in s ==> IsDigit(c)
  {
    var digit := [('0' as int + n % 10) as char];
    if n < 10 then digit else Decimal(n / 10) + digit
  }

  lemma {:induction false} DecimalRoundTrip(n: nat)
    ensures DecimalValue(Decimal(n)) == n
    decreases n
  {
    var s := Decimal(n);
    if n >= 10 {
      DecimalRoundTrip(n / 10);
      assert s[..|s| - 1] == Decimal(n / 10);
    } else {
      assert s[..|s| - 1] == "";
    }
  }

  /** A printed revision is read back when it fits 64 bits, and reads as -1 otherwise. */
  lemma RevisionRoundTrip(labels: map<string, string>, n: nat)
    requires "version" in labels && labels["version"] == Decimal(n)
    ensures ParseRevision(labels) == if n < 0x8000_0000_0000_0000 then n else -1
  {
    hide DecimalValue, Decimal;
    DecimalRoundTrip(n);
    assert Decimal(n)[0] in Decimal(n);
  }

  function RecordOf(kind: SourceType, o: HelmObject): WorkloadRecord {
    WorkloadRecord(WorkloadID(kind, o.namespace, o.name), ReleaseName(o.labels, o.name), o.namespace, o.namespace,
                   kind, DeploymentType(o.labels))
  }

  function CandidateOf(kind: SourceType, o: HelmObject): RevisionCandidate {
    RevisionCandidate(RecordOf(kind, o), ParseRevision(o.labels))
  }

  /** Secrets in listing order, then config maps in listing order. */
  function Listed(secrets: seq<HelmObject>, configMaps: seq<HelmObject>): seq<RevisionCandidate> {
    seq(|secrets|, i requires 0 <= i < |secrets| => CandidateOf(HelmReleaseSecret, secrets[i])) +
    seq(|configMaps|, i requires 0 <= i < |configMaps| => CandidateOf(HelmReleaseCM, configMaps[i]))
  }

  function ReleaseKey(namespace: string, name: string): string {
    namespace + "/" + name
  }

  function ReleaseKeyOf(c: RevisionCandidate): string {
    ReleaseKey(c.record.namespace, c.record.appName)
  }

  function ConsiderLatest(store: map<string, RevisionCandidate>, key: string, c: RevisionCandidate)
    : map<string, RevisionCandidate>
  {
    if key !in store || c.revision > store[key].revision then store[key := c] else store
  }

  function Latest(candidates: seq<RevisionCandidate>): map<string, RevisionCandidate> {
    if candidates == [] then map[]
    else
      var c := candidates[|candidates| - 1];
      ConsiderLatest(Latest(candidates[..|candidates| - 1]), ReleaseKeyOf(c), c)
  }

  /** `out` holds the records of `store`, one for each key, in the order of `keys`. */
  ghost predicate Enumerates(out: seq<WorkloadRecord>, store: map<string, RevisionCandidate>, keys: seq<string>) {
    && |keys| == |out|
    && (forall k :: k in store <==> k in keys)
    && (forall i, j :: 0 <= i < j < |keys| ==> keys[i] != keys[j])
    && (forall i :: 0 <= i < |out| ==> keys[i] in store && out[i] == store[keys[i]].record)
  }

  ghost predicate ListsRecords(out: seq<WorkloadRecord>, store: map<string, RevisionCandidate>) {
    exists keys :: Enumerates(out, store, keys)
  }

  /** The stored records, in any order of the keys, as map iteration takes them. */
  method RecordsOf(seen: map<string, RevisionCandidate>) returns (out: seq<WorkloadRecord>)
    ensures ListsRecords(out, seen)
  {
    out := [];
    ghost var keys: seq<string> := [];
    var remaining := seen.Keys;
    while remaining != {}
      invariant remaining <= seen.Keys
      invariant |keys| == |out|
      invariant forall k :: k in keys <==> k in seen.Keys - remaining
      invariant forall i, j :: 0 <= i < j < |keys| ==> keys[i] != keys[j]
      invariant forall i :: 0 <= i < |out| ==> keys[i] in seen && out[i] == seen[keys[i]].record
      decreases remaining
    {
      var k :| k in remaining;
      assert k !in keys;
      out, keys := out + [seen[k].record], keys + [k];
      remaining := remaining - {k};
    }
    assert Enumerates(out, seen, keys);
  }

  method DiscoverWithSelector(secrets: Listing, configMaps: Listing) returns (r: Answer)
    ensures r.Err? <==> secrets.Err? || configMaps.Err?
    ensures r.Ok? ==> ListsRecords(r.value, Latest(Listed(secrets.value, configMaps.value)))
  {
    hide CandidateOf, ReleaseKeyOf, ConsiderLatest, ListsRecords, Latest, Listed;
    if secrets.Err? {
      return Err(secrets.error);
    }
    if configMaps.Err? {
      return Err(configMaps.error);
    }
    ghost var listed := Listed(secrets.value, configMaps.value);
    ListedAt(secrets.value, configMaps.value);
    var seen: map<string, RevisionCandidate> := map[];
    for i := 0 to |secrets.value|
      invariant seen == Latest(listed[..i])
    {
      LatestStep(listed, i);
      var c := CandidateOf(HelmReleaseSecret, secrets.value[i]);
      seen := ConsiderLatest(seen, ReleaseKeyOf(c), c);
    }
    for i := 0 to |configMaps.value|
      invariant seen == Latest(listed[..|secrets.value| + i])
    {
      LatestStep(listed, |secrets.value| + i);
      var c := CandidateOf(HelmReleaseCM, configMaps.value[i]);
      seen := ConsiderLatest(seen, ReleaseKeyOf(c), c);
    }
    assert listed[..|listed|] == listed;
    var out := RecordsOf(seen);
    return Ok(out);
  }

  lemma LatestStep(candidates: seq<RevisionCandidate>, k: nat)
    requires k < |candidates|
    ensures Latest(candidates[..k + 1]) ==
            ConsiderLatest(Latest(candidates[..k]), ReleaseKeyOf(candidates[k]), candidates[k])
  {
    hide ReleaseKeyOf;
    assert candidates[..k + 1][..k] == candidates[..k];
  }

  lemma ListedAt(secrets: seq<HelmObject>, configMaps: seq<HelmObject>)
    ensures
      var listed := Listed(secrets, configMaps);
      && |listed| == |secrets| + |configMaps|
      && (forall i :: 0 <= i < |secrets| ==> listed[i] == CandidateOf(HelmReleaseSecret, secrets[i]))
      && (forall i :: 0 <= i < |configMaps| ==> listed[|secrets| + i] == CandidateOf(HelmReleaseCM, configMaps[i]))
      && Latest(listed[..0]) == map[]
  {
    hide CandidateOf;
  }

  /** The listings that count: those of deployed releases unless they failed or are empty. */
  function Chosen(deployedSecrets: Listing, deployedCMs: Listing, ownedSecrets: Listing, ownedCMs: Listing)
    : (Listing, Listing)
  {
    if deployedSecrets.Ok? && deployedCMs.Ok? && deployedSecrets.value + deployedCMs.value != []
    then (deployedSecrets, deployedCMs)
    else (ownedSecrets, ownedCMs)
  }

  method DiscoverReleases(deployedSecrets: Listing, deployedCMs: Listing, ownedSecrets: Listing, ownedCMs: Listing)
    returns (r: Answer)
    ensures
      var useDeployed := deployedSecrets.Ok? && deployedCMs.Ok? && (deployedSecrets.value != [] || deployedCMs.value != []);
      && (r.Err? <==> !useDeployed && (ownedSecrets.Err? || ownedCMs.Err?))
      && (r.Ok? && useDeployed ==> ListsRecords(r.value, Latest(Listed(deployedSecrets.value, deployedCMs.value))))
      && (r.Ok? && !useDeployed ==> ListsRecords(r.value, Latest(Listed(ownedSecrets.value, ownedCMs.value))))
  {
    hide CandidateOf, ReleaseKeyOf;
    r := DiscoverWithSelector(deployedSecrets, deployedCMs);
    if r.Ok? {
      NonEmptyListing(r.value, Listed(deployedSecrets.value, deployedCMs.value));
      assert |Listed(deployedSecrets.value, deployedCMs.value)| == |deployedSecrets.value + deployedCMs.value|;
    }
    if r.Ok? && |r.value| > 0 {
      return;
    }
    r := DiscoverWithSelector(ownedSecrets, ownedCMs);
  }

  lemma NonEmptyListing(out: seq<WorkloadRecord>, candidates: seq<RevisionCandidate>)
    requires ListsRecords(out, Latest(candidates))
    ensures out == [] <==> candidates == []
  {
    hide ReleaseKeyOf;
    var keys :| Enumerates(out, Latest(candidates), keys);
    if candidates != [] {
      assert ReleaseKeyOf(candidates[|candidates| - 1]) in Latest(candidates);
    }
    assert keys == [] <==> Latest(candidates).Keys == {} by {
      if keys != [] { assert keys[0] in keys && keys[0] in Latest(candidates).Keys; }
    }
  }

  // ---------------------------------------------------------------- Selection

  /** No candidate of the same release is newer, and none as new comes earlier. */
  ghost predicate IsFirstLatest(candidates: seq<RevisionCandidate>, i: nat) {
    && i < |candidates|
    && (forall j :: 0 <= j < |candidates| && KeyOf(candidates[j].record) == KeyOf(candidates[i].record) ==>
          candidates[j].revision <= candidates[i].revision && (j < i ==> candidates[j].revision < candidates[i].revision))
  }

  ghost predicate SlashFree(candidates: seq<RevisionCandidate>) {
    forall i :: 0 <= i < |candidates| ==> '/' !in candidates[i].record.namespace
  }

  /** For slash-free namespaces, equal release keys mean the same namespace and name. */
  lemma ReleaseKeyIsInjective(a: RevisionCandidate, b: RevisionCandidate)
    requires '/' !in a.record.namespace && '/' !in b.record.namespace
    ensures ReleaseKeyOf(a) == ReleaseKeyOf(b) <==> KeyOf(a.record) == KeyOf(b.record)
  {
    IndexOfHead(a.record.namespace, '/', a.record.appName);
    IndexOfHead(b.record.namespace, '/', b.record.appName);
    var ka, kb := ReleaseKeyOf(a), ReleaseKeyOf(b);
    assert ka[..|a.record.namespace|] == a.record.namespace && ka[|a.record.namespace| + 1..] == a.record.appName;
    assert kb[..|b.record.namespace|] == b.record.namespace && kb[|b.record.namespace| + 1..] == b.record.appName;
  }

  /** The position of the candidate stored under `key`. */
  function LatestIndex(candidates: seq<RevisionCandidate>, key: string): (i: Option<nat>)
    ensures i.Some? ==> i.value < |candidates| && ReleaseKeyOf(candidates[i.value]) == key
  {
    if candidates == [] then None
    else
      var n := |candidates| - 1;
      var before := LatestIndex(candidates[..n], key);
      if ReleaseKeyOf(candidates[n]) == key && (before.None? || candidates[n].revision > candidates[before.value].revision)
      then Some(n)
      else before
  }

  lemma {:induction false} StoreHoldsLatest(candidates: seq<RevisionCandidate>, key: string)
    ensures key in Latest(candidates) <==> LatestIndex(candidates, key).Some?
    ensures key in Latest(candidates) ==> Latest(candidates)[key] == candidates[LatestIndex(candidates, key).value]
    decreases |candidates|
  {
    hide ReleaseKeyOf;
    if candidates == [] {
    } else {
      StoreHoldsLatest(candidates[..|candidates| - 1], key);
    }
  }

  lemma {:induction false} LatestIndexIsMaximal(candidates: seq<RevisionCandidate>, key: string, j: nat)
    requires j < |candidates| && ReleaseKeyOf(candidates[j]) == key
    ensures
      var i := LatestIndex(candidates, key);
      && i.Some? && candidates[j].revision <= candidates[i.value].revision
      && (j < i.value ==> candidates[j].revision < candidates[i.value].revision)
    decreases |candidates|
  {
    hide ReleaseKeyOf;
    var n := |candidates| - 1;
    if j == n {
    } else {
      LatestIndexIsMaximal(candidates[..n], key, j);
    }
  }

  lemma StoredIsFirstLatest(candidates: seq<RevisionCandidate>, key: string)
    requires SlashFree(candidates) && LatestIndex(candidates, key).Some?
    ensures IsFirstLatest(candidates, LatestIndex(candidates, key).value)
  {
    hide ReleaseKeyOf, LatestIndex, KeyOf;
    var w := LatestIndex(candidates, key).value;
    forall j | 0 <= j < |candidates| && KeyOf(candidates[j].record) == KeyOf(candidates[w].record)
      ensures candidates[j].revision <= candidates[w].revision && (j < w ==> candidates[j].revision < candidates[w].revision)
    {
      ReleaseKeyIsInjective(candidates[j], candidates[w]);
      LatestIndexIsMaximal(candidates, key, j);
    }
  }

  lemma FirstLatestIsUnique(candidates: seq<RevisionCandidate>, i: nat, j: nat)
    requires IsFirstLatest(candidates, i) && IsFirstLatest(candidates, j)
    requires KeyOf(candidates[i].record) == KeyOf(candidates[j].record)
    ensures i == j
  {
    hide KeyOf;
  }

  /** For slash-free namespaces the stored candidate of a release is the first-listed one of maximal revision. */
  lemma LatestIsFirstMaximal(candidates: seq<RevisionCandidate>, i: nat)
    requires SlashFree(candidates) && i < |candidates|
    ensures
      var key := ReleaseKeyOf(candidates[i]);
      key in Latest(candidates) && (LatestIndex(candidates, key) == Some(i) <==> IsFirstLatest(candidates, i))
    ensures IsFirstLatest(candidates, i) ==> Latest(candidates)[ReleaseKeyOf(candidates[i])] == candidates[i]
  {
    hide ReleaseKeyOf, Latest, LatestIndex, IsFirstLatest, KeyOf;
    var key := ReleaseKeyOf(candidates[i]);
    StoreHoldsLatest(candidates, key);
    LatestIndexIsMaximal(candidates, key, i);
    var w := LatestIndex(candidates, key).value;
    ReleaseKeyIsInjective(candidates[w], candidates[i]);
    StoredIsFirstLatest(candidates, key);
    if IsFirstLatest(candidates, i) {
      FirstLatestIsUnique(candidates, i, w);
    }
  }

  /** `r` is the record of the first-listed candidate of maximal revision of its release. */
  ghost predicate IsSelected(candidates: seq<RevisionCandidate>, r: WorkloadRecord) {
    exists i: nat :: IsFirstLatest(candidates, i) && candidates[i].record == r
  }

  ghost predicate SelectsReleases(out: seq<WorkloadRecord>, candidates: seq<RevisionCandidate>) {
    && UniqueApps(out)
    && (forall r :: r in out ==> IsSelected(candidates, r))
    && (forall i :: 0 <= i < |candidates| ==> Represented(out, candidates[i].record))
  }

  /** The candidate whose record is reported at position `i`. */
  lemma EnumeratedFrom(out: seq<WorkloadRecord>, candidates: seq<RevisionCandidate>, keys: seq<string>, i: nat)
    returns (w: nat)
    requires SlashFree(candidates) && Enumerates(out, Latest(candidates), keys) && i < |out|
    ensures w < |candidates| && out[i] == candidates[w].record
    ensures ReleaseKeyOf(candidates[w]) == keys[i] && IsFirstLatest(candidates, w)
  {
    hide ReleaseKeyOf, Latest, LatestIndex, IsFirstLatest;
    StoreHoldsLatest(candidates, keys[i]);
    w := LatestIndex(candidates, keys[i]).value;
    StoredIsFirstLatest(candidates, keys[i]);
  }

  lemma EnumeratedApart(out: seq<WorkloadRecord>, candidates: seq<RevisionCandidate>, keys: seq<string>, i: nat, j: nat)
    requires SlashFree(candidates) && Enumerates(out, Latest(candidates), keys) && i < j < |out|
    ensures KeyOf(out[i]) != KeyOf(out[j])
  {
    hide ReleaseKeyOf, Latest, IsFirstLatest, KeyOf;
    var a := EnumeratedFrom(out, candidates, keys, i);
    var b := EnumeratedFrom(out, candidates, keys, j);
    ReleaseKeyIsInjective(candidates[a], candidates[b]);
  }

  lemma EnumeratedCovers(out: seq<WorkloadRecord>, candidates: seq<RevisionCandidate>, keys: seq<string>, c: nat)
    requires SlashFree(candidates) && Enumerates(out, Latest(candidates), keys) && c < |candidates|
    ensures Represented(out, candidates[c].record)
  {
    hide ReleaseKeyOf, Latest, IsFirstLatest, KeyOf;
    LatestIsFirstMaximal(candidates, c);
    var i :| 0 <= i < |keys| && keys[i] == ReleaseKeyOf(candidates[c]);
    var w := EnumeratedFrom(out, candidates, keys, i);
    ReleaseKeyIsInjective(candidates[w], candidates[c]);
    assert out[i] in out;
  }

  /** What is reported: for each release listed, exactly one record, of the first-listed candidate of maximal revision. */
  lemma ReleaseSelection(out: seq<WorkloadRecord>, candidates: seq<RevisionCandidate>)
    requires SlashFree(candidates) && ListsRecords(out, Latest(candidates))
    ensures SelectsReleases(out, candidates)
  {
    hide SlashFree, Latest, IsFirstLatest, KeyOf, Represented, Enumerates;
    var keys :| Enumerates(out, Latest(candidates), keys);
    forall r | r in out ensures IsSelected(candidates, r) {
      var i :| 0 <= i < |out| && out[i] == r;
      var w := EnumeratedFrom(out, candidates, keys, i);
    }
    forall i, j | 0 <= i < j < |out| ensures KeyOf(out[i]) != KeyOf(out[j]) {
      EnumeratedApart(out, candidates, keys, i, j);
    }
    forall c | 0 <= c < |candidates| ensures Represented(out, candidates[c].record) {
      EnumeratedCovers(out, candidates, keys, c);
    }
  }

  /** With Argo CD applications and Helm releases merged, an application is reported by its Argo CD record of
      smallest ID if it has one, and by its Helm record of maximal revision otherwise. */
  lemma MergedSelection(argo: seq<WorkloadRecord>, helm: seq<WorkloadRecord>, candidates: seq<RevisionCandidate>,
                        out: seq<WorkloadRecord>, o: WorkloadRecord)
    requires forall a :: a in argo ==> a.sourceType == ArgoCDApplication
    requires forall h :: h in helm ==> h.sourceType != ArgoCDApplication
    requires SelectsReleases(helm, candidates)
    requires IsCanonical(out, Elements(argo + helm)) && o in out
    ensures if Represented(argo, o)
            then o in argo && forall a :: a in argo && KeyOf(a) == KeyOf(o) ==> a == o || Before(o.id, a.id)
            else IsSelected(candidates, o)
  {
    hide Before, IsSelected, Represented, SelectsReleases;
    assert o in Elements(argo + helm);
    assert o in argo || o in helm;
    if Represented(argo, o) {
      var a := Representative(argo, o);
      ArgoWins(argo, helm, out, o, a);
      forall b | b in argo && KeyOf(b) == KeyOf(o) ensures b == o || Before(o.id, b.id) {
        ArgoWins(argo, helm, out, o, b);
      }
    } else {
      if o in argo { RepresentsItself(argo, o); }
      SelectedInHelm(helm, candidates, o);
    }
  }

  lemma ArgoWins(argo: seq<WorkloadRecord>, helm: seq<WorkloadRecord>, out: seq<WorkloadRecord>,
                 o: WorkloadRecord, a: WorkloadRecord)
    requires forall a :: a in argo ==> a.sourceType == ArgoCDApplication
    requires forall h :: h in helm ==> h.sourceType != ArgoCDApplication
    requires IsCanonical(out, Elements(argo + helm)) && o in out
    requires a in argo && KeyOf(a) == KeyOf(o)
    ensures o in argo && (a == o || Before(o.id, a.id))
  {
    hide Before, Represented;
    assert a in Elements(argo + helm) && o in Elements(argo + helm);
    assert o == a || Preferred(o, a);
  }

  lemma RepresentsItself(s: seq<WorkloadRecord>, r: WorkloadRecord)
    requires r in s
    ensures Represented(s, r)
  {
  }

  lemma SelectedInHelm(helm: seq<WorkloadRecord>, candidates: seq<RevisionCandidate>, o: WorkloadRecord)
    requires SelectsReleases(helm, candidates) && o in helm
    ensures IsSelected(candidates, o)
  {
    hide IsSelected, Represented;
  }

  /** Every application of either kind is reported. */
  lemma MergedCoverage(argo: seq<WorkloadRecord>, helm: seq<WorkloadRecord>, candidates: seq<RevisionCandidate>,
                       out: seq<WorkloadRecord>)
    requires SelectsReleases(helm, candidates) && IsCanonical(out, Elements(argo + helm))
    ensures forall a :: a in argo ==> Represented(out, a)
    ensures forall i :: 0 <= i < |candidates| ==> Represented(out, candidates[i].record)
  {
    hide Before, Preferred, IsSelected, KeyOf;
    assert forall r :: r in argo + helm ==> r in Elements(argo + helm);
    forall i | 0 <= i < |candidates| ensures Represented(out, candidates[i].record) {
      var h := Representative(helm, candidates[i].record);
      assert h in argo + helm;
      var o := Representative(out, h);
    }
  }
}
