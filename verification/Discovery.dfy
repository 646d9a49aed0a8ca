/**
 Merging what the discovery sources report into one record per application
 (`internal/discovery/discovery.go`).
 */
module Discovery {
  import opened Text
  import opened Model

  type Answer = Result<seq<WorkloadRecord>, ResolveError>

  datatype AppKey = AppKey(namespace: string, app: string)

  function KeyOf(r: WorkloadRecord): AppKey {
    AppKey(r.namespace, r.appName)
  }

  /** Lower numbers take precedence. */
  function SourceTypePriority(s: SourceType): nat {
    match s
    case ArgoCDApplication => 0
    case HelmReleaseSecret => 1
    case HelmReleaseCM => 2
    case OtherSource(_) => 3
  }

  predicate Outranks(a: WorkloadRecord, b: WorkloadRecord) {
    SourceTypePriority(a.sourceType) < SourceTypePriority(b.sourceType)
  }

  /** The order that decides within a group: source priority first, then ID. */
  predicate Preferred(a: WorkloadRecord, b: WorkloadRecord) {
    Outranks(a, b) || (!Outranks(b, a) && Before(a.id, b.id))
  }

  ghost predicate SortedByID(s: seq<WorkloadRecord>) {
    forall i, j :: 0 <= i < j < |s| ==> !Before(s[j].id, s[i].id)
  }

  ghost predicate Ascending(s: seq<WorkloadRecord>) {
    forall i, j :: 0 <= i < j < |s| ==> Before(s[i].id, s[j].id)
  }

  ghost predicate UniqueApps(s: seq<WorkloadRecord>) {
    forall i, j :: 0 <= i < j < |s| ==> KeyOf(s[i]) != KeyOf(s[j])
  }

  ghost predicate IdsAgree(records: set<WorkloadRecord>) {
    forall a, b :: a in records && b in records && a.id == b.id ==> a == b
  }

  ghost function Elements(s: seq<WorkloadRecord>): set<WorkloadRecord> {
    set r | r in s
  }

  /** Everything the successful sources reported, in source order. */
  function Reported(sources: seq<Answer>): seq<WorkloadRecord> {
    if sources == [] then []
    else Reported(sources[..|sources| - 1]) +
         (match sources[|sources| - 1] case Ok(records) => records case Err(_) => [])
  }

  function Failures(sources: seq<Answer>): nat {
    if sources == [] then 0
    else Failures(sources[..|sources| - 1]) + (if sources[|sources| - 1].Err? then 1 else 0)
  }

  /** What is merged is what the sources that did not fail reported, and nothing else. */
  lemma {:induction false} ReportedExactly(sources: seq<Answer>, r: WorkloadRecord)
    ensures r in Reported(sources) <==> exists i :: 0 <= i < |sources| && sources[i].Ok? && r in sources[i].value
    decreases |sources|
  {
    if sources == [] {
    } else {
      var n := |sources| - 1;
      var front := sources[..n];
      ReportedExactly(front, r);
      assert forall i :: 0 <= i < n ==> front[i] == sources[i];
    }
  }

  /** Which record goes before which in a group: Argo CD applications before Secrets before config maps before anything
      else, whatever the IDs, and records of one source by ID. Groups are told by namespace and application name. */
  lemma PreferenceExactly(a: WorkloadRecord, b: WorkloadRecord)
    ensures KeyOf(a) == KeyOf(b) <==> a.namespace == b.namespace && a.appName == b.appName
    ensures a.sourceType == ArgoCDApplication && b.sourceType != ArgoCDApplication ==> Preferred(a, b) && !Preferred(b, a)
    ensures a.sourceType == HelmReleaseSecret && (b.sourceType == HelmReleaseCM || b.sourceType.OtherSource?) ==> Preferred(a, b) && !Preferred(b, a)
    ensures a.sourceType == HelmReleaseCM && b.sourceType.OtherSource? ==> Preferred(a, b) && !Preferred(b, a)
    ensures a.sourceType == b.sourceType ==> (Preferred(a, b) <==> Before(a.id, b.id))
  {
    hide Before;
  }

  /** Some record of `out` is of the same application as `r`. */
  ghost predicate Represented(out: seq<WorkloadRecord>, r: WorkloadRecord) {
    exists o :: o in out && KeyOf(o) == KeyOf(r)
  }

  /** One record per application: ascending by ID, every application of the input represented,
      each by the preferred record of its group. */
  ghost predicate IsCanonical(out: seq<WorkloadRecord>, records: set<WorkloadRecord>) {
    && Ascending(out)
    && (forall r :: r in records ==> Represented(out, r))
    && (forall o :: o in out ==> o in records)
    && (forall o, r :: o in out && r in records && KeyOf(o) == KeyOf(r) ==> o == r || Preferred(o, r))
  }

  ghost predicate HoldsID(records: set<WorkloadRecord>, id: string) {
    exists r :: r in records && r.id == id
  }

  /** One record kept for each ID. */
  ghost predicate OnePerID(chosen: set<WorkloadRecord>, records: set<WorkloadRecord>) {
    chosen <= records && IdsAgree(chosen) && forall r :: r in records ==> HoldsID(chosen, r.id)
  }

  /** A result the merge may have: canonical for some choice of one record for each ID. */
  ghost predicate IsMerge(out: seq<WorkloadRecord>, records: set<WorkloadRecord>) {
    exists chosen :: OnePerID(chosen, records) && IsCanonical(out, chosen)
  }

  // ---------------------------------------------------------------- Sorting

  method InsertByID(t: seq<WorkloadRecord>, r: WorkloadRecord) returns (u: seq<WorkloadRecord>)
    requires SortedByID(t)
    ensures SortedByID(u) && multiset(u) == multiset(t) + multiset{r}
  {
    hide Before;
    BeforeOrder(r.id, r.id, r.id);
    var k := 0;
    while k < |t| && !Before(r.id, t[k].id)
      invariant 0 <= k <= |t|
      invariant forall i :: 0 <= i < k ==> !Before(r.id, t[i].id)
    {
      k := k + 1;
    }
    forall j | k <= j < |t| ensures !Before(t[j].id, r.id) {
      BeforeOrder(r.id, t[k].id, t[j].id);
    }
    u := t[..k] + [r] + t[k..];
    assert t == t[..k] + t[k..];
  }

  /** Any order of records with equal IDs may come out: only what is ensured is known of the result. */
  method SortByID(s: seq<WorkloadRecord>) returns (t: seq<WorkloadRecord>)
    ensures SortedByID(t) && multiset(t) == multiset(s)
  {
    t := [];
    for i := 0 to |s|
      invariant SortedByID(t) && multiset(t) == multiset(s[..i])
    {
      assert s[..i + 1] == s[..i] + [s[i]];
      t := InsertByID(t, s[i]);
    }
    assert s[..|s|] == s;
  }

  lemma SameElements(s: seq<WorkloadRecord>, t: seq<WorkloadRecord>)
    requires multiset(s) == multiset(t)
    ensures Elements(s) == Elements(t)
  {
    forall r ensures r in s <==> r in t {
      assert r in s <==> r in multiset(s);
      assert r in t <==> r in multiset(t);
    }
  }

  // ---------------------------------------------------------------- One record per ID

  predicate HasID(s: seq<WorkloadRecord>, id: string) {
    exists r :: r in s && r.id == id
  }

  function FirstPerID(s: seq<WorkloadRecord>): seq<WorkloadRecord> {
    if s == [] then []
    else
      var front := s[..|s| - 1];
      if HasID(front, s[|s| - 1].id) then FirstPerID(front) else FirstPerID(front) + [s[|s| - 1]]
  }

  method Deduplicate(records: seq<WorkloadRecord>) returns (out: seq<WorkloadRecord>)
    ensures out == FirstPerID(records)
  {
    hide HasID;
    if |records| == 0 {
      return records;
    }
    NoIDs();
    out := [];
    var seen: set<string> := {};
    for i := 0 to |records|
      invariant out == FirstPerID(records[..i])
      invariant forall id :: id in seen <==> HasID(records[..i], id)
    {
      var rec := records[i];
      assert records[..i + 1] == records[..i] + [rec];
      HasIDStep(records[..i], rec);
      if rec.id in seen { continue; }
      seen := seen + {rec.id};
      out := out + [rec];
    }
    assert records[..|records|] == records;
  }

  lemma NoIDs()
    ensures forall id :: !HasID([], id)
  {
  }

  lemma HasIDStep(s: seq<WorkloadRecord>, r: WorkloadRecord)
    ensures forall id :: HasID(s + [r], id) <==> HasID(s, id) || id == r.id
  {
    forall id ensures HasID(s + [r], id) <==> HasID(s, id) || id == r.id {
      assert r in s + [r];
      if k :| k in s && k.id == id { assert k in s + [r]; }
    }
  }

  lemma HasIDGrows(s: seq<WorkloadRecord>, r: WorkloadRecord, id: string)
    requires HasID(s, id)
    ensures HasID(s + [r], id)
  {
    var k :| k in s && k.id == id;
    assert k in s + [r];
  }

  lemma {:induction false} FirstPerIDKeepsIDs(s: seq<WorkloadRecord>)
    ensures forall r :: r in FirstPerID(s) ==> r in s
    ensures forall r :: r in s ==> HasID(FirstPerID(s), r.id)
    decreases |s|
  {
    hide HasID;
    if s == [] {
    } else {
      var front, last := s[..|s| - 1], s[|s| - 1];
      assert s == front + [last];
      FirstPerIDKeepsIDs(front);
      if HasID(front, last.id) {
        var r := HolderOf(front, last.id);
        assert HasID(FirstPerID(front), r.id);
      } else {
        forall r | r in s ensures HasID(FirstPerID(s), r.id) {
          if r in front {
            HasIDGrows(FirstPerID(front), last, r.id);
          } else {
            HasOwnID(FirstPerID(s), last);
          }
        }
      }
    }
  }

  lemma HolderOf(s: seq<WorkloadRecord>, id: string) returns (r: WorkloadRecord)
    requires HasID(s, id)
    ensures r in s && r.id == id
  {
    r :| r in s && r.id == id;
  }

  lemma HasOwnID(s: seq<WorkloadRecord>, r: WorkloadRecord)
    requires r in s
    ensures HasID(s, r.id)
  {
  }

  lemma {:induction false} FirstPerIDAscends(s: seq<WorkloadRecord>)
    requires SortedByID(s)
    ensures Ascending(FirstPerID(s))
    decreases |s|
  {
    hide Before, HasID;
    if s == [] {
    } else {
      var n := |s| - 1;
      var front, last := s[..n], s[n];
      FirstPerIDAscends(front);
      FirstPerIDKeepsIDs(front);
      if !HasID(front, last.id) {
        var kept := FirstPerID(front);
        forall i | 0 <= i < |kept| ensures Before(kept[i].id, last.id) {
          assert kept[i] in front;
          var k :| 0 <= k < n && front[k] == kept[i];
          HasOwnID(front, front[k]);
          assert !Before(s[n].id, s[k].id);
          BeforeTotal(kept[i].id, last.id);
        }
      }
    }
  }

  lemma FirstPerIDKeepsAll(s: seq<WorkloadRecord>)
    requires IdsAgree(Elements(s))
    ensures Elements(FirstPerID(s)) == Elements(s)
  {
    FirstPerIDKeepsIDs(s);
    forall r | r in s ensures r in FirstPerID(s) {
      var k :| k in FirstPerID(s) && k.id == r.id;
      assert k in Elements(s) && r in Elements(s);
    }
  }

  // ---------------------------------------------------------------- One record per application

  function BestByApp(s: seq<WorkloadRecord>): map<AppKey, WorkloadRecord> {
    if s == [] then map[]
    else
      var best := BestByApp(s[..|s| - 1]);
      var rec := s[|s| - 1];
      var k := KeyOf(rec);
      if k !in best || Outranks(rec, best[k]) then best[k := rec] else best
  }

  /** `out` holds the values of `best`, one for each key. */
  ghost predicate ListsValues(out: seq<WorkloadRecord>, best: map<AppKey, WorkloadRecord>) {
    && (forall k :: k in best ==> best[k] in out)
    && (forall r :: r in out ==> KeyOf(r) in best && best[KeyOf(r)] == r)
    && UniqueApps(out)
  }

  method DeduplicateByApp(records: seq<WorkloadRecord>) returns (out: seq<WorkloadRecord>)
    ensures ListsValues(out, BestByApp(records)) && SortedByID(out)
  {
    if |records| == 0 {
      return records;
    }
    var best: map<AppKey, WorkloadRecord> := map[];
    for i := 0 to |records|
      invariant best == BestByApp(records[..i])
    {
      assert records[..i + 1][..i] == records[..i];
      var rec := records[i];
      var k := KeyOf(rec);
      if k !in best || Outranks(rec, best[k]) {
        best := best[k := rec];
      }
    }
    assert records[..|records|] == records;
    BestByAppKeys(records);

    // Map iteration takes the keys in any order.
    var listed: seq<WorkloadRecord> := [];
    var remaining := best.Keys;
    while remaining != {}
      invariant remaining <= best.Keys
      invariant forall k :: k in best && k !in remaining ==> best[k] in listed
      invariant forall r :: r in listed ==> KeyOf(r) in best.Keys - remaining && best[KeyOf(r)] == r
      invariant UniqueApps(listed)
      decreases remaining
    {
      var k :| k in remaining;
      listed := listed + [best[k]];
      remaining := remaining - {k};
    }
    out := SortByID(listed);
    PermutationListsValues(listed, out, best);
  }

  lemma {:induction false} BestByAppKeys(s: seq<WorkloadRecord>)
    ensures forall k :: k in BestByApp(s) ==> KeyOf(BestByApp(s)[k]) == k && BestByApp(s)[k] in s
    ensures forall r :: r in s ==> KeyOf(r) in BestByApp(s)
    decreases |s|
  {
    if s == [] {
    } else {
      BestByAppKeys(s[..|s| - 1]);
      assert s == s[..|s| - 1] + [s[|s| - 1]];
    }
  }

  lemma PermutationListsValues(s: seq<WorkloadRecord>, t: seq<WorkloadRecord>, best: map<AppKey, WorkloadRecord>)
    requires multiset(s) == multiset(t) && ListsValues(s, best)
    ensures ListsValues(t, best)
  {
    SameElements(s, t);
    assert forall r :: r in t <==> r in Elements(t);
    assert forall r :: r in s <==> r in Elements(s);
    forall i, j | 0 <= i < j < |t| ensures KeyOf(t[i]) != KeyOf(t[j]) {
      if KeyOf(t[i]) == KeyOf(t[j]) {
        assert t[i] in t && t[j] in t && t[i] == t[j];
        TwiceInMultiset(t, i, j);
        OnceInMultiset(s, t[i]);
      }
    }
  }

  lemma TwiceInMultiset(t: seq<WorkloadRecord>, i: nat, j: nat)
    requires i < j < |t| && t[i] == t[j]
    ensures multiset(t)[t[i]] >= 2
  {
    assert t == t[..i] + [t[i]] + t[i + 1..j] + [t[j]] + t[j + 1..];
  }

  lemma {:induction false} OnceInMultiset(s: seq<WorkloadRecord>, r: WorkloadRecord)
    requires UniqueApps(s)
    ensures multiset(s)[r] <= 1
    decreases |s|
  {
    if s == [] {
    } else {
      var front := s[..|s| - 1];
      assert s == front + [s[|s| - 1]];
      OnceInMultiset(front, r);
      if r == s[|s| - 1] {
        assert forall i :: 0 <= i < |front| ==> front[i] == s[i] && KeyOf(s[i]) != KeyOf(r);
        assert r !in front;
      }
    }
  }

  /** The record kept for the group of `r` is `r` or one preferred to it. */
  predicate Settles(best: map<AppKey, WorkloadRecord>, r: WorkloadRecord) {
    KeyOf(r) in best && (r == best[KeyOf(r)] || Preferred(best[KeyOf(r)], r))
  }

  /** Over records ascending by ID, the survivor of a group is its preferred record. */
  lemma {:induction false} BestIsPreferred(s: seq<WorkloadRecord>)
    requires Ascending(s)
    ensures forall r :: r in s ==> Settles(BestByApp(s), r)
    decreases |s|
  {
    hide Before, Settles, SourceTypePriority;
    if s == [] {
    } else {
      var n := |s| - 1;
      var front, last := s[..n], s[n];
      assert s == front + [last];
      BestIsPreferred(front);
      BestByAppKeys(front);
      forall r | r in s ensures Settles(BestByApp(s), r) {
        var i :| 0 <= i <= n && s[i] == r;
        if KeyOf(last) in BestByApp(front) {
          var w := BestByApp(front)[KeyOf(last)];
          var j :| 0 <= j < n && front[j] == w;
          assert Before(s[j].id, s[n].id);
        }
        SettlesStep(BestByApp(front), last, r, i < n);
      }
    }
  }

  lemma SettlesStep(before: map<AppKey, WorkloadRecord>, last: WorkloadRecord, r: WorkloadRecord, earlier: bool)
    requires if earlier then Settles(before, r) else r == last
    requires KeyOf(last) in before ==> KeyOf(before[KeyOf(last)]) == KeyOf(last) && Before(before[KeyOf(last)].id, last.id)
    ensures
      var k := KeyOf(last);
      Settles(if k !in before || Outranks(last, before[k]) then before[k := last] else before, r)
  {
    hide Before, SourceTypePriority;
  }

  // ---------------------------------------------------------------- Composite

  /** The composite's merge of the reports of all sources. It fails exactly when every source failed. */
  method Discover(sources: seq<Answer>) returns (r: Answer)
    ensures r.Err? <==> forall i :: 0 <= i < |sources| ==> sources[i].Err?
    ensures r.Ok? ==>
              && Ascending(r.value) && UniqueApps(r.value)
              && Elements(r.value) <= Elements(Reported(sources))
              && IsMerge(r.value, Elements(Reported(sources)))
    ensures r.Ok? && IdsAgree(Elements(Reported(sources))) ==> IsCanonical(r.value, Elements(Reported(sources)))
  {
    var out: seq<WorkloadRecord> := [];
    var failures := 0;
    for i := 0 to |sources|
      invariant out == Reported(sources[..i])
      invariant failures == Failures(sources[..i])
    {
      assert sources[..i + 1][..i] == sources[..i];
      match sources[i] {
        case Err(_) =>
          failures := failures + 1;
        case Ok(records) =>
          out := out + records;
      }
      assert out + [] == out;
    }
    assert sources[..|sources|] == sources;
    AllFailed(sources);
    if failures == |sources| {
      return Err(Failure(External("all discovery sources failed")));
    }
    var sorted := SortByID(out);
    SameElements(sorted, out);
    var perID := Deduplicate(sorted);
    FirstPerIDKeepsIDs(sorted);
    FirstPerIDAscends(sorted);
    var perApp := DeduplicateByApp(perID);
    ValuesAscend(perID, perApp);
    ValuesAreCanonical(perID, perApp);
    FirstPerIDIsOnePerID(sorted);
    if IdsAgree(Elements(out)) {
      FirstPerIDKeepsAll(sorted);
    }
    return Ok(perApp);
  }

  lemma FirstPerIDIsOnePerID(s: seq<WorkloadRecord>)
    requires SortedByID(s)
    ensures OnePerID(Elements(FirstPerID(s)), Elements(s))
  {
    hide FirstPerID, Before;
    FirstPerIDKeepsIDs(s);
    FirstPerIDAscends(s);
    var kept := FirstPerID(s);
    forall a, b | a in Elements(kept) && b in Elements(kept) && a.id == b.id ensures a == b {
      if a != b { AscendingComparable(kept, a, b); }
      BeforeIrreflexive(a.id);
    }
    forall r | r in Elements(s) ensures HoldsID(Elements(kept), r.id) {
      var k := HolderOf(kept, r.id);
      assert k in Elements(kept);
    }
  }

  lemma {:induction false} AllFailed(sources: seq<Answer>)
    ensures Failures(sources) <= |sources|
    ensures Failures(sources) == |sources| <==> forall i :: 0 <= i < |sources| ==> sources[i].Err?
    decreases |sources|
  {
    if sources == [] {
    } else {
      var front := sources[..|sources| - 1];
      AllFailed(front);
      assert forall i :: 0 <= i < |front| ==> front[i] == sources[i];
    }
  }

  lemma ValuesAscend(records: seq<WorkloadRecord>, out: seq<WorkloadRecord>)
    requires Ascending(records) && ListsValues(out, BestByApp(records)) && SortedByID(out)
    ensures Ascending(out) && forall r :: r in out ==> r in records
  {
    hide Before;
    BestByAppKeys(records);
    forall i, j | 0 <= i < j < |out| ensures Before(out[i].id, out[j].id) {
      assert out[i] in out && out[j] in out;
      assert KeyOf(out[i]) != KeyOf(out[j]);
      AscendingComparable(records, out[i], out[j]);
    }
  }

  lemma AscendingComparable(s: seq<WorkloadRecord>, x: WorkloadRecord, y: WorkloadRecord)
    requires Ascending(s) && x in s && y in s && x != y
    ensures Before(x.id, y.id) || Before(y.id, x.id)
  {
    hide Before;
    var a :| 0 <= a < |s| && s[a] == x;
    var b :| 0 <= b < |s| && s[b] == y;
    if a < b {
      assert Before(s[a].id, s[b].id);
    } else {
      assert Before(s[b].id, s[a].id);
    }
  }

  lemma LastIsGreatest(s: seq<WorkloadRecord>, x: WorkloadRecord)
    requires Ascending(s) && x in s
    ensures x == s[|s| - 1] || Before(x.id, s[|s| - 1].id)
  {
    hide Before;
    var a :| 0 <= a < |s| && s[a] == x;
  }

  lemma ElementsEmpty(s: seq<WorkloadRecord>)
    ensures Elements(s) == {} <==> s == []
  {
    if s != [] { assert s[0] in Elements(s); }
  }

  lemma ValuesAreCanonical(records: seq<WorkloadRecord>, out: seq<WorkloadRecord>)
    requires Ascending(records) && ListsValues(out, BestByApp(records)) && Ascending(out)
    ensures IsCanonical(out, Elements(records))
  {
    hide Before;
    BestByAppKeys(records);
    BestIsPreferred(records);
    var best := BestByApp(records);
    forall r | r in records ensures Represented(out, r) {
      assert best[KeyOf(r)] in out;
    }
    forall o, r | o in out && r in records && KeyOf(o) == KeyOf(r) ensures o == r || Preferred(o, r) {
      assert Settles(best, r);
    }
  }

  // ---------------------------------------------------------------- The canonical form

  lemma PreferredIsAsymmetric(a: WorkloadRecord, b: WorkloadRecord)
    ensures !(Preferred(a, b) && Preferred(b, a))
  {
    BeforeOrder(a.id, b.id, a.id);
  }

  lemma {:induction false} AscendingIsDetermined(a: seq<WorkloadRecord>, b: seq<WorkloadRecord>)
    requires Ascending(a) && Ascending(b) && Elements(a) == Elements(b)
    ensures a == b
    decreases |a|
  {
    hide Before;
    ElementsEmpty(a);
    ElementsEmpty(b);
    if a == [] {
    } else {
      var m, n := |a| - 1, |b| - 1;
      assert a[m] in Elements(a) && b[n] in Elements(b);
      LastIsGreatest(b, a[m]);
      LastIsGreatest(a, b[n]);
      BeforeOrder(a[m].id, b[n].id, a[m].id);
      FrontElements(a);
      FrontElements(b);
      AscendingIsDetermined(a[..m], b[..n]);
      assert a == a[..m] + [a[m]] && b == b[..n] + [b[n]];
    }
  }

  lemma FrontElements(s: seq<WorkloadRecord>)
    requires s != [] && Ascending(s)
    ensures Elements(s[..|s| - 1]) == Elements(s) - {s[|s| - 1]}
  {
    var n := |s| - 1;
    assert s == s[..n] + [s[n]];
    forall i | 0 <= i < n ensures s[i] != s[n] {
      BeforeIrreflexive(s[n].id);
      assert Before(s[i].id, s[n].id);
    }
  }

  lemma Representative(out: seq<WorkloadRecord>, r: WorkloadRecord) returns (o: WorkloadRecord)
    requires Represented(out, r)
    ensures o in out && KeyOf(o) == KeyOf(r)
  {
    o :| o in out && KeyOf(o) == KeyOf(r);
  }

  lemma CanonicalContained(a: seq<WorkloadRecord>, b: seq<WorkloadRecord>, records: set<WorkloadRecord>)
    requires IsCanonical(a, records) && IsCanonical(b, records)
    ensures Elements(a) <= Elements(b)
  {
    hide Preferred, Before, Represented;
    forall o | o in a ensures o in b {
      var p := Representative(b, o);
      PreferredIsAsymmetric(o, p);
    }
  }

  /** The canonical form is a function of the set of records alone, so neither source order, record
      order, the instability of the sort nor map iteration order can show in the output. */
  lemma CanonicalFormIsUnique(a: seq<WorkloadRecord>, b: seq<WorkloadRecord>, records: set<WorkloadRecord>)
    requires IsCanonical(a, records) && IsCanonical(b, records)
    ensures a == b
  {
    hide Before, Preferred, Represented;
    CanonicalContained(a, b, records);
    CanonicalContained(b, a, records);
    AscendingIsDetermined(a, b);
  }

  lemma CanonicalOfItself(out: seq<WorkloadRecord>, records: set<WorkloadRecord>)
    requires IsCanonical(out, records)
    ensures IsCanonical(out, Elements(out))
  {
    hide Before, Preferred;
    forall r | r in out ensures Represented(out, r) { }
  }

  /** Merging a merged list again changes nothing. */
  lemma CanonicalFormIsStable(out: seq<WorkloadRecord>, records: set<WorkloadRecord>, again: seq<WorkloadRecord>)
    requires IsCanonical(out, records) && IsCanonical(again, Elements(out))
    ensures again == out
  {
    hide Before, Preferred, Represented;
    CanonicalOfItself(out, records);
    CanonicalFormIsUnique(out, again, Elements(out));
  }

  /** A canonical list has one record per application of the input, and no application twice. */
  lemma CanonicalIsOnePerApp(out: seq<WorkloadRecord>, records: set<WorkloadRecord>)
    requires IsCanonical(out, records)
    ensures UniqueApps(out)
    ensures forall r :: r in records ==> exists o :: o in out && KeyOf(o) == KeyOf(r)
  {
    hide Preferred, Before, Represented;
    forall i, j | 0 <= i < j < |out| ensures KeyOf(out[i]) != KeyOf(out[j]) {
      assert out[i] in out && out[j] in out;
      BeforeIrreflexive(out[i].id);
      PreferredIsAsymmetric(out[i], out[j]);
    }
    forall r | r in records ensures exists o :: o in out && KeyOf(o) == KeyOf(r) {
      var o := Representative(out, r);
    }
  }
}
