/**
 The two resolvers side by side: the index resolver trusts the order of the index, the OCI
 resolver compares all tags.
 */
module ResolverAgreement {
  import opened Text
  import opened Model
  import opened SemVer
  import opened Tags
  import IndexCache

  ghost predicate NonIncreasing(core: CoreParser, versions: seq<string>) {
    && (forall i :: 0 <= i < |versions| ==> Candidate(core, versions[i]).Some?)
    && (forall i, j :: 0 <= i < j < |versions| ==>
          Compare(Candidate(core, versions[j]).value, Candidate(core, versions[i]).value) <= 0)
  }

  /** The first entry is what comparing all versions would pick exactly when it parses and none is greater. */
  lemma FirstIsPickedExactly(core: CoreParser, versions: seq<string>)
    requires versions != []
    ensures
      Pick(core, versions) == Some(0) <==>
      && Candidate(core, versions[0]).Some?
      && forall j :: 0 <= j < |versions| && Candidate(core, versions[j]).Some? ==>
           Compare(Candidate(core, versions[j]).value, Candidate(core, versions[0]).value) <= 0
  {
    hide Compare, Candidate, TrimSpace;
    PickIsFirstMaximal(core, versions, 0);
  }

  /** For a chart whose index versions parse and do not increase, both resolvers give the same answer up to surrounding space. */
  lemma ResolversAgree(core: CoreParser, entries: map<string, seq<string>>, chartName: string)
    requires chartName in IndexCache.IndexCharts(entries)
    requires NonIncreasing(core, IndexCache.IndexCharts(entries)[chartName])
    ensures
      var versions := IndexCache.IndexCharts(entries)[chartName];
      var first := IndexCache.FirstVersion(IndexCache.IndexCharts(entries), chartName);
      first.Ok? && PickLatest(core, versions) == Ok(TrimSpace(first.value))
  {
    hide Compare, Candidate, TrimSpace, IndexCache.NonBlank;
    var versions := IndexCache.IndexCharts(entries)[chartName];
    assert versions != [];
    SelfComparison(core, versions[0]);
    FirstIsPickedExactly(core, versions);
  }

  lemma SelfComparison(core: CoreParser, version: string)
    ensures
      var v := Candidate(core, version);
      v.Some? ==> Compare(v.value, v.value) == 0
  {
    hide Candidate, Compare;
    if Candidate(core, version).Some? {
      var v := Candidate(core, version).value;
      PrecedenceIsTotalPreorder(v, v, v);
    }
  }
}
