/**
 Repository overrides given as `chart=repo` pairs: `getEnvRepoOverrides` in
 `internal/config/config.go`, and the printer in the chart's deployment template.
 */
module Overrides {
  import opened Text
  import opened Model
  import Catalog

  /** The override one comma-separated part stands for, if it is valid. */
  function ValidPair(part: string): Option<(string, string)> {
    var pair := TrimSpace(part);
    var parts := SplitN(pair, '=', 2);
    if pair == "" || |parts| != 2 then None
    else
      var chart, repo := TrimSpace(parts[0]), TrimSpace(parts[1]);
      if chart == "" || repo == "" then None else Some((ToLower(chart), repo))
  }

  function FromParts(parts: seq<string>): map<string, string> {
    if parts == [] then map[]
    else
      var before := FromParts(parts[..|parts| - 1]);
      match ValidPair(parts[|parts| - 1])
      case None => before
      case Some((chart, repo)) => before[chart := repo]
  }

  function Parse(text: string): map<string, string> {
    var raw := TrimSpace(text);
    if raw == "" then map[] else FromParts(Split(raw, ','))
  }

  method GetEnvRepoOverrides(text: string) returns (out: map<string, string>)
    ensures out == Parse(text)
  {
    hide TrimSpace, ToLower, Index, FromParts, Split, SplitN;
    NoParts();
    out := map[];
    var raw := TrimSpace(text);
    if raw == "" {
      return;
    }
    var pairs := Split(raw, ',');
    for i := 0 to |pairs|
      invariant out == FromParts(pairs[..i])
    {
      FromPartsStep(pairs, i);
      var pair := TrimSpace(pairs[i]);
      if pair == "" { continue; }
      var parts := SplitN(pair, '=', 2);
      if |parts| != 2 { continue; }
      var chart, repo := TrimSpace(parts[0]), TrimSpace(parts[1]);
      if chart == "" || repo == "" { continue; }
      out := out[ToLower(chart) := repo];
    }
    assert pairs[..|pairs|] == pairs;
  }

  lemma FromPartsStep(parts: seq<string>, k: nat)
    requires k < |parts|
    ensures
      FromParts(parts[..k + 1]) ==
      match ValidPair(parts[k])
      case None => FromParts(parts[..k])
      case Some((chart, repo)) => FromParts(parts[..k])[chart := repo]
  {
    hide ValidPair;
    assert parts[..k + 1][..k] == parts[..k];
  }

  lemma NoParts()
    ensures FromParts([]) == map[]
  {
  }

  /** Part `i` is the last valid one for `chart`. */
  ghost predicate IsLastFor(parts: seq<string>, chart: string, i: nat) {
    && i < |parts| && ValidPair(parts[i]).Some? && ValidPair(parts[i]).value.0 == chart
    && forall j :: i < j < |parts| && ValidPair(parts[j]).Some? ==> ValidPair(parts[j]).value.0 != chart
  }

  /** Per case-folded chart name, the last valid pair wins, and nothing else is in the map. */
  lemma {:induction false} LastValidPairWins(parts: seq<string>, chart: string)
    ensures forall i: nat :: IsLastFor(parts, chart, i) ==> chart in FromParts(parts) && FromParts(parts)[chart] == ValidPair(parts[i]).value.1
    ensures chart in FromParts(parts) ==> exists i: nat :: IsLastFor(parts, chart, i)
    decreases |parts|
  {
    hide ValidPair;
    if parts == [] {
    } else {
      var n := |parts| - 1;
      var front := parts[..n];
      LastValidPairWins(front, chart);
      var last := ValidPair(parts[n]);
      if last.Some? && last.value.0 == chart {
        assert IsLastFor(parts, chart, n);
      } else {
        forall i: nat ensures IsLastFor(front, chart, i) <==> IsLastFor(parts, chart, i) {
          assert forall j :: 0 <= j < n ==> front[j] == parts[j];
        }
      }
    }
  }

  lemma ValidPairIsFull(part: string)
    ensures
      var p := ValidPair(part);
      p.Some? ==> p.value.0 != "" && p.value.1 != "" && TrimSpace(p.value.1) == p.value.1
  {
    hide TrimBy, ToLower, Index;
    var parts := SplitN(TrimSpace(part), '=', 2);
    if |parts| == 2 {
      var i, j := TrimBySlice(parts[1], IsSpace);
      TrimByKeeps(TrimSpace(parts[1]), IsSpace);
    }
  }

  predicate AllSpace(s: string) { forall k :: 0 <= k < |s| ==> IsSpace(s[k]) }

  /** A pair is read with any space around it, its name and its repository, and with its name in any case. */
  lemma PaddedPairIsRead(name: string, repo: string, a: string, b: string, c: string, d: string)
    requires name != "" && repo != "" && Trimmed(name, IsSpace) && Trimmed(repo, IsSpace) && '=' !in name
    requires AllSpace(a) && AllSpace(b) && AllSpace(c) && AllSpace(d)
    ensures ValidPair(a + name + b + "=" + c + repo + d) == Some((ToLower(name), repo))
  {
    hide IsSpace, TrimBy, ToLower, Index;
    var left, right := name + b, c + repo;
    var core := left + ['='] + right;
    assert a + name + b + "=" + c + repo + d == a + core + d;
    assert core[0] == name[0] && core[|core| - 1] == repo[|repo| - 1];
    TrimByCore(a, core, d, IsSpace);
    SpaceIsNotEquals(b);
    SplitHead(left, '=', right);
    assert SplitN(right, '=', 1) == [right];
    TrimByCore("", name, b, IsSpace);
    TrimByCore(c, repo, "", IsSpace);
    assert "" + name + b == left && c + repo + "" == right;
  }

  lemma SpaceIsNotEquals(pad: string)
    requires AllSpace(pad)
    ensures '=' !in pad
  {
  }

  /** From the configured text to a record: a record that may be overridden gets the repository of the last valid
      pair for its chart, whatever the case of either name, and is left alone when there is no such pair. */
  lemma ConfiguredOverride(urls: Catalog.UrlParser, text: string, record: ChartRecord)
    ensures
      var parts := Split(TrimSpace(text), ',');
      var chart := ToLower(TrimSpace(record.chartName));
      var after := Catalog.ApplyRepoOverride(urls, Parse(text), record);
      && (forall i: nat :: IsLastFor(parts, chart, i) && Catalog.CanOverride(record) ==>
            after == record.(repoURL := ValidPair(parts[i]).value.1,
                             sourceKind := Catalog.Classify(urls, ValidPair(parts[i]).value.1)))
      && ((forall i: nat :: !IsLastFor(parts, chart, i)) || !Catalog.CanOverride(record) ==> after == record)
  {
    hide TrimSpace, ToLower, ValidPair, Split, FromParts, Catalog.Classify, Catalog.CanOverride;
    var parts := Split(TrimSpace(text), ',');
    var chart := ToLower(TrimSpace(record.chartName));
    if TrimSpace(text) == "" { BlankHasNoPair(); }
    LastValidPairWins(parts, chart);
    forall i: nat | IsLastFor(parts, chart, i)
      ensures chart != "" && TrimSpace(ValidPair(parts[i]).value.1) != ""
    {
      ValidPairIsFull(parts[i]);
    }
  }

  lemma BlankHasNoPair()
    ensures FromParts(Split("", ',')) == map[] && ValidPair("").None?
  {
    SplitWhole("", ',');
    TrimByKeeps("", IsSpace);
    assert [""][..0] == [];
  }

  // ---------------------------------------------------------------- Round trip

  function PrintPair(p: (string, string)): string {
    p.0 + "=" + p.1
  }

  function Printed(pairs: seq<(string, string)>): seq<string> {
    seq(|pairs|, i requires 0 <= i < |pairs| => PrintPair(pairs[i]))
  }

  /** What the deployment template writes for the overrides, in the order it ranges over them. */
  function Print(pairs: seq<(string, string)>): string {
    Join(Printed(pairs), ",")
  }

  predicate CleanKey(key: string) {
    key != "" && Trimmed(key, IsSpace) && ToLower(key) == key && ',' !in key && '=' !in key
  }

  predicate CleanRepo(repo: string) {
    repo != "" && Trimmed(repo, IsSpace) && ',' !in repo
  }

  predicate CleanPair(p: (string, string)) {
    CleanKey(p.0) && CleanRepo(p.1)
  }

  ghost predicate DistinctKeys(pairs: seq<(string, string)>) {
    forall i, j :: 0 <= i < j < |pairs| ==> pairs[i].0 != pairs[j].0
  }

  function AsMap(pairs: seq<(string, string)>): map<string, string> {
    if pairs == [] then map[] else AsMap(pairs[..|pairs| - 1])[pairs[|pairs| - 1].0 := pairs[|pairs| - 1].1]
  }

  lemma CleanPairIsRead(p: (string, string))
    requires CleanPair(p)
    ensures ValidPair(PrintPair(p)) == Some(p)
    ensures PrintPair(p) != "" && Trimmed(PrintPair(p), IsSpace) && ',' !in PrintPair(p)
  {
    hide TrimBy, IsSpace, ToLower, Index;
    var text := PrintPair(p);
    assert text == p.0 + ['='] + p.1;
    assert text[0] == p.0[0] && text[|text| - 1] == p.1[|p.1| - 1];
    TrimByKeeps(text, IsSpace);
    SplitHead(p.0, '=', p.1);
    assert SplitN(p.1, '=', 1) == [p.1];
    TrimByKeeps(p.0, IsSpace);
    TrimByKeeps(p.1, IsSpace);
  }

  lemma {:induction false} JoinEnds(parts: seq<string>)
    requires parts != [] && forall i :: 0 <= i < |parts| ==> parts[i] != "" && Trimmed(parts[i], IsSpace)
    ensures Join(parts, ",") != "" && Trimmed(Join(parts, ","), IsSpace)
    ensures Join(parts, ",")[0] == parts[0][0]
    decreases |parts|
  {
    hide IsSpace;
    if |parts| == 1 {
    } else {
      JoinEnds(parts[1..]);
      var rest := Join(parts[1..], ",");
      var whole := Join(parts, ",");
      assert whole[|whole| - 1] == rest[|rest| - 1];
    }
  }

  lemma {:induction false} PrintedPartsAreRead(pairs: seq<(string, string)>)
    requires forall i :: 0 <= i < |pairs| ==> CleanPair(pairs[i])
    ensures FromParts(Printed(pairs)) == AsMap(pairs)
    decreases |pairs|
  {
    hide CleanPair, ValidPair, PrintPair;
    if pairs == [] {
    } else {
      var n := |pairs| - 1;
      CleanPairIsRead(pairs[n]);
      assert Printed(pairs)[..n] == Printed(pairs[..n]);
      PrintedPartsAreRead(pairs[..n]);
    }
  }

  lemma CleanPairsAreRead(pairs: seq<(string, string)>)
    requires forall i :: 0 <= i < |pairs| ==> CleanPair(pairs[i])
    ensures Parse(Print(pairs)) == AsMap(pairs)
  {
    hide CleanPair, ValidPair, PrintPair, IsSpace, FromParts, TrimBy, AsMap, Split, Join;
    if pairs == [] {
      assert Print(pairs) == "" by { JoinOfNone(); assert Printed(pairs) == []; }
      assert TrimSpace("") == "" by { TrimByKeeps("", IsSpace); }
      NoOverrides();
    } else {
      var parts := Printed(pairs);
      forall i | 0 <= i < |parts| ensures parts[i] != "" && Trimmed(parts[i], IsSpace) && ',' !in parts[i] {
        CleanPairIsRead(pairs[i]);
      }
      JoinEnds(parts);
      TrimByKeeps(Print(pairs), IsSpace);
      SplitJoin(parts, ',');
      PrintedPartsAreRead(pairs);
    }
  }

  lemma JoinOfNone()
    ensures Join([], ",") == ""
  {
  }

  lemma NoOverrides()
    ensures AsMap([]) == map[]
  {
  }

  lemma LowerKeepsClean(s: string)
    requires s != "" && Trimmed(s, IsSpace) && ',' !in s && '=' !in s
    ensures CleanKey(ToLower(s))
  {
    var t := ToLower(s);
    LowerSpace(s[0]);
    LowerSpace(s[|s| - 1]);
    forall i | 0 <= i < |t| ensures t[i] != ',' && t[i] != '=' {
      assert s[i] in s;
    }
    ToLowerIdempotent(s);
  }

  lemma LowerSpace(c: char)
    ensures IsSpace(LowerChar(c)) == IsSpace(c)
  {
  }

  lemma ValidPairIsClean(part: string)
    requires ',' !in part
    ensures ValidPair(part).Some? ==> CleanPair(ValidPair(part).value)
  {
    hide TrimBy, IsSpace, ToLower, CleanKey;
    var pair := TrimSpace(part);
    TrimByAddsNothing(part, IsSpace);
    var parts := SplitN(pair, '=', 2);
    if |parts| == 2 {
      assert '=' !in parts[0] && ',' !in parts[0] && ',' !in parts[1];
      TrimByAddsNothing(parts[0], IsSpace);
      TrimByAddsNothing(parts[1], IsSpace);
      var i, j := TrimBySlice(parts[0], IsSpace);
      var k, l := TrimBySlice(parts[1], IsSpace);
      if TrimSpace(parts[0]) != "" { LowerKeepsClean(TrimSpace(parts[0])); }
    }
  }

  lemma {:induction false} ParsedIsClean(parts: seq<string>, key: string)
    requires forall p :: p in parts ==> ',' !in p
    ensures key in FromParts(parts) ==> CleanPair((key, FromParts(parts)[key]))
    decreases |parts|
  {
    hide ValidPair, CleanPair;
    if parts == [] {
    } else {
      assert parts[|parts| - 1] in parts;
      ValidPairIsClean(parts[|parts| - 1]);
      ParsedIsClean(parts[..|parts| - 1], key);
    }
  }

  lemma {:induction false} AsMapHolds(pairs: seq<(string, string)>, i: nat)
    requires DistinctKeys(pairs) && i < |pairs|
    ensures pairs[i].0 in AsMap(pairs) && AsMap(pairs)[pairs[i].0] == pairs[i].1
    decreases |pairs|
  {
    if i == |pairs| - 1 {
    } else {
      AsMapHolds(pairs[..|pairs| - 1], i);
    }
  }

  /** Printed overrides are read back exactly when every name is a trimmed, lower-case text without `,` and `=`,
      and every repository a trimmed text without `,`. */
  lemma OverridesRoundTrip(pairs: seq<(string, string)>)
    requires DistinctKeys(pairs)
    ensures Parse(Print(pairs)) == AsMap(pairs) <==> forall i :: 0 <= i < |pairs| ==> CleanPair(pairs[i])
  {
    hide CleanPair, Print, FromParts, AsMap, Split, TrimSpace;
    if forall i :: 0 <= i < |pairs| ==> CleanPair(pairs[i]) {
      CleanPairsAreRead(pairs);
    } else if Parse(Print(pairs)) == AsMap(pairs) {
      var raw := TrimSpace(Print(pairs));
      SplitPartsFree(raw, ',');
      forall i | 0 <= i < |pairs| ensures CleanPair(pairs[i]) {
        AsMapHolds(pairs, i);
        ParsedIsClean(Split(raw, ','), pairs[i].0);
      }
      assert false;
    }
  }
}
