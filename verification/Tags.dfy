/**
 Picking the newest tag: `pickLatestSemverTag` in `internal/resolver/oci_resolver.go`.
 */
module Tags {
  import opened Text
  import opened Model
  import opened SemVer

  /** The version a tag stands for: blanks and unparseable tags stand for none. */
  function Candidate(core: CoreParser, tag: string): Option<Version> {
    var t := TrimSpace(tag);
    if t == "" then None else NewVersion(core, TrimPrefix(t, "v"))
  }

  /** The position of the tag that wins over the first ones, kept until a strictly greater one comes. */
  function Pick(core: CoreParser, tags: seq<string>): (best: Option<nat>)
    ensures best.Some? ==> best.value < |tags| && Candidate(core, tags[best.value]).Some?
  {
    if tags == [] then None
    else
      var n := |tags| - 1;
      var earlier := Pick(core, tags[..n]);
      var v := Candidate(core, tags[n]);
      if v.None? then earlier
      else if earlier.None? || Compare(v.value, Candidate(core, tags[earlier.value]).value) > 0 then Some(n)
      else earlier
  }

  function PickLatest(core: CoreParser, tags: seq<string>): Result<string, ResolveError> {
    match Pick(core, tags)
    case None => Err(ChartNotFound)
    case Some(i) => Ok(TrimSpace(tags[i]))
  }

  /** `i` is the first position whose version no other tag exceeds. */
  ghost predicate IsFirstMaximal(core: CoreParser, tags: seq<string>, i: nat) {
    && i < |tags|
    && Candidate(core, tags[i]).Some?
    && (forall j :: 0 <= j < |tags| && Candidate(core, tags[j]).Some? ==>
          Compare(Candidate(core, tags[j]).value, Candidate(core, tags[i]).value) <= 0)
    && (forall j :: 0 <= j < i && Candidate(core, tags[j]).Some? ==>
          Compare(Candidate(core, tags[j]).value, Candidate(core, tags[i]).value) < 0)
  }

  ghost predicate NothingParses(core: CoreParser, tags: seq<string>) {
    forall tag :: tag in tags ==> Candidate(core, tag).None?
  }

  /** The version of the picked tag. */
  function PickedVersion(core: CoreParser, tags: seq<string>): Option<Version> {
    match Pick(core, tags)
    case None => None
    case Some(i) => Candidate(core, tags[i])
  }

  lemma PickSnoc(core: CoreParser, tags: seq<string>, k: nat)
    requires k < |tags|
    ensures
      var (before, v) := (PickedVersion(core, tags[..k]), Candidate(core, tags[k]));
      var better := v.Some? && (before.None? || Compare(v.value, before.value) > 0);
      && PickedVersion(core, tags[..k + 1]) == (if better then v else before)
      && (better ==> PickLatest(core, tags[..k + 1]) == Ok(TrimSpace(tags[k])))
      && (!better ==> PickLatest(core, tags[..k + 1]) == PickLatest(core, tags[..k]))
  {
    hide Compare, Candidate, TrimSpace;
    assert tags[..k + 1][..k] == tags[..k];
  }

  /** The loop of `pickLatestSemverTag`, which keeps the best version and its trimmed text. */
  method PickLatestSemverTag(core: CoreParser, tags: seq<string>) returns (r: Result<string, ResolveError>)
    ensures r == PickLatest(core, tags)
  {
    hide TrimSpace, Compare, Pick;
    var best: Option<Version> := None;
    var bestRaw := "";
    for k := 0 to |tags|
      invariant best == PickedVersion(core, tags[..k])
      invariant PickLatest(core, tags[..k]) == if best.None? then Err(ChartNotFound) else Ok(bestRaw)
    {
      PickSnoc(core, tags, k);
      var t := TrimSpace(tags[k]);
      if t == "" { continue; }
      var v := NewVersion(core, TrimPrefix(t, "v"));
      if v.None? { continue; }
      if best.None? || Compare(v.value, best.value) > 0 {
        best := v;
        bestRaw := t;
      }
    }
    assert tags[..|tags|] == tags;
    if best.None? {
      return Err(ChartNotFound);
    }
    return Ok(bestRaw);
  }

  lemma {:induction false} PickFindsFirstMaximal(core: CoreParser, tags: seq<string>)
    ensures match Pick(core, tags) case None => NothingParses(core, tags) case Some(i) => IsFirstMaximal(core, tags, i)
    decreases |tags|
  {
    hide Compare, Candidate, TrimSpace;
    if tags == [] {
    } else {
      var n := |tags| - 1;
      var front := tags[..n];
      PickFindsFirstMaximal(core, front);
      assert tags == front + [tags[n]];
      var v := Candidate(core, tags[n]);
      if v.Some? {
        PrecedenceIsTotalPreorder(v.value, v.value, v.value);
        match Pick(core, front) {
          case None =>
            assert forall j :: 0 <= j < n ==> tags[j] == front[j] && front[j] in front;
          case Some(i) =>
            var w := Candidate(core, tags[i]).value;
            PrecedenceIsTotalPreorder(v.value, w, w);
            forall j | 0 <= j < n && Candidate(core, tags[j]).Some?
              ensures Compare(v.value, w) > 0 ==> Compare(Candidate(core, tags[j]).value, v.value) < 0
              ensures Compare(Candidate(core, tags[j]).value, w) <= 0
            {
              assert tags[j] == front[j];
              PrecedenceIsTotalPreorder(Candidate(core, tags[j]).value, w, v.value);
            }
            assert forall j :: 0 <= j < i ==> tags[j] == front[j];
        }
      } else if Pick(core, front).Some? {
        var i := Pick(core, front).value;
        assert forall j :: 0 <= j < n ==> tags[j] == front[j];
      }
    }
  }

  /** The pick is the first maximal tag, and it fails exactly when nothing parses. */
  lemma PickIsFirstMaximal(core: CoreParser, tags: seq<string>, i: nat)
    ensures Pick(core, tags) == Some(i) <==> IsFirstMaximal(core, tags, i)
    ensures IsFirstMaximal(core, tags, i) ==> PickLatest(core, tags) == Ok(TrimSpace(tags[i]))
    ensures PickLatest(core, tags).Err? <==> NothingParses(core, tags)
    ensures PickLatest(core, tags).Err? ==> PickLatest(core, tags).error == ChartNotFound
  {
    hide Compare, Candidate, TrimSpace;
    PickFindsFirstMaximal(core, tags);
    match Pick(core, tags)
    case None =>
      if i < |tags| { assert tags[i] in tags; }
    case Some(k) =>
      assert tags[k] in tags;
      if IsFirstMaximal(core, tags, i) {
        var vi, vk := Candidate(core, tags[i]).value, Candidate(core, tags[k]).value;
        PrecedenceIsTotalPreorder(vi, vk, vk);
      }
  }

  /** Reordering the tags changes neither success nor the precedence of the pick. */
  lemma PickIgnoresOrder(core: CoreParser, a: seq<string>, b: seq<string>)
    requires multiset(a) == multiset(b)
    ensures PickedVersion(core, a).Some? == PickedVersion(core, b).Some?
    ensures PickedVersion(core, a).Some? ==> SamePrecedence(PickedVersion(core, a).value, PickedVersion(core, b).value)
  {
    hide Compare, Candidate, TrimSpace;
    forall t ensures t in a <==> t in b {
      assert t in a <==> t in multiset(a);
      assert t in b <==> t in multiset(b);
    }
    PickIsFirstMaximal(core, a, 0);
    PickIsFirstMaximal(core, b, 0);
    if Pick(core, a).Some? && Pick(core, b).Some? {
      var i, j := Pick(core, a).value, Pick(core, b).value;
      PickFindsFirstMaximal(core, a);
      PickFindsFirstMaximal(core, b);
      assert a[i] in b && b[j] in a;
      PrecedenceIsTotalPreorder(PickedVersion(core, a).value, PickedVersion(core, b).value, PickedVersion(core, b).value);
    }
  }

  /** The best of the left list stays first maximal when the right list has nothing greater. */
  lemma MaximalOnTheLeft(core: CoreParser, a: seq<string>, b: seq<string>, i: nat)
    requires IsFirstMaximal(core, a, i)
    requires forall k :: 0 <= k < |b| && Candidate(core, b[k]).Some? ==>
               Compare(Candidate(core, b[k]).value, Candidate(core, a[i]).value) <= 0
    ensures IsFirstMaximal(core, a + b, i)
  {
    hide Compare, Candidate, TrimSpace;
    assert forall j :: 0 <= j < |a + b| ==> (a + b)[j] == if j < |a| then a[j] else b[j - |a|];
  }

  lemma MaximalOnTheRight(core: CoreParser, a: seq<string>, b: seq<string>, i: nat)
    requires IsFirstMaximal(core, b, i)
    requires forall k :: 0 <= k < |a| && Candidate(core, a[k]).Some? ==>
               Compare(Candidate(core, a[k]).value, Candidate(core, b[i]).value) < 0
    ensures IsFirstMaximal(core, a + b, |a| + i)
  {
    hide Compare, Candidate, TrimSpace;
    assert forall j :: 0 <= j < |a + b| ==> (a + b)[j] == if j < |a| then a[j] else b[j - |a|];
  }

  lemma PickFromTheLeft(core: CoreParser, a: seq<string>, b: seq<string>)
    requires
      var (va, vb) := (PickedVersion(core, a), PickedVersion(core, b));
      va.Some? && (vb.None? || Compare(vb.value, va.value) <= 0)
    ensures PickLatest(core, a + b) == PickLatest(core, a)
  {
    hide Compare, Candidate, TrimSpace;
    PickFindsFirstMaximal(core, a);
    PickFindsFirstMaximal(core, b);
    var va, vb := PickedVersion(core, a), PickedVersion(core, b);
    forall k | 0 <= k < |b| && Candidate(core, b[k]).Some?
      ensures Compare(Candidate(core, b[k]).value, va.value) <= 0
    {
      assert b[k] in b;
      PrecedenceIsTotalPreorder(Candidate(core, b[k]).value, vb.value, va.value);
    }
    MaximalOnTheLeft(core, a, b, Pick(core, a).value);
    PickIsFirstMaximal(core, a + b, Pick(core, a).value);
  }

  lemma PickFromTheRight(core: CoreParser, a: seq<string>, b: seq<string>)
    requires
      var (va, vb) := (PickedVersion(core, a), PickedVersion(core, b));
      vb.Some? && (va.None? || Compare(vb.value, va.value) > 0)
    ensures PickLatest(core, a + b) == PickLatest(core, b)
  {
    hide Compare, Candidate, TrimSpace;
    PickFindsFirstMaximal(core, a);
    PickFindsFirstMaximal(core, b);
    var va, vb := PickedVersion(core, a), PickedVersion(core, b);
    forall k | 0 <= k < |a| && Candidate(core, a[k]).Some?
      ensures Compare(Candidate(core, a[k]).value, vb.value) < 0
    {
      assert a[k] in a;
      PrecedenceIsTotalPreorder(va.value, vb.value, vb.value);
      PrecedenceIsTotalPreorder(Candidate(core, a[k]).value, va.value, vb.value);
    }
    MaximalOnTheRight(core, a, b, Pick(core, b).value);
    assert (a + b)[|a| + Pick(core, b).value] == b[Pick(core, b).value];
    PickIsFirstMaximal(core, a + b, |a| + Pick(core, b).value);
  }

  lemma PickFromNeither(core: CoreParser, a: seq<string>, b: seq<string>)
    requires PickedVersion(core, a).None? && PickedVersion(core, b).None?
    ensures PickLatest(core, a + b) == PickLatest(core, a)
  {
    hide Compare, Candidate, TrimSpace;
    PickFindsFirstMaximal(core, a);
    PickFindsFirstMaximal(core, b);
    PickIsFirstMaximal(core, a + b, 0);
  }

  /** Picking from two lists is picking the better of the two picks, the first list winning ties. */
  lemma PickOfConcatenation(core: CoreParser, a: seq<string>, b: seq<string>)
    ensures
      var (va, vb) := (PickedVersion(core, a), PickedVersion(core, b));
      PickLatest(core, a + b) ==
      if vb.None? || (va.Some? && Compare(vb.value, va.value) <= 0) then PickLatest(core, a)
      else PickLatest(core, b)
  {
    hide Compare, Pick, Candidate, TrimSpace;
    var va, vb := PickedVersion(core, a), PickedVersion(core, b);
    if va.None? && vb.None? {
      PickFromNeither(core, a, b);
    } else if vb.None? || (va.Some? && Compare(vb.value, va.value) <= 0) {
      PickFromTheLeft(core, a, b);
    } else {
      PickFromTheRight(core, a, b);
    }
  }
}
