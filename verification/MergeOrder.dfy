/**
 When the merge of the discovery sources is free of chance (`internal/discovery/discovery.go`): the sort leaves
 records with equal IDs in any order, and the first of them is kept.
 */
module MergeOrder {
  import opened Text
  import opened Model
  import opened Discovery

  // ---------------------------------------------------------------- Every choice can happen

  /** Of the records with one ID, the chosen one comes first. */
  ghost predicate ChosenFirst(s: seq<WorkloadRecord>, chosen: set<WorkloadRecord>) {
    forall i, j :: 0 <= i < j < |s| && s[i].id == s[j].id && s[j] in chosen ==> s[i] in chosen
  }

  /** The first position in `s` from which on no ID is before `id`. */
  lemma {:induction false} LowerBound(s: seq<WorkloadRecord>, id: string) returns (k: nat)
    requires SortedByID(s)
    ensures k <= |s|
    ensures forall i :: 0 <= i < k ==> Before(s[i].id, id)
    ensures forall i :: k <= i < |s| ==> !Before(s[i].id, id)
    decreases |s|
  {
    hide Before;
    k := |s|;
    if s == [] || Before(s[|s| - 1].id, id) {
      forall i | 0 <= i < |s| ensures Before(s[i].id, id) {
        if i < |s| - 1 { Between(s[i].id, s[|s| - 1].id, id); }
      }
    } else {
      var n := |s| - 1;
      k := LowerBound(s[..n], id);
    }
  }

  /** The first position in `s` from which on every ID is after `id`. */
  lemma {:induction false} UpperBound(s: seq<WorkloadRecord>, id: string) returns (k: nat)
    requires SortedByID(s)
    ensures k <= |s|
    ensures forall i :: 0 <= i < k ==> !Before(id, s[i].id)
    ensures forall i :: k <= i < |s| ==> Before(id, s[i].id)
    decreases |s|
  {
    hide Before;
    k := |s|;
    if s == [] || !Before(id, s[|s| - 1].id) {
      forall i | 0 <= i < |s| ensures !Before(id, s[i].id) {
        if i < |s| - 1 { BeforeOrder(s[i].id, s[|s| - 1].id, id); }
      }
    } else {
      var n := |s| - 1;
      k := UpperBound(s[..n], id);
    }
  }

  lemma Between(a: string, b: string, c: string)
    requires !Before(b, a) && Before(b, c)
    ensures Before(a, c)
  {
    hide Before;
    BeforeTotal(a, c);
    BeforeOrder(b, c, a);
    BeforeOrder(c, a, b);
    if a == c { BeforeOrder(b, c, b); }
  }

  lemma SplicedIsSorted(s: seq<WorkloadRecord>, k: nat, r: WorkloadRecord)
    requires SortedByID(s) && k <= |s|
    requires forall i :: 0 <= i < k ==> !Before(r.id, s[i].id)
    requires forall i :: k <= i < |s| ==> !Before(s[i].id, r.id)
    ensures
      var t := s[..k] + [r] + s[k..];
      SortedByID(t) && multiset(t) == multiset(s) + multiset{r}
  {
    hide Before;
    assert s == s[..k] + s[k..];
  }

  /** The records can be sorted so that the chosen ones come first. */
  lemma {:induction false} Arrange(s: seq<WorkloadRecord>, chosen: set<WorkloadRecord>) returns (t: seq<WorkloadRecord>)
    requires IdsAgree(chosen)
    ensures SortedByID(t) && multiset(t) == multiset(s) && ChosenFirst(t, chosen)
    decreases |s|
  {
    hide Before;
    t := [];
    if s == [] {
    } else {
      var n := |s| - 1;
      var r := s[n];
      var u := Arrange(s[..n], chosen);
      assert s == s[..n] + [r];
      var k: nat;
      if r in chosen {
        k := LowerBound(u, r.id);
        forall i | 0 <= i < k ensures !Before(r.id, u[i].id) && u[i].id != r.id {
          BeforeOrder(r.id, u[i].id, r.id);
          BeforeIrreflexive(r.id);
        }
      } else {
        k := UpperBound(u, r.id);
        forall i | k <= i < |u| ensures !Before(u[i].id, r.id) && u[i].id != r.id {
          BeforeOrder(r.id, u[i].id, r.id);
          BeforeIrreflexive(r.id);
        }
      }
      SplicedIsSorted(u, k, r);
      t := u[..k] + [r] + u[k..];
    }
  }

  lemma {:induction false} KeptIsFirst(s: seq<WorkloadRecord>, r: WorkloadRecord) returns (i: nat)
    requires r in FirstPerID(s)
    ensures i < |s| && s[i] == r && !HasID(s[..i], r.id)
    decreases |s|
  {
    hide HasID;
    var n := |s| - 1;
    var front := s[..n];
    if r in FirstPerID(front) {
      i := KeptIsFirst(front, r);
      assert front[..i] == s[..i];
    } else {
      i := n;
    }
  }

  lemma ChosenAreKept(records: seq<WorkloadRecord>, chosen: set<WorkloadRecord>, t: seq<WorkloadRecord>)
    requires OnePerID(chosen, Elements(records))
    requires multiset(t) == multiset(records) && ChosenFirst(t, chosen)
    ensures Elements(FirstPerID(t)) == chosen
  {
    hide FirstPerID;
    SameElements(t, records);
    FirstPerIDKeepsIDs(t);
    forall r | r in FirstPerID(t) ensures r in chosen {
      var i := KeptIsFirst(t, r);
      assert r in Elements(records);
      var c :| c in chosen && c.id == r.id;
      assert c in Elements(t);
      var j :| 0 <= j < |t| && t[j] == c;
      if j < i { assert t[j] in t[..i]; }
    }
    forall c | c in chosen ensures c in FirstPerID(t) {
      assert c in Elements(t);
      var k := HolderOf(FirstPerID(t), c.id);
      assert k in chosen;
    }
  }

  /** Every result that some choice explains is what some order left by the sort leads to. */
  lemma EveryMergeHappens(records: seq<WorkloadRecord>, out: seq<WorkloadRecord>) returns (t: seq<WorkloadRecord>)
    requires IsMerge(out, Elements(records))
    ensures SortedByID(t) && multiset(t) == multiset(records)
    ensures forall o :: ListsValues(o, BestByApp(FirstPerID(t))) && SortedByID(o) ==> o == out
  {
    hide Before, IsCanonical, OnePerID, FirstPerID, BestByApp, ListsValues, SortedByID, ChosenFirst;
    var chosen :| OnePerID(chosen, Elements(records)) && IsCanonical(out, chosen);
    ChoiceAgrees(chosen, Elements(records));
    t := Arrange(records, chosen);
    ChosenAreKept(records, chosen, t);
    FirstPerIDAscends(t);
    forall o | ListsValues(o, BestByApp(FirstPerID(t))) && SortedByID(o) ensures o == out {
      ValuesAscend(FirstPerID(t), o);
      ValuesAreCanonical(FirstPerID(t), o);
      CanonicalFormIsUnique(o, out, chosen);
    }
  }

  lemma ChoiceAgrees(chosen: set<WorkloadRecord>, records: set<WorkloadRecord>)
    requires OnePerID(chosen, records)
    ensures IdsAgree(chosen)
  {
  }

  // ---------------------------------------------------------------- Canonical forms exist

  lemma SplicedAscends(s: seq<WorkloadRecord>, k: nat, r: WorkloadRecord)
    requires Ascending(s) && k <= |s|
    requires forall i :: 0 <= i < k ==> Before(s[i].id, r.id)
    requires forall i :: k <= i < |s| ==> Before(r.id, s[i].id)
    ensures
      var t := s[..k] + [r] + s[k..];
      Ascending(t) && Elements(t) == Elements(s) + {r}
  {
    hide Before;
    assert s == s[..k] + s[k..];
  }

  lemma {:induction false} AscendingOf(records: set<WorkloadRecord>) returns (s: seq<WorkloadRecord>)
    requires IdsAgree(records)
    ensures Ascending(s) && Elements(s) == records
    decreases records
  {
    hide Before, Ascending;
    s := [];
    if records == {} {
      NothingAscends();
    } else {
      var r :| r in records;
      var rest := AscendingOf(records - {r});
      AscendingIsSorted(rest);
      var k := LowerBound(rest, r.id);
      forall i | k <= i < |rest| ensures Before(r.id, rest[i].id) {
        assert rest[i] in Elements(rest);
        BeforeTotal(r.id, rest[i].id);
      }
      SplicedAscends(rest, k, r);
      s := rest[..k] + [r] + rest[k..];
    }
  }

  lemma NothingAscends()
    ensures Ascending([]) && Elements([]) == {}
  {
  }

  lemma AscendingIsSorted(s: seq<WorkloadRecord>)
    requires Ascending(s)
    ensures SortedByID(s)
  {
    hide Before;
    forall i, j | 0 <= i < j < |s| ensures !Before(s[j].id, s[i].id) {
      BeforeOrder(s[i].id, s[j].id, s[i].id);
    }
  }

  lemma CanonicalExists(records: set<WorkloadRecord>) returns (out: seq<WorkloadRecord>)
    requires IdsAgree(records)
    ensures IsCanonical(out, records)
  {
    hide Before, IsCanonical, Ascending;
    var s := AscendingOf(records);
    BestByAppKeys(s);
    var best := BestByApp(s);
    var winners := set k | k in best :: best[k];
    assert winners <= records by {
      forall k | k in best ensures best[k] in records { assert best[k] in Elements(s); }
    }
    out := AscendingOf(winners);
    ListsWinners(best, winners, out);
    ValuesAreCanonical(s, out);
  }

  lemma ListsWinners(best: map<AppKey, WorkloadRecord>, winners: set<WorkloadRecord>, out: seq<WorkloadRecord>)
    requires forall k :: k in best ==> KeyOf(best[k]) == k
    requires winners == set k | k in best :: best[k]
    requires Ascending(out) && Elements(out) == winners
    ensures ListsValues(out, best)
  {
    hide Before;
    forall r ensures r in out <==> r in winners { assert r in out <==> r in Elements(out); }
    forall i, j | 0 <= i < j < |out| ensures KeyOf(out[i]) != KeyOf(out[j]) {
      assert out[i] in winners && out[j] in winners;
      assert Before(out[i].id, out[j].id);
      BeforeIrreflexive(out[i].id);
    }
  }

  // ---------------------------------------------------------------- Exactly when chance does not show

  /** Whatever is kept for `id` is of the application of `r` and preferred to it. */
  ghost predicate AllBeat(records: set<WorkloadRecord>, id: string, r: WorkloadRecord) {
    forall p :: p in records && p.id == id ==> KeyOf(p) == KeyOf(r) && Preferred(p, r)
  }

  /** `r` loses its group whatever is kept for the other IDs. */
  ghost predicate SurelyBeaten(records: set<WorkloadRecord>, r: WorkloadRecord) {
    exists q :: q in records && q.id != r.id && AllBeat(records, q.id, r)
  }

  /** Records that share their ID with a different record never get through the merge. */
  ghost predicate ConflictsAreBeaten(records: set<WorkloadRecord>) {
    forall r, s :: r in records && s in records && r != s && r.id == s.id ==> SurelyBeaten(records, r)
  }

  ghost predicate IsDetermined(records: set<WorkloadRecord>) {
    forall a, b :: IsMerge(a, records) && IsMerge(b, records) ==> a == b
  }

  /** A winner has no rival of the same ID. */
  lemma WinnersAreUncontested(records: set<WorkloadRecord>, chosen: set<WorkloadRecord>, out: seq<WorkloadRecord>,
                              o: WorkloadRecord, rival: WorkloadRecord)
    requires ConflictsAreBeaten(records) && OnePerID(chosen, records) && IsCanonical(out, chosen) && o in out
    requires rival in records && rival.id == o.id
    ensures rival == o
  {
    hide Preferred, Represented, Ascending;
    if rival != o {
      var q :| q in records && q.id != o.id && AllBeat(records, q.id, o);
      assert HoldsID(chosen, q.id);
      var p :| p in chosen && p.id == q.id;
      PreferredIsAsymmetric(o, p);
    }
  }

  lemma WinnersAgree(records: set<WorkloadRecord>, c: set<WorkloadRecord>, a: seq<WorkloadRecord>,
                     d: set<WorkloadRecord>, b: seq<WorkloadRecord>)
    requires ConflictsAreBeaten(records)
    requires OnePerID(c, records) && IsCanonical(a, c) && OnePerID(d, records) && IsCanonical(b, d)
    ensures Elements(a) <= Elements(b)
  {
    hide Preferred, Represented, Ascending, ConflictsAreBeaten;
    forall o | o in a ensures o in b {
      assert HoldsID(d, o.id);
      var o' :| o' in d && o'.id == o.id;
      WinnersAreUncontested(records, c, a, o, o');
      var w := Representative(b, o);
      assert HoldsID(c, w.id);
      var w' :| w' in c && w'.id == w.id;
      WinnersAreUncontested(records, d, b, w, w');
      PreferredIsAsymmetric(o, w);
    }
  }

  /** A record with the ID of `q` that does not beat `r`. */
  ghost function Mild(records: set<WorkloadRecord>, r: WorkloadRecord, id: string): (p: WorkloadRecord)
    requires !AllBeat(records, id, r)
    ensures p in records && p.id == id && !(KeyOf(p) == KeyOf(r) && Preferred(p, r))
  {
    var p :| p in records && p.id == id && !(KeyOf(p) == KeyOf(r) && Preferred(p, r));
    p
  }

  /** A choice that keeps `r`, and for every other ID a record that does not beat it. */
  lemma ChoiceFor(records: set<WorkloadRecord>, r: WorkloadRecord) returns (others: set<WorkloadRecord>)
    requires r in records && !SurelyBeaten(records, r)
    ensures forall p :: p in others ==> p in records && p.id != r.id && !(KeyOf(p) == KeyOf(r) && Preferred(p, r))
    ensures forall s :: s in records && s.id == r.id ==> OnePerID(others + {s}, records)
  {
    hide Preferred, AllBeat;
    others := set p | p in records && p.id != r.id && p == Mild(records, r, p.id);
    forall s | s in records && s.id == r.id ensures OnePerID(others + {s}, records) {
      forall q | q in records ensures HoldsID(others + {s}, q.id) {
        if q.id == r.id {
          assert s in others + {s};
        } else {
          assert !AllBeat(records, q.id, r);
          assert Mild(records, r, q.id) in others + {s};
        }
      }
    }
  }

  lemma UnbeatenGetsThrough(chosen: set<WorkloadRecord>, out: seq<WorkloadRecord>, r: WorkloadRecord)
    requires IsCanonical(out, chosen) && r in chosen
    requires forall p :: p in chosen && p != r ==> !(KeyOf(p) == KeyOf(r) && Preferred(p, r))
    ensures r in out
  {
    hide Preferred, Ascending;
    var w := Representative(out, r);
  }

  lemma UnbeatenConflictShows(records: set<WorkloadRecord>, r: WorkloadRecord, s: WorkloadRecord)
    returns (a: seq<WorkloadRecord>, b: seq<WorkloadRecord>)
    requires r in records && s in records && r != s && r.id == s.id && !SurelyBeaten(records, r)
    ensures IsMerge(a, records) && IsMerge(b, records) && a != b
  {
    hide IsCanonical, SurelyBeaten, Preferred, OnePerID;
    var others := ChoiceFor(records, r);
    ChoiceAgrees(others + {r}, records);
    ChoiceAgrees(others + {s}, records);
    a := CanonicalExists(others + {r});
    b := CanonicalExists(others + {s});
    UnbeatenGetsThrough(others + {r}, a, r);
    CanonicalIsWithin(b, others + {s});
  }

  lemma CanonicalIsWithin(out: seq<WorkloadRecord>, records: set<WorkloadRecord>)
    requires IsCanonical(out, records)
    ensures forall o :: o in out ==> o in records
  {
  }

  /** The merge has only one possible result exactly when every record that shares its ID with a different one is
      sure to lose its group. */
  lemma MergeIsDeterminedExactly(records: set<WorkloadRecord>)
    ensures IsDetermined(records) <==> ConflictsAreBeaten(records)
  {
    hide IsCanonical, SurelyBeaten, OnePerID;
    if ConflictsAreBeaten(records) {
      forall a, b | IsMerge(a, records) && IsMerge(b, records) ensures a == b {
        var c :| OnePerID(c, records) && IsCanonical(a, c);
        var d :| OnePerID(d, records) && IsCanonical(b, d);
        WinnersAgree(records, c, a, d, b);
        WinnersAgree(records, d, b, c, a);
        CanonicalAscends(a, c);
        CanonicalAscends(b, d);
        AscendingIsDetermined(a, b);
      }
    } else {
      var r, s :| r in records && s in records && r != s && r.id == s.id && !SurelyBeaten(records, r);
      var a, b := UnbeatenConflictShows(records, r, s);
    }
  }

  lemma CanonicalAscends(out: seq<WorkloadRecord>, records: set<WorkloadRecord>)
    requires IsCanonical(out, records)
    ensures Ascending(out)
  {
  }

  /** The smallest conflict: with two different records of one ID either may be the whole result. */
  lemma ConflictingIDsAreOrderDependent(a: WorkloadRecord, b: WorkloadRecord)
    requires a != b && a.id == b.id
    ensures IsMerge([a], {a, b}) && IsMerge([b], {a, b})
  {
    hide IsMerge;
    AloneIsMerge(a, b);
    AloneIsMerge(b, a);
    assert {a, b} == {b, a};
  }

  lemma AloneIsMerge(a: WorkloadRecord, b: WorkloadRecord)
    requires a.id == b.id
    ensures IsMerge([a], {a, b})
  {
    hide Preferred, Before;
    assert a in {a};
    assert OnePerID({a}, {a, b});
    assert a in [a] && Represented([a], a);
    assert IsCanonical([a], {a});
  }
}
