/**
 The version engine (`internal/version/engine.go`): status and lag of a current
 version against a latest one.
 */
module VersionEngine {
  import opened Text
  import opened Model
  import opened SemVer
  import opened Tags

  datatype CompareResult = CompareResult(status: VersionStatus, lag: nat)

  const UNKNOWN := CompareResult(UnknownStatus, 0)

  function Assess(core: CoreParser, current: string, latest: string): CompareResult {
    var current := TrimSpace(current);
    var latest := TrimSpace(latest);
    if current == "" || latest == "" || latest == "unknown" then UNKNOWN
    else
      var cur := NewVersion(core, TrimSpace(current));
      if cur.None? then UNKNOWN
      else
        var lat := NewVersion(core, TrimSpace(latest));
        if lat.None? then UNKNOWN
        else if Compare(cur.value, lat.value) == 0 then CompareResult(UpToDate, 0)
        else if Compare(cur.value, lat.value) > 0 then CompareResult(UpToDate, 0)
        else CompareResult(Outdated, ComputeLag(cur.value, lat.value))
  }

  // Go's uint64 arithmetic.

  function Mod64(x: int): Uint64 { x % TWO_64 }

  function Sub64(a: Uint64, b: Uint64): Uint64 { Mod64(a - b) }

  function Add64(a: Uint64, b: Uint64): Uint64 { Mod64(a + b) }

  function Times64(a: Uint64, factor: Uint64): Uint64 { Mod64(a * factor) }

  function WrappedLag(current: Version, latest: Version): Uint64 {
    var majorDiff := Sub64(latest.major, current.major);
    var minorDiff := Sub64(latest.minor, current.minor);
    var patchDiff := Sub64(latest.patch, current.patch);
    Add64(Add64(Times64(majorDiff, 10000), Times64(minorDiff, 100)), patchDiff)
  }

  /** The lag before its conversion to a float. */
  function ComputeLag(current: Version, latest: Version): nat {
    var lag := WrappedLag(current, latest);
    if lag < 1 then 1 else lag
  }

  /** The same weighting over unbounded integers. */
  function ExactLag(current: Version, latest: Version): int {
    10000 * (latest.major - current.major) + 100 * (latest.minor - current.minor) + (latest.patch - current.patch)
  }

  lemma ModPeriodic(x: int, k: int)
    ensures Mod64(x + TWO_64 * k) == Mod64(x)
  {
  }

  lemma ModOfSum(x: int, y: int)
    ensures Mod64(Mod64(x) + Mod64(y)) == Mod64(x + y)
  {
    ModPeriodic(Mod64(x) + Mod64(y), x / TWO_64 + y / TWO_64);
  }

  lemma ModOfScaled(x: int)
    ensures Mod64(Mod64(x) * 10000) == Mod64(10000 * x)
    ensures Mod64(Mod64(x) * 100) == Mod64(100 * x)
  {
    ModPeriodic(10000 * Mod64(x), 10000 * (x / TWO_64));
    ModPeriodic(100 * Mod64(x), 100 * (x / TWO_64));
  }

  /** Although each difference may wrap, the sum is the exact weighting modulo 2^64. */
  lemma WrappedLagIsExactModulo(current: Version, latest: Version)
    ensures WrappedLag(current, latest) == Mod64(ExactLag(current, latest))
  {
    hide Compare, Mod64;
    var (M, m, p) := (latest.major - current.major, latest.minor - current.minor, latest.patch - current.patch);
    ModOfScaled(M);
    ModOfScaled(m);
    ModOfSum(10000 * M, 100 * m);
    ModOfSum(10000 * M + 100 * m, p);
  }

  /** The lag is the exact weighting clamped at one precisely when nothing wraps, or wraps to zero or one. */
  lemma LagIsClampedExact(current: Version, latest: Version)
    ensures
      var exact := ExactLag(current, latest);
      ComputeLag(current, latest) == (if exact < 1 then 1 else exact) <==>
      0 <= exact < TWO_64 || (exact < 0 && Mod64(exact) <= 1)
  {
    hide WrappedLag, ExactLag, Mod64;
    WrappedLagIsExactModulo(current, latest);
    ModWithin(ExactLag(current, latest));
  }

  lemma ModWithin(x: int)
    ensures 0 <= x < TWO_64 ==> Mod64(x) == x
    ensures 0 <= Mod64(x) < TWO_64
  {
  }

  lemma LagWithoutWrapping(current: Version, latest: Version)
    requires 0 <= ExactLag(current, latest) < TWO_64
    ensures ComputeLag(current, latest) == if ExactLag(current, latest) < 1 then 1 else ExactLag(current, latest)
  {
    hide ComputeLag, ExactLag;
    LagIsClampedExact(current, latest);
  }

  /** From 1.200.0 to 2.0.0 the exact weighting is negative and the lag is 2^64 plus it. */
  lemma NegativeWeightingWraps()
    ensures
      var (current, latest) := (Version(1, 200, 0, [], ""), Version(2, 0, 0, [], ""));
      ExactLag(current, latest) == -10000 && ComputeLag(current, latest) == TWO_64 - 10000
  {
    hide WrappedLag;
    WrappedLagIsExactModulo(Version(1, 200, 0, [], ""), Version(2, 0, 0, [], ""));
    ModPeriodic(-10000, 1);
  }

  /** A positive lag marks exactly the outdated results. */
  lemma LagMarksOutdated(core: CoreParser, current: string, latest: string)
    ensures
      var r := Assess(core, current, latest);
      (r.lag >= 1 <==> r.status.Outdated?) && (r.lag == 0 <==> !r.status.Outdated?)
  {
  }

  lemma PlaceholdersDoNotParse(core: CoreParser)
    ensures NewVersion(core, "").None? && NewVersion(core, "unknown").None?
  {
    var u := "unknown";
    assert u[0] == 'u' && "v"[0] == 'v';
    assert TrimPrefix(u, "v") == u && TrimPrefix("", "v") == "";
  }

  /** The verdict on two texts: unknown unless both parse, outdated if the current version is below the latest one,
      up to date otherwise. Blank texts and the text `unknown` are among those that do not parse. */
  lemma StatusOfTexts(core: CoreParser, current: string, latest: string)
    ensures
      var cur, lat := NewVersion(core, TrimSpace(current)), NewVersion(core, TrimSpace(latest));
      Assess(core, current, latest).status ==
      if cur.None? || lat.None? then UnknownStatus else if Compare(cur.value, lat.value) < 0 then Outdated else UpToDate
  {
    hide TrimBy, Compare, ComputeLag;
    var _, _ := TrimBySlice(current, IsSpace);
    var _, _ := TrimBySlice(latest, IsSpace);
    TrimByKeeps(TrimSpace(current), IsSpace);
    TrimByKeeps(TrimSpace(latest), IsSpace);
    PlaceholdersDoNotParse(core);
  }

  /** The lag between two texts that parse, the first below the second: their weighted distance, at least one; if it
      does not fit 64 bits, its remainder, at least one. Any other two texts have lag zero. */
  lemma LagOfTexts(core: CoreParser, current: string, latest: string)
    ensures
      var cur, lat := NewVersion(core, TrimSpace(current)), NewVersion(core, TrimSpace(latest));
      var lag := Assess(core, current, latest).lag;
      if cur.None? || lat.None? || Compare(cur.value, lat.value) >= 0 then lag == 0
      else
        var x := 10000 * (lat.value.major - cur.value.major) + 100 * (lat.value.minor - cur.value.minor) +
                 (lat.value.patch - cur.value.patch);
        var wrapped := x % TWO_64;
        && lag == (if wrapped < 1 then 1 else wrapped)
        && (0 <= x < TWO_64 ==> lag == if x < 1 then 1 else x)
  {
    hide TrimBy, Compare, WrappedLag;
    var _, _ := TrimBySlice(current, IsSpace);
    var _, _ := TrimBySlice(latest, IsSpace);
    TrimByKeeps(TrimSpace(current), IsSpace);
    TrimByKeeps(TrimSpace(latest), IsSpace);
    PlaceholdersDoNotParse(core);
    var cur, lat := NewVersion(core, TrimSpace(current)), NewVersion(core, TrimSpace(latest));
    if cur.Some? && lat.Some? {
      WrappedLagIsExactModulo(cur.value, lat.value);
      ModWithin(ExactLag(cur.value, lat.value));
    }
  }

  predicate SmallParts(v: Version) { v.minor < 100 && v.patch < 100 }

  predicate CoreBefore(a: Version, b: Version) {
    a.major < b.major || (a.major == b.major && (a.minor < b.minor || (a.minor == b.minor && a.patch < b.patch)))
  }

  /** With two-digit parts and no overflow, a higher latest core version means a larger lag,
      except that reaching the current core version itself and one patch above it both count as one. */
  lemma LagGrowsWithLatest(current: Version, nearer: Version, farther: Version)
    requires SmallParts(current) && SmallParts(nearer) && SmallParts(farther)
    requires Compare(current, nearer) < 0 && CoreBefore(nearer, farther)
    requires ExactLag(current, farther) < TWO_64
    ensures ComputeLag(current, nearer) < ComputeLag(current, farther) <==>
            !(ExactLag(current, nearer) == 0 && ExactLag(current, farther) == 1)
    ensures ComputeLag(current, nearer) <= ComputeLag(current, farther)
  {
    hide ComputeLag;
    assert 0 <= ExactLag(current, nearer) < ExactLag(current, farther);
    LagWithoutWrapping(current, nearer);
    LagWithoutWrapping(current, farther);
  }

  /** The exception occurs: 1.0.0-1 is one behind both 1.0.0 and 1.0.1. */
  lemma LagPlateau()
    ensures
      var current := Version(1, 0, 0, [Numeric(1)], "");
      var (nearer, farther) := (Version(1, 0, 0, [], ""), Version(1, 0, 1, [], ""));
      Compare(current, nearer) < 0 && CoreBefore(nearer, farther) &&
      ComputeLag(current, nearer) == 1 && ComputeLag(current, farther) == 1
  {
    hide ComputeLag;
    var current := Version(1, 0, 0, [Numeric(1)], "");
    LagWithoutWrapping(current, Version(1, 0, 0, [], ""));
    LagWithoutWrapping(current, Version(1, 0, 1, [], ""));
  }

  /** What the catalog records as the latest version after resolving a list of tags. */
  function LatestFromTags(core: CoreParser, tags: seq<string>): string {
    match PickLatest(core, tags)
    case Ok(tag) => tag
    case Err(_) => "unknown"
  }

  /** The status the tags call for: outdated exactly when one of them is newer. */
  ghost function DeservedStatus(core: CoreParser, current: Version, tags: seq<string>): VersionStatus {
    if NothingParses(core, tags) then UnknownStatus
    else if exists tag :: tag in tags && Candidate(core, tag).Some? && Compare(current, Candidate(core, tag).value) < 0
    then Outdated
    else UpToDate
  }

  /** The picked tag parses again in the engine exactly when it does not start with two `v`s,
      because picking strips one `v` before a parse that tolerates another. */
  lemma PickedTagReparses(core: CoreParser, tags: seq<string>)
    requires PickLatest(core, tags).Ok?
    ensures
      var picked := PickLatest(core, tags).value;
      && picked != "" && picked != "unknown" && TrimSpace(picked) == picked
      && NewVersion(core, picked) == if HasPrefix(picked, "vv") then None else PickedVersion(core, tags)
  {
    var tag := tags[Pick(core, tags).value];
    var picked := TrimSpace(tag);
    var _, _ := TrimBySlice(tag, IsSpace);
    TrimByKeeps(picked, IsSpace);
    var once := TrimPrefix(picked, "v");
    var twice := TrimPrefix(once, "v");
    assert core(twice).Some?;
    assert twice != "" && IsDigit(twice[0]);
    if HasPrefix(picked, "vv") {
      assert once[0] == picked[1] == 'v';
    } else if HasPrefix(picked, "v") {
      assert twice == once;
    }
  }

  /** Comparing with the picked tag gives the deserved status exactly when that tag does not start with two `v`s. */
  lemma OutdatedIffNewerExists(core: CoreParser, current: string, tags: seq<string>)
    requires TrimSpace(current) != "" && NewVersion(core, TrimSpace(current)).Some?
    ensures
      var deserved := DeservedStatus(core, NewVersion(core, TrimSpace(current)).value, tags);
      var latest := LatestFromTags(core, tags);
      && (Assess(core, current, latest).status == deserved <==> !HasPrefix(latest, "vv"))
      && (HasPrefix(latest, "vv") ==> Assess(core, current, latest).status == UnknownStatus)
  {
    hide TrimBy, Compare, NewVersion, Candidate;
    var cur := NewVersion(core, TrimSpace(current)).value;
    var _, _ := TrimBySlice(current, IsSpace);
    TrimByKeeps(TrimSpace(current), IsSpace);
    TrimByKeeps("unknown", IsSpace);
    PickIsFirstMaximal(core, tags, 0);
    PickFindsFirstMaximal(core, tags);
    if PickLatest(core, tags).Ok? {
      PickedTagReparses(core, tags);
      var i := Pick(core, tags).value;
      var best := Candidate(core, tags[i]).value;
      assert tags[i] in tags;
      forall tag | tag in tags && Candidate(core, tag).Some? && Compare(cur, Candidate(core, tag).value) < 0
        ensures Compare(cur, best) < 0
      {
        PrecedenceIsTotalPreorder(cur, Candidate(core, tag).value, best);
      }
    }
  }

  /** A registry whose only tag is `vv1.0.0` leaves an older release unknown rather than outdated. */
  lemma DoubleVTagIsUnknown(core: CoreParser)
    requires core("1.0.0") == Some(Version(1, 0, 0, [], "")) && core("0.9.0") == Some(Version(0, 9, 0, [], ""))
    ensures LatestFromTags(core, ["vv1.0.0"]) == "vv1.0.0"
    ensures Assess(core, "0.9.0", "vv1.0.0").status == UnknownStatus
    ensures DeservedStatus(core, Version(0, 9, 0, [], ""), ["vv1.0.0"]) == Outdated
  {
    var tags := ["vv1.0.0"];
    TrimByKeeps("vv1.0.0", IsSpace);
    TrimByKeeps("0.9.0", IsSpace);
    assert TrimPrefix("vv1.0.0", "v") == "v1.0.0" && TrimPrefix("v1.0.0", "v") == "1.0.0";
    assert Candidate(core, "vv1.0.0") == Some(Version(1, 0, 0, [], ""));
    assert tags[..0] == [];
    assert "vv1.0.0" in tags;
    OutdatedIffNewerExists(core, "0.9.0", tags);
  }

  // ---------------------------------------------------------------- The first entry instead of the best

  /** What the engine reads as a version, the tag picker reads as the same one. */
  lemma EngineParseIsCandidate(core: CoreParser, text: string)
    requires NewVersion(core, TrimSpace(text)).Some?
    ensures Candidate(core, text) == NewVersion(core, TrimSpace(text))
    ensures TrimSpace(text) != "" && TrimSpace(text) != "unknown"
  {
    hide TrimBy;
    var t := TrimSpace(text);
    var once := TrimPrefix(t, "v");
    assert once != "" && IsDigit(once[0]);
    assert TrimPrefix(once, "v") == once;
    assert TrimPrefix("unknown", "v") == "unknown";
  }

  /** The first entry parses in the engine, and is newer than `current` if any entry is. */
  ghost predicate FirstTells(core: CoreParser, current: Version, versions: seq<string>)
    requires versions != []
  {
    && NewVersion(core, TrimSpace(versions[0])).Some?
    && ((forall v :: v in versions && Candidate(core, v).Some? ==> Compare(current, Candidate(core, v).value) >= 0) ||
        Compare(current, NewVersion(core, TrimSpace(versions[0])).value) < 0)
  }

  /** Comparing with the first entry gives the status all entries call for exactly when that entry parses and is
      newer than the current version if any is, or when no entry parses. */
  lemma FirstEntryStatus(core: CoreParser, current: string, versions: seq<string>)
    requires versions != []
    requires TrimSpace(current) != "" && NewVersion(core, TrimSpace(current)).Some?
    ensures
      var cur := NewVersion(core, TrimSpace(current)).value;
      Assess(core, current, versions[0]).status == DeservedStatus(core, cur, versions) <==>
      FirstTells(core, cur, versions) || NothingParses(core, versions)
  {
    hide TrimBy, Compare, NewVersion, Candidate, ComputeLag;
    var cur := NewVersion(core, TrimSpace(current)).value;
    var _, _ := TrimBySlice(current, IsSpace);
    var _, _ := TrimBySlice(versions[0], IsSpace);
    TrimByKeeps(TrimSpace(current), IsSpace);
    TrimByKeeps(TrimSpace(versions[0]), IsSpace);
    assert versions[0] in versions;
    if NewVersion(core, TrimSpace(versions[0])).Some? {
      EngineParseIsCandidate(core, versions[0]);
    }
  }

  /** An index in ascending order hides its newest version: 1.0.0 counts as up to date although 2.0.0 is listed. */
  lemma AscendingIndexHidesUpdate(core: CoreParser)
    requires core("1.0.0") == Some(Version(1, 0, 0, [], "")) && core("2.0.0") == Some(Version(2, 0, 0, [], ""))
    ensures
      var versions := ["1.0.0", "2.0.0"];
      && Assess(core, "1.0.0", versions[0]).status == UpToDate
      && DeservedStatus(core, Version(1, 0, 0, [], ""), versions) == Outdated
  {
    var versions := ["1.0.0", "2.0.0"];
    TrimByKeeps("1.0.0", IsSpace);
    TrimByKeeps("2.0.0", IsSpace);
    assert Candidate(core, "2.0.0") == Some(Version(2, 0, 0, [], ""));
    assert versions[1] in versions;
    assert !NothingParses(core, versions);
  }
}
