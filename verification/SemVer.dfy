/**
 Version precedence as section 11 of Semantic Versioning 2.0.0 defines it.
 The parser itself is a library function and stays abstract.
 */
module SemVer {
  import opened Text
  import opened Model

  const TWO_64: nat := 0x1_0000_0000_0000_0000

  type Uint64 = x: nat | x < TWO_64

  datatype Identifier = Numeric(n: nat) | Alphanumeric(text: string)

  datatype Version = Version(major: Uint64, minor: Uint64, patch: Uint64, pre: seq<Identifier>, build: string)

  ghost predicate DigitFirst(parse: string -> Option<Version>) {
    forall s :: parse(s).Some? ==> s != "" && IsDigit(s[0])
  }

  /** A version parser for texts without a leading `v`; it accepts no text that does not start with a digit. */
  type CoreParser = parse: string -> Option<Version> | DigitFirst(parse) witness (s: string) => None

  /** The library's entry point, which tolerates one leading `v`. */
  function NewVersion(core: CoreParser, s: string): Option<Version> {
    core(TrimPrefix(s, "v"))
  }

  function CompareNat(a: nat, b: nat): int {
    if a < b then -1 else if a > b then 1 else 0
  }

  function CompareIdentifier(a: Identifier, b: Identifier): int {
    match (a, b)
    case (Numeric(m), Numeric(n)) => CompareNat(m, n)
    case (Numeric(_), Alphanumeric(_)) => -1
    case (Alphanumeric(_), Numeric(_)) => 1
    case (Alphanumeric(s), Alphanumeric(t)) => if s == t then 0 else if Before(s, t) then -1 else 1
  }

  /** Field by field; when all shared fields agree the longer list is higher. */
  function CompareIdentifiers(a: seq<Identifier>, b: seq<Identifier>): int {
    if a == [] then (if b == [] then 0 else -1)
    else if b == [] then 1
    else
      var first := CompareIdentifier(a[0], b[0]);
      if first != 0 then first else CompareIdentifiers(a[1..], b[1..])
  }

  /** A version without a pre-release outranks one with it. */
  function ComparePre(a: seq<Identifier>, b: seq<Identifier>): int {
    if a == [] && b == [] then 0
    else if a == [] then 1
    else if b == [] then -1
    else CompareIdentifiers(a, b)
  }

  /** Precedence: negative, zero or positive. Build metadata is ignored. */
  function Compare(a: Version, b: Version): int {
    if a.major != b.major then CompareNat(a.major, b.major)
    else if a.minor != b.minor then CompareNat(a.minor, b.minor)
    else if a.patch != b.patch then CompareNat(a.patch, b.patch)
    else ComparePre(a.pre, b.pre)
  }

  predicate SamePrecedence(a: Version, b: Version) {
    a.major == b.major && a.minor == b.minor && a.patch == b.patch && a.pre == b.pre
  }

  lemma CompareIdentifierLaws(a: Identifier, b: Identifier, c: Identifier)
    ensures CompareIdentifier(a, b) == -CompareIdentifier(b, a)
    ensures CompareIdentifier(a, b) == 0 <==> a == b
    ensures CompareIdentifier(a, b) < 0 && CompareIdentifier(b, c) < 0 ==> CompareIdentifier(a, c) < 0
  {
    if a.Alphanumeric? && b.Alphanumeric? {
      BeforeTotal(a.text, b.text);
      BeforeIrreflexive(a.text);
      if Before(a.text, b.text) && Before(b.text, a.text) { BeforeTransitive(a.text, b.text, a.text); }
      if c.Alphanumeric? && Before(a.text, b.text) && Before(b.text, c.text) {
        BeforeTransitive(a.text, b.text, c.text);
        BeforeIrreflexive(a.text);
      }
    }
  }

  lemma {:induction false} CompareIdentifiersLaws(a: seq<Identifier>, b: seq<Identifier>, c: seq<Identifier>)
    ensures CompareIdentifiers(a, b) == -CompareIdentifiers(b, a)
    ensures CompareIdentifiers(a, b) == 0 <==> a == b
    ensures CompareIdentifiers(a, b) < 0 && CompareIdentifiers(b, c) < 0 ==> CompareIdentifiers(a, c) < 0
    decreases |a|
  {
    if a != [] && b != [] {
      CompareIdentifierLaws(a[0], b[0], b[0]);
      assert a == [a[0]] + a[1..] && b == [b[0]] + b[1..];
      if c != [] {
        CompareIdentifierLaws(a[0], b[0], c[0]);
        CompareIdentifierLaws(b[0], c[0], c[0]);
        CompareIdentifiersLaws(a[1..], b[1..], c[1..]);
      } else {
        CompareIdentifiersLaws(a[1..], b[1..], []);
      }
    }
  }

  /** Precedence is a total preorder whose ties are exactly the versions that differ only in build metadata. */
  lemma PrecedenceIsTotalPreorder(a: Version, b: Version, c: Version)
    ensures Compare(a, b) == -Compare(b, a)
    ensures Compare(a, b) == 0 <==> SamePrecedence(a, b)
    ensures Compare(a, b) <= 0 && Compare(b, c) <= 0 ==> Compare(a, c) <= 0
    ensures Compare(a, b) < 0 && Compare(b, c) <= 0 ==> Compare(a, c) < 0
    ensures Compare(a, b) <= 0 && Compare(b, c) < 0 ==> Compare(a, c) < 0
  {
    CompareIdentifiersLaws(a.pre, b.pre, c.pre);
    CompareIdentifiersLaws(b.pre, c.pre, c.pre);
    CompareIdentifiersLaws(a.pre, c.pre, c.pre);
  }

  /** The ascending chain of examples in section 11.2. */
  lemma CoreVersionExamples()
    ensures
      var v := (major: Uint64, minor: Uint64, patch: Uint64) => Version(major, minor, patch, [], "");
      Compare(v(1, 0, 0), v(2, 0, 0)) < 0 && Compare(v(2, 0, 0), v(2, 1, 0)) < 0 && Compare(v(2, 1, 0), v(2, 1, 1)) < 0
  {
  }

  /** The ascending chain of examples in section 11.4. */
  lemma SectionElevenExamples()
    ensures
      var v := (pre: seq<Identifier>) => Version(1, 0, 0, pre, "");
      var chain := [
        v([Alphanumeric("alpha")]),
        v([Alphanumeric("alpha"), Numeric(1)]),
        v([Alphanumeric("alpha"), Alphanumeric("beta")]),
        v([Alphanumeric("beta")]),
        v([Alphanumeric("beta"), Numeric(2)]),
        v([Alphanumeric("beta"), Numeric(11)]),
        v([Alphanumeric("rc"), Numeric(1)]),
        v([])];
      forall i :: 0 <= i < 7 ==> Compare(chain[i], chain[i + 1]) < 0
  {
    var alpha, beta, rc := Alphanumeric("alpha"), Alphanumeric("beta"), Alphanumeric("rc");
    assert Before("alpha", "beta") && Before("beta", "rc");
    assert CompareIdentifiers([alpha], [alpha, Numeric(1)]) < 0 by {
      assert [alpha][1..] == [] && [alpha, Numeric(1)][1..] == [Numeric(1)];
    }
    assert CompareIdentifiers([alpha, Numeric(1)], [alpha, beta]) < 0 by {
      assert [alpha, Numeric(1)][1..] == [Numeric(1)] && [alpha, beta][1..] == [beta];
    }
    assert CompareIdentifiers([alpha, beta], [beta]) < 0;
    assert CompareIdentifiers([beta], [beta, Numeric(2)]) < 0 by {
      assert [beta][1..] == [] && [beta, Numeric(2)][1..] == [Numeric(2)];
    }
    assert CompareIdentifiers([beta, Numeric(2)], [beta, Numeric(11)]) < 0 by {
      assert [beta, Numeric(2)][1..] == [Numeric(2)] && [beta, Numeric(11)][1..] == [Numeric(11)];
    }
    assert CompareIdentifiers([beta, Numeric(11)], [rc, Numeric(1)]) < 0;
  }
}
