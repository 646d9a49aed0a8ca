/**
 The string operations of Go's `strings` package that the program relies on,
 over sequences of Unicode scalar values.
 */
module Text {
  /** The characters `strings.TrimSpace` removes (Unicode White_Space). */
  predicate IsSpace(c: char) {
    || '\t' <= c <= '\r' || c == ' ' || c == '\U{0085}' || c == '\U{00A0}'
    || c == '\U{1680}' || '\U{2000}' <= c <= '\U{200A}' || c == '\U{2028}'
    || c == '\U{2029}' || c == '\U{202F}' || c == '\U{205F}' || c == '\U{3000}'
  }

  predicate IsSlash(c: char) { c == '/' }

  predicate IsQuote(c: char) { c == '"' }

  predicate IsDigit(c: char) { '0' <= c <= '9' }

  function TrimLeft(s: string, drop: char -> bool): string {
    if s != "" && drop(s[0]) then TrimLeft(s[1..], drop) else s
  }

  function TrimRight(s: string, drop: char -> bool): string {
    if s != "" && drop(s[|s| - 1]) then TrimRight(s[..|s| - 1], drop) else s
  }

  /** Removes every leading and trailing character that satisfies `drop`. */
  function TrimBy(s: string, drop: char -> bool): string {
    TrimRight(TrimLeft(s, drop), drop)
  }

  function TrimSpace(s: string): string {
    TrimBy(s, IsSpace)
  }

  /** True when neither end of `s` would be dropped. */
  predicate Trimmed(s: string, drop: char -> bool) {
    s == "" || (!drop(s[0]) && !drop(s[|s| - 1]))
  }

  predicate HasPrefix(s: string, prefix: string) {
    prefix <= s
  }

  predicate HasSuffix(s: string, suffix: string) {
    |suffix| <= |s| && s[|s| - |suffix|..] == suffix
  }

  function TrimPrefix(s: string, prefix: string): string {
    if prefix <= s then s[|prefix|..] else s
  }

  function TrimSuffix(s: string, suffix: string): string {
    if HasSuffix(s, suffix) then s[..|s| - |suffix|] else s
  }

  predicate Contains(s: string, sub: string) {
    exists i :: 0 <= i <= |s| && HasPrefix(s[i..], sub)
  }

  function LowerChar(c: char): char {
    if 'A' <= c <= 'Z' then (c as int + 32) as char else c
  }

  function ToLower(s: string): (t: string)
    ensures |t| == |s|
    ensures forall i :: 0 <= i < |s| ==> t[i] == LowerChar(s[i])
  {
    seq(|s|, i requires 0 <= i < |s| => LowerChar(s[i]))
  }

  /** The position of the first `c` in `s`, or -1. */
  function Index(s: string, c: char): (i: int)
    ensures -1 <= i < |s|
    ensures i >= 0 ==> s[i] == c && c !in s[..i]
    ensures i < 0 ==> c !in s
  {
    if s == "" then -1
    else if s[0] == c then 0
    else
      var rest := Index(s[1..], c);
      if rest < 0 then -1
      else
        assert s[..rest + 1] == [s[0]] + s[1..][..rest];
        rest + 1
  }

  /** `strings.Split` with a one-character separator. */
  function Split(s: string, sep: char): (parts: seq<string>)
    ensures |parts| >= 1
    decreases |s|
  {
    var i := Index(s, sep);
    if i < 0 then [s] else [s[..i]] + Split(s[i + 1..], sep)
  }

  /** `strings.SplitN`: at most `n` parts, the last one unsplit. */
  function SplitN(s: string, sep: char, n: nat): (parts: seq<string>)
    requires n >= 1
    ensures 1 <= |parts| <= n
    decreases n
  {
    var i := Index(s, sep);
    if n == 1 || i < 0 then [s] else [s[..i]] + SplitN(s[i + 1..], sep, n - 1)
  }

  /** `strings.Join` with an arbitrary separator. */
  function Join(parts: seq<string>, sep: string): string {
    if parts == [] then "" else if |parts| == 1 then parts[0]
    else parts[0] + sep + Join(parts[1..], sep)
  }

  lemma {:induction false} TrimLeftSlice(s: string, drop: char -> bool) returns (i: nat)
    ensures i <= |s| && TrimLeft(s, drop) == s[i..]
    ensures TrimLeft(s, drop) == "" || !drop(TrimLeft(s, drop)[0])
    ensures i > 0 ==> drop(s[0])
    decreases |s|
  {
    i := 0;
    if s != "" && drop(s[0]) {
      var k := TrimLeftSlice(s[1..], drop);
      i := k + 1;
    }
  }

  lemma {:induction false} TrimRightSlice(s: string, drop: char -> bool) returns (j: nat)
    ensures j <= |s| && TrimRight(s, drop) == s[..j]
    ensures TrimRight(s, drop) == "" || !drop(s[j - 1])
    ensures j < |s| ==> drop(s[|s| - 1])
    ensures j < |s| ==> drop(s[j])
    decreases |s|
  {
    j := |s|;
    if s != "" && drop(s[|s| - 1]) {
      var k := TrimRightSlice(s[..|s| - 1], drop);
      j := k;
      assert s[..|s| - 1][..k] == s[..k];
      if j < |s| - 1 { assert s[..|s| - 1][j] == s[j]; }
    }
  }

  /** Trimming yields a slice whose ends survive trimming. */
  lemma TrimBySlice(s: string, drop: char -> bool) returns (i: nat, j: nat)
    ensures i <= j <= |s| && TrimBy(s, drop) == s[i..j]
    ensures Trimmed(TrimBy(s, drop), drop)
  {
    i := TrimLeftSlice(s, drop);
    var k := TrimRightSlice(s[i..], drop);
    j := i + k;
    assert s[i..][..k] == s[i..j];
  }

  lemma TrimByKeeps(s: string, drop: char -> bool)
    requires Trimmed(s, drop)
    ensures TrimBy(s, drop) == s
  {
  }

  ghost predicate Only(s: string, drop: char -> bool) {
    forall c :: c in s ==> drop(c)
  }

  /** Nothing is left exactly when every character is dropped. */
  lemma {:induction false} TrimsAway(s: string, drop: char -> bool)
    ensures TrimBy(s, drop) == "" <==> Only(s, drop)
    decreases |s|
  {
    if s != "" && drop(s[0]) {
      TrimsAway(s[1..], drop);
      assert s == [s[0]] + s[1..];
    } else if s != "" {
      var j := TrimRightSlice(s, drop);
      assert s[0] in s;
    }
  }

  /** Trimming introduces no character. */
  lemma TrimByAddsNothing(s: string, drop: char -> bool)
    ensures forall c :: c in TrimBy(s, drop) ==> c in s
  {
    hide TrimBy;
    var i, j := TrimBySlice(s, drop);
  }

  predicate Graphic(c: char) { '!' <= c <= '~' }

  /** A text that starts and ends with a graphic ASCII character is not changed by trimming spaces. */
  lemma TrimSpaceKeepsGraphic(s: string)
    requires s != "" && Graphic(s[0]) && Graphic(s[|s| - 1])
    ensures TrimSpace(s) == s
  {
    TrimByKeeps(s, IsSpace);
  }

  /** A trimmed core surrounded by dropped characters is what trimming finds. */
  lemma {:induction false} TrimByCore(left: string, core: string, right: string, drop: char -> bool)
    requires forall k :: 0 <= k < |left| ==> drop(left[k])
    requires forall k :: 0 <= k < |right| ==> drop(right[k])
    requires core != "" && Trimmed(core, drop)
    ensures TrimBy(left + core + right, drop) == core
    decreases |left|, |right|
  {
    var s := left + core + right;
    if left != "" {
      assert s[1..] == left[1..] + core + right;
      TrimByCore(left[1..], core, right, drop);
    } else {
      assert s[0] == core[0];
      assert TrimLeft(s, drop) == s;
      if right != "" {
        var shorter := right[..|right| - 1];
        assert s[..|s| - 1] == left + core + shorter;
        TrimByCore(left, core, shorter, drop);
        assert TrimLeft(left + core + shorter, drop) == left + core + shorter;
      } else {
        assert s == core;
      }
    }
  }

  /** A string that starts with a non-empty space-free prefix keeps it when trimmed. */
  lemma TrimSpaceKeepsPrefix(s: string, prefix: string)
    requires prefix != "" && prefix <= s
    requires !IsSpace(prefix[0]) && !IsSpace(prefix[|prefix| - 1])
    ensures prefix <= TrimSpace(s)
  {
    assert s[0] == prefix[0];
    assert TrimLeft(s, IsSpace) == s;
    TrimRightKeepsPrefix(s, prefix);
  }

  lemma {:induction false} TrimRightKeepsPrefix(s: string, prefix: string)
    requires prefix != "" && prefix <= s && !IsSpace(prefix[|prefix| - 1])
    ensures prefix <= TrimRight(s, IsSpace)
    decreases |s|
  {
    if IsSpace(s[|s| - 1]) {
      assert |prefix| < |s|;
      assert prefix <= s[..|s| - 1];
      TrimRightKeepsPrefix(s[..|s| - 1], prefix);
    }
  }

  lemma ToLowerIdempotent(s: string)
    ensures ToLower(ToLower(s)) == ToLower(s)
  {
  }

  lemma ToLowerPrefix(s: string, prefix: string)
    requires prefix <= s && ToLower(prefix) == prefix
    ensures prefix <= ToLower(s)
  {
    forall i | 0 <= i < |prefix| ensures prefix[i] == ToLower(s)[i] {
      assert prefix[i] == s[i] && ToLower(prefix)[i] == LowerChar(prefix[i]);
    }
  }

  /** The first separator ends a separator-free head. */
  lemma {:induction false} IndexOfHead(head: string, sep: char, rest: string)
    requires sep !in head
    ensures Index(head + [sep] + rest, sep) == |head|
    decreases |head|
  {
    var s := head + [sep] + rest;
    if head == "" {
      assert s[0] == sep;
    } else {
      assert s[1..] == head[1..] + [sep] + rest && s[0] == head[0];
      IndexOfHead(head[1..], sep, rest);
    }
  }

  lemma SplitWhole(s: string, sep: char)
    requires sep !in s
    ensures Split(s, sep) == [s]
  {
  }

  lemma SplitHead(head: string, sep: char, rest: string)
    requires sep !in head
    ensures Split(head + [sep] + rest, sep) == [head] + Split(rest, sep)
    ensures forall n: nat :: n >= 2 ==> SplitN(head + [sep] + rest, sep, n) == [head] + SplitN(rest, sep, n - 1)
  {
    IndexOfHead(head, sep, rest);
    var s := head + [sep] + rest;
    assert s[..|head|] == head && s[|head| + 1..] == rest;
  }

  /** No part of a split contains the separator, and every part is a slice of the text. */
  lemma {:induction false} SplitPartsFree(s: string, sep: char)
    ensures forall p :: p in Split(s, sep) ==> sep !in p && forall c :: c in p ==> c in s
    decreases |s|
  {
    hide Index;
    var i := Index(s, sep);
    if i >= 0 {
      SplitPartsFree(s[i + 1..], sep);
      forall p | p in Split(s, sep) ensures sep !in p && forall c :: c in p ==> c in s {
        if p != s[..i] { assert p in Split(s[i + 1..], sep); }
      }
    }
  }

  /** Splitting undoes joining when no part contains the separator. */
  lemma {:induction false} SplitJoin(parts: seq<string>, sep: char)
    requires parts != []
    requires forall p :: p in parts ==> sep !in p
    ensures Split(Join(parts, [sep]), sep) == parts
    decreases |parts|
  {
    if |parts| == 1 {
      assert parts[0] in parts && Index(parts[0], sep) == -1;
    } else {
      assert parts[0] in parts;
      SplitHead(parts[0], sep, Join(parts[1..], [sep]));
      SplitJoin(parts[1..], sep);
      assert parts == [parts[0]] + parts[1..];
    }
  }

  /** The byte-wise order Go uses for `<` on strings. */
  predicate Before(a: string, b: string) {
    b != "" && (a == "" || a[0] < b[0] || (a[0] == b[0] && Before(a[1..], b[1..])))
  }

  lemma {:induction false} BeforeIrreflexive(a: string)
    ensures !Before(a, a)
    decreases |a|
  {
    if a == "" {
    } else {
      BeforeIrreflexive(a[1..]);
    }
  }

  lemma {:induction false} BeforeTransitive(a: string, b: string, c: string)
    requires Before(a, b) && Before(b, c)
    ensures Before(a, c)
    decreases |a|
  {
    if a == "" {
    } else if a[0] == b[0] == c[0] {
      BeforeTransitive(a[1..], b[1..], c[1..]);
    }
  }

  lemma {:induction false} BeforeTotal(a: string, b: string)
    ensures a == b || Before(a, b) || Before(b, a)
    decreases |a|
  {
    if a == "" || b == "" {
    } else if a[0] == b[0] {
      BeforeTotal(a[1..], b[1..]);
      assert a == [a[0]] + a[1..] && b == [b[0]] + b[1..];
    }
  }

  /** The order laws: asymmetry, and transitivity of the strict and the weak order. */
  lemma BeforeOrder(a: string, b: string, c: string)
    ensures !(Before(a, b) && Before(b, a))
    ensures Before(a, b) && Before(b, c) ==> Before(a, c)
    ensures !Before(b, a) && !Before(c, b) ==> !Before(c, a)
  {
    hide Before;
    BeforeIrreflexive(a);
    if Before(a, b) && Before(b, a) { BeforeTransitive(a, b, a); }
    if Before(a, b) && Before(b, c) { BeforeTransitive(a, b, c); }
    if !Before(b, a) && !Before(c, b) && Before(c, a) {
      BeforeTotal(a, b);
      BeforeTotal(b, c);
      if Before(a, b) { BeforeTransitive(c, a, b); }
    }
  }
}
