/**
  The parts of JavaScript's string, array and regular-expression built-ins that
  the asset-naming callback relies on, stated over Dafny strings:
  - `String.prototype.split` with a one-character separator,
  - `Array.prototype.at`,
  - the `||` operator applied to a string that may be `undefined`,
  - `RegExp.prototype.test` for an unanchored, case-insensitive alternation of
    ASCII literals (the `i` flag without `u`).
 */
module JsString {
  import opened Wrappers

  // ---------------------------------------------------------------------------
  // split and its inverse, join

  /** `parts.join(sep)`: the parts with one separator between neighbours. */
  function Join(parts: seq<string>, sep: char): string
    requires |parts| >= 1
    decreases |parts|
  {
    if |parts| == 1 then parts[0] else parts[0] + [sep] + Join(parts[1..], sep)
  }

  /**
    `s.split(sep)`: the maximal runs between separators, in order. An empty
    string gives one empty part; a trailing separator gives an empty last part.
   */
  function Split(s: string, sep: char): (parts: seq<string>)
    ensures |parts| >= 1
    ensures forall k :: 0 <= k < |parts| ==> sep !in parts[k]
    ensures Join(parts, sep) == s
    decreases |s|
  {
    if s == [] then [[]]
    else
      var rest := Split(s[1..], sep);
      if s[0] == sep then
        assert ([[]] + rest)[1..] == rest;
        [[]] + rest
      else
        var parts := [[s[0]] + rest[0]] + rest[1..];
        assert |rest| > 1 ==> parts[1..] == rest[1..] && Join(rest, sep) == rest[0] + [sep] + Join(rest[1..], sep);
        parts
  }

  /** Splitting a text whose first part holds no separator glues that part to the rest's first part. */
  lemma {:induction false} SplitAfterPlainPrefix(a: string, b: string, sep: char)
    requires sep !in a
    ensures Split(a + b, sep) == [a + Split(b, sep)[0]] + Split(b, sep)[1..]
    decreases |a|
  {
    if a != [] {
      assert (a + b)[0] == a[0] && (a + b)[1..] == a[1..] + b;
      SplitAfterPlainPrefix(a[1..], b, sep);
      assert [a[0]] + (a[1..] + Split(b, sep)[0]) == a + Split(b, sep)[0];
    } else {
      var parts := Split(b, sep);
      assert a + b == b && a + parts[0] == parts[0];
      assert parts == [parts[0]] + parts[1..];
    }
  }

  /** A leading separator opens an empty first part. */
  lemma SplitAfterSeparator(b: string, sep: char)
    ensures Split([sep] + b, sep) == [[]] + Split(b, sep)
  {
    assert ([sep] + b)[1..] == b;
  }

  /** Splitting a join of separator-free parts gives the parts back. */
  lemma {:induction false} SplitJoin(parts: seq<string>, sep: char)
    requires |parts| >= 1
    requires forall k :: 0 <= k < |parts| ==> sep !in parts[k]
    ensures Split(Join(parts, sep), sep) == parts
    decreases |parts|
  {
    if |parts| == 1 {
      SplitAfterPlainPrefix(parts[0], [], sep);
      assert parts[0] + [] == parts[0];
    } else {
      var tail := Join(parts[1..], sep);
      SplitJoin(parts[1..], sep);
      SplitAfterSeparator(tail, sep);
      assert parts[0] + [sep] + tail == parts[0] + ([sep] + tail);
      SplitAfterPlainPrefix(parts[0], [sep] + tail, sep);
      assert parts[0] + [] == parts[0];
    }
  }

  /** A string with no separator splits into itself alone. */
  lemma SplitWithoutSeparator(s: string, sep: char)
    requires sep !in s
    ensures Split(s, sep) == [s]
  {
    SplitJoin([s], sep);
  }

  // ---------------------------------------------------------------------------
  // at and ||

  /** `xs.at(i)`: a negative index counts from the end; out of range is `undefined`. */
  function At<T>(xs: seq<T>, i: int): (r: Option<T>)
    ensures r.Some? <==> -|xs| <= i < |xs|
    ensures 0 <= i < |xs| ==> r == Some(xs[i])
    ensures -|xs| <= i < 0 ==> r == Some(xs[|xs| + i])
  {
    var k := if i < 0 then |xs| + i else i;
    if 0 <= k < |xs| then Some(xs[k]) else None
  }

  /** `v || ''` for a string that may be `undefined`: `undefined` and `''` are falsy. */
  function OrEmpty(v: Option<string>): (s: string)
    ensures v.Some? ==> s == v.value
    ensures v.None? ==> s == ""
  {
    match v
    case None => ""
    case Some(x) => if x == "" then "" else x
  }

  // ---------------------------------------------------------------------------
  // Case folding

  /** Folds an ASCII upper-case letter onto its lower-case form; every other character is kept. */
  function LowerChar(c: char): char {
    if 'A' <= c <= 'Z' then (c as int + 32) as char else c
  }

  /** The string with every ASCII upper-case letter folded, position by position. */
  function Lower(s: string): (r: string)
    ensures |r| == |s|
    ensures forall i :: 0 <= i < |s| ==> r[i] == LowerChar(s[i])
    ensures forall i :: 0 <= i < |r| ==> !('A' <= r[i] <= 'Z')
  {
    if s == [] then [] else [LowerChar(s[0])] + Lower(s[1..])
  }

  /** Folding twice is folding once. */
  lemma LowerIdempotent(s: string)
    ensures Lower(Lower(s)) == Lower(s)
  {
    var once := Lower(s);
    assert forall i :: 0 <= i < |once| ==> Lower(once)[i] == once[i];
  }

  // ---------------------------------------------------------------------------
  // Unanchored alternation test

  /** The literal `lit` occurs in `s` starting at position `i`. */
  predicate OccursAt(lit: string, s: string, i: nat) {
    i + |lit| <= |s| && s[i..i + |lit|] == lit
  }

  /** Some literal of `lits` occurs somewhere in `s`. */
  ghost predicate ContainsAny(lits: seq<string>, s: string) {
    exists k: nat, i: nat :: k < |lits| && OccursAt(lits[k], s, i)
  }

  /**
    After case folding, some literal occurs somewhere in `s`. Only the text is
    folded, so this is what `/l0|l1|.../i.test(s)` decides when every literal
    is already folded (`FoldedLiterals`); `MatchesFoldingBoth` shows why.
   */
  ghost predicate MatchesIgnoringCase(lits: seq<string>, s: string) {
    ContainsAny(lits, Lower(s))
  }

  /** Every literal is its own case-folded form, as lower-case ASCII literals are. */
  predicate FoldedLiterals(lits: seq<string>) {
    forall k :: 0 <= k < |lits| ==> Lower(lits[k]) == lits[k]
  }

  /**
    The `i` flag's own reading: a literal matches where the text and the
    literal agree once both are folded.
   */
  ghost predicate MatchesFoldingBoth(lits: seq<string>, s: string) {
    exists k: nat, i: nat :: k < |lits| && OccursAt(Lower(lits[k]), Lower(s), i)
  }

  /** For folded literals, folding the text alone decides the same as folding both sides. */
  lemma MatchesFoldingBothSpec(lits: seq<string>, s: string)
    requires FoldedLiterals(lits)
    ensures MatchesIgnoringCase(lits, s) <==> MatchesFoldingBoth(lits, s)
  {
    if MatchesIgnoringCase(lits, s) {
      var k: nat, i: nat :| k < |lits| && OccursAt(lits[k], Lower(s), i);
      assert OccursAt(Lower(lits[k]), Lower(s), i);
    }
    if MatchesFoldingBoth(lits, s) {
      var k: nat, i: nat :| k < |lits| && OccursAt(Lower(lits[k]), Lower(s), i);
      assert OccursAt(lits[k], Lower(s), i);
    }
  }

  /** Case-insensitive matching cannot tell a text from its folded form. */
  lemma MatchIgnoresCase(lits: seq<string>, s: string)
    ensures MatchesIgnoringCase(lits, Lower(s)) <==> MatchesIgnoringCase(lits, s)
  {
    LowerIdempotent(s);
  }

  /** The alternation tried at one position: the first alternative that matches there wins. */
  predicate AlternativeAt(lits: seq<string>, s: string, i: nat)
    decreases |lits|
  {
    |lits| > 0 && (OccursAt(lits[0], s, i) || AlternativeAt(lits[1..], s, i))
  }

  /** The unanchored search: try the alternation at `i`, then at each later position. */
  predicate SearchFrom(lits: seq<string>, s: string, i: nat)
    decreases |s| + 1 - i
  {
    i <= |s| && (AlternativeAt(lits, s, i) || SearchFrom(lits, s, i + 1))
  }

  /**
    `RegExp.prototype.test` for the case-insensitive alternation of `lits`: the
    scan runs over the folded text from position 0. The literals are compared
    as given, so this is the `i` flag's answer for `FoldedLiterals(lits)`.
   */
  function RegexTest(lits: seq<string>, s: string): (found: bool)
    ensures found <==> MatchesIgnoringCase(lits, s)
  {
    SearchFromSpec(lits, Lower(s), 0);
    SearchFrom(lits, Lower(s), 0)
  }

  lemma {:induction false} AlternativeAtSpec(lits: seq<string>, s: string, i: nat)
    ensures AlternativeAt(lits, s, i) <==> exists k: nat :: k < |lits| && OccursAt(lits[k], s, i)
    decreases |lits|
  {
    if |lits| > 0 {
      AlternativeAtSpec(lits[1..], s, i);
      if AlternativeAt(lits[1..], s, i) {
        var k: nat :| k < |lits[1..]| && OccursAt(lits[1..][k], s, i);
        assert OccursAt(lits[k + 1], s, i);
      }
      if k: nat :| k < |lits| && OccursAt(lits[k], s, i) {
        if k > 0 {
          assert OccursAt(lits[1..][k - 1], s, i);
        }
      }
    }
  }

  lemma {:induction false} SearchFromSpec(lits: seq<string>, s: string, i: nat)
    ensures SearchFrom(lits, s, i) <==> exists k: nat, j: nat :: i <= j && k < |lits| && OccursAt(lits[k], s, j)
    decreases |s| + 1 - i
  {
    AlternativeAtSpec(lits, s, i);
    if i <= |s| {
      SearchFromSpec(lits, s, i + 1);
      if k: nat, j: nat :| i <= j && k < |lits| && OccursAt(lits[k], s, j) {
        if j > i {
          assert i + 1 <= j;
        }
      }
    }
  }

  /** Every character of an occurring literal is a character of the text. */
  lemma OccurrenceChars(lit: string, s: string, i: nat, j: nat)
    requires OccursAt(lit, s, i) && j < |lit|
    ensures lit[j] in s
  {
    assert s[i..i + |lit|][j] == s[i + j];
  }

  /**
    No literal occurs in `s` when each has a character that `s` lacks; `js[k]`
    points at such a character of `lits[k]`.
   */
  lemma AbsentCharExcludes(lits: seq<string>, s: string, js: seq<nat>)
    requires |js| == |lits|
    requires forall k :: 0 <= k < |lits| ==> js[k] < |lits[k]| && lits[k][js[k]] !in s
    ensures !ContainsAny(lits, s)
  {
    if k: nat, i: nat :| k < |lits| && OccursAt(lits[k], s, i) {
      OccurrenceChars(lits[k], s, i, js[k]);
    }
  }
}
