/** String operations the dashboard relies on: case-insensitive substring search
    (as a pattern of literal alternatives is matched with case folding turned on)
    and the code-point ordering that sorts the filter option lists. */
module Text {

  /** ASCII case folding of one character; every other character is left as it is. */
  function LowerChar(c: char): char
  {
    if 'A' <= c <= 'Z' then (c as int + 32) as char else c
  }

  function Lower(s: string): string
  {
    seq(|s|, i requires 0 <= i < |s| => LowerChar(s[i]))
  }

  /** Plain substring search: does `p` occur somewhere in `s`? */
  function Contains(s: string, p: string): bool
    decreases |s|
  {
    p <= s || (s != [] && Contains(s[1..], p))
  }

  /** `p` occurs in `s` starting at position `i`. */
  ghost predicate OccursAt(p: string, s: string, i: nat)
  {
    i + |p| <= |s| && s[i..i + |p|] == p
  }

  lemma {:induction false} ContainsIff(s: string, p: string)
    ensures Contains(s, p) <==> exists i: nat :: OccursAt(p, s, i)
    decreases |s|
  {
    if p <= s {
      assert s[0..|p|] == p;
      assert OccursAt(p, s, 0);
    } else if s == [] {
      assert p != [];
      forall i: nat ensures !OccursAt(p, s, i) {}
    } else {
      ContainsIff(s[1..], p);
      forall i: nat ensures OccursAt(p, s, i + 1) <==> OccursAt(p, s[1..], i) {
        if i + 1 + |p| <= |s| {
          assert s[1..][i..i + |p|] == s[i + 1..i + 1 + |p|];
        }
      }
      assert !OccursAt(p, s, 0);
      if Contains(s[1..], p) {
        var i: nat :| OccursAt(p, s[1..], i);
        assert OccursAt(p, s, i + 1);
      } else {
        forall i: nat ensures !OccursAt(p, s, i) {
          if i > 0 {
            assert !OccursAt(p, s[1..], i - 1);
            assert OccursAt(p, s, (i - 1) + 1) <==> OccursAt(p, s[1..], i - 1);
          }
        }
      }
    }
  }

  /** `p` occurs in `s` at position `i` when upper and lower case are not told apart. */
  ghost predicate MatchesIgnoreCaseAt(p: string, s: string, i: nat)
  {
    i + |p| <= |s| && forall k :: 0 <= k < |p| ==> LowerChar(s[i + k]) == LowerChar(p[k])
  }

  /** Case-insensitive substring search, computed on the case-folded strings. */
  function ContainsIgnoreCase(s: string, p: string): bool
  {
    Contains(Lower(s), Lower(p))
  }

  lemma ContainsIgnoreCaseIff(s: string, p: string)
    ensures ContainsIgnoreCase(s, p) <==> exists i: nat :: MatchesIgnoreCaseAt(p, s, i)
  {
    var ls, lp := Lower(s), Lower(p);
    assert |ls| == |s| && forall k :: 0 <= k < |s| ==> ls[k] == LowerChar(s[k]);
    assert |lp| == |p| && forall k :: 0 <= k < |p| ==> lp[k] == LowerChar(p[k]);
    ContainsIff(ls, lp);
    forall i: nat ensures OccursAt(lp, ls, i) <==> MatchesIgnoreCaseAt(p, s, i) {
      if i + |p| <= |s| {
        assert OccursAt(lp, ls, i) <==> forall k :: 0 <= k < |p| ==> ls[i..i + |p|][k] == lp[k];
      }
    }
    if ContainsIgnoreCase(s, p) {
      var i: nat :| OccursAt(lp, ls, i);
      assert MatchesIgnoreCaseAt(p, s, i);
    }
    if exists i: nat :: MatchesIgnoreCaseAt(p, s, i) {
      var i: nat :| MatchesIgnoreCaseAt(p, s, i);
      assert OccursAt(lp, ls, i);
    }
  }

  /** Python's ordering of strings: lexicographic by code point, a proper prefix first. */
  predicate LexLess(a: string, b: string)
    decreases |a|
  {
    if a == [] then b != []
    else if b == [] then false
    else if a[0] == b[0] then LexLess(a[1..], b[1..])
    else a[0] < b[0]
  }

  lemma {:induction false} LexLessIrreflexive(a: string)
    ensures !LexLess(a, a)
    decreases |a|
  {
    if a != [] {
      LexLessIrreflexive(a[1..]);
    }
  }

  lemma {:induction false} LexLessTransitive(a: string, b: string, c: string)
    requires LexLess(a, b) && LexLess(b, c)
    ensures LexLess(a, c)
    decreases |a|
  {
    if a != [] && a[0] == b[0] && b[0] == c[0] {
      LexLessTransitive(a[1..], b[1..], c[1..]);
    }
  }

  lemma {:induction false} LexLessTotal(a: string, b: string)
    requires a != b
    ensures LexLess(a, b) || LexLess(b, a)
    decreases |a|
  {
    if a != [] && b != [] && a[0] == b[0] {
      assert a == [a[0]] + a[1..] && b == [b[0]] + b[1..];
      LexLessTotal(a[1..], b[1..]);
    }
  }

  /** Strictly increasing: sorted, and therefore free of duplicates. */
  ghost predicate StrictlySorted(s: seq<string>)
  {
    forall i, j :: 0 <= i < j < |s| ==> LexLess(s[i], s[j])
  }

  /** Inserts `x` into a strictly sorted sequence unless it is already there. */
  function InsertSorted(x: string, s: seq<string>): (r: seq<string>)
    requires StrictlySorted(s)
    ensures StrictlySorted(r)
    ensures forall v :: v in r <==> v == x || v in s
    ensures |r| <= |s| + 1
  {
    if s == [] then [x]
    else if x == s[0] then s
    else if LexLess(x, s[0]) then
      assert forall j :: 0 < j < |s| ==> LexLess(x, s[j]) by {
        forall j | 0 < j < |s| ensures LexLess(x, s[j]) { LexLessTransitive(x, s[0], s[j]); }
      }
      [x] + s
    else
      LexLessTotal(x, s[0]);
      var rest := InsertSorted(x, s[1..]);
      assert forall v :: v in rest ==> LexLess(s[0], v);
      [s[0]] + rest
  }

  /** The distinct values of `xs` in ascending order (`sorted(set(xs))`). */
  function SortedDistinct(xs: seq<string>): (r: seq<string>)
    ensures StrictlySorted(r)
    ensures forall v :: v in r <==> v in xs
    ensures |r| <= |xs|
  {
    if xs == [] then []
    else InsertSorted(xs[0], SortedDistinct(xs[1..]))
  }

  /** A strictly sorted sequence lists each of its values exactly once. */
  lemma StrictlySortedIsDistinct(s: seq<string>)
    requires StrictlySorted(s)
    ensures forall i, j :: 0 <= i < |s| && 0 <= j < |s| && i != j ==> s[i] != s[j]
  {
    forall i, j | 0 <= i < j < |s| ensures s[i] != s[j] {
      LexLessIrreflexive(s[i]);
    }
  }
}
