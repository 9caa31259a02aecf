/**
 The two orderings the aggregator asks of `Array.prototype.sort`: counter entries by
 descending count (`sort(([, a], [, b]) => b - a)`), and strings in the default order
 (`sort()` without a comparator). `Array.prototype.sort` is stable, so both are written
 as stable insertion sorts.
 */
module Sorting {
  import opened Counters
  import opened JsStrings

  // ---------------------------------------------------------------------------
  // entries by descending count
  // ---------------------------------------------------------------------------

  predicate NonIncreasing(e: Entries) {
    forall i, j :: 0 <= i < j < |e| ==> e[i].1 >= e[j].1
  }

  /** Inserts `x` after every entry whose count is at least its own. */
  function InsertByCount(x: (string, nat), s: Entries): (r: Entries)
    ensures |r| == |s| + 1
    ensures multiset(r) == multiset(s) + multiset{x}
    decreases |s|
  {
    if s == [] then [x]
    else if s[0].1 >= x.1 then
      var rest := InsertByCount(x, s[1..]);
      assert s == [s[0]] + s[1..];
      var r := [s[0]] + rest;
      assert r[1..] == rest;
      r
    else
      [x] + s
  }

  /** Inserting into a non-increasing sequence keeps it non-increasing. */
  lemma {:induction false} InsertByCountSorted(x: (string, nat), s: Entries)
    requires NonIncreasing(s)
    ensures NonIncreasing(InsertByCount(x, s))
    decreases |s|
  {
    if s != [] && s[0].1 >= x.1 {
      InsertByCountSorted(x, s[1..]);
      var r := InsertByCount(x, s);
      var rest := InsertByCount(x, s[1..]);
      assert r == [s[0]] + rest;
      forall j | 1 <= j < |r| ensures s[0].1 >= r[j].1 {
        assert r[j] == rest[j - 1];
        if r[j] != x {
          assert r[j] in multiset(rest);
          var k :| 0 <= k < |s[1..]| && s[1..][k] == r[j];
          assert s[k + 1] == r[j];
        }
      }
    }
  }

  /** `entries.sort(([, a], [, b]) => b - a)`: the same entries, counts non-increasing. */
  function SortByCount(e: Entries): (r: Entries)
    ensures |r| == |e|
    ensures multiset(r) == multiset(e)
    ensures NonIncreasing(r)
    decreases |e|
  {
    if e == [] then []
    else
      var n := |e| - 1;
      assert e == e[..n] + [e[n]];
      InsertByCountSorted(e[n], SortByCount(e[..n]));
      InsertByCount(e[n], SortByCount(e[..n]))
  }

  // ---------------------------------------------------------------------------
  // strings in the default order
  // ---------------------------------------------------------------------------

  /** No later string comes before an earlier one. */
  predicate NonDescending(s: seq<string>) {
    forall i, j :: 0 <= i < j < |s| ==> !LexLess(s[j], s[i])
  }

  /** Inserts `x` after every string that comes before it. */
  function InsertString(x: string, s: seq<string>): (r: seq<string>)
    ensures |r| == |s| + 1
    ensures multiset(r) == multiset(s) + multiset{x}
    decreases |s|
  {
    if s == [] then [x]
    else if LexLess(s[0], x) then
      var rest := InsertString(x, s[1..]);
      assert s == [s[0]] + s[1..];
      var r := [s[0]] + rest;
      assert r[1..] == rest;
      r
    else
      [x] + s
  }

  /** Inserting into a non-descending sequence keeps it non-descending. */
  lemma {:induction false} InsertStringSorted(x: string, s: seq<string>)
    requires NonDescending(s)
    ensures NonDescending(InsertString(x, s))
    decreases |s|
  {
    var r := InsertString(x, s);
    if s == [] {
    } else if LexLess(s[0], x) {
      InsertStringSorted(x, s[1..]);
      var rest := InsertString(x, s[1..]);
      assert r == [s[0]] + rest;
      forall j | 1 <= j < |r| ensures !LexLess(r[j], s[0]) {
        assert r[j] == rest[j - 1];
        LexLessTotal(r[j], s[0]);
        if r[j] != x {
          assert r[j] in multiset(rest);
          var k :| 0 <= k < |s[1..]| && s[1..][k] == r[j];
          assert s[k + 1] == r[j];
        }
      }
    } else {
      assert r == [x] + s;
      forall j | 1 <= j < |r| ensures !LexLess(r[j], x) {
        assert r[j] == s[j - 1];
        if LexLess(r[j], x) {
          LexLessTotal(s[0], x);
          if j > 1 {
            LexLessTotal(s[0], s[j - 1]);
            LexLessTransitive(s[0], s[j - 1], x);
          }
        }
      }
    }
  }

  /** `keys.sort()`: the same strings, in non-descending order. */
  function SortStrings(s: seq<string>): (r: seq<string>)
    ensures |r| == |s|
    ensures multiset(r) == multiset(s)
    ensures NonDescending(r)
    decreases |s|
  {
    if s == [] then []
    else
      var n := |s| - 1;
      assert s == s[..n] + [s[n]];
      InsertStringSorted(s[n], SortStrings(s[..n]));
      InsertString(s[n], SortStrings(s[..n]))
  }

  /** Sorting strings without repeats puts them in strictly ascending order. */
  lemma SortStringsStrict(s: seq<string>)
    requires NoDuplicates(s)
    ensures NoDuplicates(SortStrings(s))
    ensures forall i, j :: 0 <= i < j < |s| ==> LexLess(SortStrings(s)[i], SortStrings(s)[j])
  {
    var r := SortStrings(s);
    PermutationKeepsDistinct(s, r);
    forall i, j | 0 <= i < j < |s| ensures LexLess(r[i], r[j]) {
      LexLessTotal(r[i], r[j]);
    }
  }

  /** The number of times each value occurs is at most one in a sequence without repeats. */
  lemma {:induction false} DistinctMultiplicity(s: seq<string>, x: string)
    requires NoDuplicates(s)
    ensures multiset(s)[x] <= 1
    decreases |s|
  {
    if s != [] {
      assert s == [s[0]] + s[1..];
      DistinctMultiplicity(s[1..], x);
      if x == s[0] {
        assert x !in s[1..];
      }
    }
  }

  /** A value at two positions occurs at least twice. */
  lemma TwoOccurrences<T>(r: seq<T>, i: nat, j: nat)
    requires i < j < |r|
    ensures r[i] == r[j] ==> multiset(r)[r[i]] >= 2
  {
    assert r == r[..j] + r[j..];
    assert r[i] in r[..j] && r[j] in r[j..];
    assert multiset(r)[r[i]] == multiset(r[..j])[r[i]] + multiset(r[j..])[r[i]];
  }

  /** A rearrangement of a sequence without repeats has none either. */
  lemma PermutationKeepsDistinct(s: seq<string>, r: seq<string>)
    requires NoDuplicates(s) && multiset(r) == multiset(s)
    ensures NoDuplicates(r)
  {
    forall i, j | 0 <= i < j < |r| ensures r[i] != r[j] {
      TwoOccurrences(r, i, j);
      DistinctMultiplicity(s, r[i]);
    }
  }
}
