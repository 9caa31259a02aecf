/**
 A JavaScript object used as a counter, `acc[k] = (acc[k] || 0) + 1`. Its entries are
 kept as a sequence of (key, count) pairs in the order the keys were first inserted,
 which is the order `Object.entries` and `Object.keys` report for keys that are not
 integer-like.
 */
module Counters {

  type Entries = seq<(string, nat)>

  /** `Object.keys(e)` */
  function Keys(e: Entries): (ks: seq<string>)
    ensures |ks| == |e|
    ensures forall i :: 0 <= i < |e| ==> ks[i] == e[i].0
  {
    if e == [] then [] else [e[0].0] + Keys(e[1..])
  }

  /** `e[k] || 0`: the count stored under `k`, or 0 when there is none. */
  function Lookup(e: Entries, k: string): nat {
    if e == [] then 0 else if e[0].0 == k then e[0].1 else Lookup(e[1..], k)
  }

  /** The sum of all counts. */
  function Total(e: Entries): nat {
    if e == [] then 0 else e[0].1 + Total(e[1..])
  }

  predicate NoDuplicates(ks: seq<string>) {
    forall i, j :: 0 <= i < j < |ks| ==> ks[i] != ks[j]
  }

  predicate AllPositive(e: Entries) {
    forall i :: 0 <= i < |e| ==> e[i].1 >= 1
  }

  /** A counter as the source builds one: no key twice, every count at least 1. */
  predicate WellFormed(e: Entries) {
    NoDuplicates(Keys(e)) && AllPositive(e)
  }

  /** `acc[k] = (acc[k] || 0) + 1`: the entry for `k` grows by one where it stands, or a new
      entry `(k, 1)` is appended; no other count changes. */
  function Bump(e: Entries, k: string): (r: Entries)
    ensures Keys(r) == if k in Keys(e) then Keys(e) else Keys(e) + [k]
    ensures Lookup(r, k) == Lookup(e, k) + 1
    ensures forall k' :: k' != k ==> Lookup(r, k') == Lookup(e, k')
    ensures Total(r) == Total(e) + 1
  {
    if e == [] then [(k, 1)]
    else if e[0].0 == k then
      var r := [(k, e[0].1 + 1)] + e[1..];
      assert r[1..] == e[1..];
      r
    else
      var rest := Bump(e[1..], k);
      var r := [e[0]] + rest;
      assert r[1..] == rest;
      assert Keys(e) == [e[0].0] + Keys(e[1..]);
      r
  }

  /** Bumping keeps the keys unique and the counts positive. */
  lemma BumpWellFormed(e: Entries, k: string)
    requires WellFormed(e)
    ensures WellFormed(Bump(e, k))
  {
    BumpPositive(e, k);
    if k !in Keys(e) {
      AppendFresh(Keys(e), k);
    }
  }

  lemma {:induction false} BumpPositive(e: Entries, k: string)
    requires AllPositive(e)
    ensures AllPositive(Bump(e, k))
    decreases |e|
  {
    if e != [] && e[0].0 != k {
      BumpPositive(e[1..], k);
      assert Bump(e, k) == [e[0]] + Bump(e[1..], k);
    }
  }

  lemma AppendFresh(ks: seq<string>, k: string)
    requires NoDuplicates(ks) && k !in ks
    ensures NoDuplicates(ks + [k])
  {
  }

  /** The counter the source's fold leaves after counting the keys `xs` from left to right. */
  function Tally(xs: seq<string>): Entries
  {
    if xs == [] then [] else Bump(Tally(xs[..|xs| - 1]), xs[|xs| - 1])
  }

  /** One more step of the fold bumps the next key. */
  lemma TallyStep(xs: seq<string>, i: nat)
    requires i < |xs|
    ensures Tally(xs[..i + 1]) == Bump(Tally(xs[..i]), xs[i])
  {
    assert xs[..i + 1][..i] == xs[..i];
  }

  /** The counter holds, for every key, the number of its occurrences among the keys counted. */
  lemma {:induction false} TallyCounts(xs: seq<string>)
    ensures forall k :: Lookup(Tally(xs), k) == multiset(xs)[k]
    decreases |xs|
  {
    if xs != [] {
      var n := |xs| - 1;
      TallyCounts(xs[..n]);
      assert xs == xs[..n] + [xs[n]];
      assert multiset(xs) == multiset(xs[..n]) + multiset{xs[n]};
    }
  }

  /** The counter lists exactly the keys that occur. */
  lemma {:induction false} TallyKeys(xs: seq<string>)
    ensures forall k :: k in Keys(Tally(xs)) <==> k in xs
    decreases |xs|
  {
    if xs != [] {
      var n := |xs| - 1;
      TallyKeys(xs[..n]);
      assert xs == xs[..n] + [xs[n]];
      forall k ensures k in Keys(Tally(xs)) <==> k in xs {
        assert k in xs <==> k in xs[..n] || k == xs[n];
      }
    }
  }

  /** No key is listed twice and every key is counted at least once. */
  lemma {:induction false} TallyWellFormed(xs: seq<string>)
    ensures WellFormed(Tally(xs))
    decreases |xs|
  {
    if xs != [] {
      TallyWellFormed(xs[..|xs| - 1]);
      BumpWellFormed(Tally(xs[..|xs| - 1]), xs[|xs| - 1]);
    }
  }

  /** The counts sum to the number of keys counted. */
  lemma {:induction false} TallyTotal(xs: seq<string>)
    ensures Total(Tally(xs)) == |xs|
    decreases |xs|
  {
    if xs != [] {
      TallyTotal(xs[..|xs| - 1]);
    }
  }

  /** All four facts about the fold together. */
  lemma TallySpec(xs: seq<string>)
    ensures forall k :: Lookup(Tally(xs), k) == multiset(xs)[k]
    ensures forall k :: k in Keys(Tally(xs)) <==> k in xs
    ensures WellFormed(Tally(xs))
    ensures Total(Tally(xs)) == |xs|
  {
    TallyCounts(xs);
    TallyKeys(xs);
    TallyWellFormed(xs);
    TallyTotal(xs);
  }

  /** One entry per distinct key: the number of entries is the number of distinct keys. */
  lemma TallySize(xs: seq<string>)
    ensures |Tally(xs)| == |set k | k in xs|
  {
    TallySpec(xs);
    var ks := Keys(Tally(xs));
    DistinctCardinality(ks);
    assert (set k | k in ks) == (set k | k in xs);
  }

  /** Nothing is counted exactly when there was nothing to count. */
  lemma TallyEmpty(xs: seq<string>)
    ensures Tally(xs) == [] <==> xs == []
  {
    TallySpec(xs);
  }

  lemma {:induction false} DistinctCardinality(ks: seq<string>)
    requires NoDuplicates(ks)
    ensures |set k | k in ks| == |ks|
    decreases |ks|
  {
    if ks != [] {
      var n := |ks| - 1;
      DistinctCardinality(ks[..n]);
      assert ks == ks[..n] + [ks[n]];
      assert (set k | k in ks) == (set k | k in ks[..n]) + {ks[n]};
      assert ks[n] !in ks[..n];
    }
  }

  /** Every pair of a counter with unique keys is what `Lookup` finds for its key. */
  lemma {:induction false} LookupMember(e: Entries, p: (string, nat))
    requires NoDuplicates(Keys(e)) && p in e
    ensures Lookup(e, p.0) == p.1
    decreases |e|
  {
    if e[0] != p {
      assert p in e[1..];
      DuplicatesTail(e);
      LookupMember(e[1..], p);
      var i :| 0 <= i < |e[1..]| && e[1..][i] == p;
      assert Keys(e)[i + 1] == p.0;
    }
  }

  /** A key of the counter is paired with what `Lookup` finds for it. */
  lemma {:induction false} MemberOfKey(e: Entries, k: string)
    requires k in Keys(e)
    ensures (k, Lookup(e, k)) in e
    decreases |e|
  {
    if e[0].0 != k {
      assert k in Keys(e[1..]) by {
        var i :| 0 <= i < |e| && Keys(e)[i] == k;
        assert Keys(e[1..])[i - 1] == k;
      }
      MemberOfKey(e[1..], k);
    }
  }

  lemma DuplicatesTail(e: Entries)
    requires e != [] && NoDuplicates(Keys(e))
    ensures NoDuplicates(Keys(e[1..]))
  {
    forall i, j | 0 <= i < j < |e[1..]| ensures Keys(e[1..])[i] != Keys(e[1..])[j] {
      assert Keys(e)[i + 1] != Keys(e)[j + 1];
    }
  }

  /** A key that is not in the counter is counted 0. */
  lemma {:induction false} LookupAbsent(e: Entries, k: string)
    requires k !in Keys(e)
    ensures Lookup(e, k) == 0
    decreases |e|
  {
    if e != [] {
      assert Keys(e)[0] == e[0].0;
      LookupAbsent(e[1..], k);
    }
  }

  /** In a counter with unique keys no pair occurs twice. */
  lemma {:induction false} EntriesMultiplicity(e: Entries, p: (string, nat))
    requires NoDuplicates(Keys(e))
    ensures multiset(e)[p] <= 1
    decreases |e|
  {
    if e != [] {
      assert e == [e[0]] + e[1..];
      DuplicatesTail(e);
      EntriesMultiplicity(e[1..], p);
      if p == e[0] {
        forall i | 0 <= i < |e[1..]| ensures e[1..][i] != p {
          assert Keys(e)[i + 1] != Keys(e)[0];
        }
      }
    }
  }
}
