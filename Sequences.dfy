/** Sequence operations that stand in for the dataframe calls of the dashboard:
    boolean-mask selection (`df[mask]`), `groupby(key)[col].sum()` and
    `sort_values(ascending=False)`.  Everything is generic in the
    element or key type so that the same definitions serve the town ranking and
    the value counts. */
module Sequences {

  // ---------------------------------------------------------------------------
  // Order-preserving subsequences and boolean-mask filtering
  // ---------------------------------------------------------------------------

  /** `r` can be obtained from `s` by deleting elements, keeping the order of the rest. */
  predicate IsSubsequence<T(==,!new)>(r: seq<T>, s: seq<T>)
    decreases |s|
  {
    if r == [] then true
    else if s == [] then false
    else (r[|r| - 1] == s[|s| - 1] && IsSubsequence(r[..|r| - 1], s[..|s| - 1]))
         || IsSubsequence(r, s[..|s| - 1])
  }

  /** `df[mask]`: the elements of `s` that satisfy `p`, in their original order. */
  function Filter<T(==,!new)>(s: seq<T>, p: T -> bool): (r: seq<T>)
    ensures |r| <= |s|
    ensures forall i :: 0 <= i < |r| ==> p(r[i])
    ensures forall x :: multiset(r)[x] == if p(x) then multiset(s)[x] else 0
    ensures IsSubsequence(r, s)
  {
    if s == [] then []
    else
      var init, last := s[..|s| - 1], s[|s| - 1];
      assert s == init + [last];
      var kept := Filter(init, p);
      if p(last) then
        assert (kept + [last])[..|kept|] == kept;
        kept + [last]
      else kept
  }

  /** Applying the same mask twice selects nothing new. */
  lemma {:induction false} FilterIdempotent<T(!new)>(s: seq<T>, p: T -> bool)
    ensures Filter(Filter(s, p), p) == Filter(s, p)
  {
    if s != [] {
      var init, last := s[..|s| - 1], s[|s| - 1];
      FilterIdempotent(init, p);
      var kept := Filter(init, p);
      if p(last) {
        assert (kept + [last])[..|kept|] == kept;
      }
    }
  }

  /** A mask that every element passes leaves the sequence unchanged. */
  lemma {:induction false} FilterAllPass<T(!new)>(s: seq<T>, p: T -> bool)
    requires forall i :: 0 <= i < |s| ==> p(s[i])
    ensures Filter(s, p) == s
  {
    if s != [] {
      FilterAllPass(s[..|s| - 1], p);
      assert s == s[..|s| - 1] + [s[|s| - 1]];
    }
  }

  /** Tests that agree on every element of `s` select the same subsequence. */
  lemma {:induction false} FilterCongruent<T(!new)>(s: seq<T>, p: T -> bool, q: T -> bool)
    requires forall i :: 0 <= i < |s| ==> p(s[i]) == q(s[i])
    ensures Filter(s, p) == Filter(s, q)
  {
    if s != [] {
      FilterCongruent(s[..|s| - 1], p, q);
    }
  }

  /** An order that holds between every earlier and later element of `s`
      holds in every subsequence of `s`. */
  lemma {:induction false} SubsequenceKeepsOrder<T(!new)>(r: seq<T>, s: seq<T>, lt: (T, T) -> bool)
    requires IsSubsequence(r, s)
    requires forall i, j :: 0 <= i < j < |s| ==> lt(s[i], s[j])
    ensures forall i, j :: 0 <= i < j < |r| ==> lt(r[i], r[j])
    decreases |s|
  {
    if r != [] {
      var s' := s[..|s| - 1];
      if r[|r| - 1] == s[|s| - 1] && IsSubsequence(r[..|r| - 1], s') {
        var r' := r[..|r| - 1];
        SubsequenceKeepsOrder(r', s', lt);
        forall i | 0 <= i < |r'| ensures lt(r[i], r[|r| - 1]) {
          SubsequenceMember(r', s', i);
          var k :| 0 <= k < |s'| && s'[k] == r'[i];
          assert s[k] == r[i];
        }
      } else {
        SubsequenceKeepsOrder(r, s', lt);
      }
    }
  }

  /** Every element of a subsequence occurs in the original. */
  lemma {:induction false} SubsequenceMember<T(!new)>(r: seq<T>, s: seq<T>, i: nat)
    requires IsSubsequence(r, s) && i < |r|
    ensures exists k :: 0 <= k < |s| && s[k] == r[i]
    decreases |s|
  {
    var s' := s[..|s| - 1];
    if r[|r| - 1] == s[|s| - 1] && IsSubsequence(r[..|r| - 1], s') {
      if i < |r| - 1 {
        SubsequenceMember(r[..|r| - 1], s', i);
        var k :| 0 <= k < |s'| && s'[k] == r[i];
        assert s[k] == r[i];
      } else {
        assert s[|s| - 1] == r[i];
      }
    } else {
      SubsequenceMember(r, s', i);
      var k :| 0 <= k < |s'| && s'[k] == r[i];
      assert s[k] == r[i];
    }
  }

  // ---------------------------------------------------------------------------
  // Keyed totals: groupby(key)[value].sum()
  // ---------------------------------------------------------------------------

  /** The keys occurring in a sequence of (key, value) pairs. */
  function KeySet<K>(s: seq<(K, int)>): set<K>
  {
    if s == [] then {} else {s[0].0} + KeySet(s[1..])
  }

  /** No key occurs twice. */
  predicate DistinctKeys<K(==,!new)>(s: seq<(K, int)>)
  {
    forall i, j :: 0 <= i < j < |s| ==> s[i].0 != s[j].0
  }

  /** The sum of the values of all pairs. */
  function SumValues<K>(s: seq<(K, int)>): int
  {
    if s == [] then 0 else s[0].1 + SumValues(s[1..])
  }

  /** The sum of the values of the pairs whose key is `k`. */
  function SumFor<K(==,!new)>(s: seq<(K, int)>, k: K): int
  {
    if s == [] then 0 else (if s[0].0 == k then s[0].1 else 0) + SumFor(s[1..], k)
  }

  lemma {:induction false} KeyOfIndex<K>(s: seq<(K, int)>, i: nat)
    requires i < |s|
    ensures s[i].0 in KeySet(s)
  {
    if i > 0 { KeyOfIndex(s[1..], i - 1); }
  }

  lemma {:induction false} IndexOfKey<K>(s: seq<(K, int)>, k: K) returns (i: nat)
    requires k in KeySet(s)
    ensures i < |s| && s[i].0 == k
  {
    i := 0;
    if s[0].0 != k {
      i := IndexOfKey(s[1..], k);
      i := i + 1;
    }
  }

  /** With distinct keys, a pair's value is the total recorded for its key. */
  lemma {:induction false} EntryIsSumFor<K(!new)>(s: seq<(K, int)>, i: nat)
    requires DistinctKeys(s) && i < |s|
    ensures s[i].1 == SumFor(s, s[i].0)
  {
    if i == 0 {
      SumForAbsent(s[1..], s[0].0);
    } else {
      EntryIsSumFor(s[1..], i - 1);
    }
  }

  lemma {:induction false} SumForAbsent<K(!new)>(s: seq<(K, int)>, k: K)
    requires forall i :: 0 <= i < |s| ==> s[i].0 != k
    ensures SumFor(s, k) == 0
  {
    if s != [] { SumForAbsent(s[1..], k); }
  }

  lemma {:induction false} NotInKeySet<K(!new)>(t: seq<(K, int)>, k: K)
    requires forall i :: 0 <= i < |t| ==> t[i].0 != k
    ensures k !in KeySet(t)
  {
    if t != [] { NotInKeySet(t[1..], k); }
  }

  lemma HeadKeyNotInTail<K(!new)>(s: seq<(K, int)>)
    requires s != [] && DistinctKeys(s)
    ensures s[0].0 !in KeySet(s[1..])
  {
    assert forall i :: 0 <= i < |s[1..]| ==> s[1..][i] == s[i + 1];
    NotInKeySet(s[1..], s[0].0);
  }

  lemma DistinctCons<K(!new)>(a: (K, int), t: seq<(K, int)>)
    requires DistinctKeys(t) && a.0 !in KeySet(t)
    ensures DistinctKeys([a] + t)
  {
    var r := [a] + t;
    forall j | 1 <= j < |r| ensures r[0].0 != r[j].0 {
      KeyOfIndex(t, j - 1);
    }
  }

  /** With distinct keys, the length is the number of keys. */
  lemma {:induction false} DistinctKeysCount<K(!new)>(s: seq<(K, int)>)
    requires DistinctKeys(s)
    ensures |KeySet(s)| == |s|
  {
    if s != [] {
      DistinctKeysCount(s[1..]);
      HeadKeyNotInTail(s);
    }
  }

  /** Adds one pair to a table of totals: the matching key's total grows, or a
      new key is appended. */
  function Accumulate<K(==,!new)>(acc: seq<(K, int)>, e: (K, int)): (r: seq<(K, int)>)
    ensures KeySet(r) == KeySet(acc) + {e.0}
    ensures DistinctKeys(acc) ==> DistinctKeys(r)
    ensures forall k :: SumFor(r, k) == SumFor(acc, k) + (if k == e.0 then e.1 else 0)
    ensures SumValues(r) == SumValues(acc) + e.1
  {
    if acc == [] then
      assert [e][1..] == [];
      [e]
    else if acc[0].0 == e.0 then
      var r := [(e.0, acc[0].1 + e.1)] + acc[1..];
      assert r[1..] == acc[1..];
      r
    else
      var rest := Accumulate(acc[1..], e);
      var r := [acc[0]] + rest;
      assert r[1..] == rest;
      assert DistinctKeys(acc) ==> DistinctKeys(r) by {
        if DistinctKeys(acc) {
          HeadKeyNotInTail(acc);
          DistinctCons(acc[0], rest);
        }
      }
      r
  }

  /** `groupby(key)[value].sum()`: one pair per distinct key, holding the sum
      of that key's values. */
  function Totals<K(==,!new)>(s: seq<(K, int)>): (r: seq<(K, int)>)
    ensures DistinctKeys(r)
    ensures KeySet(r) == KeySet(s)
    ensures forall k :: SumFor(r, k) == SumFor(s, k)
    ensures SumValues(r) == SumValues(s)
  {
    if s == [] then [] else Accumulate(Totals(s[1..]), s[0])
  }

  // ---------------------------------------------------------------------------
  // Sorting by value, descending: sort_values(ascending=False)
  // ---------------------------------------------------------------------------

  /** Values never increase from left to right. */
  predicate Descending<K>(s: seq<(K, int)>)
  {
    forall i, j :: 0 <= i < j < |s| ==> s[i].1 >= s[j].1
  }

  lemma HeadDominates<K>(s: seq<(K, int)>, x: (K, int))
    requires s != [] && Descending(s) && x in multiset(s[1..])
    ensures x.1 <= s[0].1
  {
    assert x in s[1..];
    var k :| 0 <= k < |s[1..]| && s[1..][k] == x;
    assert s[k + 1] == x;
  }

  /** Putting the head of a descending list before the insertion of a smaller
      pair into its tail keeps the list descending. */
  lemma InsertStepDescending<K>(e: (K, int), s: seq<(K, int)>, rest: seq<(K, int)>)
    requires s != [] && Descending(s) && e.1 < s[0].1
    requires Descending(rest) && multiset(rest) == multiset(s[1..]) + multiset{e}
    ensures Descending([s[0]] + rest)
  {
    var r := [s[0]] + rest;
    forall j | 1 <= j < |r| ensures r[0].1 >= r[j].1 {
      assert r[j] in multiset(rest);
      if r[j] != e {
        HeadDominates(s, r[j]);
      }
    }
  }

  /** Puts `e` in front of the first pair whose value does not exceed its own. */
  function Insert<K(==,!new)>(e: (K, int), s: seq<(K, int)>): (r: seq<(K, int)>)
    ensures |r| == |s| + 1
    ensures multiset(r) == multiset(s) + multiset{e}
    ensures Descending(s) ==> Descending(r)
  {
    if s == [] || s[0].1 <= e.1 then
      [e] + s
    else
      var rest := Insert(e, s[1..]);
      assert s == [s[0]] + s[1..];
      assert Descending(s) ==> Descending([s[0]] + rest) by {
        if Descending(s) {
          InsertStepDescending(e, s, rest);
        }
      }
      [s[0]] + rest
  }

  /** Inserting keeps every key's total and adds `e`'s key and value. */
  lemma {:induction false} InsertKeepsTotals<K(!new)>(e: (K, int), s: seq<(K, int)>)
    ensures KeySet(Insert(e, s)) == KeySet(s) + {e.0}
    ensures DistinctKeys(s) && e.0 !in KeySet(s) ==> DistinctKeys(Insert(e, s))
    ensures forall k :: SumFor(Insert(e, s), k) == SumFor(s, k) + (if k == e.0 then e.1 else 0)
    ensures SumValues(Insert(e, s)) == SumValues(s) + e.1
  {
    var r := Insert(e, s);
    if s == [] || s[0].1 <= e.1 {
      assert r[1..] == s;
      if DistinctKeys(s) && e.0 !in KeySet(s) {
        DistinctCons(e, s);
      }
    } else {
      InsertKeepsTotals(e, s[1..]);
      assert r[1..] == Insert(e, s[1..]);
      if DistinctKeys(s) && e.0 !in KeySet(s) {
        HeadKeyNotInTail(s);
        DistinctCons(s[0], Insert(e, s[1..]));
      }
    }
  }

  /** Sorts by value, highest first.  Equal values may come in any order: the
      relative order of ties is not part of the contract. */
  function SortDescending<K(==,!new)>(s: seq<(K, int)>): (r: seq<(K, int)>)
    ensures |r| == |s|
    ensures multiset(r) == multiset(s)
    ensures Descending(r)
  {
    if s == [] then []
    else
      assert s == [s[0]] + s[1..];
      Insert(s[0], SortDescending(s[1..]))
  }

  /** Sorting keeps the keys, their distinctness and every key's total. */
  lemma SortKeepsTotals<K(!new)>(s: seq<(K, int)>)
    ensures KeySet(SortDescending(s)) == KeySet(s)
    ensures DistinctKeys(s) ==> DistinctKeys(SortDescending(s))
    ensures forall k :: SumFor(SortDescending(s), k) == SumFor(s, k)
    ensures SumValues(SortDescending(s)) == SumValues(s)
  {
    SortKeepsKeys(s);
    SortKeepsSums(s);
  }

  lemma {:induction false} SortKeepsKeys<K(!new)>(s: seq<(K, int)>)
    ensures KeySet(SortDescending(s)) == KeySet(s)
    ensures DistinctKeys(s) ==> DistinctKeys(SortDescending(s))
  {
    if s != [] {
      SortKeepsKeys(s[1..]);
      InsertKeepsTotals(s[0], SortDescending(s[1..]));
      if DistinctKeys(s) {
        HeadKeyNotInTail(s);
      }
    }
  }

  lemma {:induction false} SortKeepsSums<K(!new)>(s: seq<(K, int)>)
    ensures forall k :: SumFor(SortDescending(s), k) == SumFor(s, k)
    ensures SumValues(SortDescending(s)) == SumValues(s)
  {
    if s != [] {
      SortKeepsSums(s[1..]);
      InsertKeepsTotals(s[0], SortDescending(s[1..]));
    }
  }

  /** A prefix of a sequence of non-negative values sums to at most the whole. */
  lemma {:induction false} PrefixSumBounded<K>(s: seq<(K, int)>, m: nat)
    requires m <= |s|
    requires forall i :: 0 <= i < |s| ==> s[i].1 >= 0
    ensures SumValues(s[..m]) <= SumValues(s)
  {
    if m > 0 {
      PrefixSumBounded(s[1..], m - 1);
      assert s[..m][1..] == s[1..][..m - 1];
    } else {
      NonNegativeSum(s);
    }
  }

  lemma {:induction false} NonNegativeSum<K>(s: seq<(K, int)>)
    requires forall i :: 0 <= i < |s| ==> s[i].1 >= 0
    ensures SumValues(s) >= 0
  {
    if s != [] { NonNegativeSum(s[1..]); }
  }
}
