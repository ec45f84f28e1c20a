/** `list(set(xs))` for records whose `__eq__` and `__hash__` both look at one
    key: the result holds one record per key, in no promised order. */
module Dedup {

  /** The keys occurring in `xs`. */
  function Keys<T, K>(xs: seq<T>, key: T -> K): set<K> {
    set i | 0 <= i < |xs| :: key(xs[i])
  }

  /** No two records of `xs` share a key, so no two are `==`. */
  ghost predicate DistinctKeys<T, K>(xs: seq<T>, key: T -> K) {
    forall i, j :: 0 <= i < j < |xs| ==> key(xs[i]) != key(xs[j])
  }

  /** `r` is a possible value of `list(set(xs))`: one record per key of `xs`,
      each of them a record of `xs`. Which of several equal records survives,
      and the order, are left open, as in Python. */
  ghost predicate IsDedupOf<T, K>(r: seq<T>, xs: seq<T>, key: T -> K) {
    DistinctKeys(r, key)
    && Keys(r, key) == Keys(xs, key)
    && forall i :: 0 <= i < |r| ==> r[i] in xs
  }

  /** One result `list(set(xs))` can give: the first record of each key, in
      order of first appearance (a set keeps the element already present when
      an equal one is added). */
  function DedupFirst<T, K(==)>(xs: seq<T>, key: T -> K): (r: seq<T>)
    ensures IsDedupOf(r, xs, key)
    ensures |r| <= |xs|
    decreases |xs|
  {
    if |xs| == 0 then []
    else
      var init := xs[..|xs| - 1];
      var x := xs[|xs| - 1];
      var prev := DedupFirst(init, key);
      assert Keys(xs, key) == Keys(init, key) + {key(x)} by {
        assert forall i :: 0 <= i < |init| ==> xs[i] == init[i];
      }
      assert forall i :: 0 <= i < |prev| ==> prev[i] in xs by {
        assert forall y :: y in init ==> y in xs;
      }
      if key(x) in Keys(prev, key) then prev
      else
        var r := prev + [x];
        assert Keys(r, key) == Keys(prev, key) + {key(x)} by {
          assert forall i :: 0 <= i < |prev| ==> r[i] == prev[i];
          assert r[|prev|] == x;
        }
        r
  }

  /** Records whose keys are pairwise distinct are as many as their keys. */
  lemma {:induction false} DistinctKeysCount<T, K>(xs: seq<T>, key: T -> K)
    requires DistinctKeys(xs, key)
    ensures |Keys(xs, key)| == |xs|
    decreases |xs|
  {
    if |xs| > 0 {
      var init := xs[..|xs| - 1];
      var x := xs[|xs| - 1];
      assert DistinctKeys(init, key);
      DistinctKeysCount(init, key);
      assert Keys(xs, key) == Keys(init, key) + {key(x)};
      assert key(x) !in Keys(init, key);
    }
  }

  /** Every possible result of `list(set(xs))` has one record per distinct key,
      whichever records survive and in whatever order. */
  lemma DedupSize<T, K>(r: seq<T>, xs: seq<T>, key: T -> K)
    requires IsDedupOf(r, xs, key)
    ensures |r| == |Keys(xs, key)|
  {
    DistinctKeysCount(r, key);
  }

  /** Without repeated keys nothing is dropped. */
  lemma {:induction false} DedupFirstDistinct<T, K>(xs: seq<T>, key: T -> K)
    requires DistinctKeys(xs, key)
    ensures DedupFirst(xs, key) == xs
    decreases |xs|
  {
    if |xs| > 0 {
      var init := xs[..|xs| - 1];
      var x := xs[|xs| - 1];
      assert DistinctKeys(init, key);
      DedupFirstDistinct(init, key);
      assert key(x) !in Keys(init, key);
      assert init + [x] == xs;
    }
  }

  /** Deduplicating twice is deduplicating once. */
  lemma DedupFirstIdempotent<T, K>(xs: seq<T>, key: T -> K)
    ensures DedupFirst(DedupFirst(xs, key), key) == DedupFirst(xs, key)
  {
    DedupFirstDistinct(DedupFirst(xs, key), key);
  }

  /** Deduplicating a deduplicated list is again a valid `list(set(...))` of the
      original: the relation is idempotent whatever survivors were chosen. */
  lemma DedupOfDedup<T, K>(r: seq<T>, s: seq<T>, xs: seq<T>, key: T -> K)
    requires IsDedupOf(r, xs, key) && IsDedupOf(s, r, key)
    ensures IsDedupOf(s, xs, key)
  {
  }
}
