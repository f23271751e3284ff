/**
 * Ordering of the courses by mean rank, as pandas' Series.sort_values() does
 * it by default: ascending, with a missing mean (NaN) placed last. The order
 * among equal means is not fixed by the source, so only the sorted-permutation
 * property is promised; the insertion sort here is one order that meets it.
 */
module MeanOrder {
  import opened Options

  /** Ascending order on means with None after every number; two Nones are tied. */
  predicate MeanLe(a: Option<real>, b: Option<real>) {
    match a
    case None => b.None?
    case Some(x) => b.None? || x <= b.value
  }

  /**
   * The order is total, reflexive and transitive, two means each no greater
   * than the other are equal, and a missing mean (NaN) comes after every mean.
   */
  lemma MeanLeIsTotalOrder()
    ensures forall a: Option<real> :: MeanLe(a, a)
    ensures forall a: Option<real>, b: Option<real> :: MeanLe(a, b) || MeanLe(b, a)
    ensures forall a: Option<real>, b: Option<real>, c: Option<real> :: MeanLe(a, b) && MeanLe(b, c) ==> MeanLe(a, c)
    ensures forall a: Option<real>, b: Option<real> :: MeanLe(a, b) && MeanLe(b, a) ==> a == b
    ensures forall a: Option<real> :: MeanLe(a, None)
    ensures forall x: real :: !MeanLe(None, Some(x))
  {
  }

  /** Every course id of `ids` has a mean in `means`. */
  predicate Keyed<K(==)>(ids: seq<K>, means: map<K, Option<real>>) {
    forall k :: 0 <= k < |ids| ==> ids[k] in means
  }

  /** The courses of `ids` are in non-decreasing order of mean, missing means last. */
  predicate SortedByMean<K(==)>(ids: seq<K>, means: map<K, Option<real>>)
    requires Keyed(ids, means)
  {
    forall i, j :: 0 <= i < j < |ids| ==> MeanLe(means[ids[i]], means[ids[j]])
  }

  /** A course with a mean no greater than any in a sorted order can go in front of it. */
  lemma ConsSorted<K>(h: K, rest: seq<K>, means: map<K, Option<real>>)
    requires h in means && Keyed(rest, means) && SortedByMean(rest, means)
    requires forall k :: 0 <= k < |rest| ==> MeanLe(means[h], means[rest[k]])
    ensures Keyed([h] + rest, means) && SortedByMean([h] + rest, means)
  {
    var r := [h] + rest;
    forall i, j | 0 <= i < j < |r| ensures MeanLe(means[r[i]], means[r[j]]) {
      assert r[j] == rest[j - 1];
      if 0 < i {
        assert r[i] == rest[i - 1];
      }
    }
  }

  /**
   * When `id` goes after the head of a sorted order, the head's mean is no
   * greater than that of any course of the rest with `id` inserted.
   */
  lemma HeadBeforeInsert<K>(id: K, sorted: seq<K>, rest: seq<K>, means: map<K, Option<real>>)
    requires id in means && Keyed(sorted, means) && SortedByMean(sorted, means) && sorted != []
    requires !MeanLe(means[id], means[sorted[0]])
    requires multiset(rest) == multiset(sorted[1..]) + multiset{id} && Keyed(rest, means)
    ensures forall k :: 0 <= k < |rest| ==> MeanLe(means[sorted[0]], means[rest[k]])
  {
    forall k | 0 <= k < |rest| ensures MeanLe(means[sorted[0]], means[rest[k]]) {
      assert rest[k] in multiset(rest);
      if rest[k] != id {
        assert rest[k] in multiset(sorted[1..]);
        var j :| 0 <= j < |sorted[1..]| && sorted[1..][j] == rest[k];
        assert sorted[j + 1] == rest[k];
      }
    }
  }

  /** One insertion step of the sort: `id` goes before the first course whose mean is no smaller. */
  function Insert<K(==)>(id: K, sorted: seq<K>, means: map<K, Option<real>>): (r: seq<K>)
    requires id in means && Keyed(sorted, means) && SortedByMean(sorted, means)
    ensures multiset(r) == multiset(sorted) + multiset{id}
    ensures Keyed(r, means) && SortedByMean(r, means)
  {
    if sorted == [] then [id]
    else if MeanLe(means[id], means[sorted[0]]) then
      ConsSorted(id, sorted, means);
      [id] + sorted
    else
      var rest := Insert(id, sorted[1..], means);
      assert sorted == [sorted[0]] + sorted[1..];
      HeadBeforeInsert(id, sorted, rest, means);
      ConsSorted(sorted[0], rest, means);
      [sorted[0]] + rest
  }

  /**
   * The order of the mean_ranks Series after sort_values(): a permutation of
   * the course ids in non-decreasing order of mean, missing means last.
   */
  function SortByMean<K(==)>(ids: seq<K>, means: map<K, Option<real>>): (r: seq<K>)
    requires Keyed(ids, means)
    ensures multiset(r) == multiset(ids)
    ensures Keyed(r, means) && SortedByMean(r, means)
  {
    if ids == [] then []
    else
      assert ids == [ids[0]] + ids[1..];
      Insert(ids[0], SortByMean(ids[1..], means), means)
  }

  /** `ids` without its element at index `k`. */
  function RemoveAt<K>(ids: seq<K>, k: nat): (r: seq<K>)
    requires k < |ids|
    ensures |r| == |ids| - 1
    ensures forall i :: 0 <= i < k ==> r[i] == ids[i]
    ensures forall i :: k <= i < |r| ==> r[i] == ids[i + 1]
    ensures multiset(r) == multiset(ids) - multiset{ids[k]}
  {
    assert ids == ids[..k] + [ids[k]] + ids[k + 1..];
    ids[..k] + ids[k + 1..]
  }

  /** Removing one course from a sorted order leaves it sorted. */
  lemma RemoveKeepsSorted<K>(ids: seq<K>, k: nat, means: map<K, Option<real>>)
    requires k < |ids| && Keyed(ids, means) && SortedByMean(ids, means)
    ensures Keyed(RemoveAt(ids, k), means) && SortedByMean(RemoveAt(ids, k), means)
  {
    var rest := RemoveAt(ids, k);
    forall i, j | 0 <= i < j < |rest| ensures MeanLe(means[rest[i]], means[rest[j]]) {
      assert rest[i] == ids[if i < k then i else i + 1];
      assert rest[j] == ids[if j < k then j else j + 1];
    }
  }

  /** In a sorted order, every course up to one whose mean ties with the first has that same mean. */
  lemma PrefixTies<K>(ids: seq<K>, k: nat, means: map<K, Option<real>>)
    requires k < |ids| && Keyed(ids, means) && SortedByMean(ids, means)
    requires MeanLe(means[ids[k]], means[ids[0]])
    ensures forall i :: 0 <= i <= k ==> means[ids[i]] == means[ids[0]]
  {
    forall i | 0 <= i <= k ensures means[ids[i]] == means[ids[0]] {
      if 0 < i {
        assert MeanLe(means[ids[0]], means[ids[i]]);
        if i < k { assert MeanLe(means[ids[i]], means[ids[k]]); }
      }
    }
  }

  /** Two sorted permutations of the same courses start with equal means. */
  lemma HeadsTie<K>(a: seq<K>, b: seq<K>, means: map<K, Option<real>>)
    requires Keyed(a, means) && SortedByMean(a, means)
    requires Keyed(b, means) && SortedByMean(b, means)
    requires multiset(a) == multiset(b) && b != []
    ensures a != [] && means[a[0]] == means[b[0]]
  {
    assert b[0] in multiset(a) && a[0] in multiset(b);
    var k :| 0 <= k < |a| && a[k] == b[0];
    var l :| 0 <= l < |b| && b[l] == a[0];
    if l > 0 { assert MeanLe(means[b[0]], means[b[l]]); }
    if k > 0 { assert MeanLe(means[a[0]], means[a[k]]); }
  }

  /**
   * The first course of `b` sits at some index `k` of `a`; removing it leaves a
   * sorted permutation of the rest of `b`, and every course of `a` up to `k`
   * ties with the first.
   */
  lemma MatchHead<K>(a: seq<K>, b: seq<K>, means: map<K, Option<real>>) returns (k: nat)
    requires Keyed(a, means) && SortedByMean(a, means)
    requires Keyed(b, means) && SortedByMean(b, means)
    requires multiset(a) == multiset(b) && b != []
    ensures k < |a| && a[k] == b[0]
    ensures multiset(RemoveAt(a, k)) == multiset(b[1..])
    ensures Keyed(RemoveAt(a, k), means) && SortedByMean(RemoveAt(a, k), means)
    ensures forall i :: 0 <= i <= k ==> means[a[i]] == means[a[0]]
  {
    HeadsTie(a, b, means);
    assert b[0] in multiset(a);
    k :| 0 <= k < |a| && a[k] == b[0];
    RemoveKeepsSorted(a, k, means);
    assert multiset(RemoveAt(a, k)) == multiset(b[1..]) by {
      assert b == [b[0]] + b[1..];
    }
    PrefixTies(a, k, means);
  }

  /**
   * If `b` starts with the `k`-th course of `a`, every course of `a` up to
   * index `k` ties with it, and the rest lists the same means as `b[1..]`,
   * then `a` and `b` list the same means.
   */
  lemma MeansAfterRemoval<K>(a: seq<K>, b: seq<K>, k: nat, means: map<K, Option<real>>)
    requires k < |a| == |b| && a[k] == b[0]
    requires Keyed(a, means) && Keyed(b, means)
    requires forall i :: 0 <= i <= k ==> means[a[i]] == means[a[0]]
    requires forall i :: 0 <= i < |a| - 1 ==> means[RemoveAt(a, k)[i]] == means[b[1..][i]]
    ensures forall i :: 0 <= i < |a| ==> means[a[i]] == means[b[i]]
  {
    var rest := RemoveAt(a, k);
    forall i | 0 <= i < |a| ensures means[a[i]] == means[b[i]] {
      if 0 < i {
        assert means[b[i]] == means[rest[i - 1]];
      }
    }
  }

  /**
   * Ties may come out in any order, but the Mean Rank column does not depend
   * on it: two sorted permutations of the same course ids list the same means.
   */
  lemma {:induction false} SortedMeansUnique<K>(a: seq<K>, b: seq<K>, means: map<K, Option<real>>)
    requires Keyed(a, means) && SortedByMean(a, means)
    requires Keyed(b, means) && SortedByMean(b, means)
    requires multiset(a) == multiset(b)
    ensures |a| == |b|
    ensures forall i :: 0 <= i < |a| ==> means[a[i]] == means[b[i]]
    decreases |b|
  {
    assert |a| == |b| by {
      assert |a| == |multiset(a)| == |multiset(b)| == |b|;
    }
    if b != [] {
      var k := MatchHead(a, b, means);
      SortedMeansUnique(RemoveAt(a, k), b[1..], means);
      MeansAfterRemoval(a, b, k, means);
    }
  }
}
