/**
 The count maps of the generator (Python's `Counter`, a dictionary from keys
 to counts), modelled as association lists. A key that is not yet present is
 appended at the end, so the list keeps the keys in the order they were first
 counted. This first-insertion order is the model's choice of a fixed key
 order; Python 2 iterates a `Counter` in hash order.
 */
module Counters {

  type Counter<K> = seq<(K, nat)>

  /** The keys of an association list (a counter or a CDF), in stored order. */
  function Keys<K, V>(c: seq<(K, V)>): (ks: seq<K>)
    ensures |ks| == |c| && forall i :: 0 <= i < |c| ==> ks[i] == c[i].0
  {
    seq(|c|, i requires 0 <= i < |c| => c[i].0)
  }

  predicate DistinctKeys<K(==)>(c: Counter<K>)
  {
    forall i, j :: 0 <= i < j < |c| ==> c[i].0 != c[j].0
  }

  predicate Positive<K>(c: Counter<K>)
  {
    forall i :: 0 <= i < |c| ==> c[i].1 > 0
  }

  /** The shape of every counter that counting produces: each key once, each count at least 1. */
  predicate Valid<K(==)>(c: Counter<K>)
  {
    DistinctKeys(c) && Positive(c)
  }

  /** `c[k]`: the count of `k`, 0 when `k` is absent (Counter's default). */
  function Get<K(==)>(c: Counter<K>, k: K): (r: nat)
  {
    if c == [] then 0 else (if c[0].0 == k then c[0].1 else 0) + Get(c[1..], k)
  }

  /** The sum of all counts, accumulated from the front as a running total. */
  function Total<K>(c: Counter<K>): (r: nat)
  {
    if c == [] then 0 else Total(c[..|c| - 1]) + c[|c| - 1].1
  }

  /** `c[k] += n`: adds to an existing key in place, appends a new key at the end. */
  function Add<K(==)>(c: Counter<K>, k: K, n: nat): (r: Counter<K>)
  {
    if c == [] then [(k, n)]
    else if c[0].0 == k then [(k, c[0].1 + n)] + c[1..]
    else [c[0]] + Add(c[1..], k, n)
  }

  /** `c.update(d)`: adds the counts of `d` to `c`, one entry of `d` at a time, in `d`'s order. */
  function Update<K(==)>(c: Counter<K>, d: Counter<K>): (r: Counter<K>)
    decreases |d|
  {
    if d == [] then c else Add(Update(c, d[..|d| - 1]), d[|d| - 1].0, d[|d| - 1].1)
  }

  lemma {:induction false} AddGet<K>(c: Counter<K>, k: K, n: nat, x: K)
    ensures Get(Add(c, k, n), x) == Get(c, x) + (if x == k then n else 0)
  {
    if c != [] && c[0].0 != k {
      AddGet(c[1..], k, n, x);
      assert Add(c, k, n)[1..] == Add(c[1..], k, n);
    } else if c != [] {
      assert Add(c, k, n)[1..] == c[1..];
    }
  }

  lemma {:induction false} AddKeys<K>(c: Counter<K>, k: K, n: nat)
    ensures Keys(Add(c, k, n)) == if k in Keys(c) then Keys(c) else Keys(c) + [k]
  {
    if c == [] {
    } else if c[0].0 == k {
      assert Keys(c)[0] == k;
    } else {
      AddKeys(c[1..], k, n);
      assert Keys(c) == [c[0].0] + Keys(c[1..]);
      assert Keys(Add(c, k, n)) == [c[0].0] + Keys(Add(c[1..], k, n));
    }
  }

  lemma {:induction false} AddPositive<K>(c: Counter<K>, k: K, n: nat)
    requires Positive(c) && n > 0
    ensures Positive(Add(c, k, n))
  {
    if c != [] && c[0].0 != k {
      AddPositive(c[1..], k, n);
      assert Add(c, k, n) == [c[0]] + Add(c[1..], k, n);
    }
  }

  /** Adding a positive count keeps a counter valid: no key appears twice, no count is 0. */
  lemma AddValid<K>(c: Counter<K>, k: K, n: nat)
    requires Valid(c) && n > 0
    ensures Valid(Add(c, k, n))
  {
    AddKeys(c, k, n);
    AddPositive(c, k, n);
    var r := Add(c, k, n);
    forall i, j | 0 <= i < j < |r| ensures r[i].0 != r[j].0 {
      assert r[i].0 == Keys(r)[i] && r[j].0 == Keys(r)[j];
      assert Keys(r)[i] == Keys(c)[i];
      if j < |c| {
        assert Keys(r)[j] == Keys(c)[j];
      } else {
        assert Keys(r)[j] == k;
      }
    }
  }

  lemma {:induction false} GetConcat<K>(a: Counter<K>, b: Counter<K>, x: K)
    ensures Get(a + b, x) == Get(a, x) + Get(b, x)
  {
    if a != [] {
      assert (a + b)[1..] == a[1..] + b;
      GetConcat(a[1..], b, x);
    } else {
      assert a + b == b;
    }
  }

  /** `Counter.update` adds counts key by key. */
  lemma {:induction false} UpdateGet<K>(c: Counter<K>, d: Counter<K>, x: K)
    ensures Get(Update(c, d), x) == Get(c, x) + Get(d, x)
  {
    if d != [] {
      var init, last := d[..|d| - 1], d[|d| - 1];
      UpdateGet(c, init, x);
      AddGet(Update(c, init), last.0, last.1, x);
      assert d == init + [last];
      GetConcat(init, [last], x);
    }
  }

  lemma {:induction false} UpdateValid<K>(c: Counter<K>, d: Counter<K>)
    requires Valid(c) && Positive(d)
    ensures Valid(Update(c, d))
  {
    if d != [] {
      UpdateValid(c, d[..|d| - 1]);
      AddValid(Update(c, d[..|d| - 1]), d[|d| - 1].0, d[|d| - 1].1);
    }
  }

  /** For a counter with positive counts, a key is present exactly when its count is positive. */
  lemma {:induction false} GetPositive<K>(c: Counter<K>, k: K)
    requires Positive(c)
    ensures Get(c, k) > 0 <==> k in Keys(c)
  {
    if c != [] {
      GetPositive(c[1..], k);
      assert Keys(c) == [c[0].0] + Keys(c[1..]);
    }
  }

  /** In a counter whose keys are distinct, the count of a stored key is its stored value. */
  lemma {:induction false} GetAt<K>(c: Counter<K>, i: nat)
    requires DistinctKeys(c) && i < |c|
    ensures Get(c, c[i].0) == c[i].1
  {
    GetAbsentTail(c, i);
    if i > 0 {
      GetAt(c[1..], i - 1);
    }
  }

  lemma {:induction false} GetAbsentTail<K>(c: Counter<K>, i: nat)
    requires DistinctKeys(c) && i < |c|
    ensures Get(c[i + 1..], c[i].0) == 0
  {
    GetAbsent(c[i + 1..], c[i].0);
  }

  lemma {:induction false} GetAbsent<K>(c: Counter<K>, k: K)
    requires k !in Keys(c)
    ensures Get(c, k) == 0
  {
    if c != [] {
      assert Keys(c) == [c[0].0] + Keys(c[1..]);
      GetAbsent(c[1..], k);
    }
  }

  /** The running total over the first `i` entries grows by entry `i`'s count. */
  lemma PrefixStep<K>(c: Counter<K>, i: nat)
    requires i < |c|
    ensures Total(c[..i + 1]) == Total(c[..i]) + c[i].1
  {
    assert c[..i + 1][..i] == c[..i];
  }

  /** With positive counts the running totals strictly increase. */
  lemma {:induction false} PrefixIncreasing<K>(c: Counter<K>, i: nat, j: nat)
    requires Positive(c) && i < j <= |c|
    ensures Total(c[..i]) < Total(c[..j])
  {
    PrefixStep(c, j - 1);
    if i < j - 1 {
      PrefixIncreasing(c, i, j - 1);
    }
  }

  /** The running totals never decrease and never pass the total. */
  lemma {:induction false} PrefixMonotone<K>(c: Counter<K>, i: nat, j: nat)
    requires i <= j <= |c|
    ensures Total(c[..i]) <= Total(c[..j])
  {
    if i < j {
      PrefixStep(c, j - 1);
      PrefixMonotone(c, i, j - 1);
    }
  }
}
