/**
 Cumulative distributions built from counters (`cdfs_from_counts`) and
 sampling from them given a uniform draw (`sample`). A CDF is a list of
 (key, bound) pairs; the bound of entry `i` is the share of the total count
 carried by entries `0..i`. Real numbers are exact here, so the last bound of
 a CDF built from a non-zero total is exactly 1.
 */
module Distributions {
  import opened Base
  import opened Counters

  type Cdf<K> = seq<(K, real)>

  /** A counter can be normalised unless it is non-empty and sums to 0 (a division by zero). */
  predicate Normalisable<S>(c: Counter<S>)
  {
    c == [] || Total(c) > 0
  }

  /** `part / float(total)`: the share of `total` that `part` makes up, computed exactly. */
  function Share(part: nat, total: nat): (r: real)
    requires total > 0
  {
    part as real / total as real
  }

  lemma ShareMonotone(a: nat, b: nat, t: nat)
    requires a <= b && t > 0
    ensures Share(a, t) <= Share(b, t)
  {
    assert Share(b, t) - Share(a, t) == (b - a) as real / t as real;
  }

  lemma ShareStrict(a: nat, b: nat, t: nat)
    requires a < b && t > 0
    ensures Share(a, t) < Share(b, t)
  {
    assert Share(b, t) - Share(a, t) == (b - a) as real / t as real;
  }

  lemma ShareZero(t: nat)
    requires t > 0
    ensures Share(0, t) == 0.0
  {
  }

  lemma ShareDifference(a: nat, b: nat, t: nat)
    requires a <= b && t > 0
    ensures Share(b, t) - Share(a, t) == Share(b - a, t)
  {
  }

  /**
   The normalised CDF of one counter: entry `i` has the counter's key `i`
   and the running total up to and including entry `i`, divided by the total.
   */
  function CdfOf<S>(c: Counter<S>): (cdf: Cdf<S>)
    requires Normalisable(c)
    ensures Keys(cdf) == Keys(c)
  {
    seq(|c|, i requires 0 <= i < |c| => (c[i].0, Share(Total(c[..i + 1]), Total(c))))
  }

  /** Entry `i` of the CDF: its key and its running total's share of the total. */
  lemma CdfOfAt<S>(c: Counter<S>, i: nat)
    requires Normalisable(c) && i < |c|
    ensures CdfOf(c)[i] == (c[i].0, Share(Total(c[..i + 1]), Total(c)))
  {
  }

  /** The bounds of a normalised CDF never decrease, and lie in [0, 1]. */
  lemma CdfOfMonotone<S>(c: Counter<S>, i: nat, j: nat)
    requires Normalisable(c) && i <= j < |c|
    ensures 0.0 <= CdfOf(c)[i].1 <= CdfOf(c)[j].1 <= 1.0
  {
    var a, b, t := Total(c[..i + 1]), Total(c[..j + 1]), Total(c);
    assert CdfOf(c)[i].1 == Share(a, t) by { CdfOfAt(c, i); }
    assert CdfOf(c)[j].1 == Share(b, t) by { CdfOfAt(c, j); }
    assert a <= b <= t by {
      PrefixMonotone(c, i + 1, j + 1);
      PrefixMonotone(c, j + 1, |c|);
      assert c[..|c|] == c;
    }
    assert 0.0 <= Share(a, t) by {
      ShareMonotone(0, a, t);
      ShareZero(t);
    }
    assert Share(a, t) <= Share(b, t) by { ShareMonotone(a, b, t); }
    assert Share(b, t) <= 1.0 by {
      ShareMonotone(b, t, t);
      ShareWhole(t);
    }
  }

  /** With positive counts the bounds strictly increase and each is above 0. */
  lemma CdfOfIncreasing<S>(c: Counter<S>, i: nat, j: nat)
    requires Positive(c) && i < j < |c|
    ensures 0.0 < CdfOf(c)[i].1 < CdfOf(c)[j].1
  {
    var a, b, t := Total(c[..i + 1]), Total(c[..j + 1]), Total(c);
    assert 0 < a < b <= t by {
      PrefixIncreasing(c, 0, i + 1);
      PrefixIncreasing(c, i + 1, j + 1);
      PrefixMonotone(c, j + 1, |c|);
      assert c[..0] == [] && c[..|c|] == c;
    }
    assert CdfOf(c)[i].1 == Share(a, t) && CdfOf(c)[j].1 == Share(b, t) by {
      CdfOfAt(c, i);
      CdfOfAt(c, j);
    }
    ShareZero(t);
    ShareStrict(0, a, t);
    ShareStrict(a, b, t);
  }

  /** The last bound of a non-empty normalised CDF is exactly 1: it is `tot / tot`. */
  lemma CdfOfLast<S>(c: Counter<S>)
    requires Normalisable(c) && c != []
    ensures CdfOf(c)[|c| - 1].1 == 1.0
  {
    assert c[..|c|] == c;
    assert CdfOf(c)[|c| - 1].1 == Share(Total(c), Total(c));
    ShareWhole(Total(c));
  }

  lemma ShareWhole(t: nat)
    requires t > 0
    ensures Share(t, t) == 1.0
  {
  }

  /** The step of the CDF at entry `i` is that entry's share of the total count. */
  lemma CdfOfMass<S>(c: Counter<S>, i: nat)
    requires Normalisable(c) && 0 < i < |c|
    ensures CdfOf(c)[i].1 - CdfOf(c)[i - 1].1 == Share(c[i].1, Total(c))
  {
    var a, b, t := Total(c[..i]), Total(c[..i + 1]), Total(c);
    assert CdfOf(c)[i].1 == Share(b, t) by { CdfOfAt(c, i); }
    assert CdfOf(c)[i - 1].1 == Share(a, t) by { CdfOfAt(c, i - 1); }
    assert b - a == c[i].1 by { PrefixStep(c, i); }
    ShareDifference(a, b, t);
  }

  /** Lines 84-91 for one key: the running totals of one counter, normalised by the last. */
  method CdfFromCounter<S>(c: Counter<S>) returns (r: Result<Cdf<S>>)
    ensures r.Err? <==> !Normalisable(c)
    ensures r.Err? ==> r.error == ZeroDivision
    ensures r.Ok? ==> r.value == CdfOf(c)
  {
    var tot: nat := 0;
    var cdf: seq<(S, nat)> := [];
    var j := 0;
    while j < |c|
      invariant 0 <= j <= |c| && |cdf| == j && tot == Total(c[..j])
      invariant forall i :: 0 <= i < j ==> cdf[i] == (c[i].0, Total(c[..i + 1]))
    {
      PrefixStep(c, j);
      tot := tot + c[j].1;
      cdf := cdf + [(c[j].0, tot)];
      j := j + 1;
    }
    assert c[..|c|] == c;
    if cdf != [] && tot == 0 {
      return Err(ZeroDivision);
    }
    var normalised := seq(|cdf|, i requires 0 <= i < |cdf| => (cdf[i].0, Share(cdf[i].1, tot)));
    assert normalised == CdfOf(c);
    return Ok(normalised);
  }

  /**
   `cdfs_from_counts`: one CDF per key of `counts`. A key whose counter is
   empty gets the empty CDF; a non-empty counter that sums to 0 makes the
   normalisation divide by zero.
   */
  method CdfsFromCounts<K, S>(counts: map<K, Counter<S>>) returns (r: Result<map<K, Cdf<S>>>)
    ensures r.Err? <==> exists k :: k in counts && !Normalisable(counts[k])
    ensures r.Err? ==> r.error == ZeroDivision
    ensures r.Ok? ==> r.value.Keys == counts.Keys
    ensures r.Ok? ==> forall k :: k in counts ==> r.value[k] == CdfOf(counts[k])
  {
    var cdfs: map<K, Cdf<S>> := map[];
    var todo := counts.Keys;
    while todo != {}
      invariant todo <= counts.Keys
      invariant cdfs.Keys == counts.Keys - todo
      invariant forall k :: k in cdfs ==> Normalisable(counts[k]) && cdfs[k] == CdfOf(counts[k])
      decreases todo
    {
      var key :| key in todo;
      var normalised := CdfFromCounter(counts[key]);
      if normalised.Err? {
        return Err(normalised.error);
      }
      cdfs := cdfs[key := normalised.value];
      todo := todo - {key};
    }
    return Ok(cdfs);
  }

  /** The index of the first entry whose bound is strictly above `x`; `|cdf|` when there is none. */
  function FirstAbove<K>(cdf: Cdf<K>, x: real): (i: nat)
    ensures i <= |cdf|
    ensures forall j :: 0 <= j < i ==> cdf[j].1 <= x
    ensures i < |cdf| ==> cdf[i].1 > x
  {
    if cdf == [] then 0 else if cdf[0].1 > x then 0 else 1 + FirstAbove(cdf[1..], x)
  }

  /** `random.random() * total`: the draw scaled to the CDF's last bound. */
  function Scaled(u: real, total: real): (r: real)
  {
    u * total
  }

  /**
   `sample(cdf)` with the draw `u` standing for `random.random()`: the draw is
   scaled by the last bound and the first key whose bound is above it wins.
   */
  function SampleOf<K>(cdf: Cdf<K>, u: real): (r: Result<K>)
  {
    if cdf == [] then Err(EmptyCdf)
    else
      var i := FirstAbove(cdf, Scaled(u, cdf[|cdf| - 1].1));
      if i < |cdf| then Ok(cdf[i].0) else Err(NoBoundAbove)
  }

  /** The scan of `sample`: walks the entries in order and stops at the first hit. */
  method Sample<K>(cdf: Cdf<K>, u: real) returns (r: Result<K>)
    ensures r == SampleOf(cdf, u)
  {
    if cdf == [] {
      return Err(EmptyCdf);
    }
    var total := cdf[|cdf| - 1].1;
    var rand := Scaled(u, total);
    for i := 0 to |cdf|
      invariant forall j :: 0 <= j < i ==> cdf[j].1 <= rand
    {
      if cdf[i].1 > rand {
        FirstAboveUnique(cdf, rand, i);
        return Ok(cdf[i].0);
      }
    }
    FirstAboveUnique(cdf, rand, |cdf|);
    return Err(NoBoundAbove);
  }

  /** The first hit is unique: any index below which no bound exceeds `x`, and at which one does, is it. */
  lemma {:induction false} FirstAboveUnique<K>(cdf: Cdf<K>, x: real, i: nat)
    requires i <= |cdf|
    requires forall j :: 0 <= j < i ==> cdf[j].1 <= x
    requires i < |cdf| ==> cdf[i].1 > x
    ensures FirstAbove(cdf, x) == i
  {
  }

  /** Sampling returns the key of the first entry whose bound exceeds the scaled draw. */
  lemma SampleFirstHit<K>(cdf: Cdf<K>, u: real, i: nat)
    requires i < |cdf|
    requires cdf[i].1 > Scaled(u, cdf[|cdf| - 1].1)
    requires forall j :: 0 <= j < i ==> cdf[j].1 <= Scaled(u, cdf[|cdf| - 1].1)
    ensures SampleOf(cdf, u) == Ok(cdf[i].0)
  {
    FirstAboveUnique(cdf, Scaled(u, cdf[|cdf| - 1].1), i);
  }

  /** Sampling fails exactly on the empty CDF and when no bound exceeds the scaled draw. */
  lemma SampleFails<K>(cdf: Cdf<K>, u: real)
    ensures SampleOf(cdf, u).Err? <==> cdf == [] || forall j :: 0 <= j < |cdf| ==> cdf[j].1 <= Scaled(u, cdf[|cdf| - 1].1)
    ensures SampleOf(cdf, u) == Err(EmptyCdf) <==> cdf == []
    ensures SampleOf(cdf, u).Ok? ==> SampleOf(cdf, u).value in Keys(cdf)
  {
    if cdf != [] {
      var x := Scaled(u, cdf[|cdf| - 1].1);
      if forall j :: 0 <= j < |cdf| ==> cdf[j].1 <= x {
        FirstAboveUnique(cdf, x, |cdf|);
      }
    }
  }

  /** A draw in [0, 1) from a CDF whose last bound is positive never fails: the last entry is always a hit. */
  lemma SampleSucceeds<K>(cdf: Cdf<K>, u: real)
    requires cdf != [] && cdf[|cdf| - 1].1 > 0.0
    requires 0.0 <= u < 1.0
    ensures SampleOf(cdf, u).Ok?
  {
    ScaledBelow(u, cdf[|cdf| - 1].1);
  }

  lemma ScaledBelow(u: real, t: real)
    requires 0.0 <= u < 1.0 && t > 0.0
    ensures Scaled(u, t) < t
  {
    assert t - u * t == (1.0 - u) * t;
  }

  /** On a non-decreasing CDF whose last bound is 0 no draw in [0, 1] succeeds. */
  lemma SampleFromZeroMass<K>(cdf: Cdf<K>, u: real)
    requires cdf != [] && cdf[|cdf| - 1].1 == 0.0
    requires forall i, j :: 0 <= i <= j < |cdf| ==> cdf[i].1 <= cdf[j].1
    ensures SampleOf(cdf, u) == Err(NoBoundAbove)
  {
    SampleFails(cdf, u);
    assert forall j :: 0 <= j < |cdf| ==> cdf[j].1 <= cdf[|cdf| - 1].1;
  }

  /**
   Sampling from the CDF of a counter with positive counts returns key `i`
   for every draw in [Total(c[..i]) / T, Total(c[..i+1]) / T), an interval
   whose length is that key's share `c[i] / T` of the total count.
   `SampleCdfOfOnly` is the converse.
   */
  lemma SampleCdfOf<S>(c: Counter<S>, u: real, i: nat)
    requires Positive(c) && i < |c|
    requires Share(Total(c[..i]), Total(c)) <= u < Share(Total(c[..i + 1]), Total(c))
    ensures SampleOf(CdfOf(c), u) == Ok(c[i].0)
  {
    CdfOfBelowAll(c, i);
    CdfOfLast(c);
    CdfOfAt(c, i);
    SampleBetween(CdfOf(c), u, Share(Total(c[..i]), Total(c)), i);
  }

  /**
   Conversely, on a valid counter a draw in [0, 1) that yields key `i` lies in
   key `i`'s interval: the intervals cover [0, 1), and since the keys are
   distinct no other interval yields key `i`.
   */
  lemma SampleCdfOfOnly<S>(c: Counter<S>, u: real, i: nat)
    requires Valid(c) && i < |c| && 0.0 <= u < 1.0
    requires SampleOf(CdfOf(c), u) == Ok(c[i].0)
    ensures Share(Total(c[..i]), Total(c)) <= u < Share(Total(c[..i + 1]), Total(c))
  {
    var j := IntervalOfDraw(c, u);
    SampleCdfOf(c, u, j);
    DistinctKeysIndex(c, i, j);
  }

  /** The intervals of a counter with positive counts cover [0, 1). */
  lemma IntervalOfDraw<S>(c: Counter<S>, u: real) returns (j: nat)
    requires Positive(c) && c != [] && 0.0 <= u < 1.0
    ensures j < |c| && Share(Total(c[..j]), Total(c)) <= u < Share(Total(c[..j + 1]), Total(c))
  {
    assert u < Share(Total(c[..|c|]), Total(c)) by {
      assert c[..|c|] == c;
      ShareWhole(Total(c));
    }
    j := IntervalOf(c, u, |c| - 1);
  }

  lemma DistinctKeysIndex<S>(c: Counter<S>, i: nat, j: nat)
    requires DistinctKeys(c) && i < |c| && j < |c| && c[i].0 == c[j].0
    ensures i == j
  {
  }

  /** A draw from 0 below the share of the first `k + 1` counts lies in the interval of some key up to `k`. */
  lemma {:induction false} IntervalOf<S>(c: Counter<S>, u: real, k: nat) returns (j: nat)
    requires Positive(c) && k < |c| && 0.0 <= u < Share(Total(c[..k + 1]), Total(c))
    ensures j <= k && Share(Total(c[..j]), Total(c)) <= u < Share(Total(c[..j + 1]), Total(c))
    decreases k
  {
    if Share(Total(c[..k]), Total(c)) <= u {
      j := k;
    } else {
      if k == 0 {
        assert c[..0] == [];
        ShareZero(Total(c));
        assert false;
      }
      j := IntervalOf(c, u, k - 1);
    }
  }

  /** On a CDF ending at 1, a draw at or above every bound before `i` and below bound `i` picks key `i`. */
  lemma SampleBetween<K>(cdf: Cdf<K>, u: real, lo: real, i: nat)
    requires i < |cdf| && cdf[|cdf| - 1].1 == 1.0
    requires forall j :: 0 <= j < i ==> cdf[j].1 <= lo
    requires lo <= u < cdf[i].1
    ensures SampleOf(cdf, u) == Ok(cdf[i].0)
  {
    ScaledOne(u);
    SampleFirstHit(cdf, u, i);
  }

  /** Every entry before `i` has a bound no larger than the share of the counts before `i`. */
  lemma CdfOfBelowAll<S>(c: Counter<S>, i: nat)
    requires Normalisable(c) && i < |c|
    ensures forall j :: 0 <= j < i ==> CdfOf(c)[j].1 <= Share(Total(c[..i]), Total(c))
  {
    forall j | 0 <= j < i ensures CdfOf(c)[j].1 <= Share(Total(c[..i]), Total(c)) {
      CdfOfAt(c, j);
      PrefixMonotone(c, j + 1, i);
      ShareMonotone(Total(c[..j + 1]), Total(c[..i]), Total(c));
    }
  }

  lemma ScaledOne(u: real)
    ensures Scaled(u, 1.0) == u
  {
  }
}
