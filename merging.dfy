/**
 The merge of `get_merged_cdfs`: the attachment counts of every item of a
 dialogue act are added, parent formeme by parent formeme and entry by
 entry, into one table (`merged_counts[pf].update(form_counts[dai][pf])`).
 The CDFs are then built from the sum (see the generator class).
 */
module Merging {
  import opened Base
  import opened Counters
  import opened Training

  type Merged = map<Formeme, Counter<ChildEntry>>

  /** `merged_counts[pf]` of a `defaultdict(Counter)`: an empty counter when absent. */
  function Lookup(m: Merged, pf: Formeme): (r: Counter<ChildEntry>)
  {
    if pf in m then m[pf] else []
  }

  /** The part of `t` whose parent formemes are in `s`. */
  function Restrict(t: Merged, s: set<Formeme>): (r: Merged)
  {
    map pf | pf in t && pf in s :: t[pf]
  }

  /** The loop over one item's table: every parent formeme's counter is added into `m`. */
  function MergeTable(m: Merged, t: Merged): (r: Merged)
  {
    map pf | pf in m.Keys + t.Keys :: if pf in t then Update(Lookup(m, pf), t[pf]) else m[pf]
  }

  /** The merged counts after the first `n` items of `da`. */
  function MergedUpTo(fc: FormCounts, da: Da, n: nat): (r: Merged)
    requires n <= |da| && forall j :: 0 <= j < n ==> da[j] in fc
  {
    if n == 0 then map[] else MergeTable(MergedUpTo(fc, da, n - 1), fc[da[n - 1]])
  }

  /** The index of the first item of `da` that has no table, `|da|` when all have one. */
  function FirstMissing(fc: FormCounts, da: Da): (i: nat)
    ensures i <= |da|
    ensures forall j :: 0 <= j < i ==> da[j] in fc
    ensures i < |da| ==> da[i] !in fc
  {
    if da == [] then 0 else if da[0] !in fc then 0 else 1 + FirstMissing(fc, da[1..])
  }

  /**
   The outcome of the merge loop: the empty act merges to nothing even before
   training; otherwise the tables must exist and the first item without a
   table fails the lookup.
   */
  function MergeOf(fc: Option<FormCounts>, da: Da): (r: Result<Merged>)
  {
    if da == [] then Ok(map[])
    else if fc.None? then Err(NotTrained)
    else if FirstMissing(fc.value, da) < |da| then Err(UnknownDai(da[FirstMissing(fc.value, da)]))
    else Ok(MergedUpTo(fc.value, da, |da|))
  }

  /** The reference sum: the attachment counts of the items of `da`, an item counted once per occurrence. */
  function ItemSum(fc: FormCounts, da: Da, pf: Formeme, e: ChildEntry): (r: nat)
    decreases |da|
  {
    if da == [] then 0 else ItemSum(fc, da[..|da| - 1], pf, e) + FormCount(fc, da[|da| - 1], pf, e)
  }

  lemma MergeTableStep(base: Merged, t: Merged, done: set<Formeme>, pf: Formeme)
    requires pf in t && pf !in done
    ensures MergeTable(base, Restrict(t, done + {pf}))
         == MergeTable(base, Restrict(t, done))[pf := Update(Lookup(MergeTable(base, Restrict(t, done)), pf), t[pf])]
  {
    var r0, r1 := Restrict(t, done), Restrict(t, done + {pf});
    assert pf !in r0 && pf in r1 && r1[pf] == t[pf];
    assert forall q :: q != pf ==> (q in r1 <==> q in r0) && (q in r0 ==> r1[q] == r0[q]);
    var before := MergeTable(base, r0);
    assert Lookup(before, pf) == Lookup(base, pf);
    var lhs := MergeTable(base, r1);
    var rhs := before[pf := Update(Lookup(before, pf), t[pf])];
    assert lhs.Keys == rhs.Keys;
    forall q | q in lhs ensures lhs[q] == rhs[q] {
      if q != pf {
        assert lhs[q] == before[q];
      }
    }
    MergedExt(lhs, rhs);
  }

  lemma MergedExt(a: Merged, b: Merged)
    requires a.Keys == b.Keys && forall q :: q in a ==> a[q] == b[q]
    ensures a == b
  {
  }

  /** Each merged count is the sum of the items' counts. */
  lemma {:induction false} MergeTableGet(m: Merged, t: Merged, pf: Formeme, e: ChildEntry)
    ensures Get(Lookup(MergeTable(m, t), pf), e) == Get(Lookup(m, pf), e) + Get(Lookup(t, pf), e)
  {
    if pf in t {
      UpdateGet(Lookup(m, pf), t[pf], e);
    }
  }

  lemma {:induction false} MergedUpToGet(fc: FormCounts, da: Da, n: nat, pf: Formeme, e: ChildEntry)
    requires n <= |da| && forall j :: 0 <= j < n ==> da[j] in fc
    ensures Get(Lookup(MergedUpTo(fc, da, n), pf), e) == ItemSum(fc, da[..n], pf, e)
  {
    if n > 0 {
      MergedUpToGet(fc, da, n - 1, pf, e);
      MergeTableGet(MergedUpTo(fc, da, n - 1), fc[da[n - 1]], pf, e);
      assert da[..n][..n - 1] == da[..n - 1];
    }
  }

  /** A parent formeme is in the merge exactly when some item's table has it. */
  lemma {:induction false} MergedUpToKeys(fc: FormCounts, da: Da, n: nat, pf: Formeme)
    requires n <= |da| && forall j :: 0 <= j < n ==> da[j] in fc
    ensures pf in MergedUpTo(fc, da, n) <==> exists j :: 0 <= j < n && pf in fc[da[j]]
  {
    if n > 0 {
      MergedUpToKeys(fc, da, n - 1, pf);
    }
  }

  /** Merging valid tables gives valid, non-empty counters. */
  lemma {:induction false} MergedUpToValid(fc: FormCounts, da: Da, n: nat)
    requires n <= |da| && forall j :: 0 <= j < n ==> da[j] in fc
    requires FormCountsValid(fc)
    ensures forall pf :: pf in MergedUpTo(fc, da, n) ==> MergedUpTo(fc, da, n)[pf] != [] && Valid(MergedUpTo(fc, da, n)[pf])
  {
    if n > 0 {
      MergedUpToValid(fc, da, n - 1);
      var prev, t := MergedUpTo(fc, da, n - 1), fc[da[n - 1]];
      forall pf | pf in t ensures Update(Lookup(prev, pf), t[pf]) != [] && Valid(Update(Lookup(prev, pf), t[pf])) {
        UpdateValid(Lookup(prev, pf), t[pf]);
        UpdateGet(Lookup(prev, pf), t[pf], t[pf][0].0);
        GetAt(t[pf], 0);
      }
    }
  }

  lemma ItemSumSplit(fc: FormCounts, a: Da, b: Da, pf: Formeme, e: ChildEntry)
    ensures ItemSum(fc, a + b, pf, e) == ItemSum(fc, a, pf, e) + ItemSum(fc, b, pf, e)
    decreases |b|
  {
    if b == [] {
      assert a + b == a;
    } else {
      assert (a + b)[..|a + b| - 1] == a + b[..|b| - 1];
      ItemSumSplit(fc, a, b[..|b| - 1], pf, e);
    }
  }

  /** Taking item `i` out of an act takes its counts out of the sum. */
  lemma ItemSumRemove(fc: FormCounts, da: Da, i: nat, pf: Formeme, e: ChildEntry)
    requires i < |da|
    ensures multiset(da[..i] + da[i + 1..]) == multiset(da) - multiset{da[i]}
    ensures ItemSum(fc, da, pf, e) == ItemSum(fc, da[..i] + da[i + 1..], pf, e) + FormCount(fc, da[i], pf, e)
  {
    var x := da[i];
    assert da == da[..i] + [x] + da[i + 1..];
    ItemSumSplit(fc, da[..i] + [x], da[i + 1..], pf, e);
    ItemSumSplit(fc, da[..i], [x], pf, e);
    ItemSumSplit(fc, da[..i], da[i + 1..], pf, e);
    assert [x][..0] == [];
  }

  /**
   The summed counts depend only on which items occur how often, not on their
   order: any reordering of the act gives the same sums.
   */
  lemma {:induction false} ItemSumPermutation(fc: FormCounts, da1: Da, da2: Da, pf: Formeme, e: ChildEntry)
    requires multiset(da1) == multiset(da2)
    ensures ItemSum(fc, da1, pf, e) == ItemSum(fc, da2, pf, e)
    decreases |da1|
  {
    if da1 == [] {
      assert |da2| == |multiset(da2)| == 0;
    } else {
      var last := |da1| - 1;
      var x := da1[last];
      assert x in multiset(da2);
      var i :| 0 <= i < |da2| && da2[i] == x;
      ItemSumRemove(fc, da1, last, pf, e);
      ItemSumRemove(fc, da2, i, pf, e);
      assert da1[..last] + da1[last + 1..] == da1[..last];
      ItemSumPermutation(fc, da1[..last], da2[..i] + da2[i + 1..], pf, e);
    }
  }

  /** The merge succeeds exactly on the empty act, or once trained when every item has a table. */
  lemma MergeOfOk(fc: Option<FormCounts>, da: Da)
    ensures MergeOf(fc, da).Ok? <==> da == [] || (fc.Some? && forall i :: 0 <= i < |da| ==> da[i] in fc.value)
    ensures MergeOf(fc, da).Err? && da != [] && fc.Some? ==>
      exists i :: 0 <= i < |da| && da[i] !in fc.value && MergeOf(fc, da) == Err(UnknownDai(da[i]))
  {
  }

  /** Two orderings of the same items have the same members, and are empty together. */
  lemma SameItems(da1: Da, da2: Da)
    requires multiset(da1) == multiset(da2)
    ensures da1 == [] <==> da2 == []
    ensures forall x :: x in da1 <==> x in da2
  {
    assert |da1| == |multiset(da1)| && |da2| == |multiset(da2)|;
    forall x ensures x in da1 <==> x in multiset(da1) {}
    forall x ensures x in da2 <==> x in multiset(da2) {}
  }

  lemma MergedKeysPermutation(fc: FormCounts, da1: Da, da2: Da, pf: Formeme)
    requires forall x :: x in da1 <==> x in da2
    requires forall i :: 0 <= i < |da1| ==> da1[i] in fc
    requires forall i :: 0 <= i < |da2| ==> da2[i] in fc
    ensures pf in MergedUpTo(fc, da1, |da1|) <==> pf in MergedUpTo(fc, da2, |da2|)
  {
    MergedUpToKeys(fc, da1, |da1|, pf);
    MergedUpToKeys(fc, da2, |da2|, pf);
    if j :| 0 <= j < |da1| && pf in fc[da1[j]] {
      assert da1[j] in da2;
      var k :| 0 <= k < |da2| && da2[k] == da1[j];
    }
    if j :| 0 <= j < |da2| && pf in fc[da2[j]] {
      assert da2[j] in da1;
      var k :| 0 <= k < |da1| && da1[k] == da2[j];
    }
  }

  lemma MergedGetPermutation(fc: FormCounts, da1: Da, da2: Da, pf: Formeme, e: ChildEntry)
    requires multiset(da1) == multiset(da2)
    requires forall i :: 0 <= i < |da1| ==> da1[i] in fc
    requires forall i :: 0 <= i < |da2| ==> da2[i] in fc
    ensures Get(Lookup(MergedUpTo(fc, da1, |da1|), pf), e) == Get(Lookup(MergedUpTo(fc, da2, |da2|), pf), e)
  {
    MergedUpToGet(fc, da1, |da1|, pf, e);
    MergedUpToGet(fc, da2, |da2|, pf, e);
    assert da1[..|da1|] == da1 && da2[..|da2|] == da2;
    ItemSumPermutation(fc, da1, da2, pf, e);
  }

  /**
   Reordering the act changes neither whether the merge succeeds nor, when
   it does, which parent formemes it has and what it counts for them.
   */
  lemma MergeOfPermutation(fc: Option<FormCounts>, da1: Da, da2: Da, pf: Formeme, e: ChildEntry)
    requires multiset(da1) == multiset(da2)
    ensures MergeOf(fc, da1).Ok? <==> MergeOf(fc, da2).Ok?
    ensures MergeOf(fc, da1).Ok? ==>
      (pf in MergeOf(fc, da1).value <==> pf in MergeOf(fc, da2).value)
      && Get(Lookup(MergeOf(fc, da1).value, pf), e) == Get(Lookup(MergeOf(fc, da2).value, pf), e)
  {
    SameItems(da1, da2);
    MergeOfOk(fc, da1);
    MergeOfOk(fc, da2);
    if fc.Some? {
      var t := fc.value;
      assert (forall i :: 0 <= i < |da1| ==> da1[i] in t) <==> (forall i :: 0 <= i < |da2| ==> da2[i] in t) by {
        assert (forall i :: 0 <= i < |da1| ==> da1[i] in t) <==> (forall x :: x in da1 ==> x in t);
        assert (forall i :: 0 <= i < |da2| ==> da2[i] in t) <==> (forall x :: x in da2 ==> x in t);
      }
      if da1 != [] && forall i :: 0 <= i < |da1| ==> da1[i] in t {
        MergedKeysPermutation(t, da1, da2, pf);
        MergedGetPermutation(t, da1, da2, pf, e);
      }
    }
  }

  /**
   Lines 74-77 of `get_merged_cdfs`: the item loop, with the loop over one
   item's parent formemes inside it.
   */
  method MergeCounts(fc: Option<FormCounts>, da: Da) returns (r: Result<Merged>)
    ensures r == MergeOf(fc, da)
  {
    var merged: Merged := map[];
    var j := 0;
    while j < |da|
      invariant 0 <= j <= |da|
      invariant j > 0 ==> fc.Some?
      invariant fc.None? ==> merged == map[]
      invariant fc.Some? ==> (forall i :: 0 <= i < j ==> da[i] in fc.value) && merged == MergedUpTo(fc.value, da, j)
    {
      if fc.None? {
        return Err(NotTrained);
      }
      var dai := da[j];
      if dai !in fc.value {
        return Err(UnknownDai(dai));
      }
      merged := MergeItem(merged, fc.value[dai]);
      j := j + 1;
    }
    if fc.Some? {
      assert FirstMissing(fc.value, da) == |da|;
    }
    return Ok(merged);
  }

  /** Lines 76-77 for one item: each parent formeme's counter of `table` is added into `merged`. */
  method MergeItem(merged0: Merged, table: Merged) returns (merged: Merged)
    ensures merged == MergeTable(merged0, table)
  {
    merged := merged0;
    ghost var done: set<Formeme> := {};
    var todo := table.Keys;
    while todo != {}
      invariant todo + done == table.Keys && todo !! done
      invariant merged == MergeTable(merged0, Restrict(table, done))
      decreases todo
    {
      var pf :| pf in todo;
      MergeTableStep(merged0, table, done, pf);
      merged := merged[pf := Update(Lookup(merged, pf), table[pf])];
      todo, done := todo - {pf}, done + {pf};
    }
    assert Restrict(table, done) == table;
  }
}
