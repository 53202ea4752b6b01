/**
 The random tree generator (`RandomGenerator`): its three tables, training,
 the stored model, the merged CDFs for a dialogue act, sampling a child or a
 number of children, and listing all successors of a candidate tree.
 Randomness enters only as the draw `u`, which stands for `random.random()`.
 */
module RandGen {
  import opened Base
  import opened Counters
  import opened Distributions
  import opened Training
  import opened Merging
  import opened Successors

  // ---------------------------------------------------------------------------
  // The model: the generator's three tables.

  datatype Model = Model(
    formCounts: Option<FormCounts>,
    childCdfs: Option<map<Formeme, Cdf<nat>>>,
    maxChildren: Option<map<Formeme, nat>>)

  /** A non-empty counter with positive counts has a positive total. */
  lemma PositiveTotal<S>(c: Counter<S>)
    requires c != [] && Positive(c)
    ensures Total(c) > 0 && Normalisable(c)
  {
    PrefixIncreasing(c, 0, |c|);
    assert c[..0] == [] && c[..|c|] == c;
  }

  /** `child_cdfs` after training: the CDF of every formeme's child-count histogram. */
  function ChildCdfsOf(cc: ChildCounts): (r: map<Formeme, Cdf<nat>>)
    requires ChildCountsValid(cc)
  {
    map f | f in cc :: (PositiveTotal(cc[f]); CdfOf(cc[f]))
  }

  lemma ChildCountsNormalisable(cc: ChildCounts)
    requires ChildCountsValid(cc)
    ensures forall f :: f in cc ==> Normalisable(cc[f])
  {
    forall f | f in cc ensures Normalisable(cc[f]) {
      PositiveTotal(cc[f]);
    }
  }

  /** A map with the keys of `cc` holding the CDF of each counter is `ChildCdfsOf(cc)`. */
  lemma ChildCdfsAre(cc: ChildCounts, cdfs: map<Formeme, Cdf<nat>>)
    requires ChildCountsValid(cc) && cdfs.Keys == cc.Keys
    requires forall f :: f in cc ==> Normalisable(cc[f]) && cdfs[f] == CdfOf(cc[f])
    ensures cdfs == ChildCdfsOf(cc)
  {
  }

  /** The tables `train` leaves behind. */
  function TrainedModel(trees: seq<TrainTree>, das: seq<Da>): (r: Model)
  {
    ChildCountsUpToValid(trees, Min(|trees|, |das|));
    var cc := ChildCountsOf(trees, das);
    Model(Some(FormCountsOf(trees, das)), Some(ChildCdfsOf(cc)), Some(MaxChildrenOf(cc)))
  }

  /**
   The shape training gives the tables: all three are set, the attachment
   counters are valid, every formeme with a child-count CDF has a maximum,
   and that CDF is non-empty, ends at 1, and has the maximum as its largest key.
   */
  ghost predicate Consistent(m: Model)
  {
    && m.formCounts.Some? && m.childCdfs.Some? && m.maxChildren.Some?
    && FormCountsValid(m.formCounts.value)
    && m.childCdfs.value.Keys == m.maxChildren.value.Keys
    && forall f :: f in m.childCdfs.value ==>
         var cdf := m.childCdfs.value[f];
         && cdf != [] && cdf[|cdf| - 1].1 == 1.0
         && m.maxChildren.value[f] in Keys(cdf)
         && forall k :: k in Keys(cdf) ==> k <= m.maxChildren.value[f]
  }

  /** The CDF of a non-empty valid counter is non-empty, ends at 1 and has the counter's keys. */
  lemma ValidCdf<S>(c: Counter<S>)
    requires c != [] && Valid(c)
    ensures Normalisable(c) && CdfOf(c) != [] && CdfOf(c)[|CdfOf(c)| - 1].1 == 1.0
    ensures Keys(CdfOf(c)) == Keys(c)
  {
    PositiveTotal(c);
    CdfOfLast(c);
  }

  /** Training always yields consistent tables. */
  lemma TrainedConsistent(trees: seq<TrainTree>, das: seq<Da>)
    ensures Consistent(TrainedModel(trees, das))
  {
    var n := Min(|trees|, |das|);
    ChildCountsUpToValid(trees, n);
    FormCountsUpToValid(trees, das, n);
    var cc := ChildCountsOf(trees, das);
    var cdfs, maxC := ChildCdfsOf(cc), MaxChildrenOf(cc);
    assert TrainedModel(trees, das) == Model(Some(FormCountsOf(trees, das)), Some(cdfs), Some(maxC));
    assert cdfs.Keys == maxC.Keys;
    forall f | f in cdfs
      ensures && cdfs[f] != [] && cdfs[f][|cdfs[f]| - 1].1 == 1.0
              && maxC[f] in Keys(cdfs[f])
              && forall k :: k in Keys(cdfs[f]) ==> k <= maxC[f]
    {
      ValidCdf(cc[f]);
      assert cdfs[f] == CdfOf(cc[f]);
    }
  }

  // ---------------------------------------------------------------------------
  // The stored model: three pickled objects, read back in the same order.

  datatype Record =
    | FormCountsRecord(formCounts: Option<FormCounts>)
    | ChildCdfsRecord(childCdfs: Option<map<Formeme, Cdf<nat>>>)
    | MaxChildrenRecord(maxChildren: Option<map<Formeme, nat>>)

  /** `save_model`: the three tables, in field order. */
  function Encode(m: Model): (rs: seq<Record>)
    ensures |rs| == 3
  {
    [FormCountsRecord(m.formCounts), ChildCdfsRecord(m.childCdfs), MaxChildrenRecord(m.maxChildren)]
  }

  /**
   `load_model`: the tables after reading `rs` over `prev`, and whether all
   three reads succeeded. Each read replaces one table; a missing or
   mismatched record stops the load, leaving the tables read so far replaced.
   Records after the third are not read.
   */
  function Load(prev: Model, rs: seq<Record>): (r: (Model, bool))
  {
    if |rs| < 1 || !rs[0].FormCountsRecord? then (prev, false)
    else
      var m1 := prev.(formCounts := rs[0].formCounts);
      if |rs| < 2 || !rs[1].ChildCdfsRecord? then (m1, false)
      else
        var m2 := m1.(childCdfs := rs[1].childCdfs);
        if |rs| < 3 || !rs[2].MaxChildrenRecord? then (m2, false)
        else (m2.(maxChildren := rs[2].maxChildren), true)
  }

  /** Loading a saved model restores exactly the saved tables, whatever was loaded before. */
  lemma LoadEncode(prev: Model, m: Model)
    ensures Load(prev, Encode(m)) == (m, true)
  {
  }

  /** A load succeeds exactly when the first three records are the three tables in order. */
  lemma LoadSucceeds(prev: Model, rs: seq<Record>)
    ensures Load(prev, rs).1 <==>
      |rs| >= 3 && rs[0].FormCountsRecord? && rs[1].ChildCdfsRecord? && rs[2].MaxChildrenRecord?
    ensures Load(prev, rs).1 ==> Load(prev, rs).0 == Model(rs[0].formCounts, rs[1].childCdfs, rs[2].maxChildren)
    ensures !Load(prev, rs).1 ==> Load(prev, rs).0.maxChildren == prev.maxChildren
  {
  }

  // ---------------------------------------------------------------------------
  // What the queries compute.

  /**
   `get_merged_cdfs`: the merged counts of the act's items, each counter
   normalised. A counter that cannot be normalised divides by zero.
   */
  function MergedCdfsOf(fc: Option<FormCounts>, da: Da): (r: Result<map<Formeme, Cdf<ChildEntry>>>)
  {
    match MergeOf(fc, da)
    case Err(err) => Err(err)
    case Ok(m) =>
      if forall pf :: pf in m ==> Normalisable(m[pf]) then Ok(map pf | pf in m :: CdfOf(m[pf]))
      else Err(ZeroDivision)
  }

  /**
   With valid tables the merged CDFs exist exactly when every item of the act
   has a table; there is one for each parent formeme some item's table has;
   each is non-empty and ends at 1; and its keys are exactly the entries seen
   below that parent formeme for some item of the act.
   */
  lemma MergedCdfsOfValid(fc: FormCounts, da: Da, pf: Formeme, e: ChildEntry)
    requires FormCountsValid(fc)
    ensures MergedCdfsOf(Some(fc), da).Ok? <==> forall i :: 0 <= i < |da| ==> da[i] in fc
    ensures MergedCdfsOf(Some(fc), da).Ok? ==>
      var cdfs := MergedCdfsOf(Some(fc), da).value;
      && (pf in cdfs <==> exists i :: 0 <= i < |da| && pf in fc[da[i]])
      && (pf in cdfs ==> cdfs[pf] != [] && cdfs[pf][|cdfs[pf]| - 1].1 == 1.0)
      && (pf in cdfs ==> (e in Keys(cdfs[pf]) <==> ItemSum(fc, da, pf, e) > 0))
  {
    MergeOfOk(Some(fc), da);
    if forall i :: 0 <= i < |da| ==> da[i] in fc {
      var m := MergedUpTo(fc, da, |da|);
      assert MergeOf(Some(fc), da) == Ok(m);
      MergedUpToValid(fc, da, |da|);
      forall q | q in m ensures Normalisable(m[q]) {
        PositiveTotal(m[q]);
      }
      var cdfs := map q | q in m :: CdfOf(m[q]);
      assert MergedCdfsOf(Some(fc), da) == Ok(cdfs);
      MergedUpToKeys(fc, da, |da|, pf);
      if pf in m {
        MergedCdfEntry(fc, da, pf, e);
      }
    }
  }

  /** One merged CDF: non-empty, ending at 1, with keys exactly the entries the act's items have counts for. */
  lemma MergedCdfEntry(fc: FormCounts, da: Da, pf: Formeme, e: ChildEntry)
    requires FormCountsValid(fc) && forall i :: 0 <= i < |da| ==> da[i] in fc
    requires pf in MergedUpTo(fc, da, |da|)
    ensures Normalisable(MergedUpTo(fc, da, |da|)[pf])
    ensures var cdf := CdfOf(MergedUpTo(fc, da, |da|)[pf]);
      cdf != [] && cdf[|cdf| - 1].1 == 1.0 && (e in Keys(cdf) <==> ItemSum(fc, da, pf, e) > 0)
  {
    var c := MergedUpTo(fc, da, |da|)[pf];
    MergedUpToValid(fc, da, |da|);
    ValidCdf(c);
    GetPositive(c, e);
    MergedUpToGet(fc, da, |da|, pf, e);
    assert da[..|da|] == da;
  }

  /** `get_number_of_children`: 0 for a formeme never seen as a node, otherwise a sample. */
  function NumberOfChildrenOf(childCdfs: Option<map<Formeme, Cdf<nat>>>, f: Formeme, u: real): (r: Result<nat>)
  {
    if childCdfs.None? then Err(NotTrained)
    else if f !in childCdfs.value then Ok(0)
    else SampleOf(childCdfs.value[f], u)
  }

  /**
   On consistent tables every draw in [0, 1) gives a number of children, and
   it never exceeds the formeme's maximum.
   */
  lemma NumberOfChildrenBound(m: Model, f: Formeme, u: real)
    requires Consistent(m) && 0.0 <= u < 1.0
    ensures NumberOfChildrenOf(m.childCdfs, f, u).Ok?
    ensures f !in m.maxChildren.value ==> NumberOfChildrenOf(m.childCdfs, f, u) == Ok(0)
    ensures f in m.maxChildren.value ==> NumberOfChildrenOf(m.childCdfs, f, u).value <= m.maxChildren.value[f]
    ensures f in m.childCdfs.value ==> NumberOfChildrenOf(m.childCdfs, f, u).value in Keys(m.childCdfs.value[f])
  {
    if f in m.childCdfs.value {
      SampleSucceeds(m.childCdfs.value[f], u);
      SampleFails(m.childCdfs.value[f], u);
    }
  }

  /**
   After training, a sampled number of children is one that some training
   node with that formeme actually had.
   */
  lemma TrainedChildrenObserved(trees: seq<TrainTree>, das: seq<Da>, f: Formeme, u: real)
    requires f in ChildCountsOf(trees, das)
    ensures NumberOfChildrenOf(TrainedModel(trees, das).childCdfs, f, u).Ok? ==>
      ExpectedChildCount(trees, Min(|trees|, |das|), f, NumberOfChildrenOf(TrainedModel(trees, das).childCdfs, f, u).value) > 0
  {
    var n := Min(|trees|, |das|);
    ChildCountsUpToValid(trees, n);
    var cc := ChildCountsOf(trees, das);
    var r := NumberOfChildrenOf(TrainedModel(trees, das).childCdfs, f, u);
    if r.Ok? {
      PositiveTotal(cc[f]);
      SampleFails(CdfOf(cc[f]), u);
      GetPositive(cc[f], r.value);
      ChildCountsUpToGet(trees, n, f, r.value);
    }
  }

  // ---------------------------------------------------------------------------
  // The generator.

  class RandomGenerator {
    var formCounts: Option<FormCounts>
    var childCdfs: Option<map<Formeme, Cdf<nat>>>
    var maxChildren: Option<map<Formeme, nat>>

    /** The current tables. */
    function Tables(): (r: Model)
      reads this
    {
      Model(formCounts, childCdfs, maxChildren)
    }

    /** A fresh generator has no tables yet. */
    constructor ()
      ensures Tables() == Model(None, None, None)
    {
      formCounts := None;
      childCdfs := None;
      maxChildren := None;
    }

    /** Lines 35-40: the three tables, in field order. */
    method SaveModel() returns (rs: seq<Record>)
      ensures rs == Encode(Tables())
    {
      rs := [FormCountsRecord(formCounts), ChildCdfsRecord(childCdfs), MaxChildrenRecord(maxChildren)];
    }

    /** Lines 28-33: reads the three tables back, one record per table. */
    method LoadModel(rs: seq<Record>) returns (ok: bool)
      modifies this
      ensures (Tables(), ok) == Load(old(Tables()), rs)
    {
      if |rs| < 1 || !rs[0].FormCountsRecord? {
        return false;
      }
      formCounts := rs[0].formCounts;
      if |rs| < 2 || !rs[1].ChildCdfsRecord? {
        return false;
      }
      childCdfs := rs[1].childCdfs;
      if |rs| < 3 || !rs[2].MaxChildrenRecord? {
        return false;
      }
      maxChildren := rs[2].maxChildren;
      return true;
    }

    /**
     Lines 53-70: counts the zipped (tree, act) pairs, then replaces all three
     tables with what the counts give.
     */
    method Train(trees: seq<TrainTree>, das: seq<Da>)
      modifies this
      ensures Tables() == TrainedModel(trees, das)
      ensures Consistent(Tables())
    {
      var fc, cc := CollectCounts(trees, das);
      ChildCountsUpToValid(trees, Min(|trees|, |das|));
      ChildCountsNormalisable(cc);
      var cdfs := CdfsFromCounts(cc);
      ChildCdfsAre(cc, cdfs.value);
      ghost var trained := Model(Some(fc), Some(cdfs.value), Some(MaxChildrenOf(cc)));
      assert trained == TrainedModel(trees, das);
      TrainedConsistent(trees, das);
      formCounts, childCdfs, maxChildren := Some(fc), Some(cdfs.value), Some(MaxChildrenOf(cc));
      assert Tables() == trained;
    }

    /** Lines 72-78: the CDFs of the merged counts of the act's items. */
    method GetMergedCdfs(da: Da) returns (r: Result<map<Formeme, Cdf<ChildEntry>>>)
      ensures r == MergedCdfsOf(formCounts, da)
    {
      var merged := MergeCounts(formCounts, da);
      if merged.Err? {
        return Err(merged.error);
      }
      var m := merged.value;
      r := CdfsFromCounts(m);
      if r.Ok? {
        assert r.value == map pf | pf in m :: CdfOf(m[pf]);
      }
    }

    /** Lines 103-106. */
    method GetNumberOfChildren(f: Formeme, u: real) returns (r: Result<nat>)
      ensures r == NumberOfChildrenOf(childCdfs, f, u)
    {
      if childCdfs.None? {
        return Err(NotTrained);
      }
      if f !in childCdfs.value {
        return Ok(0);
      }
      r := Sample(childCdfs.value[f], u);
    }

    /** Lines 108-109: a sample from the given CDF; the parent and the act are not used. */
    method GetBestChild(parent: Node, da: Da, cdf: Cdf<ChildEntry>, u: real) returns (r: Result<ChildEntry>)
      ensures r == SampleOf(cdf, u)
    {
      r := Sample(cdf, u);
    }

    /**
     Lines 117-121 for the node at position `i`: the fresh successors it
     contributes, one per key of its formeme's CDF, or the lookup that fails.
     */
    method ExpandNode(cand: array<Node>, i: nat, cdfs: map<Formeme, Cdf<ChildEntry>>)
      returns (r: Result<seq<array<Node>>>)
      requires i < cand.Length
      ensures NodeStep(cand[..], i, cdfs, maxChildren).Err? ==> r == Err(NodeStep(cand[..], i, cdfs, maxChildren).error)
      ensures NodeStep(cand[..], i, cdfs, maxChildren).Ok? ==>
        var more := NodeStep(cand[..], i, cdfs, maxChildren).value;
        && r.Ok? && Realises(r.value, more, cand[..])
        && (forall k :: 0 <= k < |r.value| ==> fresh(r.value[k]))
        && (forall k, l :: 0 <= k < l < |r.value| ==> r.value[k] != r.value[l])
    {
      var f := cand[i].formeme;
      if maxChildren.None? {
        return Err(NotTrained);
      }
      if f !in maxChildren.value {
        return Err(UnknownMaxChildren(f));
      }
      if ChildCountOf(cand[..], i) > maxChildren.value[f] {
        return Ok([]);
      }
      if f !in cdfs {
        return Err(UnknownCdf(f));
      }
      var succs := SuccessorsAt(cand, i, cdfs[f]);
      return Ok(succs);
    }

    /**
     Lines 111-131: one fresh successor per expanded node and key of its
     formeme's CDF, in node order and then key order; a failing lookup ends
     the expansion with that lookup's error. The candidate is left as it is.
     */
    method GetAllSuccessors(cand: array<Node>, da: Da, cdfs: map<Formeme, Cdf<ChildEntry>>)
      returns (r: Result<seq<array<Node>>>)
      ensures cand[..] == old(cand[..])
      ensures PlanOf(cand[..], cdfs, maxChildren).Err? ==> r == Err(PlanOf(cand[..], cdfs, maxChildren).error)
      ensures PlanOf(cand[..], cdfs, maxChildren).Ok? ==>
        var plan := PlanOf(cand[..], cdfs, maxChildren).value;
        && r.Ok? && |r.value| == |plan|
        && (forall k :: 0 <= k < |r.value| ==>
              && fresh(r.value[k]) && plan[k].node < cand.Length
              && r.value[k][..] == Insert(cand[..], plan[k].node, plan[k].entry))
        && (forall k, l :: 0 <= k < l < |r.value| ==> r.value[k] != r.value[l])
    {
      ghost var s := cand[..];
      ghost var plan: seq<Attach> := [];
      var res: seq<array<Node>> := [];
      var i := 0;
      while i < cand.Length
        invariant 0 <= i <= cand.Length && cand[..] == s
        invariant PlanUpTo(s, i, cdfs, maxChildren) == Ok(plan)
        invariant forall k :: 0 <= k < |res| ==> fresh(res[k])
        invariant Realises(res, plan, s)
        invariant forall k, l :: 0 <= k < l < |res| ==> res[k] != res[l]
      {
        var step := ExpandNode(cand, i, cdfs);
        if step.Err? {
          PlanErrorFinal(s, i + 1, cdfs, maxChildren);
          return Err(step.error);
        }
        ghost var more := NodeStep(s, i, cdfs, maxChildren).value;
        PlanStep(s, i, cdfs, maxChildren);
        RealisesAppend(res, plan, step.value, more, s);
        res, plan := res + step.value, plan + more;
        i := i + 1;
      }
      return Ok(res);
    }
  }

  /** One more node: its step is appended to the plan of the nodes before it. */
  lemma PlanStep(s: seq<Node>, i: nat, cdfs: map<Formeme, Cdf<ChildEntry>>, maxC: Option<map<Formeme, nat>>)
    requires i < |s| && PlanUpTo(s, i, cdfs, maxC).Ok? && NodeStep(s, i, cdfs, maxC).Ok?
    ensures PlanUpTo(s, i + 1, cdfs, maxC) == Ok(PlanUpTo(s, i, cdfs, maxC).value + NodeStep(s, i, cdfs, maxC).value)
  {
  }

  /** Once a prefix of the nodes fails, the whole expansion fails with the same error. */
  lemma {:induction false} PlanErrorFinal(s: seq<Node>, n: nat, cdfs: map<Formeme, Cdf<ChildEntry>>, maxC: Option<map<Formeme, nat>>)
    requires n <= |s| && PlanUpTo(s, n, cdfs, maxC).Err?
    ensures PlanOf(s, cdfs, maxC) == PlanUpTo(s, n, cdfs, maxC)
    decreases |s| - n
  {
    if n < |s| {
      PlanErrorFinal(s, n + 1, cdfs, maxC);
    }
  }
}
