/**
 The counting part of `train`: from aligned (tree, dialogue act) pairs it
 builds the attachment counts `form_counts[dai][parent formeme][entry]`, the
 child-count histogram `child_counts[formeme][number of children]`, and from
 the histogram the table `max_children[formeme]`.

 A training tree is given as the list of its non-root nodes in the order the
 tree reader returns them; each node carries what the counting reads from it.
 The pairs are those Python's `zip` yields, so the shorter input decides how
 many there are.
 */
module Training {
  import opened Base
  import opened Counters

  /** A non-root training node: its parent's formeme, its own formeme and lemma,
      whether it stands right of its parent, and how many children it has. */
  datatype TrainNode = TrainNode(parentFormeme: Formeme, formeme: Formeme, tLemma: Lemma, right: bool, children: nat)

  type TrainTree = seq<TrainNode>

  type FormCounts = map<Dai, map<Formeme, Counter<ChildEntry>>>

  type ChildCounts = map<Formeme, Counter<nat>>

  /** The key under which a node is counted below its parent. */
  function EntryOf(n: TrainNode): (r: ChildEntry)
  {
    ChildEntry(n.formeme, n.tLemma, n.right)
  }

  /** `form_counts[dai][pf][e]`, reading 0 where a level is missing. */
  function FormCount(fc: FormCounts, dai: Dai, pf: Formeme, e: ChildEntry): (r: nat)
  {
    if dai in fc && pf in fc[dai] then Get(fc[dai][pf], e) else 0
  }

  /** `child_counts[f][k]`, reading 0 where a level is missing. */
  function ChildCount(cc: ChildCounts, f: Formeme, k: nat): (r: nat)
  {
    if f in cc then Get(cc[f], k) else 0
  }

  /** Every table entry is a non-empty counter with distinct keys and positive counts. */
  ghost predicate FormCountsValid(fc: FormCounts)
  {
    forall dai, pf :: dai in fc && pf in fc[dai] ==> fc[dai][pf] != [] && Valid(fc[dai][pf])
  }

  ghost predicate ChildCountsValid(cc: ChildCounts)
  {
    forall f :: f in cc ==> cc[f] != [] && Valid(cc[f])
  }

  // ---------------------------------------------------------------------------
  // The tables as folds over the corpus, one step per loop iteration of `train`.

  /** One `form_counts[dai][tnode.parent.formeme][entry] += 1`, creating the levels that are missing. */
  function CountNode(fc: FormCounts, dai: Dai, n: TrainNode): (r: FormCounts)
  {
    var inner := if dai in fc then fc[dai] else map[];
    var c := if n.parentFormeme in inner then inner[n.parentFormeme] else [];
    fc[dai := inner[n.parentFormeme := Add(c, EntryOf(n), 1)]]
  }

  /** The innermost loop: every node of one tree counted under one item. */
  function CountNodes(fc: FormCounts, dai: Dai, nodes: TrainTree): (r: FormCounts)
    decreases |nodes|
  {
    if nodes == [] then fc else CountNode(CountNodes(fc, dai, nodes[..|nodes| - 1]), dai, nodes[|nodes| - 1])
  }

  /** The loop over the items of one dialogue act. */
  function CountDais(fc: FormCounts, da: Da, tree: TrainTree): (r: FormCounts)
    decreases |da|
  {
    if da == [] then fc else CountNodes(CountDais(fc, da[..|da| - 1], tree), da[|da| - 1], tree)
  }

  /** `form_counts` after the first `n` pairs. */
  function FormCountsUpTo(trees: seq<TrainTree>, das: seq<Da>, n: nat): (r: FormCounts)
    requires n <= |trees| && n <= |das|
  {
    if n == 0 then map[] else CountDais(FormCountsUpTo(trees, das, n - 1), das[n - 1], trees[n - 1])
  }

  /** One `child_counts[tnode.formeme][len(tnode.get_children())] += 1`. */
  function CountChildren(cc: ChildCounts, n: TrainNode): (r: ChildCounts)
  {
    var c := if n.formeme in cc then cc[n.formeme] else [];
    cc[n.formeme := Add(c, n.children, 1)]
  }

  function CountTreeChildren(cc: ChildCounts, nodes: TrainTree): (r: ChildCounts)
    decreases |nodes|
  {
    if nodes == [] then cc else CountChildren(CountTreeChildren(cc, nodes[..|nodes| - 1]), nodes[|nodes| - 1])
  }

  /** `child_counts` after the first `n` pairs. */
  function ChildCountsUpTo(trees: seq<TrainTree>, n: nat): (r: ChildCounts)
    requires n <= |trees|
  {
    if n == 0 then map[] else CountTreeChildren(ChildCountsUpTo(trees, n - 1), trees[n - 1])
  }

  function FormCountsOf(trees: seq<TrainTree>, das: seq<Da>): (r: FormCounts)
  {
    FormCountsUpTo(trees, das, Min(|trees|, |das|))
  }

  function ChildCountsOf(trees: seq<TrainTree>, das: seq<Da>): (r: ChildCounts)
  {
    ChildCountsUpTo(trees, Min(|trees|, |das|))
  }

  // ---------------------------------------------------------------------------
  // What the counts are meant to be, defined independently of the loops.

  /** The number of nodes of `tree` whose parent has formeme `pf` and whose own entry is `e`. */
  function Matches(tree: TrainTree, pf: Formeme, e: ChildEntry): (r: nat)
    decreases |tree|
  {
    if tree == [] then 0
    else
      var n := tree[|tree| - 1];
      Matches(tree[..|tree| - 1], pf, e) + (if n.parentFormeme == pf && EntryOf(n) == e then 1 else 0)
  }

  /** How often `dai` occurs in `da`. */
  function Occurrences(da: Da, dai: Dai): (r: nat)
  {
    multiset(da)[dai]
  }

  /**
   The number of (pair, occurrence of `dai` in the pair's act, node of the
   pair's tree) triples, over the first `n` pairs, whose node has a parent of
   formeme `pf` and the entry `e`.
   */
  function ExpectedFormCount(trees: seq<TrainTree>, das: seq<Da>, n: nat, dai: Dai, pf: Formeme, e: ChildEntry): (r: nat)
    requires n <= |trees| && n <= |das|
  {
    if n == 0 then 0
    else ExpectedFormCount(trees, das, n - 1, dai, pf, e) + Occurrences(das[n - 1], dai) * Matches(trees[n - 1], pf, e)
  }

  /** The number of nodes of `tree` with formeme `f` and `k` children. */
  function NodesWith(tree: TrainTree, f: Formeme, k: nat): (r: nat)
    decreases |tree|
  {
    if tree == [] then 0
    else
      var n := tree[|tree| - 1];
      NodesWith(tree[..|tree| - 1], f, k) + (if n.formeme == f && n.children == k then 1 else 0)
  }

  /** The number of nodes in the first `n` trees with formeme `f` and `k` children. */
  function ExpectedChildCount(trees: seq<TrainTree>, n: nat, f: Formeme, k: nat): (r: nat)
    requires n <= |trees|
  {
    if n == 0 then 0 else ExpectedChildCount(trees, n - 1, f, k) + NodesWith(trees[n - 1], f, k)
  }

  // ---------------------------------------------------------------------------
  // The attachment counts are the expected counts.

  lemma CountNodeGet(fc: FormCounts, d: Dai, nd: TrainNode, dai: Dai, pf: Formeme, e: ChildEntry)
    ensures FormCount(CountNode(fc, d, nd), dai, pf, e)
         == FormCount(fc, dai, pf, e) + (if dai == d && pf == nd.parentFormeme && e == EntryOf(nd) then 1 else 0)
  {
    var inner := if d in fc then fc[d] else map[];
    var c := if nd.parentFormeme in inner then inner[nd.parentFormeme] else [];
    AddGet(c, EntryOf(nd), 1, e);
  }

  lemma {:induction false} CountNodesGet(fc: FormCounts, d: Dai, nodes: TrainTree, dai: Dai, pf: Formeme, e: ChildEntry)
    ensures FormCount(CountNodes(fc, d, nodes), dai, pf, e)
         == FormCount(fc, dai, pf, e) + (if dai == d then Matches(nodes, pf, e) else 0)
  {
    if nodes != [] {
      CountNodesGet(fc, d, nodes[..|nodes| - 1], dai, pf, e);
      CountNodeGet(CountNodes(fc, d, nodes[..|nodes| - 1]), d, nodes[|nodes| - 1], dai, pf, e);
    }
  }

  lemma {:induction false} CountDaisGet(fc: FormCounts, da: Da, tree: TrainTree, dai: Dai, pf: Formeme, e: ChildEntry)
    ensures FormCount(CountDais(fc, da, tree), dai, pf, e)
         == FormCount(fc, dai, pf, e) + Occurrences(da, dai) * Matches(tree, pf, e)
  {
    if da != [] {
      var init, last := da[..|da| - 1], da[|da| - 1];
      var before := CountDais(fc, init, tree);
      var o: int, m: int := Occurrences(init, dai), Matches(tree, pf, e);
      var x: int, y: int, z: int := FormCount(fc, dai, pf, e), FormCount(before, dai, pf, e), FormCount(CountDais(fc, da, tree), dai, pf, e);
      assert y == x + o * m by {
        CountDaisGet(fc, init, tree, dai, pf, e);
      }
      assert z == y + (if last == dai then m else 0) by {
        CountNodesGet(before, last, tree, dai, pf, e);
      }
      assert Occurrences(da, dai) == o + (if last == dai then 1 else 0) by {
        assert da == init + [last];
      }
      CountStep(x, y, z, o, m, last == dai);
    }
  }

  /** One more act item: the count grows by the matches exactly when the item is the one counted. */
  lemma CountStep(x: int, y: int, z: int, o: int, m: int, hit: bool)
    requires y == x + o * m && z == y + (if hit then m else 0)
    ensures z == x + (o + (if hit then 1 else 0)) * m
  {
    if hit {
      MulSucc(o, m);
    }
  }

  lemma MulSucc(a: int, b: int)
    ensures (a + 1) * b == a * b + b
  {
  }

  /** After the first `n` pairs, every attachment count is the number of matching triples. */
  lemma {:induction false} FormCountsUpToGet(trees: seq<TrainTree>, das: seq<Da>, n: nat, dai: Dai, pf: Formeme, e: ChildEntry)
    requires n <= |trees| && n <= |das|
    ensures FormCount(FormCountsUpTo(trees, das, n), dai, pf, e) == ExpectedFormCount(trees, das, n, dai, pf, e)
  {
    if n > 0 {
      FormCountsUpToGet(trees, das, n - 1, dai, pf, e);
      CountDaisGet(FormCountsUpTo(trees, das, n - 1), das[n - 1], trees[n - 1], dai, pf, e);
    }
  }

  // ---------------------------------------------------------------------------
  // Which items get an entry.

  lemma {:induction false} CountNodesKeys(fc: FormCounts, d: Dai, nodes: TrainTree)
    ensures CountNodes(fc, d, nodes).Keys == if nodes == [] then fc.Keys else fc.Keys + {d}
  {
    if nodes != [] {
      CountNodesKeys(fc, d, nodes[..|nodes| - 1]);
    }
  }

  lemma {:induction false} CountDaisKeys(fc: FormCounts, da: Da, tree: TrainTree)
    ensures forall dai :: dai in CountDais(fc, da, tree) <==> dai in fc || (dai in da && tree != [])
  {
    if da != [] {
      var init, last := da[..|da| - 1], da[|da| - 1];
      CountDaisKeys(fc, init, tree);
      CountNodesKeys(CountDais(fc, init, tree), last, tree);
      assert da == init + [last];
    }
  }

  /** An item has an entry exactly when some counted pair has it in its act and a tree with a non-root node. */
  lemma {:induction false} FormCountsUpToKeys(trees: seq<TrainTree>, das: seq<Da>, n: nat, dai: Dai)
    requires n <= |trees| && n <= |das|
    ensures dai in FormCountsUpTo(trees, das, n) <==> exists i :: 0 <= i < n && dai in das[i] && trees[i] != []
  {
    if n > 0 {
      FormCountsUpToKeys(trees, das, n - 1, dai);
      CountDaisKeys(FormCountsUpTo(trees, das, n - 1), das[n - 1], trees[n - 1]);
    }
  }

  // ---------------------------------------------------------------------------
  // The tables hold only valid, non-empty counters.

  lemma CountNodeValid(fc: FormCounts, d: Dai, nd: TrainNode)
    requires FormCountsValid(fc)
    ensures FormCountsValid(CountNode(fc, d, nd))
  {
    var inner := if d in fc then fc[d] else map[];
    var c := if nd.parentFormeme in inner then inner[nd.parentFormeme] else [];
    AddValid(c, EntryOf(nd), 1);
  }

  lemma {:induction false} CountNodesValid(fc: FormCounts, d: Dai, nodes: TrainTree)
    requires FormCountsValid(fc)
    ensures FormCountsValid(CountNodes(fc, d, nodes))
  {
    if nodes != [] {
      CountNodesValid(fc, d, nodes[..|nodes| - 1]);
      CountNodeValid(CountNodes(fc, d, nodes[..|nodes| - 1]), d, nodes[|nodes| - 1]);
    }
  }

  lemma {:induction false} CountDaisValid(fc: FormCounts, da: Da, tree: TrainTree)
    requires FormCountsValid(fc)
    ensures FormCountsValid(CountDais(fc, da, tree))
  {
    if da != [] {
      CountDaisValid(fc, da[..|da| - 1], tree);
      CountNodesValid(CountDais(fc, da[..|da| - 1], tree), da[|da| - 1], tree);
    }
  }

  lemma {:induction false} FormCountsUpToValid(trees: seq<TrainTree>, das: seq<Da>, n: nat)
    requires n <= |trees| && n <= |das|
    ensures FormCountsValid(FormCountsUpTo(trees, das, n))
  {
    if n > 0 {
      FormCountsUpToValid(trees, das, n - 1);
      CountDaisValid(FormCountsUpTo(trees, das, n - 1), das[n - 1], trees[n - 1]);
    }
  }

  // ---------------------------------------------------------------------------
  // The child-count histogram.

  lemma CountChildrenGet(cc: ChildCounts, nd: TrainNode, f: Formeme, k: nat)
    ensures ChildCount(CountChildren(cc, nd), f, k)
         == ChildCount(cc, f, k) + (if f == nd.formeme && k == nd.children then 1 else 0)
  {
    var c := if nd.formeme in cc then cc[nd.formeme] else [];
    AddGet(c, nd.children, 1, k);
  }

  lemma {:induction false} CountTreeChildrenGet(cc: ChildCounts, nodes: TrainTree, f: Formeme, k: nat)
    ensures ChildCount(CountTreeChildren(cc, nodes), f, k) == ChildCount(cc, f, k) + NodesWith(nodes, f, k)
  {
    if nodes != [] {
      CountTreeChildrenGet(cc, nodes[..|nodes| - 1], f, k);
      CountChildrenGet(CountTreeChildren(cc, nodes[..|nodes| - 1]), nodes[|nodes| - 1], f, k);
    }
  }

  /** After the first `n` pairs, every histogram count is the number of nodes with that formeme and child count. */
  lemma {:induction false} ChildCountsUpToGet(trees: seq<TrainTree>, n: nat, f: Formeme, k: nat)
    requires n <= |trees|
    ensures ChildCount(ChildCountsUpTo(trees, n), f, k) == ExpectedChildCount(trees, n, f, k)
  {
    if n > 0 {
      ChildCountsUpToGet(trees, n - 1, f, k);
      CountTreeChildrenGet(ChildCountsUpTo(trees, n - 1), trees[n - 1], f, k);
    }
  }

  lemma {:induction false} CountTreeChildrenKeys(cc: ChildCounts, nodes: TrainTree, f: Formeme)
    ensures f in CountTreeChildren(cc, nodes) <==> f in cc || exists j :: 0 <= j < |nodes| && nodes[j].formeme == f
  {
    if nodes != [] {
      var init := nodes[..|nodes| - 1];
      CountTreeChildrenKeys(cc, init, f);
      if exists j :: 0 <= j < |init| && init[j].formeme == f {
        var j :| 0 <= j < |init| && init[j].formeme == f;
        assert nodes[j].formeme == f;
      }
      if exists j :: 0 <= j < |nodes| && nodes[j].formeme == f {
        var j :| 0 <= j < |nodes| && nodes[j].formeme == f;
        if j < |init| {
          assert init[j].formeme == f;
        }
      }
    }
  }

  /** A formeme is in the histogram exactly when some node of a counted tree has it. */
  lemma {:induction false} ChildCountsUpToKeys(trees: seq<TrainTree>, n: nat, f: Formeme)
    requires n <= |trees|
    ensures f in ChildCountsUpTo(trees, n) <==> exists i, j :: 0 <= i < n && 0 <= j < |trees[i]| && trees[i][j].formeme == f
  {
    if n > 0 {
      ChildCountsUpToKeys(trees, n - 1, f);
      CountTreeChildrenKeys(ChildCountsUpTo(trees, n - 1), trees[n - 1], f);
      var t := trees[n - 1];
      if exists j :: 0 <= j < |t| && t[j].formeme == f {
        var j :| 0 <= j < |t| && t[j].formeme == f;
        assert 0 <= n - 1 < n && 0 <= j < |trees[n - 1]| && trees[n - 1][j].formeme == f;
      }
    }
  }

  lemma {:induction false} CountTreeChildrenValid(cc: ChildCounts, nodes: TrainTree)
    requires ChildCountsValid(cc)
    ensures ChildCountsValid(CountTreeChildren(cc, nodes))
  {
    if nodes != [] {
      var init, nd := nodes[..|nodes| - 1], nodes[|nodes| - 1];
      CountTreeChildrenValid(cc, init);
      var prev := CountTreeChildren(cc, init);
      var c := if nd.formeme in prev then prev[nd.formeme] else [];
      AddValid(c, nd.children, 1);
    }
  }

  lemma {:induction false} ChildCountsUpToValid(trees: seq<TrainTree>, n: nat)
    requires n <= |trees|
    ensures ChildCountsValid(ChildCountsUpTo(trees, n))
  {
    if n > 0 {
      ChildCountsUpToValid(trees, n - 1);
      CountTreeChildrenValid(ChildCountsUpTo(trees, n - 1), trees[n - 1]);
    }
  }

  // ---------------------------------------------------------------------------
  // max_children.

  /** `max(counter.keys())`: the largest key of a non-empty counter. */
  function MaxKey(c: Counter<nat>): (m: nat)
    requires c != []
    ensures m in Keys(c)
    ensures forall k :: k in Keys(c) ==> k <= m
  {
    assert Keys(c) == [c[0].0] + Keys(c[1..]);
    if |c| == 1 then c[0].0
    else
      var rest := MaxKey(c[1..]);
      if c[0].0 >= rest then c[0].0 else rest
  }

  /** `{formeme: max(child_counts[formeme].keys()) for formeme in child_counts.keys()}`. */
  function MaxChildrenOf(cc: ChildCounts): (m: map<Formeme, nat>)
    requires forall f :: f in cc ==> cc[f] != []
    ensures m.Keys == cc.Keys
    ensures forall f :: f in m ==> m[f] in Keys(cc[f]) && forall k :: k in Keys(cc[f]) ==> k <= m[f]
  {
    map f | f in cc :: MaxKey(cc[f])
  }

  lemma {:induction false} NodesWithPositive(tree: TrainTree, j: nat)
    requires j < |tree|
    ensures NodesWith(tree, tree[j].formeme, tree[j].children) > 0
  {
    if j < |tree| - 1 {
      NodesWithPositive(tree[..|tree| - 1], j);
    }
  }

  lemma {:induction false} ExpectedChildCountPositive(trees: seq<TrainTree>, n: nat, i: nat, j: nat)
    requires i < n <= |trees| && j < |trees[i]|
    ensures ExpectedChildCount(trees, n, trees[i][j].formeme, trees[i][j].children) > 0
  {
    if i < n - 1 {
      ExpectedChildCountPositive(trees, n - 1, i, j);
    } else {
      NodesWithPositive(trees[i], j);
    }
  }

  /**
   After training, the formeme of every non-root node of a counted tree has a
   `max_children` entry, and that entry is at least the node's child count.
   */
  lemma TrainedMaxChildrenBound(trees: seq<TrainTree>, das: seq<Da>, i: nat, j: nat)
    requires i < Min(|trees|, |das|) && j < |trees[i]|
    ensures ChildCountsValid(ChildCountsOf(trees, das))
    ensures trees[i][j].formeme in MaxChildrenOf(ChildCountsOf(trees, das))
    ensures trees[i][j].children <= MaxChildrenOf(ChildCountsOf(trees, das))[trees[i][j].formeme]
  {
    var n := Min(|trees|, |das|);
    var nd := trees[i][j];
    var cc := ChildCountsOf(trees, das);
    ChildCountsUpToValid(trees, n);
    ChildCountsUpToGet(trees, n, nd.formeme, nd.children);
    ExpectedChildCountPositive(trees, n, i, j);
    assert nd.formeme in cc;
    GetPositive(cc[nd.formeme], nd.children);
  }

  // ---------------------------------------------------------------------------
  // The counting loops of `train`.

  /** Lines 61-63 of `train`: one act item paired with every node of the tree. */
  method CountItemNodes(fc0: FormCounts, dai: Dai, tree: TrainTree) returns (formCounts: FormCounts)
    ensures formCounts == CountNodes(fc0, dai, tree)
  {
    formCounts := fc0;
    var k := 0;
    while k < |tree|
      invariant 0 <= k <= |tree|
      invariant formCounts == CountNodes(fc0, dai, tree[..k])
    {
      var node := tree[k];
      ghost var prev := formCounts;
      // a missing item starts as an empty defaultdict(Counter)
      var inner := if dai in formCounts then formCounts[dai] else map[];
      var counter := if node.parentFormeme in inner then inner[node.parentFormeme] else [];
      formCounts := formCounts[dai := inner[node.parentFormeme := Add(counter, EntryOf(node), 1)]];
      assert formCounts == CountNode(prev, dai, node);
      assert tree[..k + 1][..k] == tree[..k];
      assert CountNodes(fc0, dai, tree[..k + 1]) == CountNode(CountNodes(fc0, dai, tree[..k]), dai, node);
      k := k + 1;
    }
    assert tree[..|tree|] == tree;
  }

  /** Lines 59-63 of `train`: one pair's act items times its tree's nodes. */
  method CountPairForms(fc0: FormCounts, da: Da, tree: TrainTree) returns (formCounts: FormCounts)
    ensures formCounts == CountDais(fc0, da, tree)
  {
    formCounts := fc0;
    var j := 0;
    while j < |da|
      invariant 0 <= j <= |da|
      invariant formCounts == CountDais(fc0, da[..j], tree)
    {
      formCounts := CountItemNodes(formCounts, da[j], tree);
      assert da[..j + 1][..j] == da[..j];
      j := j + 1;
    }
    assert da[..|da|] == da;
  }

  /** Lines 65-66 of `train`: one tree's nodes into the histogram. */
  method CountPairChildren(cc0: ChildCounts, tree: TrainTree) returns (childCounts: ChildCounts)
    ensures childCounts == CountTreeChildren(cc0, tree)
  {
    childCounts := cc0;
    var k := 0;
    while k < |tree|
      invariant 0 <= k <= |tree|
      invariant childCounts == CountTreeChildren(cc0, tree[..k])
    {
      var node := tree[k];
      var counter := if node.formeme in childCounts then childCounts[node.formeme] else [];
      childCounts := childCounts[node.formeme := Add(counter, node.children, 1)];
      assert tree[..k + 1][..k] == tree[..k];
      k := k + 1;
    }
    assert tree[..|tree|] == tree;
  }

  /**
   Lines 54-66 of `train`: walks the zipped pairs, and for each pair the act's
   items times the tree's nodes, then the tree's nodes again for the histogram.
   */
  method CollectCounts(trees: seq<TrainTree>, das: seq<Da>) returns (formCounts: FormCounts, childCounts: ChildCounts)
    ensures formCounts == FormCountsOf(trees, das) && childCounts == ChildCountsOf(trees, das)
  {
    var n := Min(|trees|, |das|);
    formCounts, childCounts := map[], map[];
    var i := 0;
    while i < n
      invariant 0 <= i <= n
      invariant formCounts == FormCountsUpTo(trees, das, i)
      invariant childCounts == ChildCountsUpTo(trees, i)
    {
      formCounts := CountPairForms(formCounts, das[i], trees[i]);
      childCounts := CountPairChildren(childCounts, trees[i]);
      i := i + 1;
    }
  }
}
