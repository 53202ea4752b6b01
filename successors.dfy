/**
 Successor expansion (`get_all_sucessors`). A candidate tree is the list of
 its nodes in surface order, root included, which is what
 `get_descendants(add_self=1, ordered=1)` returns; each node records the
 position of its parent in that list (-1 for the root). A successor is a copy
 of the candidate with one new child inserted immediately after its attach
 node (when the child goes right of its parent) or immediately before it.
 Inserting at position `p` moves every node at `p` or later one place on, so
 every parent index `q` becomes `Shift(q, p)`.
 */
module Successors {
  import opened Base
  import opened Counters
  import opened Distributions

  /** A candidate-tree node: its formeme, its lemma and its parent's position (-1 for the root). */
  datatype Node = Node(formeme: Formeme, tLemma: Lemma, parent: int)

  /** `len(tnode.get_children())` for the node at position `i`. */
  function ChildCountOf(s: seq<Node>, i: int): (r: nat)
  {
    if s == [] then 0 else (if s[0].parent == i then 1 else 0) + ChildCountOf(s[1..], i)
  }

  /** Every parent index is -1 or a position of the tree. */
  predicate ParentsInRange(s: seq<Node>)
  {
    forall i :: 0 <= i < |s| ==> -1 <= s[i].parent < |s|
  }

  /** Where position `q` ends up once a node is inserted at `p`. */
  function Shift(q: int, p: nat): (r: int)
  {
    if q >= p then q + 1 else q
  }

  /** Where position `q` ends up once the node at `p` is removed. */
  function Unshift(q: int, p: nat): (r: int)
  {
    if q > p then q - 1 else q
  }

  function Reparent(n: Node, p: nat): (r: Node)
  {
    n.(parent := Shift(n.parent, p))
  }

  function ReparentAll(t: seq<Node>, p: nat): (r: seq<Node>)
    ensures |r| == |t| && forall i :: 0 <= i < |t| ==> r[i] == Reparent(t[i], p)
  {
    seq(|t|, i requires 0 <= i < |t| => Reparent(t[i], p))
  }

  function UnparentAll(t: seq<Node>, p: nat): (r: seq<Node>)
    ensures |r| == |t| && forall i :: 0 <= i < |t| ==> r[i] == t[i].(parent := Unshift(t[i].parent, p))
  {
    seq(|t|, i requires 0 <= i < |t| => t[i].(parent := Unshift(t[i].parent, p)))
  }

  /** The position of the new node: right after the attach node, or at its place, pushing it on. */
  function InsertPos(a: nat, e: ChildEntry): (r: nat)
  {
    if e.right then a + 1 else a
  }

  /**
   `create_child` followed by `shift_after_node` / `shift_before_node`: the
   successor of `s` with a new child for entry `e` below the node at `a`.
   */
  function Insert(s: seq<Node>, a: nat, e: ChildEntry): (r: seq<Node>)
    requires a < |s|
    ensures |r| == |s| + 1
  {
    var p := InsertPos(a, e);
    ReparentAll(s[..p], p) + [Node(e.formeme, e.tLemma, Shift(a, p))] + ReparentAll(s[p..], p)
  }

  /** Position `k` of the successor: an old node, reparented, or the new node. */
  lemma InsertAt(s: seq<Node>, a: nat, e: ChildEntry, k: nat)
    requires a < |s| && k <= |s|
    ensures var p := InsertPos(a, e);
      && (k < p ==> Insert(s, a, e)[k] == Reparent(s[k], p))
      && (k == p ==> Insert(s, a, e)[k] == Node(e.formeme, e.tLemma, Shift(a, p)))
      && (k > p ==> Insert(s, a, e)[k] == Reparent(s[k - 1], p))
  {
    var p := InsertPos(a, e);
    var rl, rr := ReparentAll(s[..p], p), ReparentAll(s[p..], p);
    assert Insert(s, a, e) == rl + [Node(e.formeme, e.tLemma, Shift(a, p))] + rr;
    if k > p {
      assert Insert(s, a, e)[k] == rr[k - 1 - p];
    }
  }

  /** Parent indices stay in range. */
  lemma InsertParentsInRange(s: seq<Node>, a: nat, e: ChildEntry)
    requires a < |s| && ParentsInRange(s)
    ensures ParentsInRange(Insert(s, a, e))
  {
    var r := Insert(s, a, e);
    forall k | 0 <= k < |r| ensures -1 <= r[k].parent < |r| {
      InsertAt(s, a, e, k);
    }
  }

  /**
   The successor holds the new node at its position, with the attach node as
   its parent and next to it on the side `e` asks for; every old node moves to
   its shifted position with its parent index shifted alike; and parent
   indices stay in range.
   */
  lemma InsertShape(s: seq<Node>, a: nat, e: ChildEntry)
    requires a < |s|
    ensures Insert(s, a, e)[InsertPos(a, e)] == Node(e.formeme, e.tLemma, Shift(a, InsertPos(a, e)))
    ensures forall j :: 0 <= j < |s| ==> Insert(s, a, e)[Shift(j, InsertPos(a, e))] == Reparent(s[j], InsertPos(a, e))
    ensures Shift(a, InsertPos(a, e)) == if e.right then InsertPos(a, e) - 1 else InsertPos(a, e) + 1
    ensures ParentsInRange(s) ==> ParentsInRange(Insert(s, a, e))
  {
    var p := InsertPos(a, e);
    InsertAt(s, a, e, p);
    forall j | 0 <= j < |s| ensures Insert(s, a, e)[Shift(j, p)] == Reparent(s[j], p) {
      InsertAt(s, a, e, Shift(j, p));
    }
    if ParentsInRange(s) {
      InsertParentsInRange(s, a, e);
    }
  }

  /** The inverse of `Insert`: drops the node at `p` and moves the later positions back. */
  function Remove(r: seq<Node>, p: nat): (res: seq<Node>)
    requires p < |r|
  {
    UnparentAll(r[..p], p) + UnparentAll(r[p + 1..], p)
  }

  /** Removing the inserted node gives back the candidate: a successor is the candidate plus one node. */
  lemma InsertRemove(s: seq<Node>, a: nat, e: ChildEntry)
    requires a < |s|
    ensures Remove(Insert(s, a, e), InsertPos(a, e)) == s
  {
    var p := InsertPos(a, e);
    var r := Insert(s, a, e);
    var back := Remove(r, p);
    assert |back| == |s|;
    forall i | 0 <= i < |s| ensures back[i] == s[i] {
      if i < p {
        InsertAt(s, a, e, i);
        assert back[i] == r[i].(parent := Unshift(r[i].parent, p));
      } else {
        InsertAt(s, a, e, i + 1);
        assert back[i] == r[i + 1].(parent := Unshift(r[i + 1].parent, p));
      }
    }
  }

  lemma {:induction false} ChildCountConcat(a: seq<Node>, b: seq<Node>, i: int)
    ensures ChildCountOf(a + b, i) == ChildCountOf(a, i) + ChildCountOf(b, i)
  {
    if a == [] {
      assert a + b == b;
    } else {
      assert (a + b)[1..] == a[1..] + b;
      ChildCountConcat(a[1..], b, i);
    }
  }

  /** Moving positions on keeps every node's children: `Shift` is one-to-one and never yields `p`. */
  lemma {:induction false} ReparentAllCount(t: seq<Node>, p: nat, j: int)
    ensures ChildCountOf(ReparentAll(t, p), Shift(j, p)) == ChildCountOf(t, j)
    ensures ChildCountOf(ReparentAll(t, p), p) == 0
  {
    if t != [] {
      assert ReparentAll(t, p)[1..] == ReparentAll(t[1..], p);
      ReparentAllCount(t[1..], p, j);
    }
  }

  /**
   The new node has no children; the attach node gains exactly one; every
   other node keeps its number of children.
   */
  lemma InsertChildCounts(s: seq<Node>, a: nat, e: ChildEntry, j: nat)
    requires a < |s| && j < |s|
    ensures ChildCountOf(Insert(s, a, e), InsertPos(a, e)) == 0
    ensures ChildCountOf(Insert(s, a, e), Shift(j, InsertPos(a, e)))
         == ChildCountOf(s, j) + (if j == a then 1 else 0)
  {
    var p := InsertPos(a, e);
    var left, right := s[..p], s[p..];
    var rl, rr := ReparentAll(left, p), ReparentAll(right, p);
    var added := [Node(e.formeme, e.tLemma, Shift(a, p))];
    var r := Insert(s, a, e);
    assert r == rl + added + rr;
    assert ChildCountOf(added, p) == 0 && ChildCountOf(added, Shift(j, p)) == (if j == a then 1 else 0) by {
      assert added[1..] == [];
      assert Shift(a, p) != p;
      assert Shift(j, p) == Shift(a, p) <==> j == a;
    }
    assert ChildCountOf(r, p) == ChildCountOf(rl, p) + ChildCountOf(added, p) + ChildCountOf(rr, p) by {
      ChildCountConcat(rl + added, rr, p);
      ChildCountConcat(rl, added, p);
    }
    assert ChildCountOf(r, Shift(j, p)) == ChildCountOf(rl, Shift(j, p)) + ChildCountOf(added, Shift(j, p)) + ChildCountOf(rr, Shift(j, p)) by {
      ChildCountConcat(rl + added, rr, Shift(j, p));
      ChildCountConcat(rl, added, Shift(j, p));
    }
    ReparentAllCount(left, p, j);
    ReparentAllCount(right, p, j);
    assert ChildCountOf(s, j) == ChildCountOf(left, j) + ChildCountOf(right, j) by {
      assert s == left + right;
      ChildCountConcat(left, right, j);
    }
  }

  // ---------------------------------------------------------------------------
  // Which successors are produced, and in which order.

  /** A successor attaches a child for `entry` below the node at position `node`. */
  datatype Attach = Attach(node: nat, entry: ChildEntry)

  function AttachAll(i: nat, keys: seq<ChildEntry>): (r: seq<Attach>)
    ensures |r| == |keys| && forall k :: 0 <= k < |keys| ==> r[k] == Attach(i, keys[k])
  {
    seq(|keys|, k requires 0 <= k < |keys| => Attach(i, keys[k]))
  }

  /**
   Lines 117-121 for the node at position `i`: the successors it contributes
   or the lookup that fails. A node is skipped only when it has MORE children
   than `max_children` allows; one already at the maximum is still expanded.
   */
  function NodeStep(s: seq<Node>, i: nat, cdfs: map<Formeme, Cdf<ChildEntry>>, maxC: Option<map<Formeme, nat>>): (r: Result<seq<Attach>>)
    requires i < |s|
  {
    var f := s[i].formeme;
    if maxC.None? then Err(NotTrained)
    else if f !in maxC.value then Err(UnknownMaxChildren(f))
    else if ChildCountOf(s, i) > maxC.value[f] then Ok([])
    else if f !in cdfs then Err(UnknownCdf(f))
    else Ok(AttachAll(i, Keys(cdfs[f])))
  }

  /** The successors of the first `n` nodes, in node order and then in the CDF's key order. */
  function PlanUpTo(s: seq<Node>, n: nat, cdfs: map<Formeme, Cdf<ChildEntry>>, maxC: Option<map<Formeme, nat>>): (r: Result<seq<Attach>>)
    requires n <= |s|
  {
    if n == 0 then Ok([])
    else match PlanUpTo(s, n - 1, cdfs, maxC)
      case Err(err) => Err(err)
      case Ok(done) =>
        match NodeStep(s, n - 1, cdfs, maxC)
        case Err(err) => Err(err)
        case Ok(more) => Ok(done + more)
  }

  function PlanOf(s: seq<Node>, cdfs: map<Formeme, Cdf<ChildEntry>>, maxC: Option<map<Formeme, nat>>): (r: Result<seq<Attach>>)
  {
    PlanUpTo(s, |s|, cdfs, maxC)
  }

  /** The node at `i` is expanded: its formeme is known to both tables and it is not over the maximum. */
  predicate Expanded(s: seq<Node>, i: nat, cdfs: map<Formeme, Cdf<ChildEntry>>, maxC: Option<map<Formeme, nat>>)
    requires i < |s|
  {
    maxC.Some? && s[i].formeme in maxC.value && ChildCountOf(s, i) <= maxC.value[s[i].formeme] && s[i].formeme in cdfs
  }

  /** The expansion fails exactly when some node's lookup fails, and then with the first such node's error. */
  lemma {:induction false} PlanErrors(s: seq<Node>, n: nat, cdfs: map<Formeme, Cdf<ChildEntry>>, maxC: Option<map<Formeme, nat>>)
    requires n <= |s|
    ensures PlanUpTo(s, n, cdfs, maxC).Ok? <==> forall i :: 0 <= i < n ==> NodeStep(s, i, cdfs, maxC).Ok?
    ensures PlanUpTo(s, n, cdfs, maxC).Err? ==>
      exists i :: 0 <= i < n && NodeStep(s, i, cdfs, maxC).Err?
        && PlanUpTo(s, n, cdfs, maxC).error == NodeStep(s, i, cdfs, maxC).error
        && forall j :: 0 <= j < i ==> NodeStep(s, j, cdfs, maxC).Ok?
  {
    if n > 0 {
      PlanErrors(s, n - 1, cdfs, maxC);
    }
  }

  /**
   A successor (a, e) is produced exactly when node `a` is expanded and `e`
   is a key of the CDF of `a`'s formeme.
   */
  lemma {:induction false} PlanMembers(s: seq<Node>, n: nat, cdfs: map<Formeme, Cdf<ChildEntry>>, maxC: Option<map<Formeme, nat>>, x: Attach)
    requires n <= |s| && PlanUpTo(s, n, cdfs, maxC).Ok?
    ensures x in PlanUpTo(s, n, cdfs, maxC).value <==>
      x.node < n && Expanded(s, x.node, cdfs, maxC) && x.entry in Keys(cdfs[s[x.node].formeme])
  {
    if n > 0 {
      PlanMembers(s, n - 1, cdfs, maxC, x);
      var more := NodeStep(s, n - 1, cdfs, maxC).value;
      if Expanded(s, n - 1, cdfs, maxC) {
        var keys := Keys(cdfs[s[n - 1].formeme]);
        if x.node == n - 1 && x.entry in keys {
          var k :| 0 <= k < |keys| && keys[k] == x.entry;
          assert more[k] == x;
        }
      }
    }
  }

  /** The successors come in node order. */
  lemma {:induction false} PlanOrdered(s: seq<Node>, n: nat, cdfs: map<Formeme, Cdf<ChildEntry>>, maxC: Option<map<Formeme, nat>>)
    requires n <= |s| && PlanUpTo(s, n, cdfs, maxC).Ok?
    ensures forall k :: 0 <= k < |PlanUpTo(s, n, cdfs, maxC).value| ==> PlanUpTo(s, n, cdfs, maxC).value[k].node < n
    ensures forall k, l :: 0 <= k < l < |PlanUpTo(s, n, cdfs, maxC).value| ==>
      PlanUpTo(s, n, cdfs, maxC).value[k].node <= PlanUpTo(s, n, cdfs, maxC).value[l].node
  {
    if n > 0 {
      PlanOrdered(s, n - 1, cdfs, maxC);
    }
  }

  /** The number of keys over the expanded nodes among the first `n`. */
  function ExpandedKeyCount(s: seq<Node>, n: nat, cdfs: map<Formeme, Cdf<ChildEntry>>, maxC: Option<map<Formeme, nat>>): (r: nat)
    requires n <= |s|
  {
    if n == 0 then 0
    else
      var here := if Expanded(s, n - 1, cdfs, maxC) then |cdfs[s[n - 1].formeme]| else 0;
      ExpandedKeyCount(s, n - 1, cdfs, maxC) + here
  }

  /** There is one successor per key of every expanded node's CDF. */
  lemma {:induction false} PlanSize(s: seq<Node>, n: nat, cdfs: map<Formeme, Cdf<ChildEntry>>, maxC: Option<map<Formeme, nat>>)
    requires n <= |s| && PlanUpTo(s, n, cdfs, maxC).Ok?
    ensures |PlanUpTo(s, n, cdfs, maxC).value| == ExpandedKeyCount(s, n, cdfs, maxC)
  {
    if n > 0 {
      PlanSize(s, n - 1, cdfs, maxC);
    }
  }

  /**
   A single root with formeme "v:fin", a CDF with two entries for "v:fin" and
   `max_children["v:fin"] == 1` give exactly two successors, each the root
   with one child.
   */
  lemma SingleRootExample(e1: ChildEntry, e2: ChildEntry)
    ensures var root := [Node("v:fin", "be", -1)];
      var plan := PlanOf(root, map["v:fin" := [(e1, 0.5), (e2, 1.0)]], Some(map["v:fin" := 1]));
      && plan == Ok([Attach(0, e1), Attach(0, e2)])
      && |Insert(root, 0, e1)| == 2 && ChildCountOf(Insert(root, 0, e1), Shift(0, InsertPos(0, e1))) == 1
      && |Insert(root, 0, e2)| == 2 && ChildCountOf(Insert(root, 0, e2), Shift(0, InsertPos(0, e2))) == 1
  {
    var root := [Node("v:fin", "be", -1)];
    var cdfs := map["v:fin" := [(e1, 0.5), (e2, 1.0)]];
    var maxC := Some(map["v:fin" := 1]);
    assert ChildCountOf(root, 0) == 0;
    assert Keys(cdfs["v:fin"]) == [e1, e2];
    assert NodeStep(root, 0, cdfs, maxC) == Ok(AttachAll(0, [e1, e2]));
    assert AttachAll(0, [e1, e2]) == [Attach(0, e1), Attach(0, e2)];
    assert PlanUpTo(root, 0, cdfs, maxC) == Ok([]);
    assert [] + [Attach(0, e1), Attach(0, e2)] == [Attach(0, e1), Attach(0, e2)];
    InsertChildCounts(root, 0, e1, 0);
    InsertChildCounts(root, 0, e2, 0);
  }

  // ---------------------------------------------------------------------------
  // The code as written: line 121 calls `.keys()` on a CDF, which is a list.

  /** Node `i` as line 121 runs it: where the corrected step would list the CDF's keys, the call fails. */
  function NodeStepAsWritten(s: seq<Node>, i: nat, cdfs: map<Formeme, Cdf<ChildEntry>>, maxC: Option<map<Formeme, nat>>): (r: Result<seq<Attach>>)
    requires i < |s|
  {
    if Expanded(s, i, cdfs, maxC) then Err(ListHasNoKeys) else NodeStep(s, i, cdfs, maxC)
  }

  function PlanAsWrittenUpTo(s: seq<Node>, n: nat, cdfs: map<Formeme, Cdf<ChildEntry>>, maxC: Option<map<Formeme, nat>>): (r: Result<seq<Attach>>)
    requires n <= |s|
  {
    if n == 0 then Ok([])
    else match PlanAsWrittenUpTo(s, n - 1, cdfs, maxC)
      case Err(err) => Err(err)
      case Ok(done) =>
        match NodeStepAsWritten(s, n - 1, cdfs, maxC)
        case Err(err) => Err(err)
        case Ok(more) => Ok(done + more)
  }

  /** As written, the expansion never yields a successor: it returns none or fails. */
  lemma {:induction false} AsWrittenNeverExpands(s: seq<Node>, n: nat, cdfs: map<Formeme, Cdf<ChildEntry>>, maxC: Option<map<Formeme, nat>>)
    requires n <= |s|
    ensures PlanAsWrittenUpTo(s, n, cdfs, maxC).Ok? ==> PlanAsWrittenUpTo(s, n, cdfs, maxC).value == []
  {
    if n > 0 {
      AsWrittenNeverExpands(s, n - 1, cdfs, maxC);
      if !Expanded(s, n - 1, cdfs, maxC) && NodeStep(s, n - 1, cdfs, maxC).Ok? {
        assert NodeStep(s, n - 1, cdfs, maxC).value == [];
      }
    }
  }

  /** Where no node is expanded, the code as written agrees with the corrected expansion. */
  lemma {:induction false} AsWrittenAgrees(s: seq<Node>, n: nat, cdfs: map<Formeme, Cdf<ChildEntry>>, maxC: Option<map<Formeme, nat>>)
    requires n <= |s|
    requires forall i :: 0 <= i < n ==> !Expanded(s, i, cdfs, maxC)
    ensures PlanAsWrittenUpTo(s, n, cdfs, maxC) == PlanUpTo(s, n, cdfs, maxC)
  {
    if n > 0 {
      AsWrittenAgrees(s, n - 1, cdfs, maxC);
    }
  }

  /**
   Wherever the corrected expansion succeeds and expands some node, the code
   as written fails on the first `.keys()` call instead.
   */
  lemma {:induction false} AsWrittenFails(s: seq<Node>, n: nat, cdfs: map<Formeme, Cdf<ChildEntry>>, maxC: Option<map<Formeme, nat>>)
    requires n <= |s| && PlanUpTo(s, n, cdfs, maxC).Ok?
    requires exists i :: 0 <= i < n && Expanded(s, i, cdfs, maxC)
    ensures PlanAsWrittenUpTo(s, n, cdfs, maxC) == Err(ListHasNoKeys)
  {
    if exists i :: 0 <= i < n - 1 && Expanded(s, i, cdfs, maxC) {
      AsWrittenFails(s, n - 1, cdfs, maxC);
    } else {
      AsWrittenAgrees(s, n - 1, cdfs, maxC);
    }
  }

  /** In particular, every tree that has a successor has none as written. */
  lemma AsWrittenLosesSuccessors(s: seq<Node>, cdfs: map<Formeme, Cdf<ChildEntry>>, maxC: Option<map<Formeme, nat>>)
    requires PlanOf(s, cdfs, maxC).Ok? && PlanOf(s, cdfs, maxC).value != []
    ensures PlanAsWrittenUpTo(s, |s|, cdfs, maxC) == Err(ListHasNoKeys)
  {
    var x := PlanOf(s, cdfs, maxC).value[0];
    PlanMembers(s, |s|, cdfs, maxC, x);
    AsWrittenFails(s, |s|, cdfs, maxC);
  }

  /** The single-root example as written: the first `.keys()` call fails. */
  lemma SingleRootAsWritten(e1: ChildEntry, e2: ChildEntry)
    ensures PlanAsWrittenUpTo([Node("v:fin", "be", -1)], 1, map["v:fin" := [(e1, 0.5), (e2, 1.0)]], Some(map["v:fin" := 1]))
         == Err(ListHasNoKeys)
  {
    assert ChildCountOf([Node("v:fin", "be", -1)], 0) == 0;
  }

  // ---------------------------------------------------------------------------
  // Building one successor.

  /** A sequence that agrees with `Insert` position by position is `Insert`. */
  lemma InsertPointwise(s: seq<Node>, a: nat, e: ChildEntry, r: seq<Node>)
    requires a < |s| && |r| == |s| + 1
    requires forall m :: 0 <= m < InsertPos(a, e) ==> r[m] == Reparent(s[m], InsertPos(a, e))
    requires r[InsertPos(a, e)] == Node(e.formeme, e.tLemma, Shift(a, InsertPos(a, e)))
    requires forall m :: InsertPos(a, e) <= m < |s| ==> r[m + 1] == Reparent(s[m], InsertPos(a, e))
    ensures r == Insert(s, a, e)
  {
    var p := InsertPos(a, e);
    var t := ReparentAll(s[..p], p) + [Node(e.formeme, e.tLemma, Shift(a, p))] + ReparentAll(s[p..], p);
    forall m | 0 <= m < |r| ensures r[m] == t[m] {
      if m > p {
        assert r[(m - 1) + 1] == Reparent(s[m - 1], p);
      }
    }
  }

  /**
   Lines 122-128: a fresh copy of the candidate with the new child in place.
   The candidate itself is not touched.
   */
  method CopyWithChild(cand: array<Node>, a: nat, e: ChildEntry) returns (succ: array<Node>)
    requires a < cand.Length
    ensures fresh(succ)
    ensures succ[..] == Insert(cand[..], a, e)
  {
    var p := InsertPos(a, e);
    succ := new Node[cand.Length + 1];
    var k := 0;
    while k < p
      invariant 0 <= k <= p
      invariant forall m :: 0 <= m < k ==> succ[m] == Reparent(cand[m], p)
    {
      succ[k] := Reparent(cand[k], p);
      k := k + 1;
    }
    succ[p] := Node(e.formeme, e.tLemma, Shift(a, p));
    while k < cand.Length
      invariant p <= k <= cand.Length
      invariant forall m :: 0 <= m < p ==> succ[m] == Reparent(cand[m], p)
      invariant succ[p] == Node(e.formeme, e.tLemma, Shift(a, p))
      invariant forall m :: p <= m < k ==> succ[m + 1] == Reparent(cand[m], p)
    {
      succ[k + 1] := Reparent(cand[k], p);
      k := k + 1;
    }
    InsertPointwise(cand[..], a, e, succ[..]);
  }

  /** The arrays `succs` hold, in order, the successors of `s` that `plan` names. */
  ghost predicate Realises(succs: seq<array<Node>>, plan: seq<Attach>, s: seq<Node>)
    reads succs
  {
    && |succs| == |plan|
    && forall k :: 0 <= k < |succs| ==> plan[k].node < |s| && succs[k][..] == Insert(s, plan[k].node, plan[k].entry)
  }

  lemma RealisesAppend(a: seq<array<Node>>, p: seq<Attach>, b: seq<array<Node>>, q: seq<Attach>, s: seq<Node>)
    requires Realises(a, p, s) && Realises(b, q, s)
    ensures Realises(a + b, p + q, s)
  {
    forall k | |a| <= k < |a| + |b|
      ensures (p + q)[k].node < |s| && (a + b)[k][..] == Insert(s, (p + q)[k].node, (p + q)[k].entry)
    {
      assert (a + b)[k] == b[k - |a|] && (p + q)[k] == q[k - |a|];
    }
  }

  /**
   Lines 121-129 for the node at `a`: one fresh successor per key of its
   formeme's CDF, in the CDF's order.
   */
  method SuccessorsAt(cand: array<Node>, a: nat, cdf: Cdf<ChildEntry>) returns (succs: seq<array<Node>>)
    requires a < cand.Length
    ensures |succs| == |cdf|
    ensures forall k :: 0 <= k < |succs| ==> fresh(succs[k]) && succs[k][..] == Insert(cand[..], a, cdf[k].0)
    ensures forall k, l :: 0 <= k < l < |succs| ==> succs[k] != succs[l]
  {
    succs := [];
    for j := 0 to |cdf|
      invariant |succs| == j
      invariant forall k :: 0 <= k < j ==> fresh(succs[k]) && succs[k][..] == Insert(cand[..], a, cdf[k].0)
      invariant forall k, l :: 0 <= k < l < j ==> succs[k] != succs[l]
    {
      var succ := CopyWithChild(cand, a, cdf[j].0);
      succs := succs + [succ];
    }
  }
}
