/**
 InverseAffineIterMapTransformer of src/arith/iter_affine_map.cc. Iter-map
 expressions form a DAG of shared objects; an object is identified by its
 position in the order of creation, so it refers only to smaller positions.
 */
module IterInverse {
  import opened IntOperator
  import opened Radix
  import opened Fusion
  import opened Exprs

  /** An IterSumExpr, or an IterSplitExpr reading a mark. */
  datatype Node =
    | SumNode(args: seq<nat>, base: int)
    | SplitNode(mark: nat, lower: int, extent: int, scale: int)

  datatype Source = FromVar(name: string) | FromSum(node: nat)

  datatype Mark = Mark(source: Source, extent: int)

  datatype Graph = Graph(nodes: seq<Node>, marks: seq<Mark>) {

    predicate IsSum(i: nat) { i < |nodes| && nodes[i].SumNode? }

    predicate IsSplit(i: nat) { i < |nodes| && nodes[i].SplitNode? }

    /** References go to earlier objects of the right kind; factors are positive, scales nonzero. */
    predicate Valid() {
      forall i :: 0 <= i < |nodes| ==> NodeValid(i)
    }

    predicate NodeValid(i: nat)
      requires i < |nodes|
    {
      match nodes[i]
      case SumNode(args, _) => forall k :: 0 <= k < |args| ==> args[k] < i && IsSplit(args[k])
      case SplitNode(m, l, e, s) =>
        && m < |marks| && l > 0 && e > 0 && s != 0
        && (marks[m].source.FromSum? ==> marks[m].source.node < i && IsSum(marks[m].source.node))
    }

    /** The objects a node refers to directly. */
    function Children(i: nat): seq<nat>
      requires i < |nodes|
    {
      match nodes[i]
      case SumNode(args, _) => args
      case SplitNode(m, _, _, _) =>
        if m < |marks| && marks[m].source.FromSum? then [marks[m].source.node] else []
    }

    /** Argument `k` of a sum. */
    function Arg(i: nat, k: nat): (a: nat)
      requires Valid() && IsSum(i) && k < |nodes[i].args|
      ensures a == nodes[i].args[k] && a < i && IsSplit(a)
      ensures nodes[a].lower > 0 && nodes[a].extent > 0 && nodes[a].scale != 0
    {
      assert NodeValid(i);
      assert NodeValid(nodes[i].args[k]);
      nodes[i].args[k]
    }

    // ----- the forward map -----

    function SlotOf(i: nat): Slot
      requires IsSplit(i)
    {
      Slot(nodes[i].lower, nodes[i].extent)
    }

    /** Value of a sum at the point `v` of the iterator domain. */
    ghost function SumValue(i: nat, v: Valuation): int
      requires Valid() && IsSum(i)
      decreases i, 1
    {
      assert NodeValid(i);
      nodes[i].base + ArgsValue(i, |nodes[i].args|, v)
    }

    /** Sum of the last `cnt` scaled arguments. */
    ghost function ArgsValue(i: nat, cnt: nat, v: Valuation): int
      requires Valid() && IsSum(i) && cnt <= |nodes[i].args|
      decreases i, 0, cnt
    {
      assert NodeValid(i);
      if cnt == 0 then 0 else
        var arg := nodes[i].args[|nodes[i].args| - cnt];
        ArgsValue(i, cnt - 1, v) + SplitValue(arg, v) * nodes[arg].scale
    }

    /** Value of a split before scaling. */
    ghost function SplitValue(i: nat, v: Valuation): (d: int)
      requires Valid() && IsSplit(i)
      ensures 0 <= d < nodes[i].extent
      decreases i, 1
    {
      assert NodeValid(i);
      var m := marks[nodes[i].mark];
      var x := match m.source case FromVar(n) => v(n) case FromSum(s) => SumValue(s, v);
      Digit(x, SlotOf(i))
    }
  }

  // ----- the traversal order -----

  function Elements(s: seq<nat>): set<nat> {
    set n | n in s
  }

  ghost predicate NoRepeat(s: seq<nat>) {
    forall j, k :: 0 <= j < k < |s| ==> s[j] != s[k]
  }

  /** Every node comes after all its children. */
  ghost predicate ChildrenFirst(g: Graph, order: seq<nat>) {
    && (forall k :: 0 <= k < |order| ==> order[k] < |g.nodes|)
    && forall k, c :: 0 <= k < |order| && c in g.Children(order[k]) ==> c in order[..k]
  }

  /** Every node is a root or used by a node of `users`. */
  ghost predicate Supported(g: Graph, order: seq<nat>, roots: seq<nat>, users: set<nat>) {
    forall n :: n in order ==> n in roots || UsedBy(g, n, users)
  }

  ghost predicate UsedBy(g: Graph, n: nat, users: set<nat>) {
    exists u :: u in users && u < |g.nodes| && n in g.Children(u)
  }

  lemma ChildrenSmaller(g: Graph, i: nat, c: nat)
    requires g.Valid() && i < |g.nodes| && c in g.Children(i)
    ensures c < i
  {
    assert g.NodeValid(i);
  }

  /** The depth-first search of ReverseTopologyOrder. */
  class Search {
    const g: Graph
    var visited: set<nat>
    var postOrder: seq<nat>

    constructor (g: Graph)
      ensures this.g == g && visited == {} && postOrder == []
    {
      this.g := g;
      visited, postOrder := {}, [];
    }

    /** `active` are the nodes whose visit has begun and not ended. */
    ghost predicate Inv(active: set<nat>, roots: seq<nat>)
      reads this
    {
      && g.Valid() && NoRepeat(postOrder) && ChildrenFirst(g, postOrder)
      && visited == Elements(postOrder) + active
      && (forall a :: a in active ==> a !in postOrder)
      && Supported(g, postOrder, roots, visited)
    }

    method Visit(i: nat, ghost active: set<nat>, ghost roots: seq<nat>)
      requires Inv(active, roots) && i < |g.nodes|
      requires forall a :: a in active ==> i < a
      requires i in roots || UsedBy(g, i, visited)
      modifies this
      ensures Inv(active, roots) && i in postOrder
      ensures old(visited) <= visited && old(postOrder) <= postOrder
      decreases i
    {
      if i in visited { return; }
      visited := visited + {i};
      ghost var active' := active + {i};
      var children := g.Children(i);
      for k := 0 to |children|
        invariant Inv(active', roots) && old(visited) + {i} <= visited && old(postOrder) <= postOrder
        invariant forall c :: c in children[..k] ==> c in postOrder
      {
        ChildrenSmaller(g, i, children[k]);
        assert children[k] in g.Children(i);
        Visit(children[k], active', roots);
        assert children[..k + 1] == children[..k] + [children[k]];
      }
      assert children[..|children|] == children;
      ghost var before := postOrder;
      postOrder := postOrder + [i];
      forall k, c | 0 <= k < |postOrder| && c in g.Children(postOrder[k])
        ensures c in postOrder[..k]
      {
        assert postOrder[..k] == before[..k];
        if k == |before| { assert before[..k] == before; } else { assert postOrder[k] == before[k]; }
      }
    }
  }

  /** The order of propagation: every node once, users before what they use. */
  ghost predicate PropagationOrder(g: Graph, roots: seq<nat>, order: seq<nat>) {
    && NoRepeat(order)
    && (forall k :: 0 <= k < |order| ==> order[k] < |g.nodes|)
    && (forall r :: r in roots ==> r in order)
    && (forall k, c :: 0 <= k < |order| && c in g.Children(order[k]) ==> c in order[k + 1..])
  }

  ghost predicate RootOrUsed(g: Graph, roots: seq<nat>, order: seq<nat>, k: nat)
    requires k < |order|
  {
    order[k] in roots || UsedBy(g, order[k], Elements(order))
  }

  /** Nothing superfluous is visited. */
  ghost predicate AllUsed(g: Graph, roots: seq<nat>, order: seq<nat>) {
    forall k :: 0 <= k < |order| ==> RootOrUsed(g, roots, order, k)
  }

  /** ReverseTopologyOrder. */
  method ReverseTopologyOrder(g: Graph, roots: seq<nat>) returns (order: seq<nat>)
    requires g.Valid() && forall k :: 0 <= k < |roots| ==> roots[k] < |g.nodes|
    ensures PropagationOrder(g, roots, order) && AllUsed(g, roots, order)
  {
    var search := new Search(g);
    for k := 0 to |roots|
      invariant search.g == g && search.Inv({}, roots)
      invariant forall r :: r in roots[..k] ==> r in search.postOrder
    {
      search.Visit(roots[k], {}, roots);
      assert roots[..k + 1] == roots[..k] + [roots[k]];
    }
    assert roots[..|roots|] == roots;
    var post := search.postOrder;
    order := seq(|post|, k requires 0 <= k < |post| => post[|post| - 1 - k]);
    ReversedOrder(g, roots, post, order, search.visited);
  }

  lemma ReversedOrder(g: Graph, roots: seq<nat>, post: seq<nat>, order: seq<nat>, visited: set<nat>)
    requires NoRepeat(post) && ChildrenFirst(g, post) && Supported(g, post, roots, visited)
    requires visited == Elements(post)
    requires forall r :: r in roots ==> r in post
    requires |order| == |post| && forall k :: 0 <= k < |post| ==> order[k] == post[|post| - 1 - k]
    ensures PropagationOrder(g, roots, order) && AllUsed(g, roots, order)
  {
    forall n ensures n in post <==> n in order {
      if n in post { var k :| 0 <= k < |post| && post[k] == n; assert order[|post| - 1 - k] == n; }
    }
    forall k, c | 0 <= k < |order| && c in g.Children(order[k]) ensures c in order[k + 1..] {
      var p := |post| - 1 - k;
      assert c in post[..p];
      var q :| 0 <= q < p && post[q] == c;
      assert order[|post| - 1 - q] == c;
    }
    assert visited == Elements(order);
    forall k | 0 <= k < |order| ensures RootOrUsed(g, roots, order, k) { assert order[k] in post; }
  }

  // ----- fused sums -----

  /** The `t`-th argument of a sum counted from the last one. */
  function FromEnd(g: Graph, i: nat, t: nat): (a: nat)
    requires g.Valid() && g.IsSum(i) && t < |g.nodes[i].args|
    ensures a == g.nodes[i].args[|g.nodes[i].args| - 1 - t] && a < i && g.IsSplit(a)
    ensures g.nodes[a].extent > 0 && g.nodes[a].scale != 0
  {
    g.Arg(i, |g.nodes[i].args| - 1 - t)
  }

  /** The last `cnt` arguments of a sum as terms, innermost first. */
  function Terms(g: Graph, i: nat, cnt: nat): (r: seq<Term>)
    requires g.Valid() && g.IsSum(i) && cnt <= |g.nodes[i].args|
    ensures |r| == cnt
    ensures forall t :: 0 <= t < cnt ==> r[t] == Term(g.nodes[FromEnd(g, i, t)].extent, g.nodes[FromEnd(g, i, t)].scale)
  {
    seq(cnt, t requires 0 <= t < cnt => Term(g.nodes[FromEnd(g, i, t)].extent, g.nodes[FromEnd(g, i, t)].scale))
  }

  /** Their values, innermost first. */
  ghost function TermValues(g: Graph, i: nat, cnt: nat, v: Valuation): (r: seq<int>)
    requires g.Valid() && g.IsSum(i) && cnt <= |g.nodes[i].args|
    ensures |r| == cnt && forall t :: 0 <= t < cnt ==> r[t] == g.SplitValue(FromEnd(g, i, t), v)
  {
    seq(cnt, t requires 0 <= t < cnt => g.SplitValue(FromEnd(g, i, t), v))
  }

  lemma TermsInBox(g: Graph, i: nat, cnt: nat, v: Valuation)
    requires g.Valid() && g.IsSum(i) && cnt <= |g.nodes[i].args|
    ensures AllExtents(Terms(g, i, cnt)) && InBox(TermValues(g, i, cnt, v), Slots(Terms(g, i, cnt)))
  {
    var ts, ds := Terms(g, i, cnt), TermValues(g, i, cnt, v);
    forall t | 0 <= t < cnt ensures ts[t].extent > 0 && 0 <= ds[t] < ts[t].extent {
      assert ds[t] == g.SplitValue(FromEnd(g, i, t), v);
    }
  }

  lemma {:induction false} ArgsAreTerms(g: Graph, i: nat, cnt: nat, v: Valuation)
    requires g.Valid() && g.IsSum(i) && cnt <= |g.nodes[i].args|
    ensures g.ArgsValue(i, cnt, v) == WeightedSum(Terms(g, i, cnt), TermValues(g, i, cnt, v))
  {
    if cnt > 0 {
      ArgsAreTerms(g, i, cnt - 1, v);
      assert Terms(g, i, cnt)[..cnt - 1] == Terms(g, i, cnt - 1);
      assert TermValues(g, i, cnt, v)[..cnt - 1] == TermValues(g, i, cnt - 1, v);
      assert TermValues(g, i, cnt, v)[cnt - 1] == g.SplitValue(FromEnd(g, i, cnt - 1), v);
    }
  }

  /** The pattern the source checks before splitting a propagated value. */
  ghost predicate FusedNode(g: Graph, i: nat)
    requires g.Valid() && g.IsSum(i)
  {
    var ts := Terms(g, i, |g.nodes[i].args|);
    ts == [] || FusedBy(ts, ts[0].scale)
  }

  method CheckFusePattern(g: Graph, i: nat) returns (ok: bool)
    requires g.Valid() && g.IsSum(i)
    ensures ok <==> FusedNode(g, i)
  {
    var args := g.nodes[i].args;
    if |args| == 0 { return true; }
    ghost var ts := Terms(g, i, |args|);
    var expected := g.nodes[g.Arg(i, |args| - 1)].scale;
    PatternStart(ts);
    var k := |args|;
    while k > 0
      invariant 0 <= k <= |args| && PatternUpTo(ts, |args| - k, expected)
    {
      var split := g.nodes[g.Arg(i, k - 1)];
      ghost var t := |args| - k;
      assert ts[t] == Term(split.extent, split.scale);
      PatternNext(ts, t, expected);
      if split.scale != expected { return false; }
      expected := expected * split.extent;
      k := k - 1;
    }
    PatternEnd(ts, expected);
    return true;
  }

  /** The first n terms are fused and the next scale is known. */
  ghost predicate PatternUpTo(ts: seq<Term>, n: nat, expected: int)
    requires ts != [] && n <= |ts|
  {
    && expected == ts[0].scale * Top(Slots(ts[..n]))
    && forall t :: 0 <= t < n ==> ts[t].scale == ts[0].scale * Slots(ts)[t].lower
  }

  lemma PatternStart(ts: seq<Term>)
    requires ts != []
    ensures PatternUpTo(ts, 0, ts[0].scale)
  {
    assert ts[..0] == [];
    assert Top(Slots(ts[..0])) == 1;
  }

  lemma PatternNext(ts: seq<Term>, t: nat, expected: int)
    requires t < |ts| && PatternUpTo(ts, t, expected)
    ensures ts[t].scale == expected ==> PatternUpTo(ts, t + 1, expected * ts[t].extent)
    ensures ts[t].scale != expected ==> !FusedBy(ts, ts[0].scale)
  {
    SlotAt(ts, t);
    NextTop(ts, t);
    NextScale(ts[0].scale, Top(Slots(ts[..t])), ts[t].extent);
  }

  lemma PatternEnd(ts: seq<Term>, expected: int)
    requires ts != [] && PatternUpTo(ts, |ts|, expected)
    ensures FusedBy(ts, ts[0].scale)
  {
  }

  lemma NextTop(ts: seq<Term>, t: nat)
    requires t < |ts|
    ensures Top(Slots(ts[..t + 1])) == Top(Slots(ts[..t])) * ts[t].extent
  {
    SlotAt(ts[..t + 1], t);
    assert ts[..t + 1][..t] == ts[..t];
  }

  lemma NextScale(s: int, top: int, e: int)
    ensures (s * top) * e == s * (top * e)
  {
  }

  /** Dividing a fused sum by an argument's scale, and reducing by its extent, recovers the argument. */
  lemma FusedArgument(g: Graph, i: nat, k: nat, v: Valuation)
    requires g.Valid() && g.IsSum(i) && k < |g.nodes[i].args| && FusedNode(g, i)
    ensures g.IsSplit(g.nodes[i].args[k])
    ensures var arg := g.nodes[i].args[k];
      && g.nodes[arg].scale != 0 && g.nodes[arg].extent > 0
      && var q := IntOperator.FloorDiv(g.SumValue(i, v) - g.nodes[i].base, g.nodes[arg].scale);
         (if k == 0 then q else q % g.nodes[arg].extent) == g.SplitValue(arg, v)
  {
    var n := |g.nodes[i].args|;
    ArgsAreTerms(g, i, n, v);
    var ts := Terms(g, i, n);
    assert g.Arg(i, k) == FromEnd(g, i, n - 1 - k);
    TermsInBox(g, i, n, v);
    assert ts[0].scale == g.nodes[FromEnd(g, i, 0)].scale;
    FusedDigit(ts, TermValues(g, i, n, v), ts[0].scale, n - 1 - k);
  }

  // ----- covered marks -----

  ghost function ChainSlots(g: Graph, chain: seq<nat>): (r: seq<Slot>)
    requires forall k :: 0 <= k < |chain| ==> g.IsSplit(chain[k])
    ensures |r| == |chain| && forall k :: 0 <= k < |chain| ==> r[k] == g.SlotOf(chain[k])
  {
    seq(|chain|, k requires 0 <= k < |chain| => g.SlotOf(chain[k]))
  }

  /** The splits in `chain` cover mark `m` without overlap, as the bijective coverage check accepts. */
  ghost predicate Covers(g: Graph, m: nat, chain: seq<nat>, live: set<nat>)
    requires m < |g.marks|
  {
    && NoRepeat(chain)
    && (forall k :: 0 <= k < |chain| ==> g.IsSplit(chain[k]) && g.nodes[chain[k]].mark == m && chain[k] in live)
    && Contiguous(ChainSlots(g, chain)) && Top(ChainSlots(g, chain)) == g.marks[m].extent
  }

  /** The split has one value only. */
  predicate Unit(g: Graph, s: nat) {
    g.IsSplit(s) && g.nodes[s].extent == 1
  }

  /** No split with more than one value is an argument twice. */
  ghost predicate UsedOnce(g: Graph, live: set<nat>) {
    forall a, b, j, k ::
      a in live && b in live && IsArg(g, a, j) && IsArg(g, b, k) && g.nodes[a].args[j] == g.nodes[b].args[k] ==>
        (a == b && j == k) || Unit(g, g.nodes[a].args[j])
  }

  /** Different marks of the chains have different sources. */
  ghost predicate OneMarkPerSource(g: Graph, chains: seq<seq<nat>>)
    requires |chains| == |g.marks|
  {
    forall m, n :: 0 <= m < |chains| && 0 <= n < |chains| && SameSource(g, m, n) && chains[m] != [] && chains[n] != []
      ==> m == n
  }

  predicate SameSource(g: Graph, m: nat, n: nat)
    requires m < |g.marks| && n < |g.marks|
  {
    g.marks[m].source == g.marks[n].source
  }

  /**
   The iter map is covered: each split that is used belongs to the chain of its mark and, unless
   its extent is 1, to one sum; different marks have different sources, and a root is not also a
   source.
   */
  ghost predicate Covered(g: Graph, roots: seq<nat>, live: set<nat>, chains: seq<seq<nat>>) {
    && g.Valid() && |chains| == |g.marks|
    && (forall m :: 0 <= m < |chains| && chains[m] != [] ==> Covers(g, m, chains[m], live))
    && (forall s :: s in live && g.IsSplit(s) ==> g.nodes[s].mark < |chains| && s in chains[g.nodes[s].mark])
    && OneMarkPerSource(g, chains)
    && (forall m :: 0 <= m < |chains| && chains[m] != [] && g.marks[m].source.FromSum? ==>
      g.marks[m].source.node !in roots)
    && UsedOnce(g, live)
    && NoRepeat(roots) && forall r :: r in roots ==> g.IsSum(r)
  }

  ghost predicate IsArg(g: Graph, a: nat, j: int) {
    g.IsSum(a) && 0 <= j < |g.nodes[a].args|
  }

  ghost function SourceValue(g: Graph, m: nat, v: Valuation): int
    requires g.Valid() && m < |g.marks|
  {
    match g.marks[m].source
    case FromVar(n) => v(n)
    case FromSum(s) => if g.IsSum(s) then g.SumValue(s, v) else 0
  }

  /** The iterator domain: every covered mark has its value in [0, extent). */
  ghost predicate InDomain(g: Graph, chains: seq<seq<nat>>, v: Valuation)
    requires g.Valid() && |chains| == |g.marks|
  {
    forall m :: 0 <= m < |chains| && chains[m] != [] ==> 0 <= SourceValue(g, m, v) < g.marks[m].extent
  }

  /** What the finished splits of a chain have contributed to their source `x`. */
  ghost function PartialSum(g: Graph, chain: seq<nat>, done: set<nat>, x: int): int
    requires Splits(g, chain)
  {
    if chain == [] then 0 else
      var k := |chain| - 1;
      PartialSum(g, chain[..k], done, x)
        + if chain[k] in done then Digit(x, g.SlotOf(chain[k])) * g.nodes[chain[k]].lower else 0
  }

  ghost predicate Splits(g: Graph, chain: seq<nat>) {
    forall k :: 0 <= k < |chain| ==> g.IsSplit(chain[k]) && Positive(g.SlotOf(chain[k]))
  }

  lemma {:induction false} PartialFull(g: Graph, chain: seq<nat>, done: set<nat>, x: int)
    requires Splits(g, chain) && forall k :: 0 <= k < |chain| ==> chain[k] in done
    ensures PartialSum(g, chain, done, x) == Compose(Digits(x, ChainSlots(g, chain)), ChainSlots(g, chain))
  {
    if chain != [] {
      var k := |chain| - 1;
      PartialFull(g, chain[..k], done, x);
      assert ChainSlots(g, chain)[..k] == ChainSlots(g, chain[..k]);
      assert Digits(x, ChainSlots(g, chain))[..k] == Digits(x, ChainSlots(g, chain[..k]));
    }
  }

  /** Once all splits of a covered mark are finished, their contributions are the source's value. */
  lemma CoveredSum(g: Graph, m: nat, chain: seq<nat>, live: set<nat>, done: set<nat>, x: int)
    requires m < |g.marks| && Covers(g, m, chain, live) && Splits(g, chain)
    requires forall k :: 0 <= k < |chain| ==> chain[k] in done
    requires 0 <= x < g.marks[m].extent
    ensures PartialSum(g, chain, done, x) == x
  {
    PartialFull(g, chain, done, x);
    ComposeOfDigits(x, ChainSlots(g, chain));
  }

  lemma {:induction false} PartialAdd(g: Graph, chain: seq<nat>, done: set<nat>, x: int, s: nat)
    requires Splits(g, chain) && NoRepeat(chain) && s !in done
    ensures PartialSum(g, chain, done + {s}, x)
         == PartialSum(g, chain, done, x) + if s in chain then Digit(x, g.SlotOf(s)) * g.nodes[s].lower else 0
  {
    if chain != [] {
      var k := |chain| - 1;
      PartialAdd(g, chain[..k], done, x, s);
      assert chain == chain[..k] + [chain[k]];
    }
  }

  lemma {:induction false} PartialNone(g: Graph, chain: seq<nat>, done: set<nat>, x: int)
    requires Splits(g, chain) && forall k :: 0 <= k < |chain| ==> chain[k] !in done
    ensures PartialSum(g, chain, done, x) == 0
  {
    if chain != [] { PartialNone(g, chain[..|chain| - 1], done, x); }
  }

  lemma ChainSplits(g: Graph, roots: seq<nat>, live: set<nat>, chains: seq<seq<nat>>, m: nat)
    requires Covered(g, roots, live, chains) && m < |chains|
    ensures Splits(g, chains[m])
  {
    if chains[m] != [] {
      assert Covers(g, m, chains[m], live);
      forall k | 0 <= k < |chains[m]| ensures Positive(g.SlotOf(chains[m][k])) { assert g.NodeValid(chains[m][k]); }
    }
  }

  // ----- back-propagation -----

  /** Some finished sum has `s` among its arguments. */
  ghost predicate UserDone(g: Graph, s: nat, done: set<nat>) {
    exists a, j :: a in done && IsArg(g, a, j) && g.nodes[a].args[j] == s
  }

  /** The propagated value of an unfinished split: its value once its sum is finished, 0 before. */
  ghost predicate SplitOk(g: Graph, backprop: map<nat, Expr>, done: set<nat>, v: Valuation, rho: Valuation, s: nat)
    requires g.Valid() && g.IsSplit(s)
  {
    s in backprop && Eval(backprop[s], rho) == if UserDone(g, s, done) then g.SplitValue(s, v) else 0
  }

  /** The propagated value of an unfinished sum: its value for a root, the finished contributions otherwise. */
  ghost predicate SumOk(g: Graph, roots: seq<nat>, chains: seq<seq<nat>>, backprop: map<nat, Expr>, done: set<nat>,
      v: Valuation, rho: Valuation, i: nat)
    requires g.Valid() && g.IsSum(i) && |chains| == |g.marks| && forall m :: 0 <= m < |chains| ==> Splits(g, chains[m])
  {
    && i in backprop
    && (i in roots ==> Eval(backprop[i], rho) == g.SumValue(i, v))
    && (i !in roots ==> forall m :: 0 <= m < |chains| && chains[m] != [] && g.marks[m].source == FromSum(i) ==>
          Eval(backprop[i], rho) == PartialSum(g, chains[m], done, g.SumValue(i, v)))
  }

  ghost predicate InverseOk(g: Graph, chains: seq<seq<nat>>, inverse: map<string, Expr>, done: set<nat>, v: Valuation,
      rho: Valuation)
    requires |chains| == |g.marks| && forall m :: 0 <= m < |chains| ==> Splits(g, chains[m])
  {
    forall m :: 0 <= m < |chains| && chains[m] != [] && g.marks[m].source.FromVar? ==>
      MarkInverse(g, chains[m], g.marks[m].source.name, inverse, done, v, rho)
  }

  /** What has been collected for one variable is the sum over its finished splits. */
  ghost predicate MarkInverse(g: Graph, chain: seq<nat>, x: string, inverse: map<string, Expr>, done: set<nat>,
      v: Valuation, rho: Valuation)
    requires Splits(g, chain)
  {
    if x in inverse then Eval(inverse[x], rho) == PartialSum(g, chain, done, v(x))
    else forall k :: 0 <= k < |chain| ==> chain[k] !in done
  }

  ghost predicate Consistent(g: Graph, roots: seq<nat>, live: set<nat>, chains: seq<seq<nat>>, backprop: map<nat, Expr>,
      inverse: map<string, Expr>, done: set<nat>, v: Valuation, rho: Valuation)
    requires g.Valid() && |chains| == |g.marks| && forall m :: 0 <= m < |chains| ==> Splits(g, chains[m])
  {
    && (forall s :: s in live && s !in done && g.IsSplit(s) ==> SplitOk(g, backprop, done, v, rho, s))
    && (forall i :: i in live && i !in done && g.IsSum(i) ==> SumOk(g, roots, chains, backprop, done, v, rho, i))
    && InverseOk(g, chains, inverse, done, v, rho)
  }

  /** `done` is the processed prefix of a propagation order, `n` the next node. */
  ghost predicate Next(g: Graph, roots: seq<nat>, order: seq<nat>, t: nat, live: set<nat>, done: set<nat>) {
    && PropagationOrder(g, roots, order) && t < |order|
    && live == Elements(order) && done == Elements(order[..t])
  }

  lemma NotYetDone(g: Graph, roots: seq<nat>, order: seq<nat>, t: nat, live: set<nat>, done: set<nat>)
    requires Next(g, roots, order, t, live, done)
    ensures order[t] !in done
  {
    assert forall k :: 0 <= k < t ==> order[k] != order[t];
  }

  /** All users of the next node are finished. */
  lemma UsersDone(g: Graph, roots: seq<nat>, order: seq<nat>, t: nat, live: set<nat>, done: set<nat>, u: nat)
    requires Next(g, roots, order, t, live, done) && u in live && u < |g.nodes| && order[t] in g.Children(u)
    ensures u in done
  {
    var k :| 0 <= k < |order| && order[k] == u;
    assert order[t] in order[k + 1..];
    var q :| k + 1 <= q < |order| && order[q] == order[t];
    assert q == t;
    assert u in order[..t];
  }

  /** What the next node refers to is unfinished. */
  lemma ChildrenPending(g: Graph, roots: seq<nat>, order: seq<nat>, t: nat, live: set<nat>, done: set<nat>, c: nat)
    requires Next(g, roots, order, t, live, done) && c in g.Children(order[t])
    ensures c in live && c !in done && c != order[t]
  {
    assert c in order[t + 1..];
    var q :| t + 1 <= q < |order| && order[q] == c;
    assert forall p :: 0 <= p < t ==> order[p] != order[q];
  }

  // ----- visiting a sum -----

  /** A sum that is no root is the source of a covered mark. */
  lemma SumSource(g: Graph, roots: seq<nat>, live: set<nat>, chains: seq<seq<nat>>, i: nat) returns (m: nat)
    requires Covered(g, roots, live, chains) && g.IsSum(i) && UsedBy(g, i, live)
    ensures m < |chains| && chains[m] != [] && g.marks[m].source == FromSum(i)
  {
    var u :| u in live && u < |g.nodes| && i in g.Children(u);
    SumUser(g, i, u);
    m := g.nodes[u].mark;
    assert u in chains[m];
  }

  /** Only a split uses a sum, through its mark. */
  lemma SumUser(g: Graph, i: nat, u: nat)
    requires g.Valid() && g.IsSum(i) && u < |g.nodes| && i in g.Children(u)
    ensures g.IsSplit(u) && g.nodes[u].mark < |g.marks| && g.marks[g.nodes[u].mark].source == FromSum(i)
  {
    assert g.NodeValid(u);
  }

  lemma ChainDone(g: Graph, roots: seq<nat>, order: seq<nat>, t: nat, live: set<nat>, done: set<nat>, m: nat,
      chain: seq<nat>, k: nat)
    requires Next(g, roots, order, t, live, done) && m < |g.marks| && Covers(g, m, chain, live)
    requires g.marks[m].source == FromSum(order[t]) && k < |chain|
    ensures chain[k] in done
  {
    assert order[t] in g.Children(chain[k]);
    UsersDone(g, roots, order, t, live, done, chain[k]);
  }

  lemma NextSumValue(g: Graph, roots: seq<nat>, order: seq<nat>, t: nat, live: set<nat>, chains: seq<seq<nat>>,
      backprop: map<nat, Expr>, done: set<nat>, v: Valuation, rho: Valuation)
    requires Next(g, roots, order, t, live, done) && Covered(g, roots, live, chains) && InDomain(g, chains, v)
    requires g.IsSum(order[t]) && RootOrUsed(g, roots, order, t) && forall m :: 0 <= m < |chains| ==>
      Splits(g, chains[m])
    requires SumOk(g, roots, chains, backprop, done, v, rho, order[t])
    ensures Eval(backprop[order[t]], rho) == g.SumValue(order[t], v)
  {
    var i := order[t];
    if i !in roots {
      assert i in order;
      var m := SumSource(g, roots, live, chains, i);
      forall k | 0 <= k < |chains[m]|
        ensures chains[m][k] in done
      {
        ChainDone(g, roots, order, t, live, done, m, chains[m], k);
      }
      assert SourceValue(g, m, v) == g.SumValue(i, v);
      CoveredSum(g, m, chains[m], live, done, g.SumValue(i, v));
    }
  }

  /** Only arguments of a sum change their status when the sum is finished. */
  lemma SumDone(g: Graph, s: nat, done: set<nat>, i: nat)
    requires g.IsSum(i)
    ensures UserDone(g, s, done + {i}) <==> UserDone(g, s, done) || s in g.nodes[i].args
  {
    if s in g.nodes[i].args {
      var j :| 0 <= j < |g.nodes[i].args| && g.nodes[i].args[j] == s;
      assert IsArg(g, i, j) && i in done + {i};
    }
    if UserDone(g, s, done) {
      var a, j :| a in done && IsArg(g, a, j) && g.nodes[a].args[j] == s;
      assert a in done + {i};
    }
    if UserDone(g, s, done + {i}) {
      var a, j :| a in done + {i} && IsArg(g, a, j) && g.nodes[a].args[j] == s;
    }
  }

  /** The arguments of the next sum have received nothing yet, unless they have one value only. */
  lemma ArgsFresh(g: Graph, roots: seq<nat>, order: seq<nat>, t: nat, live: set<nat>, chains: seq<seq<nat>>,
      done: set<nat>, s: nat)
    requires Next(g, roots, order, t, live, done) && Covered(g, roots, live, chains)
    requires g.IsSum(order[t]) && s in g.nodes[order[t]].args
    ensures s in live && s !in done && s != order[t] && (!UserDone(g, s, done) || Unit(g, s))
  {
    var i := order[t];
    ChildrenPending(g, roots, order, t, live, done, s);
    NotYetDone(g, roots, order, t, live, done);
    var k :| 0 <= k < |g.nodes[i].args| && g.nodes[i].args[k] == s;
    assert i in order;
    assert IsArg(g, i, k);
    forall a, j | a in done && IsArg(g, a, j) ensures g.nodes[a].args[j] != s || Unit(g, s) {
      assert a in live;
    }
  }

  /** After a sum: its arguments hold their values, everything else is as before. */
  ghost predicate SumPropagated(g: Graph, i: nat, before: map<nat, Expr>, after: map<nat, Expr>, v: Valuation,
      rho: Valuation)
    requires g.Valid() && g.IsSum(i)
  {
    && (forall s :: s in before ==> s in after)
    && (forall s :: s in after && s !in g.nodes[i].args ==> s in before && after[s] == before[s])
    && (forall s :: s in g.nodes[i].args && g.IsSplit(s) ==> s in after && Eval(after[s], rho) == g.SplitValue(s, v))
  }

  lemma SumStep(g: Graph, roots: seq<nat>, order: seq<nat>, t: nat, live: set<nat>, chains: seq<seq<nat>>,
      before: map<nat, Expr>, after: map<nat, Expr>, inverse: map<string, Expr>, done: set<nat>, v: Valuation,
      rho: Valuation)
    requires Next(g, roots, order, t, live, done) && Covered(g, roots, live, chains)
    requires g.IsSum(order[t]) && forall m :: 0 <= m < |chains| ==> Splits(g, chains[m])
    requires Consistent(g, roots, live, chains, before, inverse, done, v, rho)
    requires SumPropagated(g, order[t], before, after, v, rho)
    ensures Consistent(g, roots, live, chains, after, inverse, done + {order[t]}, v, rho)
  {
    var i, done' := order[t], done + {order[t]};
    NotYetDone(g, roots, order, t, live, done);
    forall m, x | 0 <= m < |chains|
      ensures PartialSum(g, chains[m], done', x) == PartialSum(g, chains[m], done, x)
    {
      if chains[m] != [] {
        assert Covers(g, m, chains[m], live);
        PartialAdd(g, chains[m], done, x, i);
      }
    }
    forall s | s in live && s !in done' && g.IsSplit(s) ensures SplitOk(g, after, done', v, rho, s) {
      SumDone(g, s, done, i);
      assert SplitOk(g, before, done, v, rho, s);
    }
    forall n | n in live && n !in done' && g.IsSum(n) ensures SumOk(g, roots, chains, after, done', v, rho, n) {
      assert SumOk(g, roots, chains, before, done, v, rho, n);
      assert n !in g.nodes[i].args by { assert g.NodeValid(i); }
    }
    SumKeepsInverse(g, roots, live, chains, inverse, done, i, v, rho);
  }

  lemma SumKeepsInverse(g: Graph, roots: seq<nat>, live: set<nat>, chains: seq<seq<nat>>, inverse: map<string, Expr>,
      done: set<nat>, i: nat, v: Valuation, rho: Valuation)
    requires Covered(g, roots, live, chains) && g.IsSum(i) && i !in done && forall m :: 0 <= m < |chains| ==>
      Splits(g, chains[m])
    requires InverseOk(g, chains, inverse, done, v, rho)
    ensures InverseOk(g, chains, inverse, done + {i}, v, rho)
  {
    forall m | 0 <= m < |chains| && chains[m] != [] && g.marks[m].source.FromVar?
      ensures var x := g.marks[m].source.name;
        if x in inverse then Eval(inverse[x], rho) == PartialSum(g, chains[m], done + {i}, v(x))
        else forall k :: 0 <= k < |chains[m]| ==> chains[m][k] !in done + {i}
    {
      assert Covers(g, m, chains[m], live);
      PartialAdd(g, chains[m], done, v(g.marks[m].source.name), i);
    }
  }

  // ----- visiting a split -----

  lemma NextSplitUser(g: Graph, roots: seq<nat>, order: seq<nat>, t: nat, live: set<nat>, done: set<nat>)
    requires Next(g, roots, order, t, live, done) && g.Valid()
    requires g.IsSplit(order[t]) && order[t] !in roots && RootOrUsed(g, roots, order, t)
    ensures UserDone(g, order[t], done)
  {
    var s := order[t];
    assert s in order;
    assert UsedBy(g, s, live);
    var u :| u in live && u < |g.nodes| && s in g.Children(u);
    assert g.NodeValid(u);
    UsersDone(g, roots, order, t, live, done, u);
    var j :| 0 <= j < |g.nodes[u].args| && g.nodes[u].args[j] == s;
    assert IsArg(g, u, j);
  }

  /** Finishing a split adds its contribution to its own chain only. */
  lemma SplitContribution(g: Graph, roots: seq<nat>, live: set<nat>, chains: seq<seq<nat>>, done: set<nat>, s: nat,
      m: nat, x: int)
    requires Covered(g, roots, live, chains) && s in live && g.IsSplit(s) && s !in done
    requires m < |chains| && Splits(g, chains[m])
    ensures Positive(g.SlotOf(s))
    ensures PartialSum(g, chains[m], done + {s}, x)
         == PartialSum(g, chains[m], done, x) + if m ==
           g.nodes[s].mark then Digit(x, g.SlotOf(s)) * g.nodes[s].lower else 0
  {
    assert g.NodeValid(s);
    if chains[m] != [] {
      assert Covers(g, m, chains[m], live);
      PartialAdd(g, chains[m], done, x, s);
    }
  }

  lemma SplitDoneKeepsUsers(g: Graph, s: nat, done: set<nat>, i: nat)
    requires g.IsSplit(i)
    ensures UserDone(g, s, done + {i}) <==> UserDone(g, s, done)
  {
    if UserDone(g, s, done) {
      var a, j :| a in done && IsArg(g, a, j) && g.nodes[a].args[j] == s;
      assert a in done + {i};
    }
  }

  /** After a split: its scaled-back value is added to its source, a sum or a variable. */
  ghost predicate SplitPropagated(g: Graph, s: nat, before: map<nat, Expr>, after: map<nat, Expr>,
      invBefore: map<string, Expr>, invAfter: map<string, Expr>, rho: Valuation)
    requires g.Valid() && g.IsSplit(s) && g.nodes[s].mark < |g.marks|
  {
    match g.marks[g.nodes[s].mark].source
    case FromSum(n) =>
      && invAfter == invBefore && s in before && n in before && n in after && after == before[n := after[n]]
      && Eval(after[n], rho) == Eval(before[n], rho) + Eval(before[s], rho) * g.nodes[s].lower
    case FromVar(x) =>
      && after == before && s in before && x in invAfter && invAfter == invBefore[x := invAfter[x]]
      && Eval(invAfter[x], rho) ==
        (if x in invBefore then Eval(invBefore[x], rho) else 0) + Eval(before[s], rho) * g.nodes[s].lower
  }

  lemma SplitStepSplits(g: Graph, live: set<nat>, before: map<nat, Expr>, after: map<nat, Expr>,
      invBefore: map<string, Expr>, invAfter: map<string, Expr>, done: set<nat>, s: nat, v: Valuation, rho: Valuation)
    requires g.Valid() && g.IsSplit(s) && g.nodes[s].mark < |g.marks|
    requires SplitPropagated(g, s, before, after, invBefore, invAfter, rho)
    requires forall r :: r in live && r !in done && g.IsSplit(r) ==> SplitOk(g, before, done, v, rho, r)
    ensures forall r :: r in live && r !in done + {s} && g.IsSplit(r) ==> SplitOk(g, after, done + {s}, v, rho, r)
  {
    assert g.NodeValid(s);
    forall r | r in live && r !in done + {s} && g.IsSplit(r) ensures SplitOk(g, after, done + {s}, v, rho, r) {
      assert SplitOk(g, before, done, v, rho, r);
      SplitDoneKeepsUsers(g, r, done, s);
    }
  }

  lemma SplitStep(g: Graph, roots: seq<nat>, order: seq<nat>, t: nat, live: set<nat>, chains: seq<seq<nat>>,
      before: map<nat, Expr>, after: map<nat, Expr>, invBefore: map<string, Expr>, invAfter: map<string, Expr>,
      done: set<nat>, v: Valuation, rho: Valuation)
    requires Next(g, roots, order, t, live, done) && Covered(g, roots, live, chains)
    requires g.IsSplit(order[t]) && RootOrUsed(g, roots, order, t)
    requires (forall m :: 0 <= m < |chains| ==> Splits(g, chains[m])) && g.nodes[order[t]].mark < |g.marks|
    requires Consistent(g, roots, live, chains, before, invBefore, done, v, rho)
    requires SplitPropagated(g, order[t], before, after, invBefore, invAfter, rho)
    ensures Consistent(g, roots, live, chains, after, invAfter, done + {order[t]}, v, rho)
  {
    var s, done' := order[t], done + {order[t]};
    assert s !in done by { NotYetDone(g, roots, order, t, live, done); }
    assert s in live;
    assert s in before && Eval(before[s], rho) == g.SplitValue(s, v) by {
      assert s in order;
      NextSplitUser(g, roots, order, t, live, done);
      assert SplitOk(g, before, done, v, rho, s);
    }
    SplitStepSplits(g, live, before, after, invBefore, invAfter, done, s, v, rho);
    forall n | n in live && n !in done' && g.IsSum(n) ensures SumOk(g, roots, chains, after, done', v, rho, n) {
      assert SumOk(g, roots, chains, before, done, v, rho, n);
      SplitStepSum(g, roots, live, chains, before, after, invBefore, invAfter, done, s, v, rho, n);
    }
    SplitStepInverse(g, roots, live, chains, before, after, invBefore, invAfter, done, s, v, rho);
  }

  lemma SplitStepSum(g: Graph, roots: seq<nat>, live: set<nat>, chains: seq<seq<nat>>, before: map<nat, Expr>,
      after: map<nat, Expr>, invBefore: map<string, Expr>, invAfter: map<string, Expr>, done: set<nat>, s: nat,
      v: Valuation, rho: Valuation, n: nat)
    requires Covered(g, roots, live, chains) && s in live && s !in done && g.IsSplit(s) && g.IsSum(n)
    requires forall m :: 0 <= m < |chains| ==> Splits(g, chains[m])
    requires g.nodes[s].mark < |g.marks|
    requires SplitPropagated(g, s, before, after, invBefore, invAfter, rho)
    requires s in before && Eval(before[s], rho) == g.SplitValue(s, v)
    requires SumOk(g, roots, chains, before, done, v, rho, n)
    ensures SumOk(g, roots, chains, after, done + {s}, v, rho, n)
  {
    var m0 := g.nodes[s].mark;
    if n !in roots {
      forall m | 0 <= m < |chains| && chains[m] != [] && g.marks[m].source == FromSum(n)
        ensures Eval(after[n], rho) == PartialSum(g, chains[m], done + {s}, g.SumValue(n, v))
      {
        SplitContribution(g, roots, live, chains, done, s, m, g.SumValue(n, v));
        OwnMark(g, roots, live, chains, s, m);
        ContributionTo(g, before, after, invBefore, invAfter, s, n, rho);
        if g.marks[m0].source == FromSum(n) { SplitDigit(g, s, g.SumValue(n, v), v); }
      }
    }
  }

  /** A split contributes to the one mark that has its source. */
  lemma OwnMark(g: Graph, roots: seq<nat>, live: set<nat>, chains: seq<seq<nat>>, s: nat, m: nat)
    requires Covered(g, roots, live, chains) && s in live && g.IsSplit(s) && g.nodes[s].mark < |g.marks|
    requires m < |chains| && chains[m] != []
    ensures m == g.nodes[s].mark <==> g.marks[m].source == g.marks[g.nodes[s].mark].source
  {
    assert s in chains[g.nodes[s].mark];
    assert SameSource(g, m, g.nodes[s].mark) <==> g.marks[m].source == g.marks[g.nodes[s].mark].source;
  }

  lemma ContributionTo(g: Graph, before: map<nat, Expr>, after: map<nat, Expr>, invBefore: map<string, Expr>,
      invAfter: map<string, Expr>, s: nat, n: nat, rho: Valuation)
    requires g.Valid() && g.IsSplit(s) && g.nodes[s].mark < |g.marks| && n in before
    requires SplitPropagated(g, s, before, after, invBefore, invAfter, rho)
    ensures n in after && s in before
    ensures Eval(after[n], rho) == Eval(before[n], rho) +
      if g.marks[g.nodes[s].mark].source == FromSum(n) then Eval(before[s], rho) * g.nodes[s].lower else 0
  {
  }

  /** The value of a split is the digit of its source's value. */
  lemma SplitDigit(g: Graph, s: nat, x: int, v: Valuation)
    requires g.Valid() && g.IsSplit(s) && g.nodes[s].mark < |g.marks| && SourceValue(g, g.nodes[s].mark, v) == x
    ensures Positive(g.SlotOf(s)) && Digit(x, g.SlotOf(s)) == g.SplitValue(s, v)
  {
    assert g.NodeValid(s);
  }

  lemma SplitStepMark(g: Graph, roots: seq<nat>, live: set<nat>, chains: seq<seq<nat>>, before: map<nat, Expr>,
      after: map<nat, Expr>, invBefore: map<string, Expr>, invAfter: map<string, Expr>, done: set<nat>, s: nat, m: nat,
      v: Valuation, rho: Valuation)
    requires Covered(g, roots, live, chains) && s in live && s !in done && g.IsSplit(s)
    requires m < |chains| && Splits(g, chains[m]) && chains[m] != [] && g.marks[m].source.FromVar?
    requires g.nodes[s].mark < |g.marks|
    requires SplitPropagated(g, s, before, after, invBefore, invAfter, rho)
    requires s in before && Eval(before[s], rho) == g.SplitValue(s, v)
    requires MarkInverse(g, chains[m], g.marks[m].source.name, invBefore, done, v, rho)
    ensures MarkInverse(g, chains[m], g.marks[m].source.name, invAfter, done + {s}, v, rho)
  {
    var x := g.marks[m].source.name;
    SplitContribution(g, roots, live, chains, done, s, m, v(x));
    OwnMark(g, roots, live, chains, s, m);
    if g.marks[g.nodes[s].mark].source == FromVar(x) { SplitDigit(g, s, v(x), v); }
    if x !in invBefore { PartialNone(g, chains[m], done, v(x)); }
  }

  lemma SplitStepInverse(g: Graph, roots: seq<nat>, live: set<nat>, chains: seq<seq<nat>>, before: map<nat, Expr>,
      after: map<nat, Expr>, invBefore: map<string, Expr>, invAfter: map<string, Expr>, done: set<nat>, s: nat,
      v: Valuation, rho: Valuation)
    requires Covered(g, roots, live, chains) && s in live && s !in done && g.IsSplit(s)
    requires forall m :: 0 <= m < |chains| ==> Splits(g, chains[m])
    requires g.nodes[s].mark < |g.marks|
    requires SplitPropagated(g, s, before, after, invBefore, invAfter, rho)
    requires s in before && Eval(before[s], rho) == g.SplitValue(s, v)
    requires InverseOk(g, chains, invBefore, done, v, rho)
    ensures InverseOk(g, chains, invAfter, done + {s}, v, rho)
  {
    forall m | 0 <= m < |chains| && chains[m] != [] && g.marks[m].source.FromVar?
      ensures MarkInverse(g, chains[m], g.marks[m].source.name, invAfter, done + {s}, v, rho)
    {
      SplitStepMark(g, roots, live, chains, before, after, invBefore, invAfter, done, s, m, v, rho);
    }
  }

  // ----- the transformer -----

  class Inverter {
    const g: Graph
    var backprop: map<nat, Expr>
    var inverse: map<string, Expr>

    constructor (g: Graph, backprop: map<nat, Expr>)
      ensures this.g == g && this.backprop == backprop && inverse == map[]
    {
      this.g, this.backprop, inverse := g, backprop, map[];
    }

    /** Case 2 of Visit_(IterSumExpr): each argument receives its digit of the propagated value. */
    method PropagateFused(i: nat)
      requires g.Valid() && g.IsSum(i) && i in backprop && ArgsIn(g, i, backprop)
      modifies this`backprop
      ensures backprop == FusedMap(g, i, old(backprop), old(backprop)[i], 0)
    {
      var args := g.nodes[i].args;
      var input := Sub(backprop[i], Const(g.nodes[i].base));
      var k := |args|;
      while k > 0
        invariant 0 <= k <= |args|
        invariant backprop == FusedMap(g, i, old(backprop), old(backprop)[i], k)
      {
        var split := g.Arg(i, k - 1);
        var propValue := Expr.FloorDiv(input, Const(g.nodes[split].scale));
        if k > 1 {
          propValue := Expr.FloorMod(propValue, Const(g.nodes[split].extent));
        }
        backprop := backprop[split := Add(backprop[split], propValue)];
        k := k - 1;
      }
    }

    /** Visit_(IterSumExpr); false when one of the source's checks would abort. */
    method VisitSum(i: nat) returns (ok: bool)
      requires g.Valid() && g.IsSum(i) && i in backprop && ArgsIn(g, i, backprop)
      modifies this`backprop
      ensures ok <==> SumAccepts(g, i)
      ensures ok ==> backprop == SumUpdate(g, i, old(backprop))
    {
      if |g.nodes[i].args| == 1 {
        var input := Sub(backprop[i], Const(g.nodes[i].base));
        var source := g.Arg(i, 0);
        var scale := g.nodes[source].scale;
        if Abs(scale) != 1 { return false; }
        backprop := backprop[source := Mul(Add(backprop[source], input), Const(scale))];
        return true;
      }
      ok := CheckFusePattern(g, i);
      if !ok { return; }
      PropagateFused(i);
    }

    /** Visit_(IterSplitExpr). */
    method VisitSplit(s: nat)
      requires g.Valid() && g.IsSplit(s) && s in backprop && SourceIn(g, s, backprop)
      modifies this
      ensures Acc(backprop, inverse) == SplitUpdate(g, s, old(Acc(backprop, inverse)))
    {
      var input := Mul(backprop[s], Const(g.nodes[s].lower));
      match g.marks[g.nodes[s].mark].source
      case FromSum(n) =>
        backprop := backprop[n := Add(backprop[n], input)];
      case FromVar(x) =>
        if x in inverse {
          inverse := inverse[x := Add(inverse[x], input)];
        } else {
          inverse := inverse[x := input];
        }
    }
  }

  // ----- the same steps as functions -----

  /** The two accumulators. */
  datatype Acc = Acc(backprop: map<nat, Expr>, inverse: map<string, Expr>)

  predicate SourceIn(g: Graph, s: nat, backprop: map<nat, Expr>)
    requires g.IsSplit(s)
  {
    g.nodes[s].mark < |g.marks| &&
      (g.marks[g.nodes[s].mark].source.FromSum? ==> g.marks[g.nodes[s].mark].source.node in backprop)
  }

  ghost predicate SumAccepts(g: Graph, i: nat)
    requires g.Valid() && g.IsSum(i)
  {
    if |g.nodes[i].args| == 1 then Abs(g.nodes[g.Arg(i, 0)].scale) == 1 else FusedNode(g, i)
  }

  ghost function SumUpdate(g: Graph, i: nat, b: map<nat, Expr>): (r: map<nat, Expr>)
    requires g.Valid() && g.IsSum(i) && i in b && ArgsIn(g, i, b)
    ensures r.Keys == b.Keys
  {
    if |g.nodes[i].args| == 1 then
      var a := g.Arg(i, 0);
      b[a := Mul(Add(b[a], Sub(b[i], Const(g.nodes[i].base))), Const(g.nodes[a].scale))]
    else FusedMap(g, i, b, b[i], 0)
  }

  ghost function SplitUpdate(g: Graph, s: nat, acc: Acc): (r: Acc)
    requires g.IsSplit(s) && s in acc.backprop && SourceIn(g, s, acc.backprop)
    ensures r.backprop.Keys == acc.backprop.Keys
  {
    var input := Mul(acc.backprop[s], Const(g.nodes[s].lower));
    match g.marks[g.nodes[s].mark].source
    case FromSum(n) => acc.(backprop := acc.backprop[n := Add(acc.backprop[n], input)])
    case FromVar(x) => acc.(inverse := acc.inverse[x := if x in acc.inverse then Add(acc.inverse[x], input) else input])
  }

  lemma SumUpdatePropagates(g: Graph, i: nat, b: map<nat, Expr>, v: Valuation, rho: Valuation)
    requires g.Valid() && g.IsSum(i) && i in b && ArgsIn(g, i, b)
    requires SumAccepts(g, i) && OwnArgs(g, i) && SumReady(g, i, b, v, rho)
    ensures SumPropagated(g, i, b, SumUpdate(g, i, b), v, rho)
  {
    if |g.nodes[i].args| == 1 {
      assert g.Arg(i, 0) == g.nodes[i].args[0];
      SingleArgument(g, i, b, SumUpdate(g, i, b), v, rho);
    } else {
      FusedPropagated(g, i, b, v, rho);
    }
  }

  lemma SplitUpdatePropagates(g: Graph, s: nat, acc: Acc, rho: Valuation)
    requires g.Valid() && g.IsSplit(s) && s in acc.backprop && SourceIn(g, s, acc.backprop)
    ensures var r := SplitUpdate(g, s, acc); SplitPropagated(g, s, acc.backprop, r.backprop, acc.inverse,
      r.inverse, rho)
  {
    assert Eval(Const(g.nodes[s].lower), rho) == g.nodes[s].lower;
    assert Eval(Mul(acc.backprop[s], Const(g.nodes[s].lower)), rho) == Eval(acc.backprop[s], rho) * g.nodes[s].lower;
  }

  /** A sum whose own value has arrived and whose arguments have received nothing. */
  ghost predicate SumReady(g: Graph, i: nat, backprop: map<nat, Expr>, v: Valuation, rho: Valuation)
    requires g.Valid() && g.IsSum(i)
  {
    && i in backprop && Eval(backprop[i], rho) == g.SumValue(i, v)
    && forall s :: s in g.nodes[i].args ==> s in backprop && Eval(backprop[s], rho) == 0
  }

  predicate ArgsIn(g: Graph, i: nat, backprop: map<nat, Expr>)
    requires g.IsSum(i)
  {
    forall k :: 0 <= k < |g.nodes[i].args| ==> g.nodes[i].args[k] in backprop
  }

  lemma SingleArgument(g: Graph, i: nat, before: map<nat, Expr>, after: map<nat, Expr>, v: Valuation, rho: Valuation)
    requires g.Valid() && g.IsSum(i) && |g.nodes[i].args| == 1 && SumReady(g, i, before, v, rho)
    requires Abs(g.nodes[g.Arg(i, 0)].scale) == 1 && g.Arg(i, 0) in before
    requires var a := g.Arg(i, 0);
      after == before[a := Mul(Add(before[a], Sub(before[i], Const(g.nodes[i].base))), Const(g.nodes[a].scale))]
    ensures SumPropagated(g, i, before, after, v, rho)
  {
    var a := g.Arg(i, 0);
    assert g.nodes[i].args == [a];
    assert a in g.nodes[i].args;
    SingleValue(g, i, before[i], before[a], v, rho);
  }

  lemma SingleValue(g: Graph, i: nat, total: Expr, acc: Expr, v: Valuation, rho: Valuation)
    requires g.Valid() && g.IsSum(i) && |g.nodes[i].args| == 1
    requires Abs(g.nodes[g.Arg(i, 0)].scale) == 1 && Eval(total, rho) == g.SumValue(i, v) && Eval(acc, rho) == 0
    ensures Eval(Mul(Add(acc, Sub(total, Const(g.nodes[i].base))), Const(g.nodes[g.Arg(i, 0)].scale)), rho) ==
      g.SplitValue(g.Arg(i, 0), v)
  {
    var a := g.Arg(i, 0);
    SingleSum(g, i, v);
    ScaledBack(total, acc, g.nodes[i].base, g.nodes[a].scale, g.SplitValue(a, v), rho);
  }

  lemma SingleSum(g: Graph, i: nat, v: Valuation)
    requires g.Valid() && g.IsSum(i) && |g.nodes[i].args| == 1
    ensures g.SumValue(i, v) == g.nodes[i].base + g.SplitValue(g.Arg(i, 0), v) * g.nodes[g.Arg(i, 0)].scale
  {
    assert g.ArgsValue(i, 0, v) == 0;
  }

  lemma ScaledBack(total: Expr, acc: Expr, base: int, s: int, d: int, rho: Valuation)
    requires Abs(s) == 1 && Eval(total, rho) == base + d * s && Eval(acc, rho) == 0
    ensures Eval(Mul(Add(acc, Sub(total, Const(base))), Const(s)), rho) == d
  {
    OffsetRemoved(total, acc, base, d * s, rho);
    ProductEval(Add(acc, Sub(total, Const(base))), s, d * s, rho);
    UnitTwice(d, s);
  }

  lemma OffsetRemoved(total: Expr, acc: Expr, base: int, x: int, rho: Valuation)
    requires Eval(total, rho) == base + x && Eval(acc, rho) == 0
    ensures Eval(Add(acc, Sub(total, Const(base))), rho) == x
  {
    var d := Sub(total, Const(base));
    EvalSub(total, Const(base), rho);
    EvalAdd(acc, d, rho);
    EvalConst(base, rho);
  }

  lemma ProductEval(e: Expr, s: int, x: int, rho: Valuation)
    requires Eval(e, rho) == x
    ensures Eval(Mul(e, Const(s)), rho) == x * s
  {
    EvalConst(s, rho);
    EvalMul(e, Const(s), rho);
  }

  lemma UnitTwice(d: int, s: int)
    requires Abs(s) == 1
    ensures (d * s) * s == d
  {
    if s == 1 { assert (d * 1) * 1 == d; } else { assert (d * -1) * -1 == d; }
  }

  /** The digit a fused sum of value `total` sends to its argument `j`. */
  function DigitExpr(g: Graph, i: nat, j: nat, total: Expr): Expr
    requires g.Valid() && g.IsSum(i) && j < |g.nodes[i].args|
  {
    var q := Expr.FloorDiv(Sub(total, Const(g.nodes[i].base)), Const(g.nodes[g.Arg(i, j)].scale));
    if j > 0 then Expr.FloorMod(q, Const(g.nodes[g.Arg(i, j)].extent)) else q
  }

  /** The accumulators after arguments k and up have received their digit. */
  ghost function FusedMap(g: Graph, i: nat, b: map<nat, Expr>, total: Expr, k: nat): (r: map<nat, Expr>)
    requires g.Valid() && g.IsSum(i) && k <= |g.nodes[i].args| && ArgsIn(g, i, b)
    ensures r.Keys == b.Keys
    decreases |g.nodes[i].args| - k
  {
    if k == |g.nodes[i].args| then b else
      var r := FusedMap(g, i, b, total, k + 1);
      r[g.Arg(i, k) := Add(r[g.Arg(i, k)], DigitExpr(g, i, k, total))]
  }

  lemma {:induction false} FusedMapOther(g: Graph, i: nat, b: map<nat, Expr>, total: Expr, k: nat, s: nat)
    requires g.Valid() && g.IsSum(i) && k <= |g.nodes[i].args| && ArgsIn(g, i, b) && s in b
    requires forall j :: k <= j < |g.nodes[i].args| ==> g.nodes[i].args[j] != s
    ensures FusedMap(g, i, b, total, k)[s] == b[s]
    decreases |g.nodes[i].args| - k
  {
    if k < |g.nodes[i].args| { FusedMapOther(g, i, b, total, k + 1, s); }
  }

  /** Argument j stands nowhere else in the list. */
  ghost predicate Alone(g: Graph, i: nat, j: nat)
    requires g.IsSum(i) && j < |g.nodes[i].args|
  {
    forall k :: 0 <= k < |g.nodes[i].args| && k != j ==> g.nodes[i].args[k] != g.nodes[i].args[j]
  }

  /** Only arguments with one value are repeated. */
  ghost predicate OwnArgs(g: Graph, i: nat)
    requires g.IsSum(i)
  {
    forall j :: 0 <= j < |g.nodes[i].args| ==> Alone(g, i, j) || Unit(g, g.nodes[i].args[j])
  }

  lemma {:induction false} FusedMapAt(g: Graph, i: nat, b: map<nat, Expr>, total: Expr, k: nat, j: nat)
    requires g.Valid() && g.IsSum(i) && k <= j < |g.nodes[i].args| && ArgsIn(g, i, b) && Alone(g, i, j)
    ensures FusedMap(g, i, b, total, k)[g.Arg(i, j)] == Add(b[g.Arg(i, j)], DigitExpr(g, i, j, total))
    decreases |g.nodes[i].args| - k
  {
    if j == k {
      FusedMapOther(g, i, b, total, k + 1, g.Arg(i, j));
    } else {
      FusedMapAt(g, i, b, total, k + 1, j);
    }
  }

  /** However often a split with one value is an argument, it receives 0. */
  lemma {:induction false} FusedMapUnit(g: Graph, i: nat, b: map<nat, Expr>, total: Expr, k: nat, s: nat, v: Valuation,
      rho: Valuation)
    requires g.Valid() && g.IsSum(i) && k <= |g.nodes[i].args| && ArgsIn(g, i, b) && FusedNode(g, i)
    requires s in b && Unit(g, s) && Eval(b[s], rho) == 0 && Eval(total, rho) == g.SumValue(i, v)
    ensures Eval(FusedMap(g, i, b, total, k)[s], rho) == 0
    decreases |g.nodes[i].args| - k
  {
    if k < |g.nodes[i].args| {
      FusedMapUnit(g, i, b, total, k + 1, s, v, rho);
      if g.Arg(i, k) == s { UnitDigit(g, i, k, total, FusedMap(g, i, b, total, k + 1)[s], v, rho); }
    }
  }

  lemma UnitDigit(g: Graph, i: nat, k: nat, total: Expr, acc: Expr, v: Valuation, rho: Valuation)
    requires g.Valid() && g.IsSum(i) && k < |g.nodes[i].args| && FusedNode(g, i) && Unit(g, g.Arg(i, k))
    requires Eval(total, rho) == g.SumValue(i, v) && Eval(acc, rho) == 0
    ensures Eval(Add(acc, DigitExpr(g, i, k, total)), rho) == 0
  {
    DigitValue(g, i, k, total, v, rho);
    EvalAdd(acc, DigitExpr(g, i, k, total), rho);
  }

  lemma FusedPropagated(g: Graph, i: nat, before: map<nat, Expr>, v: Valuation, rho: Valuation)
    requires g.Valid() && g.IsSum(i) && FusedNode(g, i) && OwnArgs(g, i) && ArgsIn(g, i, before)
    requires SumReady(g, i, before, v, rho)
    ensures SumPropagated(g, i, before, FusedMap(g, i, before, before[i], 0), v, rho)
  {
    var after := FusedMap(g, i, before, before[i], 0);
    forall s | s in after && s !in g.nodes[i].args ensures after[s] == before[s] {
      FusedMapOther(g, i, before, before[i], 0, s);
    }
    forall s | s in g.nodes[i].args && g.IsSplit(s) ensures Eval(after[s], rho) == g.SplitValue(s, v) {
      var j :| 0 <= j < |g.nodes[i].args| && g.nodes[i].args[j] == s;
      FusedArgumentReceives(g, i, before, j, v, rho);
    }
  }

  lemma FusedArgumentReceives(g: Graph, i: nat, before: map<nat, Expr>, j: nat, v: Valuation, rho: Valuation)
    requires g.Valid() && g.IsSum(i) && FusedNode(g, i) && OwnArgs(g, i) && ArgsIn(g, i, before)
    requires SumReady(g, i, before, v, rho) && j < |g.nodes[i].args|
    ensures Eval(FusedMap(g, i, before, before[i], 0)[g.Arg(i, j)], rho) == g.SplitValue(g.Arg(i, j), v)
  {
    var s := g.Arg(i, j);
    assert s in g.nodes[i].args;
    if Alone(g, i, j) {
      FusedMapAt(g, i, before, before[i], 0, j);
      DigitValue(g, i, j, before[i], v, rho);
    } else {
      FusedMapUnit(g, i, before, before[i], 0, s, v, rho);
      assert g.SplitValue(s, v) == 0;
    }
  }

  lemma DigitValue(g: Graph, i: nat, j: nat, total: Expr, v: Valuation, rho: Valuation)
    requires g.Valid() && g.IsSum(i) && j < |g.nodes[i].args| && FusedNode(g, i)
    requires Eval(total, rho) == g.SumValue(i, v)
    ensures Eval(DigitExpr(g, i, j, total), rho) == g.SplitValue(g.Arg(i, j), v)
  {
    var a := g.Arg(i, j);
    var s, e, x := g.nodes[a].scale, g.nodes[a].extent, g.SumValue(i, v) - g.nodes[i].base;
    FusedArgument(g, i, j, v);
    var input := Sub(total, Const(g.nodes[i].base));
    assert Eval(Const(s), rho) == s && Eval(Const(e), rho) == e && Eval(input, rho) == x;
    var q := Expr.FloorDiv(input, Const(s));
    assert Eval(q, rho) == IntOperator.FloorDiv(x, s);
    FloorIsEuclidean(IntOperator.FloorDiv(x, s), e);
    assert Eval(Expr.FloorMod(q, Const(e)), rho) == IntOperator.FloorMod(Eval(q, rho), e);
  }

  // ----- the theorem -----

  /** `rho` gives every output the value the iter map has at the point `v`. */
  ghost predicate Matches(g: Graph, roots: seq<nat>, outputs: seq<Expr>, v: Valuation, rho: Valuation)
    requires g.Valid() && |outputs| == |roots| && forall k :: 0 <= k < |roots| ==> g.IsSum(roots[k])
  {
    forall k :: 0 <= k < |roots| ==> Eval(outputs[k], rho) == g.SumValue(roots[k], v)
  }

  /** Every variable of a covered mark is recovered. */
  ghost predicate Recovered(g: Graph, chains: seq<seq<nat>>, inverse: map<string, Expr>, v: Valuation, rho: Valuation) {
    forall m :: 0 <= m < |chains| && m < |g.marks| && chains[m] != [] && g.marks[m].source.FromVar? ==>
      g.marks[m].source.name in inverse && Eval(inverse[g.marks[m].source.name], rho) == v(g.marks[m].source.name)
  }

  ghost function InitialBackprop(order: seq<nat>, roots: seq<nat>, outputs: seq<Expr>, k: nat): map<nat, Expr>
    requires k <= |roots| == |outputs|
  {
    if k == 0 then map n | n in order :: Const(0)
    else InitialBackprop(order, roots, outputs, k - 1)[roots[k - 1] := outputs[k - 1]]
  }

  lemma {:induction false} InitialAt(order: seq<nat>, roots: seq<nat>, outputs: seq<Expr>, k: nat, n: nat)
    requires k <= |roots| == |outputs| && n in order && NoRepeat(roots)
    ensures n in InitialBackprop(order, roots, outputs, k)
    ensures forall j :: 0 <= j < k && roots[j] == n ==> InitialBackprop(order, roots, outputs, k)[n] == outputs[j]
    ensures n !in roots[..k] ==> InitialBackprop(order, roots, outputs, k)[n] == Const(0)
  {
    if k > 0 {
      InitialAt(order, roots, outputs, k - 1, n);
      assert roots[..k] == roots[..k - 1] + [roots[k - 1]];
    }
  }

  lemma InitialConsistent(g: Graph, roots: seq<nat>, outputs: seq<Expr>, order: seq<nat>, live: set<nat>,
      chains: seq<seq<nat>>, v: Valuation, rho: Valuation)
    requires Covered(g, roots, live, chains) && live == Elements(order) && |outputs| == |roots|
    requires forall k :: 0 <= k < |roots| ==> g.IsSum(roots[k])
    requires Matches(g, roots, outputs, v, rho) && forall m :: 0 <= m < |chains| ==> Splits(g, chains[m])
    ensures Consistent(g, roots, live, chains, InitialBackprop(order, roots, outputs, |roots|), map[], {}, v, rho)
  {
    var b := InitialBackprop(order, roots, outputs, |roots|);
    assert roots[..|roots|] == roots;
    forall s | s in live && g.IsSplit(s) ensures SplitOk(g, b, {}, v, rho, s) {
      InitialAt(order, roots, outputs, |roots|, s);
    }
    forall i | i in live && g.IsSum(i) ensures SumOk(g, roots, chains, b, {}, v, rho, i) {
      InitialAt(order, roots, outputs, |roots|, i);
      if i in roots {
        var j :| 0 <= j < |roots| && roots[j] == i;
      } else {
        forall m | 0 <= m < |chains| ensures PartialSum(g, chains[m], {}, g.SumValue(i, v)) == 0 {
          PartialNone(g, chains[m], {}, g.SumValue(i, v));
        }
      }
    }
  }

  lemma FinalRecovered(g: Graph, roots: seq<nat>, live: set<nat>, chains: seq<seq<nat>>, inverse: map<string, Expr>,
      v: Valuation, rho: Valuation)
    requires Covered(g, roots, live, chains) && InDomain(g, chains, v) && forall m :: 0 <= m < |chains| ==>
      Splits(g, chains[m])
    requires InverseOk(g, chains, inverse, live, v, rho)
    ensures Recovered(g, chains, inverse, v, rho)
  {
    forall m | 0 <= m < |chains| && chains[m] != [] && g.marks[m].source.FromVar?
      ensures g.marks[m].source.name in inverse
      ensures Eval(inverse[g.marks[m].source.name], rho) == v(g.marks[m].source.name)
    {
      assert Covers(g, m, chains[m], live);
      assert chains[m][0] in live;
      assert SourceValue(g, m, v) == v(g.marks[m].source.name);
      CoveredSum(g, m, chains[m], live, live, v(g.marks[m].source.name));
    }
  }

  lemma ArgsOwned(g: Graph, roots: seq<nat>, live: set<nat>, chains: seq<seq<nat>>, i: nat)
    requires Covered(g, roots, live, chains) && i in live && g.IsSum(i)
    ensures OwnArgs(g, i)
  {
    forall j | 0 <= j < |g.nodes[i].args| && !Unit(g, g.nodes[i].args[j]) ensures Alone(g, i, j) {
      forall k | 0 <= k < |g.nodes[i].args| && k != j ensures g.nodes[i].args[k] != g.nodes[i].args[j] {
        assert IsArg(g, i, j) && IsArg(g, i, k);
      }
    }
  }

  /** The node and what it refers to are among the visited nodes. */
  predicate Live(g: Graph, i: nat, live: set<nat>) {
    && i < |g.nodes| && i in live
    && (g.IsSum(i) ==> forall k :: 0 <= k < |g.nodes[i].args| ==> g.nodes[i].args[k] in live)
    && (g.IsSplit(i) ==>
          && g.nodes[i].mark < |g.marks|
          && (g.marks[g.nodes[i].mark].source.FromSum? ==> g.marks[g.nodes[i].mark].source.node in live))
  }

  ghost predicate AllLive(g: Graph, order: seq<nat>, live: set<nat>) {
    forall k :: 0 <= k < |order| ==> Live(g, order[k], live)
  }

  ghost function Step(g: Graph, i: nat, acc: Acc): (r: Acc)
    requires g.Valid() && Live(g, i, acc.backprop.Keys)
    ensures r.backprop.Keys == acc.backprop.Keys
  {
    if g.IsSum(i) then acc.(backprop := SumUpdate(g, i, acc.backprop)) else SplitUpdate(g, i, acc)
  }

  /** The accumulators after the first `t` nodes of the order. */
  ghost function Run(g: Graph, order: seq<nat>, start: map<nat, Expr>, t: nat): (r: Acc)
    requires g.Valid() && AllLive(g, order, start.Keys) && t <= |order|
    ensures r.backprop.Keys == start.Keys
  {
    if t == 0 then Acc(start, map[]) else Step(g, order[t - 1], Run(g, order, start, t - 1))
  }

  lemma OrderIsLive(g: Graph, roots: seq<nat>, order: seq<nat>)
    requires g.Valid() && PropagationOrder(g, roots, order)
    ensures AllLive(g, order, Elements(order))
  {
    forall t | 0 <= t < |order| ensures Live(g, order[t], Elements(order)) {
      var i := order[t];
      forall c | c in g.Children(i) ensures c in Elements(order) { assert c in order[t + 1..]; }
      assert g.NodeValid(i);
      if g.IsSum(i) {
        forall k | 0 <= k < |g.nodes[i].args|
          ensures g.nodes[i].args[k] in Elements(order)
        {
          assert g.nodes[i].args[k] in g.Children(i);
        }
      } else if g.marks[g.nodes[i].mark].source.FromSum? {
        assert g.marks[g.nodes[i].mark].source.node in g.Children(i);
      }
    }
  }

  ghost predicate AcceptsAt(g: Graph, order: seq<nat>, k: nat)
    requires g.Valid() && k < |order|
  {
    g.IsSum(order[k]) ==> SumAccepts(g, order[k])
  }

  /** None of the source's checks aborts on the first `t` nodes. */
  ghost predicate Accepted(g: Graph, order: seq<nat>, t: nat)
    requires g.Valid() && t <= |order|
  {
    forall k :: 0 <= k < t ==> AcceptsAt(g, order, k)
  }

  lemma AcceptedSnoc(g: Graph, order: seq<nat>, t: nat)
    requires g.Valid() && t < |order| && Accepted(g, order, t) && AcceptsAt(g, order, t)
    ensures Accepted(g, order, t + 1)
  {
    forall k | 0 <= k < t + 1 ensures AcceptsAt(g, order, k) {
      if k != t { assert AcceptsAt(g, order, k); }
    }
  }

  lemma StepConsistent(g: Graph, roots: seq<nat>, order: seq<nat>, t: nat, live: set<nat>, chains: seq<seq<nat>>,
      acc: Acc, done: set<nat>, v: Valuation, rho: Valuation)
    requires Next(g, roots, order, t, live, done) && Covered(g, roots, live, chains) && InDomain(g, chains, v)
    requires forall m :: 0 <= m < |chains| ==> Splits(g, chains[m])
    requires RootOrUsed(g, roots, order, t) && Live(g, order[t], acc.backprop.Keys) && AcceptsAt(g, order, t)
    requires Consistent(g, roots, live, chains, acc.backprop, acc.inverse, done, v, rho)
    ensures var r := Step(g, order[t], acc); Consistent(g, roots, live, chains, r.backprop, r.inverse, done +
      {order[t]}, v, rho)
  {
    var i := order[t];
    NotYetDone(g, roots, order, t, live, done);
    assert i in order;
    if g.IsSum(i) {
      assert SumOk(g, roots, chains, acc.backprop, done, v, rho, i);
      NextSumValue(g, roots, order, t, live, chains, acc.backprop, done, v, rho);
      forall s | s in g.nodes[i].args ensures s in acc.backprop && Eval(acc.backprop[s], rho) == 0 {
        ArgsFresh(g, roots, order, t, live, chains, done, s);
        assert g.NodeValid(i);
        assert SplitOk(g, acc.backprop, done, v, rho, s);
        if Unit(g, s) { assert g.SplitValue(s, v) == 0; }
      }
      ArgsOwned(g, roots, live, chains, i);
      SumUpdatePropagates(g, i, acc.backprop, v, rho);
      SumStep(g, roots, order, t, live, chains, acc.backprop, SumUpdate(g, i, acc.backprop), acc.inverse, done, v, rho);
    } else {
      SplitUpdatePropagates(g, i, acc, rho);
      var r := SplitUpdate(g, i, acc);
      SplitStep(g, roots, order, t, live, chains, acc.backprop, r.backprop, acc.inverse, r.inverse, done, v, rho);
    }
  }

  /** Everything that is fixed during a run. */
  ghost predicate Setting(g: Graph, roots: seq<nat>, order: seq<nat>, chains: seq<seq<nat>>, v: Valuation) {
    && g.Valid() && PropagationOrder(g, roots, order) && AllUsed(g, roots, order)
    && Covered(g, roots, Elements(order), chains) && InDomain(g, chains, v)
    && (forall m :: 0 <= m < |chains| ==> Splits(g, chains[m]))
  }

  ghost predicate ConsistentAt(g: Graph, roots: seq<nat>, order: seq<nat>, chains: seq<seq<nat>>, acc: Acc, t: nat,
      v: Valuation, rho: Valuation)
    requires t <= |order| && Setting(g, roots, order, chains, v)
  {
    Consistent(g, roots, Elements(order), chains, acc.backprop, acc.inverse, Elements(order[..t]), v, rho)
  }

  lemma StepAt(g: Graph, roots: seq<nat>, order: seq<nat>, chains: seq<seq<nat>>, acc: Acc, t: nat, v: Valuation,
      rho: Valuation)
    requires Setting(g, roots, order, chains, v) && t < |order|
    requires Live(g, order[t], acc.backprop.Keys) && AcceptsAt(g, order, t)
    requires ConsistentAt(g, roots, order, chains, acc, t, v, rho)
    ensures ConsistentAt(g, roots, order, chains, Step(g, order[t], acc), t + 1, v, rho)
  {
    assert RootOrUsed(g, roots, order, t);
    StepConsistent(g, roots, order, t, Elements(order), chains, acc, Elements(order[..t]), v, rho);
    ElementsSnoc(order, t);
  }

  lemma RunStep(g: Graph, order: seq<nat>, start: map<nat, Expr>, t: nat)
    requires g.Valid() && AllLive(g, order, start.Keys) && 0 < t <= |order|
    ensures Live(g, order[t - 1], Run(g, order, start, t - 1).backprop.Keys)
    ensures Run(g, order, start, t) == Step(g, order[t - 1], Run(g, order, start, t - 1))
    ensures Accepted(g, order, t) ==> AcceptsAt(g, order, t - 1) && Accepted(g, order, t - 1)
  {
    assert Live(g, order[t - 1], start.Keys);
  }

  ghost predicate RunOk(g: Graph, roots: seq<nat>, order: seq<nat>, chains: seq<seq<nat>>, start: map<nat, Expr>,
      t: nat, v: Valuation, rho: Valuation)
    requires Setting(g, roots, order, chains, v) && AllLive(g, order, start.Keys) && t <= |order|
  {
    ConsistentAt(g, roots, order, chains, Run(g, order, start, t), t, v, rho)
  }

  lemma RunStepOk(g: Graph, roots: seq<nat>, order: seq<nat>, chains: seq<seq<nat>>, start: map<nat, Expr>, t: nat,
      v: Valuation, rho: Valuation)
    requires Setting(g, roots, order, chains, v) && AllLive(g, order, start.Keys) && t < |order|
    requires AcceptsAt(g, order, t) && RunOk(g, roots, order, chains, start, t, v, rho)
    ensures RunOk(g, roots, order, chains, start, t + 1, v, rho)
  {
    RunStep(g, order, start, t + 1);
    StepAt(g, roots, order, chains, Run(g, order, start, t), t, v, rho);
  }

  predicate Carries(P: nat -> bool, k: nat) {
    P(k) ==> P(k + 1)
  }

  lemma {:induction false} RunInduction(P: nat -> bool, t: nat)
    requires P(0) && forall k: nat :: k < t ==> Carries(P, k)
    ensures P(t)
  {
    if t > 0 {
      RunInduction(P, t - 1);
      assert Carries(P, t - 1);
    }
  }

  lemma RunConsistent(g: Graph, roots: seq<nat>, order: seq<nat>, chains: seq<seq<nat>>, start: map<nat, Expr>, t: nat,
      v: Valuation, rho: Valuation)
    requires Setting(g, roots, order, chains, v) && AllLive(g, order, start.Keys) && t <= |order|
    requires Accepted(g, order, t) && RunOk(g, roots, order, chains, start, 0, v, rho)
    ensures RunOk(g, roots, order, chains, start, t, v, rho)
  {
    var P := (k: nat) => k <= |order| && Setting(g, roots, order, chains, v) && AllLive(g, order, start.Keys) &&
      RunOk(g, roots, order, chains, start, k, v, rho);
    forall k: nat | k < t ensures Carries(P, k) {
      assert AcceptsAt(g, order, k);
      if P(k) { RunStepOk(g, roots, order, chains, start, k, v, rho); }
    }
    RunInduction(P, t);
  }

  lemma ElementsSnoc(order: seq<nat>, t: nat)
    requires t < |order|
    ensures Elements(order[..t + 1]) == Elements(order[..t]) + {order[t]}
  {
    assert order[..t + 1] == order[..t] + [order[t]];
  }

  /** Forward then backward is the identity at every point of the domain of a covered iter map. */
  lemma InverseOfForward(g: Graph, roots: seq<nat>, outputs: seq<Expr>, order: seq<nat>, chains: seq<seq<nat>>,
      v: Valuation, rho: Valuation)
    requires g.Valid() && PropagationOrder(g, roots, order) && AllUsed(g, roots, order) && |outputs| == |roots|
    requires forall k :: 0 <= k < |roots| ==> g.IsSum(roots[k])
    requires AllLive(g, order, InitialBackprop(order, roots, outputs, |roots|).Keys)
    requires Covered(g, roots, Elements(order), chains) && Accepted(g, order, |order|)
    requires InDomain(g, chains, v) && Matches(g, roots, outputs, v, rho)
    ensures Recovered(g, chains,
      Run(g, order, InitialBackprop(order, roots, outputs, |roots|), |order|).inverse, v, rho)
  {
    var live := Elements(order);
    forall m | 0 <= m < |chains| ensures Splits(g, chains[m]) { ChainSplits(g, roots, live, chains, m); }
    var start := InitialBackprop(order, roots, outputs, |roots|);
    InitialConsistent(g, roots, outputs, order, live, chains, v, rho);
    assert Elements(order[..0]) == {};
    RunConsistent(g, roots, order, chains, start, |order|, v, rho);
    assert order[..|order|] == order;
    FinalRecovered(g, roots, live, chains, Run(g, order, start, |order|).inverse, v, rho);
  }

  lemma {:induction false} InitialKeys(order: seq<nat>, roots: seq<nat>, outputs: seq<Expr>, k: nat)
    requires k <= |roots| == |outputs| && forall r :: r in roots ==> r in order
    ensures InitialBackprop(order, roots, outputs, k).Keys == Elements(order)
  {
    if k > 0 { InitialKeys(order, roots, outputs, k - 1); }
  }

  /** The loop of back-propagation. */
  method RunPropagation(g: Graph, order: seq<nat>, start: map<nat, Expr>) returns (ok: bool, inverse: map<string, Expr>)
    requires g.Valid() && AllLive(g, order, start.Keys)
    ensures ok <==> Accepted(g, order, |order|)
    ensures ok ==> inverse == Run(g, order, start, |order|).inverse
  {
    var inv := new Inverter(g, start);
    for t := 0 to |order|
      invariant inv.g == g && Acc(inv.backprop, inv.inverse) == Run(g, order, start, t) && Accepted(g, order, t)
    {
      assert Live(g, order[t], start.Keys);
      ok := VisitNode(inv, order[t]);
      if !ok {
        NotAccepted(g, order, t);
        return false, map[];
      }
      AcceptedSnoc(g, order, t);
      RunStep(g, order, start, t + 1);
    }
    ok, inverse := true, inv.inverse;
  }

  lemma NotAccepted(g: Graph, order: seq<nat>, t: nat)
    requires g.Valid() && t < |order| && !AcceptsAt(g, order, t)
    ensures !Accepted(g, order, |order|)
  {
  }

  /** One node of the order. */
  method VisitNode(inv: Inverter, i: nat) returns (ok: bool)
    requires inv.g.Valid() && Live(inv.g, i, inv.backprop.Keys)
    modifies inv
    ensures ok <==> (inv.g.IsSum(i) ==> SumAccepts(inv.g, i))
    ensures ok ==> Acc(inv.backprop, inv.inverse) == Step(inv.g, i, old(Acc(inv.backprop, inv.inverse)))
  {
    ok := true;
    if inv.g.nodes[i].SumNode? { ok := inv.VisitSum(i); } else { inv.VisitSplit(i); }
  }

  /** Every point of the domain of a covered iter map is recovered from its outputs. */
  ghost predicate Inverts(g: Graph, roots: seq<nat>, outputs: seq<Expr>, chains: seq<seq<nat>>,
      inverse: map<string, Expr>)
    requires g.Valid() && |chains| == |g.marks| && |outputs| == |roots|
    requires forall k :: 0 <= k < |roots| ==> g.IsSum(roots[k])
  {
    forall v: Valuation, rho: Valuation :: InDomain(g, chains, v) && Matches(g, roots, outputs, v, rho) ==>
      Recovered(g, chains, inverse, v, rho)
  }

  /** Back-propagation along the given order. */
  method InverseAlong(g: Graph, roots: seq<nat>, outputs: seq<Expr>, order: seq<nat>, ghost chains: seq<seq<nat>>)
    returns (ok: bool, inverse: map<string, Expr>)
    requires g.Valid() && |outputs| == |roots| && forall k :: 0 <= k < |roots| ==> g.IsSum(roots[k])
    requires PropagationOrder(g, roots, order) && AllUsed(g, roots, order)
    ensures ok <==> Accepted(g, order, |order|)
    ensures ok && Covered(g, roots, Elements(order), chains) ==> Inverts(g, roots, outputs, chains, inverse)
  {
    var backprop := map n | n in order :: Const(0);
    for k := 0 to |roots|
      invariant backprop == InitialBackprop(order, roots, outputs, k)
    {
      backprop := backprop[roots[k] := outputs[k]];
    }
    InitialKeys(order, roots, outputs, |roots|);
    OrderIsLive(g, roots, order);
    ok, inverse := RunPropagation(g, order, backprop);
    if ok && Covered(g, roots, Elements(order), chains) {
      forall v: Valuation, rho: Valuation | InDomain(g, chains, v) && Matches(g, roots, outputs, v, rho)
        ensures Recovered(g, chains, inverse, v, rho)
      {
        InverseOfForward(g, roots, outputs, order, chains, v, rho);
      }
    }
  }

  /**
   InverseAffineIterMap. When no check aborts and `chains` witnesses coverage of the visited
   nodes, the inverse composed with the forward map is the identity on the iterator domain.
   */
  method InverseAffineIterMap(g: Graph, roots: seq<nat>, outputs: seq<Expr>, ghost chains: seq<seq<nat>>)
    returns (ok: bool, inverse: map<string, Expr>, ghost order: seq<nat>)
    requires g.Valid() && |outputs| == |roots| && forall k :: 0 <= k < |roots| ==> g.IsSum(roots[k])
    ensures PropagationOrder(g, roots, order) && AllUsed(g, roots, order) && (ok <==> Accepted(g, order, |order|))
    ensures ok && Covered(g, roots, Elements(order), chains) ==> Inverts(g, roots, outputs, chains, inverse)
  {
    var visited := ReverseTopologyOrder(g, roots);
    order := visited;
    ok, inverse := InverseAlong(g, roots, outputs, visited, chains);
  }
}
