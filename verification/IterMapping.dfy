/**
 CheckMapping of src/arith/iter_affine_map.cc at the bijective level, and the inverse of a
 checked iter map: the coverage that the inverse needs is what the check establishes.
 */
module IterMapping {
  import opened Radix
  import opened Fusion
  import opened Exprs
  import opened IterSplits
  import opened IterInverse
  import opened IterCollector

  predicate AllSplits(g: Graph, splits: seq<nat>) {
    forall k :: 0 <= k < |splits| ==> g.IsSplit(splits[k])
  }

  function SlotsOf(g: Graph, splits: seq<nat>): (r: seq<Slot>)
    requires AllSplits(g, splits)
    ensures |r| == |splits| && forall k :: 0 <= k < |splits| ==> r[k] == g.SlotOf(splits[k])
  {
    seq(|splits|, k requires 0 <= k < |splits| => g.SlotOf(splits[k]))
  }

  lemma {:induction false} SplitsOfMark(g: Graph, uses: seq<Use>, m: nat)
    ensures AllSplits(g, SplitsOf(g, uses, m))
    ensures forall s :: s in SplitsOf(g, uses, m) ==> g.nodes[s].mark == m
  {
    if uses != [] { SplitsOfMark(g, uses[..|uses| - 1], m); }
  }

  // ----- the chain of a mark -----

  function Chain(splits: seq<nat>, order: seq<nat>): (r: seq<nat>)
    requires forall k :: 0 <= k < |order| ==> order[k] < |splits|
    ensures |r| == |order| && forall k :: 0 <= k < |order| ==> r[k] == splits[order[k]]
  {
    seq(|order|, k requires 0 <= k < |order| => splits[order[k]])
  }

  /** The list without later repetitions. */
  function Firsts(chain: seq<nat>): seq<nat> {
    if chain == [] then [] else
      var k := |chain| - 1;
      Firsts(chain[..k]) + if chain[k] in chain[..k] then [] else [chain[k]]
  }

  lemma {:induction false} FirstsMeans(chain: seq<nat>)
    ensures NoRepeat(Firsts(chain)) && forall s :: s in Firsts(chain) <==> s in chain
  {
    if chain != [] {
      var k := |chain| - 1;
      assert chain == chain[..k] + [chain[k]];
      FirstsMeans(chain[..k]);
    }
  }

  /** Dropping repeated units keeps a tiling. */
  lemma {:induction false} FirstsTile(g: Graph, chain: seq<nat>)
    requires AllSplits(g, chain) && Contiguous(SlotsOf(g, chain))
    ensures AllSplits(g, Firsts(chain))
    ensures Contiguous(SlotsOf(g, Firsts(chain))) && Top(SlotsOf(g, Firsts(chain))) == Top(SlotsOf(g, chain))
  {
    if chain != [] {
      var k, all := |chain| - 1, SlotsOf(g, chain);
      var rest, last := Firsts(chain[..k]), chain[k];
      assert SlotsOf(g, chain[..k]) == all[..k];
      ContiguousPrefix(all, k);
      FirstsTile(g, chain[..k]);
      if last in chain[..k] {
        var i :| 0 <= i < k && chain[..k][i] == last;
        TileRepeated(all, i);
        assert Firsts(chain) == rest;
      } else {
        assert Firsts(chain) == rest + [last];
        TileNext(g, rest, last);
      }
    }
  }

  lemma TileRepeated(all: seq<Slot>, i: nat)
    requires Contiguous(all) && i < |all| - 1 && all[i] == all[|all| - 1]
    ensures Top(all) == Top(all[..|all| - 1])
  {
    RepeatIsUnit(all, i, |all| - 1);
  }

  lemma TileNext(g: Graph, rest: seq<nat>, last: nat)
    requires AllSplits(g, rest) && g.IsSplit(last) && Contiguous(SlotsOf(g, rest))
    requires Positive(g.SlotOf(last)) && g.SlotOf(last).lower == Top(SlotsOf(g, rest))
    ensures AllSplits(g, rest + [last]) && Contiguous(SlotsOf(g, rest + [last]))
    ensures Top(SlotsOf(g, rest + [last])) == g.SlotOf(last).lower * g.SlotOf(last).extent
  {
    assert SlotsOf(g, rest + [last]) == SlotsOf(g, rest) + [g.SlotOf(last)];
    ContiguousStep(SlotsOf(g, rest), g.SlotOf(last));
  }

  lemma ContiguousPrefix(slots: seq<Slot>, k: nat)
    requires Contiguous(slots) && k < |slots|
    ensures Contiguous(slots[..k]) && slots[k].lower == Top(slots[..k])
  {
    forall j | 0 <= j < k ensures slots[..k][j].lower == Top(slots[..k][..j]) {
      assert slots[..k][..j] == slots[..j];
    }
  }

  /** The chain covers the mark and holds exactly its visited splits; there is none if no split is visited. */
  ghost predicate MarkCovered(g: Graph, order: seq<nat>, m: nat, chain: seq<nat>)
    requires m < |g.marks|
  {
    && (chain != [] ==> Covers(g, m, chain, Elements(order)))
    && (forall s :: s in order && HasMark(g, s, m) ==> s in chain)
  }

  /** What was collected is what the propagation visits. */
  ghost predicate CollectedFor(g: Graph, roots: seq<nat>, order: seq<nat>, c: Collected) {
    && g.Valid() && AreSums(g, roots) && Complete(g, roots, |roots|, c) && AllSound(g, Elements(order), c.uses)
    && PropagationOrder(g, roots, order) && AllUsed(g, roots, order)
  }

  lemma UsedSplitLive(g: Graph, roots: seq<nat>, order: seq<nat>, c: Collected, s: nat, m: nat)
    requires CollectedFor(g, roots, order, c) && s in SplitsOf(g, c.uses, m)
    ensures s in order && g.IsSplit(s)
  {
    ListedUsed(g, c.uses, s, m);
    var u :| u in c.uses && u.split == s;
    assert Sound(g, Elements(order), u);
    var i :| i in Elements(order) && g.IsSum(i) && u.pos < |g.nodes[i].args| && g.nodes[i].args[u.pos] == u.split;
    OrderIsLive(g, roots, order);
    var t :| 0 <= t < |order| && order[t] == i;
    assert Live(g, order[t], Elements(order));
  }

  lemma LiveSplitUsed(g: Graph, roots: seq<nat>, order: seq<nat>, c: Collected, s: nat, m: nat)
    requires CollectedFor(g, roots, order, c) && s in order && HasMark(g, s, m)
    ensures m in c.visited && s in SplitsOf(g, c.uses, m)
  {
    SplitReached(g, roots, order, c, s);
    var u :| u in c.uses && u.split == s;
    UseListed(g, c.uses, u, m);
  }

  lemma ArrangedChain(g: Graph, roots: seq<nat>, order: seq<nat>, c: Collected, m: nat, arrangement: seq<nat>)
    requires CollectedFor(g, roots, order, c) && m < |g.marks| && AllSplits(g, SplitsOf(g, c.uses, m))
    requires Tiling(SlotsOf(g, SplitsOf(g, c.uses, m)), arrangement, g.marks[m].extent)
    ensures MarkCovered(g, order, m, Firsts(Chain(SplitsOf(g, c.uses, m), arrangement)))
  {
    var splits := SplitsOf(g, c.uses, m);
    var chain := Chain(splits, arrangement);
    var firsts := Firsts(chain);
    SplitsOfMark(g, c.uses, m);
    FirstsMeans(chain);
    forall s | s in firsts ensures s in splits {
      var k :| 0 <= k < |chain| && chain[k] == s;
      assert splits[arrangement[k]] == s;
    }
    forall k | 0 <= k < |firsts|
      ensures g.IsSplit(firsts[k]) && g.nodes[firsts[k]].mark == m && firsts[k] in Elements(order)
    {
      UsedSplitLive(g, roots, order, c, firsts[k], m);
    }
    assert SlotsOf(g, chain) == Arranged(SlotsOf(g, splits), arrangement);
    FirstsTile(g, chain);
    assert ChainSlots(g, firsts) == SlotsOf(g, firsts);
    forall s | s in order && HasMark(g, s, m) ensures s in firsts {
      LiveSplitUsed(g, roots, order, c, s, m);
      SplitInChain(splits, arrangement, s);
    }
  }

  lemma SplitInChain(splits: seq<nat>, arrangement: seq<nat>, s: nat)
    requires Arrangement(arrangement, |splits|) && s in splits
    ensures s in Chain(splits, arrangement)
  {
    var j :| 0 <= j < |splits| && splits[j] == s;
    ArrangementOnto(arrangement, |splits|, j);
    var k :| 0 <= k < |splits| && arrangement[k] == j;
    assert Chain(splits, arrangement)[k] == s;
  }

  // ----- the check -----

  /** The splits of the mark tile its extent. */
  ghost predicate MarkAccepted(g: Graph, uses: seq<Use>, m: nat)
    requires m < |g.marks|
  {
    var splits := SplitsOf(g, uses, m);
    splits != [] && AllSplits(g, splits) && g.marks[m].extent > 0 &&
      Acceptable(SlotsOf(g, splits), g.marks[m].extent)
  }

  /** One mark: the splits that refer to it must normalise to the whole extent. */
  method CheckMark(g: Graph, splits: seq<nat>, m: nat, ghost uses: seq<Use>) returns (ok: bool,
      ghost arrangement: seq<nat>)
    requires g.Valid() && m < |g.marks| && splits == SplitsOf(g, uses, m)
    ensures ok <==> MarkAccepted(g, uses, m)
    ensures ok ==> AllSplits(g, splits) && Tiling(SlotsOf(g, splits), arrangement, g.marks[m].extent)
  {
    arrangement := [];
    SplitsOfMark(g, uses, m);
    if g.marks[m].extent <= 0 { return false, []; }
    forall k | 0 <= k < |splits| ensures Positive(g.SlotOf(splits[k])) { assert g.NodeValid(splits[k]); }
    var result;
    result, arrangement := TryNormalizeSplits(g.marks[m].extent, SlotsOf(g, splits), Bijective);
    ok := result != [];
  }

  ghost predicate AllCovered(g: Graph, order: seq<nat>, chains: seq<seq<nat>>) {
    |chains| == |g.marks| && forall m :: 0 <= m < |chains| ==> MarkCovered(g, order, m, chains[m])
  }

  /** Every input mark is visited, unless it takes one value only. */
  ghost predicate InputsVisited(g: Graph, inputs: seq<nat>, visited: set<nat>) {
    forall k :: 0 <= k < |inputs| && inputs[k] < |g.marks| ==> inputs[k] in visited || g.marks[inputs[k]].extent == 1
  }

  ghost predicate VisitedAccepted(g: Graph, c: Collected, n: nat) {
    forall m :: 0 <= m < n && m < |g.marks| && m in c.visited ==> MarkAccepted(g, c.uses, m)
  }

  /** What the check accepts: every visited mark is tiled, and the inputs are visited. */
  ghost predicate MappingAccepted(g: Graph, roots: seq<nat>, inputs: seq<nat>)
    requires g.Valid() && AreSums(g, roots)
  {
    var c := CollectRoots(g, roots, |roots|);
    VisitedAccepted(g, c, |g.marks|) && InputsVisited(g, inputs, c.visited)
  }

  method CheckVisited(g: Graph, visited: set<nat>, table: map<nat, seq<nat>>, ghost c: Collected) returns (ok: bool)
    requires g.Valid() && visited == c.visited && Tabulates(g, table, c.uses)
    ensures ok <==> VisitedAccepted(g, c, |g.marks|)
  {
    for m := 0 to |g.marks|
      invariant VisitedAccepted(g, c, m)
    {
      if m in visited {
        ghost var arrangement;
        ok, arrangement := CheckMark(g, SplitsIn(table, m), m, c.uses);
        if !ok { return; }
      }
    }
    ok := true;
  }

  method CheckInputs(g: Graph, inputs: seq<nat>, visited: set<nat>) returns (ok: bool)
    requires forall k :: 0 <= k < |inputs| ==> inputs[k] < |g.marks|
    ensures ok <==> InputsVisited(g, inputs, visited)
  {
    for k := 0 to |inputs|
      invariant forall j :: 0 <= j < k ==> inputs[j] in visited || g.marks[inputs[j]].extent == 1
    {
      if inputs[k] !in visited && g.marks[inputs[k]].extent != 1 { return false; }
    }
    ok := true;
  }

  /** CheckMapping at the bijective level. */
  method CheckMapping(g: Graph, roots: seq<nat>, inputs: seq<nat>) returns (ok: bool)
    requires g.Valid() && AreSums(g, roots) && forall k :: 0 <= k < |inputs| ==> inputs[k] < |g.marks|
    ensures ok <==> MappingAccepted(g, roots, inputs)
  {
    var collector := new IterMarkSplitCollector(g);
    collector.Collect(roots);
    ok := CheckVisited(g, collector.visited, collector.mark2splits, CollectRoots(g, roots, |roots|));
    if ok { ok := CheckInputs(g, inputs, collector.visited); }
  }

  // ----- what acceptance gives -----

  /** The chain of an accepted mark. */
  lemma AcceptedChain(g: Graph, roots: seq<nat>, order: seq<nat>, c: Collected, m: nat) returns (chain: seq<nat>)
    requires CollectedFor(g, roots, order, c) && m < |g.marks| && (m in c.visited ==> MarkAccepted(g, c.uses, m))
    ensures MarkCovered(g, order, m, chain) && (m in c.visited ==> chain != [])
  {
    if m !in c.visited {
      chain := [];
      forall s | s in order && HasMark(g, s, m) ensures false { LiveSplitUsed(g, roots, order, c, s, m); }
    } else {
      var splits := SplitsOf(g, c.uses, m);
      var slots, extent := SlotsOf(g, splits), g.marks[m].extent;
      var w :| FirstFit(slots, w) && Tiling(slots, w, extent);
      chain := Firsts(Chain(splits, w));
      ArrangedChain(g, roots, order, c, m, w);
      FirstsMeans(Chain(splits, w));
      SplitInChain(splits, w, splits[0]);
    }
  }

  /** A split that stands at two places of an accepted list has one value only. */
  lemma ListedTwiceIsUnit(g: Graph, uses: seq<Use>, m: nat, i: nat, j: nat)
    requires m < |g.marks| && MarkAccepted(g, uses, m) && i < j < |SplitsOf(g, uses, m)|
    requires SplitsOf(g, uses, m)[i] == SplitsOf(g, uses, m)[j]
    ensures Unit(g, SplitsOf(g, uses, m)[i])
  {
    var splits := SplitsOf(g, uses, m);
    var slots := SlotsOf(g, splits);
    var w :| FirstFit(slots, w) && Tiling(slots, w, g.marks[m].extent);
    ArrangementOnto(w, |slots|, i);
    ArrangementOnto(w, |slots|, j);
    var x :| 0 <= x < |slots| && w[x] == i;
    var y :| 0 <= y < |slots| && w[y] == j;
    RepeatIsUnit(Arranged(slots, w), x, y);
  }

  /** Acceptance itself excludes that a split with more than one value is an argument twice. */
  lemma AcceptedUsedOnce(g: Graph, roots: seq<nat>, order: seq<nat>, c: Collected)
    requires CollectedFor(g, roots, order, c) && VisitedAccepted(g, c, |g.marks|)
    ensures UsedOnce(g, Elements(order))
  {
    forall a, b, j, k |
      a in order && b in order && IsArg(g, a, j) && IsArg(g, b, k) && g.nodes[a].args[j] == g.nodes[b].args[k]
      ensures (a == b && j == k) || Unit(g, g.nodes[a].args[j])
    {
      if !(a == b && j == k) { TwoUsers(g, roots, order, c, a, j, b, k); }
    }
  }

  lemma TwoUsers(g: Graph, roots: seq<nat>, order: seq<nat>, c: Collected, a: nat, j: nat, b: nat, k: nat)
    requires CollectedFor(g, roots, order, c) && VisitedAccepted(g, c, |g.marks|)
    requires a in order && b in order && IsArg(g, a, j) && IsArg(g, b, k) && !(a == b && j == k)
    requires g.nodes[a].args[j] == g.nodes[b].args[k]
    ensures Unit(g, g.nodes[a].args[j])
  {
    var s := g.Arg(a, j);
    var m := g.nodes[s].mark;
    assert g.NodeValid(s);
    SumReached(g, roots, order, c, a);
    SumReached(g, roots, order, c, b);
    var o :| Owns(g, roots, o, a) && Noted(g, o, a, c.uses);
    var p :| Owns(g, roots, p, b) && Noted(g, p, b, c.uses);
    var u, w := Use(o, j, s), Use(p, k, s);
    assert u in c.uses && w in c.uses && u != w;
    var x, y := ListedTwice(g, c.uses, u, w, m);
    ListedTwiceIsUnit(g, c.uses, m, x, y);
  }

  /** The chains of all marks. */
  lemma {:induction false} AcceptedChains(g: Graph, roots: seq<nat>, order: seq<nat>, c: Collected, n: nat)
    returns (chains: seq<seq<nat>>)
    requires CollectedFor(g, roots, order, c) && VisitedAccepted(g, c, |g.marks|) && n <= |g.marks|
    ensures |chains| == n
    ensures forall m :: 0 <= m < n ==> MarkCovered(g, order, m, chains[m]) && (m in c.visited ==> chains[m] != [])
  {
    if n == 0 {
      chains := [];
    } else {
      var rest := AcceptedChains(g, roots, order, c, n - 1);
      var chain := AcceptedChain(g, roots, order, c, n - 1);
      chains := rest + [chain];
    }
  }

  // ----- the inverse of a checked map -----

  ghost predicate MarkUsed(g: Graph, order: seq<nat>, m: nat) {
    exists s :: s in order && HasMark(g, s, m)
  }

  ghost predicate SourceShared(g: Graph, order: seq<nat>, m: nat, n: nat)
    requires m < |g.marks| && n < |g.marks|
  {
    SameSource(g, m, n) && MarkUsed(g, order, m) && MarkUsed(g, order, n)
  }

  /** How the rewriter shares objects: one mark per source, and sums that are roots are no sources. */
  ghost predicate SharedAsBuilt(g: Graph, roots: seq<nat>, order: seq<nat>) {
    && NoRepeat(roots)
    && (forall m, n :: 0 <= m < |g.marks| && 0 <= n < |g.marks| && SourceShared(g, order, m, n) ==> m == n)
    && (forall m :: 0 <= m < |g.marks| && MarkUsed(g, order, m) && g.marks[m].source.FromSum? ==>
        g.marks[m].source.node !in roots)
  }

  lemma ChainUsed(g: Graph, order: seq<nat>, m: nat, chain: seq<nat>)
    requires m < |g.marks| && MarkCovered(g, order, m, chain) && chain != []
    ensures MarkUsed(g, order, m)
  {
    assert chain[0] in Elements(order);
    assert HasMark(g, chain[0], m);
  }

  /** What the check accepts is covered. */
  lemma CheckedIsCovered(g: Graph, roots: seq<nat>, order: seq<nat>, inputs: seq<nat>) returns (chains: seq<seq<nat>>)
    requires g.Valid() && AreSums(g, roots) && PropagationOrder(g, roots, order) && AllUsed(g, roots, order)
    requires MappingAccepted(g, roots, inputs) && SharedAsBuilt(g, roots, order)
    ensures AllCovered(g, order, chains) && Covered(g, roots, Elements(order), chains)
    ensures forall k :: 0 <= k < |inputs| && inputs[k] < |chains| && g.marks[inputs[k]].extent != 1 ==>
      chains[inputs[k]] != []
  {
    var c := CollectRoots(g, roots, |roots|);
    CollectedAll(g, roots, order);
    chains := AcceptedChains(g, roots, order, c, |g.marks|);
    AcceptedUsedOnce(g, roots, order, c);
    CoveredAsBuilt(g, roots, order, chains);
  }

  lemma CollectedAll(g: Graph, roots: seq<nat>, order: seq<nat>)
    requires g.Valid() && AreSums(g, roots) && PropagationOrder(g, roots, order) && AllUsed(g, roots, order)
    ensures CollectedFor(g, roots, order, CollectRoots(g, roots, |roots|))
  {
    RootsComplete(g, roots, |roots|);
    OrderIsLive(g, roots, order);
    forall i | i in Elements(order) ensures Live(g, i, Elements(order)) {
      var t :| 0 <= t < |order| && order[t] == i;
      assert Live(g, order[t], Elements(order));
    }
    RootsSound(g, roots, |roots|, Elements(order));
  }

  lemma CoveredAsBuilt(g: Graph, roots: seq<nat>, order: seq<nat>, chains: seq<seq<nat>>)
    requires g.Valid() && AllCovered(g, order, chains) && SharedAsBuilt(g, roots, order) && AreSums(g, roots)
    requires UsedOnce(g, Elements(order))
    ensures Covered(g, roots, Elements(order), chains)
  {
    var live := Elements(order);
    forall m | 0 <= m < |chains| && chains[m] != [] ensures Covers(g, m, chains[m], live) && MarkUsed(g, order, m) {
      assert MarkCovered(g, order, m, chains[m]);
      ChainUsed(g, order, m, chains[m]);
    }
    forall m, n | 0 <= m < |chains| && 0 <= n < |chains| && SameSource(g, m, n) && chains[m] != [] && chains[n] != []
      ensures m == n
    {
      assert SourceShared(g, order, m, n);
    }
    forall s | s in live && g.IsSplit(s) ensures g.nodes[s].mark < |chains| && s in chains[g.nodes[s].mark] {
      assert g.NodeValid(s);
      assert MarkCovered(g, order, g.nodes[s].mark, chains[g.nodes[s].mark]);
    }
  }

  /** Every input iterator is recovered, or takes only one value. */
  ghost predicate InputsRecovered(g: Graph, inputs: seq<nat>, inverse: map<string, Expr>, v: Valuation,
      rho: Valuation) {
    forall k :: 0 <= k < |inputs| && inputs[k] < |g.marks| && g.marks[inputs[k]].source.FromVar? ==>
      g.marks[inputs[k]].extent == 1 || RecoveredName(g.marks[inputs[k]].source.name, inverse, v, rho)
  }

  ghost predicate RecoveredName(name: string, inverse: map<string, Expr>, v: Valuation, rho: Valuation) {
    name in inverse && Eval(inverse[name], rho) == v(name)
  }

  /** The fused sum has no offset, its innermost scale is 1, and the mark's extent is the product of the extents. */
  ghost predicate FlatSource(g: Graph, m: nat)
    requires g.Valid() && m < |g.marks|
  {
    g.marks[m].source.FromSum? && g.IsSum(g.marks[m].source.node) ==>
      var i := g.marks[m].source.node;
      var ts := Terms(g, i, |g.nodes[i].args|);
      g.nodes[i].base == 0 && FusedBy(ts, 1) && Top(Slots(ts)) == g.marks[m].extent
  }

  /** The marks as the rewriter makes them. */
  ghost predicate FlatSources(g: Graph, order: seq<nat>)
    requires g.Valid()
  {
    forall m :: 0 <= m < |g.marks| && MarkUsed(g, order, m) ==> FlatSource(g, m)
  }

  /** The iterators are in their ranges. */
  ghost predicate InBounds(g: Graph, order: seq<nat>, v: Valuation) {
    forall m :: 0 <= m < |g.marks| && MarkUsed(g, order, m) && g.marks[m].source.FromVar? ==>
      0 <= v(g.marks[m].source.name) < g.marks[m].extent
  }

  /** The value of a flat fused sum is below the product of the extents. */
  lemma FlatInRange(g: Graph, m: nat, v: Valuation)
    requires g.Valid() && m < |g.marks| && FlatSource(g, m)
    requires g.marks[m].source.FromSum? && g.IsSum(g.marks[m].source.node)
    ensures 0 <= SourceValue(g, m, v) < g.marks[m].extent
  {
    var i := g.marks[m].source.node;
    var n := |g.nodes[i].args|;
    ArgsAreTerms(g, i, n, v);
    TermsInBox(g, i, n, v);
    FusedValue(Terms(g, i, n), TermValues(g, i, n, v), 1);
    FusedBound(Terms(g, i, n), TermValues(g, i, n, v));
  }

  lemma UsedMarkOk(g: Graph, order: seq<nat>, m: nat)
    requires g.Valid() && MarkUsed(g, order, m)
    ensures MarkOk(g, m)
  {
    var s :| s in order && HasMark(g, s, m);
    assert g.NodeValid(s);
  }

  lemma DomainFromBounds(g: Graph, order: seq<nat>, chains: seq<seq<nat>>, v: Valuation)
    requires g.Valid() && AllCovered(g, order, chains) && InBounds(g, order, v) && FlatSources(g, order)
    ensures InDomain(g, chains, v)
  {
    forall m | 0 <= m < |chains| && chains[m] != [] ensures 0 <= SourceValue(g, m, v) < g.marks[m].extent {
      assert MarkCovered(g, order, m, chains[m]);
      ChainUsed(g, order, m, chains[m]);
      UsedMarkOk(g, order, m);
      if g.marks[m].source.FromSum? { FlatInRange(g, m, v); }
    }
  }

  /** Wherever the iterators are in range, every input is recovered from the outputs. */
  ghost predicate InvertsInputs(g: Graph, roots: seq<nat>, order: seq<nat>, outputs: seq<Expr>, inputs: seq<nat>,
      inverse: map<string, Expr>)
    requires g.Valid() && |outputs| == |roots| && AreSums(g, roots)
  {
    forall v: Valuation, rho: Valuation :: InBounds(g, order, v) && Matches(g, roots, outputs, v, rho) ==>
      InputsRecovered(g, inputs, inverse, v, rho)
  }

  /** Check the map, then invert it: no coverage is assumed. */
  method InverseOfChecked(g: Graph, roots: seq<nat>, outputs: seq<Expr>, inputs: seq<nat>)
    returns (ok: bool, inverse: map<string, Expr>, ghost order: seq<nat>)
    requires g.Valid() && |outputs| == |roots| && AreSums(g, roots)
    requires forall k :: 0 <= k < |inputs| ==> inputs[k] < |g.marks|
    ensures PropagationOrder(g, roots, order)
    ensures ok <==> MappingAccepted(g, roots, inputs) && Accepted(g, order, |order|)
    ensures ok && SharedAsBuilt(g, roots, order) && FlatSources(g, order) ==>
      InvertsInputs(g, roots, order, outputs, inputs, inverse)
  {
    var visited := ReverseTopologyOrder(g, roots);
    order := visited;
    ok := CheckMapping(g, roots, inputs);
    inverse := map[];
    if !ok { return; }
    ghost var chains := [];
    if SharedAsBuilt(g, roots, order) { chains := CheckedIsCovered(g, roots, order, inputs); }
    ok, inverse := InverseAlong(g, roots, outputs, visited, chains);
    if ok && SharedAsBuilt(g, roots, order) && FlatSources(g, order) {
      RecoveredInputs(g, roots, order, outputs, inputs, chains, inverse);
    }
  }

  lemma RecoveredInputs(g: Graph, roots: seq<nat>, order: seq<nat>, outputs: seq<Expr>, inputs: seq<nat>,
      chains: seq<seq<nat>>, inverse: map<string, Expr>)
    requires g.Valid() && |outputs| == |roots| && AreSums(g, roots) && AllCovered(g, order, chains)
    requires FlatSources(g, order) && Inverts(g, roots, outputs, chains, inverse)
    requires forall k :: 0 <= k < |inputs| && inputs[k] < |chains| && g.marks[inputs[k]].extent != 1 ==>
      chains[inputs[k]] != []
    ensures InvertsInputs(g, roots, order, outputs, inputs, inverse)
  {
    forall v: Valuation, rho: Valuation | InBounds(g, order, v) && Matches(g, roots, outputs, v, rho)
      ensures InputsRecovered(g, inputs, inverse, v, rho)
    {
      DomainFromBounds(g, order, chains, v);
      assert Recovered(g, chains, inverse, v, rho);
    }
  }
}
