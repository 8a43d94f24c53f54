/**
 IterMarkSplitCollector of src/arith/iter_affine_map.cc: the splits that refer to each mark,
 once for every place where one stands as an argument.
 */
module IterCollector {
  import opened IterInverse

  /** Whose arguments are collected: those of an index, or of the source of a mark. */
  datatype Owner = OfRoot(index: nat) | OfMark(mark: nat)

  /** Argument `pos` of the owner's sum is `split`. */
  datatype Use = Use(owner: Owner, pos: nat, split: nat)

  datatype Collected = Collected(visited: set<nat>, uses: seq<Use>)

  predicate MarkOk(g: Graph, m: nat) {
    m < |g.marks| && (g.marks[m].source.FromSum? ==> g.IsSum(g.marks[m].source.node))
  }

  /** Sums are numbered after the sums they refer to. */
  function Rank(g: Graph, m: nat): nat {
    if m < |g.marks| && g.marks[m].source.FromSum? then g.marks[m].source.node + 1 else 0
  }

  lemma ArgMark(g: Graph, i: nat, k: nat)
    requires g.Valid() && g.IsSum(i) && k < |g.nodes[i].args|
    ensures MarkOk(g, g.nodes[g.Arg(i, k)].mark) && Rank(g, g.nodes[g.Arg(i, k)].mark) <= i
  {
    assert g.NodeValid(g.Arg(i, k));
  }

  /** The first k arguments of a sum: visit the mark of each, then note its use. */
  function CollectArgs(g: Graph, o: Owner, i: nat, k: nat, c: Collected): Collected
    requires g.Valid() && g.IsSum(i) && k <= |g.nodes[i].args|
    decreases i + 1, 0, k
  {
    if k == 0 then c else
      var a := g.Arg(i, k - 1);
      ArgMark(g, i, k - 1);
      var d := CollectMark(g, g.nodes[a].mark, CollectArgs(g, o, i, k - 1, c));
      Collected(d.visited, d.uses + [Use(o, k - 1, a)])
  }

  /** CollectInternal: a mark is visited once. */
  function CollectMark(g: Graph, m: nat, c: Collected): Collected
    requires g.Valid() && MarkOk(g, m)
    decreases Rank(g, m), 1, 0
  {
    if m in c.visited then c else
      var d := Collected(c.visited + {m}, c.uses);
      match g.marks[m].source
      case FromVar(_) => d
      case FromSum(n) => CollectArgs(g, OfMark(m), n, |g.nodes[n].args|, d)
  }

  predicate AreSums(g: Graph, roots: seq<nat>) {
    forall k :: 0 <= k < |roots| ==> g.IsSum(roots[k])
  }

  /** Collect, for the first k indices. */
  function CollectRoots(g: Graph, roots: seq<nat>, k: nat): Collected
    requires g.Valid() && AreSums(g, roots) && k <= |roots|
  {
    if k == 0 then Collected({}, []) else
      CollectArgs(g, OfRoot(k - 1), roots[k - 1], |g.nodes[roots[k - 1]].args|, CollectRoots(g, roots, k - 1))
  }

  /** The splits of one mark, in the order in which they were found. */
  function SplitsOf(g: Graph, uses: seq<Use>, m: nat): seq<nat> {
    if uses == [] then [] else
      var k := |uses| - 1;
      SplitsOf(g, uses[..k], m) + if HasMark(g, uses[k].split, m) then [uses[k].split] else []
  }

  predicate HasMark(g: Graph, s: nat, m: nat) {
    g.IsSplit(s) && g.nodes[s].mark == m
  }

  lemma SplitsOfSnoc(g: Graph, uses: seq<Use>, u: Use, m: nat)
    ensures SplitsOf(g, uses + [u], m) == SplitsOf(g, uses, m) + if HasMark(g, u.split, m) then [u.split] else []
  {
    assert (uses + [u])[..|uses|] == uses;
  }

  // ----- the collector -----

  /** What the map holds for a mark; nothing before its first split. */
  function SplitsIn(table: map<nat, seq<nat>>, m: nat): seq<nat> {
    if m in table then table[m] else []
  }

  /** The map holds the uses. */
  ghost predicate Tabulates(g: Graph, table: map<nat, seq<nat>>, uses: seq<Use>) {
    forall m :: SplitsIn(table, m) == SplitsOf(g, uses, m)
  }

  class IterMarkSplitCollector {
    const g: Graph
    var visited: set<nat>
    var mark2splits: map<nat, seq<nat>>
    ghost var uses: seq<Use>

    /** The state is the one collected. */
    ghost predicate Holds(c: Collected)
      reads this
    {
      visited == c.visited && uses == c.uses && Tabulates(g, mark2splits, uses)
    }

    constructor (g: Graph)
      ensures this.g == g && Holds(Collected({}, []))
    {
      this.g := g;
      visited, mark2splits, uses := {}, map[], [];
    }

    method Push(o: Owner, pos: nat, a: nat, ghost c: Collected)
      requires Holds(c) && g.IsSplit(a)
      modifies this
      ensures Holds(Collected(c.visited, c.uses + [Use(o, pos, a)]))
    {
      var m := g.nodes[a].mark;
      forall n ensures SplitsOf(g, uses + [Use(o, pos, a)], n) == SplitsOf(g, uses, n) + if n == m then [a] else [] {
        SplitsOfSnoc(g, uses, Use(o, pos, a), n);
      }
      mark2splits := mark2splits[m := SplitsIn(mark2splits, m) + [a]];
      uses := uses + [Use(o, pos, a)];
    }

    method VisitArgs(o: Owner, i: nat, ghost c: Collected)
      requires g.Valid() && g.IsSum(i) && Holds(c)
      modifies this
      ensures Holds(CollectArgs(g, o, i, |g.nodes[i].args|, c))
      decreases i + 1, 0
    {
      for k := 0 to |g.nodes[i].args|
        invariant Holds(CollectArgs(g, o, i, k, c))
      {
        var a := g.Arg(i, k);
        ArgMark(g, i, k);
        ghost var before := CollectArgs(g, o, i, k, c);
        CollectInternal(g.nodes[a].mark, before);
        Push(o, k, a, CollectMark(g, g.nodes[a].mark, before));
      }
    }

    method CollectInternal(m: nat, ghost c: Collected)
      requires g.Valid() && MarkOk(g, m) && Holds(c)
      modifies this
      ensures Holds(CollectMark(g, m, c))
      decreases Rank(g, m), 1
    {
      if m in visited { return; }
      visited := visited + {m};
      match g.marks[m].source
      case FromVar(_) =>
      case FromSum(n) => VisitArgs(OfMark(m), n, Collected(c.visited + {m}, c.uses));
    }

    method Collect(roots: seq<nat>)
      requires g.Valid() && AreSums(g, roots) && Holds(Collected({}, []))
      modifies this
      ensures Holds(CollectRoots(g, roots, |roots|))
    {
      for k := 0 to |roots|
        invariant Holds(CollectRoots(g, roots, k))
      {
        VisitArgs(OfRoot(k), roots[k], CollectRoots(g, roots, k));
      }
    }
  }

  // ----- every argument of a visited sum is noted -----

  /** The sum of an owner. */
  predicate Owns(g: Graph, roots: seq<nat>, o: Owner, i: nat) {
    match o
    case OfRoot(k) => k < |roots| && roots[k] == i
    case OfMark(m) => MarkOk(g, m) && g.marks[m].source == FromSum(i)
  }

  /** All arguments of the owner's sum are noted. */
  ghost predicate Noted(g: Graph, o: Owner, i: nat, uses: seq<Use>)
    requires g.IsSum(i)
  {
    forall k :: 0 <= k < |g.nodes[i].args| ==> Use(o, k, g.nodes[i].args[k]) in uses
  }

  /** The mark is visited with its source. */
  ghost predicate Finished(g: Graph, m: nat, c: Collected) {
    m in c.visited && (m < |g.marks| && g.marks[m].source.FromSum? && g.IsSum(g.marks[m].source.node) ==>
      Noted(g, OfMark(m), g.marks[m].source.node, c.uses))
  }

  /** The marks of the noted splits are visited. */
  ghost predicate UsesVisited(g: Graph, c: Collected) {
    forall u :: u in c.uses && g.IsSplit(u.split) ==> g.nodes[u.split].mark in c.visited
  }

  /** `d` comes after `c`: nothing is lost, and the newly visited marks are finished. */
  ghost predicate Later(g: Graph, c: Collected, d: Collected) {
    && c.visited <= d.visited && (forall u :: u in c.uses ==> u in d.uses)
    && (forall m :: m in d.visited && m !in c.visited ==> Finished(g, m, d))
    && (UsesVisited(g, c) ==> UsesVisited(g, d))
  }

  lemma LaterTwice(g: Graph, c: Collected, d: Collected, e: Collected)
    requires Later(g, c, d) && Later(g, d, e)
    ensures Later(g, c, e)
  {
    forall m | m in e.visited && m !in c.visited ensures Finished(g, m, e) {
      if m in d.visited { assert Finished(g, m, d); }
    }
  }

  lemma {:induction false} ArgsLater(g: Graph, o: Owner, i: nat, k: nat, c: Collected)
    requires g.Valid() && g.IsSum(i) && k <= |g.nodes[i].args|
    ensures Later(g, c, CollectArgs(g, o, i, k, c))
    ensures forall j :: 0 <= j < k ==> Use(o, j, g.nodes[i].args[j]) in CollectArgs(g, o, i, k, c).uses
    decreases i + 1, 0, k
  {
    if k > 0 {
      var a := g.Arg(i, k - 1);
      var b := CollectArgs(g, o, i, k - 1, c);
      ArgMark(g, i, k - 1);
      ArgsLater(g, o, i, k - 1, c);
      MarkLater(g, g.nodes[a].mark, b);
      var d := CollectMark(g, g.nodes[a].mark, b);
      UseLater(g, d, Use(o, k - 1, a));
      LaterTwice(g, c, b, d);
      LaterTwice(g, c, d, CollectArgs(g, o, i, k, c));
    }
  }

  lemma UseLater(g: Graph, d: Collected, u: Use)
    requires g.IsSplit(u.split) && g.nodes[u.split].mark in d.visited
    ensures Later(g, d, Collected(d.visited, d.uses + [u])) && u in d.uses + [u]
  {
  }

  lemma {:induction false} MarkLater(g: Graph, m: nat, c: Collected)
    requires g.Valid() && MarkOk(g, m)
    ensures Later(g, c, CollectMark(g, m, c)) && m in CollectMark(g, m, c).visited
    decreases Rank(g, m), 1, 0
  {
    if m !in c.visited && g.marks[m].source.FromSum? {
      var n := g.marks[m].source.node;
      var d := Collected(c.visited + {m}, c.uses);
      ArgsLater(g, OfMark(m), n, |g.nodes[n].args|, d);
      MarkFinished(g, m, c, CollectMark(g, m, c));
    }
  }

  lemma MarkFinished(g: Graph, m: nat, c: Collected, e: Collected)
    requires MarkOk(g, m) && g.marks[m].source.FromSum? && Later(g, Collected(c.visited + {m}, c.uses), e)
    requires Noted(g, OfMark(m), g.marks[m].source.node, e.uses)
    ensures Later(g, c, e)
  {
    assert UsesVisited(g, c) ==> UsesVisited(g, Collected(c.visited + {m}, c.uses));
    assert Finished(g, m, e);
  }

  /** Everything reached from the indices is noted. */
  ghost predicate Complete(g: Graph, roots: seq<nat>, k: nat, c: Collected)
    requires AreSums(g, roots) && k <= |roots|
  {
    && (forall j :: 0 <= j < k ==> Noted(g, OfRoot(j), roots[j], c.uses))
    && (forall m :: m in c.visited ==> Finished(g, m, c))
    && UsesVisited(g, c)
  }

  lemma {:induction false} RootsComplete(g: Graph, roots: seq<nat>, k: nat)
    requires g.Valid() && AreSums(g, roots) && k <= |roots|
    ensures Complete(g, roots, k, CollectRoots(g, roots, k))
  {
    if k > 0 {
      var c, i := CollectRoots(g, roots, k - 1), roots[k - 1];
      RootsComplete(g, roots, k - 1);
      ArgsLater(g, OfRoot(k - 1), i, |g.nodes[i].args|, c);
      CompleteLater(g, roots, k - 1, c, CollectRoots(g, roots, k));
    }
  }

  lemma CompleteLater(g: Graph, roots: seq<nat>, k: nat, c: Collected, d: Collected)
    requires AreSums(g, roots) && k < |roots| && Complete(g, roots, k, c) && Later(g, c, d)
    requires Noted(g, OfRoot(k), roots[k], d.uses)
    ensures Complete(g, roots, k + 1, d)
  {
    forall m | m in d.visited ensures Finished(g, m, d) {
      if m in c.visited { assert Finished(g, m, c); }
    }
    forall j | 0 <= j < k ensures Noted(g, OfRoot(j), roots[j], d.uses) {
      assert Noted(g, OfRoot(j), roots[j], c.uses);
    }
  }

  // ----- nothing else is noted -----

  /** The split stands where the use says, in a sum that is visited. */
  ghost predicate Sound(g: Graph, live: set<nat>, u: Use) {
    exists i :: i in live && g.IsSum(i) && u.pos < |g.nodes[i].args| && g.nodes[i].args[u.pos] == u.split
  }

  ghost predicate AllSound(g: Graph, live: set<nat>, uses: seq<Use>) {
    forall u :: u in uses ==> Sound(g, live, u)
  }

  /** With a node all it refers to is in the set. */
  ghost predicate Closed(g: Graph, live: set<nat>) {
    forall i :: i in live ==> Live(g, i, live)
  }

  lemma {:induction false} ArgsSound(g: Graph, o: Owner, i: nat, k: nat, c: Collected, live: set<nat>)
    requires g.Valid() && g.IsSum(i) && k <= |g.nodes[i].args| && Closed(g, live) && i in live
    requires AllSound(g, live, c.uses)
    ensures AllSound(g, live, CollectArgs(g, o, i, k, c).uses)
    decreases i + 1, 0, k
  {
    if k > 0 {
      var a := g.Arg(i, k - 1);
      var b := CollectArgs(g, o, i, k - 1, c);
      ArgMark(g, i, k - 1);
      ArgsSound(g, o, i, k - 1, c, live);
      assert Live(g, i, live) && Live(g, a, live);
      MarkSound(g, g.nodes[a].mark, b, live);
      assert Sound(g, live, Use(o, k - 1, a));
    }
  }

  lemma {:induction false} MarkSound(g: Graph, m: nat, c: Collected, live: set<nat>)
    requires g.Valid() && MarkOk(g, m) && Closed(g, live)
    requires g.marks[m].source.FromSum? ==> g.marks[m].source.node in live
    requires AllSound(g, live, c.uses)
    ensures AllSound(g, live, CollectMark(g, m, c).uses)
    decreases Rank(g, m), 1, 0
  {
    if m !in c.visited && g.marks[m].source.FromSum? {
      var n := g.marks[m].source.node;
      ArgsSound(g, OfMark(m), n, |g.nodes[n].args|, Collected(c.visited + {m}, c.uses), live);
    }
  }

  lemma {:induction false} RootsSound(g: Graph, roots: seq<nat>, k: nat, live: set<nat>)
    requires g.Valid() && AreSums(g, roots) && k <= |roots| && Closed(g, live)
    requires forall r :: r in roots ==> r in live
    ensures AllSound(g, live, CollectRoots(g, roots, k).uses)
  {
    if k > 0 {
      var i := roots[k - 1];
      RootsSound(g, roots, k - 1, live);
      ArgsSound(g, OfRoot(k - 1), i, |g.nodes[i].args|, CollectRoots(g, roots, k - 1), live);
    }
  }

  // ----- every visited sum has an owner -----

  /** All arguments of the sum are noted for some owner. */
  ghost predicate Reached(g: Graph, roots: seq<nat>, c: Collected, i: nat) {
    g.IsSum(i) && exists o :: Owns(g, roots, o, i) && Noted(g, o, i, c.uses)
  }

  /** Every node of the propagation order that is a sum is reached, from the users down. */
  lemma {:induction false} SumReached(g: Graph, roots: seq<nat>, order: seq<nat>, c: Collected, i: nat)
    requires g.Valid() && AreSums(g, roots) && Complete(g, roots, |roots|, c)
    requires AllUsed(g, roots, order) && i in order && g.IsSum(i)
    ensures Reached(g, roots, c, i)
    decreases |g.nodes| - i
  {
    var t :| 0 <= t < |order| && order[t] == i;
    assert RootOrUsed(g, roots, order, t);
    if i in roots {
      var k :| 0 <= k < |roots| && roots[k] == i;
      assert Owns(g, roots, OfRoot(k), i) && Noted(g, OfRoot(k), roots[k], c.uses);
    } else {
      var s :| s in Elements(order) && s < |g.nodes| && i in g.Children(s);
      SumUser(g, i, s);
      ChildrenSmaller(g, s, i);
      var m := g.nodes[s].mark;
      SplitReached(g, roots, order, c, s);
      assert m in c.visited && Finished(g, m, c);
      assert Owns(g, roots, OfMark(m), i);
    }
  }

  /** A split of the order is noted. */
  lemma {:induction false} SplitReached(g: Graph, roots: seq<nat>, order: seq<nat>, c: Collected, s: nat)
    requires g.Valid() && AreSums(g, roots) && Complete(g, roots, |roots|, c)
    requires AllUsed(g, roots, order) && s in order && g.IsSplit(s)
    ensures g.nodes[s].mark in c.visited && exists u :: u in c.uses && u.split == s
    decreases |g.nodes| - s
  {
    var t :| 0 <= t < |order| && order[t] == s;
    assert RootOrUsed(g, roots, order, t);
    assert s !in roots;
    var i :| i in Elements(order) && i < |g.nodes| && s in g.Children(i);
    ChildrenSmaller(g, i, s);
    assert g.NodeValid(i);
    SumReached(g, roots, order, c, i);
    var o :| Owns(g, roots, o, i) && Noted(g, o, i, c.uses);
    var k :| 0 <= k < |g.nodes[i].args| && g.nodes[i].args[k] == s;
    assert Use(o, k, s) in c.uses;
  }

  // ----- two uses stand at two positions of the list -----

  lemma {:induction false} UseListed(g: Graph, uses: seq<Use>, u: Use, m: nat)
    requires u in uses && HasMark(g, u.split, m)
    ensures u.split in SplitsOf(g, uses, m)
  {
    var k := |uses| - 1;
    assert uses == uses[..k] + [uses[k]];
    if u != uses[k] { UseListed(g, uses[..k], u, m); }
  }

  lemma {:induction false} ListedUsed(g: Graph, uses: seq<Use>, s: nat, m: nat)
    requires s in SplitsOf(g, uses, m)
    ensures HasMark(g, s, m) && exists u :: u in uses && u.split == s
  {
    var k := |uses| - 1;
    if !(HasMark(g, uses[k].split, m) && uses[k].split == s) { ListedUsed(g, uses[..k], s, m); }
    assert uses[k] in uses;
  }

  lemma {:induction false} ListedTwice(g: Graph, uses: seq<Use>, u: Use, w: Use, m: nat) returns (i: nat, j: nat)
    requires u in uses && w in uses && u != w && u.split == w.split && HasMark(g, u.split, m)
    ensures i < j < |SplitsOf(g, uses, m)| && SplitsOf(g, uses, m)[i] == SplitsOf(g, uses, m)[j] == u.split
  {
    var k := |uses| - 1;
    var rest, all := SplitsOf(g, uses[..k], m), SplitsOf(g, uses, m);
    assert uses == uses[..k] + [uses[k]];
    if uses[k] == u || uses[k] == w {
      UseListed(g, uses[..k], if uses[k] == u then w else u, m);
      i :| 0 <= i < |rest| && rest[i] == u.split;
      j := |rest|;
    } else {
      i, j := ListedTwice(g, uses[..k], u, w, m);
      assert rest <= all;
    }
  }
}
