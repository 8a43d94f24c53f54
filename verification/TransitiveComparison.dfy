/**
 TransitiveComparisonAnalyzer of src/arith/transitive_comparison_analyzer.cc: a
 store of known comparisons, a search for chains of them, and scoped constraints.
 */
module TransitiveComparison {
  import opened Options
  import opened Exprs
  import opened Constraints
  import opened Comparisons

  // ----- the search -----

  /** Whenever all facts hold, so does c. */
  ghost predicate Entails(facts: seq<Comparison>, c: Comparison) {
    forall val: KeyValues :: AllTrue(facts, val) ==> True(c, val)
  }

  function KeysOf(facts: seq<Comparison>): set<Key> {
    set i | 0 <= i < |facts| :: facts[i].lhs
  }

  function RightKeysOf(facts: seq<Comparison>): set<Key> {
    set i | 0 <= i < |facts| :: facts[i].rhs
  }

  function Universe(facts: seq<Comparison>): set<Key> {
    KeysOf(facts) + RightKeysOf(facts)
  }

  /**
   Facts usable in the search: about the left key, entailed, normalised and neither trivial nor absurd, ending in a
   known key.
   */
  ghost predicate Usable(facts: seq<Comparison>, lhs: Key, c: Comparison) {
    c.lhs == lhs && c.rhs in Universe(facts) && Proper(c) && Entails(facts, c)
  }

  ghost predicate AllUsable(facts: seq<Comparison>, lhs: Key, rhs: Key, cs: seq<Comparison>) {
    forall i :: 0 <= i < |cs| ==> Usable(facts, lhs, cs[i]) && cs[i].rhs == rhs
  }

  /** The list part of declare_known: redundant facts are dropped, stronger ones replace weaker ones. */
  method DeclareInList(known: seq<Comparison>, c: Comparison) returns (r: seq<Comparison>, redundant: bool)
    requires Between(known, c.lhs, c.rhs)
    ensures Between(r, c.lhs, c.rhs) && (redundant ==> r == known)
    ensures forall val: KeyValues :: AllTrue(r, val) <==> AllTrue(known, val) && True(c, val)
    ensures forall i :: 0 <= i < |r| ==> r[i] in known || r[i] == c
    ensures r != [] && SomeImplies(r, c) && forall d :: SomeImplies(known, d) ==> SomeImplies(r, d)
  {
    for i := 0 to |known| {
      if Implies(known[i], c) {
        r, redundant := known, true;
        forall val: KeyValues | AllTrue(known, val) ensures True(c, val) { ImpliesSound(known[i], c, val); }
        return;
      }
    }
    redundant := false;
    for i := 0 to |known| {
      if Implies(c, known[i]) {
        r := known[i := c];
        forall val: KeyValues ensures AllTrue(r, val) <==> AllTrue(known, val) && True(c, val) {
          Replaced(known, i, c, val);
        }
        forall d | SomeImplies(known, d) ensures SomeImplies(r, d) { ReplacedImplies(known, i, c, d); }
        assert r[i] == c;
        return;
      }
    }
    r := known + [c];
    forall val: KeyValues ensures AllTrue(r, val) <==> AllTrue(known, val) && True(c, val) {
      assert r[|known|] == c;
      assert forall i :: 0 <= i < |known| ==> r[i] == known[i];
    }
    assert r[|known|] == c;
    forall d | SomeImplies(known, d) ensures SomeImplies(r, d) {
      var i :| 0 <= i < |known| && Implies(known[i], d);
      assert r[i] == known[i];
    }
  }

  lemma ReplacedImplies(known: seq<Comparison>, i: nat, c: Comparison, d: Comparison)
    requires i < |known| && Implies(c, known[i]) && SomeImplies(known, d)
    ensures SomeImplies(known[i := c], d)
  {
    var j :| 0 <= j < |known| && Implies(known[j], d);
    if j == i { ImpliesTransitive(c, known[i], d); }
    assert Implies(known[i := c][j], d);
  }

  lemma Replaced(known: seq<Comparison>, i: nat, c: Comparison, val: KeyValues)
    requires Between(known, c.lhs, c.rhs) && i < |known| && Implies(c, known[i])
    ensures AllTrue(known[i := c], val) <==> AllTrue(known, val) && True(c, val)
  {
    var r := known[i := c];
    if AllTrue(r, val) {
      assert r[i] == c;
      ImpliesSound(c, known[i], val);
      forall j | 0 <= j < |known| ensures True(known[j], val) { assert j != i ==> r[j] == known[j]; }
    }
  }

  /** The state of one search. */
  datatype SearchState = SearchState(seen: set<Key>, toVisit: set<Key>, compared: map<Key, seq<Comparison>>)

  ghost predicate GoodState(facts: seq<Comparison>, lhs: Key, target: Key, s: SearchState) {
    && s.toVisit <= s.seen <= Universe(facts) && s.seen <= s.compared.Keys
    && (forall k :: k in s.compared ==> AllUsable(facts, lhs, k, s.compared[k]))
    && (forall k :: k in s.compared && s.compared[k] != [] && k != target ==> k in s.seen)
  }

  /** Some recorded fact implies c. */
  ghost predicate Recorded(s: SearchState, c: Comparison) {
    c.rhs in s.compared && SomeImplies(s.compared[c.rhs], c)
  }

  /** What is recorded stays recorded, perhaps in a stronger form. */
  ghost predicate Grows(s: SearchState, t: SearchState) {
    s.seen <= t.seen && forall c :: Recorded(s, c) ==> Recorded(t, c)
  }

  /** declare_known: a key is queued the first time it is reached, and never again. */
  method DeclareKnown(facts: seq<Comparison>, lhs: Key, target: Key, s: SearchState,
      c: Comparison) returns (t: SearchState)
    requires GoodState(facts, lhs, target, s) && Usable(facts, lhs, c)
    ensures GoodState(facts, lhs, target, t) && t.toVisit == s.toVisit + (t.seen - s.seen)
    ensures Recorded(t, c) && Grows(s, t)
    ensures forall val: KeyValues :: AllTrue(t.compared[c.rhs], val) <==>
      (c.rhs in s.compared ==> AllTrue(s.compared[c.rhs], val)) && True(c, val)
    ensures forall k :: k in s.compared && k != c.rhs ==> k in t.compared && t.compared[k] == s.compared[k]
  {
    var known := if c.rhs in s.compared then s.compared[c.rhs] else [];
    var list, redundant := DeclareInList(known, c);
    t := s.(compared := s.compared[c.rhs := list]);
    if !redundant && c.rhs != target && c.rhs !in s.seen {
      t := t.(toVisit := s.toVisit + {c.rhs}, seen := s.seen + {c.rhs});
    }
    forall i | 0 <= i < |list| ensures Usable(facts, lhs, list[i]) && list[i].rhs == c.rhs {
      if list[i] != c { assert list[i] in known; }
    }
    forall d | Recorded(s, d) ensures Recorded(t, d) {
      if d.rhs == c.rhs { assert SomeImplies(known, d); }
    }
  }

  /** Every composition of a fact about the middle key with c is in the list. */
  ghost predicate Composed(lhs: Key, prevs: seq<Comparison>, c: Comparison, out: seq<Comparison>, n: nat)
    requires n <= |prevs|
  {
    c.rhs != lhs ==> forall i :: 0 <= i < n && Compose(prevs[i], c) != kUnknown ==> Chained(prevs[i], c) in out
  }

  /** Chains through one middle key: all compositions with a fact that starts there. */
  method AttemptTransitive(facts: seq<Comparison>, lhs: Key, prevs: seq<Comparison>, c: Comparison,
      out0: seq<Comparison>)
    returns (out: seq<Comparison>)
    requires AllUsable(facts, lhs, c.lhs, prevs) && c.rhs in Universe(facts) && Proper(c) && Entails(facts, c)
    requires forall i :: 0 <= i < |out0| ==> Usable(facts, lhs, out0[i])
    ensures forall i :: 0 <= i < |out| ==> Usable(facts, lhs, out[i])
    ensures out0 <= out && Composed(lhs, prevs, c, out, |prevs|)
  {
    out := out0;
    if c.rhs == lhs { return; }
    for i := 0 to |prevs|
      invariant forall k :: 0 <= k < |out| ==> Usable(facts, lhs, out[k])
      invariant out0 <= out && Composed(lhs, prevs, c, out, i)
    {
      var prev := prevs[i];
      assert Usable(facts, lhs, prev);
      var result := Compose(prev, c);
      if result != kUnknown {
        var made := Make(lhs, c.rhs, prev.offset + c.offset, result);
        forall val: KeyValues | AllTrue(facts, val) ensures True(made, val) { ComposeSound(prev, c, val); }
        out := out + [made];
        assert made == out[|out| - 1];
      }
    }
  }

  lemma FactMoved(facts: seq<Comparison>, i: nat, key: Key)
    requires i < |facts| && Proper(facts[i]) && WithLHS(facts[i], key).Some?
    ensures Usable(facts, key, WithLHS(facts[i], key).value)
  {
    assert facts[i].lhs in KeysOf(facts) && facts[i].rhs in RightKeysOf(facts);
  }

  /** A fact of the list, seen from one of its keys. */
  ghost predicate Seen(facts: seq<Comparison>, key: Key, c: Comparison) {
    exists i :: 0 <= i < |facts| && WithLHS(facts[i], key) == Some(c)
  }

  /** Every fact about lhs is recorded. */
  ghost predicate DirectRecorded(facts: seq<Comparison>, lhs: Key, s: SearchState) {
    forall c :: Seen(facts, lhs, c) ==> Recorded(s, c)
  }

  /** The compositions of a fact from lhs to `middle` with a fact from there are recorded. */
  ghost predicate StepsRecorded(facts: seq<Comparison>, lhs: Key, s: SearchState, middle: Key) {
    forall d, c ::
      (Seen(facts, lhs, d) && d.rhs == middle && Seen(facts, middle, c) && c.rhs != lhs &&
       Compose(d, c) != kUnknown) ==>
        Recorded(s, Chained(d, c))
  }

  lemma StepsStay(facts: seq<Comparison>, lhs: Key, s: SearchState, t: SearchState, middle: Key)
    requires StepsRecorded(facts, lhs, s, middle) && Grows(s, t)
    ensures StepsRecorded(facts, lhs, t, middle)
  {
    forall d, c | Seen(facts, lhs, d) && d.rhs == middle && Seen(facts, middle, c) && c.rhs != lhs &&
      Compose(d, c) != kUnknown
      ensures Recorded(t, Chained(d, c))
    {
      assert Recorded(s, Chained(d, c));
    }
  }

  ghost predicate AllProper(facts: seq<Comparison>) {
    forall i :: 0 <= i < |facts| ==> Proper(facts[i])
  }

  /** Direct facts and chains of two between the keys are implied by single entries of the list. */
  ghost predicate Finds(facts: seq<Comparison>, lhs: Key, rhs: Key, found: seq<Comparison>) {
    && (forall c :: Seen(facts, lhs, c) && c.rhs == rhs ==> SomeImplies(found, c))
    && (lhs != rhs ==> forall d, c ::
          (Seen(facts, lhs, d) && d.rhs != rhs && Seen(facts, d.rhs, c) && c.rhs == rhs &&
           Compose(d, c) != kUnknown) ==>
            SomeImplies(found, Chained(d, c)))
  }

  /** The facts about lhs, recorded. */
  method SearchStart(facts: seq<Comparison>, lhs: Key, rhs: Key) returns (s: SearchState)
    requires AllProper(facts)
    ensures GoodState(facts, lhs, rhs, s) && DirectRecorded(facts, lhs, s) && s.toVisit == s.seen
  {
    s := SearchState({}, {}, map[]);
    for i := 0 to |facts|
      invariant GoodState(facts, lhs, rhs, s) && s.toVisit == s.seen
      invariant forall k :: 0 <= k < i && WithLHS(facts[k], lhs).Some? ==> Recorded(s, WithLHS(facts[k], lhs).value)
    {
      var moved := WithLHS(facts[i], lhs);
      if moved.Some? {
        FactMoved(facts, i, lhs);
        s := DeclareKnown(facts, lhs, rhs, s, moved.value);
      }
    }
  }

  /**
   DFSFromLHS: everything returned compares lhs with rhs and follows from the facts; direct facts and chains of two are
   not missed.
   */
  method SearchFrom(facts: seq<Comparison>, lhs: Key, rhs: Key) returns (found: seq<Comparison>)
    requires AllProper(facts)
    ensures AllUsable(facts, lhs, rhs, found) && Finds(facts, lhs, rhs, found)
  {
    var s := SearchStart(facts, lhs, rhs);
    while s.toVisit != {}
      invariant GoodState(facts, lhs, rhs, s) && DirectRecorded(facts, lhs, s)
      invariant forall k :: k in s.seen - s.toVisit ==> StepsRecorded(facts, lhs, s, k)
      decreases |Universe(facts) - s.seen| + |s.toVisit|
    {
      var middle :| middle in s.toVisit;
      var t := Visit(facts, lhs, rhs, s, middle);
      forall c | Seen(facts, lhs, c) ensures Recorded(t, c) { assert Recorded(s, c); }
      forall k | k in t.seen - t.toVisit ensures StepsRecorded(facts, lhs, t, k) {
        if k != middle { StepsStay(facts, lhs, s, t, k); }
      }
      s := t;
    }
    found := if rhs in s.compared then s.compared[rhs] else [];
    SearchFinds(facts, lhs, rhs, s, found);
  }

  lemma SearchFinds(facts: seq<Comparison>, lhs: Key, rhs: Key, s: SearchState, found: seq<Comparison>)
    requires GoodState(facts, lhs, rhs, s) && DirectRecorded(facts, lhs, s) && s.toVisit == {}
    requires forall k :: k in s.seen ==> StepsRecorded(facts, lhs, s, k)
    requires found == if rhs in s.compared then s.compared[rhs] else []
    ensures Finds(facts, lhs, rhs, found)
  {
    forall c | Seen(facts, lhs, c) && c.rhs == rhs ensures SomeImplies(found, c) { assert Recorded(s, c); }
    forall d, c | Seen(facts, lhs, d) && d.rhs != rhs && Seen(facts, d.rhs, c) && c.rhs == rhs && lhs != rhs &&
      Compose(d, c) != kUnknown
      ensures SomeImplies(found, Chained(d, c))
    {
      assert Recorded(s, d);
      assert d.rhs in s.seen;
      assert Recorded(s, Chained(d, c));
    }
  }

  /** All compositions through the middle key. */
  method Compositions(facts: seq<Comparison>, lhs: Key, prevs: seq<Comparison>,
      middle: Key) returns (found: seq<Comparison>)
    requires AllProper(facts) && AllUsable(facts, lhs, middle, prevs)
    ensures forall k :: 0 <= k < |found| ==> Usable(facts, lhs, found[k])
    ensures forall c :: Seen(facts, middle, c) ==> Composed(lhs, prevs, c, found, |prevs|)
  {
    found := [];
    for i := 0 to |facts|
      invariant forall k :: 0 <= k < |found| ==> Usable(facts, lhs, found[k])
      invariant forall k :: 0 <= k < i && WithLHS(facts[k], middle).Some? ==>
        Composed(lhs, prevs, WithLHS(facts[k], middle).value, found, |prevs|)
    {
      var moved := WithLHS(facts[i], middle);
      if moved.Some? {
        FactMoved(facts, i, middle);
        found := AttemptTransitive(facts, lhs, prevs, moved.value, found);
      }
    }
  }

  method Visit(facts: seq<Comparison>, lhs: Key, rhs: Key, s: SearchState, middle: Key) returns (t: SearchState)
    requires AllProper(facts) && GoodState(facts, lhs, rhs, s) && middle in s.toVisit && DirectRecorded(facts, lhs, s)
    ensures GoodState(facts, lhs, rhs, t)
    ensures |Universe(facts) - t.seen| + |t.toVisit| < |Universe(facts) - s.seen| + |s.toVisit|
    ensures Grows(s, t) && t.toVisit == (s.toVisit - {middle}) + (t.seen - s.seen)
    ensures StepsRecorded(facts, lhs, t, middle)
  {
    t := s.(toVisit := s.toVisit - {middle});
    var prevs := s.compared[middle];
    var found := Compositions(facts, lhs, prevs, middle);
    for i := 0 to |found|
      invariant GoodState(facts, lhs, rhs, t) && Grows(s, t) && t.toVisit == (s.toVisit - {middle}) + (t.seen - s.seen)
      invariant forall k :: 0 <= k < i ==> Recorded(t, found[k])
    {
      t := DeclareKnown(facts, lhs, rhs, t, found[i]);
    }
    QueueShrinks(Universe(facts), s.seen, t.seen, s.toVisit, middle);
    StepsFound(facts, lhs, s, t, middle, prevs, found);
  }

  lemma StepsFound(facts: seq<Comparison>, lhs: Key, s: SearchState, t: SearchState, middle: Key,
      prevs: seq<Comparison>, found: seq<Comparison>)
    requires AllProper(facts) && DirectRecorded(facts, lhs, s) && middle in s.compared && prevs == s.compared[middle]
    requires AllUsable(facts, lhs, middle, prevs)
    requires forall c :: Seen(facts, middle, c) ==> Composed(lhs, prevs, c, found, |prevs|)
    requires forall k :: 0 <= k < |found| ==> Recorded(t, found[k])
    ensures StepsRecorded(facts, lhs, t, middle)
  {
    forall d, c | Seen(facts, lhs, d) && d.rhs == middle && Seen(facts, middle, c) && c.rhs != lhs &&
      Compose(d, c) != kUnknown
      ensures Recorded(t, Chained(d, c))
    {
      assert Recorded(s, d);
      var i :| 0 <= i < |prevs| && Implies(prevs[i], d);
      assert Usable(facts, lhs, prevs[i]);
      SeenProper(facts, lhs, d);
      SeenProper(facts, middle, c);
      ComposeMonotone(prevs[i], d, c);
      assert Composed(lhs, prevs, c, found, |prevs|);
      var k :| 0 <= k < |found| && found[k] == Chained(prevs[i], c);
      RecordedImplies(t, found[k], Chained(d, c));
    }
  }

  lemma SeenProper(facts: seq<Comparison>, key: Key, c: Comparison)
    requires AllProper(facts) && Seen(facts, key, c)
    ensures Proper(c) && c.lhs == key
  {
  }

  lemma RecordedImplies(s: SearchState, c: Comparison, d: Comparison)
    requires Recorded(s, c) && Implies(c, d) && c.rhs == d.rhs
    ensures Recorded(s, d)
  {
    var i :| 0 <= i < |s.compared[c.rhs]| && Implies(s.compared[c.rhs][i], c);
    ImpliesTransitive(s.compared[c.rhs][i], c, d);
  }

  /** Each key enters the queue once: unseen keys and the queue together shrink. */
  lemma QueueShrinks(universe: set<Key>, seen: set<Key>, after: set<Key>, queue: set<Key>, middle: Key)
    requires queue <= seen <= after <= universe && middle in queue
    ensures |universe - after| + |(queue - {middle}) + (after - seen)| < |universe - seen| + |queue|
  {
    var added := after - seen;
    assert (queue - {middle}) !! added;
    assert |(queue - {middle}) + added| == |queue - {middle}| + |added|;
    assert |queue - {middle}| == |queue| - 1 by { assert queue == (queue - {middle}) + {middle}; }
    assert universe - seen == (universe - after) + added && (universe - after) !! added;
  }

  // ----- from expressions to comparisons -----

  /** x + c, x - c and c split into a term and a constant. */
  function ExtractOffset(e: Expr): (Expr, int) {
    match e
    case Add(x, Const(c)) => (x, c)
    case Sub(x, Const(c)) => (x, -c)
    case Const(c) => (Const(0), c)
    case _ => (e, 0)
  }

  lemma OffsetValue(e: Expr, rho: Valuation)
    ensures Eval(e, rho) == Eval(ExtractOffset(e).0, rho) + ExtractOffset(e).1
  {
    match e
    case Add(x, Const(c)) => assert Eval(Const(c), rho) == c;
    case Sub(x, Const(c)) => assert Eval(Const(c), rho) == c;
    case Const(c) => assert Eval(Const(0), rho) == 0;
    case _ =>
  }

  function ResultOf(op: CompareOp): CompareResult {
    match op
    case EQ => kEQ
    case NE => kNE
    case LT => kLT
    case LE => kLE
    case GT => kGT
    case GE => kGE
  }

  lemma ResultMeans(op: CompareOp, x: int, y: int)
    ensures Allows(ResultOf(op), x, y) <==> Compare(op, x, y)
  {
  }

  /** The conjuncts of a condition. */
  function Conjuncts(c: Cond): seq<Cond> {
    match c
    case And(p, q) => Conjuncts(p) + Conjuncts(q)
    case _ => [c]
  }

  lemma {:induction false} ConjunctsHold(c: Cond, rho: Valuation)
    ensures AllHold(Conjuncts(c), rho) <==> Holds(c, rho)
  {
    match c
    case And(p, q) =>
      ConjunctsHold(p, rho);
      ConjunctsHold(q, rho);
      AllHoldAppend(Conjuncts(p), Conjuncts(q), rho);
    case _ =>
      AllHoldAdd([], c, rho);
      assert [] + [c] == [c];
  }

  /** What each key is worth under a valuation. */
  function KeyValuesOf(exprs: seq<Expr>, rho: Valuation): KeyValues {
    (k: Key) => if k < |exprs| then Eval(exprs[k], rho) else 0
  }

  /** The facts a range gives about a variable. */
  function RangeConds(name: string, range: Range): seq<Cond> {
    if range.extent == Const(1) then [Cmp(EQ, Var(name), range.lo)]
    else [Cmp(GE, Var(name), range.lo), Cmp(LT, Var(name), Add(range.lo, range.extent))]
  }

  /** RangeConds says that the variable is in the range. */
  lemma RangeCondsMean(name: string, range: Range, rho: Valuation)
    ensures AllHold(RangeConds(name, range), rho) <==> InRange(range, rho(name), rho)
  {
    var cs := RangeConds(name, range);
    assert Eval(Const(1), rho) == 1 && Eval(Var(name), rho) == rho(name);
    if range.extent == Const(1) {
      assert cs[0] == Cmp(EQ, Var(name), range.lo);
    } else {
      assert cs[0] == Cmp(GE, Var(name), range.lo) && cs[1] == Cmp(LT, Var(name), Add(range.lo, range.extent));
      assert Eval(Add(range.lo, range.extent), rho) == Eval(range.lo, rho) + Eval(range.extent, rho);
      assert AllHold(cs, rho) <==> Holds(cs[0], rho) && Holds(cs[1], rho);
    }
  }

  /** Facts about old keys do not change when keys are added. */
  lemma KeysExtend(before: seq<Expr>, after: seq<Expr>, c: Comparison, rho: Valuation)
    requires before <= after && c.lhs < |before| && c.rhs < |before|
    ensures True(c, KeyValuesOf(after, rho)) == True(c, KeyValuesOf(before, rho))
  {
  }

  /** The facts that are not about `key`. */
  function WithoutKey(cs: seq<Comparison>, key: Key): (r: seq<Comparison>)
    ensures forall c :: c in r <==> c in cs && c.lhs != key
  {
    if cs == [] then [] else
      var k := |cs| - 1;
      WithoutKey(cs[..k], key) + if cs[k].lhs != key then [cs[k]] else []
  }

  /** What a recovery function remembers, and the constraints open outside it. */
  datatype Frame = Frame(oldSize: nat, newSize: nat, outer: seq<Cond>)

  class TransitiveComparisonAnalyzer {
    var exprToKey: map<Expr, Key>
    var knowns: seq<Comparison>
    var scopedKnowns: seq<Comparison>
    var bindings: map<string, Range>
    /** The expressions in key order. */
    ghost var exprs: seq<Expr>
    /** The constraints entered and not yet left. */
    ghost var scope: seq<Cond>
    /** The recovery functions not yet called, innermost last. */
    ghost var frames: seq<Frame>

    /** Keys and expressions correspond. */
    ghost predicate KeysMatch()
      reads this
    {
      && (forall k :: 0 <= k < |exprs| ==> exprs[k] in exprToKey && exprToKey[exprs[k]] == k)
      && (forall e :: e in exprToKey ==> exprToKey[e] < |exprs| && exprs[exprToKey[e]] == e)
      && |exprToKey| == |exprs|
    }

    ghost predicate InBounds(c: Comparison)
      reads this
    {
      c.lhs < |exprs| && c.rhs < |exprs| && Proper(c)
    }

    /** A known fact is about a bound variable and follows from its range. */
    ghost predicate FromBinding(c: Comparison)
      reads this
    {
      && InBounds(c) && exprs[c.lhs].Var? && exprs[c.lhs].name in bindings
      && forall rho: Valuation :: InRange(bindings[exprs[c.lhs].name], rho(exprs[c.lhs].name), rho) ==>
        True(c, KeyValuesOf(exprs, rho))
    }

    ghost predicate FromConds(c: Comparison, conds: seq<Cond>)
      reads this
    {
      InBounds(c) && forall rho: Valuation :: AllHold(conds, rho) ==> True(c, KeyValuesOf(exprs, rho))
    }

    ghost predicate FromScope(c: Comparison)
      reads this
    {
      FromConds(c, scope)
    }

    /** The facts below a frame follow from the constraints open outside it; frames nest. */
    ghost predicate FrameHolds(i: nat)
      requires i < |frames|
      reads this
    {
      var f := frames[i];
      && f.oldSize <= f.newSize == (if i + 1 < |frames| then frames[i + 1].oldSize else |scopedKnowns|)
      && f.newSize <= |scopedKnowns|
      && forall c :: c in scopedKnowns[..f.oldSize] ==> FromConds(c, f.outer)
    }

    ghost predicate Valid()
      reads this
    {
      && KeysMatch()
      && (forall c :: c in knowns ==> FromBinding(c))
      && (forall c :: c in scopedKnowns ==> FromScope(c))
      && (forall i :: 0 <= i < |frames| ==> FrameHolds(i))
    }

    /** The valuations that meet every binding and every open constraint. */
    ghost predicate Meets(rho: Valuation)
      reads this
    {
      InRanges(bindings, rho) && AllHold(scope, rho)
    }

    constructor ()
      ensures Valid() && bindings == map[] && scope == [] && frames == []
    {
      exprToKey, knowns, scopedKnowns, bindings, exprs, scope, frames := map[], [], [], map[], [], [], [];
    }

    method ExprToKey(e: Expr) returns (key: Key)
      requires KeysMatch()
      modifies this`exprToKey, this`exprs
      ensures KeysMatch() && key < |exprs| && exprs[key] == e && old(exprs) <= exprs
    {
      if e in exprToKey { return exprToKey[e]; }
      key := |exprToKey|;
      exprToKey := exprToKey[e := key];
      exprs := exprs + [e];
    }

    /** FromExpr: a comparison with the truth of the condition; none for other conditions and for two constants. */
    method FromExpr(c: Cond) returns (r: Option<Comparison>)
      requires KeysMatch()
      modifies this`exprToKey, this`exprs
      ensures KeysMatch() && old(exprs) <= exprs
      ensures r.None? <==> !c.Cmp? || (c.lhs.Const? && c.rhs.Const?)
      ensures r.Some? ==> InBounds(r.value) && exprs[r.value.lhs] == ExtractOffset(c.lhs).0
      ensures r.Some? ==> forall rho: Valuation :: True(r.value, KeyValuesOf(exprs, rho)) <==> Holds(c, rho)
    {
      if !c.Cmp? || (c.lhs.Const? && c.rhs.Const?) { return None; }
      var left, right := ExtractOffset(c.lhs), ExtractOffset(c.rhs);
      var lhs := ExprToKey(left.0);
      var rhs := ExprToKey(right.0);
      var made := Make(lhs, rhs, right.1 - left.1, ResultOf(c.op));
      r := Some(made);
      forall rho: Valuation ensures True(made, KeyValuesOf(exprs, rho)) <==> Holds(c, rho) {
        OffsetValue(c.lhs, rho);
        OffsetValue(c.rhs, rho);
        var x, y := Eval(left.0, rho), Eval(right.0, rho) + (right.1 - left.1);
        ResultMeans(c.op, Eval(c.lhs, rho), Eval(c.rhs, rho));
        Shifted(ResultOf(c.op), x, y, left.1);
      }
    }

    /** AddKnown: the comparisons among the conjuncts of a condition. */
    method AddKnown(cond: Cond) returns (cs: seq<Comparison>)
      requires KeysMatch()
      modifies this`exprToKey, this`exprs
      ensures KeysMatch() && old(exprs) <= exprs
      ensures forall c :: c in cs ==> InBounds(c)
      ensures forall c, rho: Valuation :: c in cs && Holds(cond, rho) ==> True(c, KeyValuesOf(exprs, rho))
      ensures cond.Cmp? ==> forall c :: c in cs ==> InBounds(c) && exprs[c.lhs] == ExtractOffset(cond.lhs).0
    {
      cs := [];
      var parts := Conjuncts(cond);
      for i := 0 to |parts|
        invariant KeysMatch() && old(exprs) <= exprs
        invariant forall c :: c in cs ==> InBounds(c)
        invariant forall c, rho: Valuation :: c in cs && Holds(cond, rho) ==> True(c, KeyValuesOf(exprs, rho))
        invariant cond.Cmp? ==> forall c :: c in cs ==> exprs[c.lhs] == ExtractOffset(cond.lhs).0
      {
        ghost var before := exprs;
        var made := FromExpr(parts[i]);
        forall c, rho: Valuation | c in cs && Holds(cond, rho) ensures True(c, KeyValuesOf(exprs, rho)) {
          assert True(c, KeyValuesOf(before, rho));
          KeysExtend(before, exprs, c, rho);
        }
        if made.Some? {
          forall rho: Valuation | Holds(cond, rho)
            ensures True(made.value, KeyValuesOf(exprs, rho))
          {
            ConjunctHolds(cond, i, rho);
          }
          cs := cs + [made.value];
        }
      }
    }

    /** Facts stay valid when only keys were added. */
    twostate lemma FactsKept()
      requires old(Valid()) && KeysMatch() && old(exprs) <= exprs && bindings == old(bindings)
      ensures forall c :: old(FromBinding(c)) ==> FromBinding(c)
      ensures forall c, conds :: old(FromConds(c, conds)) ==> FromConds(c, conds)
    {
      forall c | old(FromBinding(c)) ensures FromBinding(c) {
        forall rho: Valuation
          ensures True(c, KeyValuesOf(exprs, rho)) == True(c, KeyValuesOf(old(exprs), rho))
        {
          KeysExtend(old(exprs), exprs, c, rho);
        }
      }
      forall c, conds | old(FromConds(c, conds)) ensures FromConds(c, conds) {
        forall rho: Valuation
          ensures True(c, KeyValuesOf(exprs, rho)) == True(c, KeyValuesOf(old(exprs), rho))
        {
          KeysExtend(old(exprs), exprs, c, rho);
        }
      }
    }

    /** The frames stay valid when keys and inner facts are added. */
    twostate lemma FramesKept()
      requires old(Valid()) && KeysMatch() && old(exprs) <= exprs && bindings == old(bindings)
      requires frames == old(frames) && scopedKnowns == old(scopedKnowns)
      ensures forall i :: 0 <= i < |frames| ==> FrameHolds(i)
    {
      FactsKept();
      forall i | 0 <= i < |frames| ensures FrameHolds(i) {
        assert old(FrameHolds(i));
        forall c | c in scopedKnowns[..frames[i].oldSize]
          ensures FromConds(c, frames[i].outer)
        {
          assert old(FromConds(c, frames[i].outer));
        }
      }
    }

    /** Scoped facts depend on neither the bindings nor the unscoped facts. */
    twostate lemma ScopedUnaffected()
      requires exprs == old(exprs) && scope == old(scope) && frames == old(frames) && scopedKnowns == old(scopedKnowns)
      requires (forall c :: c in scopedKnowns ==> old(FromScope(c))) && forall i :: 0 <= i < |frames| ==>
        old(FrameHolds(i))
      ensures (forall c :: c in scopedKnowns ==> FromScope(c)) && forall i :: 0 <= i < |frames| ==> FrameHolds(i)
    {
      forall c | c in scopedKnowns ensures FromScope(c) { assert old(FromScope(c)); }
      forall i | 0 <= i < |frames| ensures FrameHolds(i) {
        assert old(FrameHolds(i));
        forall c | c in scopedKnowns[..frames[i].oldSize]
          ensures FromConds(c, frames[i].outer)
        {
          assert old(FromConds(c, frames[i].outer));
        }
      }
    }

    /** The facts of a range. */
    method RangeFacts(name: string, range: Range) returns (added: seq<Comparison>)
      requires KeysMatch()
      modifies this`exprToKey, this`exprs
      ensures KeysMatch() && old(exprs) <= exprs
      ensures forall c :: c in added ==> InBounds(c) && exprs[c.lhs] == Var(name)
      ensures forall c, rho: Valuation :: c in added && InRange(range, rho(name), rho) ==>
        True(c, KeyValuesOf(exprs, rho))
    {
      ghost var conds := RangeConds(name, range);
      forall rho: Valuation
        ensures InRange(range, rho(name), rho) <==> AllHold(conds, rho)
      {
        RangeCondsMean(name, range, rho);
      }
      if range.extent == Const(1) {
        added := AddKnown(Cmp(EQ, Var(name), range.lo));
        forall c, rho: Valuation | c in added && InRange(range, rho(name), rho)
          ensures True(c, KeyValuesOf(exprs, rho))
        {
          assert Holds(conds[0], rho);
        }
      } else {
        var lower := AddKnown(Cmp(GE, Var(name), range.lo));
        ghost var between := exprs;
        var upper := AddKnown(Cmp(LT, Var(name), Add(range.lo, range.extent)));
        added := lower + upper;
        forall c, rho: Valuation | c in added && InRange(range, rho(name), rho)
          ensures True(c, KeyValuesOf(exprs, rho))
        {
          assert Holds(conds[0], rho) && Holds(conds[1], rho);
          if c in lower { KeysExtend(between, exprs, c, rho); }
        }
      }
    }

    /**
     Bind to a range; another range than before is only accepted as an override, and then replaces what was known of the
     variable.
     */
    method Bind(name: string, range: Range, allowOverride: bool)
      requires Valid() && (name in bindings && bindings[name] != range ==> allowOverride)
      modifies this`exprToKey, this`exprs, this`knowns, this`bindings
      ensures Valid() && bindings == old(bindings)[name := range]
    {
      var kept := knowns;
      if name in bindings && bindings[name] != range && Var(name) in exprToKey {
        kept := WithoutKey(knowns, exprToKey[Var(name)]);
      }
      ghost var before := exprs;
      assert forall c :: c in kept ==>
        c in knowns && (before[c.lhs] == Var(name) ==> name !in bindings || bindings[name] == range);
      var added := RangeFacts(name, range);
      FactsKept();
      FramesKept();
      Rebind(name, range, kept, added);
    }

    /** The new binding, with the facts that are kept and the facts of the range. */
    method Rebind(name: string, range: Range, kept: seq<Comparison>, added: seq<Comparison>)
      requires KeysMatch() && KeptApart(kept, name, range)
      requires (forall c :: c in scopedKnowns ==> FromScope(c)) && forall i :: 0 <= i < |frames| ==> FrameHolds(i)
      requires forall c :: c in added ==> InBounds(c) && exprs[c.lhs] == Var(name)
      requires forall c, rho: Valuation :: c in added && InRange(range, rho(name), rho) ==>
        True(c, KeyValuesOf(exprs, rho))
      modifies this`knowns, this`bindings
      ensures Valid() && bindings == old(bindings)[name := range]
    {
      bindings := bindings[name := range];
      knowns := kept + added;
      ScopedUnaffected();
      forall c | c in kept ensures FromBinding(c) { assert old(FromBinding(c)); }
    }

    /** Known facts that the new range of a variable leaves alone. */
    ghost predicate KeptApart(kept: seq<Comparison>, name: string, range: Range)
      reads this
    {
      forall c :: c in kept ==>
        FromBinding(c) && (exprs[c.lhs] == Var(name) ==> name in bindings && bindings[name] == range)
    }

    /** Enter a constraint; the sizes are what the recovery function remembers. */
    method EnterConstraint(cond: Cond) returns (oldSize: nat, newSize: nat)
      requires Valid()
      modifies this`exprToKey, this`exprs, this`scopedKnowns, this`scope, this`frames
      ensures Valid() && scope == old(scope) + [cond] && frames == old(frames) + [Frame(oldSize, newSize, old(scope))]
      ensures oldSize == old(|scopedKnowns|) && newSize == |scopedKnowns| && old(scopedKnowns) <= scopedKnowns
    {
      ghost var outer, inner := scope, scopedKnowns;
      oldSize := |scopedKnowns|;
      var added := AddKnown(cond);
      FramesKept();
      FactsKept();
      label kept:
      scopedKnowns := scopedKnowns + added;
      newSize := |scopedKnowns|;
      scope := scope + [cond];
      frames := frames + [Frame(oldSize, newSize, outer)];
      assert scopedKnowns[..oldSize] == inner;
      forall c | c in scopedKnowns ensures FromScope(c) {
        forall rho: Valuation | AllHold(scope, rho) ensures True(c, KeyValuesOf(exprs, rho)) {
          AllHoldAdd(outer, cond, rho);
          if c in inner { assert old@kept(FromConds(c, outer)); }
        }
        if c in inner { assert old@kept(FromConds(c, outer)); }
      }
      forall i | 0 <= i < |frames| ensures FrameHolds(i) {
        if i < |old(frames)| {
          assert old@kept(FrameHolds(i));
          var n := frames[i].oldSize;
          assert scopedKnowns[..n] == inner[..n];
          forall c | c in scopedKnowns[..n]
            ensures FromConds(c, frames[i].outer)
          {
            assert old@kept(FromConds(c, frames[i].outer));
          }
        } else {
          forall c | c in scopedKnowns[..oldSize] ensures FromConds(c, outer) { assert old@kept(FromConds(c, outer)); }
        }
      }
    }

    /** The innermost recovery function: open constraints and scoped facts are what they were. */
    method Recover(oldSize: nat, newSize: nat)
      requires Valid() && frames != [] && frames[|frames| - 1].oldSize == oldSize
      requires frames[|frames| - 1].newSize == newSize
      modifies this`scopedKnowns, this`scope, this`frames
      ensures Valid() && frames == old(frames)[..|old(frames)| - 1] && scope == old(frames)[|old(frames)| - 1].outer
      ensures oldSize <= |old(scopedKnowns)| && scopedKnowns == old(scopedKnowns)[..oldSize]
    {
      ghost var last, all := |frames| - 1, frames;
      ghost var outer := frames[last].outer;
      assert FrameHolds(last);
      forall k | 0 <= k < |all|
        ensures all[k].oldSize <= all[k].newSize && (k < last ==> all[k].newSize == all[k + 1].oldSize)
      {
        assert FrameHolds(k);
      }
      scopedKnowns := scopedKnowns[..oldSize];
      scope := frames[last].outer;
      frames := frames[..last];
      forall c | c in scopedKnowns ensures FromScope(c) { assert old(FromConds(c, outer)); }
      forall i | 0 <= i < |frames| ensures FrameHolds(i) {
        assert old(FrameHolds(i));
        var n := frames[i].oldSize;
        NestedSizes(all, i, last);
        assert scopedKnowns[..n] == old(scopedKnowns)[..n];
        forall c | c in scopedKnowns[..n]
          ensures FromConds(c, frames[i].outer)
        {
          assert old(FromConds(c, frames[i].outer));
        }
      }
    }

    // ----- queries -----

    /** CollectDirectComparisons: all the facts between the two keys. */
    method CollectDirect(lhs: Key, rhs: Key) returns (cs: seq<Comparison>)
      requires Valid()
      ensures Between(cs, lhs, rhs) && forall i :: 0 <= i < |cs| ==> Entails(knowns + scopedKnowns, cs[i])
      ensures forall c :: Seen(knowns + scopedKnowns, lhs, c) && c.rhs == rhs ==> c in cs
    {
      cs := [];
      var facts := knowns + scopedKnowns;
      for i := 0 to |facts|
        invariant Between(cs, lhs, rhs) && forall k :: 0 <= k < |cs| ==> Entails(facts, cs[k])
        invariant forall k :: 0 <= k < i && WithLHS(facts[k], lhs).Some? && WithLHS(facts[k], lhs).value.rhs == rhs ==>
          WithLHS(facts[k], lhs).value in cs
      {
        var moved := WithLHS(facts[i], lhs);
        if moved.Some? && moved.value.rhs == rhs {
          cs := cs + [moved.value];
          assert cs[|cs| - 1] == moved.value;
        }
      }
    }

    /** CollectIndirectComparisons: search from both ends. */
    method CollectIndirect(lhs: Key, rhs: Key) returns (cs: seq<Comparison>)
      requires Valid()
      ensures Between(cs, lhs, rhs) && forall i :: 0 <= i < |cs| ==> Entails(knowns + scopedKnowns, cs[i])
      ensures Finds(knowns + scopedKnowns, lhs, rhs, cs)
    {
      var facts := knowns + scopedKnowns;
      forall i | 0 <= i < |facts| ensures Proper(facts[i]) { assert facts[i] in knowns || facts[i] in scopedKnowns; }
      cs := SearchFrom(facts, lhs, rhs);
      ghost var forward := cs;
      var back := SearchFrom(facts, rhs, lhs);
      for i := 0 to |back|
        invariant Between(cs, lhs, rhs) && forall k :: 0 <= k < |cs| ==> Entails(facts, cs[k])
        invariant forward <= cs
      {
        assert Usable(facts, rhs, back[i]) && back[i].rhs == lhs;
        cs := cs + [WithLHS(back[i], lhs).value];
      }
      FindsMore(facts, lhs, rhs, forward, cs);
    }

    /** The key of the expression without its offset, if it has one. */
    ghost predicate KeyIs(e: Expr, k: Key)
      reads this
    {
      ExtractOffset(e).0 in exprToKey && exprToKey[ExtractOffset(e).0] == k
    }

    /**
     Every known fact between the two expressions counts, as it is or through a stronger one; so do chains of two when
     propagating.
     */
    ghost predicate Counts(lhs: Expr, rhs: Expr, propagate: bool, result: CompareResult)
      reads this
    {
      forall a, b :: KeyIs(lhs, a) && KeyIs(rhs, b) ==>
        var facts, offset := knowns + scopedKnowns, ExtractOffset(rhs).1 - ExtractOffset(lhs).1;
        && (forall c :: Seen(facts, a, c) && c.rhs == b ==>
          if propagate then Reads(result, c, offset) else Finer(result, Single(c, offset)))
        && (propagate && a != b ==> forall d, c ::
          Seen(facts, a, d) && d.rhs != b && Seen(facts, d.rhs, c) && c.rhs == b && Compose(d, c) != kUnknown ==>
              Reads(result, Chained(d, c), offset))
    }

    /**
     TryCompare: wherever the bindings and open constraints hold, the true order is among the outcomes returned;
     the result is as precise as the known facts about the two expressions are read.
     */
    method TryCompare(lhs: Expr, rhs: Expr, propagate: bool) returns (result: CompareResult)
      requires Valid()
      ensures forall rho: Valuation :: Meets(rho) ==> Allows(result, Eval(lhs, rho), Eval(rhs, rho))
      ensures lhs.Const? && rhs.Const? ==> result == OrderOf(lhs.value, rhs.value)
      ensures !(lhs.Const? && rhs.Const?) ==> Counts(lhs, rhs, propagate, result)
    {
      if lhs.Const? && rhs.Const? {
        ConstantOrder(lhs.value, rhs.value);
        return OrderOf(lhs.value, rhs.value);
      }
      var left, right := ExtractOffset(lhs), ExtractOffset(rhs);
      if left.0 !in exprToKey || right.0 !in exprToKey { return kUnknown; }
      result := CompareKeys(lhs, rhs, propagate, exprToKey[left.0], exprToKey[right.0]);
    }

    method CompareKeys(lhs: Expr, rhs: Expr, propagate: bool, lhsKey: Key, rhsKey: Key) returns (result: CompareResult)
      requires Valid() && KeyIs(lhs, lhsKey) && KeyIs(rhs, rhsKey)
      ensures forall rho: Valuation :: Meets(rho) ==> Allows(result, Eval(lhs, rho), Eval(rhs, rho))
      ensures Counts(lhs, rhs, propagate, result)
    {
      var offset := ExtractOffset(rhs).1 - ExtractOffset(lhs).1;
      var cs := Collect(lhsKey, rhsKey, propagate);
      result := MergeComparisons(cs, offset, lhsKey, rhsKey);
      CountsMerged(lhs, rhs, propagate, result, cs, lhsKey, rhsKey);
      ComparedAll(lhs, rhs, lhsKey, rhsKey, cs, result, offset);
    }

    lemma ComparedAll(lhs: Expr, rhs: Expr, lhsKey: Key, rhsKey: Key, cs: seq<Comparison>, result: CompareResult,
        offset: int)
      requires Valid() && KeyIs(lhs, lhsKey) && KeyIs(rhs, rhsKey)
      requires offset == ExtractOffset(rhs).1 - ExtractOffset(lhs).1
      requires forall i :: 0 <= i < |cs| ==> Entails(knowns + scopedKnowns, cs[i])
      requires forall val: KeyValues :: AllTrue(cs, val) ==> Allows(result, val(lhsKey), val(rhsKey) + offset)
      ensures forall rho: Valuation :: Meets(rho) ==> Allows(result, Eval(lhs, rho), Eval(rhs, rho))
    {
      forall rho: Valuation | Meets(rho) ensures Allows(result, Eval(lhs, rho), Eval(rhs, rho)) {
        Compared(lhs, rhs, lhsKey, rhsKey, cs, result, rho);
      }
    }

    method Collect(lhs: Key, rhs: Key, propagate: bool) returns (cs: seq<Comparison>)
      requires Valid()
      ensures Between(cs, lhs, rhs) && forall i :: 0 <= i < |cs| ==> Entails(knowns + scopedKnowns, cs[i])
      ensures propagate ==> Finds(knowns + scopedKnowns, lhs, rhs, cs)
      ensures !propagate ==> forall c :: Seen(knowns + scopedKnowns, lhs, c) && c.rhs == rhs ==> c in cs
    {
      if propagate { cs := CollectIndirect(lhs, rhs); } else { cs := CollectDirect(lhs, rhs); }
    }

    lemma Compared(lhs: Expr, rhs: Expr, lhsKey: Key, rhsKey: Key, cs: seq<Comparison>, result: CompareResult,
        rho: Valuation)
      requires Valid() && Meets(rho) && KeyIs(lhs, lhsKey) && KeyIs(rhs, rhsKey)
      requires forall i :: 0 <= i < |cs| ==> Entails(knowns + scopedKnowns, cs[i])
      requires forall val: KeyValues :: AllTrue(cs, val) ==>
        Allows(result, val(lhsKey), val(rhsKey) + (ExtractOffset(rhs).1 - ExtractOffset(lhs).1))
      ensures Allows(result, Eval(lhs, rho), Eval(rhs, rho))
    {
      var left, right := ExtractOffset(lhs), ExtractOffset(rhs);
      var val := KeyValuesOf(exprs, rho);
      FactsTrue(rho);
      assert AllTrue(cs, val) by { forall i | 0 <= i < |cs| ensures True(cs[i],
        val) { assert Entails(knowns + scopedKnowns, cs[i]); } }
      OffsetValue(lhs, rho);
      OffsetValue(rhs, rho);
      Shifted(result, val(lhsKey), val(rhsKey) + (right.1 - left.1), left.1);
    }

    lemma CountsMerged(lhs: Expr, rhs: Expr, propagate: bool, result: CompareResult, cs: seq<Comparison>, a: Key,
        b: Key)
      requires KeyIs(lhs, a) && KeyIs(rhs, b)
      requires forall i :: 0 <= i < |cs| ==> Finer(result, Single(cs[i], ExtractOffset(rhs).1 - ExtractOffset(lhs).1))
      requires propagate ==> Finds(knowns + scopedKnowns, a, b, cs)
      requires !propagate ==> forall c :: Seen(knowns + scopedKnowns, a, c) && c.rhs == b ==> c in cs
      ensures Counts(lhs, rhs, propagate, result)
    {
      var facts, offset := knowns + scopedKnowns, ExtractOffset(rhs).1 - ExtractOffset(lhs).1;
      forall c | propagate && SomeImplies(cs, c) ensures Reads(result, c, offset) {
        var i :| 0 <= i < |cs| && Implies(cs[i], c);
      }
    }

    lemma FactsTrue(rho: Valuation)
      requires Valid() && Meets(rho)
      ensures AllTrue(knowns + scopedKnowns, KeyValuesOf(exprs, rho))
    {
      var facts := knowns + scopedKnowns;
      forall i | 0 <= i < |facts| ensures True(facts[i], KeyValuesOf(exprs, rho)) {
        assert facts[i] in knowns || facts[i] in scopedKnowns;
      }
    }
  }

  function OrderOf(x: int, y: int): CompareResult {
    if x < y then kLT else if x > y then kGT else kEQ
  }

  lemma ConstantOrder(x: int, y: int)
    ensures forall rho: Valuation :: Allows(OrderOf(x, y), Eval(Const(x), rho), Eval(Const(y), rho))
  {
  }

  /** The result excludes what some fact that implies c excludes. */
  ghost predicate Reads(result: CompareResult, c: Comparison, offset: int) {
    exists e :: Implies(e, c) && Finer(result, Single(e, offset))
  }

  lemma FindsMore(facts: seq<Comparison>, lhs: Key, rhs: Key, found: seq<Comparison>, more: seq<Comparison>)
    requires Finds(facts, lhs, rhs, found) && found <= more
    ensures Finds(facts, lhs, rhs, more)
  {
    forall c | SomeImplies(found, c) ensures SomeImplies(more, c) {
      var i :| 0 <= i < |found| && Implies(found[i], c);
      assert more[i] == found[i];
    }
  }

  /** The sizes of nested frames grow inwards. */
  lemma {:induction false} NestedSizes(frames: seq<Frame>, i: nat, last: nat)
    requires i < last == |frames| - 1
    requires forall k :: 0 <= k < |frames| ==> frames[k].oldSize <= frames[k].newSize
    requires forall k :: 0 <= k < last ==> frames[k].newSize == frames[k + 1].oldSize
    ensures frames[i].newSize <= frames[last].oldSize
    decreases last - i
  {
    if i + 1 < last { NestedSizes(frames, i + 1, last); }
  }

  lemma {:induction false} ConjunctHolds(c: Cond, i: nat, rho: Valuation)
    requires i < |Conjuncts(c)| && Holds(c, rho)
    ensures Holds(Conjuncts(c)[i], rho)
  {
    ConjunctsHold(c, rho);
  }

  lemma Shifted(r: CompareResult, x: int, y: int, k: int)
    ensures Allows(r, x + k, y + k) == Allows(r, x, y)
  {
  }
}
