/**
 AndOfOrs of src/arith/conjunctive_normal_form.cc: a condition as a conjunction of
 disjunctions, simplified within and across the disjunctions. Keys and
 expressions correspond one to one, so a chunk lists the expressions themselves.
 */
module AndOfOrs {
  import opened Exprs
  import opened Constraints

  type Chunk = seq<Cond>

  /** Some expression of the chunk holds. */
  predicate AnyHold(chunk: Chunk, rho: Valuation) {
    exists i :: 0 <= i < |chunk| && Holds(chunk[i], rho)
  }

  predicate ChunksHold(chunks: seq<Chunk>, rho: Valuation) {
    forall i :: 0 <= i < |chunks| ==> AnyHold(chunks[i], rho)
  }

  const True: Cond := Lit(true)
  const False: Cond := Lit(false)

  /** The rewriter and the simplifier; `known` is the constraint context. */
  datatype Rewriter = Rewriter(rewrite: (Cond, Cond) -> Cond, simplify: Cond -> Cond)

  ghost predicate Sound(o: Rewriter, rho: Valuation) {
    && (forall known, c :: Holds(known, rho) ==> Holds(o.rewrite(known, c), rho) == Holds(c, rho))
    && (forall c :: Holds(o.simplify(c), rho) == Holds(c, rho))
  }

  // ----- operators that fold constants -----

  function OrFold(a: Cond, b: Cond): Cond {
    if a.Lit? then (if a.truth then a else b) else if b.Lit? then (if b.truth then b else a) else Or(a, b)
  }

  function AndFold(a: Cond, b: Cond): Cond {
    if a.Lit? then (if a.truth then b else a) else if b.Lit? then (if b.truth then a else b) else And(a, b)
  }

  // ----- distribution -----

  /** One element from each list, combined. */
  function Pairs(xs: seq<Cond>, ys: seq<Cond>, f: (Cond, Cond) -> Cond): seq<Cond> {
    if xs == [] then [] else Pairs(xs[..|xs| - 1], ys, f) + Row(xs[|xs| - 1], ys, f)
  }

  function Row(x: Cond, ys: seq<Cond>, f: (Cond, Cond) -> Cond): (r: seq<Cond>)
    ensures |r| == |ys| && forall i :: 0 <= i < |ys| ==> r[i] == f(x, ys[i])
  {
    seq(|ys|, i requires 0 <= i < |ys| => f(x, ys[i]))
  }

  /** VisitAndExpressions: conjuncts, with disjunctions distributed. */
  function AndParts(c: Cond): seq<Cond> {
    match c
    case And(x, y) => AndParts(x) + AndParts(y)
    case Or(x, y) => Pairs(AndParts(x), AndParts(y), OrFold)
    case _ => [c]
  }

  /** VisitOrExpressions: disjuncts, with conjunctions distributed. */
  function OrParts(c: Cond): seq<Cond> {
    match c
    case Or(x, y) => OrParts(x) + OrParts(y)
    case And(x, y) => Pairs(OrParts(x), OrParts(y), AndFold)
    case _ => [c]
  }

  lemma AnyAppend(a: Chunk, b: Chunk, rho: Valuation)
    ensures AnyHold(a + b, rho) <==> AnyHold(a, rho) || AnyHold(b, rho)
  {
    if AnyHold(a, rho) {
      var i :| 0 <= i < |a| && Holds(a[i], rho);
      assert (a + b)[i] == a[i];
    }
    if AnyHold(b, rho) {
      var i :| 0 <= i < |b| && Holds(b[i], rho);
      assert (a + b)[|a| + i] == b[i];
    }
  }

  lemma AnySingle(c: Cond, rho: Valuation)
    ensures AnyHold([c], rho) <==> Holds(c, rho)
  {
    assert [c][0] == c;
  }

  lemma FoldHolds(a: Cond, b: Cond, rho: Valuation)
    ensures Holds(OrFold(a, b), rho) <==> Holds(a, rho) || Holds(b, rho)
    ensures Holds(AndFold(a, b), rho) <==> Holds(a, rho) && Holds(b, rho)
  {
  }

  lemma RowOfOrs(x: Cond, ys: seq<Cond>, rho: Valuation)
    ensures AllHold(Row(x, ys, OrFold), rho) <==> Holds(x, rho) || AllHold(ys, rho)
  {
    var r := Row(x, ys, OrFold);
    forall i | 0 <= i < |ys|
      ensures Holds(r[i], rho) <==> Holds(x, rho) || Holds(ys[i], rho)
    {
      FoldHolds(x, ys[i], rho);
    }
  }

  lemma RowOfAnds(x: Cond, ys: seq<Cond>, rho: Valuation)
    ensures AnyHold(Row(x, ys, AndFold), rho) <==> Holds(x, rho) && AnyHold(ys, rho)
  {
    var r := Row(x, ys, AndFold);
    forall i | 0 <= i < |ys|
      ensures Holds(r[i], rho) <==> Holds(x, rho) && Holds(ys[i], rho)
    {
      FoldHolds(x, ys[i], rho);
    }
  }

  lemma {:induction false} PairsOfOrs(xs: seq<Cond>, ys: seq<Cond>, rho: Valuation)
    ensures AllHold(Pairs(xs, ys, OrFold), rho) <==> AllHold(xs, rho) || AllHold(ys, rho)
  {
    if xs != [] {
      var k := |xs| - 1;
      PairsOfOrs(xs[..k], ys, rho);
      RowOfOrs(xs[k], ys, rho);
      AllHoldAppend(Pairs(xs[..k], ys, OrFold), Row(xs[k], ys, OrFold), rho);
      assert xs == xs[..k] + [xs[k]];
      AllHoldAdd(xs[..k], xs[k], rho);
    }
  }

  lemma {:induction false} PairsOfAnds(xs: seq<Cond>, ys: seq<Cond>, rho: Valuation)
    ensures AnyHold(Pairs(xs, ys, AndFold), rho) <==> AnyHold(xs, rho) && AnyHold(ys, rho)
  {
    if xs != [] {
      var k := |xs| - 1;
      PairsOfAnds(xs[..k], ys, rho);
      RowOfAnds(xs[k], ys, rho);
      AnyAppend(Pairs(xs[..k], ys, AndFold), Row(xs[k], ys, AndFold), rho);
      assert xs == xs[..k] + [xs[k]];
      AnyAppend(xs[..k], [xs[k]], rho);
      AnySingle(xs[k], rho);
    }
  }

  /** Distribution keeps the truth of a condition. */
  lemma {:induction false} PartsHold(c: Cond, rho: Valuation)
    ensures AllHold(AndParts(c), rho) <==> Holds(c, rho)
    ensures AnyHold(OrParts(c), rho) <==> Holds(c, rho)
  {
    match c
    case And(x, y) =>
      PartsHold(x, rho);
      PartsHold(y, rho);
      AllHoldAppend(AndParts(x), AndParts(y), rho);
      PairsOfAnds(OrParts(x), OrParts(y), rho);
    case Or(x, y) =>
      PartsHold(x, rho);
      PartsHold(y, rho);
      AnyAppend(OrParts(x), OrParts(y), rho);
      PairsOfOrs(AndParts(x), AndParts(y), rho);
    case _ =>
      AllHoldAdd([], c, rho);
      assert [] + [c] == [c];
      AnySingle(c, rho);
  }

  // ----- simplifying a pair -----

  /** TrySimplifyOr: replacements for a and b. */
  function TrySimplifyOr(o: Rewriter, known: Cond, a: Cond, b: Cond): (Cond, Cond) {
    var joint := OrFold(a, b);
    var simplified := o.rewrite(known, joint);
    if simplified == joint then (a, b)
    else if simplified.Or? then (simplified.p, simplified.q)
    else (False, simplified)
  }

  function TrySimplifyAnd(o: Rewriter, known: Cond, a: Cond, b: Cond): (Cond, Cond) {
    var joint := AndFold(a, b);
    var simplified := o.rewrite(known, joint);
    if simplified == joint then (a, b)
    else if simplified.And? then (simplified.p, simplified.q)
    else (True, simplified)
  }

  lemma TrySimplifyHolds(o: Rewriter, known: Cond, a: Cond, b: Cond, rho: Valuation)
    requires Sound(o, rho) && Holds(known, rho)
    ensures var (x, y) := TrySimplifyOr(o, known, a, b); Holds(x, rho) || Holds(y, rho) <==>
      Holds(a, rho) || Holds(b, rho)
    ensures var (x, y) := TrySimplifyAnd(o, known, a, b); Holds(x, rho) && Holds(y, rho) <==>
      Holds(a, rho) && Holds(b, rho)
  {
    assert Holds(o.rewrite(known, OrFold(a, b)), rho) == Holds(OrFold(a, b), rho);
    assert Holds(o.rewrite(known, AndFold(a, b)), rho) == Holds(AndFold(a, b), rho);
  }

  // ----- within a chunk -----

  function WithinPair(o: Rewriter, chunk: Chunk, i: nat, j: nat): (r: Chunk)
    requires i < j < |chunk|
    ensures |r| == |chunk|
  {
    var (x, y) := TrySimplifyOr(o, True, chunk[i], chunk[j]);
    chunk[i := x][j := y]
  }

  /** The remaining pairs from (i, j) on. */
  function WithinFrom(o: Rewriter, chunk: Chunk, i: nat, j: nat): (r: Chunk)
    requires i < j
    ensures |r| == |chunk|
    decreases |chunk| - i, |chunk| - j
  {
    if i >= |chunk| then chunk
    else if j >= |chunk| then WithinFrom(o, chunk, i + 1, i + 2)
    else WithinFrom(o, WithinPair(o, chunk, i, j), i, j + 1)
  }

  lemma PairInChunk(chunk: Chunk, i: nat, j: nat, x: Cond, y: Cond, rho: Valuation)
    requires i < j < |chunk| && (Holds(x, rho) || Holds(y, rho) <==> Holds(chunk[i], rho) || Holds(chunk[j], rho))
    ensures AnyHold(chunk[i := x][j := y], rho) <==> AnyHold(chunk, rho)
  {
    var r := chunk[i := x][j := y];
    if AnyHold(chunk, rho) {
      var k :| 0 <= k < |chunk| && Holds(chunk[k], rho);
      if k != i && k != j { assert Holds(r[k], rho); } else { assert Holds(r[i], rho) || Holds(r[j], rho); }
    }
    if AnyHold(r, rho) {
      var k :| 0 <= k < |r| && Holds(r[k], rho);
      if k != i && k != j { assert Holds(chunk[k], rho); } else { assert Holds(chunk[i], rho) || Holds(chunk[j], rho); }
    }
  }

  lemma {:induction false} WithinHolds(o: Rewriter, chunk: Chunk, i: nat, j: nat, rho: Valuation)
    requires i < j && Sound(o, rho)
    ensures AnyHold(WithinFrom(o, chunk, i, j), rho) <==> AnyHold(chunk, rho)
    decreases |chunk| - i, |chunk| - j
  {
    if i >= |chunk| {
    } else if j >= |chunk| {
      WithinHolds(o, chunk, i + 1, i + 2, rho);
    } else {
      TrySimplifyHolds(o, True, chunk[i], chunk[j], rho);
      var (x, y) := TrySimplifyOr(o, True, chunk[i], chunk[j]);
      PairInChunk(chunk, i, j, x, y, rho);
      WithinHolds(o, WithinPair(o, chunk, i, j), i, j + 1, rho);
    }
  }

  // ----- across chunks -----

  /** The first position whose expression is not in the other chunk, or the size. */
  function FirstDistinct(chunk: Chunk, other: Chunk, from: nat): (p: nat)
    requires from <= |chunk|
    ensures from <= p <= |chunk| && (p < |chunk| ==> chunk[p] !in other)
    ensures forall k :: from <= k < p ==> chunk[k] in other
    decreases |chunk| - from
  {
    if from == |chunk| || chunk[from] !in other then from else FirstDistinct(chunk, other, from + 1)
  }

  /** How many expressions are in the other chunk, repetitions counted. */
  function Shared(chunk: Chunk, other: Chunk): nat {
    if chunk == [] then 0 else Shared(chunk[..|chunk| - 1], other) + if chunk[|chunk| - 1] in other then 1 else 0
  }

  /** The conjunction of the negations of all but position p. */
  function KnownFalse(o: Rewriter, chunk: Chunk, p: nat, n: nat): Cond
    requires n <= |chunk|
  {
    if n == 0 then True
    else if n - 1 == p then KnownFalse(o, chunk, p, n - 1)
    else AndFold(KnownFalse(o, chunk, p, n - 1), o.simplify(Not(chunk[n - 1])))
  }

  predicate OneDiffers(i: Chunk, j: Chunk) {
    |i| == |j| && Shared(j, i) + 1 == |i|
  }

  /** The new chunks for a pair. */
  function AcrossPair(o: Rewriter, i: Chunk, j: Chunk): (Chunk, Chunk) {
    if |i| == 1 && |j| == 1 then
      var (x, y) := TrySimplifyAnd(o, True, i[0], j[0]);
      ([x], [y])
    else
      var p, q := FirstDistinct(i, j, 0), FirstDistinct(j, i, 0);
      if p == |i| then (i, [True])
      else if q == |j| then ([True], j)
      else if OneDiffers(i, j) then
        var (x, y) := TrySimplifyAnd(o, KnownFalse(o, i, p, |i|), i[p], j[q]);
        (i[p := x], j[q := y])
      else (i, j)
  }

  ghost predicate NoRepeats(chunk: Chunk) {
    forall i, j :: 0 <= i < j < |chunk| ==> chunk[i] != chunk[j]
  }

  /** The expressions besides position p. */
  function Rest(chunk: Chunk, p: nat): set<Cond>
    requires p < |chunk|
  {
    set k | 0 <= k < |chunk| && k != p :: chunk[k]
  }

  /** The step that replaces one expression of each chunk is taken. */
  predicate OneDifferenceStep(i: Chunk, j: Chunk) {
    !(|i| == 1 && |j| == 1) && FirstDistinct(i, j, 0) < |i| && FirstDistinct(j, i, 0) < |j| && OneDiffers(i, j)
  }

  /** The pair shares everything but one expression each, or takes another branch. */
  predicate CleanPair(i: Chunk, j: Chunk) {
    OneDifferenceStep(i, j) ==> Rest(i, FirstDistinct(i, j, 0)) == Rest(j, FirstDistinct(j, i, 0))
  }

  lemma {:induction false} SharedBound(chunk: Chunk, other: Chunk, a: nat, b: nat)
    requires a < |chunk| && b < |chunk| && a != b && chunk[a] !in other && chunk[b] !in other
    ensures Shared(chunk, other) + 2 <= |chunk|
  {
    var k := |chunk| - 1;
    if a < k && b < k {
      SharedBound(chunk[..k], other, a, b);
    } else if a < k {
      SharedLess(chunk[..k], other, a);
    } else {
      SharedLess(chunk[..k], other, b);
    }
  }

  lemma {:induction false} SharedLess(chunk: Chunk, other: Chunk, a: nat)
    requires a < |chunk| && chunk[a] !in other
    ensures Shared(chunk, other) + 1 <= |chunk|
  {
    var k := |chunk| - 1;
    if a < k { SharedLess(chunk[..k], other, a); } else { SharedAtMost(chunk[..k], other); }
  }

  lemma {:induction false} SharedAtMost(chunk: Chunk, other: Chunk)
    ensures Shared(chunk, other) <= |chunk|
  {
    if chunk != [] { SharedAtMost(chunk[..|chunk| - 1], other); }
  }

  /** Chunks without repetitions are clean. */
  lemma DistinctIsClean(i: Chunk, j: Chunk)
    requires NoRepeats(i) && NoRepeats(j)
    ensures CleanPair(i, j)
  {
    var p, q := FirstDistinct(i, j, 0), FirstDistinct(j, i, 0);
    if p < |i| && q < |j| && OneDiffers(i, j) {
      forall k | 0 <= k < |j| && k != q ensures j[k] in i {
        if j[k] !in i { SharedBound(j, i, k, q); }
      }
      var a, b := Rest(i, p), Rest(j, q);
      forall c | c in b ensures c in a {
        var k :| 0 <= k < |j| && k != q && j[k] == c;
        var m :| 0 <= m < |i| && i[m] == j[k];
      }
      RestSize(i, p);
      RestSize(j, q);
      SubsetSame(b, a);
    }
  }

  lemma SubsetSame(small: set<Cond>, big: set<Cond>)
    requires small <= big && |small| == |big|
    ensures small == big
  {
    assert |big - small| == |big| - |small|;
  }

  lemma {:induction false} DistinctSize(chunk: Chunk)
    requires NoRepeats(chunk)
    ensures |(set k | 0 <= k < |chunk| :: chunk[k])| == |chunk|
  {
    if chunk != [] {
      var k := |chunk| - 1;
      DistinctSize(chunk[..k]);
      var small, all := set m | 0 <= m < k :: chunk[..k][m], set m | 0 <= m < |chunk| :: chunk[m];
      assert all == small + {chunk[k]};
      assert chunk[k] !in small;
    }
  }

  lemma RestSize(chunk: Chunk, p: nat)
    requires NoRepeats(chunk) && p < |chunk|
    ensures |Rest(chunk, p)| == |chunk| - 1
  {
    DistinctSize(chunk);
    var all := set k | 0 <= k < |chunk| :: chunk[k];
    assert chunk[p] in all;
    assert all == Rest(chunk, p) + {chunk[p]};
    assert chunk[p] !in Rest(chunk, p);
  }

  lemma {:induction false} KnownFalseHolds(o: Rewriter, chunk: Chunk, p: nat, n: nat, rho: Valuation)
    requires n <= |chunk| && Sound(o, rho)
    ensures Holds(KnownFalse(o, chunk, p, n), rho) <==> forall k :: 0 <= k < n && k != p ==> !Holds(chunk[k], rho)
  {
    if n > 0 {
      KnownFalseHolds(o, chunk, p, n - 1, rho);
      FoldHolds(KnownFalse(o, chunk, p, n - 1), o.simplify(Not(chunk[n - 1])), rho);
      assert Holds(Not(chunk[n - 1]), rho) == !Holds(chunk[n - 1], rho);
    }
  }

  /** Some expression besides position p holds. */
  ghost predicate RestHolds(chunk: Chunk, p: nat, rho: Valuation)
    requires p < |chunk|
  {
    exists c :: c in Rest(chunk, p) && Holds(c, rho)
  }

  lemma RestMeans(chunk: Chunk, p: nat, x: Cond, rho: Valuation)
    requires p < |chunk|
    ensures AnyHold(chunk[p := x], rho) <==> Holds(x, rho) || RestHolds(chunk, p, rho)
    ensures AnyHold(chunk, rho) <==> Holds(chunk[p], rho) || RestHolds(chunk, p, rho)
    ensures RestHolds(chunk, p, rho) <==> exists k :: 0 <= k < |chunk| && k != p && Holds(chunk[k], rho)
  {
    var r := chunk[p := x];
    if AnyHold(r, rho) {
      var k :| 0 <= k < |r| && Holds(r[k], rho);
      if k != p { assert chunk[k] in Rest(chunk, p); }
    }
    if AnyHold(chunk, rho) {
      var k :| 0 <= k < |chunk| && Holds(chunk[k], rho);
      if k != p { assert chunk[k] in Rest(chunk, p); }
    }
    if RestHolds(chunk, p, rho) {
      var c :| c in Rest(chunk, p) && Holds(c, rho);
      var k :| 0 <= k < |chunk| && k != p && chunk[k] == c;
      assert r[k] == c;
    }
    if Holds(x, rho) { assert r[p] == x; }
  }

  lemma Subsumed(i: Chunk, j: Chunk, rho: Valuation)
    requires forall k :: 0 <= k < |i| ==> i[k] in j
    ensures AnyHold(i, rho) ==> AnyHold(j, rho)
  {
    if AnyHold(i, rho) {
      var k :| 0 <= k < |i| && Holds(i[k], rho);
      var m :| 0 <= m < |j| && j[m] == i[k];
    }
  }

  /** The rests agree at rho, or only the first is false and both differing expressions hold. */
  ghost predicate StepRight(i: Chunk, j: Chunk, rho: Valuation) {
    OneDifferenceStep(i, j) ==>
      var p, q := FirstDistinct(i, j, 0), FirstDistinct(j, i, 0);
      || (RestHolds(i, p, rho) <==> RestHolds(j, q, rho))
      || (!RestHolds(i, p, rho) && Holds(i[p], rho) && Holds(j[q], rho))
  }

  lemma CleanIsRight(i: Chunk, j: Chunk, rho: Valuation)
    requires CleanPair(i, j)
    ensures StepRight(i, j, rho)
  {
  }

  /** The pair's new chunks have the conjunction of the old ones. */
  ghost predicate PairKept(o: Rewriter, i: Chunk, j: Chunk, rho: Valuation) {
    var (x, y) := AcrossPair(o, i, j);
    AnyHold(x, rho) && AnyHold(y, rho) <==> AnyHold(i, rho) && AnyHold(j, rho)
  }

  /** Absorption and single expressions always keep the conjunction. */
  lemma OtherStepsKeep(o: Rewriter, i: Chunk, j: Chunk, rho: Valuation)
    requires Sound(o, rho) && !OneDifferenceStep(i, j)
    ensures PairKept(o, i, j, rho)
  {
    var p, q := FirstDistinct(i, j, 0), FirstDistinct(j, i, 0);
    AnySingle(True, rho);
    if |i| == 1 && |j| == 1 {
      TrySimplifyHolds(o, True, i[0], j[0], rho);
      var (x, y) := TrySimplifyAnd(o, True, i[0], j[0]);
      AnySingle(x, rho);
      AnySingle(y, rho);
      assert i == [i[0]] && j == [j[0]];
      AnySingle(i[0], rho);
      AnySingle(j[0], rho);
    } else if p == |i| {
      Subsumed(i, j, rho);
    } else if q == |j| {
      Subsumed(j, i, rho);
    }
  }

  /** One pair of chunks keeps its conjunction where the step is right. */
  lemma AcrossPairHolds(o: Rewriter, i: Chunk, j: Chunk, rho: Valuation)
    requires Sound(o, rho) && StepRight(i, j, rho)
    ensures PairKept(o, i, j, rho)
  {
    if OneDifferenceStep(i, j) {
      var p, q := FirstDistinct(i, j, 0), FirstDistinct(j, i, 0);
      var known := KnownFalse(o, i, p, |i|);
      var (x, y) := TrySimplifyAnd(o, known, i[p], j[q]);
      RestMeans(i, p, x, rho);
      RestMeans(j, q, y, rho);
      KnownFalseHolds(o, i, p, |i|, rho);
      if !RestHolds(i, p, rho) { TrySimplifyHolds(o, known, i[p], j[q], rho); }
    } else {
      OtherStepsKeep(o, i, j, rho);
    }
  }

  /** A conjunction with the given truths that is not c. */
  function Choice(first: bool, second: bool, c: Cond): (r: Cond)
    ensures r != c && r.And? && r.p == Lit(first) && forall rho: Valuation :: Holds(r.q, rho) <==> second
  {
    var r := And(Lit(first), Lit(second));
    if c == r then And(Lit(first), And(Lit(second), Lit(second))) else r
  }

  /**
   Sound at rho: rewrites what does not hold, or is asked under a false context, to a conjunction of its own choice.
   */
  function Adversary(rho: Valuation, first: bool, second: bool): Rewriter {
    Rewriter((known, c) => if Holds(known, rho) && Holds(c, rho) then c else Choice(first, second, c),
             c => c)
  }

  lemma AdversarySound(rho: Valuation, first: bool, second: bool)
    requires !(first && second)
    ensures Sound(Adversary(rho, first, second), rho)
  {
    forall known, c | Holds(known, rho) ensures Holds(Adversary(rho, first, second).rewrite(known, c), rho) ==
      Holds(c, rho) {
      assert !Holds(Choice(first, second, c), rho);
    }
  }

  lemma AdversaryBreaks(i: Chunk, j: Chunk, rho: Valuation) returns (o: Rewriter)
    requires !StepRight(i, j, rho)
    ensures Sound(o, rho) && !PairKept(o, i, j, rho)
  {
    var p, q := FirstDistinct(i, j, 0), FirstDistinct(j, i, 0);
    var first, second := !RestHolds(i, p, rho) && !Holds(i[p], rho), RestHolds(i, p, rho) && !Holds(j[q], rho);
    o := Adversary(rho, first, second);
    AdversarySound(rho, first, second);
    var known := KnownFalse(o, i, p, |i|);
    KnownFalseHolds(o, i, p, |i|, rho);
    var (x, y) := TrySimplifyAnd(o, known, i[p], j[q]);
    FoldHolds(i[p], j[q], rho);
    RestMeans(i, p, x, rho);
    RestMeans(j, q, y, rho);
    assert !(Holds(known, rho) && Holds(AndFold(i[p], j[q]), rho));
    assert o.rewrite(known, AndFold(i[p], j[q])) == Choice(first, second, AndFold(i[p], j[q]));
    assert x == Lit(first) && Holds(y, rho) == second;
  }

  /** Every rewriter that is sound at rho keeps the pair at rho exactly where the step is right. */
  lemma StepExact(i: Chunk, j: Chunk, rho: Valuation)
    ensures (forall o :: Sound(o, rho) ==> PairKept(o, i, j, rho)) <==> StepRight(i, j, rho)
  {
    if StepRight(i, j, rho) {
      forall o | Sound(o, rho) ensures PairKept(o, i, j, rho) { AcrossPairHolds(o, i, j, rho); }
    } else {
      var o := AdversaryBreaks(i, j, rho);
    }
  }

  // ----- all pairs -----

  function AcrossAt(o: Rewriter, chunks: seq<Chunk>, i: nat, j: nat): (r: seq<Chunk>)
    requires i < j < |chunks|
    ensures |r| == |chunks|
  {
    var (x, y) := AcrossPair(o, chunks[i], chunks[j]);
    chunks[i := x][j := y]
  }

  function AcrossFrom(o: Rewriter, chunks: seq<Chunk>, i: nat, j: nat): (r: seq<Chunk>)
    requires i < j
    ensures |r| == |chunks|
    decreases |chunks| - i, |chunks| - j
  {
    if i >= |chunks| then chunks
    else if j >= |chunks| then AcrossFrom(o, chunks, i + 1, i + 2)
    else AcrossFrom(o, AcrossAt(o, chunks, i, j), i, j + 1)
  }

  /** Every step taken on the way is right at rho. */
  ghost predicate RightFrom(o: Rewriter, chunks: seq<Chunk>, i: nat, j: nat, rho: Valuation)
    requires i < j
    decreases |chunks| - i, |chunks| - j
  {
    if i >= |chunks| then true
    else if j >= |chunks| then RightFrom(o, chunks, i + 1, i + 2, rho)
    else StepRight(chunks[i], chunks[j], rho) && RightFrom(o, AcrossAt(o, chunks, i, j), i, j + 1, rho)
  }

  lemma PairOfChunks(chunks: seq<Chunk>, i: nat, j: nat, x: Chunk, y: Chunk, rho: Valuation)
    requires i < j < |chunks|
    requires (AnyHold(x, rho) && AnyHold(y, rho) <==> AnyHold(chunks[i], rho) && AnyHold(chunks[j], rho))
    ensures ChunksHold(chunks[i := x][j := y], rho) <==> ChunksHold(chunks, rho)
  {
    var r := chunks[i := x][j := y];
    if ChunksHold(chunks, rho) {
      forall k | 0 <= k < |r|
        ensures AnyHold(r[k], rho)
      {
        assert AnyHold(chunks[i], rho) && AnyHold(chunks[j], rho) && AnyHold(chunks[k], rho);
      }
    }
    if ChunksHold(r, rho) {
      forall k | 0 <= k < |chunks|
        ensures AnyHold(chunks[k], rho)
      {
        assert AnyHold(r[i], rho) && AnyHold(r[j], rho) && AnyHold(r[k], rho);
      }
    }
  }

  lemma {:induction false} AcrossHolds(o: Rewriter, chunks: seq<Chunk>, i: nat, j: nat, rho: Valuation)
    requires i < j && Sound(o, rho) && RightFrom(o, chunks, i, j, rho)
    ensures ChunksHold(AcrossFrom(o, chunks, i, j), rho) <==> ChunksHold(chunks, rho)
    decreases |chunks| - i, |chunks| - j
  {
    if i >= |chunks| {
    } else if j >= |chunks| {
      AcrossHolds(o, chunks, i + 1, i + 2, rho);
    } else {
      AcrossPairHolds(o, chunks[i], chunks[j], rho);
      var (x, y) := AcrossPair(o, chunks[i], chunks[j]);
      PairOfChunks(chunks, i, j, x, y, rho);
      AcrossHolds(o, AcrossAt(o, chunks, i, j), i, j + 1, rho);
    }
  }

  // ----- wide chunks -----

  /** How many chunks have more than two expressions. */
  function Wide(chunks: seq<Chunk>): nat {
    if chunks == [] then 0 else Wide(chunks[..|chunks| - 1]) + if |chunks[|chunks| - 1]| > 2 then 1 else 0
  }

  lemma {:induction false} WideMonotone(a: seq<Chunk>, b: seq<Chunk>)
    requires |a| == |b| && forall i :: 0 <= i < |a| && |b[i]| > 2 ==> |a[i]| > 2
    ensures Wide(b) <= Wide(a)
  {
    if a != [] { WideMonotone(a[..|a| - 1], b[..|b| - 1]); }
  }

  lemma {:induction false} WideAt(chunks: seq<Chunk>, i: nat)
    requires i < |chunks| && |chunks[i]| > 2
    ensures Wide(chunks) >= 1
  {
    var k := |chunks| - 1;
    if i < k { WideAt(chunks[..k], i); }
  }

  lemma {:induction false} WideTwice(chunks: seq<Chunk>, i: nat, j: nat)
    requires i < j < |chunks| && |chunks[i]| > 2 && |chunks[j]| > 2
    ensures Wide(chunks) >= 2
  {
    var k := |chunks| - 1;
    if j < k { WideTwice(chunks[..k], i, j); } else { WideAt(chunks[..k], i); }
  }

  /** A pair with a narrow chunk is clean. */
  lemma NarrowIsClean(i: Chunk, j: Chunk)
    requires |i| <= 2 || |j| <= 2
    ensures CleanPair(i, j)
  {
    if OneDifferenceStep(i, j) {
      var p, q := FirstDistinct(i, j, 0), FirstDistinct(j, i, 0);
      assert |i| == 2 && |j| == 2;
      var c := j[1 - q];
      assert c in i by { if c !in i { SharedBound(j, i, q, 1 - q); } }
      assert c == i[1 - p];
      assert Rest(i, p) == {c} && Rest(j, q) == {c};
    }
  }

  lemma AcrossWide(o: Rewriter, chunks: seq<Chunk>, i: nat, j: nat)
    requires i < j < |chunks|
    ensures Wide(AcrossAt(o, chunks, i, j)) <= Wide(chunks)
  {
    WideMonotone(chunks, AcrossAt(o, chunks, i, j));
  }

  /** With at most one wide chunk every step is right. */
  lemma {:induction false} NarrowIsRight(o: Rewriter, chunks: seq<Chunk>, i: nat, j: nat, rho: Valuation)
    requires i < j && Wide(chunks) <= 1
    ensures RightFrom(o, chunks, i, j, rho)
    decreases |chunks| - i, |chunks| - j
  {
    if i >= |chunks| {
    } else if j >= |chunks| {
      NarrowIsRight(o, chunks, i + 1, i + 2, rho);
    } else {
      if |chunks[i]| > 2 && |chunks[j]| > 2 { WideTwice(chunks, i, j); }
      NarrowIsClean(chunks[i], chunks[j]);
      CleanIsRight(chunks[i], chunks[j], rho);
      AcrossWide(o, chunks, i, j);
      NarrowIsRight(o, AcrossAt(o, chunks, i, j), i, j + 1, rho);
    }
  }

  // ----- removing true and false -----

  function WithoutFalse(chunk: Chunk): Chunk {
    if chunk == [] then [] else WithoutFalse(chunk[..|chunk| - 1]) + if chunk[|chunk| - 1] == False then []
      else [chunk[|chunk| - 1]]
  }

  function CleanChunk(chunk: Chunk): Chunk {
    if True in chunk then [True] else WithoutFalse(chunk)
  }

  function WithoutTrue(chunks: seq<Chunk>): seq<Chunk> {
    if chunks == [] then [] else WithoutTrue(chunks[..|chunks| - 1]) + if chunks[|chunks| - 1] == [True] then []
      else [chunks[|chunks| - 1]]
  }

  function CleanChunks(chunks: seq<Chunk>): (r: seq<Chunk>)
    ensures |r| == |chunks| && forall i :: 0 <= i < |chunks| ==> r[i] == CleanChunk(chunks[i])
  {
    seq(|chunks|, i requires 0 <= i < |chunks| => CleanChunk(chunks[i]))
  }

  function RemoveTrueFalse(chunks: seq<Chunk>): seq<Chunk> {
    var cleaned := CleanChunks(chunks);
    if [] in cleaned then [[]] else WithoutTrue(cleaned)
  }

  lemma {:induction false} WithoutFalseHolds(chunk: Chunk, rho: Valuation)
    ensures AnyHold(WithoutFalse(chunk), rho) <==> AnyHold(chunk, rho)
  {
    if chunk != [] {
      var k := |chunk| - 1;
      WithoutFalseHolds(chunk[..k], rho);
      AnyAppend(WithoutFalse(chunk[..k]), if chunk[k] == False then [] else [chunk[k]], rho);
      assert chunk == chunk[..k] + [chunk[k]];
      AnyAppend(chunk[..k], [chunk[k]], rho);
      AnySingle(chunk[k], rho);
    }
  }

  lemma CleanChunkHolds(chunk: Chunk, rho: Valuation)
    ensures AnyHold(CleanChunk(chunk), rho) <==> AnyHold(chunk, rho)
  {
    WithoutFalseHolds(chunk, rho);
    if True in chunk {
      AnySingle(True, rho);
      var k :| 0 <= k < |chunk| && chunk[k] == True;
      assert Holds(chunk[k], rho);
    }
  }

  lemma {:induction false} WithoutTrueHolds(chunks: seq<Chunk>, rho: Valuation)
    ensures ChunksHold(WithoutTrue(chunks), rho) <==> ChunksHold(chunks, rho)
  {
    if chunks != [] {
      var k := |chunks| - 1;
      WithoutTrueHolds(chunks[..k], rho);
      AnySingle(True, rho);
      ChunksAppend(WithoutTrue(chunks[..k]), if chunks[k] == [True] then [] else [chunks[k]], rho);
      assert chunks == chunks[..k] + [chunks[k]];
      ChunksAppend(chunks[..k], [chunks[k]], rho);
      ChunksSingle(chunks[k], rho);
    }
  }

  lemma ChunksAppend(a: seq<Chunk>, b: seq<Chunk>, rho: Valuation)
    ensures ChunksHold(a + b, rho) <==> ChunksHold(a, rho) && ChunksHold(b, rho)
  {
    if ChunksHold(a + b, rho) {
      forall k | 0 <= k < |a| ensures AnyHold(a[k], rho) { assert (a + b)[k] == a[k]; }
      forall k | 0 <= k < |b| ensures AnyHold(b[k], rho) { assert (a + b)[|a| + k] == b[k]; }
    }
  }

  lemma ChunksSingle(c: Chunk, rho: Valuation)
    ensures ChunksHold([c], rho) <==> AnyHold(c, rho)
  {
    assert [c][0] == c;
  }

  /** Removing true and false keeps the conjunction; an empty chunk is false. */
  lemma RemoveTrueFalseHolds(chunks: seq<Chunk>, rho: Valuation)
    ensures ChunksHold(RemoveTrueFalse(chunks), rho) <==> ChunksHold(chunks, rho)
  {
    var cleaned := CleanChunks(chunks);
    forall i | 0 <= i < |chunks|
      ensures AnyHold(cleaned[i], rho) <==> AnyHold(chunks[i], rho)
    {
      CleanChunkHolds(chunks[i], rho);
    }
    assert ChunksHold(cleaned, rho) <==> ChunksHold(chunks, rho);
    if [] in cleaned {
      var k :| 0 <= k < |cleaned| && cleaned[k] == [];
      assert !AnyHold(cleaned[k], rho);
      ChunksSingle([], rho);
    } else {
      WithoutTrueHolds(cleaned, rho);
    }
  }

  lemma {:induction false} WithoutFalseShorter(chunk: Chunk)
    ensures |WithoutFalse(chunk)| <= |chunk|
  {
    if chunk != [] { WithoutFalseShorter(chunk[..|chunk| - 1]); }
  }

  lemma {:induction false} WithoutTrueWide(chunks: seq<Chunk>)
    ensures Wide(WithoutTrue(chunks)) <= Wide(chunks)
  {
    if chunks != [] {
      var k := |chunks| - 1;
      WithoutTrueWide(chunks[..k]);
      var r := WithoutTrue(chunks[..k]);
      assert (r + [chunks[k]])[..|r|] == r && r + [] == r;
    }
  }

  lemma RemoveTrueFalseWide(chunks: seq<Chunk>)
    ensures Wide(RemoveTrueFalse(chunks)) <= Wide(chunks)
  {
    var cleaned := CleanChunks(chunks);
    forall i | 0 <= i < |chunks| ensures |cleaned[i]| > 2 ==> |chunks[i]| > 2 { WithoutFalseShorter(chunks[i]); }
    WideMonotone(chunks, cleaned);
    WithoutTrueWide(cleaned);
    var none: seq<Chunk> := [[]];
    assert Wide(none) == 0 by { assert none[..0] == []; }
  }

  // ----- back to a condition -----

  function ChunkCond(chunk: Chunk): Cond {
    if chunk == [] then False else OrFold(ChunkCond(chunk[..|chunk| - 1]), chunk[|chunk| - 1])
  }

  function AsCond(chunks: seq<Chunk>): Cond {
    if chunks == [] then True else AndFold(AsCond(chunks[..|chunks| - 1]), ChunkCond(chunks[|chunks| - 1]))
  }

  lemma {:induction false} ChunkCondHolds(chunk: Chunk, rho: Valuation)
    ensures Holds(ChunkCond(chunk), rho) <==> AnyHold(chunk, rho)
  {
    if chunk != [] {
      var k := |chunk| - 1;
      ChunkCondHolds(chunk[..k], rho);
      FoldHolds(ChunkCond(chunk[..k]), chunk[k], rho);
      assert chunk == chunk[..k] + [chunk[k]];
      AnyAppend(chunk[..k], [chunk[k]], rho);
      AnySingle(chunk[k], rho);
    }
  }

  lemma {:induction false} AsCondHolds(chunks: seq<Chunk>, rho: Valuation)
    ensures Holds(AsCond(chunks), rho) <==> ChunksHold(chunks, rho)
  {
    if chunks != [] {
      var k := |chunks| - 1;
      AsCondHolds(chunks[..k], rho);
      ChunkCondHolds(chunks[k], rho);
      FoldHolds(AsCond(chunks[..k]), ChunkCond(chunks[k]), rho);
      assert chunks == chunks[..k] + [chunks[k]];
      ChunksAppend(chunks[..k], [chunks[k]], rho);
      ChunksSingle(chunks[k], rho);
    }
  }
}
