/**
 The in-place passes of AndOfOrs (src/arith/conjunctive_normal_form.cc) over its
 chunks, and SimplifyAsAndOfOrs.
 */
module CnfSimplifier {
  import opened Exprs
  import opened Constraints
  import opened AndOfOrs

  // ----- construction -----

  predicate IsPermutation(a: Chunk, b: Chunk) {
    |a| == |b| && multiset(a) == multiset(b)
  }

  lemma PermutationHolds(a: Chunk, b: Chunk, rho: Valuation)
    requires IsPermutation(a, b)
    ensures AnyHold(a, rho) <==> AnyHold(b, rho)
  {
    forall k | 0 <= k < |a| ensures a[k] in b { assert a[k] in multiset(b); }
    forall k | 0 <= k < |b| ensures b[k] in a { assert b[k] in multiset(a); }
    Subsumed(a, b, rho);
    Subsumed(b, a, rho);
  }

  /** The elements without repetitions, in order of first occurrence. */
  function WithoutRepeats(parts: seq<Cond>): Chunk {
    if parts == [] then [] else
      var r, last := WithoutRepeats(parts[..|parts| - 1]), parts[|parts| - 1];
      if last in r then r else r + [last]
  }

  predicate HasPermutation(built: seq<Chunk>, components: Chunk) {
    exists k :: 0 <= k < |built| && IsPermutation(built[k], components)
  }

  /** A chunk for each conjunct that is no permutation of an earlier one. */
  function Collect(parts: seq<Cond>): seq<Chunk> {
    if parts == [] then [] else
      var r, components := Collect(parts[..|parts| - 1]), WithoutRepeats(OrParts(parts[|parts| - 1]));
      if HasPermutation(r, components) then r else r + [components]
  }

  /** The and-of-ors of a condition. */
  function ChunksOf(cond: Cond): seq<Chunk> {
    Collect(AndParts(cond))
  }

  lemma {:induction false} WithoutRepeatsSame(parts: seq<Cond>)
    ensures NoRepeats(WithoutRepeats(parts)) && forall c :: c in WithoutRepeats(parts) <==> c in parts
  {
    if parts != [] {
      var k := |parts| - 1;
      WithoutRepeatsSame(parts[..k]);
      assert parts == parts[..k] + [parts[k]];
    }
  }

  lemma {:induction false} CollectMeans(parts: seq<Cond>, rho: Valuation)
    ensures ChunksHold(Collect(parts), rho) <==> AllHold(parts, rho)
  {
    if parts != [] {
      var k := |parts| - 1;
      CollectMeans(parts[..k], rho);
      var before, components := Collect(parts[..k]), WithoutRepeats(OrParts(parts[k]));
      WithoutRepeatsSame(OrParts(parts[k]));
      ComponentsHold(parts[k], components, rho);
      assert parts == parts[..k] + [parts[k]];
      AllHoldAdd(parts[..k], parts[k], rho);
      ChunksAppend(before, [components], rho);
      ChunksSingle(components, rho);
      if HasPermutation(before, components) {
        var m :| 0 <= m < |before| && IsPermutation(before[m], components);
        PermutationHolds(before[m], components, rho);
      }
    }
  }

  lemma {:induction false} CollectShape(parts: seq<Cond>)
    ensures forall i :: 0 <= i < |Collect(parts)| ==> NoRepeats(Collect(parts)[i])
    ensures forall i, j :: 0 <= i < j < |Collect(parts)| ==> !IsPermutation(Collect(parts)[i], Collect(parts)[j])
  {
    if parts != [] {
      CollectShape(parts[..|parts| - 1]);
      WithoutRepeatsSame(OrParts(parts[|parts| - 1]));
    }
  }

  /** The chunks have the truth of the condition. */
  lemma ChunksOfHold(cond: Cond, rho: Valuation)
    ensures ChunksHold(ChunksOf(cond), rho) <==> Holds(cond, rho)
  {
    CollectMeans(AndParts(cond), rho);
    PartsHold(cond, rho);
  }

  class Formula {
    var chunks: seq<Chunk>

    /** Same truth as the condition, no repetition inside a chunk, no two chunks permutations of each other. */
    constructor (cond: Cond)
      ensures chunks == ChunksOf(cond)
      ensures forall rho: Valuation :: ChunksHold(chunks, rho) <==> Holds(cond, rho)
      ensures forall i :: 0 <= i < |chunks| ==> NoRepeats(chunks[i])
      ensures forall i, j :: 0 <= i < j < |chunks| ==> !IsPermutation(chunks[i], chunks[j])
    {
      var parts := AndParts(cond);
      var built: seq<Chunk> := [];
      for i := 0 to |parts|
        invariant built == Collect(parts[..i])
      {
        var components := Components(OrParts(parts[i]));
        var found := FindPermutation(built, components);
        assert parts[..i + 1][..i] == parts[..i];
        if !found { built := built + [components]; }
      }
      chunks := built;
      assert parts[..|parts|] == parts;
      CollectShape(parts);
      forall rho: Valuation ensures ChunksHold(built, rho) <==> Holds(cond, rho) { ChunksOfHold(cond, rho); }
    }

    method SimplifyWithinChunks(o: Rewriter)
      modifies this
      ensures chunks == WithinAll(o, old(chunks))
      ensures forall rho: Valuation :: Sound(o, rho) ==> (ChunksHold(chunks, rho) <==> ChunksHold(old(chunks), rho))
    {
      ghost var before := chunks;
      for c := 0 to |chunks|
        invariant |chunks| == |before|
        invariant forall i :: 0 <= i < c ==> chunks[i] == WithinFrom(o, before[i], 0, 1)
        invariant forall i :: c <= i < |chunks| ==> chunks[i] == before[i]
      {
        var chunk := chunks[c];
        for i := 0 to |chunk|
          invariant |chunk| == |before[c]| && WithinFrom(o, chunk, i, i + 1) == WithinFrom(o, before[c], 0, 1)
        {
          for j := i + 1 to |chunk|
            invariant |chunk| == |before[c]| && WithinFrom(o, chunk, i, j) == WithinFrom(o, before[c], 0, 1)
          {
            var (x, y) := TrySimplifyOr(o, True, chunk[i], chunk[j]);
            chunk := chunk[i := x][j := y];
          }
        }
        chunks := chunks[c := chunk];
      }
      forall rho: Valuation | Sound(o, rho)
        ensures ChunksHold(chunks, rho) <==> ChunksHold(before, rho)
      {
        WithinAllHolds(o, before, rho);
      }
    }

    /** Equivalent where every step taken is right, and everywhere when at most one chunk is wide. */
    method SimplifyAcrossChunks(o: Rewriter)
      modifies this
      ensures chunks == AcrossFrom(o, old(chunks), 0, 1)
      ensures forall rho: Valuation ::
        Sound(o, rho) && (RightFrom(o, old(chunks), 0, 1, rho) || Wide(old(chunks)) <= 1) ==>
        (ChunksHold(chunks, rho) <==> ChunksHold(old(chunks), rho))
    {
      ghost var before := chunks;
      for i := 0 to |chunks|
        invariant |chunks| == |before| && AcrossFrom(o, chunks, i, i + 1) == AcrossFrom(o, before, 0, 1)
      {
        for j := i + 1 to |chunks|
          invariant |chunks| == |before| && AcrossFrom(o, chunks, i, j) == AcrossFrom(o, before, 0, 1)
        {
          var (x, y) := AcrossPair(o, chunks[i], chunks[j]);
          chunks := chunks[i := x][j := y];
        }
      }
      forall rho: Valuation | Sound(o, rho) && (RightFrom(o, before, 0, 1, rho) || Wide(before) <= 1)
        ensures ChunksHold(chunks, rho) <==> ChunksHold(before, rho)
      {
        if Wide(before) <= 1 { NarrowIsRight(o, before, 0, 1, rho); }
        AcrossHolds(o, before, 0, 1, rho);
      }
    }

    method RemoveLiterals()
      modifies this
      ensures chunks == RemoveTrueFalse(old(chunks))
      ensures forall rho: Valuation :: ChunksHold(chunks, rho) <==> ChunksHold(old(chunks), rho)
    {
      ghost var before := chunks;
      CleanAll();
      chunks := if [] in chunks then [[]] else WithoutTrue(chunks);
      forall rho: Valuation
        ensures ChunksHold(chunks, rho) <==> ChunksHold(before, rho)
      {
        RemoveTrueFalseHolds(before, rho);
      }
    }

    /** Literals inside each chunk. */
    method CleanAll()
      modifies this
      ensures chunks == CleanChunks(old(chunks))
    {
      ghost var before := chunks;
      for i := 0 to |chunks|
        invariant |chunks| == |before| && (forall k :: 0 <= k < i ==> chunks[k] == CleanChunk(before[k]))
        invariant forall k :: i <= k < |chunks| ==> chunks[k] == before[k]
      {
        chunks := chunks[i := CleanChunk(chunks[i])];
      }
      assert chunks == CleanChunks(before);
    }
  }

  method Components(parts: seq<Cond>) returns (r: Chunk)
    ensures r == WithoutRepeats(parts)
  {
    r := [];
    for i := 0 to |parts|
      invariant r == WithoutRepeats(parts[..i])
    {
      assert parts[..i + 1][..i] == parts[..i];
      if parts[i] !in r { r := r + [parts[i]]; }
    }
    assert parts[..|parts|] == parts;
  }

  method FindPermutation(built: seq<Chunk>, components: Chunk) returns (found: bool)
    ensures found <==> HasPermutation(built, components)
  {
    for k := 0 to |built|
      invariant forall m :: 0 <= m < k ==> !IsPermutation(built[m], components)
    {
      if IsPermutation(built[k], components) { return true; }
    }
    return false;
  }

  lemma ComponentsHold(c: Cond, components: Chunk, rho: Valuation)
    requires forall d :: d in components <==> d in OrParts(c)
    ensures AnyHold(components, rho) <==> Holds(c, rho)
  {
    PartsHold(c, rho);
    Subsumed(components, OrParts(c), rho);
    Subsumed(OrParts(c), components, rho);
  }

  // ----- the whole run -----

  function WithinAll(o: Rewriter, chunks: seq<Chunk>): (r: seq<Chunk>)
    ensures |r| == |chunks| && forall i :: 0 <= i < |chunks| ==> r[i] == WithinFrom(o, chunks[i], 0, 1)
  {
    seq(|chunks|, i requires 0 <= i < |chunks| => WithinFrom(o, chunks[i], 0, 1))
  }

  lemma WithinAllHolds(o: Rewriter, chunks: seq<Chunk>, rho: Valuation)
    requires Sound(o, rho)
    ensures ChunksHold(WithinAll(o, chunks), rho) <==> ChunksHold(chunks, rho)
  {
    var r := WithinAll(o, chunks);
    forall i | 0 <= i < |chunks|
      ensures AnyHold(r[i], rho) <==> AnyHold(chunks[i], rho)
    {
      WithinHolds(o, chunks[i], 0, 1, rho);
    }
  }

  /** The chunks that the across-chunk pass starts from. */
  function BeforeAcross(o: Rewriter, cond: Cond): seq<Chunk> {
    RemoveTrueFalse(WithinAll(o, ChunksOf(o.simplify(cond))))
  }

  function Simplified(o: Rewriter, cond: Cond): Cond {
    AsCond(RemoveTrueFalse(AcrossFrom(o, BeforeAcross(o, cond), 0, 1)))
  }

  lemma BeforeAcrossHolds(o: Rewriter, cond: Cond, rho: Valuation)
    requires Sound(o, rho)
    ensures ChunksHold(BeforeAcross(o, cond), rho) <==> Holds(cond, rho)
  {
    var chunks := ChunksOf(o.simplify(cond));
    ChunksOfHold(o.simplify(cond), rho);
    WithinAllHolds(o, chunks, rho);
    RemoveTrueFalseHolds(WithinAll(o, chunks), rho);
  }

  /** The result has the truth of the condition where every step taken is right. */
  lemma SimplifiedHolds(o: Rewriter, cond: Cond, rho: Valuation)
    requires Sound(o, rho) && RightFrom(o, BeforeAcross(o, cond), 0, 1, rho)
    ensures Holds(Simplified(o, cond), rho) <==> Holds(cond, rho)
  {
    var before := BeforeAcross(o, cond);
    var after := AcrossFrom(o, before, 0, 1);
    BeforeAcrossHolds(o, cond, rho);
    AcrossHolds(o, before, 0, 1, rho);
    RemoveTrueFalseHolds(after, rho);
    AsCondHolds(RemoveTrueFalse(after), rho);
  }

  /** A condition with at most one conjunct of more than two disjuncts needs nothing else. */
  lemma NarrowSimplified(o: Rewriter, cond: Cond, rho: Valuation)
    requires Sound(o, rho) && Wide(ChunksOf(o.simplify(cond))) <= 1
    ensures Holds(Simplified(o, cond), rho) <==> Holds(cond, rho)
  {
    var chunks := ChunksOf(o.simplify(cond));
    WideMonotone(chunks, WithinAll(o, chunks));
    RemoveTrueFalseWide(WithinAll(o, chunks));
    NarrowIsRight(o, BeforeAcross(o, cond), 0, 1, rho);
    SimplifiedHolds(o, cond, rho);
  }

  /**
   The result has the truth of the condition wherever the rewriter is sound, if at most one conjunct is wide or the
   steps are right there.
   */
  method SimplifyAsAndOfOrs(o: Rewriter, cond: Cond) returns (r: Cond)
    ensures r == Simplified(o, cond)
    ensures forall rho: Valuation ::
      Sound(o, rho) && (Wide(ChunksOf(o.simplify(cond))) <= 1 || RightFrom(o, BeforeAcross(o, cond), 0, 1, rho)) ==>
      (Holds(r, rho) <==> Holds(cond, rho))
  {
    var formula := new Formula(o.simplify(cond));
    formula.SimplifyWithinChunks(o);
    formula.RemoveLiterals();
    formula.SimplifyAcrossChunks(o);
    formula.RemoveLiterals();
    r := AsCond(formula.chunks);
    forall rho: Valuation | Sound(o, rho) &&
      (Wide(ChunksOf(o.simplify(cond))) <= 1 || RightFrom(o, BeforeAcross(o, cond), 0, 1, rho))
      ensures Holds(r, rho) <==> Holds(cond, rho)
    {
      if Wide(ChunksOf(o.simplify(cond))) <= 1 { NarrowSimplified(o, cond, rho); } else {
        SimplifiedHolds(o, cond, rho);
      }
    }
  }

  // ----- two wide conjuncts -----

  function Atom(name: string): Cond {
    Cmp(EQ, Var(name), Const(0))
  }

  /** Some conjunct of `known` is the double negation of c. */
  predicate Implied(known: Cond, c: Cond) {
    match known
    case And(p, q) => Implied(p, c) || Implied(q, c)
    case Not(Not(d)) => d == c
    case _ => false
  }

  lemma {:induction false} ImpliedHolds(known: Cond, c: Cond, rho: Valuation)
    requires Implied(known, c) && Holds(known, rho)
    ensures Holds(c, rho)
  {
    match known
    case And(p, q) => if Implied(p, c) { ImpliedHolds(p, c, rho); } else { ImpliedHolds(q, c, rho); }
    case _ =>
  }

  /** Drops a conjunct that is known, and a double negation in a disjunction. */
  function Rewrite(known: Cond, c: Cond): Cond {
    match c
    case And(p, q) => if Implied(known, q) then p else c
    case Or(p, Not(Not(q))) => Or(p, q)
    case _ => c
  }

  const Plain: Rewriter := Rewriter(Rewrite, c => c)

  lemma PlainSound(rho: Valuation)
    ensures Sound(Plain, rho)
  {
    forall known, c | Holds(known, rho) ensures Holds(Rewrite(known, c), rho) == Holds(c, rho) {
      match c
      case And(p, q) => if Implied(known, q) { ImpliedHolds(known, q, rho); }
      case Or(p, Not(Not(q))) =>
        assert Holds(Not(Not(q)), rho) == Holds(q, rho);
      case _ =>
    }
  }

  /** (a or x or not z) and (a or not not a or z). */
  function TwoWide(a: Cond, x: Cond, z: Cond): Cond {
    And(Or(Or(a, x), Not(z)), Or(Or(a, Not(Not(a))), z))
  }

  /** Three different comparisons. */
  predicate Different(a: Cond, x: Cond, z: Cond) {
    a.Cmp? && x.Cmp? && z.Cmp? && a != x && a != z && x != z
  }

  lemma TwoWideParts(a: Cond, x: Cond, z: Cond)
    requires Different(a, x, z)
    ensures AndParts(TwoWide(a, x, z)) == [Or(Or(a, x), Not(z)), Or(Or(a, Not(Not(a))), z)]
    ensures OrParts(Or(Or(a, x), Not(z))) == [a, x, Not(z)] && OrParts(Or(Or(a, Not(Not(a))), z)) == [a, Not(Not(a)), z]
  {
    ThreeParts(a, x, Not(z));
    ThreeParts(a, Not(Not(a)), z);
  }

  lemma ThreeParts(a: Cond, b: Cond, c: Cond)
    requires (a.Cmp? || a.Not?) && (b.Cmp? || b.Not?) && (c.Cmp? || c.Not?)
    ensures AndParts(Or(Or(a, b), c)) == [Or(Or(a, b), c)] && OrParts(Or(Or(a, b), c)) == [a, b, c]
  {
    assert AndParts(a) == [a] && AndParts(b) == [b] && AndParts(c) == [c];
    SinglePair(a, b);
    assert AndParts(Or(a, b)) == [Or(a, b)];
    SinglePair(Or(a, b), c);
    assert OrParts(a) == [a] && OrParts(b) == [b] && OrParts(c) == [c];
    assert OrParts(Or(a, b)) == [a, b];
  }

  lemma SinglePair(c: Cond, d: Cond)
    requires !c.Lit? && !d.Lit?
    ensures Pairs([c], [d], OrFold) == [Or(c, d)]
  {
    assert [c][..0] == [];
  }

  lemma ThreeDistinct(a: Cond, b: Cond, c: Cond)
    requires a != b && a != c && b != c
    ensures WithoutRepeats([a, b, c]) == [a, b, c]
  {
    assert [a, b, c][..2] == [a, b] && [a, b][..1] == [a] && [a][..0] == [];
    assert WithoutRepeats([a]) == [a] && WithoutRepeats([a, b]) == [a, b];
  }

  lemma CollectTwo(parts: seq<Cond>, i: Chunk, j: Chunk)
    requires |parts| == 2 && WithoutRepeats(OrParts(parts[0])) == i && WithoutRepeats(OrParts(parts[1])) == j
    requires !IsPermutation(i, j)
    ensures Collect(parts) == [i, j]
  {
    var first := parts[..1];
    assert first[..0] == [];
    assert Collect(first[..0]) == [];
    assert Collect(first) == [i];
  }

  lemma NoPermutation(i: Chunk, j: Chunk, c: Cond)
    requires c in i && c !in j
    ensures !IsPermutation(i, j)
  {
    assert c in multiset(i) && c !in multiset(j);
  }

  lemma TwoWideChunks(a: Cond, x: Cond, z: Cond)
    requires Different(a, x, z)
    ensures ChunksOf(TwoWide(a, x, z)) == [[a, x, Not(z)], [a, Not(Not(a)), z]]
  {
    TwoWideParts(a, x, z);
    ThreeDistinct(a, x, Not(z));
    ThreeDistinct(a, Not(Not(a)), z);
    NoPermutation([a, x, Not(z)], [a, Not(Not(a)), z], x);
    CollectTwo(AndParts(TwoWide(a, x, z)), [a, x, Not(z)], [a, Not(Not(a)), z]);
  }

  lemma TwoWideWithin(a: Cond, x: Cond, z: Cond)
    requires Different(a, x, z)
    ensures WithinFrom(Plain, [a, x, Not(z)], 0, 1) == [a, x, Not(z)]
    ensures WithinFrom(Plain, [a, Not(Not(a)), z], 0, 1) == [a, a, z]
  {
    WithinThree([a, x, Not(z)]);
    WithinThree([a, Not(Not(a)), z]);
  }

  lemma WithinThree(chunk: Chunk)
    requires |chunk| == 3
    ensures WithinFrom(Plain, chunk, 0, 1) ==
      WithinPair(Plain, WithinPair(Plain, WithinPair(Plain, chunk, 0, 1), 0, 2), 1, 2)
  {
    var one := WithinPair(Plain, chunk, 0, 1);
    var two := WithinPair(Plain, one, 0, 2);
    var three := WithinPair(Plain, two, 1, 2);
    assert WithinFrom(Plain, three, 3, 4) == three;
    assert WithinFrom(Plain, three, 2, 3) == three;
    assert WithinFrom(Plain, three, 1, 3) == three;
    assert WithinFrom(Plain, two, 1, 2) == three;
    assert WithinFrom(Plain, two, 0, 3) == three;
    assert WithinFrom(Plain, one, 0, 2) == three;
  }

  lemma SharedTwice(a: Cond, z: Cond, i: Chunk)
    requires a in i && z !in i
    ensures Shared([a, a, z], i) == 2 && FirstDistinct([a, a, z], i, 0) == 2
  {
    var j := [a, a, z];
    assert j[..2] == [a, a] && [a, a][..1] == [a] && [a][..0] == [];
    assert Shared([a], i) == 1;
    assert Shared([a, a], i) == 2;
    assert FirstDistinct(j, i, 2) == 2 && FirstDistinct(j, i, 1) == 2;
  }

  lemma KnownOfThree(a: Cond, x: Cond, z: Cond)
    ensures KnownFalse(Plain, [a, x, z], 1, 3) == And(Not(a), Not(z))
  {
    var i := [a, x, z];
    assert KnownFalse(Plain, i, 1, 0) == True;
    assert KnownFalse(Plain, i, 1, 1) == Not(a);
    assert KnownFalse(Plain, i, 1, 2) == Not(a);
  }

  /** The repeated expression counts twice as shared, so the step replaces expressions of chunks that differ in two. */
  lemma RepetitionStep(a: Cond, x: Cond, z: Cond)
    requires Different(a, x, z)
    ensures AcrossPair(Plain, [a, x, Not(z)], [a, a, z]) == ([a, True, Not(z)], [a, a, x])
  {
    var i, j := [a, x, Not(z)], [a, a, z];
    assert i[0] == a && j[0] == a;
    assert z !in i;
    SharedTwice(a, z, i);
    assert FirstDistinct(i, j, 1) == 1;
    assert FirstDistinct(i, j, 0) == 1;
    KnownOfThree(a, x, Not(z));
    assert Implied(And(Not(a), Not(Not(z))), z);
    assert TrySimplifyAnd(Plain, And(Not(a), Not(Not(z))), x, z) == (True, x);
    assert i[1 := True] == [a, True, Not(z)] && j[2 := x] == [a, a, x];
  }

  lemma {:induction false} NoLiterals(chunk: Chunk)
    requires True !in chunk && False !in chunk
    ensures CleanChunk(chunk) == chunk
  {
    if chunk != [] {
      var k := |chunk| - 1;
      assert chunk == chunk[..k] + [chunk[k]];
      NoLiterals(chunk[..k]);
    }
  }

  lemma KeepTwo(i: Chunk, j: Chunk)
    requires CleanChunk(i) == i && CleanChunk(j) == j && i != [] && j != [] && i != [True] && j != [True]
    ensures RemoveTrueFalse([i, j]) == [i, j]
  {
    assert CleanChunks([i, j]) == [i, j];
    assert [i, j][..1] == [i];
    var first := [i];
    assert first[..0] == [];
    assert WithoutTrue(first) == first;
  }

  lemma KeepSecond(i: Chunk, j: Chunk)
    requires True in i && CleanChunk(j) == j && j != [] && j != [True]
    ensures AsCond(RemoveTrueFalse([i, j])) == ChunkCond(j)
  {
    var first: Chunk := [True];
    assert CleanChunks([i, j]) == [first, j];
    assert [first, j][..1] == [first];
    var alone := [first];
    assert alone[..0] == [];
    assert WithoutTrue(alone) == [];
    var last := [j];
    assert last[..0] == [];
    assert RemoveTrueFalse([i, j]) == last;
  }

  lemma AcrossTwo(o: Rewriter, i: Chunk, j: Chunk, x: Chunk, y: Chunk)
    requires AcrossPair(o, i, j) == (x, y)
    ensures AcrossFrom(o, [i, j], 0, 1) == [x, y]
  {
    assert AcrossAt(o, [i, j], 0, 1) == [x, y];
    assert AcrossFrom(o, [x, y], 2, 3) == [x, y];
    assert AcrossFrom(o, [x, y], 1, 2) == [x, y];
    assert AcrossFrom(o, [x, y], 0, 2) == [x, y];
  }

  lemma TwoWideRun(a: Cond, x: Cond, z: Cond)
    requires Different(a, x, z)
    ensures Simplified(Plain, TwoWide(a, x, z)) == ChunkCond([a, a, x])
  {
    var i, j, k, l := [a, x, Not(z)], [a, a, z], [a, True, Not(z)], [a, a, x];
    assert BeforeAcross(Plain, TwoWide(a, x, z)) == [i, j] by { TwoWideBefore(a, x, z); }
    assert AcrossFrom(Plain, [i, j], 0, 1) == [k, l] by {
      RepetitionStep(a, x, z);
      AcrossTwo(Plain, i, j, k, l);
    }
    NoLiterals(l);
    assert True in k by { assert k[1] == True; }
    KeepSecond(k, l);
  }

  lemma TwoWideBefore(a: Cond, x: Cond, z: Cond)
    requires Different(a, x, z)
    ensures BeforeAcross(Plain, TwoWide(a, x, z)) == [[a, x, Not(z)], [a, a, z]]
  {
    var i, j := [a, x, Not(z)], [a, a, z];
    TwoWideChunks(a, x, z);
    TwoWideWithin(a, x, z);
    assert WithinAll(Plain, ChunksOf(TwoWide(a, x, z))) == [i, j];
    NoLiterals(i);
    NoLiterals(j);
    KeepTwo(i, j);
  }

  lemma WideTwo(i: Chunk, j: Chunk)
    requires |i| > 2 && |j| > 2
    ensures Wide([i, j]) == 2
  {
    var first := [i];
    assert [i, j][..1] == first && first[..0] == [];
    assert Wide(first) == 1;
  }

  lemma TwoWideIsWide(a: Cond, x: Cond, z: Cond)
    requires Different(a, x, z)
    ensures Wide(ChunksOf(TwoWide(a, x, z))) == 2
  {
    TwoWideChunks(a, x, z);
    WideTwo([a, x, Not(z)], [a, Not(Not(a)), z]);
  }

  lemma TwoWideResult(a: Cond, x: Cond, z: Cond, rho: Valuation)
    requires Different(a, x, z) && Holds(x, rho)
    ensures Holds(Simplified(Plain, TwoWide(a, x, z)), rho)
  {
    TwoWideRun(a, x, z);
    LastHolds([a, a, x], rho);
  }

  /** Two wide conjuncts are too many: a rewriter that is sound everywhere changes such a condition. */
  lemma WideConditionBreaks(a: Cond, x: Cond, z: Cond, rho: Valuation)
    requires Different(a, x, z) && !Holds(a, rho) && Holds(x, rho) && !Holds(z, rho)
    ensures Sound(Plain, rho) && Wide(ChunksOf(TwoWide(a, x, z))) == 2
    ensures !Holds(TwoWide(a, x, z), rho) && Holds(Simplified(Plain, TwoWide(a, x, z)), rho)
  {
    TwoWideIsWide(a, x, z);
    TwoWideResult(a, x, z, rho);
    TwoWideFalse(a, x, z, rho);
    PlainSound(rho);
  }

  lemma TwoWideFalse(a: Cond, x: Cond, z: Cond, rho: Valuation)
    requires !Holds(a, rho) && !Holds(z, rho)
    ensures !Holds(TwoWide(a, x, z), rho)
  {
    assert !Holds(Not(Not(a)), rho) by { assert Holds(Not(a), rho); }
    assert !Holds(Or(Or(a, Not(Not(a))), z), rho) by { assert !Holds(Or(a, Not(Not(a))), rho); }
  }

  lemma LastHolds(chunk: Chunk, rho: Valuation)
    requires chunk != [] && Holds(chunk[|chunk| - 1], rho)
    ensures Holds(ChunkCond(chunk), rho)
  {
    ChunkCondHolds(chunk, rho);
  }

  /** Such conditions exist. */
  lemma BrokenCondition(rho: Valuation)
    requires rho("a") == 1 && rho("x") == 0 && rho("z") == 1
    ensures Different(Atom("a"), Atom("x"), Atom("z"))
    ensures !Holds(Atom("a"), rho) && Holds(Atom("x"), rho) && !Holds(Atom("z"), rho)
  {
    assert "a"[0] != "x"[0] && "a"[0] != "z"[0] && "x"[0] != "z"[0];
  }
}
