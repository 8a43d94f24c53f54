/**
 Normalised comparisons of src/arith/transitive_comparison_analyzer.cc: facts of
 the form `lhs OP rhs + offset` between expression keys.
 */
module Comparisons {
  import opened Options

  /** The bit set of outcomes a comparison still allows. */
  datatype CompareResult = CompareResult(eq: bool, lt: bool, gt: bool)

  const kInconsistent := CompareResult(false, false, false)
  const kEQ := CompareResult(true, false, false)
  const kLT := CompareResult(false, true, false)
  const kLE := CompareResult(true, true, false)
  const kGT := CompareResult(false, false, true)
  const kGE := CompareResult(true, false, true)
  const kNE := CompareResult(false, true, true)
  const kUnknown := CompareResult(true, true, true)

  function Meet(a: CompareResult, b: CompareResult): CompareResult {
    CompareResult(a.eq && b.eq, a.lt && b.lt, a.gt && b.gt)
  }

  /** The true order of x and y is among the outcomes. */
  predicate Allows(r: CompareResult, x: int, y: int) {
    if x == y then r.eq else if x < y then r.lt else r.gt
  }

  /** The first result excludes whatever the second does. */
  predicate Finer(a: CompareResult, b: CompareResult) {
    (a.eq ==> b.eq) && (a.lt ==> b.lt) && (a.gt ==> b.gt)
  }

  function Reverse(r: CompareResult): CompareResult {
    CompareResult(r.eq, r.gt, r.lt)
  }

  type Key = nat

  /** What each key's expression is worth. */
  type KeyValues = Key -> int

  datatype Comparison = Comparison(lhs: Key, rhs: Key, offset: int, result: CompareResult)

  predicate True(c: Comparison, val: KeyValues) {
    Allows(c.result, val(c.lhs), val(c.rhs) + c.offset)
  }

  predicate IsNormalized(c: Comparison) {
    c.result != kLT && c.result != kGT
  }

  /** The constructor: strict comparisons become non-strict ones. */
  function Make(lhs: Key, rhs: Key, offset: int, result: CompareResult): (c: Comparison)
    ensures IsNormalized(c) && c.lhs == lhs && c.rhs == rhs
    ensures forall val: KeyValues :: True(c, val) <==> Allows(result, val(lhs), val(rhs) + offset)
  {
    if result == kLT then Comparison(lhs, rhs, offset - 1, kLE)
    else if result == kGT then Comparison(lhs, rhs, offset + 1, kGE)
    else Comparison(lhs, rhs, offset, result)
  }

  function WithLHS(c: Comparison, key: Key): (r: Option<Comparison>)
    ensures r.None? <==> key != c.lhs && key != c.rhs
    ensures r.Some? ==> r.value.lhs == key && (r.value.rhs == c.lhs || r.value.rhs == c.rhs)
    ensures r.Some? ==> forall val: KeyValues :: True(r.value, val) <==> True(c, val)
    ensures r.Some? && IsNormalized(c) ==> IsNormalized(r.value)
  {
    if key == c.lhs then Some(c)
    else if key == c.rhs then Some(Make(c.rhs, c.lhs, -c.offset, Reverse(c.result)))
    else None
  }

  /** Implies, on comparisons of the same two keys. */
  predicate Implies(c: Comparison, d: Comparison) {
    || (c.result == d.result && c.offset == d.offset)
    || (d.result == kLE && c.offset <= d.offset && (c.result == kEQ || c.result == kLE))
    || (d.result == kGE && c.offset >= d.offset && (c.result == kEQ || c.result == kGE))
    || (d.result == kNE && (
        || (c.result == kEQ && c.offset != d.offset)
        || (c.result == kLE && c.offset < d.offset)
        || (c.result == kGE && c.offset > d.offset)))
  }

  /** The operators that facts are made of. */
  predicate Proper(c: Comparison) {
    c.result == kEQ || c.result == kLE || c.result == kGE || c.result == kNE
  }

  lemma ImpliesSound(c: Comparison, d: Comparison, val: KeyValues)
    requires c.lhs == d.lhs && c.rhs == d.rhs && Implies(c, d) && True(c, val)
    ensures True(d, val)
  {
  }

  lemma ImpliesTransitive(c: Comparison, d: Comparison, e: Comparison)
    requires Implies(c, d) && Implies(d, e)
    ensures Implies(c, e)
  {
  }

  /** Some fact of the list implies c. */
  ghost predicate SomeImplies(cs: seq<Comparison>, c: Comparison) {
    exists i :: 0 <= i < |cs| && Implies(cs[i], c)
  }

  /** Two distinct keys valued so that their difference is `difference`. */
  function Apart(lhs: Key, difference: int): KeyValues {
    k => if k == lhs then difference else 0
  }

  /** Implies is exactly entailment over the integers, for two distinct keys. */
  lemma ImpliesExact(c: Comparison, d: Comparison)
    requires c.lhs == d.lhs && c.rhs == d.rhs && c.lhs != c.rhs && Proper(c) && Proper(d)
    ensures Implies(c, d) <==> forall val: KeyValues :: True(c, val) ==> True(d, val)
  {
    if Implies(c, d) {
      forall val: KeyValues | True(c, val) ensures True(d, val) { ImpliesSound(c, d, val); }
    } else {
      var x := Witness(c, d);
      assert True(c, Apart(c.lhs, x)) && !True(d, Apart(c.lhs, x));
    }
  }

  /** A difference that meets c and not d. */
  function Witness(c: Comparison, d: Comparison): int {
    match d.result
    case CompareResult(true, false, false) =>
      if c.result == kEQ then c.offset
      else if c.result == kLE then (if c.offset == d.offset then c.offset - 1 else c.offset)
      else if c.result == kGE then (if c.offset == d.offset then c.offset + 1 else c.offset)
      else if c.offset == d.offset then c.offset + 1
      else if c.offset == d.offset + 1 then d.offset + 2 else d.offset + 1
    case CompareResult(true, true, false) =>
      if c.result == kEQ || c.result == kLE then c.offset
      else if c.offset > d.offset then c.offset + 1 else d.offset + 1
    case CompareResult(true, false, true) =>
      if c.result == kEQ || c.result == kGE then c.offset
      else if c.offset < d.offset then c.offset - 1 else d.offset - 1
    case _ => d.offset
  }

  // ----- merging what is known about one pair -----

  function MergeOne(result: CompareResult, c: Comparison, offset: int): CompareResult {
    if c.result == kInconsistent then kInconsistent
    else if c.result == kEQ then Meet(result, if offset == c.offset then kEQ else kNE)
    else if c.result == kLE then
      if c.offset < offset then Meet(result, kLT) else if c.offset <= offset then Meet(result, kLE) else result
    else if c.result == kGE then
      if c.offset > offset then Meet(result, kGT) else if c.offset >= offset then Meet(result, kGE) else result
    else if c.result == kNE then
      if offset == c.offset then Meet(result, kNE) else result
    else result
  }

  /** What one fact says about lhs and rhs + offset. */
  function Single(c: Comparison, offset: int): CompareResult {
    MergeOne(kUnknown, c, offset)
  }

  lemma MergeOneMeets(result: CompareResult, c: Comparison, offset: int)
    ensures MergeOne(result, c, offset) == Meet(result, Single(c, offset))
  {
  }

  lemma SingleSound(c: Comparison, offset: int, val: KeyValues)
    requires True(c, val)
    ensures Allows(Single(c, offset), val(c.lhs), val(c.rhs) + offset)
  {
  }

  /** Some values of the keys meet the fact and make lhs - (rhs + offset) equal to d. */
  ghost predicate Possible(c: Comparison, offset: int, d: int) {
    exists val: KeyValues :: True(c, val) && val(c.lhs) - (val(c.rhs) + offset) == d
  }

  /** The result allows an order exactly when the fact does. */
  ghost predicate Tightest(c: Comparison, offset: int, r: CompareResult) {
    && (r.eq <==> Possible(c, offset, 0))
    && (r.lt <==> exists d :: d < 0 && Possible(c, offset, d))
    && (r.gt <==> exists d :: d > 0 && Possible(c, offset, d))
  }

  lemma PossibleMeans(c: Comparison, offset: int, d: int)
    requires c.lhs != c.rhs
    ensures Possible(c, offset, d) <==> Allows(c.result, d + offset, c.offset)
  {
    if Allows(c.result, d + offset, c.offset) {
      var val := Apart(c.lhs, d + offset);
      assert True(c, val) && val(c.lhs) - (val(c.rhs) + offset) == d;
    }
  }

  /**
   One fact is read as precisely as can be, except that an equality with another offset is read as mere inequality.
   */
  lemma SingleExact(c: Comparison, offset: int)
    requires c.lhs != c.rhs && Proper(c)
    ensures Tightest(c, offset, Single(c, offset)) <==> !(c.result == kEQ && c.offset != offset)
  {
    forall d ensures Possible(c, offset, d) <==> Allows(c.result, d + offset, c.offset) { PossibleMeans(c, offset, d); }
    var gap := c.offset - offset;
    assert Possible(c, offset, gap) <==> Allows(c.result, c.offset, c.offset);
    assert Possible(c, offset, gap - 1) <==> Allows(c.result, c.offset - 1, c.offset);
    assert Possible(c, offset, gap + 1) <==> Allows(c.result, c.offset + 1, c.offset);
    var low, high := if gap < 0 then gap - 1 else -1, if gap > 0 then gap + 1 else 1;
    assert Possible(c, offset, low) <==> Allows(c.result, low + offset, c.offset);
    assert Possible(c, offset, high) <==> Allows(c.result, high + offset, c.offset);
    assert Possible(c, offset, low - 1) <==> Allows(c.result, low - 1 + offset, c.offset);
    assert Possible(c, offset, high + 1) <==> Allows(c.result, high + 1 + offset, c.offset);
  }

  /** Every fact in the list holds. */
  predicate AllTrue(cs: seq<Comparison>, val: KeyValues) {
    forall i :: 0 <= i < |cs| ==> True(cs[i], val)
  }

  ghost predicate Between(cs: seq<Comparison>, lhs: Key, rhs: Key) {
    forall i :: 0 <= i < |cs| ==> cs[i].lhs == lhs && cs[i].rhs == rhs
  }

  /** What all the facts say together. */
  function Merged(cs: seq<Comparison>, offset: int): CompareResult {
    if cs == [] then kUnknown else Meet(Merged(cs[..|cs| - 1], offset), Single(cs[|cs| - 1], offset))
  }

  /** An outcome is excluded exactly when one of the facts excludes it. */
  lemma {:induction false} MergedExact(cs: seq<Comparison>, offset: int)
    ensures Merged(cs, offset).eq <==> forall i :: 0 <= i < |cs| ==> Single(cs[i], offset).eq
    ensures Merged(cs, offset).lt <==> forall i :: 0 <= i < |cs| ==> Single(cs[i], offset).lt
    ensures Merged(cs, offset).gt <==> forall i :: 0 <= i < |cs| ==> Single(cs[i], offset).gt
  {
    if cs != [] {
      var k := |cs| - 1;
      MergedExact(cs[..k], offset);
      assert forall i :: 0 <= i < k ==> cs[..k][i] == cs[i];
    }
  }

  lemma {:induction false} MergedSound(cs: seq<Comparison>, offset: int, lhs: Key, rhs: Key, val: KeyValues)
    requires Between(cs, lhs, rhs) && AllTrue(cs, val)
    ensures Allows(Merged(cs, offset), val(lhs), val(rhs) + offset)
  {
    MergedExact(cs, offset);
    forall i | 0 <= i < |cs|
      ensures Allows(Single(cs[i], offset), val(lhs), val(rhs) + offset)
    {
      SingleSound(cs[i], offset, val);
    }
  }

  /** MergeComparisons: the true order of lhs and rhs + offset is in the result, and every fact counts. */
  method MergeComparisons(cs: seq<Comparison>, offset: int, lhs: Key, rhs: Key) returns (result: CompareResult)
    requires Between(cs, lhs, rhs)
    ensures result == Merged(cs, offset)
    ensures forall val: KeyValues :: AllTrue(cs, val) ==> Allows(result, val(lhs), val(rhs) + offset)
    ensures forall i :: 0 <= i < |cs| ==> Finer(result, Single(cs[i], offset))
  {
    result := kUnknown;
    for i := 0 to |cs|
      invariant result == Merged(cs[..i], offset)
    {
      assert cs[..i + 1][..i] == cs[..i];
      MergeOneMeets(result, cs[i], offset);
      result := MergeOne(result, cs[i], offset);
    }
    assert cs[..|cs|] == cs;
    MergedExact(cs, offset);
    forall val: KeyValues | AllTrue(cs, val)
      ensures Allows(result, val(lhs), val(rhs) + offset)
    {
      MergedSound(cs, offset, lhs, rhs, val);
    }
  }

  // ----- composing two facts -----

  /** x OP1 y + c1 and y OP2 z + c2 give x OP3 z + c1 + c2. */
  function Compose(prev: Comparison, c: Comparison): (r: CompareResult) {
    if prev.result == kEQ then c.result
    else if c.result == kEQ then prev.result
    else if prev.result == c.result && (prev.result == kLE || prev.result == kGE) then prev.result
    else kUnknown
  }

  lemma ComposeSound(prev: Comparison, c: Comparison, val: KeyValues)
    requires prev.rhs == c.lhs && True(prev, val) && True(c, val)
    ensures Allows(Compose(prev, c), val(prev.lhs), val(c.rhs) + (prev.offset + c.offset))
  {
  }

  /** The composed fact. */
  function Chained(prev: Comparison, c: Comparison): Comparison {
    Make(prev.lhs, c.rhs, prev.offset + c.offset, Compose(prev, c))
  }

  /** A stronger first fact gives a stronger composition. */
  lemma ComposeMonotone(prev: Comparison, d: Comparison, c: Comparison)
    requires Implies(prev, d) && Compose(d, c) != kUnknown && Proper(prev) && Proper(d) && Proper(c)
    requires prev.lhs == d.lhs
    ensures Compose(prev, c) != kUnknown && Implies(Chained(prev, c), Chained(d, c))
  {
  }
}
