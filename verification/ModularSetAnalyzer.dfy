/**
 The state of ModularSetAnalyzer (src/arith/modular_set.cc): intersecting the
 class of a variable with a constraint, and runs of Update, EnterConstraint and
 recovery.
 */
module ModularSetAnalyzer {
  import opened Options
  import opened IntOperator
  import opened Exprs
  import opened ModularSet

  // ----- intersection -----

  /** L divides exactly what c1 and c2 both divide. */
  lemma CommonMultiple(c1: int, c2: int, g: int, x: int, y: int, d: int)
    requires c1 >= 0 && c2 >= 0 && g > 0 && Bezout(c1, c2, g, x, y)
    ensures var L := TruncDiv(c1, g) * c2; L >= 0 && (Divides(L, d) <==> Divides(c1, d) && Divides(c2, d))
  {
    ExactDivision(c1, g);
    var p, q := Quotient(c1, g), Quotient(c2, g);
    var L := p * c2;
    assert p >= 0 && q >= 0;
    assert L == q * c1 by { assert p * (q * g) == q * (p * g); }
    assert L * g == c1 * c2 by { assert (q * c1) * g == c1 * (q * g); }
    DividesIntro(c1, L, q);
    DividesIntro(c2, L, p);
    if Divides(L, d) {
      DividesTransitive(c1, L, d);
      DividesTransitive(c2, L, d);
    }
    if Divides(c1, d) && Divides(c2, d) {
      LcmLeast(c1, c2, g, x, y, L, d, Quotient(d, c1), Quotient(d, c2));
    }
  }

  /** The Chinese remainder point lies in both classes. */
  lemma RemainderPoint(c1: int, b1: int, c2: int, b2: int, g: int, x: int, y: int, t: int)
    requires g == c1 * x + c2 * y && b2 - b1 == t * g
    ensures Divides(c1, (t * x) * c1 + b1 - b1) && Divides(c2, (t * x) * c1 + b1 - b2)
  {
    DividesIntro(c1, (t * x) * c1, t * x);
    assert (t * x) * c1 + b1 - b2 == (-(t * y)) * c2 by {
      assert t * g == t * (c1 * x) + t * (c2 * y);
      assert t * (c1 * x) == (t * x) * c1 && t * (c2 * y) == (t * y) * c2;
    }
    DividesIntro(c2, (t * x) * c1 + b1 - b2, -(t * y));
  }

  lemma SameClass(c: int, z: int, p: int, b: int)
    requires Divides(c, p - b)
    ensures Divides(c, z - p) <==> Divides(c, z - b)
  {
    var k := Quotient(p - b, c);
    Congruent(c, z - p, z - b, -k);
  }

  /** e is the intersection of compatible classes, and Nothing for classes without a common number. */
  ghost predicate Narrowed(a: Entry, b: Entry, e: Entry) {
    var compatible := Divides(Gcd(a.coeff, b.coeff), b.base - a.base);
    && (compatible ==> forall z :: In(e, z) <==> In(a, z) && In(b, z))
    && (!compatible ==> e == Nothing && forall z :: !(In(a, z) && In(b, z)))
  }

  /** Exact for compatible classes; Nothing only for classes without a common number. */
  method Intersect(a: Entry, b: Entry) returns (e: Entry)
    requires Normal(a) && Normal(b) && (a.coeff != 0 || b.coeff != 0)
    ensures Normal(e) && Narrowed(a, b, e)
  {
    var g, x, y := ExtendedEuclidean(a.coeff, b.coeff);
    assert g > 0;
    GcdIs(a.coeff, b.coeff, g, x, y);
    var v := b.base - a.base;
    TruncModZero(v, g);
    if TruncMod(v, g) == 0 {
      ExactDivision(v, g);
      var t := TruncDiv(v, g);
      var xx := t * x;
      var L := TruncDiv(a.coeff, g) * b.coeff;
      e := Make(L, xx * a.coeff + a.base);
      forall z ensures In(e, z) <==> In(a, z) && In(b, z) {
        var p := xx * a.coeff + a.base;
        CommonMultiple(a.coeff, b.coeff, g, x, y, z - p);
        RemainderPoint(a.coeff, a.base, b.coeff, b.base, g, x, y, t);
        SameClass(a.coeff, z, p, a.base);
        SameClass(b.coeff, z, p, b.base);
        MakeMeans(L, p, z);
      }
    } else {
      e := Nothing;
      forall z ensures !(In(a, z) && In(b, z)) {
        if In(a, z) && In(b, z) { Disjoint(a, b, g, z); }
      }
    }
  }

  lemma GcdIs(c1: int, c2: int, g: int, x: int, y: int)
    requires g > 0 && Bezout(c1, c2, g, x, y)
    ensures g == Gcd(c1, c2)
  {
    forall d: nat | Divides(d, c1) && Divides(d, c2) ensures Divides(d, g) { BezoutIsGcd(c1, c2, g, x, y, d); }
    GcdUnique(c1, c2, g);
  }

  lemma Disjoint(a: Entry, b: Entry, g: int, z: int)
    requires Divides(g, a.coeff) && Divides(g, b.coeff) && In(a, z) && In(b, z)
    ensures Divides(g, b.base - a.base)
  {
    DividesTransitive(g, a.coeff, z - a.base);
    DividesTransitive(g, b.coeff, z - b.base);
    DividesCombination(g, z - a.base, z - b.base, 1, -1);
  }

  // ----- constraints -----

  /** A constraint on one variable: its remainder by a constant, or its value. */
  datatype Scoped = Scoped(name: string, cond: Cond)

  /** The patterns of EnterConstraint: the variable, the modulus and the base. */
  function Match(c: Cond): Option<(string, int, int)> {
    match c
    case Cmp(EQ, Mod(Var(v), Const(k)), Const(b)) => Some((v, k, b))
    case Cmp(EQ, FloorMod(Var(v), Const(k)), Const(b)) => Some((v, k, b))
    case Cmp(EQ, Var(v), Const(b)) => Some((v, 1, b))
    case Cmp(EQ, Const(b), Var(v)) => Some((v, 1, b))
    case _ => None
  }

  /** Whether the constructor keeps the class of the remainder b by k. */
  predicate KeepsClass(k: int, b: int) {
    k > 0 || (k < 0 && Divides(k, 2 * b))
  }

  /** A number of the form t * k + b is in the constructed class exactly when the constructor keeps the class. */
  lemma MadeMultiple(k: int, b: int, t: int, z: int)
    requires k != 0 && z == t * k + b
    ensures In(Make(k, b), z) <==> KeepsClass(k, b)
  {
    if k > 0 {
      MultipleIn(k, b, t, z);
    } else {
      assert Make(k, b) == Make(-k, -b);
      MakeMeans(-k, -b, z);
      assert z + b == 2 * b + t * k;
      assert (-t) * -k == t * k;
      Congruent(-k, z + b, 2 * b, -t);
      DividesNegated(k, 2 * b);
    }
  }

  lemma DividesNegated(k: int, d: int)
    ensures Divides(-k, d) <==> Divides(k, d)
  {
    if Divides(k, d) { DividesIntro(-k, d, -Quotient(d, k)); }
    if Divides(-k, d) { DividesIntro(k, d, -Quotient(d, -k)); }
  }

  /** A satisfied constraint puts the variable in the matched class exactly when the constructor keeps the class. */
  lemma MatchMeans(c: Cond, rho: Valuation)
    requires Match(c).Some? && Match(c).value.1 != 0 && Holds(c, rho)
    ensures var (v, k, b) := Match(c).value; In(Make(k, b), rho(v)) <==> KeepsClass(k, b)
  {
    var (v, k, b) := Match(c).value;
    var z := rho(v);
    assert Eval(Const(k), rho) == k && Eval(Const(b), rho) == b && Eval(Var(v), rho) == z;
    match c
    case Cmp(EQ, Mod(_, _), _) =>
      TruncLaw(z, k);
      MadeMultiple(k, b, TruncDiv(z, k), z);
    case Cmp(EQ, FloorMod(_, _), _) =>
      FloorLaw(z, k);
      MadeMultiple(k, b, IntOperator.FloorDiv(z, k), z);
    case _ =>
      MadeMultiple(1, b, z - b, z);
  }

  /** What the open constraints on one variable say. */
  ghost predicate OpenHold(scope: seq<Scoped>, name: string, rho: Valuation) {
    forall i :: 0 <= i < |scope| && scope[i].name == name ==> Holds(scope[i].cond, rho)
  }

  lemma OpenAdd(scope: seq<Scoped>, s: Scoped, name: string, rho: Valuation)
    ensures OpenHold(scope + [s], name, rho) <==> OpenHold(scope, name, rho) && (s.name == name ==> Holds(s.cond, rho))
  {
    assert (scope + [s])[|scope|] == s;
    forall i | 0 <= i < |scope| ensures (scope + [s])[i] == scope[i] {}
  }

  /** A recovery closure: the entry to restore, and the constraints open outside it. */
  datatype Frame = Frame(name: string, previous: Entry, outer: seq<Scoped>)

  /** The value is in every class of the list. */
  predicate InAll(es: seq<Entry>, z: int) {
    forall i :: 0 <= i < |es| ==> In(es[i], z)
  }

  lemma InAllAdd(es: seq<Entry>, e: Entry, z: int)
    ensures InAll(es + [e], z) <==> InAll(es, z) && In(e, z)
  {
    assert (es + [e])[|es|] == e;
    forall i | 0 <= i < |es| ensures (es + [e])[i] == es[i] {}
  }

  /** The entry follows from the classes bound to the variable and the open constraints on it. */
  ghost predicate Follows(bound: seq<Entry>, name: string, e: Entry, conds: seq<Scoped>) {
    Normal(e) && forall rho: Valuation :: InAll(bound, rho(name)) && OpenHold(conds, name, rho) ==> In(e, rho(name))
  }

  lemma FollowsMore(bound: seq<Entry>, b: Entry, name: string, e: Entry, conds: seq<Scoped>)
    requires Follows(bound, name, e, conds)
    ensures Follows(bound + [b], name, e, conds)
  {
    forall rho: Valuation | InAll(bound + [b], rho(name)) && OpenHold(conds, name, rho) ensures In(e, rho(name)) {
      InAllAdd(bound, b, rho(name));
    }
  }

  lemma FollowsBinding(bound: seq<Entry>, b: Entry, name: string, conds: seq<Scoped>)
    requires Normal(b)
    ensures Follows(bound + [b], name, b, conds) && Follows([b], name, b, conds)
  {
    forall rho: Valuation | InAll(bound + [b], rho(name)) ensures In(b, rho(name)) { InAllAdd(bound, b, rho(name)); }
    forall rho: Valuation | InAll([b], rho(name)) ensures In(b, rho(name)) { assert In([b][0], rho(name)); }
  }

  /** A constraint on another variable changes nothing. */
  lemma FollowsOther(bound: seq<Entry>, name: string, e: Entry, conds: seq<Scoped>, s: Scoped)
    requires s.name != name
    ensures Follows(bound, name, e, conds + [s]) <==> Follows(bound, name, e, conds)
  {
    forall rho: Valuation
      ensures OpenHold(conds + [s], name, rho) <==> OpenHold(conds, name, rho)
    {
      OpenAdd(conds, s, name, rho);
    }
  }

  lemma FollowsIntersection(bound: seq<Entry>, previous: Entry, e: Entry, r: Entry, conds: seq<Scoped>, s: Scoped)
    requires Follows(bound, s.name, previous, conds) && Normal(r)
    requires forall rho: Valuation :: Holds(s.cond, rho) ==> In(e, rho(s.name))
    requires forall z :: In(previous, z) && In(e, z) ==> In(r, z)
    ensures Follows(bound, s.name, r, conds + [s])
  {
    forall rho: Valuation | InAll(bound, rho(s.name)) && OpenHold(conds + [s], s.name, rho) ensures In(r, rho(s.name)) {
      OpenAdd(conds, s, s.name, rho);
    }
  }

  /** The constructor keeps the class of the constraint. */
  predicate Kept(c: Cond)
    requires Match(c).Some?
  {
    KeepsClass(Match(c).value.1, Match(c).value.2)
  }

  /** What was known before, or nothing. */
  lemma PreviousFollows(bound: seq<Entry>, name: string, previous: Entry, outer: seq<Scoped>, known: map<string, Entry>)
    requires previous == if name in known then known[name] else Everything
    requires name in known ==> Follows(bound, name, known[name], outer)
    ensures Follows(bound, name, previous, outer)
  {
    if name !in known { forall z ensures In(Everything, z) { EverythingIsAll(z); } }
  }

  lemma NarrowedFollows(bound: seq<Entry>, previous: Entry, e: Entry, r: Entry, outer: seq<Scoped>, s: Scoped)
    requires Match(s.cond).Some? && Match(s.cond).value.0 == s.name
    requires Kept(s.cond)
    requires e == Make(Match(s.cond).value.1, Match(s.cond).value.2) && Narrowed(previous, e, r) && Normal(r)
    requires Follows(bound, s.name, previous, outer)
    ensures Follows(bound, s.name, r, outer + [s])
  {
    forall rho: Valuation | Holds(s.cond, rho) ensures In(e, rho(s.name)) { MatchMeans(s.cond, rho); }
    FollowsIntersection(bound, previous, e, r, outer, s);
  }

  /** A lost class excludes every number that meets the constraint. */
  lemma LostClass(bound: seq<Entry>, previous: Entry, e: Entry, r: Entry, outer: seq<Scoped>, s: Scoped)
    requires Match(s.cond).Some? && Match(s.cond).value.0 == s.name && Match(s.cond).value.1 != 0
    requires !Kept(s.cond)
    requires e == Make(Match(s.cond).value.1, Match(s.cond).value.2) && Narrowed(previous, e, r) && r != Nothing
    requires exists rho: Valuation :: InAll(bound, rho(s.name)) && OpenHold(outer + [s], s.name, rho)
    ensures !Follows(bound, s.name, r, outer + [s])
  {
    var rho: Valuation :| InAll(bound, rho(s.name)) && OpenHold(outer + [s], s.name, rho);
    OpenAdd(outer, s, s.name, rho);
    MatchMeans(s.cond, rho);
    assert !In(r, rho(s.name));
  }

  class Analyzer {
    var varMap: map<string, Entry>
    /** What Update said of each variable since it was last overridden. */
    ghost var bindings: map<string, seq<Entry>>
    ghost var scope: seq<Scoped>
    /** The recovery closures not yet called, innermost last. */
    ghost var frames: seq<Frame>

    ghost function Bound(name: string): seq<Entry>
      reads this
    {
      if name in bindings then bindings[name] else []
    }

    /** The constraints open just inside frame i. */
    ghost function Inside(i: nat): seq<Scoped>
      requires i < |frames|
      reads this
    {
      if i + 1 < |frames| then frames[i + 1].outer else scope
    }

    /** Inside the frame one more constraint is open, on the frame's variable. */
    ghost predicate FrameNested(i: nat)
      requires i < |frames|
      reads this
    {
      var f := frames[i];
      && f.name in varMap && Normal(f.previous)
      && |Inside(i)| == |f.outer| + 1 && Inside(i)[..|f.outer|] == f.outer && Inside(i)[|f.outer|].name == f.name
    }

    /** The run is well nested so far. */
    ghost predicate Nested()
      reads this
    {
      (forall v :: v in varMap ==> Normal(varMap[v])) && forall i :: 0 <= i < |frames| ==> FrameNested(i)
    }

    /** What the frame restores follows from what stays open outside it. */
    ghost predicate FrameFollows(i: nat)
      requires i < |frames|
      reads this
    {
      Follows(Bound(frames[i].name), frames[i].name, frames[i].previous, frames[i].outer)
    }

    /**
     Every entry, and every entry that a pending recovery restores, follows from the bindings and the constraints open
     around it.
     */
    ghost predicate Valid()
      reads this
    {
      && Nested()
      && (forall v :: v in varMap ==> Follows(Bound(v), v, varMap[v], scope))
      && (forall i :: 0 <= i < |frames| ==> FrameFollows(i))
    }

    /**
     Every number of the class that meets the constraints staying open is in the class a pending recovery restores.
     */
    ghost predicate Restorable(name: string, e: Entry)
      reads this
    {
      forall i :: 0 <= i < |frames| && frames[i].name == name ==>
        Follows([e], name, frames[i].previous, frames[i].outer)
    }

    /** The valuations that meet every binding and every open constraint. */
    ghost predicate Meets(rho: Valuation)
      reads this
    {
      && (forall v :: v in bindings ==> InAll(bindings[v], rho(v)))
      && forall i :: 0 <= i < |scope| ==> Holds(scope[i].cond, rho)
    }

    constructor ()
      ensures Valid() && varMap == map[] && bindings == map[] && scope == [] && frames == []
    {
      varMap, bindings, scope, frames := map[], map[], [], [];
    }

    /**
     Update: a different class than the known one is only accepted as an override. The
     override is right, now and after every pending recovery, exactly when the new class
     is restorable.
     */
    method Update(name: string, coeff: int, base: int, allowOverride: bool)
      requires Nested() && coeff >= 0 && (name in varMap && varMap[name] != Entry(coeff, base) ==> allowOverride)
      modifies this`varMap, this`bindings
      ensures Nested() && varMap == old(varMap)[name := Make(coeff, base)]
      ensures bindings == old(bindings)[name :=
        if old(name in varMap && varMap[name] != Entry(coeff, base)) then [Make(coeff, base)]
          else old(Bound(name)) + [Make(coeff, base)]]
      ensures old(Valid()) && old(name in varMap && varMap[name] != Entry(coeff, base)) ==>
        (Valid() <==> old(Restorable(name, Make(coeff, base))))
      ensures old(Valid()) && !old(name in varMap && varMap[name] != Entry(coeff, base)) ==> Valid()
    {
      var e := Make(coeff, base);
      FollowsBinding(Bound(name), e, name, scope);
      if name in varMap && varMap[name] != Entry(coeff, base) {
        bindings := bindings[name := [e]];
        varMap := varMap[name := e];
        forall i | 0 <= i < |frames| ensures FrameNested(i) { assert old(FrameNested(i)); }
        if old(Valid()) {
          forall i | 0 <= i < |frames| && frames[i].name != name
            ensures FrameFollows(i)
          {
            assert old(FrameFollows(i));
          }
          forall i | 0 <= i < |frames| && frames[i].name == name
            ensures FrameFollows(i) <==> Follows([e], name, frames[i].previous, frames[i].outer)
          {
            assert Bound(name) == [e];
          }
        }
      } else {
        bindings := bindings[name := Bound(name) + [e]];
        varMap := varMap[name := e];
        forall i | 0 <= i < |frames| ensures FrameNested(i) { assert old(FrameNested(i)); }
        if old(Valid()) {
          forall i | 0 <= i < |frames| ensures FrameFollows(i) {
            assert old(FrameFollows(i));
            if frames[i].name == name { FollowsMore(old(Bound(name)), e, name, frames[i].previous, frames[i].outer); }
          }
        }
      }
    }

    /** Some number of the bound classes meets the open constraints on the variable. */
    ghost predicate Possible(name: string)
      reads this
    {
      exists rho: Valuation :: InAll(Bound(name), rho(name)) && OpenHold(scope, name, rho)
    }

    /**
     EnterConstraint: for the patterns it knows, intersect and return what to restore. The state
     stays right when the constructor keeps the class of the constraint; otherwise it is wrong,
     unless no number is left for the variable or the intersection is empty.
     */
    method EnterConstraint(cond: Cond) returns (closure: Option<(string, Entry)>)
      requires Nested() && (Match(cond).Some? ==> Match(cond).value.1 != 0)
      modifies this`varMap, this`scope, this`frames
      ensures Nested() && (closure.Some? <==> Match(cond).Some?)
      ensures closure.None? ==> varMap == old(varMap) && scope == old(scope) && frames == old(frames)
      ensures closure.Some? ==>
        closure.value.0 == Match(cond).value.0 && scope == old(scope) + [Scoped(closure.value.0, cond)]
      ensures closure.Some? ==>
        closure.value.1 == if closure.value.0 in old(varMap) then old(varMap)[closure.value.0] else Everything
      ensures closure.Some? ==> closure.value.0 in varMap
      ensures closure.Some? ==>
        Narrowed(closure.value.1, Make(Match(cond).value.1, Match(cond).value.2), varMap[closure.value.0])
      ensures closure.Some? ==> frames == old(frames) + [Frame(closure.value.0, closure.value.1, old(scope))]
      ensures old(Valid()) && (Match(cond).Some? ==> Kept(cond)) ==> Valid()
      ensures closure.Some? && !Kept(cond) ==>
        (varMap[closure.value.0] != Nothing && Possible(closure.value.0) ==> !Valid())
    {
      if Match(cond).None? { return None; }
      var (name, coeff, base) := Match(cond).value;
      var e := Make(coeff, base);
      var previous := if name in varMap then varMap[name] else Everything;
      var r := Intersect(previous, e);
      closure := Some((name, previous));
      ghost var s := Scoped(name, cond);
      ghost var outer := scope;
      varMap := varMap[name := r];
      scope := scope + [s];
      frames := frames + [Frame(name, previous, outer)];
      forall i | 0 <= i < |frames| ensures FrameNested(i) {
        if i < |frames| - 1 { assert old(FrameNested(i)); }
      }
      if KeepsClass(coeff, base) && old(Valid()) {
        PreviousFollows(Bound(name), name, previous, outer, old(varMap));
        NarrowedFollows(Bound(name), previous, e, r, outer, s);
        forall v | v in varMap ensures Follows(Bound(v), v, varMap[v], scope) {
          if v != name { FollowsOther(Bound(v), v, varMap[v], outer, s); }
        }
        forall i | 0 <= i < |frames| ensures FrameFollows(i) {
          if i < |frames| - 1 { assert old(FrameFollows(i)); }
        }
      }
      if !KeepsClass(coeff, base) && r != Nothing && Possible(name) {
        LostClass(Bound(name), previous, e, r, outer, s);
      }
    }

    /** The innermost recovery closure. */
    method Recover(name: string, previous: Entry)
      requires Nested() && frames != [] && frames[|frames| - 1].name == name
      requires frames[|frames| - 1].previous == previous
      modifies this`varMap, this`scope, this`frames
      ensures Nested() && varMap == old(varMap)[name := previous]
      ensures frames == old(frames)[..|old(frames)| - 1] && scope == old(frames)[|old(frames)| - 1].outer
      ensures old(Valid()) ==> Valid()
    {
      ghost var last := |frames| - 1;
      assert FrameNested(last);
      ghost var outer, s := frames[last].outer, scope[|scope| - 1];
      assert scope == outer + [s];
      varMap := varMap[name := previous];
      scope := outer;
      frames := frames[..last];
      forall i | 0 <= i < |frames| ensures FrameNested(i) { assert old(FrameNested(i)); }
      if old(Valid()) {
        assert old(FrameFollows(last));
        forall v | v in varMap ensures Follows(Bound(v), v, varMap[v], scope) {
          if v != name {
            assert Follows(Bound(v), v, varMap[v], outer + [s]);
            FollowsOther(Bound(v), v, varMap[v], outer, s);
          }
        }
        forall i | 0 <= i < |frames| ensures FrameFollows(i) { assert old(FrameFollows(i)); }
      }
    }

    /** The class returned for an expression contains its value wherever the bindings and open constraints hold. */
    method Query(e: Expr, nonneg: Expr -> bool) returns (r: Entry)
      requires Nested()
      ensures r == Visit(e, varMap, nonneg)
      ensures Valid() ==> forall rho: Valuation ::
        Meets(rho) && SoundAt(nonneg, LetNames(e), rho) && LetsRight(e, varMap, nonneg, rho) ==> In(r, Eval(e, rho))
    {
      r := Visit(e, varMap, nonneg);
      if Valid() {
        forall rho: Valuation | Meets(rho) && SoundAt(nonneg, LetNames(e), rho) && LetsRight(e, varMap, nonneg, rho)
          ensures In(r, Eval(e, rho))
        {
          forall v | v in varMap ensures Normal(varMap[v]) && In(varMap[v], rho(v)) {
            assert Follows(Bound(v), v, varMap[v], scope);
          }
          VisitSound(e, varMap, nonneg, LetNames(e), rho);
        }
      }
    }
  }

  // ----- overriding inside a constraint -----

  /** Every number of one class is in the other. */
  predicate Within(e: Entry, larger: Entry) {
    Divides(larger.coeff, e.coeff) && Divides(larger.coeff, e.base - larger.base)
  }

  lemma WithinMeans(e: Entry, larger: Entry)
    ensures Within(e, larger) <==> forall z :: In(e, z) ==> In(larger, z)
  {
    if Within(e, larger) {
      forall z | In(e, z) ensures In(larger, z) {
        DividesTransitive(larger.coeff, e.coeff, z - e.base);
        DividesCombination(larger.coeff, z - e.base, e.base - larger.base, 1, 1);
      }
    }
    if forall z :: In(e, z) ==> In(larger, z) {
      DividesIntro(e.coeff, 0, 0);
      DividesIntro(e.coeff, e.coeff, 1);
      assert In(e, e.base) && In(e, e.base + e.coeff);
      DividesCombination(larger.coeff, e.base + e.coeff - larger.base, e.base - larger.base, 1, -1);
    }
  }

  /**
   A class inside the one to be restored is restorable, and when no constraint on the variable stays open only such a
   class is.
   */
  lemma RestorableClass(name: string, e: Entry, previous: Entry, outer: seq<Scoped>)
    requires Normal(previous)
    ensures Within(e, previous) ==> Follows([e], name, previous, outer)
    ensures (forall i :: 0 <= i < |outer| ==> outer[i].name != name) ==>
      (Follows([e], name, previous, outer) <==> Within(e, previous))
  {
    WithinMeans(e, previous);
    if Within(e, previous) {
      forall rho: Valuation | InAll([e], rho(name)) ensures In(previous, rho(name)) { assert In([e][0], rho(name)); }
    }
    if Follows([e], name, previous, outer) && forall i :: 0 <= i < |outer| ==> outer[i].name != name {
      forall z | In(e, z) ensures In(previous, z) {
        var rho: Valuation := s => z;
        assert InAll([e], rho(name)) && OpenHold(outer, name, rho);
      }
    }
  }

  function RemainderIs(name: string, k: int, b: int): (c: Cond)
    ensures Match(c) == Some((name, k, b))
  {
    Cmp(EQ, FloorMod(Var(name), Const(k)), Const(b))
  }

  method BindAndEnter(name: string, a: Entry, k: int, b: int) returns (analyzer: Analyzer)
    requires Normal(a) && k != 0
    ensures fresh(analyzer) && analyzer.Nested() && analyzer.frames == [Frame(name, a, [])]
    ensures analyzer.bindings == map[name := [a]]
    ensures name in analyzer.varMap && Narrowed(a, Make(k, b), analyzer.varMap[name])
  {
    MakeNormal(a);
    analyzer := new Analyzer();
    ghost var none: seq<Entry> := [];
    assert none + [a] == [a];
    analyzer.Update(name, a.coeff, a.base, false);
    assert analyzer.bindings == map[name := [a]];
    var closure := analyzer.EnterConstraint(RemainderIs(name, k, b));
  }

  lemma MakeNormal(a: Entry)
    requires Normal(a)
    ensures Make(a.coeff, a.base) == a
  {
    if a.coeff != 0 { SmallTrunc(a.base, a.coeff); }
  }

  lemma SmallTrunc(x: int, c: int)
    requires 0 <= x < c
    ensures TruncMod(x, c) == x
  {
    DivModUnique(x, c, 0, x);
  }

  /**
   Bind, enter a constraint, override, leave: the class that is back is right for the binding exactly when the new class
   is within the old one.
   */
  method OverrideInside(name: string, a: Entry, k: int, b: int, e: Entry, nonneg: Expr -> bool)
      returns (analyzer: Analyzer, r: Entry, ghost narrowed: Entry)
    requires Normal(a) && k != 0 && Normal(e)
    ensures Narrowed(a, Make(k, b), narrowed) && analyzer.frames == [] && analyzer.scope == []
    ensures analyzer.bindings == map[name := if e == narrowed then [a, e] else [e]]
    ensures r == Visit(Var(name), analyzer.varMap, nonneg) == a
    ensures (forall z :: In(e, z) ==> In(r, z)) <==> Within(e, a)
  {
    analyzer := BindAndEnter(name, a, k, b);
    narrowed := analyzer.varMap[name];
    MakeNormal(e);
    assert [a] + [e] == [a, e];
    analyzer.Update(name, e.coeff, e.base, true);
    assert analyzer.bindings == map[name := if e == narrowed then [a, e] else [e]];
    analyzer.Recover(name, a);
    r := analyzer.Query(Var(name), nonneg);
    WithinMeans(e, a);
  }

  /** Even, then a multiple of four, overridden by one more than a multiple of three. */
  lemma OverrideWrong(narrowed: Entry)
    requires Narrowed(Entry(2, 0), Entry(4, 0), narrowed)
    ensures narrowed != Entry(3, 1) && !Within(Entry(3, 1), Entry(2, 0))
  {
    ZeroStays(Entry(2, 0), Entry(4, 0), narrowed);
    assert !In(Entry(3, 1), 0);
  }

  lemma ZeroStays(a: Entry, b: Entry, narrowed: Entry)
    requires a.base == 0 && b.base == 0 && Narrowed(a, b, narrowed)
    ensures In(narrowed, 0)
  {
    DividesIntro(Gcd(a.coeff, b.coeff), 0, 0);
    DividesIntro(a.coeff, 0, 0);
    DividesIntro(b.coeff, 0, 0);
  }
}
