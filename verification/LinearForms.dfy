/**
 DetectLinearEquation of src/arith/detect_linear_equation.cc: an expression as a sum
 of variables times coefficients and a base. It is the detector of an analyzer that
 meets the soundness the solvers ask for.
 */
module LinearForms {
  import opened Options
  import opened Exprs
  import opened Constraints

  // ----- one variable -----

  /** LinearEqEntry: base plus coefficient times the variable; an undefined part is 0. */
  datatype LinearEntry = LinearEntry(base: Option<Expr>, coeff: Option<Expr>)

  function ValueOf(part: Option<Expr>, rho: Valuation): int {
    match part
    case None => 0
    case Some(e) => Eval(e, rho)
  }

  function VarsOfPart(part: Option<Expr>): set<string> {
    match part
    case None => {}
    case Some(e) => Vars(e)
  }

  // The operators fold constants.

  function AddFold(a: Expr, b: Expr): Expr {
    if a.Const? && b.Const? then Const(a.value + b.value) else Add(a, b)
  }

  function SubFold(a: Expr, b: Expr): Expr {
    if a.Const? && b.Const? then Const(a.value - b.value) else Sub(a, b)
  }

  function MulFold(a: Expr, b: Expr): Expr {
    if a.Const? && b.Const? then Const(a.value * b.value) else Mul(a, b)
  }

  lemma FoldValues(a: Expr, b: Expr, rho: Valuation)
    ensures Eval(AddFold(a, b), rho) == Eval(a, rho) + Eval(b, rho)
    ensures Eval(SubFold(a, b), rho) == Eval(a, rho) - Eval(b, rho)
    ensures Eval(MulFold(a, b), rho) == Eval(a, rho) * Eval(b, rho)
  {
    if a.Const? && b.Const? {
      var x, y := a.value, b.value;
      assert Eval(Const(x), rho) == x && Eval(Const(y), rho) == y;
      assert Eval(Const(x + y), rho) == x + y && Eval(Const(x - y), rho) == x - y && Eval(Const(x * y), rho) == x * y;
    }
  }

  lemma ConstVars(k: int)
    ensures Vars(Const(k)) == {}
  {
  }

  lemma SumVars(a: Expr, b: Expr)
    ensures Vars(AddFold(a, b)) <= Vars(a) + Vars(b) && Vars(SubFold(a, b)) <= Vars(a) + Vars(b)
  {
    if a.Const? && b.Const? {
      ConstVars(a.value + b.value);
      ConstVars(a.value - b.value);
    }
  }

  lemma ProductVars(a: Expr, b: Expr)
    ensures Vars(MulFold(a, b)) <= Vars(a) + Vars(b)
  {
    if a.Const? && b.Const? { ConstVars(a.value * b.value); } else { assert Vars(Mul(a, b)) == Vars(a) + Vars(b); }
  }

  function AddCombine(a: Option<Expr>, b: Option<Expr>): Option<Expr> {
    if a.None? then b else if b.None? then a else Some(AddFold(a.value, b.value))
  }

  function SubCombine(a: Option<Expr>, b: Option<Expr>): Option<Expr> {
    if b.None? then a else if a.None? then Some(SubFold(Const(0), b.value)) else Some(SubFold(a.value, b.value))
  }

  function MulCombine(a: Option<Expr>, b: Option<Expr>): Option<Expr> {
    if a.None? then a else if b.None? then b else Some(MulFold(a.value, b.value))
  }

  lemma CombineValues(a: Option<Expr>, b: Option<Expr>, rho: Valuation)
    ensures ValueOf(AddCombine(a, b), rho) == ValueOf(a, rho) + ValueOf(b, rho)
    ensures ValueOf(SubCombine(a, b), rho) == ValueOf(a, rho) - ValueOf(b, rho)
    ensures ValueOf(MulCombine(a, b), rho) == ValueOf(a, rho) * ValueOf(b, rho)
  {
    if a.Some? && b.Some? { FoldValues(a.value, b.value, rho); }
    if b.Some? {
      FoldValues(Const(0), b.value, rho);
      assert Eval(Const(0), rho) == 0;
    }
  }

  lemma CombineVars(a: Option<Expr>, b: Option<Expr>)
    ensures VarsOfPart(AddCombine(a, b)) <= VarsOfPart(a) + VarsOfPart(b)
    ensures VarsOfPart(SubCombine(a, b)) <= VarsOfPart(a) + VarsOfPart(b)
    ensures VarsOfPart(MulCombine(a, b)) <= VarsOfPart(a) + VarsOfPart(b)
  {
    if a.Some? && b.Some? {
      SumVars(a.value, b.value);
      ProductVars(a.value, b.value);
    } else if b.Some? {
      SumVars(Const(0), b.value);
      ConstVars(0);
    }
  }

  /** The visitors; None when the detector fails. */
  function Visit(e: Expr, v: string): Option<LinearEntry> {
    match e
    case Add(a, b) =>
      var x, y := Visit(a, v), Visit(b, v);
      if x.None? || y.None? then None
      else Some(LinearEntry(AddCombine(x.value.base, y.value.base), AddCombine(x.value.coeff, y.value.coeff)))
    case Sub(a, b) =>
      var x, y := Visit(a, v), Visit(b, v);
      if x.None? || y.None? then None
      else Some(LinearEntry(SubCombine(x.value.base, y.value.base), SubCombine(x.value.coeff, y.value.coeff)))
    case Mul(a, b) =>
      var x, y := Visit(a, v), Visit(b, v);
      if x.None? || y.None? then None
      else if x.value.coeff.Some? then Times(y.value, x.value) else Times(x.value, y.value)
    case Var(name) => Some(if name == v then LinearEntry(None, Some(Const(1))) else LinearEntry(Some(e), None))
    case _ => if v in Vars(e) then None else Some(LinearEntry(Some(e), None))
  }

  function Times(a: LinearEntry, b: LinearEntry): Option<LinearEntry> {
    if a.coeff.Some? then None else Some(LinearEntry(MulCombine(a.base, b.base), MulCombine(a.base, b.coeff)))
  }

  /** The entry has the value of e, its parts are free of v, and they mention only variables of e. */
  ghost predicate Splits(e: Expr, v: string, r: LinearEntry) {
    && (forall rho: Valuation :: Eval(e, rho) == ValueOf(r.coeff, rho) * rho(v) + ValueOf(r.base, rho))
    && v !in VarsOfPart(r.base) && v !in VarsOfPart(r.coeff)
    && VarsOfPart(r.base) <= Vars(e) && VarsOfPart(r.coeff) <= Vars(e)
  }

  lemma SumSplits(a: Expr, b: Expr, v: string, x: LinearEntry, y: LinearEntry)
    requires Splits(a, v, x) && Splits(b, v, y)
    ensures Splits(Add(a, b), v, LinearEntry(AddCombine(x.base, y.base), AddCombine(x.coeff, y.coeff)))
    ensures Splits(Sub(a, b), v, LinearEntry(SubCombine(x.base, y.base), SubCombine(x.coeff, y.coeff)))
  {
    CombineVars(x.base, y.base);
    CombineVars(x.coeff, y.coeff);
    forall rho: Valuation
      ensures ValueOf(AddCombine(x.coeff, y.coeff), rho) * rho(v) + ValueOf(AddCombine(x.base, y.base), rho) ==
        Eval(Add(a, b), rho)
      ensures ValueOf(SubCombine(x.coeff, y.coeff), rho) * rho(v) + ValueOf(SubCombine(x.base, y.base), rho) ==
        Eval(Sub(a, b), rho)
    {
      SumValue(a, b, v, x, y, rho);
    }
  }

  lemma SumValue(a: Expr, b: Expr, v: string, x: LinearEntry, y: LinearEntry, rho: Valuation)
    requires Splits(a, v, x) && Splits(b, v, y)
    ensures ValueOf(AddCombine(x.coeff, y.coeff), rho) * rho(v) + ValueOf(AddCombine(x.base, y.base), rho) ==
      Eval(Add(a, b), rho)
    ensures ValueOf(SubCombine(x.coeff, y.coeff), rho) * rho(v) + ValueOf(SubCombine(x.base, y.base), rho) ==
      Eval(Sub(a, b), rho)
  {
    CombineValues(x.base, y.base, rho);
    CombineValues(x.coeff, y.coeff, rho);
    Distribute(ValueOf(x.coeff, rho), ValueOf(y.coeff, rho), rho(v));
    assert Eval(a, rho) == ValueOf(x.coeff, rho) * rho(v) + ValueOf(x.base, rho);
    assert Eval(b, rho) == ValueOf(y.coeff, rho) * rho(v) + ValueOf(y.base, rho);
  }

  lemma Distribute(x: int, y: int, v: int)
    ensures (x + y) * v == x * v + y * v && (x - y) * v == x * v - y * v
  {
  }

  lemma ProductSplits(e: Expr, a: Expr, b: Expr, v: string, x: LinearEntry, y: LinearEntry)
    requires (e == Mul(a, b) || e == Mul(b, a)) && Splits(a, v, x) && Splits(b, v, y) && x.coeff.None?
    ensures Splits(e, v, Times(x, y).value)
  {
    CombineVars(x.base, y.base);
    CombineVars(x.base, y.coeff);
    var r := Times(x, y).value;
    forall rho: Valuation ensures Eval(e, rho) == ValueOf(r.coeff, rho) * rho(v) + ValueOf(r.base, rho) {
      TimesValue(a, b, v, x, y, rho);
      ProductValue(e, a, b, rho);
    }
  }

  lemma TimesValue(a: Expr, b: Expr, v: string, x: LinearEntry, y: LinearEntry, rho: Valuation)
    requires Splits(a, v, x) && Splits(b, v, y) && x.coeff.None?
    ensures Eval(a, rho) * Eval(b, rho) ==
      ValueOf(MulCombine(x.base, y.coeff), rho) * rho(v) + ValueOf(MulCombine(x.base, y.base), rho)
  {
    var c, p, q := ValueOf(x.base, rho), ValueOf(y.coeff, rho), ValueOf(y.base, rho);
    CombineValues(x.base, y.base, rho);
    CombineValues(x.base, y.coeff, rho);
    Scale(c, p, q, rho(v), Eval(a, rho), Eval(b, rho), ValueOf(MulCombine(x.base, y.coeff), rho),
      ValueOf(MulCombine(x.base, y.base), rho));
  }

  lemma ProductValue(e: Expr, a: Expr, b: Expr, rho: Valuation)
    requires e == Mul(a, b) || e == Mul(b, a)
    ensures Eval(e, rho) == Eval(a, rho) * Eval(b, rho)
  {
    Commutes(Eval(a, rho), Eval(b, rho));
    if e == Mul(a, b) { assert Eval(e, rho) == Eval(a, rho) * Eval(b, rho); } else {
      assert Eval(e, rho) == Eval(b, rho) * Eval(a, rho);
    }
  }

  lemma Commutes(x: int, y: int)
    ensures x * y == y * x
  {
  }

  lemma Scale(c: int, p: int, q: int, v: int, x: int, y: int, cp: int, cq: int)
    requires x == c && y == p * v + q && cp == c * p && cq == c * q
    ensures x * y == cp * v + cq
  {
    assert c * (p * v) == (c * p) * v;
  }

  /** The visitors split every expression they accept. */
  lemma {:induction false} VisitSplits(e: Expr, v: string)
    requires Visit(e, v).Some?
    ensures Splits(e, v, Visit(e, v).value)
  {
    match e
    case Add(a, b) =>
      VisitSplits(a, v);
      VisitSplits(b, v);
      SumSplits(a, b, v, Visit(a, v).value, Visit(b, v).value);
    case Sub(a, b) =>
      VisitSplits(a, v);
      VisitSplits(b, v);
      SumSplits(a, b, v, Visit(a, v).value, Visit(b, v).value);
    case Mul(a, b) =>
      VisitSplits(a, v);
      VisitSplits(b, v);
      var x, y := Visit(a, v).value, Visit(b, v).value;
      if x.coeff.Some? { ProductSplits(e, b, a, v, y, x); } else { ProductSplits(e, a, b, v, x, y); }
    case Var(name) =>
      assert Vars(Const(1)) == {};
      forall rho: Valuation ensures Eval(Const(1), rho) == 1 {}
    case _ =>
  }

  // ----- all variables -----

  function OrZero(part: Option<Expr>): Expr {
    match part
    case None => Const(0)
    case Some(e) => e
  }

  lemma OrZeroMeans(part: Option<Expr>, rho: Valuation)
    ensures Eval(OrZero(part), rho) == ValueOf(part, rho)
  {
  }

  lemma OrZeroVars(part: Option<Expr>)
    ensures Vars(OrZero(part)) == VarsOfPart(part)
  {
  }

  /** Coefficients of the variables in turn, each read off the base that the ones before left. */
  function Peel(base: Expr, vs: seq<string>): (r: Option<(seq<Expr>, Expr)>)
    ensures r.Some? ==> |r.value.0| == |vs|
    decreases |vs|
  {
    if vs == [] then Some(([], base)) else
      match Visit(base, vs[0])
      case None => None
      case Some(x) =>
        match Peel(OrZero(x.base), vs[1..])
        case None => None
        case Some((coeffs, rest)) => Some(([OrZero(x.coeff)] + coeffs, rest))
  }

  /** No coefficient mentions a later variable. */
  predicate NoLater(coeffs: seq<Expr>, vs: seq<string>)
    requires |coeffs| == |vs|
  {
    forall i, j :: 0 <= i < j < |vs| ==> vs[j] !in Vars(coeffs[i])
  }

  function Detected(e: Expr, vs: seq<string>): seq<Expr> {
    match Peel(e, vs)
    case None => []
    case Some((coeffs, base)) => if NoLater(coeffs, vs) then coeffs + [base] else []
  }

  /** The first loop: one variable after the other. */
  method PeelAll(e: Expr, vs: seq<string>) returns (r: Option<(seq<Expr>, Expr)>)
    ensures r == Peel(e, vs)
  {
    var base, coeffs: seq<Expr> := e, [];
    PrefixedEmpty(Peel(e, vs));
    assert vs[0..] == vs;
    for i := 0 to |vs|
      invariant |coeffs| == i && Peel(e, vs) == Prefixed(coeffs, Peel(base, vs[i..]))
    {
      var x := Visit(base, vs[i]);
      assert vs[i..][0] == vs[i] && vs[i..][1..] == vs[i + 1..];
      if x.None? { return None; }
      PrefixedAssociates(coeffs, OrZero(x.value.coeff), Peel(OrZero(x.value.base), vs[i + 1..]));
      coeffs := coeffs + [OrZero(x.value.coeff)];
      base := OrZero(x.value.base);
    }
    assert vs[|vs|..] == [] && coeffs + [] == coeffs;
    r := Some((coeffs, base));
  }

  /** The second loop: from the back, no coefficient mentions a later variable. */
  method CheckLater(coeffs: seq<Expr>, vs: seq<string>) returns (ok: bool)
    requires |coeffs| == |vs|
    ensures ok <==> NoLater(coeffs, vs)
  {
    var later: set<string> := {};
    var i := |vs|;
    while i > 1
      invariant 0 <= i <= |vs| && (|vs| > 0 ==> i > 0)
      invariant forall z :: z in later <==> z in vs[i..]
      invariant forall p, q :: i - 1 <= p < q < |vs| ==> vs[q] !in Vars(coeffs[p])
    {
      later := later + {vs[i - 1]};
      assert vs[i - 1..] == [vs[i - 1]] + vs[i..];
      if Vars(coeffs[i - 2]) * later != {} {
        var z :| z in Vars(coeffs[i - 2]) * later;
        assert z in vs[i - 1..];
        return false;
      }
      forall q | i - 2 < q < |vs| ensures vs[q] !in Vars(coeffs[i - 2]) {
        assert vs[q] == vs[i - 1..][q - (i - 1)];
        assert vs[q] in later;
        assert vs[q] !in Vars(coeffs[i - 2]) * later;
      }
      i := i - 1;
    }
    return true;
  }

  /** DetectLinearEquation: an answer is a linear form. */
  method DetectLinearEquation(e: Expr, vs: seq<string>) returns (r: seq<Expr>)
    ensures r == Detected(e, vs)
    ensures r != [] ==> IsLinearForm(e, vs, r)
  {
    var peeled := PeelAll(e, vs);
    if peeled.None? { return []; }
    var ok := CheckLater(peeled.value.0, vs);
    if !ok { return []; }
    r := peeled.value.0 + [peeled.value.1];
    DetectedLinear(e, vs);
  }

  /** Coefficients found before, in front of a later answer. */
  function Prefixed(before: seq<Expr>, r: Option<(seq<Expr>, Expr)>): Option<(seq<Expr>, Expr)> {
    match r
    case None => None
    case Some((coeffs, base)) => Some((before + coeffs, base))
  }

  lemma PrefixedEmpty(r: Option<(seq<Expr>, Expr)>)
    ensures Prefixed([], r) == r
  {
    if r.Some? { assert [] + r.value.0 == r.value.0; }
  }

  lemma PrefixedAssociates(before: seq<Expr>, c: Expr, r: Option<(seq<Expr>, Expr)>)
    ensures Prefixed(before + [c], r) == Prefixed(before, Prefixed([c], r))
  {
    if r.Some? { assert before + [c] + r.value.0 == before + ([c] + r.value.0); }
  }

  // ----- the answer is a linear form -----

  /** Weighted, from the front. */
  function Terms(cs: seq<Expr>, vs: seq<string>, rho: Valuation): int
    requires |cs| == |vs|
  {
    if cs == [] then 0 else Eval(cs[0], rho) * rho(vs[0]) + Terms(cs[1..], vs[1..], rho)
  }

  lemma {:induction false} TermsAreWeighted(cs: seq<Expr>, vs: seq<string>, rho: Valuation)
    requires |cs| == |vs|
    ensures Weighted(cs, vs, rho) == Terms(cs, vs, rho)
  {
    if |cs| == 1 {
      assert cs[..0] == [] && vs[..0] == [];
    } else if |cs| > 1 {
      var k := |cs| - 1;
      TermsAreWeighted(cs[..k], vs[..k], rho);
      TermsAreWeighted(cs[1..], vs[1..], rho);
      TermsAreWeighted(cs[1..k], vs[1..k], rho);
      assert cs[1..][..k - 1] == cs[1..k] && vs[1..][..k - 1] == vs[1..k];
      assert cs[..k][1..] == cs[1..k] && vs[..k][1..] == vs[1..k];
    }
  }

  /** The coefficients and the base have the value of e. */
  ghost predicate SumsTo(e: Expr, vs: seq<string>, coeffs: seq<Expr>, base: Expr) {
    |coeffs| == |vs| && forall rho: Valuation :: Eval(e, rho) == Terms(coeffs, vs, rho) + Eval(base, rho)
  }

  /** They mention only variables of e; the base none of vs, and each coefficient none of vs up to its own position. */
  ghost predicate FreeParts(e: Expr, vs: seq<string>, coeffs: seq<Expr>, base: Expr) {
    && |coeffs| == |vs| && Vars(base) <= Vars(e) && (forall i :: 0 <= i < |coeffs| ==> Vars(coeffs[i]) <= Vars(e))
    && (forall j :: 0 <= j < |vs| ==> vs[j] !in Vars(base))
    && (forall i, j :: 0 <= j <= i < |vs| ==> vs[j] !in Vars(coeffs[i]))
  }

  lemma PeelValue(e: Expr, vs: seq<string>, x: LinearEntry, coeffs: seq<Expr>, base: Expr)
    requires vs != [] && Splits(e, vs[0], x) && SumsTo(OrZero(x.base), vs[1..], coeffs, base)
    ensures SumsTo(e, vs, [OrZero(x.coeff)] + coeffs, base)
  {
    var all := [OrZero(x.coeff)] + coeffs;
    forall rho: Valuation ensures Eval(e, rho) == Terms(all, vs, rho) + Eval(base, rho) {
      OrZeroMeans(x.coeff, rho);
      OrZeroMeans(x.base, rho);
      assert all[1..] == coeffs && all[0] == OrZero(x.coeff);
    }
  }

  lemma PeelFree(e: Expr, vs: seq<string>, first: Expr, rest: Expr, coeffs: seq<Expr>, base: Expr)
    requires vs != [] && vs[0] !in Vars(first) && vs[0] !in Vars(rest) && Vars(first) <= Vars(e)
    requires Vars(rest) <= Vars(e)
    requires FreeParts(rest, vs[1..], coeffs, base)
    ensures FreeParts(e, vs, [first] + coeffs, base)
  {
    var all := [first] + coeffs;
    forall i | 0 <= i < |all| ensures Vars(all[i]) <= Vars(e) { if i > 0 { assert all[i] == coeffs[i - 1]; } }
    forall j | 0 <= j < |vs| ensures vs[j] !in Vars(base) { if j > 0 { assert vs[j] == vs[1..][j - 1]; } }
    forall i, j | 0 <= j <= i < |vs| ensures vs[j] !in Vars(all[i]) {
      if i > 0 {
        assert all[i] == coeffs[i - 1];
        if j > 0 { assert vs[j] == vs[1..][j - 1]; }
      }
    }
  }

  lemma {:induction false} PeelPeels(e: Expr, vs: seq<string>)
    requires Peel(e, vs).Some?
    ensures SumsTo(e, vs, Peel(e, vs).value.0, Peel(e, vs).value.1)
    ensures FreeParts(e, vs, Peel(e, vs).value.0, Peel(e, vs).value.1)
    decreases |vs|
  {
    if vs != [] {
      var x := Visit(e, vs[0]).value;
      VisitSplits(e, vs[0]);
      PeelPeels(OrZero(x.base), vs[1..]);
      var (coeffs, base) := Peel(OrZero(x.base), vs[1..]).value;
      PeelValue(e, vs, x, coeffs, base);
      OrZeroVars(x.coeff);
      OrZeroVars(x.base);
      PeelFree(e, vs, OrZero(x.coeff), OrZero(x.base), coeffs, base);
    }
  }

  /** What is detected is a linear form with coefficients and a constant free of the variables. */
  lemma DetectedLinear(e: Expr, vs: seq<string>)
    requires Detected(e, vs) != []
    ensures IsLinearForm(e, vs, Detected(e, vs))
  {
    PeelPeels(e, vs);
    var (coeffs, base) := Peel(e, vs).value;
    var cs := coeffs + [base];
    assert cs[..|vs|] == coeffs && cs[|vs|] == base;
    forall rho: Valuation
      ensures Eval(e, rho) == Weighted(cs[..|vs|], vs, rho) + Eval(cs[|vs|], rho)
    {
      TermsAreWeighted(coeffs, vs, rho);
    }
    forall i | 0 <= i < |cs| ensures Vars(cs[i]) <= Vars(e) && forall j :: 0 <= j < |vs| ==> vs[j] !in Vars(cs[i]) {
      if i < |vs| {
        assert cs[i] == coeffs[i];
        forall j | 0 <= j < |vs| ensures vs[j] !in Vars(cs[i]) { if i < j { assert vs[j] !in Vars(coeffs[i]); } }
      }
    }
  }

  // ----- an analyzer -----

  function Decided(c: Cond): Cond {
    match c
    case Cmp(op, Const(a), Const(b)) => Lit(Compare(op, a, b))
    case _ => c
  }

  function KnownRange(rs: Ranges, e: Expr): Option<Range> {
    if e.Var? && e.name in rs then Some(rs[e.name]) else None
  }

  function KnownBound(rs: Ranges, e: Expr): Option<Expr> {
    if e.Const? then Some(e) else None
  }

  /** Detects linear forms, decides comparisons of constants and knows the range of a variable. */
  const Concrete: Analyzer :=
    Analyzer((rs, e) => e, (rs, c) => Decided(c), (rs, c) => Decided(c) == Lit(true), Detected, KnownRange, KnownBound)

  lemma DecidedHolds(c: Cond, rho: Valuation)
    ensures Holds(Decided(c), rho) == Holds(c, rho) && CondVars(Decided(c)) <= CondVars(c)
  {
    match c
    case Cmp(op, Const(a), Const(b)) => assert Eval(Const(a), rho) == a && Eval(Const(b), rho) == b;
    case _ =>
  }

  /** The soundness asked of the analyzer is met by one that answers. */
  lemma ConcreteAnalyzerSound()
    ensures Concrete.SoundSimplify() && Concrete.SoundProver() && Concrete.SoundDetector() && Concrete.SoundIntervals()
  {
    forall c, rho: Valuation ensures Holds(Decided(c), rho) == Holds(c, rho) { DecidedHolds(c, rho); }
    forall c ensures CondVars(Decided(c)) <= CondVars(c) { DecidedHolds(c, s => 0); }
    forall e, vs ensures Detected(e, vs) == [] || IsLinearForm(e, vs, Detected(e, vs)) {
      if Detected(e, vs) != [] { DetectedLinear(e, vs); }
    }
  }
}
