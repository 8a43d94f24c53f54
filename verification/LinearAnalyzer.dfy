/**
 An analyzer that collects linear terms. It answers everything the two inequality
 solvers ask of one (src/arith/solve_linear_inequality.cc, src/arith/int_constraints.cc):
 what it simplifies is detected exactly, and it bounds the width of constant ranges.
 */
module LinearAnalyzer {
  import opened Options
  import opened IntOperator
  import opened Exprs
  import opened Constraints
  import opened LinearForms
  import opened FourierMotzkin
  import opened RangeSolver

  // ----- linear forms with integer coefficients -----

  /** coef * atom. */
  datatype Scaled = Scaled(atom: Expr, coef: int)

  /** A sum of scaled atoms and a constant. */
  datatype Form = Form(terms: seq<Scaled>, constant: int)

  /** What the detector does not look into. */
  predicate Atomic(e: Expr) {
    !e.Const? && !e.Add? && !e.Sub? && !e.Mul?
  }

  function Atoms(ts: seq<Scaled>): set<Expr> {
    if ts == [] then {} else {ts[0].atom} + Atoms(ts[1..])
  }

  /** Different atoms with nonzero coefficients. */
  predicate Reduced(ts: seq<Scaled>) {
    ts == [] ||
    (Atomic(ts[0].atom) && ts[0].coef != 0 && ts[0].atom !in Atoms(ts[1..]) && Reduced(ts[1..]))
  }

  function Sum(ts: seq<Scaled>, rho: Valuation): int {
    if ts == [] then 0 else ts[0].coef * Eval(ts[0].atom, rho) + Sum(ts[1..], rho)
  }

  function CoefOf(ts: seq<Scaled>, a: Expr): int {
    if ts == [] then 0 else (if ts[0].atom == a then ts[0].coef else 0) + CoefOf(ts[1..], a)
  }

  ghost predicate AtomsWithin(ts: seq<Scaled>, names: set<string>) {
    forall a :: a in Atoms(ts) ==> Vars(a) <= names
  }

  function AddTerm(ts: seq<Scaled>, a: Expr, c: int): seq<Scaled> {
    if ts == [] then if c == 0 then [] else [Scaled(a, c)]
    else if ts[0].atom == a then if ts[0].coef + c == 0 then ts[1..] else [Scaled(a, ts[0].coef + c)] + ts[1..]
    else [ts[0]] + AddTerm(ts[1..], a, c)
  }

  /** ts + m * us. */
  function AddTerms(ts: seq<Scaled>, us: seq<Scaled>, m: int): seq<Scaled> {
    if us == [] then ts else AddTerm(AddTerms(ts, us[1..], m), us[0].atom, m * us[0].coef)
  }

  lemma {:induction false} AddTermReduced(ts: seq<Scaled>, a: Expr, c: int)
    requires Reduced(ts) && Atomic(a)
    ensures Reduced(AddTerm(ts, a, c)) && Atoms(AddTerm(ts, a, c)) <= Atoms(ts) + {a}
  {
    if ts != [] && ts[0].atom != a {
      AddTermReduced(ts[1..], a, c);
      var r := AddTerm(ts, a, c);
      assert r[0] == ts[0] && r[1..] == AddTerm(ts[1..], a, c);
    } else if ts != [] && ts[0].coef + c != 0 {
      var r := AddTerm(ts, a, c);
      assert r[0] == Scaled(a, ts[0].coef + c) && r[1..] == ts[1..];
    } else if ts == [] && c != 0 {
      assert AddTerm(ts, a, c)[1..] == [];
    }
  }

  lemma {:induction false} AddTermCoef(ts: seq<Scaled>, a: Expr, c: int, b: Expr)
    ensures CoefOf(AddTerm(ts, a, c), b) == CoefOf(ts, b) + if a == b then c else 0
  {
    var r := AddTerm(ts, a, c);
    if ts != [] && ts[0].atom != a {
      AddTermCoef(ts[1..], a, c, b);
      assert r[0] == ts[0] && r[1..] == AddTerm(ts[1..], a, c);
    } else if ts != [] {
      if ts[0].coef + c != 0 { assert r[0] == Scaled(a, ts[0].coef + c) && r[1..] == ts[1..]; }
    } else if c != 0 {
      assert r[0] == Scaled(a, c) && r[1..] == [];
    }
  }

  lemma {:induction false} AddTermSum(ts: seq<Scaled>, a: Expr, c: int, rho: Valuation)
    ensures Sum(AddTerm(ts, a, c), rho) == Sum(ts, rho) + c * Eval(a, rho)
  {
    var r := AddTerm(ts, a, c);
    if ts != [] && ts[0].atom != a {
      AddTermSum(ts[1..], a, c, rho);
      assert r[0] == ts[0] && r[1..] == AddTerm(ts[1..], a, c);
    } else if ts != [] {
      MergedTerm(ts, c, rho);
    } else if c != 0 {
      assert r[0] == Scaled(a, c) && r[1..] == [];
    }
  }

  lemma MergedTerm(ts: seq<Scaled>, c: int, rho: Valuation)
    requires ts != []
    ensures Sum(AddTerm(ts, ts[0].atom, c), rho) == Sum(ts, rho) + c * Eval(ts[0].atom, rho)
  {
    var a, k := ts[0].atom, ts[0].coef;
    Distribute(k, c, Eval(a, rho));
    if k + c != 0 {
      var r := [Scaled(a, k + c)] + ts[1..];
      assert r[0] == Scaled(a, k + c) && r[1..] == ts[1..];
    }
  }

  lemma {:induction false} AddTermsReduced(ts: seq<Scaled>, us: seq<Scaled>, m: int)
    requires Reduced(ts) && Reduced(us)
    ensures Reduced(AddTerms(ts, us, m)) && Atoms(AddTerms(ts, us, m)) <= Atoms(ts) + Atoms(us)
  {
    if us != [] {
      AddTermsReduced(ts, us[1..], m);
      AddTermReduced(AddTerms(ts, us[1..], m), us[0].atom, m * us[0].coef);
    }
  }

  lemma {:induction false} AddTermsCoef(ts: seq<Scaled>, us: seq<Scaled>, m: int, b: Expr)
    ensures CoefOf(AddTerms(ts, us, m), b) == CoefOf(ts, b) + m * CoefOf(us, b)
  {
    if us != [] {
      AddTermsCoef(ts, us[1..], m, b);
      AddTermCoef(AddTerms(ts, us[1..], m), us[0].atom, m * us[0].coef, b);
      Factor(m, us[0].coef, 1, CoefOf(us[1..], b));
    }
  }

  lemma {:induction false} AddTermsSum(ts: seq<Scaled>, us: seq<Scaled>, m: int, rho: Valuation)
    ensures Sum(AddTerms(ts, us, m), rho) == Sum(ts, rho) + m * Sum(us, rho)
  {
    if us != [] {
      AddTermsSum(ts, us[1..], m, rho);
      AddTermSum(AddTerms(ts, us[1..], m), us[0].atom, m * us[0].coef, rho);
      Factor(m, us[0].coef, Eval(us[0].atom, rho), Sum(us[1..], rho));
    }
  }

  lemma Factor(m: int, c: int, x: int, rest: int)
    ensures m * (c * x + rest) == (m * c) * x + m * rest && m * (c + rest) == m * c + m * rest
  {
    assert m * (c * x) == (m * c) * x;
  }

  /** A reduced list without coefficients is empty. */
  lemma AllZero(ts: seq<Scaled>)
    requires Reduced(ts) && forall a :: CoefOf(ts, a) == 0
    ensures ts == []
  {
    if ts != [] { FirstNonzero(ts); }
  }

  lemma FirstNonzero(ts: seq<Scaled>)
    requires Reduced(ts) && ts != []
    ensures CoefOf(ts, ts[0].atom) != 0
  {
    AbsentZero(ts[1..], ts[0].atom);
  }

  lemma {:induction false} AbsentZero(ts: seq<Scaled>, a: Expr)
    requires a !in Atoms(ts)
    ensures CoefOf(ts, a) == 0
  {
    if ts != [] { AbsentZero(ts[1..], a); }
  }

  // ----- from expressions to forms -----

  /** The form of an expression; a product of two forms that are not constant is kept whole. */
  function FormOf(e: Expr): Form {
    match e
    case Const(k) => Form([], k)
    case Add(a, b) =>
      var x, y := FormOf(a), FormOf(b);
      Form(AddTerms(x.terms, y.terms, 1), x.constant + y.constant)
    case Sub(a, b) =>
      var x, y := FormOf(a), FormOf(b);
      Form(AddTerms(x.terms, y.terms, -1), x.constant - y.constant)
    case Mul(a, b) =>
      var x, y := FormOf(a), FormOf(b);
      if y.terms == [] then Form(AddTerms([], x.terms, y.constant), y.constant * x.constant)
      else if x.terms == [] then Form(AddTerms([], y.terms, x.constant), x.constant * y.constant)
      else Form([Scaled(Whole(e), 1)], 0)
    case _ => Form([Scaled(e, 1)], 0)
  }

  /** The same value, as an atom. */
  function Whole(e: Expr): Expr {
    FloorDiv(e, Const(1))
  }

  lemma WholeMeans(e: Expr, rho: Valuation)
    ensures Eval(Whole(e), rho) == Eval(e, rho) && Vars(Whole(e)) == Vars(e)
  {
    EvalFloorDiv(e, 1, rho);
    ConstVars(1);
  }

  lemma SingleTerm(a: Expr, c: int, rho: Valuation)
    ensures Atoms([Scaled(a, c)]) == {a} && Sum([Scaled(a, c)], rho) == c * Eval(a, rho)
    ensures Atomic(a) && c != 0 ==> Reduced([Scaled(a, c)])
    ensures forall b :: CoefOf([Scaled(a, c)], b) == if a == b then c else 0
  {
    var ts := [Scaled(a, c)];
    assert ts[1..] == [] && ts[0] == Scaled(a, c);
  }

  /** The form is reduced, mentions only variables of e, and has the value of e. */
  lemma {:induction false} FormMeans(e: Expr, rho: Valuation)
    ensures Reduced(FormOf(e).terms) && AtomsWithin(FormOf(e).terms, Vars(e))
    ensures Eval(e, rho) == ValueAt(FormOf(e), rho)
  {
    match e
    case Const(k) =>
    case Add(a, b) =>
      FormMeans(a, rho);
      FormMeans(b, rho);
      CombinedForm(FormOf(a), FormOf(b), 1, Vars(a), Vars(b), rho);
    case Sub(a, b) =>
      FormMeans(a, rho);
      FormMeans(b, rho);
      CombinedForm(FormOf(a), FormOf(b), -1, Vars(a), Vars(b), rho);
    case Mul(a, b) =>
      FormMeans(a, rho);
      FormMeans(b, rho);
      ProductForm(a, b, rho);
    case _ => SingleTerm(e, 1, rho);
  }

  function ValueAt(f: Form, rho: Valuation): int {
    Sum(f.terms, rho) + f.constant
  }

  /** f + m * g. */
  lemma CombinedForm(f: Form, g: Form, m: int, names: set<string>, more: set<string>, rho: Valuation)
    requires Reduced(f.terms) && Reduced(g.terms) && AtomsWithin(f.terms, names) && AtomsWithin(g.terms, more)
    ensures var h := Form(AddTerms(f.terms, g.terms, m), f.constant + m * g.constant);
      Reduced(h.terms) && AtomsWithin(h.terms, names + more) && ValueAt(h, rho) == ValueAt(f, rho) + m * ValueAt(g, rho)
  {
    AddTermsReduced(f.terms, g.terms, m);
    AddTermsSum(f.terms, g.terms, m, rho);
    Factor(m, 1, Sum(g.terms, rho), g.constant);
  }

  /** k * f. */
  lemma ScaledForm(f: Form, k: int, names: set<string>, rho: Valuation)
    requires Reduced(f.terms) && AtomsWithin(f.terms, names)
    ensures var h := Form(AddTerms([], f.terms, k), k * f.constant);
      Reduced(h.terms) && AtomsWithin(h.terms, names) && ValueAt(h, rho) == k * ValueAt(f, rho)
  {
    CombinedForm(Form([], 0), f, k, {}, names, rho);
  }

  lemma WholeForm(e: Expr, rho: Valuation)
    ensures var h := Form([Scaled(Whole(e), 1)], 0);
      Reduced(h.terms) && AtomsWithin(h.terms, Vars(e)) && ValueAt(h, rho) == Eval(e, rho)
  {
    WholeMeans(e, rho);
    SingleTerm(Whole(e), 1, rho);
  }

  lemma WithinMore(ts: seq<Scaled>, names: set<string>, more: set<string>)
    requires AtomsWithin(ts, names)
    ensures AtomsWithin(ts, names + more) && AtomsWithin(ts, more + names)
  {
  }

  lemma ProductForm(a: Expr, b: Expr, rho: Valuation)
    requires Reduced(FormOf(a).terms) && Reduced(FormOf(b).terms)
    requires AtomsWithin(FormOf(a).terms, Vars(a)) && AtomsWithin(FormOf(b).terms, Vars(b))
    requires Eval(a, rho) == ValueAt(FormOf(a), rho) && Eval(b, rho) == ValueAt(FormOf(b), rho)
    ensures var f := FormOf(Mul(a, b));
      Reduced(f.terms) && AtomsWithin(f.terms, Vars(a) + Vars(b)) && ValueAt(f, rho) == Eval(a, rho) * Eval(b, rho)
  {
    var x, y, f := FormOf(a), FormOf(b), FormOf(Mul(a, b));
    if y.terms == [] {
      ScaledForm(x, y.constant, Vars(a), rho);
      WithinMore(f.terms, Vars(a), Vars(b));
      Commutes(Eval(a, rho), y.constant);
    } else if x.terms == [] {
      ScaledForm(y, x.constant, Vars(b), rho);
      WithinMore(f.terms, Vars(b), Vars(a));
    } else {
      WholeForm(Mul(a, b), rho);
    }
  }

  // ----- back to expressions -----

  function Print(ts: seq<Scaled>, k: int): Expr {
    if ts == [] then Const(k) else Add(Print(ts[1..], k), Mul(ts[0].atom, Const(ts[0].coef)))
  }

  lemma {:induction false} PrintMeans(ts: seq<Scaled>, k: int, rho: Valuation)
    ensures Eval(Print(ts, k), rho) == Sum(ts, rho) + k
  {
    if ts != [] {
      var t := ts[0];
      PrintMeans(ts[1..], k, rho);
      assert Eval(Const(t.coef), rho) == t.coef;
      assert Eval(Mul(t.atom, Const(t.coef)), rho) == Eval(t.atom, rho) * t.coef;
    }
  }

  lemma {:induction false} PrintVars(ts: seq<Scaled>, k: int, names: set<string>)
    requires AtomsWithin(ts, names)
    ensures Vars(Print(ts, k)) <= names
  {
    if ts != [] {
      assert Vars(ts[0].atom) <= names;
      ConstVars(ts[0].coef);
      forall a | a in Atoms(ts[1..]) ensures Vars(a) <= names { assert a in Atoms(ts); }
      PrintVars(ts[1..], k, names);
    }
  }

  /** Reading a printed form back gives the coefficients that were printed. */
  lemma {:induction false} PrintKeepsCoefs(ts: seq<Scaled>, k: int, b: Expr)
    requires Reduced(ts)
    ensures CoefOf(FormOf(Print(ts, k)).terms, b) == CoefOf(ts, b)
  {
    if ts != [] {
      var a, c := ts[0].atom, ts[0].coef;
      PrintKeepsCoefs(ts[1..], k, b);
      SingleTerm(a, 1, x => 0);
      assert FormOf(a).terms == [Scaled(a, 1)] && FormOf(Const(c)) == Form([], c);
      AddTermsCoef([], FormOf(a).terms, c, b);
      assert FormOf(Mul(a, Const(c))).terms == AddTerms([], [Scaled(a, 1)], c);
      AddTermsCoef(FormOf(Print(ts[1..], k)).terms, FormOf(Mul(a, Const(c))).terms, 1, b);
    }
  }

  // ----- the detector on printed forms -----

  /** The detected coefficient is a nonzero constant, and there is one only if the variable occurs. */
  predicate NonzeroOrAbsent(ts: seq<Scaled>, e: Expr, v: string, coeff: Option<Expr>) {
    if coeff.None? then v !in Vars(e) else Var(v) in Atoms(ts) && coeff.value.Const? && coeff.value.value != 0
  }

  lemma TermDetected(a: Expr, c: int, v: string)
    requires Atomic(a) && Visit(Mul(a, Const(c)), v).Some?
    ensures var coeff := Visit(Mul(a, Const(c)), v).value.coeff;
      if a == Var(v) then coeff == Some(Const(c)) else coeff.None? && v !in Vars(Mul(a, Const(c)))
  {
    ConstVars(c);
    assert Visit(Const(c), v) == Some(LinearEntry(Some(Const(c)), None));
  }

  lemma {:induction false} PrintedDetected(ts: seq<Scaled>, k: int, v: string)
    requires Reduced(ts) && Visit(Print(ts, k), v).Some?
    ensures NonzeroOrAbsent(ts, Print(ts, k), v, Visit(Print(ts, k), v).value.coeff)
  {
    if ts != [] {
      var rest, term := Print(ts[1..], k), Mul(ts[0].atom, Const(ts[0].coef));
      PrintedDetected(ts[1..], k, v);
      TermDetected(ts[0].atom, ts[0].coef, v);
      assert Visit(Print(ts, k), v).value.coeff ==
        AddCombine(Visit(rest, v).value.coeff, Visit(term, v).value.coeff);
      assert Vars(Print(ts, k)) == Vars(rest) + Vars(term);
    }
  }

  /** A zero coefficient of a printed form means that the variable does not occur. */
  lemma PrintedReports(ts: seq<Scaled>, k: int, v: string)
    requires Reduced(ts) && |Detected(Print(ts, k), [v])| == 2 && Detected(Print(ts, k), [v])[0] == Zero
    ensures v !in Vars(Print(ts, k))
  {
    var e := Print(ts, k);
    assert [v][0] == v && [v][1..] == [];
    var x := Visit(e, v).value;
    assert Peel(OrZero(x.base), []) == Some(([], OrZero(x.base)));
    assert Peel(e, [v]).value.0 == [OrZero(x.coeff)] + [];
    PrintedDetected(ts, k, v);
  }

  // ----- the analyzer -----

  function Simplified(e: Expr): Expr {
    if e.FloorDiv? && e.b.Const? && e.b.value > 0 && FormOf(e.a).terms == [] then
      Const(FormOf(e.a).constant / e.b.value)
    else Print(FormOf(e).terms, FormOf(e).constant)
  }

  /** A comparison whose sides differ by a constant is decided. */
  function Settled(c: Cond): Cond {
    if c.Cmp? && FormOf(Sub(c.lhs, c.rhs)).terms == [] then
      Lit(Compare(c.op, FormOf(Sub(c.lhs, c.rhs)).constant, 0))
    else c
  }

  const Linear: Analyzer :=
    Analyzer((rs, e) => Simplified(e), (rs, c) => Settled(c), (rs, c) => Settled(c) == Lit(true), Detected, KnownRange,
      KnownBound)

  lemma SimplifiedMeans(e: Expr, rho: Valuation)
    ensures Eval(Simplified(e), rho) == Eval(e, rho) && Vars(Simplified(e)) <= Vars(e)
  {
    if e.FloorDiv? && e.b.Const? && e.b.value > 0 && FormOf(e.a).terms == [] {
      FormMeans(e.a, rho);
      EvalFloorDiv(e.a, e.b.value, rho);
      ConstVars(FormOf(e.a).constant / e.b.value);
    } else {
      FormMeans(e, rho);
      PrintMeans(FormOf(e).terms, FormOf(e).constant, rho);
      PrintVars(FormOf(e).terms, FormOf(e).constant, Vars(e));
    }
  }

  lemma SettledMeans(c: Cond, rho: Valuation)
    ensures Holds(Settled(c), rho) == Holds(c, rho) && CondVars(Settled(c)) <= CondVars(c)
  {
    if c.Cmp? {
      FormMeans(Sub(c.lhs, c.rhs), rho);
      assert Eval(Sub(c.lhs, c.rhs), rho) == Eval(c.lhs, rho) - Eval(c.rhs, rho);
    }
  }

  lemma LinearSimplifies()
    ensures Linear.SoundSimplify()
  {
    forall e, rho: Valuation ensures Eval(Simplified(e), rho) == Eval(e, rho) { SimplifiedMeans(e, rho); }
    forall e ensures Vars(Simplified(e)) <= Vars(e) { SimplifiedMeans(e, s => 0); }
    forall c, rho: Valuation ensures Holds(Settled(c), rho) == Holds(c, rho) { SettledMeans(c, rho); }
    forall c ensures CondVars(Settled(c)) <= CondVars(c) { SettledMeans(c, s => 0); }
  }

  lemma LinearProves()
    ensures Linear.SoundProver()
  {
    forall c, rho: Valuation | Settled(c) == Lit(true) ensures Holds(c, rho) { SettledMeans(c, rho); }
  }

  lemma LinearAnalyzerSound()
    ensures Linear.SoundSimplify() && Linear.SoundProver() && Linear.SoundDetector() && Linear.SoundIntervals()
  {
    LinearSimplifies();
    LinearProves();
    assert Linear.SoundDetector() && Linear.SoundIntervals() by {
      ConcreteAnalyzerSound();
      assert Linear.detectLinear == Concrete.detectLinear && Linear.coverRange == Concrete.coverRange;
      assert Linear.upperBound == Concrete.upperBound;
    }
  }

  /** What it simplifies, the detector reads exactly. */
  lemma LinearReportsAbsence()
    ensures ZeroMeansAbsent(Linear)
  {
    forall e, v ensures ReportsAbsence(Linear, Linear.simplify(map[], e), v) {
      var s := Simplified(e);
      if |Detected(s, [v])| == 2 && Detected(s, [v])[0] == Zero {
        FormMeans(e, x => 0);
        if s.Const? { ConstVars(s.value); } else { PrintedReports(FormOf(e).terms, FormOf(e).constant, v); }
      }
    }
  }

  /** Without simplification it does not: in x - x the detector finds the coefficient 0. */
  lemma UnsimplifiedDifference(x: string)
    ensures !ReportsAbsence(Linear, Sub(Var(x), Var(x)), x) && !ZeroMeansAbsent(Concrete)
  {
    var e := Sub(Var(x), Var(x));
    assert Visit(Var(x), x) == Some(LinearEntry(None, Some(Const(1))));
    assert Visit(e, x) == Some(LinearEntry(None, Some(Const(0))));
    assert [x][0] == x && [x][1..] == [];
    assert Peel(Const(0), []) == Some(([], Const(0)));
    assert Peel(e, [x]).value.0 == [Const(0)] + [] == [Const(0)];
    assert Detected(e, [x]) == [Const(0)] + [Const(0)];
    assert x in Vars(e);
    assert !ReportsAbsence(Concrete, Concrete.simplify(map[], e), x);
  }

  // ----- the width of a range -----

  lemma ScaledCoefs(e: Expr, c: int, b: Expr)
    ensures CoefOf(FormOf(Simplified(Mul(e, Const(c)))).terms, b) == c * CoefOf(FormOf(e).terms, b)
  {
    var f := FormOf(Mul(e, Const(c)));
    FormMeans(Mul(e, Const(c)), x => 0);
    assert FormOf(Const(c)) == Form([], c);
    AddTermsCoef([], FormOf(e).terms, c, b);
    PrintKeepsCoefs(f.terms, f.constant, b);
  }

  lemma ShiftedCoefs(e: Expr, k: int, m: int, b: Expr)
    ensures CoefOf(FormOf(Sub(Add(e, Const(k)), Const(m))).terms, b) == CoefOf(FormOf(e).terms, b)
  {
    assert FormOf(Const(k)) == Form([], k) && FormOf(Const(m)) == Form([], m);
  }

  /** The ends of a range with a constant extent differ by a constant. */
  lemma OwnPairCancels(r: Range, coef: int)
    requires r.extent.Const?
    ensures FormOf(Sub(OwnPair(Linear, r, coef).1, OwnPair(Linear, r, coef).0)).terms == []
  {
    var low, upp := OwnPair(Linear, r, coef).0, OwnPair(Linear, r, coef).1;
    var top := Sub(Add(r.lo, r.extent), Const(1));
    var f := FormOf(Sub(upp, low));
    FormMeans(Sub(upp, low), x => 0);
    forall b ensures CoefOf(f.terms, b) == 0 {
      ScaledCoefs(r.lo, coef, b);
      ScaledCoefs(top, coef, b);
      ShiftedCoefs(r.lo, r.extent.value, 1, b);
      AddTermsCoef(FormOf(upp).terms, FormOf(low).terms, -1, b);
    }
    AllZero(f.terms);
  }

  lemma BoundsConstantWidth(r: Range)
    requires r.extent.Const?
    ensures BoundsWidth(Linear, r)
  {
    forall rs: Ranges, coef | coef > 0
      ensures PairDifference(Linear, rs, OwnPair(Linear, r, coef).0, OwnPair(Linear, r, coef).1, coef).Some?
    {
      OwnPairCancels(r, coef);
      var low, upp := OwnPair(Linear, r, coef).0, OwnPair(Linear, r, coef).1;
      var diff := Linear.simplify(rs, FloorDiv(Sub(upp, low), Const(coef)));
      assert diff == Simplified(FloorDiv(Sub(upp, low), Const(coef)));
      assert Linear.upperBound(rs, diff) == Some(diff);
    }
  }

  /** Solved variables with constant extents, and ranges that mention none of them. */
  ghost predicate ConstantExtents(sys: IntConstraints) {
    && (forall v :: v in sys.variables && v in sys.ranges ==> sys.ranges[v].extent.Const?)
    && RangesApart(sys)
  }

  /** Everything the two solvers ask of the analyzer, for every such system. */
  lemma LinearAnalyzerMeets(sys: IntConstraints)
    requires ConstantExtents(sys)
    ensures Linear.SoundSimplify() && Linear.SoundProver() && Linear.SoundDetector() && Linear.SoundIntervals()
    ensures Separated(Linear, sys) && BoundsWidths(Linear, sys)
  {
    LinearAnalyzerSound();
    LinearReportsAbsence();
    forall v | v in sys.variables && v in sys.ranges ensures BoundsWidth(Linear, sys.ranges[v]) {
      BoundsConstantWidth(sys.ranges[v]);
    }
  }
}
