/**
 Integer expressions of TIR (`PrimExpr`) with mathematical integers, and their
 value under a valuation of the variables.

 Dividing by zero has no meaning in TIR; here such an expression evaluates to 0.
 */
module Exprs {
  import IntOperator

  /** A valuation assigns an integer to every variable name. */
  type Valuation = string -> int

  datatype Expr =
    | Const(value: int)
    | Var(name: string)
    | Add(a: Expr, b: Expr)
    | Sub(a: Expr, b: Expr)
    | Mul(a: Expr, b: Expr)
    | Div(a: Expr, b: Expr)
    | Mod(a: Expr, b: Expr)
    | FloorDiv(a: Expr, b: Expr)
    | FloorMod(a: Expr, b: Expr)
    | Min(a: Expr, b: Expr)
    | Max(a: Expr, b: Expr)
    | Select(cond: Cond, yes: Expr, no: Expr)
    | Let(name: string, bound: Expr, body: Expr)

  datatype CompareOp = EQ | NE | LT | LE | GT | GE

  datatype Cond =
    | Lit(truth: bool)
    | Cmp(op: CompareOp, lhs: Expr, rhs: Expr)
    | And(p: Cond, q: Cond)
    | Or(p: Cond, q: Cond)
    | Not(p: Cond)

  function Bind(rho: Valuation, name: string, k: int): Valuation {
    s => if s == name then k else rho(s)
  }

  function Eval(e: Expr, rho: Valuation): int {
    match e
    case Const(c) => c
    case Var(v) => rho(v)
    case Add(a, b) => Eval(a, rho) + Eval(b, rho)
    case Sub(a, b) => Eval(a, rho) - Eval(b, rho)
    case Mul(a, b) => Eval(a, rho) * Eval(b, rho)
    case Div(a, b) =>
      var d := Eval(b, rho);
      if d == 0 then 0 else IntOperator.TruncDiv(Eval(a, rho), d)
    case Mod(a, b) =>
      var d := Eval(b, rho);
      if d == 0 then 0 else IntOperator.TruncMod(Eval(a, rho), d)
    case FloorDiv(a, b) =>
      var d := Eval(b, rho);
      if d == 0 then 0 else IntOperator.FloorDiv(Eval(a, rho), d)
    case FloorMod(a, b) =>
      var d := Eval(b, rho);
      if d == 0 then 0 else IntOperator.FloorMod(Eval(a, rho), d)
    case Min(a, b) => if Eval(a, rho) <= Eval(b, rho) then Eval(a, rho) else Eval(b, rho)
    case Max(a, b) => if Eval(a, rho) >= Eval(b, rho) then Eval(a, rho) else Eval(b, rho)
    case Select(c, a, b) => if Holds(c, rho) then Eval(a, rho) else Eval(b, rho)
    case Let(v, k, e) => Eval(e, Bind(rho, v, Eval(k, rho)))
  }

  lemma EvalConst(k: int, rho: Valuation)
    ensures Eval(Const(k), rho) == k
  {
  }

  lemma EvalAdd(a: Expr, b: Expr, rho: Valuation)
    ensures Eval(Add(a, b), rho) == Eval(a, rho) + Eval(b, rho)
  {
  }

  lemma EvalSub(a: Expr, b: Expr, rho: Valuation)
    ensures Eval(Sub(a, b), rho) == Eval(a, rho) - Eval(b, rho)
  {
  }

  lemma EvalMul(a: Expr, b: Expr, rho: Valuation)
    ensures Eval(Mul(a, b), rho) == Eval(a, rho) * Eval(b, rho)
  {
  }

  predicate Holds(c: Cond, rho: Valuation) {
    match c
    case Lit(b) => b
    case Cmp(op, a, b) => Compare(op, Eval(a, rho), Eval(b, rho))
    case And(p, q) => Holds(p, rho) && Holds(q, rho)
    case Or(p, q) => Holds(p, rho) || Holds(q, rho)
    case Not(p) => !Holds(p, rho)
  }

  predicate Compare(op: CompareOp, x: int, y: int) {
    match op
    case EQ => x == y
    case NE => x != y
    case LT => x < y
    case LE => x <= y
    case GT => x > y
    case GE => x >= y
  }

  /** The variables an expression's value may depend on (a `Let` hides its own name). */
  function Vars(e: Expr): set<string> {
    match e
    case Const(_) => {}
    case Var(v) => {v}
    case Select(c, a, b) => CondVars(c) + Vars(a) + Vars(b)
    case Let(v, k, e) => Vars(k) + (Vars(e) - {v})
    case Add(a, b) => Vars(a) + Vars(b)
    case Sub(a, b) => Vars(a) + Vars(b)
    case Mul(a, b) => Vars(a) + Vars(b)
    case Div(a, b) => Vars(a) + Vars(b)
    case Mod(a, b) => Vars(a) + Vars(b)
    case FloorDiv(a, b) => Vars(a) + Vars(b)
    case FloorMod(a, b) => Vars(a) + Vars(b)
    case Min(a, b) => Vars(a) + Vars(b)
    case Max(a, b) => Vars(a) + Vars(b)
  }

  function CondVars(c: Cond): set<string> {
    match c
    case Lit(_) => {}
    case Cmp(_, a, b) => Vars(a) + Vars(b)
    case And(p, q) => CondVars(p) + CondVars(q)
    case Or(p, q) => CondVars(p) + CondVars(q)
    case Not(p) => CondVars(p)
  }

  ghost predicate Agree(vs: set<string>, rho: Valuation, sigma: Valuation) {
    forall v :: v in vs ==> rho(v) == sigma(v)
  }

  /** A value depends only on the variables that occur. */
  lemma {:induction false} EvalAgree(e: Expr, rho: Valuation, sigma: Valuation)
    requires Agree(Vars(e), rho, sigma)
    ensures Eval(e, rho) == Eval(e, sigma)
  {
    match e
    case Const(_) =>
    case Var(_) =>
    case Select(c, a, b) => HoldsAgree(c, rho, sigma); EvalAgree(a, rho, sigma); EvalAgree(b, rho, sigma);
    case Let(v, k, body) =>
      EvalAgree(k, rho, sigma);
      EvalAgree(body, Bind(rho, v, Eval(k, rho)), Bind(sigma, v, Eval(k, sigma)));
    case _ => EvalAgree(e.a, rho, sigma); EvalAgree(e.b, rho, sigma);
  }

  lemma {:induction false} HoldsAgree(c: Cond, rho: Valuation, sigma: Valuation)
    requires Agree(CondVars(c), rho, sigma)
    ensures Holds(c, rho) == Holds(c, sigma)
  {
    match c
    case Lit(_) =>
    case Cmp(_, a, b) => EvalAgree(a, rho, sigma); EvalAgree(b, rho, sigma);
    case And(p, q) => HoldsAgree(p, rho, sigma); HoldsAgree(q, rho, sigma);
    case Or(p, q) => HoldsAgree(p, rho, sigma); HoldsAgree(q, rho, sigma);
    case Not(p) => HoldsAgree(p, rho, sigma);
  }

  // ----- substitution -----

  type Substitution = map<string, Expr>

  /** tir::Substitute. Variables are unique objects in TIR, so no renaming is done under `Let`. */
  function Subst(e: Expr, sub: Substitution): Expr {
    match e
    case Const(_) => e
    case Var(v) => if v in sub then sub[v] else e
    case Add(a, b) => Add(Subst(a, sub), Subst(b, sub))
    case Sub(a, b) => Sub(Subst(a, sub), Subst(b, sub))
    case Mul(a, b) => Mul(Subst(a, sub), Subst(b, sub))
    case Div(a, b) => Div(Subst(a, sub), Subst(b, sub))
    case Mod(a, b) => Mod(Subst(a, sub), Subst(b, sub))
    case FloorDiv(a, b) => FloorDiv(Subst(a, sub), Subst(b, sub))
    case FloorMod(a, b) => FloorMod(Subst(a, sub), Subst(b, sub))
    case Min(a, b) => Min(Subst(a, sub), Subst(b, sub))
    case Max(a, b) => Max(Subst(a, sub), Subst(b, sub))
    case Select(c, a, b) => Select(SubstCond(c, sub), Subst(a, sub), Subst(b, sub))
    case Let(v, k, b) => Let(v, Subst(k, sub), Subst(b, sub))
  }

  function SubstCond(c: Cond, sub: Substitution): Cond {
    match c
    case Lit(_) => c
    case Cmp(op, a, b) => Cmp(op, Subst(a, sub), Subst(b, sub))
    case And(p, q) => And(SubstCond(p, sub), SubstCond(q, sub))
    case Or(p, q) => Or(SubstCond(p, sub), SubstCond(q, sub))
    case Not(p) => Not(SubstCond(p, sub))
  }

  /** The valuation that gives substituted variables the value of their replacement. */
  function Apply(sub: Substitution, rho: Valuation): Valuation {
    s => if s in sub then Eval(sub[s], rho) else rho(s)
  }

  /** Uniqueness of let-bound names: none is substituted for or mentioned by a replacement. */
  ghost predicate Unique(name: string, sub: Substitution) {
    name !in sub && forall v :: v in sub ==> name !in Vars(sub[v])
  }

  /** The names bound by `Let` anywhere inside. */
  function LetNames(e: Expr): set<string> {
    match e
    case Const(_) => {}
    case Var(_) => {}
    case Select(c, a, b) => CondLetNames(c) + LetNames(a) + LetNames(b)
    case Let(v, k, b) => {v} + LetNames(k) + LetNames(b)
    case Add(a, b) => LetNames(a) + LetNames(b)
    case Sub(a, b) => LetNames(a) + LetNames(b)
    case Mul(a, b) => LetNames(a) + LetNames(b)
    case Div(a, b) => LetNames(a) + LetNames(b)
    case Mod(a, b) => LetNames(a) + LetNames(b)
    case FloorDiv(a, b) => LetNames(a) + LetNames(b)
    case FloorMod(a, b) => LetNames(a) + LetNames(b)
    case Min(a, b) => LetNames(a) + LetNames(b)
    case Max(a, b) => LetNames(a) + LetNames(b)
  }

  function CondLetNames(c: Cond): set<string> {
    match c
    case Lit(_) => {}
    case Cmp(_, a, b) => LetNames(a) + LetNames(b)
    case And(p, q) => CondLetNames(p) + CondLetNames(q)
    case Or(p, q) => CondLetNames(p) + CondLetNames(q)
    case Not(p) => CondLetNames(p)
  }

  /** Substituting into the text is the same as substituting into the valuation. */
  lemma {:induction false} SubstEval(e: Expr, sub: Substitution, rho: Valuation)
    requires forall v :: v in LetNames(e) ==> Unique(v, sub)
    ensures Eval(Subst(e, sub), rho) == Eval(e, Apply(sub, rho))
  {
    match e
    case Const(_) =>
    case Var(_) =>
    case Select(c, a, b) => SubstHolds(c, sub, rho); SubstEval(a, sub, rho); SubstEval(b, sub, rho);
    case Let(v, k, b) =>
      assert v in LetNames(e);
      SubstEval(k, sub, rho);
      var val := Eval(k, Apply(sub, rho));
      SubstEval(b, sub, Bind(rho, v, val));
      forall w | w in Vars(b)
        ensures Apply(sub, Bind(rho, v, val))(w) == Bind(Apply(sub, rho), v, val)(w)
      {
        if w in sub { EvalAgree(sub[w], Bind(rho, v, val), rho); }
      }
      EvalAgree(b, Apply(sub, Bind(rho, v, val)), Bind(Apply(sub, rho), v, val));
    case _ => SubstEval(e.a, sub, rho); SubstEval(e.b, sub, rho);
  }

  lemma {:induction false} SubstHolds(c: Cond, sub: Substitution, rho: Valuation)
    requires forall v :: v in CondLetNames(c) ==> Unique(v, sub)
    ensures Holds(SubstCond(c, sub), rho) == Holds(c, Apply(sub, rho))
  {
    match c
    case Lit(_) =>
    case Cmp(_, a, b) => SubstEval(a, sub, rho); SubstEval(b, sub, rho);
    case And(p, q) => SubstHolds(p, sub, rho); SubstHolds(q, sub, rho);
    case Or(p, q) => SubstHolds(p, sub, rho); SubstHolds(q, sub, rho);
    case Not(p) => SubstHolds(p, sub, rho);
  }
}
