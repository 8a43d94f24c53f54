/**
 BoundDeducer of src/arith/bound_deducer.cc: solving a comparison for a variable
 that occurs once, by inverting the operators on the path to it. Nothing is
 relaxed.
 */
module BoundDeducer {
  import opened Options
  import opened IntOperator
  import opened Exprs

  datatype Direction = Greater | Less | Equal

  function ReverseOp(op: Direction): Direction {
    match op
    case Equal => Equal
    case Greater => Less
    case Less => Greater
  }

  /** x >= y, x <= y or x == y. */
  predicate Meets(op: Direction, x: int, y: int) {
    match op
    case Greater => x >= y
    case Less => x <= y
    case Equal => x == y
  }

  datatype Sign = Positive | Negative | Zero | Unknown

  /**
   The sign of an operand by its interval, the divisibility of a result, and whether a divisor is
   proved to be 0, as the analyses report them. The interval may know more than the prover.
   */
  datatype Oracle = Oracle(sign: Expr -> Sign, divides: (Expr, Expr) -> bool, isZero: Expr -> bool)

  ghost predicate SignSound(o: Oracle, e: Expr, rho: Valuation) {
    && (o.sign(e) == Positive ==> Eval(e, rho) > 0)
    && (o.sign(e) == Negative ==> Eval(e, rho) < 0)
    && (o.sign(e) == Zero ==> Eval(e, rho) == 0)
  }

  ghost predicate SoundSigns(o: Oracle, rho: Valuation) {
    forall e :: SignSound(o, e, rho)
  }

  /** Occurrences of the target. */
  function Count(e: Expr, t: string): nat {
    match e
    case Const(_) => 0
    case Var(v) => if v == t then 1 else 0
    case Select(c, a, b) => CondCount(c, t) + Count(a, t) + Count(b, t)
    case Let(_, k, b) => Count(k, t) + Count(b, t)
    case Add(a, b) => Count(a, t) + Count(b, t)
    case Sub(a, b) => Count(a, t) + Count(b, t)
    case Mul(a, b) => Count(a, t) + Count(b, t)
    case Div(a, b) => Count(a, t) + Count(b, t)
    case Mod(a, b) => Count(a, t) + Count(b, t)
    case FloorDiv(a, b) => Count(a, t) + Count(b, t)
    case FloorMod(a, b) => Count(a, t) + Count(b, t)
    case Min(a, b) => Count(a, t) + Count(b, t)
    case Max(a, b) => Count(a, t) + Count(b, t)
  }

  function CondCount(c: Cond, t: string): nat {
    match c
    case Lit(_) => 0
    case Cmp(_, a, b) => Count(a, t) + Count(b, t)
    case And(p, q) => CondCount(p, t) + CondCount(q, t)
    case Or(p, q) => CondCount(p, t) + CondCount(q, t)
    case Not(p) => CondCount(p, t)
  }

  lemma {:induction false} NoOccurrence(e: Expr, t: string)
    requires Count(e, t) == 0
    ensures t !in Vars(e)
  {
    match e
    case Const(_) =>
    case Var(_) =>
    case Select(c, a, b) => NoCondOccurrence(c, t); NoOccurrence(a, t); NoOccurrence(b, t);
    case Let(_, k, b) => NoOccurrence(k, t); NoOccurrence(b, t);
    case _ => NoOccurrence(e.a, t); NoOccurrence(e.b, t);
  }

  lemma {:induction false} NoCondOccurrence(c: Cond, t: string)
    requires CondCount(c, t) == 0
    ensures t !in CondVars(c)
  {
    match c
    case Lit(_) =>
    case Cmp(_, a, b) => NoOccurrence(a, t); NoOccurrence(b, t);
    case And(p, q) => NoCondOccurrence(p, t); NoCondOccurrence(q, t);
    case Or(p, q) => NoCondOccurrence(p, t); NoCondOccurrence(q, t);
    case Not(p) => NoCondOccurrence(p, t);
  }

  // ----- inverting one operator -----

  /** A comparison of the sub-expression on the path with the accumulated result. */
  datatype Goal = Goal(op: Direction, result: Expr)

  function Negated(e: Expr): Expr {
    Sub(Const(0), e)
  }

  /** The operand not on the path, and the one on it. */
  function Other(e: Expr, t: string): Expr
    requires e.Add? || e.Sub? || e.Mul? || e.FloorDiv?
  {
    if Count(e.a, t) > 0 then e.b else e.a
  }

  function Next(e: Expr, t: string): Expr
    requires e.Add? || e.Sub? || e.Mul? || e.FloorDiv?
  {
    if Count(e.a, t) > 0 then e.a else e.b
  }

  function Invert(o: Oracle, t: string, e: Expr, g: Goal): Option<Goal>
    requires e.Add? || e.Sub? || e.Mul? || e.FloorDiv?
  {
    var other := Other(e, t);
    match e
    case Add(_, _) => Some(g.(result := Sub(g.result, other)))
    case Sub(_, _) =>
      if Count(e.a, t) > 0 then Some(g.(result := Add(g.result, other)))
      else Some(Goal(ReverseOp(g.op), Negated(Sub(g.result, other))))
    case Mul(_, _) =>
      if o.sign(other) == Unknown then None else
        var op := Turned(o, other, g.op);
        var divided, quotient := o.divides(g.result, other), Expr.FloorDiv(g.result, other);
        if divided then Some(Goal(op, quotient))
        else if op == Greater then Some(Goal(op, Add(quotient, Const(1))))
        else if op == Equal then None
        else Some(Goal(op, quotient))
    case FloorDiv(_, _) =>
      if Count(e.a, t) == 0 || o.isZero(other) || o.sign(other) == Unknown then None else
        var negative := o.sign(other) == Negative;
        var op := if negative then ReverseOp(g.op) else g.op;
        var divisor := if negative then Negated(other) else other;
        var start := if negative then Negated(g.result) else g.result;
        if op == Equal then None else
          var scaled := if op == Greater then Mul(start, divisor) else Sub(Add(Mul(start, divisor), divisor), Const(1));
          Some(Goal(op, if negative then Add(Sub(scaled, divisor), Const(1)) else scaled))
  }

  /** The comparison after dividing by an operand of known sign. */
  function Turned(o: Oracle, operand: Expr, op: Direction): Direction {
    if o.sign(operand) == Negative then ReverseOp(op) else op
  }

  /** The operand to divide by is not known to be 0. */
  predicate NoZeroOperand(o: Oracle, t: string, e: Expr)
    requires e.Add? || e.Sub? || e.Mul? || e.FloorDiv?
  {
    e.Mul? || e.FloorDiv? ==> o.sign(Other(e, t)) != Zero
  }

  /** What is reported divisible is, and the operand is not known to be 0. */
  ghost predicate DecisionSound(o: Oracle, t: string, e: Expr, g: Goal, rho: Valuation)
    requires e.Add? || e.Sub? || e.Mul? || e.FloorDiv?
  {
    && NoZeroOperand(o, t, e)
    && (e.Mul? && o.divides(g.result, Other(e, t)) ==>
          Turned(o, Other(e, t), g.op) == Less || Divides(Eval(Other(e, t), rho), Eval(g.result, rho)))
  }

  /**
   And where the quotient becomes a lower bound, what is divisible is reported so; an upper bound needs no decision.
   */
  ghost predicate DecisionRight(o: Oracle, t: string, e: Expr, g: Goal, rho: Valuation)
    requires e.Add? || e.Sub? || e.Mul? || e.FloorDiv?
  {
    && DecisionSound(o, t, e, g, rho)
    && (e.Mul? && Turned(o, Other(e, t), g.op) == Greater && Divides(Eval(Other(e, t), rho), Eval(g.result, rho)) ==>
          o.divides(g.result, Other(e, t)))
  }

  // ----- arithmetic -----

  lemma MultipliedBy(x: int, m: int, r: int)
    requires m != 0
    ensures m > 0 ==> (x * m <= r <==> x <= IntOperator.FloorDiv(r, m))
    ensures m < 0 ==> (x * m >= r <==> x <= IntOperator.FloorDiv(r, m))
    ensures m > 0 ==> (x * m >= r <==> x >= IntOperator.FloorDiv(r, m) + if Divides(m, r) then 0 else 1)
    ensures m < 0 ==> (x * m <= r <==> x >= IntOperator.FloorDiv(r, m) + if Divides(m, r) then 0 else 1)
    ensures Divides(m, r) ==> (x * m == r <==> x == IntOperator.FloorDiv(r, m))
  {
    FloorLaw(r, m);
    FloorModZero(r, m);
    var q, s := IntOperator.FloorDiv(r, m), IntOperator.FloorMod(r, m);
    if m > 0 { Ordered(x, q, m, s); } else {
      Ordered(x, q, -m, -s);
      assert x * -m == -(x * m) && q * -m == -(q * m);
    }
  }

  /** Comparing x * m with q * m + s, 0 <= s < m. */
  lemma Ordered(x: int, q: int, m: int, s: int)
    requires m > 0 && 0 <= s < m
    ensures x * m <= q * m + s <==> x <= q
    ensures x * m >= q * m + s <==> x >= q + if s == 0 then 0 else 1
    ensures x * m == q * m <==> x == q
  {
    if x <= q { MulMono(x, q, m); } else { MulMono(q + 1, x, m); }
    if x >= q + 1 { MulMono(q + 1, x, m); }
    if x < q { MulMono(x, q - 1, m); }
    assert (q + 1) * m == q * m + m && (q - 1) * m == q * m - m;
  }

  lemma MulMono(a: int, b: int, m: int)
    requires a <= b && m > 0
    ensures a * m <= b * m
  {
  }

  lemma DividedBy(x: int, d: int, r: int)
    requires d > 0
    ensures IntOperator.FloorDiv(x, d) >= r <==> x >= r * d
    ensures IntOperator.FloorDiv(x, d) <= r <==> x <= r * d + d - 1
    ensures IntOperator.FloorDiv(x, -d) >= r <==> x <= (-r) * d
    ensures IntOperator.FloorDiv(x, -d) <= r <==> x >= (-r) * d - d + 1
  {
    FloorLaw(x, d);
    var q := IntOperator.FloorDiv(x, d);
    if q >= r { MulMono(r, q, d); } else { MulMono(q, r - 1, d); }
    if q <= r { MulMono(q, r, d); } else { MulMono(r + 1, q, d); }
    assert (r - 1) * d == r * d - d && (r + 1) * d == r * d + d;
    FloorLaw(x, -d);
    var p := IntOperator.FloorDiv(x, -d);
    assert p * -d == -(p * d) && (-r) * d == -(r * d);
    if p >= r { MulMono(r, p, d); } else { MulMono(p, r - 1, d); }
    if p <= r { MulMono(p, r, d); } else { MulMono(r + 1, p, d); }
  }

  lemma NegatedValue(e: Expr, rho: Valuation)
    ensures Eval(Negated(e), rho) == -Eval(e, rho)
  {
    assert Eval(Const(0), rho) == 0;
  }

  lemma InvertLinear(o: Oracle, t: string, e: Expr, g: Goal, rho: Valuation)
    requires (e.Add? || e.Sub?) && Invert(o, t, e, g).Some?
    ensures var h := Invert(o, t, e, g).value;
      Meets(g.op, Eval(e, rho), Eval(g.result, rho)) <==> Meets(h.op, Eval(Next(e, t), rho), Eval(h.result, rho))
  {
    var other := Other(e, t);
    assert Eval(Sub(g.result, other), rho) == Eval(g.result, rho) - Eval(other, rho);
    assert Eval(Add(g.result, other), rho) == Eval(g.result, rho) + Eval(other, rho);
    NegatedValue(Sub(g.result, other), rho);
  }

  /** The deduced bound on x, in numbers: the quotient, or one more. */
  function QuotientBound(m: int, r: int, op: Direction, divided: bool): int
    requires m != 0
  {
    IntOperator.FloorDiv(r, m) + if op == Greater && !divided then 1 else 0
  }

  lemma MulParts(o: Oracle, t: string, e: Expr, g: Goal, rho: Valuation)
    requires e.Mul? && Invert(o, t, e, g).Some? && SoundSigns(o, rho) && NoZeroOperand(o, t, e)
    ensures var other, h := Other(e, t), Invert(o, t, e, g).value;
      && Eval(other, rho) != 0 && (Eval(other, rho) < 0 <==> o.sign(other) == Negative)
      && Eval(e, rho) == Eval(Next(e, t), rho) * Eval(other, rho) && h.op == Turned(o, other, g.op)
      && Eval(h.result, rho) == QuotientBound(Eval(other, rho), Eval(g.result, rho), h.op, o.divides(g.result, other))
      && (h.op == Equal ==> o.divides(g.result, other))
  {
    var other, next := Other(e, t), Next(e, t);
    var x, m := Eval(next, rho), Eval(other, rho);
    assert Eval(e, rho) == x * m by { if next != e.a { assert m * x == x * m; } }
    var quotient := Expr.FloorDiv(g.result, other);
    assert SignSound(o, other, rho);
    assert Eval(Const(1), rho) == 1;
    assert Eval(Add(quotient, Const(1)), rho) == Eval(quotient, rho) + 1;
  }

  /** Comparing x * m with r, and x with the bound. */
  lemma BoundTurns(x: int, m: int, r: int, op: Direction, divided: bool)
    requires m != 0 && (op == Equal ==> divided)
    ensures var turned := if m < 0 then ReverseOp(op) else op;
      && (turned == Less || (divided ==> Divides(m, r)) ==>
        (Meets(turned, x, QuotientBound(m, r, turned, divided)) ==> Meets(op, x * m, r)))
      && (turned == Less || (divided <==> Divides(m, r)) ==>
        (Meets(turned, x, QuotientBound(m, r, turned, divided)) <==> Meets(op, x * m, r)))
  {
    MultipliedBy(x, m, r);
  }

  lemma InvertMul(o: Oracle, t: string, e: Expr, g: Goal, rho: Valuation)
    requires e.Mul? && Invert(o, t, e, g).Some? && SoundSigns(o, rho) && DecisionSound(o, t, e, g, rho)
    ensures var h := Invert(o, t, e, g).value;
      Meets(h.op, Eval(Next(e, t), rho), Eval(h.result, rho)) ==> Meets(g.op, Eval(e, rho), Eval(g.result, rho))
    ensures var h := Invert(o, t, e, g).value; DecisionRight(o, t, e, g, rho) ==>
      (Meets(g.op, Eval(e, rho), Eval(g.result, rho)) <==> Meets(h.op, Eval(Next(e, t), rho), Eval(h.result, rho)))
  {
    MulParts(o, t, e, g, rho);
    BoundTurns(Eval(Next(e, t), rho), Eval(Other(e, t), rho), Eval(g.result, rho), g.op,
      o.divides(g.result, Other(e, t)));
  }

  lemma InvertDiv(o: Oracle, t: string, e: Expr, g: Goal, rho: Valuation)
    requires e.FloorDiv? && Invert(o, t, e, g).Some? && SoundSigns(o, rho) && NoZeroOperand(o, t, e)
    ensures var h := Invert(o, t, e, g).value;
      Meets(g.op, Eval(e, rho), Eval(g.result, rho)) <==> Meets(h.op, Eval(Next(e, t), rho), Eval(h.result, rho))
  {
    var other := e.b;
    var x, d, r := Eval(e.a, rho), Eval(e.b, rho), Eval(g.result, rho);
    assert SignSound(o, other, rho);
    DividedBy(x, Abs(d), r);
    var negative := o.sign(other) == Negative;
    var divisor := if negative then Negated(other) else other;
    var start := if negative then Negated(g.result) else g.result;
    NegatedValue(other, rho);
    NegatedValue(g.result, rho);
    assert Eval(Const(1), rho) == 1;
    var product := Mul(start, divisor);
    assert Eval(product, rho) == (if negative then (-r) * -d else r * d);
    assert Eval(Sub(Add(product, divisor), Const(1)), rho) == Eval(product, rho) + Abs(d) - 1 by {
      assert Eval(Add(product, divisor), rho) == Eval(product, rho) + Abs(d);
    }
    assert Eval(e, rho) == IntOperator.FloorDiv(x, d);
  }

  // ----- the walk along the path -----

  /** The walk from `e` down to the target. */
  function Walk(o: Oracle, t: string, e: Expr, g: Goal): Option<Goal>
    decreases e, 1
  {
    match e
    case Var(v) => if v == t then Some(g) else None
    case Add(_, _) => Descend(o, t, e, g)
    case Sub(_, _) => Descend(o, t, e, g)
    case Mul(_, _) => Descend(o, t, e, g)
    case FloorDiv(_, _) => Descend(o, t, e, g)
    case _ => None
  }

  function Descend(o: Oracle, t: string, e: Expr, g: Goal): Option<Goal>
    requires e.Add? || e.Sub? || e.Mul? || e.FloorDiv?
    decreases e, 0
  {
    match Invert(o, t, e, g)
    case None => None
    case Some(h) => if Count(e.a, t) > 0 then Walk(o, t, e.a, h) else Walk(o, t, e.b, h)
  }

  predicate Inner(e: Expr) {
    e.Add? || e.Sub? || e.Mul? || e.FloorDiv?
  }

  /** Every divisibility decision on the way is sound, and right if so asked. */
  ghost predicate Decisions(o: Oracle, t: string, e: Expr, g: Goal, rho: Valuation, right: bool)
    decreases e
  {
    Inner(e) ==>
      && DecisionSound(o, t, e, g, rho) && (right ==> DecisionRight(o, t, e, g, rho))
      && (Invert(o, t, e, g).Some? ==>
        Decisions(o, t, if Count(e.a, t) > 0 then e.a else e.b, Invert(o, t, e, g).value, rho, right))
  }

  /** Inverting one operator: the new goal implies the old one, and is equivalent where the decision is right. */
  lemma InvertExact(o: Oracle, t: string, e: Expr, g: Goal, rho: Valuation)
    requires Inner(e) && Invert(o, t, e, g).Some? && SoundSigns(o, rho) && DecisionSound(o, t, e, g, rho)
    ensures var h := Invert(o, t, e, g).value;
      Meets(h.op, Eval(Next(e, t), rho), Eval(h.result, rho)) ==> Meets(g.op, Eval(e, rho), Eval(g.result, rho))
    ensures var h := Invert(o, t, e, g).value; DecisionRight(o, t, e, g, rho) ==>
      (Meets(g.op, Eval(e, rho), Eval(g.result, rho)) <==> Meets(h.op, Eval(Next(e, t), rho), Eval(h.result, rho)))
  {
    if e.Mul? { InvertMul(o, t, e, g, rho); } else if e.FloorDiv? { InvertDiv(o, t, e, g, rho); } else {
      InvertLinear(o, t, e, g, rho);
    }
  }

  lemma InvertCount(o: Oracle, t: string, e: Expr, g: Goal)
    requires (e.Add? || e.Sub? || e.Mul? || e.FloorDiv?) && Invert(o, t, e, g).Some? && Count(e, t) == 1
    requires Count(g.result, t) == 0
    ensures Count(Next(e, t), t) == 1 && Count(Invert(o, t, e, g).value.result, t) == 0
  {
    var other := Other(e, t);
    assert Count(e, t) == Count(e.a, t) + Count(e.b, t);
    assert Count(Const(0), t) == 0 && Count(Const(1), t) == 0;
    NegatedCount(other, t);
    NegatedCount(g.result, t);
    if e.Mul? {
      var quotient := Expr.FloorDiv(g.result, other);
      assert Count(quotient, t) == 0 && Count(Add(quotient, Const(1)), t) == 0;
    } else if e.FloorDiv? {
      var divisor := if o.sign(other) == Negative then Negated(other) else other;
      var start := if o.sign(other) == Negative then Negated(g.result) else g.result;
      var product := Mul(start, divisor);
      assert Count(product, t) == 0;
      var shifted := Sub(Add(product, divisor), Const(1));
      assert Count(Add(product, divisor), t) == 0;
      assert Count(shifted, t) == 0;
      assert Count(Sub(product, divisor), t) == 0 && Count(Sub(shifted, divisor), t) == 0;
    } else {
      assert Count(Sub(g.result, other), t) == 0 && Count(Add(g.result, other), t) == 0;
      NegatedCount(Sub(g.result, other), t);
    }
  }

  lemma NegatedCount(e: Expr, t: string)
    ensures Count(Negated(e), t) == Count(e, t)
  {
    assert Count(Const(0), t) == 0;
  }

  /**
   The deduced comparison of the target implies the original one, and holds exactly where that does if the decisions are
   right.
   */
  lemma {:induction false} WalkExact(o: Oracle, t: string, e: Expr, g: Goal, rho: Valuation, right: bool)
    requires Count(e, t) == 1 && Count(g.result, t) == 0 && Walk(o, t, e, g).Some?
    requires SoundSigns(o, rho) && Decisions(o, t, e, g, rho, right)
    ensures var h := Walk(o, t, e, g).value;
      && Count(h.result, t) == 0
      && (Meets(h.op, rho(t), Eval(h.result, rho)) ==> Meets(g.op, Eval(e, rho), Eval(g.result, rho)))
      && (right ==> (Meets(g.op, Eval(e, rho), Eval(g.result, rho)) <==> Meets(h.op, rho(t), Eval(h.result, rho))))
  {
    if Inner(e) {
      InvertExact(o, t, e, g, rho);
      InvertCount(o, t, e, g);
      WalkExact(o, t, Next(e, t), Invert(o, t, e, g).value, rho, right);
    }
  }

  // ----- the comparison -----

  /** Transform: the side with the target against the other side, without strict comparisons. */
  function Transform(c: Cond, t: string): Option<(Expr, Goal)> {
    match c
    case Cmp(LT, a, b) =>
      if Count(a, t) == 0 then Some((b, Goal(Greater, Add(a, Const(1))))) else Some((a, Goal(Less, Sub(b, Const(1)))))
    case Cmp(LE, a, b) => if Count(a, t) == 0 then Some((b, Goal(Greater, a))) else Some((a, Goal(Less, b)))
    case Cmp(GT, a, b) =>
      if Count(a, t) == 0 then Some((b, Goal(Less, Sub(a, Const(1))))) else Some((a, Goal(Greater, Add(b, Const(1)))))
    case Cmp(GE, a, b) => if Count(a, t) == 0 then Some((b, Goal(Less, a))) else Some((a, Goal(Greater, b)))
    case Cmp(EQ, a, b) => if Count(a, t) == 0 then Some((b, Goal(Equal, a))) else Some((a, Goal(Equal, b)))
    case _ => None
  }

  lemma TransformExact(c: Cond, t: string, rho: Valuation)
    requires Transform(c, t).Some? && CondCount(c, t) == 1
    ensures var (e, g) := Transform(c, t).value;
      && Count(e, t) == 1 && Count(g.result, t) == 0
      && (Holds(c, rho) <==> Meets(g.op, Eval(e, rho), Eval(g.result, rho)))
  {
    assert Eval(Const(1), rho) == 1 && Count(Const(1), t) == 0;
    assert Eval(Add(c.lhs, Const(1)), rho) == Eval(c.lhs, rho) + 1 &&
      Eval(Sub(c.lhs, Const(1)), rho) == Eval(c.lhs, rho) - 1;
    assert Eval(Add(c.rhs, Const(1)), rho) == Eval(c.rhs, rho) + 1 &&
      Eval(Sub(c.rhs, Const(1)), rho) == Eval(c.rhs, rho) - 1;
    assert Count(Add(c.lhs, Const(1)), t) == Count(c.lhs, t) == Count(Sub(c.lhs, Const(1)), t);
    assert Count(Add(c.rhs, Const(1)), t) == Count(c.rhs, t) == Count(Sub(c.rhs, Const(1)), t);
  }

  /** An interval whose ends are expressions; None is infinite. */
  datatype Interval = Interval(lo: Option<Expr>, hi: Option<Expr>)

  predicate InInterval(i: Interval, x: int, rho: Valuation) {
    && (i.lo.Some? ==> Eval(i.lo.value, rho) <= x)
    && (i.hi.Some? ==> x <= Eval(i.hi.value, rho))
  }

  function ToInterval(g: Goal): Interval {
    match g.op
    case Equal => Interval(Some(g.result), Some(g.result))
    case Greater => Interval(Some(g.result), None)
    case Less => Interval(None, Some(g.result))
  }

  /** The interval holds only values of the target that satisfy the condition. */
  ghost predicate Only(i: Interval, c: Cond, t: string, rho: Valuation) {
    forall k :: InInterval(i, k, rho) ==> Holds(c, Bind(rho, t, k))
  }

  /** It holds them all, and no others. */
  ghost predicate Exactly(i: Interval, c: Cond, t: string, rho: Valuation) {
    forall k :: InInterval(i, k, rho) <==> Holds(c, Bind(rho, t, k))
  }

  /** The decisions of the walk are sound, and right if so asked, whatever the target is worth. */
  ghost predicate Decided(o: Oracle, c: Cond, t: string, rho: Valuation, right: bool) {
    Transform(c, t).Some? ==> forall k :: DecidedAt(o, Transform(c, t).value, t, Bind(rho, t, k), right)
  }

  ghost predicate DecidedAt(o: Oracle, start: (Expr, Goal), t: string, sigma: Valuation, right: bool) {
    SoundSigns(o, sigma) && Decisions(o, t, start.0, start.1, sigma, right)
  }

  /** A prover whose answers are true makes sound decisions. */
  ghost predicate SoundOracle(o: Oracle, rho: Valuation) {
    SoundSigns(o, rho) && forall a, b :: o.divides(a, b) ==> Divides(Eval(b, rho), Eval(a, rho))
  }

  /** No operand on the path is known to be 0. */
  predicate NoZeroOnPath(o: Oracle, t: string, e: Expr) {
    Inner(e) ==> NoZeroOperand(o, t, e) && NoZeroOnPath(o, t, if Count(e.a, t) > 0 then e.a else e.b)
  }

  predicate NoZeroDivision(o: Oracle, c: Cond, t: string) {
    Transform(c, t).Some? ==> NoZeroOnPath(o, t, Transform(c, t).value.0)
  }

  lemma {:induction false} SoundDecides(o: Oracle, t: string, e: Expr, g: Goal, rho: Valuation)
    requires SoundOracle(o, rho) && NoZeroOnPath(o, t, e)
    ensures Decisions(o, t, e, g, rho, false)
    decreases e
  {
    if Inner(e) && Invert(o, t, e, g).Some? {
      SoundDecides(o, t, if Count(e.a, t) > 0 then e.a else e.b, Invert(o, t, e, g).value, rho);
    }
  }

  lemma DeducedExactly(o: Oracle, c: Cond, t: string, rho: Valuation, right: bool)
    requires CondCount(c, t) == 1 && Transform(c, t).Some? && Decided(o, c, t, rho, right)
    requires Walk(o, t, Transform(c, t).value.0, Transform(c, t).value.1).Some?
    ensures var i := ToInterval(Walk(o, t, Transform(c, t).value.0, Transform(c, t).value.1).value);
      Only(i, c, t, rho) && (right ==> Exactly(i, c, t, rho))
  {
    var (e, g) := Transform(c, t).value;
    var h := Walk(o, t, e, g).value;
    forall k
      ensures InInterval(ToInterval(h), k, rho) ==> Holds(c, Bind(rho, t, k))
      ensures right ==> (InInterval(ToInterval(h), k, rho) <==> Holds(c, Bind(rho, t, k)))
    {
      DeducedAt(o, c, t, rho, right, e, g, h, k);
    }
  }

  lemma DeducedAt(o: Oracle, c: Cond, t: string, rho: Valuation, right: bool, e: Expr, g: Goal, h: Goal, k: int)
    requires CondCount(c, t) == 1 && Transform(c, t) == Some((e, g)) && Decided(o, c, t, rho, right)
    requires Walk(o, t, e, g) == Some(h)
    ensures InInterval(ToInterval(h), k, rho) ==> Holds(c, Bind(rho, t, k))
    ensures right ==> (InInterval(ToInterval(h), k, rho) <==> Holds(c, Bind(rho, t, k)))
  {
    var sigma := Bind(rho, t, k);
    assert Count(e, t) == 1 && Count(g.result, t) == 0 &&
      (Holds(c, sigma) <==> Meets(g.op, Eval(e, sigma), Eval(g.result, sigma))) by {
      TransformExact(c, t, sigma);
    }
    assert DecidedAt(o, (e, g), t, sigma, right);
    WalkExact(o, t, e, g, sigma, right);
    BoundUnmoved(h, t, rho, k);
  }

  /** A bound without the target is worth the same whatever the target is. */
  lemma BoundUnmoved(h: Goal, t: string, rho: Valuation, k: int)
    requires Count(h.result, t) == 0
    ensures InInterval(ToInterval(h), k, rho) <==> Meets(h.op, k, Eval(h.result, Bind(rho, t, k)))
  {
    NoOccurrence(h.result, t);
    EvalAgree(h.result, rho, Bind(rho, t, k));
  }

  lemma SoundlyDecided(o: Oracle, c: Cond, t: string, rho: Valuation)
    requires NoZeroDivision(o, c, t) && forall k :: SoundOracle(o, Bind(rho, t, k))
    ensures Decided(o, c, t, rho, false)
  {
    if Transform(c, t).Some? {
      var (e, g) := Transform(c, t).value;
      forall k ensures DecidedAt(o, (e, g), t, Bind(rho, t, k), false) {
        assert SoundOracle(o, Bind(rho, t, k));
        SoundDecides(o, t, e, g, Bind(rho, t, k));
      }
    }
  }

  /** The visitor: fields updated on the way down. */
  class Deducer {
    const oracle: Oracle
    const target: string
    var result: Expr
    var op: Direction
    var success: bool

    constructor (oracle: Oracle, target: string)
      ensures this.oracle == oracle && this.target == target && success
    {
      this.oracle, this.target := oracle, target;
      result, op, success := Const(0), Greater, true;
    }

    /** VisitExpr: on success the fields hold what the walk deduces. */
    method Visit(e: Expr)
      requires success
      modifies this`result, this`op, this`success
      ensures success <==> Walk(oracle, target, e, old(Goal(op, result))).Some?
      ensures success ==> Goal(op, result) == Walk(oracle, target, e, old(Goal(op, result))).value
      decreases e
    {
      match e
      case Var(v) => if v != target { success := false; }
      case Add(a, b) =>
        var left := Count(a, target) > 0;
        result := Sub(result, if left then b else a);
        if left { Visit(a); } else { Visit(b); }
      case Sub(a, b) =>
        var left := Count(a, target) > 0;
        if left {
          result := Add(result, b);
          Visit(a);
        } else {
          result := Negated(Sub(result, a));
          op := ReverseOp(op);
          Visit(b);
        }
      case Mul(a, b) =>
        var left := Count(a, target) > 0;
        var operand := if left then b else a;
        var sign := oracle.sign(operand);
        if sign == Negative {
          op := ReverseOp(op);
        } else if sign == Unknown {
          success := false;
          return;
        }
        var divided := oracle.divides(result, operand);
        result := Expr.FloorDiv(result, operand);
        if !divided {
          if op == Greater {
            result := Add(result, Const(1));
          } else if op == Equal {
            success := false;
            return;
          }
        }
        if left { Visit(a); } else { Visit(b); }
      case FloorDiv(a, b) =>
        if Count(a, target) == 0 || oracle.isZero(b) { success := false; return; }
        var divisor, sign := b, oracle.sign(b);
        if sign == Negative {
          op := ReverseOp(op);
          divisor := Negated(b);
          result := Negated(result);
        } else if sign == Unknown {
          success := false;
          return;
        }
        if op == Greater {
          result := Mul(result, divisor);
        } else if op == Equal {
          success := false;
          return;
        } else {
          result := Sub(Add(Mul(result, divisor), divisor), Const(1));
        }
        if sign == Negative { result := Add(Sub(result, divisor), Const(1)); }
        Visit(a);
      case _ => success := false;
    }
  }

  /** The walk reaches the target: only invertible operators on the path, with operands of known sign, 0 included. */
  predicate Deducible(o: Oracle, t: string, c: Cond) {
    match Transform(c, t)
    case None => false
    case Some((e, g)) => Walk(o, t, e, g).Some?
  }

  /**
   DeduceBound: on success, and unless the walk divided by an operand known to be 0, the interval
   holds only solutions wherever the prover's answers are true, and exactly the solutions wherever
   its divisibility decisions are right.
   */
  method DeduceBound(oracle: Oracle, target: string, cond: Cond) returns (r: Option<Interval>)
    ensures r.Some? <==> CondCount(cond, target) == 1 && Deducible(oracle, target, cond)
    ensures r.Some? && NoZeroDivision(oracle, cond, target) ==>
      forall rho: Valuation :: (forall k :: SoundOracle(oracle, Bind(rho, target, k))) ==>
        Only(r.value, cond, target, rho)
    ensures r.Some? ==> forall rho: Valuation :: Decided(oracle, cond, target, rho, true) ==>
      Exactly(r.value, cond, target, rho)
  {
    if CondCount(cond, target) != 1 { return None; }
    var start := Transform(cond, target);
    if start.None? { return None; }
    var d := new Deducer(oracle, target);
    d.op, d.result := start.value.1.op, start.value.1.result;
    d.Visit(start.value.0);
    if !d.success { return None; }
    r := Some(if d.op == Equal then Interval(Some(d.result), Some(d.result))
      else if d.op == Greater then Interval(Some(d.result), None) else Interval(None, Some(d.result)));
    forall rho: Valuation | Decided(oracle, cond, target, rho, true) ensures Exactly(r.value, cond, target, rho) {
      DeducedExactly(oracle, cond, target, rho, true);
    }
    forall rho: Valuation |
      NoZeroDivision(oracle, cond, target) && forall k :: SoundOracle(oracle, Bind(rho, target, k))
      ensures Only(r.value, cond, target, rho)
    {
      SoundlyDecided(oracle, cond, target, rho);
      DeducedExactly(oracle, cond, target, rho, false);
    }
  }

  /** Whether a product compares with r as the target compares with the deduced bound, for every value of the target. */
  ghost predicate MulExact(g: Direction, m: int, r: int, h: Direction, bound: int) {
    forall k :: Meets(g, k * m, r) <==> Meets(h, k, bound)
  }

  /**
   A decision that is not right costs the boundary solution, and an operand known to be 0 is
   treated like a positive one: inverting a multiplication is exact at rho, for every sign and
   direction, exactly when the operand is not 0 and the decision is right.
   */
  lemma UndecidedDivisibility(o: Oracle, t: string, m: Expr, g: Goal, rho: Valuation)
    requires Count(m, t) == 0 && SoundSigns(o, rho) && Invert(o, t, Mul(Var(t), m), g).Some?
    ensures var e, h := Mul(Var(t), m), Invert(o, t, Mul(Var(t), m), g).value;
      MulExact(g.op, Eval(m, rho), Eval(g.result, rho), h.op, Eval(h.result, rho)) <==> DecisionRight(o, t, e, g, rho)
  {
    var e := Mul(Var(t), m);
    assert Count(Var(t), t) == 1;
    var h := Invert(o, t, e, g).value;
    if o.sign(m) == Zero {
      assert SignSound(o, m, rho);
      ZeroNeverExact(g.op, Eval(g.result, rho), h.op, Eval(h.result, rho));
    } else {
      MulParts(o, t, e, g, rho);
      BoundExact(Eval(m, rho), Eval(g.result, rho), g.op, o.divides(g.result, m));
    }
  }

  /** 0 * k compares with r alike for all k, but no bound holds of all numbers or of none. */
  lemma ZeroNeverExact(g: Direction, r: int, h: Direction, bound: int)
    ensures !MulExact(g, 0, r, h, bound)
  {
    var below, above := bound - 1, bound + 1;
    assert below * 0 == above * 0 == bound * 0 == 0;
    var p, q, s := Meets(g, below * 0, r), Meets(g, bound * 0, r), Meets(g, above * 0, r);
    assert p == q == s;
    assert !(Meets(h, below, bound) && Meets(h, above, bound)) && Meets(h, bound, bound);
    assert p != Meets(h, below, bound) || q != Meets(h, bound, bound) || s != Meets(h, above, bound);
  }

  lemma BoundExact(m: int, r: int, op: Direction, divided: bool)
    requires m != 0 && (op == Equal ==> divided)
    ensures var turned := if m < 0 then ReverseOp(op) else op;
      MulExact(op, m, r, turned, QuotientBound(m, r, turned, divided)) <==>
        turned == Less || (divided <==> Divides(m, r))
  {
    var turned := if m < 0 then ReverseOp(op) else op;
    if turned == Less || (divided <==> Divides(m, r)) {
      forall k
        ensures Meets(op, k * m, r) <==> Meets(turned, k, QuotientBound(m, r, turned, divided))
      {
        BoundTurns(k, m, r, op, divided);
      }
    } else {
      var q := IntOperator.FloorDiv(r, m);
      MultipliedBy(q, m, r);
      FloorLaw(r, m);
      FloorModZero(r, m);
      assert !(Meets(op, q * m, r) <==> Meets(turned, q, QuotientBound(m, r, turned, divided)));
    }
  }
}
