/**
 ModularSetAnalyzer of src/arith/modular_set.cc: every expression is given a
 residue class that contains its value.
 */
module ModularSet {
  import opened IntOperator
  import opened Exprs

  /** The integers congruent to base modulo coeff; coeff 0 is the single number base. */
  datatype Entry = Entry(coeff: int, base: int)

  predicate In(e: Entry, z: int) {
    Divides(e.coeff, z - e.base)
  }

  predicate Normal(e: Entry) {
    e.coeff >= 0 && (e.coeff > 0 ==> 0 <= e.base < e.coeff)
  }

  const Everything := Entry(1, 0)

  /** The source's "empty set", which is the class of the number 1. */
  const Nothing := Entry(0, 1)

  /** The constructor: a negative modulus flips both signs, then the base is reduced. */
  function Make(coeff: int, base: int): (e: Entry)
    ensures Normal(e) && e.coeff == Abs(coeff)
  {
    var c, b := if coeff < 0 then -coeff else coeff, if coeff < 0 then -base else base;
    if c != 0 then
      TruncLaw(b, c);
      var r := TruncMod(b, c);
      Entry(c, if r < 0 then r + c else r)
    else Entry(c, b)
  }

  /** With a non-negative modulus the constructor keeps the class. */
  lemma MakeMeans(coeff: int, base: int, z: int)
    requires coeff >= 0
    ensures In(Make(coeff, base), z) <==> Divides(coeff, z - base)
  {
    if coeff > 0 {
      TruncLaw(base, coeff);
      var e, q := Make(coeff, base), TruncDiv(base, coeff);
      var t := if TruncMod(base, coeff) < 0 then q - 1 else q;
      assert base == t * coeff + e.base by { assert (q - 1) * coeff == q * coeff - coeff; }
      Congruent(coeff, z - e.base, z - base, t);
    }
  }

  lemma Congruent(c: int, x: int, y: int, t: int)
    requires x == y + t * c
    ensures Divides(c, x) <==> Divides(c, y)
  {
    if Divides(c, x) {
      assert y == (Quotient(x, c) - t) * c;
      DividesIntro(c, y, Quotient(x, c) - t);
    }
    if Divides(c, y) {
      assert x == (Quotient(y, c) + t) * c;
      DividesIntro(c, x, Quotient(y, c) + t);
    }
  }

  /**
   A negative modulus -c with remainder b: the constructor's class contains every
   number whose remainder is b exactly when 2 * b is a multiple of c.
   */
  lemma NegativeModulus(c: int, b: int)
    requires c > 0
    ensures (forall z :: In(Entry(c, b), z) ==> In(Make(-c, b), z)) <==> Divides(c, 2 * b)
  {
    assert Make(-c, b) == Make(c, -b);
    if Divides(c, 2 * b) {
      forall z | In(Entry(c, b), z) ensures In(Make(-c, b), z) {
        Congruent(c, z + b, z - b, Quotient(2 * b, c));
        MakeMeans(c, -b, z);
      }
    } else {
      DividesIntro(c, 0, 0);
      assert In(Entry(c, b), b);
      MakeMeans(c, -b, b);
    }
  }

  // ----- arithmetic on classes -----

  /** A divisor of the modulus that is congruent at one point gives a larger class. */
  lemma Weaken(g: int, base: int, e: Entry, z: int)
    requires g >= 0 && In(e, z) && Divides(g, e.coeff) && Divides(g, e.base - base)
    ensures In(Make(g, base), z)
  {
    DividesTransitive(g, e.coeff, z - e.base);
    DividesCombination(g, z - e.base, e.base - base, 1, 1);
    MakeMeans(g, base, z);
  }

  function AddEntry(a: Entry, b: Entry, sign: int): Entry {
    Make(Gcd(a.coeff, b.coeff), a.base + sign * b.base)
  }

  lemma AddSound(a: Entry, b: Entry, sign: int, x: int, y: int)
    requires In(a, x) && In(b, y)
    ensures In(AddEntry(a, b, sign), x + sign * y)
  {
    var g := Gcd(a.coeff, b.coeff);
    DividesTransitive(g, a.coeff, x - a.base);
    DividesTransitive(g, b.coeff, y - b.base);
    DividesCombination(g, x - a.base, y - b.base, 1, sign);
    assert (x - a.base) * 1 + (y - b.base) * sign == (x + sign * y) - (a.base + sign * b.base);
    MakeMeans(g, a.base + sign * b.base, x + sign * y);
  }

  function MulEntry(a: Entry, b: Entry): Entry {
    Make(Gcd(a.coeff * b.coeff, Gcd(a.coeff * b.base, a.base * b.coeff)), a.base * b.base)
  }

  lemma MulSound(a: Entry, b: Entry, x: int, y: int)
    requires In(a, x) && In(b, y)
    ensures In(MulEntry(a, b), x * y)
  {
    var p, q, n, m := a.coeff, b.coeff, a.base, b.base;
    var s, t := Quotient(x - n, p), Quotient(y - m, q);
    var inner := Gcd(p * m, n * q);
    var g := Gcd(p * q, inner);
    DividesTransitive(g, inner, p * m);
    DividesTransitive(g, inner, n * q);
    DividesCombination(g, p * m, n * q, s, t);
    DividesCombination(g, p * q, (p * m) * s + (n * q) * t, s * t, 1);
    MulExpansion(p, q, n, m, s, t);
    MakeMeans(g, n * m, x * y);
  }

  lemma MulExpansion(p: int, q: int, n: int, m: int, s: int, t: int)
    ensures (s * p + n) * (t * q + m) - n * m == (p * q) * (s * t) + ((p * m) * s + (n * q) * t) * 1
  {
    assert (s * p + n) * (t * q + m) == (s * p) * (t * q) + (s * p) * m + n * (t * q) + n * m;
    assert (s * p) * (t * q) == (p * q) * (s * t);
    assert (s * p) * m == (p * m) * s && n * (t * q) == (n * q) * t;
  }

  function Union(a: Entry, b: Entry): Entry {
    var c := Gcd(a.coeff, b.coeff);
    if c == 0 then (if a.base == b.base then a else Everything)
    else
      var base0, base1 := TruncMod(a.base, c), TruncMod(b.base, c);
      if base0 == base1 then Make(c, base0)
      else Make(Gcd(Gcd(base0, base1), c), base0)
  }

  lemma EverythingIsAll(z: int)
    ensures In(Everything, z)
  {
    DividesIntro(1, z, z);
  }

  /** The union contains both classes. */
  lemma UnionSound(a: Entry, b: Entry, z: int)
    requires Normal(a) && Normal(b) && (In(a, z) || In(b, z))
    ensures In(Union(a, b), z)
  {
    var c := Gcd(a.coeff, b.coeff);
    if c == 0 {
      EverythingIsAll(z);
    } else {
      var base0, base1 := TruncMod(a.base, c), TruncMod(b.base, c);
      var g := if base0 == base1 then c else Gcd(Gcd(base0, base1), c);
      DividesIntro(c, c, 1);
      if base0 != base1 {
        DividesTransitive(g, Gcd(base0, base1), base0);
        DividesTransitive(g, Gcd(base0, base1), base1);
        DividesCombination(g, base1, base0, 1, -1);
      } else {
        DividesIntro(g, 0, 0);
      }
      UnionSide(a, c, g, base0, base0, z);
      UnionSide(b, c, g, base1, base0, z);
    }
  }

  lemma UnionSide(e: Entry, c: int, g: int, own: int, base: int, z: int)
    requires c > 0 && g > 0 && Divides(c, e.coeff) && Divides(g, c) && own == TruncMod(e.base, c)
    requires Divides(g, own - base)
    ensures In(e, z) ==> In(Make(g, base), z)
  {
    if In(e, z) {
      DividesTransitive(g, c, e.coeff);
      TruncLaw(e.base, c);
      DividesIntro(c, e.base - own, TruncDiv(e.base, c));
      DividesTransitive(g, c, e.base - own);
      DividesCombination(g, e.base - own, own - base, 1, 1);
      Weaken(g, base, e, z);
    }
  }

  /** The quotient class, when the modulus is divisible and rounding is clear. */
  function DivEntry(a: Entry, val: int, rounds: bool): Entry
    requires val != 0
  {
    if TruncMod(a.coeff, val) == 0 then
      if a.base == 0 then Make(Abs(TruncDiv(a.coeff, val)), 0)
      else if a.base > 0 && val > 0 && rounds then Make(TruncDiv(a.coeff, val), TruncDiv(a.base, val))
      else Everything
    else Everything
  }

  function QuotientOf(x: int, val: int, floor: bool): int
    requires val != 0
  {
    if floor then IntOperator.FloorDiv(x, val) else TruncDiv(x, val)
  }

  function RemainderOf(x: int, val: int, floor: bool): int
    requires val != 0
  {
    if floor then IntOperator.FloorMod(x, val) else TruncMod(x, val)
  }

  lemma ExactQuotient(x: int, t: int, k: int, val: int, floor: bool)
    requires val != 0 && x == t * (k * val)
    ensures QuotientOf(x, val, floor) == t * k
  {
    assert x == (t * k) * val;
    DividesIntro(val, x, t * k);
    ExactDivision(x, val);
    Cancel(QuotientOf(x, val, floor), t * k, val);
  }

  lemma MultipleIn(c: int, base: int, t: int, r: int)
    requires c >= 0 && r == t * c + base
    ensures In(Make(c, base), r)
  {
    DividesIntro(c, r - base, t);
    MakeMeans(c, base, r);
  }

  lemma ScaledIn(k: int, t: int)
    ensures In(Make(Abs(k), 0), t * k)
  {
    if k >= 0 {
      MultipleIn(k, 0, t, t * k);
    } else {
      assert t * k == (-t) * -k;
      MultipleIn(-k, 0, -t, t * k);
    }
  }

  /** The dividend is t * k * val + base with k the exact quotient of the modulus. */
  lemma DividendForm(a: Entry, val: int, x: int)
    requires val != 0 && In(a, x) && TruncMod(a.coeff, val) == 0
    ensures x == Quotient(x - a.base, a.coeff) * (TruncDiv(a.coeff, val) * val) + a.base
  {
    TruncLaw(a.coeff, val);
  }

  /** Flooring always rounds down; truncation does for a non-negative dividend. */
  lemma DivSound(a: Entry, val: int, x: int, floor: bool, rounds: bool)
    requires val != 0 && Normal(a) && In(a, x) && (rounds ==> floor || x >= 0)
    ensures In(DivEntry(a, val, rounds), QuotientOf(x, val, floor))
  {
    EverythingIsAll(QuotientOf(x, val, floor));
    if TruncMod(a.coeff, val) == 0 {
      DividendForm(a, val, x);
      var k, t := TruncDiv(a.coeff, val), Quotient(x - a.base, a.coeff);
      if a.base == 0 {
        ExactQuotient(x, t, k, val, floor);
        ScaledIn(k, t);
      } else if a.base > 0 && val > 0 && rounds {
        PositiveQuotient(a.coeff, val);
        FloorQuotient(x, t, k, val, a.base, floor);
        MultipleIn(k, TruncDiv(a.base, val), t, QuotientOf(x, val, floor));
      }
    }
  }

  lemma PositiveQuotient(c: int, val: int)
    requires c >= 0 && val > 0
    ensures TruncDiv(c, val) >= 0
  {
  }

  lemma FloorQuotient(x: int, t: int, k: int, val: int, base: int, floor: bool)
    requires val > 0 && base >= 0 && x == t * (k * val) + base && (floor || x >= 0)
    ensures QuotientOf(x, val, floor) == t * k + TruncDiv(base, val)
  {
    assert x == (t * k) * val + base;
    assert base == (base / val) * val + base % val;
    DivModUnique(x, val, t * k + base / val, base % val);
    FloorIsEuclidean(x, val);
  }

  function ModEntry(a: Entry, val: int, rounds: bool): Entry
    requires val != 0
  {
    var c := Gcd(a.coeff, val);
    if TruncMod(a.base, c) == 0 || (a.base > 0 && rounds) then Make(c, TruncMod(a.base, c)) else Everything
  }

  lemma RemainderLaw(x: int, val: int, floor: bool)
    requires val != 0
    ensures x == QuotientOf(x, val, floor) * val + RemainderOf(x, val, floor)
  {
    FloorLaw(x, val);
    TruncLaw(x, val);
  }

  /** x and r differ by a multiple of val, which c divides. */
  lemma CongruentModulo(c: int, a: Entry, x: int, q: int, val: int, r: int)
    requires c > 0 && In(a, x) && Divides(c, a.coeff) && Divides(c, val) && x == q * val + r
    ensures In(Make(c, TruncMod(a.base, c)), r)
  {
    var own := TruncMod(a.base, c);
    TruncLaw(a.base, c);
    DividesTransitive(c, a.coeff, x - a.base);
    DividesIntro(c, a.base - own, TruncDiv(a.base, c));
    DividesCombination(c, x - a.base, a.base - own, 1, 1);
    DividesCombination(c, x - own, val, 1, -q);
    assert (x - own) * 1 + val * -q == r - own;
    MakeMeans(c, own, r);
  }

  /** Any remainder by val is congruent to the dividend modulo the common divisor. */
  lemma ModSound(a: Entry, val: int, x: int, floor: bool, rounds: bool)
    requires val != 0 && In(a, x)
    ensures In(ModEntry(a, val, rounds), RemainderOf(x, val, floor))
  {
    EverythingIsAll(RemainderOf(x, val, floor));
    RemainderLaw(x, val, floor);
    CongruentModulo(Gcd(a.coeff, val), a, x, QuotientOf(x, val, floor), val, RemainderOf(x, val, floor));
  }

  // ----- the visitors -----

  type EntryMap = map<string, Entry>

  /** `nonneg` stands for CanProveGreaterEqual(e, 0). */
  function Visit(e: Expr, vm: EntryMap, nonneg: Expr -> bool): Entry
    decreases e, 0
  {
    match e
    case Const(k) => Make(0, k)
    case Var(v) => if v in vm then vm[v] else Everything
    case Add(a, b) => AddEntry(Visit(a, vm, nonneg), Visit(b, vm, nonneg), 1)
    case Sub(a, b) => AddEntry(Visit(a, vm, nonneg), Visit(b, vm, nonneg), -1)
    case Mul(a, b) => MulEntry(Visit(a, vm, nonneg), Visit(b, vm, nonneg))
    case Div(a, b) => Divided(Visit(a, vm, nonneg), Visit(b, vm, nonneg), nonneg(a))
    case FloorDiv(a, b) => Divided(Visit(a, vm, nonneg), Visit(b, vm, nonneg), true)
    case Mod(a, b) => Reduced(Visit(a, vm, nonneg), Visit(b, vm, nonneg), nonneg(a))
    case FloorMod(a, b) => Reduced(Visit(a, vm, nonneg), Visit(b, vm, nonneg), true)
    case Min(a, b) => Union(Visit(a, vm, nonneg), Visit(b, vm, nonneg))
    case Max(a, b) => Union(Visit(a, vm, nonneg), Visit(b, vm, nonneg))
    case Select(_, a, b) => Union(Visit(a, vm, nonneg), Visit(b, vm, nonneg))
    case Let(v, k, body) => Visit(body, Entered(v, k, vm, nonneg), nonneg)
  }

  /** The classes inside a let: a name that has one keeps it. */
  function Entered(v: string, k: Expr, vm: EntryMap, nonneg: Expr -> bool): EntryMap
    decreases k, 1
  {
    if v in vm then vm else vm[v := Visit(k, vm, nonneg)]
  }

  /** Division by a constant entry; the source stops on the constant 0. */
  function Divided(a: Entry, b: Entry, rounds: bool): Entry {
    if b.coeff == 0 && b.base != 0 then DivEntry(a, b.base, rounds) else Everything
  }

  function Reduced(a: Entry, b: Entry, rounds: bool): Entry {
    if b.coeff == 0 && b.base != 0 then ModEntry(a, b.base, rounds) else Everything
  }

  /** Every variable's value is in its class. */
  ghost predicate Models(vm: EntryMap, rho: Valuation) {
    forall v :: v in vm ==> Normal(vm[v]) && In(vm[v], rho(v))
  }

  /** A name bound by a let that already has a class takes a value of that class. */
  predicate LetsRight(e: Expr, vm: EntryMap, nonneg: Expr -> bool, rho: Valuation) {
    match e
    case Const(_) => true
    case Var(_) => true
    case Select(_, a, b) => LetsRight(a, vm, nonneg, rho) && LetsRight(b, vm, nonneg, rho)
    case Let(v, k, body) =>
      && (if v in vm then In(vm[v], Eval(k, rho)) else LetsRight(k, vm, nonneg, rho))
      && LetsRight(body, Entered(v, k, vm, nonneg), nonneg, Bind(rho, v, Eval(k, rho)))
    case Add(a, b) => LetsRight(a, vm, nonneg, rho) && LetsRight(b, vm, nonneg, rho)
    case Sub(a, b) => LetsRight(a, vm, nonneg, rho) && LetsRight(b, vm, nonneg, rho)
    case Mul(a, b) => LetsRight(a, vm, nonneg, rho) && LetsRight(b, vm, nonneg, rho)
    case Div(a, b) => LetsRight(a, vm, nonneg, rho) && LetsRight(b, vm, nonneg, rho)
    case Mod(a, b) => LetsRight(a, vm, nonneg, rho) && LetsRight(b, vm, nonneg, rho)
    case FloorDiv(a, b) => LetsRight(a, vm, nonneg, rho) && LetsRight(b, vm, nonneg, rho)
    case FloorMod(a, b) => LetsRight(a, vm, nonneg, rho) && LetsRight(b, vm, nonneg, rho)
    case Min(a, b) => LetsRight(a, vm, nonneg, rho) && LetsRight(b, vm, nonneg, rho)
    case Max(a, b) => LetsRight(a, vm, nonneg, rho) && LetsRight(b, vm, nonneg, rho)
  }

  /** Let-bound names are new where they are bound. */
  predicate LetsUnique(e: Expr, bound: set<string>) {
    match e
    case Const(_) => true
    case Var(_) => true
    case Select(_, a, b) => LetsUnique(a, bound) && LetsUnique(b, bound)
    case Let(v, k, body) => v !in bound && LetsUnique(k, bound) && LetsUnique(body, bound + {v})
    case Add(a, b) => LetsUnique(a, bound) && LetsUnique(b, bound)
    case Sub(a, b) => LetsUnique(a, bound) && LetsUnique(b, bound)
    case Mul(a, b) => LetsUnique(a, bound) && LetsUnique(b, bound)
    case Div(a, b) => LetsUnique(a, bound) && LetsUnique(b, bound)
    case Mod(a, b) => LetsUnique(a, bound) && LetsUnique(b, bound)
    case FloorDiv(a, b) => LetsUnique(a, bound) && LetsUnique(b, bound)
    case FloorMod(a, b) => LetsUnique(a, bound) && LetsUnique(b, bound)
    case Min(a, b) => LetsUnique(a, bound) && LetsUnique(b, bound)
    case Max(a, b) => LetsUnique(a, bound) && LetsUnique(b, bound)
  }

  /** New names are never a problem. */
  lemma {:induction false} UniqueIsRight(e: Expr, vm: EntryMap, nonneg: Expr -> bool, rho: Valuation)
    requires LetsUnique(e, vm.Keys)
    ensures LetsRight(e, vm, nonneg, rho)
  {
    match e
    case Const(_) =>
    case Var(_) =>
    case Let(v, k, body) =>
      UniqueIsRight(k, vm, nonneg, rho);
      assert Entered(v, k, vm, nonneg).Keys == vm.Keys + {v};
      UniqueIsRight(body, Entered(v, k, vm, nonneg), nonneg, Bind(rho, v, Eval(k, rho)));
    case Select(_, a, b) =>
      UniqueIsRight(a, vm, nonneg, rho);
      UniqueIsRight(b, vm, nonneg, rho);
    case _ =>
      UniqueIsRight(e.a, vm, nonneg, rho);
      UniqueIsRight(e.b, vm, nonneg, rho);
  }

  ghost predicate SameOutside(lets: set<string>, rho: Valuation, sigma: Valuation) {
    forall v :: v !in lets ==> rho(v) == sigma(v)
  }

  /** What is proved non-negative is so, whatever the let-bound names are worth. */
  ghost predicate SoundAt(nonneg: Expr -> bool, lets: set<string>, rho: Valuation) {
    forall e, sigma: Valuation :: nonneg(e) && SameOutside(lets, rho, sigma) ==> Eval(e, sigma) >= 0
  }

  lemma SoundMoves(nonneg: Expr -> bool, lets: set<string>, rho: Valuation, sigma: Valuation)
    requires SoundAt(nonneg, lets, rho) && SameOutside(lets, rho, sigma)
    ensures SoundAt(nonneg, lets, sigma)
  {
    forall e, tau: Valuation | nonneg(e) && SameOutside(lets, sigma, tau) ensures Eval(e, tau) >= 0 {
      assert SameOutside(lets, rho, tau);
    }
  }

  lemma DividedSound(a: Entry, b: Entry, rounds: bool, x: int, y: int, floor: bool)
    requires Normal(a) && In(a, x) && In(b, y) && (rounds ==> floor || x >= 0)
    ensures y != 0 ==> In(Divided(a, b, rounds), QuotientOf(x, y, floor))
    ensures y != 0 ==> In(Reduced(a, b, rounds), RemainderOf(x, y, floor))
    ensures y == 0 ==> In(Divided(a, b, rounds), 0) && In(Reduced(a, b, rounds), 0)
  {
    if y != 0 {
      EverythingIsAll(QuotientOf(x, y, floor));
      EverythingIsAll(RemainderOf(x, y, floor));
      if b.coeff == 0 {
        DivSound(a, y, x, floor, rounds);
        ModSound(a, y, x, floor, rounds);
      }
    } else {
      EverythingIsAll(0);
    }
  }

  /** The class of every expression contains its value, at every valuation the classes of the variables admit. */
  lemma {:induction false} VisitSound(e: Expr, vm: EntryMap, nonneg: Expr -> bool, lets: set<string>, rho: Valuation)
    requires Models(vm, rho) && LetsRight(e, vm, nonneg, rho) && LetNames(e) <= lets && SoundAt(nonneg, lets, rho)
    ensures Normal(Visit(e, vm, nonneg)) && In(Visit(e, vm, nonneg), Eval(e, rho))
  {
    match e
    case Const(k) => MakeMeans(0, k, k);
    case Var(v) => EverythingIsAll(rho(v));
    case Let(v, k, body) =>
      if v !in vm { VisitSound(k, vm, nonneg, lets, rho); }
      var sigma := Bind(rho, v, Eval(k, rho));
      SoundMoves(nonneg, lets, rho, sigma);
      VisitSound(body, Entered(v, k, vm, nonneg), nonneg, lets, sigma);
    case Select(c, a, b) =>
      VisitSound(a, vm, nonneg, lets, rho);
      VisitSound(b, vm, nonneg, lets, rho);
      UnionSound(Visit(a, vm, nonneg), Visit(b, vm, nonneg), Eval(e, rho));
    case _ =>
      VisitSound(e.a, vm, nonneg, lets, rho);
      VisitSound(e.b, vm, nonneg, lets, rho);
      BinarySound(e, vm, nonneg, lets, rho);
  }

  /** The operands of a binary node are in their classes. */
  ghost predicate OperandsIn(e: Expr, vm: EntryMap, nonneg: Expr -> bool, rho: Valuation)
    requires !e.Const? && !e.Var? && !e.Let? && !e.Select?
  {
    && Normal(Visit(e.a, vm, nonneg)) && In(Visit(e.a, vm, nonneg), Eval(e.a, rho))
    && Normal(Visit(e.b, vm, nonneg)) && In(Visit(e.b, vm, nonneg), Eval(e.b, rho))
  }

  predicate IsQuotient(e: Expr) {
    e.Div? || e.FloorDiv?
  }

  predicate IsRemainder(e: Expr) {
    e.Mod? || e.FloorMod?
  }

  /** The class and the value of a quotient or a remainder, by those of its operands. */
  lemma DivisionNode(e: Expr, vm: EntryMap, nonneg: Expr -> bool, rho: Valuation, a: Entry, b: Entry, x: int, y: int,
      floor: bool, rounds: bool)
    requires (IsQuotient(e) || IsRemainder(e)) && floor == (e.FloorDiv? || e.FloorMod?)
    requires rounds == (floor || nonneg(e.a))
    requires a == Visit(e.a, vm, nonneg) && b == Visit(e.b, vm, nonneg) && x == Eval(e.a, rho) && y == Eval(e.b, rho)
    ensures Visit(e, vm, nonneg) == if IsQuotient(e) then Divided(a, b, rounds) else Reduced(a, b, rounds)
    ensures Eval(e, rho) == if y == 0 then 0 else if IsQuotient(e) then QuotientOf(x, y, floor)
      else RemainderOf(x, y, floor)
  {
  }

  lemma DivisionSound(e: Expr, vm: EntryMap, nonneg: Expr -> bool, lets: set<string>, rho: Valuation, a: Entry,
      b: Entry, x: int, y: int)
    requires (IsQuotient(e) || IsRemainder(e)) && SoundAt(nonneg, lets, rho) && Normal(a) && In(a, x) && In(b, y)
    requires a == Visit(e.a, vm, nonneg) && b == Visit(e.b, vm, nonneg) && x == Eval(e.a, rho) && y == Eval(e.b, rho)
    ensures Normal(Visit(e, vm, nonneg)) && In(Visit(e, vm, nonneg), Eval(e, rho))
  {
    assert SameOutside(lets, rho, rho);
    var floor := e.FloorDiv? || e.FloorMod?;
    var rounds := floor || nonneg(e.a);
    DivisionNode(e, vm, nonneg, rho, a, b, x, y, floor, rounds);
    DividedSound(a, b, rounds, x, y, floor);
  }

  lemma BinarySound(e: Expr, vm: EntryMap, nonneg: Expr -> bool, lets: set<string>, rho: Valuation)
    requires !e.Const? && !e.Var? && !e.Let? && !e.Select? && SoundAt(nonneg, lets, rho)
    requires OperandsIn(e, vm, nonneg, rho)
    ensures Normal(Visit(e, vm, nonneg)) && In(Visit(e, vm, nonneg), Eval(e, rho))
  {
    var a, b, x, y := Visit(e.a, vm, nonneg), Visit(e.b, vm, nonneg), Eval(e.a, rho), Eval(e.b, rho);
    if IsQuotient(e) || IsRemainder(e) {
      DivisionSound(e, vm, nonneg, lets, rho, a, b, x, y);
    } else {
      match e
      case Add(_, _) => AddSound(a, b, 1, x, y);
      case Sub(_, _) => AddSound(a, b, -1, x, y);
      case Mul(_, _) => MulSound(a, b, x, y);
      case Min(_, _) => UnionSound(a, b, Eval(e, rho));
      case Max(_, _) => UnionSound(a, b, Eval(e, rho));
    }
  }

  /**
   A let on a name that already has a class is visited with that class, which is right exactly when it contains the new
   value.
   */
  lemma LetRebound(v: string, k: Expr, vm: EntryMap, nonneg: Expr -> bool, rho: Valuation)
    requires v in vm
    ensures In(Visit(Let(v, k, Var(v)), vm, nonneg), Eval(Let(v, k, Var(v)), rho)) <==> In(vm[v], Eval(k, rho))
  {
    assert Eval(Var(v), Bind(rho, v, Eval(k, rho))) == Eval(k, rho);
    assert Visit(Let(v, k, Var(v)), vm, nonneg) == Visit(Var(v), vm, nonneg);
  }
}
