/** The decimal numbers the aggregator and the order manager compute with: a signed
    coefficient and a power-of-ten exponent.  Two decimals can be numerically equal and
    still differ as representations (50000 and 50000.0), which is what the aggregator's
    string-keyed price maps observe. */
module Decimals {

  datatype Decimal = Decimal(coeff: int, exp: int)

  /** The zero value of a decimal variable. */
  const ZERO := Decimal(0, 0)

  /** The number a representation stands for, computed one power of ten at a time. */
  ghost function Number(d: Decimal): real
    decreases if d.exp < 0 then -d.exp else d.exp
  {
    if d.exp > 0 then 10.0 * Number(Decimal(d.coeff, d.exp - 1))
    else if d.exp < 0 then Number(Decimal(d.coeff, d.exp + 1)) / 10.0
    else d.coeff as real
  }

  /** Always true; mentioning it lets the solver look inside Value. */
  ghost predicate Unfolding(d: Decimal) {
    true
  }

  ghost predicate Denotes(d: Decimal, v: real) {
    forall e {:trigger Unfolding(e)} :: Unfolding(e) && e == d ==> v == Number(e)
  }

  /** The number a representation stands for.  Stated so that the solver does not compute
      with powers of ten wherever a value is mentioned. */
  ghost function Value(d: Decimal): real {
    assert Denotes(d, Number(d));
    var v :| Denotes(d, v);
    v
  }

  lemma ValueIsNumber(d: Decimal)
    ensures Value(d) == Number(d)
  {
    assert Unfolding(d);
  }

  predicate IsZero(d: Decimal) {
    d.coeff == 0
  }

  function MinExp(a: Decimal, b: Decimal): int {
    if a.exp <= b.exp then a.exp else b.exp
  }

  /** The coefficient `d` has when it is written with the smaller exponent `e`. */
  function Rescale(d: Decimal, e: int): int
    requires e <= d.exp
    decreases d.exp - e
  {
    if e == d.exp then d.coeff else 10 * Rescale(d, e + 1)
  }

  function Add(a: Decimal, b: Decimal): Decimal {
    var e := MinExp(a, b);
    Decimal(Rescale(a, e) + Rescale(b, e), e)
  }

  function Sub(a: Decimal, b: Decimal): Decimal {
    var e := MinExp(a, b);
    Decimal(Rescale(a, e) - Rescale(b, e), e)
  }

  function Mul(a: Decimal, b: Decimal): Decimal {
    Decimal(a.coeff * b.coeff, a.exp + b.exp)
  }

  /** Negative, zero or positive as `a` is numerically below, equal to or above `b`. */
  function Cmp(a: Decimal, b: Decimal): int {
    var e := MinExp(a, b);
    var x, y := Rescale(a, e), Rescale(b, e);
    if x < y then -1 else if x == y then 0 else 1
  }

  lemma {:induction false} NumberTimesTen(c: int, e: int)
    ensures Number(Decimal(10 * c, e)) == 10.0 * Number(Decimal(c, e)) == Number(Decimal(c, e + 1))
    decreases if e < 0 then -e else e
  {
    if e > 0 {
      NumberTimesTen(c, e - 1);
    } else if e < 0 {
      NumberTimesTen(c, e + 1);
    }
  }

  lemma {:induction false} RescaleKeepsNumber(d: Decimal, e: int)
    requires e <= d.exp
    ensures Number(Decimal(Rescale(d, e), e)) == Number(d)
    decreases d.exp - e
  {
    if e < d.exp {
      RescaleKeepsNumber(d, e + 1);
      NumberTimesTen(Rescale(d, e + 1), e);
    }
  }

  lemma {:induction false} NumberLinear(x: int, y: int, e: int)
    ensures Number(Decimal(x + y, e)) == Number(Decimal(x, e)) + Number(Decimal(y, e))
    ensures Number(Decimal(x - y, e)) == Number(Decimal(x, e)) - Number(Decimal(y, e))
    decreases if e < 0 then -e else e
  {
    if e > 0 {
      NumberLinear(x, y, e - 1);
    } else if e < 0 {
      NumberLinear(x, y, e + 1);
    }
  }

  lemma {:induction false} NumberSign(d: Decimal)
    ensures Number(d) == 0.0 <==> d.coeff == 0
    ensures Number(d) > 0.0 <==> d.coeff > 0
    decreases if d.exp < 0 then -d.exp else d.exp
  {
    if d.exp > 0 {
      NumberSign(Decimal(d.coeff, d.exp - 1));
    } else if d.exp < 0 {
      NumberSign(Decimal(d.coeff, d.exp + 1));
    }
  }

  lemma {:induction false} NumberScaled(k: int, c: int, e: int)
    ensures Number(Decimal(k * c, e)) == k as real * Number(Decimal(c, e))
    decreases if e < 0 then -e else e
  {
    if e > 0 {
      NumberScaled(k, c, e - 1);
      var v := Number(Decimal(c, e - 1));
      assert 10.0 * (k as real * v) == k as real * (10.0 * v);
    } else if e < 0 {
      NumberScaled(k, c, e + 1);
      var v := Number(Decimal(c, e + 1));
      assert (k as real * v) / 10.0 == k as real * (v / 10.0);
    } else {
      assert (k * c) as real == k as real * c as real;
    }
  }

  ghost predicate IsProduct(x: real, y: real, product: real) {
    x * y == product
  }

  ghost predicate TenfoldSteps(g: int -> real) {
    forall n: int :: g(n + 1) == 10.0 * g(n)
  }

  /** Two tenfold progressions that are proportional at 0 are proportional everywhere. */
  lemma {:induction false} Proportional(g: int -> real, h: int -> real, w: real, e: int)
    requires TenfoldSteps(g) && TenfoldSteps(h)
    requires IsProduct(g(0), w, h(0))
    ensures IsProduct(g(e), w, h(e))
    decreases if e < 0 then -e else e
  {
    if e > 0 {
      Proportional(g, h, w, e - 1);
      assert g(e - 1 + 1) == 10.0 * g(e - 1) && h(e - 1 + 1) == 10.0 * h(e - 1);
    } else if e < 0 {
      Proportional(g, h, w, e + 1);
      assert g(e + 1) == 10.0 * g(e) && h(e + 1) == 10.0 * h(e);
    }
  }

  /** The values of one coefficient at every exponent, counted from `shift`. */
  ghost function Progression(c: int, shift: int): int -> real {
    n => Number(Decimal(c, n + shift))
  }

  lemma ProgressionSteps(c: int, shift: int)
    ensures TenfoldSteps(Progression(c, shift))
  {
    forall n: int
      ensures Progression(c, shift)(n + 1) == 10.0 * Progression(c, shift)(n)
    {
      NumberTimesTen(c, n + shift);
      assert n + 1 + shift == n + shift + 1;
    }
  }

  lemma ProductShifted(p: int, k: int, e: int, f: int, w: real)
    requires IsProduct(Number(Decimal(k, 0)), w, Number(Decimal(p, f)))
    ensures IsProduct(Number(Decimal(k, e)), w, Number(Decimal(p, e + f)))
  {
    ProgressionSteps(k, 0);
    ProgressionSteps(p, f);
    assert Progression(p, f)(0) == Number(Decimal(p, f));
    assert Progression(k, 0)(0) == Number(Decimal(k, 0));
    Proportional(Progression(k, 0), Progression(p, f), w, e);
  }

  lemma WholeProduct(p: int, k: int, c: int, f: int)
    requires p == k * c
    ensures IsProduct(Number(Decimal(k, 0)), Number(Decimal(c, f)), Number(Decimal(p, f)))
  {
    NumberScaled(k, c, f);
  }

  lemma ProductOfParts(p: int, k: int, e: int, c: int, f: int)
    requires p == k * c
    ensures IsProduct(Number(Decimal(k, e)), Number(Decimal(c, f)), Number(Decimal(p, e + f)))
  {
    WholeProduct(p, k, c, f);
    ProductShifted(p, k, e, f, Number(Decimal(c, f)));
  }

  // ----- what the operations mean

  lemma ValuesOfPair(a: Decimal, b: Decimal, result: Decimal)
    ensures Value(a) == Number(a) && Value(b) == Number(b) && Value(result) == Number(result)
  {
    ValueIsNumber(a);
    ValueIsNumber(b);
    ValueIsNumber(result);
  }

  /** A value has the sign of its coefficient. */
  lemma ValueSign(d: Decimal)
    ensures Value(d) == 0.0 <==> d.coeff == 0
    ensures Value(d) == 0.0 <==> IsZero(d)
    ensures Value(d) > 0.0 <==> d.coeff > 0
  {
    ValueIsNumber(d);
    NumberSign(d);
  }

  /** Addition is addition of the numbers. */
  lemma AddValue(a: Decimal, b: Decimal)
    ensures Add(a, b).exp == (if a.exp <= b.exp then a.exp else b.exp)
    ensures Value(Add(a, b)) == Value(a) + Value(b)
  {
    var e := MinExp(a, b);
    ValuesOfPair(a, b, Add(a, b));
    RescaleKeepsNumber(a, e);
    RescaleKeepsNumber(b, e);
    NumberLinear(Rescale(a, e), Rescale(b, e), e);
  }

  /** Subtraction is subtraction of the numbers. */
  lemma SubValue(a: Decimal, b: Decimal)
    ensures Sub(a, b).exp == (if a.exp <= b.exp then a.exp else b.exp)
    ensures Value(Sub(a, b)) == Value(a) - Value(b)
  {
    var e := MinExp(a, b);
    ValuesOfPair(a, b, Sub(a, b));
    RescaleKeepsNumber(a, e);
    RescaleKeepsNumber(b, e);
    NumberLinear(Rescale(a, e), Rescale(b, e), e);
  }

  /** Multiplication is multiplication of the numbers. */
  lemma MulValue(a: Decimal, b: Decimal)
    ensures Mul(a, b).exp == a.exp + b.exp
    ensures Value(Mul(a, b)) == Value(a) * Value(b)
  {
    ValuesOfPair(a, b, Mul(a, b));
    ProductOfParts(a.coeff * b.coeff, a.coeff, a.exp, b.coeff, b.exp);
    assert IsProduct(Value(a), Value(b), Value(Mul(a, b)));
  }

  /** Comparison is comparison of the numbers, whatever the representations. */
  lemma CmpValue(a: Decimal, b: Decimal)
    ensures Cmp(a, b) < 0 <==> Value(a) < Value(b)
    ensures Cmp(a, b) == 0 <==> Value(a) == Value(b)
    ensures Cmp(a, b) > 0 <==> Value(a) > Value(b)
  {
    SubValue(a, b);
    ValueSign(Sub(a, b));
  }

  /** A number has one representation at each exponent. */
  lemma SameExponentSameDecimal(a: Decimal, b: Decimal)
    requires a.exp == b.exp && Value(a) == Value(b)
    ensures a == b
  {
    CmpValue(a, b);
  }

  /** Addition is commutative and associative down to the representation. */
  lemma AddReorder(a: Decimal, b: Decimal, c: Decimal)
    ensures Add(a, b) == Add(b, a)
    ensures Add(Add(a, b), c) == Add(a, Add(b, c)) == Add(Add(a, c), b)
  {
    AddValue(a, b);
    AddValue(b, c);
    AddValue(a, c);
    AddValue(Add(a, b), c);
    AddValue(Add(a, c), b);
    AddValue(a, Add(b, c));
    SameExponentSameDecimal(Add(Add(a, b), c), Add(a, Add(b, c)));
    SameExponentSameDecimal(Add(Add(a, c), b), Add(a, Add(b, c)));
  }
}
