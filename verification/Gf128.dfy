/** The field of 2^128 elements that authenticates encrypted payloads, section 6.3 of NIST SP 800-38D.

    An element is a string of 128 bits, the coefficient of x^i at index i; the modulus is
    x^128 + x^7 + x^2 + x + 1. */
module Gf128 {
  function NoBits(): (s: seq<bool>)
    ensures |s| == 128
  {
    seq(128, _ => false)
  }

  type Element = s: seq<bool> | |s| == 128 witness NoBits()

  const ZERO: Element := NoBits()

  function Sum(a: Element, b: Element): Element {
    seq(128, i requires 0 <= i < 128 => a[i] != b[i])
  }

  /** Multiplication by x: every coefficient moves up one; the last one comes back as 1 + x + x^2 + x^7. */
  function TimesX(v: Element): Element {
    seq(128, i requires 0 <= i < 128 =>
      if i == 0 then v[127] else if v[127] && (i == 1 || i == 2 || i == 7) then !v[i - 1] else v[i - 1])
  }

  function TimesXPower(v: Element, k: nat): Element {
    if k == 0 then v else TimesX(TimesXPower(v, k - 1))
  }

  function If(bit: bool, v: Element): Element {
    if bit then v else ZERO
  }

  /** The product of y with the first k coefficients of x. */
  function Partial(x: Element, y: Element, k: nat): Element
    requires k <= 128
  {
    if k == 0 then ZERO else Sum(Partial(x, y, k - 1), If(x[k - 1], TimesXPower(y, k - 1)))
  }

  function Product(x: Element, y: Element): Element {
    Partial(x, y, 128)
  }

  function Unit(i: nat): Element
    requires i < 128
  {
    seq(128, j => j == i)
  }

  // ---------- Addition ----------

  lemma SumComm(a: Element, b: Element)
    ensures Sum(a, b) == Sum(b, a)
  {}

  lemma SumAssoc(a: Element, b: Element, c: Element)
    ensures Sum(Sum(a, b), c) == Sum(a, Sum(b, c))
  {}

  lemma SumZero(a: Element)
    ensures Sum(a, ZERO) == a && Sum(ZERO, a) == a && Sum(a, a) == ZERO
  {}

  lemma SumSwap(a: Element, b: Element, c: Element, d: Element)
    ensures Sum(Sum(a, b), Sum(c, d)) == Sum(Sum(a, c), Sum(b, d))
  {
    hide *;
    SumAssoc(a, b, Sum(c, d));
    SumAssoc(b, c, d);
    SumComm(b, c);
    SumAssoc(c, b, d);
    SumAssoc(a, c, Sum(b, d));
  }

  // ---------- Multiplication by x ----------

  lemma TimesXSum(a: Element, b: Element)
    ensures TimesX(Sum(a, b)) == Sum(TimesX(a), TimesX(b))
  {}

  lemma TimesXZero()
    ensures TimesX(ZERO) == ZERO
  {}

  lemma TimesXIf(bit: bool, v: Element)
    ensures TimesX(If(bit, v)) == If(bit, TimesX(v))
  {
    TimesXZero();
    hide TimesX;
  }

  lemma IfSum(bit: bool, a: Element, b: Element)
    ensures If(bit, Sum(a, b)) == Sum(If(bit, a), If(bit, b))
  {
    SumZero(ZERO);
    hide Sum;
  }

  lemma IfXor(p: bool, q: bool, v: Element)
    ensures If(p != q, v) == Sum(If(p, v), If(q, v))
  {
    SumZero(v);
    SumZero(ZERO);
    hide Sum;
  }

  lemma {:induction false} PowerSum(a: Element, b: Element, k: nat)
    ensures TimesXPower(Sum(a, b), k) == Sum(TimesXPower(a, k), TimesXPower(b, k))
  {
    hide Sum, TimesX;
    if k > 0 {
      PowerSum(a, b, k - 1);
      TimesXSum(TimesXPower(a, k - 1), TimesXPower(b, k - 1));
    }
  }

  lemma {:induction false} PowerShift(v: Element, k: nat)
    ensures TimesXPower(TimesX(v), k) == TimesX(TimesXPower(v, k))
  {
    hide TimesX;
    if k > 0 {
      PowerShift(v, k - 1);
    }
  }

  // ---------- Distributivity ----------

  lemma {:induction false} PartialSumRight(x: Element, a: Element, b: Element, k: nat)
    requires k <= 128
    ensures Partial(x, Sum(a, b), k) == Sum(Partial(x, a, k), Partial(x, b, k))
  {
    hide Sum, TimesXPower, If;
    if k == 0 {
      SumZero(ZERO);
    } else {
      PartialSumRight(x, a, b, k - 1);
      PowerSum(a, b, k - 1);
      IfSum(x[k - 1], TimesXPower(a, k - 1), TimesXPower(b, k - 1));
      SumSwap(Partial(x, a, k - 1), Partial(x, b, k - 1),
              If(x[k - 1], TimesXPower(a, k - 1)), If(x[k - 1], TimesXPower(b, k - 1)));
    }
  }

  lemma {:induction false} PartialSumLeft(x: Element, y: Element, v: Element, k: nat)
    requires k <= 128
    ensures Partial(Sum(x, y), v, k) == Sum(Partial(x, v, k), Partial(y, v, k))
  {
    if k == 0 {
      SumZero(ZERO);
    } else {
      PartialSumLeft(x, y, v, k - 1);
      assert Sum(x, y)[k - 1] == (x[k - 1] != y[k - 1]);
      var p := TimesXPower(v, k - 1);
      hide Sum, TimesXPower, If;
      IfXor(x[k - 1], y[k - 1], p);
      SumSwap(Partial(x, v, k - 1), Partial(y, v, k - 1), If(x[k - 1], p), If(y[k - 1], p));
    }
  }

  /** Multiplication distributes over addition on both sides. */
  lemma Distributive(x: Element, y: Element, v: Element)
    ensures Product(Sum(x, y), v) == Sum(Product(x, v), Product(y, v))
    ensures Product(v, Sum(x, y)) == Sum(Product(v, x), Product(v, y))
  {
    hide Sum, Partial;
    PartialSumLeft(x, y, v, 128);
    PartialSumRight(v, x, y, 128);
  }

  lemma {:induction false} PartialTimesX(x: Element, y: Element, k: nat)
    requires k <= 128
    ensures Partial(x, TimesX(y), k) == TimesX(Partial(x, y, k))
  {
    hide Sum, TimesX, If;
    if k == 0 {
      TimesXZero();
    } else {
      PartialTimesX(x, y, k - 1);
      PowerShift(y, k - 1);
      TimesXIf(x[k - 1], TimesXPower(y, k - 1));
      TimesXSum(Partial(x, y, k - 1), If(x[k - 1], TimesXPower(y, k - 1)));
    }
  }

  // ---------- The unit, and x^128 ----------

  lemma UnitStep(i: nat)
    requires i < 127
    ensures TimesX(Unit(i)) == Unit(i + 1)
  {}

  lemma {:induction false} UnitPower(i: nat)
    requires i < 128
    ensures TimesXPower(Unit(0), i) == Unit(i)
  {
    hide TimesX, Unit;
    if i > 0 {
      UnitPower(i - 1);
      UnitStep(i - 1);
    }
  }

  /** The element with the first k coefficients of x. */
  function Lower(x: Element, k: nat): Element {
    seq(128, i requires 0 <= i < 128 => i < k && x[i])
  }

  lemma LowerMore(x: Element, k: nat)
    requires k < 128
    ensures Lower(x, k + 1) == Sum(Lower(x, k), If(x[k], Unit(k)))
  {}

  lemma {:induction false} PartialUnit(x: Element, k: nat)
    requires k <= 128
    ensures Partial(x, Unit(0), k) == Lower(x, k)
  {
    hide Sum, TimesXPower, Unit, If;
    if k == 0 {
      assert Lower(x, 0) == ZERO;
    } else {
      PartialUnit(x, k - 1);
      UnitPower(k - 1);
      LowerMore(x, k - 1);
    }
  }

  /** The block with only its first bit set is the unit. */
  lemma ProductUnit(x: Element)
    ensures Product(x, Unit(0)) == x
  {
    PartialUnit(x, 128);
    assert Lower(x, 128) == x;
    hide *;
  }

  lemma ProductTimesX(x: Element, y: Element)
    ensures Product(x, TimesX(y)) == TimesX(Product(x, y))
  {
    PartialTimesX(x, y, 128);
    hide *;
  }

  lemma {:induction false} ProductPower(x: Element, y: Element, k: nat)
    ensures Product(x, TimesXPower(y, k)) == TimesXPower(Product(x, y), k)
  {
    hide Product, TimesX;
    if k > 0 {
      ProductPower(x, y, k - 1);
      ProductTimesX(x, TimesXPower(y, k - 1));
    }
  }

  lemma {:induction false} ProductPartial(x: Element, y: Element, z: Element, k: nat)
    requires k <= 128
    ensures Product(x, Partial(y, z, k)) == Partial(y, Product(x, z), k)
  {
    hide Product, Sum, If, TimesXPower;
    if k == 0 {
      ProductZero(x);
    } else {
      var bit, p := y[k - 1], TimesXPower(z, k - 1);
      ProductPartial(x, y, z, k - 1);
      Distributive(Partial(y, z, k - 1), If(bit, p), x);
      ProductPower(x, z, k - 1);
      ProductIf(x, bit, p);
    }
  }

  lemma ProductZero(x: Element)
    ensures Product(x, ZERO) == ZERO
  {
    hide Product;
    SumZero(ZERO);
    Distributive(ZERO, ZERO, x);
    SumZero(Product(x, ZERO));
    SumAssoc(Product(x, ZERO), Product(x, ZERO), Product(x, ZERO));
    hide *;
  }

  lemma ProductIf(x: Element, bit: bool, p: Element)
    ensures Product(x, If(bit, p)) == If(bit, Product(x, p))
  {
    ProductZero(x);
    hide Product;
  }

  /** Multiplication is commutative: each factor is the sum of its units. */
  lemma ProductComm(x: Element, y: Element)
    ensures Product(x, y) == Product(y, x)
  {
    ProductPartial(x, y, Unit(0), 128);
    ProductUnit(y);
    ProductUnit(x);
    hide Partial;
  }

  /** Multiplication is associative. */
  lemma ProductAssoc(x: Element, y: Element, z: Element)
    ensures Product(Product(x, y), z) == Product(x, Product(y, z))
  {
    ProductPartial(x, y, z, 128);
    ProductPartial(z, y, x, 128);
    ProductComm(y, z);
    ProductComm(y, x);
    ProductComm(Product(x, y), z);
    hide Partial;
    assert Product(z, Product(y, x)) == Product(y, Product(z, x));
    assert Product(x, Product(y, z)) == Product(y, Product(x, z));
    ProductComm(z, x);
  }

  /** x^128 is 1 + x + x^2 + x^7. */
  lemma Modulus()
    ensures TimesXPower(Unit(0), 128) == Sum(Sum(Unit(0), Unit(1)), Sum(Unit(2), Unit(7)))
  {
    UnitPower(127);
    assert TimesX(Unit(127)) == Sum(Sum(Unit(0), Unit(1)), Sum(Unit(2), Unit(7)));
  }

  // ---------- GHASH, section 6.4 ----------

  function Power(h: Element, k: nat): Element {
    if k == 0 then Unit(0) else Product(Power(h, k - 1), h)
  }

  /** One block at a time, as it is computed. */
  function Chain(x: Element, h: Element, blocks: seq<Element>): Element {
    if blocks == [] then x else Product(Sum(Chain(x, h, blocks[..|blocks| - 1]), blocks[|blocks| - 1]), h)
  }

  /** The first block times the highest power of h, and so on down to the last block times h. */
  function Polynomial(h: Element, blocks: seq<Element>): Element {
    if blocks == [] then ZERO else Sum(Product(blocks[0], Power(h, |blocks|)), Polynomial(h, blocks[1..]))
  }

  lemma {:induction false} PolynomialMore(h: Element, blocks: seq<Element>, last: Element)
    ensures Polynomial(h, blocks + [last]) == Product(Sum(Polynomial(h, blocks), last), h)
  {
    hide Product, Sum;
    if blocks == [] {
      assert [last][1..] == [];
      PowerOne(h);
      SumZero(Product(last, h));
      SumZero(last);
    } else {
      var rest, first := blocks[1..], blocks[0];
      var p := Power(h, |blocks|);
      assert (blocks + [last])[1..] == rest + [last];
      PolynomialMore(h, rest, last);
      ProductAssoc(first, p, h);
      SumAssoc(Product(first, p), Polynomial(h, rest), last);
      Distributive(Product(first, p), Sum(Polynomial(h, rest), last), h);
    }
  }

  lemma PowerOne(h: Element)
    ensures Power(h, 1) == h
  {
    hide Product;
    assert Power(h, 1) == Product(Power(h, 0), h);
    ProductComm(Unit(0), h);
    ProductUnit(h);
  }

  /** The chain over any number of blocks is the polynomial in h. */
  lemma {:induction false} ChainIsPolynomial(h: Element, blocks: seq<Element>)
    ensures Chain(ZERO, h, blocks) == Polynomial(h, blocks)
    decreases |blocks|
  {
    hide Product, Sum;
    if blocks != [] {
      var n := |blocks| - 1;
      ChainIsPolynomial(h, blocks[..n]);
      PolynomialMore(h, blocks[..n], blocks[n]);
      assert blocks == blocks[..n] + [blocks[n]];
    }
  }

  lemma {:induction false} ChainConcat(x: Element, h: Element, a: seq<Element>, b: seq<Element>)
    ensures Chain(x, h, a + b) == Chain(Chain(x, h, a), h, b)
    decreases |b|
  {
    hide Product, Sum;
    if b == [] {
      assert a + b == a;
    } else {
      assert (a + b)[..|a + b| - 1] == a + b[..|b| - 1];
      ChainConcat(x, h, a, b[..|b| - 1]);
    }
  }

  /** Two chains of equal length differ by the polynomial of the differences. */
  lemma {:induction false} ChainDifference(x: Element, y: Element, h: Element, a: seq<Element>, b: seq<Element>,
      d: seq<Element>)
    requires |a| == |b| == |d| && forall i :: 0 <= i < |a| ==> d[i] == Sum(a[i], b[i])
    ensures Chain(Sum(x, y), h, d) == Sum(Chain(x, h, a), Chain(y, h, b))
    decreases |a|
  {
    hide Product, Sum;
    if a != [] {
      var n := |a| - 1;
      ChainDifference(x, y, h, a[..n], b[..n], d[..n]);
      SumSwap(Chain(x, h, a[..n]), Chain(y, h, b[..n]), a[n], b[n]);
      Distributive(Sum(Chain(x, h, a[..n]), a[n]), Sum(Chain(y, h, b[..n]), b[n]), h);
    }
  }
}
