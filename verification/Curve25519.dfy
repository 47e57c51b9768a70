/** The field of integers modulo 2^255 - 19 in five limbs of 51 bits, with 64-bit and 128-bit words.

    Every operation is written with the wrap-around of the machine word it uses.  The contracts show
    that under the limb bounds the ladder keeps no wrap-around happens, and that each operation is
    congruent to the field operation it stands for. */
module Field25519 {

  /** 64-bit and 128-bit wrap-around. */
  function U64(x: int): nat { x % 0x1_0000_0000_0000_0000 }
  function U128(x: int): nat { x % 0x1_0000_0000_0000_0000_0000_0000_0000_0000 }

  /** Shifting right by 51 bits, and keeping the 51 lowest bits. */
  function Shr51(x: nat): nat { x / 0x8_0000_0000_0000 }
  function Mask51(x: int): nat { x % 0x8_0000_0000_0000 }

  datatype Fe = Fe(l0: nat, l1: nat, l2: nat, l3: nat, l4: nat)

  /** The integer with these digits to the base 2^51. */
  function Digits(d0: int, d1: int, d2: int, d3: int, d4: int): int {
    d0 + 0x8_0000_0000_0000 * (d1 + 0x8_0000_0000_0000 * (d2 + 0x8_0000_0000_0000 * (d3 + 0x8_0000_0000_0000 * d4)))
  }

  /** The integer a field element stands for. */
  function Val(f: Fe): int {
    Digits(f.l0, f.l1, f.l2, f.l3, f.l4)
  }

  ghost predicate Below(f: Fe, b: nat) {
    f.l0 < b && f.l1 < b && f.l2 < b && f.l3 < b && f.l4 < b
  }

  /** What multiplication returns: 51-bit limbs, except for a small excess in the second. */
  ghost predicate Tight(f: Fe) {
    f.l0 < 0x8_0000_0000_0000 && f.l1 < 0x8_0000_0000_0000 + 0x4000 && f.l2 < 0x8_0000_0000_0000
        && f.l3 < 0x8_0000_0000_0000 && f.l4 < 0x8_0000_0000_0000
  }

  // ---------- Words ----------

  lemma Fits64(x: int)
    requires 0 <= x < 0x1_0000_0000_0000_0000
    ensures U64(x) == x
  {}

  lemma Fits128(x: int)
    requires 0 <= x < 0x1_0000_0000_0000_0000_0000_0000_0000_0000
    ensures U128(x) == x
  {}

  lemma Split51(x: nat)
    ensures x == 0x8_0000_0000_0000 * Shr51(x) + Mask51(x) && Mask51(x) < 0x8_0000_0000_0000
  {}

  // ---------- Congruence ----------

  /** The residue modulo 2^255 - 19: the modulus is added or taken away until the number is in range. */
  function Mod(x: int): nat
    decreases if x < 0 then 0x7fff_ffff_ffff_ffff_ffff_ffff_ffff_ffff_ffff_ffff_ffff_ffff_ffff_ffff_ffff_ffed - x else x
  {
    if x < 0 then Mod(x + 0x7fff_ffff_ffff_ffff_ffff_ffff_ffff_ffff_ffff_ffff_ffff_ffff_ffff_ffff_ffff_ffed)
    else if x < 0x7fff_ffff_ffff_ffff_ffff_ffff_ffff_ffff_ffff_ffff_ffff_ffff_ffff_ffff_ffff_ffed then x
    else Mod(x - 0x7fff_ffff_ffff_ffff_ffff_ffff_ffff_ffff_ffff_ffff_ffff_ffff_ffff_ffff_ffff_ffed)
  }

  lemma {:induction false} ModIs(x: int)
    ensures Mod(x) == x % 0x7fff_ffff_ffff_ffff_ffff_ffff_ffff_ffff_ffff_ffff_ffff_ffff_ffff_ffff_ffff_ffed
    decreases if x < 0 then 0x7fff_ffff_ffff_ffff_ffff_ffff_ffff_ffff_ffff_ffff_ffff_ffff_ffff_ffff_ffff_ffed - x else x
  {
    if x < 0 {
      ModIs(x + 0x7fff_ffff_ffff_ffff_ffff_ffff_ffff_ffff_ffff_ffff_ffff_ffff_ffff_ffff_ffff_ffed);
    } else if x >= 0x7fff_ffff_ffff_ffff_ffff_ffff_ffff_ffff_ffff_ffff_ffff_ffff_ffff_ffff_ffff_ffed {
      ModIs(x - 0x7fff_ffff_ffff_ffff_ffff_ffff_ffff_ffff_ffff_ffff_ffff_ffff_ffff_ffff_ffff_ffed);
    }
  }

  lemma ModShift(x: int, y: int, k: int)
    requires x == y + k * 0x7fff_ffff_ffff_ffff_ffff_ffff_ffff_ffff_ffff_ffff_ffff_ffff_ffff_ffff_ffff_ffed
    ensures Mod(x) == Mod(y)
  {
    ModIs(x); ModIs(y);
    hide Mod;
    assert x ==
        (y / 0x7fff_ffff_ffff_ffff_ffff_ffff_ffff_ffff_ffff_ffff_ffff_ffff_ffff_ffff_ffff_ffed + k)
        * 0x7fff_ffff_ffff_ffff_ffff_ffff_ffff_ffff_ffff_ffff_ffff_ffff_ffff_ffff_ffff_ffed
        + y % 0x7fff_ffff_ffff_ffff_ffff_ffff_ffff_ffff_ffff_ffff_ffff_ffff_ffff_ffff_ffff_ffed;
  }

  // ---------- The limb operations ----------

  method FeAdd(f: Fe, g: Fe) returns (h: Fe)
    requires Below(f, 0x20_0000_0000_0000) && Below(g, 0x20_0000_0000_0000)
    ensures h == Fe(f.l0 + g.l0, f.l1 + g.l1, f.l2 + g.l2, f.l3 + g.l3, f.l4 + g.l4)
    ensures Val(h) == Val(f) + Val(g)
  {
    hide U64;
    Fits64(f.l0 + g.l0); Fits64(f.l1 + g.l1); Fits64(f.l2 + g.l2); Fits64(f.l3 + g.l3); Fits64(f.l4 + g.l4);
    h := Fe(U64(f.l0 + g.l0), U64(f.l1 + g.l1), U64(f.l2 + g.l2), U64(f.l3 + g.l3), U64(f.l4 + g.l4));
  }

  /** Twice the modulus is added first, so that no limb goes below zero. */
  method FeSub(f: Fe, g: Fe) returns (h: Fe)
    requires Below(f, 0x20_0000_0000_0000) && Below(g, 0xF_FFFF_FFFF_FFDA)
    ensures Val(h) == Val(f) - Val(g)
        + 2 * 0x7fff_ffff_ffff_ffff_ffff_ffff_ffff_ffff_ffff_ffff_ffff_ffff_ffff_ffff_ffff_ffed
    ensures Below(h, 0x30_0000_0000_0000)
  {
    hide U64;
    Fits64(f.l0 + 0xF_FFFF_FFFF_FFDA - g.l0);
    Fits64(f.l1 + 0xF_FFFF_FFFF_FFFE - g.l1); Fits64(f.l2 + 0xF_FFFF_FFFF_FFFE - g.l2);
    Fits64(f.l3 + 0xF_FFFF_FFFF_FFFE - g.l3); Fits64(f.l4 + 0xF_FFFF_FFFF_FFFE - g.l4);
    h := Fe(U64(f.l0 + 0xF_FFFF_FFFF_FFDA - g.l0), U64(f.l1 + 0xF_FFFF_FFFF_FFFE - g.l1),
            U64(f.l2 + 0xF_FFFF_FFFF_FFFE - g.l2), U64(f.l3 + 0xF_FFFF_FFFF_FFFE - g.l3),
            U64(f.l4 + 0xF_FFFF_FFFF_FFFE - g.l4));
  }

  /** The carry chain of the products: once around, folding 2^255 back as 19, and one limb further.  It changes the
      value by a multiple of the modulus and leaves tight limbs. */
  method Carry(r0: nat, r1: nat, r2: nat, r3: nat, r4: nat) returns (h: Fe, ghost c: nat)
    requires r0 < 0x5_0000_0000_0000_0000_0000_0000_0000 && r1 < 0x5_0000_0000_0000_0000_0000_0000_0000
    requires r2 < 0x5_0000_0000_0000_0000_0000_0000_0000 && r3 < 0x5_0000_0000_0000_0000_0000_0000_0000
    requires r4 < 0x6000_0000_0000_0000_0000_0000_0000
    ensures Tight(h)
    ensures Digits(r0, r1, r2, r3, r4) == Val(h)
        + c * 0x7fff_ffff_ffff_ffff_ffff_ffff_ffff_ffff_ffff_ffff_ffff_ffff_ffff_ffff_ffff_ffed
  {
    hide U64, U128, Shr51, Mask51;
    Split51(r0); Fits64(Shr51(r0)); Fits128(r1 + Shr51(r0));
    var t1 := U128(r1 + U64(Shr51(r0)));
    Split51(t1); Fits64(Shr51(t1)); Fits128(r2 + Shr51(t1));
    var t2 := U128(r2 + U64(Shr51(t1)));
    Split51(t2); Fits64(Shr51(t2)); Fits128(r3 + Shr51(t2));
    var t3 := U128(r3 + U64(Shr51(t2)));
    Split51(t3); Fits64(Shr51(t3)); Fits128(r4 + Shr51(t3));
    var t4 := U128(r4 + U64(Shr51(t3)));
    Split51(t4); Fits64(Shr51(t4)); Fits64(19 * Shr51(t4)); Fits128(Mask51(r0) + 19 * Shr51(t4));
    c := Shr51(t4);
    var t0 := U128(Mask51(r0) + U64(19 * U64(Shr51(t4))));
    Split51(t0); Fits64(Shr51(t0)); Fits128(Mask51(t1) + Shr51(t0)); Fits64(Mask51(t1) + Shr51(t0));
    Fits64(Mask51(t0)); Fits64(Mask51(t2)); Fits64(Mask51(t3)); Fits64(Mask51(t4));
    h := Fe(U64(Mask51(t0)), U64(U128(Mask51(t1) + U64(Shr51(t0)))), U64(Mask51(t2)), U64(Mask51(t3)),
            U64(Mask51(t4)));
  }

  // ---------- Multiplication ----------

  lemma DigitsScale(d0: int, d1: int, d2: int, d3: int, d4: int, y: int)
    ensures Digits(d0, d1, d2, d3, d4) * y == Digits(d0 * y, d1 * y, d2 * y, d3 * y, d4 * y)
  {
    var e3 := d3 + 0x8_0000_0000_0000 * d4;
    var e2 := d2 + 0x8_0000_0000_0000 * e3;
    var e1 := d1 + 0x8_0000_0000_0000 * e2;
    assert e3 * y == d3 * y + 0x8_0000_0000_0000 * (d4 * y);
    assert e2 * y == d2 * y + 0x8_0000_0000_0000 * (e3 * y);
    assert e1 * y == d1 * y + 0x8_0000_0000_0000 * (e2 * y);
    assert (d0 + 0x8_0000_0000_0000 * e1) * y == d0 * y + 0x8_0000_0000_0000 * (e1 * y);
  }

  /** The product of one limb with a field element, digit by digit. */
  lemma Row(x: int, g: Fe)
    ensures x * Val(g) == Digits(x * g.l0, x * g.l1, x * g.l2, x * g.l3, x * g.l4)
  {
    DigitsScale(g.l0, g.l1, g.l2, g.l3, g.l4, x);
  }

  lemma ProductExpands(f: Fe, g: Fe)
    ensures Val(f) * Val(g)
         == Digits(f.l0 * g.l0 + 19 * (f.l1 * g.l4 + f.l2 * g.l3 + f.l3 * g.l2 + f.l4 * g.l1),
                   f.l0 * g.l1 + f.l1 * g.l0 + 19 * (f.l2 * g.l4 + f.l3 * g.l3 + f.l4 * g.l2),
                   f.l0 * g.l2 + f.l1 * g.l1 + f.l2 * g.l0 + 19 * (f.l3 * g.l4 + f.l4 * g.l3),
                   f.l0 * g.l3 + f.l1 * g.l2 + f.l2 * g.l1 + f.l3 * g.l0 + 19 * (f.l4 * g.l4),
                   f.l0 * g.l4 + f.l1 * g.l3 + f.l2 * g.l2 + f.l3 * g.l1 + f.l4 * g.l0)
            + Digits(f.l1 * g.l4 + f.l2 * g.l3 + f.l3 * g.l2 + f.l4 * g.l1, f.l2 * g.l4 + f.l3 * g.l3 + f.l4 * g.l2,
                     f.l3 * g.l4 + f.l4 * g.l3, f.l4 * g.l4, 0)
               * 0x7fff_ffff_ffff_ffff_ffff_ffff_ffff_ffff_ffff_ffff_ffff_ffff_ffff_ffff_ffff_ffed
  {
    DigitsScale(f.l0, f.l1, f.l2, f.l3, f.l4, Val(g));
    Row(f.l0, g); Row(f.l1, g); Row(f.l2, g); Row(f.l3, g); Row(f.l4, g);
  }

  lemma ProductMonotone(a: nat, b: nat, c: nat, d: nat)
    requires a <= c && b <= d
    ensures 0 <= a * b <= c * d
  {
    assert a * b <= c * b;
    assert c * b <= c * d;
  }

  lemma ProductBound(a: nat, b: nat)
    requires a < 0x40_0000_0000_0000 && b < 0x40_0000_0000_0000
    ensures 0 <= a * b <= 0x1000_0000_0000_0000_0000_0000_0000
  {
    ProductMonotone(a, b, 0x40_0000_0000_0000, 0x40_0000_0000_0000);
  }

  /** The carry chain on words that did not wrap: congruent to the value they stand for. */
  method CarryCongruent(ghost v: int, r0: nat, r1: nat, r2: nat, r3: nat, r4: nat, ghost q: int) returns (h: Fe)
    requires r0 < 0x5_0000_0000_0000_0000_0000_0000_0000 && r1 < 0x5_0000_0000_0000_0000_0000_0000_0000
    requires r2 < 0x5_0000_0000_0000_0000_0000_0000_0000 && r3 < 0x5_0000_0000_0000_0000_0000_0000_0000
    requires r4 < 0x6000_0000_0000_0000_0000_0000_0000
    requires v == Digits(r0, r1, r2, r3, r4)
        + q * 0x7fff_ffff_ffff_ffff_ffff_ffff_ffff_ffff_ffff_ffff_ffff_ffff_ffff_ffff_ffff_ffed
    ensures Tight(h) && Mod(Val(h)) == Mod(v)
  {
    hide U128, Mod, Digits, Val;
    Fits128(r0); Fits128(r1); Fits128(r2); Fits128(r3); Fits128(r4);
    ghost var c;
    h, c := Carry(U128(r0), U128(r1), U128(r2), U128(r3), U128(r4));
    ModShift(v, Val(h), c + q);
  }

  lemma ColumnBounds(p0: nat, p1: nat, p2: nat, p3: nat, p4: nat)
    requires p0 <= 0x1000_0000_0000_0000_0000_0000_0000 && p1 <= 0x1000_0000_0000_0000_0000_0000_0000
    requires p2 <= 0x1000_0000_0000_0000_0000_0000_0000 && p3 <= 0x1000_0000_0000_0000_0000_0000_0000
    requires p4 <= 0x1000_0000_0000_0000_0000_0000_0000
    ensures p0 + 19 * (p1 + p2 + p3 + p4) < 0x5_0000_0000_0000_0000_0000_0000_0000
    ensures p0 + p1 + 19 * (p2 + p3 + p4) < 0x5_0000_0000_0000_0000_0000_0000_0000
    ensures p0 + p1 + p2 + 19 * (p3 + p4) < 0x5_0000_0000_0000_0000_0000_0000_0000
    ensures p0 + p1 + p2 + p3 + 19 * p4 < 0x5_0000_0000_0000_0000_0000_0000_0000
    ensures p0 + p1 + p2 + p3 + p4 < 0x6000_0000_0000_0000_0000_0000_0000
  {}

  lemma Bounds5(f0: nat, g0: nat, f1: nat, g1: nat, f2: nat, g2: nat, f3: nat, g3: nat, f4: nat, g4: nat)
    requires Below(Fe(f0, f1, f2, f3, f4), 0x40_0000_0000_0000) && Below(Fe(g0, g1, g2, g3, g4), 0x40_0000_0000_0000)
    ensures f0 * g0 >= 0 && f1 * g1 >= 0 && f2 * g2 >= 0 && f3 * g3 >= 0 && f4 * g4 >= 0
    ensures f0 * g0 + 19 * (f1 * g1 + f2 * g2 + f3 * g3 + f4 * g4) < 0x5_0000_0000_0000_0000_0000_0000_0000
    ensures f0 * g0 + f1 * g1 + 19 * (f2 * g2 + f3 * g3 + f4 * g4) < 0x5_0000_0000_0000_0000_0000_0000_0000
    ensures f0 * g0 + f1 * g1 + f2 * g2 + 19 * (f3 * g3 + f4 * g4) < 0x5_0000_0000_0000_0000_0000_0000_0000
    ensures f0 * g0 + f1 * g1 + f2 * g2 + f3 * g3 + 19 * (f4 * g4) < 0x5_0000_0000_0000_0000_0000_0000_0000
    ensures f0 * g0 + f1 * g1 + f2 * g2 + f3 * g3 + f4 * g4 < 0x6000_0000_0000_0000_0000_0000_0000
  {
    ProductBound(f0, g0); ProductBound(f1, g1); ProductBound(f2, g2); ProductBound(f3, g3); ProductBound(f4, g4);
    ColumnBounds(f0 * g0, f1 * g1, f2 * g2, f3 * g3, f4 * g4);
  }

  /** A tight element congruent to the product of two others. */
  ghost predicate IsProduct(h: Fe, f: Fe, g: Fe) {
    Tight(h) && Mod(Val(h)) == Mod(Val(f) * Val(g))
  }

  /** Multiplication is tight and congruent to the product, for all limbs below 2^54. */
  method FeMul(f: Fe, g: Fe) returns (h: Fe)
    requires Below(f, 0x40_0000_0000_0000) && Below(g, 0x40_0000_0000_0000)
    ensures IsProduct(h, f, g)
  {
    hide Mod, Digits, Val, Tight;
    ProductExpands(f, g);
    Bounds5(f.l0, g.l0, f.l1, g.l4, f.l2, g.l3, f.l3, g.l2, f.l4, g.l1);
    Bounds5(f.l0, g.l1, f.l1, g.l0, f.l2, g.l4, f.l3, g.l3, f.l4, g.l2);
    Bounds5(f.l0, g.l2, f.l1, g.l1, f.l2, g.l0, f.l3, g.l4, f.l4, g.l3);
    Bounds5(f.l0, g.l3, f.l1, g.l2, f.l2, g.l1, f.l3, g.l0, f.l4, g.l4);
    Bounds5(f.l0, g.l4, f.l1, g.l3, f.l2, g.l2, f.l3, g.l1, f.l4, g.l0);
    h := CarryCongruent(Val(f) * Val(g),
      f.l0 * g.l0 + 19 * (f.l1 * g.l4 + f.l2 * g.l3 + f.l3 * g.l2 + f.l4 * g.l1),
      f.l0 * g.l1 + f.l1 * g.l0 + 19 * (f.l2 * g.l4 + f.l3 * g.l3 + f.l4 * g.l2),
      f.l0 * g.l2 + f.l1 * g.l1 + f.l2 * g.l0 + 19 * (f.l3 * g.l4 + f.l4 * g.l3),
      f.l0 * g.l3 + f.l1 * g.l2 + f.l2 * g.l1 + f.l3 * g.l0 + 19 * (f.l4 * g.l4),
      f.l0 * g.l4 + f.l1 * g.l3 + f.l2 * g.l2 + f.l3 * g.l1 + f.l4 * g.l0,
      Digits(f.l1 * g.l4 + f.l2 * g.l3 + f.l3 * g.l2 + f.l4 * g.l1, f.l2 * g.l4 + f.l3 * g.l3 + f.l4 * g.l2,
             f.l3 * g.l4 + f.l4 * g.l3, f.l4 * g.l4, 0));
  }

  method FeSq(f: Fe) returns (h: Fe)
    requires Below(f, 0x40_0000_0000_0000)
    ensures IsProduct(h, f, f)
  {
    h := FeMul(f, f);
  }

  lemma ScalarBound(a: nat, s: nat)
    requires a < 0x40_0000_0000_0000 && s < 0x2_0000
    ensures 0 <= a * s < 0x6000_0000_0000_0000_0000_0000_0000
  {
    ProductMonotone(a, s, 0x40_0000_0000_0000, 0x2_0000);
  }

  method FeMulScalar(f: Fe, s: nat) returns (h: Fe)
    requires Below(f, 0x40_0000_0000_0000) && s < 0x2_0000
    ensures Tight(h) && Mod(Val(h)) == Mod(Val(f) * s)
  {
    DigitsScale(f.l0, f.l1, f.l2, f.l3, f.l4, s);
    assert Val(f) * s == Digits(f.l0 * s, f.l1 * s, f.l2 * s, f.l3 * s, f.l4 * s);
    hide Mod, Digits, Val, Tight;
    ScalarBound(f.l0, s); ScalarBound(f.l1, s); ScalarBound(f.l2, s); ScalarBound(f.l3, s); ScalarBound(f.l4, s);
    h := CarryCongruent(Val(f) * s, f.l0 * s, f.l1 * s, f.l2 * s, f.l3 * s, f.l4 * s, 0);
  }

  // ---------- The field operations keep congruence ----------

  lemma ModDifference(x: int, y: int) returns (k: int)
    requires Mod(x) == Mod(y)
    ensures x == y + k * 0x7fff_ffff_ffff_ffff_ffff_ffff_ffff_ffff_ffff_ffff_ffff_ffff_ffff_ffff_ffff_ffed
  {
    ModIs(x); ModIs(y);
    k := x / 0x7fff_ffff_ffff_ffff_ffff_ffff_ffff_ffff_ffff_ffff_ffff_ffff_ffff_ffff_ffff_ffed
        - y / 0x7fff_ffff_ffff_ffff_ffff_ffff_ffff_ffff_ffff_ffff_ffff_ffff_ffff_ffff_ffff_ffed;
  }

  lemma ModAdd(x: int, x': int, y: int, y': int)
    requires Mod(x) == Mod(x') && Mod(y) == Mod(y')
    ensures Mod(x + y) == Mod(x' + y') && Mod(x - y) == Mod(x' - y')
  {
    hide Mod;
    var a := ModDifference(x, x');
    var b := ModDifference(y, y');
    ModShift(x + y, x' + y', a + b);
    ModShift(x - y, x' - y', a - b);
  }

  lemma ModMul(x: int, x': int, y: int, y': int)
    requires Mod(x) == Mod(x') && Mod(y) == Mod(y')
    ensures Mod(x * y) == Mod(x' * y')
  {
    hide Mod;
    var a := ModDifference(x, x');
    var b := ModDifference(y, y');
    ShiftedProduct(x', y', a, b, 0x7fff_ffff_ffff_ffff_ffff_ffff_ffff_ffff_ffff_ffff_ffff_ffff_ffff_ffff_ffff_ffed);
    ModShift(x * y, x' * y', x' * b + a * y'
        + a * b * 0x7fff_ffff_ffff_ffff_ffff_ffff_ffff_ffff_ffff_ffff_ffff_ffff_ffff_ffff_ffff_ffed);
  }

  lemma ShiftedProduct(x: int, y: int, a: int, b: int, p: int)
    ensures (x + a * p) * (y + b * p) == x * y + (x * b + a * y + a * b * p) * p
  {
    assert (x + a * p) * (y + b * p) == x * y + x * (b * p) + (a * p) * y + (a * p) * (b * p);
    assert x * (b * p) == (x * b) * p && (a * p) * y == (a * y) * p && (a * p) * (b * p) == (a * b * p) * p;
  }

  lemma ModMod(x: int)
    ensures Mod(Mod(x)) == Mod(x)
    ensures Mod(x) < 0x7fff_ffff_ffff_ffff_ffff_ffff_ffff_ffff_ffff_ffff_ffff_ffff_ffff_ffff_ffff_ffed
  {
    ModIs(x);
  }

  /** A field element that stands for a residue. */
  ghost predicate Stands(f: Fe, x: nat) {
    Mod(Val(f)) == x
  }

  function FAdd(x: nat, y: nat): nat { Mod(x + y) }
  function FSub(x: nat, y: nat): nat { Mod(x - y) }
  function FMul(x: nat, y: nat): nat { Mod(x * y) }

  function FPow(x: nat, e: nat): nat {
    if e == 0 then 1 else FMul(x, FPow(x, e - 1))
  }

  /** A field element whose value is a sum, or a difference up to twice the modulus. */
  lemma StandsAdd(h: Fe, f: Fe, g: Fe, x: nat, y: nat)
    requires Val(h) == Val(f) + Val(g) && Stands(f, x) && Stands(g, y)
    ensures Stands(h, FAdd(x, y))
  {
    hide Mod, Val;
    ModMod(Val(f)); ModMod(Val(g));
    ModAdd(Val(f), x, Val(g), y);
  }

  lemma StandsSub(h: Fe, f: Fe, g: Fe, x: nat, y: nat)
    requires Val(h) == Val(f) - Val(g)
        + 2 * 0x7fff_ffff_ffff_ffff_ffff_ffff_ffff_ffff_ffff_ffff_ffff_ffff_ffff_ffff_ffff_ffed
    requires Stands(f, x) && Stands(g, y)
    ensures Stands(h, FSub(x, y))
  {
    hide Mod, Val;
    ModMod(Val(f)); ModMod(Val(g));
    ModAdd(Val(f), x, Val(g), y);
    ModShift(Val(h), Val(f) - Val(g), 2);
  }

  /** A field element congruent to a product. */
  lemma StandsMul(h: Fe, v: int, w: int, x: nat, y: nat)
    requires Mod(Val(h)) == Mod(v * w) && Mod(v) == x && Mod(w) == Mod(y)
    ensures Stands(h, FMul(x, y))
  {
    hide Mod, Val;
    ModMod(v);
    ModMul(v, x, w, y);
  }

  lemma StandsProduct(h: Fe, f: Fe, g: Fe, x: nat, y: nat)
    requires IsProduct(h, f, g) && Stands(f, x) && Stands(g, y)
    ensures Stands(h, FMul(x, y))
  {
    hide Mod, Val, Tight, FMul;
    ModMod(Val(g));
    StandsMul(h, Val(f), Val(g), x, y);
  }

  lemma StandsScaled(h: Fe, f: Fe, s: nat, x: nat)
    requires Mod(Val(h)) == Mod(Val(f) * s) && Stands(f, x)
    ensures Stands(h, FMul(x, s))
  {
    hide Mod, Val, FMul;
    StandsMul(h, Val(f), s, x, s);
  }

  // ---------- Inversion ----------

  lemma {:induction false} FPowAdd(x: nat, a: nat, b: nat)
    requires x == Mod(x)
    ensures FPow(x, a + b) == FMul(FPow(x, a), FPow(x, b)) && FPow(x, a) == Mod(FPow(x, a))
  {
    hide Mod;
    FPowReduced(x, a);
    FPowReduced(x, b);
    if a > 0 {
      var y, z := FPow(x, a - 1), FPow(x, b);
      FPowAdd(x, a - 1, b);
      ModMod(x * y);
      ModMod(y * z);
      ModMul(Mod(x * y), x * y, z, z);
      ModMul(x, x, Mod(y * z), y * z);
      assert x * y * z == x * (y * z);
    }
  }

  lemma FPowReduced(x: nat, e: nat)
    ensures FPow(x, e) == Mod(FPow(x, e)) == Mod(1 * FPow(x, e))
  {
    if e == 0 {
    } else {
      ModMod(x * FPow(x, e - 1));
    }
  }

  function Two(n: nat): nat {
    if n == 0 then 1 else 2 * Two(n - 1)
  }

  lemma {:induction false} TwoAdd(a: nat, b: nat)
    ensures Two(a + b) == Two(a) * Two(b)
  {
    if a > 0 {
      TwoAdd(a - 1, b);
    }
  }

  lemma TwoValues()
    ensures Two(2) == 4 && Two(5) == 32 && Two(10) == 1024 && Two(20) == 0x10_0000 && Two(50) == 0x4_0000_0000_0000
    ensures Two(100) == 0x10_0000_0000_0000_0000_0000_0000
  {
    assert Two(2) == 4 && Two(5) == 32;
    TwoAdd(5, 5); TwoAdd(10, 10); TwoAdd(20, 20); TwoAdd(40, 10); TwoAdd(50, 50);
  }

  /** `f` is tight and stands for the e-th power of x. */
  ghost predicate IsPower(f: Fe, x: nat, e: nat) {
    Tight(f) && Stands(f, FPow(x, e))
  }

  lemma PowerMul(h: Fe, f: Fe, g: Fe, x: nat, a: nat, b: nat)
    requires x == Mod(x) && IsPower(f, x, a) && IsPower(g, x, b) && IsProduct(h, f, g)
    ensures IsPower(h, x, a + b)
  {
    hide Mod, Val, Tight, FPow, FMul;
    StandsProduct(h, f, g, FPow(x, a), FPow(x, b));
    FPowAdd(x, a, b);
  }

  lemma PowerBelow(f: Fe, x: nat, e: nat)
    requires IsPower(f, x, e)
    ensures Below(f, 0x40_0000_0000_0000)
  {
  }

  /** The product of two powers. */
  method FeMulPowers(f: Fe, g: Fe, ghost x: nat, ghost a: nat, ghost b: nat) returns (h: Fe)
    requires x == Mod(x) && IsPower(f, x, a) && IsPower(g, x, b)
    ensures IsPower(h, x, a + b)
  {
    hide Mod, Val, Tight, FPow, IsPower, Below, IsProduct;
    PowerBelow(f, x, a); PowerBelow(g, x, b);
    h := FeMul(f, g);
    PowerMul(h, f, g, x, a, b);
  }

  /** n squarings in a loop. */
  method FeSqN(f: Fe, n: nat, ghost x: nat, ghost e: nat) returns (r: Fe)
    requires x == Mod(x) && IsPower(f, x, e)
    ensures IsPower(r, x, e * Two(n))
  {
    hide Mod, Val, Tight, FPow, IsPower;
    r := f;
    for i := 0 to n
      invariant IsPower(r, x, e * Two(i))
    {
      DoubleExponent(e, i);
      r := FeMulPowers(r, r, x, e * Two(i), e * Two(i));
    }
  }

  lemma DoubleExponent(e: nat, i: nat)
    ensures e * Two(i) + e * Two(i) == e * Two(i + 1)
  {
    assert e * (2 * Two(i)) == e * Two(i) + e * Two(i);
  }

  /** Inversion raises to the power 2^255 - 21, by the chain of the source. */
  method FeInv(z: Fe, ghost x: nat) returns (r: Fe)
    requires x == Mod(x) && Tight(z) && Stands(z, x)
    ensures IsPower(r, x, 0x7fff_ffff_ffff_ffff_ffff_ffff_ffff_ffff_ffff_ffff_ffff_ffff_ffff_ffff_ffff_ffed - 2)
  {
    FPowOne(x);
    TwoValues();
    hide Mod, Val, Tight, FPow, IsPower, Two, Stands;
    assert IsPower(z, x, 1) by { PowerOne(z, x); }
    var z2 := FeMulPowers(z, z, x, 1, 1);
    var z8 := FeSqN(z2, 2, x, 2);
    var z9 := FeMulPowers(z, z8, x, 1, 8);
    var z11 := FeMulPowers(z2, z9, x, 2, 9);
    var z22 := FeMulPowers(z11, z11, x, 11, 11);
    var z_5_0 := FeMulPowers(z9, z22, x, 9, 22);
    var t := FeSqN(z_5_0, 5, x, 31);
    var z_10_0 := FeMulPowers(t, z_5_0, x, 0x3E0, 31);
    t := FeSqN(z_10_0, 10, x, 0x3FF);
    var z_20_0 := FeMulPowers(t, z_10_0, x, 0xF_FC00, 0x3FF);
    t := FeSqN(z_20_0, 20, x, 0xF_FFFF);
    var z_40_0 := FeMulPowers(t, z_20_0, x, 0xFF_FFF0_0000, 0xF_FFFF);
    t := FeSqN(z_40_0, 10, x, 0xFF_FFFF_FFFF);
    var z_50_0 := FeMulPowers(t, z_10_0, x, 0x3_FFFF_FFFF_FC00, 0x3FF);
    t := FeSqN(z_50_0, 50, x, 0x3_FFFF_FFFF_FFFF);
    var z_100_0 := FeMulPowers(t, z_50_0, x, 0xF_FFFF_FFFF_FFFC_0000_0000_0000, 0x3_FFFF_FFFF_FFFF);
    t := FeSqN(z_100_0, 100, x, 0xF_FFFF_FFFF_FFFF_FFFF_FFFF_FFFF);
    var z_200_0 := FeMulPowers(t, z_100_0, x, 0xFF_FFFF_FFFF_FFFF_FFFF_FFFF_FFF0_0000_0000_0000_0000_0000_0000,
             0xF_FFFF_FFFF_FFFF_FFFF_FFFF_FFFF);
    t := FeSqN(z_200_0, 50, x, 0xFF_FFFF_FFFF_FFFF_FFFF_FFFF_FFFF_FFFF_FFFF_FFFF_FFFF_FFFF_FFFF);
    var z_250_0 := FeMulPowers(t, z_50_0, x,
        0x3FF_FFFF_FFFF_FFFF_FFFF_FFFF_FFFF_FFFF_FFFF_FFFF_FFFF_FFFF_FFFC_0000_0000_0000,
        0x3_FFFF_FFFF_FFFF);
    t := FeSqN(z_250_0, 5, x, 0x3FF_FFFF_FFFF_FFFF_FFFF_FFFF_FFFF_FFFF_FFFF_FFFF_FFFF_FFFF_FFFF_FFFF_FFFF_FFFF);
    r := FeMulPowers(t, z11, x, 0x7FFF_FFFF_FFFF_FFFF_FFFF_FFFF_FFFF_FFFF_FFFF_FFFF_FFFF_FFFF_FFFF_FFFF_FFFF_FFE0, 11);
  }

  lemma FPowOne(x: nat)
    requires x == Mod(x)
    ensures FPow(x, 1) == x
  {
    assert FPow(x, 0) == 1;
    assert x * 1 == x;
  }

  lemma PowerOne(z: Fe, x: nat)
    requires x == Mod(x) && Tight(z) && Stands(z, x)
    ensures IsPower(z, x, 1)
  {
    hide Mod, Val;
    FPowOne(x);
  }
}
