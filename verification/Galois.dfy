/** Arithmetic of GF(2^8) as the erasure code uses it.

    A byte stands for a polynomial of degree below 8 over GF(2); addition is bitwise
    exclusive or, and multiplication is polynomial multiplication modulo
    x^8 + x^4 + x^3 + x^2 + 1 (0x11D).  `Mul` is the shift-and-add definition of that product.
    The rest of the module proves that it makes the bytes a field whose non-zero elements are
    exactly the powers of x, which is what the exp/log tables of the code rely on. */
module Galois {
  import Common

  type Byte = bv8
  type Bytes = seq<Byte>

  function Add(a: Byte, b: Byte): Byte {
    a ^ b
  }

  /** Multiplication by x, reduced modulo 0x11D. */
  function Xtime(a: Byte): Byte {
    (a << 1) ^ ((0 - (a >> 7)) & 0x1D)
  }

  /** `a` if the lowest bit of `b` is set, and zero otherwise. */
  function Select(b: Byte, a: Byte): Byte {
    (0 - (b & 1)) & a
  }

  /** The product of `a` with the polynomial formed by the `k` lowest bits of `b`. */
  function MulBits(a: Byte, b: Byte, k: nat): Byte
    decreases k
  {
    if k == 0 then 0 else Add(Select(b, a), MulBits(Xtime(a), b >> 1, k - 1))
  }

  function Mul(a: Byte, b: Byte): Byte {
    MulBits(a, b, 8)
  }

  /** The powers of x: `Exp(i)` is x^i. */
  function Exp(i: nat): Byte {
    if i == 0 then 1 else Xtime(Exp(i - 1))
  }

  function Pow(a: Byte, e: nat): Byte {
    if e == 0 then 1 else Mul(a, Pow(a, e - 1))
  }

  /** The modulus: x times x^7 is x^4 + x^3 + x^2 + 1. */
  lemma Reduction()
    ensures Mul(0x02, 0x80) == 0x1D && Exp(8) == 0x1D
  {}

  // ---------- Addition ----------

  lemma AddComm(a: Byte, b: Byte)
    ensures Add(a, b) == Add(b, a)
  {}

  lemma AddAssoc(a: Byte, b: Byte, c: Byte)
    ensures Add(Add(a, b), c) == Add(a, Add(b, c))
  {}

  lemma AddZero(a: Byte)
    ensures Add(a, 0) == a && Add(0, a) == a
  {}

  lemma AddSelf(a: Byte)
    ensures Add(a, a) == 0
  {}

  lemma AddCancel(a: Byte, b: Byte)
    ensures Add(Add(a, b), b) == a
    ensures Add(a, b) == 0 <==> a == b
  {}

  lemma AddSwap(a: Byte, b: Byte, c: Byte, d: Byte)
    ensures Add(Add(a, b), Add(c, d)) == Add(Add(a, c), Add(b, d))
  {
    hide *;
    AddAssoc(a, b, Add(c, d));
    AddAssoc(b, c, d);
    AddComm(b, c);
    AddAssoc(c, b, d);
    AddAssoc(a, c, Add(b, d));
  }

  // ---------- Multiplication ----------

  lemma XtimeAdd(a: Byte, b: Byte)
    ensures Xtime(Add(a, b)) == Add(Xtime(a), Xtime(b))
  {
    assert Xtime(a ^ b) == Xtime(a) ^ Xtime(b);
  }

  lemma SelectCases(b: Byte, x: Byte)
    ensures Select(b, x) == x || Select(b, x) == 0
    ensures Select(b, x) == if b & 1 == 1 then x else 0
  {}

  lemma SelectAddRight(b: Byte, x: Byte, y: Byte)
    ensures Select(b, Add(x, y)) == Add(Select(b, x), Select(b, y))
  {
    hide Select, Add;
    SelectCases(b, x);
    SelectCases(b, y);
    SelectCases(b, Add(x, y));
    AddZero(0);
  }

  lemma SelectAddLeft(b: Byte, c: Byte, x: Byte)
    ensures Select(Add(b, c), x) == Add(Select(b, x), Select(c, x))
  {
    assert Select(b ^ c, x) == Select(b, x) ^ Select(c, x);
  }

  lemma XtimeSelect(b: Byte, x: Byte)
    ensures Xtime(Select(b, x)) == Select(b, Xtime(x))
  {}

  lemma HalfAdd(b: Byte, c: Byte)
    ensures Add(b, c) >> 1 == Add(b >> 1, c >> 1)
  {}

  lemma {:induction false} MulBitsAddLeft(a: Byte, c: Byte, b: Byte, k: nat)
    ensures MulBits(Add(a, c), b, k) == Add(MulBits(a, b, k), MulBits(c, b, k))
    decreases k
  {
    if k == 0 {
    } else {
      hide Add, Select, Xtime;
      XtimeAdd(a, c);
      SelectAddRight(b, a, c);
      MulBitsAddLeft(Xtime(a), Xtime(c), b >> 1, k - 1);
      AddSwap(Select(b, a), Select(b, c), MulBits(Xtime(a), b >> 1, k - 1), MulBits(Xtime(c), b >> 1, k - 1));
    }
  }

  lemma {:induction false} MulBitsAddRight(a: Byte, b: Byte, c: Byte, k: nat)
    ensures MulBits(a, Add(b, c), k) == Add(MulBits(a, b, k), MulBits(a, c, k))
    decreases k
  {
    if k == 0 {
    } else {
      hide Add, Select, Xtime;
      SelectAddLeft(b, c, a);
      HalfAdd(b, c);
      MulBitsAddRight(Xtime(a), b >> 1, c >> 1, k - 1);
      AddSwap(Select(b, a), Select(c, a), MulBits(Xtime(a), b >> 1, k - 1), MulBits(Xtime(a), c >> 1, k - 1));
    }
  }

  lemma {:induction false} MulBitsXtime(a: Byte, b: Byte, k: nat)
    ensures MulBits(Xtime(a), b, k) == Xtime(MulBits(a, b, k))
    decreases k
  {
    if k == 0 {
    } else {
      hide Add, Select, Xtime;
      MulBitsXtime(Xtime(a), b >> 1, k - 1);
      XtimeAdd(Select(b, a), MulBits(Xtime(a), b >> 1, k - 1));
      XtimeSelect(b, a);
    }
  }

  lemma MulXtime(a: Byte, b: Byte)
    ensures Mul(Xtime(a), b) == Xtime(Mul(a, b))
  {
    hide MulBits, Xtime;
    MulBitsXtime(a, b, 8);
  }

  lemma MulAddLeft(a: Byte, b: Byte, c: Byte)
    ensures Mul(Add(a, b), c) == Add(Mul(a, c), Mul(b, c))
  {
    hide MulBits, Add;
    MulBitsAddLeft(a, b, c, 8);
  }

  lemma MulAddRight(a: Byte, b: Byte, c: Byte)
    ensures Mul(a, Add(b, c)) == Add(Mul(a, b), Mul(a, c))
  {
    hide MulBits, Add;
    MulBitsAddRight(a, b, c, 8);
  }

  lemma {:induction false} MulBitsZero(b: Byte, k: nat)
    ensures MulBits(0, b, k) == 0 && MulBits(b, 0, k) == 0
    decreases k
  {
    if k == 0 {
    } else {
      assert Xtime(0) == 0 && Select(b, 0) == 0 && Select(0, b) == 0 && Add(0, 0) == 0;
      hide Add, Select, Xtime;
      MulBitsZero(b >> 1, k - 1);
      MulBitsZero(Xtime(b), k - 1);
    }
  }

  lemma MulZero(a: Byte)
    ensures Mul(0, a) == 0 && Mul(a, 0) == 0
  {
    hide MulBits;
    MulBitsZero(a, 8);
  }

  lemma MulSelect(b: Byte, a: Byte, c: Byte)
    ensures Mul(Select(b, a), c) == Select(b, Mul(a, c))
  {
    assert b & 1 == 0 || b & 1 == 1;
    assert (Select(b, a) == a && Select(b, Mul(a, c)) == Mul(a, c)) || (Select(b, a) == 0 && Select(b, Mul(a, c)) == 0)
    by { hide Mul; }
    hide *;
    MulZero(c);
  }

  /** The product may be taken by the bits of the first factor after the other one is applied. */
  lemma {:induction false} MulBitsMul(a: Byte, b: Byte, c: Byte, k: nat)
    ensures Mul(MulBits(a, b, k), c) == MulBits(Mul(a, c), b, k)
    decreases k
  {
    hide Add, Select, Xtime, Mul;
    if k == 0 {
      MulZero(c);
    } else {
      var rest := MulBits(Xtime(a), b >> 1, k - 1);
      MulBitsMul(Xtime(a), b >> 1, c, k - 1);
      MulXtime(a, c);
      MulAddLeft(Select(b, a), rest, c);
      MulSelect(b, a, c);
    }
  }

  lemma MulSwap(a: Byte, b: Byte, c: Byte)
    ensures Mul(Mul(a, b), c) == Mul(Mul(a, c), b)
  {
    hide MulBits;
    MulBitsMul(a, b, c, 8);
  }

  lemma BitsOf(b: Byte)
    ensures Add(Select(b, 1), Xtime(b >> 1)) == b
  {}

  lemma {:induction false} MulBitsOne(b: Byte, k: nat, mask: Byte)
    requires k <= 8 && b <= mask && mask as int == Pow2(k) - 1
    ensures MulBits(1, b, k) == b
    decreases k
  {
    if k == 0 {
    } else {
      BitsOf(b);
      assert b >> 1 <= mask >> 1;
      assert (mask >> 1) as int == Pow2(k - 1) - 1;
      hide Add, Select, Xtime;
      MulBitsOne(b >> 1, k - 1, mask >> 1);
      MulBitsXtime(1, b >> 1, k - 1);
    }
  }

  function Pow2(k: nat): nat { if k == 0 then 1 else 2 * Pow2(k - 1) }

  lemma MulOne(b: Byte)
    ensures Mul(1, b) == b && Mul(b, 1) == b
  {
    assert Mul(b, 1) == b by {
      assert Select(1, b) == b && Add(b, 0) == b;
      hide Select, Add, Xtime;
      MulBitsZero(Xtime(b), 7);
    }
    hide Select, Xtime;
    MulBitsOne(b, 8, 255);
  }

  lemma MulComm(a: Byte, b: Byte)
    ensures Mul(a, b) == Mul(b, a)
  {
    hide *;
    MulSwap(1, a, b);
    MulOne(a);
    MulOne(b);
  }

  lemma MulAssoc(a: Byte, b: Byte, c: Byte)
    ensures Mul(Mul(a, b), c) == Mul(a, Mul(b, c))
  {
    hide *;
    MulComm(a, b);
    MulSwap(b, a, c);
    MulComm(a, Mul(b, c));
  }

  // ---------- The cyclic group of non-zero elements ----------

  lemma {:induction false} ExpAdd(i: nat, j: nat)
    ensures Mul(Exp(i), Exp(j)) == Exp(i + j)
  {
    hide Mul, Xtime;
    if i == 0 {
      MulOne(Exp(j));
    } else {
      ExpAdd(i - 1, j);
      MulXtime(Exp(i - 1), Exp(j));
    }
  }

  /** The product unrolled, so that products of constants can be evaluated. */
  lemma MulUnrolled(a: Byte, b: Byte)
    ensures
      var (a1, b1) := (Xtime(a), b >> 1); var (a2, b2) := (Xtime(a1), b1 >> 1); var (a3, b3) := (Xtime(a2), b2 >> 1);
      var (a4, b4) := (Xtime(a3), b3 >> 1); var (a5, b5) := (Xtime(a4), b4 >> 1); var (a6, b6) := (Xtime(a5), b5 >> 1);
      var (a7, b7) := (Xtime(a6), b6 >> 1);
      Mul(a, b) == Add(Select(b, a), Add(Select(b1, a1), Add(Select(b2, a2), Add(Select(b3, a3),
                   Add(Select(b4, a4), Add(Select(b5, a5), Add(Select(b6, a6), Add(Select(b7, a7), 0))))))))
  {
    hide Add, Select, Xtime;
    MulTail(a, b, 8);
    MulTail(Xtime(a), b >> 1, 7);
    MulTail(Xtime(Xtime(a)), b >> 1 >> 1, 6);
    MulTail(Xtime(Xtime(Xtime(a))), b >> 1 >> 1 >> 1, 5);
  }

  lemma MulTail(a: Byte, b: Byte, k: nat)
    requires k > 1
    ensures MulBits(a, b, k) == Add(Select(b, a), Add(Select(b >> 1, Xtime(a)),
        MulBits(Xtime(Xtime(a)), b >> 1 >> 1, k - 2)))
  {}

  lemma ExpOrder()
    ensures Exp(255) == 1 && Exp(85) == 214 && Exp(51) == 10 && Exp(15) == 38
  {
    assert Exp(15) == 0x26 && Exp(1) == 2;
    MulUnrolled(0x26, 2); MulUnrolled(0x4C, 2); MulUnrolled(0x98, 0x98); MulUnrolled(0x4E, 0x98);
    MulUnrolled(0x4E, 0x4E); MulUnrolled(0x99, 0x98); MulUnrolled(0xD6, 0xD6); MulUnrolled(0xD7, 0xD6);
    hide Mul, Exp;
    ExpAdd(15, 1); ExpAdd(16, 1); ExpAdd(17, 17); ExpAdd(34, 17);
    ExpAdd(34, 34); ExpAdd(68, 17); ExpAdd(85, 85); ExpAdd(170, 85);
  }

  lemma {:induction false} ExpMultiple(d: nat, k: nat)
    requires Exp(d) == 1
    ensures Exp(k * d) == 1
  {
    if k == 0 {
    } else {
      hide Mul, Exp;
      ExpMultiple(d, k - 1);
      ExpAdd(d, (k - 1) * d);
      MulOne(1);
    }
  }

  lemma ExpMod(i: nat)
    ensures Exp(i) == Exp(i % 255)
  {
    hide Mul, Exp;
    ExpOrder();
    ExpMultiple(255, i / 255);
    ExpAdd(i / 255 * 255, i % 255);
    MulOne(Exp(i % 255));
  }

  lemma ProductAtLeast(q: nat, d: nat)
    requires q >= 16 && d >= 16
    ensures q * d >= 256
  {
    assert q * d >= 16 * d;
  }

  lemma ProperDivisors(q: nat, d: nat)
    requires q * d == 255 && d < 255
    ensures d in {1, 3, 5, 15, 17, 51, 85}
  {
    if q >= 16 && d >= 16 {
      ProductAtLeast(q, d);
    }
  }

  /** x has order exactly 255: no smaller positive power of it is 1. */
  lemma {:induction false} ExpNotOne(d: nat)
    requires 0 < d < 255
    ensures Exp(d) != 1
  {
    hide Mul, Exp;
    if Exp(d) == 1 {
      var q, r := 255 / d, 255 % d;
      ExpOrder();
      ExpMultiple(d, q);
      ExpAdd(q * d, r);
      MulOne(Exp(r));
      if r == 0 {
        ProperDivisors(q, d);
        if d in {1, 5, 17, 85} {
          ExpMultiple(d, 85 / d);
        } else if d in {3, 51} {
          ExpMultiple(d, 51 / d);
        }
      } else {
        ExpNotOne(r);
      }
    }
  }

  lemma ExpDistinct(i: nat, j: nat)
    requires i < j < 255
    ensures Exp(i) != Exp(j)
  {
    hide Mul, Exp;
    ExpAdd(j, 255 - i);
    ExpAdd(i, 255 - i);
    ExpOrder();
    ExpMod(j + (255 - i));
    ExpNotOne(j - i);
  }

  lemma ExpEqual(i: nat, j: nat)
    ensures Exp(i) == Exp(j) <==> i % 255 == j % 255
  {
    hide Exp;
    ExpMod(i);
    ExpMod(j);
    if i % 255 < j % 255 {
      ExpDistinct(i % 255, j % 255);
    } else if j % 255 < i % 255 {
      ExpDistinct(j % 255, i % 255);
    }
  }

  lemma ExpZero()
    ensures Exp(0) == 1
  {}

  lemma ExpNonZero(i: nat)
    ensures Exp(i) != 0
  {
    hide Mul, Exp;
    ExpMod(i);
    ExpAdd(i % 255, 255 - i % 255);
    ExpOrder();
    MulZero(Exp(255 - i % 255));
  }

  ghost function UpTo(n: nat): (s: set<int>)
    ensures |s| == n && forall x :: x in s <==> 1 <= x <= n
  {
    if n == 0 then {} else UpTo(n - 1) + {n}
  }

  ghost function Powers(n: nat): set<int> {
    set i: nat | i < n :: Exp(i) as int
  }

  lemma {:induction false} PowersSize(n: nat)
    requires n <= 255
    ensures |Powers(n)| == n
  {
    hide Mul, Exp;
    if n == 0 {
    } else {
      PowersSize(n - 1);
      assert Powers(n) == Powers(n - 1) + {Exp(n - 1) as int};
      forall i: nat | i < n - 1 ensures Exp(i) as int != Exp(n - 1) as int {
        if Exp(i) as int == Exp(n - 1) as int {
          ToIntInjective(Exp(i), Exp(n - 1));
          ExpDistinct(i, n - 1);
        }
      }
    }
  }

  lemma ToIntInjective(a: Byte, b: Byte)
    requires a as int == b as int
    ensures a == b
  {}

  /** Every non-zero byte is a power of x: the logarithm table has no gap. */
  lemma ExpSurjective(a: Byte)
    requires a != 0
    ensures exists i: nat :: i < 255 && Exp(i) == a
  {
    hide Mul, Exp;
    var range := UpTo(255);
    PowersSize(255);
    forall i: nat | i < 255 ensures Exp(i) as int in range {
      ExpNonZero(i);
    }
    assert Powers(255) <= range;
    assert a as int in range;
    if a as int !in Powers(255) {
      Common.SubsetSize(Powers(255) + {a as int}, range);
      assert false;
    }
    var i: nat :| i < 255 && Exp(i) as int == a as int;
    ToIntInjective(Exp(i), a);
  }

  // ---------- Consequences: inverses, no zero divisors, powers ----------

  lemma ExpInverse(i: nat)
    requires i < 255
    ensures Mul(Exp(i), Exp(255 - i)) == 1
  {
    hide Mul, Exp;
    ExpAdd(i, 255 - i);
    ExpOrder();
  }

  ghost function Inverse(a: Byte): (b: Byte)
    requires a != 0
    ensures Mul(a, b) == 1
  {
    ExpSurjective(a);
    var i: nat :| i < 255 && Exp(i) == a;
    ExpInverse(i);
    Exp(255 - i)
  }

  lemma MulCancel(c: Byte, a: Byte, b: Byte)
    requires c != 0 && Mul(c, a) == Mul(c, b)
    ensures a == b
  {
    hide *;
    var d := Inverse(c);
    MulComm(c, d);
    MulAssoc(d, c, a);
    MulAssoc(d, c, b);
    MulOne(a);
    MulOne(b);
  }

  lemma NoZeroDivisors(a: Byte, b: Byte)
    ensures Mul(a, b) == 0 <==> a == 0 || b == 0
  {
    hide *;
    MulZero(a);
    MulZero(b);
    if a != 0 && Mul(a, b) == 0 {
      MulCancel(a, b, 0);
    }
  }

  lemma {:induction false} PowAdd(a: Byte, i: nat, j: nat)
    ensures Pow(a, i + j) == Mul(Pow(a, i), Pow(a, j))
  {
    hide Mul;
    if i == 0 {
      MulOne(Pow(a, j));
    } else {
      PowAdd(a, i - 1, j);
      MulAssoc(a, Pow(a, i - 1), Pow(a, j));
    }
  }

  lemma {:induction false} PowExp(l: nat, e: nat)
    ensures Pow(Exp(l), e) == Exp(l * e)
  {
    hide Mul, Xtime;
    if e == 0 {
    } else {
      PowExp(l, e - 1);
      ExpAdd(l, l * (e - 1));
      assert l + l * (e - 1) == l * e;
    }
  }

  lemma {:induction false} PowNonZero(a: Byte, e: nat)
    requires a != 0
    ensures Pow(a, e) != 0
  {
    hide Mul;
    if e == 0 {
    } else {
      PowNonZero(a, e - 1);
      NoZeroDivisors(a, Pow(a, e - 1));
    }
  }
}
