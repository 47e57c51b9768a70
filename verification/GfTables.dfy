/** The exp/log tables of the erasure code, built once and then only read. */
module FieldTables {
  import opened Galois

  /** One step of the generator: shift the 16-bit word and, on overflow of bit 8, reduce by 0x11D. */
  function NextPower(x: bv16): (w: bv16)
    requires x < 0x100
    ensures w < 0x100 && w as Byte == Xtime(x as Byte)
  {
    var z := x << 1;
    if z & 0x100 != 0 then z ^ 0x11D else z
  }

  lemma ExpNext(i: nat)
    ensures Exp(i + 1) == Xtime(Exp(i))
  {
    hide Xtime;
  }

  /** The logarithm slot written in step `i` was not written before. */
  lemma LogSlotFree(i: nat)
    requires i < 255
    ensures Exp(i) as int != 0
    ensures forall j: nat | j < i :: Exp(j) as int != Exp(i) as int
  {
    hide *;
    ExpNonZero(i);
    forall j: nat | j < i ensures Exp(j) as int != Exp(i) as int {
      ExpDistinct(j, i);
      if Exp(j) as int == Exp(i) as int {
        ToIntInjective(Exp(j), Exp(i));
      }
    }
  }

  method FillPowers(exp: array<Byte>, log: array<nat>)
    requires exp.Length == 512 && log.Length == 256 && log[0] == 0
    modifies exp, log
    ensures forall j: nat | j < 255 :: exp[j] == Exp(j)
    ensures forall j: nat | j < 255 :: log[Exp(j) as int] == j
    ensures log[0] == 0
  {
    var x: bv16 := 1;
    assert Exp(0) == 1;
    for i := 0 to 255
      invariant x < 0x100 && x as Byte == Exp(i)
      invariant forall j: nat | j < i :: exp[j] == Exp(j)
      invariant forall j: nat | j < i :: log[Exp(j) as int] == j
      invariant log[0] == 0
    {
      hide *;
      PutPower(exp, log, i, x as Byte);
      ExpNext(i);
      x := NextPower(x);
    }
  }

  /** The next entry of each table; no earlier entry of the log table is overwritten. */
  method PutPower(exp: array<Byte>, log: array<nat>, i: nat, b: Byte)
    requires exp.Length == 512 && log.Length == 256 && i < 255 && b == Exp(i)
    requires log[0] == 0 && forall j: nat | j < i :: log[Exp(j) as int] == j
    requires forall j: nat | j < i :: exp[j] == Exp(j)
    modifies exp, log
    ensures forall j: nat | j <= i :: exp[j] == Exp(j)
    ensures log[0] == 0 && forall j: nat | j <= i :: log[Exp(j) as int] == j
  {
    hide *;
    LogSlotFree(i);
    exp[i] := b;
    log[b as int] := i;
  }

  method DoublePowers(exp: array<Byte>)
    requires exp.Length == 512 && forall j: nat | j < 255 :: exp[j] == Exp(j)
    modifies exp
    ensures forall j: nat | j < 512 :: exp[j] == Exp(j)
  {
    hide *;
    for i := 255 to 512
      invariant forall j: nat | j < i :: exp[j] == Exp(j)
    {
      exp[i] := exp[i - 255];
      ExpMod(i);
      ExpMod(i - 255);
    }
  }

  lemma LogComplete(log: seq<nat>)
    requires |log| == 256 && forall j: nat | j < 255 :: log[Exp(j) as int] == j
    ensures forall v: nat | 1 <= v < 256 :: log[v] < 255 && Exp(log[v]) as int == v
  {
    hide *;
    forall v: nat | 1 <= v < 256 ensures log[v] < 255 && Exp(log[v]) as int == v {
      var a := v as Byte;
      assert a != 0 && a as int == v;
      ExpSurjective(a);
    }
  }

  class GfTables {
    const exp: Bytes
    const log: seq<nat>

    /** What the arithmetic below relies on: `exp` lists the powers of x, doubled so that the sum
        of two logarithms needs no reduction, and `log` inverts it on every non-zero byte. */
    ghost predicate Valid() {
      && |exp| == 512 && (forall i: nat | i < 512 :: exp[i] == Exp(i))
      && |log| == 256 && (forall v: nat | 1 <= v < 256 :: log[v] < 255 && Exp(log[v]) as int == v)
      && log[0] == 0
    }

    constructor ()
      ensures Valid()
    {
      var expTable := new Byte[512](_ => 0);
      var logTable := new nat[256](_ => 0);
      FillPowers(expTable, logTable);
      DoublePowers(expTable);
      hide Exp;
      LogComplete(logTable[..]);
      exp := expTable[..];
      log := logTable[..];
    }

    lemma Lookup(a: Byte)
      requires Valid() && a != 0
      ensures log[a as int] < 255 && Exp(log[a as int]) == a
    {
      hide Exp;
      ToIntInjective(Exp(log[a as int]), a);
    }

    /** Product by table lookup: the field product. */
    function GfMul(a: Byte, b: Byte): (r: Byte)
      requires Valid()
      ensures r == Mul(a, b)
    {
      if a == 0 || b == 0 then
        MulZero(a); MulZero(b);
        0
      else
        assert exp[log[a as int] + log[b as int]] == Mul(a, b) by {
          hide Mul, Exp;
          Lookup(a);
          Lookup(b);
          ExpAdd(log[a as int], log[b as int]);
        }
        exp[log[a as int] + log[b as int]]
    }

    /** Power by table lookup: the e-fold product. */
    function GfPow(a: Byte, e: nat): (r: Byte)
      requires Valid()
      ensures r == Pow(a, e)
    {
      if e == 0 then 1
      else if a == 0 then
        MulZero(Pow(0, e - 1));
        0
      else
        assert exp[log[a as int] * e % 255] == Pow(a, e) by {
          hide Mul, Exp, Pow;
          Lookup(a);
          PowExp(log[a as int], e);
          ExpMod(log[a as int] * e);
        }
        exp[log[a as int] * e % 255]
    }

    /** Inverse by table lookup; the source leaves the inverse of zero unspecified and returns 1. */
    function GfInv(a: Byte): (r: Byte)
      requires Valid()
      ensures a != 0 ==> Mul(a, r) == 1
    {
      if a != 0 then
        assert Mul(a, exp[255 - log[a as int]]) == 1 by {
          hide Mul, Exp;
          Lookup(a);
          ExpInverse(log[a as int]);
        }
        exp[255 - log[a as int]]
      else
        exp[255 - log[a as int]]
    }
  }
}
