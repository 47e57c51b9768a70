/** Authentication blocks as the code keeps them, sixteen bytes with the first coefficient in the top bit. */
module Ghash {
  import opened Galois
  import opened Gf128

  predicate Has(b: Byte, mask: Byte) { b & mask != 0 }

  /** Bit k of a byte, counted from the top. */
  predicate BitAt(b: Byte, k: nat)
    requires k < 8
  {
    if k == 0 then Has(b, 0x80) else if k == 1 then Has(b, 0x40) else if k == 2 then Has(b, 0x20)
    else if k == 3 then Has(b, 0x10) else if k == 4 then Has(b, 0x08) else if k == 5 then Has(b, 0x04)
    else if k == 6 then Has(b, 0x02) else Has(b, 0x01)
  }

  function AsElement(b: Bytes): Element
    requires |b| == 16
  {
    seq(128, i requires 0 <= i < 128 => BitAt(b[i / 8], i % 8))
  }

  lemma ByteOfBits(a: Byte, b: Byte)
    requires forall k: nat | k < 8 :: BitAt(a, k) == BitAt(b, k)
    ensures a == b
  {
    assert BitAt(a, 0) == BitAt(b, 0) && BitAt(a, 1) == BitAt(b, 1) && BitAt(a, 2) == BitAt(b, 2);
    assert BitAt(a, 3) == BitAt(b, 3) && BitAt(a, 4) == BitAt(b, 4) && BitAt(a, 5) == BitAt(b, 5);
    assert BitAt(a, 6) == BitAt(b, 6) && BitAt(a, 7) == BitAt(b, 7);
  }

  /** A block is determined by its element. */
  lemma AsElementInjective(a: Bytes, b: Bytes)
    requires |a| == |b| == 16 && AsElement(a) == AsElement(b)
    ensures a == b
  {
    forall j | 0 <= j < 16 ensures a[j] == b[j] {
      forall k: nat | k < 8 ensures BitAt(a[j], k) == BitAt(b[j], k) {
        assert AsElement(a)[8 * j + k] == AsElement(b)[8 * j + k];
        assert (8 * j + k) / 8 == j && (8 * j + k) % 8 == k;
      }
      ByteOfBits(a[j], b[j]);
    }
  }

  function Xor(a: Byte, b: Byte): Byte { a ^ b }

  lemma BitXor(a: Byte, b: Byte, k: nat)
    requires k < 8
    ensures BitAt(Xor(a, b), k) == (BitAt(a, k) != BitAt(b, k))
  {
    BitXorHigh(a, b);
    BitXorLow(a, b);
    hide Xor, Has;
  }

  lemma BitXorHigh(a: Byte, b: Byte)
    ensures Has(Xor(a, b), 0x80) == (Has(a, 0x80) != Has(b, 0x80))
    ensures Has(Xor(a, b), 0x40) == (Has(a, 0x40) != Has(b, 0x40))
    ensures Has(Xor(a, b), 0x20) == (Has(a, 0x20) != Has(b, 0x20))
    ensures Has(Xor(a, b), 0x10) == (Has(a, 0x10) != Has(b, 0x10))
  {}

  lemma BitXorLow(a: Byte, b: Byte)
    ensures Has(Xor(a, b), 0x08) == (Has(a, 0x08) != Has(b, 0x08))
    ensures Has(Xor(a, b), 0x04) == (Has(a, 0x04) != Has(b, 0x04))
    ensures Has(Xor(a, b), 0x02) == (Has(a, 0x02) != Has(b, 0x02))
    ensures Has(Xor(a, b), 0x01) == (Has(a, 0x01) != Has(b, 0x01))
  {}

  lemma XorIsSum(a: Bytes, b: Bytes, c: Bytes)
    requires |a| == |b| == |c| == 16 && forall j :: 0 <= j < 16 ==> c[j] == Xor(a[j], b[j])
    ensures AsElement(c) == Sum(AsElement(a), AsElement(b))
  {
    hide BitAt, Xor;
    forall i | 0 <= i < 128 ensures AsElement(c)[i] == Sum(AsElement(a), AsElement(b))[i] {
      BitXor(a[i / 8], b[i / 8], i % 8);
    }
  }

  function Pushed(upper: Byte, b: Byte): Byte { (b >> 1) | (upper << 7) }

  lemma PushedHigh(upper: Byte, b: Byte)
    ensures Has(Pushed(upper, b), 0x80) == Has(upper, 0x01)
    ensures Has(Pushed(upper, b), 0x40) == Has(b, 0x80)
    ensures Has(Pushed(upper, b), 0x20) == Has(b, 0x40)
    ensures Has(Pushed(upper, b), 0x10) == Has(b, 0x20)
  {}

  lemma PushedLow(upper: Byte, b: Byte)
    ensures Has(Pushed(upper, b), 0x08) == Has(b, 0x10)
    ensures Has(Pushed(upper, b), 0x04) == Has(b, 0x08)
    ensures Has(Pushed(upper, b), 0x02) == Has(b, 0x04)
    ensures Has(Pushed(upper, b), 0x01) == Has(b, 0x02)
  {}

  lemma BitPushed(upper: Byte, b: Byte, k: nat)
    requires k < 8
    ensures BitAt(Pushed(upper, b), k) == if k == 0 then BitAt(upper, 7) else BitAt(b, k - 1)
  {
    PushedHigh(upper, b);
    PushedLow(upper, b);
    hide Pushed, Has;
  }

  function Reduced(b: Byte, carry: bool): Byte { if carry then (b >> 1) ^ 0xE1 else b >> 1 }

  lemma ReducedHigh(b: Byte, carry: bool)
    ensures Has(Reduced(b, carry), 0x80) == carry
    ensures Has(Reduced(b, carry), 0x40) == (Has(b, 0x80) != carry)
    ensures Has(Reduced(b, carry), 0x20) == (Has(b, 0x40) != carry)
    ensures Has(Reduced(b, carry), 0x10) == Has(b, 0x20)
  {}

  lemma ReducedLow(b: Byte, carry: bool)
    ensures Has(Reduced(b, carry), 0x08) == Has(b, 0x10)
    ensures Has(Reduced(b, carry), 0x04) == Has(b, 0x08)
    ensures Has(Reduced(b, carry), 0x02) == Has(b, 0x04)
    ensures Has(Reduced(b, carry), 0x01) == (Has(b, 0x02) != carry)
  {}

  lemma BitReduced(b: Byte, carry: bool, k: nat)
    requires k < 8
    ensures BitAt(Reduced(b, carry), k) ==
      if k == 0 then carry else if carry && (k == 1 || k == 2 || k == 7) then !BitAt(b, k - 1) else BitAt(b, k - 1)
  {
    ReducedHigh(b, carry);
    ReducedLow(b, carry);
    hide Reduced, Has;
  }

  /** Shifting the sixteen bytes right and folding the last bit back in multiplies by x. */
  lemma ShiftIsTimesX(v: Bytes, w: Bytes)
    requires |v| == |w| == 16 && w[0] == Reduced(v[0], BitAt(v[15], 7))
    requires forall j :: 1 <= j < 16 ==> w[j] == Pushed(v[j - 1], v[j])
    ensures AsElement(w) == TimesX(AsElement(v))
  {
    hide BitAt, Reduced, Pushed;
    forall i | 0 <= i < 128 ensures AsElement(w)[i] == TimesX(AsElement(v))[i] {
      var j, k := i / 8, i % 8;
      if j == 0 {
        BitReduced(v[0], BitAt(v[15], 7), k);
      } else {
        BitPushed(v[j - 1], v[j], k);
        assert i - 1 == if k == 0 then 8 * (j - 1) + 7 else 8 * j + (k - 1);
      }
    }
  }

  method XorInto(z: array<Byte>, v: array<Byte>)
    requires z.Length == v.Length == 16 && z != v
    modifies z
    ensures AsElement(z[..]) == Sum(AsElement(old(z[..])), AsElement(v[..]))
  {
    hide Xor, AsElement, Sum;
    for j := 0 to 16
      invariant forall i :: 0 <= i < j ==> z[i] == Xor(old(z[i]), v[i])
      invariant forall i :: j <= i < 16 ==> z[i] == old(z[i])
    {
      z[j] := Xor(z[j], v[j]);
    }
    XorIsSum(old(z[..]), v[..], z[..]);
  }

  method ShiftBlock(v: array<Byte>)
    requires v.Length == 16
    modifies v
    ensures AsElement(v[..]) == TimesX(AsElement(old(v[..])))
  {
    hide BitAt, AsElement, TimesX, Pushed, Reduced;
    var carry := BitAt(v[15], 7);
    var j := 15;
    while j > 0
      invariant 0 <= j <= 15
      invariant forall i :: j < i < 16 ==> v[i] == Pushed(old(v[i - 1]), old(v[i]))
      invariant forall i :: 0 <= i <= j ==> v[i] == old(v[i])
    {
      v[j] := Pushed(v[j - 1], v[j]);
      j := j - 1;
    }
    v[0] := Reduced(v[0], carry);
    ShiftIsTimesX(old(v[..]), v[..]);
  }

  /** Multiplies the block x by the block y, in place. */
  method GhashMul(x: array<Byte>, y: Bytes)
    requires x.Length == 16 && |y| == 16
    modifies x
    ensures AsElement(x[..]) == Product(AsElement(old(x[..])), AsElement(y))
  {
    hide Sum, TimesX, BitAt;
    ghost var a, b := AsElement(x[..]), AsElement(y);
    var z := new Byte[16](_ => 0);
    var v := new Byte[16](j requires 0 <= j < 16 => y[j]);
    ZeroBlock(z[..]);
    assert v[..] == y;
    for i := 0 to 128
      invariant x[..] == old(x[..])
      invariant AsElement(z[..]) == Partial(a, b, i) && AsElement(v[..]) == TimesXPower(b, i)
    {
      SumZero(Partial(a, b, i));
      assert a[i] == BitAt(x[i / 8], i % 8);
      if BitAt(x[i / 8], i % 8) {
        XorInto(z, v);
      }
      ShiftBlock(v);
    }
    forall j | 0 <= j < 16 {
      x[j] := z[j];
    }
    assert x[..] == z[..];
  }

  lemma ZeroBlock(b: Bytes)
    requires |b| == 16 && forall j :: 0 <= j < 16 ==> b[j] == 0
    ensures AsElement(b) == ZERO
  {
    forall i | 0 <= i < 128 ensures !AsElement(b)[i] {
      ZeroBit(i % 8);
    }
  }

  lemma ZeroBit(k: nat)
    requires k < 8
    ensures !BitAt(0, k)
  {}

  // ---------- Runs of bytes ----------

  /** The first n bytes of the data, filled up with zeros to sixteen. */
  function Padded(data: Bytes): (b: Bytes)
    ensures |b| == 16
  {
    seq(16, j requires 0 <= j < 16 => if j < |data| then data[j] else 0)
  }

  function BlocksOf(data: Bytes): seq<Element> {
    if |data| == 0 then []
    else if |data| <= 16 then [AsElement(Padded(data))]
    else [AsElement(Padded(data[..16]))] + BlocksOf(data[16..])
  }

  /** Takes the data into the running block, sixteen bytes at a time, the last ones padded with zeros. */
  method GhashUpdate(x: array<Byte>, h: Bytes, data: Bytes)
    requires x.Length == 16 && |h| == 16
    modifies x
    ensures AsElement(x[..]) == Chain(AsElement(old(x[..])), AsElement(h), BlocksOf(data))
  {
    hide AsElement, Product, Sum, Padded;
    ghost var done: seq<Element> := [];
    var pos := 0;
    while pos < |data|
      invariant 0 <= pos <= |data|
      invariant BlocksOf(data) == done + BlocksOf(data[pos..])
      invariant AsElement(x[..]) == Chain(AsElement(old(x[..])), AsElement(h), done)
    {
      var take := if |data| - pos < 16 then |data| - pos else 16;
      var block := Padded(data[pos..pos + take]);
      var b := new Byte[16](j requires 0 <= j < 16 => block[j]);
      assert b[..] == block;
      XorInto(x, b);
      GhashMul(x, h);
      NextBlock(data, pos, take);
      assert (done + [AsElement(block)])[..|done|] == done;
      done := done + [AsElement(block)];
      pos := pos + take;
    }
    assert data[pos..] == [];
    assert done + [] == done;
  }

  lemma NextBlock(data: Bytes, pos: nat, take: nat)
    requires pos < |data| && take == if |data| - pos < 16 then |data| - pos else 16
    ensures BlocksOf(data[pos..]) == [AsElement(Padded(data[pos..pos + take]))] + BlocksOf(data[pos + take..])
  {
    hide AsElement, Padded;
    var rest := data[pos..];
    if |rest| <= 16 {
      assert data[pos..pos + take] == rest;
    } else {
      assert rest[..16] == data[pos..pos + take] && rest[16..] == data[pos + take..];
    }
  }
}
