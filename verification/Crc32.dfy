/** The checksum of a datagram: remainders from a table, a byte at a time, against shifting bit by bit. */
module Crc32 {
  import opened Galois
  import opened WireFormat

  function Xor(a: bv32, b: bv32): bv32 { a ^ b }

  function Half(c: bv32): bv32 { c >> 1 }

  /** The polynomial if a one falls out, and zero otherwise. */
  function Falling(c: bv32): bv32 { (0 - (c & 1)) & 0xEDB88320 }

  /** One bit of the remainder. */
  function Shift(c: bv32): bv32 { Xor(Half(c), Falling(c)) }

  function Shift8(c: bv32): bv32 {
    Shift(Shift(Shift(Shift(Shift(Shift(Shift(Shift(c))))))))
  }

  function ShiftMany(c: bv32, k: nat): bv32 {
    if k == 0 then c else Shift(ShiftMany(c, k - 1))
  }

  function Widen(b: Byte): bv32 { b as bv32 }

  function LowByte(c: bv32): Byte { (c & 0xFF) as Byte }

  /** The state after one more byte, bit by bit. */
  function Step(crc: bv32, b: Byte): bv32 { Shift8(Xor(crc, Widen(b))) }

  function Update(crc: bv32, data: Bytes): bv32 {
    if |data| == 0 then crc else Step(Update(crc, data[..|data| - 1]), data[|data| - 1])
  }

  function Checksum(data: Bytes): bv32 {
    Xor(Update(0xFFFFFFFF, data), 0xFFFFFFFF)
  }

  /** The check value of CRC-32: the checksum of the digits 1 to 9. */
  lemma CheckValue()
    ensures Checksum([0x31, 0x32, 0x33, 0x34, 0x35, 0x36, 0x37, 0x38, 0x39]) == 0xCBF43926
  {
    var none: Bytes := [];
    DigitSteps();
    hide Step, Xor;
    Append(0xFFFFFFFF, none, 0x31);
    Append(0xFFFFFFFF, none + [0x31], 0x32);
    Append(0xFFFFFFFF, none + [0x31] + [0x32], 0x33);
    Append(0xFFFFFFFF, none + [0x31] + [0x32] + [0x33], 0x34);
    Append(0xFFFFFFFF, none + [0x31] + [0x32] + [0x33] + [0x34], 0x35);
    Append(0xFFFFFFFF, none + [0x31] + [0x32] + [0x33] + [0x34] + [0x35], 0x36);
    Append(0xFFFFFFFF, none + [0x31] + [0x32] + [0x33] + [0x34] + [0x35] + [0x36], 0x37);
    Append(0xFFFFFFFF, none + [0x31] + [0x32] + [0x33] + [0x34] + [0x35] + [0x36] + [0x37], 0x38);
    Append(0xFFFFFFFF, none + [0x31] + [0x32] + [0x33] + [0x34] + [0x35] + [0x36] + [0x37] + [0x38], 0x39);
    assert none + [0x31] + [0x32] + [0x33] + [0x34] + [0x35] + [0x36] + [0x37] + [0x38] + [0x39] ==
        [0x31, 0x32, 0x33, 0x34, 0x35, 0x36, 0x37, 0x38, 0x39];
    assert Xor(0x340BC6D9, 0xFFFFFFFF) == 0xCBF43926 by { LastXor(); }
  }

  lemma LastXor()
    ensures Xor(0x340BC6D9, 0xFFFFFFFF) == 0xCBF43926
  {}

  lemma DigitSteps()
    ensures Step(0xFFFFFFFF, 0x31) == 0x7C231048
    ensures Step(0x7C231048, 0x32) == 0xB0ACBB32
    ensures Step(0xB0ACBB32, 0x33) == 0x77B79C2D
    ensures Step(0x77B79C2D, 0x34) == 0x641C1F5C
    ensures Step(0x641C1F5C, 0x35) == 0x340AC5E3
    ensures Step(0x340AC5E3, 0x36) == 0xF68D2C9E
    ensures Step(0xF68D2C9E, 0x37) == 0xAFFC9660
    ensures Step(0xAFFC9660, 0x38) == 0x651F2550
    ensures Step(0x651F2550, 0x39) == 0x340BC6D9
  {}

  lemma Append(crc: bv32, data: Bytes, b: Byte)
    ensures Update(crc, data + [b]) == Step(Update(crc, data), b)
  {
    hide Step;
    assert (data + [b])[..|data|] == data;
  }

  // ---------- Bits ----------

  lemma XorComm(a: bv32, b: bv32)
    ensures Xor(a, b) == Xor(b, a)
  {}

  lemma XorAssoc(a: bv32, b: bv32, c: bv32)
    ensures Xor(Xor(a, b), c) == Xor(a, Xor(b, c))
  {}

  lemma XorZero(a: bv32)
    ensures Xor(a, 0) == a && Xor(0, a) == a && Xor(a, a) == 0
  {}

  lemma XorCancel(a: bv32, b: bv32)
    ensures Xor(Xor(a, b), b) == a
    ensures Xor(a, b) == 0 <==> a == b
  {
    hide Xor;
    XorAssoc(a, b, b);
    XorZero(a);
    XorZero(b);
  }

  lemma XorSwap(a: bv32, b: bv32, c: bv32, d: bv32)
    ensures Xor(Xor(a, b), Xor(c, d)) == Xor(Xor(a, c), Xor(b, d))
  {
    hide *;
    XorAssoc(a, b, Xor(c, d));
    XorAssoc(b, c, d);
    XorComm(b, c);
    XorAssoc(c, b, d);
    XorAssoc(a, c, Xor(b, d));
  }

  lemma HalfXor(a: bv32, b: bv32)
    ensures Half(Xor(a, b)) == Xor(Half(a), Half(b))
  {}

  lemma FallingXor(a: bv32, b: bv32)
    ensures Falling(Xor(a, b)) == Xor(Falling(a), Falling(b))
  {
    if a & 1 == 1 { assert Falling(a) == 0xEDB88320; } else { assert Falling(a) == 0; }
    if b & 1 == 1 { assert Falling(b) == 0xEDB88320; } else { assert Falling(b) == 0; }
    assert (a ^ b) & 1 == (a & 1) ^ (b & 1);
  }

  lemma ShiftXor(a: bv32, b: bv32)
    ensures Shift(Xor(a, b)) == Xor(Shift(a), Shift(b))
  {
    hide Xor, Half, Falling;
    HalfXor(a, b);
    FallingXor(a, b);
    XorSwap(Half(a), Half(b), Falling(a), Falling(b));
  }

  lemma {:induction false} ShiftManyXor(a: bv32, b: bv32, k: nat)
    ensures ShiftMany(Xor(a, b), k) == Xor(ShiftMany(a, k), ShiftMany(b, k))
  {
    hide Xor, Shift;
    if k > 0 {
      ShiftManyXor(a, b, k - 1);
      ShiftXor(ShiftMany(a, k - 1), ShiftMany(b, k - 1));
    }
  }

  lemma EightShifts(c: bv32)
    ensures ShiftMany(c, 8) == Shift8(c)
  {
    hide Shift;
    assert ShiftMany(c, 1) == Shift(c);
    assert ShiftMany(c, 2) == Shift(ShiftMany(c, 1));
    assert ShiftMany(c, 3) == Shift(ShiftMany(c, 2));
    assert ShiftMany(c, 5) == Shift(Shift(ShiftMany(c, 3)));
    assert ShiftMany(c, 7) == Shift(Shift(ShiftMany(c, 5)));
  }

  lemma Shift8Xor(a: bv32, b: bv32)
    ensures Shift8(Xor(a, b)) == Xor(Shift8(a), Shift8(b))
  {
    hide Xor, Shift, Shift8, ShiftMany;
    EightShifts(a);
    EightShifts(b);
    EightShifts(Xor(a, b));
    ShiftManyXor(a, b, 8);
  }

  lemma ShiftCases(c: bv32)
    ensures Shift(c) == if c & 1 == 1 then 0xEDB88320 ^ (c >> 1) else c >> 1
  {
    LowBit(c);
    ShiftBits(c, c & 1);
  }

  lemma LowBit(c: bv32)
    ensures c & 1 == 0 || c & 1 == 1
  {}

  lemma ShiftBits(c: bv32, low: bv32)
    requires low == c & 1
    ensures low == 0 ==> Shift(c) == c >> 1
    ensures low == 1 ==> Shift(c) == 0xEDB88320 ^ (c >> 1)
  {}

  predicate Top(c: bv32) { c & 0x80000000 != 0 }

  function Odd(c: bv32): bv32 { (c << 1) | 1 }

  function Even(c: bv32): bv32 { c << 1 }

  function Flip(c: bv32): bv32 { c ^ 0xEDB88320 }

  /** The polynomial has its top bit set, so the top bit tells what fell out. */
  function Unshift(c: bv32): bv32 {
    if Top(c) then Odd(Flip(c)) else Even(c)
  }

  lemma UnshiftShift(c: bv32)
    ensures Unshift(Shift(c)) == c
  {}

  lemma OddParts(x: bv32)
    ensures !Top(x) ==> Half(Odd(x)) == x
    ensures Falling(Odd(x)) == 0xEDB88320
  {}

  lemma EvenParts(x: bv32)
    ensures !Top(x) ==> Half(Even(x)) == x
    ensures Falling(Even(x)) == 0
  {}

  lemma FlipParts(c: bv32)
    ensures Top(c) ==> !Top(Flip(c))
    ensures Xor(Flip(c), 0xEDB88320) == c
  {}

  lemma ShiftUnshift(c: bv32)
    ensures Shift(Unshift(c)) == c
  {
    hide Top, Odd, Even, Flip, Half, Falling, Xor;
    FlipParts(c);
    OddParts(Flip(c));
    EvenParts(c);
    XorZero(c);
  }

  function Unshift8(c: bv32): bv32 {
    Unshift(Unshift(Unshift(Unshift(Unshift(Unshift(Unshift(Unshift(c))))))))
  }

  /** A byte of shifting loses nothing. */
  lemma Shift8Unshift8(c: bv32)
    ensures Unshift8(Shift8(c)) == c && Shift8(Unshift8(c)) == c
  {
    hide Shift, Unshift;
    UndoUp(c);
    UndoDown(c);
  }

  lemma UndoUp(c: bv32)
    ensures Unshift8(Shift8(c)) == c
  {
    hide Shift, Unshift;
    var x := c;
    UnshiftShift(c);
    UnshiftShift(Shift(c));
    UnshiftShift(Shift(Shift(c)));
    UnshiftShift(Shift(Shift(Shift(c))));
    UnshiftShift(Shift(Shift(Shift(Shift(c)))));
    UnshiftShift(Shift(Shift(Shift(Shift(Shift(c))))));
    UnshiftShift(Shift(Shift(Shift(Shift(Shift(Shift(c)))))));
    UnshiftShift(Shift(Shift(Shift(Shift(Shift(Shift(Shift(c))))))));
  }

  lemma UndoDown(c: bv32)
    ensures Shift8(Unshift8(c)) == c
  {
    hide Shift, Unshift;
    ShiftUnshift(c);
    ShiftUnshift(Unshift(c));
    ShiftUnshift(Unshift(Unshift(c)));
    ShiftUnshift(Unshift(Unshift(Unshift(c))));
    ShiftUnshift(Unshift(Unshift(Unshift(Unshift(c)))));
    ShiftUnshift(Unshift(Unshift(Unshift(Unshift(Unshift(c))))));
    ShiftUnshift(Unshift(Unshift(Unshift(Unshift(Unshift(Unshift(c)))))));
    ShiftUnshift(Unshift(Unshift(Unshift(Unshift(Unshift(Unshift(Unshift(c))))))));
  }

  lemma Shift8Zero(c: bv32)
    ensures Shift8(c) == 0 <==> c == 0
  {
    Shift8Unshift8(c);
    assert Shift8(0) == 0 && Unshift8(0) == 0;
    hide *;
  }

  function High3(c: bv32): bv32 { c & 0xFFFFFF00 }

  function Down8(c: bv32): bv32 { c >> 8 }

  lemma HighBytesFall(c: bv32)
    ensures Shift8(High3(c)) == Down8(c)
  {}

  // ---------- The table ----------

  function Remainder(b: Byte): bv32 { Shift8(Widen(b)) }

  lemma SplitLow(c: bv32)
    ensures c == Xor(High3(c), Widen(LowByte(c)))
  {}

  lemma ByteLeavesHigh(crc: bv32, b: Byte)
    ensures Down8(Xor(crc, Widen(b))) == Down8(crc)
  {}

  /** Looking the low byte up and shifting the rest is eight bit steps. */
  lemma TableStep(crc: bv32, b: Byte)
    ensures Xor(Remainder(LowByte(Xor(crc, Widen(b)))), Down8(crc)) == Step(crc, b)
  {
    hide Xor, Shift8, Widen, LowByte, High3, Down8;
    var x := Xor(crc, Widen(b));
    SplitLow(x);
    Shift8Xor(High3(x), Widen(LowByte(x)));
    HighBytesFall(x);
    ByteLeavesHigh(crc, b);
    XorComm(Shift8(Widen(LowByte(x))), Down8(crc));
  }

  lemma ByteIndex(b: Byte)
    ensures ByteOf(ValueOf(b)) == b && ValueOf(b) < 256
  {
    assert b as int % 256 == b as int;
  }

  class CrcTable {
    const table: array<bv32>

    ghost predicate Valid()
      reads table
    {
      table.Length == 256 && forall i: nat | i < 256 :: table[i] == Remainder(ByteOf(i))
    }

    constructor ()
      ensures Valid() && fresh(table)
    {
      hide Remainder, ByteOf;
      table := new bv32[256];
      new;
      for i := 0 to 256
        invariant forall j: nat | j < i :: table[j] == Remainder(ByteOf(j))
      {
        table[i] := RemainderOf(ByteOf(i));
      }
    }

    static method RemainderOf(b: Byte) returns (c: bv32)
      ensures c == Remainder(b)
    {
      hide Shift;
      c := b as bv32;
      for k := 0 to 8
        invariant c == ShiftMany(Widen(b), k)
      {
        ShiftCases(c);
        c := if c & 1 == 1 then 0xEDB88320 ^ (c >> 1) else c >> 1;
      }
      EightShifts(Widen(b));
    }

    method Run(crc: bv32, data: Bytes) returns (r: bv32)
      requires Valid()
      ensures r == Update(crc, data)
    {
      hide Remainder, Xor, Step, Down8, ByteOf, ValueOf, Widen, LowByte;
      r := crc;
      for i := 0 to |data|
        invariant r == Update(crc, data[..i])
      {
        var low := LowByte(Xor(r, Widen(data[i])));
        ByteIndex(low);
        TableStep(r, data[i]);
        assert data[..i + 1][..i] == data[..i];
        r := Xor(table[ValueOf(low)], Down8(r));
      }
      assert data[..|data|] == data;
    }

    method Compute(data: Bytes) returns (r: bv32)
      requires Valid()
      ensures r == Checksum(data)
    {
      var crc := Run(0xFFFFFFFF, data);
      r := crc ^ 0xFFFFFFFF;
    }
  }
}
