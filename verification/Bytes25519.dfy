/** Bytes to limbs and back: what `fe_frombytes` reads, and that `fe_tobytes` writes the one
    representative below the modulus. */
module Bytes25519 {
  import opened Field25519

  type Octet = n: nat | n < 256

  /** The little-endian value of n octets from position i on. */
  function Le(s: seq<Octet>, i: nat, n: nat): nat
    requires i + n <= |s|
    decreases n
  {
    if n == 0 then 0 else (s[i] as int) + 256 * Le(s, i + 1, n - 1)
  }

  /** Seven digits to the base 256. */
  function Base256(b0: int, b1: int, b2: int, b3: int, b4: int, b5: int, b6: int): int {
    b0 + 256 * (b1 + 256 * (b2 + 256 * (b3 + 256 * (b4 + 256 * (b5 + 256 * b6)))))
  }

  /** Eight octets as one little-endian word. */
  function Word(s: seq<Octet>, i: nat): (w: nat)
    requires i + 8 <= |s|
    ensures w < 0x1_0000_0000_0000_0000
  {
    Base256(s[i], s[i + 1], s[i + 2], s[i + 3], s[i + 4], s[i + 5], s[i + 6]) + 0x100_0000_0000_0000 * (s[i + 7] as int)
  }

  lemma LeWord(s: seq<Octet>, i: nat, n: nat)
    requires i + 8 + n <= |s|
    ensures Le(s, i, n + 8) == Word(s, i) + 0x1_0000_0000_0000_0000 * Le(s, i + 8, n)
  {
    hide Le;
    LeStep(s, i, n + 8); LeStep(s, i + 1, n + 7); LeStep(s, i + 2, n + 6); LeStep(s, i + 3, n + 5);
    LeStep(s, i + 4, n + 4); LeStep(s, i + 5, n + 3); LeStep(s, i + 6, n + 2); LeStep(s, i + 7, n + 1);
  }

  lemma LeStep(s: seq<Octet>, i: nat, n: nat)
    requires i + n <= |s| && n > 0
    ensures Le(s, i, n) == (s[i] as int) + 256 * Le(s, i + 1, n - 1)
  {}

  /** The value of 32 octets. */
  function Le32(s: seq<Octet>): nat
    requires |s| == 32
  {
    Word(s, 0) + 0x1_0000_0000_0000_0000 * (Word(s, 8) + 0x1_0000_0000_0000_0000 *
      (Word(s, 16) + 0x1_0000_0000_0000_0000 * Word(s, 24)))
  }

  lemma Le32Words(s: seq<Octet>)
    requires |s| == 32
    ensures Le32(s) == Word(s, 0) + 0x1_0000_0000_0000_0000 * (Word(s, 8) + 0x1_0000_0000_0000_0000 *
                       (Word(s, 16) + 0x1_0000_0000_0000_0000 * Word(s, 24)))
  {
    hide Word;
  }

  lemma Horner(w0: int, w1: int, w2: int, w3: int, a0: int, a1: int, a2: int, a3: int)
    requires a3 == w3 && a2 == w2 + 0x1_0000_0000_0000_0000 * a3 && a1 == w1 + 0x1_0000_0000_0000_0000 * a2
    requires a0 == w0 + 0x1_0000_0000_0000_0000 * a1
    ensures a0 == w0 + 0x1_0000_0000_0000_0000 * (w1 + 0x1_0000_0000_0000_0000 * (w2 + 0x1_0000_0000_0000_0000 * w3))
  {}

  lemma LeNothing(s: seq<Octet>)
    requires |s| == 32
    ensures Le(s, 32, 0) == 0
  {}

  lemma LeIsLe32(s: seq<Octet>)
    requires |s| == 32
    ensures Le(s, 0, 32) == Le32(s)
  {
    hide *;
    LeNothing(s);
    LeWord(s, 24, 0);
    LeWord(s, 16, 8);
    LeWord(s, 8, 16);
    LeWord(s, 0, 24);
    Le32Words(s);
    Horner(Word(s, 0), Word(s, 8), Word(s, 16), Word(s, 24), Le(s, 0, 32), Le(s, 8, 24), Le(s, 16, 16), Le(s, 24, 8));
  }

  // ---------- Reading ----------

  function FromBytes(s: seq<Octet>): Fe
    requires |s| == 32
  {
    Fe(Mask51(Word(s, 0)), Mask51(Word(s, 6) / 8), Mask51(Word(s, 12) / 64), Mask51(Word(s, 19) / 2),
        Mask51(Word(s, 24) / 4096))
  }

  lemma MaskIs(x: int, low: nat, high: int)
    requires x == low + 0x8_0000_0000_0000 * high && low < 0x8_0000_0000_0000
    ensures Mask51(x) == low
  {}

  lemma Limb0(s: seq<Octet>)
    requires |s| == 32
    ensures Mask51(Word(s, 0)) == Base256(s[0], s[1], s[2], s[3], s[4], s[5], s[6] % 8) < 0x8_0000_0000_0000
  {
    hide Mask51;
    MaskIs(Word(s, 0), Base256(s[0], s[1], s[2], s[3], s[4], s[5], s[6] % 8), ((s[6] / 8) as int) + 32 * (s[7] as int));
  }

  lemma Limb1(s: seq<Octet>)
    requires |s| == 32
    ensures Mask51(Word(s, 6) / 8) == ((s[6] / 8) as int)
        + 32 * Base256(s[7], s[8], s[9], s[10], s[11], s[12] % 64, 0) < 0x8_0000_0000_0000
  {
    hide Mask51;
    var low, high := ((s[6] / 8) as int) + 32 * Base256(s[7], s[8], s[9], s[10], s[11], s[12] % 64, 0),
        ((s[12] / 64) as int) + 4 * (s[13] as int);
    assert Word(s, 6) / 8 == low + 0x8_0000_0000_0000 * high;
    MaskIs(Word(s, 6) / 8, low, high);
  }

  lemma Limb2(s: seq<Octet>)
    requires |s| == 32
    ensures Mask51(Word(s, 12) / 64) == ((s[12] / 64) as int)
        + 4 * Base256(s[13], s[14], s[15], s[16], s[17], s[18], s[19] % 2) < 0x8_0000_0000_0000
  {
    hide Mask51;
    var low, high := ((s[12] / 64) as int) + 4 * Base256(s[13], s[14], s[15], s[16], s[17], s[18], s[19] % 2),
        (s[19] / 2) as int;
    assert Word(s, 12) / 64 == low + 0x8_0000_0000_0000 * high;
    MaskIs(Word(s, 12) / 64, low, high);
  }

  lemma Limb3(s: seq<Octet>)
    requires |s| == 32
    ensures Mask51(Word(s, 19) / 2) == ((s[19] / 2) as int)
        + 128 * Base256(s[20], s[21], s[22], s[23], s[24], s[25] % 16, 0) < 0x8_0000_0000_0000
  {
    hide Mask51;
    var low, high := ((s[19] / 2) as int) + 128 * Base256(s[20], s[21], s[22], s[23], s[24], s[25] % 16, 0),
        ((s[25] / 16) as int) + 16 * (s[26] as int);
    assert Word(s, 19) / 2 == low + 0x8_0000_0000_0000 * high;
    MaskIs(Word(s, 19) / 2, low, high);
  }

  lemma Limb4(s: seq<Octet>)
    requires |s| == 32
    ensures Mask51(Word(s, 24) / 4096) == ((s[25] / 16) as int)
        + 16 * Base256(s[26], s[27], s[28], s[29], s[30], s[31] % 128, 0) < 0x8_0000_0000_0000
  {
    hide Mask51;
    var low, high := ((s[25] / 16) as int) + 16 * Base256(s[26], s[27], s[28], s[29], s[30], s[31] % 128, 0),
        (s[31] / 128) as int;
    assert Word(s, 24) / 4096 == low + 0x8_0000_0000_0000 * high;
    MaskIs(Word(s, 24) / 4096, low, high);
  }

  /** Five limbs cut at bits 51, 102, 153 and 204, put together again. */
  lemma LimbsJoin(b0: int, b1: int, b2: int, b3: int, b4: int, b5: int, b7: int, b8: int, b9: int, b10: int, b11: int,
      b13: int, b14: int, b15: int, b16: int, b17: int, b18: int, b20: int, b21: int, b22: int, b23: int, b24: int,
      b26: int, b27: int, b28: int, b29: int, b30: int,
                  r6: int, q6: int, b6: int, r12: int, q12: int, b12: int, r19: int, q19: int, b19: int,
                  r25: int, q25: int, b25: int, b31: int)
    requires b6 == r6 + 8 * q6 && b12 == r12 + 64 * q12 && b19 == r19 + 2 * q19 && b25 == r25 + 16 * q25
    ensures Digits(Base256(b0, b1, b2, b3, b4, b5, r6), q6 + 32 * Base256(b7, b8, b9, b10, b11, r12, 0),
                   q12 + 4 * Base256(b13, b14, b15, b16, b17, b18, r19),
                   q19 + 128 * Base256(b20, b21, b22, b23, b24, r25, 0),
                   q25 + 16 * Base256(b26, b27, b28, b29, b30, b31, 0))
         == Base256(b0, b1, b2, b3, b4, b5, b6) + 0x100_0000_0000_0000 * b7 + 0x1_0000_0000_0000_0000 * (
            Base256(b8, b9, b10, b11, b12, b13, b14) + 0x100_0000_0000_0000 * b15 + 0x1_0000_0000_0000_0000 * (
            Base256(b16, b17, b18, b19, b20, b21, b22) + 0x100_0000_0000_0000 * b23 + 0x1_0000_0000_0000_0000 * (
            Base256(b24, b25, b26, b27, b28, b29, b30) + 0x100_0000_0000_0000 * b31)))
  {}

  lemma FromBytesDigits(s: seq<Octet>)
    requires |s| == 32
    ensures Val(FromBytes(s))
         == Digits(Base256(s[0], s[1], s[2], s[3], s[4], s[5], s[6] % 8),
                   ((s[6] / 8) as int) + 32 * Base256(s[7], s[8], s[9], s[10], s[11], s[12] % 64, 0),
                   ((s[12] / 64) as int) + 4 * Base256(s[13], s[14], s[15], s[16], s[17], s[18], s[19] % 2),
                   ((s[19] / 2) as int) + 128 * Base256(s[20], s[21], s[22], s[23], s[24], s[25] % 16, 0),
                   ((s[25] / 16) as int) + 16 * Base256(s[26], s[27], s[28], s[29], s[30], s[31] % 128, 0))
    ensures Below(FromBytes(s), 0x8_0000_0000_0000)
  {
    hide Mask51, Base256, Digits, Word;
    Limb0(s); Limb1(s); Limb2(s); Limb3(s); Limb4(s);
  }

  /** Putting the cut bits back. */
  lemma Uncut(x: Octet, m: nat)
    requires m > 0
    ensures x % m + m * (x / m) == x
  {}

  /** The five limbs hold the 255 lowest bits: bit 255 is ignored. */
  lemma FromBytesValue(s: seq<Octet>)
    requires |s| == 32
    ensures Val(FromBytes(s)) == Le32(s[31 := s[31] % 128])
    ensures Below(FromBytes(s), 0x8_0000_0000_0000)
  {
    hide Mask51, Base256, Digits, Val, FromBytes;
    FromBytesDigits(s);
    Uncut(s[6], 8); Uncut(s[12], 64); Uncut(s[19], 2); Uncut(s[25], 16);
    LimbsJoin(s[0], s[1], s[2], s[3], s[4], s[5], s[7], s[8], s[9], s[10], s[11], s[13], s[14], s[15], s[16], s[17],
        s[18], s[20], s[21], s[22], s[23], s[24], s[26], s[27], s[28], s[29], s[30],
              s[6] % 8, s[6] / 8, s[6], s[12] % 64, s[12] / 64, s[12], s[19] % 2, s[19] / 2, s[19],
              s[25] % 16, s[25] / 16, s[25], s[31] % 128);
  }

  // ---------- Writing ----------

  /** Bitwise or. */
  function Or(a: nat, b: nat): nat {
    if a == 0 then b else if b == 0 then a
    else (if a % 2 == 1 || b % 2 == 1 then 1 else 0) + 2 * Or(a / 2, b / 2)
  }

  /** Without a bit in common, or is addition. */
  lemma {:induction false} OrDisjoint(a: nat, b: nat, k: nat)
    requires a < Two(k)
    ensures Or(a, Two(k) * b) == a + Two(k) * b
  {
    if a != 0 && b != 0 && k > 0 {
      assert Two(k) * b == 2 * (Two(k - 1) * b);
      OrDisjoint(a / 2, b, k - 1);
    }
  }

  /** A shift right by k bits divides by 2^k; the lowest k bits are the remainder. */
  function Shr(x: nat, d: nat): nat requires d > 0 { x / d }
  function Cut(x: nat, m: nat): nat requires m > 0 { x % m }

  function Low8(x: nat): Octet { x % 256 }

  /** The limbs packed into 32 octets. */
  function Pack(o: Fe): (s: seq<Octet>)
    ensures |s| == 32
  {
    [Low8(o.l0), Low8(Shr(o.l0, 0x100)), Low8(Shr(o.l0, 0x10000)), Low8(Shr(o.l0, 0x1000000)),
        Low8(Shr(o.l0, 0x100000000)), Low8(Shr(o.l0, 0x10000000000)), Low8(Or(Shr(o.l0, 0x1000000000000), 8 * o.l1)),
     Low8(Shr(o.l1, 0x20)), Low8(Shr(o.l1, 0x2000)), Low8(Shr(o.l1, 0x200000)), Low8(Shr(o.l1, 0x20000000)),
         Low8(Shr(o.l1, 0x2000000000)), Low8(Or(Shr(o.l1, 0x200000000000), 64 * o.l2)),
     Low8(Shr(o.l2, 0x4)), Low8(Shr(o.l2, 0x400)), Low8(Shr(o.l2, 0x40000)), Low8(Shr(o.l2, 0x4000000)),
         Low8(Shr(o.l2, 0x400000000)), Low8(Shr(o.l2, 0x40000000000)), Low8(Or(Shr(o.l2, 0x4000000000000), 2 * o.l3)),
     Low8(Shr(o.l3, 0x80)), Low8(Shr(o.l3, 0x8000)), Low8(Shr(o.l3, 0x800000)), Low8(Shr(o.l3, 0x80000000)),
         Low8(Shr(o.l3, 0x8000000000)), Low8(Or(Shr(o.l3, 0x800000000000), 16 * o.l4)),
     Low8(Shr(o.l4, 0x10)), Low8(Shr(o.l4, 0x1000)), Low8(Shr(o.l4, 0x100000)), Low8(Shr(o.l4, 0x10000000)),
         Low8(Shr(o.l4, 0x1000000000)), Low8(Shr(o.l4, 0x100000000000))]
  }

  lemma Digit7(n: nat)
    ensures n == Base256(Low8(n), Low8(Shr(n, 0x100)), Low8(Shr(n, 0x10000)), Low8(Shr(n, 0x1000000)),
        Low8(Shr(n, 0x100000000)), Low8(Shr(n, 0x10000000000)), Shr(n, 0x1000000000000))
  {
    var q1 := Shr(n, 0x100);
    assert n == Low8(n) + 256 * q1;
    var q2 := Shr(n, 0x10000);
    assert q1 == Low8(q1) + 256 * q2 by { assert q1 / 256 == q2; }
    var q3 := Shr(n, 0x1000000);
    assert q2 == Low8(q2) + 256 * q3 by { assert q2 / 256 == q3; }
    var q4 := Shr(n, 0x100000000);
    assert q3 == Low8(q3) + 256 * q4 by { assert q3 / 256 == q4; }
    var q5 := Shr(n, 0x10000000000);
    assert q4 == Low8(q4) + 256 * q5 by { assert q4 / 256 == q5; }
    var q6 := Shr(n, 0x1000000000000);
    assert q5 == Low8(q5) + 256 * q6 by { assert q5 / 256 == q6; }
    hide Low8;
  }

  lemma Digit6(n: nat)
    ensures n == Base256(Low8(n), Low8(Shr(n, 0x100)), Low8(Shr(n, 0x10000)), Low8(Shr(n, 0x1000000)),
        Low8(Shr(n, 0x100000000)), Shr(n, 0x10000000000), 0)
  {
    var q1 := Shr(n, 0x100);
    assert n == Low8(n) + 256 * q1;
    var q2 := Shr(n, 0x10000);
    assert q1 == Low8(q1) + 256 * q2 by { assert q1 / 256 == q2; }
    var q3 := Shr(n, 0x1000000);
    assert q2 == Low8(q2) + 256 * q3 by { assert q2 / 256 == q3; }
    var q4 := Shr(n, 0x100000000);
    assert q3 == Low8(q3) + 256 * q4 by { assert q3 / 256 == q4; }
    var q5 := Shr(n, 0x10000000000);
    assert q4 == Low8(q4) + 256 * q5 by { assert q4 / 256 == q5; }
    hide Low8;
  }

  lemma LimbOneDigits(x: nat)
    ensures x == Cut(x, 0x20) + 0x20 * Base256(Low8(Shr(x, 0x20)), Low8(Shr(x, 0x2000)), Low8(Shr(x, 0x200000)),
        Low8(Shr(x, 0x20000000)), Low8(Shr(x, 0x2000000000)), Shr(x, 0x200000000000), 0)
  {
    Digit6(Shr(x, 0x20));
    assert Shr(x, 0x20) / 0x100 == Shr(x, 0x2000);
    assert Shr(x, 0x20) / 0x10000 == Shr(x, 0x200000);
    assert Shr(x, 0x20) / 0x1000000 == Shr(x, 0x20000000);
    assert Shr(x, 0x20) / 0x100000000 == Shr(x, 0x2000000000);
    assert Shr(x, 0x20) / 0x10000000000 == Shr(x, 0x200000000000);
    assert x == Cut(x, 0x20) + 0x20 * (Shr(x, 0x20));
    hide Low8, Base256;
  }

  lemma LimbTwoDigits(x: nat)
    ensures x == Cut(x, 0x4) + 0x4 * Base256(Low8(Shr(x, 0x4)), Low8(Shr(x, 0x400)), Low8(Shr(x, 0x40000)),
        Low8(Shr(x, 0x4000000)), Low8(Shr(x, 0x400000000)), Low8(Shr(x, 0x40000000000)), Shr(x, 0x4000000000000))
  {
    Digit7(Shr(x, 0x4));
    assert Shr(x, 0x4) / 0x100 == Shr(x, 0x400);
    assert Shr(x, 0x4) / 0x10000 == Shr(x, 0x40000);
    assert Shr(x, 0x4) / 0x1000000 == Shr(x, 0x4000000);
    assert Shr(x, 0x4) / 0x100000000 == Shr(x, 0x400000000);
    assert Shr(x, 0x4) / 0x10000000000 == Shr(x, 0x40000000000);
    assert Shr(x, 0x4) / 0x1000000000000 == Shr(x, 0x4000000000000);
    assert x == Cut(x, 0x4) + 0x4 * (Shr(x, 0x4));
    hide Low8, Base256;
  }

  lemma LimbThreeDigits(x: nat)
    ensures x == Cut(x, 0x80) + 0x80 * Base256(Low8(Shr(x, 0x80)), Low8(Shr(x, 0x8000)), Low8(Shr(x, 0x800000)),
        Low8(Shr(x, 0x80000000)), Low8(Shr(x, 0x8000000000)), Shr(x, 0x800000000000), 0)
  {
    Digit6(Shr(x, 0x80));
    assert Shr(x, 0x80) / 0x100 == Shr(x, 0x8000);
    assert Shr(x, 0x80) / 0x10000 == Shr(x, 0x800000);
    assert Shr(x, 0x80) / 0x1000000 == Shr(x, 0x80000000);
    assert Shr(x, 0x80) / 0x100000000 == Shr(x, 0x8000000000);
    assert Shr(x, 0x80) / 0x10000000000 == Shr(x, 0x800000000000);
    assert x == Cut(x, 0x80) + 0x80 * (Shr(x, 0x80));
    hide Low8, Base256;
  }

  lemma LimbFourDigits(x: nat)
    ensures x == Cut(x, 0x10) + 0x10 * Base256(Low8(Shr(x, 0x10)), Low8(Shr(x, 0x1000)), Low8(Shr(x, 0x100000)),
        Low8(Shr(x, 0x10000000)), Low8(Shr(x, 0x1000000000)), Shr(x, 0x100000000000), 0)
  {
    Digit6(Shr(x, 0x10));
    assert Shr(x, 0x10) / 0x100 == Shr(x, 0x1000);
    assert Shr(x, 0x10) / 0x10000 == Shr(x, 0x100000);
    assert Shr(x, 0x10) / 0x1000000 == Shr(x, 0x10000000);
    assert Shr(x, 0x10) / 0x100000000 == Shr(x, 0x1000000000);
    assert Shr(x, 0x10) / 0x10000000000 == Shr(x, 0x100000000000);
    assert x == Cut(x, 0x10) + 0x10 * (Shr(x, 0x10));
    hide Low8, Base256;
  }

  lemma LowOf(x: nat, q: nat, r: nat)
    requires x == 256 * q + r && r < 256
    ensures Low8(x) == r
  {}

  // The octets where two limbs meet.

  lemma Meet8(a: nat, b: nat)
    requires a < 8
    ensures Low8(Or(a, 8 * b)) == a + 8 * Cut(b, 32)
  {
    assert Two(3) == 8;
    hide Or, Two, Low8;
    OrDisjoint(a, b, 3);
    LowOf(a + 8 * b, b / 32, a + 8 * Cut(b, 32));
  }

  lemma Meet64(a: nat, b: nat)
    requires a < 64
    ensures Low8(Or(a, 64 * b)) == a + 64 * Cut(b, 4)
  {
    assert Two(6) == 64;
    hide Or, Two, Low8;
    OrDisjoint(a, b, 6);
    LowOf(a + 64 * b, b / 4, a + 64 * Cut(b, 4));
  }

  lemma Meet2(a: nat, b: nat)
    requires a < 2
    ensures Low8(Or(a, 2 * b)) == a + 2 * Cut(b, 128)
  {
    assert Two(1) == 2;
    hide Or, Two, Low8;
    OrDisjoint(a, b, 1);
    LowOf(a + 2 * b, b / 128, a + 2 * Cut(b, 128));
  }

  lemma Meet16(a: nat, b: nat)
    requires a < 16
    ensures Low8(Or(a, 16 * b)) == a + 16 * Cut(b, 16)
  {
    assert Two(4) == 16;
    hide Or, Two, Low8;
    OrDisjoint(a, b, 4);
    LowOf(a + 16 * b, b / 16, a + 16 * Cut(b, 16));
  }

  lemma PackWord0(o: Fe)
    ensures Word(Pack(o), 0) == Base256(Low8(o.l0), Low8(Shr(o.l0, 0x100)), Low8(Shr(o.l0, 0x10000)),
        Low8(Shr(o.l0, 0x1000000)), Low8(Shr(o.l0, 0x100000000)), Low8(Shr(o.l0, 0x10000000000)),
        Low8(Or(Shr(o.l0, 0x1000000000000), 8 * o.l1)))
                              + 0x100_0000_0000_0000 * (Low8(Shr(o.l1, 0x20)) as int)
  {
    hide Low8, Or, Base256, Shr;
  }

  lemma PackWord1(o: Fe)
    ensures Word(Pack(o), 8) == Base256(Low8(Shr(o.l1, 0x2000)), Low8(Shr(o.l1, 0x200000)),
        Low8(Shr(o.l1, 0x20000000)), Low8(Shr(o.l1, 0x2000000000)), Low8(Or(Shr(o.l1, 0x200000000000), 64 * o.l2)),
        Low8(Shr(o.l2, 0x4)), Low8(Shr(o.l2, 0x400)))
                              + 0x100_0000_0000_0000 * (Low8(Shr(o.l2, 0x40000)) as int)
  {
    hide Low8, Or, Base256, Shr;
  }

  lemma PackWord2(o: Fe)
    ensures Word(Pack(o), 16) == Base256(Low8(Shr(o.l2, 0x4000000)), Low8(Shr(o.l2, 0x400000000)),
        Low8(Shr(o.l2, 0x40000000000)), Low8(Or(Shr(o.l2, 0x4000000000000), 2 * o.l3)), Low8(Shr(o.l3, 0x80)),
        Low8(Shr(o.l3, 0x8000)), Low8(Shr(o.l3, 0x800000)))
                              + 0x100_0000_0000_0000 * (Low8(Shr(o.l3, 0x80000000)) as int)
  {
    hide Low8, Or, Base256, Shr;
  }

  lemma PackWord3(o: Fe)
    ensures Word(Pack(o), 24) == Base256(Low8(Shr(o.l3, 0x8000000000)), Low8(Or(Shr(o.l3, 0x800000000000), 16 * o.l4)),
        Low8(Shr(o.l4, 0x10)), Low8(Shr(o.l4, 0x1000)), Low8(Shr(o.l4, 0x100000)), Low8(Shr(o.l4, 0x10000000)),
        Low8(Shr(o.l4, 0x1000000000)))
                              + 0x100_0000_0000_0000 * (Low8(Shr(o.l4, 0x100000000000)) as int)
  {
    hide Low8, Or, Base256, Shr;
  }

  lemma TopBits(o: Fe)
    requires Below(o, 0x8_0000_0000_0000)
    ensures Shr(o.l0, 0x1000000000000) < 8 && Shr(o.l1, 0x200000000000) < 64 && Shr(o.l2, 0x4000000000000) < 2
        && Shr(o.l3, 0x800000000000) < 16
    ensures Low8(Shr(o.l4, 0x100000000000)) == Shr(o.l4, 0x100000000000)
  {}

  /** Packing keeps the value. */
  lemma PackValue(o: Fe)
    requires Below(o, 0x8_0000_0000_0000)
    ensures Le32(Pack(o)) == Val(o)
  {
    TopBits(o);
    hide Low8, Or, Base256, Digits, Pack, Word, Shr, Cut;
    Digit7(o.l0);
    LimbOneDigits(o.l1);
    LimbTwoDigits(o.l2);
    LimbThreeDigits(o.l3);
    LimbFourDigits(o.l4);
    Meet8(Shr(o.l0, 0x1000000000000), o.l1);
    Meet64(Shr(o.l1, 0x200000000000), o.l2);
    Meet2(Shr(o.l2, 0x4000000000000), o.l3);
    Meet16(Shr(o.l3, 0x800000000000), o.l4);
    PackWord0(o); PackWord1(o); PackWord2(o); PackWord3(o);
    LimbsJoin(Low8(o.l0), Low8(Shr(o.l0, 0x100)), Low8(Shr(o.l0, 0x10000)), Low8(Shr(o.l0, 0x1000000)),
        Low8(Shr(o.l0, 0x100000000)), Low8(Shr(o.l0, 0x10000000000)), Low8(Shr(o.l1, 0x20)), Low8(Shr(o.l1, 0x2000)),
        Low8(Shr(o.l1, 0x200000)), Low8(Shr(o.l1, 0x20000000)), Low8(Shr(o.l1, 0x2000000000)), Low8(Shr(o.l2, 0x4)),
        Low8(Shr(o.l2, 0x400)), Low8(Shr(o.l2, 0x40000)), Low8(Shr(o.l2, 0x4000000)), Low8(Shr(o.l2, 0x400000000)),
        Low8(Shr(o.l2, 0x40000000000)), Low8(Shr(o.l3, 0x80)), Low8(Shr(o.l3, 0x8000)), Low8(Shr(o.l3, 0x800000)),
        Low8(Shr(o.l3, 0x80000000)), Low8(Shr(o.l3, 0x8000000000)), Low8(Shr(o.l4, 0x10)), Low8(Shr(o.l4, 0x1000)),
        Low8(Shr(o.l4, 0x100000)), Low8(Shr(o.l4, 0x10000000)), Low8(Shr(o.l4, 0x1000000000)),
              Shr(o.l0, 0x1000000000000), Cut(o.l1, 32), Low8(Or(Shr(o.l0, 0x1000000000000), 8 * o.l1)),
                  Shr(o.l1, 0x200000000000), Cut(o.l2, 4), Low8(Or(Shr(o.l1, 0x200000000000), 64 * o.l2)),
              Shr(o.l2, 0x4000000000000), Cut(o.l3, 128), Low8(Or(Shr(o.l2, 0x4000000000000), 2 * o.l3)),
                  Shr(o.l3, 0x800000000000), Cut(o.l4, 16), Low8(Or(Shr(o.l3, 0x800000000000), 16 * o.l4)),
                  Low8(Shr(o.l4, 0x100000000000)));
  }

  // ---------- The canonical representative ----------

  /** One round of carries, folding the top carry back as 19. */
  function Pass(h: Fe): Fe {
    var t1 := U64(h.l1 + Shr51(h.l0));
    var t2 := U64(h.l2 + Shr51(t1));
    var t3 := U64(h.l3 + Shr51(t2));
    var t4 := U64(h.l4 + Shr51(t3));
    Fe(U64(Mask51(h.l0) + U64(19 * Shr51(t4))), Mask51(t1), Mask51(t2), Mask51(t3), Mask51(t4))
  }

  lemma PassExact(h: Fe) returns (c: nat)
    requires Below(h, 0x10_0000_0000_0000)
    ensures Val(h) == Val(Pass(h))
        + c * 0x7fff_ffff_ffff_ffff_ffff_ffff_ffff_ffff_ffff_ffff_ffff_ffff_ffff_ffff_ffff_ffed && c <= 2
    ensures Pass(h).l0 < 0x8_0000_0000_0000 + 38 && Pass(h).l1 < 0x8_0000_0000_0000 && Pass(h).l2 < 0x8_0000_0000_0000
        && Pass(h).l3 < 0x8_0000_0000_0000 && Pass(h).l4 < 0x8_0000_0000_0000
    ensures
      h.l0 < 0x8_0000_0000_0000 + 38 && h.l1 < 0x8_0000_0000_0000 && h.l2 < 0x8_0000_0000_0000 &&
      h.l3 < 0x8_0000_0000_0000 && h.l4 < 0x8_0000_0000_0000
      ==> Below(Pass(h), 0x8_0000_0000_0000)
  {
    hide U64, Shr51, Mask51, Digits;
    Split51(h.l0);
    var t1 := h.l1 + Shr51(h.l0);
    Fits64(t1); Split51(t1);
    var t2 := h.l2 + Shr51(t1);
    Fits64(t2); Split51(t2);
    var t3 := h.l3 + Shr51(t2);
    Fits64(t3); Split51(t3);
    var t4 := h.l4 + Shr51(t3);
    Fits64(t4); Split51(t4);
    c := Shr51(t4);
    Fits64(19 * c); Fits64(Mask51(h.l0) + 19 * c);
    PassSum(h, Mask51(h.l0), Shr51(h.l0), Mask51(t1), Shr51(t1), Mask51(t2), Shr51(t2), Mask51(t3), Shr51(t3),
        Mask51(t4), c);
    if h.l0 < 0x8_0000_0000_0000 + 38 && h.l1 < 0x8_0000_0000_0000 && h.l2 < 0x8_0000_0000_0000
        && h.l3 < 0x8_0000_0000_0000 && h.l4 < 0x8_0000_0000_0000 {
      PassSettles(h, Mask51(h.l0), Shr51(h.l0), Mask51(t1), Shr51(t1), Mask51(t2), Shr51(t2), Mask51(t3), Shr51(t3),
          Mask51(t4), c);
    }
  }

  lemma PassSum(h: Fe, m0: int, s0: int, m1: int, s1: int, m2: int, s2: int, m3: int, s3: int, m4: int, c: int)
    requires h.l0 == 0x8_0000_0000_0000 * s0 + m0 && h.l1 + s0 == 0x8_0000_0000_0000 * s1 + m1
    requires h.l2 + s1 == 0x8_0000_0000_0000 * s2 + m2 && h.l3 + s2 == 0x8_0000_0000_0000 * s3 + m3
    requires h.l4 + s3 == 0x8_0000_0000_0000 * c + m4
    ensures Val(h) == Digits(m0 + 19 * c, m1, m2, m3, m4)
        + c * 0x7fff_ffff_ffff_ffff_ffff_ffff_ffff_ffff_ffff_ffff_ffff_ffff_ffff_ffff_ffff_ffed
  {}

  /** The second round leaves at most one carry, and then a small first limb. */
  lemma PassSettles(h: Fe, m0: int, s0: int, m1: int, s1: int, m2: int, s2: int, m3: int, s3: int, m4: int, c: int)
    requires h.l0 == 0x8_0000_0000_0000 * s0 + m0 && h.l1 + s0 == 0x8_0000_0000_0000 * s1 + m1
    requires h.l2 + s1 == 0x8_0000_0000_0000 * s2 + m2 && h.l3 + s2 == 0x8_0000_0000_0000 * s3 + m3
    requires h.l4 + s3 == 0x8_0000_0000_0000 * c + m4
    requires 0 <= m0 < 0x8_0000_0000_0000 && 0 <= m1 < 0x8_0000_0000_0000 && 0 <= m2 < 0x8_0000_0000_0000
    requires 0 <= m3 < 0x8_0000_0000_0000 && 0 <= m4 < 0x8_0000_0000_0000
    requires h.l0 < 0x8_0000_0000_0000 + 38 && h.l1 < 0x8_0000_0000_0000 && h.l2 < 0x8_0000_0000_0000
    requires h.l3 < 0x8_0000_0000_0000 && h.l4 < 0x8_0000_0000_0000
    ensures m0 + 19 * c < 0x8_0000_0000_0000
  {}

  /** Subtraction of one limb with borrow, as the code does it in signed arithmetic. */
  function Borrow(h: nat, p: nat, b: nat): nat { if h - p - b < 0 then 1 else 0 }
  function Difference(h: nat, p: nat, b: nat): nat { Mask51(h - p - b) }

  lemma BorrowExact(h: nat, p: nat, b: nat)
    requires h < 0x8_0000_0000_0000 && p < 0x8_0000_0000_0000 && b <= 1
    ensures h - p - b == Difference(h, p, b) - 0x8_0000_0000_0000 * Borrow(h, p, b)
        && Difference(h, p, b) < 0x8_0000_0000_0000
  {
    var t := h - p - b;
    if t < 0 {
      MaskIs(t, t + 0x8_0000_0000_0000, -1);
    } else {
      MaskIs(t, t, 0);
    }
  }

  /** The value less the modulus, limb by limb, and the borrow that is left: 1 when the value is smaller. */
  function LessModulus(h: Fe): (Fe, nat) {
    var b1 := Borrow(h.l0, 0x8_0000_0000_0000 - 19, 0);
    var b2 := Borrow(h.l1, 0x8_0000_0000_0000 - 1, b1);
    var b3 := Borrow(h.l2, 0x8_0000_0000_0000 - 1, b2);
    var b4 := Borrow(h.l3, 0x8_0000_0000_0000 - 1, b3);
    (Fe(Difference(h.l0, 0x8_0000_0000_0000 - 19, 0), Difference(h.l1, 0x8_0000_0000_0000 - 1, b1),
        Difference(h.l2, 0x8_0000_0000_0000 - 1, b2),
        Difference(h.l3, 0x8_0000_0000_0000 - 1, b3), Difference(h.l4, 0x8_0000_0000_0000 - 1, b4)),
     Borrow(h.l4, 0x8_0000_0000_0000 - 1, b4))
  }

  lemma LessModulusExact(h: Fe)
    requires Below(h, 0x8_0000_0000_0000)
    ensures var (m, b) := LessModulus(h);
      && Below(m, 0x8_0000_0000_0000) && b <= 1
      && Val(m) == Val(h) - 0x7fff_ffff_ffff_ffff_ffff_ffff_ffff_ffff_ffff_ffff_ffff_ffff_ffff_ffff_ffff_ffed
          + b * 0x8000_0000_0000_0000_0000_0000_0000_0000_0000_0000_0000_0000_0000_0000_0000_0000
  {
    hide Difference;
    var b1 := Borrow(h.l0, 0x8_0000_0000_0000 - 19, 0);
    var b2 := Borrow(h.l1, 0x8_0000_0000_0000 - 1, b1);
    var b3 := Borrow(h.l2, 0x8_0000_0000_0000 - 1, b2);
    var b4 := Borrow(h.l3, 0x8_0000_0000_0000 - 1, b3);
    BorrowExact(h.l0, 0x8_0000_0000_0000 - 19, 0);
    BorrowExact(h.l1, 0x8_0000_0000_0000 - 1, b1);
    BorrowExact(h.l2, 0x8_0000_0000_0000 - 1, b2);
    BorrowExact(h.l3, 0x8_0000_0000_0000 - 1, b3);
    BorrowExact(h.l4, 0x8_0000_0000_0000 - 1, b4);
    hide Borrow;
  }

  lemma ValRange(h: Fe)
    requires Below(h, 0x8_0000_0000_0000)
    ensures 0 <= Val(h) < 0x8000_0000_0000_0000_0000_0000_0000_0000_0000_0000_0000_0000_0000_0000_0000_0000
  {}

  /** Choosing by an all-ones or all-zero mask is choosing by the borrow. */
  lemma MaskedChoice(h: bv64, m: bv64)
    ensures (0xFFFF_FFFF_FFFF_FFFF & h) | (!0xFFFF_FFFF_FFFF_FFFF & m) == h
    ensures (0 & h) | (!0 & m) == m
  {}

  lemma SmallMod(x: int)
    requires 0 <= x < 0x7fff_ffff_ffff_ffff_ffff_ffff_ffff_ffff_ffff_ffff_ffff_ffff_ffff_ffff_ffff_ffed
    ensures Mod(x) == x
  {}

  /** Of the value and the value less the modulus, the one that is chosen is the residue. */
  lemma CanonicalChoice(h: Fe)
    requires Below(h, 0x8_0000_0000_0000)
    ensures var (m, b) := LessModulus(h); var out := if b == 1 then h else m;
            Below(out, 0x8_0000_0000_0000) && Val(out) == Mod(Val(h))
  {
    LessModulusExact(h);
    ValRange(h);
    var (m, b) := LessModulus(h);
    ValRange(m);
    hide Mod, Val, LessModulus;
    if b == 1 {
      SmallMod(Val(h));
    } else {
      ModShift(Val(h), Val(m), 1);
      SmallMod(Val(m));
    }
  }

  /** Writes the one representative below the modulus. */
  method ToBytes(f: Fe) returns (s: seq<Octet>)
    requires Tight(f)
    ensures |s| == 32 && Le32(s) == Mod(Val(f))
  {
    hide Mod, Val, Pass, LessModulus, Le32, Pack;
    var h := f;
    for pass := 0 to 3
      invariant Below(h, 0x10_0000_0000_0000) && Mod(Val(h)) == Mod(Val(f))
      invariant pass >= 1 ==>
                  && h.l0 < 0x8_0000_0000_0000 + 38 && h.l1 < 0x8_0000_0000_0000 && h.l2 < 0x8_0000_0000_0000
                  && h.l3 < 0x8_0000_0000_0000 && h.l4 < 0x8_0000_0000_0000
      invariant pass >= 2 ==> Below(h, 0x8_0000_0000_0000)
    {
      ghost var c := PassExact(h);
      ModShift(Val(h), Val(Pass(h)), c);
      h := Pass(h);
    }
    var (m, borrow) := LessModulus(h);
    CanonicalChoice(h);
    var out := if borrow == 1 then h else m;
    PackValue(out);
    s := Pack(out);
  }
}
