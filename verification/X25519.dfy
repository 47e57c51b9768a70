/** X25519: the limb code computes the function of section 5 of RFC 7748. */
module X25519 {
  import opened Field25519
  import opened Bytes25519

  // ---------- The function on residues ----------

  /** The two points of the Montgomery ladder, each as x/z. */
  datatype Points = Points(x2: nat, z2: nat, x3: nat, z3: nat)

  function Exchanged(p: Points): Points { Points(p.x3, p.z3, p.x2, p.z2) }

  function ExchangedIf(p: Points, bit: nat): Points { if bit == 1 then Exchanged(p) else p }

  /** Doubling the first point and adding the two, with a24 = 121665. */
  function DoubleAdd(x1: nat, p: Points): Points {
    var a := FAdd(p.x2, p.z2);
    var aa := FMul(a, a);
    var b := FSub(p.x2, p.z2);
    var bb := FMul(b, b);
    var e := FSub(aa, bb);
    var c := FAdd(p.x3, p.z3);
    var d := FSub(p.x3, p.z3);
    var da := FMul(d, a);
    var cb := FMul(c, b);
    var sum := FAdd(da, cb);
    var diff := FSub(da, cb);
    Points(FMul(aa, bb), FMul(e, FAdd(aa, FMul(e, 121665))), FMul(sum, sum), FMul(x1, FMul(diff, diff)))
  }

  function Bit(k: nat, t: nat): (b: nat)
    ensures b <= 1
  {
    TwoPositive(t);
    k / Two(t) % 2
  }

  lemma TwoPositive(t: nat)
    ensures Two(t) > 0
  {}

  /** The ladder after the n highest of 255 bits: each bit exchanges the points before and after its step. */
  function LadderAfter(k: nat, u: nat, n: nat): Points
    requires n <= 255
  {
    if n == 0 then Points(1, 0, u, 1)
    else
      var bit := Bit(k, 255 - n);
      ExchangedIf(DoubleAdd(u, ExchangedIf(LadderAfter(k, u, n - 1), bit)), bit)
  }

  function X25519Function(k: nat, u: nat): nat {
    var p := LadderAfter(k, u, 255);
    FMul(p.x2, FPow(p.z2, 0x7fff_ffff_ffff_ffff_ffff_ffff_ffff_ffff_ffff_ffff_ffff_ffff_ffff_ffff_ffff_ffed - 2))
  }

  /** The scalar: the three lowest bits and the highest cleared, the second highest set. */
  function Clamped(s: seq<Octet>): (e: seq<Octet>)
    requires |s| == 32
    ensures |e| == 32
  {
    s[0 := s[0] / 8 * 8][31 := s[31] % 64 + 64]
  }

  function Power256(n: nat): nat { if n == 0 then 1 else 256 * Power256(n - 1) }

  /** The last octet decides the size of a little-endian number. */
  lemma {:induction false} LastOctet(s: seq<Octet>, i: nat, n: nat)
    requires 0 < n && i + n <= |s|
    ensures s[i + n - 1] as int * Power256(n - 1) <= Le(s, i, n) < (s[i + n - 1] as int + 1) * Power256(n - 1)
    decreases n
  {
    if n > 1 {
      LastOctet(s, i + 1, n - 1);
      WeightScales(s[i + n - 1] as int, Power256(n - 2), Le(s, i + 1, n - 1), s[i] as int);
    }
  }

  lemma WeightScales(top: int, weight: int, rest: int, low: int)
    requires top * weight <= rest < (top + 1) * weight && 0 <= low < 256
    ensures top * (256 * weight) <= low + 256 * rest < (top + 1) * (256 * weight)
  {
    var from, to := top * weight, (top + 1) * weight;
    assert top * (256 * weight) == 256 * from;
    assert (top + 1) * (256 * weight) == 256 * to;
  }

  lemma Power31()
    ensures Power256(31) == 0x100_0000_0000_0000_0000_0000_0000_0000_0000_0000_0000_0000_0000_0000_0000_0000
  {
    assert Power256(8) == 0x1_0000_0000_0000_0000;
    assert Power256(16) == 0x1_0000_0000_0000_0000_0000_0000_0000_0000;
    assert Power256(24) == 0x1_0000_0000_0000_0000_0000_0000_0000_0000_0000_0000_0000_0000;
  }

  /** The scalar is a multiple of 8 from 2^254 on and below 2^255. */
  lemma ClampedScalar(s: seq<Octet>)
    requires |s| == 32
    ensures var k := Le32(Clamped(s));
            k % 8 == 0 && 0x4000_0000_0000_0000_0000_0000_0000_0000_0000_0000_0000_0000_0000_0000_0000_0000 <= k
                       < 0x8000_0000_0000_0000_0000_0000_0000_0000_0000_0000_0000_0000_0000_0000_0000_0000
  {
    hide Le32, Le, Power256, Clamped;
    var e := Clamped(s);
    ClampedOctets(s);
    LeIsLe32(e);
    FirstOctet(e);
    LastOctet(e, 0, 32);
    Power31();
    ScalarRange(Le(e, 0, 32), e[31], Power256(31));
  }

  lemma ClampedOctets(s: seq<Octet>)
    requires |s| == 32
    ensures Clamped(s)[0] as int % 8 == 0 && 64 <= Clamped(s)[31] as int < 128
  {}

  lemma FirstOctet(e: seq<Octet>)
    requires |e| == 32
    ensures Le(e, 0, 32) % 8 == e[0] as int % 8
  {
    assert Le(e, 0, 32) == e[0] as int + 8 * (32 * Le(e, 1, 31));
    hide Le;
  }

  lemma ScalarRange(k: nat, top: int, p: nat)
    requires top * p <= k < (top + 1) * p && 64 <= top < 128
    ensures 64 * p <= k < 128 * p
  {
    assert 64 * p <= top * p && (top + 1) * p <= 128 * p;
  }

  lemma {:induction false} LastDigit(s: seq<Octet>, i: nat, n: nat)
    requires i + n < |s|
    ensures Le(s, i, n + 1) == Le(s, i, n) + Power256(n) * s[i + n]
    decreases n
  {
    if n == 0 {
      assert Le(s, i, 1) == s[i] as int + 256 * Le(s, i + 1, 0);
    } else {
      LastDigit(s, i + 1, n - 1);
      Shift256(Power256(n - 1), s[i + n]);
    }
  }

  lemma Shift256(p: int, x: int)
    ensures 256 * (p * x) == 256 * p * x
  {}

  lemma {:induction false} SameDigits(s: seq<Octet>, e: seq<Octet>, i: nat, n: nat)
    requires i + n <= |s| == |e| && s[i..i + n] == e[i..i + n]
    ensures Le(s, i, n) == Le(e, i, n)
    decreases n
  {
    if n > 0 {
      assert s[i] == s[i..i + n][0] && e[i] == e[i..i + n][0];
      assert s[i + 1..i + n] == s[i..i + n][1..] && e[i + 1..i + n] == e[i..i + n][1..];
      SameDigits(s, e, i + 1, n - 1);
    }
  }

  /** The lowest octet, the thirty between, and the highest. */
  lemma ThreeParts(s: seq<Octet>)
    requires |s| == 32
    ensures Le32(s) == s[0] as int + 256 * Le(s, 1, 30)
         + 0x100_0000_0000_0000_0000_0000_0000_0000_0000_0000_0000_0000_0000_0000_0000_0000 * s[31] as int
    ensures Le(s, 1, 30) < 0x1_0000_0000_0000_0000_0000_0000_0000_0000_0000_0000_0000_0000_0000_0000_0000
  {
    hide Le32, Power256;
    LeIsLe32(s);
    LastDigit(s, 0, 31);
    assert Le(s, 0, 31) == s[0] as int + 256 * Le(s, 1, 30);
    Power31();
    LastOctet(s, 1, 30);
    hide Le;
    Power29();
  }

  lemma Power29()
    ensures Power256(29) == 0x100_0000_0000_0000_0000_0000_0000_0000_0000_0000_0000_0000_0000_0000_0000
  {
    assert Power256(8) == 0x1_0000_0000_0000_0000;
    assert Power256(16) == 0x1_0000_0000_0000_0000_0000_0000_0000_0000;
    assert Power256(24) == 0x1_0000_0000_0000_0000_0000_0000_0000_0000_0000_0000_0000_0000;
  }

  /** Of the private key's 256 bits the clamped scalar has all but five: bits 0, 1, 2 and 255 are cleared, bit 254 is
      set. */
  lemma ClampedValue(s: seq<Octet>)
    requires |s| == 32
    ensures Le32(Clamped(s))
         == Le32(s) % 0x4000_0000_0000_0000_0000_0000_0000_0000_0000_0000_0000_0000_0000_0000_0000_0000 / 8 * 8
         + 0x4000_0000_0000_0000_0000_0000_0000_0000_0000_0000_0000_0000_0000_0000_0000_0000
  {
    hide Le32, Le;
    ThreeParts(s);
    ThreeParts(Clamped(s));
    SameDigits(s, Clamped(s), 1, 30);
    KeptBits(s[0], Le(s, 1, 30), s[31]);
  }

  lemma KeptBits(low: nat, mid: nat, top: nat)
    requires low < 256 && mid < 0x1_0000_0000_0000_0000_0000_0000_0000_0000_0000_0000_0000_0000_0000_0000_0000
    ensures (low + 256 * mid
        + 0x100_0000_0000_0000_0000_0000_0000_0000_0000_0000_0000_0000_0000_0000_0000_0000 * top)
        % 0x4000_0000_0000_0000_0000_0000_0000_0000_0000_0000_0000_0000_0000_0000_0000_0000 / 8 * 8
        == low / 8 * 8 + 256 * mid
        + 0x100_0000_0000_0000_0000_0000_0000_0000_0000_0000_0000_0000_0000_0000_0000_0000 * (top % 64)
  {
    var p := 0x100_0000_0000_0000_0000_0000_0000_0000_0000_0000_0000_0000_0000_0000_0000_0000;
    var rest := low + 256 * mid + p * (top % 64);
    assert low + 256 * mid + p * top == rest + 64 * p * (top / 64);
    Remainder(rest, 64 * p, top / 64);
    assert rest == low % 8 + 8 * (low / 8 + 32 * mid + p / 8 * (top % 64));
    assert rest / 8 == low / 8 + 32 * mid + p / 8 * (top % 64);
  }

  lemma Remainder(x: nat, d: nat, k: nat)
    requires x < d
    ensures (x + d * k) % d == x
  {
    var q := (x + d * k) / d;
    assert (x + d * k) % d == x + d * k - q * d;
    QuotientIs(x + d * k, d, k, x);
  }

  /** The u-coordinate: bit 255 is ignored, and the value is taken modulo the prime. */
  function Coordinate(s: seq<Octet>): nat
    requires |s| == 32
  {
    Mod(Le32(s[31 := s[31] % 128]))
  }

  lemma CoordinateValue(s: seq<Octet>)
    requires |s| == 32
    ensures Coordinate(s)
         == Mod(Le32(s) % 0x8000_0000_0000_0000_0000_0000_0000_0000_0000_0000_0000_0000_0000_0000_0000_0000)
  {
    hide Le32, Le, Mod;
    var e := s[31 := s[31] % 128];
    ThreeParts(s);
    ThreeParts(e);
    SameDigits(s, e, 1, 30);
  }

  // ---------- Scalar bits ----------

  /** The bit the ladder reads from an octet is the bit of the scalar. */
  lemma {:induction false} BitOfOctets(s: seq<Octet>, i: nat, n: nat, t: nat)
    requires i + n <= |s| && t < 8 * n
    ensures Bit(Le(s, i, n), t) == Bit(s[i + t / 8], t % 8)
    decreases n
  {
    var rest := Le(s, i + 1, n - 1);
    if t < 8 {
      LowBits(s[i], rest, t);
    } else {
      BitOfOctets(s, i + 1, n - 1, t - 8);
      HighBits(s[i], rest, t);
      assert (t - 8) / 8 == t / 8 - 1 && (t - 8) % 8 == t % 8;
    }
  }

  lemma LowBits(b: Octet, rest: nat, t: nat)
    requires t < 8
    ensures Bit((b as int) + 256 * rest, t) == Bit(b, t)
  {
    assert Two(0) == 1 && Two(1) == 2 && Two(2) == 4 && Two(3) == 8 && Two(4) == 16 && Two(5) == 32 && Two(6) == 64
        && Two(7) == 128;
    hide Two;
    var n := (b as int) + 256 * rest;
    if t == 0 { EvenMore(n, b, 128 * rest); }
    else if t == 1 { assert n / 2 == b / 2 + 128 * rest; EvenMore(n / 2, b / 2, 64 * rest); }
    else if t == 2 { assert n / 4 == b / 4 + 64 * rest; EvenMore(n / 4, b / 4, 32 * rest); }
    else if t == 3 { assert n / 8 == b / 8 + 32 * rest; EvenMore(n / 8, b / 8, 16 * rest); }
    else if t == 4 { assert n / 16 == b / 16 + 16 * rest; EvenMore(n / 16, b / 16, 8 * rest); }
    else if t == 5 { assert n / 32 == b / 32 + 8 * rest; EvenMore(n / 32, b / 32, 4 * rest); }
    else if t == 6 { assert n / 64 == b / 64 + 4 * rest; EvenMore(n / 64, b / 64, 2 * rest); }
    else { assert n / 128 == b / 128 + 2 * rest; EvenMore(n / 128, b / 128, rest); }
  }

  lemma EvenMore(x: int, y: int, h: int)
    requires x == y + 2 * h
    ensures x % 2 == y % 2
  {}

  lemma HighBits(b: Octet, rest: nat, t: nat)
    requires t >= 8
    ensures Bit((b as int) + 256 * rest, t) == Bit(rest, t - 8)
  {
    TwoAdd(8, t - 8);
    assert Two(8) == 256;
    TwoPositive(t - 8);
    hide Two;
    DivideLow(b, rest, Two(t - 8));
  }

  lemma DivideLow(b: Octet, rest: nat, d: nat)
    requires d > 0
    ensures ((b as int) + 256 * rest) / (256 * d) == rest / d
  {
    var q, m := rest / d, rest % d;
    assert rest == q * d + m;
    assert 256 * rest == q * (256 * d) + 256 * m;
    QuotientIs((b as int) + 256 * rest, 256 * d, q, (b as int) + 256 * m);
  }

  lemma QuotientIs(x: int, d: int, q: int, m: int)
    requires d > 0 && x == q * d + m && 0 <= m < d
    ensures x / d == q
  {
    var q', m' := x / d, x % d;
    assert x == q' * d + m';
    assert (q' - q) * d == q' * d - q * d;
    assert (q - q') * d == q * d - q' * d;
    if q' > q {
      AtLeastOnce(q' - q, d);
    } else if q' < q {
      AtLeastOnce(q - q', d);
    }
  }

  lemma AtLeastOnce(k: int, d: int)
    requires k >= 1 && d > 0
    ensures k * d >= d
  {}

  // ---------- The limb code ----------

  /** Exchanging under a mask that is all ones or all zero is exchanging or not. */
  lemma MaskedExchange(f: bv64, g: bv64)
    ensures f ^ (0xFFFF_FFFF_FFFF_FFFF & (f ^ g)) == g && g ^ (0xFFFF_FFFF_FFFF_FFFF & (f ^ g)) == f
    ensures f ^ (0 & (f ^ g)) == f && g ^ (0 & (f ^ g)) == g
  {}

  datatype Limbs = Limbs(x2: Fe, z2: Fe, x3: Fe, z3: Fe)

  ghost predicate Represents(l: Limbs, p: Points) {
    && Tight(l.x2) && Tight(l.z2) && Tight(l.x3) && Tight(l.z3)
    && Stands(l.x2, p.x2) && Stands(l.z2, p.z2) && Stands(l.x3, p.x3) && Stands(l.z3, p.z3)
  }

  function CSwap(f: Fe, g: Fe, swap: nat): (Fe, Fe) {
    if swap == 1 then (g, f) else (f, g)
  }

  /** One step of the ladder on limbs: no limb overflows, and the result stands for the step on residues. */
  method LimbStep(x1: Fe, l: Limbs, ghost u: nat, ghost p: Points) returns (r: Limbs)
    requires Tight(x1) && Stands(x1, u) && Represents(l, p)
    ensures Represents(r, DoubleAdd(u, p))
  {
    hide Stands, Val, Mod, FAdd, FSub, FMul;
    var a := FeAdd(l.x2, l.z2);          StandsAdd(a, l.x2, l.z2, p.x2, p.z2);
    ghost var sa := FAdd(p.x2, p.z2);
    var aa := FeSq(a);                   StandsProduct(aa, a, a, sa, sa);
    ghost var saa := FMul(sa, sa);
    var b := FeSub(l.x2, l.z2);          StandsSub(b, l.x2, l.z2, p.x2, p.z2);
    ghost var sb := FSub(p.x2, p.z2);
    var bb := FeSq(b);                   StandsProduct(bb, b, b, sb, sb);
    ghost var sbb := FMul(sb, sb);
    var e2 := FeSub(aa, bb);             StandsSub(e2, aa, bb, saa, sbb);
    ghost var se := FSub(saa, sbb);
    var c := FeAdd(l.x3, l.z3);          StandsAdd(c, l.x3, l.z3, p.x3, p.z3);
    var d := FeSub(l.x3, l.z3);          StandsSub(d, l.x3, l.z3, p.x3, p.z3);
    var da := FeMul(d, a);               StandsProduct(da, d, a, FSub(p.x3, p.z3), sa);
    var cb := FeMul(c, b);               StandsProduct(cb, c, b, FAdd(p.x3, p.z3), sb);
    ghost var sda, scb := FMul(FSub(p.x3, p.z3), sa), FMul(FAdd(p.x3, p.z3), sb);
    var sum := FeAdd(da, cb);            StandsAdd(sum, da, cb, sda, scb);
    var diff := FeSub(da, cb);           StandsSub(diff, da, cb, sda, scb);
    var x3 := FeSq(sum);                 StandsProduct(x3, sum, sum, FAdd(sda, scb), FAdd(sda, scb));
    var diff2 := FeSq(diff);             StandsProduct(diff2, diff, diff, FSub(sda, scb), FSub(sda, scb));
    var z3 := FeMul(x1, diff2);          StandsProduct(z3, x1, diff2, u, FMul(FSub(sda, scb), FSub(sda, scb)));
    var x2 := FeMul(aa, bb);             StandsProduct(x2, aa, bb, saa, sbb);
    var scaled := FeMulScalar(e2, 121665);
    StandsScaled(scaled, e2, 121665, se);
    var t := FeAdd(aa, scaled);          StandsAdd(t, aa, scaled, saa, FMul(se, 121665));
    var z2 := FeMul(e2, t);              StandsProduct(z2, e2, t, se, FAdd(saa, FMul(se, 121665)));
    r := Limbs(x2, z2, x3, z3);
  }

  lemma ExchangeTwice(p: Points, a: nat, b: nat)
    requires a <= 1 && b <= 1
    ensures ExchangedIf(ExchangedIf(p, a), if a == b then 0 else 1) == ExchangedIf(p, b)
    ensures ExchangedIf(ExchangedIf(p, a), a) == p
  {}

  lemma CSwapRepresents(l: Limbs, p: Points, swap: nat)
    requires Represents(l, p)
    ensures var (x2, x3) := CSwap(l.x2, l.x3, swap); var (z2, z3) := CSwap(l.z2, l.z3, swap);
            Represents(Limbs(x2, z2, x3, z3), ExchangedIf(p, swap))
  {}

  lemma StartRepresents(x1: Fe, u: nat)
    requires Tight(x1) && Stands(x1, u)
    ensures Represents(Limbs(Fe(1, 0, 0, 0, 0), Fe(0, 0, 0, 0, 0), x1, Fe(1, 0, 0, 0, 0)), Points(1, 0, u, 1))
  {}

  /** One bit: exchange when it differs from the bit before, then double and add. */
  method BitStep(bit: nat, x1: Fe, l0: Limbs, swap0: nat, ghost u: nat, ghost p: Points) returns (l: Limbs, swap: nat)
    requires bit <= 1 && swap0 <= 1 && Tight(x1) && Stands(x1, u) && Represents(l0, ExchangedIf(p, swap0))
    ensures swap == bit && Represents(l, ExchangedIf(ExchangedIf(DoubleAdd(u, ExchangedIf(p, bit)), bit), bit))
  {
    hide Represents, DoubleAdd, Tight, Stands, CSwap, ExchangedIf;
    var differs := if swap0 == bit then 0 else 1;
    CSwapRepresents(l0, ExchangedIf(p, swap0), differs);
    var (x2, x3) := CSwap(l0.x2, l0.x3, differs);
    var (z2, z3) := CSwap(l0.z2, l0.z3, differs);
    ExchangeTwice(p, swap0, bit);
    swap := bit;
    l := LimbStep(x1, Limbs(x2, z2, x3, z3), u, ExchangedIf(p, bit));
    ExchangeTwice(DoubleAdd(u, ExchangedIf(p, bit)), bit, bit);
  }

  /** The ladder on limbs, with the exchanges of neighbouring bits merged into one. */
  method Ladder(e: seq<Octet>, x1: Fe, ghost u: nat) returns (l: Limbs)
    requires |e| == 32 && Tight(x1) && Stands(x1, u)
    ensures Represents(l, LadderAfter(Le32(e), u, 255))
  {
    LeIsLe32(e);
    ghost var k := Le32(e);
    StartRepresents(x1, u);
    l := Limbs(Fe(1, 0, 0, 0, 0), Fe(0, 0, 0, 0, 0), x1, Fe(1, 0, 0, 0, 0));
    var swap := 0;
    for i := 0 to 255
      invariant swap <= 1 && Represents(l, ExchangedIf(LadderAfter(k, u, i), swap))
    {
      hide Represents, DoubleAdd, Le, Le32, Tight, Stands, Bit, Two, CSwap, ExchangedIf;
      var t := 254 - i;
      BitOfOctets(e, 0, 32, t);
      l, swap := BitStep(Bit(e[t / 8], t % 8), x1, l, swap, u, LadderAfter(k, u, i));
    }
    CSwapRepresents(l, ExchangedIf(LadderAfter(k, u, 255), swap), swap);
    ExchangeTwice(LadderAfter(k, u, 255), swap, swap);
    var (x2, x3) := CSwap(l.x2, l.x3, swap);
    var (z2, z3) := CSwap(l.z2, l.z3, swap);
    l := Limbs(x2, z2, x3, z3);
  }

  lemma {:induction false} LadderReduced(k: nat, u: nat, n: nat)
    requires n <= 255 && u == Mod(u)
    ensures var p := LadderAfter(k, u, n); p.z2 == Mod(p.z2) && p.z3 == Mod(p.z3)
  {
    if n == 0 {
    } else {
      var q := ExchangedIf(LadderAfter(k, u, n - 1), Bit(k, 255 - n));
      hide Mod, Bit;
      DoubleAddReduced(u, q);
    }
  }

  lemma DoubleAddReduced(u: nat, p: Points)
    ensures DoubleAdd(u, p).z2 == Mod(DoubleAdd(u, p).z2) && DoubleAdd(u, p).z3 == Mod(DoubleAdd(u, p).z3)
  {
    hide FMul, FAdd, FSub, Mod;
    forall x: nat, y: nat ensures FMul(x, y) == Mod(FMul(x, y)) {
      ProductReduced(x, y);
    }
  }

  lemma ProductReduced(x: nat, y: nat)
    ensures FMul(x, y) == Mod(FMul(x, y))
  {
    hide Mod;
    ModMod(x * y);
  }

  method AllZero(s: seq<Octet>) returns (zero: bool)
    ensures zero <==> forall i: nat | i < |s| :: s[i] == 0
  {
    var acc := 0;
    for i := 0 to |s|
      invariant acc == 0 <==> forall j: nat | j < i :: s[j] == 0
    {
      OrZero(acc, s[i]);
      acc := Or(acc, s[i]);
    }
    zero := acc == 0;
  }

  lemma {:induction false} OrZero(a: nat, b: nat)
    ensures Or(a, b) == 0 <==> a == 0 && b == 0
  {
    if a != 0 && b != 0 {
      OrZero(a / 2, b / 2);
    }
  }

  lemma {:induction false} ZeroRange(s: seq<Octet>, i: nat, n: nat)
    requires i + n <= |s|
    ensures Le(s, i, n) == 0 <==> forall j: nat | i <= j < i + n :: s[j] == 0
    decreases n
  {
    if n > 0 {
      ZeroRange(s, i + 1, n - 1);
    }
  }

  lemma ZeroOctets(s: seq<Octet>)
    requires |s| == 32
    ensures Le32(s) == 0 <==> forall i: nat | i < |s| :: s[i] == 0
  {
    hide Le, Le32;
    LeIsLe32(s);
    ZeroRange(s, 0, 32);
  }

  method Clamp(privateKey: seq<Octet>) returns (e: seq<Octet>)
    requires |privateKey| == 32
    ensures e == Clamped(privateKey)
  {
    e := privateKey;
    e := e[0 := e[0] / 8 * 8];
    e := e[31 := e[31] % 128];
    e := e[31 := e[31] % 64 + 64];
  }

  lemma PeerStands(peerKey: seq<Octet>)
    requires |peerKey| == 32
    ensures Tight(FromBytes(peerKey)) && Stands(FromBytes(peerKey), Coordinate(peerKey))
    ensures Coordinate(peerKey) == Mod(Coordinate(peerKey))
  {
    FromBytesValue(peerKey);
    hide Mod, Le32, FromBytes, Val;
    ModMod(Le32(peerKey[31 := peerKey[31] % 128]));
  }

  /** The quotient of the first point's coordinates, written out. */
  method Quotient(l: Limbs, ghost p: Points) returns (out: seq<Octet>)
    requires Represents(l, p) && p.z2 == Mod(p.z2)
    ensures |out| == 32
    ensures Le32(out) ==
            FMul(p.x2,
                 FPow(p.z2, 0x7fff_ffff_ffff_ffff_ffff_ffff_ffff_ffff_ffff_ffff_ffff_ffff_ffff_ffff_ffff_ffed - 2))
  {
    hide Le32, Mod, FPow, FMul, Val, Tight;
    var inverse := FeInv(l.z2, p.z2);
    TightBelow(l.x2);
    TightBelow(inverse);
    var quotient := FeMul(l.x2, inverse);
    StandsProduct(quotient, l.x2, inverse, p.x2,
        FPow(p.z2, 0x7fff_ffff_ffff_ffff_ffff_ffff_ffff_ffff_ffff_ffff_ffff_ffff_ffff_ffff_ffff_ffed - 2));
    out := ToBytes(quotient);
  }

  /** The whole exchange: the shared value, and whether it is not zero. */
  method SharedSecret(privateKey: seq<Octet>, peerKey: seq<Octet>) returns (out: seq<Octet>, ok: bool)
    requires |privateKey| == 32 && |peerKey| == 32
    ensures |out| == 32 && Le32(out) == X25519Function(Le32(Clamped(privateKey)), Coordinate(peerKey))
    ensures ok <==> Le32(out) != 0
  {
    hide Le32, Mod, Stands, Tight, LadderAfter, FromBytes, FMul, FPow, Coordinate, Clamped, Represents;
    var e := Clamp(privateKey);
    ghost var u := Coordinate(peerKey);
    PeerStands(peerKey);
    var l := Ladder(e, FromBytes(peerKey), u);
    LadderReduced(Le32(e), u, 255);
    out := Quotient(l, LadderAfter(Le32(e), u, 255));
    var zero := AllZero(out);
    ZeroOctets(out);
    ok := !zero;
  }

  lemma TightBelow(f: Fe)
    requires Tight(f)
    ensures Below(f, 0x40_0000_0000_0000)
  {}
}
