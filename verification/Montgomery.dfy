/** What the ladder of X25519 computes: doubling and differential addition on the curve
    y^2 = x^3 + 486662 x^2 + x of section 4.1 of RFC 7748, and with them a multiple of the point. */
module Montgomery {
  import opened Field25519
  import opened X25519

  function Square(x: int): int { x * x }

  // ---------- Residues of sums, differences and products ----------

  lemma SumIs(x: nat, x': int, y: nat, y': int)
    requires Mod(x) == Mod(x') && Mod(y) == Mod(y')
    ensures FAdd(x, y) == Mod(x' + y') == Mod(FAdd(x, y))
  {
    hide Mod;
    ModAdd(x, x', y, y');
    ModMod(x + y);
  }

  lemma DifferenceIs(x: nat, x': int, y: nat, y': int)
    requires Mod(x) == Mod(x') && Mod(y) == Mod(y')
    ensures FSub(x, y) == Mod(x' - y') == Mod(FSub(x, y))
  {
    hide Mod;
    ModAdd(x, x', y, y');
    ModMod(x - y);
  }

  lemma ProductIs(x: nat, x': int, y: nat, y': int)
    requires Mod(x) == Mod(x') && Mod(y) == Mod(y')
    ensures FMul(x, y) == Mod(x' * y') == Mod(FMul(x, y))
  {
    hide Mod;
    ModMul(x, x', y, y');
    ModMod(x * y);
  }

  // ---------- Doubling and differential addition ----------

  /** The first point of a step is the double of the first point. */
  lemma Doubles(u: nat, p: Points)
    ensures DoubleAdd(u, p).x2 == Mod(Square(p.x2 * p.x2 - p.z2 * p.z2))
    ensures DoubleAdd(u, p).z2
         == Mod(4 * (p.x2 * p.z2) * (p.x2 * p.x2 + 486662 * (p.x2 * p.z2) + p.z2 * p.z2))
  {
    var x: nat, z: nat := p.x2, p.z2;
    DoubleParts(x, z);
    hide Mod, FAdd, FSub, FMul;
    var aa, bb := FMul(FAdd(x, z), FAdd(x, z)), FMul(FSub(x, z), FSub(x, z));
    ProductIs(aa, Square(x + z), bb, Square(x - z));
    DifferenceIs(aa, Square(x + z), bb, Square(x - z));
    var e := FSub(aa, bb);
    ProductIs(e, Square(x + z) - Square(x - z), 121665, 121665);
    SumIs(aa, Square(x + z), FMul(e, 121665), (Square(x + z) - Square(x - z)) * 121665);
    ProductIs(e, Square(x + z) - Square(x - z), FAdd(aa, FMul(e, 121665)),
              Square(x + z) + (Square(x + z) - Square(x - z)) * 121665);
    DoublingIdentities(x, z);
  }

  lemma DoubleParts(x: nat, z: nat)
    ensures Mod(FMul(FAdd(x, z), FAdd(x, z))) == Mod(Square(x + z))
    ensures Mod(FMul(FSub(x, z), FSub(x, z))) == Mod(Square(x - z))
  {
    hide Mod, FAdd, FSub, FMul;
    SumIs(x, x, z, z);
    DifferenceIs(x, x, z, z);
    ProductIs(FAdd(x, z), x + z, FAdd(x, z), x + z);
    ProductIs(FSub(x, z), x - z, FSub(x, z), x - z);
  }

  lemma DoublingIdentities(x: int, z: int)
    ensures Square(x + z) * Square(x - z) == Square(x * x - z * z)
    ensures (Square(x + z) - Square(x - z)) * (Square(x + z) + (Square(x + z) - Square(x - z)) * 121665)
         == 4 * (x * z) * (x * x + 486662 * (x * z) + z * z)
  {
    assert (x + z) * (x - z) == x * x - z * z;
    var a, b := x + z, x - z;
    assert (a * a) * (b * b) == (a * b) * (a * b);
    assert a * a == x * x + 2 * (x * z) + z * z && b * b == x * x - 2 * (x * z) + z * z;
  }

  /** The second point of a step is the sum of the two points, from the coordinate u of their difference. */
  lemma Adds(u: nat, p: Points)
    ensures DoubleAdd(u, p).x3 == Mod(4 * Square(p.x2 * p.x3 - p.z2 * p.z3))
    ensures DoubleAdd(u, p).z3 == Mod(4 * u * Square(p.x2 * p.z3 - p.z2 * p.x3))
  {
    var da, cb := FMul(FSub(p.x3, p.z3), FAdd(p.x2, p.z2)), FMul(FAdd(p.x3, p.z3), FSub(p.x2, p.z2));
    var da', cb' := (p.x3 - p.z3) * (p.x2 + p.z2), (p.x3 + p.z3) * (p.x2 - p.z2);
    AddParts(p);
    hide Mod, FAdd, FSub, FMul;
    SumIs(da, da', cb, cb');
    ProductIs(FAdd(da, cb), da' + cb', FAdd(da, cb), da' + cb');
    DifferenceIs(da, da', cb, cb');
    ProductIs(FSub(da, cb), da' - cb', FSub(da, cb), da' - cb');
    ProductIs(u, u, FMul(FSub(da, cb), FSub(da, cb)), (da' - cb') * (da' - cb'));
    AdditionIdentities(u, p.x2, p.z2, p.x3, p.z3);
  }

  lemma AddParts(p: Points)
    ensures Mod(FMul(FSub(p.x3, p.z3), FAdd(p.x2, p.z2))) == Mod((p.x3 - p.z3) * (p.x2 + p.z2))
    ensures Mod(FMul(FAdd(p.x3, p.z3), FSub(p.x2, p.z2))) == Mod((p.x3 + p.z3) * (p.x2 - p.z2))
  {
    hide Mod, FAdd, FSub, FMul;
    SumIs(p.x2, p.x2, p.z2, p.z2);
    SumIs(p.x3, p.x3, p.z3, p.z3);
    DifferenceIs(p.x2, p.x2, p.z2, p.z2);
    DifferenceIs(p.x3, p.x3, p.z3, p.z3);
    ProductIs(FSub(p.x3, p.z3), p.x3 - p.z3, FAdd(p.x2, p.z2), p.x2 + p.z2);
    ProductIs(FAdd(p.x3, p.z3), p.x3 + p.z3, FSub(p.x2, p.z2), p.x2 - p.z2);
  }

  lemma AdditionIdentities(u: int, x2: int, z2: int, x3: int, z3: int)
    ensures var da, cb := (x3 - z3) * (x2 + z2), (x3 + z3) * (x2 - z2);
            && (da + cb) * (da + cb) == 4 * Square(x2 * x3 - z2 * z3)
            && u * ((da - cb) * (da - cb)) == 4 * u * Square(x2 * z3 - z2 * x3)
  {
    var da, cb := (x3 - z3) * (x2 + z2), (x3 + z3) * (x2 - z2);
    var s, d := x2 * x3 - z2 * z3, x2 * z3 - z2 * x3;
    assert da + cb == 2 * s && da - cb == -2 * d;
    assert (da + cb) * (da + cb) == 4 * (s * s);
    assert (da - cb) * (da - cb) == 4 * (d * d);
    assert u * (4 * (d * d)) == 4 * u * (d * d);
  }

  // ---------- The ladder ----------

  /** The x-coordinate of a point as x/z; (1, 0) stands for the point at infinity. */
  datatype Ratio = Ratio(x: nat, z: nat)

  function Doubled(r: Ratio): Ratio {
    Ratio(Mod(Square(r.x * r.x - r.z * r.z)),
          Mod(4 * (r.x * r.z) * (r.x * r.x + 486662 * (r.x * r.z) + r.z * r.z)))
  }

  /** The sum of two points whose difference has the coordinate u. */
  function Added(u: nat, r: Ratio, s: Ratio): Ratio {
    Ratio(Mod(4 * Square(r.x * s.x - r.z * s.z)), Mod(4 * u * Square(r.x * s.z - r.z * s.x)))
  }

  /** The m-th multiple of the point with coordinate u, for m up to 2^n: an even multiple is the double of half of it,
      an odd one the sum of the two multiples around half of it. */
  function Multiple(u: nat, m: nat, n: nat): Ratio
    requires m <= Two(n)
    decreases n
  {
    if n == 0 then (if m == 0 then Ratio(1, 0) else Ratio(u, 1))
    else if m % 2 == 0 then Doubled(Multiple(u, m / 2, n - 1))
    else Added(u, Multiple(u, m / 2, n - 1), Multiple(u, m / 2 + 1, n - 1))
  }

  function WholePart(k: nat, d: nat): nat
    requires d > 0
  {
    k / d
  }

  /** The number without its t lowest bits. */
  function Shifted(k: nat, t: nat): nat {
    TwoPositive(t);
    WholePart(k, Two(t))
  }

  lemma ShiftedGrows(k: nat, t: nat)
    ensures Shifted(k, t) == 2 * Shifted(k, t + 1) + Bit(k, t)
  {
    TwoPositive(t);
    assert Two(t + 1) == 2 * Two(t);
    hide Two;
    HalfOf(k, Two(t));
  }

  lemma HalfOf(k: nat, d: nat)
    requires d > 0
    ensures k / (2 * d) == k / d / 2
  {
    var q, m := k / d, k % d;
    assert k == q * d + m;
    assert q * d == q / 2 * (2 * d) + q % 2 * d;
    assert 0 <= q % 2 * d + m < 2 * d;
    QuotientIs(k, 2 * d, q / 2, q % 2 * d + m);
  }

  /** One step takes neighbouring multiples to neighbouring multiples. */
  lemma MultiplesStep(u: nat, q: Points, m: nat, bit: nat, n: nat)
    requires n > 0 && bit <= 1 && m + 1 <= Two(n - 1)
    requires Ratio(q.x2, q.z2) == Multiple(u, m, n - 1) && Ratio(q.x3, q.z3) == Multiple(u, m + 1, n - 1)
    ensures 2 * m + bit + 1 <= Two(n)
    ensures var p := ExchangedIf(DoubleAdd(u, ExchangedIf(q, bit)), bit);
            && Ratio(p.x2, p.z2) == Multiple(u, 2 * m + bit, n)
            && Ratio(p.x3, p.z3) == Multiple(u, 2 * m + bit + 1, n)
  {
    var p := ExchangedIf(q, bit);
    assert Two(n) == 2 * Two(n - 1);
    hide Two, Mod, Square, DoubleAdd;
    DoublesRatio(u, p);
    SumCommutes(u, Multiple(u, m, n - 1), Multiple(u, m + 1, n - 1));
    hide Doubled, Added;
    OddMultiple(u, m, n);
    EvenMultiple(u, m + bit, n);
    hide Multiple;
  }

  lemma EvenMultiple(u: nat, m: nat, n: nat)
    requires n > 0 && 2 * m <= Two(n)
    ensures Two(n) == 2 * Two(n - 1) && Multiple(u, 2 * m, n) == Doubled(Multiple(u, m, n - 1))
  {
    assert Two(n) == 2 * Two(n - 1);
    hide Doubled, Added, Two;
    assert 2 * m / 2 == m && 2 * m % 2 == 0;
  }

  lemma OddMultiple(u: nat, m: nat, n: nat)
    requires n > 0 && 2 * m + 1 <= Two(n)
    ensures Two(n) == 2 * Two(n - 1)
    ensures Multiple(u, 2 * m + 1, n) == Added(u, Multiple(u, m, n - 1), Multiple(u, m + 1, n - 1))
  {
    assert Two(n) == 2 * Two(n - 1);
    hide Doubled, Added, Two;
    assert (2 * m + 1) / 2 == m && (2 * m + 1) % 2 == 1;
  }

  lemma DoublesRatio(u: nat, p: Points)
    ensures var q := DoubleAdd(u, p);
            && Ratio(q.x2, q.z2) == Doubled(Ratio(p.x2, p.z2))
            && Ratio(q.x3, q.z3) == Added(u, Ratio(p.x2, p.z2), Ratio(p.x3, p.z3))
  {
    hide DoubleAdd, Mod, Square;
    Doubles(u, p);
    Adds(u, p);
  }

  /** The two points of the ladder are neighbouring multiples, of the number its bits so far make. */
  lemma {:induction false} LadderMultiples(k: nat, u: nat, n: nat)
    requires n <= 255 && k < Two(255)
    ensures Shifted(k, 255 - n) + 1 <= Two(n)
    ensures var p := LadderAfter(k, u, n);
            && Ratio(p.x2, p.z2) == Multiple(u, Shifted(k, 255 - n), n)
            && Ratio(p.x3, p.z3) == Multiple(u, Shifted(k, 255 - n) + 1, n)
  {
    hide Two, Bit, Shifted, DoubleAdd, ExchangedIf, Multiple;
    if n == 0 {
      LadderStarts(k, u);
    } else {
      LadderMultiples(k, u, n - 1);
      ShiftedGrows(k, 255 - n);
      MultiplesStep(u, LadderAfter(k, u, n - 1), Shifted(k, 256 - n), Bit(k, 255 - n), n);
    }
  }

  lemma LadderStarts(k: nat, u: nat)
    requires k < Two(255)
    ensures Shifted(k, 255) == 0 && Two(0) == 1
    ensures LadderAfter(k, u, 0) == Points(1, 0, u, 1)
    ensures Multiple(u, 0, 0) == Ratio(1, 0) && Multiple(u, 1, 0) == Ratio(u, 1)
  {
    assert Two(0) == 1;
    hide Two;
    TwoPositive(255);
    SmallQuotient(k, Two(255));
  }

  lemma SmallQuotient(k: nat, d: nat)
    requires k < d
    ensures k / d == 0
  {}

  lemma SumCommutes(u: nat, r: Ratio, s: Ratio)
    ensures Added(u, r, s) == Added(u, s, r)
  {
    hide Mod;
    var a, b := r.x * s.x - r.z * s.z, r.x * s.z - r.z * s.x;
    assert r.x * s.x == s.x * r.x && r.z * s.z == s.z * r.z && r.x * s.z == s.z * r.x && r.z * s.x == s.x * r.z;
    assert s.x * r.z - s.z * r.x == -b;
    assert (-b) * (-b) == b * b;
  }

  lemma TopPower()
    ensures Two(255) == 0x8000_0000_0000_0000_0000_0000_0000_0000_0000_0000_0000_0000_0000_0000_0000_0000
  {
    hide Two;
    TwoValues();
    TwoAdd(5, 50);
    TwoAdd(55, 100);
    TwoAdd(155, 100);
  }

  /** The function of a scalar and a coordinate is the quotient that stands for the multiple. */
  lemma FunctionIsMultiple(k: nat, u: nat)
    requires k < 0x8000_0000_0000_0000_0000_0000_0000_0000_0000_0000_0000_0000_0000_0000_0000_0000
    ensures k < Two(255)
    ensures var r := Multiple(u, k, 255);
            X25519Function(k, u) ==
            FMul(r.x, FPow(r.z, 0x7fff_ffff_ffff_ffff_ffff_ffff_ffff_ffff_ffff_ffff_ffff_ffff_ffff_ffff_ffff_ffed - 2))
  {
    hide Two, Multiple, LadderAfter, FMul, FPow;
    TopPower();
    LadderMultiples(k, u, 255);
    assert Shifted(k, 0) == k by { Unshifted(k); }
  }

  lemma Unshifted(k: nat)
    ensures Shifted(k, 0) == k
  {
    assert Two(0) == 1;
  }

  // ---------- The curve ----------

  function Cubic(x: int): int { x * x * x + 486662 * (x * x) + x }

  ghost predicate OnCurve(x: int, y: int) {
    Mod(y * y) == Mod(Cubic(x))
  }

  lemma CubicFactor(x: int)
    ensures Cubic(x) == x * (x * x + 486662 * x + 1)
  {}

  ghost predicate StandsFor(r: Ratio, x: int) {
    Mod(r.x) == Mod(x * r.z)
  }

  /** The tangent law: where r stands for the coordinate of (x, y), its double stands for the square of the slope
      (3x^2 + 2Ax + 1) / 2y, less A and twice x, with (2y)^2 z^4 as the denominator. */
  lemma TangentLaw(x: int, y: int, r: Ratio)
    requires OnCurve(x, y) && StandsFor(r, x)
    ensures Mod(Doubled(r).z) == Mod(Square(Square(r.z)) * Square(2 * y))
    ensures Mod(Doubled(r).x) == Mod(Square(Square(r.z))
         * (Square(3 * (x * x) + 2 * 486662 * x + 1) - (486662 + 2 * x) * Square(2 * y)))
  {
    hide Mod;
    var z, q, t := r.z, Square(x * x - 1), x * r.z;
    assert Mod(Doubled(r).x) == Mod(Square(t * t - z * z)) by {
      ModMul(r.x, t, r.x, t);
      ModAdd(r.x * r.x, t * t, z * z, z * z);
      ModMul(r.x * r.x - z * z, t * t - z * z, r.x * r.x - z * z, t * t - z * z);
      ModMod(Square(r.x * r.x - z * z));
    }
    assert Mod(Doubled(r).z) == Mod(4 * (t * z) * (t * t + 486662 * (t * z) + z * z)) by {
      ModMul(r.x, t, r.x, t);
      ModMul(r.x, t, z, z);
      ModMul(4, 4, r.x * z, t * z);
      ModMul(486662, 486662, r.x * z, t * z);
      ModAdd(r.x * r.x, t * t, 486662 * (r.x * z), 486662 * (t * z));
      ModAdd(r.x * r.x + 486662 * (r.x * z), t * t + 486662 * (t * z), z * z, z * z);
      ModMul(4 * (r.x * z), 4 * (t * z),
             r.x * r.x + 486662 * (r.x * z) + z * z, t * t + 486662 * (t * z) + z * z);
      ModMod(4 * (r.x * z) * (r.x * r.x + 486662 * (r.x * z) + z * z));
    }
    AffineDouble(x, z);
    TangentIdentity(x);
    FourSquares(y, Cubic(x));
    hide Square, Doubled;
    TangentCongruence(Doubled(r).x, Doubled(r).z, Square(Square(z)), q, Square(2 * y), 4 * Cubic(x),
                      Square(3 * (x * x) + 2 * 486662 * x + 1), 486662 + 2 * x);
  }

  lemma FourSquares(y: int, f: int)
    requires Mod(y * y) == Mod(f)
    ensures Mod(Square(2 * y)) == Mod(4 * f)
  {
    hide Mod;
    ModMul(4, 4, y * y, f);
    SquareScaled(2, y);
  }

  lemma TangentCongruence(x: int, z: int, w: int, q: int, squares: int, cubics: int, slope: int, a: int)
    requires Mod(x) == Mod(w * q) && Mod(z) == Mod(w * cubics) && Mod(squares) == Mod(cubics)
    requires slope - a * cubics == q
    ensures Mod(z) == Mod(w * squares) && Mod(x) == Mod(w * (slope - a * squares))
  {
    hide Mod;
    ModMul(w, w, squares, cubics);
    ModMul(a, a, squares, cubics);
    ModAdd(slope, slope, a * squares, a * cubics);
    ModMul(w, w, slope - a * squares, q);
  }

  lemma AffineDouble(x: int, z: int)
    ensures Square(x * z * (x * z) - z * z) == Square(Square(z)) * Square(x * x - 1)
    ensures 4 * (x * z * z) * (x * z * (x * z) + 486662 * (x * z * z) + z * z) == Square(Square(z)) * (4 * Cubic(x))
  {
    var t, q := z * z, x * x - 1;
    assert x * z * (x * z) - z * z == t * q;
    assert (t * q) * (t * q) == (t * t) * (q * q);
    var g := x * x + 486662 * x + 1;
    assert x * z * z == x * t;
    assert x * z * (x * z) == (x * x) * t;
    assert (x * x) * t + 486662 * (x * t) + t == g * t;
    assert 4 * (x * t) * (g * t) == (t * t) * (4 * (x * g));
    CubicFactor(x);
  }

  lemma TangentIdentity(x: int)
    ensures Square(3 * (x * x) + 2 * 486662 * x + 1) - (486662 + 2 * x) * (4 * Cubic(x)) == Square(x * x - 1)
  {
    var t, m := x * x, 486662 * x;
    TangentPolynomial(t, m);
    CubicFactor(x);
    hide Cubic, Square;
    assert (486662 + 2 * x) * (4 * (x * (t + m + 1))) == (486662 + 2 * x) * x * (4 * (t + m + 1));
    assert (486662 + 2 * x) * x == m + 2 * t;
  }

  lemma TangentPolynomial(t: int, m: int)
    ensures Square(3 * t + 2 * m + 1) - (m + 2 * t) * (4 * (t + m + 1)) == Square(t - 1)
  {
    hide Square;
    SquareOfSum(3 * t, 2 * m + 1);
    SquareOfSum(2 * m, 1);
    SquareOfSum(t, -1);
    assert Square(3 * t) == 9 * Square(t) && Square(2 * m) == 4 * Square(m) && Square(1) == Square(-1) == 1 by {
      SquareScaled(3, t); SquareScaled(2, m); SquareScaled(1, 1); SquareScaled(-1, 1);
    }
    assert 2 * (3 * t * (2 * m + 1)) == 12 * (t * m) + 6 * t;
    assert (m + 2 * t) * (4 * (t + m + 1)) == 12 * (t * m) + 8 * (t * t) + 4 * (m * m) + 4 * m + 8 * t;
    assert t * t == Square(t) && m * m == Square(m) by { SquareScaled(1, t); SquareScaled(1, m); }
  }

  lemma SquareOfSum(a: int, b: int)
    ensures Square(a + b) == Square(a) + 2 * (a * b) + Square(b)
  {}

  lemma SquareScaled(k: int, a: int)
    ensures Square(k * a) == k * k * (a * a) && Square(a) == a * a
  {}

  /** The chord law: let r and s stand for the coordinates of two points, and u for that of their difference, the
      square of the chord's slope (y2 + y1) / (x2 - x1) less A and both coordinates.  Then what is added stands for
      the coordinate of their sum, the square of the slope (y2 - y1) / (x2 - x1) less A and both coordinates. */
  lemma ChordLaw(x1: int, y1: int, x2: int, y2: int, u: nat, r: Ratio, s: Ratio)
    requires OnCurve(x1, y1) && OnCurve(x2, y2) && StandsFor(r, x1) && StandsFor(s, x2)
    requires Mod(u * Square(x2 - x1)) == Mod(Square(y2 + y1) - (486662 + x1 + x2) * Square(x2 - x1))
    ensures Mod(Added(u, r, s).x * Square(x2 - x1))
         == Mod((Square(y2 - y1) - (486662 + x1 + x2) * Square(x2 - x1)) * Added(u, r, s).z)
  {
    var dd := Square(x2 - x1);
    var sum := Square(y2 - y1) - (486662 + x1 + x2) * dd;
    var difference := Square(y2 + y1) - (486662 + x1 + x2) * dd;
    AddedAt(u, r, s, x1, x2);
    SlopesProduct(x1, y1, x2, y2);
    hide Mod, Square, OnCurve, StandsFor, Added;
    CrossProduct(Added(u, r, s).x, Added(u, r, s).z, 4 * Square(r.z * s.z), Square(x1 * x2 - 1), dd, sum, difference,
                 u * dd);
  }

  lemma CrossProduct(x: int, z: int, w: int, q: int, dd: int, sum: int, difference: int, ud: int)
    requires Mod(x) == Mod(w * q) && Mod(z) == Mod(w * ud) && Mod(ud) == Mod(difference)
    requires Mod(sum * difference) == Mod(q * dd)
    ensures Mod(x * dd) == Mod(sum * z)
  {
    hide Mod;
    ModMul(x, w * q, dd, dd);
    ModMul(w, w, ud, difference);
    ModMul(sum, sum, z, w * difference);
    ModMul(w, w, sum * difference, q * dd);
    Associated(w, q, dd);
    Associated(sum, w, difference);
    Associated(w, sum, difference);
  }

  lemma Associated(a: int, b: int, c: int)
    ensures a * b * c == a * (b * c) == b * a * c
  {}

  lemma AddedAt(u: nat, r: Ratio, s: Ratio, x1: int, x2: int)
    requires StandsFor(r, x1) && StandsFor(s, x2)
    ensures Mod(Added(u, r, s).x) == Mod(4 * Square(r.z * s.z) * Square(x1 * x2 - 1))
    ensures Mod(Added(u, r, s).z) == Mod(4 * Square(r.z * s.z) * (u * Square(x2 - x1)))
  {
    var z1, z2 := r.z, s.z;
    var m, n := r.x * s.x - z1 * z2, r.x * z2 - z1 * s.x;
    ModMod(4 * Square(m));
    ModMod(4 * u * Square(n));
    hide Mod;
    AffineAdd(x1, z1, x2, z2);
    MixedProducts(r, s, x1, x2);
    hide Square;
    ModMul(4, 4, Square(m), Square(z1 * z2) * Square(x1 * x2 - 1));
    ModMul(4 * u, 4 * u, Square(n), Square(z1 * z2) * Square(x2 - x1));
    Regroup(u, Square(z1 * z2), Square(x1 * x2 - 1), Square(x2 - x1));
  }

  lemma Regroup(u: int, w: int, q: int, dd: int)
    ensures 4 * u * (w * dd) == 4 * w * (u * dd) && 4 * (w * q) == 4 * w * q
  {
    assert u * (w * dd) == w * (u * dd);
  }

  lemma MixedProducts(r: Ratio, s: Ratio, x1: int, x2: int)
    requires StandsFor(r, x1) && StandsFor(s, x2)
    ensures var z1, z2 := r.z, s.z;
            && Mod(Square(r.x * s.x - z1 * z2)) == Mod(Square(x1 * z1 * (x2 * z2) - z1 * z2))
            && Mod(Square(r.x * z2 - z1 * s.x)) == Mod(Square(x1 * z1 * z2 - z1 * (x2 * z2)))
  {
    var z1, z2 := r.z, s.z;
    hide Mod;
    ModMul(r.x, x1 * z1, s.x, x2 * z2);
    ModMul(r.x, x1 * z1, z2, z2);
    ModMul(z1, z1, s.x, x2 * z2);
    ModAdd(r.x * s.x, x1 * z1 * (x2 * z2), z1 * z2, z1 * z2);
    ModAdd(r.x * z2, x1 * z1 * z2, z1 * s.x, z1 * (x2 * z2));
    var m, m' := r.x * s.x - z1 * z2, x1 * z1 * (x2 * z2) - z1 * z2;
    var n, n' := r.x * z2 - z1 * s.x, x1 * z1 * z2 - z1 * (x2 * z2);
    ModMul(m, m', m, m');
    ModMul(n, n', n, n');
  }

  lemma AffineAdd(x1: int, z1: int, x2: int, z2: int)
    ensures Square(x1 * z1 * (x2 * z2) - z1 * z2) == Square(z1 * z2) * Square(x1 * x2 - 1)
    ensures Square(x1 * z1 * z2 - z1 * (x2 * z2)) == Square(z1 * z2) * Square(x2 - x1)
  {
    var t := z1 * z2;
    assert x1 * z1 * (x2 * z2) == x1 * x2 * t;
    assert x1 * z1 * z2 == x1 * t && z1 * (x2 * z2) == x2 * t;
    SquareOfProduct(t, x1 * x2 - 1);
    SquareOfProduct(-t, x2 - x1);
    SquareScaled(-1, t);
  }

  lemma SquareOfProduct(a: int, b: int)
    ensures Square(a * b) == Square(a) * Square(b)
  {
    assert (a * b) * (a * b) == (a * a) * (b * b);
  }

  /** On the curve the coordinates of sum and difference have the product (x1 x2 - 1)^2 / (x2 - x1)^2. */
  lemma SlopesProduct(x1: int, y1: int, x2: int, y2: int)
    requires OnCurve(x1, y1) && OnCurve(x2, y2)
    ensures var m := (486662 + x1 + x2) * Square(x2 - x1);
            Mod((Square(y2 - y1) - m) * (Square(y2 + y1) - m)) == Mod(Square(x1 * x2 - 1) * Square(x2 - x1))
  {
    var m := (486662 + x1 + x2) * Square(x2 - x1);
    SlopesExpand(y1, y2, m);
    ChordIdentity(x1, x2);
    hide Mod, Cubic;
    var a, f, b, g := y1 * y1, Cubic(x1), y2 * y2, Cubic(x2);
    ModAdd(a, f, b, g);
    ModAdd(a + b, f + g, m, m);
    ModMul(a + b - m, f + g - m, a + b - m, f + g - m);
    ModMul(a, f, b, g);
    ModMul(4, 4, a * b, f * g);
    ModAdd(Square(a + b - m), Square(f + g - m), 4 * (a * b), 4 * (f * g));
  }

  lemma SlopesExpand(y1: int, y2: int, m: int)
    ensures (Square(y2 - y1) - m) * (Square(y2 + y1) - m)
         == Square(y1 * y1 + y2 * y2 - m) - 4 * (y1 * y1 * (y2 * y2))
  {
    var n, k := y1 * y1 + y2 * y2 - m, y1 * y2;
    assert (y2 - y1) * (y2 - y1) - m == n - 2 * k;
    assert (y2 + y1) * (y2 + y1) - m == n + 2 * k;
    assert (n - 2 * k) * (n + 2 * k) == n * n - 4 * (k * k);
    assert k * k == y1 * y1 * (y2 * y2);
  }

  lemma ChordIdentity(x1: int, x2: int)
    ensures Square(Cubic(x1) + Cubic(x2) - (486662 + x1 + x2) * Square(x2 - x1)) - 4 * (Cubic(x1) * Cubic(x2))
         == Square(x1 * x2 - 1) * Square(x2 - x1)
  {
    var s, q, dd := x1 + x2, x1 * x2, Square(x2 - x1);
    assert Cubic(x1) + Cubic(x2) - (486662 + s) * dd == s * (q + 1) + 2 * (486662 * q) by {
      assert dd == x1 * x1 + x2 * x2 - 2 * q;
      CubeSum(x1, x2);
      Distributed(dd, 486662, s);
      Distributed(s, q, 1);
    }
    assert (486662 + x1 + x2) * dd == (486662 + s) * dd;
    CubicProduct(x1, x2);
    assert dd == s * s - 4 * q;
    hide Square, Cubic;
    ChordSquare(s, q);
    SevenTerms(q, q * q, q * s, s * s, s);
    ChordRight(q, s * s);
  }

  lemma Distributed(a: int, b: int, c: int)
    ensures (b + c) * a == a * (b + c) == a * b + a * c
  {}

  lemma CubeSum(x1: int, x2: int)
    ensures var s, q := x1 + x2, x1 * x2;
            x1 * x1 * x1 + x2 * x2 * x2 - s * Square(x2 - x1) == s * q
  {
    var s, q := x1 + x2, x1 * x2;
    assert s * (x1 * x1 + x2 * x2 - 2 * q) == s * (x1 * x1) + s * (x2 * x2) - 2 * (s * q);
    assert s * (x1 * x1) == x1 * x1 * x1 + x1 * q;
    assert s * (x2 * x2) == x2 * x2 * x2 + x2 * q;
    assert s * q == x1 * q + x2 * q;
  }

  lemma CubicProduct(x1: int, x2: int)
    ensures var s, q := x1 + x2, x1 * x2;
            Cubic(x1) * Cubic(x2)
            == q * (q * q + 486662 * (q * s) + s * s - 2 * q + 486662 * 486662 * q + 486662 * s + 1)
  {
    CubicFactor(x1);
    CubicFactor(x2);
    hide Cubic;
    FourFactors(x1, x1 * x1 + 486662 * x1 + 1, x2, x2 * x2 + 486662 * x2 + 1);
    ThreeTerms(x1 * x1, 486662 * x1, x2 * x2, 486662 * x2);
    PairTerms(x1, x2);
  }

  lemma FourFactors(a: int, b: int, c: int, d: int)
    ensures a * b * (c * d) == a * c * (b * d)
  {}

  lemma ThreeTerms(a: int, b: int, c: int, d: int)
    ensures (a + b + 1) * (c + d + 1) == a * c + (a * d + b * c) + b * d + (a + c) + (b + d) + 1
  {}

  lemma PairTerms(x1: int, x2: int)
    ensures var s, q := x1 + x2, x1 * x2;
            && x1 * x1 * (x2 * x2) == q * q
            && x1 * x1 * (486662 * x2) + 486662 * x1 * (x2 * x2) == 486662 * (q * s)
            && 486662 * x1 * (486662 * x2) == 486662 * 486662 * q
            && x1 * x1 + x2 * x2 == s * s - 2 * q
  {
    var s, q := x1 + x2, x1 * x2;
    FourFactors(x1, x1, x2, x2);
    Distributed(q, x1, x2);
    Associated(x1, x1, x2);
    Associated(x1, x2, x2);
  }

  lemma ChordSquare(s: int, q: int)
    ensures Square(s * (q + 1) + 2 * (486662 * q))
         == s * s * (q * q) + 2 * (q * (s * s)) + s * s + 4 * 486662 * (q * (q * s) + q * s)
            + 4 * 486662 * 486662 * (q * q)
  {
    SquareOfSum(s * (q + 1), 2 * 486662 * q);
    SquareOfProduct(s, q + 1);
    SquareScaled(2 * 486662, q);
    SquareOfSum(q, 1);
    SquareScaled(1, s);
    SquareScaled(1, 1);
    hide Square;
    Distributed(s * s, q * q, 2 * q + 1);
    MixedTerm(s, q);
  }

  lemma MixedTerm(s: int, q: int)
    ensures s * (q + 1) * (2 * 486662 * q) == 2 * 486662 * (q * (q * s) + q * s)
  {
    Distributed(s, q, 1);
    Distributed(q, s * q, s);
  }

  lemma SevenTerms(q: int, c: int, e: int, v: int, s: int)
    requires e == q * s && c == q * q
    ensures q * (c + 486662 * e + v - 2 * q + 486662 * 486662 * q + 486662 * s + 1)
         == q * c + 486662 * (q * e) + q * v - 2 * c + 486662 * 486662 * c + 486662 * e + q
  {
    Distributed(q, c + 486662 * e + v, -2 * q + 486662 * 486662 * q + 486662 * s + 1);
  }

  lemma ChordRight(q: int, v: int)
    ensures Square(q - 1) * (v - 4 * q)
         == v * (q * q) - 2 * (q * v) + v - 4 * (q * (q * q)) + 8 * (q * q) - 4 * q
  {
    SquareOfSum(q, -1);
    SquareScaled(1, q);
    Distributed(q * q - 2 * q + 1, v, -4 * q);
    Distributed(v, q * q, -2 * q + 1);
    Distributed(q, q * q, -2 * q + 1);
  }
}
