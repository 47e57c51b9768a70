/** Which coefficient matrices of the erasure code are invertible.

    Row p of the code has the coefficients node^p.  Rows that lie d apart are invertible exactly when
    the d-th powers of the nodes differ: consecutive rows over different nodes always are, others need not be. */
module Vandermonde {
  import Common
  import opened Galois
  import opened Linear

  /** The row of e-th powers of the nodes. */
  function PowRow(nodes: Bytes, e: nat): (row: Bytes)
    ensures |row| == |nodes| && forall c: nat | c < |nodes| :: row[c] == Pow(nodes[c], e)
  {
    seq(|nodes|, c requires 0 <= c < |nodes| => Pow(nodes[c], e))
  }

  ghost predicate Distinct(nodes: Bytes) {
    forall i: nat, j: nat | i < j < |nodes| :: nodes[i] != nodes[j]
  }

  /** The weights that remain when the node `y` is eliminated. */
  function Eliminated(nodes: Bytes, y: Byte, w: Bytes): (w': Bytes)
    requires |w| == |nodes|
    ensures |w'| == |w| && forall c: nat | c < |w| :: w'[c] == Mul(Add(nodes[c], y), w[c])
  {
    seq(|w|, c requires 0 <= c < |w| => Mul(Add(nodes[c], y), w[c]))
  }

  /** Eliminating a node combines two neighbouring power sums. */
  lemma {:induction false} EliminatedSum(nodes: Bytes, y: Byte, w: Bytes, i: nat, k: nat)
    requires |w| == |nodes| && k <= |w|
    ensures Dot(PowRow(nodes, i), Eliminated(nodes, y, w), k)
         == Add(Dot(PowRow(nodes, i + 1), w, k), Mul(y, Dot(PowRow(nodes, i), w, k)))
  {
    hide Add, Mul;
    MulZero(y);
    AddZero(0);
    if k == 0 {
    } else {
      var p, x, v := Pow(nodes[k - 1], i), nodes[k - 1], w[k - 1];
      EliminatedSum(nodes, y, w, i, k - 1);
      MulAddRight(y, Dot(PowRow(nodes, i), w, k - 1), Mul(p, v));
      EliminatedTerm(p, x, y, v);
      AddSwap(Dot(PowRow(nodes, i + 1), w, k - 1), Mul(y, Dot(PowRow(nodes, i), w, k - 1)),
              Mul(Mul(x, p), v), Mul(y, Mul(p, v)));
    }
  }

  lemma EliminatedTerm(p: Byte, x: Byte, y: Byte, v: Byte)
    ensures Mul(p, Mul(Add(x, y), v)) == Add(Mul(Mul(x, p), v), Mul(y, Mul(p, v)))
  {
    hide *;
    MulAssoc(p, Add(x, y), v);
    MulAddRight(p, x, y);
    MulAddLeft(Mul(p, x), Mul(p, y), v);
    MulComm(p, x);
    MulComm(p, y);
    MulAssoc(y, p, v);
  }

  /** If the first n power sums of the weights vanish, so do the weights. */
  lemma {:induction false} PowerSumsVanish(nodes: Bytes, w: Bytes, n: nat)
    requires n <= |nodes| == |w| && Distinct(nodes)
    requires forall i: nat | i < n :: Dot(PowRow(nodes, i), w, n) == 0
    ensures forall c: nat | c < n :: w[c] == 0
    decreases n
  {
    hide Add, Mul, Dot;
    if n == 0 {
    } else {
      var y := nodes[n - 1];
      var w' := Eliminated(nodes, y, w);
      forall i: nat | i < n - 1 ensures Dot(PowRow(nodes, i), w', n - 1) == 0 {
        EliminatedSum(nodes, y, w, i, n);
        MulZero(y);
        AddZero(0);
        AddSelf(y);
        MulZero(w[n - 1]);
        LastTermZero(PowRow(nodes, i), w', n);
      }
      PowerSumsVanish(nodes, w', n - 1);
      forall c: nat | c < n - 1 ensures w[c] == 0 {
        AddCancel(nodes[c], y);
        NoZeroDivisors(Add(nodes[c], y), w[c]);
      }
      OnlyLastTerm(PowRow(nodes, 0), w, n);
      MulOne(w[n - 1]);
    }
  }

  lemma LastTermZero(u: Bytes, v: Bytes, n: nat)
    requires 0 < n <= |u| && n <= |v| && v[n - 1] == 0
    ensures Dot(u, v, n) == Dot(u, v, n - 1)
  {
    hide Add, Mul;
    MulZero(u[n - 1]);
    AddZero(Dot(u, v, n - 1));
  }

  lemma OnlyLastTerm(u: Bytes, v: Bytes, n: nat)
    requires 0 < n <= |u| && n <= |v| && forall c: nat | c < n - 1 :: v[c] == 0
    ensures Dot(u, v, n) == Mul(u[n - 1], v[n - 1])
  {
    hide Add, Mul;
    DotZeroRight(u, v, n - 1);
    AddZero(Mul(u[n - 1], v[n - 1]));
  }

  // ---------- Equally spaced rows ----------

  function CodeMatrix(rows: seq<nat>, nodes: Bytes): (a: Matrix)
    ensures |a| == |rows| && forall r: nat | r < |rows| :: a[r] == PowRow(nodes, rows[r])
  {
    seq(|rows|, r requires 0 <= r < |rows| => PowRow(nodes, rows[r]))
  }

  /** The i-th of the row numbers that start at `base` and lie `d` apart. */
  function RowNo(base: nat, d: nat, i: nat): nat {
    if i == 0 then base else RowNo(base, d, i - 1) + d
  }

  /** The rows are base, base + d, base + 2d and so on, in some order. */
  ghost predicate Spaced(rows: seq<nat>, base: nat, d: nat) {
    forall i: nat | i < |rows| :: RowNo(base, d, i) in rows
  }

  ghost function RowNos(base: nat, d: nat, n: nat): set<nat> {
    set i: nat | i < n :: RowNo(base, d, i)
  }

  lemma {:induction false} RowNosSize(base: nat, d: nat, n: nat)
    requires d > 0
    ensures |RowNos(base, d, n)| == n
    ensures forall p :: p in RowNos(base, d, n) ==> p < RowNo(base, d, n)
  {
    if n > 0 {
      RowNosSize(base, d, n - 1);
      assert RowNos(base, d, n) == RowNos(base, d, n - 1) + {RowNo(base, d, n - 1)};
    }
  }

  ghost function Elements(rows: seq<nat>): set<nat> {
    set p | p in rows
  }

  lemma {:induction false} ElementsSize(rows: seq<nat>)
    ensures |Elements(rows)| <= |rows|
  {
    if rows != [] {
      var n := |rows| - 1;
      ElementsSize(rows[..n]);
      assert rows == rows[..n] + [rows[n]];
      assert Elements(rows) == Elements(rows[..n]) + {rows[n]};
    }
  }

  /** As many rows as places: every row is one of them. */
  lemma SpacedOnly(rows: seq<nat>, base: nat, d: nat, r: nat) returns (i: nat)
    requires d > 0 && Spaced(rows, base, d) && r < |rows|
    ensures i < |rows| && rows[r] == RowNo(base, d, i)
  {
    var all, others := RowNos(base, d, |rows|), rows[..r] + rows[r + 1..];
    if rows[r] !in all {
      RowNosSize(base, d, |rows|);
      forall p | p in all ensures p in Elements(others) {
        var k: nat :| k < |rows| && rows[k] == p;
        assert p == if k < r then others[k] else others[k - 1];
      }
      ElementsSize(others);
      Common.SubsetSize(all, Elements(others));
    }
    i :| i < |rows| && rows[r] == RowNo(base, d, i);
  }

  /** Along the rows the power of a node is a power of its d-th power, times its power at the base. */
  lemma {:induction false} PowSpaced(x: Byte, base: nat, d: nat, i: nat)
    ensures Pow(x, RowNo(base, d, i)) == Mul(Pow(Pow(x, d), i), Pow(x, base))
  {
    hide Mul;
    if i == 0 {
      MulOne(Pow(x, base));
    } else {
      PowSpaced(x, base, d, i - 1);
      PowAdd(x, d, RowNo(base, d, i - 1));
      MulAssoc(Pow(x, d), Pow(Pow(x, d), i - 1), Pow(x, base));
    }
  }

  /** Weights scaled by the powers at the base turn spaced rows into the rows 0, 1, 2 and so on. */
  lemma {:induction false} SpacedSum(nodes: Bytes, base: nat, d: nat, i: nat, v: Bytes, w: Bytes, k: nat)
    requires k <= |nodes| == |v| == |w|
    requires forall c: nat | c < |v| :: w[c] == Mul(Pow(nodes[c], base), v[c])
    ensures Dot(PowRow(nodes, RowNo(base, d, i)), v, k) == Dot(PowRow(PowRow(nodes, d), i), w, k)
  {
    hide Add, Mul, Pow;
    if k == 0 {
    } else {
      var x := nodes[k - 1];
      SpacedSum(nodes, base, d, i, v, w, k - 1);
      PowSpaced(x, base, d, i);
      MulAssoc(Pow(Pow(x, d), i), Pow(x, base), v[k - 1]);
    }
  }

  lemma PowZeroExact(a: Byte, e: nat)
    ensures Pow(a, e) != 0 <==> e == 0 || a != 0
  {
    hide Mul;
    if e > 0 && a == 0 {
      MulZero(Pow(0, e - 1));
    } else {
      if a != 0 { PowNonZero(a, e); }
    }
  }

  lemma SpacedNonSingular(rows: seq<nat>, nodes: Bytes, base: nat, d: nat)
    requires |rows| == |nodes| && Spaced(rows, base, d)
    requires Distinct(PowRow(nodes, d)) && (base == 0 || 0 !in nodes)
    ensures NonSingular(CodeMatrix(rows, nodes))
  {
    hide Add, Mul, Dot, Pow;
    var a, m := CodeMatrix(rows, nodes), |rows|;
    forall x: Bytes | |x| == |a| && Solves(a, Zeros(|a|), x) ensures x == Zeros(|a|) {
      var w: Bytes := seq(m, c requires 0 <= c < m => Mul(Pow(nodes[c], base), x[c]));
      forall i: nat | i < m ensures Dot(PowRow(PowRow(nodes, d), i), w, m) == 0 {
        assert RowNo(base, d, i) in rows;
        var r: nat :| r < m && rows[r] == RowNo(base, d, i);
        assert Dot(a[r], x, m) == 0;
        SpacedSum(nodes, base, d, i, x, w, m);
      }
      PowerSumsVanish(PowRow(nodes, d), w, m);
      forall c: nat | c < m ensures x[c] == 0 {
        assert w[c] == 0;
        PowZeroExact(nodes[c], base);
        NoZeroDivisors(Pow(nodes[c], base), x[c]);
      }
    }
  }

  // ---------- Dependent columns ----------

  lemma {:induction false} DotOnly(u: Bytes, v: Bytes, i: nat, n: nat)
    requires i < n <= |u| && n <= |v| && forall c: nat | c < n && c != i :: v[c] == 0
    ensures Dot(u, v, n) == Mul(u[i], v[i])
  {
    hide Add, Mul;
    if n - 1 == i {
      OnlyLastTerm(u, v, n);
    } else {
      DotOnly(u, v, i, n - 1);
      LastTermZero(u, v, n);
    }
  }

  lemma {:induction false} DotPair(u: Bytes, v: Bytes, i: nat, j: nat, n: nat)
    requires i < j < n <= |u| && n <= |v| && forall c: nat | c < n && c != i && c != j :: v[c] == 0
    ensures Dot(u, v, n) == Add(Mul(u[i], v[i]), Mul(u[j], v[j]))
  {
    hide Add, Mul;
    if n - 1 == j {
      DotOnly(u, v, i, n - 1);
    } else {
      DotPair(u, v, i, j, n - 1);
      LastTermZero(u, v, n);
    }
  }

  /** A column of zeros makes a matrix singular. */
  lemma ZeroColumnSingular(a: Matrix, i: nat)
    requires Square(a, |a|) && i < |a| && forall r: nat | r < |a| :: a[r][i] == 0
    ensures !NonSingular(a)
  {
    hide Add, Mul, Dot;
    var x: Bytes := Zeros(|a|)[i := 1];
    forall r: nat | r < |a| ensures Dot(a[r], x, |x|) == 0 {
      DotOfZeros(a[r], x, |x|);
    }
    assert x[i] == 1;
    assert Solves(a, Zeros(|a|), x);
  }

  /** So do two columns that are multiples of one another. */
  lemma ProportionalSingular(a: Matrix, i: nat, j: nat, p: Byte, q: Byte)
    requires Square(a, |a|) && i < j < |a| && p != 0
    requires forall r: nat | r < |a| :: Mul(a[r][i], q) == Mul(a[r][j], p)
    ensures !NonSingular(a)
  {
    hide Add, Mul, Dot;
    var x: Bytes := Zeros(|a|)[i := q][j := p];
    forall r: nat | r < |a| ensures Dot(a[r], x, |x|) == 0 {
      DotPair(a[r], x, i, j, |x|);
      AddSelf(Mul(a[r][i], q));
    }
    assert x[j] == p;
    assert Solves(a, Zeros(|a|), x);
  }

  lemma CrossPowers(x: Byte, y: Byte, base: nat, d: nat, i: nat)
    requires Pow(x, d) == Pow(y, d)
    ensures Mul(Pow(x, RowNo(base, d, i)), Pow(y, base)) == Mul(Pow(y, RowNo(base, d, i)), Pow(x, base))
  {
    hide *;
    var t := Pow(Pow(x, d), i);
    PowSpaced(x, base, d, i);
    PowSpaced(y, base, d, i);
    MulAssoc(t, Pow(x, base), Pow(y, base));
    MulAssoc(t, Pow(y, base), Pow(x, base));
    MulComm(Pow(x, base), Pow(y, base));
  }

  lemma ZeroNodeSingular(rows: seq<nat>, nodes: Bytes, base: nat, d: nat, c: nat)
    requires |rows| == |nodes| && d > 0 && Spaced(rows, base, d)
    requires c < |nodes| && Pow(nodes[c], base) == 0
    ensures !NonSingular(CodeMatrix(rows, nodes))
  {
    hide Mul, Pow, NonSingular, Spaced;
    forall r: nat | r < |rows| ensures Pow(nodes[c], rows[r]) == 0 {
      var i := SpacedOnly(rows, base, d, r);
      PowSpaced(nodes[c], base, d, i);
      MulZero(Pow(Pow(nodes[c], d), i));
    }
    ZeroColumnSingular(CodeMatrix(rows, nodes), c);
  }

  lemma SharedPowerSingular(rows: seq<nat>, nodes: Bytes, base: nat, d: nat, c: nat, c': nat)
    requires |rows| == |nodes| && d > 0 && Spaced(rows, base, d)
    requires c < c' < |nodes| && Pow(nodes[c], d) == Pow(nodes[c'], d)
    ensures !NonSingular(CodeMatrix(rows, nodes))
  {
    hide Mul, Pow, NonSingular, Spaced;
    var x, y := nodes[c], nodes[c'];
    if Pow(x, base) == 0 {
      ZeroNodeSingular(rows, nodes, base, d, c);
    } else {
      forall r: nat | r < |rows| ensures Mul(Pow(x, rows[r]), Pow(y, base)) == Mul(Pow(y, rows[r]), Pow(x, base)) {
        var i := SpacedOnly(rows, base, d, r);
        CrossPowers(x, y, base, d, i);
      }
      ProportionalSingular(CodeMatrix(rows, nodes), c, c', Pow(x, base), Pow(y, base));
    }
  }

  /** Rows that lie d apart, in any order, are invertible exactly when the d-th powers of the nodes are all
      different, and, unless row 0 is among them, no node is zero. */
  lemma SpacedExact(rows: seq<nat>, nodes: Bytes, base: nat, d: nat)
    requires |rows| == |nodes| && d > 0 && Spaced(rows, base, d)
    ensures NonSingular(CodeMatrix(rows, nodes)) <==> Distinct(PowRow(nodes, d)) && (base == 0 || 0 !in nodes)
  {
    hide Pow, NonSingular, Spaced;
    if base > 0 && 0 in nodes {
      var c: nat :| c < |nodes| && nodes[c] == 0;
      PowZeroExact(0, base);
      ZeroNodeSingular(rows, nodes, base, d, c);
    } else if !Distinct(PowRow(nodes, d)) {
      var c: nat, c': nat :| c < c' < |nodes| && PowRow(nodes, d)[c] == PowRow(nodes, d)[c'];
      SharedPowerSingular(rows, nodes, base, d, c, c');
    } else {
      SpacedNonSingular(rows, nodes, base, d);
    }
  }

  /** The rows are the m consecutive ones starting at `base`, in some order. */
  ghost predicate Consecutive(rows: seq<nat>, base: nat) {
    forall p: nat | base <= p < base + |rows| :: p in rows
  }

  lemma {:induction false} RowNoNext(base: nat, i: nat)
    ensures RowNo(base, 1, i) == base + i
  {
    if i > 0 { RowNoNext(base, i - 1); }
  }

  lemma FirstPowers(nodes: Bytes)
    ensures PowRow(nodes, 1) == nodes
  {
    hide Mul;
    forall c: nat | c < |nodes| ensures Pow(nodes[c], 1) == nodes[c] {
      MulOne(nodes[c]);
      assert Pow(nodes[c], 0) == 1;
    }
  }

  /** Consecutive rows, in any order, are invertible exactly when the nodes are all different and, unless they
      start at row 0, none is zero. */
  lemma ConsecutiveNonSingular(rows: seq<nat>, nodes: Bytes, base: nat)
    requires |rows| == |nodes| && Consecutive(rows, base)
    ensures NonSingular(CodeMatrix(rows, nodes)) <==> Distinct(nodes) && (base == 0 || 0 !in nodes)
  {
    hide Pow, NonSingular;
    forall i: nat | i < |rows| ensures RowNo(base, 1, i) in rows {
      RowNoNext(base, i);
    }
    FirstPowers(nodes);
    SpacedExact(rows, nodes, base, 1);
  }

  /** Two equal nodes are fatal whatever the rows are. */
  lemma SharedNodeSingular(rows: seq<nat>, nodes: Bytes, c: nat, c': nat)
    requires |rows| == |nodes| && c < c' < |nodes| && nodes[c] == nodes[c']
    ensures !NonSingular(CodeMatrix(rows, nodes))
  {
    hide Mul, Pow, NonSingular;
    ProportionalSingular(CodeMatrix(rows, nodes), c, c', 1, 1);
  }

  // ---------- Two losses ----------

  /** Any two different rows lie apart by their difference. */
  lemma TwoRowsExact(p: nat, q: nat, x: Byte, y: Byte)
    requires p != q
    ensures var (base, d) := if p < q then (p, q - p) else (q, p - q);
            NonSingular(CodeMatrix([p, q], [x, y])) <==> Pow(x, d) != Pow(y, d) && (base == 0 || (x != 0 && y != 0))
  {
    hide Mul, Pow, NonSingular, CodeMatrix;
    var (base, d) := if p < q then (p, q - p) else (q, p - q);
    var rows, nodes := [p, q], [x, y];
    assert p == rows[0] && q == rows[1];
    assert RowNo(base, d, 0) == base && RowNo(base, d, 1) == base + d;
    assert nodes[0] == x && nodes[1] == y;
    SpacedExact(rows, nodes, base, d);
  }

  lemma EqualRowsSingular(p: nat, x: Byte, y: Byte)
    requires x != 0
    ensures !NonSingular(CodeMatrix([p, p], [x, y]))
  {
    hide Mul, Pow, NonSingular;
    MulComm(Pow(x, p), Pow(y, p));
    PowNonZero(x, p);
    ProportionalSingular(CodeMatrix([p, p], [x, y]), 0, 1, Pow(x, p), Pow(y, p));
  }

  lemma SameRemainder(a: nat, b: nat, c: nat)
    ensures (a + b) % 255 == (a + c) % 255 <==> b % 255 == c % 255
  {
  }

  lemma CrossedProducts(p: nat, d: nat, i: nat, j: nat)
    ensures (i * p + j * (p + d)) % 255 == (j * p + i * (p + d)) % 255 <==> (i * d) % 255 == (j * d) % 255
  {
    assert i * p + j * (p + d) == (i * p + j * p) + j * d;
    assert j * p + i * (p + d) == (i * p + j * p) + i * d;
    SameRemainder(i * p + j * p, j * d, i * d);
  }

  /** With two losses, rows p and q recover the columns with logarithms i and j exactly when
      (i - j)(q - p) is not a multiple of 255. */
  lemma TwoLossesExact(p: nat, q: nat, i: nat, j: nat)
    ensures NonSingular(CodeMatrix([p, q], [Exp(i), Exp(j)])) <==> (i * p + j * q) % 255 != (j * p + i * q) % 255
  {
    hide Mul, Exp, Pow, NonSingular, CodeMatrix;
    ExpNonZero(i);
    ExpNonZero(j);
    if p == q {
      EqualRowsSingular(p, Exp(i), Exp(j));
    } else {
      var (base, d) := if p < q then (p, q - p) else (q, p - q);
      TwoRowsExact(p, q, Exp(i), Exp(j));
      PowExp(i, d);
      PowExp(j, d);
      ExpEqual(i * d, j * d);
      CrossedProducts(base, d, i, j);
    }
  }

  /** Rows 0 and 3 do not recover fragments 0 and 213 (nodes 1 and 214): any two parities do not
      recover any two losses. */
  lemma RowsZeroAndThreeFail()
    ensures Exp(0) == 1 && Exp(85) == 214
    ensures !NonSingular(CodeMatrix([0, 3], [1, 214]))
  {
    hide *;
    ExpZero();
    ExpOrder();
    TwoLossesExact(0, 3, 0, 85);
  }
}
