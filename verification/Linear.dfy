/** Linear systems over GF(2^8): what a row operation keeps, and when a system has one solution. */
module Linear {
  import opened Galois

  type Matrix = seq<Bytes>

  /** The sum of the first `n` products of `u` and `v`. */
  function Dot(u: Bytes, v: Bytes, n: nat): Byte
    requires n <= |u| && n <= |v|
  {
    if n == 0 then 0 else Add(Dot(u, v, n - 1), Mul(u[n - 1], v[n - 1]))
  }

  ghost predicate Square(a: Matrix, m: nat) {
    |a| == m && forall r: nat | r < m :: |a[r]| == m
  }

  /** `x` solves `a x = s`. */
  ghost predicate Solves(a: Matrix, s: Bytes, x: Bytes) {
    && |s| == |a| == |x|
    && Square(a, |x|)
    && forall r: nat | r < |a| :: Dot(a[r], x, |x|) == s[r]
  }

  function Zeros(n: nat): (z: Bytes)
    ensures |z| == n && forall i: nat | i < n :: z[i] == 0
  {
    seq(n, _ => 0)
  }

  /** Only the zero vector is mapped to zero. */
  ghost predicate NonSingular(a: Matrix) {
    forall x: Bytes | |x| == |a| && Solves(a, Zeros(|a|), x) :: x == Zeros(|a|)
  }

  // ---------- Dot products ----------

  lemma DotStarts()
    ensures forall u: Bytes, v: Bytes :: Dot(u, v, 0) == 0
  {}

  lemma DotNext(u: Bytes, v: Bytes, n: nat)
    requires n < |u| && n < |v|
    ensures Dot(u, v, n + 1) == Add(Dot(u, v, n), Mul(u[n], v[n]))
  {
    hide Add, Mul;
  }

  lemma {:induction false} DotCong(u: Bytes, u': Bytes, v: Bytes, v': Bytes, n: nat)
    requires n <= |u| && n <= |v| && n <= |u'| && n <= |v'|
    requires forall i: nat | i < n :: u[i] == u'[i] && v[i] == v'[i]
    ensures Dot(u, v, n) == Dot(u', v', n)
  {
    hide Add, Mul;
    if n == 0 {
    } else {
      DotCong(u, u', v, v', n - 1);
    }
  }

  lemma {:induction false} DotScale(c: Byte, u: Bytes, w: Bytes, v: Bytes, n: nat)
    requires n <= |u| && n <= |v| && n <= |w|
    requires forall i: nat | i < n :: w[i] == Mul(c, u[i])
    ensures Dot(w, v, n) == Mul(c, Dot(u, v, n))
  {
    hide Add, Mul;
    MulZero(c);
    if n == 0 {
    } else {
      DotScale(c, u, w, v, n - 1);
      MulAssoc(c, u[n - 1], v[n - 1]);
      MulAddRight(c, Dot(u, v, n - 1), Mul(u[n - 1], v[n - 1]));
    }
  }

  lemma {:induction false} DotAdd(u: Bytes, u': Bytes, w: Bytes, v: Bytes, n: nat)
    requires n <= |u| && n <= |v| && n <= |u'| && n <= |w|
    requires forall i: nat | i < n :: w[i] == Add(u[i], u'[i])
    ensures Dot(w, v, n) == Add(Dot(u, v, n), Dot(u', v, n))
  {
    hide Add, Mul;
    AddZero(0);
    if n == 0 {
    } else {
      DotAdd(u, u', w, v, n - 1);
      MulAddLeft(u[n - 1], u'[n - 1], v[n - 1]);
      AddSwap(Dot(u, v, n - 1), Dot(u', v, n - 1), Mul(u[n - 1], v[n - 1]), Mul(u'[n - 1], v[n - 1]));
    }
  }

  lemma DotAddScaled(u: Bytes, f: Byte, p: Bytes, w: Bytes, v: Bytes, n: nat)
    requires n <= |u| && n <= |v| && n <= |p| && n <= |w|
    requires forall i: nat | i < n :: w[i] == Add(u[i], Mul(f, p[i]))
    ensures Dot(w, v, n) == Add(Dot(u, v, n), Mul(f, Dot(p, v, n)))
  {
    hide Add, Mul;
    var q := seq(n, i requires 0 <= i < n => Mul(f, p[i]));
    DotScale(f, p, q, v, n);
    DotAdd(u, q, w, v, n);
  }

  /** A row whose only non-zero entry is a one selects a coordinate. */
  lemma {:induction false} DotUnit(u: Bytes, v: Bytes, c: nat, n: nat)
    requires n <= |u| && n <= |v|
    requires forall i: nat | i < n :: u[i] == if i == c then 1 else 0
    ensures Dot(u, v, n) == if c < n then v[c] else 0
  {
    hide Add, Mul;
    if n == 0 {
    } else {
      DotUnit(u, v, c, n - 1);
      MulOne(v[n - 1]);
      MulZero(v[n - 1]);
      AddZero(v[n - 1]);
      AddZero(Dot(u, v, n - 1));
    }
  }

  /** Two coordinates that cancel, and nothing else. */
  lemma {:induction false} DotOfZeros(u: Bytes, v: Bytes, n: nat)
    requires n <= |u| && n <= |v|
    requires forall i: nat | i < n :: u[i] == 0 || v[i] == 0
    ensures Dot(u, v, n) == 0
  {
    hide Add, Mul;
    if n == 0 {
    } else {
      DotOfZeros(u, v, n - 1);
      MulZero(u[n - 1]);
      MulZero(v[n - 1]);
      AddZero(0);
    }
  }

  lemma {:induction false} DotZeroRight(u: Bytes, v: Bytes, n: nat)
    requires n <= |u| && n <= |v|
    requires forall i: nat | i < n :: v[i] == 0
    ensures Dot(u, v, n) == 0
  {
    hide Add, Mul;
    DotOfZeros(u, v, n);
  }

  // ---------- Row operations keep the solutions ----------

  /** Swapping two equations keeps every solution. */
  lemma SwapKeeps(a: Matrix, s: Bytes, i: nat, j: nat, x: Bytes)
    requires i < |a| == |s| && j < |a|
    ensures Solves(a, s, x) <==> Solves(a[i := a[j]][j := a[i]], s[i := s[j]][j := s[i]], x)
  {
    hide Dot;
    var b, t := a[i := a[j]][j := a[i]], s[i := s[j]][j := s[i]];
    assert b[i := b[j]][j := b[i]] == a && t[i := t[j]][j := t[i]] == s;
    if Solves(a, s, x) {
      SwapOneWay(a, s, i, j, x);
    }
    if Solves(b, t, x) {
      SwapOneWay(b, t, i, j, x);
    }
  }

  lemma SwapOneWay(a: Matrix, s: Bytes, i: nat, j: nat, x: Bytes)
    requires i < |a| == |s| && j < |a| && Solves(a, s, x)
    ensures Solves(a[i := a[j]][j := a[i]], s[i := s[j]][j := s[i]], x)
  {
    hide Dot;
  }

  /** Multiplying an equation by a non-zero factor keeps every solution. */
  lemma ScaleKeeps(a: Matrix, s: Bytes, r: nat, c: Byte, row: Bytes, b: Byte, x: Bytes)
    requires r < |a| == |s| == |x| && Square(a, |x|) && |row| == |x| && c != 0
    requires forall i: nat | i < |x| :: row[i] == Mul(c, a[r][i])
    requires b == Mul(c, s[r])
    ensures Solves(a, s, x) <==> Solves(a[r := row], s[r := b], x)
  {
    hide Add, Mul, Dot;
    DotScale(c, a[r], row, x, |x|);
    if Solves(a[r := row], s[r := b], x) {
      assert a[r := row][r] == row;
      MulCancel(c, Dot(a[r], x, |x|), s[r]);
      forall i: nat | i < |a| ensures Dot(a[i], x, |x|) == s[i] {
        if i != r { assert a[r := row][i] == a[i]; }
      }
    }
  }

  /** Adding a multiple of one equation to another keeps every solution. */
  lemma AddKeeps(a: Matrix, s: Bytes, r: nat, p: nat, f: Byte, row: Bytes, b: Byte, x: Bytes)
    requires r < |a| == |s| == |x| && p < |a| && p != r && Square(a, |x|) && |row| == |x|
    requires forall i: nat | i < |x| :: row[i] == Add(a[r][i], Mul(f, a[p][i]))
    requires b == Add(s[r], Mul(f, s[p]))
    ensures Solves(a, s, x) <==> Solves(a[r := row], s[r := b], x)
  {
    hide Add, Mul, Dot;
    DotAddScaled(a[r], f, a[p], row, x, |x|);
    if Solves(a[r := row], s[r := b], x) {
      assert a[r := row][r] == row && a[r := row][p] == a[p];
      AddCancel(Dot(a[r], x, |x|), Mul(f, s[p]));
      AddCancel(s[r], Mul(f, s[p]));
      forall i: nat | i < |a| ensures Dot(a[i], x, |x|) == s[i] {
        if i != r { assert a[r := row][i] == a[i]; }
      }
    }
  }

  // ---------- The two ways elimination ends ----------

  ghost predicate UnitColumns(a: Matrix, cols: nat) {
    && Square(a, |a|) && cols <= |a|
    && forall r: nat, j: nat | r < |a| && j < cols :: a[r][j] == if r == j then 1 else 0
  }

  /** The identity system is solved by its right-hand side and by nothing else. */
  lemma IdentitySolves(a: Matrix, s: Bytes, x: Bytes)
    requires UnitColumns(a, |a|) && |s| == |a| == |x|
    ensures Solves(a, s, x) <==> x == s
  {
    hide Add, Mul, Dot;
    forall r: nat | r < |a| ensures Dot(a[r], x, |x|) == x[r] {
      DotUnit(a[r], x, r, |x|);
    }
  }

  /** A column without a pivot gives a non-zero vector that the matrix maps to zero. */
  lemma NoPivotSingular(a: Matrix, col: nat)
    requires UnitColumns(a, col) && col < |a|
    requires forall r: nat | col <= r < |a| :: a[r][col] == 0
    ensures exists x: Bytes :: |x| == |a| && x != Zeros(|a|) && Solves(a, Zeros(|a|), x)
  {
    hide Add, Mul, Dot;
    var x: Bytes := seq(|a|, i requires 0 <= i < |a| => if i < col then a[i][col] else if i == col then 1 else 0);
    assert x[col] == 1;
    forall r: nat | r < |a| ensures Dot(a[r], x, |x|) == 0 {
      NoPivotRow(a, col, r, x, |x|);
    }
  }

  lemma {:induction false} NoPivotRow(a: Matrix, col: nat, r: nat, x: Bytes, n: nat)
    requires UnitColumns(a, col) && col < |a| == |x| && r < |a| && n <= |a|
    requires forall i: nat | i < |a| :: x[i] == if i < col then a[i][col] else if i == col then 1 else 0
    requires forall q: nat | col <= q < |a| :: a[q][col] == 0
    ensures Dot(a[r], x, n) == if r < n <= col then a[r][col] else 0
  {
    hide Add, Mul;
    if n == 0 {
    } else {
      NoPivotRow(a, col, r, x, n - 1);
      MulOne(a[r][col]);
      MulOne(x[n - 1]);
      MulZero(x[n - 1]);
      MulZero(a[r][n - 1]);
      AddZero(0);
      AddZero(a[r][col]);
      AddSelf(a[r][col]);
    }
  }
}
