/** In-place Gauss-Jordan elimination over GF(2^8), as the decoder runs it: the coefficient rows and
    the syndrome rows are updated together, and exchanging rows exchanges handles. */
module Elimination {
  import opened Galois
  import opened FieldTables
  import opened Linear
  import opened ReedSolomon

  /** The bytes held by a list of row buffers. */
  ghost function Contents(rows: seq<array<Byte>>): (m: Matrix)
    reads rows
    ensures |m| == |rows| && forall i: nat | i < |rows| :: m[i] == rows[i][..]
  {
    seq(|rows|, i requires 0 <= i < |rows| reads rows => rows[i][..])
  }

  function ColumnOf(s: Matrix, k: nat): (c: Bytes)
    requires forall r: nat | r < |s| :: k < |s[r]|
    ensures |c| == |s| && forall r: nat | r < |s| :: c[r] == s[r][k]
  {
    seq(|s|, r requires 0 <= r < |s| => s[r][k])
  }

  ghost predicate Shape(a: Matrix, s: Matrix, width: nat) {
    |a| == |s| && Square(a, |a|) && forall r: nat | r < |s| :: |s[r]| == width
  }

  /** The two systems have the same solutions at every byte position, and the same null vectors. */
  ghost predicate SameSolutions(a: Matrix, s: Matrix, a': Matrix, s': Matrix, width: nat) {
    && Shape(a, s, width) && Shape(a', s', width) && |a| == |a'|
    && (forall x: Bytes, k: nat | k < width :: Solves(a, ColumnOf(s, k), x) <==> Solves(a', ColumnOf(s', k), x))
    && (forall x: Bytes :: Solves(a, Zeros(|a|), x) <==> Solves(a', Zeros(|a|), x))
  }

  lemma SameRefl(a: Matrix, s: Matrix, width: nat)
    requires Shape(a, s, width)
    ensures SameSolutions(a, s, a, s, width)
  {}

  lemma SameTrans(a: Matrix, s: Matrix, b: Matrix, t: Matrix, c: Matrix, u: Matrix, width: nat)
    requires SameSolutions(a, s, b, t, width) && SameSolutions(b, t, c, u, width)
    ensures SameSolutions(a, s, c, u, width)
  {
    hide Solves, ColumnOf, Zeros;
  }

  lemma SwapStep(a: Matrix, s: Matrix, i: nat, j: nat, width: nat)
    requires Shape(a, s, width) && i < |a| && j < |a|
    ensures SameSolutions(a, s, a[i := a[j]][j := a[i]], s[i := s[j]][j := s[i]], width)
  {
    hide Solves;
    var b, t := a[i := a[j]][j := a[i]], s[i := s[j]][j := s[i]];
    forall x: Bytes, k: nat | k < width ensures Solves(a, ColumnOf(s, k), x) <==> Solves(b, ColumnOf(t, k), x) {
      var c := ColumnOf(s, k);
      SwapKeeps(a, c, i, j, x);
      assert ColumnOf(t, k) == c[i := c[j]][j := c[i]];
    }
    forall x: Bytes ensures Solves(a, Zeros(|a|), x) <==> Solves(b, Zeros(|a|), x) {
      var z := Zeros(|a|);
      SwapKeeps(a, z, i, j, x);
      assert z == z[i := z[j]][j := z[i]];
    }
  }

  lemma SolvesShape(a: Matrix, s: Bytes, x: Bytes)
    ensures Solves(a, s, x) ==> |x| == |a|
  {
    hide Dot;
  }

  lemma ScaleStep(a: Matrix, s: Matrix, r: nat, c: Byte, row: Bytes, srow: Bytes, width: nat)
    requires Shape(a, s, width) && r < |a| && |row| == |a| && |srow| == width && c != 0
    requires forall i: nat | i < |a| :: row[i] == Mul(c, a[r][i])
    requires forall k: nat | k < width :: srow[k] == Mul(c, s[r][k])
    ensures SameSolutions(a, s, a[r := row], s[r := srow], width)
  {
    hide Solves, Mul, Add;
    var b, t := a[r := row], s[r := srow];
    forall x: Bytes, k: nat | k < width ensures Solves(a, ColumnOf(s, k), x) <==> Solves(b, ColumnOf(t, k), x) {
      SolvesShape(a, ColumnOf(s, k), x);
      SolvesShape(b, ColumnOf(t, k), x);
      assert ColumnOf(t, k) == ColumnOf(s, k)[r := srow[k]];
      if |x| == |a| {
        ScaleKeeps(a, ColumnOf(s, k), r, c, row, srow[k], x);
      }
    }
    forall x: Bytes ensures Solves(a, Zeros(|a|), x) <==> Solves(b, Zeros(|a|), x) {
      SolvesShape(a, Zeros(|a|), x);
      SolvesShape(b, Zeros(|a|), x);
      assert Zeros(|a|)[r := 0] == Zeros(|a|);
      MulZero(c);
      if |x| == |a| {
        ScaleKeeps(a, Zeros(|a|), r, c, row, 0, x);
      }
    }
  }

  lemma AddStep(a: Matrix, s: Matrix, r: nat, p: nat, f: Byte, row: Bytes, srow: Bytes, width: nat)
    requires Shape(a, s, width) && r < |a| && p < |a| && r != p && |row| == |a| && |srow| == width
    requires forall i: nat | i < |a| :: row[i] == Add(a[r][i], Mul(f, a[p][i]))
    requires forall k: nat | k < width :: srow[k] == Add(s[r][k], Mul(f, s[p][k]))
    ensures SameSolutions(a, s, a[r := row], s[r := srow], width)
  {
    hide Solves, Mul, Add;
    var b, t := a[r := row], s[r := srow];
    forall x: Bytes, k: nat | k < width ensures Solves(a, ColumnOf(s, k), x) <==> Solves(b, ColumnOf(t, k), x) {
      SolvesShape(a, ColumnOf(s, k), x);
      SolvesShape(b, ColumnOf(t, k), x);
      assert ColumnOf(t, k) == ColumnOf(s, k)[r := srow[k]];
      if |x| == |a| {
        AddKeeps(a, ColumnOf(s, k), r, p, f, row, srow[k], x);
      }
    }
    forall x: Bytes ensures Solves(a, Zeros(|a|), x) <==> Solves(b, Zeros(|a|), x) {
      SolvesShape(a, Zeros(|a|), x);
      SolvesShape(b, Zeros(|a|), x);
      assert Zeros(|a|)[r := 0] == Zeros(|a|);
      MulZero(f);
      AddZero(0);
      if |x| == |a| {
        AddKeeps(a, Zeros(|a|), r, p, f, row, 0, x);
      }
    }
  }

  // ---------- Row loops ----------

  /** row[j] *= c from column `from` on. */
  method ScaleRow(gf: GfTables, row: array<Byte>, from: nat, c: Byte)
    requires gf.Valid() && from <= row.Length
    modifies row
    ensures forall j: nat | j < row.Length :: row[j] == if j < from then old(row[j]) else Mul(c, old(row[j]))
  {
    hide Mul;
    for j := from to row.Length
      invariant forall k: nat | k < row.Length ::
                  row[k] == if from <= k < j then Mul(c, old(row[k])) else old(row[k])
    {
      MulComm(c, row[j]);
      row[j] := gf.GfMul(row[j], c);
    }
  }

  /** row[j] += f * pivot[j] from column `from` on. */
  method EliminateRow(gf: GfTables, row: array<Byte>, pivot: array<Byte>, from: nat, f: Byte)
    requires gf.Valid() && row != pivot && row.Length == pivot.Length && from <= row.Length
    modifies row
    ensures forall j: nat | j < row.Length ::
              row[j] == if j < from then old(row[j]) else Add(old(row[j]), Mul(f, pivot[j]))
  {
    hide Mul, Add;
    for j := from to row.Length
      invariant forall k: nat | k < row.Length ::
                  row[k] == if from <= k < j then Add(old(row[k]), Mul(f, pivot[k])) else old(row[k])
    {
      row[j] := Add(row[j], gf.GfMul(f, pivot[j]));
    }
  }

  /** The first row from `col` on with a non-zero entry in column `col`, or the number of rows. */
  method FindPivot(a: seq<array<Byte>>, col: nat) returns (pivot: nat)
    requires col < |a| && forall r: nat | r < |a| :: a[r].Length == |a|
    ensures col <= pivot <= |a|
    ensures pivot < |a| ==> a[pivot][col] != 0
    ensures pivot == |a| ==> forall r: nat | col <= r < |a| :: a[r][col] == 0
  {
    pivot := col;
    while pivot < |a| && a[pivot][col] == 0
      invariant col <= pivot <= |a|
      invariant forall r: nat | col <= r < pivot :: a[r][col] == 0
    {
      pivot := pivot + 1;
    }
  }

  ghost predicate Buffers(a: seq<array<Byte>>, syn: seq<array<Byte>>, width: nat) {
    && Separate(a + syn) && |a| == |syn|
    && (forall r: nat | r < |a| :: a[r].Length == |a| && syn[r].Length == width)
  }

  lemma BuffersDisjoint(a: seq<array<Byte>>, syn: seq<array<Byte>>, width: nat)
    requires Buffers(a, syn, width)
    ensures forall i: nat, j: nat | i < |a| && j < |a| ::
              a[i] != syn[j] && (i != j ==> a[i] != a[j] && syn[i] != syn[j])
  {
    forall i: nat, j: nat | i < |a| && j < |a| ensures a[i] != syn[j] {
      assert (a + syn)[i] == a[i] && (a + syn)[|a| + j] == syn[j];
    }
    forall i: nat, j: nat | i < |a| && j < |a| && i != j ensures a[i] != a[j] && syn[i] != syn[j] {
      assert (a + syn)[i] == a[i] && (a + syn)[j] == a[j];
      assert (a + syn)[|a| + i] == syn[i] && (a + syn)[|a| + j] == syn[j];
    }
  }

  /** Divide the pivot row by the pivot. */
  method Normalize(gf: GfTables, a: seq<array<Byte>>, syn: seq<array<Byte>>, col: nat, width: nat)
    requires gf.Valid() && Buffers(a, syn, width) && col < |a|
    requires UnitColumns(Contents(a), col) && a[col][col] != 0
    modifies a[col], syn[col]
    ensures SameSolutions(old(Contents(a)), old(Contents(syn)), Contents(a), Contents(syn), width)
    ensures UnitColumns(Contents(a), col) && a[col][col] == 1
  {
    hide Add, Mul, Exp, Solves, SameSolutions, UnitColumns, Shape;
    BuffersDisjoint(a, syn, width);
    BuffersShape(a, syn, width);
    ghost var am, sm := Contents(a), Contents(syn);
    UnitSquare(am, col);
    var inv := gf.GfInv(a[col][col]);
    MulZero(inv);
    MulComm(a[col][col], inv);
    MulZero(a[col][col]);
    ScaleRow(gf, a[col], col, inv);
    ScaleRow(gf, syn[col], 0, inv);
    assert Contents(a) == am[col := a[col][..]];
    assert Contents(syn) == sm[col := syn[col][..]];
    UnitRowKept(am, col, inv, a[col][..]);
    ScaleStep(am, sm, col, inv, a[col][..], syn[col][..], width);
  }

  /** Before the pivot the row is zero, and stays so. */
  lemma UnitRowKept(m: Matrix, col: nat, c: Byte, row: Bytes)
    requires UnitColumns(m, col) && col < |m| && |row| == |m|
    requires forall j: nat | j < |m| :: row[j] == if j < col then m[col][j] else Mul(c, m[col][j])
    ensures UnitColumns(m[col := row], col)
    ensures forall j: nat | j < |m| :: row[j] == Mul(c, m[col][j])
  {
    hide Mul;
    MulZero(c);
  }

  /** Exchanging two row handles, both before and after it the columns before `col` being unit columns. */
  lemma SwapRows(a: seq<array<Byte>>, syn: seq<array<Byte>>, col: nat, pivot: nat, width: nat)
    requires Buffers(a, syn, width) && col <= pivot < |a| && UnitColumns(Contents(a), col)
    ensures var b, t := a[col := a[pivot]][pivot := a[col]], syn[col := syn[pivot]][pivot := syn[col]];
            && Buffers(b, t, width) && UnitColumns(Contents(b), col)
            && SameSolutions(Contents(a), Contents(syn), Contents(b), Contents(t), width)
  {
    hide Solves, SameSolutions;
    SwapBuffers(a, syn, col, pivot, width);
    var b, t := a[col := a[pivot]][pivot := a[col]], syn[col := syn[pivot]][pivot := syn[col]];
    SwapStep(Contents(a), Contents(syn), col, pivot, width);
    assert Contents(b) == Contents(a)[col := Contents(a)[pivot]][pivot := Contents(a)[col]];
    assert Contents(t) == Contents(syn)[col := Contents(syn)[pivot]][pivot := Contents(syn)[col]];
  }

  lemma SwapBuffers(a: seq<array<Byte>>, syn: seq<array<Byte>>, i: nat, j: nat, width: nat)
    requires Buffers(a, syn, width) && i < |a| && j < |a|
    ensures Buffers(a[i := a[j]][j := a[i]], syn[i := syn[j]][j := syn[i]], width)
  {
    BuffersDisjoint(a, syn, width);
  }

  /** Clear column `col` in every other row. */
  method ClearColumn(gf: GfTables, a: seq<array<Byte>>, syn: seq<array<Byte>>, col: nat, width: nat)
    requires gf.Valid() && Buffers(a, syn, width) && col < |a|
    requires UnitColumns(Contents(a), col) && a[col][col] == 1
    modifies a, syn
    ensures SameSolutions(old(Contents(a)), old(Contents(syn)), Contents(a), Contents(syn), width)
    ensures UnitColumns(Contents(a), col + 1)
  {
    hide Add, Mul, Exp, Solves, SameSolutions, UnitColumns, Shape, Separate, Cleared, Square;
    BuffersShape(a, syn, width);
    SameRefl(Contents(a), Contents(syn), width);
    NothingCleared(Contents(a), col);
    for r := 0 to |a|
      invariant SameSolutions(old(Contents(a)), old(Contents(syn)), Contents(a), Contents(syn), width)
      invariant UnitColumns(Contents(a), col) && Cleared(Contents(a), col, r)
    {
      ClearRow(gf, a, syn, col, r, width, old(Contents(a)), old(Contents(syn)));
    }
    AllCleared(Contents(a), col);
  }

  lemma BuffersShape(a: seq<array<Byte>>, syn: seq<array<Byte>>, width: nat)
    requires Buffers(a, syn, width)
    ensures Shape(Contents(a), Contents(syn), width)
  {}

  /** Column `col` holds a one in row `col` and zeros in the other rows before r. */
  ghost predicate Cleared(m: Matrix, col: nat, r: nat) {
    && Square(m, |m|) && col < |m| && m[col][col] == 1
    && forall q: nat | q < r && q < |m| && q != col :: m[q][col] == 0
  }

  lemma NothingCleared(m: Matrix, col: nat)
    requires UnitColumns(m, col) && col < |m| && m[col][col] == 1
    ensures Cleared(m, col, 0)
  {}

  lemma AllCleared(m: Matrix, col: nat)
    requires UnitColumns(m, col) && Cleared(m, col, |m|)
    ensures UnitColumns(m, col + 1)
  {}

  method ClearRow(gf: GfTables, a: seq<array<Byte>>, syn: seq<array<Byte>>, col: nat, r: nat, width: nat,
                  ghost a0: Matrix, ghost s0: Matrix)
    requires gf.Valid() && Buffers(a, syn, width) && col < |a| && r < |a|
    requires SameSolutions(a0, s0, Contents(a), Contents(syn), width)
    requires UnitColumns(Contents(a), col) && Cleared(Contents(a), col, r)
    modifies a[r], syn[r]
    ensures SameSolutions(a0, s0, Contents(a), Contents(syn), width)
    ensures UnitColumns(Contents(a), col) && Cleared(Contents(a), col, r + 1)
  {
    hide Add, Mul, Exp, Solves, SameSolutions, UnitColumns, Shape, Separate, Cleared;
    ghost var am, sm := Contents(a), Contents(syn);
    ClearedOne(am, col, r);
    if r != col && a[r][col] != 0 {
      ClearEntry(gf, a, syn, col, r, a[r][col], width);
      SameTrans(a0, s0, am, sm, Contents(a), Contents(syn), width);
      UnitSquare(Contents(a), col);
      ClearedNext(am, Contents(a), col, r);
    } else {
      UnitSquare(Contents(a), col);
      ClearedNext(am, am, col, r);
    }
  }

  lemma ClearedOne(m: Matrix, col: nat, r: nat)
    requires Cleared(m, col, r)
    ensures Square(m, |m|) && col < |m| && m[col][col] == 1
  {}

  lemma UnitSquare(m: Matrix, col: nat)
    requires UnitColumns(m, col)
    ensures Square(m, |m|)
  {}

  lemma ClearedNext(before: Matrix, after: Matrix, col: nat, r: nat)
    requires Cleared(before, col, r) && r < |before| == |after| && Square(after, |after|)
    requires forall q: nat | q < |after| && q != r :: after[q] == before[q]
    requires r == col ==> after[r] == before[r]
    requires r != col ==> after[r][col] == 0
    ensures Cleared(after, col, r + 1)
  {}

  method ClearEntry(gf: GfTables, a: seq<array<Byte>>, syn: seq<array<Byte>>, col: nat, r: nat, f: Byte, width: nat)
    requires gf.Valid() && Buffers(a, syn, width) && col < |a| && r < |a| && r != col
    requires UnitColumns(Contents(a), col) && a[col][col] == 1 && f == a[r][col]
    modifies a[r], syn[r]
    ensures SameSolutions(old(Contents(a)), old(Contents(syn)), Contents(a), Contents(syn), width)
    ensures UnitColumns(Contents(a), col) && a[r][col] == 0
    ensures forall q: nat | q < |a| && q != r :: Contents(a)[q] == old(Contents(a))[q]
  {
    hide Add, Mul, Exp, Solves, SameSolutions;
    BuffersDisjoint(a, syn, width);
    ghost var am, sm := Contents(a), Contents(syn);
    EliminateRow(gf, a[r], a[col], col, f);
    GfMulAdd(gf, syn[r], syn[col][..], f, width);
    MulZero(f);
    MulOne(f);
    AddSelf(f);
    forall j: nat | j < col ensures Add(am[r][j], Mul(f, am[col][j])) == am[r][j] {
      AddZero(am[r][j]);
    }
    assert Contents(a) == am[r := a[r][..]];
    assert Contents(syn) == sm[r := syn[r][..]];
    AddStep(am, sm, r, col, f, a[r][..], syn[r][..], width);
  }

  /** One column: exchange a pivot row into place, divide it by the pivot, clear the other rows. */
  method ReduceColumn(gf: GfTables, a0: seq<array<Byte>>, syn0: seq<array<Byte>>, col: nat, pivot: nat, width: nat)
    returns (a: seq<array<Byte>>, syn: seq<array<Byte>>)
    requires gf.Valid() && Buffers(a0, syn0, width) && col <= pivot < |a0|
    requires UnitColumns(Contents(a0), col) && a0[pivot][col] != 0
    modifies a0, syn0
    ensures a == a0[col := a0[pivot]][pivot := a0[col]] && syn == syn0[col := syn0[pivot]][pivot := syn0[col]]
    ensures Buffers(a, syn, width) && UnitColumns(Contents(a), col + 1)
    ensures SameSolutions(old(Contents(a0)), old(Contents(syn0)), Contents(a), Contents(syn), width)
  {
    hide Add, Mul, Exp, Solves, SameSolutions, UnitColumns, Shape;
    SwapRows(a0, syn0, col, pivot, width);
    a, syn := a0[col := a0[pivot]][pivot := a0[col]], syn0[col := syn0[pivot]][pivot := syn0[col]];
    ghost var am, sm := Contents(a), Contents(syn);
    Normalize(gf, a, syn, col, width);
    SameTrans(old(Contents(a0)), old(Contents(syn0)), am, sm, Contents(a), Contents(syn), width);
    am, sm := Contents(a), Contents(syn);
    ClearColumn(gf, a, syn, col, width);
    SameTrans(old(Contents(a0)), old(Contents(syn0)), am, sm, Contents(a), Contents(syn), width);
  }

  /** Every byte column of `s` is the one solution of the system with that column of `s0`. */
  ghost predicate OnlySolution(a: Matrix, s0: Matrix, s: Matrix, width: nat) {
    && Shape(a, s0, width) && Shape(a, s, width)
    && forall k: nat, x: Bytes | k < width && |x| == |a| ::
         Solves(a, ColumnOf(s0, k), x) <==> x == ColumnOf(s, k)
  }

  ghost predicate DrawnFrom(rows: seq<array<Byte>>, pool: seq<array<Byte>>) {
    |rows| == |pool| && forall r: nat | r < |rows| :: rows[r] in pool
  }

  /** The whole elimination: it succeeds exactly when the matrix is invertible, and then every byte
      column of the syndromes holds the only solution of the system it started from. */
  method GaussJordan(gf: GfTables, a0: seq<array<Byte>>, syn0: seq<array<Byte>>, width: nat)
    returns (ok: bool, syn: seq<array<Byte>>)
    requires gf.Valid() && Buffers(a0, syn0, width)
    modifies a0, syn0
    ensures DrawnFrom(syn, syn0) && forall r: nat | r < |syn| :: syn[r].Length == width
    ensures ok <==> NonSingular(old(Contents(a0)))
    ensures ok ==> OnlySolution(old(Contents(a0)), old(Contents(syn0)), Contents(syn), width)
  {
    var a := a0;
    syn := syn0;
    assert DrawnFrom(a, a0) && DrawnFrom(syn, syn0);
    hide Add, Mul, Exp, Solves, SameSolutions, UnitColumns, Shape, Separate, DrawnFrom, OnlySolution;
    StartElimination(a0, syn0, width);
    ghost var am0, sm0 := Contents(a0), Contents(syn0);
    for col := 0 to |a0|
      invariant Buffers(a, syn, width) && |a| == |a0|
      invariant DrawnFrom(a, a0) && DrawnFrom(syn, syn0)
      invariant UnitColumns(Contents(a), col)
      invariant SameSolutions(am0, sm0, Contents(a), Contents(syn), width)
    {
      var pivot := FindPivot(a, col);
      if pivot == |a0| {
        NoPivot(am0, sm0, Contents(a), Contents(syn), col, width);
        return false, syn;
      }
      ghost var am, sm := Contents(a), Contents(syn);
      DrawnSubset(a, a0);
      DrawnSubset(syn, syn0);
      DrawnSwap(a, a0, col, pivot);
      DrawnSwap(syn, syn0, col, pivot);
      a, syn := ReduceColumn(gf, a, syn, col, pivot, width);
      SameTrans(am0, sm0, am, sm, Contents(a), Contents(syn), width);
    }
    Finished(am0, sm0, Contents(a), Contents(syn), width);
    ok := true;
  }

  lemma DrawnSubset(rows: seq<array<Byte>>, pool: seq<array<Byte>>)
    requires DrawnFrom(rows, pool)
    ensures forall row :: row in rows ==> row in pool
  {}

  lemma DrawnSwap(rows: seq<array<Byte>>, pool: seq<array<Byte>>, i: nat, j: nat)
    requires DrawnFrom(rows, pool) && i < |rows| && j < |rows|
    ensures DrawnFrom(rows[i := rows[j]][j := rows[i]], pool)
  {}

  lemma StartElimination(a: seq<array<Byte>>, syn: seq<array<Byte>>, width: nat)
    requires Buffers(a, syn, width)
    ensures SameSolutions(Contents(a), Contents(syn), Contents(a), Contents(syn), width)
    ensures UnitColumns(Contents(a), 0)
  {
    SameRefl(Contents(a), Contents(syn), width);
  }

  lemma NoPivot(a0: Matrix, s0: Matrix, a: Matrix, s: Matrix, col: nat, width: nat)
    requires SameSolutions(a0, s0, a, s, width) && UnitColumns(a, col) && col < |a|
    requires forall r: nat | col <= r < |a| :: a[r][col] == 0
    ensures !NonSingular(a0)
  {
    hide Solves;
    NoPivotSingular(a, col);
  }

  lemma Finished(a0: Matrix, s0: Matrix, a: Matrix, s: Matrix, width: nat)
    requires SameSolutions(a0, s0, a, s, width) && UnitColumns(a, |a|)
    ensures NonSingular(a0)
    ensures OnlySolution(a0, s0, s, width)
  {
    hide Solves;
    forall k: nat, x: Bytes | k < width && |x| == |a0|
      ensures Solves(a0, ColumnOf(s0, k), x) <==> x == ColumnOf(s, k)
    {
      IdentitySolves(a, ColumnOf(s, k), x);
    }
    forall x: Bytes | |x| == |a0| && Solves(a0, Zeros(|a0|), x) ensures x == Zeros(|a0|) {
      IdentitySolves(a, Zeros(|a|), x);
    }
  }
}
