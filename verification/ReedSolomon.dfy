/** The erasure code: encoding, and decoding by in-place Gauss-Jordan elimination.

    Rows of the linear system are byte vectors on the heap; exchanging two rows exchanges their
    handles, and scaling or adding rows updates bytes in place. */
module ReedSolomon {
  import opened Common
  import opened Galois
  import opened FieldTables
  import opened Linear
  import opened Vandermonde

  type Fragment = Option<Bytes>
  type Parity = (nat, Bytes)

  // ---------- What the code computes ----------

  function Min(a: nat, b: nat): nat {
    if a < b then a else b
  }

  /** Column j of the code has the node j + 1, cast to a byte. */
  function Node(j: nat): Byte {
    ((j + 1) % 256) as Byte
  }

  function Nodes(js: seq<nat>): (xs: Bytes)
    ensures |xs| == |js| && forall c: nat | c < |js| :: xs[c] == Node(js[c])
  {
    seq(|js|, c requires 0 <= c < |js| => Node(js[c]))
  }

  function FirstNodes(n: nat): (xs: Bytes)
    ensures |xs| == n && forall j: nat | j < n :: xs[j] == Node(j)
  {
    seq(n, j requires 0 <= j < n => Node(j))
  }

  /** Byte k of a fragment that is read as if padded with zeros. */
  function ByteAt(f: Bytes, k: nat): Byte {
    if k < |f| then f[k] else 0
  }

  /** A fragment cut or zero-padded to the common width. */
  function Fit(f: Bytes, width: nat): (r: Bytes)
    ensures |r| == width && forall k: nat | k < width :: r[k] == ByteAt(f, k)
  {
    seq(width, k requires 0 <= k < width => ByteAt(f, k))
  }

  function Column(frags: seq<Bytes>, k: nat): (c: Bytes)
    ensures |c| == |frags| && forall j: nat | j < |frags| :: c[j] == ByteAt(frags[j], k)
  {
    seq(|frags|, j requires 0 <= j < |frags| => ByteAt(frags[j], k))
  }

  /** Parity p: at every byte position the combination of the fragments with coefficients node^p. */
  function ParityOf(frags: seq<Bytes>, p: nat, width: nat): (r: Bytes)
    ensures |r| == width
  {
    seq(width, k requires 0 <= k < width => Dot(PowRow(FirstNodes(|frags|), p), Column(frags, k), |frags|))
  }

  // ---------- Byte loops ----------

  function Coef(gf: GfTables, p: nat, j: nat): (c: Byte)
    requires gf.Valid()
    ensures c == Pow(Node(j), p)
  {
    gf.GfPow(Node(j), p)
  }

  /** dst += c * src over the bytes both have, up to width. */
  method GfMulAdd(gf: GfTables, dst: array<Byte>, src: Bytes, c: Byte, width: nat)
    requires gf.Valid()
    modifies dst
    ensures forall i: nat | i < dst.Length ::
              dst[i] == if i < width then Add(old(dst[i]), Mul(c, ByteAt(src, i))) else old(dst[i])
  {
    hide Add, Mul, Exp;
    forall i: nat | i < dst.Length
      ensures Add(dst[i], Mul(c, 0)) == dst[i] && (c == 0 ==> Add(dst[i], Mul(c, ByteAt(src, i))) == dst[i])
    {
      MulZero(c);
      MulZero(ByteAt(src, i));
      AddZero(dst[i]);
    }
    if c == 0 || |src| == 0 {
      return;
    }
    var n := Min(dst.Length, Min(|src|, width));
    if c == 1 {
      for i := 0 to n
        invariant forall k: nat | k < dst.Length ::
                    dst[k] == if k < i then Add(old(dst[k]), Mul(c, ByteAt(src, k))) else old(dst[k])
      {
        MulOne(src[i]);
        dst[i] := Add(dst[i], src[i]);
      }
      return;
    }
    var lc := gf.log[c as int];
    gf.Lookup(c);
    for i := 0 to n
      invariant forall k: nat | k < dst.Length ::
                  dst[k] == if k < i then Add(old(dst[k]), Mul(c, ByteAt(src, k))) else old(dst[k])
    {
      if src[i] != 0 {
        gf.Lookup(src[i]);
        ExpAdd(lc, gf.log[src[i] as int]);
        dst[i] := Add(dst[i], gf.exp[lc + gf.log[src[i] as int]]);
      }
    }
  }

  ghost predicate Separate(rows: seq<array<Byte>>) {
    forall i: nat, j: nat | i < j < |rows| :: rows[i] != rows[j]
  }

  method ClearRow(row: array<Byte>, width: nat)
    requires width <= row.Length
    modifies row
    ensures forall k: nat | k < width :: row[k] == 0
  {
    for k := 0 to width
      invariant forall i: nat | i < k :: row[i] == 0
    {
      row[k] := 0;
    }
  }

  /** Accumulates parity p of the fragments into a cleared row. */
  method EncodeRow(gf: GfTables, fragments: seq<Bytes>, p: nat, width: nat, row: array<Byte>)
    requires gf.Valid() && width <= row.Length && forall k: nat | k < width :: row[k] == 0
    modifies row
    ensures row[..width] == ParityOf(fragments, p, width)
  {
    DotStarts();
    hide Add, Mul, Dot, Pow;
    var nodes := FirstNodes(|fragments|);
    for j := 0 to |fragments|
      invariant forall k: nat | k < width :: row[k] == Dot(PowRow(nodes, p), Column(fragments, k), j)
    {
      GfMulAdd(gf, row, fragments[j], Coef(gf, p, j), width);
      forall k: nat | k < width ensures row[k] == Dot(PowRow(nodes, p), Column(fragments, k), j + 1) {
        DotNext(PowRow(nodes, p), Column(fragments, k), j);
      }
    }
  }

  /** Encoding into caller-owned buffers: long enough buffers are cleared and reused, the others replaced. */
  method EncodeInto(gf: GfTables, fragments: seq<Bytes>, parityCount: nat, width: nat, buffers: seq<array<Byte>>)
    returns (out: seq<array<Byte>>)
    requires gf.Valid() && Separate(buffers)
    modifies buffers
    ensures Separate(out) && |out| == if parityCount > |buffers| then parityCount else |buffers|
    ensures forall p: nat | p < parityCount ::
              out[p].Length >= width && out[p][..width] == ParityOf(fragments, p, width)
    ensures forall p: nat | parityCount <= p < |buffers| :: out[p] == buffers[p]
  {
    hide *;
    out := buffers;
    assert Separate(out);
    for p := 0 to parityCount
      invariant Separate(out) && |out| == if p > |buffers| then p else |buffers|
      invariant forall i: nat | i < |out| :: out[i] in buffers || fresh(out[i])
      invariant forall i: nat | p <= i < |buffers| :: out[i] == buffers[i]
      invariant forall i: nat | i < p :: out[i].Length >= width && out[i][..width] == ParityOf(fragments, i, width)
    {
      if p >= |out| {
        var row := new Byte[width](_ => 0);
        SeparateAppend(out, row);
        out := out + [row];
      } else if out[p].Length < width {
        var row := new Byte[width](_ => 0);
        SeparateUpdate(out, p, row);
        out := out[p := row];
      } else {
        ClearRow(out[p], width);
      }
      SeparateFrom(out, p);
      EncodeRow(gf, fragments, p, width, out[p]);
    }
  }

  lemma SeparateAppend(rows: seq<array<Byte>>, row: array<Byte>)
    requires Separate(rows) && row !in rows
    ensures Separate(rows + [row])
  {}

  lemma SeparateUpdate(rows: seq<array<Byte>>, p: nat, row: array<Byte>)
    requires Separate(rows) && row !in rows && p < |rows|
    ensures Separate(rows[p := row])
  {}

  lemma SeparateFrom(rows: seq<array<Byte>>, p: nat)
    requires Separate(rows) && p < |rows|
    ensures forall i: nat | i < |rows| && i != p :: rows[i] != rows[p]
  {}
}
