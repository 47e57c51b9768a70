/** Erasure decoding: which losses the decoder repairs, and that what it fills in is what was sent. */
module Decoder {
  import opened ByteNumbers
  import opened Common
  import opened Galois
  import opened FieldTables
  import opened Linear
  import opened Vandermonde
  import opened ReedSolomon
  import opened Elimination

  /** The indices of the missing fragments among the first n, in ascending order. */
  function MissingIn(data: seq<Fragment>, n: nat): (m: seq<nat>)
    requires n <= |data|
    ensures |m| <= n
    ensures forall c: nat | c < |m| :: m[c] < n && data[m[c]] == None
    ensures forall c: nat, d: nat | c < d < |m| :: m[c] < m[d]
    ensures forall j: nat | j < n && data[j] == None :: j in m
  {
    if n == 0 then [] else if data[n - 1] == None then MissingIn(data, n - 1) + [n - 1] else MissingIn(data, n - 1)
  }

  function Missing(data: seq<Fragment>): seq<nat> {
    MissingIn(data, |data|)
  }

  /** The parity numbers of the first m parities supplied: the only ones the decoder uses. */
  function RowsUsed(parity: seq<Parity>, m: nat): (rows: seq<nat>)
    requires m <= |parity|
    ensures |rows| == m && forall r: nat | r < m :: rows[r] == parity[r].0
  {
    seq(m, r requires 0 <= r < m => parity[r].0)
  }

  /** The condition under which the decoder succeeds. */
  ghost predicate Decodable(data: seq<Fragment>, parity: seq<Parity>) {
    var m := |Missing(data)|;
    m <= |parity| && NonSingular(CodeMatrix(RowsUsed(parity, m), Nodes(Missing(data))))
  }

  /** `sent` is a list of fragments from which the received ones were taken and the parities computed. */
  ghost predicate Consistent(sent: seq<Bytes>, data: seq<Fragment>, parity: seq<Parity>, width: nat) {
    && |sent| == |data|
    && (forall j: nat | j < |data| && data[j].Some? :: Fit(data[j].value, width) == Fit(sent[j], width))
    && (forall r: nat | r < |parity| :: Fit(parity[r].1, width) == ParityOf(sent, parity[r].0, width))
  }

  /** Received fragments are untouched, and every missing one is the sent one at the common width. */
  ghost predicate Restored(sent: seq<Bytes>, data: seq<Fragment>, data': seq<Fragment>, width: nat) {
    && |data'| == |data| == |sent|
    && forall j: nat | j < |data| :: data'[j] == if data[j].Some? then data[j] else Some(Fit(sent[j], width))
  }

  // ---------- The system the decoder sets up ----------

  /** Byte k of each received fragment, and zero where a fragment is missing. */
  function ReceivedColumn(data: seq<Fragment>, k: nat): (c: Bytes)
    ensures |c| == |data|
    ensures forall j: nat | j < |data| :: c[j] == if data[j].Some? then ByteAt(data[j].value, k) else 0
  {
    seq(|data|, j requires 0 <= j < |data| => if data[j].Some? then ByteAt(data[j].value, k) else 0)
  }

  function SyndromeByte(data: seq<Fragment>, par: Parity, k: nat, n: nat): Byte
    requires n <= |data|
  {
    Add(ByteAt(par.1, k), Dot(PowRow(FirstNodes(|data|), par.0), ReceivedColumn(data, k), n))
  }

  /** The sent bytes at the missing positions. */
  function LostColumn(sent: seq<Bytes>, missing: seq<nat>, k: nat): (c: Bytes)
    requires forall i: nat | i < |missing| :: missing[i] < |sent|
    ensures |c| == |missing| && forall i: nat | i < |missing| :: c[i] == ByteAt(sent[missing[i]], k)
  {
    seq(|missing|, i requires 0 <= i < |missing| => ByteAt(sent[missing[i]], k))
  }

  /** The contribution of the lost fragments to parity p at byte k. */
  function LostSum(sent: seq<Bytes>, missing: seq<nat>, p: nat, k: nat): Byte
    requires forall i: nat | i < |missing| :: missing[i] < |sent|
  {
    Dot(PowRow(Nodes(missing), p), LostColumn(sent, missing, k), |missing|)
  }

  lemma LostAppend(sent: seq<Bytes>, m: seq<nat>, j: nat, p: nat, k: nat)
    requires (forall i: nat | i < |m| :: m[i] < |sent|) && j < |sent|
    ensures LostSum(sent, m + [j], p, k) == Add(LostSum(sent, m, p, k), Mul(Pow(Node(j), p), ByteAt(sent[j], k)))
  {
    hide Add, Mul, Pow, Dot, ByteAt, Node;
    var m' := m + [j];
    DotCong(PowRow(Nodes(m'), p), PowRow(Nodes(m), p), LostColumn(sent, m', k), LostColumn(sent, m, k), |m|);
    DotNext(PowRow(Nodes(m'), p), LostColumn(sent, m', k), |m|);
  }

  lemma AddLast(received: Byte, lost: Byte, term: Byte)
    ensures Add(Add(received, lost), term) == Add(received, Add(lost, term))
    ensures Add(Add(received, lost), term) == Add(Add(received, term), lost)
  {
    hide *;
    AddAssoc(received, lost, term);
    AddComm(lost, term);
    AddAssoc(received, term, lost);
  }

  /** A full row splits into its received part and its lost part. */
  lemma {:induction false} RowSplits(sent: seq<Bytes>, data: seq<Fragment>, p: nat, k: nat, n: nat)
    requires |sent| == |data| && n <= |data|
    requires forall j: nat | j < |data| && data[j].Some? :: ByteAt(data[j].value, k) == ByteAt(sent[j], k)
    ensures Dot(PowRow(FirstNodes(|data|), p), Column(sent, k), n)
         == Add(Dot(PowRow(FirstNodes(|data|), p), ReceivedColumn(data, k), n), LostSum(sent, MissingIn(data, n), p, k))
  {
    hide Add, Mul, Pow, ByteAt, Node, Dot, LostSum, Column, ReceivedColumn, PowRow, FirstNodes, MissingIn;
    if n == 0 {
      RowSplitsNothing(sent, data, p, k);
    } else {
      RowSplits(sent, data, p, k, n - 1);
      RowSplitsNext(sent, data, p, k, n - 1);
    }
  }

  lemma RowSplitsNothing(sent: seq<Bytes>, data: seq<Fragment>, p: nat, k: nat)
    requires |sent| == |data|
    ensures Dot(PowRow(FirstNodes(|data|), p), Column(sent, k), 0)
         == Add(Dot(PowRow(FirstNodes(|data|), p), ReceivedColumn(data, k), 0), LostSum(sent, MissingIn(data, 0), p, k))
  {
    hide Add, Mul, Pow, ByteAt, Node, LostSum, Column, ReceivedColumn, PowRow, FirstNodes;
    AddZero(0);
    LostNothing(sent, p, k);
  }

  lemma RowEntries(sent: seq<Bytes>, data: seq<Fragment>, p: nat, k: nat, n: nat)
    requires |sent| == |data| && n < |data|
    ensures |PowRow(FirstNodes(|data|), p)| == |Column(sent, k)| == |ReceivedColumn(data, k)| == |data|
    ensures PowRow(FirstNodes(|data|), p)[n] == Pow(Node(n), p) && Column(sent, k)[n] == ByteAt(sent[n], k)
    ensures ReceivedColumn(data, k)[n] == if data[n].Some? then ByteAt(data[n].value, k) else 0
  {
    hide Pow, Node, ByteAt;
  }

  lemma RowSplitsNext(sent: seq<Bytes>, data: seq<Fragment>, p: nat, k: nat, n: nat)
    requires |sent| == |data| && n < |data|
    requires data[n].Some? ==> ByteAt(data[n].value, k) == ByteAt(sent[n], k)
    requires Dot(PowRow(FirstNodes(|data|), p), Column(sent, k), n)
          == Add(Dot(PowRow(FirstNodes(|data|), p), ReceivedColumn(data, k), n),
              LostSum(sent, MissingIn(data, n), p, k))
    ensures Dot(PowRow(FirstNodes(|data|), p), Column(sent, k), n + 1)
         == Add(Dot(PowRow(FirstNodes(|data|), p), ReceivedColumn(data, k), n + 1),
             LostSum(sent, MissingIn(data, n + 1), p, k))
  {
    hide Add, Mul, Pow, ByteAt, Node, Dot, LostSum, Column, ReceivedColumn, PowRow, FirstNodes;
    RowEntries(sent, data, p, k, n);
    var row := PowRow(FirstNodes(|data|), p);
    var received, term := Dot(row, ReceivedColumn(data, k), n), Mul(row[n], ByteAt(sent[n], k));
    DotNext(row, Column(sent, k), n);
    DotNext(row, ReceivedColumn(data, k), n);
    MulZero(row[n]);
    AddZero(received);
    AddLast(received, LostSum(sent, MissingIn(data, n), p, k), term);
    if data[n] == None {
      LostAppend(sent, MissingIn(data, n), n, p, k);
    }
    hide MissingIn;
  }

  lemma LostNothing(sent: seq<Bytes>, p: nat, k: nat)
    ensures LostSum(sent, [], p, k) == 0
  {}

  /** What was sent solves the system. */
  lemma SentSolves(sent: seq<Bytes>, data: seq<Fragment>, parity: seq<Parity>, width: nat, k: nat, s: Bytes)
    requires Consistent(sent, data, parity, width) && k < width && |s| == |Missing(data)| <= |parity|
    requires forall r: nat | r < |s| :: s[r] == SyndromeByte(data, parity[r], k, |data|)
    ensures Solves(CodeMatrix(RowsUsed(parity, |s|), Nodes(Missing(data))), s, LostColumn(sent, Missing(data), k))
  {
    hide Add, Mul, Pow, Dot;
    var m := Missing(data);
    var a, x := CodeMatrix(RowsUsed(parity, |s|), Nodes(m)), LostColumn(sent, m, k);
    forall j: nat | j < |data| && data[j].Some? ensures ByteAt(data[j].value, k) == ByteAt(sent[j], k) {
      assert Fit(data[j].value, width)[k] == Fit(sent[j], width)[k];
    }
    forall r: nat | r < |s| ensures Dot(a[r], x, |x|) == s[r] {
      var p := parity[r].0;
      RowSplits(sent, data, p, k, |data|);
      assert Fit(parity[r].1, width)[k] == ParityOf(sent, p, width)[k];
      var received := Dot(PowRow(FirstNodes(|data|), p), ReceivedColumn(data, k), |data|);
      AddComm(received, Dot(a[r], x, |x|));
      AddCancel(Dot(a[r], x, |x|), received);
    }
  }

  // ---------- The decoder ----------

  /** One equation: the coefficients at the missing columns, and the parity less what was received. */
  method BuildRow(gf: GfTables, data: seq<Fragment>, par: Parity, missing: seq<nat>, width: nat)
    returns (row: array<Byte>, syn: array<Byte>)
    requires gf.Valid()
    ensures fresh(row) && fresh(syn) && row != syn
    ensures row[..] == PowRow(Nodes(missing), par.0)
    ensures SyndromeRow(data, par, syn[..], width)
  {
    DotStarts();
    hide Add, Mul, Dot, Pow, Node, ByteAt;
    syn := new Byte[width](k requires 0 <= k => ByteAt(par.1, k));
    ghost var full := PowRow(FirstNodes(|data|), par.0);
    forall k: nat | k < width ensures syn[k] == SyndromeByte(data, par, k, 0) {
      AddZero(syn[k]);
    }
    for j := 0 to |data|
      invariant forall k: nat | k < width :: syn[k] == SyndromeByte(data, par, k, j)
    {
      ghost var was := syn[..];
      if data[j].Some? {
        GfMulAdd(gf, syn, data[j].value, Coef(gf, par.0, j), width);
      }
      forall k: nat | k < width ensures syn[k] == SyndromeByte(data, par, k, j + 1) {
        assert was[k] == SyndromeByte(data, par, k, j);
        DotNext(full, ReceivedColumn(data, k), j);
        MulZero(full[j]);
        AddZero(was[k]);
        AddAssoc(ByteAt(par.1, k), Dot(full, ReceivedColumn(data, k), j), Mul(full[j], ReceivedColumn(data, k)[j]));
      }
    }
    row := new Byte[|missing|];
    for c := 0 to |missing|
      invariant forall i: nat | i < c :: row[i] == Pow(Node(missing[i]), par.0)
      invariant forall k: nat | k < width :: syn[k] == SyndromeByte(data, par, k, |data|)
    {
      row[c] := Coef(gf, par.0, missing[c]);
    }
  }

  method BuildSystem(gf: GfTables, data: seq<Fragment>, parity: seq<Parity>, missing: seq<nat>, width: nat)
    returns (a: seq<array<Byte>>, syn: seq<array<Byte>>)
    requires gf.Valid() && |missing| <= |parity|
    ensures Buffers(a, syn, width) && |a| == |missing|
    ensures forall r: nat | r < |a| :: fresh(a[r]) && fresh(syn[r])
    ensures Contents(a) == CodeMatrix(RowsUsed(parity, |missing|), Nodes(missing))
    ensures SyndromesOf(data, parity, Contents(syn), width)
  {
    a, syn := [], [];
    assert Apart(a, syn);
    hide *;
    ghost var rows := CodeMatrix(RowsUsed(parity, |missing|), Nodes(missing));
    for r := 0 to |missing|
      invariant |a| == |syn| == r && Apart(a, syn)
      invariant forall i: nat | i < r :: fresh(a[i]) && fresh(syn[i])
      invariant forall i: nat | i < r :: a[i][..] == rows[i] && SyndromeRow(data, parity[i], syn[i][..], width)
    {
      var row, s := BuildRow(gf, data, parity[r], missing, width);
      ApartAppend(a, syn, row, s);
      a, syn := a + [row], syn + [s];
    }
    ApartBuffers(a, syn, width, |missing|);
  }

  ghost predicate SyndromeRow(data: seq<Fragment>, par: Parity, s: Bytes, width: nat) {
    |s| == width && forall k: nat | k < width :: s[k] == SyndromeByte(data, par, k, |data|)
  }

  ghost predicate SyndromesOf(data: seq<Fragment>, parity: seq<Parity>, s: Matrix, width: nat) {
    |s| <= |parity| && forall r: nat | r < |s| :: SyndromeRow(data, parity[r], s[r], width)
  }

  ghost predicate Apart(a: seq<array<Byte>>, syn: seq<array<Byte>>) {
    && Separate(a) && Separate(syn)
    && forall i: nat, j: nat | i < |a| && j < |syn| :: a[i] != syn[j]
  }

  lemma ApartAppend(a: seq<array<Byte>>, syn: seq<array<Byte>>, row: array<Byte>, s: array<Byte>)
    requires Apart(a, syn) && row != s && row !in a && row !in syn && s !in a && s !in syn
    ensures Apart(a + [row], syn + [s])
  {}

  lemma ApartBuffers(a: seq<array<Byte>>, syn: seq<array<Byte>>, width: nat, m: nat)
    requires Apart(a, syn) && |a| == |syn| == m
    requires forall r: nat | r < m :: a[r].Length == m && syn[r].Length == width
    ensures Buffers(a, syn, width)
  {}

  method CollectMissing(data: seq<Fragment>) returns (missing: seq<nat>)
    ensures missing == Missing(data)
  {
    missing := [];
    for i := 0 to |data|
      invariant missing == MissingIn(data, i)
    {
      if data[i] == None {
        missing := missing + [i];
      }
    }
  }

  ghost predicate Filled(data: seq<Fragment>, data': seq<Fragment>, s: Matrix) {
    && |data'| == |data| && |s| == |Missing(data)|
    && (forall j: nat | j < |data| && data[j].Some? :: data'[j] == data[j])
    && (forall c: nat | c < |s| :: data'[Missing(data)[c]] == Some(s[c]))
  }

  lemma FilledMeaning(data: seq<Fragment>, data': seq<Fragment>, s: Matrix)
    requires Filled(data, data', s)
    ensures |data'| == |data| && forall j: nat | j < |data| && data[j].Some? :: data'[j] == data[j]
    ensures forall j: nat | j < |data| :: data'[j].Some?
  {
    forall j: nat | j < |data| && data[j] == None ensures data'[j].Some? {
      var c: nat :| c < |Missing(data)| && Missing(data)[c] == j;
    }
  }

  /** Puts row c of the solution into the c-th missing place. */
  method FillIn(data: seq<Fragment>, missing: seq<nat>, rows: seq<array<Byte>>) returns (data': seq<Fragment>)
    requires missing == Missing(data) && |rows| == |missing|
    ensures Filled(data, data', Contents(rows))
  {
    data' := data;
    for c := 0 to |missing|
      invariant |data'| == |data|
      invariant forall j: nat | j < |data| && data[j].Some? :: data'[j] == data[j]
      invariant forall i: nat | i < c :: data'[missing[i]] == Some(rows[i][..])
    {
      data' := data'[missing[c] := Some(rows[c][..])];
    }
  }

  /** What the elimination leaves is what was sent, and after filling it in nothing is missing. */
  lemma SolutionIsSent(sent: seq<Bytes>, data: seq<Fragment>, data': seq<Fragment>, parity: seq<Parity>,
                       s0: Matrix, s: Matrix, width: nat)
    requires |Missing(data)| == |s0| && SyndromesOf(data, parity, s0, width) && Filled(data, data', s)
    requires OnlySolution(CodeMatrix(RowsUsed(parity, |s0|), Nodes(Missing(data))), s0, s, width)
    requires Consistent(sent, data, parity, width)
    ensures Restored(sent, data, data', width)
  {
    hide Solves, SyndromeByte, CodeMatrix, ByteAt;
    var missing := Missing(data);
    forall k: nat | k < width ensures ColumnOf(s, k) == LostColumn(sent, missing, k) {
      SentSolves(sent, data, parity, width, k, ColumnOf(s0, k));
    }
    forall c: nat | c < |missing| ensures s[c] == Fit(sent[missing[c]], width) {
      forall k: nat | k < width ensures s[c][k] == ByteAt(sent[missing[c]], k) {
        assert ColumnOf(s, k)[c] == LostColumn(sent, missing, k)[c];
      }
    }
    forall j: nat | j < |data| && data[j] == None ensures data'[j] == Some(Fit(sent[j], width)) {
      var c: nat :| c < |missing| && missing[c] == j;
    }
  }

  lemma NothingMissing(data: seq<Fragment>, parity: seq<Parity>, width: nat)
    requires Missing(data) == []
    ensures forall sent: seq<Bytes> | Consistent(sent, data, parity, width) :: Restored(sent, data, data, width)
  {}

  /** Fills the missing fragments in, or leaves everything as it was. */
  method Decode(gf: GfTables, data: seq<Fragment>, parity: seq<Parity>, width: nat)
    returns (ok: bool, data': seq<Fragment>)
    requires gf.Valid()
    ensures ok <==> Missing(data) == [] || Decodable(data, parity)
    ensures |data'| == |data| && forall j: nat | j < |data| && data[j].Some? :: data'[j] == data[j]
    ensures if ok then forall j: nat | j < |data| :: data'[j].Some? else data' == data
    ensures ok ==> forall sent: seq<Bytes> | Consistent(sent, data, parity, width) :: Restored(sent, data, data', width)
  {
    hide Add, Mul, Dot, Pow, Node, Solves, NonSingular, SyndromesOf, Filled, OnlySolution, Consistent, CodeMatrix,
        Separate;
    var missing := CollectMissing(data);
    if missing == [] {
      NothingMissing(data, parity, width);
      return true, data;
    }
    if |missing| > |parity| {
      return false, data;
    }
    var a, syn0 := BuildSystem(gf, data, parity, missing, width);
    ghost var s0 := Contents(syn0);
    var syn;
    ok, syn := GaussJordan(gf, a, syn0, width);
    if !ok {
      return false, data;
    }
    data' := FillIn(data, missing, syn);
    FilledMeaning(data, data', Contents(syn));
    forall sent: seq<Bytes> | Consistent(sent, data, parity, width) ensures Restored(sent, data, data', width) {
      SolutionIsSent(sent, data, data', parity, s0, Contents(syn), width);
    }
  }

  // ---------- When decoding succeeds ----------

  lemma NodeValue(j: nat)
    ensures Node(j) as int == (j + 1) % 256
    ensures Node(j) == 0 <==> (j + 1) % 256 == 0
  {
    var r := (j + 1) % 256;
    SmallNode(r);
    assert Node(j) == r as Byte;
    hide *;
  }

  lemma SmallNode(n: nat)
    requires n < 256
    ensures (n as Byte) as int == n && (n as Byte == 0 <==> n == 0)
  {
    SmallByte(n);
    ZeroByte();
    if n as Byte == 0 {
      assert (n as Byte) as int == (0 as Byte) as int;
    }
    hide *;
  }

  lemma NextRemainder(i: nat)
    ensures (i + 1) % 256 == if i % 256 == 255 then 0 else i % 256 + 1
  {
  }

  /** Two columns share a node exactly when their numbers agree modulo 256. */
  lemma SameNodeIff(i: nat, j: nat)
    ensures Node(i) == Node(j) <==> i % 256 == j % 256
  {
    NextRemainder(i);
    NextRemainder(j);
    if i % 256 == j % 256 {
      assert (i + 1) % 256 == (j + 1) % 256;
      assert Node(i) == Node(j);
    } else {
      hide Node;
      NodeValue(i);
      NodeValue(j);
    }
  }

  /** No two of the numbers agree modulo 256. */
  ghost predicate Incongruent(js: seq<nat>) {
    forall c: nat, d: nat | c < d < |js| :: js[c] % 256 != js[d] % 256
  }

  /** None of the numbers has the node zero. */
  ghost predicate NoZeroNode(js: seq<nat>) {
    forall c: nat | c < |js| :: js[c] % 256 != 255
  }

  lemma NodesDistinctIff(js: seq<nat>)
    ensures Distinct(Nodes(js)) <==> Incongruent(js)
    ensures 0 !in Nodes(js) <==> NoZeroNode(js)
  {
    hide Node;
    forall c: nat, d: nat | c < d < |js| ensures Nodes(js)[c] == Nodes(js)[d] <==> js[c] % 256 == js[d] % 256 {
      SameNodeIff(js[c], js[d]);
    }
    forall c: nat | c < |js| ensures Nodes(js)[c] == 0 <==> js[c] % 256 == 255 {
      NodeValue(js[c]);
      NextRemainder(js[c]);
    }
  }

  lemma FewFragments(data: seq<Fragment>)
    requires |data| <= 255
    ensures Incongruent(Missing(data)) && NoZeroNode(Missing(data))
  {
    var missing := Missing(data);
    assert forall c: nat | c < |missing| :: missing[c] % 256 == missing[c];
  }

  /** For any number of fragments, with consecutive parities in any order, as many as losses: decoding succeeds
      exactly when no two lost numbers agree modulo 256 and, unless parity 0 is among them, none is 255 modulo
      256.  Up to 255 fragments it always succeeds. */
  lemma ConsecutiveDecodable(data: seq<Fragment>, parity: seq<Parity>, base: nat)
    requires |Missing(data)| <= |parity| && Consecutive(RowsUsed(parity, |Missing(data)|), base)
    ensures Decodable(data, parity) <==>
            Incongruent(Missing(data)) && (base == 0 || NoZeroNode(Missing(data)))
    ensures |data| <= 255 ==> Decodable(data, parity)
  {
    hide Node, Pow, NonSingular, CodeMatrix, Missing, RowsUsed, Consecutive, Incongruent, NoZeroNode, Distinct;
    if |data| <= 255 {
      FewFragments(data);
    }
    NodesDistinctIff(Missing(data));
    ConsecutiveNonSingular(RowsUsed(parity, |Missing(data)|), Nodes(Missing(data)), base);
  }

  /** Two lost numbers that agree modulo 256 are never repaired, whatever else is lost and whichever parities
      are supplied. */
  lemma SharedNodeUndecodable(data: seq<Fragment>, parity: seq<Parity>, i: nat, j: nat)
    requires i < j < |data| && data[i] == None && data[j] == None && i % 256 == j % 256
    ensures !Decodable(data, parity)
  {
    hide Pow, NonSingular, Node, CodeMatrix;
    var missing := Missing(data);
    var c: nat :| c < |missing| && missing[c] == i;
    var d: nat :| d < |missing| && missing[d] == j;
    SameNodeIff(i, j);
    if |missing| <= |parity| {
      SharedNodeSingular(RowsUsed(parity, |missing|), Nodes(missing), c, d);
    }
  }

  /** With parities that lie d apart, as every two different ones do: decoding succeeds exactly when the d-th
      powers of the nodes lost are all different and, unless parity 0 is among them, none is zero. */
  lemma SpacedDecodable(data: seq<Fragment>, parity: seq<Parity>, base: nat, d: nat)
    requires d > 0 && |Missing(data)| <= |parity| && Spaced(RowsUsed(parity, |Missing(data)|), base, d)
    ensures Decodable(data, parity) <==>
            Distinct(PowRow(Nodes(Missing(data)), d)) && (base == 0 || NoZeroNode(Missing(data)))
  {
    hide Node, Pow, NonSingular, CodeMatrix, Missing, RowsUsed, Spaced, NoZeroNode, Distinct;
    NodesDistinctIff(Missing(data));
    SpacedExact(RowsUsed(parity, |Missing(data)|), Nodes(Missing(data)), base, d);
  }

  /** A 1x1 matrix is invertible exactly when its entry is not zero. */
  lemma OneByOne(a: Matrix)
    requires Square(a, 1)
    ensures NonSingular(a) <==> a[0][0] != 0
  {
    hide Add, Mul, Dot;
    forall x: Bytes | |x| == 1 ensures Solves(a, Zeros(1), x) <==> Mul(a[0][0], x[0]) == 0 {
      DotStarts();
      DotNext(a[0], x, 0);
      AddZero(Mul(a[0][0], x[0]));
      NoZeroDivisors(a[0][0], x[0]);
    }
    if a[0][0] == 0 {
      MulZero(1);
      assert Solves(a, Zeros(1), [1]);
      assert [1 as Byte][0] != Zeros(1)[0];
    } else {
      forall x: Bytes | |x| == 1 && Solves(a, Zeros(1), x) ensures x == Zeros(1) {
        NoZeroDivisors(a[0][0], x[0]);
      }
    }
  }

  /** A single loss at index j is repaired by parity p exactly when p is 0 or the node of j is not zero. */
  lemma OneLossExact(data: seq<Fragment>, parity: seq<Parity>, j: nat)
    requires Missing(data) == [j] && |parity| >= 1
    ensures Decodable(data, parity) <==> parity[0].0 == 0 || (j + 1) % 256 != 0
  {
    hide Pow, NonSingular, Node;
    OneByOne(CodeMatrix(RowsUsed(parity, 1), Nodes([j])));
    NodeValue(j);
    PowZeroExact(Node(j), parity[0].0);
  }
}
