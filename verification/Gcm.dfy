/** Authenticated encryption of payloads, Galois/counter mode of NIST SP 800-38D, over any block cipher. */
module Gcm {
  import opened Common
  import opened Galois
  import opened WireFormat
  import opened Gf128
  import opened Ghash

  function NoBytes(): (b: Bytes)
    ensures |b| == 16
  {
    seq(16, _ => 0)
  }

  type Block = b: Bytes | |b| == 16 witness NoBytes()

  /** Encryption of one block under the key. */
  type Cipher = Block -> Block

  // ---------- Numbers in bytes ----------

  function BigEndian(b: Bytes): nat {
    if b == [] then 0 else 256 * BigEndian(b[..|b| - 1]) + ValueOf(b[|b| - 1])
  }

  function Span(k: nat): (s: nat)
    ensures s > 0
  {
    if k == 0 then 1 else 256 * Span(k - 1)
  }

  lemma {:induction false} BigEndianBound(b: Bytes)
    ensures BigEndian(b) < Span(|b|)
  {
    hide ValueOf;
    if b != [] {
      BigEndianBound(b[..|b| - 1]);
      ByteBelow(b[|b| - 1]);
    }
  }

  lemma ByteBelow(b: Byte)
    ensures ValueOf(b) < 256
  {}

  lemma {:induction false} BigEndianInjective(a: Bytes, b: Bytes)
    requires |a| == |b| && BigEndian(a) == BigEndian(b)
    ensures a == b
    decreases |a|
  {
    hide ValueOf;
    if a != [] {
      var n := |a| - 1;
      ByteBelow(a[n]);
      ByteBelow(b[n]);
      SameDigit(BigEndian(a[..n]), ValueOf(a[n]), BigEndian(b[..n]), ValueOf(b[n]));
      BigEndianInjective(a[..n], b[..n]);
      SameValue(a[n], b[n]);
      assert a == a[..n] + [a[n]] && b == b[..n] + [b[n]];
    }
  }

  lemma SameDigit(a: nat, c: nat, b: nat, d: nat)
    requires c < 256 && d < 256 && 256 * a + c == 256 * b + d
    ensures a == b && c == d
  {}

  lemma SameValue(a: Byte, b: Byte)
    requires ValueOf(a) == ValueOf(b)
    ensures a == b
  {
    BackToByte(a);
    BackToByte(b);
    hide *;
  }

  lemma BackToByte(b: Byte)
    ensures ByteOf(ValueOf(b)) == b
  {
    assert b as int % 256 == b as int;
  }

  // ---------- The counter, section 6.2 ----------

  /** A big-endian number one higher, without the carry out of its first byte. */
  function Incremented(b: Bytes): (c: Bytes)
    ensures |c| == |b|
  {
    if b == [] then []
    else
      var n := |b| - 1;
      var up := ByteOf(ValueOf(b[n]) + 1);
      (if up == 0 then Incremented(b[..n]) else b[..n]) + [up]
  }

  lemma NextByte(b: Byte)
    ensures var up := ByteOf(ValueOf(b) + 1);
            && (up == 0 <==> ValueOf(b) == 255)
            && ValueOf(up) == (if ValueOf(b) == 255 then 0 else ValueOf(b) + 1)
  {
    hide *;
    var up := ByteOf(ValueOf(b) + 1);
    ByteBelow(b);
    ByteValue(ValueOf(b) + 1);
    ZeroByte();
    if ValueOf(up) == 0 {
      SameValue(up, 0);
    }
  }

  lemma ZeroByte()
    ensures ByteOf(0) == 0 && ValueOf(0) == 0
  {}

  lemma {:induction false} IncrementedValue(b: Bytes)
    ensures BigEndian(Incremented(b)) == (if BigEndian(b) + 1 == Span(|b|) then 0 else BigEndian(b) + 1)
  {
    hide ValueOf, ByteOf;
    if b != [] {
      var n := |b| - 1;
      IncrementedValue(b[..n]);
      BigEndianBound(b[..n]);
      NextByte(b[n]);
      ByteBelow(b[n]);
      var c := Incremented(b);
      var head := if ByteOf(ValueOf(b[n]) + 1) == 0 then Incremented(b[..n]) else b[..n];
      assert c[..n] == head && c[n] == ByteOf(ValueOf(b[n]) + 1);
      assert BigEndian(c) == 256 * BigEndian(head) + ValueOf(c[n]);
    }
  }

  function Inc32(b: Block): Block {
    b[..12] + Incremented(b[12..])
  }

  function Counter(j0: Block, k: nat): Block {
    if k == 0 then j0 else Inc32(Counter(j0, k - 1))
  }

  lemma {:induction false} CounterParts(j0: Block, k: nat)
    ensures Counter(j0, k)[..12] == j0[..12]
    ensures BigEndian(Counter(j0, k)[12..]) == (BigEndian(j0[12..]) + k) % 0x1_0000_0000
  {
    hide Incremented, BigEndian;
    BigEndianBound(j0[12..]);
    SpanFour();
    if k > 0 {
      CounterParts(j0, k - 1);
      var c := Counter(j0, k - 1);
      IncrementedValue(c[12..]);
      assert Inc32(c)[..12] == c[..12] && Inc32(c)[12..] == Incremented(c[12..]);
      NextModulo(BigEndian(j0[12..]) + k - 1);
    }
  }

  lemma SpanFour()
    ensures Span(4) == 0x1_0000_0000
  {
    assert Span(1) == 256 && Span(2) == 256 * Span(1) && Span(3) == 256 * Span(2);
  }

  lemma NextModulo(n: nat)
    ensures (n + 1) % 0x1_0000_0000 ==
      if n % 0x1_0000_0000 + 1 == 0x1_0000_0000 then 0 else n % 0x1_0000_0000 + 1
  {}

  /** Two counter blocks of a message are equal exactly when they lie a multiple of 2^32 apart. */
  lemma CountersDistinct(j0: Block, j: nat, k: nat)
    ensures Counter(j0, j) == Counter(j0, k) <==> j % 0x1_0000_0000 == k % 0x1_0000_0000
  {
    hide Counter, BigEndian;
    CounterParts(j0, j);
    CounterParts(j0, k);
    ShiftModulo(BigEndian(j0[12..]), j, k);
    BlocksEqual(Counter(j0, j), Counter(j0, k));
  }

  lemma BlocksEqual(a: Block, b: Block)
    requires a[..12] == b[..12]
    ensures a == b <==> BigEndian(a[12..]) == BigEndian(b[12..])
  {
    hide BigEndian;
    if BigEndian(a[12..]) == BigEndian(b[12..]) {
      BigEndianInjective(a[12..], b[12..]);
      assert a == a[..12] + a[12..] && b == b[..12] + b[12..];
    }
  }

  lemma ShiftModulo(v: nat, j: nat, k: nat)
    ensures (v + j) % 0x1_0000_0000 == (v + k) % 0x1_0000_0000 <==> j % 0x1_0000_0000 == k % 0x1_0000_0000
  {}

  /** Increments the last four bytes, in place. */
  method IncrementCounter(ctr: array<Byte>)
    requires ctr.Length == 16
    modifies ctr
    ensures ctr[..] == Inc32(old(ctr[..]))
  {
    hide ByteOf, ValueOf, Incremented;
    ghost var was, tail: Bytes := ctr[..], [];
    var i := 15;
    while i >= 12
      invariant 11 <= i <= 15 && |tail| == 15 - i && ctr[i + 1..16] == tail
      invariant ctr[..i + 1] == was[..i + 1]
      invariant Incremented(was[12..16]) == Incremented(was[12..i + 1]) + tail
      decreases i
    {
      IncrementedLast(was, i);
      ctr[i] := ByteOf(ValueOf(ctr[i]) + 1);
      tail := [ctr[i]] + tail;
      assert ctr[i..16] == tail && ctr[..i] == was[..i];
      if ctr[i] != 0 {
        WholeBlock(was, ctr[..], i, tail);
        return;
      }
      i := i - 1;
    }
    WholeBlock(was, ctr[..], 12, tail);
  }

  lemma IncrementedLast(b: Block, i: nat)
    requires 12 <= i < 16
    ensures var up := ByteOf(ValueOf(b[i]) + 1);
            Incremented(b[12..i + 1]) == (if up == 0 then Incremented(b[12..i]) else b[12..i]) + [up]
  {
    hide ByteOf, ValueOf;
    assert b[12..i + 1][..i - 12] == b[12..i];
  }

  lemma WholeBlock(b: Block, c: Block, i: nat, tail: Bytes)
    requires 12 <= i <= 16 && |tail| == 16 - i && c[..i] == b[..i] && c[i..16] == tail
    requires Incremented(b[12..16]) == (if i == 12 then tail else b[12..i] + tail)
    ensures c == Inc32(b)
  {
    hide Incremented;
    assert b[12..] == b[12..16];
    assert c == c[..i] + c[i..16];
    assert b[..i] == b[..12] + b[12..i];
  }

  // ---------- Counter mode, section 6.5 ----------

  /** Each byte meets its place in the encryption of the counter of its block, the first being J0 + 1. */
  function Crypted(cipher: Cipher, j0: Block, data: Bytes): (out: Bytes)
    ensures |out| == |data|
  {
    seq(|data|, i requires 0 <= i < |data| => Xor(data[i], cipher(Counter(j0, i / 16 + 1))[i % 16]))
  }

  lemma XorTwice(a: Byte, k: Byte)
    ensures Xor(Xor(a, k), k) == a
  {}

  lemma CryptedTwice(cipher: Cipher, j0: Block, data: Bytes)
    ensures Crypted(cipher, j0, Crypted(cipher, j0, data)) == data
  {
    var once := Crypted(cipher, j0, data);
    var twice := Crypted(cipher, j0, once);
    hide Xor, Counter;
    forall i | 0 <= i < |data| ensures twice[i] == data[i] {
      XorTwice(data[i], cipher(Counter(j0, i / 16 + 1))[i % 16]);
    }
  }

  /** Reads and writes position by position, so that the output may be the input itself. */
  method CryptBlock(ks: Block, input: array<Byte>, pos: nat, take: nat, out: array<Byte>)
    requires take <= 16 && pos + take <= input.Length && input.Length <= out.Length
    modifies out
    ensures forall i :: pos <= i < pos + take ==> out[i] == Xor(old(input[i]), ks[i - pos])
    ensures forall i :: 0 <= i < out.Length && !(pos <= i < pos + take) ==> out[i] == old(out[i])
  {
    hide Xor;
    for i := 0 to take
      invariant forall j :: pos <= j < pos + i ==> out[j] == Xor(old(input[j]), ks[j - pos])
      invariant forall j :: 0 <= j < out.Length && !(pos <= j < pos + i) ==> out[j] == old(out[j])
      invariant forall j :: pos + i <= j < input.Length ==> input[j] == old(input[j])
    {
      out[pos + i] := Xor(input[pos + i], ks[i]);
    }
  }

  method Crypt(cipher: Cipher, j0: Block, input: array<Byte>, out: array<Byte>)
    requires input.Length <= out.Length
    modifies out
    ensures out[..input.Length] == Crypted(cipher, j0, old(input[..]))
    ensures forall i :: input.Length <= i < out.Length ==> out[i] == old(out[i])
  {
    hide Xor, Inc32;
    var ctr := new Byte[16](j requires 0 <= j < 16 => j0[j]);
    assert ctr[..] == j0;
    ghost var data, n := input[..], input.Length;
    ghost var k := 0;
    var pos := 0;
    while pos < input.Length
      invariant 0 <= pos <= n && (pos == 16 * k || pos == n)
      invariant pos < n ==> ctr[..] == Counter(j0, k)
      invariant forall i :: 0 <= i < pos ==> out[i] == CryptedAt(cipher, j0, data, i)
      invariant forall i :: pos <= i < n ==> input[i] == data[i]
      invariant forall i :: n <= i < out.Length ==> out[i] == old(out[i])
    {
      IncrementCounter(ctr);
      var ks := cipher(ctr[..]);
      var take := if input.Length - pos < 16 then input.Length - pos else 16;
      CryptBlock(ks, input, pos, take, out);
      BlockOf(cipher, j0, data, k, pos, take);
      pos := pos + take;
      k := k + 1;
    }
    assert forall i :: 0 <= i < n ==> out[..n][i] == Crypted(cipher, j0, data)[i];
  }

  function CryptedAt(cipher: Cipher, j0: Block, data: Bytes, i: nat): Byte
    requires i < |data|
  {
    Xor(data[i], cipher(Counter(j0, i / 16 + 1))[i % 16])
  }

  lemma BlockOf(cipher: Cipher, j0: Block, data: Bytes, k: nat, pos: nat, take: nat)
    requires pos == 16 * k && take <= 16 && pos + take <= |data|
    ensures forall i :: pos <= i < pos + take ==>
              CryptedAt(cipher, j0, data, i) == Xor(data[i], cipher(Inc32(Counter(j0, k)))[i - pos])
  {
    hide Xor, Inc32;
    forall i | pos <= i < pos + take
      ensures CryptedAt(cipher, j0, data, i) == Xor(data[i], cipher(Inc32(Counter(j0, k)))[i - pos])
    {
      assert i / 16 == k && i % 16 == i - pos;
    }
  }

  // ---------- The tag, section 7 ----------

  function Shifted(bits: nat, k: nat): nat {
    if k == 0 then bits else Shifted(bits, k - 1) / 256
  }

  /** The two lengths in bits, sixty-four bits each. */
  function LengthBlock(aadSize: nat, size: nat): Block {
    seq(16, i requires 0 <= i < 16 =>
      if i < 8 then ByteOf(Shifted(aadSize * 8, 7 - i)) else ByteOf(Shifted(size * 8, 15 - i)))
  }

  function HashKey(cipher: Cipher): Element {
    AsElement(cipher(NoBytes()))
  }

  /** What is authenticated: the additional data, the ciphertext, each padded, and their lengths. */
  function Authenticated(aad: Bytes, data: Bytes): seq<Element> {
    BlocksOf(aad) + BlocksOf(data) + [AsElement(LengthBlock(|aad|, |data|))]
  }

  /** The tag of the standard: the polynomial of the blocks in the hash key, plus the encryption of J0. */
  function Tag(cipher: Cipher, j0: Block, aad: Bytes, data: Bytes): Element {
    Sum(Polynomial(HashKey(cipher), Authenticated(aad, data)), AsElement(cipher(j0)))
  }

  // ---------- What is hashed ----------

  /** The b-th sixteen bytes, with zeros behind the end. */
  function PieceAt(data: Bytes, b: nat): Block {
    seq(16, j requires 0 <= j < 16 => if 16 * b + j < |data| then data[16 * b + j] else 0)
  }

  lemma {:induction false} BlocksAre(data: Bytes, b: nat)
    ensures |BlocksOf(data)| == (|data| + 15) / 16
    ensures b < |BlocksOf(data)| ==> BlocksOf(data)[b] == AsElement(PieceAt(data, b))
    decreases |data|
  {
    hide AsElement;
    if 0 < |data| <= 16 {
      assert Padded(data) == PieceAt(data, 0);
    } else if |data| > 16 {
      BlocksAre(data[16..], if b == 0 then 0 else b - 1);
      if b == 0 {
        assert Padded(data[..16]) == PieceAt(data, 0);
      } else {
        assert PieceAt(data[16..], b - 1) == PieceAt(data, b);
      }
    }
  }

  /** Authenticated is the additional data, sixteen bytes a block and filled up with zeros, then so the ciphertext, and
      one block with the two lengths in bits. */
  lemma AuthenticatedIs(aad: Bytes, data: Bytes, b: nat)
    ensures var blocks := Authenticated(aad, data);
            var m, n := (|aad| + 15) / 16, (|data| + 15) / 16;
            && |blocks| == m + n + 1
            && (b < m ==> blocks[b] == AsElement(PieceAt(aad, b)))
            && (b < n ==> blocks[m + b] == AsElement(PieceAt(data, b)))
            && blocks[m + n] == AsElement(Octets(|aad| * 8, 8) + Octets(|data| * 8, 8))
  {
    assert LengthBlock(|aad|, |data|) == Octets(|aad| * 8, 8) + Octets(|data| * 8, 8);
    hide AsElement, Octets, LengthBlock, PieceAt;
    BlocksAre(aad, b);
    BlocksAre(data, b);
    hide BlocksOf;
  }

  /** The hash key is the encryption of sixteen zero bytes. */
  lemma HashKeyIs(cipher: Cipher, zeros: Block)
    requires forall i :: 0 <= i < 16 ==> zeros[i] == 0
    ensures HashKey(cipher) == AsElement(cipher(zeros))
  {
    assert zeros == NoBytes();
  }

  method PutLengths(aadSize: nat, size: nat) returns (block: Bytes)
    ensures block == LengthBlock(aadSize, size)
  {
    hide ByteOf, Shifted;
    var a := new Byte[16];
    for i := 0 to 8
      invariant forall j :: 0 <= j < i ==> a[j] == ByteOf(Shifted(aadSize * 8, 7 - j))
      invariant forall j :: 8 <= j < 8 + i ==> a[j] == ByteOf(Shifted(size * 8, 15 - j))
    {
      a[i] := ByteOf(Shifted(aadSize * 8, 7 - i));
      a[8 + i] := ByteOf(Shifted(size * 8, 7 - i));
    }
    block := a[..];
  }

  lemma {:induction false} ShiftedFirst(n: nat, k: nat)
    ensures Shifted(n / 256, k) == Shifted(n, k + 1)
  {
    if k > 0 {
      ShiftedFirst(n, k - 1);
    }
  }

  function Octets(n: nat, k: nat): (b: Bytes)
    ensures |b| == k
  {
    seq(k, i requires 0 <= i < k => ByteOf(Shifted(n, k - 1 - i)))
  }

  lemma AtLeastOnce(k: int, m: nat)
    requires k >= 1
    ensures k * m >= m
  {}

  lemma Remainder(n: nat, m: nat, q: nat, r: nat)
    requires m > 0 && n == q * m + r && r < m
    ensures n % m == r
  {
    var p := n / m;
    assert p * m + n % m == n;
    if p > q {
      assert p * m - q * m == (p - q) * m;
      AtLeastOnce(p - q, m);
    } else if p < q {
      assert q * m - p * m == (q - p) * m;
      AtLeastOnce(q - p, m);
    }
  }

  lemma SplitRemainder(n: nat, s: nat)
    requires s > 0
    ensures n % (256 * s) == 256 * (n / 256 % s) + n % 256
  {
    var q, r := n / 256 / s, n / 256 % s;
    assert n / 256 == q * s + r;
    assert n == q * (256 * s) + (256 * r + n % 256) by {
      assert n == 256 * (n / 256) + n % 256 && 256 * (q * s + r) == q * (256 * s) + 256 * r;
    }
    Remainder(n, 256 * s, q, 256 * r + n % 256);
  }

  /** The octets are the number in big-endian order, cut to their width. */
  lemma {:induction false} OctetsValue(n: nat, k: nat)
    ensures BigEndian(Octets(n, k)) == n % Span(k)
  {
    hide ByteOf, ValueOf;
    if k > 0 {
      var b := Octets(n, k);
      forall i | 0 <= i < k - 1 ensures b[i] == Octets(n / 256, k - 1)[i] {
        ShiftedFirst(n, k - 2 - i);
      }
      assert Shifted(n, 0) == n && k - 1 - (k - 1) == 0;
      assert b[k - 1] == ByteOf(Shifted(n, k - 1 - (k - 1)));
      assert b[..k - 1] == Octets(n / 256, k - 1) && b[k - 1] == ByteOf(n);
      OctetsValue(n / 256, k - 1);
      ByteValue(n);
      SplitRemainder(n, Span(k - 1));
      assert BigEndian(b) == 256 * BigEndian(b[..k - 1]) + ValueOf(b[k - 1]);
    }
  }

  /** The length block holds both lengths in bits, modulo 2^64. */
  lemma LengthBlockValue(aadSize: nat, size: nat)
    ensures BigEndian(LengthBlock(aadSize, size)[..8]) == aadSize * 8 % 0x1_0000_0000_0000_0000
    ensures BigEndian(LengthBlock(aadSize, size)[8..]) == size * 8 % 0x1_0000_0000_0000_0000
  {
    hide ByteOf, BigEndian;
    assert LengthBlock(aadSize, size)[..8] == Octets(aadSize * 8, 8);
    assert LengthBlock(aadSize, size)[8..] == Octets(size * 8, 8);
    OctetsValue(aadSize * 8, 8);
    OctetsValue(size * 8, 8);
    SpanFour();
    assert Span(5) == 256 * Span(4) && Span(6) == 256 * Span(5) && Span(7) == 256 * Span(6) && Span(8) == 256 * Span(7);
  }

  method ComputeTag(cipher: Cipher, j0: Block, aad: Bytes, data: Bytes, tag: array<Byte>)
    requires tag.Length == 16
    modifies tag
    ensures AsElement(tag[..]) == Tag(cipher, j0, aad, data)
  {
    hide AsElement, Sum, Product, BlocksOf, LengthBlock, Polynomial;
    var h := cipher(NoBytes());
    ghost var key := AsElement(h);
    var x := new Byte[16](_ => 0);
    ZeroBlock(x[..]);
    GhashUpdate(x, h, aad);
    GhashUpdate(x, h, data);
    var lengths := PutLengths(|aad|, |data|);
    GhashUpdate(x, h, lengths);
    OneBlock(lengths);
    ChainConcat(ZERO, key, BlocksOf(aad), BlocksOf(data));
    ChainConcat(ZERO, key, BlocksOf(aad) + BlocksOf(data), [AsElement(lengths)]);
    ChainIsPolynomial(key, Authenticated(aad, data));
    var e := cipher(j0);
    SumInto(x, e, tag);
  }

  lemma OneBlock(b: Block)
    ensures BlocksOf(b) == [AsElement(b)]
  {
    assert Padded(b) == b;
  }

  method SumInto(x: array<Byte>, e: Block, tag: array<Byte>)
    requires x.Length == tag.Length == 16 && x != tag
    modifies tag
    ensures AsElement(tag[..]) == Sum(AsElement(x[..]), AsElement(e))
  {
    hide Xor, AsElement, Sum;
    for i := 0 to 16
      invariant forall j :: 0 <= j < i ==> tag[j] == Xor(x[j], e[j])
    {
      tag[i] := Xor(x[i], e[i]);
    }
    XorIsSum(x[..], e, tag[..]);
  }

  // ---------- Sealing and opening ----------

  /** J0 for a nonce of twelve bytes. */
  function StartOf(nonce: Bytes): Block
    requires |nonce| == 12
  {
    nonce + [0, 0, 0, 1]
  }

  /** The nonce, followed by a number of 32 bits; J0 of section 7.1 is the block with number 1. */
  function Numbered(nonce: Bytes, n: nat): Block
    requires |nonce| == 12
  {
    nonce + Octets(n, 4)
  }

  lemma NumberedIs(nonce: Bytes, n: nat)
    requires |nonce| == 12
    ensures Numbered(nonce, n)[..12] == nonce && BigEndian(Numbered(nonce, n)[12..]) == n % 0x1_0000_0000
  {
    assert Numbered(nonce, n)[12..] == Octets(n, 4);
    hide Octets, BigEndian;
    OctetsValue(n, 4);
    SpanFour();
  }

  /** Two numbered blocks are equal exactly when their numbers lie a multiple of 2^32 apart. */
  lemma NumberedDistinct(nonce: Bytes, j: nat, k: nat)
    requires |nonce| == 12
    ensures Numbered(nonce, j) == Numbered(nonce, k) <==> j % 0x1_0000_0000 == k % 0x1_0000_0000
  {
    NumberedIs(nonce, j);
    NumberedIs(nonce, k);
    hide Octets, BigEndian, Numbered;
    BlocksEqual(Numbered(nonce, j), Numbered(nonce, k));
  }

  /** J0 is the nonce followed by one, and its counters are the nonce followed by the numbers from two on. */
  lemma StartNumbered(nonce: Bytes, k: nat)
    requires |nonce| == 12
    ensures StartOf(nonce)[..12] == nonce && BigEndian(StartOf(nonce)[12..]) == 1
    ensures Counter(StartOf(nonce), k) == Numbered(nonce, k + 1)
  {
    StartParts(nonce);
    NumberedIs(nonce, k + 1);
    hide Counter, BigEndian, Numbered, StartOf;
    CounterParts(StartOf(nonce), k);
    BlocksEqual(Counter(StartOf(nonce), k), Numbered(nonce, k + 1));
  }

  lemma StartParts(nonce: Bytes)
    requires |nonce| == 12
    ensures StartOf(nonce)[..12] == nonce && BigEndian(StartOf(nonce)[12..]) == 1
  {
    var none: Bytes := [];
    assert StartOf(nonce)[12..] == none + [0] + [0] + [0] + [1];
    assert ValueOf(0) == 0 && ValueOf(1) == 1;
    AppendDigit(none, 0);
    AppendDigit(none + [0], 0);
    AppendDigit(none + [0] + [0], 0);
    AppendDigit(none + [0] + [0] + [0], 1);
    assert BigEndian(none) == 0;
    hide ValueOf, BigEndian;
  }

  lemma AppendDigit(b: Bytes, d: Byte)
    ensures BigEndian(b + [d]) == 256 * BigEndian(b) + ValueOf(d)
  {
    hide ValueOf;
    assert (b + [d])[..|b|] == b;
  }

  /** The bytes meet the encryptions of the nonce followed by 2, 3, 4 and so on, sixteen bytes each, and the tag is
      masked by the encryption of the nonce followed by 1. */
  ghost predicate InStandardForm(cipher: Cipher, nonce: Bytes, plain: Bytes, data: Bytes)
    requires |nonce| == 12
  {
    |data| == |plain| &&
    forall i | 0 <= i < |data| :: data[i] == Xor(plain[i], cipher(Numbered(nonce, i / 16 + 2))[i % 16])
  }

  function Masked(cipher: Cipher, nonce: Bytes, aad: Bytes, data: Bytes): Element
    requires |nonce| == 12
  {
    Sum(Polynomial(HashKey(cipher), Authenticated(aad, data)), AsElement(cipher(Numbered(nonce, 1))))
  }

  lemma CryptedStandard(cipher: Cipher, nonce: Bytes, plain: Bytes)
    requires |nonce| == 12
    ensures InStandardForm(cipher, nonce, plain, Crypted(cipher, StartOf(nonce), plain))
  {
    hide Xor, Counter, Numbered, StartOf, BigEndian;
    forall i: nat | i < |plain| ensures Counter(StartOf(nonce), i / 16 + 1) == Numbered(nonce, i / 16 + 2) {
      StartNumbered(nonce, i / 16 + 1);
    }
  }

  lemma TagStandard(cipher: Cipher, nonce: Bytes, aad: Bytes, data: Bytes)
    requires |nonce| == 12
    ensures Tag(cipher, StartOf(nonce), aad, data) == Masked(cipher, nonce, aad, data)
  {
    hide Sum, Polynomial, HashKey, Authenticated, Numbered, StartOf, AsElement, BigEndian;
    StartNumbered(nonce, 0);
  }

  /** Below 2^32 - 1 blocks no part of the key stream is the mask of the tag. */
  lemma MaskApart(nonce: Bytes, i: nat)
    requires |nonce| == 12
    ensures Numbered(nonce, i / 16 + 2) == Numbered(nonce, 1) <==> (i / 16 + 1) % 0x1_0000_0000 == 0
    ensures i < 16 * 0xFFFF_FFFF ==> Numbered(nonce, i / 16 + 2) != Numbered(nonce, 1)
  {
    hide Numbered;
    var n := i / 16 + 1;
    NumberedDistinct(nonce, n + 1, 1);
    ShiftModulo(1, n, 0);
  }

  method Encrypt(cipher: Cipher, nonce: Bytes, aad: Bytes, plaintext: array<Byte>,
                 ciphertext: array<Byte>, tag: array<Byte>)
    requires |nonce| == 12 && tag.Length == 16 && plaintext.Length == ciphertext.Length
    requires tag != plaintext && tag != ciphertext
    modifies ciphertext, tag
    ensures ciphertext[..] == Crypted(cipher, StartOf(nonce), old(plaintext[..]))
    ensures AsElement(tag[..]) == Tag(cipher, StartOf(nonce), aad, ciphertext[..])
    ensures InStandardForm(cipher, nonce, old(plaintext[..]), ciphertext[..])
    ensures AsElement(tag[..]) == Masked(cipher, nonce, aad, ciphertext[..])
  {
    hide Crypted, Tag, AsElement, InStandardForm, Masked;
    var j0 := StartOf(nonce);
    CryptedStandard(cipher, nonce, plaintext[..]);
    Crypt(cipher, j0, plaintext, ciphertext);
    ghost var sealed := ciphertext[..];
    assert ciphertext[..plaintext.Length] == sealed;
    TagStandard(cipher, nonce, aad, sealed);
    ComputeTag(cipher, j0, aad, ciphertext[..], tag);
    assert ciphertext[..] == sealed;
  }

  /** Gives the plaintext back when the tag is the right one. */
  function Opened(cipher: Cipher, nonce: Bytes, aad: Bytes, data: Bytes, tag: Block): Option<Bytes>
    requires |nonce| == 12
  {
    if AsElement(tag) == Tag(cipher, StartOf(nonce), aad, data)
    then Some(Crypted(cipher, StartOf(nonce), data))
    else None
  }

  function Merge(d: Byte, a: Byte, b: Byte): Byte { d | (a ^ b) }

  lemma MergeZero(d: Byte, a: Byte, b: Byte)
    ensures Merge(d, a, b) == 0 <==> d == 0 && a == b
  {}

  /** Compares all sixteen bytes without stopping early. */
  method SameTag(due: array<Byte>, tag: Block) returns (same: bool)
    requires due.Length == 16
    ensures same <==> AsElement(due[..]) == AsElement(tag)
  {
    hide Merge, AsElement;
    var diff: Byte := 0;
    for i := 0 to 16
      invariant diff == 0 <==> forall j :: 0 <= j < i ==> due[j] == tag[j]
    {
      MergeZero(diff, due[i], tag[i]);
      diff := Merge(diff, due[i], tag[i]);
    }
    same := diff == 0;
    if AsElement(due[..]) == AsElement(tag) {
      AsElementInjective(due[..], tag);
      assert forall j :: 0 <= j < 16 ==> due[j] == due[..][j];
    }
    assert same ==> due[..] == tag;
  }

  method Decrypt(cipher: Cipher, nonce: Bytes, aad: Bytes, ciphertext: array<Byte>, tag: Block,
                 plaintext: array<Byte>)
    returns (ok: bool)
    requires |nonce| == 12 && plaintext.Length == ciphertext.Length
    modifies plaintext
    ensures var r := Opened(cipher, nonce, aad, old(ciphertext[..]), tag);
            && ok == r.Some?
            && plaintext[..] == if ok then r.value else old(plaintext[..])
    ensures ok <==> AsElement(tag) == Masked(cipher, nonce, aad, old(ciphertext[..]))
    ensures ok ==> InStandardForm(cipher, nonce, old(ciphertext[..]), plaintext[..])
  {
    hide Crypted, Tag, AsElement, InStandardForm, Masked;
    var j0 := StartOf(nonce);
    CryptedStandard(cipher, nonce, ciphertext[..]);
    TagStandard(cipher, nonce, aad, ciphertext[..]);
    var due := new Byte[16];
    ComputeTag(cipher, j0, aad, ciphertext[..], due);
    ok := SameTag(due, tag);
    if ok {
      Crypt(cipher, j0, ciphertext, plaintext);
      assert plaintext[..ciphertext.Length] == plaintext[..];
    }
  }

  /** Opening what was sealed restores the plaintext, for any key, nonce, additional data and length. */
  lemma OpenSealed(cipher: Cipher, nonce: Bytes, aad: Bytes, plain: Bytes, data: Bytes, tag: Block)
    requires |nonce| == 12 && data == Crypted(cipher, StartOf(nonce), plain)
    requires AsElement(tag) == Tag(cipher, StartOf(nonce), aad, data)
    ensures Opened(cipher, nonce, aad, data, tag) == Some(plain)
  {
    hide Crypted, Tag, AsElement;
    CryptedTwice(cipher, StartOf(nonce), plain);
  }

  /** Exactly one tag is accepted for a nonce, additional data and ciphertext. */
  lemma OneTagOpens(cipher: Cipher, nonce: Bytes, aad: Bytes, data: Bytes, tag: Block, other: Block)
    requires |nonce| == 12 && Opened(cipher, nonce, aad, data, tag).Some?
    ensures Opened(cipher, nonce, aad, data, other).Some? <==> other == tag
  {
    hide Crypted, Tag, AsElement;
    if Opened(cipher, nonce, aad, data, other).Some? {
      AsElementInjective(tag, other);
    }
  }

  /** The blocks at which two strings of equal length differ. */
  function Differences(a: seq<Element>, b: seq<Element>): seq<Element>
    requires |a| == |b|
  {
    seq(|a|, i requires 0 <= i < |a| => Sum(a[i], b[i]))
  }

  lemma {:induction false} BlockCount(a: Bytes, b: Bytes)
    requires |a| == |b|
    ensures |BlocksOf(a)| == |BlocksOf(b)|
    decreases |a|
  {
    if |a| > 16 {
      BlockCount(a[16..], b[16..]);
    }
  }

  /** Two ciphertexts of equal length share their tag exactly when the hash key is a root of the polynomial
      of their differences. */
  lemma SharedTagIsARoot(cipher: Cipher, j0: Block, aad: Bytes, data: Bytes, other: Bytes)
    requires |data| == |other|
    ensures |Authenticated(aad, data)| == |Authenticated(aad, other)|
    ensures Tag(cipher, j0, aad, data) == Tag(cipher, j0, aad, other) <==>
            Polynomial(HashKey(cipher), Differences(Authenticated(aad, data), Authenticated(aad, other))) == ZERO
  {
    BlockCount(data, other);
    var a, b, h := Authenticated(aad, data), Authenticated(aad, other), HashKey(cipher);
    ChainDifference(ZERO, ZERO, h, a, b, Differences(a, b));
    SumZero(ZERO);
    ChainIsPolynomial(h, a);
    ChainIsPolynomial(h, b);
    ChainIsPolynomial(h, Differences(a, b));
    hide Authenticated, Polynomial, Differences, Chain;
    SumCancels(Polynomial(h, a), Polynomial(h, b), AsElement(cipher(j0)));
  }

  lemma SumCancels(a: Element, b: Element, c: Element)
    ensures Sum(a, c) == Sum(b, c) <==> Sum(a, b) == ZERO
  {
    hide Sum;
    SumAssoc(a, c, c);
    SumAssoc(b, c, c);
    SumZero(c);
    SumZero(a);
    SumZero(b);
    SumAssoc(a, b, b);
  }
}
