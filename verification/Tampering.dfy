/** Which altered datagrams the decoder turns away. */
module Tampering {
  import opened Common
  import opened Galois
  import opened WireFormat
  import opened Crc32
  import opened Bursts
  import opened PacketCodec

  ghost predicate WellEncoded(d: Bytes, h: Header, p: Bytes) {
    Encodes(d, h, p) && h.magic == MAGIC && h.version == VERSION && h.payloadSize == |p| < 0x1_0000
  }

  /** The checksum field and the rest are not both touched. */
  ghost predicate OneSide(d: Bytes, e: Bytes)
    requires |d| == |e| >= HEADER_SIZE
  {
    d[44..HEADER_SIZE] == e[44..HEADER_SIZE] || Blanked(d) == Blanked(e)
  }

  lemma SameSizeField(d: Bytes, e: Bytes, h: Header, p: Bytes)
    requires WellEncoded(d, h, p) && |e| == |d| && d[36..38] == e[36..38]
    ensures ReadHeader(e).payloadSize == |p|
  {
    hide Put16, Put32, Put64, PutCount, Get16, Get32, Get64, GetCount;
    CountRoundTrip(|p|);
    assert Slice(e, 36, 2) == Slice(d, 36, 2) == PutCount(|p|);
  }

  lemma ChecksumField(d: Bytes, h: Header, p: Bytes)
    requires WellEncoded(d, h, p)
    ensures Get32(Slice(d, 44, 4)) == Checksum(Checked(d, |p|))
  {
    hide Carries, Get32, Put32, Checksum;
    GetPut32(Checksum(Checked(d, |p|)));
  }

  lemma SameWord(b: Bytes, c: Bytes)
    requires |b| == |c| == 4
    ensures Get32(b) == Get32(c) <==> b == c
  {
    hide *;
    PutGet32(b);
    PutGet32(c);
  }

  /** Alter up to four consecutive bytes, other than the two of the payload size, on one side of the boundary
      of the checksum: the decoder refuses the result. */
  lemma AlteredIsRefused(d: Bytes, e: Bytes, h: Header, p: Bytes, i: nat)
    requires WellEncoded(d, h, p) && e != d && DifferWithin(d, e, i)
    requires d[36..38] == e[36..38] && OneSide(d, e)
    ensures Decoded(e) == None
  {
    SameSizeField(d, e, h, p);
    ChecksumField(d, h, p);
    ChecksumsDiffer(d, e, p, i);
    hide ReadHeader, Checksum, Checked, Carries, OneSide, DifferWithin;
    ReadsChecksum(e);
  }

  lemma ChecksumsDiffer(d: Bytes, e: Bytes, p: Bytes, i: nat)
    requires |d| == |e| == HEADER_SIZE + |p| && e != d && DifferWithin(d, e, i) && OneSide(d, e)
    requires Get32(Slice(d, 44, 4)) == Checksum(Checked(d, |p|))
    ensures Get32(Slice(e, 44, 4)) != Checksum(Checked(e, |p|))
  {
    hide Get32, Update, Xor;
    var s, t := Checked(d, |p|), Checked(e, |p|);
    assert s == Blanked(d) && t == Blanked(e);
    PartsEqual(d, e);
    if d[44..HEADER_SIZE] == e[44..HEADER_SIZE] {
      assert DifferWithin(s, t, i);
      BurstNoticed(0xFFFFFFFF, s, t, i);
      XorCancel(Update(0xFFFFFFFF, s), 0xFFFFFFFF);
      XorCancel(Update(0xFFFFFFFF, t), 0xFFFFFFFF);
    } else {
      SameWord(Slice(d, 44, 4), Slice(e, 44, 4));
    }
  }

  lemma PartsEqual(d: Bytes, e: Bytes)
    requires |d| == |e| >= HEADER_SIZE
    ensures d == e <==> d[44..HEADER_SIZE] == e[44..HEADER_SIZE] && Blanked(d) == Blanked(e)
  {
    if d[44..HEADER_SIZE] == e[44..HEADER_SIZE] && Blanked(d) == Blanked(e) {
      assert d[..44] == Blanked(d)[..44] && d[HEADER_SIZE..] == Blanked(d)[HEADER_SIZE..];
      assert e[..44] == Blanked(e)[..44] && e[HEADER_SIZE..] == Blanked(e)[HEADER_SIZE..];
      assert d == d[..44] + d[44..HEADER_SIZE] + d[HEADER_SIZE..];
      assert e == e[..44] + e[44..HEADER_SIZE] + e[HEADER_SIZE..];
    }
  }

  /** In particular any single altered byte outside the payload size. */
  lemma AlteredByteIsRefused(d: Bytes, h: Header, p: Bytes, i: nat, b: Byte)
    requires WellEncoded(d, h, p) && i < |d| && i != 36 && i != 37 && b != d[i]
    ensures Decoded(d[i := b]) == None
  {
    var e := d[i := b];
    assert e[i] == b;
    if 44 <= i < HEADER_SIZE {
      assert Blanked(d) == Blanked(e);
    } else {
      assert d[44..HEADER_SIZE] == e[44..HEADER_SIZE];
    }
    hide Encodes, Decoded;
    AlteredIsRefused(d, e, h, p, i);
  }

  // ---------- The size field ----------

  function WordBytes(w: bv32): (b: Bytes)
    ensures |b| == 4
  {
    [LowByte(w), LowByte(Down8(w)), LowByte(Down8(Down8(w))), LowByte(Down8(Down8(Down8(w))))]
  }

  lemma WordOfBytes(w: bv32)
    ensures Word(WordBytes(w)) == w
  {
    WordOfLowBytes(w);
    hide Xor, Widen, Up8, LowByte, Down8;
  }

  lemma WordOfLowBytes(w: bv32)
    ensures Xor(Xor(Xor(Widen(LowByte(w)), Up8(Widen(LowByte(Down8(w))))), Up8(Up8(Widen(LowByte(Down8(Down8(w))))))),
                Up8(Up8(Up8(Widen(LowByte(Down8(Down8(Down8(w))))))))) == w
  {}

  /** Four bytes lead from any state to any other. */
  lemma Steer(from: bv32, to: bv32) returns (tail: Bytes)
    ensures |tail| == 4 && Update(from, tail) == to
  {
    hide Xor, Word, Shift8, Unshift8;
    var back := Unshift8(Unshift8(Unshift8(Unshift8(to))));
    Shift8Unshift8(to);
    Shift8Unshift8(Unshift8(to));
    Shift8Unshift8(Unshift8(Unshift8(to)));
    Shift8Unshift8(Unshift8(Unshift8(Unshift8(to))));
    tail := WordBytes(Xor(back, from));
    WordOfBytes(Xor(back, from));
    FourSteps(from, tail);
    XorCancel(back, from);
    XorComm(from, Xor(back, from));
  }

  /** Byte `at` of the size field, 36 or 37, is the only one in which two sizes differ. */
  ghost predicate DifferOnlyAt(n: nat, longer: nat, at: nat) {
    && 36 <= at <= 37 && n < longer < 0x1_0000
    && (if at == 36 then n % 256 == longer % 256 else n / 256 == longer / 256)
  }

  lemma SizeBytes(n: nat, longer: nat, at: nat)
    requires DifferOnlyAt(n, longer, at)
    ensures PutCount(longer)[at - 36 := PutCount(n)[at - 36]] == PutCount(n) != PutCount(longer)
  {
    CountRoundTrip(n);
    CountRoundTrip(longer);
    hide GetCount, ValueOf, ByteOf;
    if at == 36 {
      assert ByteOf(n) == ByteOf(longer) by { SameLowByte(n, longer); }
    }
  }

  lemma SameLowByte(n: nat, m: nat)
    requires n % 256 == m % 256
    ensures ByteOf(n) == ByteOf(m)
  {
  }

  /** The header of a shorter payload, by changing one byte of the size field. */
  lemma ShorterHeader(front: Bytes, h: Header, n: nat, at: nat)
    requires |front| == 44 && Carries(front, h) && DifferOnlyAt(n, h.payloadSize, at)
    ensures Carries(front[at := PutCount(n)[at - 36]], h.(payloadSize := n))
    ensures front[at := PutCount(n)[at - 36]] != front
  {
    SizeBytes(n, h.payloadSize, at);
    hide Put16, Put32, Put64, PutCount;
    var e := front[at := PutCount(n)[at - 36]];
    forall from: nat, k: nat | from + k <= 44 && !(from <= at < from + k)
      ensures Slice(e, from, k) == Slice(front, from, k)
    {
    }
    assert Slice(front, 36, 2) == PutCount(h.payloadSize);
    assert Slice(e, 36, 2) == Slice(front, 36, 2)[at - 36 := PutCount(n)[at - 36]];
  }

  /** The checksum does not protect the size field: for any header, any data q and any filler such that the sizes
      differ in one byte only, there is a longer payload that begins with q and the filler, and changing that one
      byte turns its datagram into one that decodes to q. */
  lemma SizeFieldIsNotProtected(front: Bytes, h: Header, q: Bytes, filler: Bytes, at: nat) returns (p: Bytes, d: Bytes)
    requires |front| == 44 && Carries(front, h) && h.magic == MAGIC && h.version == VERSION
    requires h.payloadSize == |q| + |filler| + 4 && DifferOnlyAt(|q|, h.payloadSize, at)
    ensures q + filler <= p && WellEncoded(d, h, p)
    ensures var e := d[at := PutCount(|q|)[at - 36]];
            e != d && Decoded(e).Some? && Decoded(e).value.1 == q
  {
    hide Update, Carries, Put32, PutCount, Xor, WellEncoded, Decoded;
    var blank := [0, 0, 0, 0];
    var short := front[at := PutCount(|q|)[at - 36]];
    var start := front + blank + q + filler;
    var tail := Steer(Update(0xFFFFFFFF, start), Update(0xFFFFFFFF, short + blank + q));
    p := q + filler + tail;
    UpdateConcat(0xFFFFFFFF, start, tail);
    assert front + blank + p == start + tail;
    var crc := Checksum(front + blank + p);
    d := front + Put32(crc) + p;
    LongEncodes(front, h, p, crc);
    ShorterHeader(front, h, |q|, at);
    ShortDecodes(short, h.(payloadSize := |q|), q, filler + tail, crc);
    assert p == q + (filler + tail);
    assert d[at := PutCount(|q|)[at - 36]] == short + Put32(crc) + p;
    AlteredFront(front, short, Put32(crc) + p);
    assert d == front + (Put32(crc) + p) && short + Put32(crc) + p == short + (Put32(crc) + p);
  }

  lemma AlteredFront(front: Bytes, short: Bytes, rest: Bytes)
    requires |front| == |short| == 44 && front != short
    ensures front + rest != short + rest
  {
    assert (front + rest)[..44] == front && (short + rest)[..44] == short;
  }

  lemma LongEncodes(front: Bytes, h: Header, p: Bytes, crc: bv32)
    requires |front| == 44 && Carries(front, h) && h.magic == MAGIC && h.version == VERSION
    requires h.payloadSize == |p| < 0x1_0000 && crc == Checksum(front + [0, 0, 0, 0] + p)
    ensures WellEncoded(front + Put32(crc) + p, h, p)
  {
    hide Carries, Put32, Checksum;
    var d := front + Put32(crc) + p;
    CarriesLonger44(front, Put32(crc) + p, h);
    assert d == front + (Put32(crc) + p);
    assert d[..44] == front && d[HEADER_SIZE..] == p && d[44..48] == Put32(crc);
    assert Checked(d, |p|) == front + [0, 0, 0, 0] + p;
  }

  lemma ShortDecodes(front: Bytes, h: Header, q: Bytes, rest: Bytes, crc: bv32)
    requires |front| == 44 && Carries(front, h) && h.magic == MAGIC && h.version == VERSION
    requires h.payloadSize == |q| < 0x1_0000 && crc == Checksum(front + [0, 0, 0, 0] + q)
    ensures var e := front + Put32(crc) + (q + rest);
            Decoded(e).Some? && Decoded(e).value.1 == q
  {
    LongEncodes(front, h, q, crc);
    hide Encodes, Decoded, Put32, Checksum, Carries;
    RoundTrip(front + Put32(crc) + q, h, q, rest);
    assert front + Put32(crc) + q + rest == front + Put32(crc) + (q + rest);
  }

  lemma CarriesLonger44(d: Bytes, rest: Bytes, h: Header)
    requires |d| == 44 && Carries(d, h)
    ensures Carries(d + rest, h)
  {
    var e := d + rest;
    assert forall from: nat, k: nat | from + k <= 44 :: Slice(e, from, k) == Slice(d, from, k);
    hide Put16, Put32, Put64, PutCount;
  }
}
