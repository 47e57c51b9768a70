/** A datagram on the wire: a header of 48 bytes with its checksum, then the payload. */
module PacketCodec {
  import opened Common
  import opened Galois
  import opened WireFormat
  import opened Crc32
  import opened Bursts

  const MAGIC: bv32 := 0x54474854
  const VERSION: Byte := 1
  const HEADER_SIZE := 48

  /** The payload size is a number, since it decides how much is read; the other fields are only carried. */
  datatype Header = Header(
    magic: bv32, version: Byte, kind: Byte, flags: bv16, clientId: bv32, sessionId: bv64, sequence: bv32,
    acknowledgment: bv32, messageId: bv32, fragmentIndex: bv16, fragmentCount: bv16, payloadSize: nat,
    reserved: bv16, tick: bv32, checksum: bv32)

  function PutCount(n: nat): (b: Bytes)
    ensures |b| == 2
  {
    [ByteOf(n / 256), ByteOf(n)]
  }

  function GetCount(b: Bytes): nat
    requires |b| == 2
  {
    ValueOf(b[0]) * 256 + ValueOf(b[1])
  }

  lemma CountRoundTrip(n: nat)
    requires n < 0x1_0000
    ensures GetCount(PutCount(n)) == n
  {
    hide ByteOf, ValueOf;
    ByteValue(n / 256);
    ByteValue(n);
    TwoDigits(n);
    hide *;
  }

  lemma TwoDigits(n: nat)
    requires n < 0x1_0000
    ensures n / 256 % 256 * 256 + n % 256 == n
  {}

  lemma SameDigits(a: nat, b: nat, c: nat, d: nat)
    requires b < 256 && d < 256
    ensures a * 256 + b == c * 256 + d <==> a == c && b == d
  {}

  lemma SameByte(b: Byte, c: Byte)
    ensures ValueOf(b) == ValueOf(c) <==> b == c
  {
    hide ByteOf, ValueOf;
    ByteIndex(b);
    ByteIndex(c);
  }

  lemma CountBytesFixed(b: Bytes, c: Bytes)
    requires |b| == |c| == 2
    ensures GetCount(b) == GetCount(c) <==> b == c
  {
    hide ByteOf, ValueOf;
    ByteIndex(b[1]);
    ByteIndex(c[1]);
    SameDigits(ValueOf(b[0]), ValueOf(b[1]), ValueOf(c[0]), ValueOf(c[1]));
    SameByte(b[0], c[0]);
    SameByte(b[1], c[1]);
    assert b == [b[0], b[1]] && c == [c[0], c[1]];
  }

  lemma PutGetCount(b: Bytes)
    requires |b| == 2
    ensures GetCount(b) < 0x1_0000 && PutCount(GetCount(b)) == b
  {
    hide ByteOf, ValueOf, PutCount;
    ByteIndex(b[0]);
    ByteIndex(b[1]);
    CountRoundTrip(GetCount(b));
    CountBytesFixed(PutCount(GetCount(b)), b);
  }

  // ---------- Layout ----------

  function Slice(d: Bytes, from: nat, n: nat): (s: Bytes)
    requires from + n <= |d|
    ensures |s| == n
  {
    d[from..from + n]
  }

  ghost predicate CarriesFront(d: Bytes, h: Header)
    requires |d| >= 20
  {
    && Slice(d, 0, 4) == Put32(h.magic) && d[4] == h.version && d[5] == h.kind
    && Slice(d, 6, 2) == Put16(h.flags) && Slice(d, 8, 4) == Put32(h.clientId)
    && Slice(d, 12, 8) == Put64(h.sessionId)
  }

  ghost predicate CarriesNumbers(d: Bytes, h: Header)
    requires |d| >= 32
  {
    && Slice(d, 20, 4) == Put32(h.sequence) && Slice(d, 24, 4) == Put32(h.acknowledgment)
    && Slice(d, 28, 4) == Put32(h.messageId)
  }

  ghost predicate CarriesSizes(d: Bytes, h: Header)
    requires |d| >= 44
  {
    && Slice(d, 32, 2) == Put16(h.fragmentIndex) && Slice(d, 34, 2) == Put16(h.fragmentCount)
    && Slice(d, 36, 2) == PutCount(h.payloadSize) && Slice(d, 38, 2) == Put16(h.reserved)
    && Slice(d, 40, 4) == Put32(h.tick)
  }

  /** The first 44 bytes hold the fields. */
  ghost predicate Carries(d: Bytes, h: Header) {
    |d| >= 44 && CarriesFront(d, h) && CarriesNumbers(d, h) && CarriesSizes(d, h)
  }

  /** What the checksum is taken over: the datagram with zeros in its place. */
  function Checked(d: Bytes, size: nat): Bytes
    requires HEADER_SIZE + size <= |d|
  {
    d[..44] + [0, 0, 0, 0] + d[HEADER_SIZE..HEADER_SIZE + size]
  }

  /** The datagram of a header and a payload. */
  ghost predicate Encodes(d: Bytes, h: Header, p: Bytes) {
    && |d| == HEADER_SIZE + |p| && Carries(d, h) && d[HEADER_SIZE..] == p
    && Slice(d, 44, 4) == Put32(Checksum(Checked(d, |p|)))
  }

  function ReadHeader(d: Bytes): Header
    requires |d| >= HEADER_SIZE
  {
    Header(Get32(Slice(d, 0, 4)), d[4], d[5], Get16(Slice(d, 6, 2)), Get32(Slice(d, 8, 4)), Get64(Slice(d, 12, 8)),
           Get32(Slice(d, 20, 4)), Get32(Slice(d, 24, 4)), Get32(Slice(d, 28, 4)), Get16(Slice(d, 32, 2)),
           Get16(Slice(d, 34, 2)), GetCount(Slice(d, 36, 2)), Get16(Slice(d, 38, 2)), Get32(Slice(d, 40, 4)),
           Get32(Slice(d, 44, 4)))
  }

  function Decoded(d: Bytes): Option<(Header, Bytes)> {
    if |d| < HEADER_SIZE then None
    else
      var h := ReadHeader(d);
      if h.magic != MAGIC || h.version != VERSION || |d| < HEADER_SIZE + h.payloadSize then None
      else if Checksum(Checked(d, h.payloadSize)) != h.checksum then None
      else Some((h, d[HEADER_SIZE..HEADER_SIZE + h.payloadSize]))
  }

  // ---------- Encoding ----------

  method PutAt(out: array<Byte>, from: nat, b: Bytes)
    requires from + |b| <= out.Length
    modifies out
    ensures out[from..from + |b|] == b
    ensures forall j :: 0 <= j < out.Length && !(from <= j < from + |b|) ==> out[j] == old(out[j])
  {
    for i := 0 to |b|
      invariant forall j :: 0 <= j < i ==> out[from + j] == b[j]
      invariant forall j :: 0 <= j < out.Length && !(from <= j < from + i) ==> out[j] == old(out[j])
    {
      out[from + i] := b[i];
    }
  }

  method PutFront(h: Header, out: array<Byte>)
    requires out.Length >= HEADER_SIZE
    modifies out
    ensures CarriesFront(out[..], h)
    ensures forall j :: 20 <= j < out.Length ==> out[j] == old(out[j])
  {
    hide Put16, Put32, Put64;
    PutAt(out, 0, Put32(h.magic));
    out[4], out[5] := h.version, h.kind;
    PutAt(out, 6, Put16(h.flags));
    PutAt(out, 8, Put32(h.clientId));
    PutAt(out, 12, Put64(h.sessionId));
  }

  method PutNumbers(h: Header, out: array<Byte>)
    requires out.Length >= HEADER_SIZE
    modifies out
    ensures CarriesNumbers(out[..], h)
    ensures forall j :: 0 <= j < out.Length && !(20 <= j < 32) ==> out[j] == old(out[j])
  {
    hide Put16, Put32, Put64;
    PutAt(out, 20, Put32(h.sequence));
    PutAt(out, 24, Put32(h.acknowledgment));
    PutAt(out, 28, Put32(h.messageId));
  }

  method PutFragment(h: Header, out: array<Byte>)
    requires out.Length >= HEADER_SIZE
    modifies out
    ensures Slice(out[..], 32, 2) == Put16(h.fragmentIndex) && Slice(out[..], 34, 2) == Put16(h.fragmentCount)
    ensures forall j :: 0 <= j < out.Length && !(32 <= j < 36) ==> out[j] == old(out[j])
  {
    hide Put16;
    PutAt(out, 32, Put16(h.fragmentIndex));
    PutAt(out, 34, Put16(h.fragmentCount));
  }

  method PutSizes(h: Header, out: array<Byte>)
    requires out.Length >= HEADER_SIZE
    modifies out
    ensures Slice(out[..], 36, 2) == PutCount(h.payloadSize) && Slice(out[..], 38, 2) == Put16(h.reserved)
    ensures Slice(out[..], 40, 4) == Put32(h.tick)
    ensures forall j :: 0 <= j < out.Length && !(36 <= j < 44) ==> out[j] == old(out[j])
  {
    hide Put16, Put32, PutCount;
    PutAt(out, 36, PutCount(h.payloadSize));
    PutAt(out, 38, Put16(h.reserved));
    PutAt(out, 40, Put32(h.tick));
  }

  lemma SlicePrefix(d: Bytes, e: Bytes, m: nat, from: nat, n: nat)
    requires from + n <= m <= |d| && m <= |e| && d[..m] == e[..m]
    ensures Slice(e, from, n) == Slice(d, from, n)
  {
    assert Slice(d, from, n) == Slice(d[..m], from, n);
    assert Slice(e, from, n) == Slice(e[..m], from, n);
  }

  lemma FrontKept(d: Bytes, e: Bytes, h: Header)
    requires |d| == |e| >= HEADER_SIZE && CarriesFront(d, h) && d[..20] == e[..20]
    ensures CarriesFront(e, h)
  {
    hide Put16, Put32, Put64;
    forall from: nat, n: nat | from + n <= 20 ensures Slice(e, from, n) == Slice(d, from, n) {
      SlicePrefix(d, e, 20, from, n);
    }
    assert e[4] == e[..20][4] && e[5] == e[..20][5];
  }

  lemma NumbersKept(d: Bytes, e: Bytes, h: Header)
    requires |d| == |e| >= HEADER_SIZE && CarriesNumbers(d, h) && d[..32] == e[..32]
    ensures CarriesNumbers(e, h)
  {
    hide Put32;
    forall from: nat, n: nat | from + n <= 32 ensures Slice(e, from, n) == Slice(d, from, n) {
      SlicePrefix(d, e, 32, from, n);
    }
  }

  lemma SizesKept(d: Bytes, e: Bytes, h: Header)
    requires |d| == |e| >= HEADER_SIZE && CarriesSizes(d, h) && d[..44] == e[..44]
    ensures CarriesSizes(e, h)
  {
    hide Put16, Put32, PutCount;
    forall from: nat, n: nat | from + n <= 44 ensures Slice(e, from, n) == Slice(d, from, n) {
      SlicePrefix(d, e, 44, from, n);
    }
  }

  lemma CarriesKept(d: Bytes, e: Bytes, h: Header)
    requires |d| == |e| >= HEADER_SIZE && Carries(d, h) && d[..44] == e[..44]
    ensures Carries(e, h)
  {
    assert d[..20] == d[..44][..20] && e[..20] == e[..44][..20];
    assert d[..32] == d[..44][..32] && e[..32] == e[..44][..32];
    FrontKept(d, e, h);
    NumbersKept(d, e, h);
    SizesKept(d, e, h);
    hide *;
  }

  /** The header with zeros for the checksum. */
  method EncodeHeaderTo(h: Header, out: array<Byte>) returns (size: nat)
    requires out.Length >= HEADER_SIZE
    modifies out
    ensures size == HEADER_SIZE
    ensures Carries(out[..], h) && Slice(out[..], 44, 4) == Put32(0)
    ensures forall j :: HEADER_SIZE <= j < out.Length ==> out[j] == old(out[j])
  {
    hide CarriesFront, CarriesNumbers, Put16, Put32, PutCount, Slice;
    PutFront(h, out);
    ghost var front := out[..];
    PutNumbers(h, out);
    ghost var numbers := out[..];
    PutFragment(h, out);
    ghost var fragment := out[..];
    PutSizes(h, out);
    ghost var sizes := out[..];
    PutAt(out, 44, Put32(0));
    ghost var all := out[..];
    assert front[..20] == all[..20] && numbers[..32] == all[..32];
    FrontKept(front, all, h);
    NumbersKept(numbers, all, h);
    SliceKept(fragment, all, 32, 2);
    SliceKept(fragment, all, 34, 2);
    SliceKept(sizes, all, 36, 2);
    SliceKept(sizes, all, 38, 2);
    SliceKept(sizes, all, 40, 4);
    SliceIs(all, 44, 4);
    size := HEADER_SIZE;
  }

  lemma SliceKept(d: Bytes, e: Bytes, from: nat, n: nat)
    requires from + n <= |d| == |e|
    requires forall j :: from <= j < from + n ==> d[j] == e[j]
    ensures Slice(d, from, n) == Slice(e, from, n)
  {}

  lemma SliceIs(d: Bytes, from: nat, n: nat)
    requires from + n <= |d|
    ensures Slice(d, from, n) == d[from..from + n]
  {}

  function Blanked(d: Bytes): Bytes
    requires |d| >= HEADER_SIZE
  {
    d[..44] + [0, 0, 0, 0] + d[HEADER_SIZE..]
  }

  /** Puts the checksum of the assembled datagram in its place; anything shorter than a header is left alone. */
  method FinalizeCrc(table: CrcTable, datagram: array<Byte>, size: nat)
    requires table.Valid() && size <= datagram.Length
    modifies datagram
    ensures forall j :: 0 <= j < datagram.Length && !(44 <= j < HEADER_SIZE && size >= HEADER_SIZE) ==>
              datagram[j] == old(datagram[j])
    ensures size >= HEADER_SIZE ==> datagram[44..HEADER_SIZE] == Put32(Checksum(Blanked(old(datagram[..size]))))
  {
    hide Put32, Update, Xor;
    if size < HEADER_SIZE {
      return;
    }
    PutAt(datagram, 44, [0, 0, 0, 0]);
    assert datagram[..size] == Blanked(old(datagram[..size]));
    var crc := table.Run(0xFFFFFFFF, datagram[..size]);
    PutAt(datagram, 44, Put32(Xor(crc, 0xFFFFFFFF)));
  }

  method EncodeTo(table: CrcTable, h: Header, payload: Bytes, out: array<Byte>) returns (total: nat)
    requires table.Valid() && out.Length >= HEADER_SIZE + |payload|
    modifies out
    ensures total == HEADER_SIZE + |payload| && Encodes(out[..total], h, payload)
    ensures forall j :: total <= j < out.Length ==> out[j] == old(out[j])
  {
    hide Carries, Put32, Checksum, Slice;
    total := EncodeHeaderTo(h, out);
    ghost var header := out[..];
    PutAt(out, HEADER_SIZE, payload);
    total := total + |payload|;
    ghost var whole := out[..total];
    FinalizeCrc(table, out, total);
    ghost var d := out[..total];
    assert d[HEADER_SIZE..] == payload;
    assert d[..44] == whole[..44] == header[..total][..44] == header[..44];
    CarriesPrefix(header, total, h);
    CarriesKept(header[..total], d, h);
    SliceIs(d, 44, 4);
    assert Blanked(whole) == Checked(d, |payload|);
    assert d[44..48] == out[44..48];
  }

  lemma CarriesPrefix(d: Bytes, n: nat, h: Header)
    requires HEADER_SIZE <= n <= |d| && Carries(d, h)
    ensures Carries(d[..n], h)
  {
    var e := d[..n];
    assert forall from: nat, k: nat | from + k <= 44 :: Slice(e, from, k) == Slice(d, from, k);
    hide Put16, Put32, Put64, PutCount;
  }

  method Encode(table: CrcTable, h: Header, payload: Bytes) returns (d: Bytes)
    requires table.Valid()
    ensures Encodes(d, h, payload)
  {
    hide Encodes;
    var buf := new Byte[HEADER_SIZE + |payload|];
    var total := EncodeTo(table, h, payload, buf);
    d := buf[..];
    assert d == buf[..total];
  }

  // ---------- Decoding ----------

  /** A datagram that is ours: long enough for a header, with the right magic and version. */
  predicate Ours(d: Bytes) {
    |d| >= HEADER_SIZE && ReadHeader(d).magic == MAGIC && ReadHeader(d).version == VERSION
  }

  /** The caller's header is filled in from every datagram that is ours, the payload only from one that decodes. */
  method Decode(table: CrcTable, d: Bytes, header0: Header, payload0: Bytes)
    returns (ok: bool, header: Header, payload: Bytes)
    requires table.Valid()
    ensures ok <==> Decoded(d).Some?
    ensures ok ==> Decoded(d) == Some((header, payload))
    ensures header == if Ours(d) then ReadHeader(d) else header0
    ensures !ok ==> payload == payload0
  {
    hide ReadHeader, Update, Xor;
    header, payload := header0, payload0;
    if |d| < HEADER_SIZE {
      return false, header, payload;
    }
    var h := ReadHeader(d);
    if h.magic != MAGIC {
      return false, header, payload;
    }
    if h.version != VERSION {
      return false, header, payload;
    }
    header := h;
    if |d| < HEADER_SIZE + h.payloadSize {
      return false, header, payload;
    }
    var body := d[HEADER_SIZE..HEADER_SIZE + h.payloadSize];
    var crc := table.Run(0xFFFFFFFF, d[..44]);
    crc := table.Run(crc, [0, 0, 0, 0]);
    crc := table.Run(crc, body);
    UpdateConcat(0xFFFFFFFF, d[..44], [0, 0, 0, 0]);
    UpdateConcat(0xFFFFFFFF, d[..44] + [0, 0, 0, 0], body);
    if Xor(crc, 0xFFFFFFFF) != h.checksum {
      return false, header, payload;
    }
    return true, header, body;
  }

  // ---------- Round trip ----------

  lemma ReadsBack(d: Bytes, h: Header)
    requires |d| >= HEADER_SIZE && Carries(d, h) && h.payloadSize < 0x1_0000
    ensures ReadHeader(d) == h.(checksum := Get32(Slice(d, 44, 4)))
  {
    hide Put16, Put32, Put64, PutCount, Get16, Get32, Get64, GetCount, Slice;
    GetPut32(h.magic);
    GetPut16(h.flags);
    GetPut32(h.clientId);
    GetPut64(h.sessionId);
    GetPut32(h.sequence);
    GetPut32(h.acknowledgment);
    GetPut32(h.messageId);
    GetPut16(h.fragmentIndex);
    GetPut16(h.fragmentCount);
    CountRoundTrip(h.payloadSize);
    GetPut16(h.reserved);
    GetPut32(h.tick);
  }

  /** Decoding what was encoded gives the header and the payload back, whatever follows the datagram. */
  lemma RoundTrip(d: Bytes, h: Header, p: Bytes, trailing: Bytes)
    requires Encodes(d, h, p) && h.magic == MAGIC && h.version == VERSION
    requires h.payloadSize == |p| < 0x1_0000
    ensures Decoded(d + trailing) == Some((h.(checksum := Checksum(Checked(d, |p|))), p))
  {
    var e := d + trailing;
    hide Carries, ReadHeader, Slice, Put32, Get32, Checksum;
    CarriesLonger(d, trailing, h);
    ReadsBack(e, h);
    SliceLonger(d, trailing, 44, 4);
    GetPut32(Checksum(Checked(d, |p|)));
    assert Checked(e, |p|) == Checked(d, |p|);
    assert e[HEADER_SIZE..HEADER_SIZE + |p|] == p;
  }

  lemma SliceLonger(d: Bytes, trailing: Bytes, from: nat, n: nat)
    requires from + n <= |d|
    ensures Slice(d + trailing, from, n) == Slice(d, from, n)
  {}

  lemma CarriesLonger(d: Bytes, trailing: Bytes, h: Header)
    requires |d| >= HEADER_SIZE && Carries(d, h)
    ensures Carries(d + trailing, h)
  {
    var e := d + trailing;
    assert forall from: nat, k: nat | from + k <= 44 :: Slice(e, from, k) == Slice(d, from, k);
    hide Put16, Put32, Put64, PutCount;
  }

  lemma CarriesRead(d: Bytes)
    requires |d| >= HEADER_SIZE
    ensures Carries(d, ReadHeader(d)) && ReadHeader(d).payloadSize < 0x1_0000
  {
    hide Put16, Put32, Put64, PutCount, Get16, Get32, Get64, GetCount, Slice;
    PutGet32(Slice(d, 0, 4));
    PutGet16(Slice(d, 6, 2));
    PutGet32(Slice(d, 8, 4));
    PutGet64(Slice(d, 12, 8));
    PutGet32(Slice(d, 20, 4));
    PutGet32(Slice(d, 24, 4));
    PutGet32(Slice(d, 28, 4));
    PutGet16(Slice(d, 32, 2));
    PutGet16(Slice(d, 34, 2));
    PutGetCount(Slice(d, 36, 2));
    PutGet16(Slice(d, 38, 2));
    PutGet32(Slice(d, 40, 4));
    PutGet32(Slice(d, 44, 4));
  }

  /** The header and payload whose datagram, with anything behind it, this is. */
  ghost predicate StartsWith(d: Bytes, h: Header, p: Bytes) {
    && HEADER_SIZE + |p| <= |d| && Encodes(d[..HEADER_SIZE + |p|], h, p)
    && h.magic == MAGIC && h.version == VERSION && h.payloadSize == |p| < 0x1_0000
    && h.checksum == Checksum(Checked(d, |p|))
  }

  /** Only datagrams the encoder makes are accepted: one decodes to a header and a payload exactly when it is their
      datagram, or that with other bytes behind it. */
  lemma DecodesIff(d: Bytes, h: Header, p: Bytes)
    ensures Decoded(d) == Some((h, p)) <==> StartsWith(d, h, p)
  {
    hide Carries, ReadHeader, Checksum, Slice, Put32, Get32;
    if Decoded(d) == Some((h, p)) {
      DecodedStarts(d, h, p);
    }
    if StartsWith(d, h, p) {
      var e := d[..HEADER_SIZE + |p|];
      RoundTrip(e, h, p, d[HEADER_SIZE + |p|..]);
      assert e + d[HEADER_SIZE + |p|..] == d;
      assert Checked(e, |p|) == Checked(d, |p|);
    }
  }

  lemma DecodedStarts(d: Bytes, h: Header, p: Bytes)
    requires Decoded(d) == Some((h, p))
    ensures StartsWith(d, h, p)
  {
    hide Carries, ReadHeader, Checksum, Slice, Put32, Get32;
    var e := d[..HEADER_SIZE + |p|];
    CarriesRead(d);
    CarriesPrefix(d, HEADER_SIZE + |p|, h);
    assert Checked(e, |p|) == Checked(d, |p|);
    assert e[HEADER_SIZE..] == p;
    ReadsChecksum(d);
    PutGet32(Slice(d, 44, 4));
    assert e + d[HEADER_SIZE + |p|..] == d;
    SliceLonger(e, d[HEADER_SIZE + |p|..], 44, 4);
  }

  lemma ReadsChecksum(d: Bytes)
    requires |d| >= HEADER_SIZE
    ensures ReadHeader(d).checksum == Get32(Slice(d, 44, 4))
  {
    hide Get16, Get32, Get64, GetCount;
  }
}
