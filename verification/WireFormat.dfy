/** Byte order on the wire.

    The code swaps a word with `to_be*` and copies its memory, on a little-endian host.  Words and
    bytes are bit-vectors here; storing and loading are the two memory copies. */
module WireFormat {
  import opened ByteNumbers
  import opened Galois

  function ToBe16(v: bv16): bv16 {
    ((v & 0x00FF) << 8) | ((v & 0xFF00) >> 8)
  }

  function ToBe32(v: bv32): bv32 {
    ((v & 0x000000FF) << 24) | ((v & 0x0000FF00) << 8) | ((v & 0x00FF0000) >> 8) | ((v & 0xFF000000) >> 24)
  }

  function High(v: bv64): bv32 {
    ((v >> 32) & 0xFFFFFFFF) as bv32
  }

  function Low(v: bv64): bv32 {
    (v & 0xFFFFFFFF) as bv32
  }

  function Join(hi: bv32, lo: bv32): bv64 {
    ((hi as bv64) << 32) | (lo as bv64)
  }

  lemma JoinParts(hi: bv32, lo: bv32)
    ensures High(Join(hi, lo)) == hi && Low(Join(hi, lo)) == lo
  {}

  lemma PartsJoin(v: bv64)
    ensures Join(High(v), Low(v)) == v
  {}

  /** The 64-bit swap works word by word: the low half is swapped into the low half. */
  function ToBe64(v: bv64): bv64 {
    Join(ToBe32(High(v)), ToBe32(Low(v)))
  }

  function Store16(v: bv16): (b: Bytes)
    ensures |b| == 2
  {
    [(v & 0xFF) as Byte, ((v >> 8) & 0xFF) as Byte]
  }

  function Store32(v: bv32): (b: Bytes)
    ensures |b| == 4
  {
    [(v & 0xFF) as Byte, ((v >> 8) & 0xFF) as Byte, ((v >> 16) & 0xFF) as Byte, ((v >> 24) & 0xFF) as Byte]
  }

  function Store64(v: bv64): (b: Bytes)
    ensures |b| == 8
  {
    Store32(Low(v)) + Store32(High(v))
  }

  function Load16(b: Bytes): bv16
    requires |b| == 2
  {
    (b[0] as bv16) | ((b[1] as bv16) << 8)
  }

  function Load32(b: Bytes): bv32
    requires |b| == 4
  {
    (b[0] as bv32) | ((b[1] as bv32) << 8) | ((b[2] as bv32) << 16) | ((b[3] as bv32) << 24)
  }

  function Put16(v: bv16): (b: Bytes) ensures |b| == 2 { Store16(ToBe16(v)) }
  function Put32(v: bv32): (b: Bytes) ensures |b| == 4 { Store32(ToBe32(v)) }
  function Put64(v: bv64): (b: Bytes) ensures |b| == 8 { Store64(ToBe64(v)) }

  function Get16(b: Bytes): bv16 requires |b| == 2 { ToBe16(Load16(b)) }
  function Get32(b: Bytes): bv32 requires |b| == 4 { ToBe32(Load32(b)) }

  /** The decoder reads 64 bits as two big-endian words, low word first. */
  function Get64(b: Bytes): bv64
    requires |b| == 8
  {
    Join(Get32(b[4..]), Get32(b[..4]))
  }

  lemma GetPut16(v: bv16)
    ensures Get16(Put16(v)) == v
    ensures Put16(v) == [(v >> 8) as Byte, (v & 0xFF) as Byte]
  {}

  lemma GetPut32(v: bv32)
    ensures Get32(Put32(v)) == v
    ensures Put32(v) == [(v >> 24) as Byte, ((v >> 16) & 0xFF) as Byte, ((v >> 8) & 0xFF) as Byte, (v & 0xFF) as Byte]
  {}

  lemma PutGet16(b: Bytes)
    requires |b| == 2
    ensures Put16(Get16(b)) == b
  {}

  lemma PutGet32(b: Bytes)
    requires |b| == 4
    ensures Put32(Get32(b)) == b
  {}

  /** A 64-bit field is not big-endian: its low word comes first, each word big-endian. */
  lemma Put64Words(v: bv64)
    ensures Put64(v) == Put32(Low(v)) + Put32(High(v))
  {
    hide High, Low, Join, ToBe32, Store32;
    JoinParts(ToBe32(High(v)), ToBe32(Low(v)));
  }

  lemma GetPut64(v: bv64)
    ensures Get64(Put64(v)) == v
  {
    hide High, Low, Join, Put32, Get32, Put64;
    Put64Words(v);
    PartsJoin(v);
    GetPut32(Low(v));
    GetPut32(High(v));
    assert Put64(v)[..4] == Put32(Low(v)) && Put64(v)[4..] == Put32(High(v));
  }

  lemma PutGet64(b: Bytes)
    requires |b| == 8
    ensures Put64(Get64(b)) == b
  {
    hide High, Low, Join, Put32, Get32, Put64;
    Put64Words(Get64(b));
    JoinParts(Get32(b[4..]), Get32(b[..4]));
    PutGet32(b[..4]);
    PutGet32(b[4..]);
    assert b == b[..4] + b[4..];
  }

  // ---------- The length prefix of a message ----------

  function ByteOf(n: nat): Byte {
    (n % 256) as Byte
  }

  function ValueOf(b: Byte): nat {
    b as int
  }

  lemma ByteValue(n: nat)
    ensures ValueOf(ByteOf(n)) == n % 256
  {
    var r := n % 256;
    SmallByte(r);
    assert ByteOf(n) == r as Byte;
    assert ValueOf(r as Byte) == r;
    hide *;
  }

  /** A length in four big-endian bytes. */
  function PutLength(n: nat): (b: Bytes)
    ensures |b| == 4
  {
    [ByteOf(n / 256 / 256 / 256), ByteOf(n / 256 / 256), ByteOf(n / 256), ByteOf(n)]
  }

  function GetLength(b: Bytes): nat
    requires |b| == 4
  {
    ValueOf(b[0]) * 0x100_0000 + ValueOf(b[1]) * 0x1_0000 + ValueOf(b[2]) * 0x100 + ValueOf(b[3])
  }

  lemma LengthRoundTrip(n: nat)
    requires n < 0x1_0000_0000
    ensures GetLength(PutLength(n)) == n
  {
    var q1 := n / 256;
    var q2 := q1 / 256;
    var q3 := q2 / 256;
    assert n == q1 * 256 + n % 256 && q1 == q2 * 256 + q1 % 256 && q2 == q3 * 256 + q2 % 256 && q3 % 256 == q3;
    hide *;
    ByteValue(n);
    ByteValue(q1);
    ByteValue(q2);
    ByteValue(q3);
    LengthDigits(n);
  }

  lemma LengthDigits(n: nat)
    ensures var b := PutLength(n);
      GetLength(b) == ValueOf(ByteOf(n / 256 / 256 / 256)) * 0x100_0000 + ValueOf(ByteOf(n / 256 / 256)) * 0x1_0000
                      + ValueOf(ByteOf(n / 256)) * 0x100 + ValueOf(ByteOf(n))
  {
    hide ByteOf, ValueOf;
  }

  // ---------- The channel and real-size field ----------

  function PackReserved(channel: bv16, realSize: bv16): bv16 {
    (realSize & 0x0FFF) | ((channel & 0x000F) << 12)
  }

  function ChannelOf(reserved: bv16): bv16 {
    (reserved & 0xF000) >> 12
  }

  function RealSizeOf(reserved: bv16): bv16 {
    reserved & 0x0FFF
  }

  /** Both fields come back exactly when the channel fits four bits and the size twelve. */
  lemma ReservedRoundTrip(channel: bv16, realSize: bv16)
    ensures ChannelOf(PackReserved(channel, realSize)) == channel <==> channel < 16
    ensures RealSizeOf(PackReserved(channel, realSize)) == realSize <==> realSize < 4096
  {}
}
