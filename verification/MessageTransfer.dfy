/** From the fragments that arrive, in any order, with any loss and repetition, back to the message. */
module MessageTransfer {
  import opened Common
  import opened Galois
  import opened FieldTables
  import opened ReedSolomon
  import opened Decoder
  import opened WireFormat
  import opened Fragmenter
  import opened Reassembler
  import PacketCodec
  import SequenceTracking

  /** A message as it was sent. */
  datatype Sent = Sent(payload: Bytes, width: nat, parityCount: nat, channel: nat) {
    function Full(): Bytes { Framed(payload) }

    function Pieces(): seq<Bytes>
      requires width > 0
    {
      Chunks(Full(), width)
    }

    function Total(): nat
      requires width > 0
    {
      |Pieces()| + parityCount
    }

    function PacketNo(id: nat, i: nat): Packet
      requires width > 0
    {
      PacketAt(payload, width, parityCount, id, channel, i)
    }

    /** Within the sizes the wire format can carry: the real size of a fragment has twelve bits, the
        counts sixteen, the length prefix thirty-two. */
    ghost predicate Sendable(maxBytes: nat) {
      4 < width <= 4095 && |payload| <= maxBytes && |payload| + 4 < 0x1_0000_0000 && Total() < 0x1_0000
    }
  }

  ghost predicate Genuine(p: Packet, m: Sent) {
    m.width > 0 && p.index < m.Total() && p == m.PacketNo(p.messageId, p.index)
  }

  /** The entry holds only fragments of the message. */
  ghost predicate EntryOf(e: Incoming, m: Sent, id: nat) {
    && m.width > 0 && WellFormed(e) && e.messageId == id && e.totalCount == m.Total() && e.dataCount == |m.Pieces()|
    && forall i: nat | i < e.totalCount && e.fragments[i].Some? ::
         e.fragments[i].value == m.PacketNo(id, i).payload && e.sizes[i] == m.PacketNo(id, i).realSize
  }

  // ---------- The stream of a message ----------

  /** Zero-padded pieces, each counted with its own length or with the full width. */
  ghost predicate HoldsPieces(data: seq<Fragment>, sizes: seq<nat>, m: Sent)
  {
    && m.width > 0 && |data| == |sizes| == |m.Pieces()|
    && forall i: nat | i < |data| ::
         data[i] == Some(Fit(m.Pieces()[i], m.width)) && (sizes[i] == |m.Pieces()[i]| || sizes[i] == m.width)
  }

  lemma PieceLength(m: Sent, i: nat)
    requires m.width > 0 && i < |m.Pieces()|
    ensures m.Pieces()[i] == m.Full()[i * m.width..Min(i * m.width + m.width, |m.Full()|)]
    ensures 0 < |m.Pieces()[i]| <= m.width
    ensures i + 1 < |m.Pieces()| ==> |m.Pieces()[i]| == m.width && i * m.width + m.width <= |m.Full()|
    ensures i + 1 == |m.Pieces()| ==> i * m.width <= |m.Full()| && m.Pieces()[i] == m.Full()[i * m.width..]
  {
    hide Framed, DataCount;
    ChunkStart(|m.Full()|, m.width, i);
    ChunkStart(|m.Full()|, m.width, i + 1);
    assert (i + 1) * m.width == i * m.width + m.width;
  }

  lemma TakenFit(piece: Bytes, width: nat, size: nat)
    requires |piece| <= width && (size == |piece| || size == width)
    ensures piece <= Taken(Fit(piece, width), size)
    ensures |piece| == width ==> Taken(Fit(piece, width), size) == piece
  {}

  /** The i-th fragment, taken at its recorded size, starts with the i-th piece, and is that piece if it is full. */
  lemma HeldPiece(data: seq<Fragment>, sizes: seq<nat>, m: Sent, i: nat)
    requires HoldsPieces(data, sizes, m) && i < |data|
    ensures |data| == |sizes| == |m.Pieces()| && (forall j: nat | j <= i :: data[j].Some?)
    ensures m.Pieces()[i] <= Taken(data[i].value, sizes[i])
    ensures |m.Pieces()[i]| == m.width ==> Taken(data[i].value, sizes[i]) == m.Pieces()[i]
  {
    hide Fit, Taken, Framed, Chunks, DataCount, Min;
    PieceLength(m, i);
    TakenFit(m.Pieces()[i], m.width, sizes[i]);
  }

  /** Where the n-th piece begins. */
  function Reach(width: nat, n: nat): nat {
    if n == 0 then 0 else Reach(width, n - 1) + width
  }

  lemma {:induction false} ReachIs(width: nat, n: nat)
    ensures Reach(width, n) == n * width
  {
    if n > 0 {
      ReachIs(width, n - 1);
      assert (n - 1) * width + width == n * width;
    }
  }

  lemma {:induction false} StreamOfPieces(data: seq<Fragment>, sizes: seq<nat>, m: Sent, n: nat)
    requires HoldsPieces(data, sizes, m) && n < |data|
    ensures |data| == |sizes| && (forall j: nat | j < n :: data[j].Some?)
    ensures Reach(m.width, n) <= |m.Full()| && Stream(data, sizes, n) == m.Full()[..Reach(m.width, n)]
  {
    hide Fit, Taken, Framed, Chunks, DataCount, HoldsPieces, Sent.Full, Sent.Pieces;
    HeldPiece(data, sizes, m, n);
    if n > 0 {
      StreamOfPieces(data, sizes, m, n - 1);
      StreamOnePiece(data, sizes, m, n);
    }
  }

  lemma StreamOnePiece(data: seq<Fragment>, sizes: seq<nat>, m: Sent, n: nat)
    requires HoldsPieces(data, sizes, m) && 0 < n < |data|
    requires Reach(m.width, n - 1) <= |m.Full()| && |sizes| == |data| && (forall j: nat | j < n :: data[j].Some?)
    requires Stream(data, sizes, n - 1) == m.Full()[..Reach(m.width, n - 1)]
    ensures Reach(m.width, n) <= |m.Full()| && Stream(data, sizes, n) == m.Full()[..Reach(m.width, n)]
  {
    hide Fit, Taken, Framed, Chunks, DataCount, Stream, HoldsPieces, Sent.Full, Sent.Pieces;
    WidthPositive(data, sizes, m);
    HeldPiece(data, sizes, m, n - 1);
    StreamNext(data, sizes, n - 1);
    FullPiece(m, n);
    Glue(m.Full(), Stream(data, sizes, n - 1), m.Pieces()[n - 1], Stream(data, sizes, n), Reach(m.width, n - 1),
        m.width);
  }

  /** Every piece but the last is full. */
  lemma FullPiece(m: Sent, n: nat)
    requires m.width > 0 && 0 < n < |m.Pieces()|
    ensures Reach(m.width, n) == Reach(m.width, n - 1) + m.width <= |m.Full()|
    ensures |m.Pieces()[n - 1]| == m.width
    ensures m.Pieces()[n - 1] == m.Full()[Reach(m.width, n - 1)..Reach(m.width, n - 1) + m.width]
  {
    hide Framed, DataCount, Chunks;
    ReachIs(m.width, n - 1);
    PieceLength(m, n - 1);
  }

  lemma Glue(full: Bytes, before: Bytes, piece: Bytes, after: Bytes, at: nat, width: nat)
    requires at + width <= |full| && before == full[..at] && piece == full[at..at + width] && after == before + piece
    ensures after == full[..at + width]
  {}

  lemma PieceSize(m: Sent, i: nat)
    requires m.width > 0 && i < |m.Pieces()|
    ensures 0 < |m.Pieces()[i]| <= m.width && |m.Pieces()[i]| <= |m.Full()|
  {
    hide Framed, DataCount, Chunks;
    PieceLength(m, i);
  }

  /** All pieces together start with the framed message; only padding may follow. */
  lemma WholeStream(data: seq<Fragment>, sizes: seq<nat>, m: Sent)
    requires HoldsPieces(data, sizes, m)
    ensures m.Full() <= Stream(data, sizes, |data|)
  {
    hide Fit, Taken, Framed, Chunks, DataCount, Min, Stream, HoldsPieces, Sent.Full, Sent.Pieces;
    WidthPositive(data, sizes, m);
    var d := |data|;
    StreamOfPieces(data, sizes, m, d - 1);
    HeldPiece(data, sizes, m, d - 1);
    StreamNext(data, sizes, d - 1);
    LastPieceIs(m, d - 1);
    LastPiece(m.Full(), Stream(data, sizes, d - 1), m.Pieces()[d - 1], Stream(data, sizes, d), Reach(m.width, d - 1));
  }

  lemma LastPieceIs(m: Sent, i: nat)
    requires m.width > 0 && i + 1 == |m.Pieces()|
    ensures Reach(m.width, i) <= |m.Full()| && m.Pieces()[i] == m.Full()[Reach(m.width, i)..]
  {
    hide Framed, DataCount, Chunks;
    ReachIs(m.width, i);
    PieceLength(m, i);
  }

  lemma WidthPositive(data: seq<Fragment>, sizes: seq<nat>, m: Sent)
    requires HoldsPieces(data, sizes, m)
    ensures m.width > 0 && |data| == |sizes| == |m.Pieces()| >= 1
  {
    hide Fit, Framed, DataCount;
    AtLeastOneChunk(m.Full(), m.width);
  }

  lemma LastPiece(full: Bytes, before: Bytes, piece: Bytes, stream: Bytes, at: nat)
    requires at <= |full| && before == full[..at] && piece == full[at..] && before + piece <= stream
    ensures full <= stream
  {
    assert full == full[..at] + full[at..];
  }

  lemma ParseFramed(payload: Bytes, stream: Bytes, maxBytes: nat)
    requires Framed(payload) <= stream && |payload| <= maxBytes && |payload| + 4 < 0x1_0000_0000
    ensures Parse(stream, maxBytes) == payload
  {
    hide PutLength, GetLength;
    LengthRoundTrip(|payload|);
    assert stream[..4] == PutLength(|payload|);
    assert stream[4..4 + |payload|] == payload;
  }

  // ---------- Delivery, directly or through repair ----------

  lemma DirectDelivery(e: Incoming, m: Sent, id: nat, maxBytes: nat)
    requires EntryOf(e, m, id) && m.Sendable(maxBytes) && AllHeld(e)
    ensures Parse(Stream(e.fragments, e.sizes, DataFragments(e)), maxBytes) == m.payload
  {
    hide Stream, Parse, Fit, Framed, Chunks, DataCount, Min, ParityOf;
    AtLeastOneChunk(m.Full(), m.width);
    var d := DataFragments(e);
    forall i: nat | i < d ensures 0 < |m.Pieces()[i]| <= m.width { PieceLength(m, i); }
    assert HoldsPieces(e.fragments[..d], e.sizes[..d], m);
    WholeStream(e.fragments[..d], e.sizes[..d], m);
    StreamPrefix(e.fragments, e.sizes, d, d);
    ParseFramed(m.payload, Stream(e.fragments, e.sizes, d), maxBytes);
  }

  lemma {:induction false} StreamPrefix(fragments: seq<Fragment>, sizes: seq<nat>, d: nat, n: nat)
    requires n <= d <= |fragments| == |sizes| && forall i: nat | i < d :: fragments[i].Some?
    ensures Stream(fragments[..d], sizes[..d], n) == Stream(fragments, sizes, n)
  {
    if n == 0 {
    } else {
      StreamPrefix(fragments, sizes, d, n - 1);
    }
  }

  lemma RepairedDelivery(e: Incoming, m: Sent, id: nat, data: seq<Fragment>, maxBytes: nat, message: Bytes)
    requires EntryOf(e, m, id) && m.Sendable(maxBytes) && Longest(e.fragments, e.totalCount) == m.width
    requires RepairedFrom(e, m.Pieces(), data, maxBytes, message)
    ensures message == m.payload
  {
    hide Stream, Parse, Fit, Framed, Chunks, DataCount, Min, ParityOf, Decodable, Longest;
    AtLeastOneChunk(m.Full(), m.width);
    var d := DataFragments(e);
    var sizes := SizesAfter(DataPart(e), e.sizes, m.width);
    forall i: nat | i < d
      ensures data[i] == Some(Fit(m.Pieces()[i], m.width)) && (sizes[i] == |m.Pieces()[i]| || sizes[i] == m.width)
    {
      PieceSize(m, i);
      assert DataPart(e)[i] == e.fragments[i];
    }
    assert HoldsPieces(data, sizes, m);
    WholeStream(data, sizes, m);
    ParseFramed(m.payload, Stream(data, sizes, |data|), maxBytes);
  }

  /** What is held is consistent with the pieces that were sent, so the decoder restores those. */
  lemma HeldConsistent(e: Incoming, m: Sent, id: nat)
    requires EntryOf(e, m, id)
    ensures Consistent(m.Pieces(), DataPart(e), Parities(e), m.width)
  {
    hide Fit, ParityOf, Framed, Chunks;
    AtLeastOneChunk(m.Full(), m.width);
    var d := DataFragments(e);
    forall j: nat | j < d && DataPart(e)[j].Some?
      ensures Fit(DataPart(e)[j].value, m.width) == Fit(m.Pieces()[j], m.width)
    {
      assert DataPart(e)[j] == e.fragments[j];
      FitFits(m.Pieces()[j], m.width);
    }
    var ps := Parities(e);
    forall r: nat | r < |ps| ensures Fit(ps[r].1, m.width) == ParityOf(m.Pieces(), ps[r].0, m.width) {
      assert e.fragments[d + ps[r].0] == Some(ps[r].1);
      FitSame(ParityOf(m.Pieces(), ps[r].0, m.width), m.width);
    }
  }

  lemma FitFits(f: Bytes, width: nat)
    ensures Fit(Fit(f, width), width) == Fit(f, width)
  {}

  lemma FitSame(f: Bytes, width: nat)
    requires |f| == width
    ensures Fit(f, width) == f
  {}

  /** Every fragment on the wire has the full width. */
  lemma HeldWidth(e: Incoming, m: Sent, id: nat)
    requires EntryOf(e, m, id) && Longest(e.fragments, e.totalCount) > 0
    ensures Longest(e.fragments, e.totalCount) == m.width
  {
    hide Framed, Chunks;
    var i: nat :| i < e.totalCount && e.fragments[i].Some?
                  && |e.fragments[i].value| == Longest(e.fragments, e.totalCount);
  }

  // ---------- Why a fragment may hold at most 4095 bytes ----------

  /** All data fragments of the message as the receiver records them, whatever their width. */
  ghost predicate AllRecorded(data: seq<Fragment>, sizes: seq<nat>, m: Sent)
    ensures AllRecorded(data, sizes, m) ==> |data| == |sizes| && forall i: nat | i < |data| :: data[i].Some?
  {
    && m.width > 0 && |data| == |sizes| == |m.Pieces()|
    && forall i: nat | i < |data| :: data[i] == Some(m.PacketNo(1, i).payload) && sizes[i] == m.PacketNo(1, i).realSize
  }

  lemma TakenLength(f: Bytes, size: nat)
    ensures |Taken(f, size)| <= size
  {}

  /** A piece of 4096 bytes or more loses bytes, and nothing makes up for them. */
  lemma {:induction false} StreamTooShort(data: seq<Fragment>, sizes: seq<nat>, m: Sent, n: nat)
    requires AllRecorded(data, sizes, m) && 0 < n <= |data| && m.width >= 4096 && |m.Full()| >= 4096
    ensures n < |data| ==> Reach(m.width, n) <= |m.Full()| && |Stream(data, sizes, n)| < Reach(m.width, n)
    ensures n == |data| ==> |Stream(data, sizes, n)| < |m.Full()|
  {
    RecordedSize(data, sizes, m, n - 1);
    hide Fit, Framed, Chunks, DataCount, ParityOf, AllRecorded, Stream, Taken, Sent.Full, Sent.Pieces;
    TakenLength(data[n - 1].value, sizes[n - 1]);
    StreamNext(data, sizes, n - 1);
    if n < |data| {
      FullPiece(m, n);
    } else {
      LastPieceIs(m, n - 1);
    }
    if n == 1 {
      NothingRead(data, sizes);
    } else {
      StreamTooShort(data, sizes, m, n - 1);
    }
  }

  lemma NothingRead(data: seq<Fragment>, sizes: seq<nat>)
    ensures Stream(data, sizes, 0) == []
  {}

  /** Twelve bits keep no size of 4096 or more. */
  lemma RecordedSize(data: seq<Fragment>, sizes: seq<nat>, m: Sent, i: nat)
    requires AllRecorded(data, sizes, m) && i < |data|
    ensures m.width > 0 && |data| == |sizes| == |m.Pieces()| && (forall j: nat | j <= i :: data[j].Some?)
    ensures sizes[i] <= |m.Pieces()[i]| && sizes[i] < 4096
  {
    hide Fit, Framed, Chunks, DataCount, ParityOf;
  }

  lemma NarrowDelivers(data: seq<Fragment>, sizes: seq<nat>, m: Sent, maxBytes: nat)
    requires AllRecorded(data, sizes, m) && |m.payload| <= maxBytes && |m.payload| + 4 < 0x1_0000_0000
    requires m.width < 4096 || |m.payload| + 4 < 4096
    ensures Parse(Stream(data, sizes, |data|), maxBytes) == m.payload
  {
    hide Fit, Framed, Chunks, DataCount, ParityOf, Stream, Parse;
    NarrowHolds(data, sizes, m);
    hide AllRecorded, HoldsPieces;
    WholeStream(data, sizes, m);
    ParseFramed(m.payload, Stream(data, sizes, |data|), maxBytes);
  }

  lemma NarrowHolds(data: seq<Fragment>, sizes: seq<nat>, m: Sent)
    requires AllRecorded(data, sizes, m)
    requires m.width < 4096 || |m.payload| + 4 < 4096
    ensures HoldsPieces(data, sizes, m)
  {
    hide Fit, Framed, Chunks, DataCount, ParityOf;
    forall i: nat | i < |data|
      ensures data[i] == Some(Fit(m.Pieces()[i], m.width)) && sizes[i] == |m.Pieces()[i]|
    {
      PieceSize(m, i);
    }
  }

  lemma WideFails(data: seq<Fragment>, sizes: seq<nat>, m: Sent, maxBytes: nat)
    requires AllRecorded(data, sizes, m) && m.width >= 4096 && |m.Full()| >= 4096
    ensures Parse(Stream(data, sizes, |data|), maxBytes) != m.payload
  {
    hide Fit, Chunks, DataCount, ParityOf, Stream, Parse;
    AtLeastOneChunk(m.Full(), m.width);
    StreamTooShort(data, sizes, m, |data|);
    ParseLength(Stream(data, sizes, |data|), maxBytes);
  }

  /** All data fragments together give the message back exactly when no fragment reaches 4096 bytes. */
  lemma DirectDeliveryExact(data: seq<Fragment>, sizes: seq<nat>, m: Sent, maxBytes: nat)
    requires AllRecorded(data, sizes, m) && |m.payload| <= maxBytes && |m.payload| + 4 < 0x1_0000_0000
    ensures Parse(Stream(data, sizes, |data|), maxBytes) == m.payload <==> m.width < 4096 || |m.payload| + 4 < 4096
  {
    hide Fit, Chunks, DataCount, ParityOf, Stream, Parse, AllRecorded;
    if m.width < 4096 || |m.payload| + 4 < 4096 {
      NarrowDelivers(data, sizes, m, maxBytes);
    } else {
      WideFails(data, sizes, m, maxBytes);
    }
  }

  lemma ParseLength(stream: Bytes, maxBytes: nat)
    ensures |Parse(stream, maxBytes)| == 0 || |Parse(stream, maxBytes)| + 4 <= |stream|
  {
    hide GetLength;
  }

  // ---------- The receiver ----------

  /** Every packet the sender emits is a packet of the message. */
  lemma SentPacketsGenuine(payload: Bytes, width: nat, parityCount: nat, id: nat, channel: nat, i: nat)
    requires width > 0 && DataCount(|payload| + 4, width) + parityCount < 0x1_0000
    requires i < DataCount(|payload| + 4, width) + parityCount
    ensures Genuine(MessagePackets(payload, width, parityCount, id, channel)[i],
        Sent(payload, width, parityCount, channel))
  {
    hide Fit, ParityOf, Chunk, DataCount;
  }

  /** Every packet fills a datagram: it has the size it should not exceed, exactly when that leaves five bytes or more
      behind the header, and 112 bytes otherwise. */
  lemma DatagramFits(payload: Bytes, mtu: nat, parityCount: nat, id: nat, channel: nat, i: nat, h: PacketCodec.Header,
      d: Bytes)
    requires i < DataCount(|payload| + 4, FragmentWidth(mtu)) + parityCount
    requires PacketCodec.Encodes(d, h, MessagePackets(payload, FragmentWidth(mtu), parityCount, id, channel)[i].payload)
    ensures |d| == if mtu >= 53 then mtu else 112
    ensures |d| <= mtu <==> mtu >= 53
  {
    hide PacketCodec.Carries, PacketCodec.Checked, Fit, ParityOf, Chunk, DataCount;
    assert PacketCodec.HEADER_SIZE == 48;
  }

  /** What decides how long a message may wait: whether its channel retransmits, the report interval in
      milliseconds, the round-trip time in microseconds. */
  datatype Link = Link(reliable: bool, intervalMs: nat, rttUs: nat)

  /** Twelve report intervals for retransmissions, else twice the round-trip time but at least 250 milliseconds;
      in microseconds, as all times here. */
  function LossWait(link: Link): nat {
    if link.reliable then 12 * link.intervalMs * 1000
    else if 2 * (link.rttUs / 1000) > 250 then 2 * (link.rttUs / 1000) * 1000
    else 250000
  }

  /** A retransmitting channel waits as long as the receiver asks for what is missing; any other one at least 250
      milliseconds and two whole-millisecond round trips, and no longer than the longer of the two. */
  lemma LossWaitIs(link: Link)
    ensures link.reliable ==> LossWait(link) == SequenceTracking.GiveUpUs(link.intervalMs)
    ensures !link.reliable ==> LossWait(link) >= 250000 && LossWait(link) >= 2 * (link.rttUs / 1000) * 1000
    ensures !link.reliable ==> LossWait(link) == 250000 || LossWait(link) == 2 * (link.rttUs / 1000) * 1000
  {
    assert 12 * link.intervalMs * 1000 == link.intervalMs * 12 * 1000;
  }

  function MaxFragments(maxBytes: nat): nat {
    maxBytes / 64 + 8
  }

  /** A message no longer than the receiver takes, with no more parities than data fragments, that has more fragments
      than it takes. */
  predicate TurnedAway(length: nat, maxBytes: nat, width: nat, parityCount: nat)
    requires width > 0
  {
    && length <= maxBytes && parityCount <= DataCount(length + 4, width)
    && DataCount(length + 4, width) + parityCount > MaxFragments(maxBytes)
  }

  /** The limit turns some such message away exactly when the fragments are narrower than 128 bytes. */
  lemma LimitTurnsAwayIff(width: nat)
    requires width > 0
    ensures (exists length: nat, maxBytes: nat, parityCount: nat :: TurnedAway(length, maxBytes, width, parityCount))
            <==> width < 128
  {
    if width < 128 {
      CountIs(600, width);
      assert TurnedAway(600 * width - 4, 600 * width - 4, width, 600);
    } else {
      forall length: nat, maxBytes: nat, parityCount: nat ensures !TurnedAway(length, maxBytes, width, parityCount) {
        CountAtMost(length + 4, width);
      }
    }
  }

  lemma CountIs(n: nat, width: nat)
    requires width > 0
    ensures DataCount(n * width, width) == n
  {
    var d := DataCount(n * width, width);
    ChunkStart(n * width, width, d);
    if d > 0 {
      ChunkStart(n * width, width, d - 1);
    }
    hide DataCount;
    Ordered(n, d, width);
    if d > 0 {
      Ordered(d - 1, n - 1, width);
    }
  }

  /** Products with a positive number are ordered as the factors are. */
  lemma Ordered(a: int, b: int, width: nat)
    requires width > 0
    ensures a * width <= b * width <==> a <= b
  {
    if a <= b {
      assert b * width == a * width + (b - a) * width;
      Product(b - a, width);
    } else {
      assert a * width == b * width + (a - b) * width;
      Product(a - b, width);
    }
  }

  lemma Product(k: nat, width: nat)
    ensures 0 <= k * width && (k >= 1 ==> k * width >= width)
  {}

  lemma CountAtMost(n: nat, width: nat)
    requires width >= 128
    ensures DataCount(n, width) <= n / 128 + 1
  {
    var d := DataCount(n, width);
    if d > 0 {
      ChunkStart(n, width, d - 1);
      hide DataCount;
      assert (d - 1) * 128 <= (d - 1) * width;
    }
  }

  /** The fragment starts a new entry. */
  predicate Opens(held: map<nat, Incoming>, p: Packet) {
    p.messageId !in held || held[p.messageId].messageId == 0
  }

  /** The entry after a fragment is put into it; a new entry takes its counts from the fragment. */
  function Store(held: map<nat, Incoming>, p: Packet, now: int): (e: Incoming)
    requires p.index < p.count && (Opens(held, p) ==> p.dataCount <= p.count)
    requires p.messageId in held ==> WellFormed(held[p.messageId])
    ensures WellFormed(e)
  {
    var e := if !Opens(held, p) then held[p.messageId]
             else Incoming(p.messageId, p.count, p.dataCount, p.channel, seq(p.count, _ => None), seq(p.count, _ => 0),
                 now);
    if e.totalCount == p.count && e.fragments[p.index] == None
    then e.(fragments := e.fragments[p.index := Some(p.payload)], sizes := e.sizes[p.index := p.realSize])
    else e
  }

  /** Putting in a fragment of the message keeps the entry an entry of the message. */
  lemma StoreGenuine(held: map<nat, Incoming>, p: Packet, m: Sent, now: int, maxBytes: nat)
    requires m.Sendable(maxBytes) && Genuine(p, m) && p.messageId > 0
    requires p.messageId in held ==> EntryOf(held[p.messageId], m, p.messageId)
    ensures p.index < p.count == m.Total() && p.dataCount == |m.Pieces()| <= p.count
    ensures EntryOf(Store(held, p, now), m, p.messageId)
  {
    hide Fit, Framed, Chunks, ParityOf, PacketAt, Sent.Full, Sent.Pieces;
    PacketCounts(m, p.messageId, p.index);
  }

  lemma PacketCounts(m: Sent, id: nat, i: nat)
    requires m.width > 0 && i < m.Total() < 0x1_0000
    ensures var p := m.PacketNo(id, i);
            p.messageId == id && p.index == i && p.count == m.Total() && p.dataCount == |m.Pieces()| <= p.count
  {
    hide Fit, Framed, ParityOf, DataCount, Chunk;
  }

  /** Whatever is repaired from an entry of the message is the message. */
  lemma RepairDelivers(e: Incoming, m: Sent, id: nat, maxBytes: nat, message: Bytes)
    requires EntryOf(e, m, id) && m.Sendable(maxBytes) && Repairable(e) && Repaired(e, maxBytes, message)
    ensures message == m.payload
  {
    assert Longest(e.fragments, e.totalCount) > 0;
    hide EntryOf, RepairedFrom, Consistent, Longest, Repairable;
    HeldWidth(e, m, id);
    HeldConsistent(e, m, id);
    var data :| RepairedFrom(e, m.Pieces(), data, maxBytes, message);
    RepairedDelivery(e, m, id, data, maxBytes, message);
  }

  /** The entries belong to messages that were sent, and none of them is complete or can be repaired. */
  ghost predicate Tracked(incoming: map<nat, Incoming>, sent: map<nat, Sent>, maxBytes: nat) {
    && (forall id | id in sent :: 0 < id && sent[id].Sendable(maxBytes))
    && (forall id | id in incoming ::
          id in sent && EntryOf(incoming[id], sent[id], id) && !AllHeld(incoming[id]) && !Repairable(incoming[id]))
  }

  /** A fragment of a sent message keeps the entries tracked. */
  lemma TrackedStore(incoming: map<nat, Incoming>, sent: map<nat, Sent>, maxBytes: nat, p: Packet, now: int)
    requires Tracked(incoming, sent, maxBytes) && p.messageId in sent && Genuine(p, sent[p.messageId])
    ensures p.index < p.count && p.dataCount <= p.count
    ensures p.messageId in incoming ==> WellFormed(incoming[p.messageId])
    ensures var e := Store(incoming, p, now);
      && e.totalCount == p.count && EntryOf(e, sent[p.messageId], p.messageId)
      && (!AllHeld(e) && !Repairable(e) ==> Tracked(incoming[p.messageId := e], sent, maxBytes))
      && Tracked(incoming - {p.messageId}, sent, maxBytes)
  {
    var id := p.messageId;
    StoreGenuine(incoming, p, sent[id], now, maxBytes);
    EntryCount(Store(incoming, p, now), sent[id], id);
    hide EntryOf, Store, Genuine, AllHeld, Repairable;
  }

  /** What is delivered from an entry of a sent message is that message. */
  lemma EntryDelivers(e: Incoming, m: Sent, id: nat, maxBytes: nat, v: Verdict)
    requires EntryOf(e, m, id) && WellFormed(e) && m.Sendable(maxBytes) && v.Delivered?
    requires AllHeld(e) ==> v.message == Parse(Stream(e.fragments, e.sizes, DataFragments(e)), maxBytes)
    requires Repairable(e) ==> Repaired(e, maxBytes, v.message)
    requires AllHeld(e) || Repairable(e)
    ensures v.message == m.payload
  {
    hide *;
    if AllHeld(e) {
      DirectDelivery(e, m, id, maxBytes);
    } else {
      RepairDelivers(e, m, id, maxBytes, v.message);
    }
  }

  lemma TrackedSendable(incoming: map<nat, Incoming>, sent: map<nat, Sent>, maxBytes: nat, id: nat)
    requires Tracked(incoming, sent, maxBytes) && id in sent
    ensures 0 < id && sent[id].Sendable(maxBytes)
  {}

  lemma EntryCount(e: Incoming, m: Sent, id: nat)
    requires EntryOf(e, m, id)
    ensures WellFormed(e) && e.totalCount == m.Total()
  {}

  /** The exact verdict on an entry a fragment has just been put into. */
  ghost predicate Decides(v: Verdict, e: Incoming, p: Packet, later: int, lossWait: nat)
    requires WellFormed(e)
  {
    && (v.Delivered? <==> e.totalCount == p.count && (AllHeld(e) || Repairable(e)))
    && (v.Lost? <==> e.totalCount == p.count && BeyondParity(e) && later - e.firstSeen >= lossWait)
    && (v.Lost? ==> v.channel == e.channel)
  }

  /** When a message beyond its parity is lost: with the first fragment after 250 milliseconds and two round trips,
      or after the time in which the receiver asks for what is missing. */
  ghost predicate GivesUp(v: Verdict, e: Incoming, p: Packet, later: int, link: Link)
    requires WellFormed(e)
  {
    var waited := later - e.firstSeen;
    e.totalCount == p.count && BeyondParity(e) ==>
      && (!link.reliable ==> (v.Lost? <==> waited >= 250000 && waited >= 2 * (link.rttUs / 1000) * 1000))
      && (link.reliable ==> (v.Lost? <==> waited >= SequenceTracking.GiveUpUs(link.intervalMs)))
  }

  class MessageReceiver {
    const gf: GfTables
    const maxBytes: nat
    var incoming: map<nat, Incoming>
    var completed: map<nat, int>

    ghost predicate Valid()
      reads this
    {
      && gf.Valid() && (forall id | id in incoming :: WellFormed(incoming[id]))
      && incoming.Keys !! completed.Keys
    }

    constructor (gf: GfTables, maxBytes: nat)
      requires gf.Valid()
      ensures Valid() && this.gf == gf && this.maxBytes == maxBytes && incoming == map[] && completed == map[]
    {
      this.gf, this.maxBytes := gf, maxBytes;
      incoming, completed := map[], map[];
    }

    /** Fragments that are dropped unseen: of a finished message, without a place, or too many. */
    predicate Ignored(p: Packet)
      reads this
    {
      p.count == 0 || p.messageId in completed || p.index >= p.count || p.count > MaxFragments(maxBytes)
    }

    /** The periodic sweep: entries and finished messages older than the timeout are forgotten. */
    method DropOld(now: int, deadTimeout: int)
      requires Valid()
      modifies this
      ensures Valid()
      ensures incoming ==
              map id | id in old(incoming) && now - old(incoming)[id].firstSeen < deadTimeout :: old(incoming)[id]
      ensures completed == map id | id in old(completed) && now - old(completed)[id] < deadTimeout :: old(completed)[id]
    {
      incoming := map id | id in incoming && now - incoming[id].firstSeen < deadTimeout :: incoming[id];
      completed := map id | id in completed && now - completed[id] < deadTimeout :: completed[id];
    }

    /** Takes one fragment in and decides whether its message is now delivered or lost. */
    method HandleFragment(p: Packet, now: int, later: int, link: Link, ghost sent: map<nat, Sent>)
      returns (v: Verdict)
      requires Valid() && (!Ignored(p) && Opens(incoming, p) ==> p.dataCount <= p.count)
      modifies this
      ensures Valid()
      ensures old(Ignored(p)) ==> v == Pending && incoming == old(incoming)
      ensures v == Pending ==> completed == old(completed)
      ensures v == Pending && !old(Ignored(p)) ==>
                incoming == old(incoming)[p.messageId := Store(old(incoming), p, now)]
      ensures v != Pending ==> p.messageId !in old(completed) && completed == old(completed)[p.messageId := now]
      ensures v != Pending ==> incoming == old(incoming) - {p.messageId}
      ensures !old(Ignored(p)) ==> Decides(v, Store(old(incoming), p, now), p, later, LossWait(link))
      ensures !old(Ignored(p)) ==> GivesUp(v, Store(old(incoming), p, now), p, later, link)
      ensures Tracked(old(incoming), sent, maxBytes) && p.messageId in sent && Genuine(p, sent[p.messageId]) ==>
                Tracked(incoming, sent, maxBytes) && (v.Delivered? ==> v.message == sent[p.messageId].payload)
    {
      hide Repairable, Repaired, Parse, Stream, AllHeld, BeyondParity, Genuine, Store, Tracked, Exp, Missing, EntryOf;
      LossWaitIs(link);
      hide LossWait;
      v := Pending;
      if p.count == 0 || p.messageId in completed || p.index >= p.count {
        return;
      }
      if p.count > MaxFragments(maxBytes) {
        return;
      }
      var e := Store(incoming, p, now);
      incoming := incoming[p.messageId := e];
      ghost var genuine := Tracked(old(incoming), sent, maxBytes) && p.messageId in sent
          && Genuine(p, sent[p.messageId]);
      if genuine {
        TrackedStore(old(incoming), sent, maxBytes, p, now);
        TrackedSendable(old(incoming), sent, maxBytes, p.messageId);
      }
      if e.totalCount != p.count {
        return;
      }
      v := TryAssemble(gf, e, maxBytes, LossWait(link), later);
      NothingMissingAllHeld(e);
      if genuine && v.Delivered? {
        EntryDelivers(e, sent[p.messageId], p.messageId, maxBytes, v);
      }
      if v != Pending {
        completed := completed[p.messageId := now];
        incoming := incoming - {p.messageId};
      }
    }
  }
}
