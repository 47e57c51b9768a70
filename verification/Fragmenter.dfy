/** Splitting a message into data fragments of one width, with parity fragments behind them. */
module Fragmenter {
  import opened Galois
  import opened FieldTables
  import opened ReedSolomon
  import opened WireFormat

  /** A fragment on the wire, as the receiver sees it.  The counts are 16-bit fields, `realSize` is the
      twelve-bit length of the data in it, and `payload` always has the full width. */
  datatype Packet = Packet(messageId: nat, index: nat, count: nat, dataCount: nat, channel: nat, realSize: nat,
      payload: Bytes)

  // ---------- The fragments of a message ----------

  /** The message behind its four-byte length. */
  function Framed(payload: Bytes): (full: Bytes)
    ensures |full| == |payload| + 4
  {
    PutLength(|payload|) + payload
  }

  function DataCount(size: nat, width: nat): nat
    requires width > 0
  {
    (size + width - 1) / width
  }

  /** The i-th piece of `full`: `width` bytes, fewer in the last piece. */
  function Chunk(full: Bytes, width: nat, i: nat): Bytes
    requires i * width <= |full|
  {
    full[i * width..Min(i * width + width, |full|)]
  }

  lemma ChunkStart(size: nat, width: nat, i: nat)
    requires width > 0 && i <= DataCount(size, width)
    ensures i < DataCount(size, width) ==> i * width < size
    ensures i == DataCount(size, width) ==> i * width >= size
    ensures i < DataCount(size, width) - 1 ==> i * width + width <= size
  {
    var d := DataCount(size, width);
    assert d * width <= size + width - 1 < d * width + width;
    if i < d {
      assert i * width <= (d - 1) * width;
    }
    if i < d - 1 {
      assert i * width <= (d - 2) * width;
    }
  }

  function Chunks(full: Bytes, width: nat): (cs: seq<Bytes>)
    requires width > 0
    ensures |cs| == DataCount(|full|, width)
    ensures forall i: nat | i < |cs| :: i * width <= |full| && cs[i] == Chunk(full, width, i)
  {
    var d := DataCount(|full|, width);
    assert forall i: nat | i < d :: i * width <= |full| by {
      forall i: nat | i < d ensures i * width <= |full| { ChunkStart(|full|, width, i); }
    }
    seq(d, i requires 0 <= i < d => Chunk(full, width, i))
  }

  function PacketAt(payload: Bytes, width: nat, parityCount: nat, messageId: nat, channel: nat, i: nat): Packet
    requires width > 0
  {
    var chunks := Chunks(Framed(payload), width);
    var count, dataCount := (|chunks| + parityCount) % 0x1_0000, |chunks| % 0x1_0000;
    if i < |chunks| then
      Packet(messageId, i % 0x1_0000, count, dataCount, channel, |chunks[i]| % 4096, Fit(chunks[i], width))
    else
      Packet(messageId, i % 0x1_0000, count, dataCount, channel, width % 4096, ParityOf(chunks, i - |chunks|, width))
  }

  // ---------- How much parity ----------

  function Ceiling(x: real): (n: int)
    ensures n as real >= x && (n - 1) as real < x
  {
    if x.Floor as real == x then x.Floor else x.Floor + 1
  }

  /** The redundancy stage follows the reported late ratio with hysteresis. */
  function NextStage(stage: nat, late: real): nat {
    if stage == 0 then (if late > 0.003 then 1 else 0)
    else if stage == 1 then (if late > 0.012 then 2 else if late <= 0.0 then 0 else 1)
    else (if late < 0.008 then 1 else stage)
  }

  function Higher(a: real, b: real): real { if b < a then a else b }

  /** The parity count of a stage; `entropy` stands for the binary entropy of the late ratio. */
  function ParityCountFor(late: real, entropy: real, dataCount: nat, stage: nat): (p: nat)
    requires dataCount >= 1
    ensures stage == 0 ==> p == 0
    ensures stage == 1 ==> p == 1
    ensures p <= 100 && (stage != 0 ==> 1 <= p)
    ensures p > 1 ==> (p - 1) as real < dataCount as real * 0.2
  {
    if stage == 0 then 0
    else if stage == 1 then 1
    else if late <= 0.0001 || late >= 0.9999 then 1
    else
      var wanted := Ceiling(dataCount as real * Higher(late, entropy * 1.2));
      var atLeastOne := if wanted < 1 then 1 else wanted;
      var share := Ceiling(dataCount as real * 0.2);
      var cap := if share < 1 then 1 else share;
      var capped := if atLeastOne > cap then cap else atLeastOne;
      if capped > 100 then 100 else capped
  }

  /** The parities cover the late share of the data, or one of the two caps is reached. */
  predicate CoversOrCapped(p: nat, late: real, dataCount: nat) {
    p as real >= dataCount as real * late || p as real >= dataCount as real * 0.2 || p == 100
  }

  lemma AdaptiveCovers(late: real, entropy: real, dataCount: nat, stage: nat)
    requires dataCount >= 1 && stage >= 2 && 0.0001 < late < 0.9999
    ensures CoversOrCapped(ParityCountFor(late, entropy, dataCount, stage), late, dataCount)
  {
    var redundancy := Higher(late, entropy * 1.2);
    assert dataCount as real * redundancy >= dataCount as real * late;
    hide Ceiling, Higher;
  }

  lemma ExtremesOne(late: real, entropy: real, dataCount: nat, stage: nat)
    requires dataCount >= 1 && stage >= 2 && !(0.0001 < late < 0.9999)
    ensures ParityCountFor(late, entropy, dataCount, stage) == 1
  {
  }

  lemma OneCovers(late: real, dataCount: nat)
    ensures CoversOrCapped(1, late, dataCount) <==> dataCount <= 5 || dataCount as real * late <= 1.0
  {
  }

  /** In the adaptive stage that is so exactly when the late ratio is not one of the extreme ones, for which there
      is a single parity, or a single parity is enough. */
  lemma ParityCoversLosses(late: real, entropy: real, dataCount: nat, stage: nat)
    requires dataCount >= 1 && stage >= 2
    ensures CoversOrCapped(ParityCountFor(late, entropy, dataCount, stage), late, dataCount) <==>
            0.0001 < late < 0.9999 || dataCount <= 5 || dataCount as real * late <= 1.0
  {
    hide ParityCountFor, CoversOrCapped;
    if 0.0001 < late < 0.9999 {
      AdaptiveCovers(late, entropy, dataCount, stage);
    } else {
      ExtremesOne(late, entropy, dataCount, stage);
      OneCovers(late, dataCount);
    }
  }

  /** When all of a hundred fragments come late there is one parity. */
  lemma AllLateOneParity(entropy: real)
    ensures ParityCountFor(1.0, entropy, 100, 2) == 1
    ensures !CoversOrCapped(ParityCountFor(1.0, entropy, 100, 2), 1.0, 100)
  {
    ParityCoversLosses(1.0, entropy, 100, 2);
  }

  function Share(dataCount: nat, ratio: real): real { dataCount as real * ratio }

  /** There are as many parities as the late ratio and a fifth more than its entropy call for, unless one of the caps is
      reached, and never more: one fewer would fall short of one of the two. */
  lemma ParityTight(late: real, entropy: real, dataCount: nat, stage: nat)
    requires dataCount >= 1 && stage >= 2 && 0.0001 < late < 0.9999
    ensures var p := ParityCountFor(late, entropy, dataCount, stage);
            && (p as real >= Share(dataCount, entropy * 1.2) || p as real >= Share(dataCount, 0.2) || p == 100)
            && (p > 1 ==> (p - 1) as real < Share(dataCount, late) || (p - 1) as real < Share(dataCount, entropy * 1.2))
  {
    hide ParityCountFor, Ceiling, IsCapped, Higher, Share;
    CountCapped(late, entropy, dataCount, stage);
    HigherShare(dataCount, late, entropy * 1.2);
    TightFrom(ParityCountFor(late, entropy, dataCount, stage), Share(dataCount, Higher(late, entropy * 1.2)),
              Share(dataCount, 0.2), Share(dataCount, late), Share(dataCount, entropy * 1.2));
  }

  lemma CountCapped(late: real, entropy: real, dataCount: nat, stage: nat)
    requires dataCount >= 1 && stage >= 2 && 0.0001 < late < 0.9999
    ensures IsCapped(ParityCountFor(late, entropy, dataCount, stage),
                     Ceiling(Share(dataCount, Higher(late, entropy * 1.2))), Ceiling(Share(dataCount, 0.2)))
  {
    hide Ceiling, Higher;
  }

  lemma TightFrom(p: int, x: real, share: real, a: real, b: real)
    requires IsCapped(p, Ceiling(x), Ceiling(share)) && (x == a || x == b) && x >= b
    ensures p as real >= b || p as real >= share || p == 100
    ensures p > 1 ==> (p - 1) as real < a || (p - 1) as real < b
  {
    CeilingTight(x);
    CeilingTight(share);
    hide Ceiling;
  }

  predicate IsCapped(p: int, wanted: int, share: int) {
    && (p >= wanted || p >= share || p == 100)
    && (p == 1 || p <= wanted)
  }

  lemma HigherShare(n: nat, a: real, b: real)
    ensures Share(n, Higher(a, b)) == Share(n, a) || Share(n, Higher(a, b)) == Share(n, b)
    ensures Share(n, Higher(a, b)) >= Share(n, b)
  {
    if b < a {
      assert n as real * (a - b) >= 0.0;
    }
  }

  lemma CeilingTight(x: real)
    ensures x <= Ceiling(x) as real < x + 1.0
  {}

  function StageAfter(stage: nat, lates: seq<real>): nat {
    if lates == [] then stage else NextStage(StageAfter(stage, lates[..|lates| - 1]), lates[|lates| - 1])
  }

  /** The ratios at which a stage is kept. */
  predicate InBand(stage: nat, late: real) {
    if stage == 0 then late <= 0.003 else if stage == 1 then 0.0 < late <= 0.012 else late >= 0.008
  }

  ghost predicate NeverMoves(stage: nat, lates: seq<real>) {
    forall i: nat | i <= |lates| :: StageAfter(stage, lates[..i]) == stage
  }

  lemma NeverMovesNext(stage: nat, lates: seq<real>, late: real)
    ensures NeverMoves(stage, lates + [late]) <==>
            NeverMoves(stage, lates) && StageAfter(stage, lates + [late]) == stage
  {
    var n := |lates|;
    assert (lates + [late])[..n + 1] == lates + [late];
    forall i: nat | i <= n ensures (lates + [late])[..i] == lates[..i] {}
  }

  /** A stage is kept over any ratios exactly when all of them lie in its band. */
  lemma {:induction false} StageKeptIff(stage: nat, lates: seq<real>)
    requires stage <= 2
    ensures NeverMoves(stage, lates) <==> forall i: nat | i < |lates| :: InBand(stage, lates[i])
  {
    if lates == [] {
      assert lates[..0] == [];
    } else {
      var n := |lates| - 1;
      var before := lates[..n];
      StageKeptIff(stage, before);
      assert lates == before + [lates[n]];
      NeverMovesNext(stage, before, lates[n]);
      assert before[..n] == before;
      assert NeverMoves(stage, before) ==> StageAfter(stage, before) == stage;
      hide NeverMoves;
    }
  }

  /** In the overlap of the bands the stage does not change back and forth, however the ratios vary: it leaves 0 at
      once and then stays. */
  lemma {:induction false} StageHysteresis(stage: nat, lates: seq<real>)
    requires stage <= 2 && forall i: nat | i < |lates| :: 0.008 <= lates[i] <= 0.012
    ensures StageAfter(stage, lates) == if stage == 0 && lates != [] then 1 else stage
  {
    if lates != [] {
      var n := |lates| - 1;
      StageHysteresis(stage, lates[..n]);
      assert 0.008 <= lates[n] <= 0.012;
    }
  }

  // ---------- The sender ----------

  function Max1(n: nat): (m: nat)
    ensures m >= 1 && (n >= 1 ==> m == n)
  {
    if n == 0 then 1 else n
  }

  /** The width of a fragment for a datagram size: what is left after the 48-byte header, at least 5. */
  function FragmentWidth(mtu: nat): (w: nat)
    ensures w > 4
  {
    var w := if mtu > 48 then mtu - 48 else 64;
    if w <= 4 then 64 else w
  }

  class FragmentSender {
    const gf: GfTables
    var msgIdOut: nat
    var fecStage: nat
    var haveLateReport: bool
    var lateRatio: real
    var fecDisabled: bool
    var parities: seq<array<Byte>>

    ghost predicate Valid()
      reads this
    {
      gf.Valid() && msgIdOut < 0x1_0000_0000 && fecStage <= 2 && Separate(parities)
    }

    constructor (gf: GfTables)
      requires gf.Valid()
      ensures Valid() && fecStage == 0 && !haveLateReport && !fecDisabled && msgIdOut == 1 && parities == []
    {
      this.gf := gf;
      msgIdOut, fecStage, haveLateReport, lateRatio, fecDisabled, parities := 1, 0, false, 0.0, false, [];
    }

    /** The next message identifier: 31 bits, never zero. */
    method NextMessageId() returns (id: nat)
      requires Valid()
      modifies this`msgIdOut
      ensures Valid() && 0 < id < 0x8000_0000
      ensures id == old(msgIdOut) % 0x8000_0000 || (old(msgIdOut) % 0x8000_0000 == 0 && id == 1)
      ensures msgIdOut % 0x8000_0000 == (id + 1) % 0x8000_0000
    {
      id := msgIdOut % 0x8000_0000;
      msgIdOut := (msgIdOut + 1) % 0x1_0000_0000;
      while id == 0
        invariant msgIdOut < 0x1_0000_0000 && id < 0x8000_0000 && msgIdOut % 0x8000_0000 == (id + 1) % 0x8000_0000
        invariant id == old(msgIdOut) % 0x8000_0000 || (old(msgIdOut) % 0x8000_0000 == 0 && id == 1)
        decreases 1 - id
      {
        id := msgIdOut % 0x8000_0000;
        msgIdOut := (msgIdOut + 1) % 0x1_0000_0000;
      }
    }

    /** Adaptive parity by stage, plus the fixed and the probing extras, at most one per data fragment. */
    method ChooseParity(dataCount: nat, channelExtra: nat, probeExtra: nat, entropy: real) returns (parityCount: nat)
      requires Valid() && dataCount >= 1
      modifies this`fecStage
      ensures Valid() && parityCount <= dataCount
      ensures fecStage == if fecDisabled || !haveLateReport then old(fecStage) else NextStage(old(fecStage), lateRatio)
      ensures var adaptive := if fecDisabled then 0 else if !haveLateReport then 2
                              else ParityCountFor(lateRatio, entropy, dataCount, fecStage);
              parityCount == Min(dataCount, (adaptive + channelExtra + probeExtra) % 0x1_0000)
    {
      if fecDisabled {
        parityCount := 0;
      } else if !haveLateReport {
        parityCount := 2;
      } else {
        fecStage := NextStage(fecStage, lateRatio);
        parityCount := ParityCountFor(lateRatio, entropy, dataCount, fecStage);
      }
      parityCount := (parityCount + channelExtra + probeExtra) % 0x1_0000;
      if parityCount > dataCount {
        parityCount := dataCount;
      }
    }

    /** Sends every data fragment and then every parity fragment of the message. */
    method FragmentAndSend(payload: Bytes, mtu: nat, channel: nat, channelExtra: nat, probeExtra: nat, entropy: real)
      returns (packets: seq<Packet>, messageId: nat, parityCount: nat)
      requires Valid()
      modifies this`msgIdOut, this`fecStage, this`parities, parities
      ensures Valid() && 0 < messageId < 0x8000_0000
      ensures fecStage == if fecDisabled || !haveLateReport then old(fecStage) else NextStage(old(fecStage), lateRatio)
      ensures var dataCount := DataCount(|payload| + 4, FragmentWidth(mtu));
              var adaptive := if fecDisabled then 0 else if !haveLateReport then 2
                              else ParityCountFor(lateRatio, entropy, Max1(dataCount), fecStage);
              parityCount == Min(dataCount, (adaptive + channelExtra + probeExtra) % 0x1_0000)
      ensures packets == MessagePackets(payload, FragmentWidth(mtu), parityCount, messageId, channel)
    {
      hide DataCount, Framed, FragmentWidth, MessagePackets, NextStage, Separate, Chunks, ParityOf, Exp;
      var width := FragmentWidth(mtu);
      messageId := NextMessageId();
      var full := Framed(payload);
      AtLeastOneChunk(full, width);
      var dataCount := DataCount(|full|, width);
      parityCount := ChooseParity(dataCount, channelExtra, probeExtra, entropy);
      var spans := Split(full, width);
      parities := EncodeInto(gf, spans, parityCount, width, parities);
      packets := Emit(payload, width, messageId, channel, spans, parityCount, parities);
    }
  }

  /** All packets of a message, data fragments first. */
  function MessagePackets(payload: Bytes, width: nat, parityCount: nat, messageId: nat, channel: nat): (ps: seq<Packet>)
    requires width > 0
    ensures |ps| == DataCount(|payload| + 4, width) + parityCount
    ensures forall i: nat | i < |ps| :: ps[i] == PacketAt(payload, width, parityCount, messageId, channel, i)
  {
    seq(DataCount(|payload| + 4, width) + parityCount, i requires 0 <= i =>
        PacketAt(payload, width, parityCount, messageId, channel, i))
  }

  lemma AtLeastOneChunk(full: Bytes, width: nat)
    requires width > 0 && |full| > 0
    ensures DataCount(|full|, width) >= 1
  {
    ChunkStart(|full|, width, 0);
  }

  method Split(full: Bytes, width: nat) returns (spans: seq<Bytes>)
    requires width > 0
    ensures spans == Chunks(full, width)
  {
    spans := [];
    for i := 0 to DataCount(|full|, width)
      invariant |spans| == i
      invariant forall j: nat | j < i :: spans[j] == Chunks(full, width)[j]
    {
      ChunkStart(|full|, width, i);
      spans := spans + [full[i * width..Min(i * width + width, |full|)]];
    }
  }

  method Emit(payload: Bytes, width: nat, messageId: nat, channel: nat, spans: seq<Bytes>, parityCount: nat,
      parities: seq<array<Byte>>)
    returns (packets: seq<Packet>)
    requires width > 0 && spans == Chunks(Framed(payload), width) && |parities| >= parityCount
    requires forall p: nat | p < parityCount ::
               parities[p].Length >= width && parities[p][..width] == ParityOf(spans, p, width)
    ensures packets == MessagePackets(payload, width, parityCount, messageId, channel)
  {
    hide Chunk, Chunks, ParityOf, Fit, DataCount, Framed;
    var dataCount := |spans|;
    var count, data := (dataCount + parityCount) % 0x1_0000, dataCount % 0x1_0000;
    packets := [];
    for i := 0 to dataCount
      invariant |packets| == i
      invariant forall j: nat | j < i :: packets[j] == PacketAt(payload, width, parityCount, messageId, channel, j)
    {
      packets := packets + [Packet(messageId, i % 0x1_0000, count, data, channel, |spans[i]| % 4096,
          Fit(spans[i], width))];
    }
    for p := 0 to parityCount
      invariant |packets| == dataCount + p
      invariant forall j: nat | j < dataCount + p ::
                  packets[j] == PacketAt(payload, width, parityCount, messageId, channel, j)
    {
      packets := packets + [Packet(messageId, (dataCount + p) % 0x1_0000, count, data, channel, width % 4096,
          parities[p][..width])];
    }
  }
}
