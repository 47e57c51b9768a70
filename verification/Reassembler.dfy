/** Collecting the fragments of a message and putting the message together again. */
module Reassembler {
  import opened Common
  import opened Galois
  import opened FieldTables
  import opened ReedSolomon
  import opened Decoder
  import opened WireFormat
  import opened Fragmenter

  datatype Incoming = Incoming(messageId: nat, totalCount: nat, dataCount: nat, channel: nat,
                               fragments: seq<Fragment>, sizes: seq<nat>, firstSeen: int)

  datatype Verdict = Pending | Delivered(message: Bytes) | Lost(channel: nat)

  // ---------- From fragments to the message ----------

  /** The data carried by a fragment of the given real size. */
  function Taken(f: Bytes, size: nat): Bytes {
    f[..Min(size, |f|)]
  }

  /** The data of the first n fragments, one after the other. */
  function Stream(fragments: seq<Fragment>, sizes: seq<nat>, n: nat): Bytes
    requires n <= |fragments| && n <= |sizes| && forall i: nat | i < n :: fragments[i].Some?
  {
    if n == 0 then [] else Stream(fragments, sizes, n - 1) + Taken(fragments[n - 1].value, sizes[n - 1])
  }

  /** The message in a stream: what follows the length prefix, cut to that length. */
  function Parse(stream: Bytes, maxBytes: nat): Bytes {
    if |stream| < 4 then []
    else
      var total := GetLength(stream[..4]);
      if total > maxBytes then [] else stream[4..4 + Min(total, |stream| - 4)]
  }

  method BuildMessage(fragments: seq<Fragment>, sizes: seq<nat>, dataCount: nat, maxBytes: nat) returns (message: Bytes)
    requires dataCount <= |fragments| && dataCount <= |sizes| && forall i: nat | i < dataCount :: fragments[i].Some?
    ensures message == Parse(Stream(fragments, sizes, dataCount), maxBytes)
  {
    hide GetLength;
    var streamLength: nat := 0;
    for i := 0 to dataCount
      invariant streamLength == |Stream(fragments, sizes, i)|
    {
      streamLength := streamLength + Min(sizes[i], |fragments[i].value|);
    }
    if streamLength < 4 {
      return [];
    }
    var prefix: Bytes := [];
    var i := 0;
    while i < dataCount && |prefix| < 4
      invariant i <= dataCount
      invariant prefix == Stream(fragments, sizes, i)[..Min(4, |Stream(fragments, sizes, i)|)]
    {
      var take := Min(Min(sizes[i], |fragments[i].value|), 4 - |prefix|);
      prefix := prefix + fragments[i].value[..take];
      i := i + 1;
    }
    StreamGrows(fragments, sizes, i, dataCount);
    ghost var stream := Stream(fragments, sizes, dataCount);
    assert prefix == stream[..4];
    var total := GetLength(prefix);
    if total > maxBytes {
      return [];
    }
    if total > streamLength - 4 {
      total := streamLength - 4;
    }
    message := CopyBody(fragments, sizes, dataCount, total);
  }

  /** What has been copied of a stream of which `s` has been read. */
  function Copied(s: Bytes, total: nat): Bytes {
    if |s| < 4 then [] else s[4..Min(|s|, 4 + total)]
  }

  /** How much of the prefix is still to be skipped after reading `s`. */
  function ToSkip(s: Bytes): nat {
    if |s| < 4 then 4 - |s| else 0
  }

  lemma CopyStep(s: Bytes, t: Bytes, total: nat)
    requires |Copied(s, total)| < total
    ensures var skip := ToSkip(s);
      && ToSkip(s + t) == (if skip >= |t| then skip - |t| else 0)
      && Copied(s + t, total) == if skip >= |t| then Copied(s, total)
                                 else Copied(s, total) + t[skip..skip + Min(|t| - skip, total - |Copied(s, total)|)]
  {
    var end := Min(|s| + |t|, 4 + total);
    if |s| + |t| < 4 {
    } else if |s| < 4 {
      assert (s + t)[4..end] == t[4 - |s|..end - |s|];
    } else {
      assert Copied(s, total) == s[4..];
      assert (s + t)[4..end] == (s + t)[4..|s|] + (s + t)[|s|..end];
      assert (s + t)[4..|s|] == s[4..] && (s + t)[|s|..end] == t[..end - |s|];
    }
  }

  lemma CopyDone(s: Bytes, stream: Bytes, total: nat)
    requires s <= stream && total + 4 <= |stream| && (|Copied(s, total)| >= total || s == stream)
    ensures Copied(s, total) == stream[4..4 + total]
  {}

  lemma StreamNext(fragments: seq<Fragment>, sizes: seq<nat>, i: nat)
    requires i < |fragments| && i < |sizes| && forall j: nat | j <= i :: fragments[j].Some?
    ensures Stream(fragments, sizes, i + 1) == Stream(fragments, sizes, i) + Taken(fragments[i].value, sizes[i])
  {}

  lemma TakenSlice(f: Bytes, size: nat, skip: nat, take: nat)
    requires skip + take <= Min(size, |f|)
    ensures |Taken(f, size)| == Min(size, |f|) && f[skip..skip + take] == Taken(f, size)[skip..skip + take]
  {}

  /** Copies what is still wanted of one fragment, behind what is still to be skipped. */
  method CopyFragment(message: Bytes, skip: nat, f: Bytes, size: nat, total: nat, ghost s: Bytes)
    returns (longer: Bytes, left: nat)
    requires message == Copied(s, total) && skip == ToSkip(s) && |message| < total
    ensures longer == Copied(s + Taken(f, size), total) && left == ToSkip(s + Taken(f, size))
  {
    hide Copied, ToSkip, Taken;
    CopyStep(s, Taken(f, size), total);
    var n := Min(size, |f|);
    TakenSlice(f, size, 0, 0);
    if skip >= n {
      return message, skip - n;
    }
    var take := Min(n - skip, total - |message|);
    TakenSlice(f, size, skip, take);
    return message + f[skip..skip + take], 0;
  }

  /** Copies `total` bytes from behind the prefix. */
  method CopyBody(fragments: seq<Fragment>, sizes: seq<nat>, dataCount: nat, total: nat) returns (message: Bytes)
    requires dataCount <= |fragments| && dataCount <= |sizes| && forall i: nat | i < dataCount :: fragments[i].Some?
    requires total + 4 <= |Stream(fragments, sizes, dataCount)|
    ensures message == Stream(fragments, sizes, dataCount)[4..4 + total]
  {
    var skip: nat := 4;
    message := [];
    var i := 0;
    while i < dataCount && |message| < total
      invariant i <= dataCount
      invariant message == Copied(Stream(fragments, sizes, i), total) && skip == ToSkip(Stream(fragments, sizes, i))
    {
      hide Copied, ToSkip, Stream, Taken;
      StreamNext(fragments, sizes, i);
      message, skip := CopyFragment(message, skip, fragments[i].value, sizes[i], total, Stream(fragments, sizes, i));
      i := i + 1;
    }
    hide *;
    StreamGrows(fragments, sizes, i, dataCount);
    CopyDone(Stream(fragments, sizes, i), Stream(fragments, sizes, dataCount), total);
  }

  lemma {:induction false} StreamGrows(fragments: seq<Fragment>, sizes: seq<nat>, i: nat, n: nat)
    requires i <= n <= |fragments| && n <= |sizes| && forall j: nat | j < n :: fragments[j].Some?
    ensures Stream(fragments, sizes, i) <= Stream(fragments, sizes, n)
  {
    if i < n {
      StreamGrows(fragments, sizes, i, n - 1);
    }
  }

  // ---------- One incoming message ----------

  ghost predicate WellFormed(m: Incoming) {
    && m.totalCount >= 1 && m.dataCount <= m.totalCount
    && |m.fragments| == |m.sizes| == m.totalCount
  }

  function DataFragments(m: Incoming): nat
    requires WellFormed(m)
    ensures DataFragments(m) <= m.totalCount
  {
    if m.dataCount > 0 then m.dataCount else m.totalCount - 1
  }

  function DataPart(m: Incoming): (data: seq<Fragment>)
    requires WellFormed(m)
    ensures |data| == DataFragments(m)
  {
    m.fragments[..DataFragments(m)]
  }

  /** The parity fragments held among the first n, with their parity numbers. */
  function ParitiesIn(m: Incoming, n: nat): (ps: seq<Parity>)
    requires WellFormed(m) && n <= m.totalCount - DataFragments(m)
    ensures forall r: nat | r < |ps| :: ps[r].0 < n && m.fragments[DataFragments(m) + ps[r].0] == Some(ps[r].1)
  {
    if n == 0 then []
    else
      var f := m.fragments[DataFragments(m) + n - 1];
      if f.Some? then ParitiesIn(m, n - 1) + [(n - 1, f.value)] else ParitiesIn(m, n - 1)
  }

  function Parities(m: Incoming): seq<Parity>
    requires WellFormed(m)
  {
    ParitiesIn(m, m.totalCount - DataFragments(m))
  }

  function Longest(fragments: seq<Fragment>, n: nat): (w: nat)
    requires n <= |fragments|
    ensures forall i: nat | i < n && fragments[i].Some? :: |fragments[i].value| <= w
    ensures w > 0 ==> exists i: nat :: i < n && fragments[i].Some? && |fragments[i].value| == w
  {
    if n == 0 then 0
    else
      var w := Longest(fragments, n - 1);
      if fragments[n - 1].Some? && |fragments[n - 1].value| > w then |fragments[n - 1].value| else w
  }

  /** Some data is missing, not more than the parity could cover. */
  ghost predicate Repairable(m: Incoming)
    requires WellFormed(m)
  {
    && 0 < |Missing(DataPart(m))| <= m.totalCount - DataFragments(m)
    && Longest(m.fragments, m.totalCount) > 0
    && Decodable(DataPart(m), Parities(m))
  }

  /** The size recorded for a fragment after the missing ones are filled in. */
  function SizesAfter(data: seq<Fragment>, sizes: seq<nat>, width: nat): (r: seq<nat>)
    requires |data| <= |sizes|
    ensures |r| == |data| && forall i: nat | i < |data| :: r[i] == if data[i].Some? then sizes[i] else width
  {
    seq(|data|, i requires 0 <= i < |data| => if data[i].Some? then sizes[i] else width)
  }

  /** The decoder's output is the original data, so the message is built from the original data. */
  ghost predicate RepairedFrom(m: Incoming, sent: seq<Bytes>, data: seq<Fragment>, maxBytes: nat, message: Bytes)
    requires WellFormed(m)
  {
    var width := Longest(m.fragments, m.totalCount);
    && Restored(sent, DataPart(m), data, width)
    && message == Parse(Stream(data, SizesAfter(DataPart(m), m.sizes, width), |data|), maxBytes)
  }

  /** The message is built from the fragments originally sent, whichever are consistent with what is held. */
  ghost predicate Repaired(m: Incoming, maxBytes: nat, message: Bytes)
    requires WellFormed(m)
  {
    forall sent | Consistent(sent, DataPart(m), Parities(m), Longest(m.fragments, m.totalCount)) ::
      exists data :: RepairedFrom(m, sent, data, maxBytes, message)
  }

  method CollectParities(m: Incoming) returns (ps: seq<Parity>)
    requires WellFormed(m)
    ensures ps == Parities(m)
  {
    ps := [];
    for p := 0 to m.totalCount - DataFragments(m)
      invariant ps == ParitiesIn(m, p)
    {
      if m.fragments[DataFragments(m) + p].Some? {
        ps := ps + [(p, m.fragments[DataFragments(m) + p].value)];
      }
    }
  }

  method LongestFragment(m: Incoming) returns (width: nat)
    requires WellFormed(m)
    ensures width == Longest(m.fragments, m.totalCount)
  {
    width := 0;
    for i := 0 to m.totalCount
      invariant width == Longest(m.fragments, i)
    {
      if m.fragments[i].Some? && |m.fragments[i].value| > width {
        width := |m.fragments[i].value|;
      }
    }
  }

  /** More data is missing than the parity of the message could ever cover. */
  ghost predicate BeyondParity(m: Incoming)
    requires WellFormed(m)
  {
    |Missing(DataPart(m))| > m.totalCount - DataFragments(m)
  }

  /** Decides the fate of a message: delivered, lost, or still pending. */
  method TryAssemble(gf: GfTables, m: Incoming, maxBytes: nat, lossWait: int, now: int) returns (v: Verdict)
    requires gf.Valid() && WellFormed(m)
    ensures v.Delivered? <==> Missing(DataPart(m)) == [] || Repairable(m)
    ensures v.Lost? <==> BeyondParity(m) && now - m.firstSeen >= lossWait
    ensures v.Lost? ==> v.channel == m.channel
    ensures Missing(DataPart(m)) == [] ==>
              AllHeld(m) && v.message == Parse(Stream(m.fragments, m.sizes, DataFragments(m)), maxBytes)
    ensures Repairable(m) ==> Repaired(m, maxBytes, v.message)
  {
    hide Decodable, Consistent, Restored, Parse;
    var dataCount := DataFragments(m);
    var parityCount := m.totalCount - dataCount;
    var missing := CollectMissing(m.fragments[..dataCount]);
    if missing == [] {
      NothingMissingAllHeld(m);
      var message := BuildMessage(m.fragments, m.sizes, dataCount, maxBytes);
      return Delivered(message);
    }
    if |missing| > parityCount {
      if now - m.firstSeen < lossWait {
        return Pending;
      }
      return Lost(m.channel);
    }
    var width := LongestFragment(m);
    if width == 0 {
      return Pending;
    }
    var parities := CollectParities(m);
    if |missing| > |parities| {
      TooFewParities(DataPart(m), parities);
      return Pending;
    }
    var ok, data := Decode(gf, m.fragments[..dataCount], parities, width);
    if !ok {
      return Pending;
    }
    var sizes := SizesAfter(m.fragments[..dataCount], m.sizes, width);
    var message := BuildMessage(data, sizes, dataCount, maxBytes);
    forall sent | Consistent(sent, DataPart(m), parities, width)
      ensures RepairedFrom(m, sent, data, maxBytes, message)
    {}
    v := Delivered(message);
  }

  ghost predicate AllHeld(m: Incoming)
    requires WellFormed(m)
  {
    forall i: nat | i < DataFragments(m) :: m.fragments[i].Some?
  }

  lemma NothingMissingAllHeld(m: Incoming)
    requires WellFormed(m)
    ensures Missing(DataPart(m)) == [] <==> AllHeld(m)
  {
    if Missing(DataPart(m)) == [] {
      forall i: nat | i < DataFragments(m) ensures m.fragments[i].Some? {
        assert m.fragments[i] == DataPart(m)[i];
      }
    } else {
      var j := Missing(DataPart(m))[0];
      assert DataPart(m)[j] == m.fragments[j];
    }
  }

  lemma TooFewParities(data: seq<Fragment>, parity: seq<Parity>)
    requires |Missing(data)| > |parity|
    ensures !Decodable(data, parity)
  {}
}
