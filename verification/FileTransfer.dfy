/** Files travel as a manifest and numbered chunks, and are put together again in any order of arrival. */
module FileTransfer {
  import opened Common
  import opened Galois
  import opened WireFormat
  import opened PacketCodec

  const MAX_CHUNKS := 65536

  /** A file being received. */
  datatype Incoming = Incoming(name: Bytes, total: nat, chunkSize: nat, chunkCount: nat,
                               chunks: seq<Option<Bytes>>, received: nat)

  datatype Message =
    | Manifest(id: nat, name: Bytes, total: nat, chunkSize: nat, chunkCount: nat)
    | Piece(id: nat, index: nat, data: Bytes)
    | Foreign

  datatype Delivery = Delivery(id: nat, name: Bytes, data: Bytes)

  // ---------- The sender ----------

  /** An empty file still has one chunk, an empty one. */
  function PieceCount(size: nat): (n: nat)
    ensures n >= 1
  {
    if size == 0 then 1 else (size + 61439) / 61440
  }

  function PieceOf(data: Bytes, i: nat): Bytes
    requires i < PieceCount(|data|)
  {
    var start := i * 61440;
    data[start..if start + 61440 < |data| then start + 61440 else |data|]
  }

  function ManifestFor(id: nat, name: Bytes, data: Bytes): Message {
    Manifest(id, name, |data|, 61440, PieceCount(|data|))
  }

  // ---------- On the wire ----------

  /** Eight bytes, the low word first. */
  function PutTotal(n: nat): (b: Bytes)
    ensures |b| == 8
  {
    PutLength(n % 0x1_0000_0000) + PutLength(n / 0x1_0000_0000)
  }

  function Encoded(m: Message): Bytes
    requires !m.Foreign?
  {
    match m
    case Manifest(id, name, total, size, count) =>
      [1] + PutLength(id) + PutCount(|name|) + name + PutTotal(total) + PutLength(size) + PutLength(count)
    case Piece(id, index, data) => [2] + PutLength(id) + PutLength(index) + data
  }

  /** Anything else is not about files; too short a message, or a manifest of too many chunks, is passed over. */
  function Parsed(p: Bytes): Message {
    if |p| == 0 then Foreign
    else if p[0] == 1 then
      if |p| < 23 then Foreign
      else
        var id, nameLength := GetLength(p[1..5]), GetCount(p[5..7]);
        if |p| < 7 + nameLength + 16 then Foreign
        else
          var rest := p[7 + nameLength..];
          var total := GetLength(rest[..4]) + GetLength(rest[4..8]) * 0x1_0000_0000;
          var size, count := GetLength(rest[8..12]), GetLength(rest[12..16]);
          if count > MAX_CHUNKS then Foreign else Manifest(id, p[7..7 + nameLength], total, size, count)
    else if p[0] == 2 then
      if |p| < 9 then Foreign else Piece(GetLength(p[1..5]), GetLength(p[5..9]), p[9..])
    else Foreign
  }

  lemma PieceParses(id: nat, index: nat, data: Bytes)
    requires id < 0x1_0000_0000 && index < 0x1_0000_0000
    ensures Parsed(Encoded(Piece(id, index, data))) == Piece(id, index, data)
  {
    hide PutLength, GetLength;
    var p := Encoded(Piece(id, index, data));
    assert p[1..5] == PutLength(id) && p[5..9] == PutLength(index) && p[9..] == data;
    LengthRoundTrip(id);
    LengthRoundTrip(index);
  }

  lemma TotalParses(n: nat)
    requires n < 0x1_0000_0000_0000_0000
    ensures var b := PutTotal(n); GetLength(b[..4]) + GetLength(b[4..8]) * 0x1_0000_0000 == n
  {
    hide PutLength, GetLength;
    var b := PutTotal(n);
    assert b[..4] == PutLength(n % 0x1_0000_0000) && b[4..8] == PutLength(n / 0x1_0000_0000);
    LengthRoundTrip(n % 0x1_0000_0000);
    LengthRoundTrip(n / 0x1_0000_0000);
  }

  /** A manifest gets through exactly when it counts at most 65536 chunks. */
  lemma ManifestParses(id: nat, name: Bytes, total: nat, size: nat, count: nat)
    requires id < 0x1_0000_0000 && |name| < 0x1_0000 && total < 0x1_0000_0000_0000_0000
    requires size < 0x1_0000_0000 && count < 0x1_0000_0000
    ensures Parsed(Encoded(Manifest(id, name, total, size, count))) ==
            if count > MAX_CHUNKS then Foreign else Manifest(id, name, total, size, count)
  {
    hide PutLength, GetLength, PutTotal, PutCount, GetCount;
    var p := Encoded(Manifest(id, name, total, size, count));
    var n := |name|;
    assert p[1..5] == PutLength(id) && p[5..7] == PutCount(n) && p[7..7 + n] == name;
    var rest := p[7 + n..];
    assert rest == PutTotal(total) + PutLength(size) + PutLength(count);
    assert rest[..4] == PutTotal(total)[..4] && rest[4..8] == PutTotal(total)[4..8];
    assert rest[8..12] == PutLength(size) && rest[12..16] == PutLength(count);
    LengthRoundTrip(id);
    CountRoundTrip(n);
    TotalParses(total);
    LengthRoundTrip(size);
    LengthRoundTrip(count);
  }

  /** So a file gets a manifest the receiver takes exactly up to 65536 chunks of 60 KiB. */
  lemma SizeLimit(size: nat)
    ensures PieceCount(size) <= MAX_CHUNKS <==> size <= 4026531840
  {}

  // ---------- The receiver ----------

  function Joined(chunks: seq<Option<Bytes>>): Bytes {
    if chunks == [] then []
    else
      var last := chunks[|chunks| - 1];
      Joined(chunks[..|chunks| - 1]) + if last.Some? then last.value else []
  }

  function Opened(name: Bytes, total: nat, size: nat, count: nat): Incoming {
    Incoming(name, total, size, count, seq(count, _ => None), 0)
  }

  function Filled(f: Incoming, index: nat, data: Bytes): Incoming
    requires index < |f.chunks|
  {
    f.(chunks := f.chunks[index := Some(data)], received := f.received + 1)
  }

  /** The files being received after a message, and the file it completes. */
  function Received(files: map<nat, Incoming>, m: Message): (map<nat, Incoming>, Option<Delivery>) {
    match m
    case Foreign => (files, None)
    case Manifest(id, name, total, size, count) => (files[id := Opened(name, total, size, count)], None)
    case Piece(id, index, data) =>
      if id !in files || index >= files[id].chunkCount || index >= |files[id].chunks| || files[id].chunks[index].Some?
      then (files, None)
      else
        var f := Filled(files[id], index, data);
        if f.received == f.chunkCount then (files - {id}, Some(Delivery(id, f.name, Joined(f.chunks))))
        else (files[id := f], None)
  }

  function Run(files: map<nat, Incoming>, messages: seq<Message>): map<nat, Incoming> {
    if messages == [] then files
    else Received(Run(files, messages[..|messages| - 1]), messages[|messages| - 1]).0
  }

  function Deliveries(files: map<nat, Incoming>, messages: seq<Message>): seq<Delivery> {
    if messages == [] then []
    else
      var d := Received(Run(files, messages[..|messages| - 1]), messages[|messages| - 1]).1;
      Deliveries(files, messages[..|messages| - 1]) + if d.Some? then [d.value] else []
  }

  function Of(deliveries: seq<Delivery>, id: nat): seq<Delivery> {
    if deliveries == [] then []
    else
      var last := deliveries[|deliveries| - 1];
      Of(deliveries[..|deliveries| - 1], id) + if last.id == id then [last] else []
  }

  // ---------- A file arrives ----------

  /** A chunk of the file, or a message about another file. */
  ghost predicate Concerns(m: Message, id: nat, data: Bytes) {
    match m
    case Foreign => true
    case Manifest(other, _, _, _, _) => other != id
    case Piece(other, index, chunk) =>
      other == id ==> index < PieceCount(|data|) && chunk == PieceOf(data, index)
  }

  /** The chunks of the file seen so far. */
  function Seen(messages: seq<Message>, id: nat): set<nat> {
    if messages == [] then {}
    else
      var m := messages[|messages| - 1];
      Seen(messages[..|messages| - 1], id) + if m.Piece? && m.id == id then {m.index} else {}
  }

  /** The file as far as the chunks in seen go. */
  function Partly(name: Bytes, data: Bytes, seen: set<nat>): Incoming {
    Incoming(name, |data|, 61440, PieceCount(|data|),
             seq(PieceCount(|data|), i requires 0 <= i < PieceCount(|data|) =>
               if i in seen then Some(PieceOf(data, i)) else None), |seen|)
  }

  ghost predicate Progress(files: map<nat, Incoming>, out: seq<Delivery>, id: nat, name: Bytes, data: Bytes,
      seen: set<nat>) {
    && (forall i :: i in seen ==> i < PieceCount(|data|))
    && (if |seen| == PieceCount(|data|) then id !in files && Of(out, id) == [Delivery(id, name, data)]
        else id in files && files[id] == Partly(name, data, seen) && Of(out, id) == [])
  }

  lemma {:induction false} BelowSize(s: set<nat>, n: nat)
    requires forall i :: i in s ==> i < n
    ensures |s| <= n
    ensures |s| == n ==> forall i: nat :: i < n ==> i in s
    decreases n
  {
    if n == 0 {
      assert s == {};
    } else {
      var rest := s - {n - 1};
      BelowSize(rest, n - 1);
      assert s == if n - 1 in s then rest + {n - 1} else rest;
    }
  }

  lemma {:induction false} JoinedPieces(data: Bytes, chunks: seq<Option<Bytes>>)
    requires |chunks| <= PieceCount(|data|)
    requires forall i: nat :: i < |chunks| ==> chunks[i] == Some(PieceOf(data, i))
    ensures Joined(chunks) == data[..if |chunks| * 61440 < |data| then |chunks| * 61440 else |data|]
    decreases |chunks|
  {
    if chunks != [] {
      var n := |chunks| - 1;
      JoinedPieces(data, chunks[..n]);
      var start := n * 61440;
      var end := if start + 61440 < |data| then start + 61440 else |data|;
      assert start <= |data|;
      assert data[..start] + data[start..end] == data[..end];
    }
  }

  lemma WholeFile(name: Bytes, data: Bytes, seen: set<nat>)
    requires (forall i :: i in seen ==> i < PieceCount(|data|)) && |seen| == PieceCount(|data|)
    ensures Joined(Partly(name, data, seen).chunks) == data
  {
    var n := PieceCount(|data|);
    BelowSize(seen, n);
    JoinedPieces(data, Partly(name, data, seen).chunks);
    assert n * 61440 >= |data|;
    assert data[..|data|] == data;
  }

  lemma OneMorePiece(name: Bytes, data: Bytes, seen: set<nat>, index: nat)
    requires index < PieceCount(|data|) && index !in seen
    ensures Filled(Partly(name, data, seen), index, PieceOf(data, index)) == Partly(name, data, seen + {index})
  {
    var a, b := Filled(Partly(name, data, seen), index, PieceOf(data, index)), Partly(name, data, seen + {index});
    assert a.chunks == b.chunks;
  }

  lemma OfMore(out: seq<Delivery>, d: Delivery, id: nat)
    ensures Of(out + [d], id) == Of(out, id) + if d.id == id then [d] else []
  {
    assert (out + [d])[..|out|] == out;
  }

  /** One message takes the file one chunk further, or leaves it alone. */
  lemma MessageProgress(files: map<nat, Incoming>, out: seq<Delivery>, m: Message, id: nat, name: Bytes, data: Bytes,
      seen: set<nat>)
    requires Progress(files, out, id, name, data, seen) && Concerns(m, id, data)
    ensures var (after, d) := Received(files, m);
            Progress(after, out + (if d.Some? then [d.value] else []), id, name, data,
                     seen + if m.Piece? && m.id == id then {m.index} else {})
  {
    var (after, d) := Received(files, m);
    assert out + [] == out;
    if d.Some? {
      OfMore(out, d.value, id);
    }
    if m.Piece? && m.id == id {
      PieceProgress(files, out, m.index, id, name, data, seen);
    } else {
      assert seen + {} == seen;
      assert Of(out, id) + [] == Of(out, id);
    }
  }

  lemma PieceProgress(files: map<nat, Incoming>, out: seq<Delivery>, index: nat, id: nat, name: Bytes, data: Bytes,
      seen: set<nat>)
    requires Progress(files, out, id, name, data, seen) && index < PieceCount(|data|)
    ensures var (after, d) := Received(files, Piece(id, index, PieceOf(data, index)));
            Progress(after, out + (if d.Some? then [d.value] else []), id, name, data, seen + {index})
  {
    hide PieceCount, Joined;
    assert out + [] == out;
    if |seen| == PieceCount(|data|) {
      BelowSize(seen, PieceCount(|data|));
      assert seen + {index} == seen;
    } else if index in seen {
      assert seen + {index} == seen;
    } else {
      OneMorePiece(name, data, seen, index);
      var whole := seen + {index};
      if |whole| == PieceCount(|data|) {
        WholeFile(name, data, whole);
        OfMore(out, Delivery(id, name, data), id);
        assert [] + [Delivery(id, name, data)] == [Delivery(id, name, data)];
      }
    }
  }

  lemma {:induction false} RunProgress(files: map<nat, Incoming>, messages: seq<Message>, id: nat, name: Bytes,
      data: Bytes)
    requires id in files && files[id] == Opened(name, |data|, 61440, PieceCount(|data|))
    requires forall m :: m in messages ==> Concerns(m, id, data)
    ensures Progress(Run(files, messages), Deliveries(files, messages), id, name, data, Seen(messages, id))
  {
    if messages == [] {
      assert Opened(name, |data|, 61440, PieceCount(|data|)).chunks == Partly(name, data, {}).chunks;
    } else {
      var n := |messages| - 1;
      assert messages[n] in messages;
      assert forall m :: m in messages[..n] ==> m in messages;
      RunProgress(files, messages[..n], id, name, data);
      hide Progress, Concerns, Received;
      MessageProgress(Run(files, messages[..n]), Deliveries(files, messages[..n]), messages[n], id, name, data,
                      Seen(messages[..n], id));
    }
  }

  /** Once its manifest has arrived, a file is delivered exactly once and whole, whatever the order and
      repetition of its chunks and whatever else arrives, and exactly when its last chunk has come. */
  lemma FileArrives(files: map<nat, Incoming>, messages: seq<Message>, id: nat, name: Bytes, data: Bytes)
    requires PieceCount(|data|) <= MAX_CHUNKS
    requires forall m :: m in messages ==> Concerns(m, id, data)
    ensures var start := Received(files, ManifestFor(id, name, data)).0;
            var out := Of(Deliveries(start, messages), id);
            var complete := forall i: nat :: i < PieceCount(|data|) ==> i in Seen(messages, id);
            out == if complete then [Delivery(id, name, data)] else []
  {
    var start := Received(files, ManifestFor(id, name, data)).0;
    RunProgress(start, messages, id, name, data);
    BelowSize(Seen(messages, id), PieceCount(|data|));
    if forall i: nat :: i < PieceCount(|data|) ==> i in Seen(messages, id) {
      AllBelow(Seen(messages, id), PieceCount(|data|));
    }
    hide Run, Deliveries, Of, Partly, PieceCount, Seen;
  }

  lemma {:induction false} AllBelow(s: set<nat>, n: nat)
    requires forall i: nat :: i < n ==> i in s
    ensures |s| >= n
    decreases n
  {
    if n > 0 {
      AllBelow(s - {n - 1}, n - 1);
      assert |s - {n - 1}| == |s| - 1;
    }
  }

  // ---------- Both ends ----------

  function MessagesOf(id: nat, name: Bytes, data: Bytes): seq<Message> {
    [ManifestFor(id, name, data)] +
    seq(PieceCount(|data|), i requires 0 <= i < PieceCount(|data|) => Piece(id, i, PieceOf(data, i)))
  }

  class FileSender {
    var nextId: nat

    constructor ()
      ensures nextId == 1
    {
      nextId := 1;
    }

    /** The manifest, then every chunk, until a message is not taken; a name that does not fit its length field is
        refused.  room is how many messages are taken before one is refused. */
    method SendFile(name: Bytes, data: Bytes, room: nat) returns (ok: bool, sent: seq<Bytes>)
      modifies this
      ensures ok <==> |name| < 0x1_0000 && PieceCount(|data|) + 1 <= room
      ensures |name| < 0x1_0000 ==>
                && nextId == old(nextId) + 1
                && |sent| == (if ok then PieceCount(|data|) + 1 else room) <= PieceCount(|data|) + 1
                && forall i :: 0 <= i < |sent| ==> sent[i] == Encoded(MessagesOf(old(nextId), name, data)[i])
      ensures |name| >= 0x1_0000 ==> nextId == old(nextId) && sent == []
    {
      hide Encoded;
      if |name| > 65535 {
        return false, [];
      }
      var id := nextId;
      nextId := nextId + 1;
      var count := PieceCount(|data|);
      ghost var all := MessagesOf(id, name, data);
      if room == 0 {
        return false, [];
      }
      sent := [Encoded(ManifestFor(id, name, data))];
      for i := 0 to count
        invariant |sent| == i + 1 <= room && forall j :: 0 <= j < |sent| ==> sent[j] == Encoded(all[j])
      {
        if |sent| == room {
          return false, sent;
        }
        assert all[i + 1] == Piece(id, i, PieceOf(data, i));
        sent := sent + [Encoded(Piece(id, i, PieceOf(data, i)))];
      }
      ok := true;
    }
  }

  class FileReceiver {
    var files: map<nat, Incoming>

    constructor ()
      ensures files == map[]
    {
      files := map[];
    }

    method Join(chunks: seq<Option<Bytes>>) returns (out: Bytes)
      ensures out == Joined(chunks)
    {
      out := [];
      for i := 0 to |chunks|
        invariant out == Joined(chunks[..i])
      {
        assert chunks[..i + 1][..i] == chunks[..i];
        out := out + if chunks[i].Some? then chunks[i].value else [];
      }
      assert chunks[..|chunks|] == chunks;
    }

    method HandleChunk(id: nat, index: nat, data: Bytes) returns (done: Option<Delivery>)
      modifies this
      ensures (files, done) == Received(old(files), Piece(id, index, data))
    {
      hide Joined;
      if id !in files || index >= files[id].chunkCount || index >= |files[id].chunks| {
        return None;
      }
      if files[id].chunks[index].Some? {
        return None;
      }
      var f := Filled(files[id], index, data);
      files := files[id := f];
      if f.received == f.chunkCount {
        var out := Join(f.chunks);
        assert files - {id} == old(files) - {id};
        files := files - {id};
        return Some(Delivery(id, f.name, out));
      }
      done := None;
    }

    method Deliver(payload: Bytes) returns (done: Option<Delivery>)
      modifies this
      ensures (files, done) == Received(old(files), Parsed(payload))
    {
      hide Parsed, Joined;
      done := None;
      match Parsed(payload)
      case Foreign =>
      case Manifest(id, name, total, size, count) =>
        files := files[id := Opened(name, total, size, count)];
      case Piece(id, index, data) =>
        done := HandleChunk(id, index, data);
    }
  }
}
