/** The fan-out core of cmd/server/main.go: the Hub, the set of live
    WebSocket connections with snapshot-then-write broadcasting, and the body
    of the wave batching loop with its counters.

    The model is sequential: the Hub's mutex only scopes its critical
    sections, so each Hub method is one atomic step here, and the moment
    between taking a snapshot and writing to it is exposed as two separate
    methods (Snapshot, Deliver). Connections are identified by number, and
    whether a write succeeds is decided by an oracle `writeOk`. */
module Server {
  import opened Wrappers
  import opened LittleEndian

  type SinkId = nat

  /** The WebSocket frame type a payload is written as. */
  datatype FrameKind = Text | Binary

  /** One write attempted on a connection. */
  datatype Write = Write(sink: SinkId, kind: FrameKind, payload: seq<Byte>)

  predicate Distinct(s: seq<SinkId>) {
    forall i, j :: 0 <= i < j < |s| ==> s[i] != s[j]
  }

  /** The connections a sequence of writes went to, in order. */
  function Targets(writes: seq<Write>): seq<SinkId> {
    seq(|writes|, i requires 0 <= i < |writes| => writes[i].sink)
  }

  /** The connections among `clients` whose write fails. */
  function Failed(clients: seq<SinkId>, writeOk: SinkId -> bool): set<SinkId> {
    set c | c in clients && !writeOk(c)
  }

  /** The set of live connections (Go: map[*websocket.Conn]bool, whose
      values are always true). */
  class Hub {
    var conns: set<SinkId>

    /** newHub. */
    constructor ()
      ensures conns == {}
    {
      conns := {};
    }

    /** Registers a connection; the others are untouched. */
    method Add(c: SinkId)
      modifies this
      ensures conns == old(conns) + {c}
    {
      conns := conns + {c};
    }

    /** Unregisters a connection; the others are untouched, and removing an
        absent connection changes nothing (so removing twice is removing once). */
    method Remove(c: SinkId)
      modifies this
      ensures conns == old(conns) - {c}
    {
      conns := conns - {c};
    }

    /** The current connections, each exactly once, in the map's (arbitrary)
        iteration order; the set itself is not changed. */
    method Snapshot() returns (clients: seq<SinkId>)
      ensures forall c :: c in clients <==> c in conns
      ensures Distinct(clients)
      ensures |clients| == |conns|
    {
      clients := [];
      var rest := conns;
      while rest != {}
        invariant rest <= conns
        invariant forall c :: c in clients <==> c in conns && c !in rest
        invariant Distinct(clients)
        invariant |clients| + |rest| == |conns|
        decreases |rest|
      {
        var c :| c in rest;
        clients := clients + [c];
        rest := rest - {c};
      }
    }

    /** The write phase of a broadcast, over a snapshot taken earlier: one
        write per snapshot entry, in order; a connection whose write fails is
        closed and removed, every other membership stays as it is. */
    method Deliver(clients: seq<SinkId>, kind: FrameKind, payload: seq<Byte>, writeOk: SinkId -> bool)
      returns (writes: seq<Write>)
      modifies this
      ensures Targets(writes) == clients
      ensures forall w :: w in writes ==> w.kind == kind && w.payload == payload
      ensures conns == old(conns) - Failed(clients, writeOk)
    {
      writes := [];
      var i := 0;
      while i < |clients|
        invariant 0 <= i <= |clients|
        invariant Targets(writes) == clients[..i]
        invariant forall w :: w in writes ==> w.kind == kind && w.payload == payload
        invariant conns == old(conns) - Failed(clients[..i], writeOk)
      {
        var c := clients[i];
        writes := writes + [Write(c, kind, payload)];
        if !writeOk(c) {
          Remove(c);
        }
        assert clients[..i + 1] == clients[..i] + [c];
        assert Failed(clients[..i + 1], writeOk) == Failed(clients[..i], writeOk) + (if writeOk(c) then {} else {c});
        i := i + 1;
      }
      assert clients[..i] == clients;
    }

    /** Snapshot, then write to every connection in it. */
    method Broadcast(kind: FrameKind, payload: seq<Byte>, writeOk: SinkId -> bool) returns (writes: seq<Write>)
      modifies this
      ensures Distinct(Targets(writes)) && |writes| == |old(conns)|
      ensures forall c :: c in Targets(writes) <==> c in old(conns)
      ensures forall w :: w in writes ==> w.kind == kind && w.payload == payload
      ensures conns == old(conns) - Failed(Targets(writes), writeOk)
      ensures forall c :: c in conns <==> c in old(conns) && writeOk(c)
    {
      var clients := Snapshot();
      writes := Deliver(clients, kind, payload, writeOk);
    }

    /** broadcastText: a rate event, forwarded as a text frame. */
    method BroadcastText(payload: seq<Byte>, writeOk: SinkId -> bool) returns (writes: seq<Write>)
      modifies this
      ensures Distinct(Targets(writes)) && |writes| == |old(conns)|
      ensures forall c :: c in Targets(writes) <==> c in old(conns)
      ensures forall w :: w in writes ==> w.kind == Text && w.payload == payload
      ensures forall c :: c in conns <==> c in old(conns) && writeOk(c)
    {
      writes := Broadcast(Text, payload, writeOk);
    }

    /** broadcastBinary: a packed wave batch, as a binary frame. */
    method BroadcastBinary(payload: seq<Byte>, writeOk: SinkId -> bool) returns (writes: seq<Write>)
      modifies this
      ensures Distinct(Targets(writes)) && |writes| == |old(conns)|
      ensures forall c :: c in Targets(writes) <==> c in old(conns)
      ensures forall w :: w in writes ==> w.kind == Binary && w.payload == payload
      ensures forall c :: c in conns <==> c in old(conns) && writeOk(c)
    {
      writes := Broadcast(Binary, payload, writeOk);
    }
  }

  /** A connection that arrives between a broadcast's snapshot and its
      writes gets nothing from that broadcast and stays registered; every
      connection in the snapshot still gets exactly one write. */
  method AddDuringBroadcast(hub: Hub, newcomer: SinkId, kind: FrameKind, payload: seq<Byte>, writeOk: SinkId -> bool)
    returns (writes: seq<Write>)
    requires newcomer !in hub.conns
    modifies hub
    ensures newcomer !in Targets(writes)
    ensures Distinct(Targets(writes)) && forall c :: c in Targets(writes) <==> c in old(hub.conns)
    ensures newcomer in hub.conns
  {
    var clients := hub.Snapshot();
    hub.Add(newcomer);
    writes := hub.Deliver(clients, kind, payload, writeOk);
  }

  /** A connection whose write fails is never written to by a later broadcast
      (unless it connects again). */
  method EvictedNotRetried(hub: Hub, first: seq<Byte>, second: seq<Byte>, ok1: SinkId -> bool, ok2: SinkId -> bool)
    returns (writes1: seq<Write>, writes2: seq<Write>)
    modifies hub
    ensures forall c :: c in Targets(writes1) && !ok1(c) ==> c !in Targets(writes2)
  {
    writes1 := hub.BroadcastBinary(first, ok1);
    writes2 := hub.BroadcastBinary(second, ok2);
  }

  /** The sample word of each wave message, 0 where decoding fails. */
  function Decoded(batch: seq<seq<Byte>>, decode: seq<Byte> -> Option<Word>): seq<Word> {
    seq(|batch|, i requires 0 <= i < |batch| => decode(batch[i]).GetOr(0))
  }

  /** The four bytes of one slot: the decoded word, or zeros where decoding failed. */
  function Slot(r: Option<Word>): seq<Byte> {
    match r
    case Some(w) => PutUint32(w)
    case None => [0, 0, 0, 0]
  }

  /** Each slot of a packed batch holds its message's decoded word, or four
      zero bytes when the message does not decode. */
  lemma PackedSlots(batch: seq<seq<Byte>>, decode: seq<Byte> -> Option<Word>)
    ensures |Pack(Decoded(batch, decode))| == 4 * |batch|
    ensures forall i :: 0 <= i < |batch| ==> Pack(Decoded(batch, decode))[4 * i..4 * i + 4] == Slot(decode(batch[i]))
  {
    var ws := Decoded(batch, decode);
    PackSlots(ws);
    forall i | 0 <= i < |batch|
      ensures Pack(ws)[4 * i..4 * i + 4] == Slot(decode(batch[i]))
    {
      assert Pack(ws)[4 * i..4 * i + 4] == PutUint32(ws[i]);
      if decode(batch[i]).None? {
        PutUint32Zero();
      }
    }
  }

  /** Packs a batch of wave messages into a zero-filled buffer, leaving the
      slot of a message that does not decode untouched. */
  method PackBatch(batch: seq<seq<Byte>>, decode: seq<Byte> -> Option<Word>) returns (packed: seq<Byte>)
    ensures packed == Pack(Decoded(batch, decode))
  {
    ghost var ws := Decoded(batch, decode);
    var out := new Byte[4 * |batch|](_ => 0);
    assert out[..] == Pack(ws[..0]) + Zeros(4 * |batch|);
    var i := 0;
    while i < |batch|
      invariant 0 <= i <= |batch|
      invariant out[..] == Pack(ws[..i]) + Zeros(4 * (|batch| - i))
    {
      ghost var before := out[..];
      var r := decode(batch[i]);
      if r.Some? {
        PutUint32At(out, 4 * i, r.value);
      }
      SlotStep(ws, i, r, before, out[..]);
      i := i + 1;
    }
    assert ws[..i] == ws;
    packed := out[..];
  }

  /** One iteration of the packing loop keeps the buffer equal to the
      packed prefix followed by zeros. */
  lemma SlotStep(ws: seq<Word>, i: nat, r: Option<Word>, before: seq<Byte>, after: seq<Byte>)
    requires i < |ws| && ws[i] == r.GetOr(0)
    requires before == Pack(ws[..i]) + Zeros(4 * (|ws| - i))
    requires r.Some? ==> after == before[..4 * i] + PutUint32(r.value) + before[4 * i + 4..]
    requires r.None? ==> after == before
    ensures after == Pack(ws[..i + 1]) + Zeros(4 * (|ws| - i - 1))
  {
    var done, n := Pack(ws[..i]), 4 * (|ws| - i);
    if r.Some? {
      FillSlot(done, n, r.value);
    } else {
      SkipSlot(done, n);
    }
    PackPrefix(ws, i);
  }

  /** The state of the wave batching goroutine: the pending batch of raw
      wave messages and the three counters it updates. `maxBatch` is the
      -max_batch flag; `arrived` counts every message the drain has taken,
      so that each one can be followed to exactly one counter. */
  class WaveBatcher {
    const maxBatch: int
    var batch: seq<seq<Byte>>
    var batchesSent: nat
    var samplesSent: nat
    var samplesDropped: nat
    ghost var arrived: nat

    /** Between iterations the batch is shorter than maxBatch (or empty),
        and every message taken so far is pending, sent or dropped. */
    ghost predicate Valid()
      reads this
    {
      (batch == [] || |batch| < maxBatch) &&
      arrived == samplesSent + samplesDropped + |batch|
    }

    /** How many more appends the batch takes until the one that drops it. */
    function Room(): int
      reads this
    {
      if maxBatch - |batch| >= 1 then maxBatch - |batch| else 1
    }

    /** The goroutine's start: an empty batch, and the counters at zero. */
    constructor (maxBatch: int)
      ensures this.maxBatch == maxBatch && batch == []
      ensures batchesSent == 0 && samplesSent == 0 && samplesDropped == 0
      ensures Valid()
    {
      this.maxBatch := maxBatch;
      batch := [];
      batchesSent, samplesSent, samplesDropped := 0, 0, 0;
      arrived := 0;
    }

    /** One message from the poll: it is appended, and if the batch thereby
        reaches maxBatch the whole batch is counted as dropped and cleared. */
    method Append(m: seq<Byte>) returns (overflow: bool)
      requires Valid()
      modifies this
      ensures overflow <==> |old(batch)| + 1 >= maxBatch
      ensures overflow <==> old(Room()) == 1
      ensures overflow ==> batch == [] && samplesDropped == old(samplesDropped) + |old(batch)| + 1
      ensures !overflow ==> batch == old(batch) + [m] && samplesDropped == old(samplesDropped)
      ensures batchesSent == old(batchesSent) && samplesSent == old(samplesSent)
      ensures arrived == old(arrived) + 1
      ensures Valid()
    {
      batch := batch + [m];
      arrived := arrived + 1;
      overflow := |batch| >= maxBatch;
      if overflow {
        samplesDropped := samplesDropped + |batch|;
        batch := [];
      }
    }

    /** The poll loop: takes the ready messages in order until none remain,
        or until one of them makes the batch overflow. Returns how many it took. */
    method Drain(ready: seq<seq<Byte>>) returns (taken: nat)
      requires Valid()
      modifies this
      ensures taken <= |ready|
      ensures old(Room()) > |ready| ==>
        (taken == |ready| && batch == old(batch) + ready && samplesDropped == old(samplesDropped))
      ensures old(Room()) <= |ready| ==>
        (taken == old(Room()) && batch == [] && samplesDropped == old(samplesDropped) + |old(batch)| + old(Room()))
      ensures batchesSent == old(batchesSent) && samplesSent == old(samplesSent)
      ensures arrived == old(arrived) + taken
      ensures Valid()
    {
      ghost var room := Room();
      taken := 0;
      var overflow := false;
      while taken < |ready| && !overflow
        invariant taken <= |ready| && Valid()
        invariant !overflow ==> (taken < room && batch == old(batch) + ready[..taken] &&
          samplesDropped == old(samplesDropped) && Room() == room - taken)
        invariant overflow ==> (taken == room && batch == [] &&
          samplesDropped == old(samplesDropped) + |old(batch)| + room)
        invariant batchesSent == old(batchesSent) && samplesSent == old(samplesSent)
        invariant arrived == old(arrived) + taken
      {
        assert ready[..taken + 1] == ready[..taken] + [ready[taken]];
        overflow := Append(ready[taken]);
        taken := taken + 1;
      }
      assert !overflow ==> ready[..taken] == ready;
    }

    /** A tick: an empty batch is skipped; otherwise the batch is packed
        (zero slots where a message does not decode), broadcast once as a
        binary frame, counted as one batch of len(batch) samples and cleared.
        `sent` is the buffer handed to the Hub, if any. */
    method Tick(hub: Hub, decode: seq<Byte> -> Option<Word>, writeOk: SinkId -> bool)
      returns (sent: Option<seq<Byte>>, writes: seq<Write>)
      requires Valid()
      modifies this, hub
      ensures sent.None? <==> old(batch) == []
      ensures sent.None? ==> (writes == [] && hub.conns == old(hub.conns) &&
        batchesSent == old(batchesSent) && samplesSent == old(samplesSent))
      ensures sent.Some? ==> (sent.value == Pack(Decoded(old(batch), decode)) &&
        4 <= |sent.value| < 4 * maxBatch &&
        batchesSent == old(batchesSent) + 1 && samplesSent == old(samplesSent) + |old(batch)|)
      ensures sent.Some? ==> (Distinct(Targets(writes)) &&
        (forall c :: c in Targets(writes) <==> c in old(hub.conns)) &&
        (forall w :: w in writes ==> w.kind == Binary && w.payload == sent.value) &&
        (forall c :: c in hub.conns <==> c in old(hub.conns) && writeOk(c)))
      ensures batch == [] && samplesDropped == old(samplesDropped) && arrived == old(arrived)
      ensures Valid()
    {
      if batch == [] {
        return None, [];
      }
      var packed := PackBatch(batch, decode);
      writes := hub.BroadcastBinary(packed, writeOk);
      batchesSent := batchesSent + 1;
      samplesSent := samplesSent + |batch|;
      batch := [];
      sent := Some(packed);
    }
  }

  /** Fewer than maxBatch messages before a tick, on an empty batch, reach
      the viewers as one batch of exactly that many samples, and nothing is
      dropped. */
  method FillThenTick(b: WaveBatcher, hub: Hub, ready: seq<seq<Byte>>, decode: seq<Byte> -> Option<Word>, writeOk: SinkId -> bool)
    returns (sent: Option<seq<Byte>>, writes: seq<Write>)
    requires b.Valid() && b.batch == [] && 0 < |ready| < b.maxBatch
    modifies b, hub
    ensures sent == Some(Pack(Decoded(ready, decode))) && |sent.value| == 4 * |ready|
    ensures b.samplesDropped == old(b.samplesDropped)
    ensures b.batchesSent == old(b.batchesSent) + 1 && b.samplesSent == old(b.samplesSent) + |ready|
  {
    var taken := b.Drain(ready);
    assert b.batch == ready;
    sent, writes := b.Tick(hub, decode, writeOk);
  }

  /** maxBatch messages before a tick, on an empty batch, are all counted as
      dropped, and the tick that follows broadcasts nothing. */
  method OverflowThenTick(b: WaveBatcher, hub: Hub, ready: seq<seq<Byte>>, decode: seq<Byte> -> Option<Word>, writeOk: SinkId -> bool)
    returns (sent: Option<seq<Byte>>, writes: seq<Write>)
    requires b.Valid() && b.batch == [] && 1 <= |ready| == b.maxBatch
    modifies b, hub
    ensures b.samplesDropped == old(b.samplesDropped) + |ready|
    ensures sent == None && writes == [] && hub.conns == old(hub.conns)
    ensures b.batchesSent == old(b.batchesSent) && b.samplesSent == old(b.samplesSent)
  {
    var taken := b.Drain(ready);
    sent, writes := b.Tick(hub, decode, writeOk);
  }
}
