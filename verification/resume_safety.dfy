/** What every state of every run of a resumable transfer satisfies. */
module ResumeSafety {
  import opened Bytes
  import opened Framing
  import opened ResumeMachine
  import opened TransferFormat

  // The invariant

  ghost predicate Known(hi: History, h: Stable) {
    h.transferId in hi.started && hi.started[h.transferId].header == h
  }

  function Content(hi: History, h: Stable): seq<byte>
    requires Known(hi, h)
  {
    hi.started[h.transferId].content
  }

  /** Neither the source nor the partial file of the transfer has been altered. */
  predicate Clean(hi: History, id: Id) {
    id !in hi.dirty
  }

  ghost predicate StartOk(c: Config, id: Id, start: Start) {
    && start.header.transferId == id && WellSized(start.header)
    && start.header.originalSize == |start.content| && start.header.sourceHash == c.hash(start.content)
  }

  ghost predicate StartedOk(c: Config, hi: History) {
    forall id :: id in hi.started ==> StartOk(c, id, hi.started[id])
  }

  ghost predicate SourceOk(hi: History, source: seq<byte>) {
    forall id :: id in hi.started && Clean(hi, id) ==> hi.started[id].content == source
  }

  ghost predicate IsPublished(hi: History, id: Id) {
    exists data :: (id, data) in hi.publications
  }

  /** Whatever was published has the hash in the header, and is the source if nothing was altered. */
  ghost predicate PublicationOk(c: Config, hi: History, id: Id, data: seq<byte>) {
    && id in hi.started && c.hash(data) == hi.started[id].header.sourceHash
    && (Clean(hi, id) ==> data == hi.started[id].content)
  }

  ghost predicate HistoryOk(c: Config, hi: History) {
    && StartedOk(c, hi)
    && (forall id, data :: (id, data) in hi.publications ==> PublicationOk(c, hi, id, data))
    && (forall id :: id in hi.receipts ==> IsPublished(hi, id))
  }

  /** The part of the source that comes before a frame. */
  ghost predicate FrameOfSource(h: Stable, content: seq<byte>, number: nat, data: seq<byte>) {
    && WellSized(h) && number < h.frameCount && |content| == h.originalSize
    && Expected(h, number).Some?
    && Expected(h, number).value + |data| <= |content|
    && data == content[Expected(h, number).value..Expected(h, number).value + |data|]
  }

  ghost predicate SealedOk(hi: History, r: Sealed) {
    Known(hi, r.header)
    && (r.Frame? && Clean(hi, r.header.transferId) ==> FrameOfSource(r.header, Content(hi, r.header), r.number, r.data))
  }

  ghost predicate NetOk(hi: History, net: Net) {
    && (forall q :: q in net.requests ==> Known(hi, q.header))
    && (forall r :: r in net.sealed ==> SealedOk(hi, r))
    && (forall a :: a in net.acks ==> IsPublished(hi, a.id))
  }

  ghost predicate PhaseOk(hi: History, p: Phase) {
    match p
    case Resting => true
    case Requested(q) => Known(hi, q.header)
    case Sending(_, h, _, next, offset) =>
      Known(hi, h) && WellSized(h) && next <= h.frameCount && Expected(h, next) == Some(offset)
    case Awaiting(_, h) => Known(hi, h)
  }

  ghost predicate ClientOk(hi: History, cl: Client) {
    (cl.saved.Some? ==> Known(hi, cl.saved.value.header)) && PhaseOk(hi, cl.phase)
  }

  /** The synced part of the file starts with the first n bytes of the content. */
  ghost predicate Keeps(f: File, content: seq<byte>, n: nat) {
    n <= f.durable <= |f.data| && n <= |content| && f.data[..n] == content[..n]
  }

  ghost predicate CheckpointOk(hi: History, d: Disk, id: Id, cp: Checkpoint) {
    && cp.header.transferId == id && Known(hi, cp.header) && WellSized(cp.header)
    && Expected(cp.header, cp.next) == Some(cp.received)
    && (Clean(hi, id) && id in d.partials ==> Keeps(d.partials[id], Content(hi, cp.header), cp.received))
  }

  ghost predicate DiskOk(hi: History, d: Disk) {
    && (forall id :: id in d.partials ==> d.partials[id].durable <= |d.partials[id].data|)
    && (forall id :: id in d.checkpoints ==> CheckpointOk(hi, d, id, d.checkpoints[id]))
  }

  ghost predicate AtCheckpoint(d: Disk, h: Stable, next: nat, received: nat) {
    && h.transferId in d.checkpoints && d.checkpoints[h.transferId] == Checkpoint(h, next, received)
    && h.transferId in d.partials && |d.partials[h.transferId].data| == received
  }

  /** Frame `next` is in the file, and the checkpoint is still the one before it. */
  ghost predicate PastCheckpoint(hi: History, d: Disk, h: Stable, next: nat, received: nat) {
    && Known(hi, h) && WellSized(h) && next < h.frameCount && Expected(h, next + 1) == Some(received)
    && h.transferId in d.checkpoints && d.checkpoints[h.transferId].header == h
    && d.checkpoints[h.transferId].next == next
    && HoldsAll(hi, d, h, received)
  }

  /** The file has that many bytes, which are the source's if nothing was altered. */
  ghost predicate HoldsAll(hi: History, d: Disk, h: Stable, received: nat)
    requires Known(hi, h)
  {
    && h.transferId in d.partials && |d.partials[h.transferId].data| == received
    && (Clean(hi, h.transferId) ==>
          received <= |Content(hi, h)| && d.partials[h.transferId].data == Content(hi, h)[..received])
  }

  ghost predicate ServerOk(hi: History, d: Disk, sv: Server) {
    match sv
    case Idle => true
    case Unlinked(_, h) => Known(hi, h) && h.transferId !in d.checkpoints
    case Created(_, h) =>
      Known(hi, h) && WellSized(h) && h.transferId !in d.checkpoints && h.transferId in d.partials
      && d.partials[h.transferId] == File([], 0)
    case Truncated(_, h, next, received) => Known(hi, h) && AtCheckpoint(d, h, next, received)
    case Validated(_, h, next, received) => Known(hi, h) && AtCheckpoint(d, h, next, received)
    case Replying(_, h, next, received) => Known(hi, h) && AtCheckpoint(d, h, next, received)
    case Receiving(_, h, next, received, _) => Known(hi, h) && AtCheckpoint(d, h, next, received)
    case Written(_, h, next, received, _) => PastCheckpoint(hi, d, h, next, received)
    case Synced(_, h, next, received, _) =>
      PastCheckpoint(hi, d, h, next, received) && d.partials[h.transferId].durable == received
    case Verified(_, h) => Known(hi, h) && h.originalSize >= 0 && HoldsAll(hi, d, h, h.originalSize)
    case Discarding(_, h) => Known(hi, h)
    case Published(_, h) => Known(hi, h) && IsPublished(hi, h.transferId)
    case Acking(_, h) => Known(hi, h) && IsPublished(hi, h.transferId)
  }

  ghost predicate Inv(c: Config, s: State) {
    && HistoryOk(c, s.history) && SourceOk(s.history, s.client.source)
    && ClientOk(s.history, s.client) && NetOk(s.history, s.net)
    && DiskOk(s.history, s.disk) && ServerOk(s.history, s.disk, s.server)
  }

  // Growing histories

  /** More transfers, more altered ones, more publications. */
  ghost predicate Later(hi: History, hi': History) {
    && (forall id :: id in hi.started ==> id in hi'.started && hi'.started[id] == hi.started[id])
    && hi.dirty <= hi'.dirty && hi.publications <= hi'.publications
  }

  lemma PublishedLater(hi: History, hi': History, id: Id)
    requires Later(hi, hi') && IsPublished(hi, id)
    ensures IsPublished(hi', id)
  {
    var data :| (id, data) in hi.publications;
    assert (id, data) in hi'.publications;
  }

  lemma NetLater(hi: History, hi': History, net: Net)
    requires Later(hi, hi') && NetOk(hi, net)
    ensures NetOk(hi', net)
  {
    hide WellSized, IsPublished;
    forall a | a in net.acks ensures IsPublished(hi', a.id) {
      PublishedLater(hi, hi', a.id);
    }
    forall r | r in net.sealed ensures SealedOk(hi', r) {
      assert SealedOk(hi, r);
    }
  }

  lemma ClientLater(hi: History, hi': History, cl: Client)
    requires Later(hi, hi') && ClientOk(hi, cl)
    ensures ClientOk(hi', cl)
  {
    hide WellSized;
  }

  lemma DiskLater(hi: History, hi': History, d: Disk)
    requires Later(hi, hi') && DiskOk(hi, d)
    ensures DiskOk(hi', d)
  {
    hide WellSized, Keeps;
    forall id | id in d.checkpoints ensures CheckpointOk(hi', d, id, d.checkpoints[id]) {
      assert CheckpointOk(hi, d, id, d.checkpoints[id]);
    }
  }

  lemma ServerLater(hi: History, hi': History, d: Disk, sv: Server)
    requires Later(hi, hi') && ServerOk(hi, d, sv)
    ensures ServerOk(hi', d, sv)
  {
    hide WellSized, AtCheckpoint, IsPublished;
    if (sv.Published? || sv.Acking?) && IsPublished(hi, sv.header.transferId) {
      PublishedLater(hi, hi', sv.header.transferId);
    }
  }

  lemma AllLater(hi: History, s: State)
    requires Later(hi, s.history) && ClientOk(hi, s.client) && NetOk(hi, s.net) && DiskOk(hi, s.disk)
             && ServerOk(hi, s.disk, s.server)
    ensures ClientOk(s.history, s.client) && NetOk(s.history, s.net) && DiskOk(s.history, s.disk)
            && ServerOk(s.history, s.disk, s.server)
  {
    hide Later, ClientOk, NetOk, DiskOk, ServerOk;
    ClientLater(hi, s.history, s.client);
    NetLater(hi, s.history, s.net);
    DiskLater(hi, s.history, s.disk);
    ServerLater(hi, s.history, s.disk, s.server);
  }

  lemma StartedStays(c: Config, hi: History, hi': History)
    requires StartedOk(c, hi) && hi'.started == hi.started
    ensures StartedOk(c, hi')
  {
  }

  // Client steps keep the invariant

  lemma StartNewKeeps(c: Config, s: State, s': State, id: Id)
    requires Inv(c, s) && StartNew(c, s, s', id)
    ensures Inv(c, s')
  {
    hide DiskOk, ServerOk, FrameCount, Expected;
    var h := HeaderFor(c, s.client.source, id);
    assert Later(s.history, s'.history);
    ClientLater(s.history, s'.history, s.client);
    NetLater(s.history, s'.history, s.net);
    DiskLater(s.history, s'.history, s.disk);
    ServerLater(s.history, s'.history, s.disk, s.server);
    assert Known(s'.history, h);
    forall i, data | (i, data) in s'.history.publications ensures PublicationOk(c, s'.history, i, data) {
      assert PublicationOk(c, s.history, i, data);
    }
    forall i | i in s'.history.receipts ensures IsPublished(s'.history, i) {
      PublishedLater(s.history, s'.history, i);
    }
  }

  lemma StartResumeKeeps(c: Config, s: State, s': State)
    requires Inv(c, s) && StartResume(c, s, s')
    ensures Inv(c, s')
  {
    hide HistoryOk, DiskOk, ServerOk, FrameCount, Expected, SourceOk;
  }

  lemma ReadStatusKeeps(c: Config, s: State, s': State, status: Status)
    requires Inv(c, s) && ReadStatus(c, s, s', status)
    ensures Inv(c, s')
  {
    hide HistoryOk, DiskOk, ServerOk, SourceOk, NetOk;
    assert status.next <= s.client.phase.request.header.frameCount by {
      assert Expected(s.client.phase.request.header, status.next).Some?;
    }
  }

  /** The frames of an unaltered source are cut at the positions that the checkpoints count. */
  lemma SealFrameKeeps(c: Config, s: State, s': State)
    requires Inv(c, s) && SealFrame(c, s, s')
    ensures Inv(c, s')
  {
    hide DiskOk, ServerOk, FrameCount;
    var p := s.client.phase;
    ExpectedStep(p.next, p.header.frameSize, p.header.originalSize, p.header.frameCount);
    hide ExpectedBytes;
    assert StartOk(c, p.header.transferId, s.history.started[p.header.transferId]);
    var len := NextLen(p.header, p.offset);
    var r := Frame(p.session, p.header, p.status, p.next, s.client.source[p.offset..p.offset + len]);
    assert SealedOk(s.history, r);
    assert s'.net.sealed == s.net.sealed + {r};
  }

  lemma SealFinalKeeps(c: Config, s: State, s': State)
    requires Inv(c, s) && SealFinal(c, s, s')
    ensures Inv(c, s')
  {
    hide HistoryOk, DiskOk, ServerOk, SourceOk, Expected;
  }

  lemma ReadAckKeeps(c: Config, s: State, s': State)
    requires Inv(c, s) && ReadAck(c, s, s')
    ensures Inv(c, s')
  {
    var p := s.client.phase;
    var a := Ack(p.session, p.header.originalSize, p.header.sourceHash, p.header.transferId);
    assert IsPublished(s.history, a.id);
    assert Later(s.history, s'.history);
    hide DiskOk, ServerOk, NetOk, StartedOk;
    NetLater(s.history, s'.history, s'.net);
    DiskLater(s.history, s'.history, s'.disk);
    ServerLater(s.history, s'.history, s'.disk, s'.server);
    StartedStays(c, s.history, s'.history);
    forall i | i in s'.history.receipts ensures IsPublished(s'.history, i) {
      PublishedLater(s.history, s'.history, i);
    }
    forall i, data | (i, data) in s'.history.publications ensures PublicationOk(c, s'.history, i, data) {
      assert PublicationOk(c, s.history, i, data);
    }
  }

  lemma ClientStepKeeps(c: Config, s: State, s': State)
    requires Inv(c, s) && ClientStep(c, s, s')
    ensures Inv(c, s')
  {
    hide StartNew, StartResume, ReadStatus, SealFrame, SealFinal, ReadAck, HistoryOk, SourceOk, NetOk, DiskOk, ServerOk;
    if id :| StartNew(c, s, s', id) {
      StartNewKeeps(c, s, s', id);
    } else if StartResume(c, s, s') {
      StartResumeKeeps(c, s, s');
    } else if status :| ReadStatus(c, s, s', status) {
      ReadStatusKeeps(c, s, s', status);
    } else if SealFrame(c, s, s') {
      SealFrameKeeps(c, s, s');
    } else if SealFinal(c, s, s') {
      SealFinalKeeps(c, s, s');
    } else if ReadAck(c, s, s') {
      ReadAckKeeps(c, s, s');
    } else {
      assert ClientStops(c, s, s');
    }
  }

  // Opening a transfer keeps the invariant

  lemma AcceptNewKeeps(c: Config, s: State, s': State, q: Request)
    requires Inv(c, s) && AcceptNew(c, s, s', q)
    ensures Inv(c, s')
  {
    hide HistoryOk, SourceOk, ClientOk, Keeps, WellSized, Expected;
    forall id | id in s'.disk.checkpoints ensures CheckpointOk(s'.history, s'.disk, id, s'.disk.checkpoints[id]) {
      assert CheckpointOk(s.history, s.disk, id, s.disk.checkpoints[id]);
    }
  }

  lemma CreatePartialKeeps(c: Config, s: State, s': State)
    requires Inv(c, s) && CreatePartial(c, s, s')
    ensures Inv(c, s')
  {
    hide SourceOk, ClientOk, NetOk, Keeps, Expected;
    assert StartOk(c, s.server.header.transferId, s.history.started[s.server.header.transferId]);
    forall id | id in s'.disk.checkpoints ensures CheckpointOk(s'.history, s'.disk, id, s'.disk.checkpoints[id]) {
      assert CheckpointOk(s.history, s.disk, id, s.disk.checkpoints[id]);
    }
  }

  lemma FirstCheckpointKeeps(c: Config, s: State, s': State)
    requires Inv(c, s) && FirstCheckpoint(c, s, s')
    ensures Inv(c, s')
  {
    hide HistoryOk, SourceOk, ClientOk, NetOk, FrameCount;
    var h := s.server.header;
    NoFramesLeft(h.originalSize, h.frameSize);
    assert Expected(h, 0) == Some(0);
    hide Expected;
    assert Keeps(s'.disk.partials[h.transferId], Content(s'.history, h), 0);
    hide Keeps;
    forall id | id in s'.disk.checkpoints ensures CheckpointOk(s'.history, s'.disk, id, s'.disk.checkpoints[id]) {
      if id != h.transferId {
        assert CheckpointOk(s.history, s.disk, id, s.disk.checkpoints[id]);
      }
    }
  }

  /** Recovery keeps what the checkpoint counts, and leaves nothing else in the file. */
  lemma AcceptResumeKeeps(c: Config, s: State, s': State, q: Request)
    requires Inv(c, s) && AcceptResume(c, s, s', q)
    ensures Inv(c, s')
  {
    hide HistoryOk, SourceOk, ClientOk, WellSized, Expected;
    var id := q.header.transferId;
    assert CheckpointOk(s.history, s.disk, id, s.disk.checkpoints[id]);
    forall i | i in s'.disk.checkpoints ensures CheckpointOk(s'.history, s'.disk, i, s'.disk.checkpoints[i]) {
      assert CheckpointOk(s.history, s.disk, i, s.disk.checkpoints[i]);
      if i == id && Clean(s.history, id) {
        TruncationKeeps(s.disk.partials[id], Content(s.history, q.header), s.disk.checkpoints[id].received);
      }
    }
  }

  lemma TruncationKeeps(f: File, content: seq<byte>, n: nat)
    requires Keeps(f, content, n)
    ensures Keeps(TruncateTo(f, n), content, n)
  {
  }

  /** Syncing a file keeps every checkpoint. */
  lemma SyncKeepsDisk(hi: History, d: Disk, id: Id)
    requires DiskOk(hi, d) && id in d.partials
    ensures DiskOk(hi, SetFile(d, id, SyncFile(d.partials[id])))
  {
    hide WellSized, Expected;
    var d' := SetFile(d, id, SyncFile(d.partials[id]));
    forall i | i in d'.checkpoints ensures CheckpointOk(hi, d', i, d'.checkpoints[i]) {
      assert CheckpointOk(hi, d, i, d.checkpoints[i]);
    }
  }

  lemma SyncTruncationKeeps(c: Config, s: State, s': State)
    requires Inv(c, s) && SyncTruncation(c, s, s')
    ensures Inv(c, s')
  {
    hide HistoryOk, SourceOk, ClientOk, NetOk, DiskOk;
    SyncKeepsDisk(s.history, s.disk, s.server.header.transferId);
  }

  lemma CheckDestinationKeeps(c: Config, s: State, s': State)
    requires Inv(c, s) && CheckDestination(c, s, s')
    ensures Inv(c, s')
  {
    hide HistoryOk, SourceOk, ClientOk, NetOk, DiskOk;
  }

  lemma SendStatusKeeps(c: Config, s: State, s': State)
    requires Inv(c, s) && SendStatus(c, s, s')
    ensures Inv(c, s')
  {
    hide HistoryOk, SourceOk, ClientOk, DiskOk;
  }

  lemma OpeningStepKeeps(c: Config, s: State, s': State)
    requires Inv(c, s) && OpeningStep(c, s, s')
    ensures Inv(c, s')
  {
    hide AcceptNew, CreatePartial, FirstCheckpoint, AcceptResume, SyncTruncation, CheckDestination, SendStatus, Inv;
    if q :| AcceptNew(c, s, s', q) {
      AcceptNewKeeps(c, s, s', q);
    } else if CreatePartial(c, s, s') {
      CreatePartialKeeps(c, s, s');
    } else if FirstCheckpoint(c, s, s') {
      FirstCheckpointKeeps(c, s, s');
    } else if q :| AcceptResume(c, s, s', q) {
      AcceptResumeKeeps(c, s, s', q);
    } else if SyncTruncation(c, s, s') {
      SyncTruncationKeeps(c, s, s');
    } else if CheckDestination(c, s, s') {
      CheckDestinationKeeps(c, s, s');
    } else {
      SendStatusKeeps(c, s, s');
    }
  }

  // Receiving frames keeps the invariant

  /** In a checkpointed state the file is the counted part of the source. */
  lemma CheckpointHoldsAll(hi: History, d: Disk, h: Stable, next: nat, received: nat)
    requires DiskOk(hi, d) && Known(hi, h) && AtCheckpoint(d, h, next, received)
    ensures WellSized(h) && Expected(h, next) == Some(received) && HoldsAll(hi, d, h, received)
  {
    hide WellSized, Expected;
    assert CheckpointOk(hi, d, h.transferId, d.checkpoints[h.transferId]);
    var f := d.partials[h.transferId];
    assert f.data[..received] == f.data;
  }

  lemma AppendToPrefix(f: File, content: seq<byte>, n: nat, data: seq<byte>)
    requires |f.data| == n <= |content| && f.data == content[..n] && n + |data| <= |content|
             && data == content[n..n + |data|]
    ensures WriteAt(f, n, data).data == content[..n + |data|]
  {
  }

  /** Appending to a file keeps what its checkpoint counts. */
  lemma AppendKeeps(f: File, content: seq<byte>, n: nat, data: seq<byte>)
    requires Keeps(f, content, n) && |f.data| == n
    ensures Keeps(WriteAt(f, n, data), content, n)
  {
  }

  lemma WriteFrameKeeps(c: Config, s: State, s': State, data: seq<byte>)
    requires Inv(c, s) && WriteFrame(c, s, s', data)
    ensures Inv(c, s')
  {
    hide SourceOk, ClientOk, Keeps, FrameCount;
    var p := s.server;
    var id, h := p.header.transferId, p.header;
    var f := s.disk.partials[id];
    CheckpointHoldsAll(s.history, s.disk, h, p.next, p.received);
    ExpectedStep(p.next, h.frameSize, h.originalSize, h.frameCount);
    assert SealedOk(s.history, Frame(p.session, h, p.status, p.next, data));
    hide WellSized, Expected;
    if Clean(s.history, id) {
      AppendToPrefix(f, Content(s.history, h), p.received, data);
    }
    assert HoldsAll(s'.history, s'.disk, h, p.received + |data|);
    forall i | i in s'.disk.checkpoints ensures CheckpointOk(s'.history, s'.disk, i, s'.disk.checkpoints[i]) {
      assert CheckpointOk(s.history, s.disk, i, s.disk.checkpoints[i]);
      if i == id && Clean(s.history, id) {
        AppendKeeps(f, Content(s.history, h), p.received, data);
      }
    }
  }

  lemma SyncFrameKeeps(c: Config, s: State, s': State)
    requires Inv(c, s) && SyncFrame(c, s, s')
    ensures Inv(c, s')
  {
    hide HistoryOk, SourceOk, ClientOk, NetOk, DiskOk, WellSized, Expected;
    SyncKeepsDisk(s.history, s.disk, s.server.header.transferId);
  }

  lemma SaveCheckpointKeeps(c: Config, s: State, s': State)
    requires Inv(c, s) && SaveCheckpoint(c, s, s')
    ensures Inv(c, s')
  {
    hide HistoryOk, SourceOk, ClientOk, NetOk, WellSized, Expected;
    var p := s.server;
    forall i | i in s'.disk.checkpoints ensures CheckpointOk(s'.history, s'.disk, i, s'.disk.checkpoints[i]) {
      if i != p.header.transferId {
        assert CheckpointOk(s.history, s.disk, i, s.disk.checkpoints[i]);
      }
    }
  }

  lemma AcceptFinalKeeps(c: Config, s: State, s': State, digest: seq<byte>)
    requires Inv(c, s) && AcceptFinal(c, s, s', digest)
    ensures Inv(c, s')
  {
    hide HistoryOk, SourceOk, ClientOk, NetOk, DiskOk, WellSized, Expected;
    var p := s.server;
    CheckpointHoldsAll(s.history, s.disk, p.header, p.next, p.received);
    SyncKeepsDisk(s.history, s.disk, p.header.transferId);
  }

  lemma FrameStepKeeps(c: Config, s: State, s': State)
    requires Inv(c, s) && FrameStep(c, s, s')
    ensures Inv(c, s')
  {
    hide WriteFrame, SyncFrame, SaveCheckpoint, AcceptFinal, Inv;
    if data :| WriteFrame(c, s, s', data) {
      WriteFrameKeeps(c, s, s', data);
    } else if SyncFrame(c, s, s') {
      SyncFrameKeeps(c, s, s');
    } else if SaveCheckpoint(c, s, s') {
      SaveCheckpointKeeps(c, s, s');
    } else {
      var digest :| AcceptFinal(c, s, s', digest);
      AcceptFinalKeeps(c, s, s', digest);
    }
  }

  // Publishing keeps the invariant

  lemma RemovalKeepsDisk(hi: History, d: Disk, d': Disk, id: Id)
    requires DiskOk(hi, d) && d'.partials == d.partials - {id} && d'.checkpoints == d.checkpoints
    ensures DiskOk(hi, d')
  {
    hide WellSized, Expected, Keeps;
    forall i | i in d'.checkpoints ensures CheckpointOk(hi, d', i, d'.checkpoints[i]) {
      assert CheckpointOk(hi, d, i, d.checkpoints[i]);
    }
  }

  lemma PublishKeeps(c: Config, s: State, s': State)
    requires Inv(c, s) && Publish(c, s, s')
    ensures Inv(c, s')
  {
    var h := s.server.header;
    var data := s.disk.partials[h.transferId].data;
    assert StartOk(c, h.transferId, s.history.started[h.transferId]);
    hide StartedOk, DiskOk, NetOk, WellSized, ClientOk;
    assert s'.history.started == s.history.started && Later(s.history, s'.history);
    StartedStays(c, s.history, s'.history);
    ClientLater(s.history, s'.history, s.client);
    NetLater(s.history, s'.history, s.net);
    RemovalKeepsDisk(s.history, s.disk, s'.disk, h.transferId);
    DiskLater(s.history, s'.history, s'.disk);
    assert Clean(s.history, h.transferId) ==> data == Content(s.history, h);
    assert (h.transferId, data) in s'.history.publications;
    forall i, d | (i, d) in s'.history.publications ensures PublicationOk(c, s'.history, i, d) {
      assert (i, d) == (h.transferId, data) || PublicationOk(c, s.history, i, d);
    }
    forall i | i in s'.history.receipts ensures IsPublished(s'.history, i) {
      PublishedLater(s.history, s'.history, i);
    }
  }

  lemma RejectContentKeeps(c: Config, s: State, s': State)
    requires Inv(c, s) && RejectContent(c, s, s')
    ensures Inv(c, s')
  {
    hide HistoryOk, SourceOk, ClientOk, NetOk, DiskOk;
    RemovalKeepsDisk(s.history, s.disk, s'.disk, s.server.header.transferId);
  }

  lemma DropCheckpointKeeps(c: Config, s: State, s': State)
    requires Inv(c, s) && DropCheckpoint(c, s, s')
    ensures Inv(c, s')
  {
    hide HistoryOk, SourceOk, ClientOk, NetOk, WellSized, Keeps, Expected;
    forall i | i in s'.disk.checkpoints ensures CheckpointOk(s'.history, s'.disk, i, s'.disk.checkpoints[i]) {
      assert CheckpointOk(s.history, s.disk, i, s.disk.checkpoints[i]);
    }
  }

  lemma SendAckKeeps(c: Config, s: State, s': State)
    requires Inv(c, s) && SendAck(c, s, s')
    ensures Inv(c, s')
  {
    hide HistoryOk, SourceOk, ClientOk, DiskOk, SealedOk;
  }

  lemma ClosingStepKeeps(c: Config, s: State, s': State)
    requires Inv(c, s) && ClosingStep(c, s, s')
    ensures Inv(c, s')
  {
    hide Publish, RejectContent, DropCheckpoint, SendAck, HistoryOk, SourceOk, ClientOk, NetOk, DiskOk;
    if Publish(c, s, s') {
      PublishKeeps(c, s, s');
    } else if RejectContent(c, s, s') {
      RejectContentKeeps(c, s, s');
    } else if DropCheckpoint(c, s, s') {
      DropCheckpointKeeps(c, s, s');
    } else if SendAck(c, s, s') {
      SendAckKeeps(c, s, s');
    } else {
      assert ServerStops(c, s, s');
    }
  }

  // The environment keeps the invariant

  /** What the checkpoint counts was synced before the checkpoint was written, so a crash leaves it. */
  lemma CrashKeeps(c: Config, s: State, s': State)
    requires Inv(c, s) && Crash(c, s, s')
    ensures Inv(c, s')
  {
    hide HistoryOk, SourceOk, ClientOk, NetOk, WellSized, Expected;
    forall i | i in s'.disk.partials ensures s'.disk.partials[i].durable <= |s'.disk.partials[i].data| {
      assert FileSurvives(s.disk.partials[i], s'.disk.partials[i]);
    }
    forall i | i in s'.disk.checkpoints ensures CheckpointOk(s'.history, s'.disk, i, s'.disk.checkpoints[i]) {
      assert CheckpointOk(s.history, s.disk, i, s.disk.checkpoints[i]);
      if Clean(s.history, i) && i in s'.disk.partials {
        SurvivorKeeps(s.disk.partials[i], s'.disk.partials[i], Content(s.history, s.disk.checkpoints[i].header),
                      s.disk.checkpoints[i].received);
      }
    }
  }

  lemma SurvivorKeeps(f: File, f': File, content: seq<byte>, n: nat)
    requires Keeps(f, content, n) && FileSurvives(f, f')
    ensures Keeps(f', content, n)
  {
    assert f.data[..f.durable][..n] == f.data[..n] && f'.data[..f.durable][..n] == f'.data[..n];
  }

  lemma EditSourceKeeps(c: Config, s: State, s': State)
    requires Inv(c, s) && EditSource(c, s, s')
    ensures Inv(c, s')
  {
    assert ClientOk(s.history, s'.client);
    hide StartedOk, ClientOk, NetOk, DiskOk, ServerOk;
    assert Later(s.history, s'.history);
    StartedStays(c, s.history, s'.history);
    AllLater(s.history, s');
    forall i, data | (i, data) in s'.history.publications ensures PublicationOk(c, s'.history, i, data) {
      assert PublicationOk(c, s.history, i, data);
    }
    forall i | i in s'.history.receipts ensures IsPublished(s'.history, i) {
      PublishedLater(s.history, s'.history, i);
    }
  }

  lemma TamperKeeps(c: Config, s: State, s': State, id: Id)
    requires Inv(c, s) && Tamper(c, s, s', id)
    ensures Inv(c, s')
  {
    hide StartedOk, ClientOk, NetOk, WellSized, Keeps, Expected, DiskOk;
    assert Later(s.history, s'.history);
    StartedStays(c, s.history, s'.history);
    ClientLater(s.history, s'.history, s.client);
    NetLater(s.history, s'.history, s.net);
    TamperKeepsDisk(s.history, s'.history, s.disk, s'.disk, id);
    forall i, data | (i, data) in s'.history.publications ensures PublicationOk(c, s'.history, i, data) {
      assert PublicationOk(c, s.history, i, data);
    }
    forall i | i in s'.history.receipts ensures IsPublished(s'.history, i) {
      PublishedLater(s.history, s'.history, i);
    }
  }

  lemma TamperKeepsDisk(hi: History, hi': History, d: Disk, d': Disk, id: Id)
    requires DiskOk(hi, d) && Later(hi, hi') && id in hi'.dirty
    requires d'.checkpoints == d.checkpoints && d'.partials - {id} == d.partials - {id}
    requires id in d'.partials ==> d'.partials[id].durable <= |d'.partials[id].data|
    ensures DiskOk(hi', d')
  {
    hide WellSized, Keeps, Expected;
    forall i | i in d'.partials ensures d'.partials[i].durable <= |d'.partials[i].data| {
      if i != id {
        assert i in d'.partials - {id} && (d'.partials - {id})[i] == (d.partials - {id})[i];
      }
    }
    forall i | i in d'.checkpoints ensures CheckpointOk(hi', d', i, d'.checkpoints[i]) {
      assert CheckpointOk(hi, d, i, d.checkpoints[i]);
      if i != id && i in d'.partials {
        assert i in d'.partials - {id} && (d'.partials - {id})[i] == (d.partials - {id})[i];
      }
    }
  }

  lemma EnvironmentStepKeeps(c: Config, s: State, s': State)
    requires Inv(c, s) && EnvironmentStep(c, s, s')
    ensures Inv(c, s')
  {
    hide Crash, EditSource, Tamper, Inv;
    if Crash(c, s, s') {
      CrashKeeps(c, s, s');
    } else if EditSource(c, s, s') {
      EditSourceKeeps(c, s, s');
    } else {
      var id :| Tamper(c, s, s', id);
      TamperKeeps(c, s, s', id);
    }
  }

  lemma StepKeeps(c: Config, s: State, s': State)
    requires Inv(c, s) && Next(c, s, s')
    ensures Inv(c, s')
  {
    hide ClientStep, OpeningStep, FrameStep, ClosingStep, EnvironmentStep, Inv;
    if ClientStep(c, s, s') {
      ClientStepKeeps(c, s, s');
    } else if OpeningStep(c, s, s') {
      OpeningStepKeeps(c, s, s');
    } else if FrameStep(c, s, s') {
      FrameStepKeeps(c, s, s');
    } else if ClosingStep(c, s, s') {
      ClosingStepKeeps(c, s, s');
    } else {
      EnvironmentStepKeeps(c, s, s');
    }
  }

  lemma {:induction false} RunKeeps(c: Config, run: seq<State>, i: nat)
    requires IsRun(c, run) && i < |run|
    ensures Inv(c, run[i])
  {
    hide Next;
    if i == 0 {
      assert Inv(c, run[0]);
    } else {
      hide Inv, Init;
      RunKeeps(c, run, i - 1);
      assert StepAt(c, run, i - 1);
      StepKeeps(c, run[i - 1], run[i]);
    }
  }
}
