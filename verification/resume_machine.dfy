/**
 Client, server and disk of a resumable transfer as a step system (src/ubin/secure/resume.py; the
 permuted variant differs on the wire only).  Any step may be followed by a disconnect or a crash.
 The cipher and the tickets are symbolic: a record opens only where it was sealed for, and a ticket
 names the header that it was issued for.  The network may deliver any record, status or
 acknowledgement that was sent in the same connection, in any order and any number of times.
 */
module ResumeMachine {
  import opened Arithmetic
  import opened Bytes
  import opened Framing
  import opened TransferFormat

  type Id = seq<byte>
  type Name = seq<Utf8.CodePoint>

  // State

  datatype Ticket = ZeroTicket | Issued(header: Stable)

  /** What the server answers: where the transfer goes on, and its ticket. */
  datatype Status = Status(next: nat, received: nat, ticket: Ticket)

  datatype Request = Request(session: nat, header: Stable, resume: bool, ticket: Ticket)

  /** What the client seals, under the key of one connection and the associated data of one attempt. */
  datatype Sealed =
    | Frame(session: nat, header: Stable, status: Status, number: nat, data: seq<byte>)
    | Final(session: nat, header: Stable, status: Status, digest: seq<byte>)

  datatype Ack = Ack(session: nat, size: nat, digest: seq<byte>, id: Id)

  /** A file of which the first `durable` bytes have been synced. */
  datatype File = File(data: seq<byte>, durable: nat)

  datatype Checkpoint = Checkpoint(header: Stable, next: nat, received: nat)

  datatype Disk = Disk(partials: map<Id, File>, checkpoints: map<Id, Checkpoint>, destinations: map<Name, seq<byte>>)

  datatype Server =
    | Idle
    | Unlinked(session: nat, header: Stable)
    | Created(session: nat, header: Stable)
    | Truncated(session: nat, header: Stable, next: nat, received: nat)
    | Validated(session: nat, header: Stable, next: nat, received: nat)
    | Replying(session: nat, header: Stable, next: nat, received: nat)
    | Receiving(session: nat, header: Stable, next: nat, received: nat, status: Status)
    | Written(session: nat, header: Stable, next: nat, received: nat, status: Status)
    | Synced(session: nat, header: Stable, next: nat, received: nat, status: Status)
    | Verified(session: nat, header: Stable)
    | Discarding(session: nat, header: Stable)
    | Published(session: nat, header: Stable)
    | Acking(session: nat, header: Stable)

  datatype Saved = Saved(header: Stable, ticket: Ticket)

  datatype Phase =
    | Resting
    | Requested(request: Request)
    | Sending(session: nat, header: Stable, status: Status, next: nat, offset: nat)
    | Awaiting(session: nat, header: Stable)

  /** The client's source file, its resume state file, and what it is doing. */
  datatype Client = Client(source: seq<byte>, saved: Option<Saved>, phase: Phase, session: nat)

  datatype Net = Net(requests: set<Request>, statuses: set<(nat, Status)>, sealed: set<Sealed>, acks: set<Ack>)

  datatype Start = Start(header: Stable, content: seq<byte>)

  /**
   started: the header and the source of every transfer; dirty: transfers whose source or partial file
   was altered.
   */
  datatype History = History(started: map<Id, Start>, dirty: set<Id>, publications: set<(Id, seq<byte>)>,
                             receipts: set<Id>)

  datatype State = State(disk: Disk, server: Server, served: nat, client: Client, net: Net, history: History)

  /** The name and frame size that the client's state file is kept for, and the server's settings. */
  datatype Config = Config(hash: seq<byte> -> seq<byte>, name: Name, frameSize: nat, overwrite: bool)

  function HeaderFor(c: Config, source: seq<byte>, id: Id): Stable
    requires c.frameSize >= 1
  {
    Stable(c.name, c.frameSize, |source|, FrameCount(|source|, c.frameSize), id, c.hash(source))
  }

  predicate WellSized(h: Stable) {
    h.frameSize >= 1 && h.originalSize >= 0 && h.frameCount >= 0 && Sized(h.frameSize, h.originalSize, h.frameCount)
  }

  function Expected(h: Stable, next: nat): Option<nat>
    requires WellSized(h)
  {
    ExpectedBytes(next, h.frameSize, h.originalSize, h.frameCount)
  }

  function NextLen(h: Stable, received: nat): int {
    Min(h.frameSize, h.originalSize - received)
  }

  ghost predicate Init(s: State) {
    && s.disk.partials == map[] && s.disk.checkpoints == map[] && s.server == Idle && s.served == 0
    && s.client.saved == None && s.client.phase == Resting && s.client.session == 0
    && s.net == Net({}, {}, {}, {}) && s.history == History(map[], {}, {}, {})
  }

  // Client steps

  /** A first attempt: the source is hashed and gets a fresh transfer id. */
  ghost predicate StartNew(c: Config, s: State, s': State, id: Id) {
    && s.client.phase.Resting? && s.client.saved.None? && c.frameSize >= 1 && id !in s.history.started
    && var h := HeaderFor(c, s.client.source, id);
       var q := Request(s.client.session + 1, h, false, ZeroTicket);
       s' == s.(client := s.client.(phase := Requested(q), session := s.client.session + 1),
                net := s.net.(requests := s.net.requests + {q}),
                history := s.history.(started := s.history.started[id := Start(h, s.client.source)]))
  }

  /** Another attempt: only for a source that hashes to what the state file says. */
  ghost predicate StartResume(c: Config, s: State, s': State) {
    && s.client.phase.Resting? && s.client.saved.Some? && c.frameSize >= 1
    && var v := s.client.saved.value;
       && v.header == HeaderFor(c, s.client.source, v.header.transferId)
       && var q := Request(s.client.session + 1, v.header, true, v.ticket);
          s' == s.(client := s.client.(phase := Requested(q), session := s.client.session + 1),
                   net := s.net.(requests := s.net.requests + {q}))
  }

  /** The status is checked and the ticket saved before the first frame. */
  ghost predicate ReadStatus(c: Config, s: State, s': State, status: Status) {
    && s.client.phase.Requested?
    && var q := s.client.phase.request;
       && (q.session, status) in s.net.statuses && WellSized(q.header)
       && Expected(q.header, status.next) == Some(status.received)
       && (q.resume ==> status.ticket == q.ticket)
       && s' == s.(client := s.client.(saved := Some(Saved(q.header, status.ticket)),
                                       phase := Sending(q.session, q.header, status, status.next, status.received)))
  }

  ghost predicate SealFrame(c: Config, s: State, s': State) {
    && s.client.phase.Sending?
    && var p := s.client.phase;
       && p.next < p.header.frameCount
       && var len := NextLen(p.header, p.offset);
          && 0 <= len && p.offset + len <= |s.client.source|
          && var r := Frame(p.session, p.header, p.status, p.next, s.client.source[p.offset..p.offset + len]);
             s' == s.(client := s.client.(phase := p.(next := p.next + 1, offset := p.offset + len)),
                      net := s.net.(sealed := s.net.sealed + {r}))
  }

  ghost predicate SealFinal(c: Config, s: State, s': State) {
    && s.client.phase.Sending?
    && var p := s.client.phase;
       && p.next == p.header.frameCount
       && s' == s.(client := s.client.(phase := Awaiting(p.session, p.header)),
                   net := s.net.(sealed := s.net.sealed + {Final(p.session, p.header, p.status, p.header.sourceHash)}))
  }

  /** The receipt: the acknowledgement of this connection matches the transfer; the state file goes. */
  ghost predicate ReadAck(c: Config, s: State, s': State) {
    && s.client.phase.Awaiting?
    && var p := s.client.phase;
       && p.header.originalSize >= 0
       && Ack(p.session, p.header.originalSize, p.header.sourceHash, p.header.transferId) in s.net.acks
       && s' == s.(client := s.client.(saved := None, phase := Resting),
                   history := s.history.(receipts := s.history.receipts + {p.header.transferId}))
  }

  ghost predicate ClientStops(c: Config, s: State, s': State) {
    s' == s.(client := s.client.(phase := Resting))
  }

  // Server steps

  predicate DestinationFree(c: Config, s: State, h: Stable) {
    c.overwrite || h.filename !in s.disk.destinations
  }

  /** A request is answered once. */
  predicate CanAccept(s: State, q: Request) {
    s.server.Idle? && q in s.net.requests && q.session > s.served
  }

  function SetFile(d: Disk, id: Id, f: File): Disk {
    d.(partials := d.partials[id := f])
  }

  function RemoveFile(d: Disk, id: Id): Disk {
    d.(partials := d.partials - {id})
  }

  ghost predicate AcceptNew(c: Config, s: State, s': State, q: Request) {
    && CanAccept(s, q) && !q.resume && q.ticket == ZeroTicket
    && q.header.transferId !in s.disk.checkpoints && DestinationFree(c, s, q.header)
    && s' == s.(server := Unlinked(q.session, q.header), served := q.session,
                disk := RemoveFile(s.disk, q.header.transferId))
  }

  ghost predicate CreatePartial(c: Config, s: State, s': State) {
    && s.server.Unlinked? && s.server.header.transferId !in s.disk.partials
    && s' == s.(server := Created(s.server.session, s.server.header),
                disk := SetFile(s.disk, s.server.header.transferId, File([], 0)))
  }

  ghost predicate FirstCheckpoint(c: Config, s: State, s': State) {
    && s.server.Created?
    && var h := s.server.header;
       s' == s.(server := Replying(s.server.session, h, 0, 0),
                disk := s.disk.(checkpoints := s.disk.checkpoints[h.transferId := Checkpoint(h, 0, 0)]))
  }

  /** The checks of a resume request: ticket, checkpoint, partial file. */
  ghost predicate MayResume(s: State, q: Request) {
    && q.resume && q.ticket == Issued(q.header) && WellSized(q.header)
    && var id := q.header.transferId;
       && id in s.disk.checkpoints && id in s.disk.partials
       && var cp := s.disk.checkpoints[id];
          cp.header == q.header && Expected(q.header, cp.next) == Some(cp.received)
          && |s.disk.partials[id].data| >= cp.received
  }

  function TruncateTo(f: File, size: nat): File
    requires size <= |f.data|
  {
    File(f.data[..size], Min(f.durable, size))
  }

  /** Bytes beyond the checkpoint are cut off; a file of the right length is left alone. */
  ghost predicate AcceptResume(c: Config, s: State, s': State, q: Request) {
    && CanAccept(s, q) && MayResume(s, q)
    && var id := q.header.transferId;
       var cp := s.disk.checkpoints[id];
       var f := s.disk.partials[id];
       if |f.data| == cp.received then
         s' == s.(server := Validated(q.session, q.header, cp.next, cp.received), served := q.session)
       else
         s' == s.(server := Truncated(q.session, q.header, cp.next, cp.received), served := q.session,
                  disk := SetFile(s.disk, id, TruncateTo(f, cp.received)))
  }

  function SyncFile(f: File): File {
    File(f.data, |f.data|)
  }

  ghost predicate SyncTruncation(c: Config, s: State, s': State) {
    && s.server.Truncated?
    && var p := s.server;
       && p.header.transferId in s.disk.partials
       && s' == s.(server := Validated(p.session, p.header, p.next, p.received),
                   disk := SetFile(s.disk, p.header.transferId, SyncFile(s.disk.partials[p.header.transferId])))
  }

  ghost predicate CheckDestination(c: Config, s: State, s': State) {
    && s.server.Validated? && DestinationFree(c, s, s.server.header)
    && var p := s.server;
       s' == s.(server := Replying(p.session, p.header, p.next, p.received))
  }

  ghost predicate SendStatus(c: Config, s: State, s': State) {
    && s.server.Replying?
    && var p := s.server;
       var status := Status(p.next, p.received, Issued(p.header));
       s' == s.(server := Receiving(p.session, p.header, p.next, p.received, status),
                net := s.net.(statuses := s.net.statuses + {(p.session, status)}))
  }

  function WriteAt(f: File, at: nat, data: seq<byte>): File
    requires at <= |f.data|
  {
    var after := if at + |data| < |f.data| then f.data[at + |data|..] else [];
    File(f.data[..at] + data + after, Min(f.durable, at))
  }

  /** A frame that opens under this connection, header, status and number is written. */
  ghost predicate WriteFrame(c: Config, s: State, s': State, data: seq<byte>) {
    && s.server.Receiving?
    && var p := s.server;
       var id := p.header.transferId;
       && p.next < p.header.frameCount && Frame(p.session, p.header, p.status, p.next, data) in s.net.sealed
       && |data| == NextLen(p.header, p.received)
       && id in s.disk.partials && p.received <= |s.disk.partials[id].data|
       && s' == s.(server := Written(p.session, p.header, p.next, p.received + |data|, p.status),
                   disk := SetFile(s.disk, id, WriteAt(s.disk.partials[id], p.received, data)))
  }

  ghost predicate SyncFrame(c: Config, s: State, s': State) {
    && s.server.Written?
    && var p := s.server;
       var id := p.header.transferId;
       && id in s.disk.partials
       && s' == s.(server := Synced(p.session, p.header, p.next, p.received, p.status),
                   disk := SetFile(s.disk, id, SyncFile(s.disk.partials[id])))
  }

  /** The checkpoint file is replaced atomically. */
  ghost predicate SaveCheckpoint(c: Config, s: State, s': State) {
    && s.server.Synced?
    && var p := s.server;
       s' == s.(server := Receiving(p.session, p.header, p.next + 1, p.received, p.status),
                disk := s.disk.(checkpoints :=
                                  s.disk.checkpoints[p.header.transferId :=
                                                       Checkpoint(p.header, p.next + 1, p.received)]))
  }

  ghost predicate AcceptFinal(c: Config, s: State, s': State, digest: seq<byte>) {
    && s.server.Receiving?
    && var p := s.server;
       var id := p.header.transferId;
       && p.next >= p.header.frameCount && p.received == p.header.originalSize && id in s.disk.partials
       && Final(p.session, p.header, p.status, digest) in s.net.sealed && digest == p.header.sourceHash
       && s' == s.(server := Verified(p.session, p.header), disk := SetFile(s.disk, id, SyncFile(s.disk.partials[id])))
  }

  /** The whole partial file has been hashed again, and takes the destination's place. */
  ghost predicate Publish(c: Config, s: State, s': State) {
    && s.server.Verified? && s.server.header.transferId in s.disk.partials
    && var h := s.server.header;
       var data := s.disk.partials[h.transferId].data;
       && c.hash(data) == h.sourceHash
       && s' == s.(server := Published(s.server.session, h),
                   disk := RemoveFile(s.disk, h.transferId).(destinations := s.disk.destinations[h.filename := data]),
                   history := s.history.(publications := s.history.publications + {(h.transferId, data)}))
  }

  ghost predicate RejectContent(c: Config, s: State, s': State) {
    && s.server.Verified? && s.server.header.transferId in s.disk.partials
    && var h := s.server.header;
       && c.hash(s.disk.partials[h.transferId].data) != h.sourceHash
       && s' == s.(server := Discarding(s.server.session, h), disk := RemoveFile(s.disk, h.transferId))
  }

  ghost predicate DropCheckpoint(c: Config, s: State, s': State) {
    && (s.server.Discarding? || s.server.Published?)
    && s' == s.(server := if s.server.Published? then Acking(s.server.session, s.server.header) else Idle,
                disk := s.disk.(checkpoints := s.disk.checkpoints - {s.server.header.transferId}))
  }

  ghost predicate SendAck(c: Config, s: State, s': State) {
    && s.server.Acking? && s.server.header.originalSize >= 0
    && var h := s.server.header;
       s' == s.(server := Idle,
                net := s.net.(acks := s.net.acks + {Ack(s.server.session, h.originalSize, h.sourceHash, h.transferId)}))
  }

  /** Disconnect, timeout or any failed check: the attempt ends where it is. */
  ghost predicate ServerStops(c: Config, s: State, s': State) {
    s' == s.(server := Idle)
  }

  // Environment

  /** Synced bytes survive a crash; what follows them is arbitrary, and a file may be gone. */
  ghost predicate Survives(before: map<Id, File>, after: map<Id, File>) {
    forall id :: id in after ==> id in before && FileSurvives(before[id], after[id])
  }

  ghost predicate FileSurvives(f: File, f': File) {
    f.durable <= |f.data| && f.durable <= |f'.data| && f'.data[..f.durable] == f.data[..f.durable]
    && f'.durable == f.durable
  }

  ghost predicate Crash(c: Config, s: State, s': State) {
    && Survives(s.disk.partials, s'.disk.partials)
    && s' == s.(server := Idle, disk := s.disk.(partials := s'.disk.partials))
  }

  ghost predicate EditSource(c: Config, s: State, s': State) {
    s' == s.(client := s.client.(source := s'.client.source),
             history := s.history.(dirty := s.history.dirty + s.history.started.Keys))
  }

  /** Between attempts a partial file is altered, made or removed. */
  ghost predicate Tamper(c: Config, s: State, s': State, id: Id) {
    && s.server.Idle? && id in s.history.started
    && (id in s'.disk.partials ==> s'.disk.partials[id].durable <= |s'.disk.partials[id].data|)
    && s'.disk.partials - {id} == s.disk.partials - {id}
    && s' == s.(disk := s.disk.(partials := s'.disk.partials), history := s.history.(dirty := s.history.dirty + {id}))
  }

  ghost predicate ClientStep(c: Config, s: State, s': State) {
    || (exists id :: StartNew(c, s, s', id)) || StartResume(c, s, s') || (exists status :: ReadStatus(c, s, s', status))
    || SealFrame(c, s, s') || SealFinal(c, s, s') || ReadAck(c, s, s') || ClientStops(c, s, s')
  }

  ghost predicate OpeningStep(c: Config, s: State, s': State) {
    || (exists q :: AcceptNew(c, s, s', q)) || CreatePartial(c, s, s') || FirstCheckpoint(c, s, s')
    || (exists q :: AcceptResume(c, s, s', q)) || SyncTruncation(c, s, s') || CheckDestination(c, s, s')
    || SendStatus(c, s, s')
  }

  ghost predicate FrameStep(c: Config, s: State, s': State) {
    || (exists data :: WriteFrame(c, s, s', data)) || SyncFrame(c, s, s') || SaveCheckpoint(c, s, s')
    || (exists digest :: AcceptFinal(c, s, s', digest))
  }

  ghost predicate ClosingStep(c: Config, s: State, s': State) {
    || Publish(c, s, s') || RejectContent(c, s, s') || DropCheckpoint(c, s, s') || SendAck(c, s, s')
    || ServerStops(c, s, s')
  }

  ghost predicate EnvironmentStep(c: Config, s: State, s': State) {
    Crash(c, s, s') || EditSource(c, s, s') || (exists id :: Tamper(c, s, s', id))
  }

  ghost predicate Next(c: Config, s: State, s': State) {
    || ClientStep(c, s, s') || OpeningStep(c, s, s') || FrameStep(c, s, s') || ClosingStep(c, s, s')
    || EnvironmentStep(c, s, s')
  }

  ghost predicate IsPath(c: Config, path: seq<State>) {
    path != [] && forall i :: 0 <= i < |path| - 1 ==> StepAt(c, path, i)
  }

  ghost predicate StepAt(c: Config, path: seq<State>, i: nat)
    requires i + 1 < |path|
  {
    Next(c, path[i], path[i + 1])
  }

  /** A run from an initial state. */
  ghost predicate IsRun(c: Config, run: seq<State>) {
    IsPath(c, run) && Init(run[0])
  }

  ghost predicate Leads(c: Config, path: seq<State>, s: State, t: State) {
    IsPath(c, path) && path[0] == s && path[|path| - 1] == t
  }

  ghost predicate Reaches(c: Config, s: State, t: State) {
    exists path: seq<State> :: Leads(c, path, s, t)
  }

  lemma ReachesOne(c: Config, s: State, t: State)
    requires Next(c, s, t)
    ensures Reaches(c, s, t)
  {
    hide Next;
    assert StepAt(c, [s, t], 0);
    assert Leads(c, [s, t], s, t);
  }

  lemma ReachesFurther(c: Config, s: State, t: State, u: State)
    requires Reaches(c, s, t) && Reaches(c, t, u)
    ensures Reaches(c, s, u)
  {
    hide Next;
    var p: seq<State> :| Leads(c, p, s, t);
    var q: seq<State> :| Leads(c, q, t, u);
    var r := p + q[1..];
    forall i | 0 <= i < |r| - 1 ensures StepAt(c, r, i) {
      if i < |p| - 1 {
        assert StepAt(c, p, i);
      } else {
        assert StepAt(c, q, i - (|p| - 1));
      }
    }
    assert Leads(c, r, s, u);
  }

  lemma ExtendRun(c: Config, run: seq<State>, s: State)
    requires IsRun(c, run) && Next(c, run[|run| - 1], s)
    ensures IsRun(c, run + [s])
  {
    hide Next, Init;
    var longer := run + [s];
    forall i | 0 <= i < |longer| - 1 ensures StepAt(c, longer, i) {
      assert i < |run| - 1 ==> StepAt(c, run, i);
    }
  }
}
