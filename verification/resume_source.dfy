/** What a client asks for, and that it asks for nothing once its source has changed (src/ubin/secure/resume.py). */
module ResumeSource {
  import opened Arithmetic
  import opened Bytes
  import opened Framing
  import opened ResumeMachine
  import opened TransferFormat

  /** The header describes the source, under the configured name and frame size. */
  ghost predicate Describes(c: Config, source: seq<byte>, h: Stable) {
    && h.filename == c.name && h.frameSize == c.frameSize && h.frameSize >= 1
    && h.originalSize == |source| && h.sourceHash == c.hash(source)
    && (h.frameCount - 1) * h.frameSize < |source| <= h.frameCount * h.frameSize
  }

  lemma HeaderDescribes(c: Config, source: seq<byte>, id: Id)
    requires c.frameSize >= 1
    ensures Describes(c, source, HeaderFor(c, source, id)) && HeaderFor(c, source, id).transferId == id
  {
    var size, n := |source|, FrameCount(|source|, c.frameSize);
    if size > 0 {
      DivMod(size + c.frameSize - 1, c.frameSize);
      ProductGap(n - 1, n, c.frameSize);
    }
  }

  /** A client at rest asks for a new transfer only without saved state, and to resume only what it has saved. */
  ghost predicate AsksFor(c: Config, s: State, t: State, q: Request) {
    && Describes(c, s.client.source, q.header) && t.client.source == s.client.source
    && q in t.net.requests && q.session == s.client.session + 1
    && match s.client.saved
       case None => !q.resume && q.ticket == ZeroTicket && q.header.transferId !in s.history.started
       case Some(v) => q.resume && q.header == v.header && q.ticket == v.ticket
  }

  lemma StepAsks(c: Config, s: State, t: State)
    requires Next(c, s, t) && s.client.phase.Resting?
    ensures t.client.phase.Resting? || (t.client.phase.Requested? && AsksFor(c, s, t, t.client.phase.request))
    ensures t.client.phase.Resting? ==> t.net.requests == s.net.requests && t.client.saved == s.client.saved
    ensures t.net.sealed == s.net.sealed
  {
    hide Describes, HeaderFor, Expected, WellSized, MayResume, DestinationFree, Survives;
    if id :| StartNew(c, s, t, id) {
      HeaderDescribes(c, s.client.source, id);
    } else if StartResume(c, s, t) {
      HeaderDescribes(c, s.client.source, s.client.saved.value.header.transferId);
    } else if FrameStep(c, s, t) {
      if data :| WriteFrame(c, s, t, data) {
      } else if digest :| AcceptFinal(c, s, t, digest) {
      }
    }
  }

  /** Every request that a client of a run makes describes the source that it has at that moment. */
  lemma RequestsDescribeSource(c: Config, run: seq<State>, i: nat)
    requires IsRun(c, run) && i + 1 < |run|
    requires run[i].client.phase.Resting? && run[i + 1].client.phase.Requested?
    ensures AsksFor(c, run[i], run[i + 1], run[i + 1].client.phase.request)
  {
    hide Next, Init, AsksFor;
    assert StepAt(c, run, i);
    StepAsks(c, run[i], run[i + 1]);
  }

  /** The source is not the one that was saved: another size, or another hash. */
  ghost predicate Differs(c: Config, source: seq<byte>, h: Stable) {
    |source| != h.originalSize || c.hash(source) != h.sourceHash
  }

  /** As long as its source differs, a client with saved state asks for nothing, seals nothing and keeps its state. */
  lemma {:induction false} ChangedSourceIsSilent(c: Config, run: seq<State>, i: nat, j: nat, v: Saved)
    requires IsRun(c, run) && i <= j < |run|
    requires run[i].client.phase.Resting? && run[i].client.saved == Some(v)
    requires forall k :: i <= k < j ==> Differs(c, run[k].client.source, v.header)
    ensures run[j].client.phase.Resting? && run[j].client.saved == Some(v)
    ensures run[j].net.requests == run[i].net.requests && run[j].net.sealed == run[i].net.sealed
    decreases j - i
  {
    hide Next, Init;
    if i < j {
      ChangedSourceIsSilent(c, run, i, j - 1, v);
      assert StepAt(c, run, j - 1);
      StepAsks(c, run[j - 1], run[j]);
      assert Differs(c, run[j - 1].client.source, v.header);
    }
  }
}
