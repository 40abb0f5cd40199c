/** Without overwriting, what is at a destination stays there (src/ubin/secure/resume.py). */
module ResumeDestinations {
  import opened ResumeMachine

  /** Between the check of the destination and publication the destination is free. */
  ghost predicate FreeOk(s: State) {
    match s.server
    case Unlinked(_, h) => h.filename !in s.disk.destinations
    case Created(_, h) => h.filename !in s.disk.destinations
    case Replying(_, h, _, _) => h.filename !in s.disk.destinations
    case Receiving(_, h, _, _, _) => h.filename !in s.disk.destinations
    case Written(_, h, _, _, _) => h.filename !in s.disk.destinations
    case Synced(_, h, _, _, _) => h.filename !in s.disk.destinations
    case Verified(_, h) => h.filename !in s.disk.destinations
    case _ => true
  }

  ghost predicate SameThere(s: State, t: State) {
    forall name :: name in s.disk.destinations ==>
      name in t.disk.destinations && t.disk.destinations[name] == s.disk.destinations[name]
  }

  lemma OpeningKeepsFree(c: Config, s: State, t: State)
    requires !c.overwrite && FreeOk(s) && OpeningStep(c, s, t)
    ensures FreeOk(t) && SameThere(s, t)
  {
    hide WellSized, Expected, MayResume;
    if q :| AcceptNew(c, s, t, q) {
    } else if q :| AcceptResume(c, s, t, q) {
      hide SetFile;
    }
  }

  lemma FramesKeepFree(c: Config, s: State, t: State)
    requires FreeOk(s) && FrameStep(c, s, t)
    ensures FreeOk(t) && t.disk.destinations == s.disk.destinations
  {
    if data :| WriteFrame(c, s, t, data) {
      hide SetFile, WriteAt;
    } else if digest :| AcceptFinal(c, s, t, digest) {
    }
  }

  lemma ClosingKeepsFree(c: Config, s: State, t: State)
    requires !c.overwrite && FreeOk(s) && ClosingStep(c, s, t)
    ensures FreeOk(t) && SameThere(s, t)
  {
  }

  lemma OutsideKeepsFree(c: Config, s: State, t: State)
    requires FreeOk(s) && (ClientStep(c, s, t) || EnvironmentStep(c, s, t))
    ensures FreeOk(t) && t.disk.destinations == s.disk.destinations
  {
    hide WellSized, Expected, HeaderFor, Survives, FreeOk;
    assert t.server == s.server || t.server.Idle?;
    IdleIsFree(t);
    SameServerSameFree(s, t);
  }

  lemma IdleIsFree(t: State)
    ensures t.server.Idle? ==> FreeOk(t)
  {
  }

  lemma SameServerSameFree(s: State, t: State)
    requires FreeOk(s)
    ensures t.server == s.server && t.disk.destinations == s.disk.destinations ==> FreeOk(t)
  {
  }

  lemma StepKeepsFree(c: Config, s: State, t: State)
    requires !c.overwrite && FreeOk(s) && Next(c, s, t)
    ensures FreeOk(t) && SameThere(s, t)
  {
    hide ClientStep, OpeningStep, FrameStep, ClosingStep, EnvironmentStep, FreeOk;
    if OpeningStep(c, s, t) {
      OpeningKeepsFree(c, s, t);
    } else if FrameStep(c, s, t) {
      FramesKeepFree(c, s, t);
    } else if ClosingStep(c, s, t) {
      ClosingKeepsFree(c, s, t);
    } else {
      OutsideKeepsFree(c, s, t);
    }
  }

  lemma {:induction false} RunKeepsFree(c: Config, run: seq<State>, i: nat)
    requires IsRun(c, run) && i < |run| && !c.overwrite
    ensures FreeOk(run[i])
  {
    if i > 0 {
      hide Next, FreeOk, SameThere, Init;
      RunKeepsFree(c, run, i - 1);
      assert StepAt(c, run, i - 1);
      StepKeepsFree(c, run[i - 1], run[i]);
    }
  }

  /** Without overwriting, a destination that has content keeps it for the rest of the run. */
  lemma {:induction false} NothingIsOverwritten(c: Config, run: seq<State>, i: nat, j: nat, name: Name)
    requires IsRun(c, run) && i <= j < |run| && !c.overwrite && name in run[i].disk.destinations
    ensures name in run[j].disk.destinations
    ensures run[j].disk.destinations[name] == run[i].disk.destinations[name]
    decreases j - i
  {
    hide Next, FreeOk, Init;
    if i < j {
      NothingIsOverwritten(c, run, i, j - 1, name);
      RunKeepsFree(c, run, j - 1);
      assert StepAt(c, run, j - 1);
      StepKeepsFree(c, run[j - 1], run[j]);
    }
  }
}
