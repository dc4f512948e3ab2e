/**
 reconcileArchivedAgentHubSession (internal/serve/agenthub_reconcile.go) over
 the durable generation, and the projections that set and clear the stopped
 observation it relies on.
 */
module ArchivedReconcile {
  import opened Basics
  import opened Durable
  import opened EventLog
  import opened ArchivedProof
  import TurnCompletion
  import opened CompletionReplay

  /** `other` holds every further field; a save can happen for its sake alone. */
  datatype Generation = Generation(
    status: string,
    idleSleepStopRequested: bool,
    stoppedObserved: bool,
    retireReason: string,
    completion: TurnCompletion.Record,
    other: string)

  const REASON := "agenthub_archived"

  datatype Retirement = Done | Failed(landed: bool)

  /** `manifest` is the durable retired generation, `retired` the flag in memory. */
  datatype State = State(
    cell: Cell<Generation>,
    proofFailed: bool,
    retired: bool,
    manifest: Option<Generation>)

  datatype Writes = Writes(first: Save, second: Save, third: Save, retirement: Retirement)

  function Stopped(g: Generation): Generation {
    g.(status := "stopped", idleSleepStopRequested := false)
  }

  function Recovering(g: Generation): Generation {
    if g.status == "stopped" then g else g.(status := "recovering")
  }

  /**
   retireStoredGeneration: the manifest is written once, from the durable generation. Afterwards the store accepts
   only the generation the manifest holds, compared with the one in memory, which carries the reason.
   */
  function Retire(s: State, r: Retirement): State {
    var marked := s.cell.memory.(retireReason := REASON);
    if s.retired then s
    else if s.manifest.Some? then
      if s.manifest.value == marked then s.(retired := true, cell := s.cell.(memory := marked)) else s
    else
      match r
      case Done => s.(manifest := Some(s.cell.disk), retired := true, cell := s.cell.(memory := marked))
      case Failed(landed) => s.(manifest := if landed then Some(s.cell.disk) else None)
  }

  /** The outcome of a retirement; what the disk holds of the current generation stays as it is. */
  lemma RetirementMeans(s: State, r: Retirement)
    ensures var t := Retire(s, r);
            var accepted := !s.retired &&
              if s.manifest.None? then r.Done? else s.manifest.value == s.cell.memory.(retireReason := "agenthub_archived");
            && (t.retired <==> s.retired || accepted)
            && t.cell.disk == s.cell.disk && t.proofFailed == s.proofFailed
            && t.cell.memory == (if accepted then s.cell.memory.(retireReason := "agenthub_archived") else s.cell.memory)
            && t.manifest == (if s.manifest.None? && !s.retired && (r.Done? || r.landed) then Some(s.cell.disk) else s.manifest)
  {
  }

  function Save1(s: State, g: Generation, save: Save): State {
    s.(cell := Mutate(s.cell, g, save))
  }

  function RetireObserved(s: State, session: Session, script: seq<Response>, w: Writes): State {
    var was := s.cell.memory;
    var s1 := Save1(s, Stopped(was), w.first);
    var g := s1.cell.memory;
    var s2 := if was.completion.pending
              then Save1(s1, g.(completion := Recorded(g.completion, session, script)), w.second) else s1;
    Retire(s2, w.retirement)
  }

  function RetireProven(s: State, session: Session, history: seq<Event>, latest: int, w: Writes): State {
    var s1 := Save1(s, Stopped(s.cell.memory).(stoppedObserved := true), w.first);
    var g := s1.cell.memory;
    var s2 := Save1(s1, g.(completion := Prepared(g.completion, session)), w.second);
    var h := s2.cell.memory;
    var id := Trim(session.id);
    var s3 := if id == "" then s2
              else Save1(s2, h.(completion := TurnCompletion.Folded(h.completion, id, history, latest)), w.third);
    Retire(s3, w.retirement)
  }

  function Reconciled(s: State, session: Session, script: seq<Response>, w: Writes): State {
    if s.cell.memory.stoppedObserved then RetireObserved(s, session, script, w)
    else if s.proofFailed then s
    else
      match Verdict(Replay(script, 0))
      case Proof(true, history, cursor) => RetireProven(s, session, history, cursor, w)
      case Proof(false, _, _) => Save1(s.(proofFailed := true), Recovering(s.cell.memory), w.first)
      case NoProof(permanent) => Save1(s.(proofFailed := permanent), Recovering(s.cell.memory), w.first)
  }

  // ---------- the projections ----------

  /** The stopped observation after the poller's projection; `idle` is IdleSleepStopRequested by then. */
  function PollerObserved(observed: bool, state: string, idle: bool): bool {
    var o1 := observed || state == "stopped";
    var o2 := if state == "stopped" && idle then false else o1;
    if state == "ready" || state == "starting" then false else o2
  }

  /** The same after an action response's projection. */
  function ActionObserved(observed: bool, state: string, idle: bool): bool {
    var o1 := if state == "stopped" then !idle else observed;
    if state == "ready" || state == "starting" then false else o1
  }

  /** Both paths observe the same thing. */
  lemma ProjectionsAgree(observed: bool, state: string, idle: bool)
    ensures PollerObserved(observed, state, idle) == ActionObserved(observed, state, idle)
    ensures !observed && PollerObserved(observed, state, idle) ==> state == "stopped" && !idle
  {
  }

  class Reconciler {
    var record: Generation
    var saved: Generation
    var proofFailed: bool
    var retired: bool
    var manifest: Option<Generation>

    function Contents(): State
      reads this
    {
      State(Cell(record, saved), proofFailed, retired, manifest)
    }

    method MutateGeneration(updated: Generation, save: Save)
      modifies this
      ensures Contents() == Save1(old(Contents()), updated, save)
    {
      var ok;
      record, saved, ok := Persist(record, saved, updated, save);
    }

    method RetireStored(r: Retirement)
      modifies this
      ensures Contents() == Retire(old(Contents()), r)
    {
      if retired { return; }
      var marked := record.(retireReason := REASON);
      if manifest.Some? {
        if manifest.value != marked { return; }
      } else {
        if r.Done? || r.landed { manifest := Some(saved); }
        if r.Failed? { return; }
      }
      record := marked;
      retired := true;
    }

    method ReconcileArchived(session: Session, script: seq<Response>, w: Writes) returns (requests: nat)
      modifies this
      ensures Contents() == Reconciled(old(Contents()), session, script, w)
      ensures old(proofFailed) && !old(record).stoppedObserved ==> requests == 0
    {
      requests := 0;
      var was := record;
      if record.stoppedObserved {
        MutateGeneration(Stopped(record), w.first);
        if was.completion.pending {
          MutateGeneration(record.(completion := Recorded(record.completion, session, script)), w.second);
        }
        RetireStored(w.retirement);
        return;
      }
      if proofFailed { return; }
      var proof;
      proof, requests := Prove(script);
      match proof {
        case NoProof(permanent) =>
          if permanent { proofFailed := true; }
          MutateGeneration(Recovering(record), w.first);
        case Proof(stopped, history, cursor) =>
          if !stopped {
            proofFailed := true;
            MutateGeneration(Recovering(record), w.first);
            return;
          }
          MutateGeneration(Stopped(record).(stoppedObserved := true), w.first);
          MutateGeneration(record.(completion := Prepared(record.completion, session)), w.second);
          var id := Trim(session.id);
          if id != "" {
            MutateGeneration(record.(completion := TurnCompletion.Folded(record.completion, id, history, cursor)), w.third);
          }
          RetireStored(w.retirement);
      }
    }
  }

  // ---------- whole runs ----------

  /** `projected` is what a projection makes of every field but the stopped observation. */
  datatype Occurrence =
    | Archived(session: Session, script: seq<Response>, writes: Writes)
    | Poll(state: string, projected: Generation, save: Save)
    | Act(state: string, projected: Generation, save: Save)
    | Restart

  function Step(s: State, e: Occurrence): State {
    match e
    case Archived(session, script, w) => Reconciled(s, session, script, w)
    case Poll(state, g, save) =>
      var observed := PollerObserved(s.cell.memory.stoppedObserved, state, g.idleSleepStopRequested);
      Save1(s, g.(stoppedObserved := observed), save)
    case Act(state, g, save) =>
      var observed := ActionObserved(s.cell.memory.stoppedObserved, state, g.idleSleepStopRequested);
      Save1(s, g.(stoppedObserved := observed), save)
    case Restart => State(Durable.Restart(s.cell), false, s.manifest.Some?, s.manifest)
  }

  function Run(s: State, events: seq<Occurrence>): State {
    if events == [] then s else Step(Run(s, events[..|events| - 1]), events[|events| - 1])
  }

  /** A stopped edge seen by a projection, or a complete replay that passed through stopped. */
  predicate IsEvidence(e: Occurrence) {
    match e
    case Archived(_, script, _) => var r := Replay(script, 0); r.Complete? && PassedStopped(EventsOf(r.frames))
    case Poll(state, g, _) => state == "stopped" && !g.idleSleepStopRequested
    case Act(state, g, _) => state == "stopped" && !g.idleSleepStopRequested
    case Restart => false
  }

  predicate HasEvidence(events: seq<Occurrence>) {
    exists e :: e in events && IsEvidence(e)
  }

  predicate Believes(s: State) {
    s.cell.memory.stoppedObserved || s.cell.disk.stoppedObserved || s.manifest.Some?
  }

  lemma StepNeedsEvidence(s: State, e: Occurrence)
    requires !Believes(s) && Believes(Step(s, e))
    ensures IsEvidence(e)
  {
    match e
    case Archived(session, script, w) =>
      assert !s.proofFailed && Verdict(Replay(script, 0)).Proof?;
    case Poll(state, g, save) =>
    case Act(state, g, save) => ProjectionsAgree(false, state, g.idleSleepStopRequested);
    case Restart =>
  }

  /** In every run no generation is retired, or even believed stopped, before evidence that its session stopped. */
  lemma {:induction false} RetiresOnlyOnEvidence(s: State, events: seq<Occurrence>)
    requires !Believes(s)
    ensures Believes(Run(s, events)) ==> HasEvidence(events)
  {
    if events != [] {
      var before, e := events[..|events| - 1], events[|events| - 1];
      assert events == before + [e];
      RetiresOnlyOnEvidence(s, before);
      if HasEvidence(before) {
        var x :| x in before && IsEvidence(x);
        assert x in events;
      } else if Believes(Run(s, events)) {
        StepNeedsEvidence(Run(s, before), e);
      }
    }
  }

  // ---------- evidence that stands ----------

  predicate IsReady(state: string) { state == "ready" || state == "starting" }

  /** A projection that takes the stopped observation back: only one that changes the record is saved at all. */
  predicate Clears(s: State, e: Occurrence) {
    match e
    case Poll(state, _, _) => IsReady(state) && Step(s, e).cell.memory != s.cell.memory
    case Act(state, _, _) => IsReady(state) && Step(s, e).cell.memory != s.cell.memory
    case _ => false
  }

  ghost predicate NoneClears(s: State, occurrences: seq<Occurrence>, from: nat) {
    forall j :: from <= j < |occurrences| ==> !Clears(Run(s, occurrences[..j]), occurrences[j])
  }

  /** There is evidence that nothing since has taken back. */
  ghost predicate Backed(s: State, occurrences: seq<Occurrence>) {
    exists k :: 0 <= k < |occurrences| && IsEvidence(occurrences[k]) && NoneClears(s, occurrences, k + 1)
  }

  lemma BackedExtends(s: State, before: seq<Occurrence>, e: Occurrence)
    ensures IsEvidence(e) ==> Backed(s, before + [e])
    ensures Backed(s, before) && !Clears(Run(s, before), e) ==> Backed(s, before + [e])
  {
    var n, longer := |before|, before + [e];
    assert longer[..n] == before && longer[n] == e;
    if IsEvidence(e) {
      assert NoneClears(s, longer, n + 1);
    }
    if Backed(s, before) && !Clears(Run(s, before), e) {
      var k :| 0 <= k < n && IsEvidence(before[k]) && NoneClears(s, before, k + 1);
      forall j | k + 1 <= j < |longer| ensures !Clears(Run(s, longer[..j]), longer[j]) {
        assert j < n ==> longer[..j] == before[..j] && longer[j] == before[j];
      }
      assert longer[k] == before[k];
    }
  }

  /** In memory or on disk, and so perhaps after the next restart. */
  predicate Suspects(s: State) { s.cell.memory.stoppedObserved || s.cell.disk.stoppedObserved }

  lemma StepIsBacked(s: State, e: Occurrence)
    ensures Suspects(Step(s, e)) ==> IsEvidence(e) || (Suspects(s) && !Clears(s, e))
    ensures s.manifest.None? && Step(s, e).manifest.Some? ==> e.Archived? && (IsEvidence(e) || Suspects(s))
  {
    match e
    case Archived(session, script, w) =>
      if !s.cell.memory.stoppedObserved && !IsEvidence(e) {
        DoubtRetains(s, session, script, w);
        DoubtKeepsDisk(s, session, script, w);
      }
    case Poll(state, g, save) => ProjectionsAgree(s.cell.memory.stoppedObserved, state, g.idleSleepStopRequested);
    case Act(state, g, save) => ProjectionsAgree(s.cell.memory.stoppedObserved, state, g.idleSleepStopRequested);
    case Restart =>
  }

  lemma DoubtKeepsDisk(s: State, session: Session, script: seq<Response>, w: Writes)
    requires !s.cell.memory.stoppedObserved && !IsEvidence(Archived(session, script, w))
    ensures Reconciled(s, session, script, w).cell.disk.stoppedObserved ==> s.cell.disk.stoppedObserved
  {
    assert Verdict(Replay(script, 0)).Proof? ==> !Verdict(Replay(script, 0)).stopped;
  }

  lemma {:induction false} SuspicionIsBacked(s: State, occurrences: seq<Occurrence>)
    requires !Suspects(s)
    ensures Suspects(Run(s, occurrences)) ==> Backed(s, occurrences)
  {
    if occurrences != [] {
      var before, e := occurrences[..|occurrences| - 1], occurrences[|occurrences| - 1];
      assert occurrences == before + [e];
      SuspicionIsBacked(s, before);
      StepIsBacked(Run(s, before), e);
      BackedExtends(s, before, e);
    }
  }

  /** The very step that retires a generation has the proof, or a stop that nothing since has taken back. */
  lemma RetiringStepIsBacked(s: State, before: seq<Occurrence>, e: Occurrence)
    requires !Suspects(s)
    requires Run(s, before).manifest.None? && Step(Run(s, before), e).manifest.Some?
    ensures e.Archived? && (IsEvidence(e) || Backed(s, before))
  {
    SuspicionIsBacked(s, before);
    StepIsBacked(Run(s, before), e);
  }

  /** A saved ready state takes a stop off the disk exactly when it changes the record in memory. */
  lemma ReadyTakesBackIff(s: State, state: string, g: Generation)
    requires IsReady(state) && s.cell.disk.stoppedObserved
    ensures !Suspects(Step(s, Poll(state, g, Saved))) <==> g.(stoppedObserved := false) != s.cell.memory
    ensures !Suspects(Step(s, Act(state, g, Saved))) <==> g.(stoppedObserved := false) != s.cell.memory
  {
    ProjectionsAgree(s.cell.memory.stoppedObserved, state, g.idleSleepStopRequested);
  }

  /**
   A stop whose save failed after it reached the disk outlives a ready state that finds the record in memory as it
   was, and retires the session after a restart.
   */
  lemma StopOutlivesReady(s: State, session: Session, script: seq<Response>)
    requires !Suspects(s) && !s.cell.memory.idleSleepStopRequested && !s.retired && s.manifest.None?
    requires s.cell.memory == s.cell.disk
    ensures var g := s.cell.memory;
            var stop, ready := Poll("stopped", g.(status := "stopped"), Refused(true)), Poll("ready", g, Saved);
            var t := Run(s, [stop] + [ready] + [Occurrence.Restart]);
            && !Step(s, stop).cell.memory.stoppedObserved
            && Step(t, Archived(session, script, ALL_SAVED)).manifest.Some?
  {
    var g := s.cell.memory;
    var stop, ready := Poll("stopped", g.(status := "stopped"), Refused(true)), Poll("ready", g, Saved);
    assert Run(s, [stop]) == Step(s, stop) by {
      assert [stop][..0] == [];
    }
    RunExtends(s, [stop], ready);
    RunExtends(s, [stop] + [ready], Occurrence.Restart);
  }

  lemma RunExtends(s: State, before: seq<Occurrence>, e: Occurrence)
    ensures Run(s, before + [e]) == Step(Run(s, before), e)
  {
    assert (before + [e])[..|before|] == before;
  }

  /** With a stop on record the session is retired without a proof, its completion read to the end only if it was pending. */
  lemma ObservedStopIsRetired(s: State, session: Session, script: seq<Response>)
    requires s.cell.memory.stoppedObserved && !s.retired && s.manifest.None?
    ensures var g, t := s.cell.memory, Reconciled(s, session, script, ALL_SAVED);
            var done := g.(status := "stopped", idleSleepStopRequested := false, completion :=
                           if g.completion.pending then Recorded(g.completion, session, script) else g.completion);
            && t.retired && t.manifest == Some(t.cell.disk) && t.proofFailed == s.proofFailed
            && t.cell.memory == done.(retireReason := "agenthub_archived")
            && t.cell.disk == (if done == g then s.cell.disk else done)
  {
  }

  /** Without a session id a proven stop still retires the generation, and its completion is left alone. */
  lemma BlankSessionKeepsCompletion(s: State, session: Session, script: seq<Response>)
    requires !s.cell.memory.stoppedObserved && !s.proofFailed && !s.retired && s.manifest.None?
    requires Trim(session.id) == "" && IsEvidence(Archived(session, script, ALL_SAVED))
    ensures var t := Reconciled(s, session, script, ALL_SAVED);
            t.retired && t.manifest.Some? && t.manifest.value.completion == s.cell.memory.completion
  {
    assert Verdict(Replay(script, 0)).Proof? && Verdict(Replay(script, 0)).stopped;
  }

  /** A restart reads the disk, forgets a failed proof, and takes a durable manifest for a retirement. */
  lemma RestartForgets(s: State)
    ensures var t := Step(s, Occurrence.Restart);
            && t.cell.memory == t.cell.disk == s.cell.disk && t.manifest == s.manifest
            && !t.proofFailed && (t.retired <==> s.manifest.Some?)
  {
  }

  lemma StepKeepsManifest(s: State, e: Occurrence)
    ensures s.manifest.Some? ==> Step(s, e).manifest == s.manifest
  {
  }

  /** And the manifest, once written, stays. */
  lemma {:induction false} ManifestStays(s: State, events: seq<Occurrence>)
    ensures s.manifest.Some? ==> Run(s, events).manifest == s.manifest
  {
    if events != [] {
      ManifestStays(s, events[..|events| - 1]);
      StepKeepsManifest(Run(s, events[..|events| - 1]), events[|events| - 1]);
    }
  }

  lemma LandedStep(s: State, e: Occurrence)
    requires s.manifest.Some? && s.manifest.value.retireReason != REASON
    ensures Step(s, e).retired <==> s.retired || e.Restart?
  {
  }

  /** A retirement that failed with its manifest durable is refused from then on; only a restart believes the manifest. */
  lemma {:induction false} LandedRetirementIsRefused(s: State, occurrences: seq<Occurrence>)
    requires !s.retired && s.manifest.Some? && s.manifest.value.retireReason != REASON
    ensures Run(s, occurrences).retired <==> Occurrence.Restart in occurrences
  {
    if occurrences != [] {
      var before, e := occurrences[..|occurrences| - 1], occurrences[|occurrences| - 1];
      assert occurrences == before + [e];
      LandedRetirementIsRefused(s, before);
      ManifestStays(s, before);
      LandedStep(Run(s, before), e);
    }
  }

  /** Every other outcome retains the generation, as recovering or as the stopped one it was, and counts no stop. */
  lemma DoubtRetains(s: State, session: Session, script: seq<Response>, w: Writes)
    requires !s.cell.memory.stoppedObserved && !IsEvidence(Archived(session, script, w))
    ensures var t := Reconciled(s, session, script, w);
            && t.manifest == s.manifest && t.retired == s.retired
            && t.cell.memory.completion == s.cell.memory.completion && !t.cell.memory.stoppedObserved
            && t.cell.memory == s.cell.memory.(status := t.cell.memory.status)
            && t.cell.memory.status == (if s.cell.memory.status == "stopped" || s.proofFailed || w.first.Refused?
                                        then s.cell.memory.status else "recovering")
            && (t.proofFailed <==> s.proofFailed || Replay(script, 0) != Broken(false))
  {
    assert Verdict(Replay(script, 0)).Proof? ==> !Verdict(Replay(script, 0)).stopped;
  }

  // ---------- an honest archive ----------

  const ALL_SAVED := Writes(Saved, Saved, Saved, Done)

  /** The completion of this session can be continued: it is a new session, or one on record that the log covers. */
  predicate Continues(r: TurnCompletion.Record, id: string, log: seq<Frame>) {
    r.completionSession == id ==> Trim(r.session) == id && 0 <= r.cursor <= |log| && TurnCompletion.Coherent(r)
  }

  /** The part of the log that was not inspected yet. */
  function Rest(r: TurnCompletion.Record, id: string, log: seq<Frame>): seq<Frame>
    requires Continues(r, id, log)
  {
    if r.completionSession == id then log[r.cursor..] else log
  }

  /** The marker the last terminal of that part gives, or the one on record for this session. */
  function FinalMarker(r: TurnCompletion.Record, id: string, log: seq<Frame>): string
    requires Continues(r, id, log)
  {
    var last := TurnCompletion.LatestTerminal(EventsOf(Rest(r, id, log)));
    if last.Some? then TurnCompletion.Marker(id, last.value.id)
    else if r.completionSession == id then r.marker else ""
  }

  lemma NewSessionFold(r: TurnCompletion.Record, session: Session, log: seq<Frame>)
    requires Honest(log) && Trim(session.id) != "" && r.completionSession != Trim(session.id)
    ensures var f := TurnCompletion.Folded(Prepared(r, session), Trim(session.id), EventsOf(log), |log|);
            f.cursor == |log| && f.marker == FinalMarker(r, Trim(session.id), log)
  {
    HonestEventsIncrease(log, 0, |log|);
    assert log[0..|log|] == log;
    TurnCompletion.ScanIncreasing(0, EventsOf(log));
    TrimIdempotent(session.id);
  }

  /** A scan of the whole log from a later cursor sees the rest of it alone. */
  lemma ScanOfRest(log: seq<Frame>, c: nat)
    requires Honest(log) && c <= |log|
    ensures var rest := EventsOf(log[c..]);
            && TurnCompletion.ScanAll(TurnCompletion.Start(c), EventsOf(log)) ==
                 TurnCompletion.ScanAll(TurnCompletion.Start(c), rest)
            && TurnCompletion.Increasing(rest, c)
            && TurnCompletion.LastId(rest, c) <= |log|
  {
    assert log[0..|log|] == log && log[c..|log|] == log[c..];
    HonestEventsIncrease(log, 0, c);
    HonestEventsIncrease(log, c, |log|);
    EventsSplit(log, 0, c, |log|);
    ScanSkipsThePast(TurnCompletion.Start(c), EventsOf(log[0..c]), EventsOf(log[c..|log|]));
  }

  lemma KnownSessionFold(r: TurnCompletion.Record, id: string, log: seq<Frame>)
    requires Honest(log) && Continues(r, id, log) && r.completionSession == id
    ensures var f := TurnCompletion.Folded(r, id, EventsOf(log), |log|);
            f.cursor == |log| && f.marker == FinalMarker(r, id, log)
  {
    var rest := EventsOf(log[r.cursor..]);
    ScanOfRest(log, r.cursor);
    assert TurnCompletion.Folded(r, id, EventsOf(log), |log|) == TurnCompletion.Folded(r, id, rest, |log|);
    TurnCompletion.FoldedIncreasing(r, id, rest, |log|);
  }

  lemma AllSavedRetires(s: State, session: Session, history: seq<Event>, latest: int)
    requires !Believes(s) && !s.retired && Trim(session.id) != ""
    ensures var t := RetireProven(s, session, history, latest, ALL_SAVED);
            && t.retired && t.manifest.Some?
            && t.manifest.value.stoppedObserved && t.manifest.value.status == "stopped"
            && t.manifest.value.completion ==
                 TurnCompletion.Folded(Prepared(s.cell.memory.completion, session), Trim(session.id), history, latest)
  {
  }

  /**
   An archived session whose immutable log passed through stopped is retired by one undisturbed pass, whether or not
   it was polled before, and its completion is the last terminal of the whole log.
   */
  lemma {:induction false} HonestArchiveIsRetired(s: State, session: Session, script: seq<Response>, log: seq<Frame>)
    requires !Believes(s) && !s.proofFailed && !s.retired && Trim(session.id) != ""
    requires Honest(log) && Answers(script, log, 0)
    requires |script| > |log| && forall k :: 0 <= k < |script| ==> script[k].Page?
    requires !Undecodable(EventsOf(log)) && PassedStopped(EventsOf(log))
    ensures var t := Reconciled(s, session, script, ALL_SAVED);
            var was, id := s.cell.memory.completion, Trim(session.id);
            && t.retired && t.manifest == Some(t.cell.disk) && t.proofFailed == s.proofFailed
            && t.cell.memory == t.cell.disk.(retireReason := "agenthub_archived")
            && t.cell.disk == s.cell.memory.(status := "stopped", idleSleepStopRequested := false, stoppedObserved := true,
                                             completion := t.cell.disk.completion)
            && (Continues(was, id, log) ==>
                  && t.manifest.value.completion.cursor == |log|
                  && t.manifest.value.completion.marker == FinalMarker(was, id, log))
  {
    var was := s.cell.memory.completion;
    ProofIsExact(script, log);
    AllSavedRetires(s, session, EventsOf(log), |log|);
    if was.completionSession != Trim(session.id) {
      NewSessionFold(was, session, log);
    } else if Continues(was, Trim(session.id), log) {
      KnownSessionFold(was, Trim(session.id), log);
    }
  }
}
