/**
 Counting turns: the two projections of an AgentHub session onto a generation
 (reconcileAgentHubGenerationLocked and applyAgentHubSessionState) and the
 resource-wide turn ordinal they allocate.
 */
module TurnOrdinals {
  import opened Basics
  import opened Durable

  /** An AgentHub session state; `Unseen` is the empty string. */
  datatype HubState =
    | Unseen | Starting | Ready | Running | WaitingApproval | Stopping | Stopped | OtherState(name: string)

  /** A generation's own status. */
  datatype Status =
    | Starting | Idle | Running | WaitingApproval | Stopping | Stopped | IdleSuspended | Recovering | OtherStatus(name: string)

  datatype Record = Record(
    status: Status,
    lastTurn: string,
    currentTurn: string,
    startedAt: string,
    turnNumber: nat,
    other: string)

  /** `other` is what the projection makes of every further field; a save can fail for its sake alone. */
  datatype Session = Session(state: HubState, currentTurnId: string, observedAt: string, other: string)

  predicate IsActive(state: HubState) { state.Running? || state.WaitingApproval? }

  predicate IsFinish(previous: HubState, state: HubState) {
    IsActive(previous) && (state.Ready? || state.Stopped?)
  }

  /** activeAgentHubTurnID: a turn id kept by an inactive snapshot is stale. */
  function ActiveTurn(s: Session): string {
    if IsActive(s.state) then Trim(s.currentTurnId) else ""
  }

  /** puaStatusForAgentHubState. */
  function StatusOf(state: HubState): Status {
    match state
    case Starting => Status.Starting
    case Ready => Idle
    case Running => Status.Running
    case WaitingApproval => Status.WaitingApproval
    case Stopping => Status.Stopping
    case Stopped => Status.Stopped
    case _ => Recovering
  }

  /** agentHubStateForPUAStatus. */
  function StateFor(status: Status): HubState {
    match status
    case Starting => HubState.Starting
    case Running => HubState.Running
    case WaitingApproval => HubState.WaitingApproval
    case Idle => Ready
    case Stopping => HubState.Stopping
    case Stopped => HubState.Stopped
    case IdleSuspended => HubState.Stopped
    case _ => Unseen
  }

  /** The turn fields after a projection, shared by both paths. */
  function Projected(r: Record, s: Session): Record {
    var t := ActiveTurn(s);
    var p := r.(status := StatusOf(s.state), currentTurn := t, other := s.other);
    if t == "" then p
    else p.(lastTurn := t,
            startedAt := if r.lastTurn != t || Trim(r.startedAt) == "" then s.observedAt else r.startedAt)
  }

  predicate Starts(r: Record, s: Session) {
    ActiveTurn(s) != "" && r.lastTurn != ActiveTurn(s)
  }

  /** `others` is the highest number among the resource's other generations, `ordinal` the resource's own file. */
  datatype State = State(cell: Cell<Record>, hubState: HubState, ordinal: nat, others: nat)

  /** The number allocateResourceTurnNumber tries to save. */
  function NextOrdinal(s: State): nat { Max(Max(s.ordinal, s.others), s.cell.disk.turnNumber) + 1 }

  datatype Writes = Writes(projection: Save, ordinal: Save, number: Save)

  const SAVED := Writes(Saved, Saved, Saved)

  predicate Published(r: Record, updated: Record, save: Save) { updated == r || save.Saved? }

  /** The turn a projection allocates an ordinal for, if any. */
  function Triggers(s: State, session: Session, w: Writes): Option<string> {
    if Starts(s.cell.memory, session) && w.projection.Saved? then Some(ActiveTurn(session)) else None
  }

  /** The number that allocation returns, if it succeeds. */
  function Allocates(s: State, session: Session, w: Writes): Option<nat> {
    if Triggers(s, session, w).Some? && w.ordinal.Saved?
    then Some(NextOrdinal(AfterProjection(s, session, w))) else None
  }

  function AfterProjection(s: State, session: Session, w: Writes): State {
    var updated := Projected(s.cell.memory, session);
    s.(cell := Mutate(s.cell, updated, w.projection),
       hubState := if Published(s.cell.memory, updated, w.projection) then session.state else s.hubState)
  }

  function Observed(s: State, session: Session, w: Writes): State {
    var p := AfterProjection(s, session, w);
    if Triggers(s, session, w).None? then p
    else
      var n := NextOrdinal(p);
      match w.ordinal
      case Refused(landed) => p.(ordinal := if landed then n else p.ordinal)
      case Saved => p.(ordinal := n, cell := Mutate(p.cell, p.cell.memory.(turnNumber := n), w.number))
  }

  function PreviousState(s: State): HubState {
    if s.hubState == Unseen then StateFor(s.cell.memory.status) else s.hubState
  }

  class Runtime {
    var record: Record
    var saved: Record
    var hubState: HubState
    var ordinal: nat
    var others: nat

    function Contents(): State
      reads this
    {
      State(Cell(record, saved), hubState, ordinal, others)
    }

    method Save(updated: Record, save: Durable.Save) returns (ok: bool)
      modifies this`record, this`saved
      ensures Cell(record, saved) == Mutate(old(Cell(record, saved)), updated, save)
      ensures ok <==> Published(old(record), updated, save)
    {
      record, saved, ok := Persist(record, saved, updated, save);
    }

    method AllocateTurnNumber(save: Durable.Save) returns (number: Option<nat>)
      modifies this`ordinal
      ensures save.Saved? ==> number == Some(NextOrdinal(old(Contents()))) && ordinal == NextOrdinal(old(Contents()))
      ensures save.Refused? ==>
                (number.None? && ordinal == if save.landed then NextOrdinal(old(Contents())) else old(ordinal))
    {
      var maximum := ordinal;
      if others > maximum { maximum := others; }
      if saved.turnNumber > maximum { maximum := saved.turnNumber; }
      if save.Saved? || save.landed { ordinal := maximum + 1; }
      number := if save.Saved? then Some(maximum + 1) else None;
    }

    /** The poller's projection: status first, the observed state last. */
    method Poll(session: Session, w: Writes) returns (finished: bool, started: bool)
      modifies this
      ensures Contents() == Observed(old(Contents()), session, w)
      ensures started <==> Triggers(old(Contents()), session, w).Some?
      ensures finished <==> IsFinish(PreviousState(old(Contents())), session.state)
    {
      var previousState := hubState;
      if previousState == Unseen { previousState := StateFor(record.status); }
      finished := IsActive(previousState) && (session.state.Ready? || session.state.Stopped?);
      started := false;
      var updated := record.(status := StatusOf(session.state), other := session.other);
      var turn := ActiveTurn(session);
      if turn == "" {
        updated := updated.(currentTurn := "");
      } else {
        if updated.lastTurn != turn {
          started := true;
          updated := updated.(lastTurn := turn);
        }
        if started || Trim(updated.startedAt) == "" {
          updated := updated.(startedAt := session.observedAt);
        }
        updated := updated.(currentTurn := turn);
      }
      var ok := Save(updated, w.projection);
      if !ok { return finished, false; }
      hubState := session.state;
      if started {
        var number := AllocateTurnNumber(w.ordinal);
        if number.Some? {
          var _ := Save(record.(turnNumber := number.value), w.number);
        }
      }
    }

    /** An action response's projection: the turn first, then the observed state and the status. */
    method Apply(session: Session, w: Writes) returns (finished: bool, started: bool)
      modifies this
      ensures Contents() == Observed(old(Contents()), session, w)
      ensures started <==> Triggers(old(Contents()), session, w).Some?
      ensures finished <==> IsFinish(PreviousState(old(Contents())), session.state)
    {
      var previousState := hubState;
      if previousState == Unseen { previousState := StateFor(record.status); }
      finished := IsActive(previousState) && (session.state.Ready? || session.state.Stopped?);
      started := false;
      var updated := record;
      var turn := ActiveTurn(session);
      if turn == "" {
        updated := updated.(currentTurn := "");
      } else {
        if updated.lastTurn != turn {
          started := true;
          updated := updated.(lastTurn := turn);
        }
        if started || Trim(updated.startedAt) == "" {
          updated := updated.(startedAt := session.observedAt);
        }
        updated := updated.(currentTurn := turn);
      }
      updated := updated.(status := StatusOf(session.state), other := session.other);
      var ok := Save(updated, w.projection);
      if !ok { return finished, false; }
      hubState := session.state;
      if started {
        var number := AllocateTurnNumber(w.ordinal);
        if number.Some? {
          var _ := Save(record.(turnNumber := number.value), w.number);
        }
      }
    }
  }

  // ---------- whole runs ----------

  /**
   A projection by either path, a restart, which forgets everything that is not on disk, or another generation of the
   resource that allocates a number and saves it with its own record.
   */
  datatype Step = Observe(session: Session, writes: Writes) | Restart | Elsewhere(allocation: Save, number: Save)

  function After(s: State, e: Step): State {
    match e
    case Observe(session, w) => Observed(s, session, w)
    case Restart => s.(cell := Durable.Restart(s.cell), hubState := Unseen)
    case Elsewhere(allocation, number) =>
      var n := NextOrdinal(s);
      s.(ordinal := if Reaches(allocation) then n else s.ordinal,
         others := if allocation.Saved? && Reaches(number) then Max(s.others, n) else s.others)
  }

  /** The file changed, whatever the save reported. */
  predicate Reaches(save: Save) { save.Saved? || save.landed }

  function Run(s: State, steps: seq<Step>): State {
    if steps == [] then s else After(Run(s, steps[..|steps| - 1]), steps[|steps| - 1])
  }

  function AsSeq<T>(o: Option<T>): seq<T> { if o.Some? then [o.value] else [] }

  /** The active turn a step observes. */
  function TurnOf(e: Step): seq<string> {
    if e.Observe? && (e.session.state.Running? || e.session.state.WaitingApproval?) && Trim(e.session.currentTurnId) != ""
    then [Trim(e.session.currentTurnId)] else []
  }

  lemma TurnOfStep(e: Step)
    ensures TurnOf(e) == if e.Observe? && ActiveTurn(e.session) != "" then [ActiveTurn(e.session)] else []
  {
  }

  /** An inactive session keeps no turn, whatever turn id it still names, and starts none. */
  lemma InactiveSessionHasNoTurn(s: State, session: Session, w: Writes)
    requires !session.state.Running? && !session.state.WaitingApproval?
    ensures var t := Observed(s, session, w);
            && t.ordinal == s.ordinal && t.others == s.others
            && t.cell.memory.lastTurn == s.cell.memory.lastTurn && t.cell.memory.startedAt == s.cell.memory.startedAt
            && t.cell.memory.turnNumber == s.cell.memory.turnNumber
            && (w.projection.Saved? ==>
                  && t.cell.memory.currentTurn == "" && t.cell.memory.other == session.other
                  && t.hubState == session.state
                  && (session.state.Ready? ==> t.cell.memory.status == Idle)
                  && (session.state.Starting? ==> t.cell.memory.status == Status.Starting)
                  && (session.state.Stopping? ==> t.cell.memory.status == Status.Stopping)
                  && (session.state.Stopped? ==> t.cell.memory.status == Status.Stopped)
                  && (session.state.OtherState? || session.state.Unseen? ==> t.cell.memory.status == Recovering))
  {
    assert ActiveTurn(session) == "";
  }

  /** An active session's turn is recorded; a new one is counted and its clock set, a known one is not. */
  lemma ActiveTurnIsRecorded(s: State, session: Session)
    requires session.state.Running? || session.state.WaitingApproval?
    requires Trim(session.currentTurnId) != ""
    ensures var was, t := s.cell.memory, Observed(s, session, SAVED);
            var turn, r := Trim(session.currentTurnId), t.cell.memory;
            && r.currentTurn == r.lastTurn == turn && r.other == session.other && t.hubState == session.state
            && r.status == (if session.state.Running? then Status.Running else Status.WaitingApproval)
            && t.others == s.others
            && (was.lastTurn == turn && Trim(was.startedAt) != "" ==> r.startedAt == was.startedAt)
            && (was.lastTurn != turn || Trim(was.startedAt) == "" ==> r.startedAt == session.observedAt)
            && (was.lastTurn == turn ==> t.ordinal == s.ordinal && r.turnNumber == was.turnNumber)
            && (was.lastTurn != turn ==> r.turnNumber == t.ordinal > s.ordinal && t.ordinal > s.others)
  {
    assert ActiveTurn(session) == Trim(session.currentTurnId);
  }

  function TriggerOf(s: State, e: Step): seq<string> {
    if e.Observe? then AsSeq(Triggers(s, e.session, e.writes)) else []
  }

  /** The number a step allocates for this generation. */
  function OwnOf(s: State, e: Step): seq<nat> {
    if e.Observe? then AsSeq(Allocates(s, e.session, e.writes)) else []
  }

  /** The number a step allocates for the resource. */
  function AllocationOf(s: State, e: Step): seq<nat> {
    if e.Elsewhere? && e.allocation.Saved? then [NextOrdinal(s)] else OwnOf(s, e)
  }

  function Own(s: State, steps: seq<Step>): seq<nat> {
    if steps == [] then []
    else Own(s, steps[..|steps| - 1]) + OwnOf(Run(s, steps[..|steps| - 1]), steps[|steps| - 1])
  }

  /** The active turn ids a run observes, repetitions included. */
  function Turns(steps: seq<Step>): seq<string> {
    if steps == [] then [] else Turns(steps[..|steps| - 1]) + TurnOf(steps[|steps| - 1])
  }

  /** The turns a run allocates an ordinal for, in order. */
  function Triggered(s: State, steps: seq<Step>): seq<string> {
    if steps == [] then []
    else Triggered(s, steps[..|steps| - 1]) + TriggerOf(Run(s, steps[..|steps| - 1]), steps[|steps| - 1])
  }

  /** The numbers a run allocates, in order. */
  function Allocated(s: State, steps: seq<Step>): seq<nat> {
    if steps == [] then []
    else Allocated(s, steps[..|steps| - 1]) + AllocationOf(Run(s, steps[..|steps| - 1]), steps[|steps| - 1])
  }

  /** A turn that was left for another is never observed again. */
  predicate NeverReturns(turns: seq<string>) {
    forall i, j, k :: 0 <= i < j < k < |turns| && turns[i] == turns[k] ==> turns[j] == turns[i]
  }

  predicate Distinct<T(==)>(s: seq<T>) {
    forall i, j :: 0 <= i < j < |s| ==> s[i] != s[j]
  }

  // ---------- at most once ----------

  predicate Rested(s: State) { s.cell.memory == s.cell.disk }

  /** A turn that was just counted is on record, in memory and on disk. */
  predicate Counted(s: State, turns: seq<string>, counted: seq<string>) {
    && (forall t :: t in counted ==> t in turns)
    && (turns != [] && turns[|turns| - 1] in counted ==>
          s.cell.memory.lastTurn == turns[|turns| - 1] == s.cell.disk.lastTurn)
  }

  /** What a step does to the turn on record: a trigger settles it on both sides, nothing else invents one. */
  lemma StepLastTurn(s: State, e: Step)
    ensures var m, d := s.cell.memory.lastTurn, s.cell.disk.lastTurn;
            var m', d' := After(s, e).cell.memory.lastTurn, After(s, e).cell.disk.lastTurn;
            && (TriggerOf(s, e) != [] ==> TriggerOf(s, e) == TurnOf(e) && m != TurnOf(e)[0] && m' == d' == TurnOf(e)[0])
            && (TurnOf(e) == [] || m == d == TurnOf(e)[0] ==>
                  TriggerOf(s, e) == [] && (m' == m || m' == d) && (d' == m || d' == d))
  {
  }

  lemma StepCounts(s: State, e: Step, turns: seq<string>, counted: seq<string>)
    requires Counted(s, turns, counted) && NeverReturns(turns + TurnOf(e))
    ensures forall t :: t in TriggerOf(s, e) ==> t !in counted
    ensures |TriggerOf(s, e)| <= 1
    ensures Counted(After(s, e), turns + TurnOf(e), counted + TriggerOf(s, e))
  {
    StepLastTurn(s, e);
    if TurnOf(e) == [] {
      assert turns + TurnOf(e) == turns && counted + TriggerOf(s, e) == counted;
    } else {
      var t := TurnOf(e)[0];
      var all := turns + TurnOf(e);
      assert all == turns + [t];
      if t in counted {
        var i :| 0 <= i < |turns| && turns[i] == t;
        assert all[i] == all[|turns|] && (i < |turns| - 1 ==> all[|turns| - 1] == t);
      }
    }
  }

  lemma DistinctExtends(c: seq<string>, d: seq<string>)
    requires Distinct(c) && |d| <= 1 && forall t :: t in d ==> t !in c
    ensures Distinct(c + d)
  {
    if d != [] {
      assert d == [d[0]] && d[0] in d;
      DistinctAppend(c, d[0]);
    } else {
      assert c + d == c;
    }
  }

  lemma {:induction false} RunCounts(s: State, steps: seq<Step>, before: seq<string>)
    requires NeverReturns(before + Turns(steps))
    requires before == [] || (before == [s.cell.memory.lastTurn] && Rested(s))
    ensures Counted(Run(s, steps), before + Turns(steps), before + Triggered(s, steps))
    ensures Distinct(before + Triggered(s, steps))
  {
    if steps != [] {
      var init, e := steps[..|steps| - 1], steps[|steps| - 1];
      var turns, counted := before + Turns(init), before + Triggered(s, init);
      var state := Run(s, init);
      assert before + Turns(steps) == turns + TurnOf(e);
      assert before + Triggered(s, steps) == counted + TriggerOf(state, e);
      assert NeverReturns(turns) by {
        assert forall i :: 0 <= i < |turns| ==> turns[i] == (turns + TurnOf(e))[i];
      }
      RunCounts(s, init, before);
      StepCounts(state, e, turns, counted);
      DistinctExtends(counted, TriggerOf(state, e));
    }
  }

  /**
   Whatever writes fail and wherever the process restarts, a turn triggers at most one
   allocation, and the turn already on record triggers none, as long as no turn id returns.
   */
  lemma AtMostOneAllocationPerTurn(s: State, steps: seq<Step>)
    requires Rested(s) && NeverReturns([s.cell.memory.lastTurn] + Turns(steps))
    ensures Distinct([s.cell.memory.lastTurn] + Triggered(s, steps))
  {
    RunCounts(s, steps, [s.cell.memory.lastTurn]);
  }

  // ---------- exactly once ----------

  predicate IsSaved(e: Step) {
    match e
    case Observe(_, w) => w == SAVED
    case Restart => true
    case Elsewhere(allocation, number) => allocation.Saved? && number.Saved?
  }

  predicate AllSaved(steps: seq<Step>) { forall e :: e in steps ==> IsSaved(e) }

  /** Each time the observed turn changes, starting from `last`. */
  function Changes(last: string, turns: seq<string>): seq<string> {
    if turns == [] then []
    else
      var before := turns[..|turns| - 1];
      var t := turns[|turns| - 1];
      Changes(last, before) + if t == Latest(last, before) then [] else [t]
  }

  function Latest(last: string, turns: seq<string>): string {
    if turns == [] then last else turns[|turns| - 1]
  }

  lemma ChangesExtend(last: string, turns: seq<string>, next: seq<string>)
    requires |next| <= 1
    ensures Changes(last, turns + next) ==
            Changes(last, turns) + if next == [] || next[0] == Latest(last, turns) then [] else next
    ensures Latest(last, turns + next) == Latest(Latest(last, turns), next)
  {
    if next == [] {
      assert turns + next == turns;
    } else {
      assert (turns + next)[..|turns|] == turns && next == [next[0]];
    }
  }

  lemma SavedStep(s: State, e: Step)
    requires Rested(s) && IsSaved(e)
    ensures Rested(After(s, e))
    ensures After(s, e).cell.memory.lastTurn == Latest(s.cell.memory.lastTurn, TurnOf(e))
    ensures TriggerOf(s, e) == if TurnOf(e) == [] || TurnOf(e)[0] == s.cell.memory.lastTurn then [] else TurnOf(e)
  {
  }

  /** With every write saved, the allocations are exactly the changes of turn, whatever idles, repeats or restarts. */
  lemma {:induction false} AllocatesExactlyOnce(s: State, steps: seq<Step>)
    requires Rested(s) && AllSaved(steps)
    ensures Triggered(s, steps) == Changes(s.cell.memory.lastTurn, Turns(steps))
    ensures Rested(Run(s, steps))
    ensures Run(s, steps).cell.memory.lastTurn == Latest(s.cell.memory.lastTurn, Turns(steps))
  {
    if steps != [] {
      var init, e := steps[..|steps| - 1], steps[|steps| - 1];
      assert e in steps && forall x :: x in init ==> x in steps;
      AllocatesExactlyOnce(s, init);
      SavedStep(Run(s, init), e);
      ChangesExtend(s.cell.memory.lastTurn, Turns(init), TurnOf(e));
    }
  }

  lemma {:induction false} ChangesOccur(last: string, turns: seq<string>)
    ensures forall t :: t in Changes(last, turns) ==> t in turns
    ensures forall t :: t in turns ==> t == last || t in Changes(last, turns)
  {
    if turns != [] {
      var before, t := turns[..|turns| - 1], turns[|turns| - 1];
      assert turns == before + [t];
      ChangesOccur(last, before);
      if t == Latest(last, before) && before != [] {
        assert t in before;
      }
    }
  }

  /** The changes repeat no turn exactly when no turn returns. */
  lemma {:induction false} ChangesAreDistinctIff(last: string, turns: seq<string>)
    ensures Distinct([last] + Changes(last, turns)) <==> NeverReturns([last] + turns)
  {
    var all := [last] + turns;
    if turns != [] {
      var before, t := turns[..|turns| - 1], turns[|turns| - 1];
      var n := |turns|;
      ChangesAreDistinctIff(last, before);
      ChangesOccur(last, before);
      assert all == ([last] + before) + [t];
      assert all[n] == t && all[n - 1] == Latest(last, before);
      var c := [last] + Changes(last, before);
      if t == all[n - 1] {
        assert Changes(last, turns) == Changes(last, before);
        LastRepeats([last] + before, t);
      } else {
        assert [last] + Changes(last, turns) == c + [t];
        LastIsNew([last] + before, t);
        assert t in c <==> t in [last] + before;
        DistinctAppend(c, t);
      }
    }
  }

  lemma DistinctAppend(c: seq<string>, t: string)
    ensures Distinct(c + [t]) <==> Distinct(c) && t !in c
  {
    assert forall i :: 0 <= i < |c| ==> (c + [t])[i] == c[i];
    if t in c {
      var i :| 0 <= i < |c| && c[i] == t;
      assert (c + [t])[i] == (c + [t])[|c|];
    }
    if Distinct(c + [t]) {
      assert forall i, j :: 0 <= i < j < |c| ==> (c + [t])[i] != (c + [t])[j];
    }
  }

  lemma LastRepeats(turns: seq<string>, t: string)
    requires turns != [] && turns[|turns| - 1] == t
    ensures NeverReturns(turns + [t]) <==> NeverReturns(turns)
  {
    var all := turns + [t];
    if NeverReturns(turns) {
      forall i, j, k | 0 <= i < j < k < |all| && all[i] == all[k] ensures all[j] == all[i] {
        assert k == |turns| ==> all[|turns| - 1] == all[k];
        assert turns[i] == all[i] && turns[j] == all[j];
        if k < |turns| { assert turns[k] == all[k]; }
      }
    }
    if NeverReturns(all) {
      assert forall i :: 0 <= i < |turns| ==> turns[i] == all[i];
    }
  }

  lemma LastIsNew(turns: seq<string>, t: string)
    requires turns != [] && turns[|turns| - 1] != t
    ensures NeverReturns(turns + [t]) <==> NeverReturns(turns) && t !in turns
  {
    var all := turns + [t];
    assert forall i :: 0 <= i < |turns| ==> turns[i] == all[i];
    if t in turns {
      var i :| 0 <= i < |turns| && turns[i] == t;
      assert all[i] == all[|turns|] && all[|turns| - 1] != t;
    }
    if NeverReturns(turns) && t !in turns {
      forall i, j, k | 0 <= i < j < k < |all| && all[i] == all[k] ensures all[j] == all[i] {
        assert turns[i] == all[i] && turns[j] == all[j];
        if k < |turns| { assert turns[k] == all[k]; }
      }
    }
  }

  /** So with every write saved, no turn is counted twice exactly when no turn id returns. */
  lemma CountedOnceIff(s: State, steps: seq<Step>)
    requires Rested(s) && AllSaved(steps)
    ensures Distinct([s.cell.memory.lastTurn] + Triggered(s, steps)) <==>
            NeverReturns([s.cell.memory.lastTurn] + Turns(steps))
  {
    AllocatesExactlyOnce(s, steps);
    ChangesAreDistinctIff(s.cell.memory.lastTurn, Turns(steps));
  }

  lemma ChangesOfReturn(a: string, b: string)
    requires a != "" && a != b
    ensures Changes("", [a] + [b] + [a]) == [a, b, a]
  {
    ChangesExtend("", [], [a]);
    ChangesExtend("", [a], [b]);
    ChangesExtend("", [a] + [b], [a]);
    assert [] + [a] == [a];
  }

  /** Turns a, b and a again: the first is counted twice. */
  lemma ReturningTurnIsCountedTwice(a: string, b: string)
    requires Trim(a) == a && Trim(b) == b && a != "" && b != "" && a != b
    ensures var s := State(Cell(FRESH, FRESH), Unseen, 0, 0);
            var steps := [Saw(a)] + [Saw(b)] + [Saw(a)];
            AllSaved(steps) && Triggered(s, steps) == [a, b, a]
  {
    var s := State(Cell(FRESH, FRESH), Unseen, 0, 0);
    assert Turns([Saw(a)]) == [a] by {
      TurnsSaw([], a);
      assert [] + [Saw(a)] == [Saw(a)] && [] + [a] == [a];
    }
    TurnsSaw([Saw(a)], b);
    TurnsSaw([Saw(a)] + [Saw(b)], a);
    AllocatesExactlyOnce(s, [Saw(a)] + [Saw(b)] + [Saw(a)]);
    ChangesOfReturn(a, b);
  }

  const FRESH := Record(Idle, "", "", "", 0, "")

  function Saw(turn: string): Step { Observe(Session(HubState.Running, turn, "", ""), SAVED) }

  lemma TurnsSaw(steps: seq<Step>, turn: string)
    requires Trim(turn) == turn && turn != ""
    ensures Turns(steps + [Saw(turn)]) == Turns(steps) + [turn]
  {
    assert (steps + [Saw(turn)])[..|steps|] == steps;
  }

  // ---------- the numbers ----------

  predicate Rising(numbers: seq<nat>, ceiling: nat) {
    && (forall n :: n in numbers ==> n <= ceiling)
    && forall i, j :: 0 <= i < j < |numbers| ==> numbers[i] < numbers[j]
  }

  lemma StepNumbers(s: State, e: Step)
    ensures After(s, e).ordinal >= s.ordinal && After(s, e).others >= s.others
    ensures |AllocationOf(s, e)| <= 1
    ensures forall n :: n in AllocationOf(s, e) ==> s.ordinal < n <= After(s, e).ordinal && n > s.others
  {
  }

  lemma RisingExtends(numbers: seq<nat>, last: seq<nat>, low: nat, high: nat)
    requires Rising(numbers, low) && |last| <= 1 && low <= high
    requires forall n :: n in last ==> low < n <= high
    ensures Rising(numbers + last, high)
  {
    forall i, j | 0 <= i < j < |numbers + last| ensures (numbers + last)[i] < (numbers + last)[j] {
      assert (numbers + last)[i] == numbers[i] && numbers[i] in numbers;
      if j == |numbers| {
        assert (numbers + last)[j] == last[0] && last[0] in last;
      }
    }
  }

  /**
   The numbers allocated for the resource, by this and by other generations, strictly increase past every number it
   had, whatever writes fail.
   */
  lemma {:induction false} NumbersIncrease(s: State, steps: seq<Step>)
    ensures var t := Run(s, steps);
            var numbers := Allocated(s, steps);
            && t.ordinal >= s.ordinal && t.others >= s.others
            && Rising(numbers, t.ordinal)
            && forall n :: n in numbers ==> n > s.ordinal && n > s.others
  {
    if steps != [] {
      var before := steps[..|steps| - 1];
      NumbersIncrease(s, before);
      StepNumbers(Run(s, before), steps[|steps| - 1]);
      var last := AllocationOf(Run(s, before), steps[|steps| - 1]);
      RisingExtends(Allocated(s, before), last, Run(s, before).ordinal, Run(s, steps).ordinal);
    }
  }

  /** No number the resource has is above its file. */
  predicate Covers(s: State) { s.cell.disk.turnNumber <= s.ordinal && s.others <= s.ordinal }

  lemma SavedStepNumbers(s: State, e: Step)
    requires Rested(s) && IsSaved(e) && Covers(s)
    ensures var t := After(s, e);
            && Rested(t) && Covers(t)
            && |OwnOf(s, e)| == |TriggerOf(s, e)|
            && (if AllocationOf(s, e) == [] then t.ordinal == s.ordinal
                else AllocationOf(s, e) == [s.ordinal + 1] && t.ordinal == s.ordinal + 1)
            && (if OwnOf(s, e) == [] then t.cell.disk.turnNumber == s.cell.disk.turnNumber
                else OwnOf(s, e) == [t.cell.disk.turnNumber])
  {
  }

  function Last(numbers: seq<nat>, first: nat): nat { if numbers == [] then first else numbers[|numbers| - 1] }

  lemma {:induction false} SavedRunNumbers(s: State, steps: seq<Step>)
    requires Rested(s) && AllSaved(steps) && Covers(s)
    ensures Rested(Run(s, steps)) && Covers(Run(s, steps))
    ensures |Own(s, steps)| == |Triggered(s, steps)|
    ensures Run(s, steps).cell.disk.turnNumber == Last(Own(s, steps), s.cell.disk.turnNumber)
  {
    if steps != [] {
      var init, e := steps[..|steps| - 1], steps[|steps| - 1];
      assert e in steps && forall x :: x in init ==> x in steps;
      SavedRunNumbers(s, init);
      SavedStepNumbers(Run(s, init), e);
    }
  }

  /**
   With every write saved the numbers are consecutive, this generation gets one for each change of turn, and its
   record carries the last of its own.
   */
  lemma {:induction false} NumbersAreConsecutive(s: State, steps: seq<Step>)
    requires Rested(s) && AllSaved(steps) && Covers(s)
    ensures var t := Run(s, steps);
            var numbers := Allocated(s, steps);
            && (forall k :: 0 <= k < |numbers| ==> numbers[k] == s.ordinal + 1 + k)
            && t.ordinal == s.ordinal + |numbers|
            && |Own(s, steps)| == |Triggered(s, steps)|
            && t.cell.disk.turnNumber == Last(Own(s, steps), s.cell.disk.turnNumber)
  {
    SavedRunNumbers(s, steps);
    if steps != [] {
      var init, e := steps[..|steps| - 1], steps[|steps| - 1];
      assert e in steps && forall x :: x in init ==> x in steps;
      NumbersAreConsecutive(s, init);
      SavedRunNumbers(s, init);
      SavedStepNumbers(Run(s, init), e);
    }
  }

  // ---------- the start of a turn ----------

  lemma StepKeepsClock(s: State, e: Step, t: string)
    requires Rested(s) && IsSaved(e)
    requires s.cell.memory.lastTurn == t && Trim(s.cell.memory.startedAt) != ""
    requires TurnOf(e) == [] || TurnOf(e) == [t]
    ensures Rested(After(s, e))
    ensures After(s, e).cell.memory.lastTurn == t && After(s, e).cell.memory.startedAt == s.cell.memory.startedAt
  {
  }

  lemma {:induction false} RunKeepsClock(s: State, steps: seq<Step>, t: string)
    requires Rested(s) && AllSaved(steps)
    requires s.cell.memory.lastTurn == t && Trim(s.cell.memory.startedAt) != ""
    requires forall x :: x in Turns(steps) ==> x == t
    ensures var r := Run(s, steps);
            Rested(r) && r.cell.memory.lastTurn == t && r.cell.memory.startedAt == s.cell.memory.startedAt
  {
    if steps != [] {
      var before, e := steps[..|steps| - 1], steps[|steps| - 1];
      assert steps == before + [e];
      assert forall x :: x in Turns(before) ==> x in Turns(steps);
      assert TurnOf(e) != [] ==> TurnOf(e) == [TurnOf(e)[0]] && TurnOf(e)[0] in Turns(steps);
      RunKeepsClock(s, before, t);
      StepKeepsClock(Run(s, before), e, t);
    }
  }

  /** The start time of a turn is that of its first observation, however often it is observed again. */
  lemma ClockStartsOnce(s: State, session: Session, steps: seq<Step>)
    requires Rested(s) && AllSaved(steps) && Starts(s.cell.memory, session) && Trim(session.observedAt) != ""
    requires forall x :: x in Turns(steps) ==> x == ActiveTurn(session)
    ensures var t := Run(Observed(s, session, SAVED), steps);
            t.cell.memory.lastTurn == ActiveTurn(session) && t.cell.memory.startedAt == session.observedAt
  {
    RunKeepsClock(Observed(s, session, SAVED), steps, ActiveTurn(session));
  }

  // ---------- the finish edge ----------

  /**
   The edge from an active turn to ready or stopped, as the next projection sees it: a restart in between does not lose
   it, and does not make one up.
   */
  lemma RestartKeepsTheEdge(s: State, session: Session, next: HubState)
    requires Rested(s)
    ensures var t := Observed(s, session, SAVED);
            var edge := (session.state.Running? || session.state.WaitingApproval?) && (next.Ready? || next.Stopped?);
            && (IsFinish(PreviousState(t), next) <==> edge)
            && (IsFinish(PreviousState(After(t, Restart)), next) <==> edge)
  {
  }

  /** A projection whose save fails changes nothing in memory, so the edge is still there for the next one. */
  lemma FailedSaveKeepsTheEdge(s: State, session: Session, w: Writes)
    requires w.projection.Refused? && session.other != s.cell.memory.other
    ensures var t := Observed(s, session, w);
            && t.cell.memory == s.cell.memory && t.hubState == s.hubState && PreviousState(t) == PreviousState(s)
            && t.ordinal == s.ordinal && t.others == s.others
  {
  }

  /** An observed state is what the next projection compares with; only before the first one the status stands in. */
  lemma PreviousStateMeans(s: State)
    ensures s.hubState != Unseen ==> PreviousState(s) == s.hubState
    ensures s.hubState == Unseen ==>
              && (PreviousState(s).Running? <==> s.cell.memory.status.Running?)
              && (PreviousState(s).WaitingApproval? <==> s.cell.memory.status.WaitingApproval?)
  {
  }

  /** A restart keeps the disk and the numbers and forgets the rest. */
  lemma RestartReadsDisk(s: State)
    ensures After(s, Restart) == State(Cell(s.cell.disk, s.cell.disk), Unseen, s.ordinal, s.others)
  {
  }

  /** Another generation's allocation leaves this one alone and takes a number above all there are. */
  lemma ElsewhereAllocates(s: State, allocation: Save, number: Save)
    ensures var t := After(s, Elsewhere(allocation, number));
            var n := t.ordinal;
            && t.cell == s.cell && t.hubState == s.hubState
            && (allocation == Refused(false) ==> t == s)
            && (allocation != Refused(false) ==>
                  && n == Max(Max(s.ordinal, s.others), s.cell.disk.turnNumber) + 1
                  && (t.others == n || t.others == s.others)
                  && (t.others == n <==> allocation.Saved? && number != Refused(false)))
  {
  }
}
