/**
 Whole runs of one resource directory: requests and cleanups in any order, each
 with any fault. A fault ends the call that met it, so a process that stops and
 a later process that starts again are two consecutive events of one run.
 */
module GenerationRuns {
  import opened Basics
  import opened GenerationStore
  import opened LegacyCleanup

  datatype Event = Operate(request: Request, fault: Fault) | Clean(fault: Fault)

  function Step(digest: Digest, d: Directory, e: Event): Directory {
    match e
    case Operate(request, fault) => Execute(digest, d, request, fault).0
    case Clean(fault) => Land(d, Plan(digest, d), fault).0
  }

  function Run(digest: Digest, d: Directory, events: seq<Event>): Directory {
    if events == [] then d else Step(digest, Run(digest, d, events[..|events| - 1]), events[|events| - 1])
  }

  // ---------- ids ----------

  /** Manifests are immutable, and a visible generation stays visible or becomes retired. */
  ghost predicate Advances(v: View, v': View) {
    && (forall g :: g in v.retired ==> g in v'.retired && v'.retired[g] == v.retired[g])
    && (v.current.Some? ==>
          || (v'.current.Some? && v'.current.value.generationId == v.current.value.generationId)
          || Trim(v.current.value.generationId) in v'.retired)
  }

  lemma CleanAdvances(digest: Digest, d: Directory, fault: Fault, r: Record)
    ensures var d' := Land(d, Plan(digest, d), fault).0;
            && Keeps(digest, d, d', r)
            && Advances(Observe(d), Observe(d'))
            && d'.current == d.current
  {
    var k := LandIsPrefix(d, Plan(digest, d), fault);
    if d.legacy.Some? {
      CleanupLosesNothing(digest, d, 0, k, r);
      CleanupKeepsCurrent(d, Plan(digest, d).effects[..k]);
      PlanSparesCurrent(digest, d, 0);
    }
  }

  lemma CleanupKeepsCurrent(d: Directory, effects: seq<Effect>)
    ensures (forall e :: e in effects ==> !e.WriteCurrent? && !e.RemoveCurrent?) ==>
              ApplyAll(d, effects).current == d.current
    decreases |effects|
  {
    if effects != [] {
      CleanupKeepsCurrent(Apply(d, effects[0]), effects[1..]);
    }
  }

  lemma {:induction false} PlanSparesCurrent(digest: Digest, d: Directory, i: nat)
    requires d.legacy.Some? && i <= |d.legacy.value|
    ensures forall e :: e in DecideCleanup(digest, d, i).effects ==> !e.WriteCurrent? && !e.RemoveCurrent?
    decreases |d.legacy.value| - i
  {
    if i < |d.legacy.value| {
      match d.legacy.value[i]
      case Foreign => PlanSparesCurrent(digest, d, i + 1);
      case Unreadable =>
      case LegacyFile(r) =>
        if DecideMigration(digest, d, r).verdict.Ok? {
          PlanSparesCurrent(digest, Migrated(digest, d, i), i);
        }
    }
  }

  lemma StepAdvances(digest: Digest, d: Directory, e: Event)
    ensures Advances(Observe(d), Observe(Step(digest, d, e)))
  {
    match e
    case Operate(request, fault) =>
      Linearizable(digest, d, request, fault);
      TrimIdempotent(request.record.generationId);
    case Clean(fault) =>
      CleanAdvances(digest, d, fault, Record("", "", 0, "", "", Malformed));
  }

  /** Over every run no manifest changes, and a visible generation is for ever after visible or retired. */
  lemma {:induction false} RunAdvances(digest: Digest, d: Directory, events: seq<Event>)
    ensures Advances(Observe(d), Observe(Run(digest, d, events)))
  {
    if events != [] {
      RunAdvances(digest, d, events[..|events| - 1]);
      StepAdvances(digest, Run(digest, d, events[..|events| - 1]), events[|events| - 1]);
    }
  }

  lemma {:induction false} RunConcat(digest: Digest, d: Directory, a: seq<Event>, b: seq<Event>)
    ensures Run(digest, d, a + b) == Run(digest, Run(digest, d, a), b)
  {
    if b == [] {
      assert a + b == a;
    } else {
      assert (a + b)[..|a + b| - 1] == a + b[..|b| - 1];
      RunConcat(digest, d, a, b[..|b| - 1]);
    }
  }

  /** A generation whose save succeeded is visible or retired at the end of whatever follows. */
  lemma SavedGenerationsSurvive(digest: Digest, d: Directory, record: Record, fault: Fault, events: seq<Event>)
    requires Execute(digest, d, SaveCurrent(record), fault).1 == Ok
    ensures var v := Observe(Run(digest, Step(digest, d, Operate(SaveCurrent(record), fault)), events));
            Owns(v, Trim(record.generationId)) || Trim(record.generationId) in v.retired
  {
    Linearizable(digest, d, SaveCurrent(record), fault);
    TrimIdempotent(record.generationId);
    RunAdvances(digest, Step(digest, d, Operate(SaveCurrent(record), fault)), events);
  }

  /** A retired generation keeps its manifest and is never current again. */
  lemma RetiredNeverReturns(digest: Digest, d: Directory, events: seq<Event>, g: string)
    requires g != "" && g in d.retired
    ensures var d' := Run(digest, d, events);
            g in d'.retired && d'.retired[g] == d.retired[g] && !Owns(Observe(d'), g)
  {
    RunAdvances(digest, d, events);
  }

  // ---------- legacy records ----------

  lemma OperateKeeps(digest: Digest, d: Directory, request: Request, fault: Fault, r: Record)
    ensures var d' := Execute(digest, d, request, fault).0;
            Grows(d, d') && d'.legacy == d.legacy
  {
    Linearizable(digest, d, request, fault);
  }

  /**
   At every moment of every run a legacy record is still in its file, or in the history with its id, number and
   payload, or was once the duplicate of a visible record (whose generation then survives, by RunAdvances).
   */
  lemma {:induction false} RunLosesNoLegacyRecord(digest: Digest, d: Directory, events: seq<Event>, r: Record)
    requires d.legacy.Some? && LegacyFile(r) in d.legacy.value
    ensures var d' := Run(digest, d, events);
            || (d'.legacy.Some? && LegacyFile(r) in d'.legacy.value)
            || Archived(digest, d', r)
            || exists k :: 0 <= k <= |events| && IsDuplicate(digest, Run(digest, d, events[..k]), r)
  {
    if events != [] {
      var before := events[..|events| - 1];
      RunLosesNoLegacyRecord(digest, d, before, r);
      var mid := Run(digest, d, before);
      match events[|events| - 1] {
        case Operate(request, fault) => OperateKeeps(digest, mid, request, fault, r);
        case Clean(fault) => CleanAdvances(digest, mid, fault, r);
      }
      if Archived(digest, mid, r) {
        StaysArchived(digest, mid, Run(digest, d, events), r);
      }
      if k :| 0 <= k <= |before| && IsDuplicate(digest, Run(digest, d, before[..k]), r) {
        assert before[..k] == events[..k];
      }
      assert events[..|before|] == before;
    }
  }

  // ---------- numbers ----------

  /**
   The callers' discipline: a new generation takes the next number, SaveRetired files the visible generation under
   no lower number than its own, and no legacy file falls back to the id of the live record when a cleanup starts.
   */
  ghost predicate Disciplined(digest: Digest, d: Directory, e: Event) {
    match e
    case Operate(SaveCurrent(record), _) => CreatesFrom(d, record) ==> IsNext(Observe(d), record.generation)
    case Operate(SaveRetired(record, _), _) =>
      Owns(Observe(d), Trim(record.generationId)) ==> record.generation >= Visible(d).value.generation
    case Operate(RetireCurrent(_, _), _) => true
    case Clean(_) => SparesCurrent(digest, d)
  }

  /** The save is accepted and there is no visible generation it could continue. */
  predicate CreatesFrom(d: Directory, record: Record) {
    IsComplete(record) && Visible(d).None? && Trim(record.generationId) !in d.retired
  }

  ghost predicate DisciplinedRun(digest: Digest, d: Directory, events: seq<Event>) {
    forall k :: 0 <= k < |events| ==> Disciplined(digest, Run(digest, d, events[..k]), events[k])
  }

  predicate Reaches(v: View, n: int) {
    || (v.current.Some? && v.current.value.generation >= n)
    || exists g :: g in v.retired && v.retired[g].record.generation >= n
  }

  lemma CleanSparesCurrent(digest: Digest, d: Directory, fault: Fault)
    requires SparesCurrent(digest, d)
    ensures Visible(Land(d, Plan(digest, d), fault).0) == Visible(d)
  {
    var k := LandIsPrefix(d, Plan(digest, d), fault);
    if d.legacy.Some? {
      CleanupSparesCurrent(digest, d, 0, k);
    }
  }

  lemma StepKeepsNumbers(digest: Digest, d: Directory, e: Event, n: int)
    requires Disciplined(digest, d, e) && Reaches(Observe(d), n)
    ensures Reaches(Observe(Step(digest, d, e)), n)
  {
    StepAdvances(digest, d, e);
    var v, v' := Observe(d), Observe(Step(digest, d, e));
    if e.Clean? {
      CleanSparesCurrent(digest, d, e.fault);
    }
    if e.Operate? {
      Linearizable(digest, d, e.request, e.fault);
      TrimIdempotent(e.request.record.generationId);
      if v' != v && !e.request.SaveCurrent? {
        var r := Normalize(digest, e.request.record).value;
        assert r.generationId in v'.retired;
      }
    }
    if g :| g in v.retired && v.retired[g].record.generation >= n {
      assert v'.retired[g] == v.retired[g];
    }
  }

  lemma {:induction false} RunKeepsNumbers(digest: Digest, d: Directory, events: seq<Event>, n: int)
    requires DisciplinedRun(digest, d, events) && Reaches(Observe(d), n)
    ensures Reaches(Observe(Run(digest, d, events)), n)
  {
    if events != [] {
      var before := events[..|events| - 1];
      assert forall k :: 0 <= k < |before| ==> before[..k] == events[..k];
      assert events[..|before|] == before;
      RunKeepsNumbers(digest, d, before, n);
      StepKeepsNumbers(digest, Run(digest, d, before), events[|events| - 1], n);
    }
  }

  /** The next number exceeds every number the resource ever used. */
  lemma NextExceedsEveryNumberEverUsed(
      digest: Digest, d: Directory, before: seq<Event>, after: seq<Event>, used: int, next: int)
    requires DisciplinedRun(digest, d, before + after)
    requires UsesNumber(Observe(Run(digest, d, before)), used)
    requires IsNext(Observe(Run(digest, d, before + after)), next)
    ensures used < next
  {
    var mid := Run(digest, d, before);
    RunConcat(digest, d, before, after);
    RestIsDisciplined(digest, d, before, after);
    RunKeepsNumbers(digest, mid, after, used);
  }

  lemma RestIsDisciplined(digest: Digest, d: Directory, before: seq<Event>, after: seq<Event>)
    requires DisciplinedRun(digest, d, before + after)
    ensures DisciplinedRun(digest, Run(digest, d, before), after)
  {
    var all := before + after;
    forall k | 0 <= k < |after|
      ensures Disciplined(digest, Run(digest, Run(digest, d, before), after[..k]), after[k])
    {
      assert Disciplined(digest, Run(digest, d, all[..|before| + k]), all[|before| + k]);
      assert all[..|before| + k] == before + after[..k] && all[|before| + k] == after[k];
      RunConcat(digest, d, before, after[..k]);
    }
  }

  /** A generation appears where none was visible only by a save that creates it. */
  lemma OnlySavesCreate(digest: Digest, d: Directory, e: Event)
    requires Visible(d).None? && Visible(Step(digest, d, e)).Some?
    ensures e.Operate? && e.request.SaveCurrent? && CreatesFrom(d, e.request.record)
    ensures Visible(Step(digest, d, e)).value.generation == e.request.record.generation
  {
    match e
    case Operate(request, fault) =>
      Linearizable(digest, d, request, fault);
    case Clean(fault) =>
      CleanAdvances(digest, d, fault, Record("", "", 0, "", "", Malformed));
  }

  /** Generations are numbered in creation order: a new one has a greater number than any used before it. */
  lemma CreatedNumbersIncrease(
      digest: Digest, d: Directory, before: seq<Event>, after: seq<Event>, e: Event, used: int)
    requires DisciplinedRun(digest, d, before + after + [e])
    requires UsesNumber(Observe(Run(digest, d, before)), used)
    requires Visible(Run(digest, d, before + after)).None? && Visible(Run(digest, d, before + after + [e])).Some?
    ensures used < Visible(Run(digest, d, before + after + [e])).value.generation
  {
    var all := before + after + [e];
    var n := |before + after|;
    assert all[..n] == before + after && all[n] == e;
    var mid := Run(digest, d, before + after);
    assert Disciplined(digest, Run(digest, d, all[..n]), all[n]);
    OnlySavesCreate(digest, mid, e);
    forall k | 0 <= k < n ensures Disciplined(digest, Run(digest, d, (before + after)[..k]), (before + after)[k]) {
      assert (before + after)[..k] == all[..k] && (before + after)[k] == all[k];
      assert Disciplined(digest, Run(digest, d, all[..k]), all[k]);
    }
    NextExceedsEveryNumberEverUsed(digest, d, before, after, used, e.request.record.generation);
  }
}
