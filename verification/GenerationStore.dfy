/**
 The generation store of one Workspace (internal/generation/store.go).

 Each resource owns a directory with one mutable current record, a set of
 immutable retired manifests and, in old Workspaces, a legacy directory. Every
 operation decides what to do from what it reads and then performs a short list
 of file effects. Each effect is atomic, but a process may stop at any of them:
 a `Fault` names the first effect that fails and says whether it still reached
 the disk. A crash and an error returned by the file system leave the same disk.

 `Observe` is what a reader sees: a current record whose generation already has
 a manifest is gone. The theorems say that, whatever the fault, an operation
 moves the observed state by one atomic step or not at all.
 */
module GenerationStore {
  import opened Basics

  /** An uninterpreted digest, standing for shortHash. */
  type Digest = string -> string

  /** A JSON payload up to insignificant white space; `Malformed` is one that is empty or not JSON. */
  datatype Payload = Malformed | Json(compact: string)

  datatype Record = Record(
    id: string,
    generationId: string,
    generation: int,
    createdAt: string,
    updatedAt: string,
    payload: Payload)

  datatype Manifest = Manifest(record: Record, reason: string)

  datatype LegacyEntry =
    | LegacyFile(record: Record)
    | Unreadable  // a .json file that is no valid legacy record
    | Foreign     // a directory, or a name that does not end in .json

  /** The files of one resource; legacy entries are in directory order. */
  datatype Directory = Directory(
    current: Option<Record>,
    retired: map<string, Manifest>,
    legacy: Option<seq<LegacyEntry>>)

  const EMPTY := Directory(None, map[], None)

  datatype Error =
    | InvalidPayload
    | MissingGenerationId
    | CurrentConflict
    | Immutable
    | NotFound
    | UnreadableLegacy
    | UnmigratedEntries
    | Io

  datatype Outcome = Ok | Err(error: Error)

  // ---------- file effects and faults ----------

  datatype Effect =
    | WriteCurrent(record: Record)
    | WriteManifest(manifest: Manifest)
    | RemoveCurrent
    | RemoveLegacy(at: nat)
    | RemoveLegacyDir

  function Apply(d: Directory, e: Effect): Directory {
    match e
    case WriteCurrent(r) => d.(current := Some(r))
    case WriteManifest(m) => d.(retired := d.retired[m.record.generationId := m])
    case RemoveCurrent => d.(current := None)
    case RemoveLegacy(i) =>
      if d.legacy.Some? && i < |d.legacy.value|
      then d.(legacy := Some(d.legacy.value[..i] + d.legacy.value[i + 1..]))
      else d
    case RemoveLegacyDir => d.(legacy := None)
  }

  function ApplyAll(d: Directory, effects: seq<Effect>): Directory
    decreases |effects|
  {
    if effects == [] then d else ApplyAll(Apply(d, effects[0]), effects[1..])
  }

  /** What an operation decided: the effects it performs and what it then returns. */
  datatype Decision = Decision(effects: seq<Effect>, verdict: Outcome)

  function Refuse(error: Error): Decision { Decision([], Err(error)) }

  function Land(d: Directory, decision: Decision, fault: Fault): (Directory, Outcome)
    decreases |decision.effects|
  {
    if decision.effects == [] then (d, decision.verdict)
    else if fault.At? && fault.step == 0 then
      (if fault.landed then Apply(d, decision.effects[0]) else d, Err(Io))
    else
      Land(Apply(d, decision.effects[0]), decision.(effects := decision.effects[1..]), Later(fault))
  }

  // ---------- reading ----------

  /** readRetiredForKey: no manifest is ever stored under the empty generation id. */
  function Lookup(d: Directory, generationId: string): Option<Manifest> {
    if generationId != "" && generationId in d.retired then Some(d.retired[generationId]) else None
  }

  /** readCurrentForKey: a manifest written before a crash is the durable retirement edge. */
  function Visible(d: Directory): Option<Record> {
    if d.current.Some? && Lookup(d, Trim(d.current.value.generationId)).Some? then None else d.current
  }

  predicate SameIdentity(left: Record, right: Record) {
    left.id == right.id && left.generationId == right.generationId && left.generation == right.generation
  }

  predicate SameGeneration(left: Record, right: Record) {
    SameIdentity(left, right) && left.payload == right.payload
  }

  function Normalize(digest: Digest, record: Record): Option<Record> {
    if record.payload.Malformed? then None else
    var id := Trim(record.id);
    Some(record.(
      id := if id == "" then "record-" + digest(record.payload.compact) else id,
      generationId := Trim(record.generationId)))
  }

  // ---------- the operations ----------

  datatype Request =
    | SaveCurrent(record: Record)
    | SaveRetired(record: Record, reason: string)
    | RetireCurrent(record: Record, reason: string)

  function DecideSave(d: Directory, r: Record): Decision {
    if Visible(d).Some? && !SameIdentity(Visible(d).value, r) then Refuse(CurrentConflict)
    else if Lookup(d, r.generationId).Some? then Refuse(Immutable)
    else Decision([WriteCurrent(r)], Ok)
  }

  /** writeRetiredForKey: repeating the same write is idempotent, changing a manifest is refused. */
  function DecideManifest(d: Directory, r: Record, reason: string): (decision: Decision)
    ensures decision.effects == [] || decision == Decision([WriteManifest(Manifest(r, Trim(reason)))], Ok)
    ensures decision.verdict.Err? ==> decision == Refuse(Immutable)
  {
    match Lookup(d, r.generationId)
    case Some(existing) => if SameGeneration(existing.record, r) then Decision([], Ok) else Refuse(Immutable)
    case None => Decision([WriteManifest(Manifest(r, Trim(reason)))], Ok)
  }

  function DecideRetire(d: Directory, r: Record, reason: string): Decision {
    var current := Visible(d);
    match Lookup(d, r.generationId)
    case Some(manifest) =>
      if !SameGeneration(manifest.record, r) then Refuse(Immutable)
      else if current.Some? then
        if !SameGeneration(current.value, r) then Refuse(CurrentConflict) else Decision([RemoveCurrent], Ok)
      else Decision([], Ok)
    case None =>
      if current.None? then Refuse(NotFound)
      else if !SameIdentity(current.value, r) then Refuse(CurrentConflict)
      else
        var write := DecideManifest(d, current.value, reason);
        if write.verdict.Err? then write else Decision(write.effects + [RemoveCurrent], Ok)
  }

  function Decide(digest: Digest, d: Directory, request: Request): Decision {
    match Normalize(digest, request.record)
    case None => Refuse(InvalidPayload)
    case Some(r) =>
      if r.generationId == "" then Refuse(MissingGenerationId)
      else match request
        case SaveCurrent(_) => DecideSave(d, r)
        case SaveRetired(_, reason) => DecideManifest(d, r, reason)
        case RetireCurrent(_, reason) => DecideRetire(d, r, reason)
  }

  function Execute(digest: Digest, d: Directory, request: Request, fault: Fault): (Directory, Outcome) {
    Land(d, Decide(digest, d, request), fault)
  }

  // ---------- the atomic specification ----------

  /** What readers can tell apart: the visible current record and the immutable history. */
  datatype View = View(current: Option<Record>, retired: map<string, Manifest>)

  function Observe(d: Directory): View { View(Visible(d), d.retired) }

  predicate Owns(v: View, generationId: string) {
    v.current.Some? && Trim(v.current.value.generationId) == generationId
  }

  /** Enters a manifest in the history; a current record of that generation is thereby retired. */
  function Retire(v: View, m: Manifest): View {
    View(if Owns(v, m.record.generationId) then None else v.current, v.retired[m.record.generationId := m])
  }

  /** Each request as one atomic step on the view, with no files and no order of effects. */
  function Specify(digest: Digest, v: View, request: Request): (View, Outcome) {
    match Normalize(digest, request.record)
    case None => (v, Err(InvalidPayload))
    case Some(r) =>
      if r.generationId == "" then (v, Err(MissingGenerationId))
      else match request
        case SaveCurrent(_) =>
          if v.current.Some? && !SameIdentity(v.current.value, r) then (v, Err(CurrentConflict))
          else if r.generationId in v.retired then (v, Err(Immutable))
          else (v.(current := Some(r)), Ok)
        case SaveRetired(_, reason) =>
          if r.generationId !in v.retired then (Retire(v, Manifest(r, Trim(reason))), Ok)
          else (v, if SameGeneration(v.retired[r.generationId].record, r) then Ok else Err(Immutable))
        case RetireCurrent(_, reason) =>
          if r.generationId in v.retired then
            (v, if !SameGeneration(v.retired[r.generationId].record, r) then Err(Immutable)
                else if v.current.Some? then Err(CurrentConflict) else Ok)
          else if v.current.None? then (v, Err(NotFound))
          else if !SameIdentity(v.current.value, r) then (v, Err(CurrentConflict))
          else (Retire(v, Manifest(v.current.value, Trim(reason))), Ok)
  }

  /** An interrupted operation has performed a prefix of its effects; a finished one has performed them all. */
  lemma LandIsPrefix(d: Directory, decision: Decision, fault: Fault) returns (done: nat)
    ensures done <= |decision.effects|
    ensures Land(d, decision, fault).0 == ApplyAll(d, decision.effects[..done])
    ensures Land(d, decision, fault).1 == Err(Io) || (done == |decision.effects| && Land(d, decision, fault).1 == decision.verdict)
    ensures fault == Never ==> Land(d, decision, fault).1 == decision.verdict && done == |decision.effects|
    decreases |decision.effects|
  {
    var effects := decision.effects;
    if effects == [] {
      done := 0;
    } else if fault.At? && fault.step == 0 {
      done := if fault.landed then 1 else 0;
    } else {
      var rest := LandIsPrefix(Apply(d, effects[0]), decision.(effects := effects[1..]), Later(fault));
      done := rest + 1;
      assert effects[1..][..rest] == effects[..done][1..];
      assert done == |effects| ==> effects[..done] == effects;
    }
    assert done == |effects| ==> effects[..done] == effects;
  }

  lemma LandOne(d: Directory, e: Effect, fault: Fault)
    ensures Land(d, Decision([e], Ok), fault) ==
            if fault.At? && fault.step == 0 then (if fault.landed then Apply(d, e) else d, Err(Io))
            else (Apply(d, e), Ok)
  {
    assert [e][1..] == [];
  }

  lemma LandTwo(d: Directory, a: Effect, b: Effect, fault: Fault)
    ensures Land(d, Decision([a, b], Ok), fault) ==
            if fault.At? && fault.step == 0 then (if fault.landed then Apply(d, a) else d, Err(Io))
            else Land(Apply(d, a), Decision([b], Ok), Later(fault))
  {
    assert [a, b][1..] == [b];
  }

  ghost predicate MovesAtomically(d: Directory, d': Directory, outcome: Outcome, v': View, verdict: Outcome) {
    && (Observe(d') == Observe(d) || Observe(d') == v')
    && (outcome == verdict || outcome == Err(Io))
    && (outcome == Ok ==> Observe(d') == v')
    && (outcome.Err? && outcome != Err(Io) ==> d' == d)
    && d'.legacy == d.legacy
  }

  lemma SaveIsAtomic(d: Directory, r: Record, fault: Fault)
    requires r.generationId != "" && r.generationId == Trim(r.generationId)
    ensures var (d', outcome) := Land(d, DecideSave(d, r), fault);
            var v := Observe(d);
            var refused := v.current.Some? && !SameIdentity(v.current.value, r);
            if refused then MovesAtomically(d, d', outcome, v, Err(CurrentConflict))
            else if r.generationId in v.retired then MovesAtomically(d, d', outcome, v, Err(Immutable))
            else MovesAtomically(d, d', outcome, v.(current := Some(r)), Ok)
  {
    var done := LandIsPrefix(d, DecideSave(d, r), fault);
  }

  lemma ManifestIsAtomic(d: Directory, r: Record, reason: string, fault: Fault)
    requires r.generationId != ""
    ensures var (d', outcome) := Land(d, DecideManifest(d, r, reason), fault);
            var v := Observe(d);
            if r.generationId !in v.retired then MovesAtomically(d, d', outcome, Retire(v, Manifest(r, Trim(reason))), Ok)
            else MovesAtomically(d, d', outcome, v,
              if SameGeneration(v.retired[r.generationId].record, r) then Ok else Err(Immutable))
  {
    var done := LandIsPrefix(d, DecideManifest(d, r, reason), fault);
  }

  /** Removing the file of a retired record changes nothing a reader sees, so the manifest write is the linearization point. */
  lemma RetireIsAtomic(d: Directory, r: Record, reason: string, fault: Fault)
    requires r.generationId != "" && r.generationId == Trim(r.generationId)
    requires Lookup(d, r.generationId).None? && Visible(d).Some? && SameIdentity(Visible(d).value, r)
    ensures var (d', outcome) := Land(d, DecideRetire(d, r, reason), fault);
            MovesAtomically(d, d', outcome, Retire(Observe(d), Manifest(Visible(d).value, Trim(reason))), Ok)
  {
    var c := Visible(d).value;
    var m := Manifest(c, Trim(reason));
    var d1 := Apply(d, WriteManifest(m));
    assert DecideRetire(d, r, reason) == Decision([WriteManifest(m), RemoveCurrent], Ok);
    LandTwo(d, WriteManifest(m), RemoveCurrent, fault);
    LandOne(d1, RemoveCurrent, Later(fault));
    assert Observe(d1) == Retire(Observe(d), m);
    assert Observe(Apply(d1, RemoveCurrent)) == Observe(d1);
  }

  /** Whatever the fault, a request moves the view by its atomic step or not at all, and reports it truly. */
  lemma Linearizable(digest: Digest, d: Directory, request: Request, fault: Fault)
    ensures var (d', outcome) := Execute(digest, d, request, fault);
            var (v', verdict) := Specify(digest, Observe(d), request);
            && MovesAtomically(d, d', outcome, v', verdict)
            && (fault == Never ==> outcome == verdict)
  {
    var normal := Normalize(digest, request.record);
    if normal.Some? && normal.value.generationId != "" {
      var r := normal.value;
      TrimIdempotent(request.record.generationId);
      var done := LandIsPrefix(d, Decide(digest, d, request), fault);
      match request
      case SaveCurrent(_) => SaveIsAtomic(d, r, fault);
      case SaveRetired(_, reason) => ManifestIsAtomic(d, r, reason, fault);
      case RetireCurrent(_, reason) =>
        if Lookup(d, r.generationId).None? && Visible(d).Some? && SameIdentity(Visible(d).value, r) {
          RetireIsAtomic(d, r, reason, fault);
        } else if Lookup(d, r.generationId).Some? && Visible(d).Some? {
          VisibleIsNeverRetired(d, r);
        }
    }
  }

  /** The clean-up branch of a retry is dead: a visible current record never has a manifest. */
  lemma VisibleIsNeverRetired(d: Directory, r: Record)
    requires r.generationId == Trim(r.generationId)
    requires Lookup(d, r.generationId).Some? && Visible(d).Some?
    ensures !SameGeneration(Visible(d).value, r)
  {
  }

  // ---------- retirement retries ----------

  /** Once the generation has its manifest, a retirement succeeds exactly for the durable content and no successor. */
  lemma RetrySucceedsIff(digest: Digest, d: Directory, retry: Request, again: Fault)
    requires retry.RetireCurrent?
    requires Normalize(digest, retry.record).Some?
    requires Lookup(d, Normalize(digest, retry.record).value.generationId).Some?
    ensures var r := Normalize(digest, retry.record).value;
            var (d', outcome) := Execute(digest, d, retry, again);
            && d' == d
            && (outcome == Ok <==> SameGeneration(d.retired[r.generationId].record, r) && Visible(d).None?)
            && (SameGeneration(d.retired[r.generationId].record, r) && Visible(d).Some? ==>
                  outcome == Err(CurrentConflict))
  {
    TrimIdempotent(retry.record.generationId);
    if Visible(d).Some? {
      VisibleIsNeverRetired(d, Normalize(digest, retry.record).value);
    }
  }

  /** Retrying with the durable payload after any interruption succeeds; once the manifest is durable it touches no file. */
  lemma RetryAfterInterruption(digest: Digest, d: Directory, first: Request, fault: Fault, retry: Request, again: Fault)
    requires first.RetireCurrent? && retry.RetireCurrent?
    requires Specify(digest, Observe(d), first).1 == Ok && Visible(d).Some?
    requires Normalize(digest, retry.record).Some?
    requires SameGeneration(Normalize(digest, retry.record).value, Visible(d).value)
    ensures var d1 := Execute(digest, d, first, fault).0;
            && (Observe(d1) != Observe(d) ==> Execute(digest, d1, retry, again) == (d1, Ok))
            && Execute(digest, d1, retry, Never).1 == Ok
            && Visible(Execute(digest, d1, retry, Never).0).None?
  {
    var d1 := Execute(digest, d, first, fault).0;
    Linearizable(digest, d, first, fault);
    TrimIdempotent(retry.record.generationId);
    if Observe(d1) != Observe(d) {
      assert Observe(d1) == Specify(digest, Observe(d), first).0;
      RetrySucceedsIff(digest, d1, retry, again);
      RetrySucceedsIff(digest, d1, retry, Never);
    } else {
      assert Specify(digest, Observe(d1), retry).1 == Ok;
      Linearizable(digest, d1, retry, Never);
    }
  }

  /** A first attempt compares identity only, so a stale payload retires once and is refused when repeated. */
  lemma StalePayloadRetiresOnlyOnce(digest: Digest, d: Directory, request: Request)
    requires request.RetireCurrent?
    requires Specify(digest, Observe(d), request).1 == Ok && Visible(d).Some?
    ensures var d1 := Execute(digest, d, request, Never).0;
            && Execute(digest, d, request, Never).1 == Ok
            && (Execute(digest, d1, request, Never).1 == Ok <==> request.record.payload == Visible(d).value.payload)
  {
    Linearizable(digest, d, request, Never);
    Linearizable(digest, Execute(digest, d, request, Never).0, request, Never);
  }

  /** A record that became [] on disk, retired twice as the {} it was. */
  lemma StalePayloadRetiredTwice(digest: Digest)
    ensures var live := Record("run", "gen", 1, "", "", Json("[]"));
            var d := Directory(Some(live), map[], None);
            var request := RetireCurrent(live.(payload := Json("{}")), "");
            var (d1, outcome) := Execute(digest, d, request, Never);
            outcome == Ok && Execute(digest, d1, request, Never).1 == Err(Immutable)
  {
    var live := Record("run", "gen", 1, "", "", Json("[]"));
    var d := Directory(Some(live), map[], None);
    var request := RetireCurrent(live.(payload := Json("{}")), "");
    TrimFixed("run");
    TrimFixed("gen");
    assert "[]"[0] != "{}"[0];
    StalePayloadRetiresOnlyOnce(digest, d, request);
    Linearizable(digest, d, request, Never);
    Linearizable(digest, Execute(digest, d, request, Never).0, request, Never);
  }

  /** The store accepts the record at all: it has a JSON payload and a generation id. */
  predicate IsComplete(record: Record) { record.payload.Json? && Trim(record.generationId) != "" }

  /** SaveRetired never looks at current.json: it hides the visible record exactly when it names its generation. */
  lemma SaveRetiredHidesCurrentIff(digest: Digest, d: Directory, request: Request)
    requires request.SaveRetired? && Visible(d).Some?
    ensures Visible(Execute(digest, d, request, Never).0) != Visible(d) <==>
              IsComplete(request.record) && Owns(Observe(d), Trim(request.record.generationId))
  {
    Linearizable(digest, d, request, Never);
  }

  // ---------- what is saved is what is read ----------

  /** As it was given, with its ids trimmed, and an id made from the payload where there was none. */
  predicate StoredAs(digest: Digest, given: Record, kept: Record) {
    && kept.generation == given.generation && kept.payload == given.payload
    && kept.createdAt == given.createdAt && kept.updatedAt == given.updatedAt
    && kept.generationId == Trim(given.generationId) && IsIdOf(digest, given, kept.id)
  }

  predicate IsIdOf(digest: Digest, given: Record, id: string) {
    if Trim(given.id) != "" then id == Trim(given.id)
    else given.payload.Json? && id == "record-" + digest(given.payload.compact)
  }

  /** A save that succeeds is what readers see next, and touches nothing else. */
  lemma SavedIsRead(digest: Digest, d: Directory, record: Record, fault: Fault)
    requires Execute(digest, d, SaveCurrent(record), fault).1 == Ok
    ensures var d' := Execute(digest, d, SaveCurrent(record), fault).0;
            && Visible(d').Some? && StoredAs(digest, record, Visible(d').value)
            && d'.retired == d.retired && d'.legacy == d.legacy
  {
    Linearizable(digest, d, SaveCurrent(record), fault);
    SaveTouchesCurrent(digest, d, record, fault);
  }

  lemma SaveTouchesCurrent(digest: Digest, d: Directory, record: Record, fault: Fault)
    ensures var d' := Execute(digest, d, SaveCurrent(record), fault).0; d'.retired == d.retired && d'.legacy == d.legacy
  {
    var r := Normalize(digest, record);
    if r.Some? {
      LandOne(d, WriteCurrent(r.value), fault);
    }
  }

  /** An undisturbed save succeeds exactly for a complete record that continues the visible one and is not retired. */
  lemma SaveAcceptedIff(digest: Digest, d: Directory, record: Record)
    ensures Execute(digest, d, SaveCurrent(record), Never).1 == Ok <==>
              && record.payload.Json? && Trim(record.generationId) != "" && Trim(record.generationId) !in d.retired
              && (Visible(d).Some? ==>
                    && Visible(d).value.generationId == Trim(record.generationId)
                    && Visible(d).value.generation == record.generation
                    && IsIdOf(digest, record, Visible(d).value.id))
  {
    Linearizable(digest, d, SaveCurrent(record), Never);
  }

  /** A retired record enters the history once, as it was given, and nothing else changes on disk. */
  lemma RetiredIsRead(digest: Digest, d: Directory, record: Record, reason: string, fault: Fault)
    requires Execute(digest, d, SaveRetired(record, reason), fault).1 == Ok && Trim(record.generationId) !in d.retired
    ensures var d' := Execute(digest, d, SaveRetired(record, reason), fault).0;
            var g := Trim(record.generationId);
            && g in d'.retired && d'.retired == d.retired[g := d'.retired[g]]
            && StoredAs(digest, record, d'.retired[g].record) && d'.retired[g].reason == Trim(reason)
            && d'.current == d.current && d'.legacy == d.legacy
  {
    LandOne(d, WriteManifest(Manifest(Normalize(digest, record).value, Trim(reason))), fault);
  }

  /** A retirement moves the durable record, not the one it was given, into the history, and removes current.json. */
  lemma RetirementMoves(digest: Digest, d: Directory, record: Record, reason: string)
    requires Execute(digest, d, RetireCurrent(record, reason), Never).1 == Ok && Trim(record.generationId) !in d.retired
    ensures var d' := Execute(digest, d, RetireCurrent(record, reason), Never).0;
            && Visible(d).Some? && Visible(d).value.generationId == Trim(record.generationId)
            && d' == d.(current := None,
                        retired := d.retired[Trim(record.generationId) := Manifest(Visible(d).value, Trim(reason))])
  {
    var effects := Decide(digest, d, RetireCurrent(record, reason)).effects;
    assert |effects| == 2 && effects == [effects[0], effects[1]];
    LandTwo(d, effects[0], effects[1], Never);
  }

  // ---------- generation numbers ----------

  predicate UsesNumber(v: View, n: int) {
    (v.current.Some? && v.current.value.generation == n) || exists g :: g in v.retired && v.retired[g].record.generation == n
  }

  /** The number NextGeneration returns: one more than the greatest in use, and at least 1. */
  ghost predicate IsNext(v: View, next: int) {
    && next >= 1
    && (v.current.Some? ==> v.current.value.generation < next)
    && (forall g :: g in v.retired ==> v.retired[g].record.generation < next)
    && (next == 1 || UsesNumber(v, next - 1))
  }

  /** Filing the visible generation is one write: it takes hold unless the fault strikes it before it reaches the disk. */
  lemma SaveRetiredLands(digest: Digest, d: Directory, request: Request, fault: Fault)
    requires request.SaveRetired? && IsComplete(request.record)
    ensures Owns(Observe(d), Trim(request.record.generationId)) ==>
              (Observe(Execute(digest, d, request, fault).0) != Observe(d) <==>
               (fault.At? && fault.step == 0 ==> fault.landed))
  {
    var r := Normalize(digest, request.record).value;
    LandOne(d, WriteManifest(Manifest(r, Trim(request.reason))), fault);
    TrimIdempotent(request.record.generationId);
  }

  /**
   The next number falls exactly when SaveRetired files the visible generation under a lower number
   and that record alone held the highest one; no retirement, save or crash lowers it otherwise.
   */
  lemma NextFallsIff(digest: Digest, d: Directory, request: Request, fault: Fault, next: int, next': int)
    requires IsNext(Observe(d), next)
    requires IsNext(Observe(Execute(digest, d, request, fault).0), next')
    ensures next' < next <==>
            && request.SaveRetired? && IsComplete(request.record)
            && (fault.At? && fault.step == 0 ==> fault.landed)
            && Owns(Observe(d), Trim(request.record.generationId))
            && request.record.generation < Visible(d).value.generation
            && 1 <= Visible(d).value.generation
            && forall g :: g in d.retired ==> d.retired[g].record.generation < Visible(d).value.generation
  {
    Linearizable(digest, d, request, fault);
    var v, v' := Observe(d), Observe(Execute(digest, d, request, fault).0);
    if request.SaveRetired? && IsComplete(request.record) {
      SaveRetiredLands(digest, d, request, fault);
    }
    if v' != v {
      var r := Normalize(digest, request.record).value;
      if request.SaveRetired? {
        assert v'.retired[r.generationId].record == r;
      } else if request.RetireCurrent? {
        assert v'.retired[r.generationId].record == v.current.value;
      }
      assert forall g :: g in v.retired ==> g in v'.retired && v'.retired[g] == v.retired[g];
    }
  }

  /** SaveRetired may lower the next number below one already used: generation 5 filed as 2 makes the next one 3. */
  lemma NextMayFall(digest: Digest)
    ensures var live := Record("run", "gen", 5, "", "", Json("{}"));
            var d := Directory(Some(live), map[], None);
            var (d', outcome) := Execute(digest, d, SaveRetired(live.(generation := 2), ""), Never);
            IsNext(Observe(d), 6) && outcome == Ok && IsNext(Observe(d'), 3)
  {
    var live := Record("run", "gen", 5, "", "", Json("{}"));
    var d := Directory(Some(live), map[], None);
    var request := SaveRetired(live.(generation := 2), "");
    TrimFixed("run");
    TrimFixed("gen");
    Linearizable(digest, d, request, Never);
    assert UsesNumber(Observe(d), 5);
    var v' := Observe(Execute(digest, d, request, Never).0);
    assert v'.retired["gen"].record.generation == 2;
    assert UsesNumber(v', 2);
  }
}
