/**
 The store itself: the locked section of each public operation, run against the
 files of one resource, and the cleanup that sweeps every resource before the
 Workspace marker is stamped. `Perform` is the only way to change a file.
 */
module Store {
  import opened Basics
  import opened GenerationStore
  import opened LegacyCleanup

  class Store {
    const digest: Digest
    var directories: map<string, Directory>
    var stamped: bool

    constructor (digest: Digest)
      ensures this.digest == digest && directories == map[] && !stamped
    {
      this.digest := digest;
      directories := map[];
      stamped := false;
    }

    function Dir(key: string): Directory
      reads this`directories
    {
      FilesOf(directories, key)
    }

    twostate predicate OnlyChanges(key: string)
      reads this
    {
      && stamped == old(stamped)
      && forall k :: k != key ==> Dir(k) == old(Dir(k))
    }

    /** One atomic file effect; reports failure if the fault strikes here, whether or not it reached the disk. */
    method Perform(key: string, e: Effect, fault: Fault) returns (ok: bool, later: Fault)
      modifies this`directories
      ensures OnlyChanges(key)
      ensures ok == !(fault.At? && fault.step == 0)
      ensures Dir(key) == if !ok && !fault.landed then old(Dir(key)) else Apply(old(Dir(key)), e)
      ensures later == Later(fault)
    {
      ok := !(fault.At? && fault.step == 0);
      if ok || fault.landed {
        directories := directories[key := Apply(Dir(key), e)];
      }
      later := Later(fault);
    }

    method SaveCurrent(key: string, record: Record, fault: Fault) returns (outcome: Outcome)
      modifies this`directories
      ensures OnlyChanges(key)
      ensures (Dir(key), outcome) == Execute(digest, old(Dir(key)), GenerationStore.SaveCurrent(record), fault)
    {
      var normal := Normalize(digest, record);
      if normal.None? { return Err(InvalidPayload); }
      var r := normal.value;
      if r.generationId == "" { return Err(MissingGenerationId); }
      var current := Visible(Dir(key));
      if current.Some? && !SameIdentity(current.value, r) { return Err(CurrentConflict); }
      if Lookup(Dir(key), r.generationId).Some? { return Err(Immutable); }
      LandOne(Dir(key), WriteCurrent(r), fault);
      var ok, later := Perform(key, WriteCurrent(r), fault);
      outcome := if ok then Ok else Err(Io);
    }

    method WriteRetired(key: string, r: Record, reason: string, fault: Fault) returns (outcome: Outcome, later: Fault)
      modifies this`directories
      ensures OnlyChanges(key)
      ensures (Dir(key), outcome) == Land(old(Dir(key)), DecideManifest(old(Dir(key)), r, reason), fault)
      ensures later == if DecideManifest(old(Dir(key)), r, reason).effects == [] then fault else Later(fault)
    {
      var existing := Lookup(Dir(key), r.generationId);
      if existing.Some? {
        return (if SameGeneration(existing.value.record, r) then Ok else Err(Immutable)), fault;
      }
      var m := Manifest(r, Trim(reason));
      LandOne(Dir(key), WriteManifest(m), fault);
      var ok;
      ok, later := Perform(key, WriteManifest(m), fault);
      outcome := if ok then Ok else Err(Io);
    }

    method SaveRetired(key: string, record: Record, reason: string, fault: Fault) returns (outcome: Outcome)
      modifies this`directories
      ensures OnlyChanges(key)
      ensures (Dir(key), outcome) == Execute(digest, old(Dir(key)), GenerationStore.SaveRetired(record, reason), fault)
    {
      var normal := Normalize(digest, record);
      if normal.None? { return Err(InvalidPayload); }
      if normal.value.generationId == "" { return Err(MissingGenerationId); }
      var later;
      outcome, later := WriteRetired(key, normal.value, reason, fault);
    }

    method RetireCurrent(key: string, record: Record, reason: string, fault: Fault) returns (outcome: Outcome)
      modifies this`directories
      ensures OnlyChanges(key)
      ensures (Dir(key), outcome) == Execute(digest, old(Dir(key)), GenerationStore.RetireCurrent(record, reason), fault)
    {
      var normal := Normalize(digest, record);
      if normal.None? { return Err(InvalidPayload); }
      var r := normal.value;
      if r.generationId == "" { return Err(MissingGenerationId); }
      TrimIdempotent(record.generationId);
      var current := Visible(Dir(key));
      var manifest := Lookup(Dir(key), r.generationId);
      if manifest.Some? {
        if !SameGeneration(manifest.value.record, r) { return Err(Immutable); }
        if current.Some? {
          // The source removes current.json when it is the same generation; VisibleIsNeverRetired rules that out.
          VisibleIsNeverRetired(Dir(key), r);
          return Err(CurrentConflict);
        }
        return Ok;
      }
      if current.None? { return Err(NotFound); }
      if !SameIdentity(current.value, r) { return Err(CurrentConflict); }
      var m := Manifest(current.value, Trim(reason));
      LandTwo(Dir(key), WriteManifest(m), RemoveCurrent, fault);
      LandOne(Dir(key), WriteManifest(m), fault);
      LandOne(Apply(Dir(key), WriteManifest(m)), RemoveCurrent, Later(fault));
      var written, later := WriteRetired(key, current.value, reason, fault);
      if written.Err? { return written; }
      var ok;
      ok, later := Perform(key, RemoveCurrent, later);
      outcome := if ok then Ok else Err(Io);
    }

    /** The loop over current and manifests; `listing` is the generations directory in any order. */
    method NextGeneration(key: string, listing: seq<string>) returns (next: int)
      requires forall g :: g in listing <==> g in Dir(key).retired
      ensures IsNext(Observe(Dir(key)), next)
    {
      next := 1;
      var current := Visible(Dir(key));
      ghost var v := Observe(Dir(key));
      if current.Some? && current.value.generation >= next {
        next := current.value.generation + 1;
      }
      for i := 0 to |listing|
        invariant next >= 1
        invariant v.current.Some? ==> v.current.value.generation < next
        invariant forall j :: 0 <= j < i ==> v.retired[listing[j]].record.generation < next
        invariant next == 1 || UsesNumber(v, next - 1)
      {
        var record := Dir(key).retired[listing[i]].record;
        if record.generation >= next {
          next := record.generation + 1;
          assert UsesNumber(v, next - 1);
        }
      }
    }

    /** readResourceRecords: the visible current record, then the history in directory order. */
    method ReadRecords(key: string, currentOnly: bool, listing: seq<string>) returns (records: seq<(Record, bool)>)
      requires IsListing(Dir(key), listing)
      ensures records == Listed(Dir(key), currentOnly, listing)
      ensures forall r :: (r, false) in records <==> Visible(Dir(key)) == Some(r)
      ensures forall r :: (r, true) in records <==> !currentOnly && InHistory(Dir(key), r)
      ensures |records| == |CurrentPart(Dir(key))| + if currentOnly then 0 else |Dir(key).retired|
    {
      ghost var d := Dir(key);
      var current := Visible(Dir(key));
      records := if current.Some? then [(current.value, false)] else [];
      if currentOnly {
        assert records + [] == records;
        ListingMeans(d, currentOnly, listing);
        return;
      }
      assert CurrentPart(d) + [] == CurrentPart(d);
      for i := 0 to |listing|
        invariant records == CurrentPart(d) + HistoryPart(d, listing[..i])
      {
        assert listing[..i + 1][..i] == listing[..i];
        records := records + [(Dir(key).retired[listing[i]].record, true)];
      }
      assert listing[..|listing|] == listing;
      ListingMeans(d, currentOnly, listing);
    }

    /** The manifest part of cleanupLegacyFileLocked: primary id first, the fallback id on a conflict. */
    method Migrate(key: string, r: Record, fault: Fault) returns (outcome: Outcome, later: Fault)
      modifies this`directories
      ensures OnlyChanges(key)
      ensures (Dir(key), outcome) == Land(old(Dir(key)), DecideMigration(digest, old(Dir(key)), r), fault)
      ensures outcome == Ok ==> later == AfterAll(DecideMigration(digest, old(Dir(key)), r).effects, fault)
    {
      var p := Primary(digest, r);
      var current := Visible(Dir(key));
      if current.Some? && current.value.generationId == p.generationId { return Ok, fault; }
      ghost var d := Dir(key);
      ghost var first := DecideManifest(d, p, REASON);
      outcome, later := WriteRetired(key, p, REASON, fault);
      assert first.effects != [] ==> AfterAll(first.effects, fault) == Later(fault);
      if outcome != Err(Immutable) { return; }
      assert first.verdict.Err? && Dir(key) == d;
      ghost var second := DecideManifest(d, Fallback(digest, r), REASON);
      assert second.effects != [] ==> AfterAll(second.effects, later) == Later(later);
      outcome, later := WriteRetired(key, Fallback(digest, r), REASON, later);
    }

    /** cleanupLegacyFileLocked for legacy entry `i`. */
    method CleanupFile(key: string, i: nat, fault: Fault) returns (outcome: Outcome, later: Fault)
      requires Dir(key).legacy.Some? && i < |Dir(key).legacy.value| && Dir(key).legacy.value[i].LegacyFile?
      modifies this`directories
      ensures OnlyChanges(key)
      ensures var file := DecideFile(digest, old(Dir(key)), i);
              && (Dir(key), outcome) == Land(old(Dir(key)), file, fault)
              && (outcome == Ok ==> later == AfterAll(file.effects, fault))
    {
      ghost var d := Dir(key);
      ghost var migration := DecideMigration(digest, d, Dir(key).legacy.value[i].record);
      outcome, later := Migrate(key, Dir(key).legacy.value[i].record, fault);
      if migration.verdict.Ok? {
        LandSplit(d, migration.effects, Decision([RemoveLegacy(i)], Ok), fault);
        AfterAllConcat(migration.effects, [RemoveLegacy(i)], fault);
      }
      if outcome.Err? { return; }
      LandOne(Dir(key), RemoveLegacy(i), later);
      assert AfterAll([RemoveLegacy(i)], later) == Later(later);
      var ok;
      ok, later := Perform(key, RemoveLegacy(i), later);
      outcome := if ok then Ok else Err(Io);
    }

    /** cleanupLegacyResourceLocked: every file in directory order, then the directory itself. */
    method CleanupResource(key: string, fault: Fault) returns (outcome: Outcome, later: Fault)
      modifies this`directories
      ensures OnlyChanges(key)
      ensures (Dir(key), outcome) == Land(old(Dir(key)), Plan(digest, old(Dir(key))), fault)
      ensures fault == Never && outcome == Ok ==> later == Never
    {
      later := fault;
      if Dir(key).legacy.None? { return Ok, later; }
      ghost var plan := Land(Dir(key), Plan(digest, Dir(key)), fault);
      var i := 0;
      while i < |Dir(key).legacy.value|
        invariant OnlyChanges(key)
        invariant Dir(key).legacy.Some? && i <= |Dir(key).legacy.value|
        invariant plan == Land(Dir(key), DecideCleanup(digest, Dir(key), i), later)
        invariant fault == Never ==> later == Never
        decreases |Dir(key).legacy.value| - i
      {
        match Dir(key).legacy.value[i] {
          case Foreign =>
            i := i + 1;
          case Unreadable =>
            return Err(UnreadableLegacy), later;
          case LegacyFile(r) =>
            ghost var d := Dir(key);
            if DecideMigration(digest, d, r).verdict.Ok? {
              MigrationApplies(digest, d, i);
              LandSplit(d, DecideFile(digest, d, i).effects, DecideCleanup(digest, Migrated(digest, d, i), i), later);
            }
            NeverAfterAll(DecideFile(digest, d, i).effects);
            outcome, later := CleanupFile(key, i, later);
            if outcome.Err? { return; }
        }
      }
      if |Dir(key).legacy.value| > 0 { return Err(UnmigratedEntries), later; }
      LandOne(Dir(key), RemoveLegacyDir, later);
      var ok;
      ok, later := Perform(key, RemoveLegacyDir, later);
      outcome := if ok then Ok else Err(Io);
    }

    /** cleanupLegacyDirsLocked over the resource directories, then the durable stamp on the marker. */
    method CleanupAll(keys: seq<string>, fault: Fault) returns (outcome: Outcome)
      requires forall k :: k in keys <==> k in directories
      requires forall i, j :: 0 <= i < j < |keys| ==> keys[i] != keys[j]
      modifies this
      ensures outcome == Ok ==> stamped && forall k :: Dir(k).legacy.None?
      ensures fault == Never ==>
                (outcome == Ok <==> forall k :: k in old(directories) ==> Plan(digest, old(directories[k])).verdict == Ok)
      ensures stamped && !old(stamped) ==> forall k :: Dir(k).legacy.None?
      ensures Swept(digest, old(directories), directories)
    {
      hide Plan;
      hide Land;
      hide Swept;
      hide Interrupted;
      var later := fault;
      ghost var start := directories;
      SweptAtOnce(digest, start);
      for i := 0 to |keys|
        invariant stamped == old(stamped)
        invariant fault == Never ==> later == Never
        invariant fault == Never ==> forall j :: 0 <= j < i ==> Plan(digest, FilesOf(start, keys[j])).verdict == Ok
        invariant forall j :: 0 <= j < i ==> Dir(keys[j]).legacy.None?
        invariant Swept(digest, start, directories)
        invariant forall k :: k !in keys[..i] ==> Dir(k) == FilesOf(start, k)
      {
        ghost var before := directories;
        assert keys[i] !in keys[..i];
        NeverLands(Dir(keys[i]), Plan(digest, Dir(keys[i])));
        outcome, later := CleanupResource(keys[i], later);
        LandInterrupts(digest, FilesOf(before, keys[i]), Dir(keys[i]), outcome);
        SweptOneMore(digest, start, before, directories, keys[i]);
        if outcome.Err? { return; }
      }
      forall k ensures Dir(k).legacy.None? {
        if k in keys {
          var j :| 0 <= j < |keys| && keys[j] == k;
        } else {
          assert k !in keys[..|keys|] && FilesOf(start, k) == EMPTY;
        }
      }
      var ok := !(later.At? && later.step == 0);
      if ok || later.landed {
        stamped := true;
      }
      outcome := if ok then Ok else Err(Io);
    }
  }

  // ---------- how the loops follow the plan ----------

  /** `d'` is what a cleanup of `d` leaves when it stops after some of its effects. */
  ghost predicate Interrupted(digest: Digest, d: Directory, d': Directory) {
    exists done :: 0 <= done <= |Plan(digest, d).effects| && d' == ApplyAll(d, Plan(digest, d).effects[..done])
  }

  lemma InterruptedAtOnce(digest: Digest, d: Directory)
    ensures Interrupted(digest, d, d)
  {
    assert d == ApplyAll(d, Plan(digest, d).effects[..0]);
  }

  /** The generations directory: each name once, in any order. */
  ghost predicate IsListing(d: Directory, listing: seq<string>) {
    && (forall g :: g in listing <==> g in d.retired)
    && forall i, j :: 0 <= i < j < |listing| ==> listing[i] != listing[j]
  }

  function CurrentPart(d: Directory): seq<(Record, bool)> {
    if Visible(d).Some? then [(Visible(d).value, false)] else []
  }

  /** One entry a manifest, marked retired. */
  function HistoryPart(d: Directory, listing: seq<string>): (h: seq<(Record, bool)>)
    requires forall g :: g in listing ==> g in d.retired
    ensures |h| == |listing|
  {
    if listing == [] then []
    else HistoryPart(d, listing[..|listing| - 1]) + [(d.retired[listing[|listing| - 1]].record, true)]
  }

  lemma {:induction false} HistoryAt(d: Directory, listing: seq<string>, j: nat)
    requires (forall g :: g in listing ==> g in d.retired) && j < |listing|
    ensures HistoryPart(d, listing)[j] == (d.retired[listing[j]].record, true)
  {
    if j < |listing| - 1 {
      HistoryAt(d, listing[..|listing| - 1], j);
    }
  }

  ghost predicate InHistory(d: Directory, r: Record) { exists g :: g in d.retired && d.retired[g].record == r }

  lemma HistoryIsComplete(d: Directory, listing: seq<string>)
    requires IsListing(d, listing)
    ensures |HistoryPart(d, listing)| == |d.retired|
    ensures forall r :: (r, true) in HistoryPart(d, listing) <==> InHistory(d, r)
    ensures forall r :: (r, false) !in HistoryPart(d, listing)
  {
    DistinctNames(listing, d.retired.Keys);
    var h := HistoryPart(d, listing);
    forall j | 0 <= j < |h| ensures h[j] == (d.retired[listing[j]].record, true) {
      HistoryAt(d, listing, j);
    }
    forall r | InHistory(d, r) ensures (r, true) in h {
      var g :| g in d.retired && d.retired[g].record == r;
      var j :| 0 <= j < |listing| && listing[j] == g;
      assert h[j] == (r, true);
    }
  }

  ghost function Listed(d: Directory, currentOnly: bool, listing: seq<string>): seq<(Record, bool)>
    requires forall g :: g in listing <==> g in d.retired
  {
    CurrentPart(d) + if currentOnly then [] else HistoryPart(d, listing)
  }

  lemma ListingMeans(d: Directory, currentOnly: bool, listing: seq<string>)
    requires IsListing(d, listing)
    ensures var records := Listed(d, currentOnly, listing);
            && (forall r :: (r, false) in records <==> Visible(d) == Some(r))
            && (forall r :: (r, true) in records <==> !currentOnly && InHistory(d, r))
            && |records| == |CurrentPart(d)| + if currentOnly then 0 else |d.retired|
  {
    HistoryIsComplete(d, listing);
  }

  lemma {:induction false} DistinctNames(listing: seq<string>, names: set<string>)
    requires forall i, j :: 0 <= i < j < |listing| ==> listing[i] != listing[j]
    requires forall g :: g in listing <==> g in names
    ensures |listing| == |names|
  {
    if listing != [] {
      var front, last := listing[..|listing| - 1], listing[|listing| - 1];
      assert listing == front + [last];
      DistinctNames(front, names - {last});
    }
  }

  function FilesOf(directories: map<string, Directory>, key: string): Directory {
    if key in directories then directories[key] else EMPTY
  }

  /** Every resource is somewhere between untouched and cleaned up. */
  ghost predicate Swept(digest: Digest, start: map<string, Directory>, now: map<string, Directory>) {
    forall k :: Interrupted(digest, FilesOf(start, k), FilesOf(now, k))
  }

  lemma SweptAtOnce(digest: Digest, start: map<string, Directory>)
    ensures Swept(digest, start, start)
  {
    forall k ensures Interrupted(digest, FilesOf(start, k), FilesOf(start, k)) {
      InterruptedAtOnce(digest, FilesOf(start, k));
    }
  }

  lemma SweptOneMore(digest: Digest, start: map<string, Directory>, before: map<string, Directory>,
                     now: map<string, Directory>, key: string)
    requires Swept(digest, start, before) && FilesOf(before, key) == FilesOf(start, key)
    requires Interrupted(digest, FilesOf(before, key), FilesOf(now, key))
    requires forall k :: k != key ==> FilesOf(now, k) == FilesOf(before, k)
    ensures Swept(digest, start, now)
  {
  }

  lemma LandInterrupts(digest: Digest, d: Directory, d': Directory, outcome: Outcome)
    requires exists fault :: (d', outcome) == Land(d, Plan(digest, d), fault)
    ensures Interrupted(digest, d, d')
    ensures outcome == Ok ==> d'.legacy.None?
  {
    var fault :| (d', outcome) == Land(d, Plan(digest, d), fault);
    var done := LandIsPrefix(d, Plan(digest, d), fault);
    if d.legacy.Some? && outcome == Ok {
      CleanupFinishes(digest, d, 0);
      assert Plan(digest, d).effects[..done] == Plan(digest, d).effects;
    }
  }

  /** Landing a list of effects is landing its front and, unless that failed, its rest. */
  lemma {:induction false} LandSplit(d: Directory, a: seq<Effect>, b: Decision, fault: Fault)
    ensures var whole := Land(d, b.(effects := a + b.effects), fault);
            var front := Land(d, Decision(a, Ok), fault);
            whole == if front.1 == Ok then Land(ApplyAll(d, a), b, AfterAll(a, fault)) else front
    ensures Land(d, Decision(a, Ok), fault).1 == Ok ==> Land(d, Decision(a, Ok), fault).0 == ApplyAll(d, a)
    decreases |a|
  {
    if a == [] {
      assert a + b.effects == b.effects;
    } else {
      assert (a + b.effects)[1..] == a[1..] + b.effects;
      LandSplit(Apply(d, a[0]), a[1..], b, Later(fault));
    }
  }

  /** The fault left over after `effects` were attempted without a failure. */
  function AfterAll(effects: seq<Effect>, fault: Fault): Fault
    decreases |effects|
  {
    if effects == [] then fault else AfterAll(effects[1..], Later(fault))
  }

  lemma {:induction false} NeverAfterAll(effects: seq<Effect>)
    ensures AfterAll(effects, Never) == Never
  {
    if effects != [] {
      NeverAfterAll(effects[1..]);
    }
  }

  /** Undisturbed, an operation ends with its verdict. */
  lemma {:induction false} NeverLands(d: Directory, decision: Decision)
    ensures Land(d, decision, Never).1 == decision.verdict
    decreases |decision.effects|
  {
    if decision.effects != [] {
      NeverLands(Apply(d, decision.effects[0]), decision.(effects := decision.effects[1..]));
    }
  }

  lemma {:induction false} AfterAllConcat(a: seq<Effect>, b: seq<Effect>, fault: Fault)
    ensures AfterAll(a + b, fault) == AfterAll(b, AfterAll(a, fault))
    decreases |a|
  {
    if a == [] {
      assert a + b == b;
    } else {
      assert (a + b)[1..] == a[1..] + b;
      AfterAllConcat(a[1..], b, Later(fault));
    }
  }

  function DecideFile(digest: Digest, d: Directory, i: nat): Decision
    requires d.legacy.Some? && i < |d.legacy.value| && d.legacy.value[i].LegacyFile?
  {
    var migration := DecideMigration(digest, d, d.legacy.value[i].record);
    if migration.verdict.Err? then migration
    else migration.(effects := migration.effects + [RemoveLegacy(i)])
  }

  // ---------- the caller's retirement (internal/serve/generation_store.go) ----------

  /** The caller's record; its whole JSON encoding, retirement reason included, is the payload of the store record. */
  datatype ServeRecord = ServeRecord(
    id: string,
    generationId: string,
    generation: int,
    createdAt: string,
    updatedAt: string,
    retireReason: string,
    body: string)

  type Encoding = ServeRecord -> string

  function ToStoreRecord(encode: Encoding, s: ServeRecord): Record {
    Record(s.id, s.generationId, s.generation, s.createdAt, s.updatedAt, Json(encode(s)))
  }

  function WithReason(s: ServeRecord, reason: string): ServeRecord {
    if Trim(reason) != "" then s.(retireReason := Trim(reason)) else s
  }

  /** A generation that is saved is read back field by field, its payload encoded. */
  lemma SavedGenerationIsRead(digest: Digest, encode: Encoding, d: Directory, s: ServeRecord, fault: Fault)
    requires Execute(digest, d, GenerationStore.SaveCurrent(ToStoreRecord(encode, s)), fault).1 == Ok
    ensures var d' := Execute(digest, d, GenerationStore.SaveCurrent(ToStoreRecord(encode, s)), fault).0;
            && Visible(d').Some?
            && var kept := Visible(d').value;
               && kept.generationId == Trim(s.generationId) && kept.generation == s.generation
               && kept.createdAt == s.createdAt && kept.updatedAt == s.updatedAt && kept.payload == Json(encode(s))
               && (Trim(s.id) != "" ==> kept.id == Trim(s.id))
  {
    SavedIsRead(digest, d, ToStoreRecord(encode, s), fault);
  }

  class GenerationRuntime {
    const store: Store
    const key: string
    const encode: Encoding
    var record: ServeRecord
    var retired: bool

    constructor (store: Store, key: string, encode: Encoding, record: ServeRecord)
      ensures this.store == store && this.key == key && this.encode == encode && this.record == record && !retired
    {
      this.store, this.key, this.encode, this.record, retired := store, key, encode, record, false;
    }

    /** retireStoredGeneration: the in-memory record is marked retired only after the store retired it. */
    method RetireStored(reason: string, fault: Fault) returns (outcome: Outcome)
      modifies this`record, this`retired, store`directories
      ensures store.OnlyChanges(key)
      ensures var skip := old(retired) || Trim(old(record).generationId) == "";
              var request := GenerationStore.RetireCurrent(
                ToStoreRecord(encode, WithReason(old(record), reason)), WithReason(old(record), reason).retireReason);
              && (store.Dir(key), outcome) ==
                   (if skip then (old(store.Dir(key)), Ok) else Execute(store.digest, old(store.Dir(key)), request, fault))
              && retired == (old(retired) || (!skip && outcome == Ok))
              && record == (if !skip && outcome == Ok then WithReason(old(record), reason) else old(record))
    {
      if Trim(record.generationId) == "" || retired { return Ok; }
      var marked := WithReason(record, reason);
      outcome := store.RetireCurrent(key, ToStoreRecord(encode, marked), marked.retireReason, fault);
      if outcome.Err? { return; }
      record := marked;
      retired := true;
    }
  }

  /**
   The manifest holds the durable payload, but a retry encodes the record with the reason added: after a failure
   behind the manifest write the same call succeeds exactly when the reason adds nothing to the durable record.
   */
  lemma RetirementRetrySucceedsIff(
      digest: Digest, encode: Encoding, d: Directory, s: ServeRecord, reason: string, fault: Fault)
    requires forall a, b :: encode(a) == encode(b) ==> a == b
    requires Trim(s.generationId) == s.generationId != "" && Trim(s.id) == s.id != ""
    requires Visible(d) == Some(ToStoreRecord(encode, s))
    requires fault == At(0, true) || (fault.At? && fault.step == 1)
    ensures var marked := WithReason(s, reason);
            var request := GenerationStore.RetireCurrent(ToStoreRecord(encode, marked), marked.retireReason);
            var (d1, first) := Execute(digest, d, request, fault);
            && first == Err(Io) && s.generationId in d1.retired
            && (Execute(digest, d1, request, Never).1 == Ok <==> Trim(reason) == "" || Trim(reason) == s.retireReason)
  {
    var marked := WithReason(s, reason);
    var r := ToStoreRecord(encode, marked);
    var request := GenerationStore.RetireCurrent(r, marked.retireReason);
    var m := Manifest(ToStoreRecord(encode, s), Trim(marked.retireReason));
    assert Normalize(digest, r) == Some(r);
    assert Decide(digest, d, request) == Decision([WriteManifest(m), RemoveCurrent], Ok);
    LandTwo(d, WriteManifest(m), RemoveCurrent, fault);
    LandOne(Apply(d, WriteManifest(m)), RemoveCurrent, Later(fault));
    RetrySucceedsIff(digest, Execute(digest, d, request, fault).0, request, Never);
  }

  /** A run without a reason on record is retired as done, and current.json cannot be removed: the retry is refused. */
  lemma RetirementRetryMayFail(digest: Digest, encode: Encoding)
    requires forall a, b :: encode(a) == encode(b) ==> a == b
    ensures var s := ServeRecord("run", "gen", 1, "", "", "", "");
            var d := Directory(Some(ToStoreRecord(encode, s)), map[], None);
            var marked := WithReason(s, "done");
            var request := GenerationStore.RetireCurrent(ToStoreRecord(encode, marked), marked.retireReason);
            var (d1, first) := Execute(digest, d, request, Fault.At(1, false));
            first == Err(Io) && Execute(digest, d1, request, Never).1 != Ok
  {
    var s := ServeRecord("run", "gen", 1, "", "", "", "");
    var d := Directory(Some(ToStoreRecord(encode, s)), map[], None);
    TrimFixed("run");
    TrimFixed("gen");
    TrimFixed("done");
    RetirementRetrySucceedsIff(digest, encode, d, s, "done", Fault.At(1, false));
  }
}
