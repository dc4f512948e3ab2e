/**
 The one-shot migration of legacy records into retired manifests
 (internal/generation/legacy_cleanup.go).

 The cleanup of one resource is again a list of file effects: for each legacy
 file at most one manifest write, then the removal of the file, and at last the
 removal of the empty directory. An interruption leaves some prefix of that list
 on disk, and the next start plans again from whatever is there.
 */
module LegacyCleanup {
  import opened Basics
  import opened GenerationStore

  const REASON := "legacy_record_migration"

  /** The record a legacy file becomes, under its own or a derived generation id. */
  function Primary(digest: Digest, r: Record): Record {
    var compact := if r.payload.Json? then r.payload.compact else "";
    var id := if Trim(r.id) == "" then "legacy-" + digest(compact) else Trim(r.id);
    r.(id := id, generationId := if Trim(r.generationId) == "" then "gen-" + id else Trim(r.generationId))
  }

  /** The same record under the alternate id used when another manifest owns the first one. */
  function Fallback(digest: Digest, r: Record): Record {
    var p := Primary(digest, r);
    var compact := if r.payload.Json? then r.payload.compact else "";
    p.(generationId := "gen-legacy-" + p.id + "-" + digest(compact))
  }

  predicate DuplicatesCurrent(digest: Digest, d: Directory, r: Record) {
    Visible(d).Some? && Visible(d).value.generationId == Primary(digest, r).generationId
  }

  /** The manifest a legacy record needs before its file may go; none for a duplicate of the visible record. */
  function DecideMigration(digest: Digest, d: Directory, r: Record): (decision: Decision)
    ensures decision.verdict.Err? ==> decision == Refuse(Immutable)
    ensures |decision.effects| <= 1
    ensures decision.effects != [] ==>
              decision.effects[0] == WriteManifest(Manifest(Primary(digest, r), Trim(REASON))) ||
              decision.effects[0] == WriteManifest(Manifest(Fallback(digest, r), Trim(REASON)))
  {
    if DuplicatesCurrent(digest, d, r) then Decision([], Ok) else
    var first := DecideManifest(d, Primary(digest, r), REASON);
    if first.verdict.Ok? then first else DecideManifest(d, Fallback(digest, r), REASON)
  }

  /** The whole cleanup of one resource, from legacy entry `i` on. */
  function DecideCleanup(digest: Digest, d: Directory, i: nat): (decision: Decision)
    requires d.legacy.Some? && i <= |d.legacy.value|
    decreases |d.legacy.value| - i
  {
    var entries := d.legacy.value;
    if i == |entries| then
      if entries != [] then Refuse(UnmigratedEntries) else Decision([RemoveLegacyDir], Ok)
    else match entries[i]
      case Foreign => DecideCleanup(digest, d, i + 1)
      case Unreadable => Refuse(UnreadableLegacy)
      case LegacyFile(r) =>
        var migration := DecideMigration(digest, d, r);
        if migration.verdict.Err? then migration else
        var rest := DecideCleanup(digest, Migrated(digest, d, i), i);
        rest.(effects := migration.effects + [RemoveLegacy(i)] + rest.effects)
  }

  function WithManifest(digest: Digest, d: Directory, r: Record): (d': Directory)
    ensures d'.legacy == d.legacy && d'.current == d.current
  {
    var migration := DecideMigration(digest, d, r);
    if migration.effects == [] then d else Apply(d, migration.effects[0])
  }

  /** The directory once legacy file `i` is done. */
  function Migrated(digest: Digest, d: Directory, i: nat): (d': Directory)
    requires d.legacy.Some? && i < |d.legacy.value| && d.legacy.value[i].LegacyFile?
    ensures d'.legacy == Some(d.legacy.value[..i] + d.legacy.value[i + 1..])
    ensures |d'.legacy.value| == |d.legacy.value| - 1
  {
    Apply(WithManifest(digest, d, d.legacy.value[i].record), RemoveLegacy(i))
  }

  function Plan(digest: Digest, d: Directory): Decision {
    if d.legacy.None? then Decision([], Ok) else DecideCleanup(digest, d, 0)
  }

  // ---------- applying effects ----------

  lemma ApplyAllConcat(d: Directory, a: seq<Effect>, b: seq<Effect>)
    ensures ApplyAll(d, a + b) == ApplyAll(ApplyAll(d, a), b)
    decreases |a|
  {
    if a == [] {
      assert a + b == b;
    } else {
      assert (a + b)[1..] == a[1..] + b;
      ApplyAllConcat(Apply(d, a[0]), a[1..], b);
    }
  }

  lemma MigrationApplies(digest: Digest, d: Directory, i: nat)
    requires d.legacy.Some? && i < |d.legacy.value| && d.legacy.value[i].LegacyFile?
    ensures var effects := DecideMigration(digest, d, d.legacy.value[i].record).effects;
            && ApplyAll(d, effects) == WithManifest(digest, d, d.legacy.value[i].record)
            && ApplyAll(d, effects + [RemoveLegacy(i)]) == Migrated(digest, d, i)
  {
    var effects := DecideMigration(digest, d, d.legacy.value[i].record).effects;
    ApplyAllConcat(d, effects, [RemoveLegacy(i)]);
    assert [RemoveLegacy(i)][1..] == [];
    if effects != [] {
      assert effects == [effects[0]] && effects[1..] == [];
    }
  }

  /** The effects of one file, then those of the rest: a prefix ends in the first part or in the second. */
  lemma ApplyPrefix(d: Directory, file: seq<Effect>, rest: seq<Effect>, k: nat)
    requires k <= |file + rest|
    ensures k <= |file| ==> ApplyAll(d, (file + rest)[..k]) == ApplyAll(d, file[..k])
    ensures k >= |file| ==> ApplyAll(d, (file + rest)[..k]) == ApplyAll(ApplyAll(d, file), rest[..k - |file|])
  {
    if k <= |file| {
      assert (file + rest)[..k] == file[..k];
    }
    if k >= |file| {
      assert (file + rest)[..k] == file + rest[..k - |file|];
      ApplyAllConcat(d, file, rest[..k - |file|]);
    }
  }

  /** Where an interruption after `k` effects falls: before, inside or after the work on the first legacy file. */
  lemma SplitPrefix(digest: Digest, d: Directory, i: nat, k: nat)
    requires d.legacy.Some? && i < |d.legacy.value| && d.legacy.value[i].LegacyFile?
    requires DecideMigration(digest, d, d.legacy.value[i].record).verdict.Ok?
    requires k <= |DecideCleanup(digest, d, i).effects|
    ensures var effects := DecideMigration(digest, d, d.legacy.value[i].record).effects;
            var stopped := ApplyAll(d, DecideCleanup(digest, d, i).effects[..k]);
            if k <= |effects| then stopped == d || stopped == WithManifest(digest, d, d.legacy.value[i].record)
            else
              var next := Migrated(digest, d, i);
              var rest := DecideCleanup(digest, next, i).effects;
              k - |effects| - 1 <= |rest| && stopped == ApplyAll(next, rest[..k - |effects| - 1])
  {
    var effects := DecideMigration(digest, d, d.legacy.value[i].record).effects;
    var file := effects + [RemoveLegacy(i)];
    MigrationApplies(digest, d, i);
    ApplyPrefix(d, file, DecideCleanup(digest, Migrated(digest, d, i), i).effects, k);
    if k <= |effects| {
      assert k == |effects| ==> file[..k] == effects;
      assert k == 0 ==> file[..k] == [];
    }
  }

  // ---------- an interrupted cleanup converges ----------

  /** Entries the cleanup skips do not matter: planning again from the start is planning from the stop. */
  lemma SkipForeign(digest: Digest, d: Directory, i: nat)
    requires d.legacy.Some? && i <= |d.legacy.value|
    requires forall j :: 0 <= j < i ==> d.legacy.value[j].Foreign?
    ensures DecideCleanup(digest, d, 0) == DecideCleanup(digest, d, i)
  {
    if i > 0 {
      SkipForeign(digest, d, i - 1);
    }
  }

  /** A manifest whose legacy file survived the crash is recognized: only the removal is planned again. */
  lemma ManifestIsRecognized(digest: Digest, d: Directory, i: nat)
    requires d.legacy.Some? && i < |d.legacy.value| && d.legacy.value[i].LegacyFile?
    requires DecideMigration(digest, d, d.legacy.value[i].record).verdict.Ok?
    ensures var d1 := WithManifest(digest, d, d.legacy.value[i].record);
            && DecideMigration(digest, d1, d.legacy.value[i].record) == Decision([], Ok)
            && Migrated(digest, d1, i) == Migrated(digest, d, i)
  {
    var r := d.legacy.value[i].record;
    var migration := DecideMigration(digest, d, r);
    var d1 := WithManifest(digest, d, r);
    if migration.effects != [] {
      assert Primary(digest, r).generationId != "" && Fallback(digest, r).generationId != "";
      assert Visible(d1) == None || Visible(d1) == Visible(d);
    }
  }

  /** The plan for a file that migrates: its own effects, then the plan for the directory without it. */
  lemma CleanupOfFile(digest: Digest, d: Directory, i: nat)
    requires d.legacy.Some? && i < |d.legacy.value| && d.legacy.value[i].LegacyFile?
    requires DecideMigration(digest, d, d.legacy.value[i].record).verdict.Ok?
    ensures var decision := DecideCleanup(digest, d, i);
            var rest := DecideCleanup(digest, Migrated(digest, d, i), i);
            && ApplyAll(d, decision.effects) == ApplyAll(Migrated(digest, d, i), rest.effects)
            && decision.verdict == rest.verdict
  {
    var effects := DecideMigration(digest, d, d.legacy.value[i].record).effects;
    MigrationApplies(digest, d, i);
    ApplyAllConcat(d, effects + [RemoveLegacy(i)], DecideCleanup(digest, Migrated(digest, d, i), i).effects);
  }

  /** A stop before the file is removed: its manifest may be there or not, the next run ends the same way. */
  lemma StoppedBeforeRemoval(digest: Digest, d: Directory, i: nat, stopped: Directory)
    requires d.legacy.Some? && i < |d.legacy.value| && d.legacy.value[i].LegacyFile?
    requires forall j :: 0 <= j < i ==> d.legacy.value[j].Foreign?
    requires DecideMigration(digest, d, d.legacy.value[i].record).verdict.Ok?
    requires stopped == d || stopped == WithManifest(digest, d, d.legacy.value[i].record)
    ensures var decision := DecideCleanup(digest, d, i);
            && ApplyAll(stopped, Plan(digest, stopped).effects) == ApplyAll(d, decision.effects)
            && Plan(digest, stopped).verdict == decision.verdict
  {
    CleanupOfFile(digest, d, i);
    SkipForeign(digest, stopped, i);
    if stopped != d {
      ManifestIsRecognized(digest, d, i);
      CleanupOfFile(digest, stopped, i);
    }
  }

  /** Stop the cleanup after any `k` of its effects and run it again: same files, same verdict as without the stop. */
  lemma {:induction false} CleanupConverges(digest: Digest, d: Directory, i: nat, k: nat)
    requires d.legacy.Some? && i <= |d.legacy.value|
    requires forall j :: 0 <= j < i ==> d.legacy.value[j].Foreign?
    requires k <= |DecideCleanup(digest, d, i).effects|
    ensures var decision := DecideCleanup(digest, d, i);
            var stopped := ApplyAll(d, decision.effects[..k]);
            && ApplyAll(stopped, Plan(digest, stopped).effects) == ApplyAll(d, decision.effects)
            && Plan(digest, stopped).verdict == decision.verdict
    decreases |d.legacy.value| - i
  {
    var decision := DecideCleanup(digest, d, i);
    var entries := d.legacy.value;
    if i < |entries| && entries[i].LegacyFile? && DecideMigration(digest, d, entries[i].record).verdict.Ok? {
      var effects := DecideMigration(digest, d, entries[i].record).effects;
      var stopped := ApplyAll(d, decision.effects[..k]);
      SplitPrefix(digest, d, i, k);
      if k > |effects| {
        CleanupOfFile(digest, d, i);
        CleanupConverges(digest, Migrated(digest, d, i), i, k - |effects| - 1);
      } else {
        StoppedBeforeRemoval(digest, d, i, stopped);
      }
    } else if i < |entries| && entries[i].Foreign? {
      CleanupConverges(digest, d, i + 1, k);
    } else {
      SkipForeign(digest, d, i);
      assert k == 0 ==> decision.effects[..k] == [];
      assert k > 0 ==> decision.effects[..k] == decision.effects;
    }
  }

  // ---------- no record is lost ----------

  /**
   The record `kept` under the generation id `g` is the legacy record `r`: with its number and payload, its id unless
   that is blank, and its generation id, the one made from its id, or the fallback.
   */
  predicate Preserves(digest: Digest, r: Record, g: string, kept: Record) {
    && kept.generation == r.generation && kept.payload == r.payload
    && (Trim(r.id) != "" ==> kept.id == Trim(r.id))
    && (Trim(r.id) == "" ==> kept.id == "legacy-" + digest(if r.payload.Json? then r.payload.compact else ""))
    && (|| (Trim(r.generationId) != "" && g == Trim(r.generationId))
        || (Trim(r.generationId) == "" && g == "gen-" + kept.id)
        || g == "gen-legacy-" + kept.id + "-" + digest(if r.payload.Json? then r.payload.compact else ""))
  }

  /** The legacy record is in the history. */
  ghost predicate Archived(digest: Digest, d: Directory, r: Record) {
    exists g :: g in d.retired && Preserves(digest, r, g, d.retired[g].record)
  }

  /** The visible record has the generation id of the legacy record, or the one made from its id. */
  predicate IsDuplicate(digest: Digest, d: Directory, r: Record) {
    && Visible(d).Some?
    && var g := Visible(d).value.generationId;
       if Trim(r.generationId) != "" then g == Trim(r.generationId)
       else if Trim(r.id) != "" then g == "gen-" + Trim(r.id)
       else g == "gen-" + ("legacy-" + digest(if r.payload.Json? then r.payload.compact else ""))
  }

  lemma DuplicatesAlike(digest: Digest, d: Directory, r: Record)
    ensures DuplicatesCurrent(digest, d, r) <==> IsDuplicate(digest, d, r)
  {
  }

  lemma FiledIsArchived(digest: Digest, d: Directory, r: Record)
    requires Files(d, Primary(digest, r)) || Files(d, Fallback(digest, r))
    ensures Archived(digest, d, r)
  {
    var p := if Files(d, Primary(digest, r)) then Primary(digest, r) else Fallback(digest, r);
    assert Preserves(digest, r, p.generationId, d.retired[p.generationId].record);
  }

  lemma StaysArchived(digest: Digest, d: Directory, d': Directory, r: Record)
    requires Archived(digest, d, r) && Grows(d, d')
    ensures Archived(digest, d', r)
  {
    var g :| g in d.retired && Preserves(digest, r, g, d.retired[g].record);
    assert g in d'.retired && Preserves(digest, r, g, d'.retired[g].record);
  }

  predicate Files(d: Directory, p: Record) {
    p.generationId in d.retired && SameGeneration(d.retired[p.generationId].record, p)
  }

  predicate Grows(d: Directory, d': Directory) {
    forall g :: g in d.retired ==> g in d'.retired && d'.retired[g] == d.retired[g]
  }

  /** Writing a manifest where there was none. */
  lemma ManifestIsSafe(d: Directory, p: Record)
    requires p.generationId != ""
    ensures var decision := DecideManifest(d, p, REASON);
            var d1 := if decision.effects == [] then d else Apply(d, decision.effects[0]);
            && Grows(d, d1)
            && (Visible(d1) == None || Visible(d1) == Visible(d))
            && (decision.verdict.Ok? ==> Files(d1, p))
  {
  }

  /** Migrating a file only adds a manifest, never overwrites one, and never shows a record that was not visible. */
  lemma MigrationIsSafe(digest: Digest, d: Directory, r: Record)
    ensures var d1 := WithManifest(digest, d, r);
            && Grows(d, d1)
            && (Visible(d1) == None || Visible(d1) == Visible(d))
            && (DecideMigration(digest, d, r).verdict.Ok? ==> IsDuplicate(digest, d, r) || Archived(digest, d1, r))
  {
    assert Primary(digest, r).generationId != "" && Fallback(digest, r).generationId != "";
    ManifestIsSafe(d, Primary(digest, r));
    ManifestIsSafe(d, Fallback(digest, r));
    DuplicatesAlike(digest, d, r);
    var d1 := WithManifest(digest, d, r);
    if DecideMigration(digest, d, r).verdict.Ok? && !DuplicatesCurrent(digest, d, r) {
      FiledIsArchived(digest, d1, r);
    }
  }

  /** The manifest a migration adds is the legacy record, its times included, marked as migrated. */
  lemma MigrationFiles(digest: Digest, d: Directory, r: Record, g: string)
    requires g in WithManifest(digest, d, r).retired && g !in d.retired
    ensures var manifest := WithManifest(digest, d, r).retired[g];
            && Preserves(digest, r, g, manifest.record) && manifest.record.generationId == g
            && manifest.record.createdAt == r.createdAt && manifest.record.updatedAt == r.updatedAt
            && manifest.reason == "legacy_record_migration"
  {
    assert Trim(REASON) == REASON by {
      TrimFixed(REASON);
    }
  }

  lemma OthersStay(entries: seq<LegacyEntry>, i: nat, e: LegacyEntry)
    requires i < |entries| && e in entries && entries[i] != e
    ensures e in entries[..i] + entries[i + 1..]
  {
    var j :| 0 <= j < |entries| && entries[j] == e;
    assert (entries[..i] + entries[i + 1..])[if j < i then j else j - 1] == e;
  }

  ghost predicate Keeps(digest: Digest, d: Directory, stopped: Directory, r: Record) {
    && Grows(d, stopped)
    && (Visible(stopped) == None || Visible(stopped) == Visible(d))
    && (d.legacy.Some? && LegacyFile(r) in d.legacy.value ==>
          || (stopped.legacy.Some? && LegacyFile(r) in stopped.legacy.value)
          || Archived(digest, stopped, r)
          || IsDuplicate(digest, d, r))
  }

  /** Once a record is safe its file may go. */
  lemma RemovalKeeps(digest: Digest, d: Directory, d1: Directory, i: nat, r: Record)
    requires d.legacy.Some? && i < |d.legacy.value| && d.legacy.value[i].LegacyFile? && d1.legacy == d.legacy
    requires Grows(d, d1) && (Visible(d1) == None || Visible(d1) == Visible(d))
    requires IsDuplicate(digest, d, d.legacy.value[i].record) || Archived(digest, d1, d.legacy.value[i].record)
    ensures Keeps(digest, d, Apply(d1, RemoveLegacy(i)), r)
  {
    if LegacyFile(r) in d.legacy.value && d.legacy.value[i] != LegacyFile(r) {
      OthersStay(d.legacy.value, i, LegacyFile(r));
    }
  }

  lemma MigratedKeeps(digest: Digest, d: Directory, i: nat, r: Record)
    requires d.legacy.Some? && i < |d.legacy.value| && d.legacy.value[i].LegacyFile?
    requires DecideMigration(digest, d, d.legacy.value[i].record).verdict.Ok?
    ensures Keeps(digest, d, Migrated(digest, d, i), r)
  {
    MigrationIsSafe(digest, d, d.legacy.value[i].record);
    RemovalKeeps(digest, d, WithManifest(digest, d, d.legacy.value[i].record), i, r);
  }

  lemma KeepsIsTransitive(digest: Digest, a: Directory, b: Directory, c: Directory, r: Record)
    requires Keeps(digest, a, b, r) && Keeps(digest, b, c, r)
    ensures Keeps(digest, a, c, r)
  {
    if Archived(digest, b, r) {
      StaysArchived(digest, b, c, r);
    }
  }

  /** The cleanup goes no further at entry `i`: it is at the end, or refuses the entry. */
  predicate EndsAt(digest: Digest, d: Directory, i: nat)
    requires d.legacy.Some? && i <= |d.legacy.value|
  {
    || i == |d.legacy.value|
    || d.legacy.value[i].Unreadable?
    || (d.legacy.value[i].LegacyFile? && DecideMigration(digest, d, d.legacy.value[i].record).verdict.Err?)
  }

  lemma EndsWithDirectory(digest: Digest, d: Directory, i: nat, k: nat)
    requires d.legacy.Some? && i <= |d.legacy.value| && EndsAt(digest, d, i)
    requires k <= |DecideCleanup(digest, d, i).effects|
    ensures var stopped := ApplyAll(d, DecideCleanup(digest, d, i).effects[..k]);
            stopped == d || (d.legacy.value == [] && stopped == d.(legacy := None))
  {
    var effects := DecideCleanup(digest, d, i).effects;
    assert effects == [] || effects == [RemoveLegacyDir];
    assert [RemoveLegacyDir][1..] == [];
    assert effects[..k] == [] || effects[..k] == [RemoveLegacyDir];
  }

  lemma StoppedInFileKeeps(digest: Digest, d: Directory, q: Record, stopped: Directory, r: Record)
    requires stopped == d || stopped == WithManifest(digest, d, q)
    ensures Keeps(digest, d, stopped, r)
  {
    MigrationIsSafe(digest, d, q);
  }

  lemma LaterStopKeeps(digest: Digest, d: Directory, i: nat, stopped: Directory, r: Record)
    requires d.legacy.Some? && i < |d.legacy.value| && d.legacy.value[i].LegacyFile?
    requires DecideMigration(digest, d, d.legacy.value[i].record).verdict.Ok?
    requires Keeps(digest, Migrated(digest, d, i), stopped, r)
    ensures Keeps(digest, d, stopped, r)
  {
    MigratedKeeps(digest, d, i, r);
    KeepsIsTransitive(digest, d, Migrated(digest, d, i), stopped, r);
  }

  lemma EndKeeps(digest: Digest, d: Directory, stopped: Directory, r: Record)
    requires stopped == d || (d.legacy == Some([]) && stopped == d.(legacy := None))
    ensures Keeps(digest, d, stopped, r)
  {
  }

  /** A cleanup stopped after any of its effects has lost no record. */
  lemma {:induction false} CleanupLosesNothing(digest: Digest, d: Directory, i: nat, k: nat, r: Record)
    requires d.legacy.Some? && i <= |d.legacy.value|
    requires k <= |DecideCleanup(digest, d, i).effects|
    ensures Keeps(digest, d, ApplyAll(d, DecideCleanup(digest, d, i).effects[..k]), r)
    decreases |d.legacy.value| - i
  {
    hide Keeps;
    var stopped := ApplyAll(d, DecideCleanup(digest, d, i).effects[..k]);
    if EndsAt(digest, d, i) {
      EndsWithDirectory(digest, d, i, k);
      EndKeeps(digest, d, stopped, r);
    } else if d.legacy.value[i].Foreign? {
      CleanupLosesNothing(digest, d, i + 1, k, r);
    } else {
      var q := d.legacy.value[i].record;
      SplitPrefix(digest, d, i, k);
      var n := |DecideMigration(digest, d, q).effects|;
      if k <= n {
        StoppedInFileKeeps(digest, d, q, stopped, r);
      } else {
        CleanupLosesNothing(digest, Migrated(digest, d, i), i, k - n - 1, r);
        LaterStopKeeps(digest, d, i, stopped, r);
      }
    }
  }

  /** An uninterrupted cleanup that reports success leaves no legacy directory, and one that refuses keeps it. */
  lemma {:induction false} CleanupFinishes(digest: Digest, d: Directory, i: nat)
    requires d.legacy.Some? && i <= |d.legacy.value|
    ensures var decision := DecideCleanup(digest, d, i);
            ApplyAll(d, decision.effects).legacy == None <==> decision.verdict.Ok?
    decreases |d.legacy.value| - i
  {
    var decision := DecideCleanup(digest, d, i);
    var entries := d.legacy.value;
    if i == |entries| {
      assert [RemoveLegacyDir][1..] == [];
    } else if entries[i].Foreign? {
      CleanupFinishes(digest, d, i + 1);
    } else if entries[i].LegacyFile? && DecideMigration(digest, d, entries[i].record).verdict.Ok? {
      var effects := DecideMigration(digest, d, entries[i].record).effects;
      var rest := DecideCleanup(digest, Migrated(digest, d, i), i);
      MigrationApplies(digest, d, i);
      ApplyAllConcat(d, effects + [RemoveLegacy(i)], rest.effects);
      CleanupFinishes(digest, Migrated(digest, d, i), i);
    }
  }

  // ---------- where the promises stop ----------

  /** The record is no duplicate of the visible one, and other content owns both of its ids. */
  predicate Blocked(digest: Digest, d: Directory, r: Record) {
    && !DuplicatesCurrent(digest, d, r)
    && Primary(digest, r).generationId in d.retired && !Files(d, Primary(digest, r))
    && Fallback(digest, r).generationId in d.retired && !Files(d, Fallback(digest, r))
  }

  /** A file blocks the cleanup exactly when other content already owns both of its ids. */
  lemma MigrationBlocksIff(digest: Digest, d: Directory, r: Record)
    ensures DecideMigration(digest, d, r).verdict.Err? <==> Blocked(digest, d, r)
  {
    assert Primary(digest, r).generationId != "" && Fallback(digest, r).generationId != "";
  }

  /** Other content owns the primary id of the record, and its fallback id is the visible one. */
  predicate Hides(digest: Digest, d: Directory, r: Record) {
    && Visible(d).Some?
    && Primary(digest, r).generationId in d.retired && !Files(d, Primary(digest, r))
    && Fallback(digest, r).generationId == Visible(d).value.generationId
  }

  /** A live record, if there is one, is stored under a trimmed id. */
  predicate Trimmed(d: Directory) {
    Visible(d).Some? ==> Visible(d).value.generationId == Trim(Visible(d).value.generationId)
  }

  /** The live record is protected under the primary id only: migrating a file hides it exactly on these ids. */
  lemma MigrationHidesCurrentIff(digest: Digest, d: Directory, r: Record)
    requires Visible(d).Some? && Trimmed(d)
    ensures Visible(WithManifest(digest, d, r)) != Visible(d) <==> Hides(digest, d, r)
  {
    assert Primary(digest, r).generationId != "" && Fallback(digest, r).generationId != "";
  }

  // ---------- the whole directory ----------

  /** The records of the files the cleanup comes to, in order: an unreadable file ends them. */
  function Records(entries: seq<LegacyEntry>): seq<Record> {
    if entries == [] || entries[0].Unreadable? then []
    else if entries[0].Foreign? then Records(entries[1..])
    else [entries[0].record] + Records(entries[1..])
  }

  /** The directory with the manifests of these records, filed one after the other. */
  function Filed(digest: Digest, d: Directory, records: seq<Record>): Directory
    decreases records
  {
    if records == [] then d else Filed(digest, WithManifest(digest, d, records[0]), records[1..])
  }

  predicate BlocksAt(digest: Digest, d: Directory, records: seq<Record>, n: nat) {
    n < |records| && Blocked(digest, Filed(digest, d, records[..n]), records[n])
  }

  ghost predicate SomeBlocks(digest: Digest, d: Directory, records: seq<Record>) {
    exists n: nat :: BlocksAt(digest, d, records, n)
  }

  /** Record `n` is filed, none before it blocks, and it hides the live record. */
  ghost predicate HidesAt(digest: Digest, d: Directory, records: seq<Record>, n: nat) {
    && n < |records| && Hides(digest, Filed(digest, d, records[..n]), records[n])
    && !SomeBlocks(digest, d, records[..n])
  }

  ghost predicate SomeHides(digest: Digest, d: Directory, records: seq<Record>) {
    exists n: nat :: HidesAt(digest, d, records, n)
  }

  lemma FiledNext(digest: Digest, d: Directory, records: seq<Record>, n: nat)
    requires n < |records|
    ensures Filed(digest, d, records[..n + 1]) == Filed(digest, WithManifest(digest, d, records[0]), records[1..][..n])
  {
    assert records[..n + 1][1..] == records[1..][..n];
  }

  lemma AtNext(digest: Digest, d: Directory, records: seq<Record>, n: nat)
    requires records != []
    ensures BlocksAt(digest, d, records, n + 1) <==> BlocksAt(digest, WithManifest(digest, d, records[0]), records[1..], n)
    ensures BlocksAt(digest, d, records, 0) <==> Blocked(digest, d, records[0])
  {
    if n < |records| {
      FiledNext(digest, d, records, n);
    }
    assert records[..0] == [];
  }

  /** Filing looks at the current record and the history alone. */
  predicate SameRecords(d: Directory, d': Directory) { d'.current == d.current && d'.retired == d.retired }

  lemma ManifestAnywhere(digest: Digest, d: Directory, d': Directory, r: Record)
    requires SameRecords(d, d')
    ensures SameRecords(WithManifest(digest, d, r), WithManifest(digest, d', r))
  {
    MigrationAnywhere(digest, d, d', r);
    hide DecideMigration;
  }

  lemma MigrationAnywhere(digest: Digest, d: Directory, d': Directory, r: Record)
    requires SameRecords(d, d')
    ensures DecideMigration(digest, d', r) == DecideMigration(digest, d, r)
  {
    hide Primary, Fallback;
    DecisionAnywhere(d, d', Primary(digest, r));
    DecisionAnywhere(d, d', Fallback(digest, r));
    hide DecideManifest;
  }

  lemma DecisionAnywhere(d: Directory, d': Directory, p: Record)
    requires SameRecords(d, d')
    ensures DecideManifest(d', p, REASON) == DecideManifest(d, p, REASON) && Visible(d') == Visible(d)
  {
  }

  lemma {:induction false} FiledAnywhere(digest: Digest, d: Directory, d': Directory, records: seq<Record>)
    requires SameRecords(d, d')
    ensures SameRecords(Filed(digest, d, records), Filed(digest, d', records))
    decreases records
  {
    hide WithManifest;
    if records != [] {
      ManifestAnywhere(digest, d, d', records[0]);
      FiledAnywhere(digest, WithManifest(digest, d, records[0]), WithManifest(digest, d', records[0]), records[1..]);
    }
  }

  lemma BlocksAnywhere(digest: Digest, d: Directory, d': Directory, records: seq<Record>, n: nat)
    requires SameRecords(d, d')
    ensures BlocksAt(digest, d', records, n) <==> BlocksAt(digest, d, records, n)
  {
    hide Filed;
    if n < |records| {
      FiledAnywhere(digest, d, d', records[..n]);
    }
  }

  lemma RestOfEntries(digest: Digest, d: Directory, i: nat)
    requires d.legacy.Some? && i < |d.legacy.value|
    ensures d.legacy.value[i..][1..] == d.legacy.value[i + 1..]
    ensures d.legacy.value[i].LegacyFile? ==> Migrated(digest, d, i).legacy.value[i..] == d.legacy.value[i + 1..]
  {
  }

  lemma SomeBlocksNext(digest: Digest, d: Directory, records: seq<Record>, d': Directory)
    requires records != [] && !Blocked(digest, d, records[0])
    requires var d1 := WithManifest(digest, d, records[0]); SameRecords(d1, d')
    ensures SomeBlocks(digest, d, records) <==> SomeBlocks(digest, d', records[1..])
  {
    var d1 := WithManifest(digest, d, records[0]);
    hide BlocksAt;
    if SomeBlocks(digest, d, records) {
      var n: nat :| BlocksAt(digest, d, records, n);
      AtNext(digest, d, records, if n > 0 then n - 1 else 0);
      BlocksAnywhere(digest, d1, d', records[1..], n - 1);
    }
    if SomeBlocks(digest, d', records[1..]) {
      var n: nat :| BlocksAt(digest, d', records[1..], n);
      AtNext(digest, d, records, n);
      BlocksAnywhere(digest, d1, d', records[1..], n);
    }
  }

  lemma {:induction false} VerdictFrom(digest: Digest, d: Directory, i: nat)
    requires d.legacy.Some? && i <= |d.legacy.value|
    ensures var rest := d.legacy.value[i..];
            var verdict := DecideCleanup(digest, d, i).verdict;
            && (verdict == Err(Immutable) <==> SomeBlocks(digest, d, Records(rest)))
            && (verdict.Ok? <==>
                  i == 0 && (forall e :: e in rest ==> e.LegacyFile?) && !SomeBlocks(digest, d, Records(rest)))
    decreases |d.legacy.value| - i, 1
  {
    var rest := d.legacy.value[i..];
    if rest == [] || rest[0].Unreadable? {
      assert Records(rest) == [];
    } else if rest[0].Foreign? {
      RestOfEntries(digest, d, i);
      VerdictFrom(digest, d, i + 1);
      assert rest[0] in rest;
    } else {
      FileVerdict(digest, d, i);
    }
  }

  lemma {:induction false} FileVerdict(digest: Digest, d: Directory, i: nat)
    requires d.legacy.Some? && i < |d.legacy.value| && d.legacy.value[i].LegacyFile?
    ensures var rest := d.legacy.value[i..];
            var verdict := DecideCleanup(digest, d, i).verdict;
            && (verdict == Err(Immutable) <==> SomeBlocks(digest, d, Records(rest)))
            && (verdict.Ok? <==>
                  i == 0 && (forall e :: e in rest ==> e.LegacyFile?) && !SomeBlocks(digest, d, Records(rest)))
    decreases |d.legacy.value| - i, 0
  {
    var rest, r := d.legacy.value[i..], d.legacy.value[i].record;
    var next := Migrated(digest, d, i);
    MigrationBlocksIff(digest, d, r);
    RestOfEntries(digest, d, i);
    assert Records(rest) == [r] + Records(rest[1..]) && Records(rest)[1..] == Records(rest[1..]);
    if Blocked(digest, d, r) {
      AtNext(digest, d, Records(rest), 0);
    } else {
      VerdictFrom(digest, next, i);
      SomeBlocksNext(digest, d, Records(rest), next);
      CleanupOfFile(digest, d, i);
      assert forall e :: e in rest <==> e == rest[0] || e in rest[1..];
    }
  }

  /**
   The cleanup is blocked exactly when some record, in the directory with the manifests of those before it, has both
   its ids taken; and it succeeds exactly when there is none and every entry is a legacy record.
   */
  lemma CleanupVerdictIff(digest: Digest, d: Directory)
    requires d.legacy.Some?
    ensures var records := Records(d.legacy.value);
            && (Plan(digest, d).verdict == Err(Immutable) <==> SomeBlocks(digest, d, records))
            && (Plan(digest, d).verdict == Ok <==>
                  (forall e :: e in d.legacy.value ==> e.LegacyFile?) && !SomeBlocks(digest, d, records))
  {
    VerdictFrom(digest, d, 0);
    assert d.legacy.value[0..] == d.legacy.value;
  }

  lemma SomeBlocksFirst(digest: Digest, d: Directory, records: seq<Record>, n: nat)
    requires n < |records| && Blocked(digest, d, records[0])
    ensures SomeBlocks(digest, d, records[..n + 1])
  {
    AtNext(digest, d, records[..n + 1], 0);
    assert BlocksAt(digest, d, records[..n + 1], 0);
  }

  lemma HidesNext(digest: Digest, d: Directory, records: seq<Record>, n: nat, d': Directory)
    requires records != []
    requires SameRecords(WithManifest(digest, d, records[0]), d')
    ensures HidesAt(digest, d, records, n + 1) <==>
              !Blocked(digest, d, records[0]) && HidesAt(digest, d', records[1..], n)
  {
    hide Filed, Blocked, SomeBlocks, WithManifest;
    if n + 1 < |records| {
      FiledNext(digest, d, records, n);
      FiledAnywhere(digest, WithManifest(digest, d, records[0]), d', records[1..][..n]);
      if Blocked(digest, d, records[0]) {
        SomeBlocksFirst(digest, d, records, n);
      } else {
        SomeBlocksNext(digest, d, records[..n + 1], d');
        assert records[..n + 1][1..] == records[1..][..n];
      }
    }
  }

  lemma HidesFirst(digest: Digest, d: Directory, records: seq<Record>)
    requires records != []
    ensures HidesAt(digest, d, records, 0) <==> Hides(digest, d, records[0])
  {
    assert records[..0] == [];
  }

  lemma SomeHidesNext(digest: Digest, d: Directory, records: seq<Record>, d': Directory)
    requires records != [] && !Hides(digest, d, records[0]) && !Blocked(digest, d, records[0])
    requires SameRecords(WithManifest(digest, d, records[0]), d')
    ensures SomeHides(digest, d, records) <==> SomeHides(digest, d', records[1..])
  {
    hide HidesAt, Hides, Blocked, WithManifest;
    if SomeHides(digest, d, records) {
      var n: nat :| HidesAt(digest, d, records, n);
      HidesFirst(digest, d, records);
      HidesNext(digest, d, records, if n > 0 then n - 1 else 0, d');
    }
    if SomeHides(digest, d', records[1..]) {
      var n: nat :| HidesAt(digest, d', records[1..], n);
      HidesNext(digest, d, records, n, d');
    }
  }

  lemma BlockedDoesNotHide(digest: Digest, d: Directory, r: Record)
    requires Blocked(digest, d, r) && Trimmed(d)
    ensures !Hides(digest, d, r)
  {
  }

  lemma NothingHidden(digest: Digest, d: Directory, records: seq<Record>)
    requires records != [] && Blocked(digest, d, records[0]) && Trimmed(d)
    ensures !SomeHides(digest, d, records)
  {
    BlockedDoesNotHide(digest, d, records[0]);
    HidesFirst(digest, d, records);
    hide HidesAt, Hides, Blocked, Trimmed, WithManifest;
    forall n: nat ensures !HidesAt(digest, d, records, n) {
      HidesNext(digest, d, records, if n > 0 then n - 1 else 0, WithManifest(digest, d, records[0]));
    }
  }

  lemma {:induction false} HidesFrom(digest: Digest, d: Directory, i: nat)
    requires d.legacy.Some? && i <= |d.legacy.value| && Visible(d).Some? && Trimmed(d)
    ensures Visible(ApplyAll(d, DecideCleanup(digest, d, i).effects)) != Visible(d) <==>
              SomeHides(digest, d, Records(d.legacy.value[i..]))
    decreases |d.legacy.value| - i, 1
  {
    var rest := d.legacy.value[i..];
    if rest == [] || rest[0].Unreadable? {
      var effects := DecideCleanup(digest, d, i).effects;
      EndsWithDirectory(digest, d, i, |effects|);
      assert effects[..|effects|] == effects && Records(rest) == [];
    } else if rest[0].Foreign? {
      RestOfEntries(digest, d, i);
      HidesFrom(digest, d, i + 1);
    } else {
      FileHides(digest, d, i);
    }
  }

  lemma {:induction false} FileHides(digest: Digest, d: Directory, i: nat)
    requires d.legacy.Some? && i < |d.legacy.value| && d.legacy.value[i].LegacyFile?
    requires Visible(d).Some? && Trimmed(d)
    ensures Visible(ApplyAll(d, DecideCleanup(digest, d, i).effects)) != Visible(d) <==>
              SomeHides(digest, d, Records(d.legacy.value[i..]))
    decreases |d.legacy.value| - i, 0
  {
    var rest, r := d.legacy.value[i..], d.legacy.value[i].record;
    var next := Migrated(digest, d, i);
    MigrationBlocksIff(digest, d, r);
    MigrationHidesCurrentIff(digest, d, r);
    RestOfEntries(digest, d, i);
    assert Records(rest) == [r] + Records(rest[1..]) && Records(rest)[1..] == Records(rest[1..]);
    assert Visible(next) == Visible(WithManifest(digest, d, r));
    if Blocked(digest, d, r) {
      NothingHidden(digest, d, Records(rest));
    } else if Hides(digest, d, r) {
      MigrationIsSafe(digest, d, r);
      CleanupOfFile(digest, d, i);
      HiddenStays(digest, next, i);
      HidesFirst(digest, d, Records(rest));
    } else {
      HidesFrom(digest, next, i);
      CleanupOfFile(digest, d, i);
      SomeHidesNext(digest, d, Records(rest), next);
    }
  }

  /** A cleanup never makes a record visible. */
  lemma HiddenStays(digest: Digest, d: Directory, i: nat)
    requires d.legacy.Some? && i <= |d.legacy.value| && Visible(d).None?
    ensures Visible(ApplyAll(d, DecideCleanup(digest, d, i).effects)).None?
  {
    var effects := DecideCleanup(digest, d, i).effects;
    CleanupLosesNothing(digest, d, i, |effects|, Record("", "", 0, "", "", Malformed));
    assert effects[..|effects|] == effects;
  }

  /**
   The cleanup hides the live record exactly when it comes to a record that does, in the directory with the manifests
   of those before it; and if there is none, the live record stays visible wherever the cleanup stops.
   */
  lemma CleanupHidesCurrentIff(digest: Digest, d: Directory, k: nat)
    requires d.legacy.Some? && Visible(d).Some? && Trimmed(d)
    requires k <= |Plan(digest, d).effects|
    ensures var records := Records(d.legacy.value);
            && (Visible(ApplyAll(d, Plan(digest, d).effects)) != Visible(d) <==> SomeHides(digest, d, records))
            && (!SomeHides(digest, d, records) ==> Visible(ApplyAll(d, Plan(digest, d).effects[..k])) == Visible(d))
  {
    var stopped := ApplyAll(d, Plan(digest, d).effects[..k]);
    HidesFrom(digest, d, 0);
    assert d.legacy.value[0..] == d.legacy.value;
    CleanupLosesNothing(digest, d, 0, k, Record("", "", 0, "", "", Malformed));
    CleanupConverges(digest, d, 0, k);
    if Visible(stopped).None? && stopped.legacy.Some? {
      HiddenStays(digest, stopped, 0);
    }
  }

  predicate Compatible(p: Record, q: Record) { p.generationId == q.generationId ==> SameGeneration(p, q) }

  /** Every entry is a legacy record, and nothing claims the fallback id of one for other content. */
  ghost predicate Unopposed(digest: Digest, d: Directory) {
    d.legacy.Some? ==>
      && (forall e :: e in d.legacy.value ==> e.LegacyFile?)
      && (forall r :: LegacyFile(r) in d.legacy.value ==>
            Fallback(digest, r).generationId in d.retired ==> Files(d, Fallback(digest, r)))
      && (forall q, r :: LegacyFile(q) in d.legacy.value && LegacyFile(r) in d.legacy.value ==>
            Compatible(Primary(digest, q), Fallback(digest, r)) && Compatible(Fallback(digest, q), Fallback(digest, r)))
  }

  /** Then the whole cleanup succeeds. */
  lemma {:induction false} UnopposedCleanupSucceeds(digest: Digest, d: Directory)
    requires Unopposed(digest, d)
    ensures Plan(digest, d).verdict == Ok
    decreases if d.legacy.Some? then |d.legacy.value| else 0
  {
    if d.legacy.Some? && d.legacy.value != [] {
      assert d.legacy.value[0] in d.legacy.value;
      MigrationBlocksIff(digest, d, d.legacy.value[0].record);
      MigratedIsUnopposed(digest, d);
      UnopposedCleanupSucceeds(digest, Migrated(digest, d, 0));
      CleanupOfFile(digest, d, 0);
    }
  }

  lemma MigratedIsUnopposed(digest: Digest, d: Directory)
    requires Unopposed(digest, d) && d.legacy.Some? && d.legacy.value != [] && d.legacy.value[0].LegacyFile?
    ensures Unopposed(digest, Migrated(digest, d, 0))
  {
    var entries, q := d.legacy.value, d.legacy.value[0].record;
    var d1 := Migrated(digest, d, 0);
    assert entries[..0] + entries[1..] == entries[1..] && entries[0] in entries;
    forall e | e in entries[1..] ensures e in entries {}
    MigrationAdds(digest, d, q);
    forall r | LegacyFile(r) in entries[1..] && Fallback(digest, r).generationId in d1.retired
      ensures Files(d1, Fallback(digest, r))
    {
      assert LegacyFile(r) in entries && LegacyFile(q) in entries;
    }
  }

  function WithRetired(d: Directory, p: Record): map<string, Manifest> {
    d.retired[p.generationId := Manifest(p, Trim(REASON))]
  }

  /** A migration changes the history by the record's own manifest at most. */
  lemma MigrationAdds(digest: Digest, d: Directory, q: Record)
    ensures var d1 := WithManifest(digest, d, q);
            || d1.retired == d.retired
            || d1.retired == WithRetired(d, Primary(digest, q))
            || d1.retired == WithRetired(d, Fallback(digest, q))
  {
  }

  /** No legacy file would fall back to the id of the live record, which is stored trimmed. */
  ghost predicate SparesCurrent(digest: Digest, d: Directory) {
    && Trimmed(d)
    && (Visible(d).Some? && d.legacy.Some? ==>
          forall r :: LegacyFile(r) in d.legacy.value ==>
            Fallback(digest, r).generationId != Visible(d).value.generationId)
  }

  /** Then the whole cleanup leaves the live record visible, wherever it stops. */
  lemma {:induction false} CleanupSparesCurrent(digest: Digest, d: Directory, i: nat, k: nat)
    requires d.legacy.Some? && i <= |d.legacy.value| && SparesCurrent(digest, d)
    requires k <= |DecideCleanup(digest, d, i).effects|
    ensures Visible(ApplyAll(d, DecideCleanup(digest, d, i).effects[..k])) == Visible(d)
    decreases |d.legacy.value| - i
  {
    var decision := DecideCleanup(digest, d, i);
    var entries := d.legacy.value;
    if Visible(d).None? {
      CleanupLosesNothing(digest, d, i, k, Record("", "", 0, "", "", Malformed));
    } else if i < |entries| && entries[i].LegacyFile? && DecideMigration(digest, d, entries[i].record).verdict.Ok? {
      var effects := DecideMigration(digest, d, entries[i].record).effects;
      SplitPrefix(digest, d, i, k);
      assert entries[i] in entries;
      assert Visible(WithManifest(digest, d, entries[i].record)) == Visible(d) by {
        MigrationHidesCurrentIff(digest, d, entries[i].record);
      }
      if k > |effects| {
        MigratedSpares(digest, d, i);
        CleanupSparesCurrent(digest, Migrated(digest, d, i), i, k - |effects| - 1);
      }
    } else if i < |entries| && entries[i].Foreign? {
      CleanupSparesCurrent(digest, d, i + 1, k);
    } else {
      EndsWithDirectory(digest, d, i, k);
    }
  }

  lemma MigratedSpares(digest: Digest, d: Directory, i: nat)
    requires d.legacy.Some? && i < |d.legacy.value| && d.legacy.value[i].LegacyFile? && SparesCurrent(digest, d)
    requires Visible(WithManifest(digest, d, d.legacy.value[i].record)) == Visible(d)
    ensures Visible(Migrated(digest, d, i)) == Visible(d) && SparesCurrent(digest, Migrated(digest, d, i))
  {
    var entries := d.legacy.value;
    forall e | e in entries[..i] + entries[i + 1..] ensures e in entries {}
  }

  /** Two old files of one run, kept under different numbers, block the cleanup once a foreign manifest owns their id. */
  lemma CleanupMayBlock()
    ensures var digest := (s: string) => "0";
            var past := Record("run", "", 1, "", "", Json("{}"));
            var other := Manifest(past.(generationId := "gen-run", generation := 7), "");
            var d := Directory(None, map["gen-run" := other], Some([LegacyFile(past), LegacyFile(past.(generation := 2))]));
            Plan(digest, d).verdict == Err(Immutable)
  {
    var digest := (s: string) => "0";
    var past := Record("run", "", 1, "", "", Json("{}"));
    var other := Manifest(past.(generationId := "gen-run", generation := 7), "");
    var d := Directory(None, map["gen-run" := other], Some([LegacyFile(past), LegacyFile(past.(generation := 2))]));
    TrimFixed("run");
    assert Primary(digest, past).generationId == "gen-run";
    assert Primary(digest, past.(generation := 2)).generationId == "gen-run";
    var next := Migrated(digest, d, 0);
    assert next.legacy.value == [LegacyFile(past.(generation := 2))];
    assert Fallback(digest, past).generationId in next.retired;
    MigrationBlocksIff(digest, next, past.(generation := 2));
    assert DecideCleanup(digest, next, 0).verdict == Err(Immutable);
  }

  /** A live record whose id is the fallback id of an old file disappears when that file is migrated. */
  lemma CleanupMayHideCurrent()
    ensures var digest := (s: string) => "0";
            var past := Record("run", "", 1, "", "", Json("{}"));
            var live := past.(generationId := "gen-legacy-run-0", generation := 3);
            var other := Manifest(past.(generationId := "gen-run", generation := 7), "");
            var d := Directory(Some(live), map["gen-run" := other], Some([LegacyFile(past)]));
            Visible(d) == Some(live) && Visible(WithManifest(digest, d, past)) == None
  {
    var digest := (s: string) => "0";
    var past := Record("run", "", 1, "", "", Json("{}"));
    var live := past.(generationId := "gen-legacy-run-0", generation := 3);
    var other := Manifest(past.(generationId := "gen-run", generation := 7), "");
    var d := Directory(Some(live), map["gen-run" := other], Some([LegacyFile(past)]));
    TrimFixed("run");
    TrimFixed("gen-legacy-run-0");
    assert Primary(digest, past).generationId == "gen-run";
    assert Fallback(digest, past).generationId == "gen-legacy-run-0";
    MigrationHidesCurrentIff(digest, d, past);
  }
}
