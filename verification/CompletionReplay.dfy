/**
 How a generation reads the durable event log and what its completion record
 becomes over whole runs: the paging loop of recordTurnCompletion, saves that
 fail, restarts, and folds of histories that were read earlier.
 */
module CompletionReplay {
  import opened Basics
  import opened Durable
  import opened EventLog
  import opened TurnCompletion

  // ---------- the paging loop ----------

  datatype Reading = Reading(frames: seq<Frame>, latest: int)

  /** What the loop reads when the requests are answered by `script`; no answer is a failure. */
  function Collect(script: seq<Response>, cursor: int, latest: int): Option<Reading> {
    if script == [] || script[0].Failure? then None
    else
      var page := script[0];
      var got := Consume(page.frames, cursor);
      var high := Max(latest, page.latest);
      if got.gap then None
      else if got.cursor == cursor && cursor < page.latest then None
      else if IsLast(page, got.cursor) then Some(Reading(got.taken, Max(high, got.cursor)))
      else Prepend(got.taken, Collect(script[1..], got.cursor, high))
  }

  predicate IsLast(page: Response, cursor: int)
    requires page.Page?
  {
    |page.frames| < PAGE_SIZE || cursor >= page.latest
  }

  function Prepend(frames: seq<Frame>, rest: Option<Reading>): Option<Reading> {
    if rest.None? then None else Some(rest.value.(frames := frames + rest.value.frames))
  }

  method ReadHistory(script: seq<Response>, start: int) returns (reading: Option<Reading>)
    ensures reading == Collect(script, start, start)
  {
    var cursor, latest, frames := start, start, [];
    assert script[0..] == script;
    assert forall f: seq<Frame> :: [] + f == f;
    for i := 0 to |script|
      invariant Collect(script, start, start) == Prepend(frames, Collect(script[i..], cursor, latest))
    {
      assert script[i..][0] == script[i] && script[i..][1..] == script[i + 1..];
      if script[i].Failure? { return None; }
      var page := script[i];
      latest := Max(latest, page.latest);
      var gap, reached, taken := TakePage(page.frames, cursor);
      if gap { return None; }
      if reached == cursor && cursor < page.latest { return None; }
      ghost var before := frames;
      cursor, frames := reached, frames + taken;
      if |page.frames| < PAGE_SIZE || cursor >= page.latest {
        return Some(Reading(frames, Max(latest, cursor)));
      }
      assert forall rest: Option<Reading> :: Prepend(before, Prepend(taken, rest)) == Prepend(frames, rest) by {
        assert forall f: seq<Frame> :: before + (taken + f) == frames + f;
      }
    }
    return None;
  }

  /** How many answers the loop used. */
  function Used(script: seq<Response>, cursor: int): (n: nat)
    ensures n <= |script|
  {
    if script == [] || script[0].Failure? then 0
    else
      var got := Consume(script[0].frames, cursor);
      if got.gap || (got.cursor == cursor && cursor < script[0].latest) || IsLast(script[0], got.cursor) then 1
      else 1 + Used(script[1..], got.cursor)
  }

  /** A reading is the log from the cursor on, gapless; `latest` is the highest cursor the used pages reported. */
  lemma {:induction false} ReadingIsGapless(script: seq<Response>, cursor: int, latest: int)
    requires Collect(script, cursor, latest).Some?
    ensures var r := Collect(script, cursor, latest).value;
            && 0 < Used(script, cursor)
            && Contiguous(r.frames, cursor)
            && r.latest >= cursor + |r.frames|
            && r.latest >= latest
            && (forall k :: 0 <= k < Used(script, cursor) ==> script[k].Page? && r.latest >= script[k].latest)
            && (r.latest == cursor + |r.frames| || r.latest == latest ||
                exists k :: 0 <= k < Used(script, cursor) && script[k].latest == r.latest)
  {
    var page := script[0];
    var got := Consume(page.frames, cursor);
    ConsumeIsContiguous(page.frames, cursor);
    if !IsLast(page, got.cursor) {
      var high := Max(latest, page.latest);
      ReadingIsGapless(script[1..], got.cursor, high);
      var rest := Collect(script[1..], got.cursor, high).value;
      ContiguousConcat(got.taken, rest.frames, cursor);
      assert forall k :: 0 < k < Used(script, cursor) ==> script[k] == script[1..][k - 1];
      if rest.latest == page.latest {
        assert script[0].latest == rest.latest;
      }
    }
  }

  predicate NeverShrinks(script: seq<Response>) {
    forall i, j :: 0 <= i < j < |script| && script[i].Page? && script[j].Page? ==> script[i].latest <= script[j].latest
  }

  /** The last used page, and where the loop stood after it. */
  lemma {:induction false} ReadingEndsAt(script: seq<Response>, cursor: int, latest: int)
    requires Collect(script, cursor, latest).Some?
    ensures var r := Collect(script, cursor, latest).value;
            var n := Used(script, cursor);
            && n > 0 && script[n - 1].Page?
            && IsLast(script[n - 1], cursor + |r.frames|)
            && (cursor + |r.frames| == cursor ==> cursor >= script[n - 1].latest)
  {
    var got := Consume(script[0].frames, cursor);
    ConsumeIsContiguous(script[0].frames, cursor);
    if !IsLast(script[0], got.cursor) {
      ReadingEndsAt(script[1..], got.cursor, Max(latest, script[0].latest));
    }
  }

  /**
   When the server's durable cursor never moves back, the new completion cursor passes an
   event the loop did not read exactly when the last page was short of both its size and its durable cursor.
   */
  lemma PassesUnreadEventsIff(script: seq<Response>, cursor: int)
    requires NeverShrinks(script) && Collect(script, cursor, cursor).Some?
    ensures var r := Collect(script, cursor, cursor).value;
            var last := script[Used(script, cursor) - 1];
            && Used(script, cursor) > 0 && last.Page?
            && (r.latest > cursor + |r.frames| <==>
                  |last.frames| < 500 && last.latest > cursor + |r.frames|)
  {
    ReadingIsGapless(script, cursor, cursor);
    ReadingEndsAt(script, cursor, cursor);
  }

  /** A short page that stops before its durable cursor: event 2 is never read, and the cursor passes it. */
  lemma ShortPageLosesAnEvent(f: Frame)
    requires f.cursor == 1
    ensures Collect([Page([f], 2)], 0, 0) == Some(Reading([f], 2))
  {
    assert [f][1..] == [];
    assert Consume([f], 0) == Intake(false, 1, [f]);
  }

  // ---------- an honest server ----------

  /** One source event a frame, numbered by its cursor. */
  predicate Honest(log: seq<Frame>) {
    forall k :: 0 <= k < |log| ==>
      log[k].cursor == k + 1 && |log[k].events| <= 1 && forall e :: e in log[k].events ==> e.id == k + 1
  }

  predicate Grows(visible: seq<nat>, from: nat, length: nat) {
    && (forall k :: 0 <= k < |visible| ==> from <= visible[k] <= length)
    && (forall i, j :: 0 <= i < j < |visible| ==> visible[i] <= visible[j])
  }

  /** The answers of a server whose log has `visible[k]` entries when it is asked for the k-th time. */
  function Serve(log: seq<Frame>, cursor: nat, visible: seq<nat>): seq<Response>
    requires Grows(visible, cursor, |log|)
    decreases |visible|
  {
    if visible == [] then []
    else
      var end := Min(cursor + PAGE_SIZE, visible[0]);
      [Page(log[cursor..end], visible[0])] + Serve(log, end, visible[1..])
  }

  lemma {:induction false} ConsumeContiguous(frames: seq<Frame>, cursor: int)
    requires Contiguous(frames, cursor)
    ensures Consume(frames, cursor) == Intake(false, cursor + |frames|, frames)
  {
    if frames != [] {
      assert frames[0].cursor == cursor + 1 + 0;
      assert forall k :: 0 <= k < |frames[1..]| ==> frames[1..][k].cursor == frames[k + 1].cursor;
      ConsumeContiguous(frames[1..], cursor + 1);
      assert frames == [frames[0]] + frames[1..];
    }
  }

  /** One request to an honest server. */
  lemma ServeStep(log: seq<Frame>, cursor: nat, visible: seq<nat>, latest: int)
    requires Honest(log) && Grows(visible, cursor, |log|) && visible != []
    requires latest <= visible[0]
    ensures var end := cursor + PAGE_SIZE;
            Collect(Serve(log, cursor, visible), cursor, latest) ==
            if end >= visible[0] then Some(Reading(log[cursor..visible[0]], visible[0]))
            else Prepend(log[cursor..end], Collect(Serve(log, end, visible[1..]), end, visible[0]))
  {
    var end := Min(cursor + PAGE_SIZE, visible[0]);
    var script := Serve(log, cursor, visible);
    assert script[1..] == Serve(log, end, visible[1..]);
    assert Contiguous(log[cursor..end], cursor);
    ConsumeContiguous(log[cursor..end], cursor);
  }

  lemma {:induction false} ReadsAStretch(log: seq<Frame>, cursor: nat, visible: seq<nat>, latest: int)
    requires Honest(log) && Grows(visible, cursor, |log|)
    requires visible != [] ==> latest <= visible[0]
    ensures var reading := Collect(Serve(log, cursor, visible), cursor, latest);
            reading.Some? ==>
              && reading.value.latest in visible
              && cursor <= reading.value.latest
              && reading.value.frames == log[cursor..reading.value.latest]
    decreases |visible|
  {
    if visible != [] {
      ServeStep(log, cursor, visible, latest);
      var end := cursor + PAGE_SIZE;
      if end < visible[0] {
        ReadsAStretch(log, end, visible[1..], visible[0]);
        var rest := Collect(Serve(log, end, visible[1..]), end, visible[0]);
        if rest.Some? {
          assert log[cursor..rest.value.latest] == log[cursor..end] + log[end..rest.value.latest];
        }
      }
    }
  }

  lemma {:induction false} ReadingFinishes(log: seq<Frame>, cursor: nat, visible: seq<nat>, latest: int)
    requires Honest(log) && Grows(visible, cursor, |log|) && visible != [] && latest <= visible[0]
    requires PAGE_SIZE * |visible| >= visible[|visible| - 1] - cursor
    ensures Collect(Serve(log, cursor, visible), cursor, latest).Some?
    decreases |visible|
  {
    ServeStep(log, cursor, visible, latest);
    var end := cursor + PAGE_SIZE;
    if end < visible[0] {
      ReadingFinishes(log, end, visible[1..], visible[0]);
    }
  }

  /** From an honest server the loop reads exactly a stretch of the log, and finishes once it is asked often enough. */
  lemma HonestReadingIsExact(log: seq<Frame>, cursor: nat, visible: seq<nat>, latest: int)
    requires Honest(log) && Grows(visible, cursor, |log|)
    requires visible != [] ==> latest <= visible[0]
    ensures var reading := Collect(Serve(log, cursor, visible), cursor, latest);
            && (reading.Some? ==>
                  && reading.value.latest in visible
                  && cursor <= reading.value.latest
                  && reading.value.frames == log[cursor..reading.value.latest])
            && (visible != [] && 500 * |visible| >= visible[|visible| - 1] - cursor ==> reading.Some?)
  {
    ReadsAStretch(log, cursor, visible, latest);
    if visible != [] && PAGE_SIZE * |visible| >= visible[|visible| - 1] - cursor {
      ReadingFinishes(log, cursor, visible, latest);
    }
  }

  // ---------- the runtime ----------

  datatype Session = Session(id: string, lastEventId: int)

  /** The record recordTurnCompletion wants to save. */
  function Recorded(r: Record, session: Session, script: seq<Response>): Record {
    var id := Trim(session.id);
    if id == "" || Trim(r.session) != id then r
    else if r.completionSession != id then Baseline(r, id, session.lastEventId).(pending := false)
    else if session.lastEventId <= r.cursor then r.(pending := false)
    else
      match Collect(script, r.cursor, r.cursor)
      case None => r
      case Some(reading) => Folded(r, id, EventsOf(reading.frames), reading.latest)
  }

  /** The record prepareTurnCompletion wants to save. */
  function Prepared(r: Record, session: Session): Record {
    var id := Trim(session.id);
    if id == "" || r.completionSession == id then r
    else Baseline(r, id, 0).(pending := false, session := id)
  }

  /** A completion record of one session without a completion, read up to `cursor`. */
  function Unread(own: string, session: string, cursor: int): Record {
    Record(own, session, cursor, 0, "", "", false, "", "", false)
  }

  /** What recordTurnCompletion does, by the session it is shown. */
  lemma RecordedMeans(r: Record, session: Session, script: seq<Response>)
    ensures var id, t := Trim(session.id), Recorded(r, session, script);
            && (id == "" || Trim(r.session) != id ==> t == r)
            && (id != "" && Trim(r.session) == id ==>
                  && (r.completionSession != id ==> t == Unread(r.session, id, session.lastEventId))
                  && (r.completionSession == id && session.lastEventId <= r.cursor ==> t == r.(pending := false))
                  && (r.completionSession == id && session.lastEventId > r.cursor ==>
                        match Collect(script, r.cursor, r.cursor)
                        case None => t == r
                        case Some(reading) =>
                          && !t.pending && t.session == r.session && t.completionSession == id
                          && t.cursor >= reading.latest))
  {
    var id := Trim(session.id);
    if id != "" && Trim(r.session) == id == r.completionSession && session.lastEventId > r.cursor {
      var reading := Collect(script, r.cursor, r.cursor);
      if reading.Some? {
        var t := FoldedMeans(r, id, EventsOf(reading.value.frames), reading.value.latest);
      }
    }
  }

  /** What prepareTurnCompletion does: a session not seen before is read from its beginning. */
  lemma PreparedMeans(r: Record, session: Session)
    ensures var id := Trim(session.id);
            Prepared(r, session) == if id == "" || r.completionSession == id then r else Unread(id, id, 0)
  {
  }

  class Runtime {
    var record: Record
    var saved: Record

    function Contents(): Cell<Record>
      reads this
    {
      Cell(record, saved)
    }

    /** mutateGeneration: publish the record only once it is on disk. */
    method MutateGeneration(updated: Record, save: Save) returns (result: Record)
      modifies this
      ensures Contents() == Mutate(old(Contents()), updated, save)
      ensures result == record
    {
      var ok;
      record, saved, ok := Persist(record, saved, updated, save);
      result := record;
    }

    method PrepareTurnCompletion(session: Session, save: Save)
      modifies this
      ensures Contents() == Mutate(old(Contents()), Prepared(old(record), session), save)
    {
      var id := Trim(session.id);
      if id == "" { return; }
      if record.completionSession != id {
        var _ := MutateGeneration(Baseline(record, id, 0).(pending := false, session := id), save);
      }
    }

    /** recordTurnCompletionHistory; `notified` when the save published a marker that was not there before. */
    method RecordTurnCompletionHistory(sessionId: string, history: seq<Event>, latest: int, save: Save)
      returns (notified: bool)
      modifies this
      ensures var id := Trim(sessionId);
              Contents() == if id == "" then old(Contents())
                            else Mutate(old(Contents()), Folded(old(record), id, history, latest), save)
      ensures notified <==> record.marker != "" && record.marker != old(record).marker
    {
      var id := Trim(sessionId);
      if id == "" { return false; }
      var previous := record.marker;
      var updated := record;
      if Trim(record.session) == id {
        var base := record;
        if record.completionSession != id {
          base := Baseline(record, id, 0);
        }
        var cursor := base.cursor;
        var terminal: Option<Event> := None;
        var replied: set<string> := {};
        for i := 0 to |history|
          invariant Scan(cursor, terminal, replied) == ScanAll(Start(base.cursor), history[..i])
        {
          assert history[..i + 1][..i] == history[..i];
          var e := history[i];
          if e.id <= cursor {
            continue;
          }
          cursor := e.id;
          if e.kind.Delta? && Trim(e.turn) != "" && e.kind.hasText {
            replied := replied + {e.turn};
          }
          if e.kind.Terminal? && e.id > (if terminal.Some? then terminal.value.id else 0) {
            terminal := Some(e);
          }
        }
        assert history[..|history|] == history;
        if latest > cursor { cursor := latest; }
        updated := base.(cursor := cursor, pending := false);
        if terminal.Some? && terminal.value.id > base.eventId {
          var t := terminal.value;
          updated := updated.(eventId := t.id, marker := Marker(id, t.id), state := StateOf(t),
                              hasFinalReply := t.turn in replied, turn := t.turn, at := t.at);
        }
      }
      updated := MutateGeneration(updated, save);
      notified := updated.marker != "" && updated.marker != previous;
    }

    method RecordTurnCompletion(session: Session, script: seq<Response>, save: Save)
      modifies this
      ensures Contents() == Mutate(old(Contents()), Recorded(old(record), session, script), save)
    {
      var id := Trim(session.id);
      if id == "" || Trim(record.session) != id { return; }
      if record.completionSession != id {
        var _ := MutateGeneration(Baseline(record, id, session.lastEventId).(pending := false), save);
        return;
      }
      if session.lastEventId <= record.cursor {
        if record.pending {
          var _ := MutateGeneration(record.(pending := false), save);
        }
        return;
      }
      var reading := ReadHistory(script, record.cursor);
      if reading.None? { return; }
      TrimIdempotent(session.id);
      var _ := RecordTurnCompletionHistory(id, EventsOf(reading.value.frames), reading.value.latest, save);
    }
  }

  // ---------- whole runs ----------

  /** `Late` folds a history read from an earlier cursor, as a second reader of the same generation does. */
  datatype Step =
    | Inspect(lastEventId: int, visible: seq<nat>, save: Save)
    | Late(from: nat, end: nat, save: Save)
    | MarkPending(save: Save)
    | Prepare(save: Save)
    | Restart

  predicate Enabled(c: Cell<Record>, log: seq<Frame>, s: Step) {
    match s
    case Inspect(_, visible, _) => 0 <= c.memory.cursor && Grows(visible, c.memory.cursor, |log|)
    case Late(from, end, _) => from <= c.memory.cursor && from <= end <= |log|
    case _ => true
  }

  function Apply(c: Cell<Record>, id: string, log: seq<Frame>, s: Step): Cell<Record>
    requires Enabled(c, log, s)
  {
    match s
    case Inspect(last, visible, save) =>
      Mutate(c, Recorded(c.memory, Session(id, last), Serve(log, c.memory.cursor, visible)), save)
    case Late(from, end, save) => Mutate(c, Folded(c.memory, id, EventsOf(log[from..end]), end), save)
    case MarkPending(save) => Mutate(c, c.memory.(pending := true), save)
    case Prepare(save) => Mutate(c, Prepared(c.memory, Session(id, 0)), save)
    case Restart => Durable.Restart(c)
  }

  /** The pending flag, once set, is cleared by the next reading that is complete and saved, and by no other. */
  lemma PendingUntilRead(c: Cell<Record>, id: string, log: seq<Frame>, lastEventId: int, visible: seq<nat>, save: Save)
    requires id != "" && Trim(id) == id && Trim(c.memory.session) == id == c.memory.completionSession
    requires 0 <= c.memory.cursor && Grows(visible, c.memory.cursor, |log|)
    ensures var marked := Apply(c, id, log, MarkPending(Saved));
            var script := Serve(log, c.memory.cursor, visible);
            var read := Apply(marked, id, log, Inspect(lastEventId, visible, save));
            && marked.memory.pending
            && (read.memory.pending <==>
                  || save.Refused?
                  || (lastEventId > c.memory.cursor && Collect(script, c.memory.cursor, c.memory.cursor).None?))
  {
    RecordedMeans(c.memory.(pending := true), Session(id, lastEventId), Serve(log, c.memory.cursor, visible));
  }

  predicate IsRun(cells: seq<Cell<Record>>, id: string, log: seq<Frame>, steps: seq<Step>) {
    && |cells| == |steps| + 1
    && forall k :: 0 <= k < |steps| ==>
         Enabled(cells[k], log, steps[k]) && cells[k + 1] == Apply(cells[k], id, log, steps[k])
  }

  /** The record one single fold of the log up to `n` gives. */
  function Ideal(r: Record, id: string, log: seq<Frame>, n: nat): Record
    requires 0 <= r.cursor <= n <= |log|
  {
    Folded(r, id, EventsOf(log[r.cursor..n]), n)
  }

  predicate Same(a: Record, b: Record) {
    a.(hasFinalReply := false, pending := false) == b.(hasFinalReply := false, pending := false)
  }

  predicate Follows(x: Record, r: Record, id: string, log: seq<Frame>) {
    0 <= r.cursor <= x.cursor <= |log| && Same(x, Ideal(r, id, log, x.cursor))
  }

  lemma {:induction false} HonestEventsIncrease(log: seq<Frame>, i: nat, j: nat)
    requires Honest(log) && i <= j <= |log|
    ensures Increasing(EventsOf(log[i..j]), i)
    ensures forall e :: e in EventsOf(log[i..j]) ==> e.id <= j
    decreases j - i
  {
    if i < j {
      HonestEventsIncrease(log, i + 1, j);
      assert log[i..j][1..] == log[i + 1..j];
    }
  }

  lemma EventsSplit(log: seq<Frame>, i: nat, m: nat, j: nat)
    requires i <= m <= j <= |log|
    ensures EventsOf(log[i..j]) == EventsOf(log[i..m]) + EventsOf(log[m..j])
  {
    assert log[i..j] == log[i..m] + log[m..j];
    EventsOfConcat(log[i..m], log[m..j]);
  }

  lemma FoldSame(a: Record, b: Record, id: string, history: seq<Event>, latest: int)
    requires Same(a, b)
    ensures Same(Folded(a, id, history, latest), Folded(b, id, history, latest))
  {
  }

  lemma {:induction false} ScanSkipsThePast(s: Scan, a: seq<Event>, b: seq<Event>)
    requires forall e :: e in a ==> e.id <= s.cursor
    ensures ScanAll(s, a + b) == ScanAll(s, b)
  {
    ScanAllConcat(s, a, b);
    ScanOfThePast(s, a);
  }

  /** Folding any stretch of the log that starts behind the cursor moves the ideal record to the stretch's end. */
  lemma FoldExtends(r: Record, id: string, log: seq<Frame>, n: nat, from: nat, end: nat)
    requires Honest(log) && 0 <= r.cursor <= n <= |log| && from <= n && from <= end <= |log|
    requires Trim(r.session) == id && r.completionSession == id
    ensures Same(Folded(Ideal(r, id, log, n), id, EventsOf(log[from..end]), end), Ideal(r, id, log, Max(n, end)))
  {
    var x := Ideal(r, id, log, n);
    HonestEventsIncrease(log, r.cursor, n);
    assert x.cursor == n && x.session == r.session && x.completionSession == id && !x.pending by {
      ScanPasses(Start(r.cursor), EventsOf(log[r.cursor..n]));
      IdealCursor(r, id, log, n);
    }
    if end <= n {
      HonestEventsIncrease(log, from, end);
      ReplayOfThePast(x, id, EventsOf(log[from..end]), end);
    } else {
      var a, b := EventsOf(log[r.cursor..n]), EventsOf(log[n..end]);
      HonestEventsIncrease(log, from, n);
      EventsSplit(log, from, n, end);
      ScanSkipsThePast(Start(n), EventsOf(log[from..n]), b);
      assert Folded(x, id, EventsOf(log[from..end]), end) == Folded(x, id, b, end);
      EventsSplit(log, r.cursor, n, end);
      HonestEventsIncrease(log, r.cursor, end);
      HonestEventsIncrease(log, n, end);
      SplitInTwo(r, id, a, n, b, end);
    }
  }

  lemma IdealCursor(r: Record, id: string, log: seq<Frame>, n: nat)
    requires Honest(log) && 0 <= r.cursor <= n <= |log|
    requires Trim(r.session) == id && r.completionSession == id
    ensures var x := Ideal(r, id, log, n);
            x.cursor == n && x.session == r.session && x.completionSession == id && !x.pending
  {
    var h := EventsOf(log[r.cursor..n]);
    HonestEventsIncrease(log, r.cursor, n);
    ScanIncreasing(r.cursor, h);
    if h != [] { assert h[|h| - 1] in h; }
  }

  /** One fold of a late or a fresh reading keeps the record on the log. */
  lemma FoldFollows(x: Record, r: Record, id: string, log: seq<Frame>, from: nat, end: nat)
    requires Honest(log) && Trim(r.session) == id && r.completionSession == id
    requires Follows(x, r, id, log) && from <= x.cursor && from <= end <= |log|
    ensures Follows(Folded(x, id, EventsOf(log[from..end]), end), r, id, log)
  {
    var n := x.cursor;
    FoldExtends(r, id, log, n, from, end);
    FoldSame(x, Ideal(r, id, log, n), id, EventsOf(log[from..end]), end);
    IdealCursor(r, id, log, Max(n, end));
  }

  lemma MutateFollows(c: Cell<Record>, updated: Record, save: Save, r: Record, id: string, log: seq<Frame>)
    requires Follows(c.memory, r, id, log) && Follows(c.disk, r, id, log) && Follows(updated, r, id, log)
    ensures var d := Mutate(c, updated, save);
            Follows(d.memory, r, id, log) && Follows(d.disk, r, id, log)
  {
  }

  lemma StepFollows(c: Cell<Record>, s: Step, r: Record, id: string, log: seq<Frame>)
    requires Honest(log) && Trim(r.session) == id && r.completionSession == id
    requires Follows(c.memory, r, id, log) && Follows(c.disk, r, id, log) && Enabled(c, log, s)
    ensures var d := Apply(c, id, log, s);
            Follows(d.memory, r, id, log) && Follows(d.disk, r, id, log)
  {
    TrimIdempotent(r.session);
    IdealCursor(r, id, log, c.memory.cursor);
    var x := c.memory;
    match s
    case Inspect(last, visible, save) =>
      if last <= x.cursor {
        MutateFollows(c, x.(pending := false), save, r, id, log);
      } else {
        HonestReadingIsExact(log, x.cursor, visible, x.cursor);
        var reading := Collect(Serve(log, x.cursor, visible), x.cursor, x.cursor);
        if reading.Some? {
          var end := reading.value.latest;
          FoldFollows(x, r, id, log, x.cursor, end);
          MutateFollows(c, Folded(x, id, EventsOf(log[x.cursor..end]), end), save, r, id, log);
        }
      }
    case Late(from, end, save) =>
      FoldFollows(x, r, id, log, from, end);
      MutateFollows(c, Folded(x, id, EventsOf(log[from..end]), end), save, r, id, log);
    case MarkPending(save) =>
      MutateFollows(c, x.(pending := true), save, r, id, log);
    case Prepare(save) =>
    case Restart =>
  }

  /**
   Whatever saves fail, whenever the process restarts and however the history is cut into
   readings, memory and disk both hold what one single fold of the log gives.
   */
  lemma {:induction false} RunFollowsTheLog(cells: seq<Cell<Record>>, id: string, log: seq<Frame>, steps: seq<Step>)
    requires Honest(log) && IsRun(cells, id, log, steps)
    requires cells[0].memory == cells[0].disk && 0 <= cells[0].memory.cursor <= |log|
    requires Trim(cells[0].memory.session) == id && cells[0].memory.completionSession == id
    ensures var r := cells[0].memory;
            var c := cells[|steps|];
            Follows(c.memory, r, id, log) && Follows(c.disk, r, id, log)
    decreases |steps|
  {
    var r := cells[0].memory;
    if steps == [] {
      ReplayOfThePast(r, id, EventsOf(log[r.cursor..r.cursor]), r.cursor);
    } else {
      var n := |steps| - 1;
      assert IsRun(cells[..n + 1], id, log, steps[..n]);
      RunFollowsTheLog(cells[..n + 1], id, log, steps[..n]);
      StepFollows(cells[n], steps[n], r, id, log);
    }
  }

  /** So the durable marker is always the last terminal the log holds between the first cursor and the present one. */
  lemma RunFindsTheLastTerminal(cells: seq<Cell<Record>>, id: string, log: seq<Frame>, steps: seq<Step>)
    requires Honest(log) && IsRun(cells, id, log, steps)
    requires cells[0].memory == cells[0].disk && 0 <= cells[0].memory.cursor <= |log|
    requires Trim(cells[0].memory.session) == id && cells[0].memory.completionSession == id
    requires Coherent(cells[0].memory)
    ensures var r := cells[0].memory;
            var x := cells[|steps|].disk;
            && r.cursor <= x.cursor <= |log|
            && var t := LatestTerminal(EventsOf(log[r.cursor..x.cursor]));
               if t.Some? then x.marker == Marker(id, t.value.id) && x.state == t.value.kind.state && x.turn == t.value.turn
               else x.marker == r.marker && x.state == r.state && x.turn == r.turn
  {
    RunFollowsTheLog(cells, id, log, steps);
    var r := cells[0].memory;
    var x := cells[|steps|].disk;
    HonestEventsIncrease(log, r.cursor, x.cursor);
    ScanIncreasing(r.cursor, EventsOf(log[r.cursor..x.cursor]));
  }

  /** A session first seen by recordTurnCompletion is a baseline: no run from there ever reports an older terminal. */
  lemma NothingHistoricalIsReported(r: Record, session: Session, script: seq<Response>, cells: seq<Cell<Record>>,
                                    log: seq<Frame>, steps: seq<Step>)
    requires Trim(session.id) != "" && Trim(r.session) == Trim(session.id) != r.completionSession
    requires Honest(log) && 0 <= session.lastEventId <= |log|
    requires IsRun(cells, Trim(session.id), log, steps)
    requires cells[0].memory == cells[0].disk == Recorded(r, session, script)
    ensures var x := cells[|steps|].disk;
            && session.lastEventId <= x.cursor <= |log|
            && (x.marker == "" ||
                exists e :: e in EventsOf(log[session.lastEventId..x.cursor]) && e.kind.Terminal?
                            && e.id > session.lastEventId && x.marker == Marker(Trim(session.id), e.id))
  {
    var id := Trim(session.id);
    RunFindsTheLastTerminal(cells, id, log, steps);
    var x := cells[|steps|].disk;
    HonestEventsIncrease(log, session.lastEventId, x.cursor);
    var t := LatestTerminal(EventsOf(log[session.lastEventId..x.cursor]));
    if t.Some? {
      assert t.value in EventsOf(log[session.lastEventId..x.cursor]);
    }
  }
}
