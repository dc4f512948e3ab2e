/**
 The durable completion marker of a generation: prepareTurnCompletion,
 recordTurnCompletion and recordTurnCompletionHistory in internal/serve/agent.go.
 */
module TurnCompletion {
  import opened Basics
  import opened Durable
  import opened EventLog

  datatype Record = Record(
    session: string,            // AgentHubSessionID
    completionSession: string,
    cursor: int,
    eventId: nat,
    marker: string,
    state: string,
    hasFinalReply: bool,
    turn: string,
    at: string,
    pending: bool)

  /** The completion fields of a session seen for the first time, from `cursor` on. */
  function Baseline(r: Record, session: string, cursor: int): Record {
    r.(completionSession := session, cursor := cursor, eventId := 0, marker := "", state := "",
       hasFinalReply := false, turn := "", at := "")
  }

  function Marker(session: string, id: nat): string { session + ":" + Decimal(id) }

  lemma MarkerIsInjective(session: string, i: nat, j: nat)
    ensures Marker(session, i) == Marker(session, j) <==> i == j
  {
    if Marker(session, i) == Marker(session, j) {
      var n := |session| + 1;
      assert Decimal(i) == Marker(session, i)[n..] == Marker(session, j)[n..] == Decimal(j);
      DecimalIsInjective(i, j);
    }
  }

  // ---------- the scan over a history ----------

  /** Where the loop over the history stands: the cursor, the latest terminal and the turns that showed text. */
  datatype Scan = Scan(cursor: int, terminal: Option<Event>, replied: set<string>)

  function TerminalId(s: Scan): int { if s.terminal.Some? then s.terminal.value.id else 0 }

  predicate ShowsText(e: Event) { e.kind.Delta? && e.kind.hasText && Trim(e.turn) != "" }

  function Examine(s: Scan, e: Event): Scan {
    if e.id <= s.cursor then s
    else Scan(
      e.id,
      if e.kind.Terminal? && e.id > TerminalId(s) then Some(e) else s.terminal,
      if ShowsText(e) then s.replied + {e.turn} else s.replied)
  }

  function Start(cursor: int): Scan { Scan(cursor, None, {}) }

  function ScanAll(s: Scan, history: seq<Event>): Scan {
    if history == [] then s else Examine(ScanAll(s, history[..|history| - 1]), history[|history| - 1])
  }

  lemma {:induction false} ScanAllConcat(s: Scan, a: seq<Event>, b: seq<Event>)
    ensures ScanAll(s, a + b) == ScanAll(ScanAll(s, a), b)
  {
    if b == [] {
      assert a + b == a;
    } else {
      assert (a + b)[..|a + b| - 1] == a + b[..|b| - 1];
      ScanAllConcat(s, a, b[..|b| - 1]);
    }
  }

  // ---------- which events the loop examines ----------

  /** The events the loop does not skip. */
  function Examined(cursor: int, history: seq<Event>): seq<Event> {
    if history == [] then []
    else
      var before := history[..|history| - 1];
      var e := history[|history| - 1];
      if e.id <= ScanAll(Start(cursor), before).cursor then Examined(cursor, before)
      else Examined(cursor, before) + [e]
  }

  /** The events past the cursor the loop starts from. */
  function Beyond(cursor: int, history: seq<Event>): seq<Event> {
    if history == [] then []
    else
      var e := history[|history| - 1];
      var before := Beyond(cursor, history[..|history| - 1]);
      if e.id <= cursor then before else before + [e]
  }

  /** Ids strictly increase, starting above `cursor`. */
  predicate Increasing(history: seq<Event>, cursor: int) {
    && (forall e :: e in history ==> e.id > cursor)
    && (forall i, j :: 0 <= i < j < |history| ==> history[i].id < history[j].id)
  }

  function LastId(history: seq<Event>, cursor: int): int {
    if history == [] then cursor else history[|history| - 1].id
  }

  function Replies(history: seq<Event>): set<string> {
    set e | e in history && ShowsText(e) :: e.turn
  }

  lemma IncreasingPrefix(history: seq<Event>, cursor: int)
    requires history != [] && Increasing(history, cursor)
    ensures var before, e := history[..|history| - 1], history[|history| - 1];
            && Increasing(before, cursor)
            && LastId(before, cursor) < e.id
            && (forall x :: x in before ==> x.id < e.id)
            && Replies(history) == Replies(before) + (if ShowsText(e) then {e.turn} else {})
  {
    var before, e := history[..|history| - 1], history[|history| - 1];
    assert history == before + [e];
  }

  predicate IsLastTerminal(t: Option<Event>, history: seq<Event>) {
    match t
    case None => forall e :: e in history ==> !(e.kind.Terminal? && e.id > 0)
    case Some(last) =>
      && last in history && last.kind.Terminal? && last.id > 0
      && forall e :: e in history && e.kind.Terminal? ==> e.id <= last.id
  }

  /** What the loop ends with, read off the events it examined. */
  lemma {:induction false} ScanSummary(cursor: int, history: seq<Event>)
    ensures var p := Examined(cursor, history);
            var s := ScanAll(Start(cursor), history);
            && Increasing(p, cursor)
            && s.cursor == LastId(p, cursor)
            && s.replied == Replies(p)
            && IsLastTerminal(s.terminal, p)
  {
    if history != [] {
      ScanSummary(cursor, history[..|history| - 1]);
    }
  }

  lemma {:induction false} BeyondIsFilter(cursor: int, history: seq<Event>)
    ensures forall e :: e in Beyond(cursor, history) <==> e in history && e.id > cursor
  {
    if history != [] {
      BeyondIsFilter(cursor, history[..|history| - 1]);
      assert history == history[..|history| - 1] + [history[|history| - 1]];
    }
  }

  /** Every event past the cursor is examined exactly when their ids strictly increase. */
  lemma {:induction false} NothingIsSkippedIff(cursor: int, history: seq<Event>)
    ensures Examined(cursor, history) == Beyond(cursor, history) <==> Increasing(Beyond(cursor, history), cursor)
  {
    if Examined(cursor, history) == Beyond(cursor, history) {
      ScanSummary(cursor, history);
    }
    if Increasing(Beyond(cursor, history), cursor) {
      IncreasingIsExamined(cursor, history);
    }
  }

  lemma {:induction false} IncreasingIsExamined(cursor: int, history: seq<Event>)
    requires Increasing(Beyond(cursor, history), cursor)
    ensures Examined(cursor, history) == Beyond(cursor, history)
  {
    if history != [] {
      var before, e := history[..|history| - 1], history[|history| - 1];
      if e.id > cursor {
        IncreasingPrefix(Beyond(cursor, history), cursor);
        assert Beyond(cursor, history)[..|Beyond(cursor, before)|] == Beyond(cursor, before);
      }
      IncreasingIsExamined(cursor, before);
      ScanSummary(cursor, before);
    }
  }

  lemma {:induction false} IncreasingIsBeyond(cursor: int, history: seq<Event>)
    requires Increasing(history, cursor)
    ensures Beyond(cursor, history) == history
  {
    if history != [] {
      IncreasingPrefix(history, cursor);
      IncreasingIsBeyond(cursor, history[..|history| - 1]);
      assert history == history[..|history| - 1] + [history[|history| - 1]];
    }
  }

  /** Two semantic events of one source event: the second, here the terminal, is never seen. */
  lemma SameSourceIsSkipped(session: string, turn: string)
    requires session != "" && Trim(session) == session
    ensures var r := Record(session, session, 4, 0, "", "", false, "", "", true);
            var text := Event(5, Delta(true), turn, "");
            var done := Event(5, Terminal("completed"), turn, "");
            && Folded(r, session, [text, done], 5).marker == ""
            && Folded(r, session, [done], 5).marker == Marker(session, 5)
  {
    var text := Event(5, Delta(true), turn, "");
    var done := Event(5, Terminal("completed"), turn, "");
    assert [text, done][..1] == [text];
    assert ScanAll(Start(4), [text]) == Examine(Start(4), text);
    assert ScanAll(Start(4), [text, done]) == Examine(ScanAll(Start(4), [text]), done);
    assert ScanAll(Start(4), [done]) == Examine(Start(4), done);
  }

  // ---------- folding a history into the record ----------

  function StateOf(e: Event): string { if e.kind.Terminal? then e.kind.state else "" }

  function Settle(r: Record, session: string, s: Scan, latest: int): Record {
    var moved := r.(cursor := Max(s.cursor, latest), pending := false);
    if TerminalId(s) > r.eventId then
      var t := s.terminal.value;
      moved.(eventId := t.id, marker := Marker(session, t.id), state := StateOf(t),
             hasFinalReply := t.turn in s.replied, turn := t.turn, at := t.at)
    else moved
  }

  /** The record the fold starts from: a session it has not seen is inspected from its beginning. */
  function Base(r: Record, session: string): Record {
    if r.completionSession != session then Baseline(r, session, 0) else r
  }

  function Folded(r: Record, session: string, history: seq<Event>, latest: int): Record {
    if Trim(r.session) != session then r
    else
      var base := Base(r, session);
      Settle(base, session, ScanAll(Start(base.cursor), history), latest)
  }

  /** The fold in terms of the events it examined; `t` is the greatest terminal among them. */
  lemma FoldedMeans(r: Record, session: string, history: seq<Event>, latest: int) returns (t: Option<Event>)
    requires Trim(r.session) == session
    ensures var base := Base(r, session);
            var p := Examined(base.cursor, history);
            var f := Folded(r, session, history, latest);
            && IsLastTerminal(t, p)
            && f.cursor == Max(LastId(p, base.cursor), latest)
            && f.session == r.session && f.completionSession == session && !f.pending
            && (t.Some? && t.value.id > base.eventId ==>
                  && f.eventId == t.value.id && f.marker == Marker(session, t.value.id)
                  && f.state == t.value.kind.state && f.turn == t.value.turn && f.at == t.value.at
                  && (f.hasFinalReply <==> exists e :: e in p && ShowsText(e) && e.turn == f.turn))
            && (t.None? || t.value.id <= base.eventId ==>
                  f == base.(cursor := f.cursor, pending := false))
  {
    var base := Base(r, session);
    ScanSummary(base.cursor, history);
    t := ScanAll(Start(base.cursor), history).terminal;
  }

  /** A session not seen before starts without a completion, whatever the one before it had. */
  lemma NewSessionStartsClean(r: Record, session: string, history: seq<Event>, latest: int)
    requires Trim(r.session) == session != r.completionSession
    requires forall e :: e in Examined(0, history) ==> !e.kind.Terminal?
    ensures Folded(r, session, history, latest) ==
            Record(r.session, session, Max(LastId(Examined(0, history), 0), latest), 0, "", "", false, "", "", false)
  {
    var t := FoldedMeans(r, session, history, latest);
  }

  /** A marker is the session and, after a colon, the event. */
  lemma MarkerNamesSession(session: string, id: nat)
    ensures session <= Marker(session, id) && Marker(session, id)[|session|] == ':'
    ensures Marker(session, id)[|session| + 1..] == Decimal(id)
  {
  }

  /** The marker names the completion event, which the cursor has passed. */
  predicate Coherent(r: Record) {
    && (r.marker == if r.eventId == 0 then "" else Marker(r.completionSession, r.eventId))
    && (r.eventId > 0 ==> r.eventId <= r.cursor)
  }

  lemma FoldKeepsCoherent(r: Record, session: string, history: seq<Event>, latest: int)
    requires Coherent(r)
    ensures Coherent(Folded(r, session, history, latest))
  {
    if Trim(r.session) == session {
      var t := FoldedMeans(r, session, history, latest);
      var cursor := Base(r, session).cursor;
      LastIdIsLargest(Examined(cursor, history), cursor, history);
    }
  }

  lemma LastIdIsLargest(p: seq<Event>, cursor: int, history: seq<Event>)
    requires p == Examined(cursor, history)
    ensures LastId(p, cursor) >= cursor
    ensures forall e :: e in p ==> e.id <= LastId(p, cursor)
  {
    ScanSummary(cursor, history);
    if p != [] {
      assert p[|p| - 1] in p;
      forall e | e in p ensures e.id <= LastId(p, cursor) {
        var i :| 0 <= i < |p| && p[i] == e;
      }
    }
  }

  /** Neither the cursor nor the completion event moves back, and a new marker means a newer terminal. */
  lemma FoldOnlyAdvances(r: Record, session: string, history: seq<Event>, latest: int)
    requires Coherent(r) && r.completionSession == session
    ensures var f := Folded(r, session, history, latest);
            && f.cursor >= r.cursor
            && f.eventId >= r.eventId
            && (f.marker != r.marker <==> f.eventId > r.eventId)
  {
    if Trim(r.session) == session {
      var t := FoldedMeans(r, session, history, latest);
      LastIdIsLargest(Examined(r.cursor, history), r.cursor, history);
      MarkerIsInjective(session, Folded(r, session, history, latest).eventId, r.eventId);
      assert |Marker(session, r.eventId)| > 0;
      assert |Marker(session, Folded(r, session, history, latest).eventId)| > 0;
    }
  }

  /** Events already behind the cursor change nothing but the pending flag. */
  lemma {:induction false} ScanOfThePast(s: Scan, history: seq<Event>)
    requires forall e :: e in history ==> e.id <= s.cursor
    ensures ScanAll(s, history) == s
  {
    if history != [] {
      ScanOfThePast(s, history[..|history| - 1]);
    }
  }

  lemma ReplayOfThePast(r: Record, session: string, history: seq<Event>, latest: int)
    requires r.completionSession == session && Trim(r.session) == session
    requires latest <= r.cursor && forall e :: e in history ==> e.id <= r.cursor
    ensures Folded(r, session, history, latest) == r.(pending := false)
  {
    ScanOfThePast(Start(r.cursor), history);
  }

  lemma {:induction false} ScanPasses(s: Scan, history: seq<Event>)
    ensures ScanAll(s, history).cursor >= s.cursor
    ensures forall e :: e in history ==> e.id <= ScanAll(s, history).cursor
  {
    if history != [] {
      ScanPasses(s, history[..|history| - 1]);
      assert history == history[..|history| - 1] + [history[|history| - 1]];
    }
  }

  /** Folding the same history again is the identity, whatever the history. */
  lemma RefoldIsIdentity(r: Record, session: string, history: seq<Event>, latest: int)
    ensures var f := Folded(r, session, history, latest);
            Folded(f, session, history, latest) == f
  {
    if Trim(r.session) == session {
      var f := Folded(r, session, history, latest);
      ScanPasses(Start(Base(r, session).cursor), history);
      ReplayOfThePast(f, session, history, latest);
    }
  }

  // ---------- splitting a history ----------

  /** Equal up to CompletionHasFinalReply, which looks at one batch at a time. */
  predicate Alike(a: Record, b: Record) {
    a.(hasFinalReply := false) == b.(hasFinalReply := false)
  }

  lemma FoldAlike(a: Record, b: Record, session: string, history: seq<Event>, latest: int)
    requires Alike(a, b)
    ensures Alike(Folded(a, session, history, latest), Folded(b, session, history, latest))
  {
  }

  /** The last terminal of a history whose ids increase. */
  function LatestTerminal(history: seq<Event>): (t: Option<Event>)
    ensures t.Some? ==> t.value in history && t.value.kind.Terminal? && t.value.id > 0
  {
    if history == [] then None
    else
      var e := history[|history| - 1];
      if e.kind.Terminal? && e.id > 0 then Some(e) else LatestTerminal(history[..|history| - 1])
  }

  lemma {:induction false} LatestTerminalConcat(a: seq<Event>, b: seq<Event>)
    ensures LatestTerminal(a + b) == if LatestTerminal(b).Some? then LatestTerminal(b) else LatestTerminal(a)
  {
    if b == [] {
      assert a + b == a;
    } else {
      assert (a + b)[..|a + b| - 1] == a + b[..|b| - 1];
      LatestTerminalConcat(a, b[..|b| - 1]);
    }
  }

  /** What the scan of a history with increasing ids finds, without the loop. */
  lemma {:induction false} ScanIncreasing(cursor: int, history: seq<Event>)
    requires Increasing(history, cursor)
    ensures ScanAll(Start(cursor), history) ==
              Scan(LastId(history, cursor), LatestTerminal(history), Replies(history))
  {
    if history != [] {
      IncreasingPrefix(history, cursor);
      ScanIncreasing(cursor, history[..|history| - 1]);
    }
  }

  /** Where the second of two batches is cut: nothing the first reported as passed is in it. */
  predicate Consecutive(a: seq<Event>, passed: int, b: seq<Event>, cursor: int) {
    Increasing(a + b, cursor) && forall e :: e in b ==> e.id > passed
  }

  lemma FoldedIncreasing(r: Record, session: string, h: seq<Event>, latest: int)
    requires Trim(r.session) == session && Increasing(h, Base(r, session).cursor)
    ensures Folded(r, session, h, latest) == Settled(Base(r, session), session, h, latest)
  {
    ScanIncreasing(Base(r, session).cursor, h);
  }

  /** Two batches give the record one batch gives, up to CompletionHasFinalReply. */
  lemma SplitInTwo(r: Record, session: string, a: seq<Event>, m: int, b: seq<Event>, n: int)
    requires Consecutive(a, m, b, Base(r, session).cursor)
    ensures Alike(Folded(Folded(r, session, a, m), session, b, n), Folded(r, session, a + b, Max(m, n)))
  {
    if Trim(r.session) == session {
      SplitReplyIff(r, session, a, m, b, n);
    } else {
      assert Folded(r, session, a, m) == r;
    }
  }

  /**
   The completion event comes from `y`, the last terminal of the second batch, if that is newer than the event on
   record, and else from `x`, that of the first. The cut keeps the reply flag unless the text of its turn is in the
   other batch alone.
   */
  predicate CutKeepsReply(x: Option<Event>, early: set<string>, y: Option<Event>, late: set<string>, known: nat) {
    if y.Some? then y.value.id > known && y.value.turn in early ==> y.value.turn in late
    else x.Some? && x.value.id > known && x.value.turn in late ==> x.value.turn in early
  }

  /** Two batches give the very record one batch gives exactly when the cut keeps the reply flag. */
  lemma SplitReplyIff(r: Record, session: string, a: seq<Event>, m: int, b: seq<Event>, n: int)
    requires Trim(r.session) == session
    requires Consecutive(a, m, b, Base(r, session).cursor)
    ensures var two := Folded(Folded(r, session, a, m), session, b, n);
            var one := Folded(r, session, a + b, Max(m, n));
            && Alike(two, one)
            && (two == one <==>
                  CutKeepsReply(LatestTerminal(a), Replies(a), LatestTerminal(b), Replies(b), Base(r, session).eventId))
  {
    SplitSettled(Base(r, session), session, a, m, b, n);
    SplitIncreasing(a, m, b, Base(r, session).cursor);
    FoldedIncreasing(r, session, a, m);
    FoldedIncreasing(Folded(r, session, a, m), session, b, n);
    FoldedIncreasing(r, session, a + b, Max(m, n));
  }

  /** The text in the first batch and the terminal in the second: one batch sees a final reply, two do not. */
  lemma ReplyFlagDependsOnTheCut(session: string, turn: string)
    requires session != "" && Trim(session) == session && Trim(turn) != ""
    ensures var r := Record(session, session, 0, 0, "", "", false, "", "", true);
            var text := Event(1, Delta(true), turn, "");
            var done := Event(2, Terminal("completed"), turn, "");
            && Folded(r, session, [text] + [done], 2).hasFinalReply
            && !Folded(Folded(r, session, [text], 1), session, [done], 2).hasFinalReply
  {
    var text := Event(1, Delta(true), turn, "");
    var done := Event(2, Terminal("completed"), turn, "");
    assert ScanAll(Start(0), [text]) == Examine(Start(0), text);
    ScanAllConcat(Start(0), [text], [done]);
    assert ScanAll(ScanAll(Start(0), [text]), [done]) == Examine(ScanAll(Start(0), [text]), done);
    assert ScanAll(Start(1), [done]) == Examine(Start(1), done);
  }

  function Settled(base: Record, session: string, h: seq<Event>, latest: int): Record {
    Settle(base, session, Scan(LastId(h, base.cursor), LatestTerminal(h), Replies(h)), latest)
  }

  lemma SplitSettled(base: Record, session: string, a: seq<Event>, m: int, b: seq<Event>, n: int)
    requires base.completionSession == session
    requires Consecutive(a, m, b, base.cursor)
    ensures var two := Settled(Settled(base, session, a, m), session, b, n);
            var one := Settled(base, session, a + b, Max(m, n));
            && Alike(two, one)
            && (two == one <==>
                  CutKeepsReply(LatestTerminal(a), Replies(a), LatestTerminal(b), Replies(b), base.eventId))
  {
    var x := Scan(LastId(a, base.cursor), LatestTerminal(a), Replies(a));
    var first := Settle(base, session, x, m);
    var y := Scan(LastId(b, first.cursor), LatestTerminal(b), Replies(b));
    var last := LastId(a + b, base.cursor);
    assert Max(last, Max(m, n)) == Max(y.cursor, n) by {
      SplitIncreasing(a, m, b, base.cursor);
      if b != [] { assert b[|b| - 1] in b && (a + b)[|a + b| - 1] == b[|b| - 1]; } else { assert a + b == a; }
    }
    assert y.terminal.Some? ==> y.terminal.value.id > TerminalId(x) by {
      SplitIncreasing(a, m, b, base.cursor);
    }
    assert Replies(a + b) == x.replied + y.replied by {
      SplitIncreasing(a, m, b, base.cursor);
    }
    LatestTerminalConcat(a, b);
    SettleInTwo(base, session, x, m, y, n, last);
  }

  lemma SettleInTwo(base: Record, session: string, a: Scan, m: int, b: Scan, n: int, last: int)
    requires base.completionSession == session
    requires Max(last, Max(m, n)) == Max(b.cursor, n)
    requires a.terminal.Some? ==> a.terminal.value.id > 0
    requires b.terminal.Some? ==> b.terminal.value.id > TerminalId(a)
    ensures var two := Settle(Settle(base, session, a, m), session, b, n);
            var t := if b.terminal.Some? then b.terminal else a.terminal;
            var one := Settle(base, session, Scan(last, t, a.replied + b.replied), Max(m, n));
            && Alike(two, one)
            && (two == one <==> CutKeepsReply(a.terminal, a.replied, b.terminal, b.replied, base.eventId))
  {
  }

  lemma SplitIncreasing(a: seq<Event>, m: int, b: seq<Event>, cursor: int)
    requires Consecutive(a, m, b, cursor)
    ensures Increasing(a, cursor) && Increasing(b, Max(LastId(a, cursor), m))
    ensures forall x, y :: x in a && y in b ==> x.id < y.id
    ensures Replies(a + b) == Replies(a) + Replies(b)
  {
    assert forall i :: 0 <= i < |a| ==> a[i] == (a + b)[i];
    assert forall i :: 0 <= i < |b| ==> b[i] == (a + b)[|a| + i];
    forall x, y | x in a && y in b ensures x.id < y.id {
      var i :| 0 <= i < |a| && a[i] == x;
      var j :| 0 <= j < |b| && b[j] == y;
      assert (a + b)[i].id < (a + b)[|a| + j].id;
    }
  }

  // ---------- any number of batches ----------

  datatype Batch = Batch(history: seq<Event>, latest: int)

  function FoldBatches(r: Record, session: string, batches: seq<Batch>): Record {
    if batches == [] then r
    else
      var last := batches[|batches| - 1];
      Folded(FoldBatches(r, session, batches[..|batches| - 1]), session, last.history, last.latest)
  }

  function Flatten(batches: seq<Batch>): seq<Event> {
    if batches == [] then [] else Flatten(batches[..|batches| - 1]) + batches[|batches| - 1].history
  }

  function Passed(batches: seq<Batch>): int
    requires batches != []
  {
    var last := batches[|batches| - 1];
    if |batches| == 1 then last.latest else Max(Passed(batches[..|batches| - 1]), last.latest)
  }

  /** Each batch continues where the ones before it stopped. */
  predicate InOrder(batches: seq<Batch>, cursor: int) {
    && Increasing(Flatten(batches), cursor)
    && forall k :: 0 < k < |batches| ==> Continues(batches, k)
  }

  predicate Continues(batches: seq<Batch>, k: nat)
    requires 0 < k < |batches|
  {
    forall e :: e in batches[k].history ==> e.id > Passed(batches[..k])
  }

  lemma {:induction false} SplitIsOneBatch(r: Record, session: string, batches: seq<Batch>)
    requires batches != [] && InOrder(batches, Base(r, session).cursor)
    ensures Alike(FoldBatches(r, session, batches), Folded(r, session, Flatten(batches), Passed(batches)))
  {
    var n := |batches| - 1;
    var last := batches[n];
    var before := batches[..n];
    if n == 0 {
      assert Flatten(batches) == [] + last.history == last.history;
      assert FoldBatches(r, session, before) == r;
    } else {
      var all := Flatten(before) + last.history;
      assert InOrder(before, Base(r, session).cursor) by {
        assert forall i :: 0 <= i < |Flatten(before)| ==> Flatten(before)[i] == all[i];
        forall k | 0 < k < |before| ensures Continues(before, k) {
          assert before[..k] == batches[..k];
          assert Continues(batches, k);
        }
      }
      SplitIsOneBatch(r, session, before);
      assert Continues(batches, n);
      FoldAlike(FoldBatches(r, session, before), Folded(r, session, Flatten(before), Passed(before)), session,
                last.history, last.latest);
      SplitInTwo(r, session, Flatten(before), Passed(before), last.history, last.latest);
    }
  }
}
