/**
 Retiring a generation whose AgentHub session is archived
 (internal/serve/agenthub_reconcile.go): the replay that proves the session
 passed through stopped, and the reconciliation that retires on that proof or
 on a stopped edge observed earlier.
 */
module ArchivedProof {
  import opened Basics
  import opened Durable
  import opened EventLog
  import TurnCompletion
  import opened CompletionReplay

  // ---------- the replay ----------

  /** Complete with the frames consumed, or broken, for good or until the next attempt. */
  datatype Replayed = Complete(frames: seq<Frame>) | Broken(permanent: bool)

  predicate Undecodable(events: seq<Event>) {
    exists e :: e in events && e.kind == SessionState(None)
  }

  predicate PassedStopped(events: seq<Event>) {
    exists e :: e in events && e.kind == SessionState(Some("stopped"))
  }

  /** The replay from `cursor`, its requests answered by `script`; no answer is a transport error. */
  function Replay(script: seq<Response>, cursor: int): Replayed {
    if script == [] then Broken(false)
    else
      match script[0]
      case Failure(permanent) => Broken(permanent)
      case Page(frames, latest) =>
        var got := Consume(frames, cursor);
        if got.gap || Undecodable(EventsOf(got.taken)) then Broken(true)
        else if got.cursor >= latest then Complete(got.taken)
        else if got.taken == [] then Broken(true)
        else After(got.taken, Replay(script[1..], got.cursor))
  }

  function After(frames: seq<Frame>, rest: Replayed): Replayed {
    if rest.Broken? then rest else Complete(frames + rest.frames)
  }

  /** How many requests the replay makes. */
  function Requests(script: seq<Response>, cursor: int): (n: nat)
    ensures n <= |script|
  {
    if script == [] then 0
    else if script[0].Failure? then 1
    else
      var got := Consume(script[0].frames, cursor);
      if got.gap || Undecodable(EventsOf(got.taken)) || got.cursor >= script[0].latest || got.taken == [] then 1
      else 1 + Requests(script[1..], got.cursor)
  }

  datatype Proof = Proof(stopped: bool, history: seq<Event>, cursor: int) | NoProof(permanent: bool)

  /** One event of the replay: the decoded state, or the failure to decode it. */
  method Look(event: Event, seen: bool) returns (bad: bool, stopped: bool)
    ensures bad <==> event.kind == SessionState(None)
    ensures !bad ==> (stopped <==> seen || event.kind == SessionState(Some("stopped")))
  {
    bad, stopped := false, seen;
    match event.kind
    case SessionState(None) => bad := true;
    case SessionState(Some(state)) => if state == "stopped" { stopped := true; }
    case _ =>
  }

  method LookAll(events: seq<Event>, seen: bool) returns (bad: bool, stopped: bool)
    ensures bad <==> Undecodable(events)
    ensures !bad ==> (stopped <==> seen || PassedStopped(events))
  {
    bad, stopped := false, seen;
    for i := 0 to |events|
      invariant !Undecodable(events[..i])
      invariant stopped <==> seen || PassedStopped(events[..i])
    {
      assert events[..i + 1] == events[..i] + [events[i]];
      bad, stopped := Look(events[i], stopped);
      if bad { return; }
    }
    assert events[..|events|] == events;
  }

  lemma SeenConcat(a: seq<Event>, b: seq<Event>)
    ensures Undecodable(a + b) <==> Undecodable(a) || Undecodable(b)
    ensures PassedStopped(a + b) <==> PassedStopped(a) || PassedStopped(b)
  {
    forall e | e in a || e in b ensures e in a + b {}
  }

  /** One page of the replay: frames in order, each event looked at as its frame is consumed. */
  method ProvePage(frames: seq<Frame>, start: int, seen: bool)
    returns (broken: bool, cursor: int, taken: seq<Frame>, stopped: bool)
    ensures var got := Consume(frames, start);
            && (broken <==> got.gap || Undecodable(EventsOf(got.taken)))
            && (!broken ==> cursor == got.cursor && taken == got.taken
                            && (stopped <==> seen || PassedStopped(EventsOf(taken))))
  {
    broken, cursor, taken, stopped := false, start, [], seen;
    assert frames[0..] == frames;
    for i := 0 to |frames|
      invariant !broken
      invariant Consume(frames, start).gap == Consume(frames[i..], cursor).gap
      invariant Consume(frames, start).cursor == Consume(frames[i..], cursor).cursor
      invariant Consume(frames, start).taken == taken + Consume(frames[i..], cursor).taken
      invariant !Undecodable(EventsOf(taken))
      invariant stopped <==> seen || PassedStopped(EventsOf(taken))
    {
      ConsumeFrom(frames, i, cursor);
      var frame := frames[i];
      if frame.cursor <= cursor {
        continue;
      }
      if frame.cursor != cursor + 1 {
        return true, cursor, taken, stopped;
      }
      cursor := frame.cursor;
      ghost var rest := Consume(frames[i + 1..], cursor).taken;
      ghost var before := taken;
      AppendOne(taken, frame, rest);
      taken := taken + [frame];
      FrameAdded(before, frame, rest);
      var bad, now := LookAll(frame.events, stopped);
      if bad {
        return true, cursor, taken, stopped;
      }
      stopped := now;
    }
    assert taken + [] == taken;
  }

  lemma AppendOne(taken: seq<Frame>, frame: Frame, rest: seq<Frame>)
    ensures taken + ([frame] + rest) == (taken + [frame]) + rest
  {
  }

  /** What one more consumed frame adds to what was seen. */
  lemma FrameAdded(taken: seq<Frame>, frame: Frame, rest: seq<Frame>)
    ensures Undecodable(EventsOf(taken + [frame])) <==> Undecodable(EventsOf(taken)) || Undecodable(frame.events)
    ensures PassedStopped(EventsOf(taken + [frame])) <==> PassedStopped(EventsOf(taken)) || PassedStopped(frame.events)
    ensures Undecodable(frame.events) ==> Undecodable(EventsOf(taken + [frame] + rest))
  {
    EventsOfConcat(taken, [frame]);
    EventsOfOne(frame);
    EventsOfConcat(taken + [frame], rest);
    SeenConcat(EventsOf(taken), frame.events);
    SeenConcat(EventsOf(taken + [frame]), EventsOf(rest));
  }

  lemma EventsOfOne(frame: Frame)
    ensures EventsOf([frame]) == frame.events
  {
    assert [frame][1..] == [];
  }

  /** proveAgentHubArchivedAfterStopped. */
  method Prove(script: seq<Response>) returns (proof: Proof, requests: nat)
    ensures proof == Verdict(Replay(script, 0))
    ensures requests == Requests(script, 0)
  {
    var cursor, stopped := 0, false;
    var consumed: seq<Frame> := [];
    requests := 0;
    assert script[0..] == script;
    while requests < |script|
      invariant requests <= |script|
      invariant Replay(script, 0) == After(consumed, Replay(script[requests..], cursor))
      invariant Requests(script, 0) == requests + Requests(script[requests..], cursor)
      invariant cursor == |consumed|
      invariant stopped <==> PassedStopped(EventsOf(consumed))
    {
      var response := script[requests];
      assert script[requests..][0] == response && script[requests..][1..] == script[requests + 1..];
      requests := requests + 1;
      if response.Failure? {
        return NoProof(response.permanent), requests;
      }
      ConsumeIsContiguous(response.frames, cursor);
      var broken, reached, taken, now := ProvePage(response.frames, cursor, stopped);
      if broken {
        return NoProof(true), requests;
      }
      EventsOfConcat(consumed, taken);
      SeenConcat(EventsOf(consumed), EventsOf(taken));
      AfterTwice(consumed, taken, Replay(script[requests..], reached));
      cursor, stopped, consumed := reached, now, consumed + taken;
      if cursor >= response.latest {
        return Proof(stopped, EventsOf(consumed), cursor), requests;
      }
      if taken == [] {
        return NoProof(true), requests;
      }
    }
    return NoProof(false), requests;
  }

  lemma AfterTwice(a: seq<Frame>, b: seq<Frame>, rest: Replayed)
    ensures After(a, After(b, rest)) == After(a + b, rest)
  {
    if rest.Complete? {
      assert a + (b + rest.frames) == (a + b) + rest.frames;
    }
  }

  function Verdict(r: Replayed): Proof {
    match r
    case Complete(frames) => Proof(PassedStopped(EventsOf(frames)), EventsOf(frames), |frames|)
    case Broken(permanent) => NoProof(permanent)
  }

  // ---------- sound against any server ----------

  /** The frames of the first `n` answers. */
  predicate Offered(script: seq<Response>, n: nat, f: Frame)
    requires n <= |script|
  {
    exists k :: 0 <= k < n && script[k].Page? && f in script[k].frames
  }

  /** Whatever the server answers, success means every cursor up to the last reported latest was consumed, in order. */
  lemma {:induction false} ReplayIsSound(script: seq<Response>, cursor: int)
    requires Replay(script, cursor).Complete?
    ensures var frames := Replay(script, cursor).frames;
            var n := Requests(script, cursor);
            && Contiguous(frames, cursor)
            && !Undecodable(EventsOf(frames))
            && n > 0
            && (forall k :: 0 <= k < n ==> script[k].Page?)
            && cursor + |frames| >= script[n - 1].latest
            && (forall f :: f in frames ==> Offered(script, n, f))
  {
    var got := Consume(script[0].frames, cursor);
    ConsumeIsContiguous(script[0].frames, cursor);
    var n := Requests(script, cursor);
    if got.cursor < script[0].latest {
      ReplayIsSound(script[1..], got.cursor);
      var rest := Replay(script[1..], got.cursor).frames;
      ContiguousConcat(got.taken, rest, cursor);
      EventsOfConcat(got.taken, rest);
      SeenConcat(EventsOf(got.taken), EventsOf(rest));
      assert forall k :: 0 < k < n ==> script[k] == script[1..][k - 1];
      forall f | f in rest ensures Offered(script, n, f) {
        OfferedLater(script, n, f);
      }
    }
    forall f | f in got.taken ensures Offered(script, n, f) {
      assert f in script[0].frames;
    }
  }

  lemma OfferedLater(script: seq<Response>, n: nat, f: Frame)
    requires 0 < n <= |script| && Offered(script[1..], n - 1, f)
    ensures Offered(script, n, f)
  {
    var k :| 0 <= k < n - 1 && script[1..][k].Page? && f in script[1..][k].frames;
    assert script[k + 1] == script[1..][k];
  }

  /** The cursor once the first `n` answers, all of them pages, are consumed. */
  function Reached(script: seq<Response>, cursor: int, n: nat): int
    requires n <= |script| && forall k :: 0 <= k < n ==> script[k].Page?
  {
    if n == 0 then cursor else Reached(script[1..], Consume(script[0].frames, cursor).cursor, n - 1)
  }

  /** An answer at this cursor that no later attempt could mend: a gap, an undecodable state, or nothing new before the end. */
  predicate IsFatal(answer: Response, cursor: int) {
    match answer
    case Failure(permanent) => permanent
    case Page(frames, latest) =>
      var got := Consume(frames, cursor);
      || got.gap
      || (exists e :: e in EventsOf(got.taken) && e.kind == SessionState(None))
      || (got.taken == [] && cursor < latest)
  }

  /** The replay fails for good exactly when the last answer it asks for is fatal where it has got to. */
  lemma {:induction false} FailsForGoodIff(script: seq<Response>, cursor: int)
    ensures var n := Requests(script, cursor);
            && (forall k :: 0 <= k < n - 1 ==> script[k].Page?)
            && (Replay(script, cursor) == Broken(true) <==>
                  n > 0 && IsFatal(script[n - 1], Reached(script, cursor, n - 1)))
  {
    if script != [] && script[0].Page? {
      var got := Consume(script[0].frames, cursor);
      var n := Requests(script, cursor);
      if n > 1 {
        FailsForGoodIff(script[1..], got.cursor);
        assert forall k :: 0 < k < n ==> script[k] == script[1..][k - 1];
      } else {
        ConsumeIsContiguous(script[0].frames, cursor);
        if !got.gap && !Undecodable(EventsOf(got.taken)) && got.cursor < script[0].latest && got.taken != [] {
          assert Requests(script[1..], got.cursor) == 0 && script[1..] == [];
        }
      }
    }
  }

  // ---------- exact over an immutable log ----------

  predicate Numbered(log: seq<Frame>) {
    Contiguous(log, 0)
  }

  /**
   Answers drawn from one log: transient failures, and pages that overlap what was read in
   any way but carry at least one new frame while there is one.
   */
  ghost predicate Answers(script: seq<Response>, log: seq<Frame>, cursor: nat)
    requires cursor <= |log|
    decreases |script|
  {
    script == [] ||
    match script[0]
    case Failure(permanent) => !permanent
    case Page(frames, latest) =>
      && latest == |log|
      && exists b: nat, e: nat :: FromLog(frames, log, b, e) && b <= cursor <= e && (e > cursor || cursor == |log|)
                                  && Answers(script[1..], log, e)
  }

  predicate FromLog(frames: seq<Frame>, log: seq<Frame>, b: nat, e: nat) {
    b <= e <= |log| && frames == log[b..e]
  }

  lemma {:induction false} ConsumeFromLog(log: seq<Frame>, b: nat, e: nat, cursor: nat)
    requires Numbered(log) && b <= cursor <= e <= |log|
    ensures Consume(log[b..e], cursor) == Intake(false, e, log[cursor..e])
    decreases e - b
  {
    if b < e {
      assert log[b..e][1..] == log[b + 1..e];
      if b < cursor {
        ConsumeFromLog(log, b + 1, e, cursor);
      } else {
        ConsumeFromLog(log, b + 1, e, cursor + 1);
        assert log[cursor..e] == [log[b]] + log[cursor + 1..e];
      }
    }
  }

  lemma RestSplits(log: seq<Frame>, cursor: nat, e: nat)
    requires cursor <= e <= |log|
    ensures log[cursor..] == log[cursor..e] + log[e..]
    ensures Undecodable(EventsOf(log[cursor..])) <==>
            Undecodable(EventsOf(log[cursor..e])) || Undecodable(EventsOf(log[e..]))
  {
    EventsOfConcat(log[cursor..e], log[e..]);
    SeenConcat(EventsOf(log[cursor..e]), EventsOf(log[e..]));
  }

  /**
   Over an immutable log whose pages progress, the replay fails for good only on an undecodable
   state, completes with the whole log otherwise, and needs at most one request a frame.
   */
  lemma {:induction false} ReplayIsExact(script: seq<Response>, log: seq<Frame>, cursor: nat)
    requires Numbered(log) && cursor <= |log| && Answers(script, log, cursor)
    ensures var bad := Undecodable(EventsOf(log[cursor..]));
            var r := Replay(script, cursor);
            && (r == Broken(false) || (bad && r == Broken(true)) || (!bad && r == Complete(log[cursor..])))
            && (|script| > |log| - cursor && (forall k :: 0 <= k < |script| ==> script[k].Page?) ==> r != Broken(false))
    decreases |script|
  {
    if script != [] && script[0].Page? {
      var frames := script[0].frames;
      var b: nat, e: nat :| FromLog(frames, log, b, e) && b <= cursor <= e && (e > cursor || cursor == |log|)
                            && Answers(script[1..], log, e);
      ConsumeFromLog(log, b, e, cursor);
      RestSplits(log, cursor, e);
      if e < |log| {
        ReplayIsExact(script[1..], log, e);
        assert forall k :: 0 < k < |script| ==> script[k] == script[1..][k - 1];
      } else {
        assert log[e..] == [];
        assert log[cursor..e] == log[cursor..];
      }
    }
  }

  /** So with |log| + 1 answered requests the proof says yes exactly when some state of the log is stopped. */
  lemma {:induction false} ProofIsExact(script: seq<Response>, log: seq<Frame>)
    requires Numbered(log) && Answers(script, log, 0)
    requires |script| > |log| && forall k :: 0 <= k < |script| ==> script[k].Page?
    ensures Verdict(Replay(script, 0)) ==
            if exists e :: e in EventsOf(log) && e.kind == SessionState(None) then NoProof(true)
            else Proof(exists e :: e in EventsOf(log) && e.kind == SessionState(Some("stopped")), EventsOf(log), |log|)
  {
    ReplayIsExact(script, log, 0);
    assert log[0..] == log;
  }
}
