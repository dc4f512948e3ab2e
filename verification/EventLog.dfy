/** Pages of the AgentHub event log and the gap check both replay loops apply to them. */
module EventLog {
  import opened Basics

  datatype Kind =
    | Delta(hasText: bool)            // message.assistant.delta, and whether its text is not blank
    | Terminal(state: string)         // turn.completed, turn.failed or turn.cancelled, without the "turn."
    | SessionState(decoded: Option<string>)  // session.state; None when its data cannot be decoded
    | OtherKind

  /** A semantic event; `id` is the source event it was derived from, and a frame may hold several of one source. */
  datatype Event = Event(id: int, kind: Kind, turn: string, at: string)

  datatype Frame = Frame(cursor: int, events: seq<Event>)

  datatype Response =
    | Page(frames: seq<Frame>, latest: int)
    | Failure(permanent: bool)

  const PAGE_SIZE := 500

  function EventsOf(frames: seq<Frame>): seq<Event> {
    if frames == [] then [] else frames[0].events + EventsOf(frames[1..])
  }

  lemma {:induction false} EventsOfConcat(a: seq<Frame>, b: seq<Frame>)
    ensures EventsOf(a + b) == EventsOf(a) + EventsOf(b)
  {
    if a == [] {
      assert a + b == b;
    } else {
      assert (a + b)[1..] == a[1..] + b;
      EventsOfConcat(a[1..], b);
    }
  }

  /** The cursor after a page, and the frames it added; a gap ends the page where it is found. */
  datatype Intake = Intake(gap: bool, cursor: int, taken: seq<Frame>)

  function Consume(frames: seq<Frame>, cursor: int): Intake {
    if frames == [] then Intake(false, cursor, [])
    else if frames[0].cursor <= cursor then Consume(frames[1..], cursor)
    else if frames[0].cursor != cursor + 1 then Intake(true, cursor, [])
    else
      var rest := Consume(frames[1..], frames[0].cursor);
      rest.(taken := [frames[0]] + rest.taken)
  }

  /** The frames carry the cursors right after `from`, without a gap or a repetition. */
  predicate Contiguous(frames: seq<Frame>, from: int) {
    forall k :: 0 <= k < |frames| ==> frames[k].cursor == from + 1 + k
  }

  lemma {:induction false} ConsumeIsContiguous(frames: seq<Frame>, cursor: int)
    ensures Contiguous(Consume(frames, cursor).taken, cursor)
    ensures Consume(frames, cursor).cursor == cursor + |Consume(frames, cursor).taken|
    ensures forall f :: f in Consume(frames, cursor).taken ==> f in frames
  {
    if frames != [] {
      if frames[0].cursor <= cursor {
        ConsumeIsContiguous(frames[1..], cursor);
      } else if frames[0].cursor == cursor + 1 {
        ConsumeIsContiguous(frames[1..], cursor + 1);
      }
    }
  }

  lemma ContiguousConcat(a: seq<Frame>, b: seq<Frame>, from: int)
    requires Contiguous(a, from) && Contiguous(b, from + |a|)
    ensures Contiguous(a + b, from)
  {
  }

  /** The inner loop over the frames of one page, as it accumulates from `i` on. */
  lemma {:induction false} ConsumeFrom(frames: seq<Frame>, i: nat, cursor: int)
    requires i < |frames|
    ensures Consume(frames[i..], cursor) ==
            if frames[i].cursor <= cursor then Consume(frames[i + 1..], cursor)
            else if frames[i].cursor != cursor + 1 then Intake(true, cursor, [])
            else Consume(frames[i + 1..], frames[i].cursor).(
                   taken := [frames[i]] + Consume(frames[i + 1..], frames[i].cursor).taken)
  {
    assert frames[i..][1..] == frames[i + 1..];
  }

  /** One page of either replay loop. */
  method TakePage(frames: seq<Frame>, start: int) returns (gap: bool, cursor: int, taken: seq<Frame>)
    ensures Intake(gap, cursor, taken) == Consume(frames, start)
  {
    gap, cursor, taken := false, start, [];
    assert frames[0..] == frames;
    for i := 0 to |frames|
      invariant !gap
      invariant Consume(frames, start) == Consume(frames[i..], cursor).(taken := taken + Consume(frames[i..], cursor).taken)
    {
      ConsumeFrom(frames, i, cursor);
      var frame := frames[i];
      if frame.cursor <= cursor {
        continue;
      }
      if frame.cursor != cursor + 1 {
        return true, cursor, taken;
      }
      cursor := frame.cursor;
      taken := taken + [frame];
    }
  }
}
