/**
 Query, create, query again (findOrCreateAgentHubSession in
 internal/serve/agenthub_runtime.go) against a network that loses, delays and
 refuses requests, and an AgentHub that answers an identical create with the
 same idempotency key by the Session it already has.
 */
module SessionCreation {
  import opened Basics

  datatype Source = Source(app: string, instance: string, external: string)

  /** `body` stands for every other field of the create request. */
  datatype Request = Request(source: Source, key: string, body: string)

  /** A session remembers the request that made it; `id` is its place in the server's history. */
  datatype Session = Session(id: nat, request: Request)

  /** `pending` are creates the network still holds after their caller gave up. */
  datatype Server = Server(sessions: seq<Session>, pending: seq<Request>)

  datatype Reply = Created(session: Session) | Conflict

  /** The session an idempotency key already names. */
  function Named(sessions: seq<Session>, key: string): Option<Session> {
    if key == "" || sessions == [] then None
    else if sessions[|sessions| - 1].request.key == key then Some(sessions[|sessions| - 1])
    else Named(sessions[..|sessions| - 1], key)
  }

  function Process(s: Server, request: Request): (Server, Reply) {
    var named := Named(s.sessions, request.key);
    if named.Some? then (s, if named.value.request == request then Created(named.value) else Conflict)
    else
      var session := Session(|s.sessions|, request);
      (s.(sessions := s.sessions + [session]), Created(session))
  }

  /** The network delivers held creates, in any order; nobody waits for the replies. */
  function DeliverAll(s: Server, picks: seq<nat>): Server
    decreases |picks|
  {
    if picks == [] then s else DeliverAll(Deliver(s, picks[0]), picks[1..])
  }

  function Deliver(s: Server, i: nat): Server {
    if i < |s.pending|
    then Process(s.(pending := s.pending[..i] + s.pending[i + 1..]), s.pending[i]).0
    else s
  }

  /** The sessions of a source, as findAgentHubSourceSessions filters the listing. */
  function Find(sessions: seq<Session>, source: Source): seq<Session> {
    if sessions == [] then []
    else
      var last := sessions[|sessions| - 1];
      Find(sessions[..|sessions| - 1], source) + if last.request.source == source then [last] else []
  }

  method FindSourceSessions(listed: seq<Session>, source: Source) returns (filtered: seq<Session>)
    ensures filtered == Find(listed, source)
  {
    filtered := [];
    for i := 0 to |listed|
      invariant filtered == Find(listed[..i], source)
    {
      assert listed[..i + 1][..i] == listed[..i];
      if listed[i].request.source == source {
        filtered := filtered + [listed[i]];
      }
    }
    assert listed[..|listed|] == listed;
  }

  // ---------- one call ----------

  datatype Delivery = Replied | ReplyLost | Delayed | Refused

  /** What the network does to one call: the two queries, the create, and the held creates that arrive meanwhile. */
  datatype Weather = Weather(first: bool, meanwhile: seq<nat>, create: Delivery, later: seq<nat>, second: bool)

  datatype Outcome = Ok(session: Session) | QueryFailed | Unknown | CreateFailed(conflict: bool) | Duplicate

  function Single(found: seq<Session>, none: Outcome): Outcome {
    if |found| == 1 then Ok(found[0]) else if |found| == 0 then none else Duplicate
  }

  /** The server after the create, and the reply if one reached the caller. */
  function Send(s: Server, request: Request, d: Delivery): (Server, Option<Reply>) {
    match d
    case Replied => var (t, reply) := Process(s, request); (t, Some(reply))
    case ReplyLost => (Process(s, request).0, None)
    case Delayed => (s.(pending := s.pending + [request]), None)
    case Refused => (s, None)
  }

  function Recover(s: Server, request: Request, w: Weather, conflict: bool): (Server, Outcome) {
    var t := DeliverAll(s, w.later);
    (t, if w.second then Single(Find(t.sessions, request.source), CreateFailed(conflict)) else Unknown)
  }

  function Called(s: Server, request: Request, w: Weather): (Server, Outcome) {
    if !w.first then (s, QueryFailed)
    else if Find(s.sessions, request.source) != [] then (s, Single(Find(s.sessions, request.source), Unknown))
    else
      var (t, reply) := Send(DeliverAll(s, w.meanwhile), request, w.create);
      if reply.Some? && reply.value.Created? then (t, Ok(reply.value.session))
      else Recover(t, request, w, reply.Some?)
  }

  class AgentHub {
    var sessions: seq<Session>
    var pending: seq<Request>

    function Contents(): Server
      reads this
    {
      Server(sessions, pending)
    }

    method Create(request: Request) returns (reply: Reply)
      modifies this`sessions
      ensures (Contents(), reply) == Process(old(Contents()), request)
    {
      var named := Named(sessions, request.key);
      if named.Some? {
        return if named.value.request == request then Created(named.value) else Conflict;
      }
      var session := Session(|sessions|, request);
      sessions := sessions + [session];
      reply := Created(session);
    }

    method Arrive(picks: seq<nat>)
      modifies this
      ensures Contents() == DeliverAll(old(Contents()), picks)
    {
      assert picks[0..] == picks;
      for n := 0 to |picks|
        invariant DeliverAll(old(Contents()), picks) == DeliverAll(Contents(), picks[n..])
      {
        assert picks[n..][0] == picks[n] && picks[n..][1..] == picks[n + 1..];
        var i := picks[n];
        if i < |pending| {
          var request := pending[i];
          pending := pending[..i] + pending[i + 1..];
          var _ := Create(request);
        }
      }
    }

    method FindOrCreate(request: Request, w: Weather) returns (outcome: Outcome)
      modifies this
      ensures (Contents(), outcome) == Called(old(Contents()), request, w)
    {
      if !w.first { return QueryFailed; }
      var found := FindSourceSessions(sessions, request.source);
      if |found| == 1 { return Ok(found[0]); }
      if |found| > 1 { return Duplicate; }
      Arrive(w.meanwhile);
      var conflict := false;
      match w.create {
        case Replied =>
          var reply := Create(request);
          if reply.Created? { return Ok(reply.session); }
          conflict := true;
        case ReplyLost => var _ := Create(request);
        case Delayed => pending := pending + [request];
        case Refused =>
      }
      Arrive(w.later);
      if !w.second { return Unknown; }
      var recovered := FindSourceSessions(sessions, request.source);
      if |recovered| == 1 { return Ok(recovered[0]); }
      if |recovered| == 0 { return CreateFailed(conflict); }
      outcome := Duplicate;
    }
  }

  // ---------- what every step keeps ----------

  /** Key and source go together, on the server and in the network, and the key names at most one session. */
  predicate Paired(r: Request, source: Source, key: string) { r.source == source <==> r.key == key }

  predicate Sound(s: Server, source: Source, key: string) {
    && (forall x :: x in s.sessions ==> Paired(x.request, source, key))
    && (forall r :: r in s.pending ==> Paired(r, source, key))
    && |Find(s.sessions, source)| <= 1
  }

  lemma {:induction false} NamedIsFound(sessions: seq<Session>, source: Source, key: string)
    requires key != "" && forall x :: x in sessions ==> Paired(x.request, source, key)
    ensures Named(sessions, key).None? <==> Find(sessions, source) == []
    ensures Named(sessions, key).Some? ==> Named(sessions, key).value in Find(sessions, source)
  {
    if sessions != [] {
      assert sessions[|sessions| - 1] in sessions;
      NamedIsFound(sessions[..|sessions| - 1], source, key);
    }
  }

  lemma FindAppends(sessions: seq<Session>, x: Session, source: Source)
    ensures Find(sessions + [x], source) == Find(sessions, source) + if x.request.source == source then [x] else []
  {
    assert (sessions + [x])[..|sessions|] == sessions;
  }

  /** Later servers have what earlier ones had. */
  predicate Grown(s: Server, t: Server, source: Source) {
    Find(s.sessions, source) <= Find(t.sessions, source)
  }

  lemma ProcessKeeps(s: Server, r: Request, source: Source, key: string)
    requires key != "" && Sound(s, source, key) && Paired(r, source, key)
    ensures var (t, reply) := Process(s, r);
            && Sound(t, source, key) && Grown(s, t, source)
            && (r.source == source && reply.Created? ==> Find(t.sessions, source) == [reply.session])
            && (r.source == source ==> |Find(t.sessions, source)| == 1)
  {
    NamedIsFound(s.sessions, source, key);
    if Named(s.sessions, r.key).None? {
      FindAppends(s.sessions, Session(|s.sessions|, r), source);
    }
  }

  lemma {:induction false} DeliverKeeps(s: Server, picks: seq<nat>, source: Source, key: string)
    requires key != "" && Sound(s, source, key)
    ensures var t := DeliverAll(s, picks); Sound(t, source, key) && Grown(s, t, source)
    decreases |picks|
  {
    if picks != [] {
      var i := picks[0];
      if i < |s.pending| {
        var rest := s.(pending := s.pending[..i] + s.pending[i + 1..]);
        assert forall r :: r in rest.pending ==> r in s.pending;
        ProcessKeeps(rest, s.pending[i], source, key);
      }
      DeliverKeeps(Deliver(s, i), picks[1..], source, key);
    }
  }

  lemma SendKeeps(s: Server, request: Request, d: Delivery)
    requires request.key != "" && Sound(s, request.source, request.key)
    ensures var (t, reply) := Send(s, request, d);
            && Sound(t, request.source, request.key) && Grown(s, t, request.source)
            && (reply.Some? && reply.value.Created? ==> Find(t.sessions, request.source) == [reply.value.session])
            && (reply.Some? || d.ReplyLost? ==> |Find(t.sessions, request.source)| == 1)
  {
    match d
    case Replied => ProcessKeeps(s, request, request.source, request.key);
    case ReplyLost => ProcessKeeps(s, request, request.source, request.key);
    case Delayed => HoldingKeeps(s, request);
    case Refused =>
  }

  lemma HoldingKeeps(s: Server, request: Request)
    requires Sound(s, request.source, request.key)
    ensures Sound(s.(pending := s.pending + [request]), request.source, request.key)
  {
    var t := s.(pending := s.pending + [request]);
    forall r | r in t.pending ensures Paired(r, request.source, request.key) {
      assert r in s.pending || r == request;
    }
  }

  lemma RecoverKeeps(s: Server, request: Request, w: Weather, conflict: bool)
    requires request.key != "" && Sound(s, request.source, request.key)
    requires conflict ==> |Find(s.sessions, request.source)| == 1
    ensures var (t, outcome) := Recover(s, request, w, conflict);
            && Sound(t, request.source, request.key) && Grown(s, t, request.source)
            && (outcome.Ok? ==> Find(t.sessions, request.source) == [outcome.session])
            && outcome != Duplicate && outcome != CreateFailed(true)
            && (w.second && |Find(s.sessions, request.source)| == 1 ==> outcome.Ok?)
  {
    DeliverKeeps(s, w.later, request.source, request.key);
    var found := Find(DeliverAll(s, w.later).sessions, request.source);
    assert |found| == 1 ==> found == [found[0]];
  }

  /** One call, whatever the network does: still one session at most, and a success is that session. */
  lemma CallKeeps(s: Server, request: Request, w: Weather)
    requires request.key != "" && Sound(s, request.source, request.key)
    ensures var (t, outcome) := Called(s, request, w);
            && Sound(t, request.source, request.key) && Grown(s, t, request.source)
            && (outcome.Ok? ==> Find(t.sessions, request.source) == [outcome.session])
            && outcome != Duplicate && outcome != CreateFailed(true)
            && (w.first && (w.create.Replied? || w.create.ReplyLost?) && w.second ==> outcome.Ok?)
  {
    var found := Find(s.sessions, request.source);
    if found != [] {
      assert found == [found[0]];
    } else if w.first {
      var u := DeliverAll(s, w.meanwhile);
      DeliverKeeps(s, w.meanwhile, request.source, request.key);
      SendKeeps(u, request, w.create);
      var (t, reply) := Send(u, request, w.create);
      RecoverKeeps(t, request, w, reply.Some? && reply.value.Conflict?);
    }
  }

  // ---------- what the outcomes mean ----------

  /** A key is answered by one session: the same create gets it again, any other create with the key a conflict. */
  lemma KeyIsIdempotent(s: Server, request: Request, again: Request)
    requires request.key != "" && again.key == request.key
    ensures var (t, reply) := Process(s, request);
            reply.Created? ==>
              && reply.session in t.sessions && reply.session.request == request
              && Process(t, again) == (t, if again == request then Created(reply.session) else Conflict)
  {
    var (t, reply) := Process(s, request);
    if Named(s.sessions, request.key).None? {
      assert t.sessions[..|t.sessions| - 1] == s.sessions;
    } else {
      NamedIsThere(s.sessions, request.key);
    }
  }

  lemma {:induction false} NamedIsThere(sessions: seq<Session>, key: string)
    requires Named(sessions, key).Some?
    ensures Named(sessions, key).value in sessions && Named(sessions, key).value.request.key == key != ""
  {
    if sessions[|sessions| - 1].request.key != key {
      NamedIsThere(sessions[..|sessions| - 1], key);
    }
  }

  /** One held create arrives and the others stay held. */
  lemma OneArrives(s: Server, i: nat)
    requires i < |s.pending|
    ensures multiset(Deliver(s, i).pending) + multiset{s.pending[i]} == multiset(s.pending)
    ensures |Deliver(s, i).pending| == |s.pending| - 1
  {
    assert s.pending == s.pending[..i] + [s.pending[i]] + s.pending[i + 1..];
  }

  /** A call succeeds at once when its create is answered by a session; with no second query an unanswered one is unknown. */
  lemma CallOutcomes(s: Server, request: Request, w: Weather)
    ensures var reply := Send(DeliverAll(s, w.meanwhile), request, w.create).1;
            var o := Called(s, request, w).1;
            && (o == QueryFailed <==> !w.first)
            && (w.first && Find(s.sessions, request.source) == [] ==>
                  && (reply.Some? && reply.value.Created? ==> o == Ok(reply.value.session))
                  && (reply.None? || reply.value.Conflict? ==> (o == Unknown <==> !w.second))
                  && (o.CreateFailed? ==> (o.conflict <==> reply.Some?)))
  {
  }

  // ---------- whole runs ----------

  datatype Event =
    | Call(body: string, weather: Weather)
    | Arrival(picks: seq<nat>)
    | Foreign(request: Request)

  /** Calls for one source and key, held creates arriving at any time, and the creates of everybody else. */
  function Step(s: Server, source: Source, key: string, e: Event): (Server, Option<Outcome>) {
    match e
    case Call(body, w) => var (t, o) := Called(s, Request(source, key, body), w); (t, Some(o))
    case Arrival(picks) => (DeliverAll(s, picks), None)
    case Foreign(r) => if r.source == source || r.key == key then (s, None) else (Process(s, r).0, None)
  }

  function Run(s: Server, source: Source, key: string, events: seq<Event>): Server {
    if events == [] then s
    else Step(Run(s, source, key, events[..|events| - 1]), source, key, events[|events| - 1]).0
  }

  function Outcomes(s: Server, source: Source, key: string, events: seq<Event>): seq<Option<Outcome>> {
    if events == [] then []
    else
      var before := events[..|events| - 1];
      Outcomes(s, source, key, before) + [Step(Run(s, source, key, before), source, key, events[|events| - 1]).1]
  }

  lemma StepKeeps(s: Server, source: Source, key: string, e: Event)
    requires key != "" && Sound(s, source, key)
    ensures var (t, o) := Step(s, source, key, e);
            && Sound(t, source, key) && Grown(s, t, source)
            && (o.Some? && o.value.Ok? ==> Find(t.sessions, source) == [o.value.session])
            && (o.Some? ==> o.value != Duplicate && o.value != CreateFailed(true))
  {
    match e
    case Call(body, w) => CallKeeps(s, Request(source, key, body), w);
    case Arrival(picks) => DeliverKeeps(s, picks, source, key);
    case Foreign(r) => if r.source != source && r.key != key { ProcessKeeps(s, r, source, key); }
  }

  /**
   In every run with one key the source has at most one session, every success returns
   it, and no call ever sees a duplicate or an idempotency conflict.
   */
  lemma {:induction false} OneSessionPerSource(s: Server, source: Source, key: string, events: seq<Event>)
    requires key != "" && Sound(s, source, key)
    ensures var t := Run(s, source, key, events);
            var outcomes := Outcomes(s, source, key, events);
            && Sound(t, source, key)
            && (forall o :: o in outcomes && o.Some? && o.value.Ok? ==> Find(t.sessions, source) == [o.value.session])
            && (forall o :: o in outcomes && o.Some? ==> o.value != Duplicate && o.value != CreateFailed(true))
  {
    if events != [] {
      var before := events[..|events| - 1];
      OneSessionPerSource(s, source, key, before);
      StepKeeps(Run(s, source, key, before), source, key, events[|events| - 1]);
    }
  }

  /** Creates for other sources under other keys happen and do not disturb this one. */
  lemma ForeignIsIndependent(s: Server, source: Source, key: string, r: Request)
    requires r.source != source && r.key != key
    ensures var t := Step(s, source, key, Foreign(r)).0;
            && Find(t.sessions, source) == Find(s.sessions, source)
            && (r.key == "" ==> |Find(t.sessions, r.source)| == |Find(s.sessions, r.source)| + 1)
  {
    if Named(s.sessions, r.key).None? {
      FindAppends(s.sessions, Session(|s.sessions|, r), source);
      FindAppends(s.sessions, Session(|s.sessions|, r), r.source);
    }
  }

  /** A call that the network leaves alone succeeds, and finds the session an earlier create left behind. */
  lemma UndisturbedCallSucceeds(s: Server, request: Request, w: Weather)
    requires request.key != "" && Sound(s, request.source, request.key)
    requires w.first && (w.create.Replied? || w.create.ReplyLost?) && w.second
    ensures Called(s, request, w).1.Ok?
    ensures Find(s.sessions, request.source) != [] ==>
              Called(s, request, w) == (s, Ok(Find(s.sessions, request.source)[0]))
  {
    CallKeeps(s, request, w);
  }

  // ---------- without a key ----------

  const CALM := Weather(true, [], Replied, [], true)
  const LATE := Weather(true, [], Delayed, [], true)

  const EMPTY := Server([], [])

  /** A held create, a retry, and then the held create arrives. */
  function Unlucky(): seq<Event> {
    [Call("", LATE), Call("", CALM), Arrival([0])]
  }

  lemma UnluckyCalls(source: Source)
    ensures var r := Request(source, "", "");
            && Called(EMPTY, r, LATE).0 == Server([], [r])
            && Called(Server([], [r]), r, CALM).0 == Server([Session(0, r)], [r])
            && DeliverAll(Server([Session(0, r)], [r]), [0]) == Server([Session(0, r), Session(1, r)], [])
  {
    var r := Request(source, "", "");
    var x := Session(0, r);
    assert [] + [x] == [x] && [x] + [Session(1, r)] == [x, Session(1, r)] && [] + [r] == [r];
    assert [r][..0] + [r][1..] == [];
    assert Deliver(Server([x], [r]), 0) == Server([x, Session(1, r)], []);
  }

  lemma UnluckyRun(source: Source)
    ensures |Find(Run(EMPTY, source, "", Unlucky()).sessions, source)| == 2
  {
    var r := Request(source, "", "");
    var x, y := Session(0, r), Session(1, r);
    var events := Unlucky();
    UnluckyCalls(source);
    assert events[..1] == [events[0]] && events[..2] == [events[0], events[1]];
    assert Run(EMPTY, source, "", []) == EMPTY;
    RunLast(EMPTY, source, [], events[0]);
    RunLast(EMPTY, source, [events[0]], events[1]);
    RunLast(EMPTY, source, [events[0], events[1]], events[2]);
    assert [events[0], events[1]] + [events[2]] == events;
    FindAppends([x], y, source);
    FindAppends([], x, source);
    assert [] + [x] == [x] && [x] + [y] == [x, y];
  }

  lemma RunLast(s: Server, source: Source, before: seq<Event>, e: Event)
    ensures Run(s, source, "", before + [e]) == Step(Run(s, source, "", before), source, "", e).0
  {
    assert (before + [e])[..|before|] == before;
  }

  /** The idempotency key is what makes the recovery safe: with it every run keeps one session, without it some run makes two. */
  lemma SafeIffKeyed(source: Source, key: string)
    ensures key != "" <==>
            forall events :: |Find(Run(EMPTY, source, key, events).sessions, source)| <= 1
  {
    if key != "" {
      forall events ensures |Find(Run(EMPTY, source, key, events).sessions, source)| <= 1 {
        OneSessionPerSource(EMPTY, source, key, events);
      }
    } else {
      UnluckyRun(source);
    }
  }

  /** Once a source has two sessions, no call for it ever succeeds again. */
  lemma DuplicateIsFinal(s: Server, request: Request, w: Weather)
    requires |Find(s.sessions, request.source)| >= 2
    ensures Called(s, request, w).0 == s && (Called(s, request, w).1 == Duplicate || Called(s, request, w).1 == QueryFailed)
  {
  }
}
