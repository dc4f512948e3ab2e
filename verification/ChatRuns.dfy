/**
 Whole runs of one shared chat: inputs and their retries, opening and closing,
 publications, read marks and outbox reconciliations, in any order. A request
 whose process stops before the save leaves no trace, and so does not appear.
 */
module ChatRuns {
  import opened Basics
  import opened ChatModel
  import opened SharedChat
  import opened ChatOutbox
  import Migration = ChatMigration

  datatype Event =
    | Input(id: string, text: string, user: string, at: int)
    | Open(token: string)
    | Close
    | Publish(identity: string, presented: string, archived: bool, id: string, text: string, at: int)
    | Mark(user: string, id: string)
    | Reconcile(registered: set<string>, archived: bool, fault: Fault)

  function Step(env: Env, w: World, e: Event): World {
    var c := w.chat;
    match e
    case Input(id, text, user, at) => w.(chat := InputAppended(env, c, id, text, user, at).0)
    case Open(token) => w.(chat := if c.open then c else Opened(c, token))
    case Close => w.(chat := Closed(c))
    case Publish(identity, presented, archived, id, text, at) =>
      w.(chat := Published(env, c, identity, presented, archived, id, text, at).0)
    case Mark(user, id) => w.(chat := MarkedRead(c, user, id).0)
    case Reconcile(registered, archived, fault) => Reconciled(env, w, registered, archived, fault).0
  }

  function Run(env: Env, w: World, events: seq<Event>): World {
    if events == [] then w else Step(env, Run(env, w, events[..|events| - 1]), events[|events| - 1])
  }

  /** What holds of every reachable shared chat. */
  ghost predicate Invariant(c: Chat) {
    && c.version >= 4
    && Consistent(c)
    && forall d :: d in c.outbox ==> d.epoch <= c.epoch && (d.sourceChatId == "" || d.sourceChatId != c.id)
  }

  // ---------- the invariant ----------

  lemma MoreAcceptedIsConsistent(c: Chat, c': Chat)
    requires MoreAccepted(c, c') && Invariant(c)
    ensures Invariant(c')
  {
    SameEntriesAreOwn(c, c');
    forall d | d in c'.outbox ensures d.epoch <= c'.epoch && (d.sourceChatId == "" || d.sourceChatId != c'.id) {
      var k :| 0 <= k < |c'.outbox| && c'.outbox[k] == d;
      assert c.outbox[k] in c.outbox;
    }
  }

  lemma ReconcileEffect(env: Env, w: World, registered: set<string>, archived: bool, fault: Fault)
    ensures var w' := Reconciled(env, w, registered, archived, fault).0;
            && Explained(env, Revoke(w.chat, registered), registered, archived, w.mailbox, w'.mailbox)
            && (w'.chat == w.chat || MoreAccepted(Revoke(w.chat, registered), w'.chat))
  {
    PassDelivers(env, Revoke(w.chat, registered), registered, archived, w.mailbox, 0, fault);
  }

  lemma StepKeepsInvariant(env: Env, w: World, e: Event)
    requires Invariant(w.chat)
    ensures Invariant(Step(env, w, e).chat)
  {
    var c := w.chat;
    match e
    case Input(id, text, user, at) => InputIsQueuedOnce(env, c, id, text, user, at);
    case Publish(identity, presented, archived, id, text, at) =>
      AppendKeepsConsistent(c, Publication(c, identity, PublishId(env, c, identity, id), id, text, at));
    case Reconcile(registered, archived, fault) =>
      ReconcileEffect(env, w, registered, archived, fault);
      var w' := Step(env, w, e);
      if w'.chat != c {
        assert Invariant(Revoke(c, registered));
        MoreAcceptedIsConsistent(Revoke(c, registered), w'.chat);
      }
    case Open(_) =>
    case Close =>
    case Mark(_, _) =>
  }

  /**
   In every reachable chat message ids are distinct and each accepted input has exactly one outbox entry.
   */
  lemma {:induction false} RunKeepsInvariant(env: Env, w: World, events: seq<Event>)
    requires Invariant(w.chat)
    ensures Invariant(Run(env, w, events).chat)
  {
    if events != [] {
      RunKeepsInvariant(env, w, events[..|events| - 1]);
      StepKeepsInvariant(env, Run(env, w, events[..|events| - 1]), events[|events| - 1]);
    }
  }

  lemma MigratedMessagesAreLegacy(chats: seq<Chat>, shared: Chat, p: nat)
    requires Migration.MergedInOrder(chats, shared.messages) && p < |shared.messages|
    ensures exists i :: 0 <= i < |chats| && chats[i].id == shared.messages[p].legacyChatId
  {
    assert Migration.HasTurn(chats, shared.messages, p);
    var i :| 0 <= i < |chats| && Migration.TakenFrom(chats, shared.messages, p, i);
    assert chats[i].id == shared.messages[p].legacyChatId;
  }

  /** A freshly migrated chat satisfies the invariant, so everything here holds from the migration on. */
  lemma MigrationEstablishesInvariant(hash: ChatHash, chats: seq<Chat>, registered: set<string>, shared: Chat)
    requires Migration.Migrated(hash, chats, registered, shared)
    requires forall i :: 0 <= i < |chats| ==> chats[i].id != "" && chats[i].id != shared.id
    ensures Invariant(shared)
  {
    forall m | m in shared.messages ensures !IsInput(m) {
      var p :| 0 <= p < |shared.messages| && shared.messages[p] == m;
      MigratedMessagesAreLegacy(chats, shared, p);
    }
    forall d | d in shared.outbox ensures d.epoch <= shared.epoch && d.sourceChatId != shared.id && d.sourceChatId != "" {
      Migration.CarriedExactly(chats, registered, shared.epoch, d);
    }
    assert forall k :: 0 <= k < |shared.outbox| ==> shared.outbox[k] in shared.outbox;
    assert OwnEntries(shared.outbox) == {} && InputIds(shared.messages) == {};
  }

  // ---------- delivery ----------

  /**
   The entry is open work for somebody else, and as a user's input of the present epoch of an open chat; an input of a
   migrated chat also needs the capability of its source and a registered user.
   */
  predicate IsDue(c: Chat, registered: set<string>, archived: bool, k: nat)
    requires k < |c.outbox|
  {
    var d := c.outbox[k];
    && !d.accepted && d.target != "dialogue-" + c.id
    && ("input-" <= d.id || "migrated-input-" <= d.id ==>
          && c.open && !archived && d.epoch == c.epoch
          && (d.sourceChatId != "" ==>
                && d.sourceChatId in c.sources && c.sources[d.sourceChatId].open
                && c.sources[d.sourceChatId].user in registered))
  }

  /** A mailbox message appears only in a reconciliation, for an entry that was open work and deliverable right then. */
  lemma DeliveredOnlyWhileOpen(env: Env, w: World, e: Event, id: string)
    requires id in Step(env, w, e).mailbox && id !in w.mailbox
    ensures e.Reconcile?
    ensures exists k :: 0 <= k < |w.chat.outbox| && IsDue(w.chat, e.registered, e.archived, k)
              && MailId(env, w.chat, w.chat.outbox[k]) == id
              && Carries(Step(env, w, e).mailbox[id], w.chat, w.chat.outbox[k])
  {
    if e.Reconcile? {
      ReconcileEffect(env, w, e.registered, e.archived, e.fault);
      var c := Revoke(w.chat, e.registered);
      var k: nat :| Delivers(env, c, e.registered, e.archived, k, id, Step(env, w, e).mailbox[id]);
      assert MailId(env, w.chat, w.chat.outbox[k]) == MailId(env, c, c.outbox[k]);
      assert IsDue(w.chat, e.registered, e.archived, k);
    }
  }

  /** No two entries share the mailbox id of an own or a distinct entry, so it has at most one mailbox message. */
  lemma OneMailPerInput(env: Env, c: Chat, k: nat, l: nat)
    requires Injective(env.hash) && Invariant(c)
    requires k < |c.outbox| && l < |c.outbox| && (c.outbox[k].sourceChatId == "" || DistinctEntries(c))
    ensures MailId(env, c, c.outbox[k]) == MailId(env, c, c.outbox[l]) <==> k == l
  {
    if MailId(env, c, c.outbox[k]) == MailId(env, c, c.outbox[l]) {
      MailIdIsInjective(env, c, c.outbox[k], c.outbox[l]);
      assert c.outbox[l] in c.outbox;
      assert c.outbox[k].sourceChatId == "" ==> c.outbox[l].sourceChatId == "";
    }
  }

  /** The chat was closed, or closed and opened again, since the entry was queued. */
  predicate Fenced(c: Chat, d: Delivery) { d.epoch < c.epoch || (!c.open && d.epoch <= c.epoch) }

  ghost predicate FencedAt(env: Env, w: World, k: nat, id: string) {
    && k < |w.chat.outbox|
    && w.chat.outbox[k].UserInput()
    && Fenced(w.chat, w.chat.outbox[k])
    && MailId(env, w.chat, w.chat.outbox[k]) == id
    && id !in w.mailbox
  }

  /** The entry does not share its mailbox id. */
  ghost predicate Alone(env: Env, c: Chat, k: nat)
    requires k < |c.outbox|
  {
    forall l :: 0 <= l < |c.outbox| && MailId(env, c, c.outbox[l]) == MailId(env, c, c.outbox[k]) ==> l == k
  }

  lemma FencedStep(env: Env, w: World, e: Event, k: nat, id: string)
    requires FencedAt(env, w, k, id) && Alone(env, w.chat, k) && Invariant(w.chat)
    ensures FencedAt(env, Step(env, w, e), k, id)
  {
    var w' := Step(env, w, e);
    if id in w'.mailbox {
      DeliveredOnlyWhileOpen(env, w, e, id);
      assert false;
    }
    match e
    case Input(i, text, user, at) =>
      InputIsQueuedOnce(env, w.chat, i, text, user, at);
    case Reconcile(registered, archived, fault) =>
      ReconcileEffect(env, w, registered, archived, fault);
    case Publish(_, _, _, _, _, _) =>
    case Open(_) =>
    case Close =>
    case Mark(_, _) =>
  }

  lemma AloneStep(env: Env, w: World, e: Event, k: nat)
    requires Injective(env.hash) && Invariant(w.chat) && k < |w.chat.outbox| && Alone(env, w.chat, k)
    ensures var c' := Step(env, w, e).chat;
            k < |c'.outbox| && Alone(env, c', k)
  {
    var c, c' := w.chat, Step(env, w, e).chat;
    match e
    case Input(i, text, user, at) =>
      StepKeepsInvariant(env, w, e);
      InputIsQueuedOnce(env, c, i, text, user, at);
      if c' != c {
        NewestLeavesAlone(env, c, c', k);
      }
    case Reconcile(registered, archived, fault) =>
      ReconcileEffect(env, w, registered, archived, fault);
      SameKeys(env, c, c', k);
    case Publish(_, _, _, _, _, _) => SameKeys(env, c, c', k);
    case Open(_) => SameKeys(env, c, c', k);
    case Close => SameKeys(env, c, c', k);
    case Mark(_, _) => SameKeys(env, c, c', k);
  }

  lemma SameKeys(env: Env, c: Chat, c': Chat, k: nat)
    requires c'.id == c.id && |c'.outbox| == |c.outbox| && k < |c.outbox| && Alone(env, c, k)
    requires forall l :: 0 <= l < |c.outbox| ==>
               c'.outbox[l].sourceChatId == c.outbox[l].sourceChatId && c'.outbox[l].id == c.outbox[l].id
    ensures Alone(env, c', k)
  {
    assert forall l :: 0 <= l < |c.outbox| ==> MailId(env, c', c'.outbox[l]) == MailId(env, c, c.outbox[l]);
  }

  lemma NewestLeavesAlone(env: Env, c: Chat, c': Chat, k: nat)
    requires Injective(env.hash) && Invariant(c') && k < |c.outbox| && Alone(env, c, k)
    requires c'.id == c.id && |c'.outbox| == |c.outbox| + 1 && c'.outbox[..|c.outbox|] == c.outbox
    requires c'.outbox[|c.outbox|].sourceChatId == ""
    ensures Alone(env, c', k)
  {
    var n := |c.outbox|;
    forall l | 0 <= l < n ensures MailId(env, c', c'.outbox[l]) == MailId(env, c, c.outbox[l]) {
      assert c'.outbox[..n][l] == c'.outbox[l];
    }
    OneMailPerInput(env, c', n, k);
  }

  lemma {:induction false} AloneStaysFenced(env: Env, w: World, events: seq<Event>, k: nat, id: string)
    requires Injective(env.hash) && Invariant(w.chat) && FencedAt(env, w, k, id) && Alone(env, w.chat, k)
    ensures FencedAt(env, Run(env, w, events), k, id) && Alone(env, Run(env, w, events).chat, k)
  {
    if events != [] {
      var before := events[..|events| - 1];
      AloneStaysFenced(env, w, before, k, id);
      RunKeepsInvariant(env, w, before);
      FencedStep(env, Run(env, w, before), events[|events| - 1], k, id);
      AloneStep(env, Run(env, w, before), events[|events| - 1], k);
    }
  }

  /**
   An input still undelivered when its chat closes is never delivered, whatever follows: an own one, and one carried
   over by the migration, whose entries are distinct.
   */
  lemma FencedInputsAreNeverDelivered(env: Env, w: World, events: seq<Event>, k: nat, id: string)
    requires Injective(env.hash) && Invariant(w.chat) && FencedAt(env, w, k, id)
    requires w.chat.outbox[k].sourceChatId == "" || DistinctEntries(w.chat)
    ensures id !in Run(env, w, events).mailbox
    ensures FencedAt(env, Run(env, w, events), k, id)
  {
    forall l | 0 <= l < |w.chat.outbox| && MailId(env, w.chat, w.chat.outbox[l]) == id ensures l == k {
      OneMailPerInput(env, w.chat, k, l);
    }
    AloneStaysFenced(env, w, events, k, id);
  }

  /** The same sources, without their capabilities. */
  predicate AllRevoked(was: map<string, Source>, now: map<string, Source>) {
    now.Keys == was.Keys && forall id :: id in was ==> now[id] == was[id].(open := false, token := "")
  }

  /** A close refuses every input and publication, and loses no message and no entry. */
  lemma CloseRefuses(
      env: Env, w: World, user: string, identity: string, presented: string, archived: bool, id: string, text: string, at: int)
    ensures var c := Step(env, w, Close).chat;
            && InputAppended(env, c, id, text, user, at) == (c, Failed(ChatClosed))
            && Published(env, c, identity, presented, archived, id, text, at) == (c, Failed(Expired))
            && c == w.chat.(open := false, token := "", sources := c.sources) && AllRevoked(w.chat.sources, c.sources)
  {
  }

  /** What is not delivered by the time of a close is never delivered, whatever follows, another opening included. */
  lemma CloseFences(env: Env, w: World, events: seq<Event>, k: nat)
    requires Injective(env.hash) && Sound(env, w) && k < |w.chat.outbox| && w.chat.outbox[k].UserInput()
    requires MailId(env, w.chat, w.chat.outbox[k]) !in w.mailbox
    ensures MailId(env, w.chat, w.chat.outbox[k]) !in Run(env, Step(env, w, Close), events).mailbox
  {
    var id, closed := MailId(env, w.chat, w.chat.outbox[k]), Step(env, w, Close);
    StepKeepsSound(env, w, Close);
    assert w.chat.outbox[k] in w.chat.outbox;
    assert FencedAt(env, closed, k, id);
    FencedInputsAreNeverDelivered(env, closed, events, k, id);
  }

  /**
   Opening a closed chat with a fresh capability: a new epoch, under which a new input is queued, and the capability
   publishes while every other one is refused.
   */
  lemma OpenAccepts(
      env: Env, w: World, token: string, user: string, id: string, text: string, at: int,
      identity: string, presented: string)
    requires Invariant(w.chat) && !w.chat.open && token != "" && user != "" && Usable(id, text)
    ensures var c := Step(env, w, Open(token)).chat;
            && c == w.chat.(open := true, epoch := c.epoch, epochStart := Some(|w.chat.messages|), token := token,
                            sources := c.sources)
            && c.epoch > w.chat.epoch && AllRevoked(w.chat.sources, c.sources)
            && (RetryIndex(c.messages, user, id) == |c.messages| && !HasId(c.messages, id) ==>
                  var (c', result) := InputAppended(env, c, id, text, user, at);
                  && result == Done && |c'.outbox| == |c.outbox| + 1
                  && var d := c'.outbox[|c.outbox|];
                     d.epoch == c.epoch && d.id == "input-" + id && !d.accepted && d.sender == user && d.target == c.resource
                     && d.text == env.prompt(token, user, id, text))
            && (!HasId(c.messages, id) ==>
                  var (c', result) := Published(env, c, c.id, token, false, id, text, at);
                  result == Done && c'.messages == c.messages + [Plain(id, Agent, text, at)])
            && (presented != token || identity != c.id ==>
                  Published(env, c, identity, presented, false, id, text, at) == (c, Failed(Expired)))
  {
    var c := Step(env, w, Open(token)).chat;
    assert Invariant(c) by {
      StepKeepsInvariant(env, w, Open(token));
    }
    if RetryIndex(c.messages, user, id) == |c.messages| && !HasId(c.messages, id) {
      InputIsQueuedOnce(env, c, id, text, user, at);
      FreshInputIsQueued(c, InputMessage(id, id, text, user, at), c.resource, env.prompt(c.token, user, id, text));
    }
  }

  /** Opening an open chat changes nothing: no other epoch, and the capability stays. */
  lemma ReopeningIsNoOp(env: Env, w: World, token: string)
    requires w.chat.open
    ensures Step(env, w, Open(token)) == w
  {
  }

  /** Mailbox messages are never changed or withdrawn by the chat. */
  lemma {:induction false} MailIsImmutable(env: Env, w: World, events: seq<Event>)
    ensures Grows(w.mailbox, Run(env, w, events).mailbox)
  {
    if events != [] {
      var before := events[..|events| - 1];
      MailIsImmutable(env, w, before);
      var last := events[|events| - 1];
      if last.Reconcile? {
        ReconcileEffect(env, Run(env, w, before), last.registered, last.archived, last.fault);
      }
    }
  }

  // ---------- retries ----------

  /** A request adds at most one message, under an id of its own, and leaves version and id of the chat alone. */
  lemma StepAppends(env: Env, w: World, e: Event)
    requires Invariant(w.chat)
    ensures var c, c' := w.chat, Step(env, w, e).chat;
            && c'.version == c.version && c'.id == c.id
            && (c'.messages == c.messages
                || exists m: Message :: !HasId(c.messages, m.id) && c'.messages == c.messages + [m] && IsAddition(env, c, e, m))
  {
    var c, c' := w.chat, Step(env, w, e).chat;
    match e
    case Input(id, text, user, at) =>
      InputIsQueuedOnce(env, c, id, text, user, at);
      if c' != c {
        var m := InputMessage(PublicId(env, c, user, id), id, text, user, at);
        assert c'.messages == c.messages + [m] && IsAddition(env, c, e, m);
      }
    case Publish(identity, presented, archived, id, text, at) =>
      var m := Publication(c, identity, PublishId(env, c, identity, id), id, text, at);
      if c'.messages != c.messages {
        assert c'.messages == c.messages + [m] && !HasId(c.messages, m.id) && IsAddition(env, c, e, m);
      }
    case Reconcile(registered, archived, fault) =>
      ReconcileEffect(env, w, registered, archived, fault);
    case Open(_) =>
    case Close =>
    case Mark(_, _) =>
  }

  /** What a request may add: an input without a source, or a publication under the id the chat stores it under. */
  predicate IsAddition(env: Env, c: Chat, e: Event, m: Message) {
    match e
    case Input(_, _, _, _) => m.publishOrigin == "" && m.legacyChatId == ""
    case Publish(identity, _, _, id, _, _) =>
      && m.legacyChatId == ""
      && m.id == PublishId(env, c, identity, id)
      && if identity == c.id then m.publishOrigin == "" else m.publishOrigin == identity && m.clientId == id
    case _ => false
  }

  lemma {:induction false} RunAppends(env: Env, w: World, events: seq<Event>)
    requires Invariant(w.chat)
    ensures var c' := Run(env, w, events).chat;
            w.chat.messages <= c'.messages && c'.version == w.chat.version && c'.id == w.chat.id
  {
    if events != [] {
      var before := events[..|events| - 1];
      RunAppends(env, w, before);
      RunKeepsInvariant(env, w, before);
      StepAppends(env, Run(env, w, before), events[|events| - 1]);
    }
  }

  lemma RetryIsStable(a: seq<Message>, b: seq<Message>, user: string, id: string)
    requires a <= b && RetryIndex(a, user, id) < |a|
    ensures RetryIndex(b, user, id) == RetryIndex(a, user, id)
  {
    var i := RetryIndex(a, user, id);
    assert forall k :: 0 <= k <= i ==> a[k] == b[k];
  }

  /** An accepted input stays accepted: its repetition after any events changes nothing, and succeeds while the chat is open. */
  lemma InputStaysAccepted(
      env: Env, w: World, events: seq<Event>, id: string, text: string, user: string, at: int, later: int)
    requires Invariant(w.chat) && InputAppended(env, w.chat, id, text, user, at).1 == Done
    ensures var c := Run(env, Step(env, w, Input(id, text, user, at)), events).chat;
            InputAppended(env, c, id, text, user, later) == (c, if c.open then Done else Failed(ChatClosed))
  {
    var w1 := Step(env, w, Input(id, text, user, at));
    StepKeepsInvariant(env, w, Input(id, text, user, at));
    var m := InputMessage(PublicId(env, w.chat, user, id), id, text, user, at);
    InputIsQueuedOnce(env, w.chat, id, text, user, at);
    if w1.chat != w.chat {
      FirstRetryIsAppended(w.chat.messages, m, user, id);
    }
    RunAppends(env, w1, events);
    RetryIsStable(w1.chat.messages, Run(env, w1, events).chat.messages, user, id);
  }

  lemma IndexIsStable(a: seq<Message>, b: seq<Message>, id: string)
    requires a <= b && IndexOf(a, id) < |a|
    ensures IndexOf(b, id) == IndexOf(a, id) && b[IndexOf(b, id)] == a[IndexOf(a, id)]
  {
    var i := IndexOf(a, id);
    assert forall k :: 0 <= k <= i ==> a[k] == b[k];
  }

  lemma PublicationIsStable(a: seq<Message>, b: seq<Message>, identity: string, id: string)
    requires a <= b && PublicationIndex(a, identity, id) < |a|
    ensures PublicationIndex(b, identity, id) == PublicationIndex(a, identity, id)
  {
    var i := PublicationIndex(a, identity, id);
    assert forall k :: 0 <= k <= i ==> a[k] == b[k];
  }

  lemma NoPublicationAdded(a: seq<Message>, m: Message, identity: string, id: string)
    requires PublicationIndex(a, identity, id) == |a| && !IsPublication(m, identity, id)
    ensures PublicationIndex(a + [m], identity, id) == |a| + 1
  {
    assert forall k :: 0 <= k < |a| ==> (a + [m])[k] == a[k];
  }

  /** The publication of this identity under this id is stored as `stored`, with this text. */
  ghost predicate IsStored(env: Env, c: Chat, identity: string, id: string, stored: string, text: string) {
    && PublishId(env, c, identity, id) == stored
    && var i := IndexOf(c.messages, stored);
       i < |c.messages| && c.messages[i].role == Agent && c.messages[i].text == text
  }

  lemma AdditionKeepsStored(
      env: Env, c: Chat, e: Event, m: Message, c': Chat, identity: string, id: string, stored: string, text: string)
    requires identity != "" && IsStored(env, c, identity, id, stored, text) && IsAddition(env, c, e, m)
    requires !HasId(c.messages, m.id) && c'.messages == c.messages + [m] && c'.id == c.id
    ensures IsStored(env, c', identity, id, stored, text)
  {
    var i := IndexOf(c.messages, stored);
    IndexIsStable(c.messages, c'.messages, stored);
    assert m.id != stored;
    if identity != c.id {
      if PublicationIndex(c.messages, identity, id) < |c.messages| {
        PublicationIsStable(c.messages, c'.messages, identity, id);
      } else {
        NoPublicationAdded(c.messages, m, identity, id);
        assert stored == id ==> m.id != id;
        assert forall x :: x in c'.messages <==> x in c.messages || x == m;
      }
    }
  }

  lemma {:induction false} RunKeepsStored(
      env: Env, w: World, events: seq<Event>, identity: string, id: string, stored: string, text: string)
    requires Invariant(w.chat) && identity != "" && IsStored(env, w.chat, identity, id, stored, text)
    ensures IsStored(env, Run(env, w, events).chat, identity, id, stored, text)
  {
    if events != [] {
      var before, e := events[..|events| - 1], events[|events| - 1];
      var c, c' := Run(env, w, before).chat, Run(env, w, events).chat;
      RunKeepsStored(env, w, before, identity, id, stored, text);
      RunKeepsInvariant(env, w, before);
      StepAppends(env, Run(env, w, before), e);
      if c'.messages != c.messages {
        var m: Message :| !HasId(c.messages, m.id) && c'.messages == c.messages + [m] && IsAddition(env, c, e, m);
        AdditionKeepsStored(env, c, e, m, c', identity, id, stored, text);
      }
    }
  }

  /**
   An accepted publication stays accepted: its repetition after any events changes nothing, and succeeds exactly with
   the capability its identity has then. Every identity is the id of a chat and so not blank.
   */
  lemma PublicationStaysAccepted(
      env: Env, w: World, events: seq<Event>, identity: string, presented: string, id: string, text: string, at: int,
      shown: string, archived: bool, later: int)
    requires Invariant(w.chat) && identity != ""
    requires Published(env, w.chat, identity, presented, false, id, text, at).1 == Done
    ensures var c := Run(env, Step(env, w, Publish(identity, presented, false, id, text, at)), events).chat;
            Published(env, c, identity, shown, archived, id, text, later) ==
              (c, if c.open && !archived && Capability(c, identity) == shown != "" then Done else Failed(Expired))
  {
    var e := Publish(identity, presented, false, id, text, at);
    var w1 := Step(env, w, e);
    var stored := PublishId(env, w.chat, identity, id);
    StepKeepsInvariant(env, w, e);
    PublicationIsStored(env, w.chat, identity, presented, id, text, at);
    RunKeepsStored(env, w1, events, identity, id, stored, text);
    RunAppends(env, w1, events);
  }

  lemma PublicationIsStored(env: Env, c: Chat, identity: string, presented: string, id: string, text: string, at: int)
    requires Published(env, c, identity, presented, false, id, text, at).1 == Done
    ensures var stored := PublishId(env, c, identity, id);
            && Usable(stored, text)
            && IsStored(env, Published(env, c, identity, presented, false, id, text, at).0, identity, id, stored, text)
  {
    var stored := PublishId(env, c, identity, id);
    var m := Publication(c, identity, stored, id, text, at);
    var c' := Published(env, c, identity, presented, false, id, text, at).0;
    if c' != c {
      FirstIdIsAppended(c.messages, m);
      if identity != c.id {
        FirstPublicationIsAppended(c.messages, m, identity, id);
      }
    }
  }

  // ---------- conflicts ----------

  function OwnMailId(env: Env, c: Chat, id: string): string { "chat-" + env.hash(c.id, id) }

  /** What holds of every reachable world: entries and mail are matched, and the mail of an own entry is explained by it. */
  ghost predicate Sound(env: Env, w: World) {
    && Invariant(w.chat)
    && DistinctEntries(w.chat) && Agrees(env, w.chat, w.mailbox)
    && forall x :: OwnMailId(env, w.chat, x) in w.mailbox ==> x in OwnEntries(w.chat.outbox)
  }

  lemma OwnMailIdIsInjective(env: Env, c: Chat, d: Delivery, x: string)
    requires Injective(env.hash) && MailId(env, c, d) == OwnMailId(env, c, x)
    ensures SourceOf(c, d) == c.id && d.id == x
  {
    assert MailId(env, c, d)[5..] == env.hash(SourceOf(c, d), d.id);
    assert OwnMailId(env, c, x)[5..] == env.hash(c.id, x);
  }

  lemma NewestIsNew(outbox: seq<Delivery>, d: Delivery)
    requires DistinctOwnEntries(outbox + [d]) && d.sourceChatId == ""
    ensures d.id !in OwnEntries(outbox)
  {
    forall x | x in OwnEntries(outbox) ensures x != d.id {
      var k :| 0 <= k < |outbox| && outbox[k].sourceChatId == "" && outbox[k].id == x;
      assert (outbox + [d])[k] == outbox[k] && (outbox + [d])[|outbox|] == d;
    }
  }

  lemma InputKeepsSound(env: Env, w: World, id: string, text: string, user: string, at: int)
    requires Injective(env.hash) && Sound(env, w)
    ensures Sound(env, w.(chat := InputAppended(env, w.chat, id, text, user, at).0))
  {
    var c, c' := w.chat, InputAppended(env, w.chat, id, text, user, at).0;
    StepKeepsInvariant(env, w, Input(id, text, user, at));
    InputIsQueuedOnce(env, c, id, text, user, at);
    if c' != c {
      hide InputAppended;
      var n := |c.outbox|;
      var d := c'.outbox[n];
      OwnEntriesGrow(c.outbox, d);
      NewestIsNew(c.outbox, d);
      forall k | 0 <= k < n ensures SourceOf(c', c'.outbox[k]) != SourceOf(c', d) || c'.outbox[k].id != d.id {
        assert c'.outbox[k] == c.outbox[k] && c.outbox[k] in c.outbox;
      }
      assert MailId(env, c', d) == OwnMailId(env, c, d.id);
      assert forall k :: 0 <= k < n ==>
        MailId(env, c', c'.outbox[k]) == MailId(env, c, c.outbox[k]) && MailOf(c', c'.outbox[k]) == MailOf(c, c.outbox[k]);
      assert forall x :: OwnMailId(env, c', x) == OwnMailId(env, c, x);
    }
  }

  lemma SameEntriesAreOwn(c: Chat, c': Chat)
    requires MoreAccepted(c, c')
    ensures OwnEntries(c'.outbox) == OwnEntries(c.outbox)
  {
    forall x ensures x in OwnEntries(c'.outbox) <==> x in OwnEntries(c.outbox) {
      if x in OwnEntries(c.outbox) {
        var k :| 0 <= k < |c.outbox| && c.outbox[k].sourceChatId == "" && c.outbox[k].id == x;
        assert c'.outbox[k] in c'.outbox && c'.outbox[k].id == x;
      }
      if x in OwnEntries(c'.outbox) {
        var k :| 0 <= k < |c'.outbox| && c'.outbox[k].sourceChatId == "" && c'.outbox[k].id == x;
        assert c.outbox[k] in c.outbox && c.outbox[k].id == x;
      }
    }
  }

  lemma ReconcileKeepsSound(env: Env, w: World, registered: set<string>, archived: bool, fault: Fault)
    requires Injective(env.hash) && Sound(env, w)
    ensures Sound(env, Reconciled(env, w, registered, archived, fault).0)
  {
    var c, w' := Revoke(w.chat, registered), Reconciled(env, w, registered, archived, fault).0;
    StepKeepsInvariant(env, w, Reconcile(registered, archived, fault));
    ReconcileAgrees(env, w, registered, archived, fault);
    ReconcileEffect(env, w, registered, archived, fault);
    assert OwnEntries(w'.chat.outbox) == OwnEntries(w.chat.outbox) && w'.chat.id == w.chat.id by {
      if w'.chat != w.chat {
        SameEntriesAreOwn(c, w'.chat);
      }
    }
    forall x | OwnMailId(env, w'.chat, x) in w'.mailbox ensures x in OwnEntries(w.chat.outbox) {
      var id := OwnMailId(env, w.chat, x);
      if id !in w.mailbox {
        var k: nat :| Delivers(env, c, registered, archived, k, id, w'.mailbox[id]);
        OwnMailIdIsInjective(env, c, c.outbox[k], x);
        assert w.chat.outbox[k] in w.chat.outbox;
      }
    }
  }

  lemma StepKeepsSound(env: Env, w: World, e: Event)
    requires Injective(env.hash) && Sound(env, w)
    ensures Sound(env, Step(env, w, e))
  {
    match e
    case Input(id, text, user, at) => InputKeepsSound(env, w, id, text, user, at);
    case Reconcile(registered, archived, fault) => ReconcileKeepsSound(env, w, registered, archived, fault);
    case Open(_) => SameOutboxIsSound(env, w, e);
    case Close => SameOutboxIsSound(env, w, e);
    case Publish(_, _, _, _, _, _) => SameOutboxIsSound(env, w, e);
    case Mark(_, _) => SameOutboxIsSound(env, w, e);
  }

  lemma SameOutboxIsSound(env: Env, w: World, e: Event)
    requires Sound(env, w) && !e.Input? && !e.Reconcile?
    ensures Sound(env, Step(env, w, e))
  {
    var c, c' := w.chat, Step(env, w, e).chat;
    StepKeepsInvariant(env, w, e);
    assert c'.outbox == c.outbox && c'.id == c.id && c'.resource == c.resource;
    assert forall k :: 0 <= k < |c.outbox| ==>
      SourceOf(c', c'.outbox[k]) == SourceOf(c, c.outbox[k])
      && MailId(env, c', c'.outbox[k]) == MailId(env, c, c.outbox[k]) && MailOf(c', c'.outbox[k]) == MailOf(c, c.outbox[k]);
    assert forall x :: OwnMailId(env, c', x) == OwnMailId(env, c, x);
  }

  lemma {:induction false} RunKeepsSound(env: Env, w: World, events: seq<Event>)
    requires Injective(env.hash) && Sound(env, w)
    ensures Sound(env, Run(env, w, events))
  {
    if events != [] {
      var before := events[..|events| - 1];
      RunKeepsSound(env, w, before);
      StepKeepsSound(env, Run(env, w, before), events[|events| - 1]);
    }
  }

  /**
   No reachable reconciliation meets a mail conflict: undisturbed it completes, and stopped at any durable effect
   it is completed by running it again, in the world one undisturbed run leaves.
   */
  lemma ReachableReconcileReplays(
      env: Env, w: World, events: seq<Event>, registered: set<string>, archived: bool, fault: Fault)
    requires Injective(env.hash) && Sound(env, w)
    ensures var now := Run(env, w, events);
            var (stopped, outcome) := Reconciled(env, now, registered, archived, fault);
            && outcome != MailConflict
            && Reconciled(env, now, registered, archived, Never).1 == Completed
            && Reconciled(env, stopped, registered, archived, Never) ==
                 (Reconciled(env, now, registered, archived, Never).0, Completed)
  {
    var now := Run(env, w, events);
    RunKeepsSound(env, w, events);
    ReconcileAgrees(env, now, registered, archived, fault);
    ReconcileAgrees(env, now, registered, archived, Never);
    ReconcileReplays(env, now, registered, archived, fault);
  }

  /**
   What is due is delivered, as it was queued and under an id made from the chat it comes from and its own, and its entry
   settled, by the next undisturbed reconciliation.
   */
  lemma DueIsDelivered(env: Env, w: World, registered: set<string>, archived: bool, k: nat)
    requires Injective(env.hash) && Sound(env, w) && k < |w.chat.outbox| && IsDue(w.chat, registered, archived, k)
    ensures var w' := Step(env, w, Reconcile(registered, archived, Never));
            var d := w.chat.outbox[k];
            var id := "chat-" + env.hash(if d.sourceChatId == "" then w.chat.id else d.sourceChatId, d.id);
            && id in w'.mailbox && Carries(w'.mailbox[id], w.chat, w.chat.outbox[k])
            && k < |w'.chat.outbox| && w'.chat.outbox[k].accepted
  {
    var c := Revoke(w.chat, registered);
    ReconcileAgrees(env, w, registered, archived, Never);
    ReconcileSettles(env, w, registered, archived, Never);
    RevokeKeepsMail(env, w.chat, registered, w.mailbox);
    PassAgrees(env, c, registered, archived, w.mailbox, 0, Never);
    PassHandsOver(env, c, registered, archived, w.mailbox, 0, Never, k);
    assert MailId(env, c, c.outbox[k]) == MailId(env, w.chat, w.chat.outbox[k]);
  }

  // ---------- the start ----------

  predicate DistinctInOutbox(outbox: seq<Delivery>) {
    forall k, l :: 0 <= k < l < |outbox| ==> outbox[k].id != outbox[l].id
  }

  predicate DistinctKeys(outbox: seq<Delivery>) {
    forall k, l :: 0 <= k < l < |outbox| ==> outbox[k].sourceChatId != outbox[l].sourceChatId || outbox[k].id != outbox[l].id
  }

  lemma {:induction false} CarryChatIsDistinct(c: Chat, registered: set<string>, epoch: nat, n: nat)
    requires DistinctInOutbox(c.outbox) && n <= |c.outbox|
    ensures DistinctKeys(Migration.CarryChat(c, registered, epoch, n))
  {
    if n > 0 {
      CarryChatIsDistinct(c, registered, epoch, n - 1);
      var carried := Migration.CarryChat(c, registered, epoch, n - 1);
      forall k | 0 <= k < |carried| ensures carried[k].id != c.outbox[n - 1].id {
        Migration.CarriedFromOneChat(c, registered, epoch, n - 1, carried[k]);
        assert carried[k] in carried;
      }
    }
  }

  lemma JoinKeys(a: seq<Delivery>, b: seq<Delivery>)
    requires DistinctKeys(a) && DistinctKeys(b)
    requires forall d, e :: d in a && e in b ==> d.sourceChatId != e.sourceChatId
    ensures DistinctKeys(a + b)
  {
    var both := a + b;
    forall k, l | 0 <= k < l < |both|
      ensures both[k].sourceChatId != both[l].sourceChatId || both[k].id != both[l].id
    {
      if k < |a| <= l {
        assert both[k] in a && both[l] in b;
      }
    }
  }

  lemma {:induction false} CarryAllIsDistinct(chats: seq<Chat>, registered: set<string>, epoch: nat)
    requires forall i, j :: 0 <= i < j < |chats| ==> chats[i].id != chats[j].id
    requires forall i :: 0 <= i < |chats| ==> DistinctInOutbox(chats[i].outbox)
    ensures DistinctKeys(Migration.CarryAll(chats, registered, epoch))
  {
    if chats != [] {
      var last := |chats| - 1;
      var front, back := Migration.CarryAll(chats[..last], registered, epoch),
        Migration.CarryChat(chats[last], registered, epoch, |chats[last].outbox|);
      CarryAllIsDistinct(chats[..last], registered, epoch);
      CarryChatIsDistinct(chats[last], registered, epoch, |chats[last].outbox|);
      forall d, e | d in front && e in back ensures d.sourceChatId != e.sourceChatId {
        Migration.CarriedExactly(chats[..last], registered, epoch, d);
        Migration.CarriedFromOneChat(chats[last], registered, epoch, |chats[last].outbox|, e);
      }
      JoinKeys(front, back);
    }
  }

  /** The merged chats as they are kept: one file each, entries of their own under distinct ids, mail in agreement. */
  ghost predicate LegacyMailAgrees(env: Env, chats: seq<Chat>, shared: Chat, mailbox: map<string, Mail>) {
    && (forall i, j :: 0 <= i < j < |chats| ==> chats[i].id != chats[j].id)
    && (forall i :: 0 <= i < |chats| ==>
          && chats[i].id != "" && chats[i].id != shared.id && chats[i].resource == shared.resource
          && DistinctInOutbox(chats[i].outbox) && Agrees(env, chats[i], mailbox)
          && forall d :: d in chats[i].outbox ==> d.sourceChatId == "")
    && forall x :: OwnMailId(env, shared, x) !in mailbox
  }

  lemma CarriedMail(
      env: Env, chats: seq<Chat>, registered: set<string>, shared: Chat, mailbox: map<string, Mail>, d: Delivery)
    requires shared.outbox == Migration.CarryAll(chats, registered, shared.epoch) && d in shared.outbox
    requires LegacyMailAgrees(env, chats, shared, mailbox)
    ensures d.sourceChatId != "" && AgreesOn(env, shared, mailbox, d)
  {
    Migration.CarriedExactly(chats, registered, shared.epoch, d);
    var i, l :| 0 <= i < |chats| && 0 <= l < |chats[i].outbox|
      && d == chats[i].outbox[l].(sourceChatId := chats[i].id, epoch := shared.epoch);
    assert chats[i].outbox[l] in chats[i].outbox;
    assert MailId(env, shared, d) == MailId(env, chats[i], chats[i].outbox[l]);
    assert MailOf(shared, d) == MailOf(chats[i], chats[i].outbox[l]);
    assert AgreesOn(env, chats[i], mailbox, chats[i].outbox[l]);
  }

  /** A world is sound from the migration on, when the mailbox agrees with the chats that are merged. */
  lemma MigrationEstablishesSound(
      env: Env, chats: seq<Chat>, registered: set<string>, shared: Chat, mailbox: map<string, Mail>)
    requires Migration.Migrated(env.hash, chats, registered, shared) && LegacyMailAgrees(env, chats, shared, mailbox)
    ensures Sound(env, World(shared, mailbox))
  {
    MigrationEstablishesInvariant(env.hash, chats, registered, shared);
    CarryAllIsDistinct(chats, registered, shared.epoch);
    forall k | 0 <= k < |shared.outbox|
      ensures shared.outbox[k].sourceChatId != "" && AgreesOn(env, shared, mailbox, shared.outbox[k])
    {
      CarriedMail(env, chats, registered, shared, mailbox, shared.outbox[k]);
    }
  }

  // ---------- reading ----------

  lemma StepKeepsRead(env: Env, w: World, e: Event, reader: string, j: nat)
    requires Invariant(w.chat) && j < |w.chat.messages|
    ensures var c' := Step(env, w, e).chat;
            j < |c'.messages| && (c'.Unread(reader, j) ==> w.chat.Unread(reader, j))
  {
    var c, c' := w.chat, Step(env, w, e).chat;
    match e
    case Mark(user, id) =>
      if IndexOf(c.messages, id) < |c.messages| {
        MarkReadsUpTo(c, user, id, j, reader);
      }
    case Input(id, text, user, at) =>
      InputIsQueuedOnce(env, c, id, text, user, at);
    case Reconcile(registered, archived, fault) =>
      ReconcileSettles(env, w, registered, archived, fault);
    case Publish(_, _, _, _, _, _) =>
    case Open(_) =>
    case Close =>
  }

  lemma {:induction false} ReadStaysRead(env: Env, w: World, events: seq<Event>, reader: string, j: nat)
    requires Invariant(w.chat) && j < |w.chat.messages| && !w.chat.Unread(reader, j)
    ensures var c' := Run(env, w, events).chat;
            j < |c'.messages| && !c'.Unread(reader, j)
  {
    if events != [] {
      var before := events[..|events| - 1];
      ReadStaysRead(env, w, before, reader, j);
      RunKeepsInvariant(env, w, before);
      StepKeepsRead(env, Run(env, w, before), events[|events| - 1], reader, j);
    }
  }

  /** What a reader has marked, and everything before it, stays read for that reader, whatever follows. */
  lemma MarkedStaysRead(env: Env, w: World, events: seq<Event>, user: string, id: string, j: nat)
    requires Invariant(w.chat) && j <= IndexOf(w.chat.messages, id) < |w.chat.messages|
    ensures var c' := Run(env, Step(env, w, Mark(user, id)), events).chat;
            j < |c'.messages| && !c'.Unread(user, j)
  {
    MarkReadsUpTo(w.chat, user, id, j, user);
    StepKeepsInvariant(env, w, Mark(user, id));
    ReadStaysRead(env, Step(env, w, Mark(user, id)), events, user, j);
  }

  // ---------- capabilities ----------

  predicate Revoked(c: Chat, token: string) {
    c.token != token && forall id :: id in c.sources && c.sources[id].open ==> c.sources[id].token != token
  }

  lemma RevokedStep(env: Env, w: World, e: Event, token: string)
    requires token != "" && Revoked(w.chat, token) && !(e.Open? && e.token == token)
    ensures Revoked(Step(env, w, e).chat, token)
  {
    if e.Reconcile? {
      ReconcileEffect(env, w, e.registered, e.archived, e.fault);
    }
  }

  /** A reply capability that was revoked by a close never publishes again, as long as no new one repeats it. */
  lemma {:induction false} RevokedCapabilityNeverPublishes(
      env: Env, w: World, events: seq<Event>, token: string,
      identity: string, archived: bool, id: string, text: string, at: int)
    requires token != "" && Revoked(w.chat, token)
    requires forall e :: e in events && e.Open? ==> e.token != token
    ensures var c := Run(env, w, events).chat;
            Revoked(c, token) && Published(env, c, identity, token, archived, id, text, at) == (c, Failed(Expired))
  {
    if events != [] {
      var before := events[..|events| - 1];
      RevokedCapabilityNeverPublishes(env, w, before, token, identity, archived, id, text, at);
      RevokedStep(env, Run(env, w, before), events[|events| - 1], token);
    }
  }
}
