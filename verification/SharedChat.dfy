/** The operations that change a shared chat in memory (internal/serve/chat_store.go, chat.go). */
module SharedChat {
  import opened Basics
  import opened ChatModel

  /** The parts of the environment a chat only passes through: its digest, and the text of an input prompt. */
  datatype Env = Env(hash: ChatHash, prompt: (string, string, string, string) -> string)

  datatype Error = ChatClosed | Expired | NoUser | Invalid | Conflict

  datatype Result = Done | Failed(error: Error)

  const MAX_ID_LENGTH := 200

  predicate Usable(id: string, text: string) {
    Trim(id) != "" && |id| <= MAX_ID_LENGTH && Trim(text) != ""
  }

  // ---------- specifications ----------

  function RevokeAll(sources: map<string, Source>): map<string, Source> {
    map id | id in sources :: sources[id].(open := false, token := "")
  }

  function Opened(c: Chat, token: string): Chat {
    c.(open := true, epoch := c.epoch + 1, epochStart := Some(|c.messages|), token := token, sources := RevokeAll(c.sources))
  }

  function Closed(c: Chat): Chat {
    c.(open := false, token := "", sources := RevokeAll(c.sources))
  }

  predicate HasId(messages: seq<Message>, id: string) {
    exists i :: 0 <= i < |messages| && messages[i].id == id
  }

  /** The first message with the id; `|messages|` when there is none. */
  function IndexOf(messages: seq<Message>, id: string): (i: nat)
    ensures i <= |messages|
    ensures i < |messages| ==> messages[i].id == id
    ensures forall k :: 0 <= k < i ==> messages[k].id != id
  {
    if messages == [] || messages[0].id == id then 0 else 1 + IndexOf(messages[1..], id)
  }

  function Appended(c: Chat, m: Message): (Chat, Result) {
    var i := IndexOf(c.messages, m.id);
    if !Usable(m.id, m.text) then (c, Failed(Invalid))
    else if i < |c.messages| then
      (c, if c.messages[i].role == m.role && c.messages[i].text == m.text then Done else Failed(Conflict))
    else (c.(messages := c.messages + [m]), Done)
  }

  function Plain(id: string, role: Role, text: string, at: int): Message {
    Message(id, role, text, at, "", "", "", "", "", 0)
  }

  /** The message is this user's input under this client id. */
  predicate IsRetry(m: Message, user: string, id: string) {
    m.role == User && m.sender == user && (m.clientId == id || (m.clientId == "" && m.id == id))
  }

  function RetryIndex(messages: seq<Message>, user: string, id: string): (i: nat)
    ensures i <= |messages|
    ensures i < |messages| ==> IsRetry(messages[i], user, id)
    ensures forall k :: 0 <= k < i ==> !IsRetry(messages[k], user, id)
  {
    if messages == [] || IsRetry(messages[0], user, id) then 0 else 1 + RetryIndex(messages[1..], user, id)
  }

  function PublicId(env: Env, c: Chat, user: string, id: string): string {
    if HasId(c.messages, id) then "user-" + env.hash(user, id) else id
  }

  function EntryIndex(outbox: seq<Delivery>, id: string): (i: nat)
    ensures i <= |outbox|
    ensures i < |outbox| ==> outbox[i].id == id && outbox[i].sourceChatId == ""
    ensures forall k :: 0 <= k < i ==> !(outbox[k].id == id && outbox[k].sourceChatId == "")
  {
    if outbox == [] || (outbox[0].id == id && outbox[0].sourceChatId == "") then 0 else 1 + EntryIndex(outbox[1..], id)
  }

  function Queued(c: Chat, id: string, target: string, text: string, sender: string): (Chat, Result) {
    var i := EntryIndex(c.outbox, id);
    if i < |c.outbox| then
      (c, if c.outbox[i].target == target && c.outbox[i].text == text && c.outbox[i].sender == sender
          then Done else Failed(Conflict))
    else (c.(outbox := c.outbox + [Delivery(id, target, text, sender, false, c.epoch, "")]), Done)
  }

  /** The outbox entry of an input message. */
  function InputId(messageId: string): string { "input-" + messageId }

  lemma InputIdIsInjective(a: string, b: string)
    requires InputId(a) == InputId(b)
    ensures a == b
  {
    assert InputId(a)[6..] == a && InputId(b)[6..] == b;
  }

  function InputMessage(publicId: string, id: string, text: string, user: string, at: int): Message {
    Message(publicId, User, text, at, user, id, "", "", "", 0)
  }

  function InputAppended(env: Env, c: Chat, id: string, text: string, user: string, at: int): (Chat, Result) {
    var i := RetryIndex(c.messages, user, id);
    var publicId := PublicId(env, c, user, id);
    if !c.open then (c, Failed(ChatClosed))
    else if c.version >= 4 && user == "" then (c, Failed(NoUser))
    else if i < |c.messages| then (c, if c.messages[i].text == text then Done else Failed(Conflict))
    else if !Usable(id, text) then (c, Failed(Invalid))
    else if HasId(c.messages, publicId) then (c, Failed(Conflict))
    else
      Queued(c.(messages := c.messages + [InputMessage(publicId, id, text, user, at)]),
        InputId(publicId), c.resource, env.prompt(c.token, user, id, text), user)
  }

  function StillUnread(messages: seq<Message>, unread: seq<string>): seq<string> {
    if messages == [] then [] else
    StillUnread(messages[..|messages| - 1], unread)
      + (if messages[|messages| - 1].id in unread then [messages[|messages| - 1].id] else [])
  }

  function WithMark(c: Chat, user: string, cursor: int, unread: seq<string>): Chat {
    c.(readCursors := c.readCursors[user := cursor], legacyUnread := c.legacyUnread[user := unread])
  }

  function MarkedRead(c: Chat, user: string, id: string): (Chat, bool) {
    var index := IndexOf(c.messages, id);
    if index == |c.messages| then (c, false)
    else if c.version < 4 then
      (c.(readThrough := Max(c.readThrough, index + 1)), c.readThrough < index + 1)
    else
      var remaining := StillUnread(c.messages[index + 1..], c.LegacyUnreadOf(user));
      (WithMark(c, user, Max(c.Cursor(user), index + 1), remaining),
       c.Cursor(user) < index + 1 || |remaining| != |c.LegacyUnreadOf(user)|)
  }

  // ---------- publishing ----------

  /** The capability a caller of this identity must present; none once it is revoked. */
  function Capability(c: Chat, identity: string): string {
    if identity == c.id then c.token
    else if identity in c.sources && c.sources[identity].open then c.sources[identity].token
    else ""
  }

  /** The message was migrated from, or published by, this legacy chat under this id. */
  predicate IsPublication(m: Message, identity: string, id: string) {
    (m.legacyChatId == identity && m.legacyId == id) || (m.publishOrigin == identity && m.clientId == id)
  }

  function PublicationIndex(messages: seq<Message>, identity: string, id: string): (i: nat)
    ensures i <= |messages|
    ensures i < |messages| ==> IsPublication(messages[i], identity, id)
    ensures forall k :: 0 <= k < i ==> !IsPublication(messages[k], identity, id)
  {
    if messages == [] || IsPublication(messages[0], identity, id) then 0
    else 1 + PublicationIndex(messages[1..], identity, id)
  }

  function RenamedId(env: Env, identity: string, id: string): string { "legacy-" + env.hash(identity, id) }

  /** The id a publication is stored under: retries of a pre-migration capability find their own message again. */
  function PublishId(env: Env, c: Chat, identity: string, id: string): string {
    var i := PublicationIndex(c.messages, identity, id);
    if identity == c.id then id
    else if i < |c.messages| then c.messages[i].id
    else if exists m :: m in c.messages && m.id == id && m.legacyChatId != identity then RenamedId(env, identity, id)
    else id
  }

  function Publication(c: Chat, identity: string, storedId: string, id: string, text: string, at: int): Message {
    var plain := Plain(storedId, Agent, text, at);
    if identity == c.id then plain else plain.(publishOrigin := identity, clientId := id)
  }

  function Published(env: Env, c: Chat, identity: string, presented: string, archived: bool,
                     id: string, text: string, at: int): (Chat, Result) {
    var capability := Capability(c, identity);
    if !c.open || archived || capability == "" || capability != presented then (c, Failed(Expired))
    else Appended(c, Publication(c, identity, PublishId(env, c, identity, id), id, text, at))
  }

  /** Only the appended message itself depends on the fields appending does not look at. */
  lemma AppendedLength(c: Chat, m: Message, n: Message)
    requires m.id == n.id && m.role == n.role && m.text == n.text
    ensures Appended(c, m).1 == Appended(c, n).1
    ensures Appended(c, m).0 == c <==> Appended(c, n).0 == c
    ensures Appended(c, m).0 != c ==>
              && Appended(c, m).0.messages == c.messages + [m]
              && Appended(c, n).0 == c.(messages := (c.messages + [m])[|c.messages| := n])
  {
    if |Appended(c, m).0.messages| > |c.messages| {
      assert (c.messages + [m])[|c.messages| := n] == c.messages + [n];
    }
  }

  // ---------- the chat object ----------

  class ResourceChat {
    const env: Env
    const id: string
    const resource: string
    const user: string
    var version: int
    var open: bool
    var epoch: nat
    var epochStart: Option<nat>
    var token: string
    var readThrough: int
    var readCursors: map<string, int>
    var legacyUnread: map<string, seq<string>>
    var messages: seq<Message>
    var outbox: seq<Delivery>
    var sources: map<string, Source>

    function Value(): Chat
      reads this
    {
      Chat(version, id, resource, user, open, epoch, epochStart, token, readThrough, readCursors, legacyUnread,
        messages, outbox, sources)
    }

    /** loadChatLocked: a chat in memory is a copy of the durable record. */
    constructor Load(env: Env, c: Chat)
      ensures Value() == c && this.env == env
    {
      this.env := env;
      id, resource, user := c.id, c.resource, c.user;
      version, open, epoch, epochStart, token := c.version, c.open, c.epoch, c.epochStart, c.token;
      readThrough, readCursors, legacyUnread := c.readThrough, c.readCursors, c.legacyUnread;
      messages, outbox, sources := c.messages, c.outbox, c.sources;
    }

    method Open(newToken: string)
      modifies this
      ensures Value() == Opened(old(Value()), newToken)
    {
      open := true;
      epoch := epoch + 1;
      epochStart := Some(|messages|);
      token := newToken;
      sources := map name | name in sources :: sources[name].(token := "", open := false);
    }

    method Close()
      modifies this
      ensures Value() == Closed(old(Value()))
    {
      open := false;
      token := "";
      sources := map name | name in sources :: sources[name].(token := "", open := false);
    }

    method AppendMessage(id: string, role: Role, text: string, now: int) returns (result: Result)
      modifies this`messages
      ensures (Value(), result) == Appended(old(Value()), Plain(id, role, text, now))
    {
      if Trim(id) == "" || |id| > MAX_ID_LENGTH || Trim(text) == "" {
        return Failed(Invalid);
      }
      for i := 0 to |messages|
        invariant forall k :: 0 <= k < i ==> messages[k].id != id
      {
        if messages[i].id == id {
          if messages[i].role != role || messages[i].text != text {
            return Failed(Conflict);
          }
          return Done;
        }
      }
      messages := messages + [Plain(id, role, text, now)];
      result := Done;
    }

    method Queue(id: string, target: string, text: string, sender: string) returns (result: Result)
      modifies this`outbox
      ensures (Value(), result) == Queued(old(Value()), id, target, text, sender)
    {
      for i := 0 to |outbox|
        invariant forall k :: 0 <= k < i ==> !(outbox[k].id == id && outbox[k].sourceChatId == "")
      {
        var d := outbox[i];
        if d.id == id && d.sourceChatId == "" {
          if d.target != target || d.text != text || d.sender != sender {
            return Failed(Conflict);
          }
          return Done;
        }
      }
      outbox := outbox + [Delivery(id, target, text, sender, false, epoch, "")];
      result := Done;
    }

    method AppendUserInput(id: string, text: string, user: string, now: int) returns (result: Result)
      modifies this`messages, this`outbox
      ensures (Value(), result) == InputAppended(env, old(Value()), id, text, user, now)
    {
      if !open {
        return Failed(ChatClosed);
      }
      if version >= 4 && user == "" {
        return Failed(NoUser);
      }
      for i := 0 to |messages|
        invariant forall k :: 0 <= k < i ==> !IsRetry(messages[k], user, id)
      {
        if IsRetry(messages[i], user, id) {
          return if messages[i].text != text then Failed(Conflict) else Done;
        }
      }
      var publicId := id;
      for i := 0 to |messages|
        invariant publicId == id
        invariant forall k :: 0 <= k < i ==> messages[k].id != id
      {
        if messages[i].id == publicId {
          publicId := "user-" + env.hash(user, id);
          break;
        }
      }
      assert publicId == PublicId(env, Value(), user, id);
      if Trim(id) == "" || |id| > MAX_ID_LENGTH || Trim(text) == "" {
        return Failed(Invalid);
      }
      for i := 0 to |messages|
        invariant forall k :: 0 <= k < i ==> messages[k].id != publicId
      {
        if messages[i].id == publicId {
          return Failed(Conflict);
        }
      }
      messages := messages + [InputMessage(publicId, id, text, user, now)];
      result := Queue(InputId(publicId), resource, env.prompt(token, user, id, text), user);
    }

    /** The id rewriting of the publish step: a legacy caller's retry finds its own message, a foreign id is avoided. */
    method StoredId(identity: string, publishId: string) returns (stored: string)
      ensures stored == PublishId(env, Value(), identity, publishId)
    {
      stored := publishId;
      if identity == id {
        return;
      }
      for i := 0 to |messages|
        invariant forall k :: 0 <= k < i ==> !IsPublication(messages[k], identity, publishId)
      {
        if IsPublication(messages[i], identity, publishId) {
          assert i == PublicationIndex(messages, identity, publishId);
          return messages[i].id;
        }
      }
      for k := 0 to |messages|
        invariant forall j :: 0 <= j < k ==> !(messages[j].id == publishId && messages[j].legacyChatId != identity)
      {
        if messages[k].id == publishId && messages[k].legacyChatId != identity {
          assert messages[k] in messages;
          return RenamedId(env, identity, publishId);
        }
      }
    }

    /** The publish step of handleChat, for a caller of the shared chat (`identity == id`) or of a legacy one. */
    method Publish(identity: string, presented: string, archived: bool, publishId: string, text: string, now: int)
      returns (result: Result)
      modifies this`messages
      ensures (Value(), result) == Published(env, old(Value()), identity, presented, archived, publishId, text, now)
    {
      var capability := token;
      if identity != id {
        if identity in sources && sources[identity].open {
          capability := sources[identity].token;
        } else {
          capability := "";
        }
      }
      if !open || archived || capability == "" || capability != presented {
        return Failed(Expired);
      }
      var stored := StoredId(identity, publishId);
      ghost var c := Value();
      var before := |messages|;
      result := AppendMessage(stored, Agent, text, now);
      AppendedLength(c, Plain(stored, Agent, text, now), Publication(c, identity, stored, publishId, text, now));
      if identity != id && |messages| > before {
        messages := messages[before := messages[before].(publishOrigin := identity, clientId := publishId)];
      }
    }

    method MarkRead(user: string, id: string) returns (changed: bool)
      modifies this`readThrough, this`readCursors, this`legacyUnread
      ensures (Value(), changed) == MarkedRead(old(Value()), user, id)
    {
      var index := 0;
      while index < |messages| && messages[index].id != id
        invariant index <= |messages|
        invariant forall k :: 0 <= k < index ==> messages[k].id != id
      {
        index := index + 1;
      }
      if index == |messages| {
        return false;
      }
      if version < 4 {
        var before := readThrough;
        readThrough := Max(readThrough, index + 1);
        return before != readThrough;
      }
      assert index == IndexOf(messages, id);
      var previous := Value().Cursor(user);
      var unread := Value().LegacyUnreadOf(user);
      var remaining: seq<string> := [];
      ghost var rest := messages[index + 1..];
      for i := index + 1 to |messages|
        invariant remaining == StillUnread(rest[..i - index - 1], unread)
      {
        assert rest[..i - index][..i - index - 1] == rest[..i - index - 1];
        if messages[i].id in unread {
          remaining := remaining + [messages[i].id];
        }
      }
      assert remaining == StillUnread(rest, unread) by {
        assert rest[..|rest|] == rest;
      }
      readCursors := readCursors[user := Max(previous, index + 1)];
      // A missing set of unread ids and an empty one read alike, so the source's nil check makes no difference here.
      legacyUnread := legacyUnread[user := remaining];
      changed := previous != Max(previous, index + 1) || |remaining| != |unread|;
    }
  }

  // ---------- ids and idempotence ----------

  /** The message is a user input accepted by the shared chat itself. */
  predicate IsInput(m: Message) { m.role == User && m.legacyChatId == "" }

  /** The own entries, by id. */
  function OwnEntries(outbox: seq<Delivery>): set<string> {
    set d | d in outbox && d.sourceChatId == "" :: d.id
  }

  function InputIds(messages: seq<Message>): set<string> {
    set m | m in messages && IsInput(m) :: InputId(m.id)
  }

  predicate DistinctOwnEntries(outbox: seq<Delivery>) {
    forall k, l :: 0 <= k < l < |outbox| && outbox[k].sourceChatId == "" && outbox[l].sourceChatId == "" ==>
      outbox[k].id != outbox[l].id
  }

  /** Message ids are distinct, and the inputs accepted here have exactly one outbox entry each, and no others exist. */
  predicate Consistent(c: Chat) {
    && DistinctIds(c.messages)
    && DistinctOwnEntries(c.outbox)
    && OwnEntries(c.outbox) == InputIds(c.messages)
  }

  lemma InputIdsGrow(messages: seq<Message>, m: Message)
    ensures InputIds(messages + [m]) == InputIds(messages) + (if IsInput(m) then {InputId(m.id)} else {})
  {
    var longer := messages + [m];
    assert m in longer;
    forall x | x in InputIds(messages) ensures x in InputIds(longer) {
      var y :| y in messages && IsInput(y) && InputId(y.id) == x;
      assert y in longer;
    }
  }

  lemma OwnEntriesGrow(outbox: seq<Delivery>, d: Delivery)
    ensures OwnEntries(outbox + [d]) == OwnEntries(outbox) + (if d.sourceChatId == "" then {d.id} else {})
  {
    var longer := outbox + [d];
    assert d in longer;
    forall x | x in OwnEntries(outbox) ensures x in OwnEntries(longer) {
      var y :| y in outbox && y.sourceChatId == "" && y.id == x;
      assert y in longer;
    }
  }

  lemma FreshMessageKeepsDistinct(messages: seq<Message>, m: Message)
    requires DistinctIds(messages) && !HasId(messages, m.id)
    ensures DistinctIds(messages + [m])
  {
  }

  lemma AppendKeepsConsistent(c: Chat, m: Message)
    requires Consistent(c) && !IsInput(m)
    ensures Consistent(Appended(c, m).0)
  {
    if IndexOf(c.messages, m.id) == |c.messages| {
      InputIdsGrow(c.messages, m);
      FreshMessageKeepsDistinct(c.messages, m);
    }
  }

  /** A fresh message id has no entry yet, so its input is queued and never meets the conflict branch. */
  lemma FreshInputIsQueued(c: Chat, m: Message, target: string, text: string)
    requires Consistent(c) && IsInput(m) && !HasId(c.messages, m.id)
    ensures var longer := c.(messages := c.messages + [m]);
            && Queued(longer, InputId(m.id), target, text, m.sender) ==
                 (longer.(outbox := c.outbox + [Delivery(InputId(m.id), target, text, m.sender, false, c.epoch, "")]), Done)
            && Consistent(Queued(longer, InputId(m.id), target, text, m.sender).0)
  {
    var entry := Delivery(InputId(m.id), target, text, m.sender, false, c.epoch, "");
    if InputId(m.id) in InputIds(c.messages) {
      var y :| y in c.messages && IsInput(y) && InputId(y.id) == InputId(m.id);
      InputIdIsInjective(y.id, m.id);
    }
    assert InputId(m.id) !in OwnEntries(c.outbox);
    forall k | 0 <= k < |c.outbox| && c.outbox[k].sourceChatId == ""
      ensures c.outbox[k].id != InputId(m.id)
    {
      assert c.outbox[k] in c.outbox;
    }
    InputIdsGrow(c.messages, m);
    OwnEntriesGrow(c.outbox, entry);
    FreshMessageKeepsDistinct(c.messages, m);
  }

  /** An accepted new input is one new message and one new outbox entry, fenced by the epoch that accepted it. */
  lemma InputIsQueuedOnce(env: Env, c: Chat, id: string, text: string, user: string, at: int)
    requires Consistent(c)
    ensures var (c', result) := InputAppended(env, c, id, text, user, at);
            && Consistent(c')
            && (result.Failed? ==> c' == c)
            && (c' != c ==>
                  var m := InputMessage(PublicId(env, c, user, id), id, text, user, at);
                  && c.open && !HasId(c.messages, m.id)
                  && c' == c.(
                       messages := c.messages + [m],
                       outbox := c.outbox +
                         [Delivery(InputId(m.id), c.resource, env.prompt(c.token, user, id, text), user, false, c.epoch, "")]))
  {
    var m := InputMessage(PublicId(env, c, user, id), id, text, user, at);
    if RetryIndex(c.messages, user, id) == |c.messages| && !HasId(c.messages, m.id) {
      FreshInputIsQueued(c, m, c.resource, env.prompt(c.token, user, id, text));
    }
  }

  lemma FirstRetryIsAppended(messages: seq<Message>, m: Message, user: string, id: string)
    requires RetryIndex(messages, user, id) == |messages| && IsRetry(m, user, id)
    ensures RetryIndex(messages + [m], user, id) == |messages|
  {
    assert (messages + [m])[|messages|] == m;
    assert forall k :: 0 <= k < |messages| ==> (messages + [m])[k] == messages[k];
  }

  /** Repeating an accepted input changes nothing and succeeds again, whatever the clock says. */
  lemma InputRetryIsNoOp(env: Env, c: Chat, id: string, text: string, user: string, at: int, later: int)
    requires Consistent(c)
    requires InputAppended(env, c, id, text, user, at).1 == Done
    ensures var c' := InputAppended(env, c, id, text, user, at).0;
            InputAppended(env, c', id, text, user, later) == (c', Done)
  {
    InputIsQueuedOnce(env, c, id, text, user, at);
    var c' := InputAppended(env, c, id, text, user, at).0;
    if c' != c {
      FirstRetryIsAppended(c.messages, InputMessage(PublicId(env, c, user, id), id, text, user, at), user, id);
    }
  }

  lemma FirstIdIsAppended(messages: seq<Message>, m: Message)
    requires IndexOf(messages, m.id) == |messages|
    ensures IndexOf(messages + [m], m.id) == |messages|
  {
    assert (messages + [m])[|messages|] == m;
    assert forall k :: 0 <= k < |messages| ==> (messages + [m])[k] == messages[k];
  }

  /** Repeating an accepted append changes nothing; other content under the id is refused. */
  lemma AppendIsIdempotent(c: Chat, m: Message, again: Message)
    requires Appended(c, m).1 == Done && again.id == m.id && Usable(again.id, again.text)
    ensures var c' := Appended(c, m).0;
            Appended(c', again) == (c', if again.role == m.role && again.text == m.text then Done else Failed(Conflict))
  {
    if IndexOf(c.messages, m.id) == |c.messages| {
      FirstIdIsAppended(c.messages, m);
    }
  }

  lemma FirstPublicationIsAppended(messages: seq<Message>, m: Message, identity: string, id: string)
    requires PublicationIndex(messages, identity, id) == |messages| && IsPublication(m, identity, id)
    ensures PublicationIndex(messages + [m], identity, id) == |messages|
  {
    assert (messages + [m])[|messages|] == m;
    assert forall k :: 0 <= k < |messages| ==> (messages + [m])[k] == messages[k];
  }

  /** Repeating an accepted publication is a no-op, also for a pre-migration capability whose id had to be renamed. */
  lemma PublishRetryIsNoOp(env: Env, c: Chat, identity: string, presented: string, id: string, text: string, at: int, later: int)
    requires Published(env, c, identity, presented, false, id, text, at).1 == Done
    ensures var c' := Published(env, c, identity, presented, false, id, text, at).0;
            Published(env, c', identity, presented, false, id, text, later) == (c', Done)
  {
    var stored := PublishId(env, c, identity, id);
    var m := Publication(c, identity, stored, id, text, at);
    var again := Publication(c, identity, stored, id, text, later);
    AppendIsIdempotent(c, m, again);
    var c' := Published(env, c, identity, presented, false, id, text, at).0;
    if c' != c && identity != c.id {
      FirstPublicationIsAppended(c.messages, m, identity, id);
      assert PublishId(env, c', identity, id) == stored;
    }
  }

  // ---------- which requests are accepted ----------

  /** The user has sent this input before: under the client id, or, for a message without one, under its own id. */
  ghost predicate SentBefore(c: Chat, user: string, id: string) {
    exists m :: m in c.messages && m.role == User && m.sender == user && (m.clientId == id || (m.clientId == "" && m.id == id))
  }

  predicate IsBlankOrLong(id: string, text: string) { Trim(id) == "" || Trim(text) == "" || |id| > 200 }

  /**
   An input is new when the user did not send it before. A new one is accepted under its id, or under one made of user
   and id where that is taken, with its text, time and author; the others are refused for the first of these reasons.
   */
  lemma InputMeans(env: Env, c: Chat, id: string, text: string, user: string, at: int)
    requires Consistent(c)
    ensures var (c', result) := InputAppended(env, c, id, text, user, at);
            var name := if exists m :: m in c.messages && m.id == id then "user-" + env.hash(user, id) else id;
            var taken := exists m :: m in c.messages && m.id == name;
            if !c.open then result == Failed(ChatClosed)
            else if c.version >= 4 && user == "" then result == Failed(NoUser)
            else if SentBefore(c, user, id) then
              var first := RetryIndex(c.messages, user, id);
              first < |c.messages| && c' == c && result == if c.messages[first].text == text then Done else Failed(Conflict)
            else if IsBlankOrLong(id, text) then result == Failed(Invalid)
            else if taken then result == Failed(Conflict)
            else
              && result == Done && |c'.messages| == |c.messages| + 1 && c'.messages[..|c.messages|] == c.messages
              && c'.messages[|c.messages|] == Message(name, User, text, at, user, id, "", "", "", 0)
  {
    InputIsQueuedOnce(env, c, id, text, user, at);
    HasIdMeans(c.messages, id);
    HasIdMeans(c.messages, PublicId(env, c, user, id));
    SentBeforeMeans(c, user, id);
    if RetryIndex(c.messages, user, id) == |c.messages| && !HasId(c.messages, PublicId(env, c, user, id)) {
      var m := InputMessage(PublicId(env, c, user, id), id, text, user, at);
      FreshInputIsQueued(c, m, c.resource, env.prompt(c.token, user, id, text));
    }
  }

  /** Work is queued once under its id: the same again is accepted as it is, other work under the id is refused. */
  lemma QueuedMeans(c: Chat, id: string, target: string, text: string, sender: string)
    requires DistinctOwnEntries(c.outbox)
    ensures forall d :: d in c.outbox && d.sourceChatId == "" && d.id == id ==>
              Queued(c, id, target, text, sender) ==
                (c, if d.target == target && d.text == text && d.sender == sender then Done else Failed(Conflict))
    ensures (forall d :: d in c.outbox && d.sourceChatId == "" ==> d.id != id) ==>
              Queued(c, id, target, text, sender) ==
                (c.(outbox := c.outbox + [Delivery(id, target, text, sender, false, c.epoch, "")]), Done)
  {
    var i := EntryIndex(c.outbox, id);
    forall d | d in c.outbox && d.sourceChatId == "" && d.id == id ensures i < |c.outbox| && c.outbox[i] == d {
      var k :| 0 <= k < |c.outbox| && c.outbox[k] == d;
    }
    assert i < |c.outbox| ==> c.outbox[i] in c.outbox;
  }

  lemma HasIdMeans(messages: seq<Message>, id: string)
    ensures HasId(messages, id) <==> exists m :: m in messages && m.id == id
  {
    if m :| m in messages && m.id == id {
      var i :| 0 <= i < |messages| && messages[i] == m;
      assert messages[i].id == id;
    }
  }

  lemma SentBeforeMeans(c: Chat, user: string, id: string)
    ensures SentBefore(c, user, id) <==> RetryIndex(c.messages, user, id) < |c.messages|
  {
    if SentBefore(c, user, id) {
      var m :| m in c.messages && m.role == User && m.sender == user && (m.clientId == id || (m.clientId == "" && m.id == id));
      var i :| 0 <= i < |c.messages| && c.messages[i] == m;
      assert IsRetry(c.messages[i], user, id);
    }
  }

  /** The capability that publishes for this identity: that of the chat, or of an open source; none otherwise. */
  predicate MayPublish(c: Chat, identity: string, token: string) {
    && token != ""
    && if identity == c.id then token == c.token
       else identity in c.sources && c.sources[identity].open && token == c.sources[identity].token
  }

  /** The message is migrated from this chat under this id, or was published by it under this id. */
  predicate IsOrigin(m: Message, identity: string, id: string) {
    (m.legacyChatId == identity && m.legacyId == id) || (m.publishOrigin == identity && m.clientId == id)
  }

  /**
   A publication is accepted from whoever holds the capability, while the chat is open and unarchived, and stored as one
   agent's message, for a source with where it came from.
   */
  lemma PublishMeans(
      env: Env, c: Chat, identity: string, presented: string, archived: bool, id: string, text: string, at: int)
    ensures var (c', result) := Published(env, c, identity, presented, archived, id, text, at);
            var stored := PublishId(env, c, identity, id);
            && (result == Failed(Expired) <==> !c.open || archived || !MayPublish(c, identity, presented))
            && (result != Failed(Expired) ==>
                  && (result == Failed(Invalid) <==> IsBlankOrLong(stored, text))
                  && ((exists m :: m in c.messages && m.id == stored) ==> c' == c)
                  && (!IsBlankOrLong(stored, text) && !(exists m :: m in c.messages && m.id == stored) ==>
                        result == Done && c' == c.(messages := c.messages +
                          [if identity == c.id then Message(stored, Agent, text, at, "", "", "", "", "", 0)
                           else Message(stored, Agent, text, at, "", id, identity, "", "", 0)])))
  {
    hide PublishId;
    var stored := PublishId(env, c, identity, id);
    HasIdMeans(c.messages, stored);
    assert IndexOf(c.messages, stored) < |c.messages| <==> HasId(c.messages, stored);
  }

  /**
   The id a publication is stored under: for the chat itself the one given; for a source that of the message it already
   is, or else the one given, or one made of source and id where another chat's message has that.
   */
  lemma PublishIdMeans(env: Env, c: Chat, identity: string, id: string)
    ensures var stored := PublishId(env, c, identity, id);
            && (identity == c.id ==> stored == id)
            && (identity != c.id && (exists m :: m in c.messages && IsOrigin(m, identity, id)) ==>
                  exists m :: m in c.messages && IsOrigin(m, identity, id) && stored == m.id)
            && (identity != c.id && !(exists m :: m in c.messages && IsOrigin(m, identity, id)) ==>
                  stored == if exists m :: m in c.messages && m.id == id && m.legacyChatId != identity
                            then "legacy-" + env.hash(identity, id) else id)
  {
    var i := PublicationIndex(c.messages, identity, id);
    if m :| m in c.messages && IsOrigin(m, identity, id) {
      var k :| 0 <= k < |c.messages| && c.messages[k] == m;
      assert IsPublication(c.messages[k], identity, id);
    }
    if i < |c.messages| {
      assert c.messages[i] in c.messages && IsOrigin(c.messages[i], identity, id);
    }
  }

  // ---------- read marks ----------

  /** A mark on a known message moves this reader's cursor and unread list and nothing else, and says whether it did. */
  lemma MarkMeans(c: Chat, user: string, id: string)
    ensures var i := IndexOf(c.messages, id);
            var (c', changed) := MarkedRead(c, user, id);
            && (i == |c.messages| ==> c' == c && !changed)
            && (i < |c.messages| && c.version < 4 ==>
                  c' == c.(readThrough := Max(c.readThrough, i + 1)) && (changed <==> c.readThrough <= i))
            && (i < |c.messages| && c.version >= 4 ==>
                  && c' == c.(readCursors := c.readCursors[user := Max(c.Cursor(user), i + 1)],
                              legacyUnread := c.legacyUnread[user := c'.LegacyUnreadOf(user)])
                  && (changed <==> c.Cursor(user) <= i || |c'.LegacyUnreadOf(user)| != |c.LegacyUnreadOf(user)|))
  {
  }

  lemma {:induction false} LaterContains(messages: seq<Message>, unread: seq<string>, x: string)
    ensures x in StillUnread(messages, unread) <==> x in unread && HasId(messages, x)
  {
    if messages != [] {
      var n := |messages| - 1;
      LaterContains(messages[..n], unread, x);
      if HasId(messages, x) && messages[n].id != x {
        var i :| 0 <= i < |messages| && messages[i].id == x;
        assert messages[..n][i].id == x;
      }
      if i :| 0 <= i < n && messages[..n][i].id == x {
        assert messages[i].id == x;
      }
    }
  }

  lemma KeptAfter(messages: seq<Message>, index: nat, unread: seq<string>, j: nat)
    requires DistinctIds(messages) && index < |messages| && j < |messages|
    ensures messages[j].id in StillUnread(messages[index + 1..], unread) <==> j > index && messages[j].id in unread
  {
    var rest := messages[index + 1..];
    LaterContains(rest, unread, messages[j].id);
    if j > index {
      assert rest[j - index - 1] == messages[j];
    }
    forall i | 0 <= i < |rest| ensures rest[i] == messages[index + 1 + i] {
    }
  }

  /** A mark reads exactly the messages up to the marked one and leaves every later one as it was, for this reader only. */
  lemma MarkReadsUpTo(c: Chat, user: string, id: string, j: nat, reader: string)
    requires c.version >= 4 && DistinctIds(c.messages) && j < |c.messages| && IndexOf(c.messages, id) < |c.messages|
    ensures var c' := MarkedRead(c, user, id).0;
            && c'.messages == c.messages
            && (c'.Unread(reader, j) <==> c.Unread(reader, j) && (reader == user ==> j > IndexOf(c.messages, id)))
  {
    var index := IndexOf(c.messages, id);
    var c' := MarkedRead(c, user, id).0;
    if reader == user {
      KeptAfter(c.messages, index, c.LegacyUnreadOf(user), j);
      assert c'.LegacyUnreadOf(user) == StillUnread(c.messages[index + 1..], c.LegacyUnreadOf(user));
      assert c'.Cursor(user) == Max(c.Cursor(user), index + 1);
    } else {
      assert c'.LegacyUnreadOf(reader) == c.LegacyUnreadOf(reader) && c'.Cursor(reader) == c.Cursor(reader);
    }
  }

  lemma {:induction false} FewerUnread(c: Chat, c': Chat, reader: string, n: nat)
    requires n <= |c.messages| && c'.messages == c.messages
    requires forall j :: 0 <= j < n && c'.Unread(reader, j) ==> c.Unread(reader, j)
    ensures c'.UnreadUpTo(reader, n) <= c.UnreadUpTo(reader, n)
  {
    if n > 0 {
      FewerUnread(c, c', reader, n - 1);
    }
  }

  lemma {:induction false} UnreadBeforeAppend(c: Chat, m: Message, reader: string, n: nat)
    requires n <= |c.messages|
    ensures c.(messages := c.messages + [m]).UnreadUpTo(reader, n) == c.UnreadUpTo(reader, n)
  {
    if n > 0 {
      UnreadBeforeAppend(c, m, reader, n - 1);
    }
  }

  /** A new message is unread for every reader if an agent wrote it, and for none otherwise. */
  lemma AppendedIsUnread(c: Chat, m: Message, reader: string)
    requires c.version >= 4 && c.Cursor(reader) <= |c.messages|
    ensures var c' := c.(messages := c.messages + [m]);
            c'.UnreadCount(reader) == c.UnreadCount(reader) + if m.role == Agent then 1 else 0
  {
    UnreadBeforeAppend(c, m, reader, |c.messages|);
  }

  /** For a reader never seen before exactly the agents' messages are unread. */
  lemma NewReaderSeesAll(c: Chat, reader: string, i: nat)
    requires c.version >= 4 && reader !in c.readCursors && reader !in c.legacyUnread && i < |c.messages|
    ensures c.Unread(reader, i) <==> c.messages[i].role == Agent
  {
  }

  /** No mark raises any reader's unread count, and marking the last message clears it. */
  lemma MarksNeverRaiseTheCount(c: Chat, user: string, id: string, reader: string)
    requires c.version >= 4 && DistinctIds(c.messages)
    ensures MarkedRead(c, user, id).0.UnreadCount(reader) <= c.UnreadCount(reader)
    ensures c.messages != [] && id == c.messages[|c.messages| - 1].id ==>
              MarkedRead(c, user, id).0.UnreadCount(user) == 0
  {
    var c' := MarkedRead(c, user, id).0;
    var index := IndexOf(c.messages, id);
    if index < |c.messages| {
      forall j | 0 <= j < |c.messages|
        ensures c'.Unread(reader, j) ==> c.Unread(reader, j)
        ensures index == |c.messages| - 1 ==> !c'.Unread(user, j)
      {
        MarkReadsUpTo(c, user, id, j, reader);
        MarkReadsUpTo(c, user, id, j, user);
      }
      FewerUnread(c, c', reader, |c.messages|);
      if index == |c.messages| - 1 {
        NoneUnread(c', user, |c.messages|);
      }
    }
  }

  lemma {:induction false} NoneUnread(c: Chat, reader: string, n: nat)
    requires n <= |c.messages| && forall j :: 0 <= j < n ==> !c.Unread(reader, j)
    ensures c.UnreadUpTo(reader, n) == 0
  {
    if n > 0 {
      NoneUnread(c, reader, n - 1);
    }
  }

  lemma {:induction false} LaterOfLater(messages: seq<Message>, unread: seq<string>, i: nat)
    requires i <= |messages| && DistinctIds(messages)
    ensures StillUnread(messages[i..], StillUnread(messages, unread)) == StillUnread(messages[i..], unread)
  {
    LaterByMembership(messages[i..], StillUnread(messages, unread), unread, messages);
  }

  lemma {:induction false} LaterByMembership(part: seq<Message>, a: seq<string>, b: seq<string>, whole: seq<Message>)
    requires forall m :: m in part ==> m in whole
    requires a == StillUnread(whole, b)
    ensures StillUnread(part, a) == StillUnread(part, b)
  {
    if part != [] {
      var last := part[|part| - 1];
      LaterByMembership(part[..|part| - 1], a, b, whole);
      LaterContains(whole, b, last.id);
      assert last in part;
      var i :| 0 <= i < |whole| && whole[i] == last;
      assert whole[i].id == last.id;
    }
  }

  function After(messages: seq<Message>, id: string): seq<Message>
    requires IndexOf(messages, id) < |messages|
  {
    messages[IndexOf(messages, id) + 1..]
  }

  lemma WithMarkTwice(c: Chat, user: string, m: int, a: seq<string>, n: int, b: seq<string>)
    ensures WithMark(WithMark(c, user, m, a), user, n, b) == WithMark(c, user, n, b)
    ensures WithMark(c, user, m, a).Cursor(user) == m && WithMark(c, user, m, a).LegacyUnreadOf(user) == a
  {
    assert c.readCursors[user := m][user := n] == c.readCursors[user := n];
    assert c.legacyUnread[user := a][user := b] == c.legacyUnread[user := b];
  }

  lemma MarkOnce(c: Chat, user: string, id: string)
    requires c.version >= 4 && IndexOf(c.messages, id) < |c.messages|
    ensures MarkedRead(c, user, id).0 ==
            WithMark(c, user, Max(c.Cursor(user), IndexOf(c.messages, id) + 1), StillUnread(After(c.messages, id), c.LegacyUnreadOf(user)))
  {
  }

  lemma MarkTwice(c: Chat, user: string, a: string, b: string)
    requires c.version >= 4 && IndexOf(c.messages, a) < |c.messages| && IndexOf(c.messages, b) < |c.messages|
    ensures MarkedRead(MarkedRead(c, user, a).0, user, b).0 ==
            WithMark(c, user,
              Max(Max(c.Cursor(user), IndexOf(c.messages, a) + 1), IndexOf(c.messages, b) + 1),
              StillUnread(After(c.messages, b), StillUnread(After(c.messages, a), c.LegacyUnreadOf(user))))
  {
    hide MarkedRead, StillUnread, After, WithMark;
    MarkOnce(c, user, a);
    MarkAgain(c, user, Max(c.Cursor(user), IndexOf(c.messages, a) + 1),
      StillUnread(After(c.messages, a), c.LegacyUnreadOf(user)), b);
  }

  lemma MarkAgain(c: Chat, user: string, cursor: int, unread: seq<string>, id: string)
    requires c.version >= 4 && IndexOf(c.messages, id) < |c.messages|
    ensures MarkedRead(WithMark(c, user, cursor, unread), user, id).0 ==
            WithMark(c, user, Max(cursor, IndexOf(c.messages, id) + 1), StillUnread(After(c.messages, id), unread))
  {
    var once := WithMark(c, user, cursor, unread);
    assert once.messages == c.messages && once.version == c.version;
    MarkOnce(once, user, id);
    WithMarkTwice(c, user, cursor, unread,
      Max(cursor, IndexOf(c.messages, id) + 1), StillUnread(After(c.messages, id), unread));
  }

  lemma MarksAgree(c: Chat, user: string, a: string, b: string, i: nat, j: nat, left: seq<string>)
    requires c.version >= 4 && i == IndexOf(c.messages, a) <= j == IndexOf(c.messages, b) < |c.messages|
    requires left == StillUnread(After(c.messages, b), c.LegacyUnreadOf(user))
    requires StillUnread(After(c.messages, b), StillUnread(After(c.messages, a), c.LegacyUnreadOf(user))) == left
    requires StillUnread(After(c.messages, a), left) == left
    ensures MarkedRead(MarkedRead(c, user, a).0, user, b).0 == MarkedRead(c, user, b).0
    ensures MarkedRead(MarkedRead(c, user, b).0, user, a).0 == MarkedRead(c, user, b).0
  {
    var n := Max(c.Cursor(user), j + 1);
    assert Max(Max(c.Cursor(user), i + 1), j + 1) == n && Max(n, i + 1) == n;
    assert MarkedRead(c, user, b).0 == WithMark(c, user, n, left) by {
      MarkOnce(c, user, b);
    }
    assert MarkedRead(MarkedRead(c, user, a).0, user, b).0 == WithMark(c, user, n, left) by {
      MarkTwice(c, user, a, b);
    }
    assert MarkedRead(MarkedRead(c, user, b).0, user, a).0 == WithMark(c, user, n, left) by {
      MarkTwice(c, user, b, a);
    }
  }

  /** Two marks of one reader commute, and the later message decides; a mark repeated is no mark at all. */
  lemma MarksCommute(c: Chat, user: string, a: string, b: string)
    requires c.version >= 4 && DistinctIds(c.messages)
    requires IndexOf(c.messages, a) <= IndexOf(c.messages, b) < |c.messages|
    ensures MarkedRead(MarkedRead(c, user, a).0, user, b).0 == MarkedRead(c, user, b).0
    ensures MarkedRead(MarkedRead(c, user, b).0, user, a).0 == MarkedRead(c, user, b).0
  {
    UnreadAfterBoth(c.messages, c.LegacyUnreadOf(user), a, b);
    MarksAgree(c, user, a, b, IndexOf(c.messages, a), IndexOf(c.messages, b),
      StillUnread(After(c.messages, b), c.LegacyUnreadOf(user)));
  }

  lemma DropTwice(messages: seq<Message>, i: nat, n: nat)
    requires i + n <= |messages|
    ensures messages[i..][n..] == messages[i + n..]
  {
  }

  lemma DistinctAfter(messages: seq<Message>, i: nat)
    requires i <= |messages| && DistinctIds(messages)
    ensures DistinctIds(messages[i..])
  {
  }

  lemma UnreadAfterBoth(messages: seq<Message>, unread: seq<string>, a: string, b: string)
    requires DistinctIds(messages) && IndexOf(messages, a) <= IndexOf(messages, b) < |messages|
    ensures StillUnread(After(messages, b), StillUnread(After(messages, a), unread)) == StillUnread(After(messages, b), unread)
    ensures StillUnread(After(messages, a), StillUnread(After(messages, b), unread)) == StillUnread(After(messages, b), unread)
  {
    var n := IndexOf(messages, b) - IndexOf(messages, a);
    var after, rest := After(messages, a), After(messages, b);
    DropTwice(messages, IndexOf(messages, a) + 1, n);
    DistinctAfter(messages, IndexOf(messages, a) + 1);
    LaterOfLater(after, unread, n);
    LaterOfRead(after, rest, unread, n);
  }

  /** Of the messages after `i`, those still unread once everything up to `n` is read are the unread ones after `n`. */
  lemma {:induction false} LaterOfRead(after: seq<Message>, rest: seq<Message>, unread: seq<string>, n: nat)
    requires n <= |after| && rest == after[n..] && DistinctIds(after)
    ensures StillUnread(after, StillUnread(rest, unread)) == StillUnread(rest, unread)
    decreases |rest|
  {
    var kept := StillUnread(rest, unread);
    LaterSplits(after[..n], rest, kept);
    assert after == after[..n] + rest;
    NothingKept(after[..n], rest, kept, unread);
    LaterByMembership(rest, kept, unread, rest);
  }

  lemma {:induction false} LaterSplits(a: seq<Message>, b: seq<Message>, unread: seq<string>)
    ensures StillUnread(a + b, unread) == StillUnread(a, unread) + StillUnread(b, unread)
  {
    if b == [] {
      assert a + b == a;
    } else {
      assert (a + b)[..|a + b| - 1] == a + b[..|b| - 1];
      LaterSplits(a, b[..|b| - 1], unread);
    }
  }

  lemma {:induction false} NothingKept(front: seq<Message>, rest: seq<Message>, kept: seq<string>, unread: seq<string>)
    requires kept == StillUnread(rest, unread)
    requires forall m, x :: m in front && x in rest ==> m.id != x.id
    ensures StillUnread(front, kept) == []
  {
    if front != [] {
      var last := front[|front| - 1];
      NothingKept(front[..|front| - 1], rest, kept, unread);
      LaterContains(rest, unread, last.id);
      assert last in front;
    }
  }
}
