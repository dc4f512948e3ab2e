/**
 The one-time merge of per-user chats into the shared chat of a resource
 (migrateSharedChatLocked in internal/serve/chat_shared_migration.go).
 */
module ChatMigration {
  import opened Basics
  import opened ChatModel

  predicate DistinctChats(chats: seq<Chat>) {
    forall i, j :: 0 <= i < j < |chats| ==> chats[i].id != chats[j].id && chats[i].user != chats[j].user
  }

  /** Message `index` of a legacy chat as it enters the shared one, before its id is made unique. */
  function Restamp(c: Chat, index: nat): Message
    requires index < |c.messages|
  {
    var m := c.messages[index].(legacyChatId := c.id, legacyId := c.messages[index].id, legacyIndex := index);
    if m.role == User then m.(sender := c.user, clientId := m.id) else m
  }

  /** The merged messages that came from one legacy chat, in merged order. */
  function From(messages: seq<Message>, chat: string): seq<Message> {
    if messages == [] then [] else
    var last := messages[|messages| - 1];
    From(messages[..|messages| - 1], chat) + (if last.legacyChatId == chat then [last] else [])
  }

  lemma {:induction false} FromOfAnotherChat(messages: seq<Message>, chat: string)
    ensures |From(messages, chat)| <= |messages|
    ensures forall m :: m in From(messages, chat) ==> m.legacyChatId == chat && m in messages
  {
    if messages != [] {
      FromOfAnotherChat(messages[..|messages| - 1], chat);
    }
  }

  lemma {:induction false} FromGrows(messages: seq<Message>, n: nat, chat: string)
    requires n <= |messages|
    ensures From(messages[..n], chat) <= From(messages, chat)
  {
    if n < |messages| {
      FromGrows(messages[..|messages| - 1], n, chat);
      assert messages[..|messages| - 1][..n] == messages[..n];
    } else {
      assert messages[..n] == messages;
    }
  }

  /** The head of chat `i` once the messages `merged` were taken, and whether it has one. */
  predicate HasHead(chats: seq<Chat>, merged: seq<Message>, i: nat)
    requires i < |chats|
  {
    |From(merged, chats[i].id)| < |chats[i].messages|
  }

  function HeadTime(chats: seq<Chat>, merged: seq<Message>, i: nat): int
    requires i < |chats| && HasHead(chats, merged, i)
  {
    chats[i].messages[|From(merged, chats[i].id)|].at
  }

  /** Chat `i` is the first of those whose head is earliest. */
  ghost predicate Earliest(chats: seq<Chat>, merged: seq<Message>, i: nat)
    requires i < |chats|
  {
    && HasHead(chats, merged, i)
    && (forall j :: 0 <= j < |chats| && HasHead(chats, merged, j) ==>
          HeadTime(chats, merged, i) <= HeadTime(chats, merged, j))
    && (forall j :: 0 <= j < i && HasHead(chats, merged, j) ==>
          HeadTime(chats, merged, i) < HeadTime(chats, merged, j))
  }

  /** Every message was taken from the chat whose turn it was. */
  ghost predicate MergedInOrder(chats: seq<Chat>, merged: seq<Message>) {
    forall p :: 0 <= p < |merged| ==> HasTurn(chats, merged, p)
  }

  ghost predicate HasTurn(chats: seq<Chat>, merged: seq<Message>, p: nat)
    requires p < |merged|
  {
    exists i :: 0 <= i < |chats| && TakenFrom(chats, merged, p, i)
  }

  ghost predicate TakenFrom(chats: seq<Chat>, merged: seq<Message>, p: nat, i: nat)
    requires p < |merged| && i < |chats|
  {
    chats[i].id == merged[p].legacyChatId && Earliest(chats, merged[..p], i)
  }

  function Candidate(base: string, suffix: nat): string {
    if suffix == 0 then base else base + "-" + Decimal(suffix)
  }

  lemma CandidatesDiffer(base: string, m: nat, n: nat)
    requires m != n
    ensures Candidate(base, m) != Candidate(base, n)
  {
    assert m > 0 <==> |Candidate(base, m)| > |base|;
    assert n > 0 <==> |Candidate(base, n)| > |base|;
    if m > 0 && n > 0 && Candidate(base, m) == Candidate(base, n) {
      assert Candidate(base, m)[|base| + 1..] == Decimal(m);
      assert Candidate(base, n)[|base| + 1..] == Decimal(n);
      DecimalIsInjective(m, n);
    }
  }

  /** Only the first `n` candidates are in the set. */
  ghost predicate OnlyTried(base: string, tried: set<string>, n: nat) {
    forall t :: t in tried ==> exists k :: 0 <= k < n && t == Candidate(base, k)
  }

  lemma NextIsNew(base: string, tried: set<string>, n: nat)
    requires OnlyTried(base, tried, n)
    ensures OnlyTried(base, tried + {Candidate(base, n)}, n + 1)
    ensures |tried + {Candidate(base, n)}| == |tried| + 1
  {
    forall k | 0 <= k < n ensures Candidate(base, k) != Candidate(base, n) {
      CandidatesDiffer(base, k, n);
    }
    assert Candidate(base, n) !in tried;
    forall t | t in tried + {Candidate(base, n)} ensures exists k :: 0 <= k < n + 1 && t == Candidate(base, k) {
      if t in tried {
        var k :| 0 <= k < n && t == Candidate(base, k);
      }
    }
  }

  /** The renaming loop: it ends for any set of used ids, and its result is the first candidate not among them. */
  method FreshId(base: string, used: set<string>) returns (id: string)
    ensures id !in used
    ensures exists n: nat :: id == Candidate(base, n) && forall k :: 0 <= k < n ==> Candidate(base, k) in used
    ensures base <= id && (id != base ==> |id| > |base| + 1 && id[|base|] == '-')
  {
    id := base;
    var suffix := 1;
    ghost var tried := {};
    while id in used
      invariant suffix >= 1 && id == Candidate(base, suffix - 1)
      invariant tried <= used && |tried| == suffix - 1 && OnlyTried(base, tried, suffix - 1)
      invariant forall k :: 0 <= k < suffix - 1 ==> Candidate(base, k) in used
      decreases |used| - |tried|
    {
      NextIsNew(base, tried, suffix - 1);
      SubsetIsSmaller(tried + {id}, used);
      tried := tried + {id};
      id := base + "-" + Decimal(suffix);
      suffix := suffix + 1;
    }
  }

  /** The message counts as unread in its own legacy chat. */
  predicate UnreadBefore(c: Chat, m: Message) {
    m.legacyChatId == c.id && m.role == Agent && m.legacyIndex >= c.readThrough
  }

  function Total(chats: seq<Chat>): nat {
    if chats == [] then 0 else Total(chats[..|chats| - 1]) + |chats[|chats| - 1].messages|
  }

  function Taken(chats: seq<Chat>, offsets: seq<nat>): nat
    requires |chats| == |offsets|
  {
    if chats == [] then 0 else Taken(chats[..|chats| - 1], offsets[..|chats| - 1]) + offsets[|chats| - 1]
  }

  lemma {:induction false} TakenSteps(chats: seq<Chat>, offsets: seq<nat>, i: nat)
    requires |chats| == |offsets| && i < |chats|
    ensures Taken(chats, offsets[i := offsets[i] + 1]) == Taken(chats, offsets) + 1
  {
    var last := |chats| - 1;
    if i == last {
      assert offsets[i := offsets[i] + 1][..last] == offsets[..last];
    } else {
      assert offsets[i := offsets[i] + 1][..last] == offsets[..last][i := offsets[i] + 1];
      TakenSteps(chats[..last], offsets[..last], i);
    }
  }

  lemma {:induction false} TakenIsBounded(chats: seq<Chat>, offsets: seq<nat>)
    requires |chats| == |offsets|
    requires forall i :: 0 <= i < |chats| ==> offsets[i] <= |chats[i].messages|
    ensures Taken(chats, offsets) <= Total(chats)
    ensures (forall i :: 0 <= i < |chats| ==> offsets[i] == |chats[i].messages|) ==> Taken(chats, offsets) == Total(chats)
  {
    if chats != [] {
      TakenIsBounded(chats[..|chats| - 1], offsets[..|chats| - 1]);
    }
  }

  /** The selection loop: the first chat whose next message is earliest, or none when all are exhausted. */
  method Select(chats: seq<Chat>, offsets: seq<nat>, ghost merged: seq<Message>) returns (next: int)
    requires |offsets| == |chats|
    requires forall i :: 0 <= i < |chats| ==> offsets[i] == |From(merged, chats[i].id)| <= |chats[i].messages|
    ensures -1 <= next < |chats|
    ensures next < 0 ==> forall i :: 0 <= i < |chats| ==> offsets[i] == |chats[i].messages|
    ensures next >= 0 ==> Earliest(chats, merged, next)
  {
    next := -1;
    for i := 0 to |chats|
      invariant -1 <= next < i
      invariant next < 0 ==> forall j :: 0 <= j < i ==> !HasHead(chats, merged, j)
      invariant next >= 0 ==> HasHead(chats, merged, next)
      invariant next >= 0 ==> forall j :: 0 <= j < i && HasHead(chats, merged, j) ==>
                  && HeadTime(chats, merged, next) <= HeadTime(chats, merged, j)
                  && (j < next ==> HeadTime(chats, merged, next) < HeadTime(chats, merged, j))
    {
      if offsets[i] >= |chats[i].messages| {
        continue;
      }
      if next < 0 || chats[i].messages[offsets[i]].at < chats[next].messages[offsets[next]].at {
        next := i;
      }
    }
    if next < 0 {
      forall i | 0 <= i < |chats| ensures offsets[i] == |chats[i].messages| {
        assert !HasHead(chats, merged, i);
      }
    }
  }

  /** What the merge promises about its messages. */
  ghost predicate Merged(chats: seq<Chat>, messages: seq<Message>, ids: map<string, seq<string>>) {
    && MergedInOrder(chats, messages)
    && DistinctIds(messages)
    && (forall i :: 0 <= i < |chats| ==> chats[i].id in ids && |ids[chats[i].id]| == |chats[i].messages|)
    && forall i :: 0 <= i < |chats| ==> Faithful(chats[i], From(messages, chats[i].id), ids[chats[i].id])
  }

  /** `part` is a prefix of the chat, message for message, under the recorded new ids. */
  ghost predicate Faithful(c: Chat, part: seq<Message>, ids: seq<string>) {
    && |part| <= |c.messages| && |ids| == |c.messages|
    && forall k :: 0 <= k < |part| ==> part[k] == Restamp(c, k).(id := ids[k])
  }

  /** Message `k` of a merged chat: its content is unchanged, its origin recorded, and a user's message names the user. */
  lemma MergedContent(chats: seq<Chat>, messages: seq<Message>, ids: map<string, seq<string>>, i: nat, k: nat)
    requires Merged(chats, messages, ids) && i < |chats| && k < |From(messages, chats[i].id)|
    ensures k < |chats[i].messages|
    ensures var m, was := From(messages, chats[i].id)[k], chats[i].messages[k];
            && m.text == was.text && m.role == was.role && m.at == was.at && m.publishOrigin == was.publishOrigin
            && m.legacyChatId == chats[i].id && m.legacyId == was.id && m.legacyIndex == k
            && (if was.role == User then m.sender == chats[i].user && m.clientId == was.id
                else m.sender == was.sender && m.clientId == was.clientId)
  {
    assert Faithful(chats[i], From(messages, chats[i].id), ids[chats[i].id]);
  }

  lemma FromAppend(messages: seq<Message>, m: Message, chat: string)
    ensures From(messages + [m], chat) == From(messages, chat) + (if m.legacyChatId == chat then [m] else [])
  {
    assert (messages + [m])[..|messages|] == messages;
  }

  lemma {:induction false} TakenIsZero(chats: seq<Chat>, offsets: seq<nat>)
    requires |chats| == |offsets| && forall i :: 0 <= i < |offsets| ==> offsets[i] == 0
    ensures Taken(chats, offsets) == 0
  {
    if chats != [] {
      TakenIsZero(chats[..|chats| - 1], offsets[..|chats| - 1]);
    }
  }

  lemma AppendInOrder(chats: seq<Chat>, messages: seq<Message>, next: nat, m: Message)
    requires next < |chats| && MergedInOrder(chats, messages) && Earliest(chats, messages, next)
    requires m.legacyChatId == chats[next].id
    ensures MergedInOrder(chats, messages + [m])
  {
    var longer := messages + [m];
    forall p | 0 <= p < |longer|
      ensures HasTurn(chats, longer, p)
    {
      if p < |messages| {
        assert HasTurn(chats, messages, p);
        var i :| 0 <= i < |chats| && TakenFrom(chats, messages, p, i);
        assert longer[..p] == messages[..p];
        assert TakenFrom(chats, longer, p, i);
      } else {
        assert longer[..p] == messages;
        assert TakenFrom(chats, longer, p, next);
      }
    }
  }

  lemma AppendFaithful(c: Chat, messages: seq<Message>, ids: seq<string>, m: Message)
    requires Faithful(c, From(messages, c.id), ids) && |From(messages, c.id)| < |c.messages|
    requires m == Restamp(c, |From(messages, c.id)|).(id := m.id)
    ensures Faithful(c, From(messages + [m], c.id), ids[|From(messages, c.id)| := m.id])
  {
    FromAppend(messages, m, c.id);
  }

  lemma AppendMerges(chats: seq<Chat>, messages: seq<Message>, ids: map<string, seq<string>>, next: nat, m: Message)
    requires DistinctChats(chats) && next < |chats| && Merged(chats, messages, ids) && Earliest(chats, messages, next)
    requires m == Restamp(chats[next], |From(messages, chats[next].id)|).(id := m.id)
    requires forall x :: x in messages ==> x.id != m.id
    ensures var chat := chats[next].id;
            Merged(chats, messages + [m], ids[chat := ids[chat][|From(messages, chat)| := m.id]])
  {
    var chat := chats[next].id;
    var ids' := ids[chat := ids[chat][|From(messages, chat)| := m.id]];
    AppendInOrder(chats, messages, next, m);
    AppendFaithful(chats[next], messages, ids[chat], m);
    forall i | 0 <= i < |chats| && i != next
      ensures chats[i].id in ids' && ids'[chats[i].id] == ids[chats[i].id]
      ensures From(messages + [m], chats[i].id) == From(messages, chats[i].id)
    {
      assert chats[i].id != chat;
      FromAppend(messages, m, chats[i].id);
    }
  }

  function UnreadOf(unread: map<string, seq<string>>, user: string): seq<string> {
    if user in unread then unread[user] else []
  }

  /** The recorded unread ids are those of the messages unread in their own chat, and of nothing else. */
  ghost predicate UnreadRecorded(chats: seq<Chat>, messages: seq<Message>, unread: map<string, seq<string>>) {
    && (forall i, p :: 0 <= i < |chats| && 0 <= p < |messages| ==>
          (messages[p].id in UnreadOf(unread, chats[i].user) <==> UnreadBefore(chats[i], messages[p])))
    && forall u, x :: x in UnreadOf(unread, u) ==> exists m :: m in messages && m.id == x
  }

  lemma AppendUnread(chats: seq<Chat>, messages: seq<Message>, unread: map<string, seq<string>>, next: nat, m: Message)
    requires DistinctChats(chats) && next < |chats| && UnreadRecorded(chats, messages, unread)
    requires m.legacyChatId == chats[next].id
    requires forall x :: x in messages ==> x.id != m.id
    ensures var user := chats[next].user;
            UnreadRecorded(chats, messages + [m],
              if UnreadBefore(chats[next], m) then unread[user := UnreadOf(unread, user) + [m.id]] else unread)
  {
    var user := chats[next].user;
    var unread' := if UnreadBefore(chats[next], m) then unread[user := UnreadOf(unread, user) + [m.id]] else unread;
    var longer := messages + [m];
    forall u, x | x in UnreadOf(unread', u)
      ensures exists y :: y in longer && y.id == x
    {
      if x in UnreadOf(unread, u) {
        var y :| y in messages && y.id == x;
        assert y in longer;
      } else {
        assert x == m.id && m in longer;
      }
    }
    forall i, p | 0 <= i < |chats| && 0 <= p < |longer|
      ensures longer[p].id in UnreadOf(unread', chats[i].user) <==> UnreadBefore(chats[i], longer[p])
    {
      assert i != next ==> chats[i].user != user && chats[i].id != chats[next].id;
      if p < |messages| {
        assert longer[p] in messages;
      } else {
        assert m.id !in UnreadOf(unread, chats[i].user);
      }
    }
  }

  /** The name for a message whose own id is taken, from the chat, position and id it comes from. */
  function DerivedId(hash: ChatHash, chat: string, index: nat, id: string): string {
    "legacy-" + hash(chat, Decimal(index) + ":" + id)
  }

  /** A message keeps its id unless an earlier one has it; then it takes the first free name derived from its origin. */
  ghost predicate Named(hash: ChatHash, messages: seq<Message>, p: nat)
    requires p < |messages|
  {
    var m := messages[p];
    var base := "legacy-" + hash(m.legacyChatId, Decimal(m.legacyIndex) + ":" + m.legacyId);
    if forall x :: x in messages[..p] ==> x.id != m.legacyId then m.id == m.legacyId
    else exists n: nat :: m.id == Candidate(base, n) &&
           forall k :: 0 <= k < n ==> exists x :: x in messages[..p] && x.id == Candidate(base, k)
  }

  lemma UsedGrows(messages: seq<Message>, used: set<string>, m: Message)
    requires UsedIds(messages, used)
    ensures UsedIds(messages + [m], used + {m.id})
  {
    forall id | id in used + {m.id} ensures exists x :: x in messages + [m] && x.id == id {
      if id in used {
        var x :| x in messages && x.id == id;
        assert x in messages + [m];
      } else {
        assert m in messages + [m];
      }
    }
  }

  lemma AppendNamed(hash: ChatHash, messages: seq<Message>, m: Message)
    requires AllNamed(hash, messages) && Named(hash, messages + [m], |messages|)
    ensures AllNamed(hash, messages + [m])
  {
    forall p | 0 <= p < |messages| ensures Named(hash, messages + [m], p) {
      assert Named(hash, messages, p);
      assert (messages + [m])[..p] == messages[..p];
    }
  }

  ghost predicate Progress(chats: seq<Chat>, offsets: seq<nat>, messages: seq<Message>) {
    && |offsets| == |chats|
    && (forall i :: 0 <= i < |chats| ==> offsets[i] == |From(messages, chats[i].id)| <= |chats[i].messages|)
    && |messages| == Taken(chats, offsets)
  }

  ghost predicate UsedIds(messages: seq<Message>, used: set<string>) {
    && (forall m :: m in messages ==> m.id in used)
    && forall id :: id in used ==> exists m :: m in messages && m.id == id
  }

  ghost predicate AllNamed(hash: ChatHash, messages: seq<Message>) {
    forall p :: 0 <= p < |messages| ==> Named(hash, messages, p)
  }

  /** The loop invariant of the merge. */
  ghost predicate MergeState(
      hash: ChatHash, chats: seq<Chat>, offsets: seq<nat>, messages: seq<Message>,
      ids: map<string, seq<string>>, unread: map<string, seq<string>>, used: set<string>)
  {
    && Progress(chats, offsets, messages)
    && Merged(chats, messages, ids)
    && UsedIds(messages, used)
    && UnreadRecorded(chats, messages, unread)
    && AllNamed(hash, messages)
  }

  lemma NamedByUsed(hash: ChatHash, messages: seq<Message>, used: set<string>, m: Message)
    requires UsedIds(messages, used)
    requires var base := DerivedId(hash, m.legacyChatId, m.legacyIndex, m.legacyId);
             if m.legacyId !in used then m.id == m.legacyId
             else exists n: nat :: m.id == Candidate(base, n) && forall k :: 0 <= k < n ==> Candidate(base, k) in used
    ensures Named(hash, messages + [m], |messages|)
  {
    assert (messages + [m])[..|messages|] == messages;
  }

  lemma MergeStep(
      hash: ChatHash, chats: seq<Chat>, offsets: seq<nat>, messages: seq<Message>, ids: map<string, seq<string>>,
      unread: map<string, seq<string>>, used: set<string>, next: nat, m: Message)
    requires DistinctChats(chats) && next < |chats| && MergeState(hash, chats, offsets, messages, ids, unread, used)
    requires Earliest(chats, messages, next)
    requires m == Restamp(chats[next], offsets[next]).(id := m.id) && m.id !in used
    requires Named(hash, messages + [m], |messages|)
    ensures var c := chats[next];
            MergeState(hash, chats, offsets[next := offsets[next] + 1], messages + [m],
              ids[c.id := ids[c.id][offsets[next] := m.id]],
              if UnreadBefore(c, m) then unread[c.user := UnreadOf(unread, c.user) + [m.id]] else unread,
              used + {m.id})
  {
    var c, longer := chats[next], messages + [m];
    var ids' := ids[c.id := ids[c.id][offsets[next] := m.id]];
    assert AllNamed(hash, longer) by {
      AppendNamed(hash, messages, m);
    }
    assert UsedIds(longer, used + {m.id}) by {
      UsedGrows(messages, used, m);
    }
    assert Merged(chats, longer, ids') by {
      AppendMerges(chats, messages, ids, next, m);
    }
    assert Progress(chats, offsets[next := offsets[next] + 1], longer) by {
      ProgressStep(chats, offsets, messages, next, m);
    }
    AppendUnread(chats, messages, unread, next, m);
  }

  lemma ProgressStep(chats: seq<Chat>, offsets: seq<nat>, messages: seq<Message>, next: nat, m: Message)
    requires DistinctChats(chats) && next < |chats| && Progress(chats, offsets, messages)
    requires offsets[next] < |chats[next].messages| && m.legacyChatId == chats[next].id
    ensures Progress(chats, offsets[next := offsets[next] + 1], messages + [m])
  {
    TakenSteps(chats, offsets, next);
    forall i | 0 <= i < |chats|
      ensures |From(messages + [m], chats[i].id)| == offsets[i] + (if i == next then 1 else 0)
    {
      assert i != next ==> chats[i].id != chats[next].id;
      FromAppend(messages, m, chats[i].id);
    }
  }

  /** The next message of a chat under an id no earlier message has. */
  method TakeNext(hash: ChatHash, c: Chat, index: nat, used: set<string>, ghost messages: seq<Message>)
    returns (m: Message)
    requires index < |c.messages|
    requires UsedIds(messages, used)
    ensures m == Restamp(c, index).(id := m.id) && m.id !in used
    ensures Named(hash, messages + [m], |messages|)
  {
    m := Restamp(c, index);
    if m.id in used {
      var renamed := FreshId(DerivedId(hash, c.id, index, m.id), used);
      m := m.(id := renamed);
    }
    NamedByUsed(hash, messages, used, m);
  }

  lemma MergeStart(hash: ChatHash, chats: seq<Chat>, offsets: seq<nat>)
    requires DistinctChats(chats) && |offsets| == |chats| && forall i :: 0 <= i < |offsets| ==> offsets[i] == 0
    ensures MergeState(hash, chats, offsets, [], NoIds(chats), map[], {})
  {
    TakenIsZero(chats, offsets);
  }

  lemma ProgressBound(chats: seq<Chat>, offsets: seq<nat>, messages: seq<Message>)
    requires Progress(chats, offsets, messages)
    ensures |messages| <= Total(chats)
    ensures (forall i :: 0 <= i < |chats| ==> offsets[i] == |chats[i].messages|) ==> |messages| == Total(chats)
  {
    TakenIsBounded(chats, offsets);
  }

  /** One turn of the merge loop: move the head of chat `next` over, under a unique id, and record its unread status. */
  method MergeOne(
      hash: ChatHash, chats: seq<Chat>, offsets: seq<nat>, messages: seq<Message>,
      ids: map<string, seq<string>>, unread: map<string, seq<string>>, used: set<string>, next: nat)
    returns (offsets': seq<nat>, messages': seq<Message>,
             ids': map<string, seq<string>>, unread': map<string, seq<string>>, used': set<string>)
    requires DistinctChats(chats) && next < |chats| && MergeState(hash, chats, offsets, messages, ids, unread, used)
    requires Earliest(chats, messages, next)
    ensures MergeState(hash, chats, offsets', messages', ids', unread', used')
    ensures |messages'| == |messages| + 1
    ensures forall u :: u in unread' ==> u in unread || u == chats[next].user
  {
    var c, index := chats[next], offsets[next];
    var message := TakeNext(hash, c, index, used, messages);
    MergeStep(hash, chats, offsets, messages, ids, unread, used, next, message);
    used' := used + {message.id};
    ids' := ids[c.id := ids[c.id][index := message.id]];
    unread' := unread;
    if index >= c.readThrough && message.role == Agent {
      unread' := unread[c.user := UnreadOf(unread, c.user) + [message.id]];
    }
    messages' := messages + [message];
    offsets' := offsets[next := index + 1];
  }

  predicate IsOwner(chats: seq<Chat>, user: string) {
    exists i :: 0 <= i < |chats| && chats[i].user == user
  }

  predicate IsMerged(chats: seq<Chat>, id: string) {
    exists i :: 0 <= i < |chats| && chats[i].id == id
  }

  predicate OnlyOwners(chats: seq<Chat>, users: set<string>) {
    forall user :: user in users ==> IsOwner(chats, user)
  }

  lemma IsAmong(chats: seq<Chat>, n: nat)
    requires n < |chats|
    ensures IsMerged(chats, chats[n].id) && IsOwner(chats, chats[n].user)
  {
  }

  /** The merge loop: always the earliest head, its id made unique, its unread status recorded. */
  method Merge(hash: ChatHash, chats: seq<Chat>)
    returns (messages: seq<Message>, ids: map<string, seq<string>>, unread: map<string, seq<string>>)
    requires DistinctChats(chats)
    ensures |messages| == Total(chats)
    ensures Merged(chats, messages, ids)
    ensures forall i :: 0 <= i < |chats| ==> |From(messages, chats[i].id)| == |chats[i].messages|
    ensures UnreadRecorded(chats, messages, unread)
    ensures AllNamed(hash, messages)
    ensures OnlyOwners(chats, unread.Keys)
  {
    hide IsOwner;
    messages, unread := [], map[];
    ids := NoIds(chats);
    var offsets: seq<nat> := seq(|chats|, _ => 0);
    var used: set<string> := {};
    MergeStart(hash, chats, offsets);
    ProgressBound(chats, offsets, messages);
    while true
      invariant MergeState(hash, chats, offsets, messages, ids, unread, used)
      invariant |messages| <= Total(chats)
      invariant OnlyOwners(chats, unread.Keys)
      decreases Total(chats) - |messages|
    {
      var next := Select(chats, offsets, messages);
      if next < 0 {
        ProgressBound(chats, offsets, messages);
        break;
      }
      IsAmong(chats, next);
      offsets, messages, ids, unread, used := MergeOne(hash, chats, offsets, messages, ids, unread, used, next);
      ProgressBound(chats, offsets, messages);
    }
  }

  function NoIds(chats: seq<Chat>): (ids: map<string, seq<string>>)
    ensures forall i :: 0 <= i < |chats| ==> chats[i].id in ids
    ensures DistinctChats(chats) ==> forall i :: 0 <= i < |chats| ==> |ids[chats[i].id]| == |chats[i].messages|
  {
    if chats == [] then map[] else
    var last := chats[|chats| - 1];
    NoIds(chats[..|chats| - 1])[last.id := seq(|last.messages|, _ => "")]
  }

  // ---------- time order ----------

  predicate Sorted(messages: seq<Message>) {
    forall i, j :: 0 <= i < j < |messages| ==> messages[i].at <= messages[j].at
  }

  lemma TakenBefore(messages: seq<Message>, p: nat, q: nat, chat: string)
    requires p < q < |messages| && messages[q].legacyChatId == chat
    ensures |From(messages[..p], chat)| <= |From(messages[..q], chat)| < |From(messages, chat)|
    ensures From(messages, chat)[|From(messages[..q], chat)|] == messages[q]
  {
    assert messages[..q][..p] == messages[..p];
    FromGrows(messages[..q], p, chat);
    assert messages[..q + 1] == messages[..q] + [messages[q]];
    FromAppend(messages[..q], messages[q], chat);
    FromGrows(messages, q + 1, chat);
  }

  lemma HeadIsNext(c: Chat, messages: seq<Message>, ids: seq<string>, p: nat)
    requires p < |messages| && messages[p].legacyChatId == c.id
    requires Faithful(c, From(messages, c.id), ids)
    ensures |From(messages[..p], c.id)| < |c.messages|
    ensures messages[p].at == c.messages[|From(messages[..p], c.id)|].at
  {
    assert messages[..p + 1] == messages[..p] + [messages[p]];
    FromAppend(messages[..p], messages[p], c.id);
    FromGrows(messages, p + 1, c.id);
    assert From(messages, c.id)[|From(messages[..p], c.id)|] == messages[p];
  }

  lemma LaterIsLater(c: Chat, messages: seq<Message>, ids: seq<string>, p: nat, q: nat)
    requires p < q < |messages| && messages[q].legacyChatId == c.id
    requires Faithful(c, From(messages, c.id), ids) && Sorted(c.messages)
    ensures |From(messages[..p], c.id)| < |c.messages|
    ensures c.messages[|From(messages[..p], c.id)|].at <= messages[q].at
  {
    HeadIsNext(c, messages, ids, q);
    TakenBefore(messages, p, q, c.id);
  }

  lemma TimeOrderAt(chats: seq<Chat>, messages: seq<Message>, ids: map<string, seq<string>>, p: nat, q: nat, i: nat, j: nat)
    requires p < q < |messages| && i < |chats| && j < |chats|
    requires TakenFrom(chats, messages, p, i) && messages[q].legacyChatId == chats[j].id
    requires chats[i].id in ids && Faithful(chats[i], From(messages, chats[i].id), ids[chats[i].id])
    requires chats[j].id in ids && Faithful(chats[j], From(messages, chats[j].id), ids[chats[j].id])
    requires Sorted(chats[j].messages)
    ensures messages[p].at <= messages[q].at
  {
    var merged := messages[..p];
    assert messages[p].at == HeadTime(chats, merged, i) by {
      HeadIsNext(chats[i], messages, ids[chats[i].id], p);
    }
    assert HasHead(chats, merged, j) && HeadTime(chats, merged, j) <= messages[q].at by {
      LaterIsLater(chats[j], messages, ids[chats[j].id], p, q);
    }
  }

  /** If every legacy chat is in time order, so is the merged one. */
  lemma MergePreservesTimeOrder(chats: seq<Chat>, messages: seq<Message>, ids: map<string, seq<string>>)
    requires Merged(chats, messages, ids)
    requires forall i :: 0 <= i < |chats| ==> Sorted(chats[i].messages)
    ensures Sorted(messages)
  {
    forall p, q | 0 <= p < q < |messages|
      ensures messages[p].at <= messages[q].at
    {
      assert HasTurn(chats, messages, p) && HasTurn(chats, messages, q);
      var i :| 0 <= i < |chats| && TakenFrom(chats, messages, p, i);
      var j :| 0 <= j < |chats| && TakenFrom(chats, messages, q, j);
      TimeOrderAt(chats, messages, ids, p, q, i, j);
    }
  }

  /** Messages of one time stand in the order of their chats: a later chat's comes first only if it is earlier. */
  lemma TiesKeepChatOrder(
      chats: seq<Chat>, messages: seq<Message>, ids: map<string, seq<string>>, p: nat, q: nat, i: nat, j: nat)
    requires DistinctChats(chats) && Merged(chats, messages, ids) && j < i < |chats| && Sorted(chats[j].messages)
    requires p < q < |messages| && messages[p].legacyChatId == chats[i].id && messages[q].legacyChatId == chats[j].id
    ensures messages[p].at < messages[q].at
  {
    assert HasTurn(chats, messages, p);
    var taken :| 0 <= taken < |chats| && TakenFrom(chats, messages, p, taken);
    assert taken == i;
    assert Faithful(chats[i], From(messages, chats[i].id), ids[chats[i].id]);
    assert Faithful(chats[j], From(messages, chats[j].id), ids[chats[j].id]);
    HeadIsNext(chats[i], messages, ids[chats[i].id], p);
    LaterIsLater(chats[j], messages, ids[chats[j].id], p, q);
    assert HasHead(chats, messages[..p], j) && messages[p].at == HeadTime(chats, messages[..p], i);
  }

  // ---------- unread messages ----------

  lemma UnreadAlike(shared: Chat, c: Chat, p: nat, k: nat, id: string)
    requires shared.version >= 4 && c.version < 4
    requires p < |shared.messages| <= shared.Cursor(c.user) && k < |c.messages|
    requires shared.messages[p] == Restamp(c, k).(id := id)
    requires shared.messages[p].id in shared.LegacyUnreadOf(c.user) <==> UnreadBefore(c, shared.messages[p])
    ensures shared.Unread(c.user, p) <==> c.Unread(c.user, k)
  {
  }

  lemma ReadElsewhere(shared: Chat, c: Chat, p: nat)
    requires shared.version >= 4 && p < |shared.messages| <= shared.Cursor(c.user)
    requires shared.messages[p].legacyChatId != c.id
    requires shared.messages[p].id in shared.LegacyUnreadOf(c.user) <==> UnreadBefore(c, shared.messages[p])
    ensures !shared.Unread(c.user, p)
  {
  }

  /** Each merged message is unread exactly when it comes from the reader's chat and was unread there. */
  lemma UnreadAt(shared: Chat, c: Chat, ids: seq<string>, p: nat)
    requires shared.version >= 4 && c.version < 4 && p < |shared.messages| <= shared.Cursor(c.user)
    requires Faithful(c, From(shared.messages, c.id), ids)
    requires shared.messages[p].id in shared.LegacyUnreadOf(c.user) <==> UnreadBefore(c, shared.messages[p])
    ensures var k := |From(shared.messages[..p], c.id)|;
            if shared.messages[p].legacyChatId == c.id
            then k < |c.messages| && (shared.Unread(c.user, p) <==> c.Unread(c.user, k))
            else !shared.Unread(c.user, p)
  {
    var all := shared.messages;
    if all[p].legacyChatId == c.id {
      var k := |From(all[..p], c.id)|;
      assert From(all[..p + 1], c.id) == From(all[..p], c.id) + [all[p]] by {
        assert all[..p + 1] == all[..p] + [all[p]];
        FromAppend(all[..p], all[p], c.id);
      }
      FromGrows(all, p + 1, c.id);
      assert From(all, c.id)[k] == all[p];
      UnreadAlike(shared, c, p, k, ids[k]);
    } else {
      ReadElsewhere(shared, c, p);
    }
  }

  /** A reader's unread count in the merged chat is the count in that reader's own chat. */
  lemma {:induction false} UnreadCarriesOver(shared: Chat, c: Chat, ids: seq<string>, n: nat)
    requires shared.version >= 4 && c.version < 4 && n <= |shared.messages| <= shared.Cursor(c.user)
    requires Faithful(c, From(shared.messages, c.id), ids)
    requires forall p :: 0 <= p < |shared.messages| ==>
               (shared.messages[p].id in shared.LegacyUnreadOf(c.user) <==> UnreadBefore(c, shared.messages[p]))
    ensures |From(shared.messages[..n], c.id)| <= |c.messages|
    ensures shared.UnreadUpTo(c.user, n) == c.UnreadUpTo(c.user, |From(shared.messages[..n], c.id)|)
  {
    var all := shared.messages;
    if n > 0 {
      var m := all[n - 1];
      UnreadCarriesOver(shared, c, ids, n - 1);
      assert From(all[..n], c.id) == From(all[..n - 1], c.id) + (if m.legacyChatId == c.id then [m] else []) by {
        assert all[..n] == all[..n - 1] + [m];
        FromAppend(all[..n - 1], m, c.id);
      }
      UnreadAt(shared, c, ids, n - 1);
    }
  }

  // ---------- the whole migration ----------

  predicate Active(c: Chat, registered: set<string>) { c.open && c.user in registered }

  /** Undelivered work moves to the shared outbox; a user input only from an active chat and its last epoch. */
  predicate Carried(c: Chat, registered: set<string>, d: Delivery) {
    && !d.accepted
    && d.target != c.Address()
    && (d.UserInput() ==> Active(c, registered) && d.epoch == c.epoch)
  }

  function CarryChat(c: Chat, registered: set<string>, epoch: nat, n: nat): seq<Delivery>
    requires n <= |c.outbox|
  {
    if n == 0 then [] else
    var d := c.outbox[n - 1];
    CarryChat(c, registered, epoch, n - 1)
      + (if Carried(c, registered, d) then [d.(sourceChatId := c.id, epoch := epoch)] else [])
  }

  function CarryAll(chats: seq<Chat>, registered: set<string>, epoch: nat): seq<Delivery> {
    if chats == [] then [] else
    var c := chats[|chats| - 1];
    CarryAll(chats[..|chats| - 1], registered, epoch) + CarryChat(c, registered, epoch, |c.outbox|)
  }

  /** Work not delivered yet, for somebody else; a user's only from the last epoch of an open chat of a registered user. */
  predicate IsOwed(c: Chat, registered: set<string>, d: Delivery) {
    && !d.accepted && d.target != "dialogue-" + c.id
    && ("input-" <= d.id || "migrated-input-" <= d.id ==> c.open && c.user in registered && d.epoch == c.epoch)
  }

  lemma CarriedIsOwed(c: Chat, registered: set<string>, d: Delivery)
    ensures Carried(c, registered, d) <==> IsOwed(c, registered, d)
  {
  }

  /** `d` comes from the first `n` entries of `c`, re-fenced. */
  predicate IsCarried(c: Chat, registered: set<string>, epoch: nat, n: nat, d: Delivery)
    requires n <= |c.outbox|
  {
    exists k :: 0 <= k < n && IsOwed(c, registered, c.outbox[k]) && d == c.outbox[k].(sourceChatId := c.id, epoch := epoch)
  }

  lemma {:induction false} CarriedFromOneChat(c: Chat, registered: set<string>, epoch: nat, n: nat, d: Delivery)
    requires n <= |c.outbox|
    ensures d in CarryChat(c, registered, epoch, n) <==> IsCarried(c, registered, epoch, n, d)
  {
    hide IsOwed;
    hide Carried;
    if n > 0 {
      CarriedFromOneChat(c, registered, epoch, n - 1, d);
      CarriedIsOwed(c, registered, c.outbox[n - 1]);
    }
  }

  lemma {:induction false} CarriedFromAChat(chats: seq<Chat>, registered: set<string>, epoch: nat, d: Delivery)
    ensures d in CarryAll(chats, registered, epoch) <==>
            exists i :: 0 <= i < |chats| && IsCarried(chats[i], registered, epoch, |chats[i].outbox|, d)
  {
    hide IsCarried;
    if chats != [] {
      var last := |chats| - 1;
      CarriedFromAChat(chats[..last], registered, epoch, d);
      CarriedFromOneChat(chats[last], registered, epoch, |chats[last].outbox|, d);
    }
  }

  /** The carried entries are exactly the undelivered ones that may still be delivered, re-fenced to the new epoch. */
  lemma CarriedExactly(chats: seq<Chat>, registered: set<string>, epoch: nat, d: Delivery)
    ensures d in CarryAll(chats, registered, epoch) <==>
            exists i, k :: 0 <= i < |chats| && 0 <= k < |chats[i].outbox| && IsOwed(chats[i], registered, chats[i].outbox[k])
              && d == chats[i].outbox[k].(sourceChatId := chats[i].id, epoch := epoch)
  {
    hide IsOwed;
    CarriedFromAChat(chats, registered, epoch, d);
  }

  /** What the migration of `chats` must produce. */
  ghost predicate Migrated(hash: ChatHash, chats: seq<Chat>, registered: set<string>, shared: Chat) {
    && shared.version == 4
    && |shared.messages| == Total(chats)
    && Merged(chats, shared.messages, MessageIds(shared))
    && AllNamed(hash, shared.messages)
    && (forall i :: 0 <= i < |chats| ==> |From(shared.messages, chats[i].id)| == |chats[i].messages|)
    && UnreadRecorded(chats, shared.messages, shared.legacyUnread)
    && (forall i :: 0 <= i < |chats| ==> shared.Cursor(chats[i].user) == |shared.messages|)
    && (shared.open <==> exists i :: 0 <= i < |chats| && Active(chats[i], registered))
    && shared.epoch >= (if shared.open then 1 else 0)
    && IsMaxEpoch(chats, if shared.open then shared.epoch - 1 else shared.epoch)
    && shared.epochStart == (if shared.open then Some(|shared.messages|) else None)
    && shared.outbox == CarryAll(chats, registered, shared.epoch)
    && (forall i :: 0 <= i < |chats| ==>
          && chats[i].id in shared.sources
          && shared.sources[chats[i].id] == SourceOf(chats[i], registered, MessageIds(shared)[chats[i].id]))
  }

  predicate IsMaxEpoch(chats: seq<Chat>, epoch: nat) {
    && (forall i :: 0 <= i < |chats| ==> chats[i].epoch <= epoch)
    && (epoch == 0 || exists i :: 0 <= i < |chats| && chats[i].epoch == epoch)
  }

  function MessageIds(shared: Chat): map<string, seq<string>> {
    map id | id in shared.sources :: shared.sources[id].messageIds
  }

  function SourceOf(c: Chat, registered: set<string>, ids: seq<string>): Source {
    Source(c.user, c.epoch, Active(c, registered), if Active(c, registered) then c.token else "", ids)
  }

  /**
   The capabilities that survive: a merged chat that was open, of a user who is still there, keeps its token, and then
   the shared chat is open; every message is found under the id its source records.
   */
  lemma MigratedSources(hash: ChatHash, chats: seq<Chat>, registered: set<string>, shared: Chat, i: nat)
    requires Migrated(hash, chats, registered, shared) && i < |chats|
    ensures chats[i].id in shared.sources
    ensures var c, source := chats[i], shared.sources[chats[i].id];
            && source.user == c.user && source.epoch == c.epoch
            && (source.open <==> c.open && c.user in registered)
            && source.token == (if c.open && c.user in registered then c.token else "")
            && (c.open && c.user in registered ==> shared.open && shared.epoch > c.epoch)
            && |source.messageIds| == |c.messages| == |From(shared.messages, c.id)|
            && forall k :: 0 <= k < |c.messages| ==> From(shared.messages, c.id)[k].id == source.messageIds[k]
    ensures shared.open ==> exists j :: 0 <= j < |chats| && chats[j].open && chats[j].user in registered
  {
    assert Faithful(chats[i], From(shared.messages, chats[i].id), MessageIds(shared)[chats[i].id]);
    if shared.open {
      var j :| 0 <= j < |chats| && Active(chats[j], registered);
      assert chats[j].open && chats[j].user in registered;
    }
    if chats[i].open && chats[i].user in registered {
      assert Active(chats[i], registered);
    }
  }

  method CollectSources(chats: seq<Chat>, registered: set<string>, ids: map<string, seq<string>>, end: nat)
    returns (sources: map<string, Source>, cursors: map<string, int>, open: bool, epoch: nat)
    requires DistinctChats(chats) && forall i :: 0 <= i < |chats| ==> chats[i].id in ids
    ensures forall i :: 0 <= i < |chats| ==>
              chats[i].id in sources && sources[chats[i].id] == SourceOf(chats[i], registered, ids[chats[i].id])
    ensures forall i :: 0 <= i < |chats| ==> chats[i].user in cursors && cursors[chats[i].user] == end
    ensures OnlyOwners(chats, cursors.Keys) && forall id :: id in sources ==> IsMerged(chats, id)
    ensures open <==> exists i :: 0 <= i < |chats| && Active(chats[i], registered)
    ensures IsMaxEpoch(chats, epoch)
  {
    hide IsMerged;
    hide IsOwner;
    sources, cursors, open, epoch := map[], map[], false, 0;
    for n := 0 to |chats|
      invariant forall i :: 0 <= i < n ==>
                  chats[i].id in sources && sources[chats[i].id] == SourceOf(chats[i], registered, ids[chats[i].id])
      invariant forall i :: 0 <= i < n ==> chats[i].user in cursors && cursors[chats[i].user] == end
      invariant OnlyOwners(chats, cursors.Keys) && forall id :: id in sources ==> IsMerged(chats, id)
      invariant open <==> exists i :: 0 <= i < n && Active(chats[i], registered)
      invariant forall i :: 0 <= i < n ==> chats[i].epoch <= epoch
      invariant epoch == 0 || exists i :: 0 <= i < n && chats[i].epoch == epoch
    {
      IsAmong(chats, n);
      var c := chats[n];
      var active := c.open && c.user in registered;
      open := open || active;
      sources := sources[c.id := Source(c.user, c.epoch, active, if active then c.token else "", ids[c.id])];
      cursors := cursors[c.user := end];
      if c.epoch > epoch {
        epoch := c.epoch;
      }
    }
  }

  method CarryOutbox(chats: seq<Chat>, registered: set<string>, sources: map<string, Source>, epoch: nat)
    returns (outbox: seq<Delivery>)
    requires forall i :: 0 <= i < |chats| ==>
               chats[i].id in sources && sources[chats[i].id].open == Active(chats[i], registered)
    ensures outbox == CarryAll(chats, registered, epoch)
  {
    outbox := [];
    for n := 0 to |chats|
      invariant outbox == CarryAll(chats[..n], registered, epoch)
    {
      var c := chats[n];
      ghost var before := outbox;
      for k := 0 to |c.outbox|
        invariant outbox == before + CarryChat(c, registered, epoch, k)
      {
        var d := c.outbox[k];
        if d.accepted || d.target == c.Address() {
          continue;
        }
        if d.UserInput() && (!sources[c.id].open || d.epoch != c.epoch) {
          continue;
        }
        outbox := outbox + [d.(sourceChatId := c.id, epoch := epoch)];
      }
      assert chats[..n + 1][..n] == chats[..n];
    }
    assert chats[..|chats|] == chats;
  }

  /** migrateSharedChatLocked on loaded chats; `token` is the new random capability. */
  method Migrate(hash: ChatHash, resource: string, chats: seq<Chat>, registered: set<string>, token: string)
    returns (shared: Chat)
    requires DistinctChats(chats)
    ensures shared.id == hash(resource, "") && shared.resource == resource
    ensures Migrated(hash, chats, registered, shared)
    ensures shared.token == if shared.open then token else ""
    ensures shared.user == "" && shared.readThrough == 0
    ensures OnlyOwners(chats, shared.readCursors.Keys) && OnlyOwners(chats, shared.legacyUnread.Keys)
    ensures forall id :: id in shared.sources ==> IsMerged(chats, id)
  {
    hide IsMerged;
    hide IsOwner;
    var messages, ids, unread := Merge(hash, chats);
    var sources, cursors, open, epoch := CollectSources(chats, registered, ids, |messages|);
    if open {
      epoch := epoch + 1;
    }
    var outbox := CarryOutbox(chats, registered, sources, epoch);
    shared := Chat(4, hash(resource, ""), resource, "", open, epoch, if open then Some(|messages|) else None,
      if open then token else "", 0, cursors, unread, messages, outbox, sources);
    MigrationResult(hash, chats, registered, shared, ids);
  }

  lemma MigrationResult(hash: ChatHash, chats: seq<Chat>, registered: set<string>, shared: Chat, ids: map<string, seq<string>>)
    requires shared.version == 4 && |shared.messages| == Total(chats)
    requires Merged(chats, shared.messages, ids)
    requires AllNamed(hash, shared.messages)
    requires forall i :: 0 <= i < |chats| ==> |From(shared.messages, chats[i].id)| == |chats[i].messages|
    requires UnreadRecorded(chats, shared.messages, shared.legacyUnread)
    requires forall i :: 0 <= i < |chats| ==> chats[i].user in shared.readCursors
    requires forall i :: 0 <= i < |chats| ==> shared.readCursors[chats[i].user] == |shared.messages|
    requires shared.open <==> exists i :: 0 <= i < |chats| && Active(chats[i], registered)
    requires shared.epoch >= (if shared.open then 1 else 0)
    requires IsMaxEpoch(chats, if shared.open then shared.epoch - 1 else shared.epoch)
    requires shared.epochStart == if shared.open then Some(|shared.messages|) else None
    requires shared.outbox == CarryAll(chats, registered, shared.epoch)
    requires forall i :: 0 <= i < |chats| ==> chats[i].id in shared.sources
    requires forall i :: 0 <= i < |chats| ==>
               shared.sources[chats[i].id] == SourceOf(chats[i], registered, ids[chats[i].id])
    ensures Migrated(hash, chats, registered, shared)
  {
    SameIds(chats, shared.messages, ids, MessageIds(shared));
  }

  lemma SameIds(chats: seq<Chat>, messages: seq<Message>, ids: map<string, seq<string>>, other: map<string, seq<string>>)
    requires Merged(chats, messages, ids)
    requires forall i :: 0 <= i < |chats| ==> chats[i].id in other && other[chats[i].id] == ids[chats[i].id]
    ensures Merged(chats, messages, other)
  {
  }

  /** Every legacy owner has as many unread messages after the migration as before. */
  lemma MigrationPreservesUnread(hash: ChatHash, chats: seq<Chat>, registered: set<string>, shared: Chat, i: nat)
    requires Migrated(hash, chats, registered, shared) && i < |chats| && chats[i].version < 4
    ensures shared.UnreadCount(chats[i].user) == chats[i].UnreadCount(chats[i].user)
  {
    var n := |shared.messages|;
    assert shared.messages[..n] == shared.messages;
    assert shared.LegacyUnreadOf(chats[i].user) == UnreadOf(shared.legacyUnread, chats[i].user);
    UnreadCarriesOver(shared, chats[i], MessageIds(shared)[chats[i].id], n);
  }
}
