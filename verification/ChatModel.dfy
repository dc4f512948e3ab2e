/** The records of a resource chat (internal/serve/chat_store.go) and what can be computed from one. */
module ChatModel {
  import opened Basics

  /** chatID: a digest of an address and a name. */
  type ChatHash = (string, string) -> string

  /** chatID is a cryptographic digest: distinct pairs are taken to have distinct digests. */
  ghost predicate Injective(hash: ChatHash) {
    forall a, b, c, d :: hash(a, b) == hash(c, d) ==> a == c && b == d
  }

  datatype Role = User | Agent | Other(name: string)

  /** `at` is the instant createdAt parses to. */
  datatype Message = Message(
    id: string,
    role: Role,
    text: string,
    at: int,
    sender: string,
    clientId: string,
    publishOrigin: string,
    legacyChatId: string,
    legacyId: string,
    legacyIndex: nat)

  datatype Delivery = Delivery(
    id: string,
    target: string,
    text: string,
    sender: string,
    accepted: bool,
    epoch: nat,
    sourceChatId: string)
  {
    predicate UserInput() { "input-" <= id || "migrated-input-" <= id }
  }

  /** A per-user chat that was merged into the shared one. */
  datatype Source = Source(user: string, epoch: nat, open: bool, token: string, messageIds: seq<string>)

  datatype Chat = Chat(
    version: int,
    id: string,
    resource: string,
    user: string,
    open: bool,
    epoch: nat,
    epochStart: Option<nat>,
    token: string,
    readThrough: int,
    readCursors: map<string, int>,
    legacyUnread: map<string, seq<string>>,
    messages: seq<Message>,
    outbox: seq<Delivery>,
    sources: map<string, Source>)
  {
    function Address(): string { "dialogue-" + id }

    function Cursor(reader: string): int { if reader in readCursors then readCursors[reader] else 0 }

    function LegacyUnreadOf(reader: string): seq<string> {
      if reader in legacyUnread then legacyUnread[reader] else []
    }

    /** Whether message `i` counts as unread for `reader`. */
    predicate Unread(reader: string, i: nat)
      requires i < |messages|
    {
      && messages[i].role == Agent
      && (if version < 4 then i >= readThrough
          else messages[i].id in LegacyUnreadOf(reader) || i >= Cursor(reader))
    }

    /** snapshot: the unread count among the first `n` messages. */
    function UnreadUpTo(reader: string, n: nat): nat
      requires n <= |messages|
    {
      if n == 0 then 0 else UnreadUpTo(reader, n - 1) + (if Unread(reader, n - 1) then 1 else 0)
    }

    function UnreadCount(reader: string): nat { UnreadUpTo(reader, |messages|) }
  }

  predicate DistinctIds(messages: seq<Message>) {
    forall i, j :: 0 <= i < j < |messages| ==> messages[i].id != messages[j].id
  }
}
