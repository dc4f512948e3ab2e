/**
 Delivery of chat inputs (reconcileWorkspaceChats in internal/serve/chat.go).

 A pass over the outbox hands each entry to the mailbox of its target and then
 saves the chat with the entries marked accepted. The mailbox writes are durable
 one by one, the marks only with the final save, so a pass that stops in between
 is replayed over entries it has already delivered. The mailbox accepts the same
 message under the same id again and refuses different content.
 */
module ChatOutbox {
  import opened Basics
  import opened ChatModel
  import opened SharedChat

  /** The immutable fields of a mailbox message. */
  datatype Mail = Mail(target: string, text: string, sender: string, userInput: bool, chat: string, messageId: string)

  /** What is durable: the chat record and the mailbox. */
  datatype World = World(chat: Chat, mailbox: map<string, Mail>)

  datatype Outcome = Completed | Stopped | MailConflict

  // ---------- one entry ----------

  function SourceOf(c: Chat, d: Delivery): string { if d.sourceChatId != "" then d.sourceChatId else c.id }

  function MailId(env: Env, c: Chat, d: Delivery): string { "chat-" + env.hash(SourceOf(c, d), d.id) }

  function MailOf(c: Chat, d: Delivery): Mail { Mail(d.target, d.text, d.sender, d.UserInput(), c.resource, d.id) }

  /** A user input may be delivered only while the chat is open in the epoch that queued it. */
  predicate MayDeliver(c: Chat, registered: set<string>, archived: bool, d: Delivery) {
    && d.target != c.Address()
    && (d.UserInput() ==>
          && c.open && !archived && d.epoch == c.epoch
          && (d.sourceChatId != "" ==>
                && d.sourceChatId in c.sources
                && c.sources[d.sourceChatId].open
                && c.sources[d.sourceChatId].user in registered))
  }

  /** Capabilities of removed users are revoked before the pass. */
  function Revoke(c: Chat, registered: set<string>): Chat {
    c.(sources := map id | id in c.sources ::
         if c.sources[id].user in registered then c.sources[id] else c.sources[id].(open := false, token := ""))
  }

  function Accept(c: Chat, i: nat): Chat
    requires i < |c.outbox|
  {
    c.(outbox := c.outbox[i := c.outbox[i].(accepted := true)])
  }

  // ---------- the pass ----------

  /** One entry: the chat in memory, the mailbox, the outcome so far and the faults left. */
  function Attempt(env: Env, c: Chat, registered: set<string>, archived: bool, mailbox: map<string, Mail>, i: nat, fault: Fault)
    : (r: (Chat, map<string, Mail>, Outcome, Fault))
    requires i < |c.outbox|
    ensures |r.0.outbox| == |c.outbox|
  {
    var d := c.outbox[i];
    if d.accepted then (c, mailbox, Completed, fault)
    else if !MayDeliver(c, registered, archived, d) then (Accept(c, i), mailbox, Completed, fault)
    else
      var id, mail := MailId(env, c, d), MailOf(c, d);
      if id in mailbox && mailbox[id] != mail then (c, mailbox, MailConflict, fault)
      else if fault.At? && fault.step == 0 then (c, if fault.landed then mailbox[id := mail] else mailbox, Stopped, fault)
      else (Accept(c, i), mailbox[id := mail], Completed, Later(fault))
  }

  /** The pass from entry `i` on. */
  function Pass(env: Env, c: Chat, registered: set<string>, archived: bool, mailbox: map<string, Mail>, i: nat, fault: Fault)
    : (Chat, map<string, Mail>, Outcome, Fault)
    requires i <= |c.outbox|
    decreases |c.outbox| - i
  {
    if i == |c.outbox| then (c, mailbox, Completed, fault)
    else
      var (c1, mailbox1, outcome, later) := Attempt(env, c, registered, archived, mailbox, i, fault);
      if outcome != Completed then (c1, mailbox1, outcome, later)
      else Pass(env, c1, registered, archived, mailbox1, i + 1, later)
  }

  /** The whole reconciliation of one shared chat, ending in the save if anything changed. */
  function Reconciled(env: Env, w: World, registered: set<string>, archived: bool, fault: Fault): (World, Outcome) {
    var (c, mailbox, outcome, later) := Pass(env, Revoke(w.chat, registered), registered, archived, w.mailbox, 0, fault);
    if outcome != Completed then (World(w.chat, mailbox), outcome)
    else if c == w.chat then (World(c, mailbox), Completed)
    else if later.At? && later.step == 0 then (World(if later.landed then c else w.chat, mailbox), Stopped)
    else (World(c, mailbox), Completed)
  }

  class ChatService {
    const env: Env
    var chat: Chat
    var mailbox: map<string, Mail>

    function Durable(): World
      reads this
    {
      World(chat, mailbox)
    }

    constructor (env: Env, w: World)
      ensures this.env == env && Durable() == w
    {
      this.env, chat, mailbox := env, w.chat, w.mailbox;
    }

    /** acceptGeneratedMailboxMessage: a replay is accepted only when every immutable field matches. */
    method AcceptMail(id: string, mail: Mail, fault: Fault) returns (outcome: Outcome, later: Fault)
      modifies this`mailbox
      ensures if id in old(mailbox) && old(mailbox)[id] != mail then
                outcome == MailConflict && later == fault && mailbox == old(mailbox)
              else if fault.At? && fault.step == 0 then
                outcome == Stopped && later == fault && mailbox == if fault.landed then old(mailbox)[id := mail] else old(mailbox)
              else outcome == Completed && later == Later(fault) && mailbox == old(mailbox)[id := mail]
    {
      if id in mailbox && mailbox[id] != mail {
        return MailConflict, fault;
      }
      if fault.At? && fault.step == 0 {
        if fault.landed {
          mailbox := mailbox[id := mail];
        }
        return Stopped, fault;
      }
      mailbox := mailbox[id := mail];
      return Completed, Later(fault);
    }

    /** The loop marks entries of the chat in memory in place; only the save at the end makes the marks durable. */
    method Reconcile(registered: set<string>, archived: bool, fault: Fault) returns (outcome: Outcome)
      modifies this
      ensures (Durable(), outcome) == Reconciled(env, old(Durable()), registered, archived, fault)
    {
      var c := Revoke(chat, registered);
      var later := fault;
      ghost var whole := Pass(env, c, registered, archived, mailbox, 0, fault);
      for i := 0 to |c.outbox|
        invariant |c.outbox| == |chat.outbox| && chat == old(chat)
        invariant whole == Pass(env, c, registered, archived, mailbox, i, later)
      {
        var d := c.outbox[i];
        if d.accepted {
          continue;
        }
        if !MayDeliver(c, registered, archived, d) {
          c := Accept(c, i);
          continue;
        }
        var accepted;
        accepted, later := AcceptMail(MailId(env, c, d), MailOf(c, d), later);
        if accepted != Completed {
          return accepted;
        }
        c := Accept(c, i);
      }
      if c != chat {
        if later.At? && later.step == 0 {
          if later.landed {
            chat := c;
          }
          return Stopped;
        }
        chat := c;
      }
      outcome := Completed;
    }

    /** A user request that changes the chat: load, change in memory, save unless it was refused or never got there. */
    method Input(id: string, text: string, user: string, now: int, saved: bool) returns (result: Result)
      modifies this`chat
      ensures result == InputAppended(env, old(chat), id, text, user, now).1
      ensures chat == if result == Done && saved then InputAppended(env, old(chat), id, text, user, now).0 else old(chat)
    {
      var c := new ResourceChat.Load(env, chat);
      result := c.AppendUserInput(id, text, user, now);
      if result == Done && saved {
        chat := c.Value();
      }
    }

    method Open(token: string, saved: bool)
      modifies this`chat
      ensures chat == if !old(chat).open && saved then Opened(old(chat), token) else old(chat)
    {
      var c := new ResourceChat.Load(env, chat);
      if !c.open {
        c.Open(token);
      }
      if saved {
        chat := c.Value();
      }
    }

    method Close(saved: bool)
      modifies this`chat
      ensures chat == if saved then Closed(old(chat)) else old(chat)
    {
      var c := new ResourceChat.Load(env, chat);
      c.Close();
      if saved {
        chat := c.Value();
      }
    }
  }

  // ---------- what a pass does ----------

  /** The same entries, some of them now accepted. */
  ghost predicate MoreAccepted(c: Chat, c': Chat) {
    && c' == c.(outbox := c'.outbox)
    && |c'.outbox| == |c.outbox|
    && forall k :: 0 <= k < |c.outbox| ==> c'.outbox[k] == c.outbox[k] || c'.outbox[k] == c.outbox[k].(accepted := true)
  }

  ghost predicate Grows(mailbox: map<string, Mail>, mailbox': map<string, Mail>) {
    forall id :: id in mailbox ==> id in mailbox' && mailbox'[id] == mailbox[id]
  }

  /** Entry `k` explains the mailbox message `id`: it was open work that might be delivered at that moment. */
  ghost predicate Delivers(env: Env, c: Chat, registered: set<string>, archived: bool, k: nat, id: string, mail: Mail) {
    && k < |c.outbox| && !c.outbox[k].accepted
    && MayDeliver(c, registered, archived, c.outbox[k])
    && MailId(env, c, c.outbox[k]) == id && MailOf(c, c.outbox[k]) == mail
  }

  lemma DeliversBefore(env: Env, c: Chat, c1: Chat, registered: set<string>, archived: bool, k: nat, id: string, mail: Mail)
    requires MoreAccepted(c, c1) && Delivers(env, c1, registered, archived, k, id, mail)
    ensures Delivers(env, c, registered, archived, k, id, mail)
  {
  }

  lemma MoreAcceptedTransitive(a: Chat, b: Chat, c: Chat)
    requires MoreAccepted(a, b) && MoreAccepted(b, c)
    ensures MoreAccepted(a, c)
  {
  }

  ghost predicate Explained(env: Env, c: Chat, registered: set<string>, archived: bool,
                            mailbox: map<string, Mail>, mailbox': map<string, Mail>)
  {
    && Grows(mailbox, mailbox')
    && forall id :: id in mailbox' && id !in mailbox ==>
         exists k: nat :: Delivers(env, c, registered, archived, k, id, mailbox'[id])
  }

  lemma ExplainedTransitive(env: Env, c: Chat, c1: Chat, registered: set<string>, archived: bool,
                            m: map<string, Mail>, m1: map<string, Mail>, m2: map<string, Mail>)
    requires MoreAccepted(c, c1)
    requires Explained(env, c, registered, archived, m, m1) && Explained(env, c1, registered, archived, m1, m2)
    ensures Explained(env, c, registered, archived, m, m2)
  {
    forall id | id in m2 && id !in m
      ensures exists k: nat :: Delivers(env, c, registered, archived, k, id, m2[id])
    {
      if id in m1 {
        var k: nat :| Delivers(env, c, registered, archived, k, id, m1[id]);
        assert m2[id] == m1[id];
      } else {
        var k: nat :| Delivers(env, c1, registered, archived, k, id, m2[id]);
        DeliversBefore(env, c, c1, registered, archived, k, id, m2[id]);
      }
    }
  }

  lemma AttemptDelivers(
      env: Env, c: Chat, registered: set<string>, archived: bool, mailbox: map<string, Mail>, i: nat, fault: Fault)
    requires i < |c.outbox|
    ensures var (c1, mailbox1, outcome, later) := Attempt(env, c, registered, archived, mailbox, i, fault);
            && MoreAccepted(c, c1) && Explained(env, c, registered, archived, mailbox, mailbox1)
            && (outcome == Completed ==> c1.outbox[i].accepted)
  {
    var (c1, mailbox1, outcome, later) := Attempt(env, c, registered, archived, mailbox, i, fault);
    var d := c.outbox[i];
    if mailbox1 != mailbox {
      assert Delivers(env, c, registered, archived, i, MailId(env, c, d), MailOf(c, d));
    }
  }

  /** Everything a pass adds to the mailbox is an unaccepted entry, deliverable now; nothing there is changed. */
  lemma {:induction false} PassDelivers(
      env: Env, c: Chat, registered: set<string>, archived: bool, mailbox: map<string, Mail>, i: nat, fault: Fault)
    requires i <= |c.outbox|
    ensures var (c', mailbox', outcome, later) := Pass(env, c, registered, archived, mailbox, i, fault);
            MoreAccepted(c, c') && Explained(env, c, registered, archived, mailbox, mailbox')
    decreases |c.outbox| - i
  {
    if i < |c.outbox| {
      hide Attempt, Explained, MoreAccepted;
      AttemptDelivers(env, c, registered, archived, mailbox, i, fault);
      var (c1, mailbox1, outcome, later) := Attempt(env, c, registered, archived, mailbox, i, fault);
      if outcome == Completed {
        PassDelivers(env, c1, registered, archived, mailbox1, i + 1, later);
        var (c', mailbox', _, _) := Pass(env, c1, registered, archived, mailbox1, i + 1, later);
        MoreAcceptedTransitive(c, c1, c');
        ExplainedTransitive(env, c, c1, registered, archived, mailbox, mailbox1, mailbox');
      }
    }
  }

  ghost predicate Holds(mailbox: map<string, Mail>, id: string, mail: Mail) { id in mailbox && mailbox[id] == mail }

  /** Deliverability depends on the entry and on the chat outside its outbox. */
  lemma SameEntry(env: Env, c: Chat, c1: Chat, registered: set<string>, archived: bool, d: Delivery)
    requires MoreAccepted(c, c1)
    ensures MayDeliver(c1, registered, archived, d) == MayDeliver(c, registered, archived, d)
    ensures MailId(env, c1, d) == MailId(env, c, d) && MailOf(c1, d) == MailOf(c, d)
  {
  }

  lemma {:induction false} PassSettles(
      env: Env, c: Chat, registered: set<string>, archived: bool, mailbox: map<string, Mail>, i: nat, fault: Fault, k: nat)
    requires i <= k < |c.outbox|
    requires Pass(env, c, registered, archived, mailbox, i, fault).2 == Completed
    ensures var c' := Pass(env, c, registered, archived, mailbox, i, fault).0;
            k < |c'.outbox| && c'.outbox[k].accepted
    decreases |c.outbox| - i
  {
    AttemptDelivers(env, c, registered, archived, mailbox, i, fault);
    var (c1, mailbox1, outcome, later) := Attempt(env, c, registered, archived, mailbox, i, fault);
    if k > i {
      PassSettles(env, c1, registered, archived, mailbox1, i + 1, later, k);
    } else {
      PassDelivers(env, c1, registered, archived, mailbox1, i + 1, later);
    }
  }

  lemma AttemptHandsOver(
      env: Env, c: Chat, registered: set<string>, archived: bool, mailbox: map<string, Mail>, i: nat, fault: Fault)
    requires i < |c.outbox| && !c.outbox[i].accepted && MayDeliver(c, registered, archived, c.outbox[i])
    requires Attempt(env, c, registered, archived, mailbox, i, fault).2 == Completed
    ensures Attempt(env, c, registered, archived, mailbox, i, fault) ==
              (Accept(c, i), mailbox[MailId(env, c, c.outbox[i]) := MailOf(c, c.outbox[i])], Completed, Later(fault))
  {
  }

  ghost predicate Pending(c: Chat, registered: set<string>, archived: bool, k: nat) {
    k < |c.outbox| && !c.outbox[k].accepted && MayDeliver(c, registered, archived, c.outbox[k])
  }

  /** The mail is the entry's: its target, text and sender, the resource of the chat, and whether a user wrote it. */
  predicate Carries(mail: Mail, c: Chat, d: Delivery) {
    && mail.target == d.target && mail.text == d.text && mail.sender == d.sender
    && mail.chat == c.resource && mail.messageId == d.id
    && (mail.userInput <==> "input-" <= d.id || "migrated-input-" <= d.id)
  }

  /** What was deliverable when a completed pass began is in the mailbox when it ends. */
  lemma {:induction false} PassHandsOver(
      env: Env, c: Chat, registered: set<string>, archived: bool, mailbox: map<string, Mail>, i: nat, fault: Fault, k: nat)
    requires i <= k && Pending(c, registered, archived, k)
    requires Pass(env, c, registered, archived, mailbox, i, fault).2 == Completed
    ensures Holds(Pass(env, c, registered, archived, mailbox, i, fault).1, MailId(env, c, c.outbox[k]), MailOf(c, c.outbox[k]))
    ensures Carries(MailOf(c, c.outbox[k]), c, c.outbox[k])
    decreases |c.outbox| - i
  {
    var d := c.outbox[k];
    AttemptDelivers(env, c, registered, archived, mailbox, i, fault);
    var (c1, mailbox1, outcome, later) := Attempt(env, c, registered, archived, mailbox, i, fault);
    SameEntry(env, c, c1, registered, archived, d);
    if k > i {
      assert Pending(c1, registered, archived, k) && c1.outbox[k] == d by {
        AttemptSparesOthers(env, c, registered, archived, mailbox, i, fault, k);
      }
      PassHandsOver(env, c1, registered, archived, mailbox1, i + 1, later, k);
    } else {
      AttemptHandsOver(env, c, registered, archived, mailbox, i, fault);
      assert Holds(mailbox1, MailId(env, c, d), MailOf(c, d));
      PassDelivers(env, c1, registered, archived, mailbox1, i + 1, later);
    }
  }

  lemma AttemptSparesOthers(
      env: Env, c: Chat, registered: set<string>, archived: bool, mailbox: map<string, Mail>, i: nat, fault: Fault, k: nat)
    requires i < |c.outbox| && k < |c.outbox| && k != i
    ensures Attempt(env, c, registered, archived, mailbox, i, fault).0.outbox[k] == c.outbox[k]
  {
  }

  // ---------- replay after a stop ----------

  lemma AttemptReplays(
      env: Env, c: Chat, registered: set<string>, archived: bool, mailbox: map<string, Mail>, between: map<string, Mail>,
      i: nat, final: map<string, Mail>)
    requires i < |c.outbox| && Attempt(env, c, registered, archived, mailbox, i, Never).2 == Completed
    requires Grows(mailbox, between) && Grows(between, final)
    requires Grows(Attempt(env, c, registered, archived, mailbox, i, Never).1, final)
    ensures var (c1, mailbox1, _, _) := Attempt(env, c, registered, archived, mailbox, i, Never);
            var (c2, between1, outcome, later) := Attempt(env, c, registered, archived, between, i, Never);
            && c2 == c1 && outcome == Completed && later == Never
            && Grows(mailbox1, between1) && Grows(between1, final)
  {
    if Pending(c, registered, archived, i) {
      AttemptHandsOver(env, c, registered, archived, mailbox, i, Never);
    }
  }

  /** A mailbox between the start of a completed pass and its end is completed by the pass to the same end. */
  lemma {:induction false} PassReplays(
      env: Env, c: Chat, registered: set<string>, archived: bool, mailbox: map<string, Mail>, between: map<string, Mail>, i: nat)
    requires i <= |c.outbox|
    requires Pass(env, c, registered, archived, mailbox, i, Never).2 == Completed
    requires Grows(mailbox, between)
    requires Grows(between, Pass(env, c, registered, archived, mailbox, i, Never).1)
    ensures Pass(env, c, registered, archived, between, i, Never) == Pass(env, c, registered, archived, mailbox, i, Never)
    decreases |c.outbox| - i
  {
    var final := Pass(env, c, registered, archived, mailbox, i, Never).1;
    if i < |c.outbox| {
      var (c1, mailbox1, outcome, later) := Attempt(env, c, registered, archived, mailbox, i, Never);
      var between1 := Attempt(env, c, registered, archived, between, i, Never).1;
      assert later == Never && outcome == Completed && final == Pass(env, c1, registered, archived, mailbox1, i + 1, Never).1 by {
        NeverStaysNever(env, c, registered, archived, mailbox, i);
      }
      assert Grows(mailbox1, final) by {
        PassDelivers(env, c1, registered, archived, mailbox1, i + 1, Never);
      }
      AttemptReplays(env, c, registered, archived, mailbox, between, i, final);
      PassReplays(env, c1, registered, archived, mailbox1, between1, i + 1);
    } else {
      assert mailbox == between;
    }
  }

  lemma NeverStaysNever(env: Env, c: Chat, registered: set<string>, archived: bool, mailbox: map<string, Mail>, i: nat)
    requires i < |c.outbox|
    ensures Attempt(env, c, registered, archived, mailbox, i, Never).3 == Never
  {
  }

  lemma AttemptUnderFault(
      env: Env, c: Chat, registered: set<string>, archived: bool, mailbox: map<string, Mail>, i: nat, fault: Fault)
    requires i < |c.outbox| && Attempt(env, c, registered, archived, mailbox, i, Never).2 == Completed
    ensures var calm := Attempt(env, c, registered, archived, mailbox, i, Never);
            var r := Attempt(env, c, registered, archived, mailbox, i, fault);
            if r.2 == Completed then r.0 == calm.0 && r.1 == calm.1
            else r.2 == Stopped && Grows(r.1, calm.1)
  {
    if Pending(c, registered, archived, i) {
      AttemptHandsOver(env, c, registered, archived, mailbox, i, Never);
    }
  }

  lemma {:induction false} StoppedIsBetween(
      env: Env, c: Chat, registered: set<string>, archived: bool, mailbox: map<string, Mail>, i: nat, fault: Fault)
    requires i <= |c.outbox|
    requires Pass(env, c, registered, archived, mailbox, i, Never).2 == Completed
    ensures var calm := Pass(env, c, registered, archived, mailbox, i, Never);
            var r := Pass(env, c, registered, archived, mailbox, i, fault);
            Grows(r.1, calm.1) && (r.2 == Completed ==> r.0 == calm.0 && r.1 == calm.1)
    decreases |c.outbox| - i
  {
    if i < |c.outbox| {
      NeverStaysNever(env, c, registered, archived, mailbox, i);
      AttemptUnderFault(env, c, registered, archived, mailbox, i, fault);
      var (c1, mailbox1, _, _) := Attempt(env, c, registered, archived, mailbox, i, Never);
      var r := Attempt(env, c, registered, archived, mailbox, i, fault);
      if r.2 == Completed {
        StoppedIsBetween(env, c1, registered, archived, mailbox1, i + 1, r.3);
      } else {
        PassDelivers(env, c1, registered, archived, mailbox1, i + 1, Never);
      }
    }
  }

  lemma {:induction false} NothingLeft(
      env: Env, c: Chat, registered: set<string>, archived: bool, mailbox: map<string, Mail>, i: nat, fault: Fault)
    requires i <= |c.outbox| && forall k :: i <= k < |c.outbox| ==> c.outbox[k].accepted
    ensures Pass(env, c, registered, archived, mailbox, i, fault) == (c, mailbox, Completed, fault)
    decreases |c.outbox| - i
  {
    if i < |c.outbox| {
      NothingLeft(env, c, registered, archived, mailbox, i + 1, fault);
    }
  }

  /** Stop a reconciliation at any durable effect and run it again: the world is that of one undisturbed run. */
  lemma ReconcileReplays(env: Env, w: World, registered: set<string>, archived: bool, fault: Fault)
    requires Reconciled(env, w, registered, archived, Never).1 == Completed
    ensures var w1 := Reconciled(env, w, registered, archived, fault).0;
            Reconciled(env, w1, registered, archived, Never) == (Reconciled(env, w, registered, archived, Never).0, Completed)
  {
    var c := Revoke(w.chat, registered);
    assert Revoke(c, registered) == c;
    var (c', mailbox', _, _) := Pass(env, c, registered, archived, w.mailbox, 0, Never);
    PassDelivers(env, c, registered, archived, w.mailbox, 0, fault);
    PassDelivers(env, c, registered, archived, w.mailbox, 0, Never);
    StoppedIsBetween(env, c, registered, archived, w.mailbox, 0, fault);
    var w1 := Reconciled(env, w, registered, archived, fault).0;
    PassReplays(env, c, registered, archived, w.mailbox, w1.mailbox, 0);
    if w1.chat != w.chat {
      assert w1.chat == c' && w1.mailbox == mailbox';
      assert Revoke(c', registered) == c';
      forall k | 0 <= k < |c'.outbox| ensures c'.outbox[k].accepted {
        PassSettles(env, c, registered, archived, w.mailbox, 0, Never, k);
      }
      NothingLeft(env, c', registered, archived, mailbox', 0, Never);
    }
  }

  // ---------- what a reconciliation does to the chat ----------

  /** The capability of a source: kept for a registered user, revoked for any other. */
  predicate RevokedFor(registered: set<string>, was: map<string, Source>, now: map<string, Source>) {
    && now.Keys == was.Keys
    && forall id :: id in was ==>
         now[id] == if was[id].user in registered then was[id] else was[id].(open := false, token := "")
  }

  /** Every entry is settled, removed users lose their capabilities, and nothing else of the chat changes. */
  predicate IsSettled(c: Chat, c': Chat, registered: set<string>) {
    && c' == c.(sources := c'.sources, outbox := c'.outbox)
    && RevokedFor(registered, c.sources, c'.sources)
    && |c'.outbox| == |c.outbox|
    && forall k :: 0 <= k < |c.outbox| ==> c'.outbox[k] == c.outbox[k].(accepted := true)
  }

  /** A reconciliation leaves the chat as it was or settled, and settled when it completes. */
  lemma ReconcileSettles(env: Env, w: World, registered: set<string>, archived: bool, fault: Fault)
    ensures var (w', outcome) := Reconciled(env, w, registered, archived, fault);
            && (w'.chat == w.chat || IsSettled(w.chat, w'.chat, registered))
            && (outcome == Completed ==> IsSettled(w.chat, w'.chat, registered))
  {
    var c := Revoke(w.chat, registered);
    var (c', _, outcome, _) := Pass(env, c, registered, archived, w.mailbox, 0, fault);
    if outcome == Completed {
      PassDelivers(env, c, registered, archived, w.mailbox, 0, fault);
      forall k | 0 <= k < |c.outbox| ensures c'.outbox[k] == c.outbox[k].(accepted := true) {
        PassSettles(env, c, registered, archived, w.mailbox, 0, fault, k);
      }
      assert IsSettled(w.chat, c', registered);
    }
  }

  // ---------- conflicts ----------

  /** No two entries have the source chat and the id in common. */
  predicate DistinctEntries(c: Chat) {
    forall k, l :: 0 <= k < l < |c.outbox| ==>
      SourceOf(c, c.outbox[k]) != SourceOf(c, c.outbox[l]) || c.outbox[k].id != c.outbox[l].id
  }

  /** What the mailbox holds under the id of an entry is the message of that entry. */
  ghost predicate AgreesOn(env: Env, c: Chat, mailbox: map<string, Mail>, d: Delivery) {
    MailId(env, c, d) in mailbox ==> mailbox[MailId(env, c, d)] == MailOf(c, d)
  }

  ghost predicate Agrees(env: Env, c: Chat, mailbox: map<string, Mail>) {
    forall k :: 0 <= k < |c.outbox| ==> AgreesOn(env, c, mailbox, c.outbox[k])
  }

  lemma MailIdIsInjective(env: Env, c: Chat, a: Delivery, b: Delivery)
    requires Injective(env.hash) && MailId(env, c, a) == MailId(env, c, b)
    ensures SourceOf(c, a) == SourceOf(c, b) && a.id == b.id
  {
    assert MailId(env, c, a)[5..] == env.hash(SourceOf(c, a), a.id);
    assert MailId(env, c, b)[5..] == env.hash(SourceOf(c, b), b.id);
  }

  lemma HandingOverAgrees(env: Env, c: Chat, mailbox: map<string, Mail>, i: nat)
    requires Injective(env.hash) && DistinctEntries(c) && Agrees(env, c, mailbox) && i < |c.outbox|
    ensures Agrees(env, c, mailbox[MailId(env, c, c.outbox[i]) := MailOf(c, c.outbox[i])])
  {
    forall k | 0 <= k < |c.outbox| && k != i ensures MailId(env, c, c.outbox[k]) != MailId(env, c, c.outbox[i]) {
      hide MailId;
      if MailId(env, c, c.outbox[k]) == MailId(env, c, c.outbox[i]) {
        MailIdIsInjective(env, c, c.outbox[k], c.outbox[i]);
      }
    }
  }

  /** Accepting entries changes neither their keys nor their messages. */
  lemma SameMail(env: Env, c: Chat, c': Chat, mailbox: map<string, Mail>)
    requires MoreAccepted(c, c')
    ensures DistinctEntries(c') <==> DistinctEntries(c)
    ensures Agrees(env, c', mailbox) <==> Agrees(env, c, mailbox)
  {
    assert forall k :: 0 <= k < |c.outbox| ==>
      SourceOf(c', c'.outbox[k]) == SourceOf(c, c.outbox[k]) && c'.outbox[k].id == c.outbox[k].id
      && MailId(env, c', c'.outbox[k]) == MailId(env, c, c.outbox[k]) && MailOf(c', c'.outbox[k]) == MailOf(c, c.outbox[k]);
  }

  lemma AttemptAgrees(
      env: Env, c: Chat, registered: set<string>, archived: bool, mailbox: map<string, Mail>, i: nat, fault: Fault)
    requires Injective(env.hash) && DistinctEntries(c) && Agrees(env, c, mailbox) && i < |c.outbox|
    ensures var (c1, mailbox1, outcome, later) := Attempt(env, c, registered, archived, mailbox, i, fault);
            && outcome != MailConflict && (fault == Never ==> outcome == Completed && later == Never)
            && DistinctEntries(c1) && Agrees(env, c1, mailbox1)
  {
    hide Attempt;
    var (c1, mailbox1, outcome, later) := Attempt(env, c, registered, archived, mailbox, i, fault);
    AttemptAdds(env, c, registered, archived, mailbox, i, fault);
    HandingOverAgrees(env, c, mailbox, i);
    AttemptDelivers(env, c, registered, archived, mailbox, i, fault);
    SameMail(env, c, c1, mailbox1);
  }

  lemma AttemptAdds(
      env: Env, c: Chat, registered: set<string>, archived: bool, mailbox: map<string, Mail>, i: nat, fault: Fault)
    requires i < |c.outbox|
    ensures var (c1, mailbox1, outcome, later) := Attempt(env, c, registered, archived, mailbox, i, fault);
            && (mailbox1 == mailbox || mailbox1 == mailbox[MailId(env, c, c.outbox[i]) := MailOf(c, c.outbox[i])])
            && (outcome == MailConflict ==> !AgreesOn(env, c, mailbox, c.outbox[i]))
            && (fault == Never ==> outcome != Stopped && later == Never)
  {
  }

  /** A pass over distinct entries meets no conflict with a mailbox that agrees with them, and leaves one. */
  lemma {:induction false} PassAgrees(
      env: Env, c: Chat, registered: set<string>, archived: bool, mailbox: map<string, Mail>, i: nat, fault: Fault)
    requires Injective(env.hash) && DistinctEntries(c) && Agrees(env, c, mailbox) && i <= |c.outbox|
    ensures var (c', mailbox', outcome, later) := Pass(env, c, registered, archived, mailbox, i, fault);
            && outcome != MailConflict && (fault == Never ==> outcome == Completed && later == Never)
            && Agrees(env, c, mailbox')
    decreases |c.outbox| - i
  {
    hide Attempt, Agrees, DistinctEntries, MoreAccepted, Explained;
    if i < |c.outbox| {
      AttemptAgrees(env, c, registered, archived, mailbox, i, fault);
      AttemptDelivers(env, c, registered, archived, mailbox, i, fault);
      var (c1, mailbox1, outcome, later) := Attempt(env, c, registered, archived, mailbox, i, fault);
      if outcome == Completed {
        PassAgrees(env, c1, registered, archived, mailbox1, i + 1, later);
        SameMail(env, c, c1, Pass(env, c1, registered, archived, mailbox1, i + 1, later).1);
      } else {
        SameMail(env, c, c1, mailbox1);
      }
    }
  }

  /** So a reconciliation meets no conflict, ends unless it is disturbed, and leaves the mailbox in agreement. */
  lemma ReconcileAgrees(env: Env, w: World, registered: set<string>, archived: bool, fault: Fault)
    requires Injective(env.hash) && DistinctEntries(w.chat) && Agrees(env, w.chat, w.mailbox)
    ensures var (w', outcome) := Reconciled(env, w, registered, archived, fault);
            && outcome != MailConflict && (fault == Never ==> outcome == Completed)
            && DistinctEntries(w'.chat) && Agrees(env, w'.chat, w'.mailbox)
  {
    var c, w' := Revoke(w.chat, registered), Reconciled(env, w, registered, archived, fault).0;
    assert DistinctEntries(c) && Agrees(env, c, w.mailbox) by {
      RevokeKeepsMail(env, w.chat, registered, w.mailbox);
    }
    PassAgrees(env, c, registered, archived, w.mailbox, 0, fault);
    PassDelivers(env, c, registered, archived, w.mailbox, 0, fault);
    RevokeKeepsMail(env, w.chat, registered, w'.mailbox);
    if w'.chat != w.chat {
      SameMail(env, c, w'.chat, w'.mailbox);
    }
  }

  lemma RevokeKeepsMail(env: Env, c: Chat, registered: set<string>, mailbox: map<string, Mail>)
    ensures DistinctEntries(Revoke(c, registered)) <==> DistinctEntries(c)
    ensures Agrees(env, Revoke(c, registered), mailbox) <==> Agrees(env, c, mailbox)
  {
    var c' := Revoke(c, registered);
    assert forall k :: 0 <= k < |c.outbox| ==>
      SourceOf(c', c'.outbox[k]) == SourceOf(c, c.outbox[k])
      && MailId(env, c', c'.outbox[k]) == MailId(env, c, c.outbox[k]) && MailOf(c', c'.outbox[k]) == MailOf(c, c.outbox[k]);
  }

  // ---------- where a fault strikes ----------

  /** How many mailbox writes a pass from entry `i` on makes. */
  function Work(c: Chat, registered: set<string>, archived: bool, i: nat): nat
    requires i <= |c.outbox|
    decreases |c.outbox| - i
  {
    if i == |c.outbox| then 0
    else
      (if !c.outbox[i].accepted && MayDeliver(c, registered, archived, c.outbox[i]) then 1 else 0)
      + Work(c, registered, archived, i + 1)
  }

  lemma {:induction false} SameWork(c: Chat, c1: Chat, registered: set<string>, archived: bool, i: nat)
    requires MoreAccepted(c, c1) && i <= |c.outbox|
    requires forall k :: i <= k < |c.outbox| ==> c1.outbox[k] == c.outbox[k]
    ensures Work(c1, registered, archived, i) == Work(c, registered, archived, i)
    decreases |c.outbox| - i
  {
    if i < |c.outbox| {
      SameWork(c, c1, registered, archived, i + 1);
    }
  }

  lemma FaultInAttempt(
      env: Env, c: Chat, registered: set<string>, archived: bool, mailbox: map<string, Mail>, i: nat, n: nat, landed: bool)
    requires Injective(env.hash) && DistinctEntries(c) && Agrees(env, c, mailbox) && i < |c.outbox|
    ensures var d, id := c.outbox[i], MailId(env, c, c.outbox[i]);
            var r := Attempt(env, c, registered, archived, mailbox, i, At(n, landed));
            if d.accepted then r == (c, mailbox, Completed, At(n, landed))
            else if !MayDeliver(c, registered, archived, d) then r == (Accept(c, i), mailbox, Completed, At(n, landed))
            else if n > 0 then r == (Accept(c, i), mailbox[id := MailOf(c, d)], Completed, At(n - 1, landed))
            else r == (c, if landed then mailbox[id := MailOf(c, d)] else mailbox, Stopped, At(0, landed))
  {
    assert AgreesOn(env, c, mailbox, c.outbox[i]);
  }

  /** A fault strikes exactly at the write it names: after fewer writes the pass completes with the rest of it left. */
  lemma {:induction false} FaultInPass(
      env: Env, c: Chat, registered: set<string>, archived: bool, mailbox: map<string, Mail>, i: nat, n: nat, landed: bool)
    requires Injective(env.hash) && DistinctEntries(c) && Agrees(env, c, mailbox) && i <= |c.outbox|
    ensures var work := Work(c, registered, archived, i);
            var calm := Pass(env, c, registered, archived, mailbox, i, Never);
            var r := Pass(env, c, registered, archived, mailbox, i, At(n, landed));
            if n < work then r.2 == Stopped
            else r == (calm.0, calm.1, Completed, At(n - work, landed)) && calm.2 == Completed
    decreases |c.outbox| - i
  {
    hide Pass, Attempt, Agrees, DistinctEntries, MoreAccepted, Explained, MayDeliver, MailId, MailOf, Accept;
    PassStep(env, c, registered, archived, mailbox, i, Never);
    PassStep(env, c, registered, archived, mailbox, i, At(n, landed));
    if i < |c.outbox| {
      AttemptAgrees(env, c, registered, archived, mailbox, i, Never);
      AttemptDelivers(env, c, registered, archived, mailbox, i, Never);
      CalmAttempt(env, c, registered, archived, mailbox, i);
      FaultInAttempt(env, c, registered, archived, mailbox, i, n, landed);
      WorkAfter(env, c, registered, archived, mailbox, i);
      var (c1, mailbox1, _, _) := Attempt(env, c, registered, archived, mailbox, i, Never);
      if c.outbox[i].accepted || !MayDeliver(c, registered, archived, c.outbox[i]) {
        FaultInPass(env, c1, registered, archived, mailbox1, i + 1, n, landed);
      } else if n > 0 {
        FaultInPass(env, c1, registered, archived, mailbox1, i + 1, n - 1, landed);
      }
    }
  }

  lemma PassStep(
      env: Env, c: Chat, registered: set<string>, archived: bool, mailbox: map<string, Mail>, i: nat, fault: Fault)
    requires i <= |c.outbox|
    ensures i == |c.outbox| ==> Pass(env, c, registered, archived, mailbox, i, fault) == (c, mailbox, Completed, fault)
    ensures i < |c.outbox| ==>
              var r := Attempt(env, c, registered, archived, mailbox, i, fault);
              Pass(env, c, registered, archived, mailbox, i, fault) ==
                if r.2 != Completed then r else Pass(env, r.0, registered, archived, r.1, i + 1, r.3)
  {
    hide Attempt;
  }

  lemma CalmAttempt(
      env: Env, c: Chat, registered: set<string>, archived: bool, mailbox: map<string, Mail>, i: nat)
    requires i < |c.outbox| && Attempt(env, c, registered, archived, mailbox, i, Never).2 == Completed
    ensures var d := c.outbox[i];
            var due := !d.accepted && MayDeliver(c, registered, archived, d);
            Attempt(env, c, registered, archived, mailbox, i, Never) ==
              (if d.accepted then c else Accept(c, i),
               if due then mailbox[MailId(env, c, d) := MailOf(c, d)] else mailbox, Completed, Never)
  {
  }

  lemma WorkAfter(env: Env, c: Chat, registered: set<string>, archived: bool, mailbox: map<string, Mail>, i: nat)
    requires i < |c.outbox| && Attempt(env, c, registered, archived, mailbox, i, Never).2 == Completed
    ensures Work(Attempt(env, c, registered, archived, mailbox, i, Never).0, registered, archived, i + 1) ==
            Work(c, registered, archived, i + 1)
  {
    var c1 := Attempt(env, c, registered, archived, mailbox, i, Never).0;
    AttemptDelivers(env, c, registered, archived, mailbox, i, Never);
    CalmAttempt(env, c, registered, archived, mailbox, i);
    SameWork(c, c1, registered, archived, i + 1);
  }

  /**
   A reconciliation of which write `n` fails: a mailbox write stops it with the chat as it was, the write after those is
   the save of the settled chat, which may be there all the same, and a later one is never reached.
   */
  lemma FaultInReconcile(env: Env, w: World, registered: set<string>, archived: bool, n: nat, landed: bool)
    requires Injective(env.hash) && DistinctEntries(w.chat) && Agrees(env, w.chat, w.mailbox)
    ensures var work := Work(Revoke(w.chat, registered), registered, archived, 0);
            var calm := Reconciled(env, w, registered, archived, Never).0;
            var (w', outcome) := Reconciled(env, w, registered, archived, At(n, landed));
            if n < work then outcome == Stopped && w'.chat == w.chat
            else if n == work && calm.chat != w.chat then
              outcome == Stopped && w' == World(if landed then calm.chat else w.chat, calm.mailbox)
            else outcome == Completed && w' == calm
  {
    var c := Revoke(w.chat, registered);
    RevokeKeepsMail(env, w.chat, registered, w.mailbox);
    PassAgrees(env, c, registered, archived, w.mailbox, 0, Never);
    FaultInPass(env, c, registered, archived, w.mailbox, 0, n, landed);
    hide Pass, Agrees, DistinctEntries, Work;
  }
}
