/** Stable-cursor paging over a chat (publicPage in internal/serve/chat_store.go). */
module ChatPaging {
  import opened Basics
  import opened ChatModel
  import opened SharedChat

  /** One answer: messages `start..end` of the chat, and the flags a limited request also gets. */
  datatype Page = Page(messages: seq<Message>, hasOlder: Option<bool>, hasNewer: Option<bool>)

  /** The bounds of the page; None when the cursor names no message. With both cursors `after` gives the position. */
  function Bounds(messages: seq<Message>, limit: nat, before: string, after: string): (b: Option<(nat, nat)>)
    ensures b.Some? ==> b.value.0 <= b.value.1 + 1 && b.value.1 <= |messages|
  {
    var n := |messages|;
    if before == "" && after == "" then Some((Clip(n - limit), n))
    else
      var index := IndexOf(messages, if after != "" then after else before);
      if index == n then None
      else if after == "" then Some((Clip(index - limit), index))
      else if before == "" then Some((index + 1, Min(n, index + 1 + limit)))
      else Some((0, Min(index, limit)))
  }

  function Clip(n: int): nat { if n < 0 then 0 else n }

  function PageOf(messages: seq<Message>, limit: nat, before: string, after: string): Option<Page> {
    if limit == 0 then Some(Page(messages, None, None)) else
    var bounds := Bounds(messages, limit, before, after);
    if bounds.None? then None else
    var (start, end) := bounds.value;
    Some(Page(if start <= end then messages[start..end] else [], Some(start > 0), Some(end < |messages|)))
  }

  method Find(messages: seq<Message>, id: string) returns (index: nat)
    ensures index == IndexOf(messages, id)
  {
    index := 0;
    while index < |messages| && messages[index].id != id
      invariant index <= |messages|
      invariant forall k :: 0 <= k < index ==> messages[k].id != id
    {
      index := index + 1;
    }
  }

  /** The search for the cursor and the two clips of publicPage; an unknown cursor is an error. */
  method PublicPage(messages: seq<Message>, limit: nat, before: string, after: string) returns (page: Option<Page>)
    ensures page == PageOf(messages, limit, before, after)
  {
    if limit == 0 {
      return Some(Page(messages, None, None));
    }
    var start, end := 0, |messages|;
    if before != "" || after != "" {
      var cursor := if after != "" then after else before;
      var index := Find(messages, cursor);
      if index == |messages| {
        return None;
      }
      if before != "" {
        end := index;
      } else {
        start := index + 1;
      }
    }
    if after != "" {
      end := Min(end, start + limit);
    } else {
      start := Clip(end - limit);
    }
    page := Some(Page(messages[start..end], Some(start > 0), Some(end < |messages|)));
  }

  /**
   Which requests are answered: without a limit the whole chat without flags, and otherwise every one whose cursor is
   blank or names a message. A request with both cursors is answered by the first messages before the one after which.
   */
  lemma PageMeans(messages: seq<Message>, limit: nat, before: string, after: string)
    ensures limit == 0 ==> PageOf(messages, limit, before, after) == Some(Page(messages, None, None))
    ensures limit > 0 ==>
              var cursor := if after != "" then after else before;
              (PageOf(messages, limit, before, after).None? <==>
                 cursor != "" && forall m :: m in messages ==> m.id != cursor)
    ensures limit > 0 && before != "" && after != "" && IndexOf(messages, after) < |messages| ==>
              var end := Min(IndexOf(messages, after), limit);
              PageOf(messages, limit, before, after) == Some(Page(messages[..end], Some(false), Some(true)))
  {
    var cursor := if after != "" then after else before;
    if i :| 0 <= i < |messages| && messages[i].id == cursor {
      assert messages[i] in messages;
    }
  }

  // ---------- walks ----------

  predicate Readable(messages: seq<Message>) {
    DistinctIds(messages) && forall i :: 0 <= i < |messages| ==> messages[i].id != ""
  }

  /** A cursor keeps its position while the chat grows from `now` to `final`. */
  lemma IndexIsStable(now: seq<Message>, final: seq<Message>, i: nat)
    requires now <= final && DistinctIds(final) && i < |now|
    ensures IndexOf(now, final[i].id) == i
  {
    assert forall k :: 0 <= k < |now| ==> now[k] == final[k];
  }

  lemma OlderPage(now: seq<Message>, final: seq<Message>, limit: nat, i: nat)
    requires now <= final && Readable(final) && limit > 0 && i < |now|
    ensures PageOf(now, limit, final[i].id, "") == Some(Page(final[Clip(i - limit)..i], Some(i > limit), Some(true)))
  {
    IndexIsStable(now, final, i);
    assert now[Clip(i - limit)..i] == final[Clip(i - limit)..i];
  }

  lemma NewerPage(now: seq<Message>, final: seq<Message>, limit: nat, i: nat)
    requires now <= final && Readable(final) && limit > 0 && i < |now|
    ensures var end := Min(|now|, i + 1 + limit);
            PageOf(now, limit, "", final[i].id) == Some(Page(final[i + 1..end], Some(true), Some(end < |now|)))
  {
    IndexIsStable(now, final, i);
    var end := Min(|now|, i + 1 + limit);
    assert now[i + 1..end] == final[i + 1..end];
  }

  lemma NewestPage(now: seq<Message>, final: seq<Message>, limit: nat)
    requires now <= final && limit > 0
    ensures PageOf(now, limit, "", "") ==
            Some(Page(final[Clip(|now| - limit)..|now|], Some(|now| > limit), Some(false)))
  {
    assert now[Clip(|now| - limit)..|now|] == final[Clip(|now| - limit)..|now|];
  }

  /** The chat as successive requests find it: messages are only appended, and `final` holds them all. */
  predicate Growing(chats: seq<seq<Message>>, final: seq<Message>)
    decreases |chats|
  {
    chats != [] ==>
      && chats[0] <= final
      && (|chats| > 1 ==> |chats[0]| <= |chats[1]|)
      && Growing(chats[1..], final)
  }

  /** The pages of a reader who always asks for what is before the oldest message seen, and stops at `hasOlder` false. */
  predicate OlderWalk(chats: seq<seq<Message>>, limit: nat, edge: string, pages: seq<Page>)
    decreases |pages|
  {
    pages != [] ==>
      && |pages| <= |chats|
      && PageOf(chats[0], limit, edge, "") == Some(pages[0])
      && (|pages| > 1 ==>
            && pages[0].hasOlder == Some(true) && pages[0].messages != []
            && OlderWalk(chats[1..], limit, pages[0].messages[0].id, pages[1..]))
  }

  function Backwards(pages: seq<Page>): seq<Message> {
    if pages == [] then [] else Backwards(pages[1..]) + pages[0].messages
  }

  lemma BackwardsStep(pages: seq<Page>, final: seq<Message>, start: nat, j: nat, i: nat)
    requires pages != [] && start <= j <= i <= |final|
    requires Backwards(pages[1..]) == final[start..j] && pages[0].messages == final[j..i]
    ensures Backwards(pages) == final[start..i]
  {
    JoinSlices(final, start, j, i);
  }

  /** The walk back is finite and visits every older message once, in order, whatever is appended meanwhile. */
  lemma {:induction false} OlderWalkIsExact(
      chats: seq<seq<Message>>, final: seq<Message>, limit: nat, i: nat, pages: seq<Page>) returns (start: nat)
    requires Readable(final) && Growing(chats, final) && limit > 0 && pages != [] && chats != [] && i < |chats[0]|
    requires OlderWalk(chats, limit, final[i].id, pages)
    ensures |pages| <= i + 1
    ensures start <= i && Backwards(pages) == final[start..i]
    ensures pages[|pages| - 1].hasOlder == Some(start > 0)
    decreases |pages|
  {
    hide PageOf;
    OlderPage(chats[0], final, limit, i);
    var j := Clip(i - limit);
    if |pages| > 1 {
        start := OlderWalkIsExact(chats[1..], final, limit, j, pages[1..]);
    } else {
      assert Backwards(pages[1..]) == final[j..j];
      start := j;
    }
    BackwardsStep(pages, final, start, j, i);
  }

  lemma WholeChat(now: seq<Message>, final: seq<Message>, front: seq<Message>, i: nat)
    requires now <= final && i <= |now| && front == final[0..i]
    ensures front + final[i..|now|] == now
  {
  }

  /** The first answer is the newest page; with a finished walk back from it the reader has the whole chat of that moment. */
  lemma ReadingBackwardsSeesEverything(
      chats: seq<seq<Message>>, final: seq<Message>, limit: nat, newest: Page, pages: seq<Page>)
    requires Readable(final) && Growing(chats, final) && limit > 0 && chats != []
    requires PageOf(chats[0], limit, "", "") == Some(newest)
    requires if newest.hasOlder == Some(true)
             then newest.messages != [] && pages != [] && pages[|pages| - 1].hasOlder == Some(false) && |chats| > 1
                  && OlderWalk(chats[1..], limit, newest.messages[0].id, pages)
             else pages == []
    ensures Backwards(pages) + newest.messages == chats[0]
    ensures newest.hasNewer == Some(false)
  {
    hide PageOf;
    var n := |chats[0]|;
    var i := Clip(n - limit);
    NewestPage(chats[0], final, limit);
    if newest.hasOlder == Some(true) {
      var start := OlderWalkIsExact(chats[1..], final, limit, i, pages);
    }
    WholeChat(chats[0], final, Backwards(pages), i);
  }

  /** The pages of a reader who always asks for what is after the newest message seen, and stops at `hasNewer` false. */
  predicate NewerWalk(chats: seq<seq<Message>>, limit: nat, edge: string, pages: seq<Page>)
    decreases |pages|
  {
    pages != [] ==>
      && |pages| <= |chats|
      && PageOf(chats[0], limit, "", edge) == Some(pages[0])
      && (|pages| > 1 ==>
            && pages[0].hasNewer == Some(true) && pages[0].messages != []
            && NewerWalk(chats[1..], limit, pages[0].messages[|pages[0].messages| - 1].id, pages[1..]))
  }

  function Forwards(pages: seq<Page>): seq<Message> {
    if pages == [] then [] else pages[0].messages + Forwards(pages[1..])
  }

  lemma ForwardsStep(pages: seq<Page>, final: seq<Message>, i: nat, j: nat, end: nat)
    requires pages != [] && i <= j <= end <= |final|
    requires Forwards(pages[1..]) == final[j..end] && pages[0].messages == final[i..j]
    ensures Forwards(pages) == final[i..end]
  {
    JoinSlices(final, i, j, end);
  }

  lemma NewerFirst(now: seq<Message>, final: seq<Message>, limit: nat, i: nat, page: Page)
    requires now <= final && Readable(final) && limit > 0 && i < |now|
    requires PageOf(now, limit, "", final[i].id) == Some(page)
    ensures var j := Min(|now|, i + 1 + limit);
            && i < j <= |final| && page.messages == final[i + 1..j] && page.hasNewer == Some(j < |now|)
            && (page.messages != [] ==> i + 1 < j && page.messages[|page.messages| - 1] == final[j - 1])
  {
    NewerPage(now, final, limit, i);
  }

  /** A walk of several pages goes on from the last message of the first. */
  lemma NewerStep(chats: seq<seq<Message>>, final: seq<Message>, limit: nat, i: nat, pages: seq<Page>) returns (j: nat)
    requires Readable(final) && Growing(chats, final) && limit > 0 && |pages| > 1 && chats != [] && i < |chats[0]|
    requires NewerWalk(chats, limit, final[i].id, pages)
    ensures i + 1 < j <= |final| && pages[0].messages == final[i + 1..j]
    ensures |chats| > 1 && Growing(chats[1..], final) && j <= |chats[1..][0]|
    ensures NewerWalk(chats[1..], limit, final[j - 1].id, pages[1..])
  {
    hide PageOf;
    NewerFirst(chats[0], final, limit, i, pages[0]);
    j := Min(|chats[0]|, i + 1 + limit);
  }

  lemma NewerEnds(chats: seq<seq<Message>>, final: seq<Message>, limit: nat, i: nat, pages: seq<Page>) returns (end: nat)
    requires Readable(final) && Growing(chats, final) && limit > 0 && |pages| == 1 && chats != [] && i < |chats[0]|
    requires NewerWalk(chats, limit, final[i].id, pages)
    ensures i < end <= |chats[0]| <= |final| && Forwards(pages) == final[i + 1..end]
    ensures pages[0].hasNewer == Some(end < |chats[0]|)
  {
    NewerFirst(chats[0], final, limit, i, pages[0]);
    end := Min(|chats[0]|, i + 1 + limit);
    assert Forwards(pages[1..]) == final[end..end];
    ForwardsStep(pages, final, i + 1, end, end);
  }

  /** What holds of the walk from its second page on holds of the whole walk. */
  lemma NewerGoesOn(chats: seq<seq<Message>>, final: seq<Message>, i: nat, j: nat, pages: seq<Page>, end: nat)
    requires 1 < |pages| && 1 < |chats| && i + 1 < j <= |final| && pages[0].messages == final[i + 1..j]
    requires |pages[1..]| <= |final| - (j - 1) && |pages[1..]| <= |chats[1..]|
    requires j - 1 < end <= |chats[1..][|pages[1..]| - 1]| <= |final| && Forwards(pages[1..]) == final[j..end]
    requires pages[1..][|pages[1..]| - 1].hasNewer == Some(end < |chats[1..][|pages[1..]| - 1]|)
    ensures |pages| <= |final| - i && |pages| <= |chats|
    ensures i < end <= |chats[|pages| - 1]| <= |final| && Forwards(pages) == final[i + 1..end]
    ensures pages[|pages| - 1].hasNewer == Some(end < |chats[|pages| - 1]|)
  {
    RestAt(pages, |pages| - 1);
    RestAt(chats, |pages| - 1);
    ForwardsStep(pages, final, i + 1, j, end);
  }

  /** Reading on is finite, misses nothing and repeats nothing, and `hasNewer` is false exactly at the end of the chat then. */
  lemma {:induction false} NewerWalkIsExact(
      chats: seq<seq<Message>>, final: seq<Message>, limit: nat, i: nat, pages: seq<Page>) returns (end: nat)
    requires Readable(final) && Growing(chats, final) && limit > 0 && pages != [] && chats != [] && i < |chats[0]|
    requires NewerWalk(chats, limit, final[i].id, pages)
    ensures |pages| <= |final| - i && |pages| <= |chats|
    ensures i < end <= |chats[|pages| - 1]| <= |final| && Forwards(pages) == final[i + 1..end]
    ensures pages[|pages| - 1].hasNewer == Some(end < |chats[|pages| - 1]|)
    decreases |pages|
  {
    hide PageOf;
    if |pages| == 1 {
      end := NewerEnds(chats, final, limit, i, pages);
    } else {
      var j := NewerStep(chats, final, limit, i, pages);
      end := NewerWalkIsExact(chats[1..], final, limit, j - 1, pages[1..]);
      NewerGoesOn(chats, final, i, j, pages, end);
    }
  }
}
