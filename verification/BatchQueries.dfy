// Conversation list queries: the batched unread counts and last messages against their single forms.

module BatchQueries {
  import opened Wrappers

  type ConversationId = nat
  type UserId = nat

  datatype Message = Message(id: nat, conversation: ConversationId, sender: UserId, createdAt: nat)
  datatype Item = Item(conversation: ConversationId, since: Option<nat>)

  predicate UnreadFor(m: Message, item: Item, user: UserId) {
    m.conversation == item.conversation && m.sender != user && (item.since.Some? ==> m.createdAt > item.since.value)
  }

  /** `countUnread`: one conversation, one threshold. */
  function CountUnread(messages: seq<Message>, item: Item, user: UserId): nat {
    if messages == [] then 0
    else
      var init, m := messages[..|messages| - 1], messages[|messages| - 1];
      CountUnread(init, item, user) + (if UnreadFor(m, item, user) then 1 else 0)
  }

  /** The positions of the messages somebody else wrote in the conversation, after the threshold if there is one. */
  function UnreadAt(messages: seq<Message>, item: Item, user: UserId): set<nat> {
    set k: nat | k < |messages| && messages[k].conversation == item.conversation && messages[k].sender != user
                 && (item.since == None || item.since.value < messages[k].createdAt)
  }

  /** The single query counts exactly those. */
  lemma {:induction false} CountUnreadIsExact(messages: seq<Message>, item: Item, user: UserId)
    ensures CountUnread(messages, item, user) == |UnreadAt(messages, item, user)|
    decreases |messages|
  {
    if messages == [] {
      assert UnreadAt(messages, item, user) == {};
    } else {
      var last := |messages| - 1;
      var init := messages[..last];
      CountUnreadIsExact(init, item, user);
      assert UnreadAt(messages, item, user)
          == UnreadAt(init, item, user) + if UnreadFor(messages[last], item, user) then {last} else {};
    }
  }

  /** The rows selected by the grouped query: someone else's, and matching one of the OR-ed items. */
  predicate Selected(m: Message, items: seq<Item>, user: UserId) {
    m.sender != user
    && exists i :: 0 <= i < |items| && m.conversation == items[i].conversation
                   && (items[i].since.Some? ==> m.createdAt > items[i].since.value)
  }

  /** `groupBy conversationId, _count`: a conversation without a selected row has no group. */
  function GroupCounts(messages: seq<Message>, items: seq<Item>, user: UserId): map<ConversationId, nat> {
    if messages == [] then map[]
    else
      var counts, m := GroupCounts(messages[..|messages| - 1], items, user), messages[|messages| - 1];
      if Selected(m, items, user) then counts[m.conversation := Lookup(counts, m.conversation) + 1] else counts
  }

  /** How the list query reads the result: a missing conversation is 0. */
  function Lookup(counts: map<ConversationId, nat>, c: ConversationId): nat {
    if c in counts then counts[c] else 0
  }

  /** How many messages the OR lets into conversation `c` although item `i` on its own would not. */
  function Overcount(messages: seq<Message>, items: seq<Item>, user: UserId, item: Item): nat {
    if messages == [] then 0
    else
      var m := messages[|messages| - 1];
      Overcount(messages[..|messages| - 1], items, user, item)
      + (if m.conversation == item.conversation && Selected(m, items, user) && !UnreadFor(m, item, user) then 1 else 0)
  }

  /** For any list of items, repeated conversations included: the batched count is the single count
      plus whatever another item of the same conversation lets in. */
  lemma {:induction false} BatchedIsSinglePlusOvercount(messages: seq<Message>, items: seq<Item>, user: UserId, i: nat)
    requires i < |items|
    ensures Lookup(GroupCounts(messages, items, user), items[i].conversation)
         == CountUnread(messages, items[i], user) + Overcount(messages, items, user, items[i])
  {
    if messages != [] {
      var m := messages[|messages| - 1];
      BatchedIsSinglePlusOvercount(messages[..|messages| - 1], items, user, i);
      if UnreadFor(m, items[i], user) {
        assert Selected(m, items, user);
      }
    }
  }

  ghost predicate DistinctConversations(items: seq<Item>) {
    forall i, j :: 0 <= i < j < |items| ==> items[i].conversation != items[j].conversation
  }

  lemma {:induction false} NoOvercount(messages: seq<Message>, items: seq<Item>, user: UserId, i: nat)
    requires i < |items| && DistinctConversations(items)
    ensures Overcount(messages, items, user, items[i]) == 0
  {
    if messages != [] {
      NoOvercount(messages[..|messages| - 1], items, user, i);
      var m := messages[|messages| - 1];
      if m.conversation == items[i].conversation && Selected(m, items, user) {
        var j :| 0 <= j < |items| && m.conversation == items[j].conversation
                 && (items[j].since.Some? ==> m.createdAt > items[j].since.value);
        assert i == j;
      }
    }
  }

  /** On a page of distinct conversations the batched unread count is the single one, everywhere. */
  lemma BatchedUnreadEqualsSingle(messages: seq<Message>, items: seq<Item>, user: UserId, i: nat)
    requires i < |items| && DistinctConversations(items)
    ensures Lookup(GroupCounts(messages, items, user), items[i].conversation) == CountUnread(messages, items[i], user)
    ensures Lookup(GroupCounts(messages, items, user), items[i].conversation) == |UnreadAt(messages, items[i], user)|
  {
    BatchedIsSinglePlusOvercount(messages, items, user, i);
    NoOvercount(messages, items, user, i);
    CountUnreadIsExact(messages, items[i], user);
  }

  // ----- last messages -----

  predicate IsNewest(m: Message, messages: seq<Message>, c: ConversationId) {
    m in messages && m.conversation == c
    && forall x :: x in messages && x.conversation == c ==> x.createdAt <= m.createdAt
  }

  /** `findFirst({ where: { conversationId }, orderBy: { createdAt: 'desc' } })`. */
  predicate IsLastMessage(r: Option<Message>, messages: seq<Message>, c: ConversationId) {
    match r
    case Some(m) => IsNewest(m, messages, c)
    case None => !HasAny(messages, c)
  }

  predicate HasAny(messages: seq<Message>, c: ConversationId) {
    exists i :: 0 <= i < |messages| && messages[i].conversation == c
  }

  /** `distinct: ['conversationId']` after `orderBy: [conversationId asc, createdAt desc]`: one row per
      requested conversation that has any, its first in that order. */
  ghost predicate IsDistinctOn(rows: seq<Message>, messages: seq<Message>, ids: seq<ConversationId>) {
    && (forall i :: 0 <= i < |rows| ==>
          rows[i].conversation in ids && IsNewest(rows[i], messages, rows[i].conversation))
    && (forall i, j :: 0 <= i < j < |rows| ==> rows[i].conversation < rows[j].conversation)
    && (forall c :: c in ids && HasAny(messages, c) ==> HasAny(rows, c))
  }

  function Answer(result: map<ConversationId, Message>, c: ConversationId): Option<Message> {
    if c in result then Some(result[c]) else None
  }

  /** Loading the rows one after another keeps each under its own conversation. */
  ghost predicate Holds(result: map<ConversationId, Message>, rows: seq<Message>) {
    && (forall i :: 0 <= i < |rows| ==> rows[i].conversation in result)
    && (forall c :: c in result ==> result[c] in rows && result[c].conversation == c)
  }

  method FillMap(rows: seq<Message>) returns (result: map<ConversationId, Message>)
    ensures Holds(result, rows)
  {
    result := map[];
    for n := 0 to |rows|
      invariant Holds(result, rows[..n])
    {
      assert rows[..n + 1] == rows[..n] + [rows[n]];
      result := result[rows[n].conversation := rows[n]];
    }
    assert rows[..|rows|] == rows;
  }

  /** The map the repository fills answers every requested conversation as the single query does, and
      holds nothing else. */
  lemma FilledMapAnswersEach(result: map<ConversationId, Message>, rows: seq<Message>, messages: seq<Message>,
                             ids: seq<ConversationId>, c: ConversationId)
    requires Holds(result, rows) && IsDistinctOn(rows, messages, ids)
    ensures c in result ==> c in ids
    ensures c in ids ==> IsLastMessage(Answer(result, c), messages, c)
  {
    if c in result {
      var i :| 0 <= i < |rows| && rows[i] == result[c];
      assert IsNewest(rows[i], messages, rows[i].conversation);
    } else {
      assert !HasAny(rows, c);
    }
  }

  /** With distinct times inside a conversation both queries name the same message. */
  lemma LastMessageIsUnique(a: Option<Message>, b: Option<Message>, messages: seq<Message>, c: ConversationId)
    requires IsLastMessage(a, messages, c) && IsLastMessage(b, messages, c)
    requires forall x, y :: x in messages && y in messages && x.conversation == y.conversation == c && x != y
                            ==> x.createdAt != y.createdAt
    ensures a == b
  {
    if a.Some? && b.Some? {
      assert a.value.createdAt == b.value.createdAt;
    }
  }
}
