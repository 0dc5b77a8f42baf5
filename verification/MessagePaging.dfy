// Cursor paging through a conversation, newest page first.

module MessagePaging {
  import opened Wrappers

  datatype Message = Message(id: nat, createdAt: nat)

  /** A conversation's rows in ascending `createdAt`; rows of equal time in some fixed order. */
  ghost predicate Chronological(conv: seq<Message>) {
    forall i, j :: 0 <= i < j < |conv| ==> conv[i].createdAt <= conv[j].createdAt && conv[i].id != conv[j].id
  }

  ghost predicate DistinctTimes(conv: seq<Message>) {
    forall i, j :: 0 <= i < j < |conv| ==> conv[i].createdAt != conv[j].createdAt
  }

  function FindById(conv: seq<Message>, id: nat): (r: Option<Message>)
    ensures r.Some? ==> r.value in conv && r.value.id == id
    ensures r.None? ==> forall m :: m in conv ==> m.id != id
  {
    if conv == [] then None
    else if conv[0].id == id then Some(conv[0])
    else FindById(conv[1..], id)
  }

  /** `where: { createdAt: { lt: bound } }`. */
  function Before(conv: seq<Message>, bound: nat): seq<Message> {
    if conv == [] then []
    else if conv[0].createdAt < bound then [conv[0]] + Before(conv[1..], bound)
    else Before(conv[1..], bound)
  }

  function Reverse(s: seq<Message>): (r: seq<Message>)
    ensures |r| == |s| && forall i :: 0 <= i < |s| ==> r[i] == s[|s| - 1 - i]
  {
    if s == [] then [] else Reverse(s[1..]) + [s[0]]
  }

  /** The query: newest first, at most `limit` rows, older than the cursor's message if there is one.
      A cursor that names no message is ignored. */
  function QueryPage(conv: seq<Message>, cursor: Option<nat>, limit: nat): seq<Message> {
    var at := if cursor.Some? then FindById(conv, cursor.value) else None;
    var rows := if at.Some? then Before(conv, at.value.createdAt) else conv;
    var newestFirst := Reverse(rows);
    if |newestFirst| <= limit then newestFirst else newestFirst[..limit]
  }

  datatype Page = Page(items: seq<Message>, nextCursor: Option<nat>)

  /** The repository: oldest first, and a cursor iff the page is full. */
  function FindPage(conv: seq<Message>, cursor: Option<nat>, limit: nat): Page
    requires limit > 0
  {
    var raws := QueryPage(conv, cursor, limit);
    Page(Reverse(raws), if |raws| == limit then Some(raws[|raws| - 1].id) else None)
  }

  /** What a client gets by following `nextCursor` from nothing to null, oldest page first. `later(k)`
      are the messages that arrived before the k-th following read; `fuel` reads at most. */
  function Follow(conv: seq<Message>, later: nat -> seq<Message>, k: nat, cursor: Option<nat>, limit: nat, fuel: nat)
    : Option<seq<Message>>
    requires limit > 0
    decreases fuel
  {
    if fuel == 0 then None
    else
      var page := FindPage(conv + later(k), cursor, limit);
      if page.nextCursor.None? then Some(page.items)
      else
        match Follow(conv, later, k + 1, page.nextCursor, limit, fuel - 1)
        case None => None
        case Some(older) => Some(older + page.items)
  }

  /** Arrivals are newer than everything there at the first read. */
  ghost predicate ArrivalsAreNewer(conv: seq<Message>, later: nat -> seq<Message>) {
    forall k :: ArrivedAfter(conv, later, k)
  }

  ghost predicate ArrivedAfter(conv: seq<Message>, later: nat -> seq<Message>, k: nat) {
    Chronological(conv + later(k))
  }

  function Older(conv: seq<Message>, bound: nat): nat {
    |Before(conv, bound)|
  }

  lemma {:induction false} NoneBefore(conv: seq<Message>, bound: nat)
    requires forall i :: 0 <= i < |conv| ==> conv[i].createdAt >= bound
    ensures Before(conv, bound) == []
  {
    if conv != [] {
      NoneBefore(conv[1..], bound);
    }
  }

  lemma {:induction false} BeforeIsPrefix(conv: seq<Message>, bound: nat)
    requires Chronological(conv)
    ensures var n := Older(conv, bound);
      && n <= |conv| && Before(conv, bound) == conv[..n]
      && (forall i :: 0 <= i < n ==> conv[i].createdAt < bound)
      && (forall i :: n <= i < |conv| ==> conv[i].createdAt >= bound)
  {
    if conv != [] {
      var rest := conv[1..];
      BeforeIsPrefix(rest, bound);
      assert forall i :: 1 <= i < |conv| ==> conv[i] == rest[i - 1];
      var n := Older(rest, bound);
      if conv[0].createdAt < bound {
        assert [conv[0]] + rest[..n] == conv[..n + 1];
      } else {
        forall i | 0 <= i < |rest| ensures rest[i].createdAt >= bound {
          assert conv[0].createdAt <= conv[i + 1].createdAt;
        }
        NoneBefore(rest, bound);
      }
    }
  }

  lemma {:induction false} FindsById(conv: seq<Message>, i: nat)
    requires i < |conv| && Chronological(conv)
    ensures FindById(conv, conv[i].id) == Some(conv[i])
  {
    if i > 0 {
      FindsById(conv[1..], i - 1);
      assert conv[1..][i - 1] == conv[i];
    }
  }

  function From(top: nat, limit: nat): nat {
    if top <= limit then 0 else top - limit
  }

  function Newest(rows: seq<Message>, limit: nat): seq<Message> {
    if |rows| <= limit then Reverse(rows) else Reverse(rows)[..limit]
  }

  lemma NewestReversed(rows: seq<Message>, limit: nat)
    requires limit > 0
    ensures var raws, from := Newest(rows, limit), From(|rows|, limit);
      && Reverse(raws) == rows[from..]
      && (|raws| == limit <==> |rows| >= limit)
      && (|rows| >= limit ==> raws[|raws| - 1] == rows[from])
  {
  }

  lemma FirstPage(conv: seq<Message>, limit: nat)
    requires limit > 0
    ensures var from := From(|conv|, limit);
      FindPage(conv, None, limit) == Page(conv[from..], if |conv| >= limit then Some(conv[from].id) else None)
  {
    NewestReversed(conv, limit);
    assert QueryPage(conv, None, limit) == Newest(conv, limit);
  }

  /** A following read is the `limit` messages before the cursor's time. */
  lemma NextPage(conv: seq<Message>, i: nat, limit: nat)
    requires Chronological(conv) && limit > 0 && i < |conv|
    ensures var top := Older(conv, conv[i].createdAt);
      var from := From(top, limit);
      && top <= i
      && FindPage(conv, Some(conv[i].id), limit)
         == Page(conv[from..top], if top >= limit then Some(conv[from].id) else None)
  {
    FindsById(conv, i);
    BeforeIsPrefix(conv, conv[i].createdAt);
    var rows := Before(conv, conv[i].createdAt);
    NewestReversed(rows, limit);
    assert QueryPage(conv, Some(conv[i].id), limit) == Newest(rows, limit);
    var top := |rows|;
    assert rows[From(top, limit)..] == conv[From(top, limit)..top];
  }

  /** What the pages cut from position `top` downwards join to. */
  function Joined(conv: seq<Message>, top: nat, limit: nat): seq<Message>
    requires limit > 0 && top <= |conv|
    decreases top
  {
    if top < limit then conv[..top]
    else
      var next := Older(conv, conv[top - limit].createdAt);
      if next > top - limit then []   // not so in a chronological conversation
      else Joined(conv, next, limit) + conv[top - limit..top]
  }

  /** No two messages of equal time fall on either side of a page boundary, for pages of `limit` cut
      from position `top` downwards. */
  predicate NoTieAcrossPages(conv: seq<Message>, top: nat, limit: nat)
    requires top <= |conv| && limit > 0
    decreases top
  {
    top <= limit
    || (conv[top - limit - 1].createdAt < conv[top - limit].createdAt
        && NoTieAcrossPages(conv, top - limit, limit))
  }

  lemma OlderThanAppended(conv: seq<Message>, more: seq<Message>, i: nat)
    requires Chronological(conv + more) && i < |conv|
    ensures Older(conv + more, conv[i].createdAt) == Older(conv, conv[i].createdAt)
    ensures Older(conv, conv[i].createdAt) <= i
  {
    var all, bound := conv + more, conv[i].createdAt;
    assert Chronological(conv) by {
      forall p, q | 0 <= p < q < |conv| ensures conv[p].createdAt <= conv[q].createdAt && conv[p].id != conv[q].id {
        assert all[p] == conv[p] && all[q] == conv[q];
      }
    }
    BeforeIsPrefix(conv, bound);
    BeforeIsPrefix(all, bound);
    var n, m := Older(conv, bound), Older(all, bound);
    assert all[i] == conv[i];
    assert n < |conv| ==> all[n] == conv[n];
    assert m < |conv| ==> all[m] == conv[m];
  }

  /** Arrivals do not show: following the cursor at position `i` reads the pages of the messages older
      than it, to the end. */
  lemma {:induction false} FollowIsJoined(conv: seq<Message>, later: nat -> seq<Message>, k: nat, i: nat, limit: nat,
                                          fuel: nat)
    requires limit > 0 && i < |conv| && Chronological(conv) && ArrivalsAreNewer(conv, later) && fuel > i
    ensures Older(conv, conv[i].createdAt) <= i
    ensures Follow(conv, later, k, Some(conv[i].id), limit, fuel)
         == Some(Joined(conv, Older(conv, conv[i].createdAt), limit))
    decreases fuel
  {
    hide Follow, FindPage, Joined, Before;
    var top := Older(conv, conv[i].createdAt);
    var from := From(top, limit);
    assert ArrivedAfter(conv, later, k);
    var page := PageDespiteArrivals(conv, later(k), i, limit);
    FollowStep(conv, later, k, Some(conv[i].id), limit, fuel, page);
    JoinedStep(conv, top, limit);
    if top >= limit {
      FollowIsJoined(conv, later, k + 1, from, limit, fuel - 1);
    }
  }

  lemma FollowStep(conv: seq<Message>, later: nat -> seq<Message>, k: nat, cursor: Option<nat>, limit: nat, fuel: nat,
                   page: Page)
    requires limit > 0 && fuel > 0 && FindPage(conv + later(k), cursor, limit) == page
    ensures page.nextCursor.None? ==> Follow(conv, later, k, cursor, limit, fuel) == Some(page.items)
    ensures page.nextCursor.Some? ==>
      var rest := Follow(conv, later, k + 1, page.nextCursor, limit, fuel - 1);
      rest.Some? ==> Follow(conv, later, k, cursor, limit, fuel) == Some(rest.value + page.items)
  {
  }

  lemma JoinedStep(conv: seq<Message>, top: nat, limit: nat)
    requires limit > 0 && top <= |conv| && Chronological(conv)
    ensures top < limit ==> Joined(conv, top, limit) == conv[From(top, limit)..top]
    ensures top >= limit ==>
      && Older(conv, conv[From(top, limit)].createdAt) <= From(top, limit)
      && Joined(conv, top, limit)
         == Joined(conv, Older(conv, conv[From(top, limit)].createdAt), limit) + conv[From(top, limit)..top]
  {
    if top >= limit {
      BeforeIsPrefix(conv, conv[top - limit].createdAt);
    }
  }

  lemma PageDespiteArrivals(conv: seq<Message>, more: seq<Message>, i: nat, limit: nat) returns (page: Page)
    requires limit > 0 && i < |conv| && Chronological(conv) && Chronological(conv + more)
    ensures var top := Older(conv, conv[i].createdAt);
      var from := From(top, limit);
      && top <= i
      && page == FindPage(conv + more, Some(conv[i].id), limit)
      && page.items == conv[from..top] && page.nextCursor == if top >= limit then Some(conv[from].id) else None
  {
    hide FindPage, Before;
    page := FindPage(conv + more, Some(conv[i].id), limit);
    var all := conv + more;
    var top := Older(conv, conv[i].createdAt);
    OlderThanAppended(conv, more, i);
    assert all[i] == conv[i];
    NextPage(all, i, limit);
    var from := From(top, limit);
    assert all[from..top] == conv[from..top];
    if top >= limit { assert all[from] == conv[from]; }
  }

  lemma {:induction false} JoinedLength(conv: seq<Message>, top: nat, limit: nat)
    requires limit > 0 && top <= |conv|
    ensures |Joined(conv, top, limit)| <= top
    decreases top
  {
    if top >= limit {
      var next := Older(conv, conv[top - limit].createdAt);
      if next <= top - limit {
        JoinedLength(conv, next, limit);
      }
    }
  }

  lemma SamePrefix(x: seq<Message>, y: seq<Message>, tail: seq<Message>)
    ensures x + tail == y + tail <==> x == y
  {
    if x + tail == y + tail {
      assert |x| == |y| && x == (x + tail)[..|x|] && y == (y + tail)[..|y|];
    }
  }

  /** The pages join to the first `top` messages exactly when no page boundary splits a tie. */
  lemma {:induction false} JoinedIff(conv: seq<Message>, top: nat, limit: nat)
    requires limit > 0 && top <= |conv| && Chronological(conv)
    ensures Joined(conv, top, limit) == conv[..top] <==> NoTieAcrossPages(conv, top, limit)
    decreases top
  {
    if top >= limit {
      var from := top - limit;
      var next := Older(conv, conv[from].createdAt);
      TieAtBoundary(conv, from, limit);
      BeforeIsPrefix(conv, conv[from].createdAt);
      assert next <= from;
      JoinedLength(conv, next, limit);
      JoinedIff(conv, from, limit);
      SamePrefix(Joined(conv, next, limit), conv[..from], conv[from..top]);
      assert conv[..top] == conv[..from] + conv[from..top];
      if top == limit { assert next == 0 && conv[..0] == []; }
    }
  }

  lemma TieAtBoundary(conv: seq<Message>, from: nat, limit: nat)
    requires limit > 0 && from < |conv| && Chronological(conv)
    ensures from == 0 ==> Older(conv, conv[from].createdAt) == 0
    ensures from > 0 ==>
      (Older(conv, conv[from].createdAt) == from <==> conv[from - 1].createdAt < conv[from].createdAt)
  {
    BeforeIsPrefix(conv, conv[from].createdAt);
  }

  /** Following the cursors ends, repeats nothing newer and loses nothing, whatever newer messages
      arrive meanwhile, if and only if no page boundary of the first read's conversation falls between
      two messages of the same time. */
  lemma PagesJoinIff(conv: seq<Message>, later: nat -> seq<Message>, limit: nat)
    requires limit > 0 && Chronological(conv) && ArrivalsAreNewer(conv, later) && later(0) == []
    ensures var r := Follow(conv, later, 0, None, limit, |conv| + 1);
      r.Some? && (r.value == conv <==> NoTieAcrossPages(conv, |conv|, limit))
  {
    hide Follow, FindPage, Before, NoTieAcrossPages;
    var n := |conv|;
    assert conv + later(0) == conv && conv[..n] == conv;
    FirstPage(conv, limit);
    FollowStep(conv, later, 0, None, limit, n + 1, FindPage(conv, None, limit));
    if n >= limit {
      FollowIsJoined(conv, later, 1, n - limit, limit, n);
      assert conv[n - limit..] == conv[n - limit..n];
    }
    JoinedStep(conv, n, limit);
    JoinedIff(conv, n, limit);
  }

  lemma {:induction false} DistinctTimesHaveNoTies(conv: seq<Message>, top: nat, limit: nat)
    requires limit > 0 && top <= |conv| && Chronological(conv) && DistinctTimes(conv)
    ensures NoTieAcrossPages(conv, top, limit)
    decreases top
  {
    if top > limit {
      DistinctTimesHaveNoTies(conv, top - limit, limit);
    }
  }

  /** With distinct times the pages, joined oldest first, are the whole conversation in order. */
  lemma DistinctTimesPageExactly(conv: seq<Message>, later: nat -> seq<Message>, limit: nat)
    requires limit > 0 && Chronological(conv) && ArrivalsAreNewer(conv, later) && later(0) == []
    requires DistinctTimes(conv)
    ensures Follow(conv, later, 0, None, limit, |conv| + 1) == Some(conv)
  {
    DistinctTimesHaveNoTies(conv, |conv|, limit);
    PagesJoinIff(conv, later, limit);
  }

  /** A tie on a page boundary loses a message: of two messages of one instant, read one to a page, the earlier
      is on no page. */
  lemma TieLosesAMessage()
    ensures
      var conv := [Message(1, 5), Message(2, 5)];
      var later: nat -> seq<Message> := _ => [];
      && Chronological(conv) && ArrivalsAreNewer(conv, later) && !NoTieAcrossPages(conv, 2, 1)
      && Follow(conv, later, 0, None, 1, 3) == Some([Message(2, 5)])
  {
    var conv := [Message(1, 5), Message(2, 5)];
    var later: nat -> seq<Message> := _ => [];
    forall k ensures ArrivedAfter(conv, later, k) {
      assert conv + later(k) == conv;
    }
    FirstPage(conv, 1);
    NextPage(conv, 1, 1);
    BeforeIsPrefix(conv, 5);
    assert Older(conv, 5) == 0;
    assert FindPage(conv, None, 1) == Page([Message(2, 5)], Some(2)) by { assert conv[1..] == [Message(2, 5)]; }
    assert FindPage(conv, Some(2), 1) == Page([], None) by { assert conv[0..0] == []; }
    hide FindPage, Before;
    assert conv + later(0) == conv && conv + later(1) == conv;
    FollowStep(conv, later, 1, Some(2), 1, 2, Page([], None));
    FollowStep(conv, later, 0, None, 1, 3, Page([Message(2, 5)], Some(2)));
    assert [] + [Message(2, 5)] == [Message(2, 5)];
  }
}
