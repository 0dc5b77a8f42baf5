// Lookup, insert against a unique key, re-read on conflict: how a message (conversation id + client
// message id) and a conversation (application id) are created under concurrency.

module IdempotentCreate {
  import opened Wrappers

  type RowId = nat
  type Key = nat

  datatype Row = Row(id: RowId, key: Key)

  /** What one caller asks for. `valid` is the outcome of the checks a message passes between lookup
      and insert (a conversation has none, so it is always valid there). */
  datatype Request = Request(key: Key, newId: RowId, valid: bool)

  /** How a caller came by its row. */
  datatype Path = Found | Inserted | Reread

  datatype Caller = AtLookup | AtInsert | AtReread | Done(row: Row, path: Path) | Invalid | Rethrown

  datatype Store = Store(rows: seq<Row>, callers: seq<Caller>)

  predicate Taken(rows: seq<Row>, key: Key) {
    exists i :: 0 <= i < |rows| && rows[i].key == key
  }

  /** `findUnique` on the key. */
  function Find(rows: seq<Row>, key: Key): (r: Option<Row>)
    ensures r.Some? <==> Taken(rows, key)
    ensures r.Some? ==> r.value in rows && r.value.key == key
  {
    if rows == [] then None
    else if rows[0].key == key then Some(rows[0])
    else
      var rest := Find(rows[1..], key);
      assert forall i :: 0 <= i < |rows[1..]| ==> rows[1..][i] == rows[i + 1];
      rest
  }

  predicate Waiting(c: Caller) {
    c.AtLookup? || c.AtInsert? || c.AtReread?
  }

  /** One awaited database call of caller `i`; any caller may be next. */
  function Step(s: Store, requests: seq<Request>, i: nat): Store
    requires |requests| == |s.callers| && i < |s.callers| && Waiting(s.callers[i])
  {
    var q := requests[i];
    var hit := Find(s.rows, q.key);
    match s.callers[i]
    case AtLookup =>
      if hit.Some? then s.(callers := s.callers[i := Done(hit.value, Found)])
      else if !q.valid then s.(callers := s.callers[i := Invalid])
      else s.(callers := s.callers[i := AtInsert])
    case AtInsert =>
      if hit.Some? then s.(callers := s.callers[i := AtReread])   // unique constraint violation
      else
        var row := Row(q.newId, q.key);
        Store(s.rows + [row], s.callers[i := Done(row, Inserted)])
    case AtReread =>
      s.(callers := s.callers[i := if hit.Some? then Done(hit.value, Reread) else Rethrown])
  }

  predicate IsSchedule(s: Store, requests: seq<Request>, schedule: seq<nat>)
    requires |requests| == |s.callers|
    decreases |schedule|
  {
    schedule == []
    || (schedule[0] < |s.callers| && Waiting(s.callers[schedule[0]])
        && IsSchedule(Step(s, requests, schedule[0]), requests, schedule[1..]))
  }

  function Exec(s: Store, requests: seq<Request>, schedule: seq<nat>): (r: Store)
    requires |requests| == |s.callers| && IsSchedule(s, requests, schedule)
    ensures |r.callers| == |s.callers|
    decreases |schedule|
  {
    if schedule == [] then s else Exec(Step(s, requests, schedule[0]), requests, schedule[1..])
  }

  function Begin(rows: seq<Row>, requests: seq<Request>): (s: Store)
    ensures |s.callers| == |requests|
  {
    Store(rows, seq(|requests|, _ => AtLookup))
  }

  ghost predicate UniqueKeys(rows: seq<Row>) {
    forall i, j :: 0 <= i < j < |rows| ==> rows[i].key != rows[j].key
  }

  predicate Inserter(s: Store, i: int) {
    0 <= i < |s.callers| && s.callers[i].Done? && s.callers[i].path == Inserted
  }

  /** A finished caller holds the row of its key, an inserter its own new one; a caller that failed to
      insert will find the row; nobody reaches the rethrow. The first `old` rows were there before. */
  predicate CallerOk(rows: seq<Row>, before: nat, q: Request, c: Caller)
    requires before <= |rows|
  {
    match c
    case AtLookup => true
    case AtInsert => q.valid && !Taken(rows[..before], q.key)
    case AtReread => Taken(rows, q.key)
    case Done(row, path) =>
      row in rows && row.key == q.key
      && (path == Inserted ==> row.id == q.newId && row in rows[before..] && !Taken(rows[..before], q.key))
    case Invalid => !q.valid
    case Rethrown => false
  }

  ghost predicate Made(s: Store, r: nat)
    requires r < |s.rows|
  {
    exists i :: Inserter(s, i) && s.callers[i].row == s.rows[r]
  }

  ghost predicate Inv(s: Store, initial: seq<Row>, requests: seq<Request>) {
    && |s.callers| == |requests|
    && UniqueKeys(s.rows)
    && initial <= s.rows
    && (forall i :: 0 <= i < |s.callers| ==> CallerOk(s.rows, |initial|, requests[i], s.callers[i]))
    && (forall i, j :: Inserter(s, i) && Inserter(s, j) && requests[i].key == requests[j].key ==> i == j)
    && (forall r :: |initial| <= r < |s.rows| ==> Made(s, r))
  }

  lemma CallerStaysOk(rows: seq<Row>, before: nat, q: Request, c: Caller, row: Row)
    requires before <= |rows| && CallerOk(rows, before, q, c)
    ensures CallerOk(rows + [row], before, q, c)
  {
    var more := rows + [row];
    assert more[..before] == rows[..before] && more[before..] == rows[before..] + [row];
    if Taken(rows, q.key) {
      var r :| 0 <= r < |rows| && rows[r].key == q.key;
      assert more[r].key == q.key;
    }
  }

  lemma InsertInv(s: Store, initial: seq<Row>, requests: seq<Request>, i: nat)
    requires Inv(s, initial, requests) && i < |s.callers| && s.callers[i].AtInsert?
    requires !Taken(s.rows, requests[i].key)
    ensures Inv(Step(s, requests, i), initial, requests)
  {
    var t, row := Step(s, requests, i), Row(requests[i].newId, requests[i].key);
    forall j | 0 <= j < |t.callers| ensures CallerOk(t.rows, |initial|, requests[j], t.callers[j]) {
      if j == i {
        assert t.rows[|initial|..] == s.rows[|initial|..] + [row] && t.rows[..|initial|] == s.rows[..|initial|];
      } else {
        CallerStaysOk(s.rows, |initial|, requests[j], s.callers[j], row);
      }
    }
    forall j | Inserter(t, j) && j != i ensures requests[j].key != requests[i].key {
      assert Inserter(s, j) && s.callers[j].row in s.rows;
    }
    forall r | |initial| <= r < |t.rows| ensures Made(t, r) {
      if r == |s.rows| {
        assert Inserter(t, i);
      } else {
        assert Made(s, r);
        var j :| Inserter(s, j) && s.callers[j].row == s.rows[r];
        assert Inserter(t, j);
      }
    }
  }

  lemma ReadInv(s: Store, initial: seq<Row>, requests: seq<Request>, i: nat)
    requires Inv(s, initial, requests) && i < |s.callers| && Waiting(s.callers[i])
    requires s.callers[i].AtInsert? ==> Taken(s.rows, requests[i].key)
    ensures Inv(Step(s, requests, i), initial, requests)
  {
    var t := Step(s, requests, i);
    assert t.rows == s.rows;
    assert CallerOk(t.rows, |initial|, requests[i], t.callers[i]) by {
      assert CallerOk(s.rows, |initial|, requests[i], s.callers[i]);
      if Taken(s.rows[..|initial|], requests[i].key) {
        var r :| 0 <= r < |initial| && s.rows[..|initial|][r].key == requests[i].key;
        assert s.rows[r].key == requests[i].key;
      }
    }
    assert forall j :: Inserter(t, j) <==> Inserter(s, j);
    forall r | |initial| <= r < |t.rows| ensures Made(t, r) {
      assert Made(s, r);
      var j :| Inserter(s, j) && s.callers[j].row == s.rows[r];
      assert Inserter(t, j);
    }
  }

  lemma {:induction false} ScheduleInv(s: Store, initial: seq<Row>, requests: seq<Request>, schedule: seq<nat>)
    requires Inv(s, initial, requests) && IsSchedule(s, requests, schedule)
    ensures Inv(Exec(s, requests, schedule), initial, requests)
    decreases |schedule|
  {
    if schedule != [] {
      var i := schedule[0];
      if s.callers[i].AtInsert? && !Taken(s.rows, requests[i].key) {
        InsertInv(s, initial, requests, i);
      } else {
        ReadInv(s, initial, requests, i);
      }
      ScheduleInv(Step(s, requests, i), initial, requests, schedule[1..]);
    }
  }

  /** For any number of concurrent callers in any interleaving: at most one row per key; every caller
      that is done holds the one row of its key; none reaches the rethrow; only an invalid request is
      turned away. */
  lemma EveryCallerGetsTheOneRow(rows: seq<Row>, requests: seq<Request>, schedule: seq<nat>)
    requires UniqueKeys(rows) && IsSchedule(Begin(rows, requests), requests, schedule)
    ensures var s := Exec(Begin(rows, requests), requests, schedule);
      && UniqueKeys(s.rows) && rows <= s.rows
      && (forall i :: 0 <= i < |requests| ==>
            && s.callers[i] != Rethrown
            && (s.callers[i] == Invalid ==> !requests[i].valid)
            && (s.callers[i].Done? ==> Find(s.rows, requests[i].key) == Some(s.callers[i].row)))
  {
    ScheduleInv(Begin(rows, requests), rows, requests, schedule);
    var s := Exec(Begin(rows, requests), requests, schedule);
    forall i | 0 <= i < |requests| && s.callers[i].Done?
      ensures Find(s.rows, requests[i].key) == Some(s.callers[i].row)
    {
      UniqueFind(s.rows, s.callers[i].row);
    }
  }

  lemma UniqueFind(rows: seq<Row>, row: Row)
    requires UniqueKeys(rows) && row in rows
    ensures Find(rows, row.key) == Some(row)
  {
    var i :| 0 <= i < |rows| && rows[i] == row;
    assert rows[i].key == row.key;
    var found := Find(rows, row.key).value;
    var j :| 0 <= j < |rows| && rows[j] == found;
  }

  lemma NewRowHasInserter(s: Store, rows: seq<Row>, requests: seq<Request>, key: Key)
    requires Inv(s, rows, requests)
    ensures Taken(s.rows, key) && !Taken(rows, key) <==> exists i :: Inserter(s, i) && requests[i].key == key
  {
    if Taken(s.rows, key) && !Taken(rows, key) {
      var r :| 0 <= r < |s.rows| && s.rows[r].key == key;
      forall q | 0 <= q < |rows| ensures s.rows[q].key != key { assert s.rows[q] == rows[q]; }
      assert Made(s, r);
      var i :| Inserter(s, i) && s.callers[i].row == s.rows[r];
      assert CallerOk(s.rows, |rows|, requests[i], s.callers[i]);
    }
    if i :| Inserter(s, i) && requests[i].key == key {
      assert CallerOk(s.rows, |rows|, requests[i], s.callers[i]);
      var r :| 0 <= r < |s.rows| && s.rows[r] == s.callers[i].row;
      assert s.rows[..|rows|] == rows;
    }
  }

  /** Among the callers of a key whose row is new, exactly one reports having created it, and the row
      carries that caller's id; nobody reports creating a row that was there before. */
  lemma ExactlyOneCreator(rows: seq<Row>, requests: seq<Request>, schedule: seq<nat>, key: Key)
    requires UniqueKeys(rows) && IsSchedule(Begin(rows, requests), requests, schedule)
    ensures var s := Exec(Begin(rows, requests), requests, schedule);
      && (Taken(s.rows, key) && !Taken(rows, key) <==> exists i :: Inserter(s, i) && requests[i].key == key)
      && (forall i, j :: Inserter(s, i) && Inserter(s, j) && requests[i].key == requests[j].key ==> i == j)
      && (forall i :: Inserter(s, i) ==> s.callers[i].row.id == requests[i].newId)
  {
    ScheduleInv(Begin(rows, requests), rows, requests, schedule);
    var s := Exec(Begin(rows, requests), requests, schedule);
    NewRowHasInserter(s, rows, requests, key);
    forall i | Inserter(s, i) ensures s.callers[i].row.id == requests[i].newId {
      assert CallerOk(s.rows, |rows|, requests[i], s.callers[i]);
    }
  }

  function StepsLeft(callers: seq<Caller>): nat {
    if callers == [] then 0
    else (match callers[0] case AtLookup => 3 case AtInsert => 2 case AtReread => 1 case _ => 0)
         + StepsLeft(callers[1..])
  }

  lemma {:induction false} StepsLeftUpdate(callers: seq<Caller>, i: nat, c: Caller)
    requires i < |callers| && StepsLeft([c]) < StepsLeft([callers[i]])
    ensures StepsLeft(callers[i := c]) < StepsLeft(callers)
  {
    if i == 0 {
      assert callers[0 := c][1..] == callers[1..];
    } else {
      assert callers[i := c][1..] == callers[1..][i - 1 := c];
      StepsLeftUpdate(callers[1..], i - 1, c);
    }
  }

  lemma {:induction false} NobodyWaitsAtZero(callers: seq<Caller>, i: nat)
    requires i < |callers| && Waiting(callers[i])
    ensures StepsLeft(callers) > 0
  {
    if i > 0 {
      NobodyWaitsAtZero(callers[1..], i - 1);
    }
  }

  lemma {:induction false} ScheduleShortens(s: Store, requests: seq<Request>, schedule: seq<nat>)
    requires |requests| == |s.callers| && IsSchedule(s, requests, schedule)
    ensures |schedule| + StepsLeft(Exec(s, requests, schedule).callers) <= StepsLeft(s.callers)
    decreases |schedule|
  {
    if schedule != [] {
      var i := schedule[0];
      var t := Step(s, requests, i);
      StepsLeftUpdate(s.callers, i, t.callers[i]);
      ScheduleShortens(t, requests, schedule[1..]);
    }
  }

  lemma {:induction false} BeginSteps(n: nat)
    ensures StepsLeft(seq(n, _ => AtLookup)) == 3 * n
  {
    if n > 0 {
      assert seq(n, _ => AtLookup)[1..] == seq(n - 1, _ => AtLookup);
      BeginSteps(n - 1);
    }
  }

  /** A schedule can be extended by exactly the callers that are still waiting. */
  lemma {:induction false} ExtendsIffWaiting(s: Store, requests: seq<Request>, schedule: seq<nat>, i: nat)
    requires |requests| == |s.callers| && IsSchedule(s, requests, schedule)
    ensures IsSchedule(s, requests, schedule + [i])
            <==> i < |requests| && Waiting(Exec(s, requests, schedule).callers[i])
    decreases |schedule|
  {
    if schedule == [] {
      assert [i][1..] == [];
    } else {
      assert (schedule + [i])[1..] == schedule[1..] + [i];
      ExtendsIffWaiting(Step(s, requests, schedule[0]), requests, schedule[1..], i);
    }
  }

  /** No caller can take the schedule further. */
  ghost predicate IsComplete(s: Store, requests: seq<Request>, schedule: seq<nat>)
    requires |requests| == |s.callers|
  {
    forall i: nat :: !IsSchedule(s, requests, schedule + [i])
  }

  ghost predicate NobodyWaits(s: Store) {
    forall i :: 0 <= i < |s.callers| ==> !Waiting(s.callers[i])
  }

  lemma CompleteIffNobodyWaits(s: Store, requests: seq<Request>, schedule: seq<nat>)
    requires |requests| == |s.callers| && IsSchedule(s, requests, schedule)
    ensures IsComplete(s, requests, schedule) <==> NobodyWaits(Exec(s, requests, schedule))
  {
    hide IsSchedule, Exec, Waiting;
    var end := Exec(s, requests, schedule);
    if IsComplete(s, requests, schedule) {
      forall i | 0 <= i < |end.callers| ensures !Waiting(end.callers[i]) {
        ExtendsIffWaiting(s, requests, schedule, i);
      }
    } else {
      var i: nat :| IsSchedule(s, requests, schedule + [i]);
      ExtendsIffWaiting(s, requests, schedule, i);
    }
  }

  /** No schedule has more than three steps per caller, and one that no caller can take further has left
      every caller finished: every caller finishes. */
  lemma EveryCallerFinishes(rows: seq<Row>, requests: seq<Request>, schedule: seq<nat>)
    requires IsSchedule(Begin(rows, requests), requests, schedule)
    ensures |schedule| <= 3 * |requests|
    ensures IsComplete(Begin(rows, requests), requests, schedule)
            <==> NobodyWaits(Exec(Begin(rows, requests), requests, schedule))
  {
    hide IsSchedule, Exec, IsComplete, NobodyWaits;
    ScheduleShortens(Begin(rows, requests), requests, schedule);
    BeginSteps(|requests|);
    CompleteIffNobodyWaits(Begin(rows, requests), requests, schedule);
  }

  // ----- the message-sent event -----

  /** `create-message` announces the row unless its own lookup found it. */
  predicate Announces(s: Store, i: int) {
    0 <= i < |s.callers| && s.callers[i].Done? && s.callers[i].path != Found
  }

  /** Of the callers of one key, at most one announces the message if and only if none of them lost
      the insert race. */
  lemma AnnouncedOnceIffNoLostRace(rows: seq<Row>, requests: seq<Request>, schedule: seq<nat>, key: Key)
    requires UniqueKeys(rows) && !Taken(rows, key)
    requires IsSchedule(Begin(rows, requests), requests, schedule)
    ensures var s := Exec(Begin(rows, requests), requests, schedule);
      (forall i, j :: Announces(s, i) && Announces(s, j) && requests[i].key == requests[j].key == key ==> i == j)
      <==> (forall i :: Announces(s, i) && requests[i].key == key ==> s.callers[i].path != Reread)
  {
    ScheduleInv(Begin(rows, requests), rows, requests, schedule);
    AnnouncersOf(Exec(Begin(rows, requests), requests, schedule), rows, requests, key);
  }

  lemma AnnouncersOf(s: Store, rows: seq<Row>, requests: seq<Request>, key: Key)
    requires Inv(s, rows, requests) && !Taken(rows, key)
    ensures (forall i, j :: Announces(s, i) && Announces(s, j) && requests[i].key == requests[j].key == key ==> i == j)
      <==> (forall i :: Announces(s, i) && requests[i].key == key ==> s.callers[i].path != Reread)
  {
    if i :| Announces(s, i) && requests[i].key == key && s.callers[i].path == Reread {
      assert CallerOk(s.rows, |rows|, requests[i], s.callers[i]);
      var r :| 0 <= r < |s.rows| && s.rows[r] == s.callers[i].row;
      assert s.rows[r].key == key;
      NewRowHasInserter(s, rows, requests, key);
      var j :| Inserter(s, j) && requests[j].key == key;
      assert Announces(s, j) && i != j;
    } else {
      forall i, j | Announces(s, i) && Announces(s, j) && requests[i].key == requests[j].key == key ensures i == j {
        assert Inserter(s, i) && Inserter(s, j);
      }
    }
  }

  // ----- the interleavings that announce twice -----

  /** Two callers of the key stand between their lookup and their insert. */
  ghost predicate Meet(s: Store, requests: seq<Request>, key: Key)
    requires |requests| == |s.callers|
  {
    exists i, j :: 0 <= i < j < |requests| && requests[i].key == requests[j].key == key
                   && s.callers[i].AtInsert? && s.callers[j].AtInsert?
  }

  /** ... at some moment of the schedule. */
  ghost predicate EverMeet(s: Store, requests: seq<Request>, schedule: seq<nat>, key: Key)
    requires |requests| == |s.callers| && IsSchedule(s, requests, schedule)
    decreases |schedule|
  {
    || Meet(s, requests, key)
    || (schedule != [] && EverMeet(Step(s, requests, schedule[0]), requests, schedule[1..], key))
  }

  ghost predicate AnnouncedTwice(s: Store, requests: seq<Request>, key: Key)
    requires |requests| == |s.callers|
  {
    exists i, j :: 0 <= i < j < |requests| && requests[i].key == requests[j].key == key
                   && Announces(s, i) && Announces(s, j)
  }

  /** Past its lookup without having found the row: it will announce, or has. */
  predicate Committed(c: Caller) {
    c.AtInsert? || HasTried(c)
  }

  predicate HasTried(c: Caller) {
    c.AtReread? || (c.Done? && c.path != Found)
  }

  /** As long as no two callers of the key have met, at most one of them is committed; and whoever has tried to
      insert has left the key taken. */
  ghost predicate Apart(s: Store, requests: seq<Request>, key: Key) {
    && |s.callers| == |requests|
    && (forall i, j :: 0 <= i < j < |requests| && requests[i].key == requests[j].key == key
                       ==> !(Committed(s.callers[i]) && Committed(s.callers[j])))
    && (forall i :: 0 <= i < |requests| && requests[i].key == key && HasTried(s.callers[i]) ==> Taken(s.rows, key))
  }

  lemma TakenStays(rows: seq<Row>, row: Row, key: Key)
    ensures Taken(rows, key) ==> Taken(rows + [row], key)
    ensures Taken(rows + [row], row.key)
  {
    if Taken(rows, key) {
      var r :| 0 <= r < |rows| && rows[r].key == key;
      assert (rows + [row])[r].key == key;
    }
    assert (rows + [row])[|rows|].key == row.key;
  }

  lemma StaysApart(s: Store, requests: seq<Request>, i: nat, key: Key)
    requires Apart(s, requests, key) && i < |s.callers| && Waiting(s.callers[i])
    requires !Meet(Step(s, requests, i), requests, key)
    ensures Apart(Step(s, requests, i), requests, key)
  {
    var t := Step(s, requests, i);
    TakenStays(s.rows, Row(requests[i].newId, requests[i].key), key);
    assert forall k :: 0 <= k < |requests| && k != i ==> t.callers[k] == s.callers[k];
    if requests[i].key == key && t.callers[i].AtInsert? {
      forall k | 0 <= k < |requests| && k != i && requests[k].key == key ensures !Committed(t.callers[k]) {
        assert !HasTried(s.callers[k]);
      }
    }
  }

  lemma {:induction false} ApartUnlessTheyMeet(s: Store, requests: seq<Request>, schedule: seq<nat>, key: Key)
    requires Apart(s, requests, key) && IsSchedule(s, requests, schedule) && !EverMeet(s, requests, schedule, key)
    ensures Apart(Exec(s, requests, schedule), requests, key)
    decreases |schedule|
  {
    hide Apart;
    SizesMatch(s, requests, key);
    if schedule != [] {
      NotAtOnce(Step(s, requests, schedule[0]), requests, schedule[1..], key);
      StaysApart(s, requests, schedule[0], key);
      ApartUnlessTheyMeet(Step(s, requests, schedule[0]), requests, schedule[1..], key);
    }
  }

  lemma SizesMatch(s: Store, requests: seq<Request>, key: Key)
    requires Apart(s, requests, key)
    ensures |s.callers| == |requests|
  {}

  lemma NotAtOnce(s: Store, requests: seq<Request>, schedule: seq<nat>, key: Key)
    requires |requests| == |s.callers| && IsSchedule(s, requests, schedule)
    ensures !EverMeet(s, requests, schedule, key) ==> !Meet(s, requests, key)
  {}

  lemma {:induction false} CommittedStays(s: Store, requests: seq<Request>, schedule: seq<nat>, i: nat)
    requires |requests| == |s.callers| && IsSchedule(s, requests, schedule) && i < |s.callers|
    requires Committed(s.callers[i]) || s.callers[i].Rethrown?
    ensures Committed(Exec(s, requests, schedule).callers[i]) || Exec(s, requests, schedule).callers[i].Rethrown?
    decreases |schedule|
  {
    if schedule != [] {
      CommittedStays(Step(s, requests, schedule[0]), requests, schedule[1..], i);
    }
  }

  lemma {:induction false} WhoeverMeetsAnnounces(s: Store, requests: seq<Request>, schedule: seq<nat>, key: Key)
    requires |requests| == |s.callers| && IsSchedule(s, requests, schedule) && EverMeet(s, requests, schedule, key)
    requires NobodyWaits(Exec(s, requests, schedule))
    requires forall i :: 0 <= i < |requests| ==> !Exec(s, requests, schedule).callers[i].Rethrown?
    ensures AnnouncedTwice(Exec(s, requests, schedule), requests, key)
    decreases |schedule|
  {
    var end := Exec(s, requests, schedule);
    if Meet(s, requests, key) {
      var i, j :| 0 <= i < j < |requests| && requests[i].key == requests[j].key == key
                  && s.callers[i].AtInsert? && s.callers[j].AtInsert?;
      CommittedStays(s, requests, schedule, i);
      CommittedStays(s, requests, schedule, j);
      assert Announces(end, i) && Announces(end, j);
    } else {
      WhoeverMeetsAnnounces(Step(s, requests, schedule[0]), requests, schedule[1..], key);
    }
  }

  /** Once every caller has finished, a message has been announced twice if and only if at some moment two of its
      callers stood between their lookup and their insert at once. */
  lemma AnnouncedTwiceIffTheyMeet(rows: seq<Row>, requests: seq<Request>, schedule: seq<nat>, key: Key)
    requires UniqueKeys(rows) && IsSchedule(Begin(rows, requests), requests, schedule)
    requires NobodyWaits(Exec(Begin(rows, requests), requests, schedule))
    ensures AnnouncedTwice(Exec(Begin(rows, requests), requests, schedule), requests, key)
            <==> EverMeet(Begin(rows, requests), requests, schedule, key)
  {
    hide IsSchedule, Exec, Step;
    var s := Begin(rows, requests);
    EveryCallerGetsTheOneRow(rows, requests, schedule);
    if EverMeet(s, requests, schedule, key) {
      WhoeverMeetsAnnounces(s, requests, schedule, key);
    } else {
      assert Apart(s, requests, key);
      ApartUnlessTheyMeet(s, requests, schedule, key);
      ApartAnnouncesOnce(Exec(s, requests, schedule), requests, key);
    }
  }

  lemma ApartAnnouncesOnce(s: Store, requests: seq<Request>, key: Key)
    requires Apart(s, requests, key)
    ensures !AnnouncedTwice(s, requests, key)
  {
    forall i, j | 0 <= i < j < |requests| && requests[i].key == requests[j].key == key
      ensures !(Announces(s, i) && Announces(s, j))
    {
      assert !(Committed(s.callers[i]) && Committed(s.callers[j]));
    }
  }

  /** Two racing sends of one message announce it twice. */
  lemma RaceAnnouncesTwice()
    ensures var requests := [Request(0, 1, true), Request(0, 2, true)];
      var schedule := [0, 1, 0, 1, 1];
      && IsSchedule(Begin([], requests), requests, schedule)
      && var s := Exec(Begin([], requests), requests, schedule);
         |s.rows| == 1 && Announces(s, 0) && Announces(s, 1)
  {
    var requests := [Request(0, 1, true), Request(0, 2, true)];
    var s0 := Begin([], requests);
    var s1 := Step(s0, requests, 0);
    var s2 := Step(s1, requests, 1);
    var s3 := Step(s2, requests, 0);
    assert s3.rows == [Row(1, 0)];
    var s4 := Step(s3, requests, 1);
    var s5 := Step(s4, requests, 1);
    assert Find(s5.rows, 0) == Some(Row(1, 0));
    var schedule := [0, 1, 0, 1, 1];
    assert schedule[1..] == [1, 0, 1, 1] && schedule[1..][1..] == [0, 1, 1];
    assert [0, 1, 1][1..] == [1, 1] && [1, 1][1..] == [1] && [1][1..] == [];
    assert IsSchedule(s4, requests, [1]) && Exec(s4, requests, [1]) == s5;
    assert IsSchedule(s3, requests, [1, 1]) && Exec(s3, requests, [1, 1]) == s5;
    assert IsSchedule(s2, requests, [0, 1, 1]) && Exec(s2, requests, [0, 1, 1]) == s5;
    assert IsSchedule(s1, requests, [1, 0, 1, 1]) && Exec(s1, requests, [1, 0, 1, 1]) == s5;
  }
}
