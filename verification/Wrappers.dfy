// Small shared vocabulary: optional values, the orders of two racing commands, sizes of sets, and sets of
// numbers read in ascending order.

module Wrappers {
  datatype Option<+T> = None | Some(value: T)
}

/** Two commands, each split into its checks and its write. A check that passes hands a ticket to its write,
    which goes ahead on it whatever has happened since. */
module Orders {
  import opened Wrappers

  datatype Half = CheckA | WriteA | CheckB | WriteB

  /** The six orders of the four halves. */
  datatype Order = AABB | ABAB | ABBA | BAAB | BABA | BBAA

  function Halves(o: Order): (r: seq<Half>)
    ensures |r| == 4
  {
    match o
    case AABB => [CheckA, WriteA, CheckB, WriteB]
    case ABAB => [CheckA, CheckB, WriteA, WriteB]
    case ABBA => [CheckA, CheckB, WriteB, WriteA]
    case BAAB => [CheckB, CheckA, WriteA, WriteB]
    case BABA => [CheckB, CheckA, WriteB, WriteA]
    case BBAA => [CheckB, WriteB, CheckA, WriteA]
  }

  predicate IsSerial(o: Order) {
    o == AABB || o == BBAA
  }

  datatype Command<!S, !T> = Command(check: S -> Option<T>, write: (S, T) -> S)

  datatype Race<S, P, Q> = Race(state: S, ticketA: Option<P>, ticketB: Option<Q>)

  function Written<S, T>(s: S, c: Command<S, T>, ticket: Option<T>): S {
    if ticket.Some? then c.write(s, ticket.value) else s
  }

  function Next<S, P, Q>(r: Race<S, P, Q>, h: Half, a: Command<S, P>, b: Command<S, Q>): Race<S, P, Q> {
    match h
    case CheckA => r.(ticketA := a.check(r.state))
    case WriteA => r.(state := Written(r.state, a, r.ticketA))
    case CheckB => r.(ticketB := b.check(r.state))
    case WriteB => r.(state := Written(r.state, b, r.ticketB))
  }

  function Play<S, P, Q>(s: S, o: Order, a: Command<S, P>, b: Command<S, Q>): S {
    var h := Halves(o);
    Next(Next(Next(Next(Race(s, None, None), h[0], a, b), h[1], a, b), h[2], a, b), h[3], a, b).state
  }

  /** A command run on its own. */
  function Alone<S, T>(s: S, c: Command<S, T>): S {
    Written(s, c, c.check(s))
  }

  /** Serial orders run one command after the other; the others write on what both saw at the start. */
  lemma PlayIs<S, P, Q>(s: S, o: Order, a: Command<S, P>, b: Command<S, Q>)
    ensures o == AABB ==> Play(s, o, a, b) == Alone(Alone(s, a), b)
    ensures o == BBAA ==> Play(s, o, a, b) == Alone(Alone(s, b), a)
    ensures o == ABAB || o == BAAB ==> Play(s, o, a, b) == Written(Alone(s, a), b, b.check(s))
    ensures o == ABBA || o == BABA ==> Play(s, o, a, b) == Written(Alone(s, b), a, a.check(s))
  {
    match o
    case _ =>
  }
}

module FiniteSets {

  lemma {:induction false} SubsetIsNoLarger<T>(a: set<T>, b: set<T>)
    requires a <= b
    ensures |a| <= |b|
    decreases a
  {
    if a != {} {
      var x :| x in a;
      SubsetIsNoLarger(a - {x}, b - {x});
    }
  }
}

module SortedSets {

  ghost predicate StrictlyAscending(s: seq<nat>) {
    forall i, j :: 0 <= i < j < |s| ==> s[i] < s[j]
  }

  predicate IsLeast(m: nat, s: set<nat>) {
    m in s && forall x :: x in s ==> m <= x
  }

  lemma {:induction false} LeastExists(s: set<nat>)
    requires s != {}
    ensures exists m :: IsLeast(m, s)
    decreases |s|
  {
    var y :| y in s;
    var rest := s - {y};
    if rest == {} {
      assert s == {y} + rest == {y};
      assert IsLeast(y, s);
    } else {
      LeastExists(rest);
      var m :| IsLeast(m, rest);
      var least := if y < m then y else m;
      forall x | x in s ensures least <= x {
        if x != y { assert x in rest; }
      }
      assert IsLeast(least, s);
    }
  }

  function Least(s: set<nat>): (m: nat)
    requires s != {}
    ensures IsLeast(m, s)
  {
    LeastExists(s);
    var m :| IsLeast(m, s);
    m
  }

  /** The members of `s` in ascending order: what `orderBy asc` returns. */
  function Ascending(s: set<nat>): (r: seq<nat>)
    ensures |r| == |s|
    ensures forall x :: x in r <==> x in s
    ensures StrictlyAscending(r)
    decreases |s|
  {
    if s == {} then []
    else
      var m := Least(s);
      var rest := Ascending(s - {m});
      Prepend(m, rest, s);
      [m] + rest
  }

  lemma Prepend(m: nat, rest: seq<nat>, s: set<nat>)
    requires IsLeast(m, s) && StrictlyAscending(rest)
    requires forall x :: x in rest <==> x in s - {m}
    ensures StrictlyAscending([m] + rest)
    ensures forall x :: x in [m] + rest <==> x in s
  {
    assert forall i :: 0 <= i < |rest| ==> rest[i] in rest;
  }

  lemma HeadIsMember(s: seq<nat>)
    requires s != []
    ensures exists x :: x in s
  {
    assert s[0] in s;
  }

  lemma {:induction false} AscendingUnique(a: seq<nat>, b: seq<nat>)
    requires StrictlyAscending(a) && StrictlyAscending(b)
    requires forall x :: x in a <==> x in b
    ensures a == b
    decreases |a|
  {
    if a == [] {
      if b != [] { HeadIsMember(b); }
    } else {
      assert a[0] in b && b[0] in a;
      assert a[0] == b[0];
      forall x ensures x in a[1..] <==> x in b[1..] {
        if x in a[1..] { assert x in b && x != b[0]; }
        if x in b[1..] { assert x in a && x != a[0]; }
      }
      AscendingUnique(a[1..], b[1..]);
    }
  }
}
