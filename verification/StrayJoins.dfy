/** What becomes of a node that joined through a lookup that gave up: rounds of stabilization walk it
    back to its place on the ring, unless the node it was given is dead; then it stays alone. */
module StrayJoins {
  import opened Ids
  import opened Options
  import opened Ring
  import opened Network
  import opened Lookup
  import opened Routes
  import opened Refresh
  import opened Membership
  import opened Sums

  // ---------------------------------------------------------------- the walk back

  ghost predicate OldRing(net: Net, members: set<Id>, x: Id) {
    && |members| >= 2 && x !in members && net.Keys == members + {x}
    && forall n {:trigger OldMember(net, members, n)} :: n in members ==> OldMember(net, members, n)
  }

  /** The members form their ring; x, unknown to them, points at one of them. */
  ghost predicate Straying(net: Net, members: set<Id>, x: Id) {
    OldRing(net, members, x) && net[x].successor in members && net[x].predecessor == None
  }

  /** The members x has yet to pass on its way back from t. */
  function Ahead(members: set<Id>, x: Id, t: Id): set<Id> {
    set z | z in members && Gap(x, z) < Gap(x, t)
  }

  /** On a ring that does not know x, stabilizing a member changes nobody's pointers. */
  lemma MemberStep(net: Net, members: set<Id>, x: Id, m: Id, size: nat)
    requires OldRing(net, members, x) && m in members
    ensures OldRing(Stabilized(net, m, size), members, x) && Stabilized(net, m, size)[x] == net[x]
  {
    assert OldMember(net, members, m);
    var s := Next(members, m);
    PrevOfNext(members, m);
    OtherMember(members, m);
    assert OldMember(net, members, s);
    assert !AdoptsPredecessorOf(net, m, s) && !Accepts(net, s, m);
    assert net[m := net[m].(successor := s)] == net;
    var net' := Stabilized(net, m, size);
    assert net'.Keys == net.Keys;
    forall n | n in members ensures OldMember(net', members, n) { assert OldMember(net, members, n); }
  }

  lemma OtherMember(members: set<Id>, m: Id)
    requires m in members && |members| >= 2
    ensures Next(members, m) != m && Prev(members, m) != m
  {
    var rest := members - {m};
    assert |rest| >= 1;
    var other :| other in rest;
    assert Gap(m, other) < Gap(m, m) && Gap(other, m) < Gap(m, m);
  }

  /** A stabilization of x that adopts q, when q keeps its predecessor, changes x alone. */
  lemma AdoptsQuietly(net: Net, x: Id, t: Id, q: Id, size: nat)
    requires x in net && t in net && q in net && q != x && net[x].successor == t
    requires net[t].predecessor == Some(q) && BetweenExclusive(q, x, t) && !Accepts(net, q, x)
    ensures var net' := Stabilized(net, x, size);
            && net'.Keys == net.Keys && net'[x].successor == q && net'[x].predecessor == net[x].predecessor
            && forall n {:trigger net'[n]} :: n in net && n != x ==> net'[n] == net[n]
  {
    assert AdoptsPredecessorOf(net, x, t);
    var net1 := net[x := net[x].(successor := q)];
    assert Notified(net1, q, x) == net1;
  }

  /** Away from its place x moves back by one member, and only its place's owner takes note. */
  lemma StrayStep(net: Net, members: set<Id>, x: Id, size: nat)
    requires Straying(net, members, x)
    requires net[x].successor != Owner(members, x) && Prev(members, net[x].successor) != Owner(members, x)
    ensures var net' := Stabilized(net, x, size);
            && Straying(net', members, x) && net'[x].successor == Prev(members, net[x].successor)
  {
    var t := net[x].successor;
    var q := Prev(members, t);
    assert OldMember(net, members, t) && OldMember(net, members, q);
    MovesBackFrom(members, x, t);
    NotItsPlace(members, x, q);
    AdoptsQuietly(net, x, t, q, size);
    var net' := Stabilized(net, x, size);
    forall n | n in members ensures OldMember(net', members, n) { assert OldMember(net, members, n); }
  }

  lemma MovesBackFrom(members: set<Id>, x: Id, t: Id)
    requires t in members && x !in members && t != Owner(members, x)
    ensures BetweenExclusive(Prev(members, t), x, t)
  {
    var o, q := Owner(members, x), Prev(members, t);
    assert Dist(x, o) <= Dist(x, t) && Gap(q, t) <= Gap(o, t);
  }

  lemma NotItsPlace(members: set<Id>, x: Id, q: Id)
    requires q in members && x !in members && q != Owner(members, x)
    ensures !BetweenExclusive(x, Prev(members, q), q)
  {
    var o, u := Owner(members, x), Prev(members, q);
    assert Dist(x, o) <= Dist(x, q) && Gap(u, q) <= Gap(o, q);
  }

  lemma FewerAhead(members: set<Id>, x: Id, t: Id)
    requires t in members && x !in members && t != Owner(members, x)
    ensures |Ahead(members, x, Prev(members, t))| < |Ahead(members, x, t)|
  {
    var q := Prev(members, t);
    MovesBackFrom(members, x, t);
    SmallerSubset(Ahead(members, x, q), Ahead(members, x, t), q);
  }

  lemma PlaceHasNoneAhead(members: set<Id>, x: Id, t: Id)
    requires t in members && x !in members && t != Owner(members, x)
    ensures |Ahead(members, x, t)| >= 1
    ensures Prev(members, t) != Owner(members, x) ==> |Ahead(members, x, t)| >= 2
  {
    FewerAhead(members, x, t);
    if Prev(members, t) != Owner(members, x) { FewerAhead(members, x, Prev(members, t)); }
  }

  // ---------------------------------------------------------------- how many rounds it takes

  ghost predicate Home(net: Net, members: set<Id>, x: Id) {
    |members| >= 2 && x !in members && net.Keys == members + {x} && Ideal(net)
  }

  /** At most r rounds to go: none on the ideal ring, one once x and its successor know each other. */
  ghost predicate Within(net: Net, members: set<Id>, x: Id, r: nat) {
    || Home(net, members, x)
    || (r >= 1 && |members| >= 2 && Introduced(net, members, x))
    || (r >= 2 && Straying(net, members, x) && |Ahead(members, x, net[x].successor)| < r)
  }

  lemma HomeStep(net: Net, members: set<Id>, x: Id, n: Id, size: nat)
    requires Home(net, members, x) && n in net
    ensures Home(Stabilized(net, n, size), members, x)
  {
    assert net.Keys != {n} by { assert x in net.Keys; var m :| m in members; assert m in net.Keys; }
    IdealPersists(net, n, size);
  }

  /** Between x and its predecessor nobody else has anything to do. */
  lemma IntroducedStep(net: Net, members: set<Id>, x: Id, n: Id, size: nat)
    requires |members| >= 2 && Introduced(net, members, x) && n in net && n != Prev(members, x)
    ensures Introduced(Stabilized(net, n, size), members, x)
  {
    var o := Owner(members, x);
    JoinNeighbours(members, x);
    assert IntroducedNode(net, members, x, o);
    var s := net[n].successor;
    if n != x {
      assert IntroducedNode(net, members, x, n);
      PrevOfNext(members, n);
      OtherMember(members, n);
      assert IntroducedNode(net, members, x, s);
    }
    assert !AdoptsPredecessorOf(net, n, s) && !Accepts(net, s, n);
    assert net[n := net[n].(successor := s)] == net;
    var net' := Stabilized(net, n, size);
    assert net'.Keys == net.Keys;
    forall m | m in members ensures IntroducedNode(net', members, x, m) { assert IntroducedNode(net, members, x, m); }
  }

  /** Stabilizing x while it strays brings it one round closer. */
  lemma StrayCloser(net: Net, members: set<Id>, x: Id, r: nat, size: nat)
    requires r >= 2 && Straying(net, members, x) && |Ahead(members, x, net[x].successor)| < r
    ensures Within(Stabilized(net, x, size), members, x, r - 1)
  {
    var t := net[x].successor;
    if t == Owner(members, x) {
      JoinerIntroduced(net, members, x, size);
    } else if Prev(members, t) == Owner(members, x) {
      StrayIntroduced(net, members, x, t, size);
    } else {
      StrayStep(net, members, x, size);
      FewerAhead(members, x, t);
      PlaceHasNoneAhead(members, x, t);
    }
  }

  lemma WithinMore(net: Net, members: set<Id>, x: Id, r: nat)
    requires Within(net, members, x, r)
    ensures Within(net, members, x, r + 1)
  {
  }

  /** The node whose stabilization brings the next round: x while it strays, then its predecessor. */
  ghost function Mover(members: set<Id>, x: Id, r: nat): Id
    requires members != {}
  {
    if r == 1 then Prev(members, x) else x
  }

  lemma WithinStays(net: Net, members: set<Id>, x: Id, r: nat, n: Id, size: nat)
    requires r >= 1 && Within(net, members, x, r) && n in net
    ensures Within(Stabilized(net, n, size), members, x, r)
    ensures n == Mover(members, x, r) ==> Within(Stabilized(net, n, size), members, x, r - 1)
  {
    if Home(net, members, x) {
      HomeStep(net, members, x, n, size);
    } else if Introduced(net, members, x) {
      if n == Prev(members, x) {
        IntroducedCloses(net, members, x, size);
      } else {
        IntroducedStep(net, members, x, n, size);
      }
    } else if n == x {
      StrayCloser(net, members, x, r, size);
      WithinMore(Stabilized(net, x, size), members, x, r - 1);
    } else {
      MemberStep(net, members, x, n, size);
    }
  }

  lemma {:induction false} SweepBringsCloser(net: Net, members: set<Id>, x: Id, r: nat, order: seq<Id>, size: nat)
    requires r >= 1 && Within(net, members, x, r)
    requires Mover(members, x, r) in order || Within(net, members, x, r - 1)
    ensures Within(Run(net, Round(order), size), members, x, r - 1)
    decreases |order|
  {
    if order != [] {
      var n := order[0];
      assert Round(order)[0] == Stabilize(n) && Round(order)[1..] == Round(order[1..]);
      assert Mover(members, x, r) in order ==> Mover(members, x, r) == n || Mover(members, x, r) in order[1..];
      if n in net {
        WithinStays(net, members, x, r, n, size);
        if Within(net, members, x, r - 1) { LowerStays(net, members, x, r - 1, n, size); }
      }
      SweepBringsCloser(Step(net, Stabilize(n), size), members, x, r, order[1..], size);
    }
  }

  lemma LowerStays(net: Net, members: set<Id>, x: Id, r: nat, n: Id, size: nat)
    requires Within(net, members, x, r) && n in net
    ensures Within(Stabilized(net, n, size), members, x, r)
  {
    if r >= 1 { WithinStays(net, members, x, r, n, size); } else { HomeStep(net, members, x, n, size); }
  }

  lemma {:induction false} RoundsBringHome(net: Net, members: set<Id>, x: Id, r: nat, rounds: seq<seq<Id>>, size: nat)
    requires Within(net, members, x, r) && Covers(rounds, members + {x}) && |rounds| >= r
    ensures Home(Rounds(net, rounds, size), members, x)
    decreases |rounds|
  {
    if rounds != [] {
      var end := Run(net, Round(rounds[0]), size);
      if r == 0 {
        WithinMore(net, members, x, 0);
      }
      var k := if r == 0 then 1 else r;
      assert Mover(members, x, k) in members + {x};
      SweepBringsCloser(net, members, x, k, rounds[0], size);
      assert Covers(rounds[1..], members + {x});
      RoundsBringHome(end, members, x, k - 1, rounds[1..], size);
    }
  }

  // ---------------------------------------------------------------- a joiner given a dead node

  /** x knows nobody alive but itself. */
  ghost predicate Lonely(net: Net, x: Id)
    requires x in net
  {
    && (net[x].successor == x || net[x].successor !in net)
    && (forall y :: y in net[x].list ==> y == x || y !in net)
    && (net[x].predecessor == None || net[x].predecessor == Some(x))
  }

  /** And nobody knows x. */
  ghost predicate Alone(net: Net, members: set<Id>, x: Id) {
    OldRing(net, members, x) && Lonely(net, x)
  }

  lemma LonelyStep(net: Net, x: Id, size: nat)
    requires x in net && Lonely(net, x)
    ensures var net' := Stabilized(net, x, size);
            net'.Keys == net.Keys && net' == net[x := net'[x]] && Lonely(net', x)
  {
    assert FirstLive(net.Keys, x, net[x].list) == |net[x].list|;
  }

  lemma AloneStep(net: Net, members: set<Id>, x: Id, n: Id, size: nat)
    requires Alone(net, members, x) && n in net
    ensures Alone(Stabilized(net, n, size), members, x)
  {
    if n == x {
      LonelyStep(net, x, size);
      RingBeside(net, members, x, Stabilized(net, x, size)[x]);
    } else {
      MemberStep(net, members, x, n, size);
    }
  }

  lemma RingBeside(net: Net, members: set<Id>, x: Id, st: NodeState)
    requires OldRing(net, members, x)
    ensures OldRing(net[x := st], members, x)
  {
    var net' := net[x := st];
    assert net'.Keys == net.Keys;
    forall m | m in members ensures OldMember(net', members, m) { assert OldMember(net, members, m); }
  }

  lemma {:induction false} SweepLeavesAlone(net: Net, members: set<Id>, x: Id, order: seq<Id>, size: nat)
    requires Alone(net, members, x)
    ensures Alone(Run(net, Round(order), size), members, x)
    decreases |order|
  {
    if order != [] {
      assert Round(order)[0] == Stabilize(order[0]) && Round(order)[1..] == Round(order[1..]);
      if order[0] in net { AloneStep(net, members, x, order[0], size); }
      SweepLeavesAlone(Step(net, Stabilize(order[0]), size), members, x, order[1..], size);
    }
  }

  lemma {:induction false} RoundsLeaveAlone(net: Net, members: set<Id>, x: Id, rounds: seq<seq<Id>>, size: nat)
    requires Alone(net, members, x)
    ensures Alone(Rounds(net, rounds, size), members, x)
    decreases |rounds|
  {
    if rounds != [] {
      SweepLeavesAlone(net, members, x, rounds[0], size);
      RoundsLeaveAlone(Run(net, Round(rounds[0]), size), members, x, rounds[1..], size);
    }
  }

  lemma AloneIsNotIdeal(net: Net, members: set<Id>, x: Id)
    requires Alone(net, members, x)
    ensures !Ideal(net)
  {
    JoinNeighbours(members, x);
    assert !IdealNode(net, x);
  }

  // ---------------------------------------------------------------- what becomes of it

  /** The lookup of a lone member always arrives. */
  lemma GivesUpAmongTwo(net: Net, via: Id, x: Id)
    requires Ideal(net) && via in net && !Reaches(net, via, x)
    ensures |net.Keys| >= 2
  {
    IdealIsLinked(net);
    assert IdealNode(net, via);
    assert net.Keys != {via};
    var other :| other in net.Keys && other != via;
    SmallerSubset({via}, net.Keys, other);
  }

  /** After a join whose lookup gives up, as many rounds as there are members, each in any order, give
      the ideal ring with the joiner if and only if the node the lookup gave up at is alive. With a
      dead one no number of rounds does. */
  lemma StrayJoinConverges(c: Cluster, x: Id, via: Id, rounds: seq<seq<Id>>, size: nat)
    requires Ideal(c.net) && via in c.net && x !in c.net && !Reaches(c.net, via, x)
    requires Covers(rounds, c.net.Keys + {x})
    ensures Linked(c.net)
    ensures LastStand(c.net, via, x) in c.net && |rounds| >= |c.net.Keys| ==>
              Ideal(Rounds(JoinedTo(c, x, via).net, rounds, size))
    ensures LastStand(c.net, via, x) !in c.net ==> !Ideal(Rounds(JoinedTo(c, x, via).net, rounds, size))
  {
    var members, s := c.net.Keys, Find(c.net, via, x).node;
    var net0 := JoinedTo(c, x, via).net;
    StrayNode(c.net, via, x);
    StrayRing(c, x, via);
    GivesUpAmongTwo(c.net, via, x);
    if s in c.net {
      SmallerSubset(Ahead(members, x, s), members, s);
      if |rounds| >= |members| { RoundsBringHome(net0, members, x, |members|, rounds, size); }
    } else {
      assert Alone(net0, members, x);
      RoundsLeaveAlone(net0, members, x, rounds, size);
      AloneIsNotIdeal(Rounds(net0, rounds, size), members, x);
    }
  }
}
