/** Recovery from simultaneous failures: survivors of an ideal ring whose successor lists reach
    past every gap repair all pointers once each of them has stabilized twice. */
module Recovery {
  import opened Ids
  import opened Options
  import opened Ring
  import opened Network

  /** Entry i of a node's list is its (i+1)-st successor in ring order, wrapping as needed. */
  ghost predicate ExactList(members: set<Id>, n: Id, list: seq<Id>)
    requires members != {}
  {
    forall i :: 0 <= i < |list| ==> list[i] == NextN(members, n, i + 1)
  }

  ghost predicate ExactLists(net: Net, size: nat) {
    net != map[] && forall n {:trigger ExactList(net.Keys, n, net[n].list)} :: n in net ==>
      |net[n].list| == size && ExactList(net.Keys, n, net[n].list)
  }

  function Crashed(net: Net, failed: set<Id>): Net {
    map n | n in net && n !in failed :: net[n]
  }

  /** One of the next `size` members after n is alive. */
  ghost predicate Bridged(members: set<Id>, survivors: set<Id>, n: Id, size: nat)
    requires members != {}
  {
    exists k :: 1 <= k <= size && NextN(members, n, k) in survivors
  }

  /** No survivor is followed by `size` failures in a row. */
  ghost predicate AllBridged(members: set<Id>, survivors: set<Id>, size: nat)
    requires members != {}
  {
    forall n {:trigger Bridged(members, survivors, n, size)} :: n in survivors ==>
      Bridged(members, survivors, n, size)
  }

  function Visits(events: seq<Event>, n: Id): nat {
    if events == [] then 0
    else (if events[0] == Stabilize(n) then 1 else 0) + Visits(events[1..], n)
  }

  /** What holds of node n while the survivors repair: `once` have stabilized at least once since
      the failure and `twice` at least twice. */
  ghost predicate Repairing(members: set<Id>, net: Net, once: set<Id>, twice: set<Id>, size: nat, n: Id)
    requires n in net && net.Keys <= members
  {
    && Bridged(members, net.Keys, n, size)
    && (n !in once ==>
          net[n].successor == Next(members, n) && |net[n].list| == size && ExactList(members, n, net[n].list))
    && (n in once ==>
          net[n].successor == Next(net.Keys, n) && net[n].list != [] && net[n].list[0] == net[n].successor)
    && (|| net[n].predecessor == None
        || net[n].predecessor == Some(Prev(members, n))
        || net[n].predecessor == Some(Prev(net.Keys, n)))
    && (n in twice ==> net[Next(net.Keys, n)].predecessor == Some(n))
  }

  ghost predicate AllRepairing(members: set<Id>, net: Net, once: set<Id>, twice: set<Id>, size: nat) {
    && net != map[] && net.Keys <= members && twice <= once
    && forall n {:trigger Repairing(members, net, once, twice, size, n)} :: n in net ==>
         Repairing(members, net, once, twice, size, n)
  }

  lemma EarliestHit(members: set<Id>, survivors: set<Id>, n: Id, k: nat) returns (k0: nat)
    requires members != {}
    requires k >= 1 && NextN(members, n, k) in survivors
    ensures 1 <= k0 <= k && NextN(members, n, k0) in survivors
    ensures forall j :: 1 <= j < k0 ==> NextN(members, n, j) !in survivors
  {
    k0 := 1;
    while NextN(members, n, k0) !in survivors
      invariant 1 <= k0 <= k
      invariant forall j :: 1 <= j < k0 ==> NextN(members, n, j) !in survivors
      decreases k - k0
    {
      k0 := k0 + 1;
    }
  }

  /** The first live entry of an exact list is the next survivor; a lone survivor finds none. */
  lemma FailoverTarget(members: set<Id>, net: Net, n: Id, size: nat)
    requires n in net && net.Keys <= members
    requires |net[n].list| == size && ExactList(members, n, net[n].list)
    requires Bridged(members, net.Keys, n, size)
    ensures FailedOver(net, n)[n].successor == Next(net.Keys, n)
    ensures FailedOver(net, n)[n].list != [] && FailedOver(net, n)[n].list[0] == Next(net.Keys, n)
  {
    var list := net[n].list;
    var i := FirstLive(net.Keys, n, list);
    var h :| 1 <= h <= size && NextN(members, n, h) in net.Keys;
    var k := EarliestHit(members, net.Keys, n, if i < size then i + 1 else h);
    FirstSurvivor(members, net.Keys, n, k);
    var y := list[k - 1];
    assert y == NextN(members, n, k) == Next(net.Keys, n);
    if i < size {
      assert Gap(n, y) <= Gap(n, list[i]) < Gap(n, n);
      assert k - 1 == i;
    } else {
      assert y == n;
    }
  }

  /** A member that survives with its successor dead fails over and leaves all else unchanged. */
  lemma FailoverStep(members: set<Id>, net: Net, once: set<Id>, twice: set<Id>, n: Id, size: nat)
    requires AllRepairing(members, net, once, twice, size)
    requires n in net && net[n].successor !in net
    ensures n !in once
    ensures AllRepairing(members, Stabilized(net, n, size), once + {n}, twice, size)
  {
    assert Repairing(members, net, once, twice, size, n);
    FailoverTarget(members, net, n, size);
    var net' := Stabilized(net, n, size);
    assert net'.Keys == net.Keys;
    forall m | m in net' ensures Repairing(members, net', once + {n}, twice, size, m) {
      assert Repairing(members, net, once, twice, size, m);
      assert m != n ==> net'[m] == net[m];
    }
  }

  /** The predecessor of n's next survivor is unknown, dead, or n. */
  lemma StalePredecessor(members: set<Id>, survivors: set<Id>, n: Id)
    requires n in survivors && survivors <= members
    ensures Prev(survivors, Next(survivors, n)) == n
    ensures var p := Prev(members, Next(survivors, n)); p == n || p !in survivors
  {
    var s := Next(survivors, n);
    PrevOfNext(survivors, n);
    var p := Prev(members, s);
    if p in survivors { PrevIs(survivors, s, p); }
  }

  /** What one stabilization at n with a live, uncontested successor does to any node m. */
  lemma NotifyEffect(net: Net, n: Id, size: nat, m: Id)
    requires n in net && m in net && net[n].successor in net
    requires !AdoptsPredecessorOf(net, n, net[n].successor)
    requires Next(net.Keys, n) == net[n].successor
    ensures var s := net[n].successor; var net' := Stabilized(net, n, size);
            && net'.Keys == net.Keys
            && net'[m].successor == net[m].successor
            && (m != n ==> net'[m].list == net[m].list)
            && (s != n ==> net'[n].list != [] && net'[n].list[0] == s)
            && (s == n ==> net'[n].list == net[n].list)
            && net'[m].predecessor ==
               if m == s && Accepts(net, s, n) then Some(n) else net[m].predecessor
  {
    var s := net[n].successor;
    if s == n {
      forall x | x in net ensures x == n {
        assert Gap(n, n) <= Gap(n, x);
      }
    }
  }

  /** A live successor during repair is the next survivor, and no live node is closer. */
  lemma Uncontested(members: set<Id>, net: Net, once: set<Id>, twice: set<Id>, n: Id, size: nat)
    requires AllRepairing(members, net, once, twice, size)
    requires n in net && net[n].successor in net
    ensures net[n].successor == Next(net.Keys, n)
    ensures !AdoptsPredecessorOf(net, n, net[n].successor)
    ensures Accepts(net, net[n].successor, n) || net[net[n].successor].predecessor == Some(n)
    ensures net[n].list != [] && net[n].list[0] == net[n].successor
  {
    var s := net[n].successor;
    assert Repairing(members, net, once, twice, size, n);
    if n !in once {
      assert NextN(members, n, 1) == s;
      FirstSurvivor(members, net.Keys, n, 1);
      assert net[n].list[0] == NextN(members, n, 1);
    }
    StalePredecessor(members, net.Keys, n);
    assert Repairing(members, net, once, twice, size, s);
  }

  /** A survivor with a live successor keeps it and makes itself known there. */
  lemma NotifyStep(members: set<Id>, net: Net, once: set<Id>, twice: set<Id>, n: Id, size: nat)
    requires AllRepairing(members, net, once, twice, size)
    requires n in net && net[n].successor in net
    ensures AllRepairing(members, Stabilized(net, n, size), once + {n}, twice + if n in once then {n} else {}, size)
  {
    Uncontested(members, net, once, twice, n, size);
    NotifyEffect(net, n, size, n);
    var net' := Stabilized(net, n, size);
    forall m | m in net'
      ensures Repairing(members, net', once + {n}, twice + if n in once then {n} else {}, size, m)
    {
      NotifyNode(members, net, once, twice, n, size, m);
    }
  }

  lemma NotifyNode(members: set<Id>, net: Net, once: set<Id>, twice: set<Id>, n: Id, size: nat, m: Id)
    requires AllRepairing(members, net, once, twice, size)
    requires n in net && net[n].successor in net && m in net
    ensures Stabilized(net, n, size).Keys == net.Keys
    ensures Repairing(members, Stabilized(net, n, size), once + {n}, twice + if n in once then {n} else {}, size, m)
  {
    Uncontested(members, net, once, twice, n, size);
    assert Repairing(members, net, once, twice, size, m);
    PrevOfNext(net.Keys, n);
    PrevOfNext(net.Keys, m);
    NotifyEffect(net, n, size, m);
    NotifyEffect(net, n, size, Next(net.Keys, m));
  }

  lemma CheckStep(members: set<Id>, net: Net, once: set<Id>, twice: set<Id>, n: Id, size: nat)
    requires AllRepairing(members, net, once, twice, size)
    requires n in net
    ensures AllRepairing(members, PredecessorChecked(net, n), once, twice, size)
  {
    var net' := PredecessorChecked(net, n);
    assert net'.Keys == net.Keys;
    forall m | m in net' ensures Repairing(members, net', once, twice, size, m) {
      assert Repairing(members, net, once, twice, size, m);
    }
  }

  lemma RepairedIsIdeal(members: set<Id>, net: Net, once: set<Id>, twice: set<Id>, size: nat)
    requires AllRepairing(members, net, once, twice, size)
    requires net.Keys <= twice
    ensures Ideal(net)
  {
    forall n | n in net ensures IdealNode(net, n) {
      PrevOfNext(net.Keys, n);
      assert Repairing(members, net, once, twice, size, n);
      assert Repairing(members, net, once, twice, size, Prev(net.Keys, n));
    }
  }

  lemma {:induction false} RepairRun(members: set<Id>, net: Net, once: set<Id>, twice: set<Id>,
                                     events: seq<Event>, size: nat)
    requires AllRepairing(members, net, once, twice, size)
    requires forall n :: n in net && n !in twice ==> Visits(events, n) >= if n in once then 1 else 2
    ensures Ideal(Run(net, events, size))
    decreases |events|
  {
    if events == [] {
      RepairedIsIdeal(members, net, once, twice, size);
    } else {
      var e := events[0];
      if e.node !in net {
        RepairRun(members, net, once, twice, events[1..], size);
      } else if e.CheckPredecessor? {
        CheckStep(members, net, once, twice, e.node, size);
        RepairRun(members, Step(net, e, size), once, twice, events[1..], size);
      } else if net[e.node].successor !in net {
        FailoverStep(members, net, once, twice, e.node, size);
        RepairRun(members, Step(net, e, size), once + {e.node}, twice, events[1..], size);
      } else {
        NotifyStep(members, net, once, twice, e.node, size);
        RepairRun(members, Step(net, e, size), once + {e.node},
                  twice + if e.node in once then {e.node} else {}, events[1..], size);
      }
    }
  }

  /** Any schedule that stabilizes each survivor at least twice, with predecessor checks anywhere in
      between, ends in the ideal ring of the survivors, provided no survivor is followed by as many
      failures in a row as its list is long. */
  lemma FailuresAreRepaired(net: Net, failed: set<Id>, size: nat, events: seq<Event>)
    requires Ideal(net) && ExactLists(net, size)
    requires Crashed(net, failed) != map[]
    requires AllBridged(net.Keys, net.Keys - failed, size)
    requires forall n :: n in net && n !in failed ==> Visits(events, n) >= 2
    ensures Run(Crashed(net, failed), events, size).Keys == net.Keys - failed
    ensures Ideal(Run(Crashed(net, failed), events, size))
  {
    var start := Crashed(net, failed);
    assert start.Keys == net.Keys - failed;
    forall n | n in start ensures Repairing(net.Keys, start, {}, {}, size, n) {
      assert IdealNode(net, n) && ExactList(net.Keys, n, net[n].list);
      assert Bridged(net.Keys, net.Keys - failed, n, size);
    }
    RepairRun(net.Keys, start, {}, {}, events, size);
  }

  lemma {:induction false} RoundVisits(order: seq<Id>, rest: seq<Event>, n: Id)
    ensures Visits(Round(order) + rest, n) >= Visits(rest, n) + if n in order then 1 else 0
  {
    if order == [] {
      assert Round(order) + rest == rest;
    } else {
      assert (Round(order) + rest)[1..] == Round(order[1..]) + rest;
      RoundVisits(order[1..], rest, n);
    }
  }

  /** Two rounds of stabilization, each in any order, repair the ring. */
  lemma TwoRoundsRepair(net: Net, failed: set<Id>, size: nat, first: seq<Id>, second: seq<Id>)
    requires Ideal(net) && ExactLists(net, size)
    requires Crashed(net, failed) != map[]
    requires AllBridged(net.Keys, net.Keys - failed, size)
    requires forall n :: n in net && n !in failed ==> n in first && n in second
    ensures Ideal(Run(Crashed(net, failed), Round(first) + Round(second), size))
  {
    forall n | n in net && n !in failed ensures Visits(Round(first) + Round(second), n) >= 2 {
      RoundVisits(first, Round(second), n);
      RoundVisits(second, [], n);
      assert Round(second) + [] == Round(second);
    }
    FailuresAreRepaired(net, failed, size, Round(first) + Round(second));
  }

  // ---------------------------------------------------------------- a lone survivor

  ghost predicate Lone(net: Net, n: Id, visits: nat) {
    && net.Keys == {n}
    && (net[n].successor != n ==> visits == 0)
    && (net[n].successor == n ==> net[n].list != [] && net[n].list[0] == n)
    && (visits >= 2 ==> net[n].predecessor == Some(n))
  }

  lemma LoneStep(net: Net, n: Id, visits: nat, e: Event, size: nat)
    requires Lone(net, n, visits)
    ensures Lone(Step(net, e, size), n, visits + if e == Stabilize(n) then 1 else 0)
  {
    var net' := Step(net, e, size);
    assert net'.Keys == net.Keys;
    if e == Stabilize(n) { assert FirstLive(net.Keys, n, net[n].list) == |net[n].list|; }
  }

  lemma {:induction false} LoneRun(net: Net, n: Id, visits: nat, events: seq<Event>, size: nat)
    requires Lone(net, n, visits)
    ensures Lone(Run(net, events, size), n, visits + Visits(events, n))
    decreases |events|
  {
    if events != [] {
      LoneStep(net, n, visits, events[0], size);
      LoneRun(Step(net, events[0], size), n, visits + if events[0] == Stabilize(n) then 1 else 0, events[1..], size);
    }
  }

  lemma LoneIsIdeal(net: Net, n: Id, visits: nat)
    requires Lone(net, n, visits) && visits >= 2
    ensures Ideal(net)
  {
    assert IdealNode(net, n);
  }

  // ---------------------------------------------------------------- two survivors in a row

  /** a precedes b on the old ring and on the new one; b has stabilized `visits` times. */
  ghost predicate Pair(net: Net, a: Id, b: Id, visits: nat) {
    && a != b && net.Keys == {a, b}
    && net[a].successor == b && net[a].list != [] && net[a].list[0] == b
    && net[b].predecessor == Some(a)
    && (net[a].predecessor.Some? ==> net[a].predecessor == Some(b) || net[a].predecessor.value !in net)
    && (net[b].successor == a ==> net[b].list != [] && net[b].list[0] == a)
    && (net[b].successor != a ==> if net[b].successor == b then visits == 1 else visits == 0)
    && (visits >= 2 ==> net[a].predecessor == Some(b))
  }

  lemma PairFirst(net: Net, a: Id, b: Id, visits: nat, size: nat)
    requires Pair(net, a, b, visits)
    ensures Pair(Stabilized(net, a, size), a, b, visits)
  {
    assert Stabilized(net, a, size).Keys == net.Keys;
  }

  lemma PairSecond(net: Net, a: Id, b: Id, visits: nat, size: nat)
    requires Pair(net, a, b, visits)
    ensures Pair(Stabilized(net, b, size), a, b, visits + 1)
  {
    assert Stabilized(net, b, size).Keys == net.Keys;
    if net[b].successor == b { assert AdoptsPredecessorOf(net, b, b); }
  }

  lemma PairStep(net: Net, a: Id, b: Id, visits: nat, e: Event, size: nat)
    requires Pair(net, a, b, visits)
    ensures Pair(Step(net, e, size), a, b, visits + if e == Stabilize(b) then 1 else 0)
  {
    if e == Stabilize(a) {
      PairFirst(net, a, b, visits, size);
    } else if e == Stabilize(b) {
      PairSecond(net, a, b, visits, size);
    } else {
      assert Step(net, e, size).Keys == net.Keys;
    }
  }

  lemma {:induction false} PairRun(net: Net, a: Id, b: Id, visits: nat, events: seq<Event>, size: nat)
    requires Pair(net, a, b, visits)
    ensures Pair(Run(net, events, size), a, b, visits + Visits(events, b))
    decreases |events|
  {
    if events != [] {
      PairStep(net, a, b, visits, events[0], size);
      PairRun(Step(net, events[0], size), a, b, visits + if events[0] == Stabilize(b) then 1 else 0, events[1..], size);
    }
  }

  lemma PairIsIdeal(net: Net, a: Id, b: Id, visits: nat)
    requires Pair(net, a, b, visits) && visits >= 2
    ensures Ideal(net)
  {
    NextIs(net.Keys, a, b);
    NextIs(net.Keys, b, a);
    PrevIs(net.Keys, a, b);
    PrevIs(net.Keys, b, a);
    assert IdealNode(net, a) && IdealNode(net, b);
  }

  // ---------------------------------------------------------------- an unbridged survivor

  /** A survivor followed by as many failures as its list is long cuts itself off at its first
      stabilization; at the second it turns back to its old predecessor, if that one is alive. */
  lemma UnbridgedTurnsBack(net: Net, failed: set<Id>, size: nat, n: Id)
    requires Ideal(net) && ExactLists(net, size) && n in net && n !in failed
    requires !Bridged(net.Keys, net.Keys - failed, n, size)
    ensures n in Crashed(net, failed)
    ensures var net1 := Stabilized(Crashed(net, failed), n, size);
            && net1.Keys == net.Keys - failed && net1[n].successor == n
            && Stabilized(net1, n, size).Keys == net.Keys - failed
            && Stabilized(net1, n, size)[n].successor ==
                 if Prev(net.Keys, n) in net.Keys - failed then Prev(net.Keys, n) else n
  {
    var start := Crashed(net, failed);
    assert start.Keys == net.Keys - failed;
    assert IdealNode(net, n) && ExactList(net.Keys, n, net[n].list);
    var list := start[n].list;
    assert list[0] == NextN(net.Keys, n, 1) == net[n].successor;
    forall x | x in list ensures x !in start {
      var i :| 0 <= i < |list| && list[i] == x;
      assert x == NextN(net.Keys, n, i + 1);
    }
    var net1 := Stabilized(start, n, size);
    assert net1.Keys == start.Keys && net1[n].list == [n] + Without(list, n);
    assert net1[n].predecessor == Some(Prev(net.Keys, n));
    SecondVisit(net1, n, size);
  }

  lemma SecondVisit(net1: Net, n: Id, size: nat)
    requires n in net1 && net1[n].successor == n && net1[n].predecessor.Some?
    requires forall x :: x in net1[n].list ==> x == n || x !in net1
    ensures Stabilized(net1, n, size).Keys == net1.Keys
    ensures Stabilized(net1, n, size)[n].successor ==
              if net1[n].predecessor.value in net1 then net1[n].predecessor.value else n
  {
    assert FirstLive(net1.Keys, n, net1[n].list) == |net1[n].list|;
  }

  /** Nobody else moves n's successor. */
  lemma {:induction false} OthersKeepSuccessor(net: Net, events: seq<Event>, size: nat, n: Id)
    requires n in net && forall i :: 0 <= i < |events| ==> events[i].node != n
    ensures Run(net, events, size)[n].successor == net[n].successor
    decreases |events|
  {
    if events != [] {
      var net' := Step(net, events[0], size);
      assert net'[n].successor == net[n].successor;
      OthersKeepSuccessor(net', events[1..], size, n);
    }
  }

  // ---------------------------------------------------------------- exactly when repair is certain

  /** Every schedule that stabilizes each live node at least twice ends in the ideal ring. */
  ghost predicate AlwaysRepaired(start: Net, size: nat) {
    forall events {:trigger Run(start, events, size)} ::
      (forall n :: n in start ==> Visits(events, n) >= 2) ==> Ideal(Run(start, events, size))
  }

  /** a and the member after it are all that is left. */
  ghost predicate Neighbours(members: set<Id>, survivors: set<Id>, a: Id)
    requires members != {}
  {
    a in members && survivors == {a, Next(members, a)}
  }

  /** All survivors are bridged, or there is one, or there are two and one followed the other. */
  ghost predicate Repairable(members: set<Id>, survivors: set<Id>, size: nat)
    requires members != {}
  {
    || AllBridged(members, survivors, size)
    || (exists n :: survivors == {n})
    || (exists a :: Neighbours(members, survivors, a))
  }

  lemma PairCrashes(net: Net, failed: set<Id>, size: nat, a: Id, b: Id)
    requires Ideal(net) && ExactLists(net, size)
    requires a in net && b == Next(net.Keys, a) && a != b && net.Keys - failed == {a, b}
    ensures Pair(Crashed(net, failed), a, b, 0)
  {
    var start := Crashed(net, failed);
    assert start.Keys == net.Keys - failed;
    assert IdealNode(net, a) && IdealNode(net, b);
    PrevOfNext(net.Keys, a);
    assert Gap(b, Next(net.Keys, b)) <= Gap(b, a);
  }

  lemma RepairableRepairs(net: Net, failed: set<Id>, size: nat, events: seq<Event>)
    requires Ideal(net) && ExactLists(net, size) && Crashed(net, failed) != map[]
    requires Repairable(net.Keys, net.Keys - failed, size)
    requires forall n :: n in Crashed(net, failed) ==> Visits(events, n) >= 2
    ensures Ideal(Run(Crashed(net, failed), events, size))
  {
    var start, survivors := Crashed(net, failed), net.Keys - failed;
    assert start.Keys == survivors;
    if AllBridged(net.Keys, survivors, size) {
      FailuresAreRepaired(net, failed, size, events);
    } else if n :| survivors == {n} {
      assert n in start && IdealNode(net, n);
      assert Lone(start, n, 0);
      LoneRun(start, n, 0, events, size);
      LoneIsIdeal(Run(start, events, size), n, Visits(events, n));
    } else {
      var a :| Neighbours(net.Keys, survivors, a);
      var b := Next(net.Keys, a);
      assert a != b;
      assert b in start;
      PairCrashes(net, failed, size, a, b);
      PairRun(start, a, b, 0, events, size);
      PairIsIdeal(Run(start, events, size), a, b, Visits(events, b));
    }
  }

  lemma {:induction false} Listing(s: set<Id>) returns (order: seq<Id>)
    ensures forall x :: x in order <==> x in s
    decreases |s|
  {
    order := [];
    if s != {} {
      var x :| x in s;
      order := Listing(s - {x});
      order := [x] + order;
    }
  }

  lemma {:induction false} RoundNodes(order: seq<Id>)
    ensures forall i :: 0 <= i < |Round(order)| ==> Round(order)[i].node in order
  {
    if order != [] { RoundNodes(order[1..]); }
  }

  lemma OnlyTwoLeft(members: set<Id>, survivors: set<Id>, n: Id)
    requires survivors <= members && n in survivors && Prev(members, n) in survivors
    requires Next(survivors, n) == Prev(members, n)
    ensures Neighbours(members, survivors, Prev(members, n))
  {
    var p := Prev(members, n);
    PrevOfNext(members, n);
    forall z | z in survivors ensures z == n || z == p {
      assert Gap(n, p) <= Gap(n, z) && Gap(p, n) <= Gap(z, n);
    }
  }

  /** The survivor turned back at its predecessor has not found its successor, unless the two are
      the only ones left. */
  lemma TurnedBackIsWrong(members: set<Id>, survivors: set<Id>, n: Id, other: Id)
    requires survivors <= members && n in survivors && other in survivors && other != n
    requires !Neighbours(members, survivors, Prev(members, n))
    ensures Next(survivors, n) != if Prev(members, n) in survivors then Prev(members, n) else n
  {
    var p, q := Prev(members, n), Next(survivors, n);
    assert Gap(n, q) <= Gap(n, other) < Gap(n, n);
    if p in survivors && q == p { OnlyTwoLeft(members, survivors, n); }
  }

  lemma RunTwo(net: Net, a: Event, b: Event, rest: seq<Event>, size: nat)
    ensures Run(net, [a, b] + rest, size) == Run(Step(Step(net, a, size), b, size), rest, size)
  {
    var events := [a, b] + rest;
    assert events[1..] == [b] + rest && events[1..][1..] == rest;
  }

  lemma TwiceThenOthers(net: Net, n: Id, later: seq<Event>, size: nat)
    requires n in net && forall i :: 0 <= i < |later| ==> later[i].node != n
    ensures var net1 := Stabilized(net, n, size);
            && n in net1
            && n in Run(net, [Stabilize(n), Stabilize(n)] + later, size)
            && Run(net, [Stabilize(n), Stabilize(n)] + later, size)[n].successor ==
                 Stabilized(net1, n, size)[n].successor
  {
    RunTwo(net, Stabilize(n), Stabilize(n), later, size);
    OthersKeepSuccessor(Step(Step(net, Stabilize(n), size), Stabilize(n), size), later, size, n);
  }

  /** Otherwise some schedule fails: an unbridged survivor stabilizes twice before everyone else. */
  lemma UnrepairableFails(net: Net, failed: set<Id>, size: nat) returns (events: seq<Event>)
    requires Ideal(net) && ExactLists(net, size) && Crashed(net, failed) != map[]
    requires !Repairable(net.Keys, net.Keys - failed, size)
    ensures forall n :: n in Crashed(net, failed) ==> Visits(events, n) >= 2
    ensures !Ideal(Run(Crashed(net, failed), events, size))
  {
    var start, survivors := Crashed(net, failed), net.Keys - failed;
    assert start.Keys == survivors;
    var n :| n in survivors && !Bridged(net.Keys, survivors, n, size);
    assert survivors != {n};
    var other :| other in survivors && other != n;
    var order := Listing(survivors - {n});
    events := [Stabilize(n), Stabilize(n)] + (Round(order) + Round(order));
    forall m | m in start ensures Visits(events, m) >= 2 { TwiceEach(n, order, m); }
    UnbridgedTurnsBack(net, failed, size, n);
    TurnedBackIsWrong(net.Keys, survivors, n, other);
    RoundNodes(order);
    TwiceThenOthers(start, n, Round(order) + Round(order), size);
    assert !IdealNode(Run(start, events, size), n);
  }

  lemma TwiceEach(n: Id, order: seq<Id>, m: Id)
    requires m == n || m in order
    ensures Visits([Stabilize(n), Stabilize(n)] + (Round(order) + Round(order)), m) >= 2
  {
    var later := Round(order) + Round(order);
    var events := [Stabilize(n), Stabilize(n)] + later;
    assert events[1..] == [Stabilize(n)] + later && events[1..][1..] == later;
    RoundVisits(order, Round(order), m);
    RoundVisits(order, [], m);
    assert Round(order) + [] == Round(order);
  }

  /** Repair after simultaneous failures is certain exactly when every survivor has a live node within
      its list, or is alone, or is one of two that were neighbours. */
  lemma RepairedIffRepairable(net: Net, failed: set<Id>, size: nat)
    requires Ideal(net) && ExactLists(net, size) && Crashed(net, failed) != map[]
    ensures AlwaysRepaired(Crashed(net, failed), size) <==> Repairable(net.Keys, net.Keys - failed, size)
  {
    var start := Crashed(net, failed);
    if Repairable(net.Keys, net.Keys - failed, size) {
      forall events | forall n :: n in start ==> Visits(events, n) >= 2
        ensures Ideal(Run(start, events, size))
      {
        RepairableRepairs(net, failed, size, events);
      }
    } else {
      var events := UnrepairableFails(net, failed, size);
      assert !Ideal(Run(start, events, size));
    }
  }
}
