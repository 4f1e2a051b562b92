/** From failures back to exact lookups: repair, as many rounds as lists are long, one finger pass per
    survivor. */
module Restoration {
  import opened Ids
  import opened Ring
  import opened Network
  import opened Lookup
  import opened Routes
  import opened Fingers
  import opened Recovery
  import opened Refresh
  import opened Placement
  import opened Sums

  // ---------------------------------------------------------------- stabilization leaves fingers alone

  lemma StepKeepsFingers(net: Net, e: Event, size: nat, m: Id)
    requires m in net
    ensures Step(net, e, size)[m].fingers == net[m].fingers && Step(net, e, size)[m].nextFinger == net[m].nextFinger
  {
  }

  lemma {:induction false} RunKeepsFingers(net: Net, events: seq<Event>, size: nat, m: Id)
    requires m in net
    ensures Run(net, events, size)[m].fingers == net[m].fingers
    ensures Run(net, events, size)[m].nextFinger == net[m].nextFinger
    decreases |events|
  {
    if events != [] {
      StepKeepsFingers(net, events[0], size, m);
      RunKeepsFingers(Step(net, events[0], size), events[1..], size, m);
    }
  }

  lemma {:induction false} RoundsKeepFingers(net: Net, rounds: seq<seq<Id>>, size: nat, m: Id)
    requires m in net
    ensures Rounds(net, rounds, size)[m].fingers == net[m].fingers
    ensures Rounds(net, rounds, size)[m].nextFinger == net[m].nextFinger
    decreases |rounds|
  {
    if rounds != [] {
      RunKeepsFingers(net, Round(rounds[0]), size, m);
      RoundsKeepFingers(Run(net, Round(rounds[0]), size), rounds[1..], size, m);
    }
  }

  // ---------------------------------------------------------------- finger passes

  predicate Tabled(st: NodeState) {
    |st.fingers| == FINGER_COUNT && st.nextFinger < FINGER_COUNT
  }

  /** The nodes of the order repair all their fingers, one node after the other. */
  function Passes(net: Net, order: seq<Id>): (net': Net)
    ensures net'.Keys == net.Keys
    decreases |order|
  {
    if order == [] then net
    else if order[0] in net && Tabled(net[order[0]]) then
      Passes(FingersFixed(net, order[0], FINGER_COUNT), order[1..])
    else Passes(net, order[1..])
  }

  /** n's list holds live nodes only, and either all of them, beside few dead fingers, or the fingers
      are alive as well. */
  ghost predicate Ready(net: Net, n: Id, all: bool)
    requires n in net
  {
    && Tabled(net[n]) && (forall s :: s in net[n].list ==> s in net)
    && if all then KnowsAll(net, n) && |Dead(net, n)| < MAX_LOOKUP_HOPS else LiveTable(net, n)
  }

  ghost predicate AllReady(net: Net, all: bool) {
    && Ideal(net) && (all || |net.Keys| <= MAX_LOOKUP_HOPS + 1)
    && forall n {:trigger Ready(net, n, all)} :: n in net ==> Ready(net, n, all)
  }

  lemma ReadyIsServed(net: Net, x: Id, all: bool)
    requires AllReady(net, all) && x in net
    ensures Served(net, x)
  {
    assert Ready(net, x, all);
    if !all {
      forall id ensures RelaysLive(net, x, id) {
        forall c | c in net && BetweenExclusive(c, x, id) ensures NamesLive(net, id, c) {
          assert Ready(net, c, all);
          ClosestInArc(net[c], c, id);
        }
      }
      assert Dead(net, x) == {} by { assert LiveTable(net, x); }
    }
  }

  /** A finger pass at x leaves everyone as ready as before and x with exact fingers. */
  lemma PassKeepsReady(net: Net, x: Id, net': Net, all: bool)
    requires AllReady(net, all) && x in net
    requires Preserved(net, x, net') && Served(net', x) && Dead(net', x) <= Dead(net, x)
    ensures AllReady(net', all)
  {
    SubsetSize(Dead(net', x), Dead(net, x));
    forall n | n in net' ensures Ready(net', n, all) {
      assert Ready(net, n, all);
      if n == x {
        if !all {
          assert Dead(net, x) == {} by { assert LiveTable(net, x); }
          forall s | s in Known(net'[x]) ensures s in net' { assert s !in Dead(net', x); }
        }
      } else {
        assert net'[n] == net[n];
      }
    }
  }

  lemma PassKeepsExact(net: Net, x: Id, net': Net, m: Id)
    requires x in net && m in net && m != x && Preserved(net, x, net') && ExactFingersAt(net, m)
    ensures ExactFingersAt(net', m)
  {
  }

  lemma {:induction false} PassesFix(net: Net, order: seq<Id>, done: set<Id>, all: bool)
    requires AllReady(net, all)
    requires forall n {:trigger ExactFingersAt(net, n)} :: n in net && n in done ==> ExactFingersAt(net, n)
    ensures var end := Passes(net, order);
            && AllReady(end, all)
            && forall n {:trigger ExactFingersAt(end, n)} ::
                 n in end && (n in done || n in order) ==> ExactFingersAt(end, n)
    decreases |order|
  {
    if order != [] {
      var x := order[0];
      if x !in net {
        PassesFix(net, order[1..], done, all);
      } else {
        assert Ready(net, x, all);
        ReadyIsServed(net, x, all);
        FullPassIsExact(net, x, FINGER_COUNT);
        var net1 := FingersFixed(net, x, FINGER_COUNT);
        PassKeepsReady(net, x, net1, all);
        forall n | n in net1 && n in done + {x} ensures ExactFingersAt(net1, n) {
          if n != x { PassKeepsExact(net, x, net1, n); }
        }
        PassesFix(net1, order[1..], done + {x}, all);
      }
    }
  }

  /** Once every node has passed over its fingers, every lookup is exact. */
  lemma PassesMakeExact(net: Net, order: seq<Id>, all: bool, n: Id, id: Id)
    requires AllReady(net, all) && n in net && forall m :: m in net ==> m in order
    ensures var end := Passes(net, order);
            Find(end, n, id) == Answer(Owner(net.Keys, id), end, false)
  {
    PassesFix(net, order, {}, all);
    var end := Passes(net, order);
    assert forall m :: m in end ==> m in order;
    assert Ready(end, n, all) && ExactFingersAt(end, n);
    forall f | f in end[n].fingers ensures f in end {
      var i :| 0 <= i < FINGER_COUNT && end[n].fingers[i] == f;
      assert ExactFinger(end.Keys, n, i, end[n].fingers[i]);
    }
    assert Dead(end, n) == {};
    IdealIsLinked(end);
    if all {
      KnowingAllArrives(end, n, id);
    } else {
      forall c | c in end ensures LiveTable(end, c) { assert Ready(end, c, all); }
      LiveTablesArrive(end, n, id);
    }
    LookupIsExact(end, n, id);
  }

  // ---------------------------------------------------------------- from failures to exact lookups

  /** A full-length finger table of members. */
  ghost predicate WholeTable(net: Net, n: Id)
    requires n in net
  {
    Tabled(net[n]) && forall f :: f in net[n].fingers ==> f in net
  }

  lemma ExactListIsLive(net: Net, n: Id, size: nat)
    requires n in net && ExactLists(net, size)
    ensures forall s :: s in net[n].list ==> s in net
    ensures size >= |net.Keys| - 1 ==> KnowsAll(net, n)
  {
    assert ExactList(net.Keys, n, net[n].list);
    forall s | s in net[n].list ensures s in net {
      var i :| 0 <= i < |net[n].list| && net[n].list[i] == s;
      assert s == NextN(net.Keys, n, i + 1);
    }
    if size >= |net.Keys| - 1 {
      forall m | m in net && m != n ensures m in net[n].list {
        var i := WalkCovers(net.Keys, n, m);
        assert net[n].list[i - 1] == m;
      }
    }
  }

  /** The table of survivor m once lists are exact again: its dead entries are fingers to failed nodes. */
  lemma SurvivorIsReady(net: Net, failed: set<Id>, net2: Net, size: nat, all: bool, m: Id)
    requires m in net && WholeTable(net, m) && net2.Keys == net.Keys - failed && m in net2
    requires net2[m].fingers == net[m].fingers && net2[m].nextFinger == net[m].nextFinger && ExactLists(net2, size)
    requires if all then |net2.Keys| - 1 <= size && |failed| < MAX_LOOKUP_HOPS
             else forall f :: f in net[m].fingers ==> f !in failed
    ensures Ready(net2, m, all)
  {
    ExactListIsLive(net2, m, size);
    if all {
      assert Dead(net2, m) <= failed;
      SubsetSize(Dead(net2, m), failed);
    }
  }

  lemma RestoredPointers(net: Net, failed: set<Id>, size: nat, events: seq<Event>, rounds: seq<seq<Id>>)
    requires Ideal(net) && ExactLists(net, size) && |net.Keys - failed| >= 2
    requires Repairable(net.Keys, net.Keys - failed, size)
    requires forall m :: m in net && m !in failed ==> Visits(events, m) >= 2
    requires Covers(rounds, net.Keys - failed) && |rounds| >= size
    ensures var end := Rounds(Run(Crashed(net, failed), events, size), rounds, size);
            end.Keys == net.Keys - failed && Ideal(end) && ExactLists(end, size)
  {
    var start := Crashed(net, failed);
    assert start.Keys == net.Keys - failed;
    var m :| m in net.Keys - failed;
    assert IdealNode(net, m) && ExactList(net.Keys, m, net[m].list);
    RepairableRepairs(net, failed, size, events);
    RoundsFillLists(Run(start, events, size), rounds, size);
  }

  /** Any failures the pointers can be repaired from, any schedule with two stabilizations each, as
      many further rounds as lists are long and one finger pass per survivor, each in any order: then
      every survivor's lookup of any position is exact. It takes lists that reach around the ring and
      fewer than 160 failures, or fingers that name no failed node and at most 161 survivors. */
  lemma FailuresToExactLookups(net: Net, failed: set<Id>, size: nat, events: seq<Event>, rounds: seq<seq<Id>>,
                               order: seq<Id>, all: bool, n: Id, id: Id)
    requires Ideal(net) && ExactLists(net, size) && |net.Keys - failed| >= 2
    requires forall m {:trigger WholeTable(net, m)} :: m in net ==> WholeTable(net, m)
    requires Repairable(net.Keys, net.Keys - failed, size)
    requires forall m :: m in net && m !in failed ==> Visits(events, m) >= 2
    requires Covers(rounds, net.Keys - failed) && |rounds| >= size
    requires n in net && n !in failed && forall m :: m in net && m !in failed ==> m in order
    requires if all then |net.Keys - failed| - 1 <= size && |failed| < MAX_LOOKUP_HOPS
             else |net.Keys - failed| <= MAX_LOOKUP_HOPS + 1
                  && forall m, f :: m in net && m !in failed && f in net[m].fingers ==> f !in failed
    ensures var end := Passes(Rounds(Run(Crashed(net, failed), events, size), rounds, size), order);
            end.Keys == net.Keys - failed && Find(end, n, id) == Answer(Owner(net.Keys - failed, id), end, false)
  {
    var start := Crashed(net, failed);
    assert start.Keys == net.Keys - failed;
    RestoredPointers(net, failed, size, events, rounds);
    var net1 := Run(start, events, size);
    var net2 := Rounds(net1, rounds, size);
    forall m | m in net2 ensures Ready(net2, m, all) {
      RunKeepsFingers(start, events, size, m);
      RoundsKeepFingers(net1, rounds, size, m);
      assert WholeTable(net, m);
      SurvivorIsReady(net, failed, net2, size, all, m);
    }
    PassesMakeExact(net2, order, all, n, id);
  }
}
