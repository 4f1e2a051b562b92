/** Successor lists on an ideal ring grow by one exact entry per round of stabilization. */
module Refresh {
  import opened Ids
  import opened Ring
  import opened Network
  import opened Recovery

  /** The first k entries of a node's list are its next k members in ring order. */
  ghost predicate ExactPrefix(members: set<Id>, n: Id, list: seq<Id>, k: nat)
    requires members != {}
  {
    |list| >= k && ExactList(members, n, list[..k])
  }

  ghost predicate PrefixAt(net: Net, n: Id, k: nat, size: nat)
    requires n in net
  {
    |net[n].list| >= k && ExactPrefix(net.Keys, n, net[n].list, k) && (k > 0 ==> |net[n].list| <= size)
  }

  ghost predicate AllPrefix(net: Net, k: nat, size: nat) {
    forall n {:trigger PrefixAt(net, n, k, size)} :: n in net ==> PrefixAt(net, n, k, size)
  }

  function Min(a: nat, b: nat): nat {
    if a < b then a else b
  }

  /** On an ideal ring of two or more, stabilizing n rebuilds n's list and changes no pointer. */
  lemma IdealStep(net: Net, n: Id, size: nat, m: Id)
    requires Ideal(net) && n in net && m in net && net.Keys != {n}
    ensures var net' := Stabilized(net, n, size);
            && net'.Keys == net.Keys
            && net'[m].successor == net[m].successor && net'[m].predecessor == net[m].predecessor
            && net'[m].list == if m == n then Prepended(net[n].successor, net[net[n].successor].list, size)
                               else net[m].list
  {
    var s := net[n].successor;
    assert IdealNode(net, n) && IdealNode(net, s);
    PrevOfNext(net.Keys, n);
    var other :| other in net && other != n;
    assert Gap(n, other) < Gap(n, n);
    assert !AdoptsPredecessorOf(net, n, s) && !Accepts(net, s, n);
    assert net[n := net[n].(successor := s)] == net;
  }

  lemma IdealPersists(net: Net, n: Id, size: nat)
    requires Ideal(net) && n in net && net.Keys != {n}
    ensures Ideal(Stabilized(net, n, size)) && Stabilized(net, n, size).Keys == net.Keys
  {
    var net' := Stabilized(net, n, size);
    IdealStep(net, n, size, n);
    forall m | m in net' ensures IdealNode(net', m) {
      IdealStep(net, n, size, m);
      assert IdealNode(net, m);
    }
  }

  /** Putting n's successor in front of the successor's exact entries makes one more exact entry. */
  lemma PrependedPrefix(members: set<Id>, n: Id, list: seq<Id>, k: nat, size: nat)
    requires members != {} && ExactPrefix(members, Next(members, n), list, k)
    ensures ExactPrefix(members, n, Prepended(Next(members, n), list, size), Min(k + 1, size))
  {
    var s := Next(members, n);
    var r := Prepended(s, list, size);
    var j := Min(k + 1, size);
    forall i | 0 <= i < j ensures r[i] == NextN(members, n, i + 1) {
      if i == 0 {
        assert NextN(members, n, 1) == Next(members, NextN(members, n, 0));
      } else {
        assert r[i] == list[..k][i - 1];
        NextNShift(members, n, i);
      }
    }
  }

  lemma ShorterPrefix(net: Net, n: Id, k: nat, j: nat, size: nat)
    requires n in net && j <= k && PrefixAt(net, n, k, size)
    ensures PrefixAt(net, n, j, size)
  {
  }

  /** Sweeping the nodes in any order: visited nodes gain an entry and none loses one. */
  lemma {:induction false} SweepExtends(net: Net, order: seq<Id>, done: set<Id>, k: nat, size: nat)
    requires Ideal(net) && |net.Keys| >= 2
    requires AllPrefix(net, Min(k, size), size)
    requires forall n {:trigger PrefixAt(net, n, Min(k + 1, size), size)} :: n in net && n in done ==>
               PrefixAt(net, n, Min(k + 1, size), size)
    ensures var end := Run(net, Round(order), size);
            && Ideal(end)
            && forall n {:trigger PrefixAt(end, n, Min(k + 1, size), size)} ::
                 n in end && (n in done || n in order) ==> PrefixAt(end, n, Min(k + 1, size), size)
    decreases |order|
  {
    if order != [] {
      var x := order[0];
      assert Round(order)[0] == Stabilize(x) && Round(order)[1..] == Round(order[1..]);
      if x !in net {
        SweepExtends(net, order[1..], done, k, size);
      } else {
        assert net.Keys != {x};
        IdealPersists(net, x, size);
        var net1 := Stabilized(net, x, size);
        VisitExtends(net, x, k, size);
        forall n | n in net1 ensures PrefixAt(net1, n, Min(k, size), size) {
          assert PrefixAt(net, n, Min(k, size), size);
          IdealStep(net, x, size, n);
          if n == x { ShorterPrefix(net1, n, Min(k + 1, size), Min(k, size), size); }
        }
        forall n | n in net1 && n in done + {x} ensures PrefixAt(net1, n, Min(k + 1, size), size) {
          if n != x {
            assert PrefixAt(net, n, Min(k + 1, size), size);
            IdealStep(net, x, size, n);
          }
        }
        SweepExtends(net1, order[1..], done + {x}, k, size);
      }
    }
  }

  lemma VisitExtends(net: Net, x: Id, k: nat, size: nat)
    requires Ideal(net) && x in net && net.Keys != {x}
    requires AllPrefix(net, Min(k, size), size)
    ensures x in Stabilized(net, x, size)
    ensures PrefixAt(Stabilized(net, x, size), x, Min(k + 1, size), size)
  {
    IdealStep(net, x, size, x);
    assert IdealNode(net, x);
    var s := Next(net.Keys, x);
    assert PrefixAt(net, s, Min(k, size), size);
    PrependedPrefix(net.Keys, x, net[s].list, Min(k, size), size);
    assert Min(Min(k, size) + 1, size) == Min(k + 1, size);
  }

  lemma RoundExtends(net: Net, order: seq<Id>, k: nat, size: nat)
    requires Ideal(net) && |net.Keys| >= 2 && net.Keys <= (set n | n in order)
    requires AllPrefix(net, Min(k, size), size)
    ensures Ideal(Run(net, Round(order), size)) && AllPrefix(Run(net, Round(order), size), Min(k + 1, size), size)
  {
    SweepExtends(net, order, {}, k, size);
    var end := Run(net, Round(order), size);
    forall n | n in end ensures PrefixAt(end, n, Min(k + 1, size), size) { assert n in net.Keys; }
  }

  lemma CoversTail(rounds: seq<seq<Id>>, members: set<Id>)
    requires rounds != [] && Covers(rounds, members)
    ensures Covers(rounds[1..], members) && members <= (set n | n in rounds[0])
  {
  }

  lemma {:induction false} RoundsExtend(net: Net, rounds: seq<seq<Id>>, k: nat, size: nat)
    requires Ideal(net) && |net.Keys| >= 2
    requires Covers(rounds, net.Keys)
    requires AllPrefix(net, Min(k, size), size)
    ensures Ideal(Rounds(net, rounds, size))
    ensures AllPrefix(Rounds(net, rounds, size), Min(k + |rounds|, size), size)
    decreases |rounds|
  {
    if rounds != [] {
      CoversTail(rounds, net.Keys);
      RoundExtends(net, rounds[0], k, size);
      RoundsExtend(Run(net, Round(rounds[0]), size), rounds[1..], k + 1, size);
    }
  }

  /** After r rounds, each in any order, the first min(r, size) entries of every list are exact,
      whatever the lists held before. */
  lemma ListsBecomeExact(net: Net, rounds: seq<seq<Id>>, size: nat, n: Id)
    requires Ideal(net) && |net.Keys| >= 2 && n in net
    requires Covers(rounds, net.Keys)
    ensures var end := Rounds(net, rounds, size);
            Ideal(end) && ExactPrefix(net.Keys, n, end[n].list, Min(|rounds|, size))
  {
    assert AllPrefix(net, Min(0, size), size);
    RoundsExtend(net, rounds, 0, size);
    var end := Rounds(net, rounds, size);
    assert PrefixAt(end, n, Min(|rounds|, size), size);
  }

  /** As many rounds as lists are long leave them exactly what recovery from failures relies on. */
  lemma RoundsFillLists(net: Net, rounds: seq<seq<Id>>, size: nat)
    requires Ideal(net) && |net.Keys| >= 2 && 1 <= size <= |rounds|
    requires Covers(rounds, net.Keys)
    ensures Ideal(Rounds(net, rounds, size)) && ExactLists(Rounds(net, rounds, size), size)
  {
    assert AllPrefix(net, Min(0, size), size);
    RoundsExtend(net, rounds, 0, size);
    var end := Rounds(net, rounds, size);
    assert Min(0 + |rounds|, size) == size;
    forall n | n in end ensures |end[n].list| == size && ExactList(end.Keys, n, end[n].list) {
      assert PrefixAt(end, n, size, size);
      assert end[n].list[..size] == end[n].list;
    }
    assert end.Keys == net.Keys && end != map[];
  }
}
