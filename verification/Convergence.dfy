/** Growth without failures: however joins and stabilizations interleave, every change of a pointer
    brings it closer, so the pointers settle, and they settle as the ideal ring. */
module Convergence {
  import opened Ids
  import opened Options
  import opened Ring
  import opened Network
  import opened Lookup
  import opened Routes
  import opened Sums

  /** All of a node's pointers are live and its list starts with its successor. */
  ghost predicate WiredNode(net: Net, n: Id)
    requires n in net
  {
    && net[n].successor in net
    && (net[n].predecessor.Some? ==> net[n].predecessor.value in net)
    && net[n].list != [] && net[n].list[0] == net[n].successor
    && LiveTable(net, n)
  }

  ghost predicate Wired(net: Net) {
    net != map[] && forall n {:trigger WiredNode(net, n)} :: n in net ==> WiredNode(net, n)
  }

  predicate SamePointers(a: Net, b: Net) {
    a.Keys == b.Keys &&
    forall n :: n in a ==> a[n].successor == b[n].successor && a[n].predecessor == b[n].predecessor
  }

  // ---------------------------------------------------------------- one step

  /** The successor n settles on while it stabilizes, before any reconnection. */
  function Chosen(net: Net, n: Id): Id
    requires n in net && net[n].successor in net
  {
    var s := net[n].successor;
    if AdoptsPredecessorOf(net, n, s) then net[s].predecessor.value else s
  }

  /** What one stabilization at n does to the pointers and list of any node m. */
  lemma StepEffect(net: Net, n: Id, size: nat, m: Id)
    requires Wired(net) && n in net && m in net
    ensures net[n].successor in net && Chosen(net, n) in net
    ensures Stabilized(net, n, size).Keys == net.Keys
    ensures Chosen(net, n) == n ==> net[n].successor == n
    ensures m != n ==> Stabilized(net, n, size)[m].successor == net[m].successor
                       && Stabilized(net, n, size)[m].list == net[m].list
    ensures Chosen(net, n) != n ==> Stabilized(net, n, size)[n].successor == Chosen(net, n)
    ensures Chosen(net, n) == n ==>
              && Stabilized(net, n, size)[n].successor == Reconnected(net, n)[n].successor
              && Stabilized(net, n, size)[n].list == Reconnected(net, n)[n].list
    ensures Stabilized(net, n, size)[m].fingers == net[m].fingers
    ensures Stabilized(net, n, size)[m].predecessor ==
              if m == Chosen(net, n) && Accepts(net, Chosen(net, n), n) then Some(n) else net[m].predecessor
  {
    assert WiredNode(net, n);
    var s1 := Chosen(net, n);
    var base := net[n := net[n].(successor := s1)];
    var net1 := Notified(base, s1, n);
    assert base.Keys == net.Keys && net1.Keys == net.Keys;
    assert Accepts(base, s1, n) == Accepts(net, s1, n);
    assert net1[n].list == net[n].list;
  }

  lemma StepKeepsWired(net: Net, n: Id, size: nat)
    requires Wired(net) && n in net
    ensures Wired(Stabilized(net, n, size))
  {
    var net' := Stabilized(net, n, size);
    forall m | m in net' ensures WiredNode(net', m) {
      StepEffect(net, n, size, m);
      assert WiredNode(net, m) && WiredNode(net, n);
      assert LiveTable(net, m);
      if m == n {
        var s1 := Chosen(net, n);
        assert WiredNode(net, s1) && LiveTable(net, s1);
      }
    }
  }

  /** A pointer of m either stays or moves strictly closer. */
  lemma StepShrinks(net: Net, n: Id, size: nat, m: Id)
    requires Wired(net) && n in net && m in net
    ensures var net' := Stabilized(net, n, size);
            && net'.Keys == net.Keys
            && (net'[m].successor != net[m].successor ==>
                  Gap(m, net'[m].successor) < Gap(m, net[m].successor))
            && (net'[m].predecessor != net[m].predecessor ==>
                  && net'[m].predecessor.Some?
                  && (net[m].predecessor.Some? ==>
                        Gap(net'[m].predecessor.value, m) < Gap(net[m].predecessor.value, m)))
  {
    StepEffect(net, n, size, m);
    assert WiredNode(net, m) && WiredNode(net, n);
  }

  // ---------------------------------------------------------------- the measure

  /** The members on the arc (n, s]. */
  ghost function UpTo(members: set<Id>, n: Id, s: Id): set<Id> {
    set z | z in members && Gap(n, z) <= Gap(n, s)
  }

  /** The members on the arc [p, n). */
  ghost function From(members: set<Id>, p: Id, n: Id): set<Id> {
    set z | z in members && Gap(z, n) <= Gap(p, n)
  }

  ghost function SuccessorRank(net: Net, n: Id): nat
    requires n in net
  {
    |UpTo(net.Keys, n, net[n].successor)|
  }

  ghost function PredecessorRank(net: Net, n: Id): nat
    requires n in net
  {
    match net[n].predecessor
    case None => |net.Keys| + 1
    case Some(p) => |From(net.Keys, p, n)|
  }

  /** For every node, how many members its two pointers still leave in between. */
  ghost function Rank(net: Net, n: Id): int
    requires n in net
  {
    SuccessorRank(net, n) + PredecessorRank(net, n)
  }

  ghost function Ranks(net: Net): map<Id, int> {
    map n | n in net :: Rank(net, n)
  }

  ghost function Measure(net: Net): int {
    Sum(Ranks(net))
  }

  lemma SuccessorRankStep(net: Net, n: Id, size: nat, m: Id)
    requires Wired(net) && n in net && m in net
    ensures Stabilized(net, n, size).Keys == net.Keys
    ensures SuccessorRank(Stabilized(net, n, size), m) <= SuccessorRank(net, m)
    ensures Stabilized(net, n, size)[m].successor != net[m].successor ==>
              SuccessorRank(Stabilized(net, n, size), m) < SuccessorRank(net, m)
  {
    StepShrinks(net, n, size, m);
    var net' := Stabilized(net, n, size);
    if net'[m].successor != net[m].successor {
      assert WiredNode(net, m);
      SmallerSubset(UpTo(net.Keys, m, net'[m].successor), UpTo(net.Keys, m, net[m].successor), net[m].successor);
    }
  }

  lemma PredecessorRankStep(net: Net, n: Id, size: nat, m: Id)
    requires Wired(net) && n in net && m in net
    ensures Stabilized(net, n, size).Keys == net.Keys
    ensures PredecessorRank(Stabilized(net, n, size), m) <= PredecessorRank(net, m)
    ensures Stabilized(net, n, size)[m].predecessor != net[m].predecessor ==>
              PredecessorRank(Stabilized(net, n, size), m) < PredecessorRank(net, m)
  {
    StepShrinks(net, n, size, m);
    var net' := Stabilized(net, n, size);
    if net'[m].predecessor != net[m].predecessor {
      var q := net'[m].predecessor.value;
      if net[m].predecessor.Some? {
        var p := net[m].predecessor.value;
        assert WiredNode(net, m);
        SmallerSubset(From(net.Keys, q, m), From(net.Keys, p, m), p);
      } else {
        SubsetSize(From(net.Keys, q, m), net.Keys);
      }
    }
  }

  lemma RankStep(net: Net, n: Id, size: nat, m: Id)
    requires Wired(net) && n in net && m in net
    ensures var net' := Stabilized(net, n, size);
            && net'.Keys == net.Keys
            && Rank(net', m) <= Rank(net, m)
            && (net'[m].successor != net[m].successor || net'[m].predecessor != net[m].predecessor ==>
                  Rank(net', m) < Rank(net, m))
  {
    SuccessorRankStep(net, n, size, m);
    PredecessorRankStep(net, n, size, m);
  }

  lemma CompareMeasures(net: Net, net': Net, changed: Id)
    requires net'.Keys == net.Keys && changed in net
    requires forall m {:trigger Rank(net', m)} :: m in net ==> Rank(net', m) <= Rank(net, m)
    ensures Measure(net') <= Measure(net)
    ensures Rank(net', changed) < Rank(net, changed) ==> Measure(net') < Measure(net)
  {
    var a, b := Ranks(net'), Ranks(net);
    assert forall m :: m in a ==> a[m] == Rank(net', m) && b[m] == Rank(net, m);
    SumMono(a, b);
    assert changed in a;
  }

  /** Every stabilization that changes a pointer strictly lowers the measure. */
  lemma ChangeLowersMeasure(net: Net, n: Id, size: nat)
    requires Wired(net) && n in net
    ensures Measure(Stabilized(net, n, size)) <= Measure(net)
    ensures !SamePointers(net, Stabilized(net, n, size)) ==> Measure(Stabilized(net, n, size)) < Measure(net)
  {
    var net' := Stabilized(net, n, size);
    RankStep(net, n, size, n);
    var changed :| changed in net && (!SamePointers(net, net') ==>
      net'[changed].successor != net[changed].successor || net'[changed].predecessor != net[changed].predecessor);
    forall m | m in net ensures Rank(net', m) <= Rank(net, m) {
      RankStep(net, n, size, m);
    }
    RankStep(net, n, size, changed);
    CompareMeasures(net, net', changed);
  }

  lemma RankBound(net: Net, n: Id)
    requires n in net
    ensures 0 <= Rank(net, n) <= 2 * |net.Keys| + 1
  {
    SubsetSize(UpTo(net.Keys, n, net[n].successor), net.Keys);
    if net[n].predecessor.Some? {
      SubsetSize(From(net.Keys, net[n].predecessor.value, n), net.Keys);
    }
  }

  /** The measure of N nodes is at most N * (2N + 1). */
  lemma MeasureBound(net: Net)
    ensures 0 <= Measure(net) <= |net.Keys| * (2 * |net.Keys| + 1)
  {
    var w := Ranks(net);
    var hi := 2 * |net.Keys| + 1;
    forall n | n in w ensures 0 <= w[n] <= hi {
      RankBound(net, n);
    }
    SumBound(w, hi);
    assert w.Keys == net.Keys && |w| == |w.Keys|;
  }

  /** How many steps of a run change some pointer. */
  ghost function PointerChanges(net: Net, events: seq<Event>, size: nat): nat
    decreases |events|
  {
    if events == [] then 0
    else
      var net' := Step(net, events[0], size);
      (if SamePointers(net, net') then 0 else 1) + PointerChanges(net', events[1..], size)
  }

  /** Over any run, each step that changes a pointer uses up some of the measure. */
  lemma {:induction false} ChangesAreBounded(net: Net, events: seq<Event>, size: nat)
    requires Wired(net)
    ensures PointerChanges(net, events, size) + Measure(Run(net, events, size)) <= Measure(net)
    ensures PointerChanges(net, events, size) <= |net.Keys| * (2 * |net.Keys| + 1)
    decreases |events|
  {
    MeasureBound(net);
    if events != [] {
      var net' := Step(net, events[0], size);
      EventLowersMeasure(net, events[0], size);
      ChangesAreBounded(net', events[1..], size);
      MeasureBound(Run(net', events[1..], size));
    }
  }

  lemma EventLowersMeasure(net: Net, e: Event, size: nat)
    requires Wired(net)
    ensures var net' := Step(net, e, size);
            Wired(net') && Measure(net') + (if SamePointers(net, net') then 0 else 1) <= Measure(net)
  {
    if e.node in net {
      assert WiredNode(net, e.node);
      if e.Stabilize? {
        StepKeepsWired(net, e.node, size);
        ChangeLowersMeasure(net, e.node, size);
      }
    }
  }

  // ---------------------------------------------------------------- settled networks

  /** Stabilizing n would change no pointer anywhere. */
  ghost predicate Quiet(net: Net, n: Id, size: nat)
    requires n in net
  {
    SamePointers(net, Stabilized(net, n, size))
  }

  ghost predicate Settled(net: Net, size: nat) {
    forall n {:trigger Quiet(net, n, size)} :: n in net ==> Quiet(net, n, size)
  }

  ghost predicate Mutual(net: Net, n: Id)
    requires n in net
  {
    net[n].successor in net && net[net[n].successor].predecessor == Some(n)
  }

  /** In a settled network every node is its successor's predecessor. */
  lemma SettledIsMutual(net: Net, n: Id, size: nat)
    requires Wired(net) && Settled(net, size) && n in net
    ensures Mutual(net, n)
  {
    assert WiredNode(net, n) && Quiet(net, n, size);
    var s := net[n].successor;
    StepEffect(net, n, size, n);
    StepEffect(net, n, size, s);
    StepEffect(net, n, size, Chosen(net, n));
  }

  /** No node's successor arc passes over b. */
  ghost predicate Anchored(net: Net, b: Id) {
    b in net && forall n {:trigger Gap(n, net[n].successor)} :: n in net ==>
      Gap(n, net[n].successor) <= Gap(n, b)
  }

  /** If one member is never passed over, mutual pointers leave no room for any other order:
      going back from b, each node's successor is already taken unless it is the next member. */
  lemma {:induction false} MutualIsSorted(net: Net, b: Id, n: Id)
    requires Anchored(net, b) && n in net
    requires forall m {:trigger Mutual(net, m)} :: m in net ==> Mutual(net, m)
    ensures net[n].successor == Next(net.Keys, n)
    decreases Gap(n, b)
  {
    var y, s := Next(net.Keys, n), net[n].successor;
    assert Mutual(net, n);
    assert Gap(n, y) <= Gap(n, s) <= Gap(n, b);
    if y != s {
      var p := Prev(net.Keys, s);
      assert Gap(p, s) <= Gap(y, s);
      assert Gap(p, b) < Gap(n, b);
      assert Mutual(net, p);
      PrevOfNext(net.Keys, s);
      MutualIsSorted(net, b, p);
    }
  }

  /** A settled network in which some member is never passed over is the ideal ring. */
  lemma SettledIsIdeal(net: Net, b: Id, size: nat)
    requires Wired(net) && Settled(net, size) && Anchored(net, b)
    ensures Ideal(net)
  {
    forall m | m in net ensures Mutual(net, m) {
      SettledIsMutual(net, m, size);
    }
    forall n | n in net ensures IdealNode(net, n) {
      assert WiredNode(net, n);
      MutualIsSorted(net, b, n);
      var p := Prev(net.Keys, n);
      MutualIsSorted(net, b, p);
      PrevOfNext(net.Keys, n);
      assert Mutual(net, p);
    }
  }

  lemma StepKeepsAnchor(net: Net, n: Id, size: nat, b: Id)
    requires Wired(net) && n in net && Anchored(net, b)
    ensures Anchored(Stabilized(net, n, size), b)
  {
    var net' := Stabilized(net, n, size);
    StepEffect(net, n, size, n);
    forall m | m in net' ensures Gap(m, net'[m].successor) <= Gap(m, b) {
      StepShrinks(net, n, size, m);
    }
  }

  // ---------------------------------------------------------------- rounds

  lemma QuietPersistsAt(net: Net, m: Id, n: Id, size: nat, x: Id)
    requires Wired(net) && m in net && n in net && x in net
    requires Quiet(net, m, size) && Quiet(net, n, size)
    ensures var net' := Stabilized(net, m, size);
            && net'.Keys == net.Keys && Stabilized(net', n, size).Keys == net.Keys
            && Stabilized(net', n, size)[x].successor == net'[x].successor
            && Stabilized(net', n, size)[x].predecessor == net'[x].predecessor
  {
    var net' := Stabilized(net, m, size);
    StepKeepsWired(net, m, size);
    StepEffect(net, m, size, n);
    StepEffect(net, n, size, x);
    StepEffect(net', n, size, x);
    assert Chosen(net', n) == Chosen(net, n);
    assert net'[x].successor == net[x].successor && net'[x].predecessor == net[x].predecessor;
    assert net'[n].successor == net[n].successor;
    if x == n && Chosen(net, n) == n {
      assert net'[n].list == net[n].list;
    }
  }

  /** A quiet step leaves every quiet node quiet. */
  lemma QuietPersists(net: Net, m: Id, n: Id, size: nat)
    requires Wired(net) && m in net && n in net
    requires Quiet(net, m, size) && Quiet(net, n, size)
    ensures n in Stabilized(net, m, size) && Quiet(Stabilized(net, m, size), n, size)
  {
    forall x | x in net
      ensures var net' := Stabilized(net, m, size);
              && net'.Keys == net.Keys && Stabilized(net', n, size).Keys == net.Keys
              && Stabilized(net', n, size)[x].successor == net'[x].successor
              && Stabilized(net', n, size)[x].predecessor == net'[x].predecessor
    {
      QuietPersistsAt(net, m, n, size, x);
    }
  }

  ghost predicate QuietIn(net: Net, s: set<Id>, size: nat) {
    forall n {:trigger Quiet(net, n, size)} :: n in net && n in s ==> Quiet(net, n, size)
  }

  /** Either the measure has dropped, or no pointer moved and every node of s is quiet. */
  ghost predicate Swept(net: Net, end: Net, s: set<Id>, size: nat) {
    && Wired(end) && end.Keys == net.Keys
    && (|| Measure(end) < Measure(net)
        || (Measure(end) <= Measure(net) && SamePointers(net, end) && QuietIn(end, s, size)))
  }

  lemma QuietVisit(net: Net, x: Id, quiet: set<Id>, size: nat)
    requires Wired(net) && x in net && Quiet(net, x, size) && QuietIn(net, quiet, size)
    ensures QuietIn(Stabilized(net, x, size), quiet + {x}, size)
  {
    StepEffect(net, x, size, x);
    var net1 := Stabilized(net, x, size);
    forall n | n in net1 && n in quiet + {x} ensures Quiet(net1, n, size) {
      assert n in quiet ==> Quiet(net, n, size);
      QuietPersists(net, x, n, size);
    }
  }

  lemma SweepVisit(net: Net, x: Id, quiet: set<Id>, net1: Net, size: nat)
    requires Wired(net) && x in net && QuietIn(net, quiet, size) && net1 == Stabilized(net, x, size)
    ensures Swept(net, net1, quiet + {x}, size)
    ensures Quiet(net, x, size) ==> QuietIn(net1, quiet + {x}, size)
  {
    StepKeepsWired(net, x, size);
    StepEffect(net, x, size, x);
    ChangeLowersMeasure(net, x, size);
    if Quiet(net, x, size) { QuietVisit(net, x, quiet, size); }
  }

  lemma SweptOn(net: Net, net1: Net, end: Net, s: set<Id>, t: set<Id>, size: nat)
    requires Swept(net, net1, s, size) && Swept(net1, end, t, size)
    ensures Swept(net, end, t, size)
  {
  }

  function Visited(order: seq<Id>): set<Id> {
    set n | n in order
  }

  lemma VisitedFirst(quiet: set<Id>, order: seq<Id>)
    requires order != []
    ensures quiet + {order[0]} + Visited(order[1..]) == quiet + Visited(order)
  {
    assert order == [order[0]] + order[1..];
  }

  /** After a sweep either the measure has dropped, or no pointer moved and every visited node,
      like every node that was quiet before, is quiet. */
  lemma {:induction false} Sweep(net: Net, order: seq<Id>, quiet: set<Id>, size: nat)
    requires Wired(net) && QuietIn(net, quiet, size)
    ensures Swept(net, Run(net, Round(order), size), quiet + Visited(order), size)
    decreases |order|
  {
    if order == [] {
      assert quiet + Visited(order) == quiet;
    } else {
      var x, rest := order[0], order[1..];
      assert Round(order)[0] == Stabilize(x) && Round(order)[1..] == Round(rest);
      var end := Run(net, Round(order), size);
      if x !in net {
        Sweep(net, rest, quiet, size);
        SweptBeside(net, end, quiet + Visited(rest), quiet + Visited(order), x, size);
      } else {
        var net1 := Stabilized(net, x, size);
        SweepVisit(net, x, quiet, net1, size);
        VisitedFirst(quiet, order);
        if QuietIn(net1, quiet + {x}, size) {
          Sweep(net1, rest, quiet + {x}, size);
          SweptOn(net, net1, end, quiet + {x}, quiet + Visited(order), size);
        } else {
          Sweep(net1, rest, {}, size);
        }
      }
    }
  }

  /** A visit to a stranger adds nothing. */
  lemma SweptBeside(net: Net, end: Net, s: set<Id>, t: set<Id>, x: Id, size: nat)
    requires Swept(net, end, s, size) && x !in net && t <= s + {x}
    ensures Swept(net, end, t, size)
  {
  }

  /** A settled network stays settled, with the same pointers. */
  lemma {:induction false} SettledStays(net: Net, order: seq<Id>, size: nat)
    requires Wired(net) && Settled(net, size)
    ensures Wired(Run(net, Round(order), size)) && Settled(Run(net, Round(order), size), size)
    decreases |order|
  {
    if order != [] {
      var x := order[0];
      assert Round(order)[0] == Stabilize(x) && Round(order)[1..] == Round(order[1..]);
      if x in net {
        assert Quiet(net, x, size) && QuietIn(net, net.Keys, size);
        var net1 := Stabilized(net, x, size);
        SweepVisit(net, x, net.Keys, net1, size);
        assert Settled(net1, size) by { assert QuietIn(net1, net.Keys + {x}, size); }
      }
      SettledStays(Step(net, Stabilize(x), size), order[1..], size);
    }
  }

  /** More rounds than the measure allows changes leave the network settled. */
  lemma {:induction false} RoundsSettle(net: Net, rounds: seq<seq<Id>>, size: nat)
    requires Wired(net) && Covers(rounds, net.Keys)
    requires Settled(net, size) || |rounds| > Measure(net)
    ensures Wired(Rounds(net, rounds, size)) && Settled(Rounds(net, rounds, size), size)
    decreases |rounds|
  {
    if rounds == [] {
      MeasureBound(net);
    } else {
      var end := Run(net, Round(rounds[0]), size);
      if Settled(net, size) {
        SettledStays(net, rounds[0], size);
      } else {
        Sweep(net, rounds[0], {}, size);
        assert net.Keys <= Visited(rounds[0]);
        assert Measure(end) < Measure(net) || Settled(end, size);
      }
      assert Covers(rounds[1..], net.Keys);
      RoundsSettle(end, rounds[1..], size);
    }
  }

  lemma {:induction false} SweepKeepsAnchor(net: Net, order: seq<Id>, size: nat, b: Id)
    requires Wired(net) && Anchored(net, b)
    ensures Wired(Run(net, Round(order), size)) && Anchored(Run(net, Round(order), size), b)
    decreases |order|
  {
    if order != [] {
      assert Round(order)[0] == Stabilize(order[0]) && Round(order)[1..] == Round(order[1..]);
      if order[0] in net {
        StepKeepsWired(net, order[0], size);
        StepKeepsAnchor(net, order[0], size, b);
      }
      SweepKeepsAnchor(Step(net, Stabilize(order[0]), size), order[1..], size, b);
    }
  }

  lemma {:induction false} RoundsKeepAnchor(net: Net, rounds: seq<seq<Id>>, size: nat, b: Id)
    requires Wired(net) && Anchored(net, b)
    ensures Anchored(Rounds(net, rounds, size), b)
    decreases |rounds|
  {
    if rounds != [] {
      SweepKeepsAnchor(net, rounds[0], size, b);
      RoundsKeepAnchor(Run(net, Round(rounds[0]), size), rounds[1..], size, b);
    }
  }

  /** After more than N * (2N + 1) rounds, each in any order, N nodes form the ideal ring. */
  lemma RoundsConverge(net: Net, rounds: seq<seq<Id>>, size: nat, b: Id)
    requires Wired(net) && Anchored(net, b) && Covers(rounds, net.Keys)
    requires |rounds| > |net.Keys| * (2 * |net.Keys| + 1)
    ensures Ideal(Rounds(net, rounds, size))
  {
    MeasureBound(net);
    RoundsSettle(net, rounds, size);
    RoundsKeepAnchor(net, rounds, size, b);
    SettledIsIdeal(Rounds(net, rounds, size), b, size);
  }

  // ---------------------------------------------------------------- growth

  datatype Growth = Join(node: Id, via: Id) | Tick(node: Id)

  /** A new node takes the answer of a live node's lookup as its successor. */
  function Grown(net: Net, g: Growth, size: nat): (net': Net) {
    match g
    case Join(x, via) =>
      if via in net && x !in net then
        var a := Find(net, via, x);
        a.net[x := FreshNode(x, a.node)]
      else net
    case Tick(n) => Step(net, Stabilize(n), size)
  }

  function GrownBy(net: Net, history: seq<Growth>, size: nat): (net': Net)
    decreases |history|
  {
    if history == [] then net else GrownBy(Grown(net, history[0], size), history[1..], size)
  }

  /** The way of every join's lookup arrives within the hop limit. */
  predicate AllReach(net: Net, history: seq<Growth>, size: nat)
    decreases |history|
  {
    history == [] ||
    (&& (history[0].Join? && history[0].via in net ==> Reaches(net, history[0].via, history[0].node))
     && AllReach(Grown(net, history[0], size), history[1..], size))
  }

  function Joins(history: seq<Growth>): nat {
    if history == [] then 0 else (if history[0].Join? then 1 else 0) + Joins(history[1..])
  }

  lemma WiredIsLive(net: Net)
    requires Wired(net)
    ensures Linked(net) && LiveTables(net)
  {
    forall n | n in net ensures LinkedNode(net, n) && LiveTable(net, n) { assert WiredNode(net, n); }
  }

  lemma WiredHop(net: Net, c: Id, id: Id)
    requires Wired(net) && c in net && !BetweenRightInclusive(id, c, net[c].successor)
    ensures ClosestPreceding(net[c], c, id) in net && ClosestPreceding(net[c], c, id) != c
  {
    WiredIsLive(net);
    HopIsCloser(net, c, id);
    ClosestInArc(net[c], c, id);
    assert LiveTable(net, c);
  }

  /** A search that does not run out of hops ends on the arc that holds the position. */
  lemma {:induction false} SearchHitsArc(net: Net, n: Id, id: Id, candidate: Id, hops: nat) returns (c: Id)
    requires Wired(net) && n in net && candidate in net
    ensures Search(net, n, id, candidate, hops).net == net
    ensures !Search(net, n, id, candidate, hops).capped ==>
              && c in net && Search(net, n, id, candidate, hops).node == net[c].successor
              && BetweenRightInclusive(id, c, net[c].successor)
    decreases hops
  {
    c := candidate;
    if hops > 0 && !BetweenRightInclusive(id, candidate, net[candidate].successor) {
      WiredHop(net, candidate, id);
      c := SearchHitsArc(net, n, id, ClosestPreceding(net[candidate], candidate, id), hops - 1);
    }
  }

  lemma FindHitsArc(net: Net, n: Id, id: Id) returns (c: Id)
    requires Wired(net) && n in net
    ensures Find(net, n, id).net == net
    ensures !Find(net, n, id).capped ==>
              && c in net && Find(net, n, id).node == net[c].successor
              && BetweenRightInclusive(id, c, net[c].successor)
  {
    c := n;
    if !BetweenRightInclusive(id, n, net[n].successor) {
      WiredHop(net, n, id);
      c := SearchHitsArc(net, n, id, ClosestPreceding(net[n], n, id), MAX_LOOKUP_HOPS);
    }
  }

  /** Entering on an existing arc adds no arc over b. */
  lemma JoinKeepsAnchor(net: Net, x: Id, via: Id, b: Id)
    requires Wired(net) && Anchored(net, b) && via in net && x !in net
    requires Reaches(net, via, x)
    ensures var net' := Find(net, via, x).net[x := FreshNode(x, Find(net, via, x).node)];
            Wired(net') && Anchored(net', b) && net'.Keys == net.Keys + {x}
  {
    LookupOutcome(net, via, x);
    var c := FindHitsArc(net, via, x);
    var s := net[c].successor;
    assert WiredNode(net, c);
    var net' := net[x := FreshNode(x, s)];
    forall m | m in net' ensures WiredNode(net', m) {
      if m != x { assert WiredNode(net, m) && LiveTable(net, m); }
    }
    assert Gap(c, x) < Gap(c, s) <= Gap(c, b);
    forall m | m in net' ensures Gap(m, net'[m].successor) <= Gap(m, b) {
      if m != x { assert Gap(m, net[m].successor) <= Gap(m, b); }
    }
  }

  lemma GrowthStep(net: Net, g: Growth, size: nat, b: Id)
    requires Wired(net) && Anchored(net, b)
    requires g.Join? && g.via in net ==> Reaches(net, g.via, g.node)
    ensures var net' := Grown(net, g, size);
            && Wired(net') && Anchored(net', b)
            && net.Keys <= net'.Keys && net'.Keys <= net.Keys + if g.Join? then {g.node} else {}
  {
    match g {
      case Join(x, via) =>
        if via in net && x !in net { JoinKeepsAnchor(net, x, via, b); }
      case Tick(n) =>
        if n in net { StepKeepsWired(net, n, size); StepKeepsAnchor(net, n, size, b); }
    }
  }

  lemma {:induction false} GrowthKeepsAnchor(net: Net, history: seq<Growth>, size: nat, b: Id)
    requires Wired(net) && Anchored(net, b) && AllReach(net, history, size)
    ensures var net' := GrownBy(net, history, size);
            Wired(net') && Anchored(net', b) && net.Keys <= net'.Keys
    decreases |history|
  {
    if history != [] {
      GrowthStep(net, history[0], size, b);
      GrowthKeepsAnchor(Grown(net, history[0], size), history[1..], size, b);
    }
  }

  /** Among up to 161 nodes without failures every way is short enough. */
  lemma {:induction false} FewJoinsReach(net: Net, history: seq<Growth>, size: nat, b: Id)
    requires Wired(net) && Anchored(net, b) && |net.Keys| + Joins(history) <= MAX_LOOKUP_HOPS + 1
    ensures AllReach(net, history, size)
    decreases |history|
  {
    if history != [] {
      var g := history[0];
      if g.Join? && g.via in net {
        WiredIsLive(net);
        LiveTablesArrive(net, g.via, g.node);
        LiveNeverCapped(net, g.via, g.node);
        LookupOutcome(net, g.via, g.node);
      }
      GrowthStep(net, g, size, b);
      var net' := Grown(net, g, size);
      SubsetSize(net'.Keys, net.Keys + if g.Join? then {g.node} else {});
      FewJoinsReach(net', history[1..], size, b);
    }
  }

  /** A ring of one node. */
  predicate Starts(net: Net, b: Id) {
    net == map[b := FreshNode(b, b)]
  }

  lemma StartIsWired(start: Net, b: Id)
    requires Starts(start, b)
    ensures Wired(start) && Anchored(start, b) && start.Keys == {b}
  {
    assert WiredNode(start, b);
  }

  /** A ring started by one node, grown by any history of joins and stabilizations in any order
      without failures, is the ideal ring once enough rounds follow the last join, provided the ways
      of the joins' lookups stay within the hop limit. */
  lemma ReachingGrowthConverges(start: Net, b: Id, history: seq<Growth>, net: Net, rounds: seq<seq<Id>>, size: nat)
    requires Starts(start, b) && AllReach(start, history, size) && net == GrownBy(start, history, size)
    requires Covers(rounds, net.Keys) && |rounds| > |net.Keys| * (2 * |net.Keys| + 1)
    ensures Ideal(Rounds(net, rounds, size))
  {
    assert Wired(net) && Anchored(net, b) by {
      StartIsWired(start, b);
      GrowthKeepsAnchor(start, history, size, b);
    }
    RoundsConverge(net, rounds, size, b);
  }

  /** Histories of up to 160 joins always do. */
  lemma GrowthConverges(start: Net, b: Id, history: seq<Growth>, net: Net, rounds: seq<seq<Id>>, size: nat)
    requires Starts(start, b) && Joins(history) <= MAX_LOOKUP_HOPS && net == GrownBy(start, history, size)
    requires Covers(rounds, net.Keys) && |rounds| > |net.Keys| * (2 * |net.Keys| + 1)
    ensures Ideal(Rounds(net, rounds, size))
  {
    StartIsWired(start, b);
    FewJoinsReach(start, history, size, b);
    ReachingGrowthConverges(start, b, history, net, rounds, size);
  }

  // ---------------------------------------------------------------- one turn

  /** Total length of the ideal arcs that start at the nodes of s. */
  ghost function ArcSum(members: set<Id>, s: set<Id>): int
    requires members != {}
    decreases |s|
  {
    if s == {} then 0
    else
      var x :| x in s;
      Gap(x, Next(members, x)) + ArcSum(members, s - {x})
  }

  /** Total length of the successor arcs that start at the nodes of s. */
  ghost function SuccessorSum(net: Net, s: set<Id>): int
    requires s <= net.Keys
    decreases |s|
  {
    if s == {} then 0
    else
      var x :| x in s;
      Gap(x, net[x].successor) + SuccessorSum(net, s - {x})
  }

  lemma {:induction false} ArcRemove(members: set<Id>, s: set<Id>, x: Id)
    requires members != {} && x in s
    ensures ArcSum(members, s) == Gap(x, Next(members, x)) + ArcSum(members, s - {x})
    decreases |s|
  {
    var y :| y in s && ArcSum(members, s) == Gap(y, Next(members, y)) + ArcSum(members, s - {y});
    if y != x {
      ArcRemove(members, s - {y}, x);
      ArcRemove(members, s - {x}, y);
      assert s - {y} - {x} == s - {x} - {y};
    }
  }

  lemma {:induction false} SuccessorRemove(net: Net, s: set<Id>, x: Id)
    requires s <= net.Keys && x in s
    ensures SuccessorSum(net, s) == Gap(x, net[x].successor) + SuccessorSum(net, s - {x})
    decreases |s|
  {
    var y :| y in s && SuccessorSum(net, s) == Gap(y, net[y].successor) + SuccessorSum(net, s - {y});
    if y != x {
      SuccessorRemove(net, s - {y}, x);
      SuccessorRemove(net, s - {x}, y);
      assert s - {y} - {x} == s - {x} - {y};
    }
  }

  /** A new member x cuts the arc that starts at its predecessor in two and leaves the others alone. */
  lemma SplitArc(rest: set<Id>, x: Id, n: Id)
    requires n in rest && x !in rest
    ensures Gap(n, Next(rest + {x}, n)) == Gap(n, Next(rest, n)) -
              if n == Prev(rest, x) then Gap(x, Next(rest + {x}, x)) else 0
  {
    var p := Prev(rest, x);
    NextInsert(rest, x, n);
    assert Gap(p, x) <= Gap(n, x);
    if n == p {
      NextInsert(rest, x, x);
      OwnerAfterPrev(rest, x);
    } else {
      assert Gap(n, Next(rest, n)) <= Gap(n, p);
    }
  }

  lemma {:induction false} ArcInsert(rest: set<Id>, x: Id, s: set<Id>)
    requires rest != {} && x !in rest && s <= rest
    ensures ArcSum(rest + {x}, s) == ArcSum(rest, s) -
              if Prev(rest, x) in s then Gap(x, Next(rest + {x}, x)) else 0
    decreases |s|
  {
    if s != {} {
      var y :| y in s;
      ArcRemove(rest, s, y);
      ArcRemove(rest + {x}, s, y);
      SplitArc(rest, x, y);
      ArcInsert(rest, x, s - {y});
    }
  }

  /** Around the ideal ring the arcs add up to exactly one turn. */
  lemma {:induction false} IdealArcsOneTurn(members: set<Id>)
    requires members != {}
    ensures ArcSum(members, members) == RING_SIZE
    decreases |members|
  {
    var x :| x in members;
    ArcRemove(members, members, x);
    if members == {x} {
      assert members - {x} == {};
      assert Next(members, x) == x;
    } else {
      var rest := members - {x};
      assert members == rest + {x};
      IdealArcsOneTurn(rest);
      ArcInsert(rest, x, rest);
    }
  }

  lemma {:induction false} ArcsAreShortest(net: Net, s: set<Id>, x: Id)
    requires s <= net.Keys && x in net
    requires forall n {:trigger net[n].successor} :: n in net ==> net[n].successor in net
    ensures ArcSum(net.Keys, s) <= SuccessorSum(net, s)
    ensures x in s && net[x].successor != Next(net.Keys, x) ==> ArcSum(net.Keys, s) < SuccessorSum(net, s)
    decreases |s|
  {
    if s != {} {
      var y :| y in s;
      ArcRemove(net.Keys, s, y);
      SuccessorRemove(net, s, y);
      ArcsAreShortest(net, s - {y}, x);
      assert Gap(y, Next(net.Keys, y)) <= Gap(y, net[y].successor);
    }
  }

  lemma {:induction false} SortedArcs(net: Net, s: set<Id>)
    requires s <= net.Keys && net != map[]
    requires forall n {:trigger Next(net.Keys, n)} :: n in net ==> net[n].successor == Next(net.Keys, n)
    ensures ArcSum(net.Keys, s) == SuccessorSum(net, s)
    decreases |s|
  {
    if s != {} {
      var y :| y in s;
      ArcRemove(net.Keys, s, y);
      SuccessorRemove(net, s, y);
      SortedArcs(net, s - {y});
    }
  }

  /** The successors are those of the sorted ring exactly when their gaps total one turn. */
  lemma SortedIffOneTurn(net: Net)
    requires net != map[]
    requires forall n {:trigger net[n].successor} :: n in net ==> net[n].successor in net
    ensures SuccessorSum(net, net.Keys) == RING_SIZE <==>
            forall n {:trigger Next(net.Keys, n)} :: n in net ==> net[n].successor == Next(net.Keys, n)
  {
    IdealArcsOneTurn(net.Keys);
    if n :| n in net && net[n].successor != Next(net.Keys, n) {
      ArcsAreShortest(net, net.Keys, n);
    } else {
      SortedArcs(net, net.Keys);
    }
  }
}
