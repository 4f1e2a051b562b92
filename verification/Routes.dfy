/** The way a lookup takes: which relays it visits, where it can get stuck, and how many hops it
    spends. A lookup is exact precisely when its way arrives within the hop limit. */
module Routes {
  import opened Ids
  import opened Options
  import opened Ring
  import opened Network
  import opened Lookup
  import opened Sums

  /** The successor is alive and heads the list; nothing is asked of the other entries. */
  predicate LinkedNode(net: Net, n: Id)
    requires n in net
  {
    net[n].successor in net && net[n].list != [] && net[n].list[0] == net[n].successor
  }

  predicate Linked(net: Net) {
    forall n {:trigger LinkedNode(net, n)} :: n in net ==> LinkedNode(net, n)
  }

  /** The entries of a node's tables, and those among them that are dead. */
  function Known(st: NodeState): (s: set<Id>)
    ensures forall x :: x in s <==> x in st.fingers || x in st.list
  {
    (set x | x in st.fingers) + (set x | x in st.list)
  }

  function Dead(net: Net, n: Id): set<Id>
    requires n in net
  {
    Known(net[n]) - net.Keys
  }

  /** Relays followed to the one whose arc holds the position, or to a dead entry of the last. */
  datatype Route = Arrives(hops: nat) | Blocked(hops: nat, dead: Id)

  function Longer(r: Route, k: nat): Route {
    match r
    case Arrives(h) => Arrives(h + k)
    case Blocked(h, d) => Blocked(h + k, d)
  }

  predicate SameEnd(a: Route, b: Route) {
    a.Arrives? == b.Arrives? && (a.Blocked? ==> a.dead == b.dead)
  }

  lemma HopIsCloser(net: Net, c: Id, id: Id)
    requires Linked(net) && c in net && !BetweenRightInclusive(id, c, net[c].successor)
    ensures var r := ClosestPreceding(net[c], c, id);
            r != c && BetweenExclusive(r, c, id) && Gap(r, id) == Gap(c, id) - Gap(c, r)
  {
    assert LinkedNode(net, c);
    KnowsCloser(net, c, id);
  }

  /** The route from relay c: each relay names the closest preceding node it knows. */
  function RouteFrom(net: Net, id: Id, c: Id): (r: Route)
    requires Linked(net)
    ensures r.hops >= 1
    ensures r.Blocked? ==> r.dead !in net
    decreases Gap(c, id)
  {
    if c !in net then Blocked(1, c)
    else if BetweenRightInclusive(id, c, net[c].successor) then Arrives(1)
    else
      HopIsCloser(net, c, id);
      Longer(RouteFrom(net, id, ClosestPreceding(net[c], c, id)), 1)
  }

  lemma {:induction false} WithoutKeepsHead(list: seq<Id>, x: Id)
    requires list != [] && list[0] != x
    ensures Without(list, x) != [] && Without(list, x)[0] == list[0]
  {
  }

  lemma EvictionKeepsLinks(net: Net, n: Id, dead: Id)
    requires Linked(net) && n in net && dead !in net
    ensures Evicted(net, n, dead).Keys == net.Keys && Linked(Evicted(net, n, dead))
  {
    var net' := Evicted(net, n, dead);
    assert net'.Keys == net.Keys;
    assert LinkedNode(net, n);
    WithoutKeepsHead(net[n].list, dead);
    forall m | m in net' ensures LinkedNode(net', m) { assert LinkedNode(net, m); }
  }

  lemma ReplacedDead(live: set<Id>, fingers: seq<Id>, dead: Id, n: Id, x: Id)
    requires n in live && dead !in live && x !in live
    ensures x in Replaced(fingers, dead, n) <==> x in fingers && x != dead
  {
    if x in fingers && x != dead {
      var i :| 0 <= i < |fingers| && fingers[i] == x;
      assert Replaced(fingers, dead, n)[i] == x;
    }
  }

  /** Evicting a dead node removes it from the searcher's tables and leaves every link alone. */
  lemma EvictionForgets(net: Net, n: Id, dead: Id)
    requires Linked(net) && n in net && dead !in net
    ensures var net' := Evicted(net, n, dead);
            net'.Keys == net.Keys && Linked(net') && Dead(net', n) == Dead(net, n) - {dead}
  {
    EvictionKeepsLinks(net, n, dead);
    var net' := Evicted(net, n, dead);
    forall x | x !in net ensures x in Known(net'[n]) <==> x in Known(net[n]) && x != dead {
      ReplacedDead(net.Keys, net[n].fingers, dead, n, x);
    }
  }

  lemma EvictStranger(net: Net, n: Id, x: Id)
    requires n in net && x !in Known(net[n])
    ensures Evicted(net, n, x) == net
  {
    WithoutStranger(net[n].list, x);
    assert Replaced(net[n].fingers, x, n) == net[n].fingers;
  }

  /** The whole way of a search at n that stands at relay c: a dead entry the searcher knows itself
      is evicted and the search starts over; one it does not know ends all progress. */
  function Rest(net: Net, n: Id, id: Id, c: Id): (r: Route)
    requires Linked(net) && n in net
    ensures r.hops >= 1
    decreases Dead(net, n), 0
  {
    var r := RouteFrom(net, id, c);
    if r.Blocked? && r.dead in Known(net[n]) then
      EvictionForgets(net, n, r.dead);
      Longer(Trip(Evicted(net, n, r.dead), n, id), r.hops)
    else r
  }

  function Trip(net: Net, n: Id, id: Id): (r: Route)
    requires Linked(net) && n in net
    decreases Dead(net, n), 1
  {
    if BetweenRightInclusive(id, n, net[n].successor) then Arrives(0)
    else Rest(net, n, id, ClosestPreceding(net[n], n, id))
  }

  // ---------------------------------------------------------------- the search takes that way

  /** One hop of a search at a dead node: evict it and start over. */
  lemma DeadHop(net: Net, n: Id, id: Id, c: Id, hops: nat)
    requires Linked(net) && n in net && !BetweenRightInclusive(id, n, net[n].successor) && c !in net && hops > 0
    ensures var net1 := Evicted(net, n, c);
            && Linked(net1) && net1.Keys == net.Keys && net1[n].successor == net[n].successor
            && Search(net, n, id, c, hops) == Search(net1, n, id, ClosestPreceding(net1[n], n, id), hops - 1)
  {
    EvictionKeepsLinks(net, n, c);
    HopIsCloser(Evicted(net, n, c), n, id);
  }

  /** One hop at a relay whose arc does not hold the position: on to the node it names. */
  lemma LiveHop(net: Net, n: Id, id: Id, c: Id, hops: nat)
    requires Linked(net) && n in net && c in net && !BetweenRightInclusive(id, c, net[c].successor) && hops > 0
    ensures Search(net, n, id, c, hops) == Search(net, n, id, ClosestPreceding(net[c], c, id), hops - 1)
    ensures RouteFrom(net, id, c) == Longer(RouteFrom(net, id, ClosestPreceding(net[c], c, id)), 1)
  {
    HopIsCloser(net, c, id);
  }

  lemma {:induction false} SearchOutcome(net: Net, n: Id, id: Id, c: Id, hops: nat)
    requires Linked(net) && n in net && !BetweenRightInclusive(id, n, net[n].successor)
    requires SameEnd(RouteFrom(net, id, c), RouteFrom(net, id, ClosestPreceding(net[n], n, id)))
    ensures Search(net, n, id, c, hops).capped <==>
              Rest(net, n, id, c).Blocked? || Rest(net, n, id, c).hops > hops
    decreases hops
  {
    if hops > 0 {
      if c !in net {
        var net1 := Evicted(net, n, c);
        DeadHop(net, n, id, c, hops);
        EvictionForgets(net, n, c);
        if c !in Known(net[n]) { EvictStranger(net, n, c); }
        SearchOutcome(net1, n, id, ClosestPreceding(net1[n], n, id), hops - 1);
      } else if !BetweenRightInclusive(id, c, net[c].successor) {
        LiveHop(net, n, id, c, hops);
        SearchOutcome(net, n, id, ClosestPreceding(net[c], c, id), hops - 1);
      }
    }
  }

  /** A route that arrives evicts nobody. */
  lemma {:induction false} ArrivesUnchanged(net: Net, n: Id, id: Id, c: Id, hops: nat)
    requires Linked(net) && n in net && RouteFrom(net, id, c).Arrives?
    ensures Search(net, n, id, c, hops).net == net
    decreases hops
  {
    if hops > 0 && !BetweenRightInclusive(id, c, net[c].successor) {
      LiveHop(net, n, id, c, hops);
      ArrivesUnchanged(net, n, id, ClosestPreceding(net[c], c, id), hops - 1);
    }
  }

  /** A lookup runs out of hops exactly when its way is blocked or longer than the limit. */
  lemma LookupOutcome(net: Net, n: Id, id: Id)
    requires Linked(net) && n in net
    ensures Find(net, n, id).capped <==> Trip(net, n, id).Blocked? || Trip(net, n, id).hops > MAX_LOOKUP_HOPS
  {
    if !BetweenRightInclusive(id, n, net[n].successor) {
      HopIsCloser(net, n, id);
      SearchOutcome(net, n, id, ClosestPreceding(net[n], n, id), MAX_LOOKUP_HOPS);
    }
  }

  /** A search that runs out of hops returns a node it was still passing, short of the position. */
  lemma {:induction false} CappedIsShort(net: Net, n: Id, id: Id, c: Id, hops: nat)
    requires Linked(net) && n in net && BetweenExclusive(c, n, id)
    requires !BetweenRightInclusive(id, n, net[n].successor)
    ensures Search(net, n, id, c, hops).capped ==> BetweenExclusive(Search(net, n, id, c, hops).node, n, id)
    decreases hops
  {
    if hops > 0 {
      if c !in net {
        var net1 := Evicted(net, n, c);
        DeadHop(net, n, id, c, hops);
        HopIsCloser(net1, n, id);
        CappedIsShort(net1, n, id, ClosestPreceding(net1[n], n, id), hops - 1);
      } else if !BetweenRightInclusive(id, c, net[c].successor) {
        HopIsCloser(net, c, id);
        CappedIsShort(net, n, id, ClosestPreceding(net[c], c, id), hops - 1);
      }
    }
  }

  lemma IdealIsLinked(net: Net)
    requires Ideal(net)
    ensures Linked(net)
  {
    forall n | n in net ensures LinkedNode(net, n) { assert IdealNode(net, n); }
  }

  /** The way of the lookup arrives within the hop limit. */
  predicate Reaches(net: Net, n: Id, id: Id) {
    Linked(net) && n in net && Trip(net, n, id).Arrives? && Trip(net, n, id).hops <= MAX_LOOKUP_HOPS
  }

  /** On an ideal ring, whatever stale entries the tables hold, a lookup returns the owner of the
      position if and only if its way arrives within the hop limit; otherwise it runs out of hops
      and returns another node. */
  lemma LookupIffReaches(net: Net, n: Id, id: Id)
    requires Ideal(net) && n in net
    ensures Linked(net)
    ensures Find(net, n, id).node == Owner(net.Keys, id) <==> Reaches(net, n, id)
    ensures Find(net, n, id).capped <==> !Reaches(net, n, id)
  {
    IdealIsLinked(net);
    LookupOutcome(net, n, id);
    LookupNeverWrong(net, n, id);
    if Find(net, n, id).capped {
      HopIsCloser(net, n, id);
      CappedIsShort(net, n, id, ClosestPreceding(net[n], n, id), MAX_LOOKUP_HOPS);
      var o := Owner(net.Keys, id);
      assert Dist(id, o) <= Dist(id, n);
    }
  }

  // ---------------------------------------------------------------- where a search gives up

  /** The k-th node on the route from c. */
  function RelayAt(net: Net, id: Id, c: Id, k: nat): Id
    decreases k
  {
    if k == 0 || c !in net then c else RelayAt(net, id, ClosestPreceding(net[c], c, id), k - 1)
  }

  /** Hops left after as many whole legs as fit. */
  function Leftover(hops: nat, leg: nat): (k: nat)
    requires leg > 0
    ensures k < leg
  {
    if hops < leg then hops else Leftover(hops - leg, leg)
  }

  /** The node a search at n stands at after `hops` hops, read off its way: on the first leg if that is
      long enough, else on the next; a leg the searcher cannot mend is walked over and over. */
  function StandsAt(net: Net, n: Id, id: Id, hops: nat): Id
    requires Linked(net) && n in net
    decreases Dead(net, n)
  {
    var c := ClosestPreceding(net[n], n, id);
    var r := RouteFrom(net, id, c);
    if r.Blocked? && r.dead in Known(net[n]) && hops >= r.hops then
      EvictionForgets(net, n, r.dead);
      StandsAt(Evicted(net, n, r.dead), n, id, hops - r.hops)
    else if r.Blocked? then RelayAt(net, id, c, Leftover(hops, r.hops))
    else RelayAt(net, id, c, hops)
  }

  /** Before the end of a leg a search is on its way along the route. */
  lemma {:induction false} WithinLeg(net: Net, n: Id, id: Id, c: Id, hops: nat)
    requires Linked(net) && n in net && hops < RouteFrom(net, id, c).hops
    ensures Search(net, n, id, c, hops).capped && Search(net, n, id, c, hops).node == RelayAt(net, id, c, hops)
    decreases hops
  {
    if hops > 0 {
      HopIsCloser(net, c, id);
      WithinLeg(net, n, id, ClosestPreceding(net[c], c, id), hops - 1);
    }
  }

  /** At the end of a blocked leg it evicts the dead entry and starts over. */
  lemma {:induction false} LegEnds(net: Net, n: Id, id: Id, c: Id, hops: nat)
    requires Linked(net) && n in net && !BetweenRightInclusive(id, n, net[n].successor)
    requires RouteFrom(net, id, c).Blocked? && RouteFrom(net, id, c).hops <= hops
    ensures var r := RouteFrom(net, id, c); var net1 := Evicted(net, n, r.dead);
            Search(net, n, id, c, hops) == Search(net1, n, id, ClosestPreceding(net1[n], n, id), hops - r.hops)
    decreases hops
  {
    if c !in net {
      DeadHop(net, n, id, c, hops);
    } else {
      LiveHop(net, n, id, c, hops);
      LegEnds(net, n, id, ClosestPreceding(net[c], c, id), hops - 1);
    }
  }

  /** A leg the searcher cannot mend is walked until the hops run out. */
  lemma {:induction false} WalksOver(net: Net, n: Id, id: Id, hops: nat)
    requires Linked(net) && n in net && !BetweenRightInclusive(id, n, net[n].successor)
    requires var r := RouteFrom(net, id, ClosestPreceding(net[n], n, id)); r.Blocked? && r.dead !in Known(net[n])
    ensures var c := ClosestPreceding(net[n], n, id); var r := RouteFrom(net, id, c);
            Search(net, n, id, c, hops).node == RelayAt(net, id, c, Leftover(hops, r.hops))
    decreases hops
  {
    var c := ClosestPreceding(net[n], n, id);
    var r := RouteFrom(net, id, c);
    if hops < r.hops {
      WithinLeg(net, n, id, c, hops);
    } else {
      LegEnds(net, n, id, c, hops);
      EvictStranger(net, n, r.dead);
      WalksOver(net, n, id, hops - r.hops);
    }
  }

  /** Where a search that runs out of hops gives up. */
  lemma {:induction false} GivesUpAt(net: Net, n: Id, id: Id, hops: nat)
    requires Linked(net) && n in net && !BetweenRightInclusive(id, n, net[n].successor)
    ensures var a := Search(net, n, id, ClosestPreceding(net[n], n, id), hops);
            a.capped ==> a.node == StandsAt(net, n, id, hops)
    decreases Dead(net, n)
  {
    var c := ClosestPreceding(net[n], n, id);
    var r := RouteFrom(net, id, c);
    if r.Blocked? && r.dead !in Known(net[n]) {
      WalksOver(net, n, id, hops);
    } else if hops < r.hops {
      WithinLeg(net, n, id, c, hops);
    } else if r.Blocked? {
      EvictionForgets(net, n, r.dead);
      LegEnds(net, n, id, c, hops);
      GivesUpAt(Evicted(net, n, r.dead), n, id, hops - r.hops);
    } else {
      SearchOutcome(net, n, id, c, hops);
    }
  }

  /** The node a lookup stands at when its hops run out. */
  function LastStand(net: Net, n: Id, id: Id): Id
    requires Linked(net) && n in net
  {
    StandsAt(net, n, id, MAX_LOOKUP_HOPS)
  }

  /** A lookup whose way does not arrive in time returns the node its way stands at after 160 hops. */
  lemma LookupGivesUpAt(net: Net, n: Id, id: Id)
    requires Linked(net) && n in net && !Reaches(net, n, id)
    ensures Find(net, n, id).node == LastStand(net, n, id)
  {
    LookupOutcome(net, n, id);
    HopIsCloser(net, n, id);
    GivesUpAt(net, n, id, MAX_LOOKUP_HOPS);
  }

  // ---------------------------------------------------------------- how long the way is

  /** The members nearer to id than c is. */
  function Nearer(members: set<Id>, c: Id, id: Id): (s: set<Id>) {
    set z | z in members && Gap(z, id) < Gap(c, id)
  }

  /** A live hop leaves fewer members ahead. */
  lemma HopIsNearer(net: Net, c: Id, id: Id)
    requires Linked(net) && c in net && !BetweenRightInclusive(id, c, net[c].successor)
    requires ClosestPreceding(net[c], c, id) in net
    ensures |Nearer(net.Keys, ClosestPreceding(net[c], c, id), id)| < |Nearer(net.Keys, c, id)|
  {
    HopIsCloser(net, c, id);
    var r := ClosestPreceding(net[c], c, id);
    SmallerSubset(Nearer(net.Keys, r, id), Nearer(net.Keys, c, id), r);
  }

  /** A route visits each member ahead at most once, and at most one dead entry. */
  lemma {:induction false} RouteWalks(net: Net, id: Id, c: Id)
    requires Linked(net) && c in net
    ensures var r := RouteFrom(net, id, c);
            r.hops <= |Nearer(net.Keys, c, id)| + if r.Arrives? then 1 else 2
    decreases Gap(c, id)
  {
    if !BetweenRightInclusive(id, c, net[c].successor) {
      HopIsCloser(net, c, id);
      var r := ClosestPreceding(net[c], c, id);
      if r in net {
        HopIsNearer(net, c, id);
        RouteWalks(net, id, r);
      }
    }
  }

  /** Hops that suffice when `dead` entries may each cost a leg of `span` relays and the entry. */
  function Budget(dead: nat, span: nat): (b: nat)
    ensures b >= span
  {
    if dead == 0 then span else Budget(dead - 1, span) + span + 1
  }

  lemma {:induction false} BudgetIsProduct(dead: nat, span: nat)
    ensures Budget(dead, span) == dead * (span + 1) + span
  {
    if dead > 0 {
      BudgetIsProduct(dead - 1, span);
      Distribute(dead - 1, span + 1);
    }
  }

  /** The budget of a walk over `nodes` members, the searcher one of them, fits the hop limit exactly
      when (dead + 1) * nodes is at most 161. */
  lemma BudgetFits(dead: nat, nodes: nat)
    requires nodes >= 1
    ensures Budget(dead, nodes - 1) <= MAX_LOOKUP_HOPS <==> (dead + 1) * nodes <= MAX_LOOKUP_HOPS + 1
  {
    BudgetIsProduct(dead, nodes - 1);
    Distribute(dead, nodes);
  }

  lemma DeadEntry(net: Net, n: Id, x: Id)
    requires n in net && x in Known(net[n]) && x !in net
    ensures |Dead(net, n) - {x}| == |Dead(net, n)| - 1
  {
  }

  lemma FirstLeg(net: Net, n: Id, id: Id)
    requires Linked(net) && n in net && !BetweenRightInclusive(id, n, net[n].successor)
    ensures var r := RouteFrom(net, id, ClosestPreceding(net[n], n, id));
            r.hops <= |Nearer(net.Keys, n, id)| + if r.Arrives? then 0 else 1
  {
    HopIsCloser(net, n, id);
    var c := ClosestPreceding(net[n], n, id);
    if c in net {
      HopIsNearer(net, n, id);
      RouteWalks(net, id, c);
    }
  }

  /** Each dead entry of the searcher costs at most one more walk over the members ahead. */
  lemma {:induction false} TripWalks(net: Net, n: Id, id: Id)
    requires Linked(net) && n in net
    ensures var ahead := |Nearer(net.Keys, n, id)|;
            Trip(net, n, id).Arrives? ==> Trip(net, n, id).hops <= Budget(|Dead(net, n)|, ahead)
    decreases Dead(net, n)
  {
    if !BetweenRightInclusive(id, n, net[n].successor) {
      FirstLeg(net, n, id);
      var r := RouteFrom(net, id, ClosestPreceding(net[n], n, id));
      if r.Blocked? && r.dead in Known(net[n]) {
        EvictionForgets(net, n, r.dead);
        DeadEntry(net, n, r.dead);
        TripWalks(Evicted(net, n, r.dead), n, id);
      }
    }
  }

  // ---------------------------------------------------------------- exact fingers

  ghost predicate ExactFinger(members: set<Id>, n: Id, i: nat, f: Id)
    requires members != {}
  {
    i < FINGER_COUNT && f == Owner(members, FingerStart(n, i))
  }

  ghost predicate ExactFingersAt(net: Net, n: Id)
    requires n in net
  {
    && |net[n].fingers| == FINGER_COUNT
    && forall i {:trigger net[n].fingers[i]} :: 0 <= i < FINGER_COUNT ==>
         ExactFinger(net.Keys, n, i, net[n].fingers[i])
  }

  ghost predicate ExactFingers(net: Net) {
    forall n {:trigger ExactFingersAt(net, n)} :: n in net ==> ExactFingersAt(net, n)
  }

  /** A member inside (c, id) is no further than the strict predecessor p of id. */
  lemma BeforePredecessor(members: set<Id>, c: Id, id: Id, z: Id)
    requires c in members && z in members
    requires Gap(c, z) < Gap(c, id)
    ensures var p := Prev(members, id); p != c && Gap(c, z) <= Gap(c, p) < Gap(c, id)
  {
    var p := Prev(members, id);
    assert Gap(p, id) <= Gap(z, id);
  }

  /** Finger i of c lies at least 2^i clockwise of c. */
  lemma FingerReach(members: set<Id>, c: Id, i: nat)
    requires c in members && i < FINGER_COUNT
    ensures Gap(c, Owner(members, FingerStart(c, i))) >= Pow2(i)
    ensures forall z :: z in members && Pow2(i) <= Gap(c, z) ==>
              Gap(c, Owner(members, FingerStart(c, i))) <= Gap(c, z)
  {
    FingerStartGap(c, i);
    var start := FingerStart(c, i);
    var f := Owner(members, start);
    assert Dist(start, f) <= Dist(start, c);
    forall z | z in members && Pow2(i) <= Gap(c, z) ensures Gap(c, f) <= Gap(c, z) {
      assert Dist(start, f) <= Dist(start, z);
    }
  }

  /** One hop reaches 2^k towards the predecessor of id if that is 2^k or more away. */
  lemma HopReach(net: Net, c: Id, id: Id, k: nat)
    requires c in net && ExactFingersAt(net, c) && k < FINGER_COUNT
    requires Prev(net.Keys, id) != c && Pow2(k) <= Gap(c, Prev(net.Keys, id))
    ensures Pow2(k) <= Gap(c, ClosestPreceding(net[c], c, id))
  {
    var p := Prev(net.Keys, id);
    var fs := net[c].fingers;
    FingerReach(net.Keys, c, k);
    assert ExactFinger(net.Keys, c, k, fs[k]);
    assert Gap(c, fs[k]) <= Gap(c, p);
    assert Gap(p, id) <= Gap(c, id);
    FingerScanFinds(fs, c, id, FINGER_COUNT, k);
    var j :| k <= j < FINGER_COUNT && FingerScan(fs, c, id, FINGER_COUNT) == fs[j] && BetweenExclusive(fs[j], c, id);
    assert ExactFinger(net.Keys, c, j, fs[j]);
    FingerReach(net.Keys, c, j);
    Pow2Mono(k, j);
    ListScanFurthest(net[c].list, c, id, fs[j]);
  }

  /** With exact fingers a live hop lowers the bit length of the distance that remains. */
  lemma HopHalves(net: Net, c: Id, id: Id, bits: nat)
    requires Linked(net) && c in net && ExactFingersAt(net, c)
    requires !BetweenRightInclusive(id, c, net[c].successor)
    requires ClosestPreceding(net[c], c, id) in net
    requires bits <= FINGER_COUNT && Dist(c, Prev(net.Keys, id)) < Pow2(bits)
    ensures bits >= 1
    ensures Dist(ClosestPreceding(net[c], c, id), Prev(net.Keys, id)) < Pow2(bits - 1)
  {
    HopIsCloser(net, c, id);
    BeforePredecessor(net.Keys, c, id, ClosestPreceding(net[c], c, id));
    if Pow2(bits - 1) <= Gap(c, Prev(net.Keys, id)) {
      HopReach(net, c, id, bits - 1);
    }
  }

  lemma {:induction false} RouteHalves(net: Net, id: Id, c: Id, bits: nat)
    requires Linked(net) && ExactFingers(net) && c in net
    requires bits <= FINGER_COUNT && Dist(c, Prev(net.Keys, id)) < Pow2(bits)
    ensures var r := RouteFrom(net, id, c);
            r.hops <= bits + if r.Arrives? then 1 else 2
    decreases bits
  {
    if !BetweenRightInclusive(id, c, net[c].successor) {
      HopIsCloser(net, c, id);
      var r := ClosestPreceding(net[c], c, id);
      assert ExactFingersAt(net, c);
      if r in net {
        HopHalves(net, c, id, bits);
        RouteHalves(net, id, r, bits - 1);
      }
    }
  }

  /** Exact fingers are alive, so evictions leave them exact. */
  lemma EvictionKeepsFingers(net: Net, n: Id, dead: Id)
    requires ExactFingers(net) && n in net && dead !in net
    ensures ExactFingers(Evicted(net, n, dead))
  {
    var net' := Evicted(net, n, dead);
    assert net'.Keys == net.Keys;
    forall m | m in net' ensures ExactFingersAt(net', m) {
      assert ExactFingersAt(net, m);
      forall i | 0 <= i < FINGER_COUNT ensures ExactFinger(net'.Keys, m, i, net'[m].fingers[i]) {
        assert ExactFinger(net.Keys, m, i, net[m].fingers[i]);
      }
    }
  }

  lemma FirstDescent(net: Net, n: Id, id: Id, bits: nat)
    requires Linked(net) && ExactFingers(net) && n in net && !BetweenRightInclusive(id, n, net[n].successor)
    requires bits <= FINGER_COUNT && Dist(n, Prev(net.Keys, id)) < Pow2(bits)
    ensures var r := RouteFrom(net, id, ClosestPreceding(net[n], n, id));
            r.hops <= bits + if r.Arrives? then 0 else 1
  {
    HopIsCloser(net, n, id);
    var c := ClosestPreceding(net[n], n, id);
    assert ExactFingersAt(net, n);
    if c in net {
      HopHalves(net, n, id, bits);
      RouteHalves(net, id, c, bits - 1);
    }
  }

  /** With exact fingers each dead entry of the searcher costs at most one more descent. */
  lemma {:induction false} TripHalves(net: Net, n: Id, id: Id, bits: nat)
    requires Linked(net) && ExactFingers(net) && n in net
    requires bits <= FINGER_COUNT && Dist(n, Prev(net.Keys, id)) < Pow2(bits)
    ensures Trip(net, n, id).Arrives? ==> Trip(net, n, id).hops <= Budget(|Dead(net, n)|, bits)
    decreases Dead(net, n)
  {
    if !BetweenRightInclusive(id, n, net[n].successor) {
      FirstDescent(net, n, id, bits);
      var r := RouteFrom(net, id, ClosestPreceding(net[n], n, id));
      if r.Blocked? && r.dead in Known(net[n]) {
        EvictionForgets(net, n, r.dead);
        DeadEntry(net, n, r.dead);
        EvictionKeepsFingers(net, n, r.dead);
        TripHalves(Evicted(net, n, r.dead), n, id, bits);
      }
    }
  }

  // ---------------------------------------------------------------- when lookups are exact

  /** Relay c has nothing dead to name on the way to id. */
  predicate NamesLive(net: Net, id: Id, c: Id)
    requires c in net
  {
    BetweenRightInclusive(id, c, net[c].successor) || ClosestPreceding(net[c], c, id) in net
  }

  /** No member between the searcher and the position names a dead node. */
  predicate RelaysLive(net: Net, n: Id, id: Id) {
    forall c {:trigger NamesLive(net, id, c)} :: c in net && BetweenExclusive(c, n, id) ==> NamesLive(net, id, c)
  }

  lemma {:induction false} LiveRouteArrives(net: Net, n: Id, id: Id, c: Id)
    requires Linked(net) && RelaysLive(net, n, id) && c in net && BetweenExclusive(c, n, id)
    ensures RouteFrom(net, id, c).Arrives?
    decreases Gap(c, id)
  {
    assert NamesLive(net, id, c);
    if !BetweenRightInclusive(id, c, net[c].successor) {
      HopIsCloser(net, c, id);
      LiveRouteArrives(net, n, id, ClosestPreceding(net[c], c, id));
    }
  }

  /** With live relays a search arrives, however many dead entries the searcher holds: it evicts
      each of them when it comes up. */
  lemma {:induction false} LiveRelaysArrive(net: Net, n: Id, id: Id)
    requires Linked(net) && RelaysLive(net, n, id) && n in net
    ensures Trip(net, n, id).Arrives?
    decreases Dead(net, n)
  {
    if !BetweenRightInclusive(id, n, net[n].successor) {
      HopIsCloser(net, n, id);
      ClosestInArc(net[n], n, id);
      var c := ClosestPreceding(net[n], n, id);
      if c in net {
        LiveRouteArrives(net, n, id, c);
      } else {
        var net1 := Evicted(net, n, c);
        EvictionForgets(net, n, c);
        forall m | m in net1 && BetweenExclusive(m, n, id) ensures NamesLive(net1, id, m) {
          assert NamesLive(net, id, m);
        }
        LiveRelaysArrive(net1, n, id);
      }
    }
  }

  lemma NothingDead(net: Net, n: Id, id: Id)
    requires Linked(net) && n in net && Dead(net, n) == {}
    requires Trip(net, n, id).Arrives?
    ensures Find(net, n, id).net == net
  {
    if !BetweenRightInclusive(id, n, net[n].successor) {
      HopIsCloser(net, n, id);
      var c := ClosestPreceding(net[n], n, id);
      var r := RouteFrom(net, id, c);
      assert r.Blocked? ==> r.dead !in Known(net[n]) by { assert r.Blocked? ==> r.dead !in Dead(net, n); }
      ArrivesUnchanged(net, n, id, c, MAX_LOOKUP_HOPS);
    }
  }

  /** On an ideal ring with exact fingers, a searcher whose own entries are alive finds the owner,
      changes nothing and stays within the hop limit if and only if no relay on the way names a
      dead node; otherwise the search goes round to the limit and its answer is wrong. */
  lemma LookupIsExact(net: Net, n: Id, id: Id)
    requires Ideal(net) && ExactFingers(net) && n in net && Dead(net, n) == {}
    ensures Linked(net)
    ensures Trip(net, n, id).Arrives? ==> Find(net, n, id) == Answer(Owner(net.Keys, id), net, false)
    ensures Trip(net, n, id).Blocked? ==> Find(net, n, id).capped && Find(net, n, id).node != Owner(net.Keys, id)
  {
    Pow2Of160();
    LookupBesideDead(net, n, id, FINGER_COUNT);
    LookupNeverWrong(net, n, id);
    if Trip(net, n, id).Arrives? { NothingDead(net, n, id); }
  }

  /** The same with dead entries of the searcher's own, each of which may cost one more descent. */
  lemma LookupBesideDead(net: Net, n: Id, id: Id, bits: nat)
    requires Ideal(net) && ExactFingers(net) && n in net
    requires bits <= FINGER_COUNT && Dist(n, Prev(net.Keys, id)) < Pow2(bits)
    requires Budget(|Dead(net, n)|, bits) <= MAX_LOOKUP_HOPS
    ensures Linked(net)
    ensures Find(net, n, id).node == Owner(net.Keys, id) <==> Trip(net, n, id).Arrives?
    ensures Find(net, n, id).capped <==> Trip(net, n, id).Blocked?
  {
    LookupIffReaches(net, n, id);
    TripHalves(net, n, id, bits);
  }

  /** With few enough members ahead, ordered in a ring or not and whatever the fingers hold, a
      lookup runs out of hops if and only if its way is blocked. */
  lemma SmallNeverCapped(net: Net, n: Id, id: Id)
    requires Linked(net) && n in net
    requires Budget(|Dead(net, n)|, |Nearer(net.Keys, n, id)|) <= MAX_LOOKUP_HOPS
    ensures Find(net, n, id).capped <==> Trip(net, n, id).Blocked?
  {
    LookupOutcome(net, n, id);
    TripWalks(net, n, id);
  }

  /** On an ideal ring that is to say: it finds the owner if and only if its way arrives. */
  lemma LookupSmallRing(net: Net, n: Id, id: Id)
    requires Ideal(net) && n in net
    requires Budget(|Dead(net, n)|, |Nearer(net.Keys, n, id)|) <= MAX_LOOKUP_HOPS
    ensures Linked(net)
    ensures Find(net, n, id).node == Owner(net.Keys, id) <==> Trip(net, n, id).Arrives?
  {
    LookupIffReaches(net, n, id);
    SmallNeverCapped(net, n, id);
  }

  /** Up to 161 members fit the limit for a searcher without dead entries. */
  lemma SmallBudget(net: Net, n: Id, id: Id)
    requires n in net && Dead(net, n) == {} && |net.Keys| <= MAX_LOOKUP_HOPS + 1
    ensures Budget(|Dead(net, n)|, |Nearer(net.Keys, n, id)|) <= MAX_LOOKUP_HOPS
  {
    SmallerSubset(Nearer(net.Keys, n, id), net.Keys, n);
  }

  // ---------------------------------------------------------------- networks without dead entries

  ghost predicate LiveTable(net: Net, n: Id)
    requires n in net
  {
    && (forall s :: s in net[n].fingers ==> s in net)
    && (forall s :: s in net[n].list ==> s in net)
  }

  ghost predicate LiveTables(net: Net) {
    forall n {:trigger LiveTable(net, n)} :: n in net ==> LiveTable(net, n)
  }

  lemma LiveTablesArrive(net: Net, n: Id, id: Id)
    requires Linked(net) && LiveTables(net) && n in net
    ensures Trip(net, n, id).Arrives? && Dead(net, n) == {}
  {
    assert LiveTable(net, n);
    forall c | c in net && BetweenExclusive(c, n, id) ensures NamesLive(net, id, c) {
      assert LiveTable(net, c);
      ClosestInArc(net[c], c, id);
    }
    LiveRelaysArrive(net, n, id);
  }

  /** Up to 161 nodes that know only live ones, ordered in a ring or not, no lookup runs out of hops. */
  lemma LiveNeverCapped(net: Net, n: Id, id: Id)
    requires Linked(net) && LiveTables(net) && n in net
    requires |net.Keys| <= MAX_LOOKUP_HOPS + 1
    ensures !Find(net, n, id).capped && Find(net, n, id).net == net
  {
    LiveTablesArrive(net, n, id);
    SmallBudget(net, n, id);
    SmallNeverCapped(net, n, id);
    NothingDead(net, n, id);
  }

  /** Every lookup from this network is exact: no table holds a dead entry, and the fingers are
      exact or the ring is small enough to walk. */
  ghost predicate Routable(net: Net) {
    Ideal(net) && LiveTables(net) && (ExactFingers(net) || |net.Keys| <= MAX_LOOKUP_HOPS + 1)
  }

  lemma RoutableReaches(net: Net, n: Id, id: Id)
    requires Routable(net) && n in net
    ensures Linked(net) && Reaches(net, n, id)
    ensures Find(net, n, id) == Answer(Owner(net.Keys, id), net, false)
  {
    IdealIsLinked(net);
    LiveTablesArrive(net, n, id);
    LookupIffReaches(net, n, id);
    if ExactFingers(net) {
      LookupIsExact(net, n, id);
    } else {
      LiveNeverCapped(net, n, id);
    }
  }

  // ---------------------------------------------------------------- any network, ordered or not

  /** The entries of n's tables strictly between n and the position. */
  function Between(net: Net, n: Id, id: Id): set<Id>
    requires n in net
  {
    set x | x in Known(net[n]) && BetweenExclusive(x, n, id)
  }

  /** Nothing has changed but that the entries of `gone` have left n's tables; fingers to them point
      at n. */
  ghost predicate Cleared(net: Net, n: Id, gone: set<Id>, net': Net)
    requires n in net
  {
    && net'.Keys == net.Keys
    && (forall m {:trigger net'[m]} :: m in net && m != n ==> net'[m] == net[m])
    && ClearedNode(net[n], n, gone, net'[n])
  }

  ghost predicate ClearedNode(st: NodeState, n: Id, gone: set<Id>, st': NodeState) {
    && st'.successor == st.successor && st'.predecessor == st.predecessor
    && st'.predList == st.predList && st'.nextFinger == st.nextFinger
    && |st'.fingers| == |st.fingers|
    && (forall i {:trigger st'.fingers[i]} :: 0 <= i < |st.fingers| ==>
          st'.fingers[i] == if st.fingers[i] in gone then n else st.fingers[i])
    && (forall x {:trigger x in st'.list} :: x in st'.list <==> x in st.list && x !in gone)
  }

  lemma ClearedMore(net: Net, n: Id, gone: set<Id>, net1: Net, more: set<Id>, net2: Net)
    requires n in net && Cleared(net, n, gone, net1) && Cleared(net1, n, more, net2)
    ensures Cleared(net, n, gone + more, net2)
  {
  }

  /** Nobody known before the position: the search has nowhere to go. */
  lemma NobodyBetween(net: Net, n: Id, id: Id)
    requires n in net
    ensures ClosestPreceding(net[n], n, id) == n <==> Between(net, n, id) == {}
    ensures ClosestPreceding(net[n], n, id) != n ==> ClosestPreceding(net[n], n, id) in Between(net, n, id)
  {
    var st := net[n];
    ClosestInArc(st, n, id);
    if ClosestPreceding(st, n, id) != n {
      assert ClosestPreceding(st, n, id) in Between(net, n, id);
    } else {
      forall x | x in st.fingers ensures !BetweenExclusive(x, n, id) {
        if BetweenExclusive(x, n, id) {
          var k :| 0 <= k < |st.fingers| && st.fingers[k] == x;
          FingerScanFinds(st.fingers, n, id, |st.fingers|, k);
          ListScanFurthest(st.list, n, id, FingerScan(st.fingers, n, id, |st.fingers|));
        }
      }
    }
  }

  /** A live entry before the position, none of the live list entries being closer to it. */
  ghost predicate BestLive(net: Net, n: Id, id: Id, c: Id)
    requires n in net
  {
    && c in net && c in Between(net, n, id)
    && forall s :: s in net[n].list && s in net && BetweenExclusive(s, n, id) ==> Gap(n, s) <= Gap(n, c)
  }

  /** Who is left before the position after a clearing, and which of them comes next. */
  lemma ClearedAway(net: Net, n: Id, id: Id, gone: set<Id>, net': Net)
    requires n in net && Cleared(net, n, gone, net') && gone <= Between(net, n, id) - net.Keys
    ensures var c := ClosestPreceding(net'[n], n, id);
            && (c == n ==> gone == Between(net, n, id))
            && (c in net && c != n ==> BestLive(net, n, id, c))
  {
    NobodyBetween(net', n, id);
    ClosestInArc(net'[n], n, id);
    forall x | x in Between(net, n, id) && x !in gone ensures x in Between(net', n, id) {
      if x in net[n].fingers {
        var i :| 0 <= i < |net[n].fingers| && net[n].fingers[i] == x;
        assert net'[n].fingers[i] == x;
      }
    }
  }

  /** n's best candidate before the position is dead. */
  ghost predicate DeadNext(net: Net, n: Id, id: Id)
    requires n in net
  {
    ClosestPreceding(net[n], n, id) != n && ClosestPreceding(net[n], n, id) !in net
  }

  ghost function LessBest(net: Net, n: Id, id: Id): (r: Net)
    requires n in net
    ensures r.Keys == net.Keys
  {
    Evicted(net, n, ClosestPreceding(net[n], n, id))
  }

  lemma OneLessDead(net: Net, n: Id, id: Id)
    requires n in net && DeadNext(net, n, id)
    ensures var c := ClosestPreceding(net[n], n, id);
            var net1 := LessBest(net, n, id);
            && Cleared(net, n, {c}, net1) && c in Between(net, n, id)
            && Between(net1, n, id) - net1.Keys == Between(net, n, id) - net.Keys - {c}
  {
    NobodyBetween(net, n, id);
    var c := ClosestPreceding(net[n], n, id);
    var net1 := Evicted(net, n, c);
    forall x | x in Between(net, n, id) - net.Keys - {c} ensures x in Between(net1, n, id) {
      if x in net[n].fingers {
        var i :| 0 <= i < |net[n].fingers| && net[n].fingers[i] == x;
        assert net1[n].fingers[i] == x;
      }
    }
    assert Between(net1, n, id) - net1.Keys == Between(net, n, id) - net.Keys - {c};
  }

  ghost function DeadAhead(net: Net, n: Id, id: Id): nat
    requires n in net
  {
    |Between(net, n, id) - net.Keys|
  }

  lemma FewerDead(net: Net, n: Id, id: Id)
    requires n in net && DeadNext(net, n, id)
    ensures DeadAhead(LessBest(net, n, id), n, id) < DeadAhead(net, n, id)
  {
    OneLessDead(net, n, id);
  }

  /** The network after n has evicted its best candidate for as long as that is dead. Then n knows
      nobody before the position, or a live node comes next. */
  ghost function Stripped(net: Net, n: Id, id: Id): (r: Net)
    requires n in net
    ensures r.Keys == net.Keys && !DeadNext(r, n, id)
    decreases DeadAhead(net, n, id)
  {
    if !DeadNext(net, n, id) then net
    else
      FewerDead(net, n, id);
      Stripped(LessBest(net, n, id), n, id)
  }

  ghost function Skips(net: Net, n: Id, id: Id): nat
    requires n in net
    decreases DeadAhead(net, n, id)
  {
    if !DeadNext(net, n, id) then 0
    else
      FewerDead(net, n, id);
      1 + Skips(LessBest(net, n, id), n, id)
  }

  /** A search passes over dead candidates at a hop each; with nobody left it answers n. */
  lemma {:induction false} SearchPassesDead(net: Net, n: Id, id: Id, hops: nat)
    requires n in net && Skips(net, n, id) <= hops && ClosestPreceding(net[n], n, id) != n
    ensures var net' := Stripped(net, n, id);
            Search(net, n, id, ClosestPreceding(net[n], n, id), hops) ==
            if ClosestPreceding(net'[n], n, id) == n then Answer(n, net', false)
            else Search(net', n, id, ClosestPreceding(net'[n], n, id), hops - Skips(net, n, id))
    decreases hops
  {
    if DeadNext(net, n, id) {
      var net1 := LessBest(net, n, id);
      if ClosestPreceding(net1[n], n, id) != n {
        SearchPassesDead(net1, n, id, hops - 1);
      }
    }
  }

  /** Exactly the dead entries skipped leave n's tables. */
  lemma {:induction false} SkippedAreCleared(net: Net, n: Id, id: Id) returns (gone: set<Id>)
    requires n in net
    ensures |gone| == Skips(net, n, id) && gone <= Between(net, n, id) - net.Keys
    ensures Cleared(net, n, gone, Stripped(net, n, id))
    decreases DeadAhead(net, n, id)
  {
    if !DeadNext(net, n, id) {
      gone := {};
    } else {
      var c := ClosestPreceding(net[n], n, id);
      var net1 := LessBest(net, n, id);
      OneLessDead(net, n, id);
      FewerDead(net, n, id);
      var gone1 := SkippedAreCleared(net1, n, id);
      ClearedMore(net, n, {c}, net1, gone1, Stripped(net1, n, id));
      gone := {c} + gone1;
    }
  }

  /** In any network: a node whose entries before the position are all dead, and at most 160, is left
      alone with the position. Its lookup answers with itself, and exactly those entries are gone. */
  lemma LookupFindsNobody(net: Net, n: Id, id: Id)
    requires n in net && !BetweenRightInclusive(id, n, net[n].successor)
    requires Between(net, n, id) !! net.Keys && |Between(net, n, id)| <= 160
    ensures var a := Find(net, n, id);
            a.node == n && !a.capped && Cleared(net, n, Between(net, n, id), a.net)
  {
    var net' := Stripped(net, n, id);
    var gone := SkippedAreCleared(net, n, id);
    ClearedAway(net, n, id, gone, net');
    SubsetSize(gone, Between(net, n, id));
    NobodyBetween(net, n, id);
    if Between(net, n, id) != {} { SearchPassesDead(net, n, id, MAX_LOOKUP_HOPS); }
  }

  /** A two-node ring whose other member has died: the survivor answers for the position itself. */
  lemma LastOneAnswers() returns (net: Net)
    ensures net == map[0 := NodeState(5, [5], Some(5), [], [], 0)]
    ensures Find(net, 0, 100).node == 0 && !Find(net, 0, 100).capped
    ensures 5 !in Find(net, 0, 100).net[0].list
  {
    net := map[0 := NodeState(5, [5], Some(5), [], [], 0)];
    assert 5 in net[0].list;
    assert Between(net, 0, 100) == {5};
    LookupFindsNobody(net, 0, 100);
  }

  /** A live candidate that is next to the position, or knows nobody closer, has the last word. */
  lemma LiveCandidate(net: Net, n: Id, id: Id, gone: set<Id>, net1: Net, c: Id, hops: nat)
    requires n in net && Cleared(net, n, gone, net1) && c in net && c != n && hops > 0
    ensures BetweenRightInclusive(id, c, net[c].successor) || Between(net, c, id) == {} ==>
              Search(net1, n, id, c, hops) == Answer(net[c].successor, net1, false)
  {
    assert net1[c] == net[c];
    NobodyBetween(net1, c, id);
  }

  /** In any network, whether or not the successor is alive: with a live entry before the position and
      fewer than 160 dead ones, the search evicts dead entries only and goes on, one hop less for each,
      from a live entry closest of the live ones of the list. If that one's arc holds the position, or
      it knows nobody before the position itself, its successor is the answer. */
  lemma LookupGoesOn(net: Net, n: Id, id: Id) returns (gone: set<Id>, net1: Net, c: Id)
    requires n in net && !BetweenRightInclusive(id, n, net[n].successor)
    requires Between(net, n, id) * net.Keys != {} && |Between(net, n, id) - net.Keys| < 160
    ensures gone <= Between(net, n, id) - net.Keys && |gone| < 160
    ensures Cleared(net, n, gone, net1) && BestLive(net, n, id, c)
    ensures Find(net, n, id) == Search(net1, n, id, c, 160 - |gone|)
    ensures BetweenRightInclusive(id, c, net[c].successor) || Between(net, c, id) == {} ==>
              Find(net, n, id) == Answer(net[c].successor, net1, false)
  {
    gone := SkippedAreCleared(net, n, id);
    net1 := Stripped(net, n, id);
    c := ClosestPreceding(net1[n], n, id);
    ClearedAway(net, n, id, gone, net1);
    SubsetSize(gone, Between(net, n, id) - net.Keys);
    NobodyBetween(net, n, id);
    SearchPassesDead(net, n, id, MAX_LOOKUP_HOPS);
    LiveCandidate(net, n, id, gone, net1, c, 160 - |gone|);
  }

  // ---------------------------------------------------------------- a searcher that knows everybody

  predicate KnowsAll(net: Net, n: Id)
    requires n in net
  {
    forall m :: m in net && m != n ==> m in net[n].list
  }

  /** A searcher whose list names all other members gets there at once, after at most one eviction
      per dead entry of its own, whatever the tables of the others hold. */
  lemma {:induction false} KnowingAllArrives(net: Net, n: Id, id: Id)
    requires Ideal(net) && n in net && KnowsAll(net, n)
    ensures Linked(net) && Trip(net, n, id).Arrives? && Trip(net, n, id).hops <= |Dead(net, n)| + 1
    decreases |Dead(net, n)|
  {
    IdealIsLinked(net);
    assert IdealNode(net, n);
    if !BetweenRightInclusive(id, n, net[n].successor) {
      HopIsCloser(net, n, id);
      ClosestInArc(net[n], n, id);
      var c := ClosestPreceding(net[n], n, id);
      if c in net {
        LastBefore(net, n, id, c);
      } else {
        EvictionForgets(net, n, c);
        EvictionKeepsIdeal(net, n, c);
        DeadEntry(net, n, c);
        KnowingAllArrives(Evicted(net, n, c), n, id);
      }
    }
  }

  lemma LastBefore(net: Net, n: Id, id: Id, c: Id)
    requires Ideal(net) && n in net && KnowsAll(net, n) && c in net && BetweenExclusive(c, n, id)
    requires forall s :: s in net[n].list && BetweenExclusive(s, n, id) ==> Gap(n, s) <= Gap(n, c)
    ensures BetweenRightInclusive(id, c, net[c].successor)
  {
    var p := Prev(net.Keys, id);
    BeforePredecessor(net.Keys, n, id, c);
    assert p in net[n].list;
    OwnerAfterPrev(net.Keys, id);
    assert IdealNode(net, c);
  }

  // ---------------------------------------------------------------- a ring that misleads

  ghost function FingersOf(members: set<Id>, n: Id): (fs: seq<Id>)
    requires members != {}
    ensures |fs| == FINGER_COUNT
    ensures forall i :: 0 <= i < FINGER_COUNT ==> ExactFinger(members, n, i, fs[i])
  {
    seq(FINGER_COUNT, i requires 0 <= i < FINGER_COUNT => Owner(members, FingerStart(n, i)))
  }

  /** Nodes 0, 5 and 6 in an ideal ring with exact fingers; the list of 5 still names 50, now dead. */
  ghost function Misleading(): (net: Net)
    ensures net.Keys == {0, 5, 6}
  {
    var members: set<Id> := {0, 5, 6};
    map[0 := NodeState(5, [5], Some(6), [], FingersOf(members, 0), 0),
        5 := NodeState(6, [6, 50], Some(0), [], FingersOf(members, 5), 0),
        6 := NodeState(0, [0], Some(5), [], FingersOf(members, 6), 0)]
  }

  lemma MisleadingNode(n: Id)
    requires n in Misleading()
    ensures IdealNode(Misleading(), n) && ExactFingersAt(Misleading(), n)
  {
    var net := Misleading();
    var next := if n == 0 then 5 else if n == 5 then 6 else 0;
    var prev := if n == 0 then 6 else if n == 5 then 0 else 5;
    NextIs(net.Keys, n, next);
    PrevIs(net.Keys, n, prev);
  }

  lemma MisleadingIsIdeal()
    ensures Ideal(Misleading()) && ExactFingers(Misleading())
    ensures Dead(Misleading(), 0) == {}
  {
    var net := Misleading();
    forall n | n in net ensures IdealNode(net, n) && ExactFingersAt(net, n) { MisleadingNode(n); }
    forall f | f in net[0].fingers ensures f in net {
      var i :| 0 <= i < FINGER_COUNT && net[0].fingers[i] == f;
      assert ExactFinger(net.Keys, 0, i, net[0].fingers[i]);
    }
  }

  lemma PowersMissSix(i: nat)
    ensures Pow2(i) != 6
  {
    if i >= 3 {
      Pow2Mono(3, i);
      assert Pow2(3) == 8;
    } else {
      assert Pow2(0) == 1 && Pow2(1) == 2 && Pow2(2) == 4;
    }
  }

  /** Node 0 starts its search for 100 at node 5: no finger of 0 is 6. */
  lemma MisleadingStart()
    ensures ClosestPreceding(Misleading()[0], 0, 100) == 5
  {
    var net := Misleading();
    var st := net[0];
    ClosestInArc(st, 0, 100);
    var r := ClosestPreceding(st, 0, 100);
    assert 5 in st.list;
    if r in st.fingers {
      var i :| 0 <= i < FINGER_COUNT && st.fingers[i] == r;
      assert ExactFinger(net.Keys, 0, i, st.fingers[i]);
      PowersMissSix(i);
      FingerStartGap(0, i);
      assert Dist(FingerStart(0, i), r) <= Dist(FingerStart(0, i), 5);
    }
  }

  /** Node 5 names 50, the furthest entry it has. */
  lemma MisleadingRelay()
    ensures ClosestPreceding(Misleading()[5], 5, 100) == 50
  {
    var net := Misleading();
    var st := net[5];
    ClosestInArc(st, 5, 100);
    assert st.list[1] in st.list;
  }

  /** A relay c that names a dead node d the searcher does not know: the search goes from c to d,
      evicts nothing, and is back at c. */
  lemma {:induction false} SearchBounces(net: Net, n: Id, id: Id, c: Id, d: Id, hops: nat)
    requires n in net && c in net && d !in net && c != n && hops % 2 == 0
    requires !BetweenRightInclusive(id, c, net[c].successor) && ClosestPreceding(net[c], c, id) == d
    requires Evicted(net, n, d) == net && ClosestPreceding(net[n], n, id) == c
    ensures Search(net, n, id, c, hops).node == c
    decreases hops
  {
    if hops > 0 {
      assert Search(net, n, id, c, hops) == Search(net, n, id, d, hops - 1);
      SearchBounces(net, n, id, c, d, hops - 2);
    }
  }

  /** An ideal ring with exact fingers is not enough: one dead entry in the list of a relay turns the
      search back to its start each time, because only the searcher's own tables are cleaned. It runs
      out of hops and returns 5, while 0 owns the position. */
  lemma StaleRelayMisleads() returns (net: Net, n: Id, id: Id)
    ensures net == Misleading() && n == 0 && id == 100
    ensures Ideal(net) && ExactFingers(net) && Dead(net, n) == {} && !Reaches(net, n, id)
    ensures Find(net, n, id).capped && Find(net, n, id).node == 5 && Owner(net.Keys, id) == 0
  {
    net, n, id := Misleading(), 0, 100;
    MisleadingIsIdeal();
    MisleadingStart();
    MisleadingRelay();
    OwnerIs(net.Keys, 100, 0);
    LookupIsExact(net, 0, 100);
    assert RouteFrom(net, 100, 50) == Blocked(1, 50);
    assert RouteFrom(net, 100, 5) == Blocked(2, 50);
    assert 50 !in Known(net[0]) by { assert 50 !in Dead(net, 0); }
    EvictStranger(net, 0, 50);
    SearchBounces(net, 0, 100, 5, 50, MAX_LOOKUP_HOPS);
  }
}
