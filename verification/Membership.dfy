/** Joining and leaving an ideal ring: the pointers end ideal again, and with one copy per block
    every block ends on its new owner and nowhere else. */
module Membership {
  import opened Ids
  import opened Options
  import opened Ring
  import opened Network
  import opened Lookup
  import opened Routes

  /** A stored block: its content hash and the position that hash maps to. */
  datatype Block = Block(hash: nat, pos: Id)

  type Blocks = map<Id, set<Block>>

  datatype Cluster = Cluster(net: Net, blocks: Blocks)

  function Held(blocks: Blocks, n: Id): set<Block> {
    if n in blocks then blocks[n] else {}
  }

  function InRange(s: set<Block>, from: Id, to: Id): set<Block> {
    set b | b in s && BetweenRightInclusive(b.pos, from, to)
  }

  /** Blocks in (from, to] move from one node to the other. */
  function Transferred(blocks: Blocks, source: Id, target: Id, from: Id, to: Id): Blocks {
    var moved := InRange(Held(blocks, source), from, to);
    var rest := blocks[source := Held(blocks, source) - moved];
    rest[target := Held(rest, target) + moved]
  }

  /** Blocks in (from, to] are copied from one node to the other. */
  function Pushed(blocks: Blocks, source: Id, target: Id, from: Id, to: Id): Blocks {
    blocks[target := Held(blocks, target) + InRange(Held(blocks, source), from, to)]
  }

  // ---------------------------------------------------------------- notify and stabilize

  /** Where the range handed to a newly accepted predecessor starts. */
  function HandoverStart(net: Net, s: Id, caller: Id): Id
    requires s in net
  {
    var pred := net[s].predecessor;
    if pred.Some? && BetweenExclusive(caller, pred.value, s) then pred.value else s
  }

  function NotifiedBlocks(net: Net, blocks: Blocks, s: Id, caller: Id): Blocks {
    if s in net && Accepts(net, s, caller) && caller != s && caller in net
    then Pushed(blocks, s, caller, HandoverStart(net, s, caller), caller)
    else blocks
  }

  function StabilizedBlocks(net: Net, blocks: Blocks, n: Id): Blocks
    requires n in net
  {
    var succ := net[n].successor;
    if succ !in net then blocks
    else
      var succ1 := if AdoptsPredecessorOf(net, n, succ) then net[succ].predecessor.value else succ;
      NotifiedBlocks(net[n := net[n].(successor := succ1)], blocks, succ1, n)
  }

  function StabilizedAt(c: Cluster, n: Id, size: nat): Cluster
    requires n in c.net
  {
    Cluster(Stabilized(c.net, n, size), StabilizedBlocks(c.net, c.blocks, n))
  }

  // ---------------------------------------------------------------- join

  function JoinedTo(c: Cluster, x: Id, via: Id): Cluster
    requires via in c.net && x !in c.net
  {
    var a := Find(c.net, via, x);
    var s := a.node;
    var net := a.net[x := FreshNode(x, s)];
    var blocks := c.blocks[x := Held(c.blocks, x)];
    if s in net && net[s].predecessor.Some? && net[s].predecessor.value != x
    then Cluster(net, Transferred(blocks, s, x, net[s].predecessor.value, x))
    else Cluster(net, blocks)
  }

  // ---------------------------------------------------------------- leave

  function Capped(list: seq<Id>, skip1: Id, skip2: Id, room: nat): (r: seq<Id>)
    ensures |r| <= room
    ensures forall y :: y in r ==> y in list && y != skip1 && y != skip2
  {
    if list == [] || room == 0 then []
    else if list[0] == skip1 || list[0] == skip2 then Capped(list[1..], skip1, skip2, room)
    else [list[0]] + Capped(list[1..], skip1, skip2, room - 1)
  }

  /** The first `room` entries other than the two skipped, in their order. */
  lemma {:induction false} CappedIsPrefix(list: seq<Id>, skip1: Id, skip2: Id, room: nat)
    ensures var rest := Without(Without(list, skip1), skip2);
            Capped(list, skip1, skip2, room) == if |rest| <= room then rest else rest[..room]
  {
    if list != [] && room > 0 {
      CappedIsPrefix(list[1..], skip1, skip2, if list[0] == skip1 || list[0] == skip2 then room else room - 1);
    }
  }

  /** What a node does when told that `leaver`, with the given neighbours, is going. */
  function LeaveNoted(net: Net, t: Id, leaver: Id, successor: Id, predecessor: Id, size: nat): Net {
    if t !in net then net
    else
      var st := net[t];
      var st1 :=
        if st.successor == leaver then
          st.(successor := successor,
              list := [successor] + Capped(st.list, leaver, successor, if size == 0 then 0 else size - 1))
        else st;
      var st2 :=
        if st1.predecessor == Some(leaver) then
          st1.(predecessor := if predecessor == leaver then None else Some(predecessor))
        else st1;
      net[t := st2]
  }

  function LeftBy(c: Cluster, n: Id, size: nat): Cluster
    requires n in c.net
  {
    var succ, pred := c.net[n].successor, c.net[n].predecessor;
    if succ == n then Cluster(c.net - {n}, c.blocks - {n})
    else
      var blocks := if succ in c.net then c.blocks[succ := Held(c.blocks, succ) + Held(c.blocks, n)] else c.blocks;
      var predAddr := if pred.Some? then pred.value else n;
      var net1 := LeaveNoted(c.net, succ, n, succ, predAddr, size);
      var net2 := if predAddr != n then LeaveNoted(net1, predAddr, n, succ, predAddr, size) else net1;
      Cluster(net2 - {n}, blocks - {n})
  }

  // ---------------------------------------------------------------- placement of single copies

  ghost predicate Placed(members: set<Id>, blocks: Blocks) {
    && blocks.Keys == members
    && forall n, b {:trigger b in blocks[n]} :: n in blocks && b in blocks[n] ==> Owner(members, b.pos) == n
  }

  ghost function AllBlocks(blocks: Blocks): set<Block> {
    set n, b | n in blocks && b in blocks[n] :: b
  }

  /** A joiner's predecessor and successor on the ring it joins. */
  lemma JoinNeighbours(members: set<Id>, x: Id)
    requires members != {} && x !in members
    ensures var s := Owner(members, x);
            && Prev(members, s) == Prev(members, x) && Next(members, Prev(members, x)) == s
            && Next(members + {x}, x) == s && Prev(members + {x}, x) == Prev(members, x)
  {
    OwnerAfterPrev(members, x);
    PrevOfNext(members, Prev(members, x));
    NextInsert(members, x, x);
    PrevInsert(members, x, x);
  }

  /** A join whose lookup reaches the owner takes over exactly the joiner's blocks and leaves all
      others in place. */
  lemma JoinPlacesBlocks(c: Cluster, x: Id, via: Id)
    requires Ideal(c.net) && via in c.net && x !in c.net && Reaches(c.net, via, x)
    requires Placed(c.net.Keys, c.blocks)
    ensures Placed(c.net.Keys + {x}, JoinedTo(c, x, via).blocks)
    ensures AllBlocks(JoinedTo(c, x, via).blocks) == AllBlocks(c.blocks)
  {
    var s := Owner(c.net.Keys, x);
    LookupIffReaches(c.net, via, x);
    LookupNeverWrong(c.net, via, x);
    JoinNeighbours(c.net.Keys, x);
    assert IdealNode(Find(c.net, via, x).net, s);
    TakeOver(c.net.Keys, c.blocks, x);
    assert JoinedTo(c, x, via).blocks == Transferred(c.blocks[x := {}], s, x, Prev(c.net.Keys, x), x);
  }

  lemma TakeOver(members: set<Id>, blocks: Blocks, x: Id)
    requires members != {} && x !in members && Placed(members, blocks)
    ensures var blocks' := Transferred(blocks[x := {}], Owner(members, x), x, Prev(members, x), x);
            Placed(members + {x}, blocks') && AllBlocks(blocks') == AllBlocks(blocks)
  {
    var s, p := Owner(members, x), Prev(members, x);
    var moved := InRange(blocks[s], p, x);
    var blocks' := Transferred(blocks[x := {}], s, x, p, x);
    assert {} + moved == moved;
    assert blocks' == blocks[s := blocks[s] - moved][x := moved];
    forall n, b: Block | n in blocks' && b in blocks'[n] ensures Owner(members + {x}, b.pos) == n {
      assert b in blocks[if n == x then s else n];
      OwnerInsert(members, x, b.pos);
      if BetweenRightInclusive(b.pos, p, x) && n != x { OwnedByJoinersSuccessor(members, x, b.pos); }
    }
    forall b | b in AllBlocks(blocks) ensures b in AllBlocks(blocks') {
      var n :| n in blocks && b in blocks[n];
      assert b in blocks'[n] || b in blocks'[x];
    }
  }

  lemma OwnedByJoinersSuccessor(members: set<Id>, x: Id, pos: Id)
    requires members != {} && x !in members
    requires BetweenRightInclusive(pos, Prev(members, x), x)
    ensures Owner(members, pos) == Owner(members, x)
  {
    OwnerAfterPrev(members, x);
    OwnerInArc(members, Prev(members, x), pos);
  }

  // ---------------------------------------------------------------- joins that go astray

  lemma OwnedArc(members: set<Id>, s: Id, pos: Id)
    requires s in members && Owner(members, pos) == s
    ensures BetweenRightInclusive(pos, Prev(members, s), s)
  {
    var p := Prev(members, s);
    assert Dist(pos, s) <= Dist(pos, p);
  }

  /** The node a lookup gives up at lies between the bootstrap and the joiner. */
  lemma StrayNode(net: Net, via: Id, x: Id)
    requires Ideal(net) && via in net && x !in net && !Reaches(net, via, x)
    ensures Linked(net) && Find(net, via, x).node == LastStand(net, via, x)
    ensures BetweenExclusive(Find(net, via, x).node, via, x) && Find(net, via, x).node != Owner(net.Keys, x)
  {
    LookupIffReaches(net, via, x);
    LookupGivesUpAt(net, via, x);
    HopIsCloser(net, via, x);
    CappedIsShort(net, via, x, ClosestPreceding(net[via], via, x), MAX_LOOKUP_HOPS);
  }

  /** Such a node hands over all it holds. */
  lemma StrayHandsAll(members: set<Id>, blocks: Blocks, via: Id, x: Id, s: Id)
    requires via in members && s in members && Placed(members, blocks) && BetweenExclusive(s, via, x)
    ensures InRange(blocks[s], Prev(members, s), x) == blocks[s]
  {
    var p := Prev(members, s);
    assert Gap(p, s) <= Gap(via, s);
    forall b | b in blocks[s] ensures BetweenRightInclusive(b.pos, p, x) {
      OwnedArc(members, s, b.pos);
    }
  }

  /** Blocks after a join through a lookup that gave up at s. */
  lemma StrayTransfer(c: Cluster, x: Id, via: Id)
    requires Ideal(c.net) && via in c.net && x !in c.net && !Reaches(c.net, via, x)
    requires Placed(c.net.Keys, c.blocks)
    ensures var s := Find(c.net, via, x).node;
            JoinedTo(c, x, via).blocks ==
              if s in c.net then c.blocks[s := {}][x := c.blocks[s]] else c.blocks[x := {}]
  {
    var a := Find(c.net, via, x);
    var s := a.node;
    StrayNode(c.net, via, x);
    LookupNeverWrong(c.net, via, x);
    if s in c.net {
      assert IdealNode(a.net, s);
      StrayHandsAll(c.net.Keys, c.blocks, via, x, s);
      assert c.blocks[s] - c.blocks[s] == {} && {} + c.blocks[s] == c.blocks[s];
      assert Transferred(c.blocks[x := {}], s, x, Prev(c.net.Keys, s), x) == c.blocks[s := {}][x := c.blocks[s]];
    }
  }

  /** What is due to the joiner and still with the owner, or with the joiner and not due to it. */
  lemma StrayBlock(members: set<Id>, blocks: Blocks, x: Id, n: Id, b: Block)
    requires x !in members && n in members && Placed(members, blocks) && b in blocks[n]
    ensures Owner(members + {x}, b.pos) == n <==>
              n != Owner(members, x) || b !in InRange(blocks[n], Prev(members, x), x)
    ensures n != Owner(members, x) ==> Owner(members + {x}, b.pos) != x
  {
    OwnerInsert(members, x, b.pos);
    if BetweenRightInclusive(b.pos, Prev(members, x), x) { OwnedByJoinersSuccessor(members, x, b.pos); }
  }

  lemma NothingDuePlaces(members: set<Id>, blocks: Blocks, x: Id)
    requires members != {} && x !in members && Placed(members, blocks)
    requires InRange(blocks[Owner(members, x)], Prev(members, x), x) == {}
    ensures Placed(members + {x}, blocks[x := {}])
  {
    var blocks' := blocks[x := {}];
    forall n, b: Block | n in blocks' && b in blocks'[n] ensures Owner(members + {x}, b.pos) == n {
      assert n in members && b in blocks[n];
      StrayBlock(members, blocks, x, n, b);
    }
  }

  lemma SomethingMisplaced(members: set<Id>, blocks: Blocks, x: Id, s: Id, blocks': Blocks)
    requires members != {} && x !in members && Placed(members, blocks) && s != Owner(members, x)
    requires blocks' == if s in members then blocks[s := {}][x := blocks[s]] else blocks[x := {}]
    requires Held(blocks, s) != {} || InRange(blocks[Owner(members, x)], Prev(members, x), x) != {}
    ensures !Placed(members + {x}, blocks')
  {
    var o := Owner(members, x);
    if b :| b in Held(blocks, s) {
      StrayBlock(members, blocks, x, s, b);
      assert b in blocks'[x];
    } else {
      var b :| b in InRange(blocks[o], Prev(members, x), x);
      StrayBlock(members, blocks, x, o, b);
      assert b in blocks'[o];
    }
  }

  /** A join whose lookup gives up empties the node it gave up at and takes nothing from the owner,
      so the blocks end up placed only if neither had anything to hand over. */
  lemma StrayJoinPlaces(c: Cluster, x: Id, via: Id)
    requires Ideal(c.net) && via in c.net && x !in c.net && !Reaches(c.net, via, x)
    requires Placed(c.net.Keys, c.blocks)
    ensures Linked(c.net)
    ensures Placed(c.net.Keys + {x}, JoinedTo(c, x, via).blocks) <==>
              && Held(c.blocks, LastStand(c.net, via, x)) == {}
              && InRange(c.blocks[Owner(c.net.Keys, x)], Prev(c.net.Keys, x), x) == {}
  {
    var members, s := c.net.Keys, Find(c.net, via, x).node;
    StrayNode(c.net, via, x);
    StrayTransfer(c, x, via);
    if Held(c.blocks, s) == {} && InRange(c.blocks[Owner(members, x)], Prev(members, x), x) == {} {
      NothingDuePlaces(members, c.blocks, x);
      assert s in members ==> c.blocks[s := {}][x := c.blocks[s]] == c.blocks[x := {}];
    } else {
      SomethingMisplaced(members, c.blocks, x, s, JoinedTo(c, x, via).blocks);
    }
  }

  /** On the ring {0, 5, 6} whose node 5 still lists the dead 50, node 100 joins through 0, takes the
      block at position 3 from its owner 5, and keeps it although 5 still owns that position. */
  lemma JoinMisplacesBlock() returns (c: Cluster, b: Block)
    ensures Ideal(c.net) && ExactFingers(c.net) && c.net.Keys == {0, 5, 6} && Placed(c.net.Keys, c.blocks)
    ensures b.pos == 3 && b in c.blocks[5] && b in Held(JoinedTo(c, 100, 0).blocks, 100)
    ensures !Placed(c.net.Keys + {100}, JoinedTo(c, 100, 0).blocks)
  {
    var net, n, id := StaleRelayMisleads();
    b := Block(1, 3);
    c := Cluster(net, map[0 := {}, 5 := {b}, 6 := {}]);
    OwnerIs(net.Keys, 3, 5);
    StrayTransfer(c, 100, 0);
    StrayJoinPlaces(c, 100, 0);
  }

  // ---------------------------------------------------------------- joining restores the ring

  /** Node n is as on the ideal ring of `members`. */
  ghost predicate OldMember(net: Net, members: set<Id>, n: Id)
    requires n in net && members != {}
  {
    && net[n].successor == Next(members, n) && net[n].predecessor == Some(Prev(members, n))
    && net[n].list != [] && net[n].list[0] == net[n].successor
  }

  /** The pointers after a join, before anyone stabilizes. */
  ghost predicate JustJoined(net: Net, members: set<Id>, x: Id) {
    && members != {} && x !in members && net.Keys == members + {x}
    && net[x].successor == Owner(members, x) && net[x].predecessor == None
    && forall n {:trigger OldMember(net, members, n)} :: n in members ==> OldMember(net, members, n)
  }

  /** Stabilizing the joiner makes it known to its successor and changes no other pointer. */
  lemma JoinerStabilizes(net: Net, members: set<Id>, x: Id, size: nat)
    requires JustJoined(net, members, x)
    ensures var s := Owner(members, x); var net' := Stabilized(net, x, size);
            && net'.Keys == net.Keys
            && net'[x].successor == s && net'[x].predecessor == None
            && net'[x].list != [] && net'[x].list[0] == s
            && net'[s] == net[s].(predecessor := Some(x))
            && forall n {:trigger net'[n]} :: n in members && n != s ==> net'[n] == net[n]
  {
  }

  /** Stabilizing the predecessor then closes the ring around the joiner. */
  lemma PredecessorStabilizes(net: Net, members: set<Id>, x: Id, size: nat)
    requires members != {} && x !in members && net.Keys == members + {x}
    requires var s, p := Owner(members, x), Prev(members, x);
             && net[p].successor == s && net[s].predecessor == Some(x) && net[x].predecessor == None
    ensures var p := Prev(members, x); var net' := Stabilized(net, p, size);
            && net'.Keys == net.Keys
            && net'[p].successor == x && net'[p].list != [] && net'[p].list[0] == x
            && net'[p].predecessor == net[p].predecessor
            && net'[x] == net[x].(predecessor := Some(p))
            && forall n {:trigger net'[n]} :: n in members && n != p ==> net'[n] == net[n]
  {
  }

  lemma FreshMember(net: Net, x: Id)
    requires Ideal(net) && x !in net
    ensures JustJoined(net[x := FreshNode(x, Owner(net.Keys, x))], net.Keys, x)
  {
    var net0 := net[x := FreshNode(x, Owner(net.Keys, x))];
    assert net0.Keys == net.Keys + {x};
    forall n | n in net.Keys ensures OldMember(net0, net.Keys, n) {
      assert IdealNode(net, n);
      assert net0[n] == net[n];
    }
  }

  lemma JoinedRing(c: Cluster, x: Id, via: Id)
    requires Ideal(c.net) && via in c.net && x !in c.net && Reaches(c.net, via, x)
    ensures JustJoined(JoinedTo(c, x, via).net, c.net.Keys, x)
  {
    LookupIffReaches(c.net, via, x);
    LookupNeverWrong(c.net, via, x);
    FreshMember(Find(c.net, via, x).net, x);
  }

  /** The joiner and its successor know each other; nothing else has changed. */
  ghost predicate IntroducedNode(net: Net, members: set<Id>, x: Id, n: Id)
    requires n in net && members != {}
  {
    && net[n].successor == Next(members, n) && net[n].list != [] && net[n].list[0] == net[n].successor
    && net[n].predecessor == if n == Owner(members, x) then Some(x) else Some(Prev(members, n))
  }

  ghost predicate Introduced(net: Net, members: set<Id>, x: Id) {
    && members != {} && x !in members && net.Keys == members + {x}
    && net[x].successor == Owner(members, x) && net[x].predecessor == None
    && net[x].list != [] && net[x].list[0] == net[x].successor
    && forall n {:trigger IntroducedNode(net, members, x, n)} :: n in members ==> IntroducedNode(net, members, x, n)
  }

  lemma JoinerIntroduced(net: Net, members: set<Id>, x: Id, size: nat)
    requires JustJoined(net, members, x)
    ensures Introduced(Stabilized(net, x, size), members, x)
  {
    JoinerStabilizes(net, members, x, size);
    var net1 := Stabilized(net, x, size);
    forall n | n in members ensures IntroducedNode(net1, members, x, n) { assert OldMember(net, members, n); }
  }

  /** What stabilizing the predecessor then leaves at any member n of the larger ring. */
  lemma ClosedAround(net: Net, members: set<Id>, x: Id, size: nat, n: Id)
    requires Introduced(net, members, x) && n in members + {x}
    ensures var net2 := Stabilized(net, Prev(members, x), size);
            && net2.Keys == net.Keys
            && net2[n].successor == (if n == Prev(members, x) then x else net[n].successor)
            && net2[n].list != [] && net2[n].list[0] == net2[n].successor
            && net2[n].predecessor == if n == x then Some(Prev(members, x)) else net[n].predecessor
  {
    var s, p := Owner(members, x), Prev(members, x);
    JoinNeighbours(members, x);
    assert IntroducedNode(net, members, x, p) && IntroducedNode(net, members, x, s);
    PredecessorStabilizes(net, members, x, size);
    if n != x { assert IntroducedNode(net, members, x, n); }
  }

  /** Stabilizing the predecessor closes the ring around an introduced joiner. */
  lemma IntroducedCloses(net: Net, members: set<Id>, x: Id, size: nat)
    requires Introduced(net, members, x)
    ensures Stabilized(net, Prev(members, x), size).Keys == members + {x}
    ensures Ideal(Stabilized(net, Prev(members, x), size))
  {
    JoinNeighbours(members, x);
    ClosedAround(net, members, x, size, x);
    var net2 := Stabilized(net, Prev(members, x), size);
    forall n | n in net2 ensures IdealNode(net2, n) {
      ClosedAround(net, members, x, size, n);
      if n != x { RingAfterInsert(members, x, n); assert IntroducedNode(net, members, x, n); }
    }
  }

  /** Joining an ideal ring, then stabilizing the joiner and its predecessor, gives the ideal ring
      with the joiner; rings of one member included. */
  lemma JoinRestoresRing(c: Cluster, x: Id, via: Id, size: nat)
    requires Ideal(c.net) && via in c.net && x !in c.net && Reaches(c.net, via, x)
    ensures var net1 := Stabilized(JoinedTo(c, x, via).net, x, size);
            && Prev(c.net.Keys, x) in net1
            && var net2 := Stabilized(net1, Prev(c.net.Keys, x), size);
               net2.Keys == c.net.Keys + {x} && Ideal(net2)
  {
    JoinedRing(c, x, via);
    JoinerIntroduced(JoinedTo(c, x, via).net, c.net.Keys, x, size);
    IntroducedCloses(Stabilized(JoinedTo(c, x, via).net, x, size), c.net.Keys, x, size);
  }

  /** A joiner that starts at a member s other than its successor moves back to the member before s. */
  lemma StrayMovesBack(net: Net, members: set<Id>, x: Id, s: Id, size: nat)
    requires members != {} && x !in members && net.Keys == members + {x} && s in members && s != Owner(members, x)
    requires net[x].successor == s && net[s].predecessor == Some(Prev(members, s))
    ensures Stabilized(net, x, size).Keys == net.Keys
    ensures Stabilized(net, x, size)[x].successor == Prev(members, s)
  {
    var o, q := Owner(members, x), Prev(members, s);
    assert Dist(x, o) <= Dist(x, s);
    assert Gap(q, s) <= Gap(o, s);
    assert BetweenExclusive(q, x, s);
  }

  /** A stabilization of x that adopts q, when q takes x for its predecessor, changes nobody else. */
  lemma AdoptsAndIntroduces(net: Net, x: Id, t: Id, q: Id, size: nat)
    requires x in net && t in net && q in net && q != x && net[x].successor == t
    requires net[t].predecessor == Some(q) && BetweenExclusive(q, x, t) && Accepts(net, q, x)
    ensures var net' := Stabilized(net, x, size);
            && net'.Keys == net.Keys && net'[x].successor == q && net'[x].predecessor == net[x].predecessor
            && net'[x].list != [] && net'[x].list[0] == q && net'[q] == net[q].(predecessor := Some(x))
            && forall n {:trigger net'[n]} :: n in net && n != x && n != q ==> net'[n] == net[n]
  {
    assert AdoptsPredecessorOf(net, x, t);
  }

  /** If that is its successor, the two get to know each other as after a proper join. */
  lemma StrayIntroduced(net: Net, members: set<Id>, x: Id, s: Id, size: nat)
    requires members != {} && x !in members && net.Keys == members + {x} && s in members && s != Owner(members, x)
    requires net[x].successor == s && net[x].predecessor == None && Prev(members, s) == Owner(members, x)
    requires forall n {:trigger OldMember(net, members, n)} :: n in members ==> OldMember(net, members, n)
    ensures Introduced(Stabilized(net, x, size), members, x)
  {
    var o := Owner(members, x);
    assert OldMember(net, members, s) && OldMember(net, members, o);
    assert BetweenExclusive(o, x, s) by { assert Dist(x, o) <= Dist(x, s); }
    JoinNeighbours(members, x);
    OwnerAfterPrev(members, x);
    assert BetweenExclusive(x, Prev(members, o), o);
    AdoptsAndIntroduces(net, x, s, o, size);
    var net1 := Stabilized(net, x, size);
    forall n | n in members ensures IntroducedNode(net1, members, x, n) { assert OldMember(net, members, n); }
  }

  lemma StrayRing(c: Cluster, x: Id, via: Id)
    requires Ideal(c.net) && via in c.net && x !in c.net
    ensures var net0 := JoinedTo(c, x, via).net;
            && net0.Keys == c.net.Keys + {x} && net0[x] == FreshNode(x, Find(c.net, via, x).node)
            && forall n {:trigger OldMember(net0, c.net.Keys, n)} :: n in c.net ==> OldMember(net0, c.net.Keys, n)
  {
    LookupNeverWrong(c.net, via, x);
    var net := Find(c.net, via, x).net;
    var net0 := JoinedTo(c, x, via).net;
    assert net0.Keys == c.net.Keys + {x};
    forall n | n in c.net ensures OldMember(net0, c.net.Keys, n) {
      assert IdealNode(net, n);
      assert net0[n] == net[n];
    }
  }

  /** After a join whose lookup gives up the same two stabilizations close the ring if and only if the
      lookup gave up at the member just after the owner. */
  lemma StrayJoinCloses(c: Cluster, x: Id, via: Id, size: nat)
    requires Ideal(c.net) && via in c.net && x !in c.net && !Reaches(c.net, via, x)
    ensures Linked(c.net)
    ensures var net1 := Stabilized(JoinedTo(c, x, via).net, x, size);
            && Prev(c.net.Keys, x) in net1
            && (Ideal(Stabilized(net1, Prev(c.net.Keys, x), size)) <==>
                  LastStand(c.net, via, x) == Next(c.net.Keys, Owner(c.net.Keys, x)))
  {
    var members, s := c.net.Keys, Find(c.net, via, x).node;
    var net0 := JoinedTo(c, x, via).net;
    StrayNode(c.net, via, x);
    StrayRing(c, x, via);
    PrevOfNext(members, Owner(members, x));
    if s == Next(members, Owner(members, x)) {
      StrayIntroduced(net0, members, x, s, size);
      IntroducedCloses(Stabilized(net0, x, size), members, x, size);
    } else {
      var net1 := Stabilized(net0, x, size);
      assert net1[x].successor != Owner(members, x) && net1.Keys == net0.Keys by {
        if s in members {
          PrevOfNext(members, s);
          assert OldMember(net0, members, s);
          StrayMovesBack(net0, members, x, s, size);
        }
      }
      LeftOpen(net1, members, x, size);
    }
  }

  lemma LeftOpen(net: Net, members: set<Id>, x: Id, size: nat)
    requires members != {} && x !in members && net.Keys == members + {x} && net[x].successor != Owner(members, x)
    ensures !Ideal(Stabilized(net, Prev(members, x), size))
  {
    JoinNeighbours(members, x);
    var net2 := Stabilized(net, Prev(members, x), size);
    assert net2.Keys == net.Keys && net2[x].successor == net[x].successor;
    assert !IdealNode(net2, x);
  }

  lemma RingAfterInsert(members: set<Id>, x: Id, n: Id)
    requires n in members && x !in members
    ensures Next(members + {x}, n) == if n == Prev(members, x) then x else Next(members, n)
    ensures Prev(members + {x}, n) == if n == Owner(members, x) then x else Prev(members, n)
  {
    JoinNeighbours(members, x);
    NextInsert(members, x, n);
    PrevInsert(members, x, n);
    OwnerAfterPrev(members, x);
    var p := Prev(members, x);
    assert Gap(p, x) <= Gap(n, x);
    assert Gap(n, Next(members, n)) <= Gap(n, p);
    var s := Owner(members, x);
    assert Dist(x, s) <= Dist(x, n);
    assert Gap(Prev(members, n), n) <= Gap(s, n);
  }

  /** The handover at the joiner's first stabilization finds nothing left to copy. */
  lemma JoinerHandsNothing(net: Net, blocks: Blocks, members: set<Id>, x: Id)
    requires JustJoined(net, members, x) && Placed(members + {x}, blocks)
    ensures StabilizedBlocks(net, blocks, x) == blocks
  {
    var s, p := Owner(members, x), Prev(members, x);
    JoinNeighbours(members, x);
    OwnerAfterPrev(members, x);
    assert OldMember(net, members, s);
    assert !AdoptsPredecessorOf(net, x, s);
    assert net[x := net[x].(successor := s)] == net;
    assert HandoverStart(net, s, x) == p;
    NothingToHand(members + {x}, blocks, s, x, p);
  }

  /** Neither does the one at its predecessor's. */
  lemma PredecessorHandsNothing(net: Net, blocks: Blocks, members: set<Id>, x: Id)
    requires members != {} && x !in members && net.Keys == members + {x}
    requires net[Prev(members, x)].successor == Owner(members, x)
    requires net[Owner(members, x)].predecessor == Some(x) && net[x].predecessor == None
    requires Placed(members + {x}, blocks)
    ensures StabilizedBlocks(net, blocks, Prev(members, x)) == blocks
  {
    var s, p := Owner(members, x), Prev(members, x);
    JoinNeighbours(members, x);
    OwnerAfterPrev(members, x);
    assert AdoptsPredecessorOf(net, p, s);
    NothingToHand(members + {x}, blocks, x, p, x);
  }

  /** A join and the stabilizations that close the ring leave every block on its new owner alone. */
  lemma JoinKeepsSingleCopies(c: Cluster, x: Id, via: Id, size: nat)
    requires Ideal(c.net) && via in c.net && x !in c.net && Reaches(c.net, via, x)
    requires Placed(c.net.Keys, c.blocks)
    ensures var c1 := StabilizedAt(JoinedTo(c, x, via), x, size);
            && Prev(c.net.Keys, x) in c1.net
            && var c2 := StabilizedAt(c1, Prev(c.net.Keys, x), size);
               Placed(c.net.Keys + {x}, c2.blocks) && AllBlocks(c2.blocks) == AllBlocks(c.blocks)
  {
    var members := c.net.Keys;
    var s, p := Owner(members, x), Prev(members, x);
    JoinPlacesBlocks(c, x, via);
    JoinedRing(c, x, via);
    var c0 := JoinedTo(c, x, via);
    JoinerHandsNothing(c0.net, c0.blocks, members, x);
    JoinerStabilizes(c0.net, members, x, size);
    JoinNeighbours(members, x);
    var net1 := Stabilized(c0.net, x, size);
    assert OldMember(c0.net, members, p);
    assert net1[p].successor == c0.net[p].successor == s;
    PredecessorHandsNothing(net1, c0.blocks, members, x);
  }

  /** With single copies in place, node s holds nothing of any range that belongs to others. */
  lemma NothingToHand(members: set<Id>, blocks: Blocks, s: Id, caller: Id, from: Id)
    requires Placed(members, blocks) && s in members && caller in members && caller != s
    requires from == Prev(members, caller) || (from == s && Prev(members, s) == caller)
    ensures Pushed(blocks, s, caller, from, caller) == blocks
  {
    forall b | b in blocks[s] ensures !BetweenRightInclusive(b.pos, from, caller) {
      assert Owner(members, b.pos) == s;
      if from != Prev(members, caller) {
        assert Dist(b.pos, s) <= Dist(b.pos, caller);
      } else if BetweenRightInclusive(b.pos, from, caller) {
        PrevOfNext(members, caller);
        OwnerInArc(members, from, b.pos);
      }
    }
    assert InRange(blocks[s], from, caller) == {};
    assert blocks[caller] + {} == blocks[caller];
  }

  // ---------------------------------------------------------------- leaving

  /** What the leave notices do to any remaining node m. */
  lemma LeaveEffect(c: Cluster, n: Id, size: nat, m: Id)
    requires Ideal(c.net) && n in c.net && m in c.net && m != n
    ensures var net' := LeftBy(c, n, size).net;
            && net'.Keys == c.net.Keys - {n}
            && net'[m].successor == (if c.net[m].successor == n then c.net[n].successor else c.net[m].successor)
            && net'[m].predecessor ==
                 (if c.net[m].predecessor == Some(n) then c.net[n].predecessor else c.net[m].predecessor)
            && net'[m].list != [] && net'[m].list[0] == net'[m].successor
  {
    assert IdealNode(c.net, n) && IdealNode(c.net, m);
    assert Gap(n, m) < Gap(n, n) && Gap(m, n) < Gap(n, n);
    PrevOfNext(c.net.Keys, n);
    PrevOfNext(c.net.Keys, m);
  }

  lemma LeaveNode(c: Cluster, n: Id, size: nat, m: Id)
    requires Ideal(c.net) && n in c.net && m in c.net && m != n
    ensures m in LeftBy(c, n, size).net && IdealNode(LeftBy(c, n, size).net, m)
  {
    assert IdealNode(c.net, m) && IdealNode(c.net, n);
    LeaveEffect(c, n, size, m);
    NextRemove(c.net.Keys, n, m);
    PrevRemove(c.net.Keys, n, m);
  }

  /** The two leave notices give the ideal ring without the leaver, down to a ring of one. */
  lemma LeaveRestoresRing(c: Cluster, n: Id, size: nat)
    requires Ideal(c.net) && n in c.net && c.net.Keys != {n}
    ensures LeftBy(c, n, size).net.Keys == c.net.Keys - {n}
    ensures Ideal(LeftBy(c, n, size).net)
  {
    var other :| other in c.net && other != n;
    LeaveEffect(c, n, size, other);
    var net' := LeftBy(c, n, size).net;
    forall m | m in net' ensures IdealNode(net', m) { LeaveNode(c, n, size, m); }
    assert other in net';
  }

  /** The leaver's blocks end with its successor, their new owner; none is lost or duplicated. */
  lemma LeavePlacesBlocks(c: Cluster, n: Id, size: nat)
    requires Ideal(c.net) && n in c.net && c.net.Keys != {n}
    requires Placed(c.net.Keys, c.blocks)
    ensures Placed(c.net.Keys - {n}, LeftBy(c, n, size).blocks)
    ensures AllBlocks(LeftBy(c, n, size).blocks) == AllBlocks(c.blocks)
  {
    var members := c.net.Keys;
    assert IdealNode(c.net, n);
    var s := Next(members, n);
    var other :| other in members && other != n;
    assert Gap(n, other) < Gap(n, n);
    var blocks' := LeftBy(c, n, size).blocks;
    assert blocks' == c.blocks[s := c.blocks[s] + c.blocks[n]] - {n};
    forall m, b: Block | m in blocks' && b in blocks'[m] ensures Owner(members - {n}, b.pos) == m {
      OwnerRemove(members, n, b.pos);
      assert b in c.blocks[m] || (m == s && b in c.blocks[n]);
    }
    forall b | b in AllBlocks(c.blocks) ensures b in AllBlocks(blocks') {
      var m :| m in c.blocks && b in c.blocks[m];
      assert b in blocks'[if m == n then s else m];
    }
    forall b | b in AllBlocks(blocks') ensures b in AllBlocks(c.blocks) {
      var m :| m in blocks' && b in blocks'[m];
      assert b in c.blocks[m] || b in c.blocks[n];
    }
  }
}
