/** Blocks on rings of any shape: what a node hands to a newly accepted predecessor, and when a join
    leaves every block with its owner although the ring is not ideal yet. */
module Handover {
  import opened Ids
  import opened Options
  import opened Ring
  import opened Network
  import opened Lookup
  import opened Fingers
  import opened Membership

  /** Whatever block is held anywhere, its owner has a copy of it. */
  ghost predicate Covered(members: set<Id>, blocks: Blocks) {
    && blocks.Keys == members && members != {}
    && forall n, b {:trigger b in blocks[n]} :: n in blocks && b in blocks[n] ==> b in blocks[Owner(members, b.pos)]
  }

  /** Block by block, an accepted caller ends with what it had and what the other holds from its old
      predecessor, if the caller is closer, or else from itself, up to the caller; nobody else changes. */
  lemma HandedOver(net: Net, blocks: Blocks, s: Id, caller: Id, m: Id, b: Block)
    requires s in net && caller in net && caller != s && net.Keys == blocks.Keys && m in blocks
    requires net[s].predecessor.None? || net[s].predecessor.value !in net
             || BetweenExclusive(caller, net[s].predecessor.value, s)
    ensures var pred := net[s].predecessor;
            var from := if pred.Some? && BetweenExclusive(caller, pred.value, s) then pred.value else s;
            && m in NotifiedBlocks(net, blocks, s, caller)
            && (b in NotifiedBlocks(net, blocks, s, caller)[m] <==>
                  b in blocks[m] || (m == caller && b in blocks[s] && BetweenRightInclusive(b.pos, from, caller)))
  {
  }

  /** Block by block, the hand-over a stabilization sets off: none with a dead successor, else from the
      successor's live predecessor if that lies between, or from the successor itself. */
  lemma StabilizeHandsOver(net: Net, blocks: Blocks, n: Id, m: Id, b: Block)
    requires n in net && net.Keys == blocks.Keys && m in blocks
    ensures m in StabilizedBlocks(net, blocks, n)
    ensures var succ := net[n].successor;
            var after := StabilizedBlocks(net, blocks, n);
            if succ !in net then after == blocks
            else
              var back := net[succ].predecessor;
              var t := if back.Some? && back.value in net && BetweenExclusive(back.value, n, succ) then back.value else succ;
              var pred := net[t].predecessor;
              var from := if pred.Some? && BetweenExclusive(n, pred.value, t) then pred.value else t;
              b in after[m] <==>
                b in blocks[m]
                || (&& m == n && t != n
                    && (pred.None? || pred.value !in net || BetweenExclusive(n, pred.value, t))
                    && b in blocks[t] && BetweenRightInclusive(b.pos, from, n))
  {
    var succ := net[n].successor;
    if succ in net {
      var t := if AdoptsPredecessorOf(net, n, succ) then net[succ].predecessor.value else succ;
      var net1 := net[n := net[n].(successor := t)];
      assert net1[t].predecessor == net[t].predecessor && net1.Keys == net.Keys;
    }
  }

  // ---------------------------------------------------------------- a join, then one stabilization

  /** The joiner's successor remembers nobody between the joiner's predecessor and itself. */
  ghost predicate Unshadowed(net: Net, s: Id, x: Id)
    requires s in net
  {
    net[s].predecessor.Some? ==> !BetweenExclusive(net[s].predecessor.value, Prev(net.Keys, x), s)
  }

  /** No member lies between a joiner's neighbours. */
  lemma NoMemberBetween(members: set<Id>, x: Id, p: Id)
    requires members != {} && x !in members && p in members
    ensures !BetweenExclusive(p, Prev(members, x), Owner(members, x))
    ensures p != Owner(members, x) ==> BetweenExclusive(x, p, Owner(members, x))
  {
    JoinNeighbours(members, x);
    var q := Prev(members, x);
    assert Gap(q, Owner(members, x)) <= Gap(q, p);
    assert Dist(x, Owner(members, x)) <= Dist(x, p);
  }

  /** The state right after x has joined through a lookup that found its successor s. */
  lemma JoinedShape(c: Cluster, x: Id, via: Id)
    requires via in c.net && x !in c.net && c.blocks.Keys == c.net.Keys
    requires Find(c.net, via, x).node == Owner(c.net.Keys, x)
    ensures var s := Owner(c.net.Keys, x);
            var c1 := JoinedTo(c, x, via);
            var pred := c.net[s].predecessor;
            && c1.net.Keys == c.net.Keys + {x} && c1.net[x].successor == s
            && c1.net[s].predecessor == pred
            && c1.blocks == if pred.Some? && pred.value != x
                            then Transferred(c.blocks[x := {}], s, x, pred.value, x) else c.blocks[x := {}]
  {
    FindTidies(c.net, via, x);
  }

  /** Its first stabilization: s hands over once more, unless it takes x for its predecessor already. */
  lemma FirstStabilization(net: Net, blocks: Blocks, members: set<Id>, x: Id)
    requires members != {} && x !in members && net.Keys == members + {x} && blocks.Keys == net.Keys
    requires net[x].successor == Owner(members, x)
    ensures var s := Owner(members, x);
            StabilizedBlocks(net, blocks, x) ==
              if net[s].predecessor == Some(x) then blocks
              else Pushed(blocks, s, x, HandoverStart(net, s, x), x)
  {
    var s := Owner(members, x);
    var pred := net[s].predecessor;
    if pred.Some? && pred.value in members { NoMemberBetween(members, x, pred.value); }
    assert net[x := net[x].(successor := s)] == net;
    assert !AdoptsPredecessorOf(net, x, s);
  }

  function JoinedAndStabilized(c: Cluster, x: Id, via: Id, size: nat): Cluster
    requires via in c.net && x !in c.net
  {
    StabilizedAt(JoinedTo(c, x, via), x, size)
  }

  /** Who holds what after both steps. */
  lemma AfterBoth(c: Cluster, x: Id, via: Id, size: nat)
    requires via in c.net && x !in c.net && c.blocks.Keys == c.net.Keys
    requires Find(c.net, via, x).node == Owner(c.net.Keys, x)
    ensures var s := Owner(c.net.Keys, x);
            var pred := c.net[s].predecessor;
            var blocks' := JoinedAndStabilized(c, x, via, size).blocks;
            && blocks'.Keys == c.net.Keys + {x}
            && (forall m {:trigger blocks'[m]} :: m in c.net && m != s ==> blocks'[m] == c.blocks[m])
            && (pred == None ==> blocks'[s] == c.blocks[s] && blocks'[x] == InRange(c.blocks[s], s, x))
            && (pred == Some(x) ==> blocks'[s] == c.blocks[s] && blocks'[x] == {})
            && (pred.Some? && pred.value != x ==>
                  && blocks'[s] == c.blocks[s] - InRange(c.blocks[s], pred.value, x)
                  && InRange(c.blocks[s], pred.value, x) <= blocks'[x] <= c.blocks[s])
            && (pred.Some? && BetweenExclusive(x, pred.value, s) ==> blocks'[x] == InRange(c.blocks[s], pred.value, x))
  {
    var c1 := JoinedTo(c, x, via);
    JoinedShape(c, x, via);
    FirstStabilization(c1.net, c1.blocks, c.net.Keys, x);
  }

  /** Where a block of the joiner's successor belongs once x is in. */
  lemma SplitBetween(members: set<Id>, x: Id, pos: Id)
    requires members != {} && x !in members && Owner(members, pos) == Owner(members, x)
    ensures Owner(members + {x}, pos) == if BetweenRightInclusive(pos, Prev(members, x), x) then x else Owner(members, x)
    ensures BetweenRightInclusive(pos, Prev(members, x), x) || BetweenRightInclusive(pos, x, Owner(members, x))
  {
    OwnerInsert(members, x, pos);
    JoinNeighbours(members, x);
    OwnedArc(members, Owner(members, x), pos);
  }

  /** A predecessor p remembered outside (q, s) cuts the arc from q to s exactly at x. */
  lemma CutAtJoiner(q: Id, x: Id, s: Id, p: Id, pos: Id)
    requires BetweenExclusive(x, q, s) && !BetweenExclusive(p, q, s)
    ensures BetweenRightInclusive(pos, q, x) ==> BetweenRightInclusive(pos, p, x)
    ensures BetweenRightInclusive(pos, x, s) ==> !BetweenRightInclusive(pos, p, x)
  {
  }

  lemma Elsewhere(members: set<Id>, x: Id, pos: Id)
    requires members != {} && x !in members && Owner(members, pos) != Owner(members, x)
    ensures Owner(members + {x}, pos) == Owner(members, pos)
  {
    OwnerInsert(members, x, pos);
    if BetweenRightInclusive(pos, Prev(members, x), x) { OwnedByJoinersSuccessor(members, x, pos); }
  }

  /** A block of the joiner's successor goes to the joiner or stays, as it should. */
  lemma SuccessorsBlock(c: Cluster, x: Id, via: Id, size: nat, b: Block)
    requires via in c.net && x !in c.net && c.blocks.Keys == c.net.Keys
    requires Find(c.net, via, x).node == Owner(c.net.Keys, x) && Unshadowed(c.net, Owner(c.net.Keys, x), x)
    requires b in c.blocks[Owner(c.net.Keys, x)] && Owner(c.net.Keys, b.pos) == Owner(c.net.Keys, x)
    ensures b in Held(JoinedAndStabilized(c, x, via, size).blocks, Owner(c.net.Keys + {x}, b.pos))
  {
    var members, s := c.net.Keys, Owner(c.net.Keys, x);
    var pred := c.net[s].predecessor;
    AfterBoth(c, x, via, size);
    SplitBetween(members, x, b.pos);
    JoinNeighbours(members, x);
    OwnerAfterPrev(members, x);
    CutAtJoiner(Prev(members, x), x, s, if pred.Some? then pred.value else s, b.pos);
  }

  /** On a ring of any shape: if the lookup found the joiner's successor, and that one remembers no
      predecessor between the joiner's neighbours, the join and one stabilization at the joiner leave
      every block with its owner. In particular if it has no predecessor and the join hands nothing. */
  lemma JoinKeepsCover(c: Cluster, x: Id, via: Id, size: nat)
    requires via in c.net && x !in c.net && Covered(c.net.Keys, c.blocks)
    requires Find(c.net, via, x).node == Owner(c.net.Keys, x) && Unshadowed(c.net, Owner(c.net.Keys, x), x)
    ensures Covered(c.net.Keys + {x}, JoinedAndStabilized(c, x, via, size).blocks)
    ensures AllBlocks(JoinedAndStabilized(c, x, via, size).blocks) == AllBlocks(c.blocks)
  {
    var members, s := c.net.Keys, Owner(c.net.Keys, x);
    var blocks' := JoinedAndStabilized(c, x, via, size).blocks;
    AfterBoth(c, x, via, size);
    forall b | b in AllBlocks(c.blocks) ensures b in blocks'[Owner(members + {x}, b.pos)] {
      var n :| n in c.blocks && b in c.blocks[n];
      assert b in c.blocks[Owner(members, b.pos)];
      if Owner(members, b.pos) == s {
        SuccessorsBlock(c, x, via, size, b);
      } else {
        Elsewhere(members, x, b.pos);
      }
    }
    forall n, b: Block | n in blocks' && b in blocks'[n] ensures b in AllBlocks(c.blocks) {
      assert b in c.blocks[if n == x then s else n];
    }
    assert AllBlocks(blocks') == AllBlocks(c.blocks);
  }

  /** Where the arcs meet a predecessor p remembered inside (q, s). */
  lemma CutElsewhere(q: Id, x: Id, s: Id, p: Id)
    requires BetweenExclusive(x, q, s) && BetweenExclusive(p, q, s)
    ensures BetweenRightInclusive(p, q, x) && p != x ==>
              BetweenExclusive(x, p, s) && !BetweenRightInclusive(p, p, x) && BetweenRightInclusive(p, q, s)
    ensures !BetweenRightInclusive(p, q, x) ==> BetweenRightInclusive(s, p, x) && !BetweenRightInclusive(s, q, x)
  {
  }

  lemma OnlyCopy(members: set<Id>, b: Block) returns (blocks: Blocks)
    requires members != {}
    ensures Covered(members, blocks) && blocks[Owner(members, b.pos)] == {b}
  {
    blocks := map m | m in members :: if m == Owner(members, b.pos) then {b} else {};
  }

  /** The block a remembered predecessor between the joiner's neighbours makes go astray. */
  function AstrayAt(q: Id, x: Id, s: Id, p: Id): Id {
    if BetweenRightInclusive(p, q, x) then p else s
  }

  /** And only then: otherwise one block suffices to end up without a copy at its owner. */
  lemma ShadowedJoinUncovers(net: Net, x: Id, via: Id, size: nat) returns (blocks: Blocks)
    requires via in net && x !in net
    requires Find(net, via, x).node == Owner(net.Keys, x) && !Unshadowed(net, Owner(net.Keys, x), x)
    ensures Covered(net.Keys, blocks)
    ensures !Covered(net.Keys + {x}, JoinedAndStabilized(Cluster(net, blocks), x, via, size).blocks)
  {
    var members, s := net.Keys, Owner(net.Keys, x);
    var q, p := Prev(members, x), net[s].predecessor.value;
    var b := Block(0, AstrayAt(q, x, s, p));
    JoinNeighbours(members, x);
    OwnerAfterPrev(members, x);
    CutElsewhere(q, x, s, p);
    OwnerInArc(members, q, b.pos);
    blocks := OnlyCopy(members, b);
    AfterBoth(Cluster(net, blocks), x, via, size);
    SplitBetween(members, x, b.pos);
    Uncovered(members + {x}, JoinedAndStabilized(Cluster(net, blocks), x, via, size).blocks, b, x, s);
  }

  lemma Uncovered(members: set<Id>, blocks: Blocks, b: Block, x: Id, s: Id)
    requires x in members && s in members && blocks.Keys == members && Owner(members, b.pos) in {x, s}
    requires b in blocks[x] || b in blocks[s]
    requires b !in blocks[Owner(members, b.pos)]
    ensures !Covered(members, blocks)
  {
  }

  /** A lone node that has not heard of anybody hands a joiner its share at the first stabilization and
      keeps its own copies. */
  lemma LoneJoin(c: Cluster, x: Id, m: Id, size: nat)
    requires c.net.Keys == {m} && c.net[m].successor == m && c.net[m].predecessor == None
    requires c.blocks.Keys == {m} && x != m
    ensures var c' := JoinedAndStabilized(c, x, m, size);
            && c'.blocks.Keys == {m, x} && c'.blocks[m] == c.blocks[m]
            && forall b :: b in c'.blocks[x] <==> b in c.blocks[m] && Owner({m, x}, b.pos) == x
    ensures Covered({m, x}, JoinedAndStabilized(c, x, m, size).blocks)
  {
    assert Owner({m}, x) == m && Prev({m}, x) == m;
    assert {m} + {x} == {m, x};
    AfterBoth(c, x, m, size);
    JoinKeepsCover(c, x, m, size);
    forall b: Block ensures Owner({m, x}, b.pos) == x <==> BetweenRightInclusive(b.pos, m, x) {
      OwnerInsert({m}, x, b.pos);
      assert Owner({m}, b.pos) == m;
    }
  }
}
