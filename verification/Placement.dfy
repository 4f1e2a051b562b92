/** Replica placement: where a put lands, and which blocks pruning lets go. */
module Placement {
  import opened Ids
  import opened Ring
  import opened Network
  import opened Lookup
  import opened Routes
  import opened Topology
  import opened Recovery
  import opened Membership

  /** The owner of a position and the members after it, k in all or everyone. */
  ghost function ReplicaSet(members: set<Id>, pos: Id, k: nat): set<Id>
    requires members != {}
  {
    set i | 0 <= i < (if k < |members| then k else |members|) :: NextN(members, Owner(members, pos), i)
  }

  // ---------------------------------------------------------------- indices around the ring

  lemma PrevNIndex(s: seq<Id>, p: nat, j: nat)
    requires StrictlySorted(s) && p < |s| && j <= |s|
    ensures Elements(s) != {} && PrevN(Elements(s), s[p], j) == s[Wrap(p + |s| - j, |s|)]
  {
    var q := Wrap(p + |s| - j, |s|);
    SortedNextN(s, q, j);
    assert s[q] in Elements(s);
    PrevNOfNextN(Elements(s), s[q], j);
  }

  lemma Position(members: set<Id>, n: Id) returns (s: seq<Id>, p: nat)
    requires n in members
    ensures StrictlySorted(s) && Elements(s) == members && |s| == |members|
    ensures p < |s| && s[p] == n
  {
    s := InOrder(members);
    SortedSize(s);
    p :| 0 <= p < |s| && s[p] == n;
  }

  /** Fewer steps than members never meet the same member twice. */
  lemma DistinctWalk(members: set<Id>, n: Id, i: nat, j: nat)
    requires n in members && i < j < |members|
    ensures PrevN(members, n, i) != PrevN(members, n, j)
  {
    var s, p := Position(members, n);
    PrevNIndex(s, p, i);
    PrevNIndex(s, p, j);
  }

  /** Walking once around meets every member. */
  lemma WalkCovers(members: set<Id>, a: Id, z: Id) returns (i: nat)
    requires a in members && z in members
    ensures i < |members| && NextN(members, a, i) == z
  {
    var s, p := Position(members, a);
    var q :| 0 <= q < |s| && s[q] == z;
    i := if q >= p then q - p else q - p + |s|;
    SortedNextN(s, p, i);
  }

  // ---------------------------------------------------------------- putting

  /** The peers a node pushes a freshly stored block to. */
  function Targets(st: NodeState, n: Id, k: nat): set<Id> {
    set i | 0 <= i < k - 1 && i < |st.list| && st.list[i] != n :: st.list[i]
  }

  /** The nodes a put through `via` stores the block on, when no push is dropped and the stores of
      `full` have no room: none if the responsible node does not answer or has no room, and only the
      pushes to other live nodes with room succeed. */
  function Holders(net: Net, via: Id, pos: Id, k: nat, full: set<Id>): set<Id>
    requires via in net
  {
    var a := Find(net, via, pos);
    if a.node !in a.net || a.node in full then {}
    else {a.node} + LiveTargets(a.net, a.node, k, full)
  }

  function LiveTargets(net: Net, n: Id, k: nat, full: set<Id>): set<Id>
    requires n in net
  {
    Targets(net[n], n, k) * (net.Keys - full)
  }

  /** The first k entries of a list, or all of it. */
  function Nearest(list: seq<Id>, k: int): seq<Id> {
    if k <= 0 then [] else if k < |list| then list[..k] else list
  }

  lemma TargetsAreNearest(st: NodeState, n: Id, k: nat)
    ensures forall z :: z in Targets(st, n, k) <==> z in Nearest(st.list, k - 1) && z != n
  {
    forall z | z in Nearest(st.list, k - 1) && z != n ensures z in Targets(st, n, k) {
      var i :| 0 <= i < |Nearest(st.list, k - 1)| && Nearest(st.list, k - 1)[i] == z;
      assert st.list[i] == z;
    }
  }

  /** Block b added at every node of a set. */
  function Added(blocks: Blocks, nodes: set<Id>, b: Block): Blocks {
    map n | n in blocks.Keys + nodes :: Held(blocks, n) + if n in nodes then {b} else {}
  }

  lemma AddedNone(blocks: Blocks, b: Block)
    ensures Added(blocks, {}, b) == blocks
  {
    assert Added(blocks, {}, b).Keys == blocks.Keys;
    forall n | n in blocks ensures Added(blocks, {}, b)[n] == blocks[n] {}
  }

  /** The nodes of `open`, n excepted, among the first i entries of a list. */
  function PushedTo(open: set<Id>, n: Id, list: seq<Id>, i: nat): set<Id>
    requires i <= |list|
  {
    if i == 0 then {}
    else PushedTo(open, n, list, i - 1) + if list[i - 1] != n && list[i - 1] in open then {list[i - 1]} else {}
  }

  lemma {:induction false} PushedToIs(open: set<Id>, n: Id, list: seq<Id>, i: nat)
    requires i <= |list|
    ensures forall z :: z in PushedTo(open, n, list, i) <==>
              z in open && z != n && exists j :: 0 <= j < i && list[j] == z
  {
    if i > 0 { PushedToIs(open, n, list, i - 1); }
  }

  /** The blocks after the pushes to the first i entries. */
  function Pushes(blocks: Blocks, open: set<Id>, n: Id, list: seq<Id>, i: nat, b: Block): Blocks
    requires i <= |list|
  {
    if i == 0 then blocks
    else
      var was, to := Pushes(blocks, open, n, list, i - 1, b), list[i - 1];
      if to != n && to in open then was[to := Held(was, to) + {b}] else was
  }

  lemma {:induction false} PushesAre(blocks: Blocks, open: set<Id>, n: Id, list: seq<Id>, i: nat, b: Block)
    requires i <= |list| && open <= blocks.Keys
    ensures Pushes(blocks, open, n, list, i, b) == Added(blocks, PushedTo(open, n, list, i), b)
  {
    if i == 0 {
      AddedNone(blocks, b);
    } else {
      PushesAre(blocks, open, n, list, i - 1, b);
      var pushed, to := PushedTo(open, n, list, i - 1), list[i - 1];
      if to != n && to in open {
        AddedMore(blocks, pushed, to, b);
      } else {
        assert PushedTo(open, n, list, i) == pushed + {} == pushed;
      }
    }
  }

  lemma PushedToAll(net: Net, n: Id, i: nat, k: nat, full: set<Id>)
    requires n in net && i <= |net[n].list| && (i == k - 1 || (i == |net[n].list| && i <= k - 1) || (i == 0 && k == 0))
    ensures PushedTo(net.Keys - full, n, net[n].list, i) == LiveTargets(net, n, k, full)
  {
    var list := net[n].list;
    PushedToIs(net.Keys - full, n, list, i);
    forall z ensures z in PushedTo(net.Keys - full, n, list, i) <==> z in LiveTargets(net, n, k, full) {
      if z in LiveTargets(net, n, k, full) {
        var j :| 0 <= j < k - 1 && j < |list| && list[j] == z;
      }
    }
  }

  /** All pushes together add the block at the live targets. */
  lemma PushesEnd(blocks: Blocks, net: Net, n: Id, i: nat, k: nat, full: set<Id>, b: Block)
    requires n in net && net.Keys <= blocks.Keys
    requires i <= |net[n].list| && (i == k - 1 || (i == |net[n].list| && i <= k - 1) || (i == 0 && k == 0))
    ensures Pushes(blocks, net.Keys - full, n, net[n].list, i, b) == Added(blocks, LiveTargets(net, n, k, full), b)
  {
    PushesAre(blocks, net.Keys - full, n, net[n].list, i, b);
    PushedToAll(net, n, i, k, full);
  }

  /** Adding the block at one more node. */
  lemma AddedMore(blocks: Blocks, nodes: set<Id>, o: Id, b: Block)
    requires o in blocks
    ensures o in Added(blocks, nodes, b)
    ensures Added(blocks, nodes + {o}, b) == Added(blocks, nodes, b)[o := Added(blocks, nodes, b)[o] + {b}]
  {
    var l, r := Added(blocks, nodes + {o}, b), Added(blocks, nodes, b)[o := Added(blocks, nodes, b)[o] + {b}];
    assert l.Keys == r.Keys;
    forall n | n in l ensures l[n] == r[n] {}
  }

  /** Adding at one set of nodes and then at another. */
  lemma AddedTwice(blocks: Blocks, s: set<Id>, t: set<Id>, b: Block)
    ensures Added(Added(blocks, s, b), t, b) == Added(blocks, s + t, b)
  {
    var mid := Added(blocks, s, b);
    var l, r := Added(mid, t, b), Added(blocks, s + t, b);
    assert l.Keys == r.Keys;
    forall n | n in r ensures l[n] == r[n] {
      assert Held(mid, n) == Held(blocks, n) + if n in s then {b} else {};
    }
  }

  lemma AddedAtOwner(blocks: Blocks, o: Id, others: set<Id>, b: Block)
    requires o in blocks
    ensures Added(blocks[o := blocks[o] + {b}], others, b) == Added(blocks, {o} + others, b)
  {
    AddedNone(blocks, b);
    AddedMore(blocks, {}, o, b);
    assert {} + {o} == {o};
    AddedTwice(blocks, {o}, others, b);
  }

  lemma TargetsAreReplicas(net: Net, pos: Id, k: nat)
    requires net != map[] && k >= 1
    requires var o := Owner(net.Keys, pos);
             && ExactList(net.Keys, o, net[o].list)
             && (|net[o].list| >= k - 1 || |net[o].list| >= |net.Keys| - 1)
    ensures var o := Owner(net.Keys, pos); {o} + Targets(net[o], o, k) == ReplicaSet(net.Keys, pos, k)
  {
    var members := net.Keys;
    var o := Owner(members, pos);
    var list := net[o].list;
    var count := if k < |members| then k else |members|;
    assert o in members && |members| > 0;
    forall z | z in {o} + Targets(net[o], o, k) ensures z in ReplicaSet(members, pos, k) {
      if z == o {
        assert NextN(members, o, 0) == z;
      } else {
        var i :| 0 <= i < k - 1 && i < |list| && list[i] == z;
        assert NextN(members, o, i + 1) == z;
        if i + 1 >= count {
          var j := WalkCovers(members, o, z);
        }
      }
    }
    forall z | z in ReplicaSet(members, pos, k) ensures z in {o} + Targets(net[o], o, k) {
      var i :| 0 <= i < count && NextN(members, o, i) == z;
      if i > 0 {
        assert list[i - 1] == z;
      }
    }
  }

  /** On an ideal ring whose owner keeps an exact list of k-1 entries, or of everyone, an undropped
      put whose lookup reaches the owner lands on exactly the key's replica nodes with room, unless
      the owner itself has none: then it lands nowhere. */
  lemma PutLandsOnReplicas(net: Net, via: Id, pos: Id, k: nat, full: set<Id>)
    requires Ideal(net) && k >= 1 && Reaches(net, via, pos)
    requires var o := Owner(net.Keys, pos);
             && ExactList(net.Keys, o, net[o].list)
             && (|net[o].list| >= k - 1 || |net[o].list| >= |net.Keys| - 1)
    ensures Holders(net, via, pos, k, full) ==
              if Owner(net.Keys, pos) in full then {} else ReplicaSet(net.Keys, pos, k) - full
  {
    LookupIffReaches(net, via, pos);
    LookupNeverWrong(net, via, pos);
    var a, o := Find(net, via, pos), Owner(net.Keys, pos);
    FindKeepsLists(net, via, pos, o);
    TargetsAreReplicas(a.net, pos, k);
    assert Targets(a.net[o], o, k) <= ReplicaSet(net.Keys, pos, k) <= net.Keys;
    assert LiveTargets(a.net, o, k, full) == Targets(a.net[o], o, k) - full;
  }

  /** With single copies nothing less will do: a put lands on the owner alone if and only if its
      lookup reaches the owner. */
  lemma SinglePutIff(net: Net, via: Id, pos: Id)
    requires Ideal(net) && via in net
    ensures Holders(net, via, pos, 1, {}) == ReplicaSet(net.Keys, pos, 1) <==> Reaches(net, via, pos)
  {
    LookupIffReaches(net, via, pos);
    var o := Owner(net.Keys, pos);
    assert o in net && |net.Keys| >= 1;
    assert NextN(net.Keys, o, 0) == o;
    assert ReplicaSet(net.Keys, pos, 1) == {o};
    var a := Find(net, via, pos);
    assert a.node in a.net ==> LiveTargets(a.net, a.node, 1, {}) == {};
  }

  // ---------------------------------------------------------------- predecessor lists

  ghost predicate ExactPredecessors(members: set<Id>, n: Id, list: seq<Id>)
    requires members != {}
  {
    |list| < |members| && forall j :: 0 <= j < |list| ==> list[j] == PrevN(members, n, j + 1)
  }

  /** On an ideal ring the predecessor walk lists the previous members, up to its length limit or
      until it has listed everyone else. */
  lemma {:induction false} WalkIsExact(net: Net, n: Id, walked: seq<Id>, size: nat)
    requires Ideal(net) && n in net
    requires walked != [] && ExactPredecessors(net.Keys, n, walked)
    requires |walked| == 1 || |walked| <= size
    ensures var r := PredWalk(net, n, walked, size);
            && ExactPredecessors(net.Keys, n, r)
            && (|r| == |net.Keys| - 1 || (|r| >= size && |r| >= 1))
            && (|r| == 1 || |r| <= size)
    decreases size - |walked|
  {
    var members := net.Keys;
    var k := |walked|;
    var cur := walked[k - 1];
    if k < size {
      assert cur == PrevN(members, n, k);
      DistinctWalk(members, n, 0, k);
      assert IdealNode(net, cur);
      var q := Prev(members, cur);
      assert q == PrevN(members, n, k + 1);
      if k + 1 < |members| {
        DistinctWalk(members, n, 0, k + 1);
        forall j | 0 <= j < k ensures walked[j] != q { DistinctWalk(members, n, j + 1, k + 1); }
        WalkIsExact(net, n, walked + [q], size);
      } else {
        FullTurn(members, n);
      }
    }
  }

  lemma FullTurn(members: set<Id>, n: Id)
    requires n in members
    ensures PrevN(members, n, |members|) == n
  {
    var s, p := Position(members, n);
    PrevNIndex(s, p, |s|);
  }

  lemma RefreshedPredecessors(net: Net, n: Id, size: nat)
    requires Ideal(net) && n in net && |net.Keys| >= 2
    ensures var list := PredListRefreshed(net, n, size)[n].predList;
            && ExactPredecessors(net.Keys, n, list)
            && (|list| == |net.Keys| - 1 || |list| >= size)
  {
    assert IdealNode(net, n);
    assert PrevN(net.Keys, n, 1) == Prev(net.Keys, PrevN(net.Keys, n, 0));
    WalkIsExact(net, n, [Prev(net.Keys, n)], size);
  }

  // ---------------------------------------------------------------- pruning

  /** Pruning drops a block whose position lies outside the window of the last k predecessors. */
  predicate Prunes(st: NodeState, n: Id, k: nat, pos: Id) {
    k > 1 && st.predecessor.Some? && |st.predList| >= k
    && !BetweenRightInclusive(pos, st.predList[k - 1], n)
  }

  function Kept(held: set<Block>, st: NodeState, n: Id, k: nat): set<Block> {
    set b | b in held && !Prunes(st, n, k, b.pos)
  }

  function Pruned(net: Net, blocks: Blocks, n: Id, k: nat): Blocks
    requires n in net
  {
    blocks[n := Kept(Held(blocks, n), net[n], n, k)]
  }

  lemma OwnsArc(members: set<Id>, n: Id, pos: Id)
    requires n in members
    ensures BetweenRightInclusive(pos, Prev(members, n), n) <==> Owner(members, pos) == n
  {
    PrevOfNext(members, n);
    if BetweenRightInclusive(pos, Prev(members, n), n) {
      OwnerInArc(members, Prev(members, n), pos);
    } else {
      OwnerAfterPrev(members, pos);
      PrevOfNext(members, Prev(members, pos));
    }
  }

  /** The arc behind n down to its k-th predecessor holds exactly the positions owned by n or one of
      its k-1 predecessors. */
  lemma {:induction false} WindowArc(members: set<Id>, n: Id, k: nat, pos: Id)
    requires n in members && 1 <= k < |members|
    ensures BetweenRightInclusive(pos, PrevN(members, n, k), n) <==>
            exists i {:trigger PrevN(members, n, i)} :: 0 <= i < k && PrevN(members, n, i) == Owner(members, pos)
    decreases k
  {
    var y := PrevN(members, n, k - 1);
    var y' := PrevN(members, n, k);
    assert y in members;
    OwnsArc(members, y, pos);
    assert y' == Prev(members, y);
    if k == 1 {
      assert PrevN(members, n, 0) == n;
    } else {
      WindowArc(members, n, k - 1, pos);
      DistinctWalk(members, n, 0, k - 1);
      DistinctWalk(members, n, 0, k);
      assert Gap(y', y) <= Gap(n, y);
      assert BetweenRightInclusive(pos, y', n) <==>
             BetweenRightInclusive(pos, y', y) || BetweenRightInclusive(pos, y, n);
    }
  }

  /** n replicates a position exactly when the position's owner is among n and the members before it. */
  lemma ReplicaIffWindow(members: set<Id>, n: Id, k: nat, pos: Id)
    requires n in members && 1 <= k <= |members|
    ensures n in ReplicaSet(members, pos, k) <==>
            exists i {:trigger PrevN(members, n, i)} :: 0 <= i < k && PrevN(members, n, i) == Owner(members, pos)
  {
    var o := Owner(members, pos);
    if n in ReplicaSet(members, pos, k) {
      var i :| 0 <= i < k && NextN(members, o, i) == n;
      PrevNOfNextN(members, o, i);
    }
    if i :| 0 <= i < k && PrevN(members, n, i) == o {
      PrevNOfNextN(members, n, i);
      assert NextN(members, o, i) == n;
    }
  }

  /** With exact predecessors, at least k of them or everyone, pruning drops a block at a node exactly
      when the node is not one of the block's replica nodes; with replication 1 it drops nothing. */
  lemma PruneDropsNonReplicas(net: Net, n: Id, k: nat, pos: Id)
    requires Ideal(net) && n in net && k >= 1
    requires ExactPredecessors(net.Keys, n, net[n].predList)
    requires |net[n].predList| >= k || |net[n].predList| == |net.Keys| - 1
    ensures Prunes(net[n], n, k, pos) <==> k >= 2 && n !in ReplicaSet(net.Keys, pos, k)
  {
    var members := net.Keys;
    assert IdealNode(net, n);
    if k >= 2 && |net[n].predList| >= k {
      WindowArc(members, n, k, pos);
      ReplicaIffWindow(members, n, k, pos);
    } else if k >= 2 {
      var i := WalkCovers(members, Owner(members, pos), n);
    }
  }
}
