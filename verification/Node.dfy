/** The nodes of a ring in one place: every method performs one node operation step by step, in
    place, and is proved to have the effect the other modules reason about. */
module NodeOperations {
  import opened Ids
  import opened Options
  import opened Network
  import opened Lookup
  import opened Routes
  import opened Fingers
  import opened Membership
  import opened Placement

  class Overlay {
    var net: Net
    var blocks: Blocks
    const listSize: nat
    const replication: nat

    constructor (net: Net, blocks: Blocks, listSize: nat, replication: nat)
      ensures this.net == net && this.blocks == blocks
      ensures this.listSize == listSize && this.replication == replication
    {
      this.net := net;
      this.blocks := blocks;
      this.listSize := listSize;
      this.replication := replication;
    }

    // -------------------------------------------------------------- notify

    /** Copies the source's blocks in (from, to] to the target, skipping those it already has. */
    method TransferKeysRange(source: Id, target: Id, from: Id, to: Id)
      requires target in blocks
      modifies this`blocks
      ensures blocks == Pushed(old(blocks), source, target, from, to)
      ensures forall b :: b in blocks[target] <==>
                b in old(blocks)[target]
                || (source in old(blocks) && b in old(blocks)[source] && BetweenRightInclusive(b.pos, from, to))
      ensures blocks.Keys == old(blocks).Keys
      ensures forall m :: m in blocks && m != target ==> blocks[m] == old(blocks)[m]
    {
      ghost var all := Held(blocks, source);
      ghost var was := blocks[target];
      ghost var copied: set<Block> := {};
      var rest := Held(blocks, source);
      assert was + copied == was;
      while rest != {}
        invariant rest <= all && copied == InRange(all - rest, from, to)
        invariant blocks.Keys == old(blocks).Keys && blocks[target] == was + copied
        invariant forall m :: m in blocks && m != target ==> blocks[m] == old(blocks)[m]
        decreases rest
      {
        var b :| b in rest;
        rest := rest - {b};
        if BetweenRightInclusive(b.pos, from, to) {
          copied := copied + {b};
          if b !in blocks[target] { blocks := blocks[target := blocks[target] + {b}]; }
        }
      }
      assert copied == InRange(all, from, to);
    }

    method AcceptPredecessor(s: Id, caller: Id)
      requires s in net
      modifies this
      ensures net == WithPredecessor(old(net), s, Some(caller))
      ensures var pred := old(net)[s].predecessor;
              blocks == if caller != s && pred != Some(caller) && caller in old(net) && caller in old(blocks)
                        then Pushed(old(blocks), s, caller, if pred.Some? then pred.value else s, caller)
                        else old(blocks)
      ensures caller != s && caller in old(net) && caller in old(blocks) && s in old(blocks) ==>
                var pred := old(net)[s].predecessor;
                forall b :: b in blocks[caller] <==>
                  b in old(blocks)[caller]
                  || (pred != Some(caller) && b in old(blocks)[s]
                      && BetweenRightInclusive(b.pos, if pred.Some? then pred.value else s, caller))
      ensures blocks.Keys == old(blocks).Keys
      ensures forall m :: m in blocks && m != caller ==> blocks[m] == old(blocks)[m]
    {
      var oldPred := net[s].predecessor;
      net := net[s := net[s].(predecessor := Some(caller))];
      if caller == s { return; }
      var from := s;
      if oldPred != None {
        if caller == oldPred.value { return; }
        from := oldPred.value;
      }
      if caller in net && caller in blocks {
        TransferKeysRange(s, caller, from, caller);
      }
    }

    method Notify(s: Id, caller: Id)
      requires net.Keys <= blocks.Keys
      modifies this
      ensures net == Notified(old(net), s, caller)
      ensures blocks == NotifiedBlocks(old(net), old(blocks), s, caller)
    {
      if s !in net { return; }
      if net[s].predecessor == None || BetweenExclusive(caller, net[s].predecessor.value, s) {
        AcceptPredecessor(s, caller);
        return;
      }
      var stalePred := net[s].predecessor.value;
      if stalePred in net { return; }
      net := net[s := net[s].(predecessor := None)];
      // nothing runs in between, so the repeated test finds the predecessor cleared
      AcceptPredecessor(s, caller);
    }

    method CheckPredecessor(n: Id)
      requires n in net
      modifies this`net
      ensures net == PredecessorChecked(old(net), n)
      ensures n in net && net[n].predecessor ==
                if old(net)[n].predecessor.Some? && old(net)[n].predecessor.value !in old(net)
                then None else old(net)[n].predecessor
      ensures net == old(net)[n := old(net)[n].(predecessor := net[n].predecessor)]
    {
      var pred := net[n].predecessor;
      if pred == None { return; }
      if pred.value !in net {
        net := net[n := net[n].(predecessor := None)];
      }
    }

    method HandleSuccessorFailure(n: Id)
      requires n in net
      modifies this`net
      ensures net == FailedOver(old(net), n)
      ensures n in net && net == old(net)[n := old(net)[n].(successor := net[n].successor, list := net[n].list)]
      ensures (exists s :: s in old(net)[n].list && s != n && s in net) ==>
                var list := old(net)[n].list;
                exists i :: 0 <= i < |list| && list[i] != n && list[i] in net
                  && (forall j :: 0 <= j < i ==> list[j] == n || list[j] !in net)
                  && net[n].successor == list[i] && net[n].list == list[i..]
      ensures (forall s :: s in old(net)[n].list && s != n ==> s !in net) ==>
                net[n].successor == n && net[n].list == [n] + Without(old(net)[n].list, n)
    {
      var list := net[n].list;
      var i := 0;
      while i < |list|
        invariant 0 <= i <= |list|
        invariant net == old(net)
        invariant FirstLive(net.Keys, n, list) == i + FirstLive(net.Keys, n, list[i..])
      {
        var s := list[i];
        if s != n && s in net {
          net := net[n := net[n].(successor := s, list := list[i..])];
          return;
        }
        assert list[i..][1..] == list[i + 1..];
        i := i + 1;
      }
      assert list[i..] == [];
      var newList := [n];
      i := 0;
      assert list[0..] == list;
      while i < |list|
        invariant 0 <= i <= |list|
        invariant net == old(net)
        invariant FirstLive(net.Keys, n, list) == |list|
        invariant [n] + Without(list, n) == newList + Without(list[i..], n)
      {
        assert list[i..][1..] == list[i + 1..];
        if list[i] != n { newList := newList + [list[i]]; }
        i := i + 1;
      }
      assert list[i..] == [] && newList + [] == newList;
      net := net[n := net[n].(successor := n, list := newList)];
    }

    method TryReconnect(n: Id) returns (reconnected: bool)
      requires n in net
      modifies this`net
      ensures net == Reconnected(old(net), n)
      ensures reconnected <==> exists s :: s in old(net)[n].list && s != n && s in old(net)
      ensures !reconnected ==> net == old(net)
      ensures reconnected ==>
                var list := old(net)[n].list;
                exists i :: 0 <= i < |list| && list[i] != n && list[i] in old(net)
                  && (forall j :: 0 <= j < i ==> list[j] == n || list[j] !in old(net))
                  && net == old(net)[n := old(net)[n].(successor := list[i], list := [list[i]])]
    {
      var list := net[n].list;
      var i := 0;
      while i < |list|
        invariant 0 <= i <= |list|
        invariant net == old(net)
        invariant FirstLive(net.Keys, n, list) == i + FirstLive(net.Keys, n, list[i..])
        invariant forall j :: 0 <= j < i ==> list[j] == n || list[j] !in net
      {
        var s := list[i];
        if s != n && s in net {
          net := net[n := net[n].(successor := s, list := [s])];
          return true;
        }
        assert list[i..][1..] == list[i + 1..];
        i := i + 1;
      }
      return false;
    }

    method RefreshPredecessorList(n: Id)
      requires n in net
      modifies this`net
      ensures net == PredListRefreshed(old(net), n, listSize)
      ensures n in net && net == old(net)[n := old(net)[n].(predList := net[n].predList)]
      ensures var pred, r := net[n].predecessor, net[n].predList;
              if pred == None then r == []
              else && r != [] && r[0] == pred.value && FollowsBack(old(net), n, r)
                   && (|r| == 1 || |r| <= listSize) && (|r| >= listSize || EndsBack(old(net), n, r))
    {
      var pred := net[n].predecessor;
      if pred == None {
        net := net[n := net[n].(predList := [])];
        return;
      }
      PredWalkIsChain(net, n, [pred.value], listSize);
      var list := [pred.value];
      var cur := pred.value;
      var i := 1;
      while i < listSize
        invariant |list| == i && cur == list[i - 1]
        invariant PredWalk(net, n, [pred.value], listSize) == PredWalk(net, n, list, listSize)
        invariant net == old(net)
        decreases listSize - i
      {
        if cur == n { break; }
        if cur !in net || net[cur].predecessor == None { break; }
        var nextPred := net[cur].predecessor.value;
        if nextPred == n { break; }
        if nextPred in list { break; }
        list := list + [nextPred];
        cur := nextPred;
        i := i + 1;
      }
      net := net[n := net[n].(predList := list)];
    }

    method RefreshSuccessorList(n: Id, succ: Id)
      requires n in net
      modifies this`net
      ensures net == ListRefreshed(old(net), n, succ, listSize)
      ensures succ !in old(net) ==> net == old(net)
      ensures succ in old(net) ==>
                && n in net && net[n].successor == old(net)[n].successor && net[n].list != [] && net[n].list[0] == succ
                && net[n].list[1..] <= old(net)[succ].list
                && (net[n].list[1..] == old(net)[succ].list || |net[n].list| == listSize || |net[n].list| == 1 > listSize)
                && (|net[n].list| == 1 || |net[n].list| <= listSize)
    {
      if succ !in net { return; }
      var succList := net[succ].list;
      var list := [succ];
      var k := 0;
      while k < |succList| && |list| < listSize
        invariant 0 <= k <= |succList| && |list| == k + 1
        invariant list == [succ] + succList[..k]
        invariant listSize == 0 ==> k == 0
        invariant listSize > 0 ==> k < listSize
      {
        list := list + [succList[k]];
        k := k + 1;
      }
      assert list == Prepended(succ, succList, listSize);
      net := net[n := net[n].(list := list)];
      RefreshPredecessorList(n);
    }

    method Stabilize(n: Id)
      requires n in net && net.Keys <= blocks.Keys
      modifies this
      ensures net == Stabilized(old(net), n, listSize)
      ensures blocks == StabilizedBlocks(old(net), old(blocks), n)
    {
      var succ := net[n].successor;
      if succ !in net {
        HandleSuccessorFailure(n);
        succ := net[n].successor;
        if succ == n { return; }
        RefreshSuccessorList(n, succ);
        return;
      }
      var pred := net[succ].predecessor;
      if pred != None && BetweenExclusive(pred.value, n, succ) {
        if pred.value in net {
          net := net[n := net[n].(successor := pred.value)];
          succ := pred.value;
        }
      }
      assert net == old(net)[n := old(net)[n].(successor := succ)];
      Notify(succ, n);
      if succ == n {
        var _ := TryReconnect(n);
        return;
      }
      RefreshSuccessorList(n, succ);
    }

    // -------------------------------------------------------------- lookup

    method ClosestPrecedingNode(n: Id, id: Id) returns (best: Id)
      requires n in net
      ensures best == ClosestPreceding(net[n], n, id)
    {
      best := n;
      var st := net[n];
      var i := |st.fingers|;
      while i > 0
        invariant 0 <= i <= |st.fingers| && best == n
        invariant FingerScan(st.fingers, n, id, |st.fingers|) == FingerScan(st.fingers, n, id, i)
      {
        var f := st.fingers[i - 1];
        if BetweenExclusive(f, n, id) {
          best := f;
          break;
        }
        i := i - 1;
      }
      i := 0;
      assert st.list[0..] == st.list;
      while i < |st.list|
        invariant 0 <= i <= |st.list|
        invariant ClosestPreceding(st, n, id) == ListScan(st.list[i..], n, id, best)
      {
        var s := st.list[i];
        assert st.list[i..][1..] == st.list[i + 1..];
        if BetweenExclusive(s, n, id) {
          if best == n || BetweenExclusive(s, best, id) {
            best := s;
          }
        }
        i := i + 1;
      }
    }

    method EvictNode(n: Id, dead: Id)
      requires n in net
      modifies this`net
      ensures net == Evicted(old(net), n, dead)
      ensures n in net && net == old(net)[n := old(net)[n].(fingers := net[n].fingers, list := net[n].list)]
      ensures |net[n].fingers| == |old(net)[n].fingers|
      ensures forall i :: 0 <= i < |net[n].fingers| ==>
                net[n].fingers[i] == if old(net)[n].fingers[i] == dead then n else old(net)[n].fingers[i]
      ensures net[n].list == Without(old(net)[n].list, dead)
    {
      var fingers := net[n].fingers;
      var i := 0;
      while i < |fingers|
        invariant 0 <= i <= |fingers| == |net[n].fingers| && net == old(net)
        invariant forall j :: 0 <= j < |fingers| ==>
          fingers[j] == if j < i && net[n].fingers[j] == dead then n else net[n].fingers[j]
      {
        if fingers[i] == dead { fingers := fingers[i := n]; }
        i := i + 1;
      }
      assert fingers == Replaced(net[n].fingers, dead, n);
      var list := net[n].list;
      var newList := [];
      i := 0;
      assert list[0..] == list;
      while i < |list|
        invariant 0 <= i <= |list| && net == old(net)
        invariant Without(list, dead) == newList + Without(list[i..], dead)
      {
        assert list[i..][1..] == list[i + 1..];
        if list[i] != dead { newList := newList + [list[i]]; }
        i := i + 1;
      }
      assert list[i..] == [] && newList + [] == newList;
      net := net[n := net[n].(fingers := fingers, list := newList)];
    }

    method FindSuccessor(n: Id, id: Id) returns (node: Id)
      requires n in net
      modifies this`net
      ensures node == Find(old(net), n, id).node
      ensures net == Find(old(net), n, id).net
      ensures BetweenRightInclusive(id, n, old(net)[n].successor) ==> node == old(net)[n].successor && net == old(net)
      ensures !BetweenRightInclusive(id, n, old(net)[n].successor)
              && Between(old(net), n, id) !! old(net).Keys && |Between(old(net), n, id)| <= 160 ==>
                node == n && Cleared(old(net), n, Between(old(net), n, id), net)
    {
      if !BetweenRightInclusive(id, n, net[n].successor) && Between(net, n, id) !! net.Keys
         && |Between(net, n, id)| <= 160 {
        LookupFindsNobody(net, n, id);
      }
      var succ := net[n].successor;
      if BetweenRightInclusive(id, n, succ) { return succ; }
      var candidate := ClosestPrecedingNode(n, id);
      if candidate == n { return n; }
      var hop := 0;
      while hop < MAX_LOOKUP_HOPS
        invariant 0 <= hop <= MAX_LOOKUP_HOPS && n in net
        invariant Find(old(net), n, id) == Search(net, n, id, candidate, MAX_LOOKUP_HOPS - hop)
      {
        if candidate !in net {
          EvictNode(n, candidate);
          candidate := ClosestPrecedingNode(n, id);
          if candidate == n { return n; }
        } else {
          var cpn := ClosestPrecedingNode(candidate, id);
          var cSucc := net[candidate].successor;
          if BetweenRightInclusive(id, candidate, cSucc) { return cSucc; }
          if cpn == candidate { return cSucc; }
          candidate := cpn;
        }
        hop := hop + 1;
      }
      return candidate;
    }

    method FixFinger(n: Id)
      requires n in net && |net[n].fingers| == FINGER_COUNT && net[n].nextFinger < FINGER_COUNT
      modifies this`net
      ensures net == FingerFixed(old(net), n)
      ensures net[n].nextFinger < FINGER_COUNT
    {
      var i := net[n].nextFinger;
      net := net[n := net[n].(nextFinger := (net[n].nextFinger + 1) % FINGER_COUNT)];
      FindKeepsCursor(net, n, FingerStart(n, i));
      var succ := FindSuccessor(n, FingerStart(n, i));
      net := net[n := net[n].(fingers := net[n].fingers[i := succ])];
    }

    method FixAllFingers(n: Id)
      requires n in net && |net[n].fingers| == FINGER_COUNT && net[n].nextFinger < FINGER_COUNT
      modifies this`net
      ensures net == FingersFixed(old(net), n, FINGER_COUNT)
    {
      for i := 0 to FINGER_COUNT
        invariant n in net && |net[n].fingers| == FINGER_COUNT && net[n].nextFinger < FINGER_COUNT
        invariant net == FingersFixed(old(net), n, i)
      {
        FixFinger(n);
      }
    }

    // -------------------------------------------------------------- join and leave

    /** Hands over, and forgets, the blocks of s in (from, to]. */
    method TransferKeys(s: Id, from: Id, to: Id) returns (keys: set<Block>)
      requires s in blocks
      modifies this`blocks
      ensures keys == InRange(old(blocks)[s], from, to)
      ensures forall b :: b in keys <==> b in old(blocks)[s] && BetweenRightInclusive(b.pos, from, to)
      ensures blocks == old(blocks)[s := old(blocks)[s] - keys]
    {
      keys := {};
      var rest := blocks[s];
      while rest != {}
        invariant rest <= blocks[s] && blocks == old(blocks)
        invariant keys == InRange(blocks[s] - rest, from, to)
        decreases rest
      {
        var b :| b in rest;
        rest := rest - {b};
        if BetweenRightInclusive(b.pos, from, to) { keys := keys + {b}; }
      }
      assert keys == InRange(blocks[s], from, to);
      Forget(s, keys);
    }

    method Forget(s: Id, keys: set<Block>)
      requires s in blocks
      modifies this`blocks
      ensures blocks == old(blocks)[s := old(blocks)[s] - keys]
    {
      ghost var was := blocks[s];
      var rest := keys;
      while rest != {}
        invariant rest <= keys && blocks.Keys == old(blocks).Keys
        invariant blocks[s] == was - (keys - rest)
        invariant forall m :: m in blocks && m != s ==> blocks[m] == old(blocks)[m]
        decreases rest
      {
        var b :| b in rest;
        rest := rest - {b};
        blocks := blocks[s := blocks[s] - {b}];
      }
      assert was - (keys - {}) == was - keys;
    }

    /** A new node enters the ring through a live bootstrap node; without one the join fails. */
    method Join(x: Id, bootstrap: Id) returns (ok: bool)
      requires x !in net && x !in blocks && net.Keys == blocks.Keys
      modifies this
      ensures ok <==> bootstrap in old(net)
      ensures ok ==> Cluster(net, blocks) == JoinedTo(Cluster(old(net), old(blocks)), x, bootstrap)
      ensures ok ==>
                && x in net && net[x].successor == Find(old(net), bootstrap, x).node && net[x].list == [net[x].successor]
                && net[x].predecessor == None && net[x].predList == [] && |net[x].fingers| == 160
                && forall f :: f in net[x].fingers ==> f == x
      ensures !ok ==> net == old(net) && blocks == old(blocks)
    {
      if bootstrap !in net { return false; }
      var succ := FindSuccessor(bootstrap, x);
      net := net[x := FreshNode(x, succ)];
      blocks := blocks[x := {}];
      if succ in net {
        var pred := net[succ].predecessor;
        if pred != None && pred.value != x {
          var keys := TransferKeys(succ, pred.value, x);
          blocks := blocks[x := blocks[x] + keys];
        }
      }
      return true;
    }

    /** The list of a node whose successor left: the new successor, then the other entries in order. */
    method ListAfterLeave(list: seq<Id>, leaver: Id, successor: Id) returns (newList: seq<Id>)
      ensures newList == [successor] + Capped(list, leaver, successor, if listSize == 0 then 0 else listSize - 1)
      ensures newList == [successor] + Nearest(Without(Without(list, leaver), successor), listSize - 1)
    {
      newList := [successor];
      var i := 0;
      ghost var room := if listSize == 0 then 0 else listSize - 1;
      CappedIsPrefix(list, leaver, successor, room);
      assert list[0..] == list;
      while i < |list|
        invariant 0 <= i <= |list|
        invariant 1 <= |newList| <= room + 1
        invariant [successor] + Capped(list, leaver, successor, room)
                  == newList + Capped(list[i..], leaver, successor, room + 1 - |newList|)
      {
        assert list[i..][1..] == list[i + 1..];
        if list[i] != leaver && list[i] != successor && |newList| < listSize {
          newList := newList + [list[i]];
        }
        i := i + 1;
      }
      assert list[i..] == [] && newList + [] == newList;
    }

    method HandleNotifyLeave(t: Id, leaver: Id, successor: Id, predecessor: Id)
      modifies this`net
      ensures net == LeaveNoted(old(net), t, leaver, successor, predecessor, listSize)
      ensures t in old(net) ==>
                var st := old(net)[t];
                && t in net
                && net[t].successor == (if st.successor == leaver then successor else st.successor)
                && net[t].predecessor ==
                     (if st.predecessor != Some(leaver) then st.predecessor
                      else if predecessor == leaver then None else Some(predecessor))
                && net[t].list ==
                     (if st.successor != leaver then st.list
                      else [successor] + Nearest(Without(Without(st.list, leaver), successor), listSize - 1))
    {
      if t !in net { return; }
      if net[t].successor == leaver {
        var newList := ListAfterLeave(net[t].list, leaver, successor);
        net := net[t := net[t].(successor := successor, list := newList)];
      }
      if net[t].predecessor == Some(leaver) {
        if predecessor == leaver {
          net := net[t := net[t].(predecessor := None)];
        } else {
          net := net[t := net[t].(predecessor := Some(predecessor))];
        }
      }
    }

    /** A node hands its blocks to its successor, tells both neighbours and goes. */
    method Leave(n: Id)
      requires n in net && net.Keys == blocks.Keys
      modifies this
      ensures Cluster(net, blocks) == LeftBy(Cluster(old(net), old(blocks)), n, listSize)
      ensures net.Keys == old(net).Keys - {n} && blocks.Keys == old(blocks).Keys - {n}
      ensures forall m :: m in blocks ==>
                blocks[m] == old(blocks)[m] + if m == old(net)[n].successor then old(blocks)[n] else {}
    {
      var succ := net[n].successor;
      var pred := net[n].predecessor;
      if succ != n {
        if succ in net { blocks := blocks[succ := blocks[succ] + blocks[n]]; }
        var predAddr := n;
        if pred != None { predAddr := pred.value; }
        HandleNotifyLeave(succ, n, succ, predAddr);
        if pred != None && pred.value != n { HandleNotifyLeave(pred.value, n, succ, predAddr); }
      }
      net := net - {n};
      blocks := blocks - {n};
    }

    // -------------------------------------------------------------- replication

    /** Pushes a block to the first replication-1 entries of n's successor list, itself excepted; a push
        to a dead node, or to one of `full`, whose stores have no room, is lost. */
    method Replicate(n: Id, b: Block, full: set<Id>)
      requires n in net && net.Keys <= blocks.Keys
      modifies this`blocks
      ensures blocks == Added(old(blocks), LiveTargets(net, n, replication, full), b)
      ensures blocks.Keys == old(blocks).Keys
      ensures forall m :: m in blocks ==>
                blocks[m] == old(blocks)[m] +
                  if m in net && m !in full && m != n && m in Nearest(net[n].list, replication - 1) then {b} else {}
    {
      TargetsAreNearest(net[n], n, replication);
      var succs := net[n].list;
      var i := 0;
      ghost var open := net.Keys - full;
      while i < replication - 1 && i < |succs|
        invariant 0 <= i <= |succs| && (i == 0 || i <= replication - 1)
        invariant blocks == Pushes(old(blocks), open, n, succs, i, b)
      {
        var target := succs[i];
        if target != n && target in net && target !in full {
          blocks := blocks[target := Held(blocks, target) + {b}];
        }
        i := i + 1;
      }
      PushesEnd(old(blocks), net, n, i, replication, full, b);
    }

    /** A responsible node with room stores a block and replicates it. */
    method StoreAndReplicate(o: Id, b: Block, full: set<Id>)
      requires o in net && net.Keys <= blocks.Keys
      modifies this`blocks
      ensures blocks == Added(old(blocks), {o} + LiveTargets(net, o, replication, full), b)
      ensures blocks.Keys == old(blocks).Keys
      ensures forall m :: m in blocks ==>
                blocks[m] == old(blocks)[m] +
                  if m == o || (m in net && m !in full && m in Nearest(net[o].list, replication - 1)) then {b} else {}
    {
      blocks := blocks[o := blocks[o] + {b}];
      Replicate(o, b, full);
      AddedAtOwner(old(blocks), o, LiveTargets(net, o, replication, full), b);
    }

    /** Routes a block to its owner, stores it there and replicates it; fails if the node found is dead
        or its store has no room. */
    method Put(via: Id, b: Block, full: set<Id>) returns (ok: bool)
      requires via in net && net.Keys <= blocks.Keys
      modifies this
      ensures net == Find(old(net), via, b.pos).net
      ensures ok <==> Find(old(net), via, b.pos).node in net && Find(old(net), via, b.pos).node !in full
      ensures blocks == Added(old(blocks), Holders(old(net), via, b.pos, replication, full), b)
      ensures !ok ==> blocks == old(blocks)
      ensures ok ==>
                var o := Find(old(net), via, b.pos).node;
                blocks.Keys == old(blocks).Keys &&
                forall m :: m in blocks ==>
                  blocks[m] == old(blocks)[m] +
                    if m == o || (m in net && m !in full && m in Nearest(net[o].list, replication - 1)) then {b} else {}
    {
      var responsible := FindSuccessor(via, b.pos);
      if responsible !in net || responsible in full {
        AddedNone(blocks, b);
        return false;
      }
      StoreAndReplicate(responsible, b, full);
      return true;
    }

    /** Drops every block of n outside the window of its last `replication` predecessors. */
    method PruneOutOfWindowBlocks(n: Id) returns (dropped: nat)
      requires n in net && n in blocks
      modifies this`blocks
      ensures blocks == Pruned(net, old(blocks), n, replication)
      ensures n in blocks && dropped + |blocks[n]| == |old(blocks)[n]|
      ensures blocks == old(blocks)[n := blocks[n]]
      ensures forall b :: b in blocks[n] <==>
                && b in old(blocks)[n]
                && (replication <= 1 || net[n].predecessor == None || |net[n].predList| < replication
                    || BetweenRightInclusive(b.pos, net[n].predList[replication - 1], n))
    {
      dropped := 0;
      if replication <= 1 { Unpruned(n); return; }
      var pred, predList := net[n].predecessor, net[n].predList;
      if pred == None || |predList| < replication { Unpruned(n); return; }
      var rangeLow := predList[replication - 1];
      ghost var was := blocks[n];
      var rest := blocks[n];
      var left := blocks[n];
      while rest != {}
        invariant rest <= left <= was && dropped + |left| == |was|
        invariant forall b :: b in was && b !in rest ==> (b in left <==> !Prunes(net[n], n, replication, b.pos))
        invariant n in blocks && blocks == old(blocks)[n := left]
        decreases rest
      {
        var b :| b in rest;
        rest := rest - {b};
        if !BetweenRightInclusive(b.pos, rangeLow, n) {
          left := left - {b};
          blocks := blocks[n := left];
          dropped := dropped + 1;
        }
      }
      assert left == Kept(was, net[n], n, replication);
    }

    lemma Unpruned(n: Id)
      requires n in net && n in blocks
      requires replication <= 1 || net[n].predecessor == None || |net[n].predList| < replication
      ensures blocks == Pruned(net, blocks, n, replication)
    {
      assert blocks[n] == Kept(blocks[n], net[n], n, replication);
    }
  }
}
