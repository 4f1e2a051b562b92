/** Iterative lookup: which node a search ends at, and how many hops it needs. */
module Lookup {
  import opened Ids
  import opened Ring
  import opened Network

  const MAX_LOOKUP_HOPS: nat := 160

  // ---------------------------------------------------------------- closest preceding node

  /** The highest of the first i fingers strictly inside (n, id); n if none is. */
  function FingerScan(fingers: seq<Id>, n: Id, id: Id, i: nat): (r: Id)
    requires i <= |fingers|
  {
    if i == 0 then n
    else if BetweenExclusive(fingers[i - 1], n, id) then fingers[i - 1]
    else FingerScan(fingers, n, id, i - 1)
  }

  predicate Improves(s: Id, best: Id, n: Id, id: Id) {
    BetweenExclusive(s, n, id) && (best == n || BetweenExclusive(s, best, id))
  }

  function ListScan(list: seq<Id>, n: Id, id: Id, best: Id): (r: Id) {
    if list == [] then best
    else ListScan(list[1..], n, id, if Improves(list[0], best, n, id) then list[0] else best)
  }

  function ClosestPreceding(st: NodeState, n: Id, id: Id): (r: Id) {
    ListScan(st.list, n, id, FingerScan(st.fingers, n, id, |st.fingers|))
  }

  lemma {:induction false} FingerScanFinds(fingers: seq<Id>, n: Id, id: Id, i: nat, k: nat)
    requires k < i <= |fingers|
    requires BetweenExclusive(fingers[k], n, id)
    ensures exists j :: k <= j < i && FingerScan(fingers, n, id, i) == fingers[j]
                        && BetweenExclusive(fingers[j], n, id)
  {
    if !BetweenExclusive(fingers[i - 1], n, id) {
      FingerScanFinds(fingers, n, id, i - 1, k);
    }
  }

  lemma {:induction false} FingerScanSource(fingers: seq<Id>, n: Id, id: Id, i: nat)
    requires i <= |fingers|
    ensures var r := FingerScan(fingers, n, id, i); r == n || (r in fingers && BetweenExclusive(r, n, id))
  {
    if i > 0 && !BetweenExclusive(fingers[i - 1], n, id) {
      FingerScanSource(fingers, n, id, i - 1);
    }
  }

  /** A list scan ends at the entry furthest from n, never short of where it started. */
  lemma {:induction false} ListScanFurthest(list: seq<Id>, n: Id, id: Id, best: Id)
    requires best == n || BetweenExclusive(best, n, id)
    ensures var r := ListScan(list, n, id, best);
            && (r == best || (r in list && BetweenExclusive(r, n, id)))
            && (best != n ==> r != n && Gap(n, best) <= Gap(n, r))
            && forall s :: s in list && BetweenExclusive(s, n, id) ==> r != n && Gap(n, s) <= Gap(n, r)
  {
    if list != [] {
      var best' := if Improves(list[0], best, n, id) then list[0] else best;
      ListScanFurthest(list[1..], n, id, best');
      assert forall s :: s in list ==> s == list[0] || s in list[1..];
    }
  }

  /** The closest preceding node lies strictly inside (n, id) whenever any known node does. */
  lemma ClosestInArc(st: NodeState, n: Id, id: Id)
    ensures var r := ClosestPreceding(st, n, id);
            && (r == n || ((r in st.fingers || r in st.list) && BetweenExclusive(r, n, id)))
            && forall s :: s in st.list && BetweenExclusive(s, n, id) ==> r != n && Gap(n, s) <= Gap(n, r)
  {
    FingerScanSource(st.fingers, n, id, |st.fingers|);
    ListScanFurthest(st.list, n, id, FingerScan(st.fingers, n, id, |st.fingers|));
  }

  // ---------------------------------------------------------------- the search

  function Replaced(fingers: seq<Id>, dead: Id, n: Id): (r: seq<Id>)
    ensures |r| == |fingers|
    ensures forall i :: 0 <= i < |r| ==> r[i] == if fingers[i] == dead then n else fingers[i]
  {
    seq(|fingers|, i requires 0 <= i < |fingers| => if fingers[i] == dead then n else fingers[i])
  }

  function Evicted(net: Net, n: Id, dead: Id): Net
    requires n in net
  {
    net[n := net[n].(fingers := Replaced(net[n].fingers, dead, n), list := Without(net[n].list, dead))]
  }

  /** Where a search ends, the network it leaves behind, and whether it ran out of hops. */
  datatype Answer = Answer(node: Id, net: Net, capped: bool)

  function Search(net: Net, n: Id, id: Id, candidate: Id, hops: nat): (a: Answer)
    requires n in net
    ensures a.net.Keys == net.Keys
    ensures |a.net[n].fingers| == |net[n].fingers|
    decreases hops, candidate
  {
    if hops == 0 then Answer(candidate, net, true)
    else if candidate !in net then
      var net1 := Evicted(net, n, candidate);
      var c1 := ClosestPreceding(net1[n], n, id);
      if c1 == n then Answer(n, net1, false) else Search(net1, n, id, c1, hops - 1)
    else
      var cSucc := net[candidate].successor;
      var cpn := ClosestPreceding(net[candidate], candidate, id);
      if BetweenRightInclusive(id, candidate, cSucc) || cpn == candidate then Answer(cSucc, net, false)
      else Search(net, n, id, cpn, hops - 1)
  }

  function Find(net: Net, n: Id, id: Id): (a: Answer)
    requires n in net
    ensures a.net.Keys == net.Keys
    ensures |a.net[n].fingers| == |net[n].fingers|
  {
    var succ := net[n].successor;
    if BetweenRightInclusive(id, n, succ) then Answer(succ, net, false)
    else
      var c := ClosestPreceding(net[n], n, id);
      if c == n then Answer(n, net, false) else Search(net, n, id, c, MAX_LOOKUP_HOPS)
  }

  // ---------------------------------------------------------------- it is never wrong

  lemma EvictionKeepsIdeal(net: Net, n: Id, dead: Id)
    requires Ideal(net) && n in net && dead !in net
    ensures Ideal(Evicted(net, n, dead)) && Evicted(net, n, dead).Keys == net.Keys
  {
    var net' := Evicted(net, n, dead);
    assert net'.Keys == net.Keys;
    forall m | m in net' ensures IdealNode(net', m) {
      assert IdealNode(net, m);
    }
  }

  /** A node whose list starts with its successor, and whose arc does not hold id, knows someone
      strictly between itself and id. */
  lemma KnowsCloser(net: Net, c: Id, id: Id)
    requires c in net && net[c].list != [] && net[c].list[0] == net[c].successor
    requires !BetweenRightInclusive(id, c, net[c].successor)
    ensures ClosestPreceding(net[c], c, id) != c
    ensures BetweenExclusive(ClosestPreceding(net[c], c, id), c, id)
  {
    ClosestInArc(net[c], c, id);
    assert net[c].successor in net[c].list;
  }

  /** An arc of the ideal ring that holds the position ends at its owner. */
  lemma ArcHoldsOwner(net: Net, c: Id, id: Id)
    requires Ideal(net) && c in net && BetweenRightInclusive(id, c, net[c].successor)
    ensures net[c].successor == Owner(net.Keys, id)
  {
    assert IdealNode(net, c);
    OwnerInArc(net.Keys, c, id);
  }

  lemma IdealKnowsCloser(net: Net, c: Id, id: Id)
    requires Ideal(net) && c in net && !BetweenRightInclusive(id, c, net[c].successor)
    ensures ClosestPreceding(net[c], c, id) != c
  {
    assert IdealNode(net, c);
    KnowsCloser(net, c, id);
  }

  lemma {:induction false} SearchNeverWrong(net: Net, n: Id, id: Id, candidate: Id, hops: nat)
    requires Ideal(net) && n in net
    requires !BetweenRightInclusive(id, n, net[n].successor)
    ensures Ideal(Search(net, n, id, candidate, hops).net)
    ensures !Search(net, n, id, candidate, hops).capped ==>
              Search(net, n, id, candidate, hops).node == Owner(net.Keys, id)
    decreases hops
  {
    if hops > 0 {
      if candidate !in net {
        EvictionKeepsIdeal(net, n, candidate);
        var net1 := Evicted(net, n, candidate);
        IdealKnowsCloser(net1, n, id);
        SearchNeverWrong(net1, n, id, ClosestPreceding(net1[n], n, id), hops - 1);
      } else if BetweenRightInclusive(id, candidate, net[candidate].successor) {
        ArcHoldsOwner(net, candidate, id);
      } else {
        IdealKnowsCloser(net, candidate, id);
        SearchNeverWrong(net, n, id, ClosestPreceding(net[candidate], candidate, id), hops - 1);
      }
    }
  }

  /** Whatever the fingers hold, dead nodes included, a search on an ideal ring that does not
      exhaust its hops ends at the owner, and the ring stays ideal. */
  lemma LookupNeverWrong(net: Net, n: Id, id: Id)
    requires Ideal(net) && n in net
    ensures var a := Find(net, n, id);
            Ideal(a.net) && a.net.Keys == net.Keys && (a.capped || a.node == Owner(net.Keys, id))
  {
    if BetweenRightInclusive(id, n, net[n].successor) {
      ArcHoldsOwner(net, n, id);
    } else {
      IdealKnowsCloser(net, n, id);
      SearchNeverWrong(net, n, id, ClosestPreceding(net[n], n, id), MAX_LOOKUP_HOPS);
    }
  }

  // ---------------------------------------------------------------- what it leaves alone

  lemma {:induction false} WithoutStranger(list: seq<Id>, x: Id)
    requires x !in list
    ensures Without(list, x) == list
  {
    if list != [] {
      assert list[0] in list;
      WithoutStranger(list[1..], x);
    }
  }

  /** A search evicts dead nodes only: lists of live nodes stay as they are. */
  lemma {:induction false} SearchKeepsLists(net: Net, n: Id, id: Id, candidate: Id, hops: nat, m: Id)
    requires n in net && m in net && forall s :: s in net[m].list ==> s in net
    ensures Search(net, n, id, candidate, hops).net[m].list == net[m].list
    decreases hops
  {
    if hops > 0 {
      if candidate !in net {
        if m == n { WithoutStranger(net[m].list, candidate); }
        var net1 := Evicted(net, n, candidate);
        SearchKeepsLists(net1, n, id, ClosestPreceding(net1[n], n, id), hops - 1, m);
      } else {
        SearchKeepsLists(net, n, id, ClosestPreceding(net[candidate], candidate, id), hops - 1, m);
      }
    }
  }

  lemma FindKeepsLists(net: Net, n: Id, id: Id, m: Id)
    requires n in net && m in net && forall s :: s in net[m].list ==> s in net
    ensures Find(net, n, id).net[m].list == net[m].list
  {
    SearchKeepsLists(net, n, id, ClosestPreceding(net[n], n, id), MAX_LOOKUP_HOPS, m);
  }

  lemma {:induction false} SearchKeepsCursor(net: Net, n: Id, id: Id, candidate: Id, hops: nat)
    requires n in net
    ensures Search(net, n, id, candidate, hops).net[n].nextFinger == net[n].nextFinger
    decreases hops
  {
    if hops > 0 {
      if candidate !in net {
        var net1 := Evicted(net, n, candidate);
        SearchKeepsCursor(net1, n, id, ClosestPreceding(net1[n], n, id), hops - 1);
      } else {
        SearchKeepsCursor(net, n, id, ClosestPreceding(net[candidate], candidate, id), hops - 1);
      }
    }
  }

  lemma FindKeepsCursor(net: Net, n: Id, id: Id)
    requires n in net
    ensures Find(net, n, id).net[n].nextFinger == net[n].nextFinger
  {
    SearchKeepsCursor(net, n, id, ClosestPreceding(net[n], n, id), MAX_LOOKUP_HOPS);
  }
}
