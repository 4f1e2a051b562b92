/** The pointers every node keeps and the maintenance steps that change them. A network maps the
    identifier of each live node to its state; a call to an identifier outside the map fails. */
module Network {
  import opened Ids
  import opened Options
  import opened Ring

  const FINGER_COUNT: nat := 160

  datatype NodeState = NodeState(
    successor: Id,
    list: seq<Id>,
    predecessor: Option<Id>,
    predList: seq<Id>,
    fingers: seq<Id>,
    nextFinger: nat)

  type Net = map<Id, NodeState>

  // ---------------------------------------------------------------- notify

  function WithPredecessor(net: Net, s: Id, p: Option<Id>): Net
    requires s in net
  {
    net[s := net[s].(predecessor := p)]
  }

  /** A closer caller, or any caller when the predecessor is unknown or dead, becomes predecessor. */
  predicate Accepts(net: Net, s: Id, caller: Id)
    requires s in net
  {
    var pred := net[s].predecessor;
    pred.None? || BetweenExclusive(caller, pred.value, s) || pred.value !in net
  }

  function Notified(net: Net, s: Id, caller: Id): Net {
    if s in net && Accepts(net, s, caller) then WithPredecessor(net, s, Some(caller)) else net
  }

  function PredecessorChecked(net: Net, n: Id): Net
    requires n in net
  {
    var pred := net[n].predecessor;
    if pred.Some? && pred.value !in net then WithPredecessor(net, n, None) else net
  }

  // ---------------------------------------------------------------- successor lists

  /** Index of the first entry that is neither the node itself nor dead; the length if none is. */
  function FirstLive(live: set<Id>, n: Id, list: seq<Id>): (i: nat)
    ensures i <= |list|
    ensures i < |list| ==> list[i] != n && list[i] in live
    ensures forall j :: 0 <= j < i ==> list[j] == n || list[j] !in live
  {
    if list == [] then 0
    else if list[0] != n && list[0] in live then 0
    else 1 + FirstLive(live, n, list[1..])
  }

  function Without(list: seq<Id>, x: Id): (r: seq<Id>)
    ensures forall y :: y in r <==> y in list && y != x
  {
    if list == [] then []
    else if list[0] == x then Without(list[1..], x)
    else [list[0]] + Without(list[1..], x)
  }

  function FailedOver(net: Net, n: Id): Net
    requires n in net
  {
    var list := net[n].list;
    var i := FirstLive(net.Keys, n, list);
    if i < |list| then net[n := net[n].(successor := list[i], list := list[i..])]
    else net[n := net[n].(successor := n, list := [n] + Without(list, n))]
  }

  function Reconnected(net: Net, n: Id): Net
    requires n in net
  {
    var list := net[n].list;
    var i := FirstLive(net.Keys, n, list);
    if i < |list| then net[n := net[n].(successor := list[i], list := [list[i]])] else net
  }

  function Prepended(succ: Id, list: seq<Id>, size: nat): (r: seq<Id>) {
    [succ] + if size == 0 then [] else if |list| < size then list else list[..size - 1]
  }

  /** Follows predecessor pointers from the last entry until they stop, return or repeat. */
  function PredWalk(net: Net, n: Id, walked: seq<Id>, size: nat): (r: seq<Id>)
    requires walked != []
    decreases size - |walked|
  {
    var cur := walked[|walked| - 1];
    if |walked| >= size || cur == n || cur !in net || net[cur].predecessor.None? then walked
    else
      var q := net[cur].predecessor.value;
      if q == n || q in walked then walked else PredWalk(net, n, walked + [q], size)
  }

  function PredListRefreshed(net: Net, n: Id, size: nat): Net
    requires n in net
  {
    var pred := net[n].predecessor;
    net[n := net[n].(predList := if pred.None? then [] else PredWalk(net, n, [pred.value], size))]
  }

  function ListRefreshed(net: Net, n: Id, succ: Id, size: nat): Net
    requires n in net
  {
    if succ !in net then net
    else PredListRefreshed(net[n := net[n].(list := Prepended(succ, net[succ].list, size))], n, size)
  }

  /** Removing an entry leaves the others in order. */
  lemma {:induction false} WithoutSplits(a: seq<Id>, b: seq<Id>, x: Id)
    ensures Without(a + b, x) == Without(a, x) + Without(b, x)
  {
    if a == [] {
      assert a + b == b;
    } else {
      assert (a + b)[1..] == a[1..] + b;
      WithoutSplits(a[1..], b, x);
    }
  }

  /** r follows predecessor pointers, without repeating itself or coming back to n. */
  predicate FollowsBack(net: Net, n: Id, r: seq<Id>) {
    forall i, j :: 0 <= i < j < |r| ==>
      && r[i] != r[j]
      && (j == i + 1 ==> r[i] != n && r[j] != n && r[i] in net && net[r[i]].predecessor == Some(r[j]))
  }

  /** Nothing more to follow from the end of r. */
  predicate EndsBack(net: Net, n: Id, r: seq<Id>)
    requires r != []
  {
    var last := r[|r| - 1];
    last == n || last !in net || net[last].predecessor.None?
    || net[last].predecessor.value == n || net[last].predecessor.value in r
  }

  /** A predecessor walk is the longest such chain from its start that the size allows. */
  lemma {:induction false} PredWalkIsChain(net: Net, n: Id, walked: seq<Id>, size: nat)
    requires walked != [] && FollowsBack(net, n, walked)
    ensures var r := PredWalk(net, n, walked, size);
            && |walked| <= |r| && walked == r[..|walked|] && FollowsBack(net, n, r)
            && |r| <= (if size <= |walked| then |walked| else size)
            && (|r| >= size || EndsBack(net, n, r))
    decreases size - |walked|
  {
    var cur := walked[|walked| - 1];
    if |walked| < size && !EndsBack(net, n, walked) {
      PredWalkIsChain(net, n, walked + [net[cur].predecessor.value], size);
    }
  }

  // ---------------------------------------------------------------- stabilize

  predicate AdoptsPredecessorOf(net: Net, n: Id, succ: Id)
    requires succ in net
  {
    var pred := net[succ].predecessor;
    pred.Some? && BetweenExclusive(pred.value, n, succ) && pred.value in net
  }

  function Stabilized(net: Net, n: Id, size: nat): Net
    requires n in net
  {
    var succ := net[n].successor;
    if succ !in net then
      var net1 := FailedOver(net, n);
      if net1[n].successor == n then net1 else ListRefreshed(net1, n, net1[n].successor, size)
    else
      var succ1 := if AdoptsPredecessorOf(net, n, succ) then net[succ].predecessor.value else succ;
      var net1 := Notified(net[n := net[n].(successor := succ1)], succ1, n);
      if succ1 == n then Reconnected(net1, n) else ListRefreshed(net1, n, succ1, size)
  }

  /** n's list is its successor followed by the first entries of the successor's own list, as many as
      fit, and its predecessor list is the chain of predecessor pointers from its predecessor. */
  predicate Refreshed(net: Net, n: Id, list: seq<Id>, size: nat)
    requires n in net
  {
    var st := net[n];
    && st.list != [] && st.list[0] == st.successor && st.list[1..] <= list
    && (|st.list| == 1 || |st.list| <= size) && (st.list[1..] == list || |st.list| >= size)
    && if st.predecessor.None? then st.predList == []
       else && st.predList != [] && st.predList[0] == st.predecessor.value && FollowsBack(net, n, st.predList)
            && (|st.predList| == 1 || |st.predList| <= size) && (|st.predList| >= size || EndsBack(net, n, st.predList))
  }

  lemma RefreshesTables(net: Net, n: Id, succ: Id, size: nat)
    requires n in net && succ in net && succ != n && net[n].successor == succ
    ensures ListRefreshed(net, n, succ, size).Keys == net.Keys
    ensures Refreshed(ListRefreshed(net, n, succ, size), n, net[succ].list, size)
  {
    var net1 := net[n := net[n].(list := Prepended(succ, net[succ].list, size))];
    if net[n].predecessor.Some? {
      var p := net[n].predecessor.value;
      PredWalkIsChain(net1, n, [p], size);
      SamePredecessors(net1, ListRefreshed(net, n, succ, size), n, PredWalk(net1, n, [p], size));
    }
  }

  lemma SamePredecessors(net: Net, net': Net, n: Id, r: seq<Id>)
    requires net'.Keys == net.Keys && forall m :: m in net ==> net'[m].predecessor == net[m].predecessor
    ensures FollowsBack(net', n, r) == FollowsBack(net, n, r)
    ensures r != [] ==> EndsBack(net', n, r) == EndsBack(net, n, r)
  {
  }

  /** In any network a stabilization that leaves a node with another node for successor, whether it
      failed over, adopted one or kept its own, leaves it with tables refreshed from that one. */
  lemma StabilizedTables(net: Net, n: Id, size: nat)
    requires n in net && net[n].successor != n
    ensures var net' := Stabilized(net, n, size);
            && net'.Keys == net.Keys
            && (net'[n].successor != n ==>
                  net'[n].successor in net && Refreshed(net', n, net[net'[n].successor].list, size))
  {
    var succ := net[n].successor;
    if succ !in net {
      var net1 := FailedOver(net, n);
      if net1[n].successor != n { RefreshesTables(net1, n, net1[n].successor, size); }
    } else {
      var succ1 := if AdoptsPredecessorOf(net, n, succ) then net[succ].predecessor.value else succ;
      var net1 := Notified(net[n := net[n].(successor := succ1)], succ1, n);
      RefreshesTables(net1, n, succ1, size);
    }
  }

  // ---------------------------------------------------------------- runs

  datatype Event = Stabilize(node: Id) | CheckPredecessor(node: Id)

  function Step(net: Net, e: Event, size: nat): (net': Net)
    ensures net'.Keys == net.Keys
  {
    if e.node !in net then net
    else match e
      case Stabilize(n) => Stabilized(net, n, size)
      case CheckPredecessor(n) => PredecessorChecked(net, n)
  }

  function Run(net: Net, events: seq<Event>, size: nat): (net': Net)
    ensures net'.Keys == net.Keys
  {
    if events == [] then net else Run(Step(net, events[0], size), events[1..], size)
  }

  function Round(order: seq<Id>): seq<Event> {
    if order == [] then [] else [Stabilize(order[0])] + Round(order[1..])
  }

  function Rounds(net: Net, rounds: seq<seq<Id>>, size: nat): (net': Net)
    ensures net'.Keys == net.Keys
  {
    if rounds == [] then net else Rounds(Run(net, Round(rounds[0]), size), rounds[1..], size)
  }

  /** Every member takes part in every round. */
  predicate Covers(rounds: seq<seq<Id>>, members: set<Id>) {
    forall i, n :: 0 <= i < |rounds| && n in members ==> n in rounds[i]
  }

  /** A fresh node that knows nobody but `succ`. */
  function FreshNode(n: Id, succ: Id): NodeState {
    NodeState(succ, [succ], None, [], seq(FINGER_COUNT, i => n), 0)
  }

  /** A node's pointers are its neighbours among the live nodes; its list starts with the successor. */
  ghost predicate IdealNode(net: Net, n: Id)
    requires n in net
  {
    && net[n].successor == Next(net.Keys, n)
    && net[n].predecessor == Some(Prev(net.Keys, n))
    && net[n].list != [] && net[n].list[0] == net[n].successor
  }

  ghost predicate Ideal(net: Net) {
    net != map[] && forall n {:trigger IdealNode(net, n)} :: n in net ==> IdealNode(net, n)
  }
}
