/** The brute-force topology: sort the identifiers, then read neighbours, successor lists, fingers
    and replicas off the sorted order. Everything it computes is proved to be the ideal ring. */
module Topology {
  import opened Ids
  import opened Ring
  import opened Network

  predicate StrictlySorted(s: seq<Id>) {
    forall i, j :: 0 <= i < j < |s| ==> s[i] < s[j]
  }

  predicate Distinct(s: seq<Id>) {
    forall i, j :: 0 <= i < j < |s| ==> s[i] != s[j]
  }

  function Elements(s: seq<Id>): set<Id> {
    set i | 0 <= i < |s| :: s[i]
  }

  // ---------------------------------------------------------------- sorting

  function Insert(x: Id, s: seq<Id>): (r: seq<Id>)
    ensures Elements(r) == Elements(s) + {x}
    ensures |r| == |s| + 1
  {
    if s == [] || x <= s[0] then
      var r := [x] + s;
      assert r[1..] == s;
      assert forall y :: y in Elements(r) <==> y in r;
      r
    else
      var t := Insert(x, s[1..]);
      var r := [s[0]] + t;
      assert forall y :: y in Elements(r) <==> y in r;
      assert forall y :: y in Elements(s) <==> y == s[0] || y in Elements(s[1..]) by { Split(s); }
      assert forall y :: y in Elements(r) <==> y == s[0] || y in Elements(t) by { assert r[1..] == t; Split(r); }
      r
  }

  lemma Split(s: seq<Id>)
    requires s != []
    ensures Elements(s) == {s[0]} + Elements(s[1..])
  {
  }

  lemma {:induction false} InsertSorted(x: Id, s: seq<Id>)
    requires StrictlySorted(s) && x !in s
    ensures StrictlySorted(Insert(x, s))
  {
    if s != [] && x > s[0] {
      InsertSorted(x, s[1..]);
      var t := Insert(x, s[1..]);
      forall j | 0 <= j < |t| ensures s[0] < t[j] {
        assert t[j] in Elements(t);
        if t[j] != x {
          var i :| 0 <= i < |s[1..]| && s[1..][i] == t[j];
        }
      }
    }
  }

  function Sort(ids: seq<Id>): (r: seq<Id>)
    ensures Elements(r) == Elements(ids)
    ensures |r| == |ids|
  {
    if ids == [] then []
    else
      Split(ids);
      Insert(ids[0], Sort(ids[1..]))
  }

  lemma {:induction false} SortSorts(ids: seq<Id>)
    requires Distinct(ids)
    ensures StrictlySorted(Sort(ids))
  {
    if ids != [] {
      SortSorts(ids[1..]);
      var r := Sort(ids[1..]);
      forall i | 0 <= i < |r| ensures r[i] != ids[0] {
        assert r[i] in Elements(r);
        var j :| 0 <= j < |ids[1..]| && ids[1..][j] == r[i];
        assert ids[j + 1] == r[i];
      }
      InsertSorted(ids[0], r);
    }
  }

  // ---------------------------------------------------------------- sorted order is ring order

  /** Index arithmetic modulo n, for up to one wrap. */
  function Wrap(i: nat, n: nat): (k: nat)
    requires i < 2 * n
    ensures k < n
  {
    if i < n then i else i - n
  }

  lemma WrapIsModulo(i: nat, n: nat)
    requires i < 2 * n
    ensures Wrap(i, n) == i % n
  {
  }

  lemma SortedNext(s: seq<Id>, i: nat)
    requires StrictlySorted(s) && i < |s|
    ensures s[i] in Elements(s) && Next(Elements(s), s[i]) == s[Wrap(i + 1, |s|)]
  {
    var y := s[Wrap(i + 1, |s|)];
    forall z | z in Elements(s) ensures Gap(s[i], y) <= Gap(s[i], z) {
      var q :| 0 <= q < |s| && s[q] == z;
    }
    NextIs(Elements(s), s[i], y);
  }

  lemma {:induction false} SortedNextN(s: seq<Id>, i: nat, j: nat)
    requires StrictlySorted(s) && i < |s| && j <= |s|
    ensures Elements(s) != {} && NextN(Elements(s), s[i], j) == s[Wrap(i + j, |s|)]
  {
    assert s[i] in Elements(s);
    if j > 0 {
      SortedNextN(s, i, j - 1);
      SortedNext(s, Wrap(i + j - 1, |s|));
    }
  }

  lemma SortedPrev(s: seq<Id>, i: nat)
    requires StrictlySorted(s) && i < |s|
    ensures s[i] in Elements(s) && Prev(Elements(s), s[i]) == s[Wrap(i + |s| - 1, |s|)]
  {
    var k := Wrap(i + |s| - 1, |s|);
    SortedNext(s, k);
    PrevOfNext(Elements(s), s[k]);
  }

  /** Scanning a sorted list for the first identifier not below the target finds the owner. */
  method FindSuccessorOnRing(target: Id, sorted: seq<Id>) returns (r: Id)
    requires sorted != [] && StrictlySorted(sorted)
    ensures r in sorted
    ensures r in Elements(sorted) && r == Owner(Elements(sorted), target)
  {
    var i := 0;
    while i < |sorted|
      invariant 0 <= i <= |sorted|
      invariant forall j :: 0 <= j < i ==> sorted[j] < target
    {
      if target <= sorted[i] {
        ScanStops(target, sorted, i);
        return sorted[i];
      }
      i := i + 1;
    }
    ScanWraps(target, sorted);
    return sorted[0];
  }

  lemma ScanStops(target: Id, s: seq<Id>, i: nat)
    requires StrictlySorted(s) && i < |s| && target <= s[i]
    requires forall j :: 0 <= j < i ==> s[j] < target
    ensures s[i] in Elements(s) && s[i] == Owner(Elements(s), target)
  {
    forall z | z in Elements(s) ensures Dist(target, s[i]) <= Dist(target, z) {
      var q :| 0 <= q < |s| && s[q] == z;
    }
    OwnerIs(Elements(s), target, s[i]);
  }

  lemma ScanWraps(target: Id, s: seq<Id>)
    requires s != [] && StrictlySorted(s) && forall j :: 0 <= j < |s| ==> s[j] < target
    ensures s[0] in Elements(s) && s[0] == Owner(Elements(s), target)
  {
    forall z | z in Elements(s) ensures Dist(target, s[0]) <= Dist(target, z) {
      var q :| 0 <= q < |s| && s[q] == z;
    }
    OwnerIs(Elements(s), target, s[0]);
  }

  // ---------------------------------------------------------------- the topology

  datatype RingTopology = RingTopology(
    nodes: seq<Id>,
    successors: map<Id, Id>,
    predecessors: map<Id, Id>,
    successorLists: map<Id, seq<Id>>,
    uniqueFingers: map<Id, seq<Id>>,
    fullFingers: map<Id, seq<Id>>)

  /** The list of the next min(k, n-1) members after sorted[i]. */
  method ListFor(sorted: seq<Id>, i: nat, k: nat) returns (list: seq<Id>)
    requires StrictlySorted(sorted) && i < |sorted|
    ensures Elements(sorted) != {}
    ensures |list| == if k < |sorted| - 1 then k else |sorted| - 1
    ensures forall j :: 0 <= j < |list| ==> list[j] == NextN(Elements(sorted), sorted[i], j + 1)
  {
    assert sorted[i] in Elements(sorted);
    var listLen := k;
    if listLen > |sorted| - 1 { listLen := |sorted| - 1; }
    list := [];
    for j := 0 to listLen
      invariant |list| == j
      invariant forall q :: 0 <= q < j ==> list[q] == NextN(Elements(sorted), sorted[i], q + 1)
    {
      SortedNextN(sorted, i, j + 1);
      list := list + [sorted[Wrap(i + 1 + j, |sorted|)]];
    }
  }

  method FingersFor(sorted: seq<Id>, i: nat) returns (fingers: seq<Id>)
    requires StrictlySorted(sorted) && i < |sorted|
    ensures Elements(sorted) != {}
    ensures |fingers| == FINGER_COUNT
    ensures forall f :: 0 <= f < FINGER_COUNT ==>
              fingers[f] == Owner(Elements(sorted), FingerStart(sorted[i], f))
  {
    fingers := [];
    for f := 0 to FINGER_COUNT
      invariant |fingers| == f
      invariant f > 0 ==> Elements(sorted) != {}
      invariant forall q :: 0 <= q < f ==> fingers[q] == Owner(Elements(sorted), FingerStart(sorted[i], q))
    {
      var node := FindSuccessorOnRing(FingerStart(sorted[i], f), sorted);
      fingers := fingers + [node];
    }
  }

  lemma ListsOne(s: seq<Id>, x: Id)
    requires Distinct(s) && x !in Elements(s)
    ensures Distinct(s + [x]) && Elements(s + [x]) == Elements(s) + {x}
  {
    var r := s + [x];
    assert r[|s|] == x && forall i :: 0 <= i < |s| ==> r[i] == s[i] && s[i] in Elements(s);
  }

  /** The different fingers, in increasing order. */
  method UniqueOf(fingers: seq<Id>) returns (unique: seq<Id>)
    ensures StrictlySorted(unique) && Elements(unique) == Elements(fingers)
  {
    var todo := Elements(fingers);
    var listed := [];
    while todo != {}
      invariant Distinct(listed) && Elements(listed) !! todo && Elements(listed) + todo == Elements(fingers)
      decreases todo
    {
      var x :| x in todo;
      ListsOne(listed, x);
      listed := listed + [x];
      todo := todo - {x};
    }
    SortSorts(listed);
    unique := Sort(listed);
  }

  /** What the topology records for one member is what the ideal ring assigns it. */
  ghost predicate Describes(members: set<Id>, n: Id, k: nat, succ: Id, pred: Id, list: seq<Id>, fingers: seq<Id>,
                            unique: seq<Id>)
    requires members != {}
  {
    && succ == Next(members, n) && pred == Prev(members, n)
    && |list| == (if k < |members| - 1 then k else |members| - 1)
    && (forall j :: 0 <= j < |list| ==> list[j] == NextN(members, n, j + 1))
    && |fingers| == FINGER_COUNT
    && (forall f :: 0 <= f < FINGER_COUNT ==> fingers[f] == Owner(members, FingerStart(n, f)))
    && StrictlySorted(unique) && Elements(unique) == Elements(fingers)
  }

  /** One member's neighbours, list and fingers, read off the sorted identifiers. */
  method Describe(sorted: seq<Id>, i: nat, k: nat)
    returns (succ: Id, pred: Id, list: seq<Id>, fingers: seq<Id>, unique: seq<Id>)
    requires StrictlySorted(sorted) && i < |sorted|
    ensures Elements(sorted) != {}
    ensures Describes(Elements(sorted), sorted[i], k, succ, pred, list, fingers, unique)
  {
    var n := |sorted|;
    SortedSize(sorted);
    SortedNext(sorted, i);
    SortedPrev(sorted, i);
    succ := sorted[Wrap(i + 1, n)];
    pred := sorted[Wrap(i + n - 1, n)];
    list := ListFor(sorted, i, k);
    fingers := FingersFor(sorted, i);
    unique := UniqueOf(fingers);
  }

  /** The topology's entries for member n describe it. */
  ghost predicate Records(t: RingTopology, members: set<Id>, n: Id, k: nat)
    requires members != {}
  {
    && n in t.successors && n in t.predecessors && n in t.successorLists && n in t.uniqueFingers && n in t.fullFingers
    && Describes(members, n, k, t.successors[n], t.predecessors[n], t.successorLists[n], t.fullFingers[n],
                 t.uniqueFingers[n])
  }

  ghost predicate Complete(t: RingTopology, members: set<Id>, known: set<Id>, k: nat) {
    && known <= members
    && forall n {:trigger Records(t, members, n, k)} :: n in known ==> Records(t, members, n, k)
  }

  function Extended(t: RingTopology, x: Id, succ: Id, pred: Id, list: seq<Id>, fingers: seq<Id>,
                    unique: seq<Id>): RingTopology
  {
    t.(successors := t.successors[x := succ],
       predecessors := t.predecessors[x := pred],
       successorLists := t.successorLists[x := list],
       uniqueFingers := t.uniqueFingers[x := unique],
       fullFingers := t.fullFingers[x := fingers])
  }

  /** One more member described. */
  lemma ExtendedComplete(t: RingTopology, members: set<Id>, known: set<Id>, k: nat,
                         x: Id, succ: Id, pred: Id, list: seq<Id>, fingers: seq<Id>, unique: seq<Id>)
    requires Complete(t, members, known, k) && x in members
    requires Describes(members, x, k, succ, pred, list, fingers, unique)
    ensures Complete(Extended(t, x, succ, pred, list, fingers, unique), members, known + {x}, k)
  {
    var t' := Extended(t, x, succ, pred, list, fingers, unique);
    forall n | n in known + {x} ensures Records(t', members, n, k) {
      if n != x { assert Records(t, members, n, k); }
    }
  }

  lemma {:induction false} SortedSize(s: seq<Id>)
    requires StrictlySorted(s)
    ensures |Elements(s)| == |s|
  {
    if s != [] {
      SortedSize(s[1..]);
      Split(s);
      assert s[0] !in Elements(s[1..]);
    }
  }

  /** The computed topology is, member by member, the ideal ring. */
  method ComputeTopology(ids: seq<Id>, k: nat) returns (t: RingTopology)
    requires Distinct(ids)
    ensures StrictlySorted(t.nodes) && Elements(t.nodes) == Elements(ids)
    ensures Complete(t, Elements(ids), Elements(ids), k)
  {
    SortSorts(ids);
    var sorted := Sort(ids);
    ghost var members := Elements(ids);
    t := RingTopology(sorted, map[], map[], map[], map[], map[]);
    for i := 0 to |sorted|
      invariant t.nodes == sorted && Complete(t, members, Elements(sorted[..i]), k)
    {
      var succ, pred, list, fingers, unique := Describe(sorted, i, k);
      ExtendedComplete(t, members, Elements(sorted[..i]), k, sorted[i], succ, pred, list, fingers, unique);
      Grow(sorted, i);
      t := Extended(t, sorted[i], succ, pred, list, fingers, unique);
    }
    assert sorted[..|sorted|] == sorted;
  }

  lemma Grow(s: seq<Id>, i: nat)
    requires i < |s|
    ensures Elements(s[..i + 1]) == Elements(s[..i]) + {s[i]}
  {
  }

  /** The replicas of a key: its owner and the members that follow, min(k, n) in all. */
  method ReplicaNodes(key: Id, ids: seq<Id>, k: nat) returns (replicas: seq<Id>)
    requires ids != []
    requires Distinct(ids)
    ensures Elements(ids) != {}
    ensures |replicas| == if k > |ids| then |ids| else k
    ensures forall i :: 0 <= i < |replicas| ==>
              replicas[i] == NextN(Elements(ids), Owner(Elements(ids), key), i)
  {
    SortSorts(ids);
    var sorted := Sort(ids);
    var primary := FindSuccessorOnRing(key, sorted);
    var primaryIdx := IndexOf(sorted, primary);
    var replicaCount := k;
    if replicaCount > |sorted| { replicaCount := |sorted|; }
    replicas := Following(sorted, primaryIdx, replicaCount);
  }

  /** The identifiers follow n in ring order, n first. */
  ghost predicate FollowIn(members: set<Id>, n: Id, ids: seq<Id>)
    requires members != {}
  {
    forall q :: 0 <= q < |ids| ==> ids[q] == NextN(members, n, q)
  }

  lemma OneMoreFollows(members: set<Id>, n: Id, ids: seq<Id>, y: Id)
    requires members != {} && FollowIn(members, n, ids) && y == NextN(members, n, |ids|)
    ensures FollowIn(members, n, ids + [y])
  {
  }

  /** The `count` identifiers from index `start` on, wrapping around. */
  method Following(sorted: seq<Id>, start: nat, count: nat) returns (ids: seq<Id>)
    requires StrictlySorted(sorted) && start < |sorted| && count <= |sorted|
    ensures |ids| == count && Elements(sorted) != {}
    ensures FollowIn(Elements(sorted), sorted[start], ids)
  {
    ghost var members := Elements(sorted);
    assert sorted[start] in members;
    ids := [];
    for i := 0 to count
      invariant |ids| == i && FollowIn(members, sorted[start], ids)
    {
      SortedNextN(sorted, start, i);
      OneMoreFollows(members, sorted[start], ids, sorted[Wrap(start + i, |sorted|)]);
      ids := ids + [sorted[Wrap(start + i, |sorted|)]];
    }
  }

  method IndexOf(sorted: seq<Id>, x: Id) returns (i: nat)
    requires x in Elements(sorted)
    ensures i < |sorted| && sorted[i] == x
  {
    ghost var p :| 0 <= p < |sorted| && sorted[p] == x;
    i := 0;
    while sorted[i] != x
      invariant 0 <= i <= p
      decreases p - i
    {
      i := i + 1;
    }
  }

  // ---------------------------------------------------------------- any ring, listed in order

  lemma Prepend(x: Id, s: seq<Id>)
    requires StrictlySorted(s) && forall y :: y in Elements(s) ==> x < y
    ensures StrictlySorted([x] + s) && Elements([x] + s) == Elements(s) + {x}
  {
    assert ([x] + s)[1..] == s;
    Split([x] + s);
    forall j | 0 <= j < |s| ensures x < s[j] { assert s[j] in Elements(s); }
  }

  lemma LeastIsBelow(members: set<Id>, x: Id)
    requires members != {} && x == Owner(members, 0)
    ensures forall y :: y in members - {x} ==> x < y
  {
    forall y | y in members - {x} ensures x < y {
      assert Dist(0, x) <= Dist(0, y);
    }
  }

  ghost function InOrder(members: set<Id>): (s: seq<Id>)
    ensures StrictlySorted(s) && Elements(s) == members
    decreases |members|
  {
    if members == {} then []
    else
      var x := Owner(members, 0);
      var rest := InOrder(members - {x});
      LeastIsBelow(members, x);
      Prepend(x, rest);
      assert members == (members - {x}) + {x};
      [x] + rest
  }
}
