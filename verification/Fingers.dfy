/** Finger repair: what one repair and a full pass of repairs leave in a node's tables. */
module Fingers {
  import opened Ids
  import opened Ring
  import opened Network
  import opened Lookup
  import opened Routes
  import opened Sums

  function FingerFixed(net: Net, n: Id): (net': Net)
    requires n in net && |net[n].fingers| == FINGER_COUNT && net[n].nextFinger < FINGER_COUNT
    ensures net'.Keys == net.Keys && |net'[n].fingers| == FINGER_COUNT
  {
    var i := net[n].nextFinger;
    var a := Find(net[n := net[n].(nextFinger := (i + 1) % FINGER_COUNT)], n, FingerStart(n, i));
    a.net[n := a.net[n].(fingers := a.net[n].fingers[i := a.node])]
  }

  function FingersFixed(net: Net, n: Id, count: nat): (net': Net)
    requires n in net && |net[n].fingers| == FINGER_COUNT && net[n].nextFinger < FINGER_COUNT
    ensures net'.Keys == net.Keys && |net'[n].fingers| == FINGER_COUNT
    ensures net'[n].nextFinger < FINGER_COUNT
  {
    if count == 0 then net
    else
      var net1 := FingersFixed(net, n, count - 1);
      FindKeepsCursor(net1[n := net1[n].(nextFinger := (net1[n].nextFinger + 1) % FINGER_COUNT)], n,
                      FingerStart(n, net1[n].nextFinger));
      FingerFixed(net1, n)
  }

  // ---------------------------------------------------------------- what repairs leave alone

  /** A list may lose dead entries. */
  predicate Thinned(live: set<Id>, list: seq<Id>, list': seq<Id>) {
    && (forall x {:trigger x in list'} :: x in list' ==> x in list)
    && (forall x {:trigger x in list} :: x in list && x in live ==> x in list')
  }

  /** Only n's fingers, cursor and dead list entries may differ. */
  predicate Preserved(net: Net, n: Id, net': Net)
    requires n in net
  {
    && net'.Keys == net.Keys
    && net' == net[n := net[n].(fingers := net'[n].fingers, nextFinger := net'[n].nextFinger, list := net'[n].list)]
    && Thinned(net.Keys, net[n].list, net'[n].list)
    && (Dead(net, n) == {} ==> net'[n].list == net[n].list)
  }

  /** Fingers lose dead entries, which become n itself, and nothing else. */
  predicate Cleaned(live: set<Id>, n: Id, fingers: seq<Id>, fingers': seq<Id>) {
    && |fingers'| == |fingers|
    && forall i :: 0 <= i < |fingers| ==>
         fingers'[i] == fingers[i] || (fingers[i] !in live && fingers'[i] == n)
  }

  predicate Tidied(net: Net, n: Id, net': Net)
    requires n in net
  {
    && Preserved(net, n, net') && net'[n].nextFinger == net[n].nextFinger
    && Cleaned(net.Keys, n, net[n].fingers, net'[n].fingers)
  }

  lemma TidiedDead(net: Net, n: Id, net': Net)
    requires n in net && Tidied(net, n, net')
    ensures Dead(net', n) <= Dead(net, n)
  {
    forall x | x in Dead(net', n) ensures x in Dead(net, n) {
      if x in net'[n].fingers {
        var i :| 0 <= i < |net'[n].fingers| && net'[n].fingers[i] == x;
        assert net[n].fingers[i] == x;
      }
    }
  }

  lemma EvictionTidies(net: Net, n: Id, dead: Id)
    requires n in net && dead !in net
    ensures Tidied(net, n, Evicted(net, n, dead))
  {
    if Dead(net, n) == {} {
      assert dead !in Dead(net, n);
      EvictStranger(net, n, dead);
    }
  }

  lemma TidiedTwice(net: Net, n: Id, net1: Net, net2: Net)
    requires n in net && Tidied(net, n, net1) && Tidied(net1, n, net2)
    ensures Tidied(net, n, net2)
  {
    TidiedDead(net, n, net1);
  }

  lemma {:induction false} SearchTidies(net: Net, n: Id, id: Id, c: Id, hops: nat)
    requires n in net
    ensures Tidied(net, n, Search(net, n, id, c, hops).net)
    decreases hops
  {
    if hops > 0 {
      if c !in net {
        var net1 := Evicted(net, n, c);
        EvictionTidies(net, n, c);
        var c1 := ClosestPreceding(net1[n], n, id);
        if c1 != n {
          SearchTidies(net1, n, id, c1, hops - 1);
          TidiedTwice(net, n, net1, Search(net, n, id, c, hops).net);
        }
      } else {
        SearchTidies(net, n, id, ClosestPreceding(net[c], c, id), hops - 1);
      }
    }
  }

  /** A lookup changes nothing but the dead entries of the node that runs it. */
  lemma FindTidies(net: Net, n: Id, id: Id)
    requires n in net
    ensures Tidied(net, n, Find(net, n, id).net)
  {
    SearchTidies(net, n, id, ClosestPreceding(net[n], n, id), MAX_LOOKUP_HOPS);
  }

  // ---------------------------------------------------------------- when every lookup of n is exact

  ghost predicate AllRelaysLive(net: Net, n: Id) {
    forall id {:trigger RelaysLive(net, n, id)} :: RelaysLive(net, n, id)
  }

  /** The searcher's list names everybody and fewer than 160 of its entries are dead; or no other node
      names dead ones, and the ring is small enough to walk once more per dead entry of the searcher,
      or the searcher has none and all fingers are exact already. */
  ghost predicate Equipped(net: Net, n: Id)
    requires n in net
  {
    || (KnowsAll(net, n) && |Dead(net, n)| < MAX_LOOKUP_HOPS)
    || (AllRelaysLive(net, n) && (|Dead(net, n)| + 1) * |net.Keys| <= MAX_LOOKUP_HOPS + 1)
    || (AllRelaysLive(net, n) && Dead(net, n) == {} && ExactFingers(net))
  }

  ghost predicate Served(net: Net, n: Id) {
    && Ideal(net) && n in net && |net[n].fingers| == FINGER_COUNT && net[n].nextFinger < FINGER_COUNT
    && Equipped(net, n)
  }

  lemma {:induction false} BudgetMono(dead1: nat, dead2: nat, span1: nat, span2: nat)
    requires dead1 <= dead2 && span1 <= span2
    ensures Budget(dead1, span1) <= Budget(dead2, span2)
    decreases dead2
  {
    if dead2 > 0 { BudgetMono(if dead1 == 0 then 0 else dead1 - 1, dead2 - 1, span1, span2); }
  }

  /** One walk over the members per dead entry fits the hop limit. */
  lemma WalkReaches(net: Net, n: Id, id: Id)
    requires Linked(net) && n in net && RelaysLive(net, n, id)
    requires (|Dead(net, n)| + 1) * |net.Keys| <= MAX_LOOKUP_HOPS + 1
    ensures Reaches(net, n, id)
  {
    LiveRelaysArrive(net, n, id);
    BudgetFits(|Dead(net, n)|, |net.Keys|);
    SmallerSubset(Nearer(net.Keys, n, id), net.Keys, n);
    BudgetMono(|Dead(net, n)|, |Dead(net, n)|, |Nearer(net.Keys, n, id)|, |net.Keys| - 1);
    TripWalks(net, n, id);
  }

  /** So does the descent along exact fingers. */
  lemma DescentReaches(net: Net, n: Id, id: Id)
    requires Ideal(net) && Linked(net) && n in net && RelaysLive(net, n, id) && Dead(net, n) == {} && ExactFingers(net)
    ensures Reaches(net, n, id)
  {
    LiveRelaysArrive(net, n, id);
    Pow2Of160();
    TripHalves(net, n, id, FINGER_COUNT);
  }

  lemma ServedReaches(net: Net, n: Id, id: Id)
    requires Served(net, n)
    ensures Linked(net) && Reaches(net, n, id)
  {
    IdealIsLinked(net);
    if KnowsAll(net, n) && |Dead(net, n)| < MAX_LOOKUP_HOPS {
      KnowingAllArrives(net, n, id);
    } else {
      assert RelaysLive(net, n, id);
      if (|Dead(net, n)| + 1) * |net.Keys| <= MAX_LOOKUP_HOPS + 1 {
        WalkReaches(net, n, id);
      } else {
        DescentReaches(net, n, id);
      }
    }
  }

  lemma ServedStays(net: Net, n: Id, net': Net)
    requires Served(net, n) && Preserved(net, n, net') && Ideal(net')
    requires |net'[n].fingers| == FINGER_COUNT && net'[n].nextFinger < FINGER_COUNT
    requires Dead(net', n) <= Dead(net, n)
    requires ExactFingers(net) ==> ExactFingers(net')
    ensures Served(net', n)
  {
    SubsetSize(Dead(net', n), Dead(net, n));
    BudgetMono(|Dead(net', n)|, |Dead(net, n)|, |net.Keys| - 1, |net.Keys| - 1);
    BudgetFits(|Dead(net', n)|, |net.Keys|);
    BudgetFits(|Dead(net, n)|, |net.Keys|);
    if AllRelaysLive(net, n) {
      forall id ensures RelaysLive(net', n, id) {
        assert RelaysLive(net, n, id);
        forall c | c in net' && BetweenExclusive(c, n, id) ensures NamesLive(net', id, c) {
          assert NamesLive(net, id, c);
        }
      }
    }
  }

  // ---------------------------------------------------------------- one repair

  function WithFingers(net: Net, n: Id, fingers: seq<Id>, k: nat): (net': Net)
    requires n in net
    ensures net'.Keys == net.Keys
  {
    net[n := net[n].(fingers := fingers, nextFinger := k)]
  }

  lemma FingersKeepIdeal(net: Net, n: Id, fingers: seq<Id>, k: nat)
    requires Ideal(net) && n in net
    ensures Ideal(WithFingers(net, n, fingers, k))
  {
    var net' := WithFingers(net, n, fingers, k);
    assert net'.Keys == net.Keys;
    forall m | m in net' ensures IdealNode(net', m) { assert IdealNode(net, m); }
  }

  lemma CursorKeeps(net: Net, n: Id, k: nat)
    requires n in net
    ensures var net' := WithFingers(net, n, net[n].fingers, k);
            Dead(net', n) == Dead(net, n) && (ExactFingers(net) ==> ExactFingers(net'))
  {
    var net' := WithFingers(net, n, net[n].fingers, k);
    if ExactFingers(net) {
      forall m | m in net' ensures ExactFingersAt(net', m) { assert ExactFingersAt(net, m); }
    }
  }

  /** Writing the owner of its start into a finger adds no dead entry and keeps exact fingers. */
  lemma WriteKeeps(net: Net, n: Id, i: nat, k: nat)
    requires n in net && i < |net[n].fingers| == FINGER_COUNT
    ensures var net' := WithFingers(net, n, net[n].fingers[i := Owner(net.Keys, FingerStart(n, i))], k);
            Dead(net', n) <= Dead(net, n) && (ExactFingers(net) ==> ExactFingers(net'))
  {
    var fs := net[n].fingers[i := Owner(net.Keys, FingerStart(n, i))];
    var net' := WithFingers(net, n, fs, k);
    forall x | x in Dead(net', n) ensures x in Dead(net, n) {
      if x in fs {
        var j :| 0 <= j < |fs| && fs[j] == x;
        assert net[n].fingers[j] == x;
      }
    }
    if ExactFingers(net) {
      assert ExactFingersAt(net, n);
      assert ExactFinger(net.Keys, n, i, net[n].fingers[i]);
      assert fs == net[n].fingers;
      CursorKeeps(net, n, k);
    }
  }

  lemma PreservedTwice(net: Net, n: Id, net1: Net, net2: Net)
    requires n in net && Preserved(net, n, net1) && Preserved(net1, n, net2) && Dead(net1, n) <= Dead(net, n)
    ensures Preserved(net, n, net2)
  {
  }

  lemma TidiedExact(net: Net, n: Id, net': Net)
    requires n in net && Tidied(net, n, net') && ExactFingers(net)
    ensures ExactFingers(net')
  {
    assert ExactFingersAt(net, n);
    forall i | 0 <= i < FINGER_COUNT ensures net'[n].fingers[i] == net[n].fingers[i] {
      assert ExactFinger(net.Keys, n, i, net[n].fingers[i]);
    }
    forall m | m in net' ensures ExactFingersAt(net', m) { assert ExactFingersAt(net, m); }
  }

  /** The lookup of a repair finds the owner of the finger's start. */
  lemma RepairLookup(net: Net, n: Id)
    requires Served(net, n)
    ensures var i := net[n].nextFinger; var k := (i + 1) % FINGER_COUNT;
            var net0 := WithFingers(net, n, net[n].fingers, k);
            var a := Find(net0, n, FingerStart(n, i));
            && a.node == Owner(net.Keys, FingerStart(n, i)) && Tidied(net0, n, a.net) && Ideal(a.net)
            && Preserved(net, n, net0) && Dead(net0, n) == Dead(net, n) && (ExactFingers(net) ==> ExactFingers(net0))
  {
    var i := net[n].nextFinger;
    var k := (i + 1) % FINGER_COUNT;
    var net0 := WithFingers(net, n, net[n].fingers, k);
    FingersKeepIdeal(net, n, net[n].fingers, k);
    CursorKeeps(net, n, k);
    ServedStays(net, n, net0);
    ServedReaches(net0, n, FingerStart(n, i));
    LookupIffReaches(net0, n, FingerStart(n, i));
    LookupNeverWrong(net0, n, FingerStart(n, i));
    FindTidies(net0, n, FingerStart(n, i));
  }

  lemma RepairWrites(net: Net, n: Id)
    requires n in net && |net[n].fingers| == FINGER_COUNT && net[n].nextFinger < FINGER_COUNT
    ensures var i := net[n].nextFinger; var k := (i + 1) % FINGER_COUNT;
            var a := Find(WithFingers(net, n, net[n].fingers, k), n, FingerStart(n, i));
            FingerFixed(net, n) == WithFingers(a.net, n, a.net[n].fingers[i := a.node], k)
  {
    var i := net[n].nextFinger;
    FindKeepsCursor(WithFingers(net, n, net[n].fingers, (i + 1) % FINGER_COUNT), n, FingerStart(n, i));
  }

  /** On an ideal ring one repair writes the owner of the finger's start if and only if the way of its
      lookup arrives within the hop limit; otherwise it writes a node short of the start. */
  lemma FixOneIff(net: Net, n: Id)
    requires Ideal(net) && n in net && |net[n].fingers| == FINGER_COUNT && net[n].nextFinger < FINGER_COUNT
    ensures var i := net[n].nextFinger; var start := FingerStart(n, i);
            var moved := WithFingers(net, n, net[n].fingers, (i + 1) % FINGER_COUNT);
            var f := FingerFixed(net, n)[n].fingers[i];
            && (f == Owner(net.Keys, start) <==> Reaches(moved, n, start))
            && (!Reaches(moved, n, start) ==> BetweenExclusive(f, n, start))
  {
    var i := net[n].nextFinger;
    var start, k := FingerStart(n, i), (i + 1) % FINGER_COUNT;
    var moved := WithFingers(net, n, net[n].fingers, k);
    FingersKeepIdeal(net, n, net[n].fingers, k);
    RepairWrites(net, n);
    LookupIffReaches(moved, n, start);
    if Find(moved, n, start).capped {
      HopIsCloser(moved, n, start);
      CappedIsShort(moved, n, start, ClosestPreceding(moved[n], n, start), MAX_LOOKUP_HOPS);
    }
  }

  /** The fingers after a repair. */
  lemma RepairedFingers(net: Net, n: Id)
    requires Served(net, n)
    ensures var i := net[n].nextFinger; var net' := FingerFixed(net, n);
            && n in net' && net'[n].nextFinger == (i + 1) % FINGER_COUNT && |net'[n].fingers| == FINGER_COUNT
            && net'[n].fingers[i] == Owner(net.Keys, FingerStart(n, i))
            && forall j :: 0 <= j < FINGER_COUNT && j != i ==>
                 net'[n].fingers[j] == net[n].fingers[j] || (net[n].fingers[j] !in net && net'[n].fingers[j] == n)
  {
    RepairLookup(net, n);
    RepairWrites(net, n);
  }

  /** One repair writes the owner of the finger's start; other fingers and list entries can only
      lose dead nodes, and every later lookup of n is exact again. */
  lemma FixOne(net: Net, n: Id)
    requires Served(net, n)
    ensures var i := net[n].nextFinger; var net' := FingerFixed(net, n);
            && Served(net', n) && Preserved(net, n, net')
            && net'[n].nextFinger == (i + 1) % FINGER_COUNT
            && net'[n].fingers[i] == Owner(net.Keys, FingerStart(n, i))
            && forall j :: 0 <= j < FINGER_COUNT && j != i ==>
                 net'[n].fingers[j] == net[n].fingers[j] || (net[n].fingers[j] !in net && net'[n].fingers[j] == n)
  {
    var i := net[n].nextFinger;
    var k := (i + 1) % FINGER_COUNT;
    var net0 := WithFingers(net, n, net[n].fingers, k);
    RepairLookup(net, n);
    var a := Find(net0, n, FingerStart(n, i));
    var net' := FingerFixed(net, n);
    RepairedFingers(net, n);
    RepairWrites(net, n);
    TidiedDead(net0, n, a.net);
    FingersKeepIdeal(a.net, n, a.net[n].fingers[i := a.node], k);
    WriteKeeps(a.net, n, i, k);
    PreservedTwice(net, n, net0, a.net);
    PreservedTwice(net, n, a.net, net');
    if ExactFingers(net) { TidiedExact(net0, n, a.net); }
    ServedStays(net, n, net');
  }

  // ---------------------------------------------------------------- a full pass

  /** The finger index reached after j repairs, starting from index i. */
  function Cursor(i: nat, j: nat): (k: nat)
    requires i < FINGER_COUNT && j <= FINGER_COUNT
    ensures k < FINGER_COUNT
  {
    if i + j < FINGER_COUNT then i + j else i + j - FINGER_COUNT
  }

  lemma CursorMoves(i: nat, j: nat)
    requires i < FINGER_COUNT && j < FINGER_COUNT
    ensures (Cursor(i, j) + 1) % FINGER_COUNT == Cursor(i, j + 1)
  {
  }

  ghost predicate FixedSoFar(net: Net, n: Id, fingers: seq<Id>, count: nat)
    requires n in net && net[n].nextFinger < FINGER_COUNT && |fingers| == FINGER_COUNT && count <= FINGER_COUNT
  {
    forall j {:trigger Cursor(net[n].nextFinger, j)} :: 0 <= j < count ==>
      var i := Cursor(net[n].nextFinger, j); ExactFinger(net.Keys, n, i, fingers[i])
  }

  /** net1 is net after `count` repairs at n. */
  ghost predicate AfterFixes(net: Net, n: Id, net1: Net, count: nat)
    requires n in net && net[n].nextFinger < FINGER_COUNT && count <= FINGER_COUNT
  {
    && Served(net1, n) && Preserved(net, n, net1)
    && Dead(net1, n) <= Dead(net, n)
    && net1[n].nextFinger == Cursor(net[n].nextFinger, count)
    && FixedSoFar(net, n, net1[n].fingers, count)
  }

  lemma FixForgets(net: Net, n: Id)
    requires Served(net, n)
    ensures Dead(FingerFixed(net, n), n) <= Dead(net, n)
  {
    FixOne(net, n);
    var net' := FingerFixed(net, n);
    forall x | x in Dead(net', n) ensures x in Dead(net, n) {
      if x in net'[n].fingers {
        var j :| 0 <= j < FINGER_COUNT && net'[n].fingers[j] == x;
        assert net[n].fingers[j] == x;
      }
    }
  }

  /** Fingers repaired earlier are alive, so the next repair leaves them as they are. */
  lemma FixedStays(net: Net, n: Id, fs: seq<Id>, fs': seq<Id>, count: nat)
    requires n in net && net[n].nextFinger < FINGER_COUNT && count < FINGER_COUNT
    requires |fs| == |fs'| == FINGER_COUNT && FixedSoFar(net, n, fs, count)
    requires var i := Cursor(net[n].nextFinger, count);
             && fs'[i] == Owner(net.Keys, FingerStart(n, i))
             && forall j :: 0 <= j < FINGER_COUNT && j != i ==> fs'[j] == fs[j] || fs[j] !in net
    ensures FixedSoFar(net, n, fs', count + 1)
  {
    var i0 := net[n].nextFinger;
    forall j | 0 <= j < count + 1
      ensures ExactFinger(net.Keys, n, Cursor(i0, j), fs'[Cursor(i0, j)])
    {
      assert j < count ==> ExactFinger(net.Keys, n, Cursor(i0, j), fs[Cursor(i0, j)]);
    }
  }

  predicate IsFix(a: Net, n: Id, b: Net) {
    n in a && |a[n].fingers| == FINGER_COUNT && a[n].nextFinger < FINGER_COUNT && b == FingerFixed(a, n)
  }

  lemma FixNext(net: Net, n: Id, net1: Net, net2: Net, count: nat)
    requires n in net && net[n].nextFinger < FINGER_COUNT && count < FINGER_COUNT
    requires AfterFixes(net, n, net1, count) && IsFix(net1, n, net2)
    ensures AfterFixes(net, n, net2, count + 1)
  {
    FixOne(net1, n);
    FixForgets(net1, n);
    CursorMoves(net[n].nextFinger, count);
    PreservedTwice(net, n, net1, net2);
    FixedStays(net, n, net1[n].fingers, net2[n].fingers, count);
  }

  /** The networks a pass goes through, one repair apart. */
  predicate PassStep(n: Id, nets: seq<Net>, i: nat)
    requires i + 1 < |nets|
  {
    IsFix(nets[i], n, nets[i + 1])
  }

  predicate Pass(n: Id, nets: seq<Net>) {
    forall i {:trigger PassStep(n, nets, i)} :: 0 <= i && i + 1 < |nets| ==> PassStep(n, nets, i)
  }

  lemma {:induction false} PassOf(net: Net, n: Id, count: nat) returns (nets: seq<Net>)
    requires n in net && |net[n].fingers| == FINGER_COUNT && net[n].nextFinger < FINGER_COUNT
    ensures |nets| == count + 1 && nets[0] == net && nets[count] == FingersFixed(net, n, count)
    ensures Pass(n, nets)
  {
    if count == 0 {
      nets := [net];
    } else {
      var before := PassOf(net, n, count - 1);
      nets := before + [FingersFixed(net, n, count)];
      forall i | 0 <= i < count ensures PassStep(n, nets, i) {
        assert i + 1 < count ==> PassStep(n, before, i);
      }
    }
  }

  lemma {:induction false} FixMany(net: Net, n: Id, nets: seq<Net>, count: nat)
    requires Served(net, n) && count <= FINGER_COUNT
    requires count < |nets| && nets[0] == net && Pass(n, nets)
    ensures AfterFixes(net, n, nets[count], count)
    decreases count
  {
    if count > 0 {
      FixMany(net, n, nets, count - 1);
      assert PassStep(n, nets, count - 1);
      FixNext(net, n, nets[count - 1], nets[count], count - 1);
    }
  }

  /** A full pass over the fingers makes them exact, wherever the cursor stood and whatever they
      held, dead nodes included; of everything else it can only drop dead entries of n's list. */
  lemma FullPassIsExact(net: Net, n: Id, count: nat)
    requires Served(net, n) && count == FINGER_COUNT
    ensures var net' := FingersFixed(net, n, count);
            && ExactFingersAt(net', n) && Preserved(net, n, net') && Served(net', n)
            && Dead(net', n) <= Dead(net, n) && net'[n].nextFinger == net[n].nextFinger
  {
    var nets := PassOf(net, n, count);
    FixMany(net, n, nets, count);
    AllFixed(net, n, nets[count]);
  }

  lemma AllFixed(net: Net, n: Id, net': Net)
    requires n in net && net[n].nextFinger < FINGER_COUNT && AfterFixes(net, n, net', FINGER_COUNT)
    ensures ExactFingersAt(net', n) && net'[n].nextFinger == net[n].nextFinger
  {
    var i0 := net[n].nextFinger;
    forall i | 0 <= i < FINGER_COUNT ensures ExactFinger(net'.Keys, n, i, net'[n].fingers[i]) {
      assert Cursor(i0, if i >= i0 then i - i0 else i - i0 + FINGER_COUNT) == i;
    }
  }
}
