/**
  Garbage collection of the local block store: a depth-first walk from the
  registered roots marks hashes, then every stored block that is not marked is
  deleted. Links may form cycles and may lead to blocks that are not there.
*/
module LocalGC {

  type Hash = nat
  /** The links of each block that is present and can be decoded. */
  type Dag = map<Hash, seq<Hash>>

  // ---------------------------------------------------------------- reachability

  /** x is present and links to y. */
  predicate Link(dag: Dag, x: Hash, y: Hash) {
    x in dag && y in dag[x]
  }

  predicate IsPath(dag: Dag, a: Hash, p: seq<Hash>, b: Hash) {
    && p != [] && p[0] == a && p[|p| - 1] == b
    && forall i :: 0 <= i < |p| - 1 ==> Link(dag, p[i], p[i + 1])
  }

  ghost predicate Reaches(dag: Dag, a: Hash, b: Hash) {
    exists p :: IsPath(dag, a, p, b)
  }

  ghost predicate ReachableBy(dag: Dag, roots: seq<Hash>, n: nat, b: Hash) {
    exists i :: 0 <= i < n && i < |roots| && Reaches(dag, roots[i], b)
  }

  ghost predicate Reachable(dag: Dag, roots: seq<Hash>, b: Hash) {
    ReachableBy(dag, roots, |roots|, b)
  }

  lemma ReachesSelf(dag: Dag, a: Hash)
    ensures Reaches(dag, a, a)
  {
    assert IsPath(dag, a, [a], a);
  }

  lemma LinkThen(dag: Dag, a: Hash, link: Hash, b: Hash)
    requires a in dag && link in dag[a] && Reaches(dag, link, b)
    ensures Reaches(dag, a, b)
  {
    var p :| IsPath(dag, link, p, b);
    var q := [a] + p;
    forall i | 0 <= i < |q| - 1 ensures Link(dag, q[i], q[i + 1]) {
      if i > 0 { assert Link(dag, p[i - 1], p[i]); }
    }
    assert IsPath(dag, a, q, b);
  }

  predicate LinksIn(dag: Dag, x: Hash, s: set<Hash>) {
    x in dag ==> forall y :: y in dag[x] ==> y in s
  }

  /** The links of every present member are members. */
  predicate Closed(dag: Dag, s: set<Hash>) {
    forall x :: x in s ==> LinksIn(dag, x, s)
  }

  lemma {:induction false} ClosedHoldsPath(dag: Dag, a: Hash, p: seq<Hash>, b: Hash, s: set<Hash>)
    requires IsPath(dag, a, p, b) && a in s && Closed(dag, s)
    ensures b in s
    decreases |p|
  {
    if |p| > 1 {
      assert Link(dag, p[0], p[1]) && LinksIn(dag, p[0], s);
      var q := p[1..];
      forall i | 0 <= i < |q| - 1 ensures Link(dag, q[i], q[i + 1]) { assert Link(dag, p[i + 1], p[i + 2]); }
      assert IsPath(dag, p[1], q, b);
      ClosedHoldsPath(dag, p[1], p[1..], b, s);
    }
  }

  // ---------------------------------------------------------------- the walk

  /** The hashes marked since `before` have all their links marked. */
  predicate Settled(dag: Dag, before: set<Hash>, seen: set<Hash>) {
    forall x :: x in seen && x !in before ==> LinksIn(dag, x, seen)
  }

  lemma StaysClosed(dag: Dag, before: set<Hash>, seen: set<Hash>)
    requires Closed(dag, before) && before <= seen && Settled(dag, before, seen)
    ensures Closed(dag, seen)
  {
  }

  ghost predicate AllReached(dag: Dag, c: Hash, before: set<Hash>, seen: set<Hash>) {
    forall x :: x in seen && x !in before ==> Reaches(dag, c, x)
  }

  class Walker {
    const dag: Dag
    var seen: set<Hash>

    constructor (d: Dag)
      ensures dag == d && seen == {}
    {
      dag, seen := d, {};
    }

    /** Marks c and everything reachable from it through present, unmarked blocks. */
    method Walk(c: Hash)
      modifies this
      ensures old(seen) <= seen && c in seen
      ensures Settled(dag, old(seen), seen) && AllReached(dag, c, old(seen), seen)
      decreases dag.Keys - seen, 0
    {
      if c in seen { return; }
      ghost var before := seen;
      seen := seen + {c};
      ReachesSelf(dag, c);
      if c !in dag { return; }
      var links := dag[c];
      for i := 0 to |links|
        invariant before + {c} <= seen
        invariant Settled(dag, before + {c}, seen) && AllReached(dag, c, before, seen)
        invariant forall j :: 0 <= j < i ==> links[j] in seen
      {
        ghost var s := seen;
        assert dag.Keys - seen < dag.Keys - before by { assert c in dag.Keys - before && c !in dag.Keys - seen; }
        Walk(links[i]);
        forall x | x in seen && x !in before ensures Reaches(dag, c, x) {
          if x !in s { LinkThen(dag, c, links[i], x); }
        }
      }
    }

    method WalkAll(roots: seq<Hash>)
      requires seen == {}
      modifies this
      ensures forall x :: x in seen <==> Reachable(dag, roots, x)
    {
      for i := 0 to |roots|
        invariant Closed(dag, seen)
        invariant forall j :: 0 <= j < i ==> roots[j] in seen
        invariant forall x :: x in seen ==> ReachableBy(dag, roots, i, x)
      {
        ghost var s := seen;
        Walk(roots[i]);
        StaysClosed(dag, s, seen);
        ReachedSoFar(dag, roots, i, s, seen);
      }
      forall x | Reachable(dag, roots, x) ensures x in seen { ClosedHoldsReachable(dag, roots, x, seen); }
    }
  }

  lemma ReachedSoFar(dag: Dag, roots: seq<Hash>, i: nat, before: set<Hash>, seen: set<Hash>)
    requires i < |roots| && AllReached(dag, roots[i], before, seen)
    requires forall x :: x in before ==> ReachableBy(dag, roots, i, x)
    ensures forall x :: x in seen ==> ReachableBy(dag, roots, i + 1, x)
  {
  }

  lemma ClosedHoldsReachable(dag: Dag, roots: seq<Hash>, x: Hash, s: set<Hash>)
    requires Closed(dag, s) && Reachable(dag, roots, x) && forall j :: 0 <= j < |roots| ==> roots[j] in s
    ensures x in s
  {
    var i :| 0 <= i < |roots| && Reaches(dag, roots[i], x);
    var p :| IsPath(dag, roots[i], p, x);
    ClosedHoldsPath(dag, roots[i], p, x, s);
  }

  datatype GCResult = Swept(removed: nat, kept: nat) | DeleteFailed

  class LocalStore {
    var stored: set<Hash>
    const dag: Dag

    constructor (blocks: set<Hash>, d: Dag)
      ensures stored == blocks && dag == d
    {
      stored, dag := blocks, d;
    }

    /** Keeps exactly the stored blocks reachable from a root; a failing deletion stops the sweep. */
    method GcLocal(roots: seq<Hash>, failing: set<Hash>) returns (r: GCResult)
      modifies this
      ensures forall x :: x in old(stored) && Reachable(dag, roots, x) ==> x in stored
      ensures stored <= old(stored)
      ensures r.Swept? <==> forall x :: x in old(stored) && !Reachable(dag, roots, x) ==> x !in failing
      ensures r.Swept? ==> forall x :: x in stored <==> x in old(stored) && Reachable(dag, roots, x)
      ensures r.Swept? ==> r.kept == |stored| && r.removed + r.kept == |old(stored)|
    {
      var walker := new Walker(dag);
      walker.WalkAll(roots);
      var reachable := walker.seen;
      var todo := stored;
      var removed, kept := 0, 0;
      while todo != {}
        invariant todo <= stored <= old(stored)
        invariant forall x :: x in old(stored) && x !in todo ==> (x in stored <==> x in reachable)
        invariant forall x :: x in old(stored) && x !in todo && x !in reachable ==> x !in failing
        invariant kept + |todo| == |stored| && removed + |stored| == |old(stored)|
        decreases todo
      {
        var c :| c in todo;
        if c in reachable {
          kept := kept + 1;
        } else {
          if c in failing {
            assert !Reachable(dag, roots, c);
            return DeleteFailed;
          }
          stored := stored - {c};
          removed := removed + 1;
        }
        todo := todo - {c};
      }
      r := Swept(removed, kept);
    }
  }
}
