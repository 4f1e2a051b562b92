/** The ideal ring on a finite set of members, defined by clockwise gaps alone: who follows
    whom, who precedes whom, and who owns a position. */
module Ring {
  import opened Ids

  predicate IsNext(members: set<Id>, a: Id, y: Id) {
    y in members && forall z {:trigger Gap(a, z)} :: z in members ==> Gap(a, y) <= Gap(a, z)
  }

  predicate IsPrev(members: set<Id>, b: Id, y: Id) {
    y in members && forall z {:trigger Gap(z, b)} :: z in members ==> Gap(y, b) <= Gap(z, b)
  }

  predicate IsOwner(members: set<Id>, id: Id, y: Id) {
    y in members && forall z {:trigger Dist(id, z)} :: z in members ==> Dist(id, y) <= Dist(id, z)
  }

  lemma {:induction false} NextExists(members: set<Id>, a: Id)
    requires members != {}
    ensures exists y :: IsNext(members, a, y)
  {
    var x :| x in members;
    if members == {x} {
      assert IsNext(members, a, x);
    } else {
      var rest := members - {x};
      assert members == rest + {x};
      NextExists(rest, a);
      var y :| IsNext(rest, a, y);
      assert IsNext(members, a, if Gap(a, x) <= Gap(a, y) then x else y);
    }
  }

  lemma {:induction false} PrevExists(members: set<Id>, b: Id)
    requires members != {}
    ensures exists y :: IsPrev(members, b, y)
  {
    var x :| x in members;
    if members == {x} {
      assert IsPrev(members, b, x);
    } else {
      var rest := members - {x};
      assert members == rest + {x};
      PrevExists(rest, b);
      var y :| IsPrev(rest, b, y);
      assert IsPrev(members, b, if Gap(x, b) <= Gap(y, b) then x else y);
    }
  }

  /** The first member strictly clockwise of a; a itself when it is the only member. */
  ghost function Next(members: set<Id>, a: Id): (y: Id)
    requires members != {}
    ensures IsNext(members, a, y)
  {
    NextExists(members, a);
    var y :| IsNext(members, a, y);
    y
  }

  /** The last member strictly before b; b itself when it is the only member. */
  ghost function Prev(members: set<Id>, b: Id): (y: Id)
    requires members != {}
    ensures IsPrev(members, b, y)
  {
    PrevExists(members, b);
    var y :| IsPrev(members, b, y);
    y
  }

  /** The member responsible for a position: the first one at or after it. */
  ghost function Owner(members: set<Id>, id: Id): (y: Id)
    requires members != {}
    ensures IsOwner(members, id, y)
  {
    var y := if id in members then id else Next(members, id);
    assert forall z :: z in members && id !in members ==> Dist(id, z) == Gap(id, z);
    y
  }

  lemma NextIs(members: set<Id>, a: Id, y: Id)
    requires IsNext(members, a, y)
    ensures members != {} && Next(members, a) == y
  {
    var x := Next(members, a);
    assert Gap(a, x) == Gap(a, y);
  }

  lemma PrevIs(members: set<Id>, b: Id, y: Id)
    requires IsPrev(members, b, y)
    ensures members != {} && Prev(members, b) == y
  {
    var x := Prev(members, b);
    assert Gap(x, b) == Gap(y, b);
  }

  lemma OwnerIs(members: set<Id>, id: Id, y: Id)
    requires IsOwner(members, id, y)
    ensures members != {} && Owner(members, id) == y
  {
    var x := Owner(members, id);
    assert Dist(id, x) == Dist(id, y);
  }

  /** Next and Prev undo each other on members. */
  lemma PrevOfNext(members: set<Id>, a: Id)
    requires a in members
    ensures Prev(members, Next(members, a)) == a
    ensures Next(members, Prev(members, a)) == a
  {
    var y := Next(members, a);
    forall z | z in members ensures Gap(a, y) <= Gap(z, y) {
      assert Gap(a, y) <= Gap(a, z);
    }
    PrevIs(members, y, a);
    var p := Prev(members, a);
    forall z | z in members ensures Gap(p, a) <= Gap(p, z) {
      assert Gap(p, a) <= Gap(z, a);
    }
    NextIs(members, p, a);
  }

  /** A position in the half-open arc (c, Next(c)] belongs to Next(c). */
  lemma OwnerInArc(members: set<Id>, c: Id, id: Id)
    requires c in members
    requires Gap(c, id) <= Gap(c, Next(members, c))
    ensures Owner(members, id) == Next(members, c)
  {
    var y := Next(members, c);
    forall z | z in members ensures Dist(id, y) <= Dist(id, z) {
      assert Gap(c, y) <= Gap(c, z);
    }
    OwnerIs(members, id, y);
  }

  /** The owner of a position is the member following the position's strict predecessor. */
  lemma OwnerAfterPrev(members: set<Id>, id: Id)
    requires members != {}
    ensures Owner(members, id) == Next(members, Prev(members, id))
    ensures Gap(Prev(members, id), id) <= Gap(Prev(members, id), Owner(members, id))
  {
    var p := Prev(members, id);
    var y := Next(members, p);
    assert Gap(p, id) <= Gap(y, id);
    OwnerInArc(members, p, id);
  }

  // ---------------------------------------------------------------- walking the ring

  ghost function NextN(members: set<Id>, a: Id, k: nat): (y: Id)
    requires members != {}
    ensures k > 0 ==> y in members
  {
    if k == 0 then a else Next(members, NextN(members, a, k - 1))
  }

  ghost function PrevN(members: set<Id>, b: Id, k: nat): (y: Id)
    requires members != {}
    ensures k > 0 ==> y in members
  {
    if k == 0 then b else Prev(members, PrevN(members, b, k - 1))
  }

  lemma {:induction false} NextNShift(members: set<Id>, a: Id, k: nat)
    requires members != {}
    ensures NextN(members, Next(members, a), k) == NextN(members, a, k + 1)
  {
    if k > 0 { NextNShift(members, a, k - 1); }
  }

  lemma {:induction false} PrevNShift(members: set<Id>, b: Id, k: nat)
    requires members != {}
    ensures PrevN(members, Prev(members, b), k) == PrevN(members, b, k + 1)
  {
    if k > 0 { PrevNShift(members, b, k - 1); }
  }

  lemma {:induction false} PrevNOfNextN(members: set<Id>, a: Id, k: nat)
    requires a in members
    ensures PrevN(members, NextN(members, a, k), k) == a
    ensures NextN(members, PrevN(members, a, k), k) == a
  {
    if k > 0 {
      PrevNOfNextN(members, a, k - 1);
      var y := NextN(members, a, k - 1);
      PrevOfNext(members, y);
      PrevNShift(members, NextN(members, a, k), k - 1);
      var z := PrevN(members, a, k - 1);
      PrevOfNext(members, z);
      NextNShift(members, PrevN(members, a, k), k - 1);
    }
  }

  /** Walking the full ring clockwise from a, the first survivor met is a's next survivor. */
  lemma {:induction false} WalkSkips(members: set<Id>, survivors: set<Id>, a: Id, k: nat)
    requires a in survivors && survivors <= members
    requires forall j :: 1 <= j <= k ==> NextN(members, a, j) !in survivors
    ensures forall z :: z in survivors ==> Gap(a, NextN(members, a, k + 1)) <= Gap(a, z)
    ensures k > 0 ==> forall z :: z in survivors ==> Gap(a, NextN(members, a, k)) < Gap(a, z)
    ensures k > 0 ==> Gap(a, NextN(members, a, k)) < Gap(a, NextN(members, a, k + 1))
  {
    var y' := NextN(members, a, k + 1);
    if k > 0 {
      var y := NextN(members, a, k);
      WalkSkips(members, survivors, a, k - 1);
      assert y != a;
      assert Gap(y, y') <= Gap(y, a);
      forall z | z in survivors
        ensures Gap(a, y) < Gap(a, z) && Gap(a, y') <= Gap(a, z)
      {
        assert z != y;
        assert Gap(a, y) <= Gap(a, z);
        assert Gap(y, y') <= Gap(y, z);
      }
    }
  }

  lemma FirstSurvivor(members: set<Id>, survivors: set<Id>, a: Id, k: nat)
    requires a in survivors && survivors <= members
    requires k >= 1 && NextN(members, a, k) in survivors
    requires forall j :: 1 <= j < k ==> NextN(members, a, j) !in survivors
    ensures Next(survivors, a) == NextN(members, a, k)
  {
    WalkSkips(members, survivors, a, k - 1);
    NextIs(survivors, a, NextN(members, a, k));
  }

  // ---------------------------------------------------------------- one member more or less

  /** Adding x changes the successor of exactly those positions whose arc x falls into. */
  lemma NextInsert(members: set<Id>, x: Id, a: Id)
    requires members != {}
    ensures Next(members + {x}, a) == if Gap(a, x) < Gap(a, Next(members, a)) then x else Next(members, a)
  {
  }

  lemma PrevInsert(members: set<Id>, x: Id, b: Id)
    requires members != {}
    ensures Prev(members + {x}, b) == if Gap(x, b) < Gap(Prev(members, b), b) then x else Prev(members, b)
  {
  }

  /** A new member takes over exactly the positions between its predecessor and itself. */
  lemma OwnerInsert(members: set<Id>, x: Id, id: Id)
    requires members != {} && x !in members
    ensures Owner(members + {x}, id) ==
            if BetweenRightInclusive(id, Prev(members, x), x) then x else Owner(members, id)
  {
    var p := Prev(members, x);
    var o := Owner(members, id);
    if BetweenRightInclusive(id, p, x) {
      forall z | z in members ensures Dist(id, x) <= Dist(id, z) {
        assert Gap(p, x) <= Gap(z, x);
      }
      OwnerIs(members + {x}, id, x);
    } else {
      assert Dist(id, p) < Dist(id, x);
      OwnerIs(members + {x}, id, o);
    }
  }

  lemma NextRemove(members: set<Id>, x: Id, a: Id)
    requires a in members && x in members && a != x
    ensures a in members - {x}
    ensures Next(members - {x}, a) == if Next(members, a) == x then Next(members, x) else Next(members, a)
  {
    var y := if Next(members, a) == x then Next(members, x) else Next(members, a);
    if Next(members, a) == x {
      assert Gap(x, y) <= Gap(x, a);
      forall z | z in members - {x} ensures Gap(a, y) <= Gap(a, z) {
        assert Gap(a, x) <= Gap(a, z);
        assert Gap(x, y) <= Gap(x, z);
      }
    }
    NextIs(members - {x}, a, y);
  }

  lemma PrevRemove(members: set<Id>, x: Id, b: Id)
    requires b in members && x in members && b != x
    ensures b in members - {x}
    ensures Prev(members - {x}, b) == if Prev(members, b) == x then Prev(members, x) else Prev(members, b)
  {
    var y := if Prev(members, b) == x then Prev(members, x) else Prev(members, b);
    if Prev(members, b) == x {
      assert Gap(y, x) <= Gap(b, x);
      forall z | z in members - {x} ensures Gap(y, b) <= Gap(z, b) {
        assert Gap(x, b) <= Gap(z, b);
        assert Gap(y, x) <= Gap(z, x);
      }
    }
    PrevIs(members - {x}, b, y);
  }

  /** When a member goes, its successor inherits exactly its positions. */
  lemma OwnerRemove(members: set<Id>, x: Id, id: Id)
    requires x in members && members != {x}
    ensures members - {x} != {}
    ensures Owner(members - {x}, id) == if Owner(members, id) == x then Next(members, x) else Owner(members, id)
  {
    var rest := members - {x};
    assert members == rest + {x};
    OwnerInsert(rest, x, id);
    if Owner(members, id) == x {
      var p := Prev(rest, x);
      OwnerAfterPrev(rest, x);
      var y := Owner(rest, x);
      NextInsert(rest, x, x);
      assert Gap(p, id) <= Gap(p, x) <= Gap(p, y);
      OwnerInArc(rest, p, id);
    }
  }
}
