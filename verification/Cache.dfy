/**
  A block store behind a byte-bounded, least-recently-used cache. The cache keeps
  an item map, a recency list (most recent first) and a running byte count.
*/
module Cache {
  import opened Options

  type Key = nat
  type Data = seq<bv8>
  type Items = map<Key, Data>

  const DEFAULT_MAX_BYTES: nat := 0x400_0000

  // ---------------------------------------------------------------- recency lists

  predicate NoRepeats(order: seq<Key>) {
    forall i, j :: 0 <= i < j < |order| ==> order[i] != order[j]
  }

  function Elems(order: seq<Key>): set<Key> {
    set k | k in order
  }

  function SizeAt(items: Items, k: Key): nat {
    if k in items then |items[k]| else 0
  }

  /** The bytes of the listed items. */
  function Total(items: Items, order: seq<Key>): nat {
    if order == [] then 0 else Total(items, order[..|order| - 1]) + SizeAt(items, order[|order| - 1])
  }

  function Without(order: seq<Key>, k: Key): seq<Key> {
    if order == [] then []
    else
      var rest := Without(order[..|order| - 1], k);
      if order[|order| - 1] == k then rest else rest + [order[|order| - 1]]
  }

  function ToFront(order: seq<Key>, k: Key): seq<Key> {
    [k] + Without(order, k)
  }

  function Restrict(items: Items, order: seq<Key>): Items {
    map k | k in items && k in order :: items[k]
  }

  lemma InFront(order: seq<Key>)
    requires order != []
    ensures forall k :: k in order <==> k in order[..|order| - 1] || k == order[|order| - 1]
    ensures NoRepeats(order) ==> order[|order| - 1] !in order[..|order| - 1] && NoRepeats(order[..|order| - 1])
  {
  }

  lemma {:induction false} WithoutIs(order: seq<Key>, k: Key)
    ensures forall x :: x in Without(order, k) <==> x in order && x != k
    ensures NoRepeats(order) ==> NoRepeats(Without(order, k))
    ensures k !in order ==> Without(order, k) == order
  {
    if order != [] {
      InFront(order);
      var front := order[..|order| - 1];
      WithoutIs(front, k);
      assert order == front + [order[|order| - 1]];
      assert forall i :: 0 <= i < |Without(front, k)| ==> Without(front, k)[i] in Without(front, k);
    }
  }

  /** The other items keep their order. */
  lemma {:induction false} WithoutSplits(a: seq<Key>, b: seq<Key>, k: Key)
    ensures Without(a + b, k) == Without(a, k) + Without(b, k)
  {
    if b == [] {
      assert a + b == a;
    } else {
      assert (a + b)[..|a + b| - 1] == a + b[..|b| - 1];
      WithoutSplits(a, b[..|b| - 1], k);
    }
  }

  lemma {:induction false} TotalSame(a: Items, b: Items, order: seq<Key>)
    requires forall k :: k in order ==> SizeAt(a, k) == SizeAt(b, k)
    ensures Total(a, order) == Total(b, order)
  {
    if order != [] {
      InFront(order);
      TotalSame(a, b, order[..|order| - 1]);
    }
  }

  lemma {:induction false} TotalWithout(items: Items, order: seq<Key>, k: Key)
    requires NoRepeats(order)
    ensures Total(items, Without(order, k)) == Total(items, order) - if k in order then SizeAt(items, k) else 0
  {
    if order != [] {
      InFront(order);
      var front, last := order[..|order| - 1], order[|order| - 1];
      TotalWithout(items, front, k);
      var rest := Without(front, k);
      assert (rest + [last])[..|rest|] == rest;
    }
  }

  lemma {:induction false} TotalCons(items: Items, k: Key, order: seq<Key>)
    ensures Total(items, [k] + order) == SizeAt(items, k) + Total(items, order)
  {
    var all := [k] + order;
    if order == [] {
      assert all[..0] == [];
    } else {
      assert all[..|all| - 1] == [k] + order[..|order| - 1];
      TotalCons(items, k, order[..|order| - 1]);
    }
  }

  lemma ToFrontIs(items: Items, order: seq<Key>, k: Key)
    requires NoRepeats(order)
    ensures NoRepeats(ToFront(order, k))
    ensures forall x :: x in ToFront(order, k) <==> x in order || x == k
    ensures Total(items, ToFront(order, k)) == Total(items, order) + if k in order then 0 else SizeAt(items, k)
  {
    var rest := Without(order, k);
    WithoutIs(order, k);
    TotalWithout(items, order, k);
    TotalCons(items, k, rest);
    NewInFront(rest, k);
  }

  lemma NewInFront(order: seq<Key>, k: Key)
    requires NoRepeats(order) && k !in order
    ensures NoRepeats([k] + order) && forall x :: x in [k] + order <==> x == k || x in order
  {
  }

  /** How many most recent items fit: the longest prefix within max bytes. */
  function Fitting(items: Items, order: seq<Key>, max: nat): (n: nat)
    ensures n <= |order|
  {
    if Total(items, order) <= max then |order| else Fitting(items, order[..|order| - 1], max)
  }

  lemma {:induction false} TotalPrefix(items: Items, order: seq<Key>, i: nat)
    requires i <= |order|
    ensures Total(items, order[..i]) <= Total(items, order)
    decreases |order|
  {
    if i < |order| {
      TotalPrefix(items, order[..|order| - 1], i);
      assert order[..|order| - 1][..i] == order[..i];
    } else {
      assert order[..i] == order;
    }
  }

  /** The suffix that is evicted is the shortest one that makes the rest fit. */
  lemma {:induction false} FittingIs(items: Items, order: seq<Key>, max: nat)
    ensures forall i :: 0 <= i <= |order| ==> (Total(items, order[..i]) <= max <==> i <= Fitting(items, order, max))
    decreases |order|
  {
    if Total(items, order) <= max {
      forall i | 0 <= i <= |order| ensures Total(items, order[..i]) <= max { TotalPrefix(items, order, i); }
    } else {
      var front := order[..|order| - 1];
      FittingIs(items, front, max);
      forall i | 0 <= i <= |order| ensures Total(items, order[..i]) <= max <==> i <= Fitting(items, order, max) {
        if i < |order| { assert front[..i] == order[..i]; } else { assert order[..i] == order; }
      }
    }
  }

  // ---------------------------------------------------------------- the cached store

  /** The items after caching k: it becomes the most recent, and the oldest go until the rest fits. */
  function CachedOrder(items: Items, order: seq<Key>, max: nat, k: Key, data: Data): seq<Key> {
    var touched := ToFront(order, k);
    if |data| > max then order else touched[..Fitting(items[k := data], touched, max)]
  }

  function CachedItems(items: Items, order: seq<Key>, max: nat, k: Key, data: Data): Items {
    if |data| > max then items else Restrict(items[k := data], CachedOrder(items, order, max, k, data))
  }

  /** The new entry is never evicted. */
  lemma NewEntryStays(items: Items, order: seq<Key>, max: nat, k: Key, data: Data)
    requires |data| <= max
    ensures CachedOrder(items, order, max, k, data) != [] && CachedOrder(items, order, max, k, data)[0] == k
    ensures k in CachedItems(items, order, max, k, data) && CachedItems(items, order, max, k, data)[k] == data
  {
    var touched, put := ToFront(order, k), items[k := data];
    FittingIs(put, touched, max);
    assert touched[..1] == [k];
    assert Total(put, [k]) == |data| by { assert [k][..0] == []; }
    assert k in CachedOrder(items, order, max, k, data);
  }

  /** What is kept is the longest run of most recent items that fits, the new one first. */
  lemma KeepsMostRecent(items: Items, order: seq<Key>, max: nat, k: Key, data: Data, i: nat)
    requires |data| <= max && i <= |Without(order, k)| + 1
    ensures var kept, touched := CachedOrder(items, order, max, k, data), [k] + Without(order, k);
            kept <= touched && (Total(items[k := data], touched[..i]) <= max <==> i <= |kept|)
    ensures forall x :: x in CachedItems(items, order, max, k, data) ==>
              x in CachedOrder(items, order, max, k, data)
              && CachedItems(items, order, max, k, data)[x] == if x == k then data else items[x]
  {
    FittingIs(items[k := data], ToFront(order, k), max);
  }

  /** Items and recency list are in bijection, and `bytes` is their total. */
  predicate Consistent(items: Items, order: seq<Key>, bytes: int) {
    NoRepeats(order) && items.Keys == Elems(order) && bytes == Total(items, order)
  }

  lemma TailRemoved(items: Items, order: seq<Key>, bytes: int)
    requires Consistent(items, order, bytes) && order != []
    ensures order[|order| - 1] in items
    ensures var k := order[|order| - 1]; Consistent(items - {k}, order[..|order| - 1], bytes - |items[k]|)
  {
    InFront(order);
    var k, front := order[|order| - 1], order[..|order| - 1];
    assert k in Elems(order);
    assert (items - {k}).Keys == Elems(front);
    TotalSame(items, items - {k}, front);
  }

  /** Eviction has come down to the first n items of the list it started with. */
  predicate Evicting(items0: Items, order0: seq<Key>, items: Items, order: seq<Key>, max: nat) {
    && |order| <= |order0| && order == order0[..|order|] && items == Restrict(items0, order)
    && Fitting(items0, order0, max) <= |order|
  }

  lemma EvictStep(items0: Items, order0: seq<Key>, items: Items, order: seq<Key>, bytes: int, max: nat)
    requires NoRepeats(order0) && Evicting(items0, order0, items, order, max) && Consistent(items, order, bytes)
    ensures bytes > max && order != [] ==>
              Evicting(items0, order0, items - {order[|order| - 1]}, order[..|order| - 1], max)
    ensures bytes <= max ==> |order| == Fitting(items0, order0, max)
    ensures order == [] ==> bytes == 0
  {
    FittingIs(items0, order0, max);
    TotalSame(items0, items, order);
    if order != [] {
      InFront(order);
      var front := order[..|order| - 1];
      assert front == order0[..|front|];
      assert items - {order[|order| - 1]} == Restrict(items0, front);
    }
  }

  lemma EvictStart(items: Items, order: seq<Key>, bytes: int, max: nat)
    requires Consistent(items, order, bytes)
    ensures Evicting(items, order, items, order, max)
  {
  }

  lemma OneRemoved(items: Items, order: seq<Key>, bytes: int, k: Key)
    requires Consistent(items, order, bytes) && k in items
    ensures Consistent(items - {k}, Without(order, k), bytes - |items[k]|)
  {
    WithoutIs(order, k);
    assert k in Elems(order);
    TotalWithout(items, order, k);
    TotalSame(items, items - {k}, Without(order, k));
    forall x ensures x in (items - {k}).Keys <==> x in Elems(Without(order, k)) {
      assert x in items <==> x in Elems(order);
    }
  }

  lemma NoneRemoved(items: Items, order: seq<Key>, bytes: int, k: Key)
    requires Consistent(items, order, bytes) && k !in items
    ensures items - {k} == items && Without(order, k) == order
  {
    assert k !in Elems(order);
    WithoutIs(order, k);
  }

  /** Caching k before eviction. */
  lemma Fronted(items: Items, order: seq<Key>, bytes: int, k: Key, data: Data)
    requires Consistent(items, order, bytes)
    ensures Consistent(items[k := data], ToFront(order, k), bytes + |data| - SizeAt(items, k))
  {
    var rest := Without(order, k);
    ToFrontIs(items[k := data], order, k);
    WithoutIs(order, k);
    TotalWithout(items, order, k);
    TotalCons(items[k := data], k, rest);
    TotalSame(items, items[k := data], rest);
    assert k in items <==> k in Elems(order);
    assert items[k := data].Keys == Elems(ToFront(order, k));
  }

  function Lookup(inner: Items, k: Key): Option<Data> {
    if k in inner then Some(inner[k]) else None
  }

  /** The inner store keeps the block it has. */
  function InnerPut(inner: Items, k: Key, data: Data): Items {
    if k in inner then inner else inner[k := data]
  }

  /** `ok` is whether the inner store accepts the write or the deletion. */
  datatype Op = PutOp(key: Key, data: Data, ok: bool) | GetOp(key: Key) | DeleteOp(key: Key, ok: bool) | HasOp(key: Key)
  datatype Answer = Done | Failed | Value(data: Option<Data>) | Present(has: bool)

  /** What the inner store alone would answer, and become. */
  function PlainAnswer(inner: Items, op: Op): Answer {
    match op
    case PutOp(_, _, ok) => if ok then Done else Failed
    case GetOp(k) => Value(Lookup(inner, k))
    case DeleteOp(_, ok) => if ok then Done else Failed
    case HasOp(k) => Present(k in inner)
  }

  function PlainNext(inner: Items, op: Op): Items {
    match op
    case PutOp(k, data, ok) => if ok then InnerPut(inner, k, data) else inner
    case DeleteOp(k, ok) => if ok then inner - {k} else inner
    case _ => inner
  }

  function PlainAnswers(inner: Items, ops: seq<Op>): seq<Answer>
    decreases |ops|
  {
    if ops == [] then [] else [PlainAnswer(inner, ops[0])] + PlainAnswers(PlainNext(inner, ops[0]), ops[1..])
  }

  predicate Agree(items: Items, inner: Items) {
    forall k :: k in items ==> k in inner && inner[k] == items[k]
  }

  class CachedBlockStore {
    var inner: Items
    var items: Items
    var order: seq<Key>
    var curBytes: int
    const maxBytes: nat

    ghost predicate Valid()
      reads this
    {
      Consistent(items, order, curBytes) && curBytes <= maxBytes
    }

    constructor (store: Items, max: int)
      ensures Valid() && inner == store && items == map[]
      ensures maxBytes == if max <= 0 then DEFAULT_MAX_BYTES else max
    {
      inner, items, order, curBytes := store, map[], [], 0;
      maxBytes := if max <= 0 then DEFAULT_MAX_BYTES else max;
    }

    /** Drops the least recent item. */
    method RemoveTail()
      requires Consistent(items, order, curBytes) && order != []
      modifies `items, `order, `curBytes
      ensures Consistent(items, order, curBytes)
      ensures order == old(order)[..|old(order)| - 1] && items == old(items) - {old(order)[|old(order)| - 1]}
    {
      TailRemoved(items, order, curBytes);
      var k := order[|order| - 1];
      order := order[..|order| - 1];
      curBytes := curBytes - |items[k]|;
      items := items - {k};
    }

    /** Drops least recent items until the rest fits. */
    method EvictLocked()
      requires Consistent(items, order, curBytes)
      modifies `items, `order, `curBytes
      ensures Valid()
      ensures order == old(order)[..Fitting(old(items), old(order), maxBytes)]
      ensures items == Restrict(old(items), order)
    {
      ghost var items0, order0 := items, order;
      EvictStart(items, order, curBytes, maxBytes);
      while curBytes > maxBytes && order != []
        invariant Evicting(items0, order0, items, order, maxBytes) && Consistent(items, order, curBytes)
        decreases |order|
      {
        EvictStep(items0, order0, items, order, curBytes, maxBytes);
        RemoveTail();
      }
      EvictStep(items0, order0, items, order, curBytes, maxBytes);
    }

    /** Caches a block that fits as the most recent item. */
    method CachePut(k: Key, data: Data)
      requires Valid()
      modifies `items, `order, `curBytes
      ensures Valid()
      ensures order == CachedOrder(old(items), old(order), maxBytes, k, data)
      ensures items == CachedItems(old(items), old(order), maxBytes, k, data)
      ensures |data| > maxBytes ==> order == old(order) && items == old(items)
    {
      if |data| > maxBytes { return; }
      Fronted(items, order, curBytes, k, data);
      if k in items {
        curBytes := curBytes + |data| - |items[k]|;
      } else {
        curBytes := curBytes + |data|;
      }
      items := items[k := data];
      order := ToFront(order, k);
      EvictLocked();
    }

    /** Takes one item out of the cache. */
    method Evict(k: Key)
      requires Valid()
      modifies `items, `order, `curBytes
      ensures Valid() && items == old(items) - {k} && order == Without(old(order), k)
    {
      if k in items {
        OneRemoved(items, order, curBytes, k);
        curBytes := curBytes - |items[k]|;
        items := items - {k};
        order := Without(order, k);
      } else {
        NoneRemoved(items, order, curBytes, k);
      }
    }

    /** Reads through the cache; a hit becomes the most recent item. */
    method Get(k: Key) returns (r: Option<Data>)
      requires Valid() && Agree(items, inner)
      modifies `items, `order, `curBytes
      ensures Valid() && Agree(items, inner)
      ensures r == Lookup(inner, k)
      ensures k in old(items) ==> items == old(items) && order == ToFront(old(order), k)
      ensures k !in old(items) && r.Some? ==> order == CachedOrder(old(items), old(order), maxBytes, k, r.value)
      ensures r.None? ==> items == old(items) && order == old(order)
    {
      if k in items {
        Fronted(items, order, curBytes, k, items[k]);
        assert items[k := items[k]] == items;
        order := ToFront(order, k);
        return Some(items[k]);
      }
      if k !in inner { return None; }
      var data := inner[k];
      CachePut(k, data);
      return Some(data);
    }

    /**
      Writes through. Cache and inner store still agree exactly when the block is too big
      to cache, new to the inner store, or the one it has already.
    */
    method Put(k: Key, data: Data, accepted: bool) returns (ok: bool)
      requires Valid() && Agree(items, inner)
      modifies `inner, `items, `order, `curBytes
      ensures Valid() && ok == accepted
      ensures inner == if ok then InnerPut(old(inner), k, data) else old(inner)
      ensures order == if ok then CachedOrder(old(items), old(order), maxBytes, k, data) else old(order)
      ensures items == if ok then CachedItems(old(items), old(order), maxBytes, k, data) else old(items)
      ensures Agree(items, inner) <==> (ok ==> |data| > maxBytes || k !in old(inner) || old(inner)[k] == data)
    {
      if !accepted { return false; }
      inner := InnerPut(inner, k, data);
      CachePut(k, data);
      if |data| <= maxBytes { NewEntryStays(old(items), old(order), maxBytes, k, data); }
      return true;
    }

    /** Evicts first: the block leaves the cache even when the inner store fails to delete it. */
    method Delete(k: Key, deleted: bool) returns (ok: bool)
      requires Valid() && Agree(items, inner)
      modifies `inner, `items, `order, `curBytes
      ensures Valid() && Agree(items, inner) && ok == deleted
      ensures inner == if ok then old(inner) - {k} else old(inner)
      ensures items == old(items) - {k} && order == Without(old(order), k)
    {
      Evict(k);
      if !deleted { return false; }
      inner := inner - {k};
      return true;
    }

    method Has(k: Key) returns (has: bool)
      requires Agree(items, inner)
      ensures has <==> k in inner
    {
      if k in items { return true; }
      return k in inner;
    }

    /** Over every content-addressed run the cached store answers what the inner store alone would. */
    method Run(ops: seq<Op>, ghost content: Key -> Data) returns (answers: seq<Answer>)
      requires Valid() && Agree(items, inner)
      requires forall k :: k in inner ==> inner[k] == content(k)
      requires forall i :: 0 <= i < |ops| && ops[i].PutOp? ==> ops[i].data == content(ops[i].key)
      modifies this
      ensures Valid() && Agree(items, inner)
      ensures answers == PlainAnswers(old(inner), ops)
      decreases |ops|
    {
      if ops == [] { return []; }
      var answer;
      match ops[0] {
        case PutOp(k, data, accepted) =>
          var ok := Put(k, data, accepted);
          answer := if ok then Done else Failed;
        case GetOp(k) =>
          var data := Get(k);
          answer := Value(data);
        case DeleteOp(k, deleted) =>
          var ok := Delete(k, deleted);
          answer := if ok then Done else Failed;
        case HasOp(k) =>
          var has := Has(k);
          answer := Present(has);
      }
      var rest := Run(ops[1..], content);
      answers := [answer] + rest;
    }
  }
}
