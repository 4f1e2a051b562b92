/**
  What a multi-ring network block store holds, apart from its counters: blocks,
  per-ring reverse index, root records, known rings and limits. Every operation
  is a function on these contents; byte totals are sums over them.
*/
module StoreContents {
  import opened Options

  type Hash = string
  type Ring = string
  type Root = string
  type RootKey = (Ring, Root)

  /** Block `hash` is indexed in `ring` under `root`. */
  datatype Entry = Entry(ring: Ring, hash: Hash, root: Root)

  /** `blocks` gives the byte length of each stored block, `roots` the expiry of each record (0: never). */
  datatype Contents = Contents(maxBytes: int, quota: map<Ring, int>, blocks: map<Hash, nat>,
                               index: set<Entry>, roots: map<RootKey, int>, known: set<Ring>)

  datatype Outcome = Done | StorageFull | WriteFailed

  // ---------------------------------------------------------------- sums

  function At<K>(m: map<K, int>, k: K): int {
    if k in m then m[k] else 0
  }

  /** Counters never fall below zero. */
  function Clamped(x: int): int {
    if x < 0 then 0 else x
  }

  function SizeAt(blocks: map<Hash, nat>, h: Hash): nat {
    if h in blocks then blocks[h] else 0
  }

  /** Total size of the blocks in s that are stored. */
  ghost function Bytes(blocks: map<Hash, nat>, s: set<Hash>): nat
    decreases |s|
  {
    if s == {} then 0
    else
      var h :| h in s;
      SizeAt(blocks, h) + Bytes(blocks, s - {h})
  }

  lemma {:induction false} BytesRemove(blocks: map<Hash, nat>, s: set<Hash>, h: Hash)
    requires h in s
    ensures Bytes(blocks, s) == SizeAt(blocks, h) + Bytes(blocks, s - {h})
    decreases |s|
  {
    var x :| x in s && Bytes(blocks, s) == SizeAt(blocks, x) + Bytes(blocks, s - {x});
    if x != h {
      BytesRemove(blocks, s - {x}, h);
      BytesRemove(blocks, s - {h}, x);
      assert s - {x} - {h} == s - {h} - {x};
    }
  }

  lemma BytesAdd(blocks: map<Hash, nat>, s: set<Hash>, h: Hash)
    ensures Bytes(blocks, s + {h}) == Bytes(blocks, s) + if h in s then 0 else SizeAt(blocks, h)
  {
    if h in s {
      assert s + {h} == s;
    } else {
      BytesRemove(blocks, s + {h}, h);
      assert s + {h} - {h} == s;
    }
  }

  /** Only the sizes of members matter. */
  lemma {:induction false} BytesSame(a: map<Hash, nat>, b: map<Hash, nat>, s: set<Hash>)
    requires forall h :: h in s ==> SizeAt(a, h) == SizeAt(b, h)
    ensures Bytes(a, s) == Bytes(b, s)
    decreases |s|
  {
    if s != {} {
      var h :| h in s;
      BytesRemove(a, s, h);
      BytesRemove(b, s, h);
      BytesSame(a, b, s - {h});
    }
  }

  lemma {:induction false} BytesMono(a: map<Hash, nat>, s: set<Hash>, b: map<Hash, nat>, t: set<Hash>)
    requires s <= t
    requires forall h :: h in s ==> SizeAt(a, h) <= SizeAt(b, h)
    ensures Bytes(a, s) <= Bytes(b, t)
    decreases |t|
  {
    if t != {} {
      var h :| h in t;
      BytesRemove(b, t, h);
      if h in s { BytesRemove(a, s, h); } else { assert s - {h} == s; }
      BytesMono(a, s - {h}, b, t - {h});
    } else {
      assert s == {};
    }
  }

  // ---------------------------------------------------------------- index

  function RingHashes(index: set<Entry>, ring: Ring): set<Hash> {
    set e | e in index && e.ring == ring :: e.hash
  }

  function RootHashes(index: set<Entry>, ring: Ring, root: Root): set<Hash> {
    set e | e in index && e.ring == ring && e.root == root :: e.hash
  }

  /** The entries of one block in one ring. */
  function BlockEntries(index: set<Entry>, ring: Ring, hash: Hash): set<Entry> {
    set e | e in index && e.ring == ring && e.hash == hash
  }

  /** The entries of one root in one ring. */
  function RootEntries(index: set<Entry>, ring: Ring, root: Root): set<Entry> {
    set e | e in index && e.ring == ring && e.root == root
  }

  lemma HasEntries(index: set<Entry>, ring: Ring, hash: Hash)
    ensures hash in RingHashes(index, ring) <==> BlockEntries(index, ring, hash) != {}
  {
    if hash in RingHashes(index, ring) {
      var e :| e in index && e.ring == ring && e.hash == hash;
      assert e in BlockEntries(index, ring, hash);
    }
    if BlockEntries(index, ring, hash) != {} {
      var e :| e in BlockEntries(index, ring, hash);
      assert e.hash in RingHashes(index, ring);
    }
  }

  lemma HashesAdd(index: set<Entry>, e: Entry, ring: Ring, root: Root)
    ensures RingHashes(index + {e}, ring) == RingHashes(index, ring) + if ring == e.ring then {e.hash} else {}
    ensures RootHashes(index + {e}, ring, root)
         == RootHashes(index, ring, root) + if ring == e.ring && root == e.root then {e.hash} else {}
  {
  }

  lemma RootHashesRemove(index: set<Entry>, e: Entry, ring: Ring, root: Root)
    ensures RootHashes(index - {e}, ring, root)
         == RootHashes(index, ring, root) - if ring == e.ring && root == e.root then {e.hash} else {}
  {
  }

  lemma RingHashesRemove(index: set<Entry>, e: Entry, ring: Ring)
    ensures RingHashes(index - {e}, ring)
         == RingHashes(index, ring)
            - if ring == e.ring && BlockEntries(index - {e}, ring, e.hash) == {} then {e.hash} else {}
  {
  }

  /** All entries of one block leave one ring. */
  lemma BlockLeavesRing(index: set<Entry>, ring: Ring, hash: Hash, other: Ring)
    ensures RingHashes(index - BlockEntries(index, ring, hash), other)
         == RingHashes(index, other) - if other == ring then {hash} else {}
  {
  }

  // ---------------------------------------------------------------- writing

  function Quota(c: Contents, ring: Ring): int {
    At(c.quota, ring)
  }

  ghost function Stored(c: Contents): nat {
    Bytes(c.blocks, c.blocks.Keys)
  }

  ghost function RingBytes(c: Contents, ring: Ring): nat {
    Bytes(c.blocks, RingHashes(c.index, ring))
  }

  predicate Fits(limit: int, used: int, size: int) {
    limit <= 0 || used + size <= limit
  }

  /** `written` says whether the block layer accepts the write. */
  ghost function PutOutcome(c: Contents, h: Hash, size: nat, written: bool): Outcome {
    if h in c.blocks then Done
    else if !Fits(c.maxBytes, Stored(c), size) then StorageFull
    else if !written then WriteFailed
    else Done
  }

  function WithBlock(c: Contents, h: Hash, size: nat): Contents {
    if h in c.blocks then c else c.(blocks := c.blocks[h := size])
  }

  ghost function AfterPut(c: Contents, h: Hash, size: nat, written: bool): Contents {
    if PutOutcome(c, h, size, written).Done? then WithBlock(c, h, size) else c
  }

  function Expired(expires: int, now: int): bool {
    expires > 0 && now > expires
  }

  predicate HasRoot(roots: map<RootKey, int>, ring: Ring, root: Root, now: int) {
    (ring, root) in roots && !Expired(roots[(ring, root)], now)
  }

  function WithEntry(c: Contents, e: Entry): Contents {
    c.(index := c.index + {e}, known := c.known + {e.ring})
  }

  function AfterIndex(c: Contents, e: Entry): Contents {
    if e in c.index then c else WithEntry(c, e)
  }

  function WithRoot(c: Contents, ring: Ring, root: Root, expires: int): Contents {
    c.(roots := c.roots[(ring, root) := expires], known := c.known + {ring})
  }

  ghost function RootedOutcome(c: Contents, ring: Ring, h: Hash, size: nat, root: Option<Root>, written: bool): Outcome {
    if h !in c.blocks && !Fits(c.maxBytes, Stored(c), size) then StorageFull
    else if root.Some? && h !in RingHashes(c.index, ring) && !Fits(Quota(c, ring), RingBytes(c, ring), size)
    then StorageFull
    else if h !in c.blocks && !written then WriteFailed
    else Done
  }

  /** Puts a block under a root; an unexpired record of the root is left as it is. */
  ghost function AfterPutWithRoot(c: Contents, ring: Ring, h: Hash, size: nat, root: Option<Root>,
                                  expires: int, now: int, written: bool): Contents
  {
    if !RootedOutcome(c, ring, h, size, root, written).Done? then c
    else if root.None? then WithBlock(c, h, size)
    else
      var stored := WithEntry(WithBlock(c, h, size), Entry(ring, h, root.value));
      if HasRoot(c.roots, ring, root.value, now) then stored else WithRoot(stored, ring, root.value, expires)
  }

  /** Deletes a block, if the block layer does. */
  function AfterDelete(c: Contents, h: Hash, deleted: bool): Contents {
    if deleted then c.(blocks := c.blocks - {h}) else c
  }

  function AfterDrop(c: Contents, ring: Ring, h: Hash): Contents {
    c.(index := c.index - BlockEntries(c.index, ring, h))
  }

  function AfterRemoveRoot(c: Contents, ring: Ring, root: Root): Contents {
    c.(roots := c.roots - {(ring, root)}, index := c.index - RootEntries(c.index, ring, root))
  }

  ghost predicate QuotaAllowed(c: Contents, ring: Ring, max: int) {
    max == 0 || RingBytes(c, ring) <= max
  }

  ghost function AfterSetQuota(c: Contents, ring: Ring, max: int): Contents {
    if max >= 0 && QuotaAllowed(c, ring, max)
    then c.(quota := c.quota[ring := max], known := c.known + {ring})
    else c
  }

  // ---------------------------------------------------------------- collection

  /** The keys of ring's expired records. */
  function Stale(roots: map<RootKey, int>, rings: set<Ring>, now: int): set<RootKey> {
    set k | k in roots && k.0 in rings && Expired(roots[k], now)
  }

  /** The entries filed under the given ring and root pairs. */
  function Under(index: set<Entry>, keys: set<RootKey>): set<Entry> {
    set e | e in index && (e.ring, e.root) in keys
  }

  function WithoutRoots(c: Contents, keys: set<RootKey>): Contents {
    c.(roots := c.roots - keys, index := c.index - Under(c.index, keys))
  }

  function AfterPrune(c: Contents, rings: set<Ring>, now: int): Contents {
    WithoutRoots(c, Stale(c.roots, rings, now))
  }

  /** Root names with an unexpired record in some known ring. */
  function Live(c: Contents, now: int): set<Root> {
    set k | k in c.roots && k.0 in c.known && !Expired(c.roots[k], now) :: k.1
  }

  predicate Rooted(index: set<Entry>, rings: set<Ring>, live: set<Root>, h: Hash) {
    exists e :: e in index && e.hash == h && e.ring in rings && e.root in live
  }

  function Kept(c: Contents, live: set<Root>): set<Hash> {
    set h | h in c.blocks && Rooted(c.index, c.known, live, h)
  }

  /** The contents without the given blocks and without their entries in known rings. */
  function Without(c: Contents, gone: set<Hash>): Contents {
    c.(blocks := c.blocks - gone, index := set e | e in c.index && !(e.hash in gone && e.ring in c.known))
  }

  /** The contents without one block's entries in known rings; the block itself stays. */
  function Stripped(c: Contents, h: Hash): Contents {
    c.(index := set e | e in c.index && !(e.hash == h && e.ring in c.known))
  }

  /** The blocks a collection deletes. */
  function Garbage(c: Contents, now: int): set<Hash> {
    var p := AfterPrune(c, c.known, now);
    p.blocks.Keys - Kept(p, Live(p, now))
  }

  function Collected(c: Contents, now: int): Contents {
    Without(AfterPrune(c, c.known, now), Garbage(c, now))
  }

  /** Unlike HasRoot, a record with a negative expiry is not live here. */
  predicate LiveRecord(roots: map<RootKey, int>, ring: Ring, root: Root, now: int) {
    (ring, root) in roots && (roots[(ring, root)] == 0 || now <= roots[(ring, root)])
  }

  /** The two liveness tests disagree on exactly the records with a negative expiry that has passed. */
  lemma LiveRecordIffHasRoot(roots: map<RootKey, int>, ring: Ring, root: Root, now: int)
    ensures LiveRecord(roots, ring, root, now) <==>
              HasRoot(roots, ring, root, now) && (roots[(ring, root)] >= 0 || now <= roots[(ring, root)])
  {
  }

  /** A record with expiry -1, at time 0: kept by one test, dead to the other. */
  lemma NegativeExpiryDisagrees() returns (roots: map<RootKey, int>, now: int)
    ensures roots == map[("ring", "root") := -1] && now == 0
    ensures HasRoot(roots, "ring", "root", now) && !LiveRecord(roots, "ring", "root", now)
  {
    roots, now := map[("ring", "root") := -1], 0;
  }

  /** An entry whose root record, in the same ring, is live. */
  predicate HasLiveRoot(c: Contents, ring: Ring, h: Hash, now: int) {
    exists e :: e in c.index && e.hash == h && e.ring == ring && LiveRecord(c.roots, ring, e.root, now)
  }

  predicate HasLiveRootAnyRing(c: Contents, h: Hash, now: int) {
    exists ring :: ring in c.known && HasLiveRoot(c, ring, h, now)
  }

  /**
    An entry that saves its block: its own ring does not hold an expired record of
    the root, and some known ring holds an unexpired one.
  */
  predicate Saves(c: Contents, e: Entry, now: int) {
    && e.ring in c.known
    && ((e.ring, e.root) in c.roots ==> !Expired(c.roots[(e.ring, e.root)], now))
    && e.root in Live(c, now)
  }

  /** GC removes a stored block exactly when none of its index entries saves it. */
  lemma CollectionIsExact(c: Contents, now: int, h: Hash)
    requires h in c.blocks
    ensures h in Collected(c, now).blocks <==> exists e :: e in c.index && e.hash == h && Saves(c, e, now)
    ensures h in Collected(c, now).blocks ==> Collected(c, now).blocks[h] == c.blocks[h]
  {
  }

  /** Pruning takes the expired records of the given rings and the entries those records held. */
  lemma PruneTakes(c: Contents, rings: set<Ring>, now: int, k: RootKey, e: Entry)
    ensures var n := AfterPrune(c, rings, now);
            && (k in n.roots <==> k in c.roots && !(k.0 in rings && 0 < c.roots[k] < now))
            && (k in n.roots ==> n.roots[k] == c.roots[k])
            && (e in n.index <==>
                  e in c.index && !(e.ring in rings && (e.ring, e.root) in c.roots && (e.ring, e.root) !in n.roots))
            && n.blocks == c.blocks && n.quota == c.quota && n.known == c.known
  {
  }

  /** Of the records a collection takes those of known rings that have expired; of the entries those
      such a record held and those, in known rings, of the blocks it deletes. */
  lemma CollectionTakes(c: Contents, now: int, k: RootKey, e: Entry)
    ensures var n := Collected(c, now);
            && (k in n.roots <==> k in c.roots && !(k.0 in c.known && 0 < c.roots[k] < now))
            && (k in n.roots ==> n.roots[k] == c.roots[k])
            && (e in n.index <==>
                  && e in c.index
                  && !(e.ring in c.known && (e.ring, e.root) in c.roots && 0 < c.roots[(e.ring, e.root)] < now)
                  && !(e.ring in c.known && e.hash in c.blocks && e.hash !in n.blocks))
            && n.maxBytes == c.maxBytes && n.quota == c.quota && n.known == c.known
  {
  }

  /** A block with a live root in a known ring survives. */
  lemma CollectionSparesLive(c: Contents, now: int, h: Hash)
    requires h in c.blocks && HasLiveRootAnyRing(c, h, now)
    ensures h in Collected(c, now).blocks
  {
  }

  /**
    An entry to a root that is live in some known ring does not save its block when
    the entry's own ring holds an expired record of that root.
  */
  lemma LiveElsewhereIsNotEnough() returns (c: Contents, now: int, e: Entry)
    ensures e in c.index && e.hash in c.blocks && e.ring in c.known && e.root in Live(c, now)
    ensures e.hash !in Collected(c, now).blocks
  {
    var a, b, h, r := "a", "b", "h", "r";
    e, now := Entry(a, h, r), 6;
    c := Contents(0, map[], map[h := 1], {e}, map[(a, r) := 5, (b, r) := 0], {a, b});
    assert (b, r) in c.roots && (b, r).1 == r;
    CollectionIsExact(c, now, h);
    assert forall d :: d in c.index ==> !Saves(c, d, now);
  }

  /** A second collection at the same clock value changes nothing. */
  lemma CollectionIsIdempotent(c: Contents, now: int)
    ensures Collected(Collected(c, now), now) == Collected(c, now)
  {
  }

  /** Blocks can be swept one at a time. */
  lemma SweepMore(c: Contents, gone: set<Hash>, h: Hash)
    ensures Without(Without(c, gone), {h}) == Without(c, gone + {h})
  {
  }

  /** Sweeping other blocks does not touch a block's entries. */
  lemma SweepKeepsRooted(c: Contents, gone: set<Hash>, live: set<Root>, h: Hash)
    requires h !in gone
    ensures Rooted(Without(c, gone).index, c.known, live, h) <==> Rooted(c.index, c.known, live, h)
  {
  }

  /** Block h is stored with the given size, and an entry and a record that lasts keep it. */
  predicate Anchored(c: Contents, ring: Ring, h: Hash, size: nat, root: Root, expires: int) {
    && h in c.blocks && c.blocks[h] == size
    && Entry(ring, h, root) in c.index && ring in c.known
    && (ring, root) in c.roots && c.roots[(ring, root)] == expires
  }

  lemma CollectionKeepsAnchor(c: Contents, ring: Ring, h: Hash, size: nat, root: Root, expires: int, now: int)
    requires Anchored(c, ring, h, size, root, expires) && !Expired(expires, now)
    ensures Anchored(Collected(c, now), ring, h, size, root, expires)
  {
    var e := Entry(ring, h, root);
    assert (ring, root) in c.roots && (ring, root).1 == root;
    assert Saves(c, e, now);
    CollectionIsExact(c, now, h);
  }

  function Collections(c: Contents, times: seq<int>): Contents
    decreases |times|
  {
    if times == [] then c else Collections(Collected(c, times[0]), times[1..])
  }

  lemma {:induction false} CollectionsKeepAnchor(c: Contents, ring: Ring, h: Hash, size: nat, root: Root, expires: int,
                                                 times: seq<int>)
    requires Anchored(c, ring, h, size, root, expires)
    requires forall i :: 0 <= i < |times| ==> !Expired(expires, times[i])
    ensures Anchored(Collections(c, times), ring, h, size, root, expires)
    decreases |times|
  {
    if times != [] {
      CollectionKeepsAnchor(c, ring, h, size, root, expires, times[0]);
      CollectionsKeepAnchor(Collected(c, times[0]), ring, h, size, root, expires, times[1..]);
    }
  }

  /** A block put under a root survives every collection while the root's record in that ring lasts. */
  lemma PutSurvives(c: Contents, ring: Ring, h: Hash, size: nat, root: Root, expires: int, now: int, written: bool,
                    times: seq<int>)
    requires RootedOutcome(c, ring, h, size, Some(root), written).Done?
    requires var lasts := if HasRoot(c.roots, ring, root, now) then c.roots[(ring, root)] else expires;
             forall i :: 0 <= i < |times| ==> !Expired(lasts, times[i])
    ensures var d := AfterPutWithRoot(c, ring, h, size, Some(root), expires, now, written);
            && h in Collections(d, times).blocks
            && Collections(d, times).blocks[h] == if h in c.blocks then c.blocks[h] else size
  {
    var d := AfterPutWithRoot(c, ring, h, size, Some(root), expires, now, written);
    var lasts := if HasRoot(c.roots, ring, root, now) then c.roots[(ring, root)] else expires;
    CollectionsKeepAnchor(d, ring, h, if h in c.blocks then c.blocks[h] else size, root, lasts, times);
  }

  /** Removing the only root a block is filed under gives the block up at the next collection. */
  lemma RemovedRootFrees(c: Contents, ring: Ring, h: Hash, root: Root, now: int)
    requires forall e :: e in c.index && e.hash == h ==> e.ring == ring && e.root == root
    ensures h !in Collected(AfterRemoveRoot(c, ring, root), now).blocks
  {
    var d := AfterRemoveRoot(c, ring, root);
    if h in d.blocks {
      assert forall e :: e in d.index ==> e.hash != h;
      CollectionIsExact(d, now, h);
    }
  }

  // ---------------------------------------------------------------- runs

  datatype Op =
    | Put(hash: Hash, size: nat, written: bool)
    | PutWithRoot(ring: Ring, hash: Hash, size: nat, rootId: Option<Root>, expires: int, now: int, written: bool)
    | Delete(hash: Hash, deleted: bool)
    | DropBlock(ring: Ring, hash: Hash)
    | AddBlockRootIndex(ring: Ring, hash: Hash, root: Root)
    | AddRoot(ring: Ring, root: Root, expires: int)
    | RemoveRoot(ring: Ring, root: Root)
    | Prune(now: int)
    | PruneRing(ring: Ring, now: int)
    | Collect(now: int)
    | SetQuota(ring: Ring, max: int)

  ghost function Apply(c: Contents, op: Op): Contents {
    match op
    case Put(h, size, written) => AfterPut(c, h, size, written)
    case PutWithRoot(ring, h, size, root, expires, now, written) =>
      AfterPutWithRoot(c, ring, h, size, root, expires, now, written)
    case Delete(h, deleted) => AfterDelete(c, h, deleted)
    case DropBlock(ring, h) => AfterDrop(c, ring, h)
    case AddBlockRootIndex(ring, h, root) => AfterIndex(c, Entry(ring, h, root))
    case AddRoot(ring, root, expires) => WithRoot(c, ring, root, expires)
    case RemoveRoot(ring, root) => AfterRemoveRoot(c, ring, root)
    case Prune(now) => AfterPrune(c, c.known, now)
    case PruneRing(ring, now) => AfterPrune(c, {ring}, now)
    case Collect(now) => Collected(c, now)
    case SetQuota(ring, max) => AfterSetQuota(c, ring, max)
  }

  ghost function Run(c: Contents, ops: seq<Op>): Contents
    decreases |ops|
  {
    if ops == [] then c else Run(Apply(c, ops[0]), ops[1..])
  }

  /** Every indexed block is stored and every ring with an entry is known. */
  predicate IndexSound(c: Contents) {
    forall e :: e in c.index ==> e.hash in c.blocks && e.ring in c.known
  }

  /** Blocks are non-empty and their size is fixed by their hash. */
  predicate Addressed(c: Contents, sizes: Hash -> nat) {
    forall h :: h in c.blocks ==> 0 < c.blocks[h] == sizes(h)
  }

  /** The operations a content-addressed caller may issue in contents c. */
  predicate Admissible(c: Contents, op: Op, sizes: Hash -> nat) {
    match op
    case Put(h, size, _) => 0 < size == sizes(h)
    case PutWithRoot(_, h, size, _, _, _, _) => 0 < size == sizes(h)
    case Delete(h, deleted) => deleted ==> forall e :: e in c.index ==> e.hash != h
    case AddBlockRootIndex(_, h, _) => h in c.blocks
    case _ => true
  }

  ghost predicate AllAdmissible(c: Contents, ops: seq<Op>, sizes: Hash -> nat)
    decreases |ops|
  {
    ops != [] ==> Admissible(c, ops[0], sizes) && AllAdmissible(Apply(c, ops[0]), ops[1..], sizes)
  }

  predicate Indexes(op: Op) {
    op.PutWithRoot? || op.AddBlockRootIndex?
  }

  /** Operations that do not index blocks only ever remove entries, and never a block that stays indexed. */
  lemma OthersShrink(c: Contents, op: Op, sizes: Hash -> nat)
    requires IndexSound(c) && Admissible(c, op, sizes) && !Indexes(op)
    ensures Apply(c, op).index <= c.index && c.known <= Apply(c, op).known
    ensures forall e :: e in Apply(c, op).index ==> e.hash in Apply(c, op).blocks
    ensures forall h :: h in Apply(c, op).blocks && h in c.blocks ==> Apply(c, op).blocks[h] == c.blocks[h]
    ensures forall h :: h in Apply(c, op).blocks && h !in c.blocks ==> op == Put(h, Apply(c, op).blocks[h], true)
  {
  }

  lemma RootedKeepsSound(c: Contents, ring: Ring, h: Hash, size: nat, root: Option<Root>,
                         expires: int, now: int, written: bool)
    requires IndexSound(c)
    ensures IndexSound(AfterPutWithRoot(c, ring, h, size, root, expires, now, written))
    ensures AfterPutWithRoot(c, ring, h, size, root, expires, now, written).blocks
            in {c.blocks, WithBlock(c, h, size).blocks}
  {
  }

  lemma ApplyKeepsSound(c: Contents, op: Op, sizes: Hash -> nat)
    requires IndexSound(c) && Addressed(c, sizes) && Admissible(c, op, sizes)
    ensures IndexSound(Apply(c, op)) && Addressed(Apply(c, op), sizes)
  {
    match op
    case PutWithRoot(ring, h, size, root, expires, now, written) =>
      RootedKeepsSound(c, ring, h, size, root, expires, now, written);
    case AddBlockRootIndex(_, _, _) =>
    case _ =>
      OthersShrink(c, op, sizes);
  }

  ghost predicate WithinMax(c: Contents) {
    c.maxBytes > 0 ==> Stored(c) <= c.maxBytes
  }

  ghost predicate RingWithinQuota(c: Contents, ring: Ring) {
    Quota(c, ring) > 0 ==> RingBytes(c, ring) <= Quota(c, ring)
  }

  ghost predicate WithinQuota(c: Contents) {
    forall ring :: RingWithinQuota(c, ring)
  }

  lemma StoredWith(c: Contents, h: Hash, size: nat)
    requires h !in c.blocks
    ensures Stored(WithBlock(c, h, size)) == Stored(c) + size
  {
    var b := c.blocks[h := size];
    assert b.Keys == c.blocks.Keys + {h};
    BytesAdd(b, c.blocks.Keys, h);
    BytesSame(b, c.blocks, c.blocks.Keys);
  }

  /** No operation takes the stored bytes past the maximum. */
  lemma ApplyKeepsMax(c: Contents, op: Op)
    requires WithinMax(c)
    ensures WithinMax(Apply(c, op)) && Apply(c, op).maxBytes == c.maxBytes
  {
    var d := Apply(c, op);
    if d.blocks.Keys <= c.blocks.Keys {
      BytesMono(d.blocks, d.blocks.Keys, c.blocks, c.blocks.Keys);
    } else {
      assert (op.Put? || op.PutWithRoot?) && op.hash !in c.blocks;
      StoredWith(c, op.hash, op.size);
      assert d.blocks == WithBlock(c, op.hash, op.size).blocks;
    }
  }

  lemma RingShrinks(c: Contents, d: Contents, ring: Ring)
    requires RingHashes(d.index, ring) <= RingHashes(c.index, ring)
    requires forall h :: h in RingHashes(d.index, ring) ==> SizeAt(d.blocks, h) <= SizeAt(c.blocks, h)
    ensures RingBytes(d, ring) <= RingBytes(c, ring)
  {
    BytesMono(d.blocks, RingHashes(d.index, ring), c.blocks, RingHashes(c.index, ring));
  }

  /** Indexing a stored block adds its size to its ring unless the ring had it. */
  lemma RingGrows(c: Contents, h: Hash, size: nat, root: Root, ring: Ring, other: Ring)
    requires IndexSound(c)
    requires h in c.blocks ==> c.blocks[h] == size
    ensures RingBytes(WithEntry(WithBlock(c, h, size), Entry(ring, h, root)), other)
         == RingBytes(c, other) + if other == ring && h !in RingHashes(c.index, ring) then size else 0
  {
    var d := WithEntry(WithBlock(c, h, size), Entry(ring, h, root));
    HashesAdd(c.index, Entry(ring, h, root), other, root);
    var was := RingHashes(c.index, other);
    BytesSame(c.blocks, d.blocks, was);
    if other == ring { BytesAdd(d.blocks, was, h); } else { assert was + {} == was; }
  }

  lemma RootedKeepsQuota(c: Contents, r: Ring, h: Hash, size: nat, root: Option<Root>,
                         expires: int, now: int, written: bool, ring: Ring)
    requires IndexSound(c) && RingWithinQuota(c, ring)
    requires h in c.blocks ==> c.blocks[h] == size
    ensures RingWithinQuota(AfterPutWithRoot(c, r, h, size, root, expires, now, written), ring)
  {
    if root.Some? && RootedOutcome(c, r, h, size, root, written).Done? {
      RingGrows(c, h, size, root.value, r, ring);
    } else {
      RingShrinks(c, WithBlock(c, h, size), ring);
    }
  }

  lemma IndexKeepsQuota(c: Contents, e: Entry, ring: Ring)
    requires IndexSound(c) && RingWithinQuota(c, ring) && e.hash in c.blocks
    ensures RingWithinQuota(AfterIndex(c, e), ring)
       <==> (e.ring == ring && e.hash !in RingHashes(c.index, ring)
             ==> Fits(Quota(c, ring), RingBytes(c, ring), c.blocks[e.hash]))
  {
    if e in c.index {
      assert e.hash in RingHashes(c.index, e.ring);
    } else {
      RingGrows(c, e.hash, c.blocks[e.hash], e.root, e.ring, ring);
    }
  }

  lemma OthersKeepQuota(c: Contents, op: Op, sizes: Hash -> nat, ring: Ring)
    requires IndexSound(c) && Admissible(c, op, sizes) && RingWithinQuota(c, ring) && !Indexes(op)
    ensures RingWithinQuota(Apply(c, op), ring)
  {
    OthersShrink(c, op, sizes);
    RingShrinks(c, Apply(c, op), ring);
  }

  /**
    Every ring stays within its quota, except through AddBlockRootIndex, which checks
    none: there exactly when the ring had the block or the block fits.
  */
  lemma ApplyKeepsQuota(c: Contents, op: Op, sizes: Hash -> nat, ring: Ring)
    requires IndexSound(c) && Addressed(c, sizes) && Admissible(c, op, sizes) && RingWithinQuota(c, ring)
    ensures RingWithinQuota(Apply(c, op), ring)
       <==> (op.AddBlockRootIndex? && op.ring == ring && op.hash !in RingHashes(c.index, ring)
             ==> Fits(Quota(c, ring), RingBytes(c, ring), sizes(op.hash)))
  {
    match op
    case PutWithRoot(r, h, size, root, expires, now, written) =>
      RootedKeepsQuota(c, r, h, size, root, expires, now, written, ring);
    case AddBlockRootIndex(r, h, root) =>
      IndexKeepsQuota(c, Entry(r, h, root), ring);
    case _ =>
      OthersKeepQuota(c, op, sizes, ring);
  }

  /** Over every admissible run: indexed blocks are stored and the maximum is never passed. */
  lemma {:induction false} RunIsSafe(c: Contents, ops: seq<Op>, sizes: Hash -> nat)
    requires IndexSound(c) && Addressed(c, sizes) && WithinMax(c) && AllAdmissible(c, ops, sizes)
    ensures IndexSound(Run(c, ops)) && Addressed(Run(c, ops), sizes) && WithinMax(Run(c, ops))
    decreases |ops|
  {
    if ops != [] {
      ApplyKeepsSound(c, ops[0], sizes);
      ApplyKeepsMax(c, ops[0]);
      RunIsSafe(Apply(c, ops[0]), ops[1..], sizes);
    }
  }

  predicate NoBareIndex(ops: seq<Op>) {
    forall i :: 0 <= i < |ops| ==> !ops[i].AddBlockRootIndex?
  }

  /** Over every admissible run that indexes blocks only through PutWithRoot, quotas hold. */
  lemma {:induction false} RunKeepsQuota(c: Contents, ops: seq<Op>, sizes: Hash -> nat)
    requires IndexSound(c) && Addressed(c, sizes) && WithinQuota(c) && AllAdmissible(c, ops, sizes) && NoBareIndex(ops)
    ensures WithinQuota(Run(c, ops))
    decreases |ops|
  {
    if ops != [] {
      var d := Apply(c, ops[0]);
      ApplyKeepsSound(c, ops[0], sizes);
      forall ring ensures RingWithinQuota(d, ring) { ApplyKeepsQuota(c, ops[0], sizes, ring); }
      RunKeepsQuota(d, ops[1..], sizes);
    }
  }
}
