/**
  The network block store with its running counters: aggregate bytes and block
  count, bytes and blocks per ring, bytes per ring and root. The class invariant
  says that every counter is the matching sum over the contents.
*/
module BlockStore {
  import opened Options
  import opened StoreContents

  /** The running totals of a collection. */
  datatype Tally = Tally(removed: nat, kept: nat, bytesFreed: nat)

  datatype GCResult = Swept(removed: nat, kept: nat) | DeleteFailed(hash: Hash)

  /** m' is m with the counter at k moved by delta, never below zero. */
  ghost predicate Moved<K(!new)>(m: map<K, int>, m': map<K, int>, k: K, delta: int) {
    forall x :: At(m', x) == if x == k && delta != 0 then Clamped(At(m, x) + delta) else At(m, x)
  }

  // ---------------------------------------------------------------- exact counters

  ghost predicate UsageExact(blocks: map<Hash, nat>, index: set<Entry>, usage: map<RootKey, int>, ring: Ring, root: Root) {
    At(usage, (ring, root)) == Bytes(blocks, RootHashes(index, ring, root))
  }

  ghost predicate RingExact(blocks: map<Hash, nat>, index: set<Entry>, used: map<Ring, int>, count: map<Ring, int>,
                            ring: Ring)
  {
    At(used, ring) == Bytes(blocks, RingHashes(index, ring)) && At(count, ring) == |RingHashes(index, ring)|
  }

  ghost predicate UsagesExact(blocks: map<Hash, nat>, index: set<Entry>, usage: map<RootKey, int>) {
    forall ring, root :: UsageExact(blocks, index, usage, ring, root)
  }

  ghost predicate RingsExact(blocks: map<Hash, nat>, index: set<Entry>, used: map<Ring, int>, count: map<Ring, int>) {
    forall ring :: RingExact(blocks, index, used, count, ring)
  }

  predicate IndexStored(blocks: map<Hash, nat>, index: set<Entry>, known: set<Ring>) {
    forall e :: e in index ==> e.hash in blocks && e.ring in known
  }

  lemma EntryAdded(blocks: map<Hash, nat>, index: set<Entry>, usage: map<RootKey, int>, usage': map<RootKey, int>, e: Entry)
    requires UsagesExact(blocks, index, usage) && e !in index
    requires Moved(usage, usage', (e.ring, e.root), SizeAt(blocks, e.hash))
    ensures UsagesExact(blocks, index + {e}, usage')
  {
    forall ring, root ensures UsageExact(blocks, index + {e}, usage', ring, root) {
      assert UsageExact(blocks, index, usage, ring, root);
      HashesAdd(index, e, ring, root);
      var was := RootHashes(index, ring, root);
      if ring == e.ring && root == e.root {
        assert forall d :: d in index && d.ring == ring && d.root == root ==> d.hash != e.hash;
        BytesAdd(blocks, was, e.hash);
      } else {
        assert was + {} == was;
      }
    }
  }

  lemma EntryRemoved(blocks: map<Hash, nat>, index: set<Entry>, usage: map<RootKey, int>, usage': map<RootKey, int>,
                     e: Entry)
    requires UsagesExact(blocks, index, usage) && e in index
    requires Moved(usage, usage', (e.ring, e.root), 0 - SizeAt(blocks, e.hash))
    ensures UsagesExact(blocks, index - {e}, usage')
  {
    forall ring, root ensures UsageExact(blocks, index - {e}, usage', ring, root) {
      assert UsageExact(blocks, index, usage, ring, root);
      RootHashesRemove(index, e, ring, root);
      var was := RootHashes(index, ring, root);
      if ring == e.ring && root == e.root {
        assert e.hash in was;
        BytesRemove(blocks, was, e.hash);
      } else {
        assert was - {} == was;
      }
    }
  }

  /** All entries of one root leave one ring, together with the root's counter. */
  lemma RootRemoved(blocks: map<Hash, nat>, index: set<Entry>, usage: map<RootKey, int>, ring: Ring, root: Root)
    requires UsagesExact(blocks, index, usage)
    ensures UsagesExact(blocks, index - RootEntries(index, ring, root), usage - {(ring, root)})
  {
    var rest := index - RootEntries(index, ring, root);
    var usage' := usage - {(ring, root)};
    forall r, c ensures UsageExact(blocks, rest, usage', r, c) {
      assert UsageExact(blocks, index, usage, r, c);
      if r == ring && c == root {
        assert RootHashes(rest, r, c) == {};
      } else {
        forall h | h in RootHashes(index, r, c) ensures h in RootHashes(rest, r, c) {
          var d :| d in index && d.ring == r && d.root == c && d.hash == h;
          assert d in rest;
        }
        assert RootHashes(rest, r, c) == RootHashes(index, r, c);
      }
    }
  }

  /** The counters of one ring follow one block into or out of it. */
  ghost predicate RingMoved(used: map<Ring, int>, used': map<Ring, int>, count: map<Ring, int>, count': map<Ring, int>,
                            ring: Ring, size: int, blocks: int)
  {
    Moved(used, used', ring, size) && Moved(count, count', ring, blocks)
  }

  /** A ring that gains a block, while the others keep theirs. */
  lemma RingGains(blocks: map<Hash, nat>, index: set<Entry>, grown: set<Entry>, used: map<Ring, int>, used': map<Ring, int>,
                  count: map<Ring, int>, count': map<Ring, int>, ring: Ring, h: Hash)
    requires RingsExact(blocks, index, used, count) && h in RingHashes(grown, ring)
    requires RingMoved(used, used', count, count', ring, SizeAt(blocks, h), 1)
    requires forall r :: RingHashes(index, r) == RingHashes(grown, r) - if r == ring then {h} else {}
    ensures RingsExact(blocks, grown, used', count')
  {
    forall r ensures RingExact(blocks, grown, used', count', r) {
      assert RingExact(blocks, index, used, count, r);
      var now := RingHashes(grown, r);
      if r == ring {
        BytesRemove(blocks, now, h);
        assert RingHashes(index, r) == now - {h};
      } else {
        assert RingHashes(index, r) == now;
      }
    }
  }

  lemma RingJoined(blocks: map<Hash, nat>, index: set<Entry>, used: map<Ring, int>, used': map<Ring, int>,
                   count: map<Ring, int>, count': map<Ring, int>, e: Entry)
    requires RingsExact(blocks, index, used, count) && e.hash !in RingHashes(index, e.ring)
    requires RingMoved(used, used', count, count', e.ring, SizeAt(blocks, e.hash), 1)
    ensures RingsExact(blocks, index + {e}, used', count')
  {
    forall r ensures RingHashes(index, r) == RingHashes(index + {e}, r) - if r == e.ring then {e.hash} else {} {
      HashesAdd(index, e, r, e.root);
    }
    HashesAdd(index, e, e.ring, e.root);
    RingGains(blocks, index, index + {e}, used, used', count, count', e.ring, e.hash);
  }

  lemma RingAgain(blocks: map<Hash, nat>, index: set<Entry>, used: map<Ring, int>, count: map<Ring, int>, e: Entry)
    requires RingsExact(blocks, index, used, count)
    requires e.hash in RingHashes(index, e.ring)
    ensures RingsExact(blocks, index + {e}, used, count)
  {
    forall ring ensures RingExact(blocks, index + {e}, used, count, ring) {
      assert RingExact(blocks, index, used, count, ring);
      HashesAdd(index, e, ring, e.root);
      assert RingHashes(index + {e}, ring) == RingHashes(index, ring);
    }
  }

  /** A ring that loses one of its blocks, while the others keep theirs. */
  lemma RingLoses(blocks: map<Hash, nat>, index: set<Entry>, rest: set<Entry>, used: map<Ring, int>, used': map<Ring, int>,
                  count: map<Ring, int>, count': map<Ring, int>, ring: Ring, h: Hash)
    requires RingsExact(blocks, index, used, count) && h in RingHashes(index, ring)
    requires RingMoved(used, used', count, count', ring, 0 - SizeAt(blocks, h), -1)
    requires forall r :: RingHashes(rest, r) == RingHashes(index, r) - if r == ring then {h} else {}
    ensures RingsExact(blocks, rest, used', count')
  {
    forall r ensures RingExact(blocks, rest, used', count', r) {
      assert RingExact(blocks, index, used, count, r);
      var was := RingHashes(index, r);
      if r == ring {
        BytesRemove(blocks, was, h);
        assert RingHashes(rest, r) == was - {h};
      } else {
        assert RingHashes(rest, r) == was;
      }
    }
  }

  /** A block leaves one ring with all its entries there. */
  lemma RingLeft(blocks: map<Hash, nat>, index: set<Entry>, used: map<Ring, int>, used': map<Ring, int>,
                 count: map<Ring, int>, count': map<Ring, int>, ring: Ring, h: Hash)
    requires RingsExact(blocks, index, used, count) && BlockEntries(index, ring, h) != {}
    requires RingMoved(used, used', count, count', ring, 0 - SizeAt(blocks, h), -1)
    ensures RingsExact(blocks, index - BlockEntries(index, ring, h), used', count')
  {
    HasEntries(index, ring, h);
    var rest := index - BlockEntries(index, ring, h);
    forall r ensures RingHashes(rest, r) == RingHashes(index, r) - if r == ring then {h} else {} {
      BlockLeavesRing(index, ring, h, r);
    }
    RingLoses(blocks, index, rest, used, used', count, count', ring, h);
  }

  /** The last entry of a block in a ring leaves. */
  lemma LastEntryRemoved(blocks: map<Hash, nat>, index: set<Entry>, used: map<Ring, int>, used': map<Ring, int>,
                         count: map<Ring, int>, count': map<Ring, int>, e: Entry)
    requires RingsExact(blocks, index, used, count) && e in index
    requires BlockEntries(index - {e}, e.ring, e.hash) == {}
    requires RingMoved(used, used', count, count', e.ring, 0 - SizeAt(blocks, e.hash), -1)
    ensures RingsExact(blocks, index - {e}, used', count')
  {
    assert e.hash in RingHashes(index, e.ring);
    forall r ensures RingHashes(index - {e}, r) == RingHashes(index, r) - if r == e.ring then {e.hash} else {} {
      RingHashesRemove(index, e, r);
    }
    RingLoses(blocks, index, index - {e}, used, used', count, count', e.ring, e.hash);
  }

  /** An entry leaves while the ring has another one of the same block. */
  lemma OtherEntryStays(blocks: map<Hash, nat>, index: set<Entry>, used: map<Ring, int>, count: map<Ring, int>, e: Entry)
    requires RingsExact(blocks, index, used, count)
    requires BlockEntries(index - {e}, e.ring, e.hash) != {}
    ensures RingsExact(blocks, index - {e}, used, count)
  {
    forall ring ensures RingExact(blocks, index - {e}, used, count, ring) {
      assert RingExact(blocks, index, used, count, ring);
      RingHashesRemove(index, e, ring);
      assert RingHashes(index - {e}, ring) == RingHashes(index, ring);
    }
  }

  /** Sums over indexed blocks do not see a block that is not indexed. */
  lemma UnindexedIsInvisible(a: map<Hash, nat>, b: map<Hash, nat>, index: set<Entry>, usage: map<RootKey, int>,
                             used: map<Ring, int>, count: map<Ring, int>)
    requires forall e :: e in index ==> SizeAt(a, e.hash) == SizeAt(b, e.hash)
    requires UsagesExact(a, index, usage) && RingsExact(a, index, used, count)
    ensures UsagesExact(b, index, usage) && RingsExact(b, index, used, count)
  {
    forall ring, root ensures UsageExact(b, index, usage, ring, root) {
      assert UsageExact(a, index, usage, ring, root);
      BytesSame(a, b, RootHashes(index, ring, root));
    }
    forall ring ensures RingExact(b, index, used, count, ring) {
      assert RingExact(a, index, used, count, ring);
      BytesSame(a, b, RingHashes(index, ring));
    }
  }

  lemma WrongSize(blocks: map<Hash, nat>, index: set<Entry>, usage: map<RootKey, int>, usage': map<RootKey, int>, e: Entry,
                  size: nat)
    requires UsagesExact(blocks, index, usage) && e !in index && SizeAt(blocks, e.hash) != size
    requires Moved(usage, usage', (e.ring, e.root), size)
    ensures !UsageExact(blocks, index + {e}, usage', e.ring, e.root)
  {
    assert UsageExact(blocks, index, usage, e.ring, e.root);
    HashesAdd(index, e, e.ring, e.root);
    var was := RootHashes(index, e.ring, e.root);
    assert forall d :: d in index && d.ring == e.ring && d.root == e.root ==> d.hash != e.hash;
    BytesAdd(blocks, was, e.hash);
  }

  /** What filing a block under a root, as one of `size` bytes, does to the exactness of the counters. */
  lemma FiledExactly(blocks: map<Hash, nat>, index: set<Entry>, e: Entry, size: nat,
                     used: map<Ring, int>, used': map<Ring, int>, count: map<Ring, int>, count': map<Ring, int>,
                     usage: map<RootKey, int>, usage': map<RootKey, int>)
    requires UsagesExact(blocks, index, usage) && RingsExact(blocks, index, used, count)
    requires if e.hash in RingHashes(index, e.ring) then used' == used && count' == count
             else RingMoved(used, used', count, count', e.ring, size, 1)
    requires if e in index then usage' == usage else Moved(usage, usage', (e.ring, e.root), size)
    ensures (UsagesExact(blocks, index + {e}, usage') && RingsExact(blocks, index + {e}, used', count'))
       <==> (e in index || SizeAt(blocks, e.hash) == size)
  {
    if e in index {
      assert index + {e} == index;
      assert e.hash in RingHashes(index, e.ring);
    } else if SizeAt(blocks, e.hash) == size {
      EntryAdded(blocks, index, usage, usage', e);
      if e.hash in RingHashes(index, e.ring) {
        RingAgain(blocks, index, used, count, e);
      } else {
        RingJoined(blocks, index, used, used', count, count', e);
      }
    } else {
      WrongSize(blocks, index, usage, usage', e, size);
    }
  }

  // ---------------------------------------------------------------- the store

  class NetworkBlockStore {
    var blocks: map<Hash, nat>
    var usedBytes: int
    var blockCount: int
    const maxBytes: int

    var index: set<Entry>
    var cidUsage: map<RootKey, int>
    var ringUsed: map<Ring, int>
    var ringCount: map<Ring, int>
    var quota: map<Ring, int>

    var roots: map<RootKey, int>
    var known: set<Ring>

    ghost predicate IndexExact()
      reads `blocks, `index, `known, `cidUsage, `ringUsed, `ringCount
    {
      && IndexStored(blocks, index, known)
      && UsagesExact(blocks, index, cidUsage)
      && RingsExact(blocks, index, ringUsed, ringCount)
    }

    ghost function StoredBytes(): nat
      reads `blocks
    {
      Bytes(blocks, blocks.Keys)
    }

    ghost predicate AggregateExact()
      reads `blocks, `usedBytes, `blockCount
    {
      usedBytes == StoredBytes() && blockCount == |blocks|
    }

    /** Every counter equals the sum it stands for and every indexed block is stored. */
    ghost predicate Valid()
      reads this
    {
      AggregateExact() && IndexExact()
    }

    function Holds(): Contents
      reads `quota, `blocks, `index, `roots, `known
    {
      Contents(maxBytes, quota, blocks, index, roots, known)
    }

    constructor (storageMax: int)
      ensures Valid() && Holds() == Contents(storageMax, map[], map[], {}, map[], {})
    {
      maxBytes := storageMax;
      blocks, usedBytes, blockCount := map[], 0, 0;
      index, cidUsage, ringUsed, ringCount, quota := {}, map[], map[], map[], map[];
      roots, known := map[], {};
    }

    // -------------------------------------------------------------- aggregate

    method ReserveAggBytes(size: nat) returns (ok: bool)
      modifies `usedBytes
      ensures ok <==> Fits(maxBytes, old(usedBytes), size)
      ensures usedBytes == if ok then old(usedBytes) + size else old(usedBytes)
    {
      ok := maxBytes <= 0 || usedBytes + size <= maxBytes;
      if ok { usedBytes := usedBytes + size; }
    }

    method AddAggDelta(bytesDelta: int, blockDelta: int)
      modifies `usedBytes, `blockCount
      ensures usedBytes == if bytesDelta == 0 then old(usedBytes) else Clamped(old(usedBytes) + bytesDelta)
      ensures blockCount == if blockDelta == 0 then old(blockCount) else Clamped(old(blockCount) + blockDelta)
    {
      if bytesDelta != 0 { usedBytes := Clamped(usedBytes + bytesDelta); }
      if blockDelta != 0 { blockCount := Clamped(blockCount + blockDelta); }
    }

    lemma BlockArrives(h: Hash, size: nat)
      requires Valid() && h !in blocks
      ensures Bytes(blocks[h := size], blocks[h := size].Keys) == usedBytes + size
      ensures |blocks[h := size]| == blockCount + 1
      ensures UsagesExact(blocks[h := size], index, cidUsage)
      ensures RingsExact(blocks[h := size], index, ringUsed, ringCount)
    {
      var b := blocks[h := size];
      assert b.Keys == blocks.Keys + {h};
      BytesAdd(b, blocks.Keys, h);
      BytesSame(b, blocks, blocks.Keys);
      UnindexedIsInvisible(blocks, b, index, cidUsage, ringUsed, ringCount);
    }

    /** Stores a block unless it is present, reserving its bytes first and giving them back on failure. */
    method Put(h: Hash, size: nat, written: bool) returns (r: Outcome)
      requires Valid()
      modifies this
      ensures Valid()
      ensures r == PutOutcome(old(Holds()), h, size, written)
      ensures Holds() == AfterPut(old(Holds()), h, size, written)
      ensures r == if h in old(blocks) then Done
                   else if 0 < maxBytes < old(usedBytes) + size then StorageFull
                   else if written then Done else WriteFailed
      ensures blocks == if h !in old(blocks) && r.Done? then old(blocks)[h := size] else old(blocks)
      ensures index == old(index) && roots == old(roots) && known == old(known) && quota == old(quota)
    {
      if h in blocks { return Done; }
      BlockArrives(h, size);
      var ok := ReserveAggBytes(size);
      if !ok { return StorageFull; }
      if !written {
        AddAggDelta(0 - size, 0);
        return WriteFailed;
      }
      blocks := blocks[h := size];
      blockCount := blockCount + 1;
      return Done;
    }

    // -------------------------------------------------------------- per-ring helpers

    /** Whether any entry files the block in the ring. */
    method RingHasBlock(ring: Ring, h: Hash) returns (has: bool)
      ensures has <==> h in RingHashes(index, ring)
      ensures has <==> BlockEntries(index, ring, h) != {}
    {
      HasEntries(index, ring, h);
      has := BlockEntries(index, ring, h) != {};
    }

    method ReserveRingBytes(ring: Ring, size: nat) returns (ok: bool)
      requires At(ringUsed, ring) >= 0
      modifies `ringUsed
      ensures ok <==> Fits(At(quota, ring), old(At(ringUsed, ring)), size)
      ensures ok ==> Moved(old(ringUsed), ringUsed, ring, size)
      ensures !ok ==> ringUsed == old(ringUsed)
    {
      var q := At(quota, ring);
      ok := q <= 0 || At(ringUsed, ring) + size <= q;
      if ok { ringUsed := ringUsed[ring := At(ringUsed, ring) + size]; }
    }

    method AddUsageDelta(ring: Ring, bytesDelta: int, blockDelta: int)
      modifies `ringUsed, `ringCount
      ensures RingMoved(old(ringUsed), ringUsed, old(ringCount), ringCount, ring, bytesDelta, blockDelta)
    {
      if bytesDelta != 0 { ringUsed := ringUsed[ring := Clamped(At(ringUsed, ring) + bytesDelta)]; }
      if blockDelta != 0 { ringCount := ringCount[ring := Clamped(At(ringCount, ring) + blockDelta)]; }
    }

    method AddCIDUsage(ring: Ring, root: Root, delta: int)
      modifies `cidUsage
      ensures Moved(old(cidUsage), cidUsage, (ring, root), delta)
    {
      if delta != 0 {
        cidUsage := cidUsage[(ring, root) := Clamped(At(cidUsage, (ring, root)) + delta)];
      }
    }

    method AddRootWithExpiry(ring: Ring, root: Root, expires: int)
      modifies `roots, `known
      ensures Holds() == WithRoot(old(Holds()), ring, root, expires)
      ensures roots == old(roots)[(ring, root) := expires] && known == old(known) + {ring}
      ensures old(Valid()) ==> Valid()
    {
      roots := roots[(ring, root) := expires];
      known := known + {ring};
    }

    // -------------------------------------------------------------- dropping

    lemma BlockLeaves(h: Hash)
      requires h in blocks
      ensures Bytes(blocks - {h}, (blocks - {h}).Keys) == StoredBytes() - blocks[h]
      ensures |blocks - {h}| == |blocks| - 1
    {
      BytesRemove(blocks, blocks.Keys, h);
      assert (blocks - {h}).Keys == blocks.Keys - {h};
      BytesSame(blocks, blocks - {h}, blocks.Keys - {h});
    }

    /** Without a block the index stays exact if and only if it does not mention the block. */
    lemma Unindexed(h: Hash)
      requires IndexExact() && h in blocks
      ensures (forall e :: e in index ==> e.hash != h) ==>
                UsagesExact(blocks - {h}, index, cidUsage) && RingsExact(blocks - {h}, index, ringUsed, ringCount)
    {
      if forall e :: e in index ==> e.hash != h {
        UnindexedIsInvisible(blocks, blocks - {h}, index, cidUsage, ringUsed, ringCount);
      }
    }

    /** Deletes a block, unless the block layer fails to; the accounts survive a deletion exactly when
        no ring indexes the block. */
    method Delete(h: Hash, deleted: bool)
      requires Valid()
      modifies `blocks, `usedBytes, `blockCount
      ensures Holds() == AfterDelete(old(Holds()), h, deleted)
      ensures deleted ==> h !in blocks && blocks.Keys == old(blocks).Keys - {h}
      ensures forall x :: x in blocks ==> x in old(blocks) && blocks[x] == old(blocks)[x]
      ensures !deleted ==> blocks == old(blocks)
      ensures AggregateExact()
      ensures Valid() <==> (deleted ==> forall e :: e in index ==> e.hash != h)
    {
      if !deleted { return; }
      if h in blocks {
        var size: int := blocks[h];
        BlockLeaves(h);
        Unindexed(h);
        blocks := blocks - {h};
        AddAggDelta(0 - size, -1);
      } else {
        assert blocks - {h} == blocks;
      }
    }

    /** Deletes one index entry and takes the block's size off its root's counter. */
    method RemoveEntry(e: Entry, size: nat)
      requires e in index && SizeAt(blocks, e.hash) == size && UsagesExact(blocks, index, cidUsage)
      modifies `index, `cidUsage
      ensures index == old(index) - {e} && UsagesExact(blocks, index, cidUsage)
    {
      index := index - {e};
      AddCIDUsage(e.ring, e.root, 0 - size);
      EntryRemoved(blocks, old(index), old(cidUsage), cidUsage, e);
    }

    /** Deletes the entries of one block in one ring. */
    method RemoveEntries(ring: Ring, h: Hash, size: nat) returns (removed: bool)
      requires SizeAt(blocks, h) == size && UsagesExact(blocks, index, cidUsage)
      modifies `index, `cidUsage
      ensures index == old(index) - BlockEntries(old(index), ring, h) && UsagesExact(blocks, index, cidUsage)
      ensures removed <==> BlockEntries(old(index), ring, h) != {}
    {
      var entries := BlockEntries(index, ring, h);
      var todo := entries;
      ghost var rest := index - entries;
      removed := false;
      while todo != {}
        invariant todo <= entries && index == rest + todo
        invariant UsagesExact(blocks, index, cidUsage)
        invariant if removed then entries != {} else todo == entries
        decreases todo
      {
        var e :| e in todo;
        assert e in entries && e.hash == h;
        RemoveEntry(e, size);
        assert index == rest + (todo - {e});
        todo := todo - {e};
        removed := true;
      }
    }

    /** Takes a block out of one ring; the accounts survive unless the block was there and is empty. */
    method DropBlock(ring: Ring, h: Hash) returns (removed: bool)
      requires Valid()
      modifies `index, `cidUsage, `ringUsed, `ringCount
      ensures Holds() == AfterDrop(old(Holds()), ring, h)
      ensures removed <==> h in RingHashes(old(index), ring)
      ensures forall e :: e in index <==> e in old(index) && !(e.ring == ring && e.hash == h)
      ensures h !in RingHashes(index, ring)
      ensures UsagesExact(blocks, index, cidUsage)
      ensures removed && SizeAt(blocks, h) > 0 ==>
                && At(ringUsed, ring) == old(At(ringUsed, ring)) - SizeAt(blocks, h)
                && At(ringCount, ring) == old(At(ringCount, ring)) - 1
      ensures forall r :: r != ring ==>
                At(ringUsed, r) == At(old(ringUsed), r) && At(ringCount, r) == At(old(ringCount), r)
      ensures Valid() <==> (removed ==> SizeAt(blocks, h) > 0)
    {
      HasEntries(index, ring, h);
      assert RingExact(blocks, index, ringUsed, ringCount, ring);
      removed := RemoveEntries(ring, h, SizeAt(blocks, h));
      if removed {
        if h in blocks && blocks[h] > 0 {
          BytesRemove(blocks, RingHashes(old(index), ring), h);
          AddUsageDelta(ring, 0 - SizeAt(blocks, h), -1);
          RingLeft(blocks, old(index), old(ringUsed), ringUsed, old(ringCount), ringCount, ring, h);
        } else {
          NotCounted(old(index), ring, h);
        }
      } else {
        assert index == old(index);
      }
    }

    lemma NotCounted(before: set<Entry>, ring: Ring, h: Hash)
      requires index == before - BlockEntries(before, ring, h) && h in RingHashes(before, ring)
      requires RingExact(blocks, before, ringUsed, ringCount, ring)
      ensures !Valid()
    {
      BlockLeavesRing(before, ring, h, ring);
      assert RingHashes(index, ring) == RingHashes(before, ring) - {h};
      assert !RingExact(blocks, index, ringUsed, ringCount, ring);
    }

    /** Counts a new entry of a stored, non-empty block. */
    method CountEntry(e: Entry)
      requires UsagesExact(blocks, index, cidUsage) && RingsExact(blocks, index, ringUsed, ringCount)
      requires e !in index && e.hash in blocks
      modifies `cidUsage, `ringUsed, `ringCount
      ensures UsagesExact(blocks, index + {e}, cidUsage) && RingsExact(blocks, index + {e}, ringUsed, ringCount)
    {
      var has := RingHasBlock(e.ring, e.hash);
      if !has { AddUsageDelta(e.ring, blocks[e.hash], 1); }
      AddCIDUsage(e.ring, e.root, blocks[e.hash]);
      FiledExactly(blocks, index, e, blocks[e.hash], old(ringUsed), ringUsed, old(ringCount), ringCount,
                   old(cidUsage), cidUsage);
    }

    /** Indexes a block without a quota check; exact iff the block is stored and not an empty one new to the ring. */
    method AddBlockRootIndex(ring: Ring, h: Hash, root: Root)
      requires Valid()
      modifies `index, `cidUsage, `ringUsed, `ringCount, `known
      ensures Holds() == AfterIndex(old(Holds()), Entry(ring, h, root))
      ensures index == old(index) + {Entry(ring, h, root)} && known == old(known) + {ring}
      ensures Valid() <==> (h in blocks && (blocks[h] > 0 || h in RingHashes(old(index), ring)))
    {
      var e := Entry(ring, h, root);
      if e in index {
        assert h in RingHashes(index, ring);
        return;
      }
      if h in blocks && blocks[h] > 0 {
        CountEntry(e);
      } else {
        Uncounted(e);
        EntryAdded(blocks, index, cidUsage, cidUsage, e);
      }
      index := index + {e};
      known := known + {ring};
      assert e in index;
    }

    lemma Uncounted(e: Entry)
      requires RingsExact(blocks, index, ringUsed, ringCount)
      ensures RingExact(blocks, index + {e}, ringUsed, ringCount, e.ring) ==> e.hash in RingHashes(index, e.ring)
      ensures e.hash in RingHashes(index, e.ring) ==> RingsExact(blocks, index + {e}, ringUsed, ringCount)
    {
      assert RingExact(blocks, index, ringUsed, ringCount, e.ring);
      HashesAdd(index, e, e.ring, e.root);
      if e.hash in RingHashes(index, e.ring) {
        RingAgain(blocks, index, ringUsed, ringCount, e);
      } else {
        assert |RingHashes(index + {e}, e.ring)| == |RingHashes(index, e.ring)| + 1;
      }
    }

    // -------------------------------------------------------------- roots

    /** Removes a root record, its counter and its entries in the ring. */
    method RemoveRootStr(ring: Ring, root: Root)
      requires Valid()
      modifies `roots, `index, `cidUsage, `ringUsed, `ringCount
      ensures Valid()
      ensures Holds() == AfterRemoveRoot(old(Holds()), ring, root)
      ensures roots == old(roots) - {(ring, root)}
      ensures forall e :: e in index <==> e in old(index) && !(e.ring == ring && e.root == root)
    {
      RootRemoved(blocks, index, cidUsage, ring, root);
      roots := roots - {(ring, root)};
      cidUsage := cidUsage - {(ring, root)};
      RemoveBlockRootEntries(ring, root);
      assert IndexStored(blocks, index, known) by { assert index <= old(index); }
      assert AggregateExact();
    }

    /** Deletes one index entry; the ring gives the block up with its last entry. */
    method RemoveRootEntry(e: Entry)
      requires e in index && e.hash in blocks && RingsExact(blocks, index, ringUsed, ringCount)
      modifies `index, `ringUsed, `ringCount
      ensures index == old(index) - {e} && RingsExact(blocks, index, ringUsed, ringCount)
    {
      index := index - {e};
      var has := RingHasBlock(e.ring, e.hash);
      if !has {
        var size: int := blocks[e.hash];
        AddUsageDelta(e.ring, -size, -1);
        LastEntryRemoved(blocks, old(index), old(ringUsed), ringUsed, old(ringCount), ringCount, e);
      } else {
        OtherEntryStays(blocks, old(index), ringUsed, ringCount, e);
      }
    }

    method RemoveBlockRootEntries(ring: Ring, root: Root)
      requires IndexStored(blocks, index, known) && RingsExact(blocks, index, ringUsed, ringCount)
      modifies `index, `ringUsed, `ringCount
      ensures RingsExact(blocks, index, ringUsed, ringCount)
      ensures index == old(index) - RootEntries(old(index), ring, root)
    {
      ghost var matching := RootEntries(index, ring, root);
      ghost var rest := index - matching;
      var todo := set e | e in index && e.ring == ring;
      while todo != {}
        invariant todo <= old(index) && index == rest + (matching * todo)
        invariant matching * todo == RootEntries(todo, ring, root)
        invariant forall e :: e in todo ==> e.ring == ring
        invariant RingsExact(blocks, index, ringUsed, ringCount)
        decreases todo
      {
        var e :| e in todo;
        if e.root == root {
          assert e in RootEntries(todo, ring, root);
          RemoveRootEntry(e);
        }
        todo := todo - {e};
      }
    }

    /** Whether the ring holds an unexpired record of the root. */
    method HasRootStr(ring: Ring, root: Root, now: int) returns (has: bool)
      ensures has <==> HasRoot(roots, ring, root, now)
      ensures has <==> (ring, root) in roots && (roots[(ring, root)] <= 0 || now <= roots[(ring, root)])
    {
      if (ring, root) !in roots { return false; }
      var expires := roots[(ring, root)];
      has := !(expires > 0 && now > expires);
    }

    /**
      Files a block under a root, after its bytes were reserved in the ring. The counters
      are exact afterwards iff the entry was there or `size` is the stored size.
    */
    method FileUnder(e: Entry, size: nat, addingToRing: bool, expires: int, now: int, ghost used0: map<Ring, int>)
      requires UsagesExact(blocks, index, cidUsage) && RingsExact(blocks, index, used0, ringCount)
      requires addingToRing <==> e.hash !in RingHashes(index, e.ring)
      requires if addingToRing then Moved(used0, ringUsed, e.ring, size) else ringUsed == used0
      modifies `index, `cidUsage, `ringCount, `roots, `known
      ensures index == old(index) + {e} && known == old(known) + {e.ring}
      ensures roots == if HasRoot(old(roots), e.ring, e.root, now) then old(roots)
                       else old(roots)[(e.ring, e.root) := expires]
      ensures (UsagesExact(blocks, index, cidUsage) && RingsExact(blocks, index, ringUsed, ringCount))
         <==> (e in old(index) || SizeAt(blocks, e.hash) == size)
    {
      assert RingExact(blocks, index, used0, ringCount, e.ring);
      if addingToRing { ringCount := ringCount[e.ring := At(ringCount, e.ring) + 1]; }
      if e !in index { AddCIDUsage(e.ring, e.root, size); }
      FiledExactly(blocks, index, e, size, used0, ringUsed, old(ringCount), ringCount, old(cidUsage), cidUsage);
      index := index + {e};
      var has := HasRootStr(e.ring, e.root, now);
      if !has { AddRootWithExpiry(e.ring, e.root, expires); }
      known := known + {e.ring};
    }

    /** Reserves aggregate bytes for a missing block and ring bytes for one new to the ring, or nothing. */
    method Reserve(ring: Ring, h: Hash, size: nat, root: Option<Root>) returns (ok: bool, addingToRing: bool)
      requires Valid()
      modifies `usedBytes, `blockCount, `ringUsed
      ensures ok <==> !RootedOutcome(Holds(), ring, h, size, root, true).StorageFull?
      ensures ok ==> (addingToRing <==> root.Some? && h !in RingHashes(index, ring))
      ensures usedBytes == if ok && h !in blocks then old(usedBytes) + size else old(usedBytes)
      ensures blockCount == old(blockCount)
      ensures if ok && addingToRing then Moved(old(ringUsed), ringUsed, ring, size) else ringUsed == old(ringUsed)
    {
      assert RingExact(blocks, index, ringUsed, ringCount, ring);
      addingToRing := false;
      ok := true;
      if h !in blocks {
        ok := ReserveAggBytes(size);
        if !ok { return; }
      }
      if root.Some? {
        var has := RingHasBlock(ring, h);
        if !has {
          addingToRing := true;
          ok := ReserveRingBytes(ring, size);
          if !ok && h !in blocks { AddAggDelta(0 - size, 0); }
        }
      }
    }

    /** Writes a missing block, or gives its reservations back when the write fails. */
    method WriteReserved(ring: Ring, h: Hash, size: nat, addingToRing: bool, written: bool, ghost used0: map<Ring, int>)
      requires h !in blocks && usedBytes - size >= 0 && RingsExact(blocks, index, used0, ringCount)
      requires if addingToRing then Moved(used0, ringUsed, ring, size) else ringUsed == used0
      modifies `blocks, `usedBytes, `blockCount, `ringUsed, `ringCount
      ensures blocks == if written then old(blocks)[h := size] else old(blocks)
      ensures blockCount == if written then old(blockCount) + 1 else old(blockCount)
      ensures usedBytes == if written then old(usedBytes) else old(usedBytes) - size
      ensures written ==> ringUsed == old(ringUsed) && ringCount == old(ringCount)
      ensures !written ==> RingsExact(blocks, index, ringUsed, ringCount)
    {
      if written {
        blocks := blocks[h := size];
        blockCount := blockCount + 1;
      } else {
        AddAggDelta(0 - size, 0);
        if addingToRing {
          assert RingExact(blocks, index, used0, ringCount, ring);
          AddUsageDelta(ring, 0 - size, 0);
        }
        forall r ensures RingExact(blocks, index, ringUsed, ringCount, r) {
          assert RingExact(blocks, index, used0, old(ringCount), r);
        }
      }
    }

    /** Reserves and writes: either the block is stored and its bytes are reserved, or nothing has changed. */
    method Admit(ring: Ring, h: Hash, size: nat, root: Option<Root>, written: bool) returns (r: Outcome, addingToRing: bool)
      requires Valid()
      modifies `blocks, `usedBytes, `blockCount, `ringUsed, `ringCount
      ensures r == RootedOutcome(old(Holds()), ring, h, size, root, written)
      ensures !r.Done? ==> Valid() && Holds() == old(Holds())
      ensures r.Done? ==>
        && AggregateExact() && Holds() == WithBlock(old(Holds()), h, size)
        && UsagesExact(blocks, index, cidUsage)
        && ringCount == old(ringCount) && RingsExact(blocks, index, old(ringUsed), ringCount)
        && (addingToRing <==> root.Some? && h !in RingHashes(index, ring))
        && if addingToRing then Moved(old(ringUsed), ringUsed, ring, size) else ringUsed == old(ringUsed)
    {
      if h !in blocks { BlockArrives(h, size); }
      var ok;
      ok, addingToRing := Reserve(ring, h, size, root);
      if !ok { return StorageFull, addingToRing; }
      if h !in blocks {
        WriteReserved(ring, h, size, addingToRing, written, old(ringUsed));
        if !written { return WriteFailed, addingToRing; }
      }
      return Done, addingToRing;
    }

    /** The outcome of a put under a root, read off the counters. */
    lemma ByCounters(ring: Ring, h: Hash, size: nat, root: Option<Root>, written: bool)
      requires Valid()
      ensures RootedOutcome(Holds(), ring, h, size, root, written) ==
                if h !in blocks && 0 < maxBytes < usedBytes + size then StorageFull
                else if root.Some? && h !in RingHashes(index, ring) && 0 < At(quota, ring) < At(ringUsed, ring) + size
                then StorageFull
                else if h !in blocks && !written then WriteFailed else Done
    {
      assert RingExact(blocks, index, ringUsed, ringCount, ring);
    }

    /**
      Puts a block under a root of a ring. The accounts stay exact unless the block was
      stored, its entry is new, and the data has another length than the stored block.
    */
    method PutWithRoot(ring: Ring, h: Hash, size: nat, root: Option<Root>, expires: int, now: int, written: bool)
      returns (r: Outcome)
      requires Valid()
      modifies this
      ensures r == RootedOutcome(old(Holds()), ring, h, size, root, written)
      ensures Holds() == AfterPutWithRoot(old(Holds()), ring, h, size, root, expires, now, written)
      ensures !r.Done? ==> Holds() == old(Holds())
      ensures r.Done? ==>
                && blocks == (if h in old(blocks) then old(blocks) else old(blocks)[h := size])
                && index == old(index) + if root.Some? then {Entry(ring, h, root.value)} else {}
      ensures r.Done? && root.Some? ==>
                var key := (ring, root.value);
                roots == if key in old(roots) && (old(roots)[key] <= 0 || now <= old(roots)[key])
                         then old(roots) else old(roots)[key := expires]
      ensures root.None? ==> roots == old(roots)
      ensures Valid() <==> (r.Done? && root.Some? && Entry(ring, h, root.value) !in old(index) && h in old(blocks)
                            ==> old(blocks)[h] == size)
    {
      var addingToRing;
      r, addingToRing := Admit(ring, h, size, root, written);
      if r.Done? && root.Some? {
        FileUnder(Entry(ring, h, root.value), size, addingToRing, expires, now, old(ringUsed));
        assert IndexStored(blocks, index, known);
      }
    }

    /** Refuses a negative quota and one below the ring's current usage. */
    method SetQuota(ring: Ring, max: int) returns (ok: bool)
      requires Valid()
      modifies `quota, `known
      ensures ok <==> max >= 0 && QuotaAllowed(old(Holds()), ring, max)
      ensures Valid() && Holds() == AfterSetQuota(old(Holds()), ring, max)
      ensures ok <==> max == 0 || (max > 0 && At(ringUsed, ring) <= max)
      ensures quota == if ok then old(quota)[ring := max] else old(quota)
      ensures known == if ok then old(known) + {ring} else old(known)
    {
      assert RingExact(blocks, index, ringUsed, ringCount, ring);
      if max < 0 || (max > 0 && max < At(ringUsed, ring)) { return false; }
      quota := quota[ring := max];
      known := known + {ring};
      ok := true;
    }

    // -------------------------------------------------------------- expiry and collection

    /** Removes the expired roots of one ring. */
    method PruneRing(ring: Ring, now: int) returns (pruned: nat)
      requires Valid()
      modifies `roots, `index, `cidUsage, `ringUsed, `ringCount
      ensures Valid() && Holds() == AfterPrune(old(Holds()), {ring}, now)
      ensures pruned + |roots| == |old(roots)|
    {
      var stale := Stale(roots, {ring}, now);
      FewerRoots(roots, stale);
      pruned := RemoveRoots(stale);
    }

    /** Removes the given roots, which all have a record. */
    method RemoveRoots(keys: set<RootKey>) returns (removed: nat)
      requires Valid() && keys <= roots.Keys
      modifies `roots, `index, `cidUsage, `ringUsed, `ringCount
      ensures Valid() && Holds() == WithoutRoots(old(Holds()), keys)
      ensures removed == |keys|
    {
      var todo := keys;
      removed := 0;
      RemovalStarts(Holds(), keys);
      while todo != {}
        invariant Valid() && RemovedBut(old(Holds()), keys, todo, Holds())
        invariant removed + |todo| == |keys|
        decreases todo
      {
        var k :| k in todo;
        RemovalStep(old(Holds()), keys, todo, Holds(), k);
        RemoveRootStr(k.0, k.1);
        todo := todo - {k};
        removed := removed + 1;
      }
      RemovalEnds(old(Holds()), keys, Holds());
    }

    /** Removes the expired roots of every known ring. */
    method PruneExpiredRoots(now: int) returns (total: nat)
      requires Valid()
      modifies `roots, `index, `cidUsage, `ringUsed, `ringCount
      ensures Valid() && Holds() == AfterPrune(old(Holds()), known, now)
      ensures total + |roots| == |old(roots)|
    {
      var todo := known;
      ghost var c := Holds();
      PruneNone(c, now);
      total := 0;
      while todo != {}
        invariant Valid() && todo <= c.known && Holds() == AfterPrune(c, c.known - todo, now)
        invariant total + |roots| == |c.roots|
        decreases todo
      {
        var ring :| ring in todo;
        PruneMore(c, todo, ring, now);
        var pruned := PruneRing(ring, now);
        todo := todo - {ring};
        total := total + pruned;
      }
      assert c.known - todo == c.known;
    }

    /** The names of the roots with an unexpired record in the ring. */
    method ListRoots(ring: Ring, now: int) returns (live: set<Root>)
      ensures live == set k | k in roots && k.0 == ring && !Expired(roots[k], now) :: k.1
      ensures forall r :: r in live <==> (ring, r) in roots && (roots[(ring, r)] <= 0 || now <= roots[(ring, r)])
    {
      var todo := set k | k in roots && k.0 == ring;
      live := {};
      while todo != {}
        invariant forall k :: k in todo ==> k in roots && k.0 == ring
        invariant live == set k | k in roots && k.0 == ring && k !in todo && !Expired(roots[k], now) :: k.1
        decreases todo
      {
        var k :| k in todo;
        ghost var before := todo;
        todo := todo - {k};
        ghost var target := set k | k in roots && k.0 == ring && k !in todo && !Expired(roots[k], now) :: k.1;
        if !Expired(roots[k], now) {
          assert k.1 in target;
          live := live + {k.1};
        }
        assert forall x :: x in target ==> x in live;
        assert forall x :: x in live ==> x in target;
      }
    }

    /** Whether the block has an entry, in one of the rings, to a root in the live set. */
    method BlockHasLiveRootInSet(h: Hash, rings: set<Ring>, live: set<Root>) returns (hit: bool)
      ensures hit <==> Rooted(index, rings, live, h)
    {
      var todo := rings;
      while todo != {}
        invariant todo <= rings
        invariant !Rooted(index, rings - todo, live, h)
        decreases todo
      {
        var ring :| ring in todo;
        var entries := BlockEntries(index, ring, h);
        while entries != {}
          invariant entries <= BlockEntries(index, ring, h)
          invariant forall e :: e in BlockEntries(index, ring, h) - entries ==> e.root !in live
          decreases entries
        {
          var e :| e in entries;
          if e.root in live { return true; }
          entries := entries - {e};
        }
        assert forall e :: e in index && e.hash == h && e.ring == ring ==> e in BlockEntries(index, ring, h) - entries;
        todo := todo - {ring};
      }
      return false;
    }

    /** Whether the ring files the block under a root whose record there has not expired. */
    method BlockHasLiveRoot(ring: Ring, h: Hash, now: int) returns (live: bool)
      ensures live <==> HasLiveRoot(Holds(), ring, h, now)
      ensures live <==> exists root :: Entry(ring, h, root) in index && (ring, root) in roots
                                       && (roots[(ring, root)] == 0 || now <= roots[(ring, root)])
    {
      var entries := BlockEntries(index, ring, h);
      var todo := entries;
      while todo != {}
        invariant todo <= entries
        invariant forall e :: e in entries - todo ==> !LiveRecord(roots, ring, e.root, now)
        decreases todo
      {
        var e :| e in todo;
        if (ring, e.root) in roots {
          var expires := roots[(ring, e.root)];
          if expires == 0 || now <= expires { return true; }
        }
        todo := todo - {e};
      }
      assert forall e :: e in index && e.hash == h && e.ring == ring ==> e in entries - todo;
      return false;
    }

    /** Deletes a block's entries in one ring and takes it off the ring's counters. */
    method CleanupRingBlockIndex(ring: Ring, h: Hash, size: nat)
      requires IndexExact() && SizeAt(blocks, h) == size
      modifies `index, `cidUsage, `ringUsed, `ringCount
      ensures IndexExact() && index == old(index) - BlockEntries(old(index), ring, h)
    {
      var removed := RemoveEntries(ring, h, size);
      if removed {
        AddUsageDelta(ring, 0 - size, -1);
        RingLeft(blocks, old(index), old(ringUsed), ringUsed, old(ringCount), ringCount, ring, h);
      } else {
        assert index == old(index);
      }
    }

    /** Deletes a block's entries in the known rings and takes it off their counters. */
    method CleanupBlock(h: Hash)
      requires IndexExact() && h in blocks
      modifies `index, `cidUsage, `ringUsed, `ringCount
      ensures IndexExact() && Holds() == Stripped(old(Holds()), h)
      ensures forall e :: e in index <==> e in old(index) && !(e.hash == h && e.ring in known)
    {
      var todo := known;
      while todo != {}
        invariant IndexExact() && todo <= known
        invariant index == set e | e in old(index) && !(e.hash == h && e.ring in known - todo)
        decreases todo
      {
        var ring :| ring in todo;
        CleanupRingBlockIndex(ring, h, blocks[h]);
        todo := todo - {ring};
        assert index == set e | e in old(index) && !(e.hash == h && e.ring in known - todo);
      }
    }

    /** Cleans a block out of the rings and deletes it unless that fails; the aggregate counters are
        left to the caller. */
    method SweepBlock(h: Hash, deleted: bool)
      requires IndexExact() && h in blocks
      modifies `blocks, `index, `cidUsage, `ringUsed, `ringCount
      ensures IndexExact()
      ensures !deleted ==> Holds() == Stripped(old(Holds()), h)
      ensures deleted ==> Holds() == Without(old(Holds()), {h})
      ensures deleted ==> |blocks| == |old(blocks)| - 1 && StoredBytes() == old(StoredBytes()) - old(blocks)[h]
    {
      BlockLeaves(h);
      CleanupBlock(h);
      if deleted {
        assert forall e :: e in index ==> e.hash != h;
        UnindexedIsInvisible(blocks, blocks - {h}, index, cidUsage, ringUsed, ringCount);
        blocks := blocks - {h};
        assert index == Without(old(Holds()), {h}).index;
      }
    }

    /** Whether some known ring files the block under a live root. */
    method BlockHasLiveRootAnyRing(h: Hash, now: int) returns (live: bool)
      ensures live <==> HasLiveRootAnyRing(Holds(), h, now)
    {
      var todo := known;
      while todo != {}
        invariant todo <= known
        invariant forall ring :: ring in known - todo ==> !HasLiveRoot(Holds(), ring, h, now)
        decreases todo
      {
        var ring :| ring in todo;
        live := BlockHasLiveRoot(ring, h, now);
        if live { return true; }
        todo := todo - {ring};
      }
      assert forall ring :: ring in known ==> ring in known - todo;
      return false;
    }

    /** The names of the roots live in some known ring. */
    method LiveRoots(now: int) returns (live: set<Root>)
      ensures live == Live(Holds(), now)
    {
      var todo := known;
      live := {};
      while todo != {}
        invariant todo <= known && live == Live(Holds().(known := known - todo), now)
        decreases todo
      {
        var ring :| ring in todo;
        var more := ListRoots(ring, now);
        ghost var target := Live(Holds().(known := known - (todo - {ring})), now);
        assert forall x :: x in target ==> x in live + more;
        assert forall x :: x in live + more ==> x in target;
        live := live + more;
        todo := todo - {ring};
      }
      assert known - todo == known;
    }

    /** Cleans up and deletes one block if no live root holds on to it; a failing deletion leaves the
        block stored, without its entries. */
    method Visit(h: Hash, live: set<Root>, failing: set<Hash>) returns (hit: bool, freed: nat)
      requires IndexExact() && h in blocks
      modifies `blocks, `index, `cidUsage, `ringUsed, `ringCount
      ensures hit <==> Rooted(old(index), known, live, h)
      ensures IndexExact() && freed + StoredBytes() == old(StoredBytes())
      ensures hit ==> Holds() == old(Holds()) && freed == 0
      ensures !hit && h in failing ==> Holds() == Stripped(old(Holds()), h) && freed == 0
      ensures !hit && h !in failing ==> Holds() == Without(old(Holds()), {h}) && |blocks| == |old(blocks)| - 1
    {
      freed := 0;
      hit := BlockHasLiveRootInSet(h, known, live);
      if !hit {
        var size := blocks[h];
        SweepBlock(h, h !in failing);
        if h !in failing { freed := size; }
      }
    }

    /** After i blocks of a collection from p the running totals are right. */
    ghost predicate Tallied(p: Contents, i: nat, t: Tally)
      reads `blocks
    {
      && t.removed + t.kept == i && t.removed + |blocks| == |p.blocks|
      && t.bytesFreed + StoredBytes() == Bytes(p.blocks, p.blocks.Keys) && (t.removed == 0 ==> t.bytesFreed == 0)
    }

    /** Visits the next block of the order. */
    method VisitNext(order: seq<Hash>, i: nat, live: set<Root>, failing: set<Hash>, t: Tally,
                     ghost garbage: set<Hash>, ghost p: Contents, ghost limit: nat)
      returns (failed: bool, t': Tally)
      requires IndexExact() && Separates(p, live, garbage) && Enumerates(order, p.blocks.Keys)
      requires limit == FirstFailure(order, garbage, failing)
      requires i < |order| && SweptTo(p, order, i, garbage, limit, Holds()) && Tallied(p, i, t)
      modifies `blocks, `index, `cidUsage, `ringUsed, `ringCount
      ensures IndexExact() && Tallied(p, if failed then i else i + 1, t')
      ensures failed ==> i == limit && Holds() == Stripped(SweptBy(p, order, i, garbage), order[i])
      ensures !failed ==> SweptTo(p, order, i + 1, garbage, limit, Holds())
    {
      SweepStep(p, live, order, i, garbage, Holds());
      SweepOn(p, order, i, garbage, failing, limit, Holds());
      var hit, freed := Visit(order[i], live, failing);
      failed := !hit && order[i] in failing;
      t' := if hit then t.(kept := t.kept + 1)
            else if failed then t
            else t.(removed := t.removed + 1, bytesFreed := t.bytesFreed + freed);
    }

    /** Visits the blocks in the given order up to the first failing deletion. */
    method SweepInOrder(order: seq<Hash>, live: set<Root>, failing: set<Hash>, ghost garbage: set<Hash>,
                        ghost limit: nat)
      returns (stop: nat, failed: bool, t: Tally)
      requires IndexExact() && Separates(Holds(), live, garbage) && Enumerates(order, blocks.Keys)
      requires limit == FirstFailure(order, garbage, failing)
      modifies `blocks, `index, `cidUsage, `ringUsed, `ringCount
      ensures IndexExact() && Tallied(old(Holds()), stop, t)
      ensures stop == limit && (failed <==> stop < |order|)
      ensures Holds() == if failed then Stripped(SweptBy(old(Holds()), order, stop, garbage), order[stop])
                         else SweptBy(old(Holds()), order, stop, garbage)
    {
      ghost var p := Holds();
      stop, failed, t := 0, false, Tally(0, 0, 0);
      while stop < |order|
        invariant IndexExact() && SweptTo(p, order, stop, garbage, limit, Holds()) && Tallied(p, stop, t)
      {
        failed, t := VisitNext(order, stop, live, failing, t, garbage, p, limit);
        if failed { return; }
        stop := stop + 1;
      }
    }

    /** Deletes the blocks without a live root, `garbage`, unless a deletion fails. */
    method Sweep(order: seq<Hash>, live: set<Root>, failing: set<Hash>, ghost garbage: set<Hash>)
      returns (stop: nat, t: Tally)
      requires IndexExact() && Separates(Holds(), live, garbage) && Enumerates(order, blocks.Keys)
      modifies `blocks, `index, `cidUsage, `ringUsed, `ringCount
      ensures IndexExact() && Tallied(old(Holds()), stop, t)
      ensures stop == FirstFailure(order, garbage, failing) && (stop == |order| <==> failing !! garbage)
      ensures stop == |order| ==> Holds() == Without(old(Holds()), garbage)
      ensures stop < |order| ==>
                Holds() == Stripped(Without(old(Holds()), Passed(order, stop, garbage)), order[stop])
    {
      FailureIff(order, blocks.Keys, garbage, failing);
      SweptByIs(Holds(), order, FirstFailure(order, garbage, failing), garbage);
      PassedAll(order, blocks.Keys, garbage);
      var failed;
      stop, failed, t := SweepInOrder(order, live, failing, garbage, FirstFailure(order, garbage, failing));
    }

    /** Takes what a sweep removed off the aggregate counters. */
    method Settle(t: Tally, ghost p: Contents, ghost i: nat)
      requires Tallied(p, i, t) && usedBytes == Bytes(p.blocks, p.blocks.Keys) && blockCount == |p.blocks|
      modifies `usedBytes, `blockCount
      ensures AggregateExact()
    {
      var bytes: int, count: int := t.bytesFreed, t.removed;
      if count > 0 { AddAggDelta(-bytes, -count); }
    }

    /** Sweeps and then settles the aggregate counters, unless a deletion failed. */
    method Collect(order: seq<Hash>, live: set<Root>, failing: set<Hash>, ghost garbage: set<Hash>)
      returns (r: GCResult)
      requires Valid() && Separates(Holds(), live, garbage) && Enumerates(order, blocks.Keys)
      modifies this
      ensures IndexExact()
      ensures r.Swept? <==> failing !! garbage
      ensures r.Swept? ==> AggregateExact() && Holds() == Without(old(Holds()), garbage)
      ensures r.Swept? ==> r.kept == |blocks| && r.removed + r.kept == |old(blocks)|
      ensures r.DeleteFailed? ==>
                var stop := FirstFailure(order, garbage, failing);
                && stop < |order| && r.hash == order[stop]
                && Holds() == Stripped(Without(old(Holds()), Passed(order, stop, garbage)), r.hash)
      ensures r.DeleteFailed? ==> usedBytes == old(usedBytes) && blockCount == old(blockCount)
      ensures r.DeleteFailed? ==> (AggregateExact() <==> |blocks| == |old(blocks)|)
    {
      ghost var p := Holds();
      var stop, t := Sweep(order, live, failing, garbage);
      if stop < |order| { return DeleteFailed(order[stop]); }
      Settle(t, p, stop);
      return Swept(t.removed, t.kept);
    }

    /** The stored blocks, in some order. */
    method AllKeys() returns (order: seq<Hash>)
      ensures Enumerates(order, blocks.Keys)
    {
      order := [];
      var todo := blocks.Keys;
      while todo != {}
        invariant todo <= blocks.Keys && Enumerates(order, blocks.Keys - todo)
        decreases todo
      {
        var h :| h in todo;
        EnumeratesMore(order, blocks.Keys - todo, h);
        assert blocks.Keys - todo + {h} == blocks.Keys - (todo - {h});
        order := order + [h];
        todo := todo - {h};
      }
      assert blocks.Keys - todo == blocks.Keys;
    }

    /**
      Prunes expired roots, then visits the blocks in the order the block layer lists them and
      deletes every one no live root holds on to. A block whose deletion fails stays stored, but its
      entries in the known rings are gone and the run stops before the aggregate counters are
      settled; the accounts survive that exactly when no block was deleted before.
    */
    method GC(now: int, order: seq<Hash>, failing: set<Hash>) returns (r: GCResult)
      requires Valid() && Enumerates(order, blocks.Keys)
      modifies this
      ensures r.Swept? <==> failing !! Garbage(old(Holds()), now)
      ensures r.Swept? ==> Valid() && Holds() == Collected(old(Holds()), now)
      ensures r.Swept? ==> r.kept == |blocks| && r.removed + r.kept == |old(blocks)|
      ensures r.DeleteFailed? ==>
                var garbage := Garbage(old(Holds()), now);
                var stop := FirstFailure(order, garbage, failing);
                var pruned := AfterPrune(old(Holds()), old(known), now);
                && stop < |order| && r.hash == order[stop]
                && Holds() == Stripped(Without(pruned, Passed(order, stop, garbage)), r.hash)
                && r.hash in blocks && IndexExact()
                && usedBytes == old(usedBytes) && blockCount == old(blockCount)
                && (Valid() <==> Passed(order, stop, garbage) == {})
    {
      ghost var garbage := Garbage(Holds(), now);
      var _ := PruneExpiredRoots(now);
      var live := LiveRoots(now);
      r := Collect(order, live, failing, garbage);
      if r.DeleteFailed? {
        PassedLeaves(order, old(blocks), FirstFailure(order, garbage, failing), garbage);
      }
    }

    // -------------------------------------------------------------- runs

    /** One admissible operation keeps every counter exact. */
    method Perform(op: Op, ghost sizes: Hash -> nat)
      requires Valid() && Addressed(Holds(), sizes) && Admissible(Holds(), op, sizes)
      modifies this
      ensures Valid() && Holds() == Apply(old(Holds()), op)
    {
      match op {
        case Put(h, size, written) => var _ := Put(h, size, written);
        case PutWithRoot(ring, h, size, root, expires, now, written) =>
          var _ := PutWithRoot(ring, h, size, root, expires, now, written);
        case Delete(h, deleted) => Delete(h, deleted);
        case DropBlock(ring, h) => var _ := DropBlock(ring, h);
        case AddBlockRootIndex(ring, h, root) => AddBlockRootIndex(ring, h, root);
        case AddRoot(ring, root, expires) => AddRootWithExpiry(ring, root, expires);
        case RemoveRoot(ring, root) => RemoveRootStr(ring, root);
        case Prune(now) => var _ := PruneExpiredRoots(now);
        case PruneRing(ring, now) => var _ := PruneRing(ring, now);
        case Collect(now) =>
          var order := AllKeys();
          var _ := GC(now, order, {});
        case SetQuota(ring, max) => var _ := SetQuota(ring, max);
      }
    }

    /** Over every admissible run the counters equal the sums over what is stored and indexed. */
    method PerformAll(ops: seq<Op>, ghost sizes: Hash -> nat)
      requires Valid() && Addressed(Holds(), sizes) && AllAdmissible(Holds(), ops, sizes)
      modifies this
      ensures Valid() && Holds() == Run(old(Holds()), ops)
      decreases |ops|
    {
      if ops != [] {
        ApplyKeepsSound(Holds(), ops[0], sizes);
        Perform(ops[0], sizes);
        PerformAll(ops[1..], sizes);
      }
    }
  }

  /** `garbage` is the stored blocks without an entry to a live root. */
  ghost predicate Separates(p: Contents, live: set<Root>, garbage: set<Hash>) {
    && garbage <= p.blocks.Keys
    && forall h {:trigger Rooted(p.index, p.known, live, h)} ::
         h in p.blocks ==> (h in garbage <==> !Rooted(p.index, p.known, live, h))
  }

  // ---------------------------------------------------------------- the order of a collection

  function Listed(order: seq<Hash>): set<Hash> {
    set h | h in order
  }

  /** The order lists the keys, each once: exactly as many places as keys. */
  predicate Enumerates(order: seq<Hash>, keys: set<Hash>) {
    Listed(order) == keys && |order| == |keys|
  }

  lemma {:induction false} ListedSize(order: seq<Hash>)
    ensures |Listed(order)| <= |order|
  {
    if order != [] {
      ListedSize(order[1..]);
      assert Listed(order) == Listed(order[1..]) + {order[0]};
    }
  }

  lemma NoRepeat(order: seq<Hash>, keys: set<Hash>, i: nat)
    requires Enumerates(order, keys) && i < |order|
    ensures order[i] !in order[..i] && order[i] in keys
  {
    assert order[i] in Listed(order);
    var rest := order[..i] + order[i + 1..];
    ListedSize(rest);
    if order[i] in order[..i] {
      forall h | h in keys ensures h in Listed(rest) {
        var j :| 0 <= j < |order| && order[j] == h;
        assert h in rest by {
          if j < i { assert order[..i][j] == h; } else if j > i { assert order[i + 1..][j - i - 1] == h; }
        }
      }
    }
    assert order[i] in order[..i] ==> Listed(rest) == keys;
  }

  lemma EnumeratesMore(order: seq<Hash>, keys: set<Hash>, h: Hash)
    requires Enumerates(order, keys) && h !in keys
    ensures Enumerates(order + [h], keys + {h})
  {
    assert Listed(order + [h]) == Listed(order) + {h};
  }

  lemma {:induction false} Enumeration(keys: set<Hash>) returns (order: seq<Hash>)
    ensures Enumerates(order, keys)
    decreases |keys|
  {
    order := [];
    if keys != {} {
      var h :| h in keys;
      var rest := Enumeration(keys - {h});
      EnumeratesMore(rest, keys - {h}, h);
      assert keys - {h} + {h} == keys;
      order := rest + [h];
    }
  }

  /** The index of the first garbage block in the order whose deletion fails; the length if none does. */
  function FirstFailure(order: seq<Hash>, garbage: set<Hash>, failing: set<Hash>): (k: nat)
    ensures k <= |order|
    ensures forall j :: 0 <= j < k ==> !(order[j] in garbage && order[j] in failing)
    ensures k < |order| ==> order[k] in garbage && order[k] in failing
  {
    if order == [] then 0
    else if order[0] in garbage && order[0] in failing then 0
    else 1 + FirstFailure(order[1..], garbage, failing)
  }

  lemma FirstFailureIs(order: seq<Hash>, garbage: set<Hash>, failing: set<Hash>, i: nat)
    requires i <= |order| && forall j :: 0 <= j < i ==> !(order[j] in garbage && order[j] in failing)
    requires i < |order| ==> order[i] in garbage && order[i] in failing
    ensures FirstFailure(order, garbage, failing) == i
  {
  }

  lemma FailureIff(order: seq<Hash>, keys: set<Hash>, garbage: set<Hash>, failing: set<Hash>)
    requires Enumerates(order, keys) && garbage <= keys
    ensures FirstFailure(order, garbage, failing) == |order| <==> failing !! garbage
  {
    forall h | h in garbage ensures exists j :: 0 <= j < |order| && order[j] == h {
      assert h in Listed(order);
    }
  }

  /** The garbage among the first i blocks of the order. */
  function Passed(order: seq<Hash>, i: nat, garbage: set<Hash>): set<Hash>
    requires i <= |order|
  {
    set h | h in order[..i] && h in garbage
  }

  lemma PassedMore(order: seq<Hash>, i: nat, garbage: set<Hash>)
    requires i < |order|
    ensures Passed(order, i + 1, garbage) == Passed(order, i, garbage) + if order[i] in garbage then {order[i]} else {}
  {
    assert order[..i + 1] == order[..i] + [order[i]];
  }

  /** Deleting the garbage passed so far shrinks the store exactly when there was some. */
  lemma PassedLeaves(order: seq<Hash>, blocks: map<Hash, nat>, i: nat, garbage: set<Hash>)
    requires Enumerates(order, blocks.Keys) && i <= |order|
    ensures |blocks - Passed(order, i, garbage)| == |blocks| <==> Passed(order, i, garbage) == {}
    ensures i < |order| ==> order[i] !in Passed(order, i, garbage) && order[i] in blocks
  {
    var gone := Passed(order, i, garbage);
    if i < |order| { NoRepeat(order, blocks.Keys, i); }
    forall h | h in gone ensures h in blocks { assert h in Listed(order); }
    var rest := blocks - gone;
    assert rest.Keys == blocks.Keys - gone;
    assert |blocks.Keys - gone| == |blocks.Keys| - |gone|;
    assert |rest| == |rest.Keys| && |blocks| == |blocks.Keys|;
  }

  /** Every order leaves the accounts exact: none makes a deletion fail after another has succeeded. */
  ghost predicate ExactInEveryOrder(keys: set<Hash>, garbage: set<Hash>, failing: set<Hash>) {
    forall order {:trigger Enumerates(order, keys)} :: Enumerates(order, keys) ==>
      var stop := FirstFailure(order, garbage, failing); stop < |order| ==> Passed(order, stop, garbage) == {}
  }

  /** A collection leaves the accounts exact in every order if and only if no garbage block fails to
      be deleted, or all of them do. */
  lemma ExactInEveryOrderIff(keys: set<Hash>, garbage: set<Hash>, failing: set<Hash>)
    requires garbage <= keys
    ensures ExactInEveryOrder(keys, garbage, failing) <==> failing !! garbage || garbage <= failing
  {
    if failing !! garbage || garbage <= failing {
      forall order | Enumerates(order, keys)
        ensures var stop := FirstFailure(order, garbage, failing);
                stop < |order| ==> Passed(order, stop, garbage) == {}
      {
        AllOrNone(order, garbage, failing);
      }
    } else {
      var order := StrandingOrder(keys, garbage, failing);
      assert Enumerates(order, keys);
    }
  }

  lemma AllOrNone(order: seq<Hash>, garbage: set<Hash>, failing: set<Hash>)
    requires failing !! garbage || garbage <= failing
    ensures var stop := FirstFailure(order, garbage, failing); stop < |order| ==> Passed(order, stop, garbage) == {}
  {
    var stop := FirstFailure(order, garbage, failing);
    if garbage <= failing {
      forall h | h in order[..stop] ensures h !in garbage {
        var j :| 0 <= j < stop && order[j] == h;
      }
    }
  }

  /** An order that deletes one garbage block before the deletion of another fails. */
  lemma StrandingOrder(keys: set<Hash>, garbage: set<Hash>, failing: set<Hash>) returns (order: seq<Hash>)
    requires garbage <= keys && !(failing !! garbage) && !(garbage <= failing)
    ensures Enumerates(order, keys)
    ensures FirstFailure(order, garbage, failing) < |order|
    ensures Passed(order, FirstFailure(order, garbage, failing), garbage) != {}
  {
    var g :| g in garbage && g !in failing;
    var rest := Enumeration(keys - {g});
    order := [g] + rest;
    assert Listed(order) == Listed(rest) + {g} == keys;
    FailureIff(order, keys, garbage, failing);
    var stop := FirstFailure(order, garbage, failing);
    assert order[0] == g && stop > 0;
    assert order[..stop][0] == g && g in Passed(order, stop, garbage);
  }

  /** Two blocks without entries, the second of which cannot be deleted: listed in that order, the
      first is deleted and the counters never hear of it. */
  lemma FailureStrandsCounters() returns (c: Contents, order: seq<Hash>, failing: set<Hash>)
    ensures c == Contents(0, map[], map["a" := 1, "b" := 1], {}, map[], {})
    ensures Enumerates(order, c.blocks.Keys) && Garbage(c, 0) == {"a", "b"} && failing == {"b"}
    ensures order == ["a", "b"] && FirstFailure(order, Garbage(c, 0), failing) == 1
    ensures Passed(order, 1, Garbage(c, 0)) == {"a"}
  {
    c := Contents(0, map[], map["a" := 1, "b" := 1], {}, map[], {});
    order, failing := ["a", "b"], {"b"};
    assert "a"[0] != "b"[0] && order[0] == "a" && order[1] == "b";
    assert Listed(order) == {"a", "b"};
    assert Garbage(c, 0) == {"a", "b"};
    FirstFailureIs(order, {"a", "b"}, failing, 1);
    assert order[..1] == ["a"];
  }

  /** The contents after the garbage among the first i blocks has gone, one block at a time. */
  function SweptBy(p: Contents, order: seq<Hash>, i: nat, garbage: set<Hash>): Contents
    requires i <= |order|
  {
    if i == 0 then p
    else
      var d := SweptBy(p, order, i - 1, garbage);
      if order[i - 1] in garbage then Without(d, {order[i - 1]}) else d
  }

  lemma NoneSwept(p: Contents)
    ensures Without(p, {}) == p
  {
  }

  lemma {:induction false} SweptByIs(p: Contents, order: seq<Hash>, i: nat, garbage: set<Hash>)
    requires i <= |order|
    ensures SweptBy(p, order, i, garbage) == Without(p, Passed(order, i, garbage))
  {
    if i == 0 {
      assert Passed(order, 0, garbage) == {};
      NoneSwept(p);
    } else {
      SweptByIs(p, order, i - 1, garbage);
      PassedMore(order, i - 1, garbage);
      var was := Passed(order, i - 1, garbage);
      if order[i - 1] in garbage { SweepMore(p, was, order[i - 1]); } else { assert was + {} == was; }
    }
  }

  lemma PassedAll(order: seq<Hash>, keys: set<Hash>, garbage: set<Hash>)
    requires Enumerates(order, keys) && garbage <= keys
    ensures Passed(order, |order|, garbage) == garbage
  {
    assert order[..|order|] == order;
    forall h | h in garbage ensures h in Passed(order, |order|, garbage) { assert h in Listed(order); }
  }

  /** d is p after the first i visits, all of them before the first failing deletion. */
  predicate SweptTo(p: Contents, order: seq<Hash>, i: nat, garbage: set<Hash>, limit: nat, d: Contents) {
    i <= limit <= |order| && d == SweptBy(p, order, i, garbage)
  }

  /** The next block is still stored, with the entries it had at the start. */
  lemma SweepStep(p: Contents, live: set<Root>, order: seq<Hash>, i: nat, garbage: set<Hash>, d: Contents)
    requires Separates(p, live, garbage) && Enumerates(order, p.blocks.Keys)
    requires i < |order| && d == SweptBy(p, order, i, garbage)
    ensures order[i] in d.blocks && d.known == p.known
    ensures Rooted(d.index, d.known, live, order[i]) <==> order[i] !in garbage
  {
    SweptByIs(p, order, i, garbage);
    PassedLeaves(order, p.blocks, i, garbage);
    SweepKeepsRooted(p, Passed(order, i, garbage), live, order[i]);
  }

  /** Short of the first failure the sweep goes on to the next block, with or without this one. */
  lemma SweepOn(p: Contents, order: seq<Hash>, i: nat, garbage: set<Hash>, failing: set<Hash>, limit: nat, d: Contents)
    requires i < |order| && limit == FirstFailure(order, garbage, failing) && SweptTo(p, order, i, garbage, limit, d)
    ensures order[i] in garbage && order[i] in failing <==> i == limit
    ensures order[i] !in garbage ==> SweptTo(p, order, i + 1, garbage, limit, d)
    ensures order[i] in garbage && order[i] !in failing ==>
              SweptTo(p, order, i + 1, garbage, limit, Without(d, {order[i]}))
  {
  }

  /** d is c without the roots in `keys` but those in `todo`. */
  predicate RemovedBut(c: Contents, keys: set<RootKey>, todo: set<RootKey>, d: Contents) {
    todo <= keys && d == WithoutRoots(c, keys - todo)
  }

  lemma RemovalStarts(c: Contents, keys: set<RootKey>)
    ensures RemovedBut(c, keys, keys, c)
  {
  }

  lemma RemovalStep(c: Contents, keys: set<RootKey>, todo: set<RootKey>, d: Contents, k: RootKey)
    requires RemovedBut(c, keys, todo, d) && k in todo
    ensures RemovedBut(c, keys, todo - {k}, AfterRemoveRoot(d, k.0, k.1))
  {
  }

  lemma RemovalEnds(c: Contents, keys: set<RootKey>, d: Contents)
    requires RemovedBut(c, keys, {}, d)
    ensures d == WithoutRoots(c, keys)
  {
  }

  lemma FewerRoots(roots: map<RootKey, int>, gone: set<RootKey>)
    requires gone <= roots.Keys
    ensures |gone| + |roots - gone| == |roots|
  {
  }

  lemma PruneNone(c: Contents, now: int)
    ensures c.known - c.known == {} && AfterPrune(c, c.known - c.known, now) == c
  {
  }

  /** Pruning ring by ring prunes the union. */
  lemma PruneMore(c: Contents, todo: set<Ring>, ring: Ring, now: int)
    requires ring in todo && todo <= c.known
    ensures AfterPrune(AfterPrune(c, c.known - todo, now), {ring}, now) == AfterPrune(c, c.known - (todo - {ring}), now)
  {
  }
}
