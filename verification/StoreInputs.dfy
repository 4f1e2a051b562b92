/** New stores and a few calls each after which the accounts or a quota no longer hold. */
module StoreInputs {
  import opened Options
  import opened StoreContents
  import opened BlockStore

  /** An empty block filed under a root and then dropped from the ring. */
  method DropEmptyBlock() returns (s: NetworkBlockStore)
    ensures fresh(s) && s.Holds().blocks == map["h" := 0] && s.Holds().index == {}
    ensures !s.Valid()
  {
    s := new NetworkBlockStore(0);
    var _ := s.PutWithRoot("ring", "h", 0, Some("root"), 0, 0, true);
    assert s.index == {Entry("ring", "h", "root")};
    assert "h" in RingHashes(s.index, "ring");
    var _ := s.DropBlock("ring", "h");
  }

  /** An empty block indexed in a ring that does not have it. */
  method IndexEmptyBlock() returns (s: NetworkBlockStore)
    ensures fresh(s) && s.Holds().blocks == map["h" := 0] && s.Holds().index == {Entry("ring", "h", "root")}
    ensures !s.Valid()
  {
    s := new NetworkBlockStore(0);
    var _ := s.Put("h", 0, true);
    s.AddBlockRootIndex("ring", "h", "root");
  }

  /** A block indexed that is not stored. */
  method IndexMissingBlock() returns (s: NetworkBlockStore)
    ensures fresh(s) && s.Holds().blocks == map[] && s.Holds().index == {Entry("ring", "h", "root")}
    ensures !s.Valid()
  {
    s := new NetworkBlockStore(0);
    s.AddBlockRootIndex("ring", "h", "root");
  }

  /** A block deleted while a ring indexes it. */
  method DeleteIndexedBlock() returns (s: NetworkBlockStore)
    ensures fresh(s) && s.Holds().blocks == map[] && s.Holds().index == {Entry("ring", "h", "root")}
    ensures !s.Valid()
  {
    s := new NetworkBlockStore(0);
    var _ := s.PutWithRoot("ring", "h", 3, Some("root"), 0, 0, true);
    assert s.index == {Entry("ring", "h", "root")};
    s.Delete("h", true);
  }

  /** A stored block of three bytes put under a root with four. */
  method PutAnotherLength() returns (s: NetworkBlockStore)
    ensures fresh(s) && s.Holds().blocks == map["h" := 3] && s.Holds().index == {Entry("ring", "h", "root")}
    ensures !s.Valid()
  {
    s := new NetworkBlockStore(0);
    var _ := s.Put("h", 3, true);
    var _ := s.PutWithRoot("ring", "h", 4, Some("root"), 0, 0, true);
  }

  /** A block of three bytes indexed in a ring with room for two. */
  method IndexPastQuota() returns (s: NetworkBlockStore)
    ensures fresh(s) && s.Valid() && s.Holds().index == {Entry("ring", "h", "root")}
    ensures Quota(s.Holds(), "ring") == 2 && RingBytes(s.Holds(), "ring") == 3
    ensures !RingWithinQuota(s.Holds(), "ring")
  {
    s := new NetworkBlockStore(0);
    NoBytes(s.Holds(), "ring");
    var _ := s.SetQuota("ring", 2);
    var _ := s.Put("h", 3, true);
    s.AddBlockRootIndex("ring", "h", "root");
    OneBlock(s.Holds(), "ring", "h", "root");
  }

  lemma NoBytes(c: Contents, ring: Ring)
    requires c.index == {}
    ensures RingBytes(c, ring) == 0
  {
    assert RingHashes(c.index, ring) == {};
  }

  lemma OneBlock(c: Contents, ring: Ring, h: Hash, root: Root)
    requires c.index == {Entry(ring, h, root)}
    ensures RingBytes(c, ring) == SizeAt(c.blocks, h)
  {
    assert RingHashes(c.index, ring) == {h};
    BytesRemove(c.blocks, {h}, h);
    assert {h} - {h} == {};
  }

  lemma TwoBytes(blocks: map<Hash, nat>)
    requires blocks == map["a" := 1, "b" := 1]
    ensures "a" != "b" && Bytes(blocks, blocks.Keys) == 2 && |blocks| == 2
  {
    assert "a"[0] != "b"[0];
    assert blocks.Keys == {"a", "b"} && {"a", "b"} - {"a"} == {"b"} && {"b"} - {"b"} == {};
    BytesRemove(blocks, {"a", "b"}, "a");
    BytesRemove(blocks, {"b"}, "b");
  }

  /** A new store with two blocks of one byte and no entries. */
  method TwoLooseBlocks() returns (s: NetworkBlockStore)
    ensures fresh(s) && s.Valid() && s.blockCount == 2 && s.usedBytes == 2
    ensures s.Holds() == Contents(0, map[], map["a" := 1, "b" := 1], {}, map[], {})
  {
    s := new NetworkBlockStore(0);
    var _ := s.Put("a", 1, true);
    var _ := s.Put("b", 1, true);
    TwoBytes(s.blocks);
  }

  lemma OneLeft(c: Contents)
    requires c == Contents(0, map[], map["a" := 1, "b" := 1], {}, map[], {})
    ensures Stripped(Without(AfterPrune(c, c.known, 0), {"a"}), "b").blocks == map["b" := 1]
  {
    TwoBytes(c.blocks);
  }

  /** If the second of them cannot be deleted, a collection that visits it last deletes the first,
      fails, and the counters still count both. */
  method CollectPastFailure() returns (s: NetworkBlockStore, r: GCResult)
    ensures fresh(s) && r == DeleteFailed("b") && s.Holds().blocks == map["b" := 1]
    ensures s.blockCount == 2 && s.usedBytes == 2 && !s.Valid()
  {
    s := TwoLooseBlocks();
    ghost var c, order, failing := FailureStrandsCounters();
    OneLeft(c);
    assert ["a", "b"] == order && failing == {"b"};
    r := s.GC(0, ["a", "b"], {"b"});
  }
}
