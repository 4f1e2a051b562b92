/**
  Signed peer and group records at a node: last-writer-wins registers ordered by a
  version, each with a time to live. Publishers write through a version check that
  reports conflicts; replica pushes drop stale versions silently.
*/
module SignedRecords {
  import opened Options

  type Key = nat

  /** `valid` says whether the signature verifies; a record that carries no version has version 0. */
  datatype Signed = Signed(version: nat, payload: nat, valid: bool)

  /** A stored record with the time it was stored and its time to live (0: for ever). */
  datatype Entry = Entry(rec: Signed, storedAt: int, ttl: int)

  datatype Meta = Meta(storedAt: int, ttl: int)

  type Slot = Option<Entry>

  datatype Outcome = Stored | Conflict | Rejected

  predicate Expired(e: Entry, now: int) {
    e.ttl > 0 && now - e.storedAt > e.ttl
  }

  /** An unexpired record of at least this version is stored. */
  predicate Superseded(slot: Slot, version: nat, now: int) {
    slot.Some? && !Expired(slot.value, now) && slot.value.rec.version >= version
  }

  /** A write at time `now`; `push` tells a replica push from a published record. */
  datatype Write = Write(rec: Signed, push: bool, ttl: int, now: int)

  function Written(slot: Slot, w: Write): Slot {
    if w.push
    then (if w.rec.version > 0 && Superseded(slot, w.rec.version, w.now) then slot else Some(Entry(w.rec, w.now, w.ttl)))
    else (if !w.rec.valid || Superseded(slot, w.rec.version, w.now) then slot else Some(Entry(w.rec, w.now, w.ttl)))
  }

  /** What a read returns. */
  function Visible(slot: Slot, now: int): Option<Signed> {
    if slot.Some? && !Expired(slot.value, now) then Some(slot.value.rec) else None
  }

  function PurgedSlot(slot: Slot, now: int): Slot {
    if slot.Some? && Expired(slot.value, now) then None else slot
  }

  class SignedTable {
    var records: map<Key, Signed>
    var meta: map<Key, Meta>

    predicate Valid()
      reads this
    {
      records.Keys == meta.Keys
    }

    function At(key: Key): Slot
      requires Valid()
      reads this
    {
      if key in records then Some(Entry(records[key], meta[key].storedAt, meta[key].ttl)) else None
    }

    constructor ()
      ensures Valid() && records == map[]
    {
      records, meta := map[], map[];
    }

    method Keep(key: Key, rec: Signed, ttl: int, now: int)
      requires Valid()
      modifies this
      ensures Valid() && At(key) == Some(Entry(rec, now, ttl))
      ensures forall k :: k != key ==> At(k) == old(At(k))
    {
      records, meta := records[key := rec], meta[key := Meta(now, ttl)];
    }

    method StoreSignedRecord(key: Key, rec: Signed, ttl: int, now: int) returns (r: Outcome)
      requires Valid()
      modifies this
      ensures Valid() && At(key) == Written(old(At(key)), Write(rec, false, ttl, now))
      ensures forall k :: k != key ==> At(k) == old(At(k))
      ensures r == if !rec.valid then Rejected else if Superseded(old(At(key)), rec.version, now) then Conflict else Stored
      ensures r.Conflict? <==>
                && rec.valid && key in old(records) && rec.version <= old(records)[key].version
                && (old(meta)[key].ttl <= 0 || now <= old(meta)[key].storedAt + old(meta)[key].ttl)
      ensures r.Stored? ==> key in records && records[key] == rec && meta[key] == Meta(now, ttl)
      ensures !r.Stored? ==> records == old(records) && meta == old(meta)
    {
      if !rec.valid { return Rejected; }
      if key in records && !(meta[key].ttl > 0 && now - meta[key].storedAt > meta[key].ttl)
         && records[key].version >= rec.version {
        return Conflict;
      }
      Keep(key, rec, ttl, now);
      return Stored;
    }

    method LocalRecordPut(key: Key, rec: Signed, ttl: int, now: int)
      requires Valid()
      modifies this
      ensures Valid() && At(key) == Written(old(At(key)), Write(rec, true, ttl, now))
      ensures forall k :: k != key ==> At(k) == old(At(k))
      ensures At(key) ==
                if key in old(records) && 0 < rec.version <= old(records)[key].version
                   && (old(meta)[key].ttl <= 0 || now <= old(meta)[key].storedAt + old(meta)[key].ttl)
                then old(At(key)) else Some(Entry(rec, now, ttl))
    {
      if rec.version > 0 {
        if key in records && !(meta[key].ttl > 0 && now - meta[key].storedAt > meta[key].ttl)
           && records[key].version >= rec.version {
          return;
        }
      }
      Keep(key, rec, ttl, now);
    }

    method Drop(key: Key)
      requires Valid()
      modifies this
      ensures Valid() && At(key) == None && records.Keys == old(records).Keys - {key}
      ensures forall k :: k != key ==> At(k) == old(At(k))
    {
      records, meta := records - {key}, meta - {key};
    }

    method PurgeExpiredRecords(now: int)
      requires Valid()
      modifies this
      ensures Valid()
      ensures forall k :: At(k) == PurgedSlot(old(At(k)), now)
      ensures forall k :: k in records <==>
                k in old(records) && (old(meta)[k].ttl <= 0 || now <= old(meta)[k].storedAt + old(meta)[k].ttl)
      ensures forall k :: k in records ==> At(k) == old(At(k))
    {
      var todo := records.Keys;
      while todo != {}
        invariant Valid() && todo <= records.Keys
        invariant forall k :: At(k) == if k in todo then old(At(k)) else PurgedSlot(old(At(k)), now)
        decreases todo
      {
        var key :| key in todo;
        assert At(key) == old(At(key));
        if meta[key].ttl > 0 && now - meta[key].storedAt > meta[key].ttl { Drop(key); }
        todo := todo - {key};
      }
    }
  }

  // ---------------------------------------------------------------- versions

  /**
    A write lowers the stored version exactly when it carries a lower one and either the
    stored record has expired, or it is a push without a version; a published record must
    also verify.
  */
  lemma WhenVersionDrops(e: Entry, w: Write)
    ensures var n := Written(Some(e), w);
            n.Some? && (n.value.rec.version < e.rec.version
              <==> w.rec.version < e.rec.version
                   && if w.push then Expired(e, w.now) || w.rec.version == 0 else Expired(e, w.now) && w.rec.valid)
  {
  }

  function WrittenAll(slot: Slot, ws: seq<Write>): Slot {
    if ws == [] then slot else Written(WrittenAll(slot, ws[..|ws| - 1]), ws[|ws| - 1])
  }

  /** Valid records with positive versions, at most one record per version, written before any of them expires. */
  predicate Timely(ws: seq<Write>) {
    && (forall i :: 0 <= i < |ws| ==> ws[i].rec.valid && ws[i].rec.version > 0)
    && (forall i, j :: 0 <= i < |ws| && 0 <= j < |ws| && ws[i].rec.version == ws[j].rec.version ==> ws[i].rec == ws[j].rec)
    && (forall i, j :: 0 <= i < j < |ws| && ws[i].ttl > 0 ==> ws[j].now - ws[i].now <= ws[i].ttl)
  }

  /** The slot holds one of the written records, and none of them has a higher version. */
  ghost predicate Highest(slot: Slot, ws: seq<Write>) {
    if ws == [] then slot.None?
    else
      && (exists i :: 0 <= i < |ws| && slot == Some(Entry(ws[i].rec, ws[i].now, ws[i].ttl)))
      && (forall j :: 0 <= j < |ws| ==> ws[j].rec.version <= slot.value.rec.version)
  }

  lemma {:induction false} HighestWins(ws: seq<Write>)
    requires Timely(ws)
    ensures Highest(WrittenAll(None, ws), ws)
  {
    if ws != [] {
      var front, w := ws[..|ws| - 1], ws[|ws| - 1];
      HighestWins(front);
      if front != [] {
        var slot := WrittenAll(None, front);
        var i :| 0 <= i < |front| && slot == Some(Entry(front[i].rec, front[i].now, front[i].ttl));
        assert front[i] == ws[i];
        assert !Expired(slot.value, w.now);
        assert forall j :: 0 <= j < |front| ==> front[j] == ws[j];
      }
    }
  }

  /** The stored version never decreases on the way. */
  lemma VersionsNeverDrop(ws: seq<Write>, k: nat)
    requires Timely(ws) && 0 < k <= |ws|
    ensures WrittenAll(None, ws[..k]).Some? && WrittenAll(None, ws).Some?
    ensures WrittenAll(None, ws[..k]).value.rec.version <= WrittenAll(None, ws).value.rec.version
  {
    HighestWins(ws[..k]);
    HighestWins(ws);
    var a := WrittenAll(None, ws[..k]);
    var i :| 0 <= i < k && a == Some(Entry(ws[..k][i].rec, ws[..k][i].now, ws[..k][i].ttl));
    assert ws[..k][i] == ws[i];
  }

  predicate Writes(ws: seq<Write>, rec: Signed) {
    exists i :: 0 <= i < |ws| && ws[i].rec == rec
  }

  /** Any order, any repetition and any mix of publishing and pushing leave the same record. */
  lemma OrderDoesNotMatter(a: seq<Write>, b: seq<Write>)
    requires Timely(a) && Timely(b) && a != [] && b != []
    requires forall rec :: Writes(a, rec) <==> Writes(b, rec)
    ensures WrittenAll(None, a).Some? && WrittenAll(None, b).Some?
    ensures WrittenAll(None, a).value.rec == WrittenAll(None, b).value.rec
  {
    HighestWins(a);
    HighestWins(b);
    var x, y := WrittenAll(None, a).value.rec, WrittenAll(None, b).value.rec;
    assert Writes(a, x) && Writes(b, y);
    assert Writes(b, x) && Writes(a, y);
    var i :| 0 <= i < |b| && b[i].rec == x;
    var j :| 0 <= j < |a| && a[j].rec == y;
    assert x.version == y.version;
  }

  /** From `now` on the two slots read and write the same: they are equal, or one is empty and the
      other expired. */
  predicate Alike(a: Slot, b: Slot, now: int) {
    a == b || (a.None? && b.Some? && Expired(b.value, now))
  }

  /** The writes happen at `now` or later, each no earlier than the one before. */
  predicate Later(ws: seq<Write>, now: int) {
    && (forall i :: 0 <= i < |ws| ==> now <= ws[i].now)
    && (forall i, j :: 0 <= i < j < |ws| ==> ws[i].now <= ws[j].now)
  }

  lemma WriteKeepsAlike(a: Slot, b: Slot, now: int, w: Write)
    requires Alike(a, b, now) && now <= w.now
    ensures Alike(Written(a, w), Written(b, w), w.now)
  {
  }

  lemma {:induction false} WritesKeepAlike(a: Slot, b: Slot, now: int, ws: seq<Write>)
    requires Alike(a, b, now) && Later(ws, now)
    ensures Alike(WrittenAll(a, ws), WrittenAll(b, ws), if ws == [] then now else ws[|ws| - 1].now)
    decreases |ws|
  {
    if ws != [] {
      var front, w := ws[..|ws| - 1], ws[|ws| - 1];
      assert forall i :: 0 <= i < |front| ==> front[i] == ws[i];
      WritesKeepAlike(a, b, now, front);
      WriteKeepsAlike(WrittenAll(a, front), WrittenAll(b, front), if front == [] then now else front[|front| - 1].now, w);
    }
  }

  /** A purge is never seen by any later writes and the reads after them. */
  lemma PurgeIsInvisible(slot: Slot, now: int, ws: seq<Write>, later: int)
    requires Later(ws, now) && now <= later && (ws != [] ==> ws[|ws| - 1].now <= later)
    ensures Visible(WrittenAll(PurgedSlot(slot, now), ws), later) == Visible(WrittenAll(slot, ws), later)
  {
    WritesKeepAlike(PurgedSlot(slot, now), slot, now, ws);
  }

  /** Version 2 is stored for one second; two seconds later version 1 is accepted in its place. */
  lemma ExpiryDropsVersion() returns (slot: Slot, w: Write)
    ensures slot == Some(Entry(Signed(2, 0, true), 0, 1)) && w == Write(Signed(1, 0, true), false, 1, 2)
    ensures Written(slot, w) == Some(Entry(w.rec, 2, 1)) && w.rec.version < slot.value.rec.version
  {
    slot, w := Some(Entry(Signed(2, 0, true), 0, 1)), Write(Signed(1, 0, true), false, 1, 2);
    WhenVersionDrops(slot.value, w);
  }
}
