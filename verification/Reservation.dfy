/**
  Concurrent puts and deletes on the network block store, at the grain of its
  atomic accesses: shard lock, presence check, counter load, compare-and-swap,
  block write, roll-back. Any number of threads interleave.
*/
module Reservation {
  import opened Options
  import opened StoreContents
  import opened Sums

  type Tid = nat
  type Shards = Hash -> int

  /** A put files the block in `ring` when there is one. */
  datatype Call = PutCall(hash: Hash, size: nat, ring: Option<Ring>) | DeleteCall(hash: Hash)

  /** `indexed` gives the bytes charged to a ring for each block filed there. */
  datatype Memory = Memory(maxBytes: int, quota: map<Ring, int>, used: int, count: int, stored: map<Hash, nat>,
                           ringUsed: map<Ring, int>, indexed: map<(Ring, Hash), nat>)

  /**
    Where a thread is. `missing`: it reserved aggregate bytes for a missing block;
    `target`: the ring it reserved bytes in; `cur`: the counter value it loaded, if any.
  */
  datatype Phase =
    | Idle
    | Locked(call: Call)
    | AggReserve(hash: Hash, size: nat, ring: Option<Ring>, cur: Option<int>)
    | RingCheck(hash: Hash, size: nat, ring: Option<Ring>, missing: bool)
    | RingReserve(hash: Hash, size: nat, to: Ring, missing: bool, cur: Option<int>)
    | Write(hash: Hash, size: nat, target: Option<Ring>, missing: bool)
    | UndoAgg(hash: Hash, size: nat, target: Option<Ring>, cur: Option<int>)
    | UndoRing(hash: Hash, size: nat, to: Ring, cur: Option<int>)
    | CountUp(hash: Hash, size: nat, target: Option<Ring>)
    | Index(hash: Hash, size: nat, target: Option<Ring>)
    | Deleting(hash: Hash, size: nat)
    | Subtract(hash: Hash, size: nat, cur: Option<int>)
    | CountDown(hash: Hash, cur: Option<int>)

  function HashOf(p: Phase): Hash
    requires !p.Idle?
  {
    if p.Locked? then p.call.hash else p.hash
  }

  /** One atomic step of a thread inside its call; `ok` is the fate of a block write or deletion. Idle means the lock is released. */
  function Act(m: Memory, p: Phase, ok: bool): (Memory, Phase)
    requires !p.Idle?
  {
    match p
    case Locked(PutCall(h, size, ring)) =>
      (m, if h !in m.stored then AggReserve(h, size, ring, None) else RingCheck(h, size, ring, false))
    case Locked(DeleteCall(h)) =>
      (m, if h in m.stored then Deleting(h, m.stored[h]) else Idle)
    case AggReserve(h, size, ring, None) =>
      if m.maxBytes <= 0 then (m.(used := m.used + size), RingCheck(h, size, ring, true))
      else (m, if m.used + size > m.maxBytes then Idle else AggReserve(h, size, ring, Some(m.used)))
    case AggReserve(h, size, ring, Some(cur)) =>
      if m.used == cur then (m.(used := cur + size), RingCheck(h, size, ring, true))
      else (m, AggReserve(h, size, ring, None))
    case RingCheck(h, size, ring, missing) =>
      (m, if ring.Some? && (ring.value, h) !in m.indexed then RingReserve(h, size, ring.value, missing, None)
          else Write(h, size, None, missing))
    case RingReserve(h, size, to, missing, None) =>
      var q, cur := At(m.quota, to), At(m.ringUsed, to);
      if q <= 0 then (m.(ringUsed := m.ringUsed[to := cur + size]), Write(h, size, Some(to), missing))
      else (m, if cur + size > q then (if missing then UndoAgg(h, size, None, None) else Idle)
               else RingReserve(h, size, to, missing, Some(cur)))
    case RingReserve(h, size, to, missing, Some(cur)) =>
      if At(m.ringUsed, to) == cur
      then (m.(ringUsed := m.ringUsed[to := cur + size]), Write(h, size, Some(to), missing))
      else (m, RingReserve(h, size, to, missing, None))
    case Write(h, size, target, missing) =>
      if !missing then (m, Index(h, size, target))
      else if ok then (m.(stored := m.stored[h := size]), CountUp(h, size, target))
      else (m, UndoAgg(h, size, target, None))
    case UndoAgg(h, size, target, None) => (m, UndoAgg(h, size, target, Some(m.used)))
    case UndoAgg(h, size, target, Some(cur)) =>
      if m.used != cur then (m, UndoAgg(h, size, target, None))
      else (m.(used := Clamped(cur - size)), if target.Some? then UndoRing(h, size, target.value, None) else Idle)
    case UndoRing(h, size, to, None) => (m, UndoRing(h, size, to, Some(At(m.ringUsed, to))))
    case UndoRing(h, size, to, Some(cur)) =>
      if At(m.ringUsed, to) != cur then (m, UndoRing(h, size, to, None))
      else (m.(ringUsed := m.ringUsed[to := Clamped(cur - size)]), Idle)
    case CountUp(h, size, target) => (m.(count := m.count + 1), Index(h, size, target))
    case Index(h, size, target) =>
      (if target.Some? then m.(indexed := m.indexed[(target.value, h) := size]) else m, Idle)
    case Deleting(h, size) => if ok then (m.(stored := m.stored - {h}), Subtract(h, size, None)) else (m, Idle)
    case Subtract(h, size, None) => (m, Subtract(h, size, Some(m.used)))
    case Subtract(h, size, Some(cur)) =>
      if m.used == cur then (m.(used := Clamped(cur - size)), CountDown(h, None)) else (m, Subtract(h, size, None))
    case CountDown(h, None) => (m, CountDown(h, Some(m.count)))
    case CountDown(h, Some(cur)) =>
      if m.count == cur then (m.(count := Clamped(cur - 1)), Idle) else (m, CountDown(h, None))
  }

  // ---------------------------------------------------------------- in flight

  /** Bytes in the aggregate counter that are not stored, or no longer: reserved, to be given back, or just deleted. */
  function Owed(p: Phase): nat {
    match p
    case RingCheck(_, size, _, missing) => if missing then size else 0
    case RingReserve(_, size, _, missing, _) => if missing then size else 0
    case Write(_, size, _, missing) => if missing then size else 0
    case UndoAgg(_, size, _, _) => size
    case Subtract(_, size, _) => size
    case _ => 0
  }

  /** The ring in which the thread holds a reservation not turned into an index entry yet. */
  function Target(p: Phase): Option<Ring> {
    match p
    case Write(_, _, target, _) => target
    case UndoAgg(_, _, target, _) => target
    case UndoRing(_, _, to, _) => Some(to)
    case CountUp(_, _, target) => target
    case Index(_, _, target) => target
    case _ => None
  }

  function RingOwed(p: Phase, r: Ring): nat {
    if Target(p) == Some(r) then p.size else 0
  }

  /** What the block counter still has to be moved by, negated. */
  function CountOwed(p: Phase): int {
    if p.CountUp? then -1
    else if p.Subtract? || p.CountDown? then 1
    else 0
  }

  /** The thread's block is not stored, as its next steps rely on, or no longer. */
  predicate Missing(p: Phase) {
    p.AggReserve? || ((p.RingCheck? || p.RingReserve? || p.Write?) && p.missing) || p.Subtract? || p.CountDown?
  }

  /** The thread's block is stored: it was when the thread looked, or the thread has written it. */
  predicate Present(p: Phase) {
    ((p.RingCheck? || p.RingReserve? || p.Write?) && !p.missing) || p.CountUp? || p.Index?
  }

  predicate PhaseOk(m: Memory, p: Phase) {
    && (Missing(p) ==> p.hash !in m.stored)
    && (Target(p).Some? ==> (Target(p).value, p.hash) !in m.indexed)
    && (p.RingReserve? ==> (p.to, p.hash) !in m.indexed)
    && (p.Deleting? ==> p.hash in m.stored && m.stored[p.hash] == p.size)
    && (Present(p) ==> p.hash in m.stored)
    && (p.AggReserve? && p.cur.Some? ==> p.cur.value + p.size <= m.maxBytes)
    && (p.RingReserve? && p.cur.Some? ==> p.cur.value + p.size <= At(m.quota, p.to))
  }

  ghost function StoredBytes(m: Memory): nat {
    Bytes(m.stored, m.stored.Keys)
  }

  function Charges(indexed: map<(Ring, Hash), nat>, r: Ring): map<(Ring, Hash), int> {
    map k | k in indexed && k.0 == r :: indexed[k]
  }

  // ---------------------------------------------------------------- one step

  lemma StoredGrows(stored: map<Hash, nat>, h: Hash, size: nat)
    requires h !in stored
    ensures Bytes(stored[h := size], stored[h := size].Keys) == Bytes(stored, stored.Keys) + size
  {
    var b := stored[h := size];
    assert b.Keys == stored.Keys + {h};
    BytesAdd(b, stored.Keys, h);
    BytesSame(b, stored, stored.Keys);
  }

  lemma StoredShrinks(stored: map<Hash, nat>, h: Hash)
    requires h in stored
    ensures Bytes(stored - {h}, (stored - {h}).Keys) == Bytes(stored, stored.Keys) - stored[h]
  {
    BytesRemove(stored, stored.Keys, h);
    assert (stored - {h}).Keys == stored.Keys - {h};
    BytesSame(stored, stored - {h}, stored.Keys - {h});
  }

  /** Bytes the step adds to storage. */
  function StoredDelta(p: Phase, ok: bool): int {
    if p.Write? && p.missing && ok then p.size
    else if p.Deleting? && ok then 0 - p.size
    else 0
  }

  function BlockDelta(p: Phase, ok: bool): int {
    if p.Write? && p.missing && ok then 1
    else if p.Deleting? && ok then -1
    else 0
  }

  function NewStored(m: Memory, p: Phase, ok: bool): map<Hash, nat> {
    if p.Write? && p.missing && ok then m.stored[p.hash := p.size]
    else if p.Deleting? && ok then m.stored - {p.hash}
    else m.stored
  }

  /** Bytes the step files in the ring. */
  function FiledDelta(p: Phase, r: Ring): nat {
    if p.Index? && p.target == Some(r) then p.size else 0
  }

  function NewIndexed(m: Memory, p: Phase): map<(Ring, Hash), nat> {
    if p.Index? && p.target.Some? then m.indexed[(p.target.value, p.hash) := p.size] else m.indexed
  }

  /** Before the block is written, or found to be there. */
  predicate Reserving(p: Phase) {
    p.Locked? || p.AggReserve? || p.RingCheck? || p.RingReserve?
  }

  /** What a step leaves alone. */
  predicate Frame(m: Memory, p: Phase, ok: bool, m': Memory, p': Phase)
    requires !p.Idle?
  {
    && m'.stored == NewStored(m, p, ok) && m'.indexed == NewIndexed(m, p)
    && m'.maxBytes == m.maxBytes && m'.quota == m.quota
    && (!p'.Idle? ==> HashOf(p') == HashOf(p))
  }

  lemma ReservingFrame(m: Memory, p: Phase, ok: bool)
    requires Reserving(p)
    ensures Frame(m, p, ok, Act(m, p, ok).0, Act(m, p, ok).1)
  {
  }

  lemma LaterFrame(m: Memory, p: Phase, ok: bool)
    requires !p.Idle? && !Reserving(p)
    ensures Frame(m, p, ok, Act(m, p, ok).0, Act(m, p, ok).1)
  {
  }

  lemma ReservingPhase(m: Memory, p: Phase, ok: bool)
    requires Reserving(p) && PhaseOk(m, p)
    ensures PhaseOk(Act(m, p, ok).0, Act(m, p, ok).1)
  {
  }

  lemma LaterPhase(m: Memory, p: Phase, ok: bool)
    requires !p.Idle? && !Reserving(p) && PhaseOk(m, p)
    ensures PhaseOk(Act(m, p, ok).0, Act(m, p, ok).1)
  {
  }

  /** Only the thread's own block is touched, and what its next phase relies on holds. */
  lemma ActShape(m: Memory, p: Phase, ok: bool)
    requires !p.Idle? && PhaseOk(m, p)
    ensures Frame(m, p, ok, Act(m, p, ok).0, Act(m, p, ok).1) && PhaseOk(Act(m, p, ok).0, Act(m, p, ok).1)
  {
    if Reserving(p) {
      ReservingFrame(m, p, ok);
      ReservingPhase(m, p, ok);
    } else {
      LaterFrame(m, p, ok);
      LaterPhase(m, p, ok);
    }
  }

  lemma ActStores(m: Memory, p: Phase, ok: bool)
    requires PhaseOk(m, p)
    ensures var b := NewStored(m, p, ok);
            Bytes(b, b.Keys) == StoredBytes(m) + StoredDelta(p, ok) && |b| == |m.stored| + BlockDelta(p, ok)
  {
    if p.Write? && p.missing && ok { StoredGrows(m.stored, p.hash, p.size); }
    if p.Deleting? { StoredShrinks(m.stored, p.hash); }
  }

  lemma ActFiles(m: Memory, p: Phase, r: Ring)
    requires PhaseOk(m, p)
    ensures Sum(Charges(NewIndexed(m, p), r)) == Sum(Charges(m.indexed, r)) + FiledDelta(p, r)
  {
    if p.Index? && p.target.Some? {
      var to := p.target.value;
      if to == r {
        assert Charges(NewIndexed(m, p), r) == Charges(m.indexed, r)[(to, p.hash) := p.size];
        SumUpdate(Charges(m.indexed, r), (to, p.hash), p.size);
      } else {
        assert Charges(NewIndexed(m, p), r) == Charges(m.indexed, r);
      }
    }
  }

  predicate Balances(m: Memory, p: Phase, ok: bool, m': Memory, p': Phase) {
    && m'.used - m.used == StoredDelta(p, ok) + Owed(p') - Owed(p)
    && (m.maxBytes > 0 && m.used <= m.maxBytes ==> m'.used <= m.maxBytes)
  }

  lemma ReservingBalances(m: Memory, p: Phase, ok: bool)
    requires Reserving(p) && PhaseOk(m, p) && m.used >= Owed(p)
    ensures Balances(m, p, ok, Act(m, p, ok).0, Act(m, p, ok).1)
  {
  }

  lemma LaterBalances(m: Memory, p: Phase, ok: bool)
    requires !p.Idle? && !Reserving(p) && PhaseOk(m, p) && m.used >= Owed(p)
    ensures Balances(m, p, ok, Act(m, p, ok).0, Act(m, p, ok).1)
  {
  }

  /** A step moves the aggregate counter by exactly what it moves between storage and flight. */
  lemma ActBalances(m: Memory, p: Phase, ok: bool)
    requires !p.Idle? && PhaseOk(m, p) && m.used >= Owed(p)
    ensures Balances(m, p, ok, Act(m, p, ok).0, Act(m, p, ok).1)
  {
    if Reserving(p) { ReservingBalances(m, p, ok); } else { LaterBalances(m, p, ok); }
  }

  predicate RingBalances(m: Memory, p: Phase, m': Memory, p': Phase, r: Ring) {
    && At(m'.ringUsed, r) - At(m.ringUsed, r) == FiledDelta(p, r) + RingOwed(p', r) - RingOwed(p, r)
    && (At(m.quota, r) > 0 && At(m.ringUsed, r) <= At(m.quota, r) ==> At(m'.ringUsed, r) <= At(m.quota, r))
  }

  lemma ReservingBalancesRing(m: Memory, p: Phase, ok: bool, r: Ring)
    requires Reserving(p) && PhaseOk(m, p) && At(m.ringUsed, r) >= RingOwed(p, r)
    ensures RingBalances(m, p, Act(m, p, ok).0, Act(m, p, ok).1, r)
  {
  }

  lemma LaterBalancesRing(m: Memory, p: Phase, ok: bool, r: Ring)
    requires !p.Idle? && !Reserving(p) && PhaseOk(m, p) && At(m.ringUsed, r) >= RingOwed(p, r)
    ensures RingBalances(m, p, Act(m, p, ok).0, Act(m, p, ok).1, r)
  {
  }

  /** The same for every ring counter. */
  lemma ActBalancesRing(m: Memory, p: Phase, ok: bool, r: Ring)
    requires !p.Idle? && PhaseOk(m, p) && At(m.ringUsed, r) >= RingOwed(p, r)
    ensures RingBalances(m, p, Act(m, p, ok).0, Act(m, p, ok).1, r)
  {
    if Reserving(p) { ReservingBalancesRing(m, p, ok, r); } else { LaterBalancesRing(m, p, ok, r); }
  }

  lemma ActBalancesCount(m: Memory, p: Phase, ok: bool)
    requires !p.Idle? && (p.CountDown? ==> m.count >= 1)
    ensures Act(m, p, ok).0.count - m.count == BlockDelta(p, ok) + CountOwed(Act(m, p, ok).1) - CountOwed(p)
  {
  }

  lemma OthersUntouched(m: Memory, m': Memory, p: Phase, ok: bool, q: Phase)
    requires !p.Idle? && (q.Idle? || HashOf(q) != HashOf(p)) && PhaseOk(m, q)
    requires m'.stored == NewStored(m, p, ok) && m'.indexed == NewIndexed(m, p)
    requires m'.maxBytes == m.maxBytes && m'.quota == m.quota
    ensures PhaseOk(m', q)
  {
  }

  // ---------------------------------------------------------------- all threads

  type Threads = map<Tid, Phase>

  /** `held` says which thread holds which shard lock. */
  datatype State = State(mem: Memory, threads: Threads, held: map<int, Tid>)

  datatype Choice = Begin(call: Call) | Go(ok: bool)

  predicate Enabled(s: State, t: Tid, c: Choice, shard: Shards) {
    && t in s.threads
    && match c
       case Begin(call) => s.threads[t].Idle? && shard(call.hash) !in s.held
       case Go(_) => !s.threads[t].Idle?
  }

  function Next(s: State, t: Tid, c: Choice, shard: Shards): State
    requires Enabled(s, t, c, shard)
  {
    match c
    case Begin(call) =>
      s.(threads := s.threads[t := Locked(call)], held := s.held[shard(call.hash) := t])
    case Go(ok) =>
      var p := s.threads[t];
      var (m, q) := Act(s.mem, p, ok);
      State(m, s.threads[t := q], if q.Idle? then s.held - {shard(HashOf(p))} else s.held)
  }

  function OwedBy(threads: Threads): map<Tid, int> {
    map t | t in threads :: Owed(threads[t])
  }

  function RingOwedBy(threads: Threads, r: Ring): map<Tid, int> {
    map t | t in threads :: RingOwed(threads[t], r)
  }

  function CountOwedBy(threads: Threads): map<Tid, int> {
    map t | t in threads :: CountOwed(threads[t])
  }

  predicate HoldsLock(s: State, t: Tid, shard: Shards) {
    t in s.threads && !s.threads[t].Idle? ==>
      var k := shard(HashOf(s.threads[t])); k in s.held && s.held[k] == t
  }

  predicate PhaseFits(s: State, t: Tid) {
    t in s.threads ==> PhaseOk(s.mem, s.threads[t])
  }

  /** Locks are held by the threads inside a call, and every thread's phase fits the memory. */
  ghost predicate Locking(s: State, shard: Shards) {
    && (forall t {:trigger HoldsLock(s, t, shard)} :: HoldsLock(s, t, shard))
    && (forall t {:trigger PhaseFits(s, t)} :: PhaseFits(s, t))
  }

  /** Used bytes are the stored bytes plus the bytes in flight, and within the maximum. */
  ghost predicate Aggregate(s: State) {
    && s.mem.used == StoredBytes(s.mem) + Sum(OwedBy(s.threads))
    && (s.mem.maxBytes > 0 ==> s.mem.used <= s.mem.maxBytes)
  }

  ghost predicate RingAccount(s: State, r: Ring) {
    && At(s.mem.ringUsed, r) == Sum(Charges(s.mem.indexed, r)) + Sum(RingOwedBy(s.threads, r))
    && (At(s.mem.quota, r) > 0 ==> At(s.mem.ringUsed, r) <= At(s.mem.quota, r))
  }

  ghost predicate Counted(s: State) {
    s.mem.count == |s.mem.stored| + Sum(CountOwedBy(s.threads))
  }

  ghost predicate Inv(s: State, shard: Shards) {
    && Locking(s, shard) && Aggregate(s) && Counted(s)
    && forall r {:trigger RingAccount(s, r)} :: RingAccount(s, r)
  }

  /** Distinct threads inside calls work on distinct blocks. */
  lemma DistinctBlocks(s: State, shard: Shards, t: Tid, u: Tid)
    requires Locking(s, shard) && t in s.threads && u in s.threads && t != u
    requires !s.threads[t].Idle? && !s.threads[u].Idle?
    ensures HashOf(s.threads[t]) != HashOf(s.threads[u])
  {
    assert HoldsLock(s, t, shard) && HoldsLock(s, u, shard);
  }

  lemma StepKeepsLocking(s: State, t: Tid, c: Choice, shard: Shards)
    requires Locking(s, shard) && Enabled(s, t, c, shard)
    ensures Locking(Next(s, t, c, shard), shard)
  {
    var n := Next(s, t, c, shard);
    assert PhaseFits(s, t) && HoldsLock(s, t, shard);
    if c.Go? {
      ActShape(s.mem, s.threads[t], c.ok);
    }
    forall u ensures HoldsLock(n, u, shard) && PhaseFits(n, u) {
      assert HoldsLock(s, u, shard) && PhaseFits(s, u);
      if c.Go? && u != t && u in s.threads {
        if !s.threads[u].Idle? { DistinctBlocks(s, shard, t, u); }
        OthersUntouched(s.mem, n.mem, s.threads[t], c.ok, s.threads[u]);
      }
    }
  }

  lemma UsedCoversOwed(s: State, t: Tid)
    requires Aggregate(s) && t in s.threads
    ensures s.mem.used >= Owed(s.threads[t])
  {
    SumAtLeast(OwedBy(s.threads));
    assert OwedBy(s.threads)[t] == Owed(s.threads[t]);
  }

  /** The account follows a thread's move between storage and flight. */
  lemma AggregateFollows(s: State, n: State, t: Tid)
    requires Aggregate(s) && t in s.threads && t in n.threads && n.threads == s.threads[t := n.threads[t]]
    requires n.mem.used - s.mem.used == StoredBytes(n.mem) - StoredBytes(s.mem) + Owed(n.threads[t]) - Owed(s.threads[t])
    requires n.mem.maxBytes > 0 ==> n.mem.used <= n.mem.maxBytes
    ensures Aggregate(n)
  {
    assert OwedBy(n.threads) == OwedBy(s.threads)[t := Owed(n.threads[t])];
    SumUpdate(OwedBy(s.threads), t, Owed(n.threads[t]));
    assert OwedBy(s.threads)[t] == Owed(s.threads[t]);
  }

  lemma StepKeepsAggregate(s: State, t: Tid, c: Choice, shard: Shards)
    requires Locking(s, shard) && Aggregate(s) && Enabled(s, t, c, shard)
    ensures Aggregate(Next(s, t, c, shard))
  {
    if c.Go? {
      var p := s.threads[t];
      assert PhaseFits(s, t);
      UsedCoversOwed(s, t);
      ActShape(s.mem, p, c.ok);
      ActStores(s.mem, p, c.ok);
      ActBalances(s.mem, p, c.ok);
    }
    AggregateFollows(s, Next(s, t, c, shard), t);
  }

  lemma RingCoversOwed(s: State, t: Tid, r: Ring)
    requires RingAccount(s, r) && t in s.threads
    ensures At(s.mem.ringUsed, r) >= RingOwed(s.threads[t], r)
  {
    SumAtLeast(RingOwedBy(s.threads, r));
    SumAtLeast(Charges(s.mem.indexed, r));
    assert RingOwedBy(s.threads, r)[t] == RingOwed(s.threads[t], r);
  }

  lemma RingFollows(s: State, n: State, t: Tid, r: Ring)
    requires RingAccount(s, r) && t in s.threads && t in n.threads && n.threads == s.threads[t := n.threads[t]]
    requires At(n.mem.ringUsed, r) - At(s.mem.ringUsed, r)
          == Sum(Charges(n.mem.indexed, r)) - Sum(Charges(s.mem.indexed, r))
             + RingOwed(n.threads[t], r) - RingOwed(s.threads[t], r)
    requires At(n.mem.quota, r) > 0 ==> At(n.mem.ringUsed, r) <= At(n.mem.quota, r)
    ensures RingAccount(n, r)
  {
    assert RingOwedBy(n.threads, r) == RingOwedBy(s.threads, r)[t := RingOwed(n.threads[t], r)];
    SumUpdate(RingOwedBy(s.threads, r), t, RingOwed(n.threads[t], r));
    assert RingOwedBy(s.threads, r)[t] == RingOwed(s.threads[t], r);
  }

  lemma StepKeepsRing(s: State, t: Tid, c: Choice, shard: Shards, r: Ring)
    requires Locking(s, shard) && RingAccount(s, r) && Enabled(s, t, c, shard)
    ensures RingAccount(Next(s, t, c, shard), r)
  {
    if c.Go? {
      var p := s.threads[t];
      assert PhaseFits(s, t);
      RingCoversOwed(s, t, r);
      ActShape(s.mem, p, c.ok);
      ActFiles(s.mem, p, r);
      ActBalancesRing(s.mem, p, c.ok, r);
    }
    RingFollows(s, Next(s, t, c, shard), t, r);
  }

  /** Written but uncounted blocks are distinct stored blocks, so there are no more of them than stored blocks. */
  lemma {:induction false} UncountedAreStored(threads: Threads, stored: set<Hash>)
    requires forall t :: t in threads && threads[t].CountUp? ==> threads[t].hash in stored
    requires forall t, u :: t in threads && u in threads && t != u && threads[t].CountUp? && threads[u].CountUp?
               ==> threads[t].hash != threads[u].hash
    ensures Sum(CountOwedBy(threads)) + |stored| >= 0
    decreases |threads|
  {
    if threads == map[] {
      assert CountOwedBy(threads) == map[];
    } else {
      var t :| t in threads;
      SumRemove(CountOwedBy(threads), t);
      assert CountOwedBy(threads) - {t} == CountOwedBy(threads - {t});
      UncountedAreStored(threads - {t}, if threads[t].CountUp? then stored - {threads[t].hash} else stored);
    }
  }

  /** A thread about to count a deletion finds at least one block counted. */
  lemma CountIsPositive(s: State, shard: Shards, t: Tid)
    requires Locking(s, shard) && Counted(s) && t in s.threads && s.threads[t].CountDown?
    ensures s.mem.count >= 1
  {
    var rest := s.threads - {t};
    forall u | u in rest && rest[u].CountUp? ensures rest[u].hash in s.mem.stored { assert PhaseFits(s, u); }
    forall u, v | u in rest && v in rest && u != v && rest[u].CountUp? && rest[v].CountUp?
      ensures rest[u].hash != rest[v].hash
    {
      DistinctBlocks(s, shard, u, v);
    }
    UncountedAreStored(rest, s.mem.stored.Keys);
    SumRemove(CountOwedBy(s.threads), t);
    assert CountOwedBy(s.threads) - {t} == CountOwedBy(rest);
  }

  lemma CountFollows(s: State, n: State, t: Tid)
    requires Counted(s) && t in s.threads && t in n.threads && n.threads == s.threads[t := n.threads[t]]
    requires n.mem.count - s.mem.count
          == |n.mem.stored| - |s.mem.stored| + CountOwed(n.threads[t]) - CountOwed(s.threads[t])
    ensures Counted(n)
  {
    assert CountOwedBy(n.threads) == CountOwedBy(s.threads)[t := CountOwed(n.threads[t])];
    SumUpdate(CountOwedBy(s.threads), t, CountOwed(n.threads[t]));
    assert CountOwedBy(s.threads)[t] == CountOwed(s.threads[t]);
  }

  lemma StepKeepsCount(s: State, t: Tid, c: Choice, shard: Shards)
    requires Locking(s, shard) && Counted(s) && Enabled(s, t, c, shard)
    ensures Counted(Next(s, t, c, shard))
  {
    if c.Go? {
      var p := s.threads[t];
      assert PhaseFits(s, t);
      if p.CountDown? { CountIsPositive(s, shard, t); }
      ActShape(s.mem, p, c.ok);
      ActStores(s.mem, p, c.ok);
      ActBalancesCount(s.mem, p, c.ok);
    }
    CountFollows(s, Next(s, t, c, shard), t);
  }

  /** Every step of every thread keeps the accounts. */
  lemma StepKeepsInv(s: State, t: Tid, c: Choice, shard: Shards)
    requires Inv(s, shard) && Enabled(s, t, c, shard)
    ensures Inv(Next(s, t, c, shard), shard)
  {
    StepKeepsLocking(s, t, c, shard);
    StepKeepsAggregate(s, t, c, shard);
    StepKeepsCount(s, t, c, shard);
    forall r ensures RingAccount(Next(s, t, c, shard), r) {
      assert RingAccount(s, r);
      StepKeepsRing(s, t, c, shard, r);
    }
  }

  // ---------------------------------------------------------------- interleavings

  ghost predicate IsRun(s: State, steps: seq<(Tid, Choice)>, shard: Shards)
    decreases |steps|
  {
    steps != [] ==>
      Enabled(s, steps[0].0, steps[0].1, shard) && IsRun(Next(s, steps[0].0, steps[0].1, shard), steps[1..], shard)
  }

  ghost function RunFrom(s: State, steps: seq<(Tid, Choice)>, shard: Shards): State
    requires IsRun(s, steps, shard)
    decreases |steps|
  {
    if steps == [] then s else RunFrom(Next(s, steps[0].0, steps[0].1, shard), steps[1..], shard)
  }

  /**
    In every interleaving, from an idle store with exact counters: used bytes are
    stored bytes plus bytes in flight and never above the maximum; so for each ring.
  */
  lemma {:induction false} InterleavingsKeepAccounts(s: State, steps: seq<(Tid, Choice)>, shard: Shards)
    requires Inv(s, shard) && IsRun(s, steps, shard)
    ensures Inv(RunFrom(s, steps, shard), shard)
    decreases |steps|
  {
    if steps != [] {
      StepKeepsInv(s, steps[0].0, steps[0].1, shard);
      InterleavingsKeepAccounts(Next(s, steps[0].0, steps[0].1, shard), steps[1..], shard);
    }
  }

  // ---------------------------------------------------------------- what a call achieves

  /** A step that keeps a put from its goal: no room when it looked, or a failed write. */
  predicate Deterred(m: Memory, p: Phase, ok: bool) {
    || (p.AggReserve? && p.cur.None? && 0 < m.maxBytes < m.used + p.size)
    || (p.RingReserve? && p.cur.None? && 0 < At(m.quota, p.to) < At(m.ringUsed, p.to) + p.size)
    || (p.Write? && p.missing && !ok)
    || (p.Deleting? && !ok)
  }

  predicate FiledIn(m: Memory, h: Hash, ring: Option<Ring>) {
    ring.Some? ==> (ring.value, h) in m.indexed
  }

  /** A thread that carries out the call and is on its way to the goal; there when it is idle again. */
  predicate Pursues(m: Memory, p: Phase, call: Call) {
    match call
    case PutCall(h, size, ring) =>
      (match p
       case Idle => h in m.stored && FiledIn(m, h, ring)
       case Locked(c) => c == call
       case AggReserve(x, n, r, _) => x == h && n == size && r == ring
       case RingCheck(x, n, r, _) => x == h && n == size && r == ring
       case RingReserve(x, n, to, _, _) => x == h && n == size && Some(to) == ring
       case Write(x, n, target, _) => x == h && n == size && (target == ring || FiledIn(m, h, ring))
       case CountUp(x, n, target) => x == h && n == size && (target == ring || FiledIn(m, h, ring))
       case Index(x, n, target) => x == h && n == size && (target == ring || FiledIn(m, h, ring))
       case _ => false)
    case DeleteCall(h) =>
      (match p
       case Idle => h !in m.stored
       case Locked(c) => c == call
       case Deleting(x, _) => x == h
       case Subtract(x, _, _) => x == h
       case CountDown(x, _) => x == h
       case _ => false)
  }

  lemma ReservingPursues(m: Memory, p: Phase, ok: bool, call: Call)
    requires Reserving(p) && PhaseOk(m, p) && Pursues(m, p, call) && !Deterred(m, p, ok)
    ensures Pursues(Act(m, p, ok).0, Act(m, p, ok).1, call)
  {
  }

  lemma LaterPursues(m: Memory, p: Phase, ok: bool, call: Call)
    requires !p.Idle? && !Reserving(p) && PhaseOk(m, p) && Pursues(m, p, call) && !Deterred(m, p, ok)
    ensures Pursues(Act(m, p, ok).0, Act(m, p, ok).1, call)
  {
  }

  /** Giving reservations back, or done. */
  predicate Retreating(p: Phase) {
    p.Idle? || p.UndoAgg? || p.UndoRing?
  }

  /** A deterred call changes nothing at that step, and from then on stores, deletes and files nothing. */
  lemma DeterredRetreats(m: Memory, p: Phase, ok: bool)
    requires !p.Idle?
    ensures Deterred(m, p, ok) ==> Act(m, p, ok).0 == m && Retreating(Act(m, p, ok).1)
    ensures Retreating(p) ==>
              var (m', p') := Act(m, p, ok);
              Retreating(p') && m'.stored == m.stored && m'.indexed == m.indexed && m'.count == m.count
  {
  }

  /** Until the thread's call returns, no step of it is deterred; the others may do anything. */
  ghost predicate Undeterred(s: State, steps: seq<(Tid, Choice)>, shard: Shards, t: Tid)
    requires IsRun(s, steps, shard)
    decreases |steps|
  {
    steps != [] ==>
      var n := Next(s, steps[0].0, steps[0].1, shard);
      && t in s.threads && !s.threads[t].Idle?
      && (steps[0].0 == t && steps[0].1.Go? ==> !Deterred(s.mem, s.threads[t], steps[0].1.ok))
      && Undeterred(n, steps[1..], shard, t)
  }

  lemma StepPursues(s: State, u: Tid, c: Choice, shard: Shards, t: Tid, call: Call)
    requires Locking(s, shard) && Enabled(s, u, c, shard) && t in s.threads && !s.threads[t].Idle?
    requires Pursues(s.mem, s.threads[t], call) && (u == t && c.Go? ==> !Deterred(s.mem, s.threads[t], c.ok))
    ensures t in Next(s, u, c, shard).threads
    ensures Pursues(Next(s, u, c, shard).mem, Next(s, u, c, shard).threads[t], call)
  {
    assert PhaseFits(s, u);
    if c.Go? {
      ActShape(s.mem, s.threads[u], c.ok);
      if u == t {
        if Reserving(s.threads[t]) {
          ReservingPursues(s.mem, s.threads[t], c.ok, call);
        } else {
          LaterPursues(s.mem, s.threads[t], c.ok, call);
        }
      }
    }
  }

  /** In every interleaving: when a call returns that found room whenever it looked, and whose write or
      deletion did not fail, a put has its block stored and filed and a delete has its block gone. */
  lemma {:induction false} CallArrives(s: State, steps: seq<(Tid, Choice)>, shard: Shards, t: Tid, call: Call)
    requires Inv(s, shard) && IsRun(s, steps, shard) && Undeterred(s, steps, shard, t)
    requires t in s.threads && Pursues(s.mem, s.threads[t], call)
    ensures var n := RunFrom(s, steps, shard);
            t in n.threads && Pursues(n.mem, n.threads[t], call)
    decreases |steps|
  {
    if steps != [] {
      StepKeepsInv(s, steps[0].0, steps[0].1, shard);
      StepPursues(s, steps[0].0, steps[0].1, shard, t, call);
      CallArrives(Next(s, steps[0].0, steps[0].1, shard), steps[1..], shard, t, call);
    }
  }

  /** The same from the moment the call takes its lock, told in terms of what is stored. */
  lemma ReturnedCall(s: State, steps: seq<(Tid, Choice)>, shard: Shards, t: Tid, call: Call)
    requires Inv(s, shard) && Enabled(s, t, Begin(call), shard)
    requires var s1 := Next(s, t, Begin(call), shard); IsRun(s1, steps, shard) && Undeterred(s1, steps, shard, t)
    ensures var n := RunFrom(Next(s, t, Begin(call), shard), steps, shard);
            && t in n.threads
            && (n.threads[t].Idle? ==>
                  if call.PutCall?
                  then call.hash in n.mem.stored && (call.ring.Some? ==> (call.ring.value, call.hash) in n.mem.indexed)
                  else call.hash !in n.mem.stored)
  {
    StepKeepsInv(s, t, Begin(call), shard);
    CallArrives(Next(s, t, Begin(call), shard), steps, shard, t, call);
  }

  /** Once every call has returned, the counters are exactly the sums over what is stored and filed. */
  lemma QuiescentIsExact(s: State, shard: Shards, r: Ring)
    requires Inv(s, shard) && forall t :: t in s.threads ==> s.threads[t].Idle?
    ensures s.mem.used == StoredBytes(s.mem) && s.mem.count == |s.mem.stored|
    ensures At(s.mem.ringUsed, r) == Sum(Charges(s.mem.indexed, r))
  {
    assert RingAccount(s, r);
    AllZero(OwedBy(s.threads));
    AllZero(CountOwedBy(s.threads));
    AllZero(RingOwedBy(s.threads, r));
  }

  /** The store between calls: counters exact and within their limits, no lock held. */
  ghost predicate AtRest(s: State) {
    && (forall t :: t in s.threads ==> s.threads[t].Idle?) && s.held == map[]
    && s.mem.used == StoredBytes(s.mem) && s.mem.count == |s.mem.stored|
    && (s.mem.maxBytes > 0 ==> s.mem.used <= s.mem.maxBytes)
    && forall r :: && At(s.mem.ringUsed, r) == Sum(Charges(s.mem.indexed, r))
                   && (At(s.mem.quota, r) > 0 ==> At(s.mem.ringUsed, r) <= At(s.mem.quota, r))
  }

  lemma RestIsBalanced(s: State, shard: Shards)
    requires AtRest(s)
    ensures Inv(s, shard)
  {
    AllZero(OwedBy(s.threads));
    AllZero(CountOwedBy(s.threads));
    forall r ensures RingAccount(s, r) { AllZero(RingOwedBy(s.threads, r)); }
  }

  lemma {:induction false} AllZero(m: map<Tid, int>)
    requires forall t :: t in m ==> m[t] == 0
    ensures Sum(m) == 0
    decreases |m|
  {
    if m != map[] {
      var t :| t in m;
      SumRemove(m, t);
      AllZero(m - {t});
    }
  }
}
