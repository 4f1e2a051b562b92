/**
  Optimistic updates of a group's member record. Any number of agents run the
  add and remove loops: look the record up, rebuild the member list, publish the
  next version; the responsible node accepts only a higher version than it stores,
  and any version once the stored record has expired.
*/
module GroupRecord {
  import opened Options

  type Peer = nat
  type Agent = nat

  const MAX_RETRIES: nat := 5
  const VERSIONS: nat := 0x1_0000_0000_0000_0000

  /** One accepted update: `peer` added or removed itself. */
  datatype Update = Update(peer: Peer, add: bool)

  /** `past` keeps the updates the record was built from; no step reads it. */
  datatype Record = Record(version: nat, members: seq<Peer>, past: seq<Update>)

  datatype Activity =
    | Resting
    | Looking(update: Update, attempt: nat)
    | Publishing(update: Update, attempt: nat, base: Record)
    | Caching(peer: Peer, rec: Record)

  /** `log` keeps every accepted update in order; no step reads it. */
  datatype World = World(stored: Option<Record>, cache: map<Peer, Record>, agents: map<Agent, Activity>,
                         log: seq<Update>)

  // ---------------------------------------------------------------- member lists

  function Without(members: seq<Peer>, p: Peer): seq<Peer> {
    if members == [] then []
    else if members[0] == p then Without(members[1..], p)
    else [members[0]] + Without(members[1..], p)
  }

  /** The member list a publisher builds. */
  function Rebuilt(members: seq<Peer>, u: Update): seq<Peer> {
    Without(members, u.peer) + if u.add then [u.peer] else []
  }

  predicate NoDuplicates(members: seq<Peer>) {
    forall i, j :: 0 <= i < j < |members| ==> members[i] != members[j]
  }

  lemma {:induction false} WithoutKeeps(members: seq<Peer>, p: Peer)
    ensures forall q :: q in Without(members, p) <==> q in members && q != p
    ensures NoDuplicates(members) ==> NoDuplicates(Without(members, p))
  {
    if members != [] {
      var rest := members[1..];
      WithoutKeeps(rest, p);
      assert forall q :: q in members <==> q == members[0] || q in rest;
      if NoDuplicates(members) {
        assert forall j :: 0 <= j < |rest| ==> rest[j] == members[j + 1];
        assert NoDuplicates(rest) && members[0] !in rest;
      }
    }
  }

  /** The rebuilt list is the old set plus or minus exactly the publisher, without duplicates. */
  lemma RebuiltIsExact(members: seq<Peer>, u: Update)
    ensures forall q :: q in Rebuilt(members, u) <==> if q == u.peer then u.add else q in members
    ensures NoDuplicates(members) ==> NoDuplicates(Rebuilt(members, u))
  {
    WithoutKeeps(members, u.peer);
    var rest := Without(members, u.peer);
    assert forall i :: 0 <= i < |rest| ==> rest[i] in rest;
  }

  lemma {:induction false} WithoutLast(members: seq<Peer>, m: Peer, p: Peer)
    ensures Without(members + [m], p) == Without(members, p) + if m == p then [] else [m]
  {
    if members == [] {
      assert members + [m] == [m];
    } else {
      assert (members + [m])[1..] == members[1..] + [m];
      WithoutLast(members[1..], m, p);
    }
  }

  /** The loop that builds the list. */
  method BuildMembers(members: seq<Peer>, u: Update) returns (out: seq<Peer>)
    ensures out == Rebuilt(members, u)
    ensures forall q :: q in out <==> if q == u.peer then u.add else q in members
  {
    out := [];
    for i := 0 to |members|
      invariant out == Without(members[..i], u.peer)
    {
      assert members[..i + 1] == members[..i] + [members[i]];
      WithoutLast(members[..i], members[i], u.peer);
      if members[i] != u.peer { out := out + [members[i]]; }
    }
    assert members[..|members|] == members;
    if u.add { out := out + [u.peer]; }
    RebuiltIsExact(members, u);
  }

  // ---------------------------------------------------------------- steps

  /** What happens to a published record: it arrives and the answer returns, only arrives, or neither. */
  datatype Fate = Answered | AnswerLost | NeverArrives

  datatype Step =
    | Begin(a: Agent, u: Update)
    | LookUp(a: Agent, found: bool)
    | Publish(a: Agent, fate: Fate)
    | Save(a: Agent, ok: bool)
    | Abort(a: Agent)
    | Expire

  predicate Enabled(w: World, step: Step) {
    && (!step.Expire? ==> step.a in w.agents)
    && match step
       case Expire => w.stored.Some?
       case Begin(a, _) => w.agents[a].Resting?
       case LookUp(a, found) => w.agents[a].Looking? && (found ==> w.stored.Some?)
       case Publish(a, _) => w.agents[a].Publishing?
       case Save(a, _) => w.agents[a].Caching?
       case Abort(a) => w.agents[a].Looking? || w.agents[a].Publishing?
  }

  /** Versions are 64 bits wide and wrap to zero. */
  function NextVersion(v: nat): nat {
    if v + 1 < VERSIONS then v + 1 else 0
  }

  function Published(p: Activity): Record
    requires p.Publishing?
  {
    Record(NextVersion(p.base.version), Rebuilt(p.base.members, p.update), p.base.past + [p.update])
  }

  /** The responsible node's version check; an expired record is as good as none. */
  predicate Accepts(stored: Option<Record>, version: nat) {
    stored.None? || stored.value.version < version
  }

  function Accepted(w: World, p: Activity): World
    requires p.Publishing?
  {
    w.(stored := Some(Published(p)), log := w.log + [p.update])
  }

  /** Where a failed lookup leaves an agent: adding falls back on the cache, removing gives up. */
  function NotFound(w: World, p: Activity): Activity
    requires p.Looking?
  {
    if !p.update.add then Resting
    else if p.update.peer in w.cache then Publishing(p.update, p.attempt, w.cache[p.update.peer])
    else Publishing(p.update, p.attempt, Record(0, [], []))
  }

  function Conflicted(p: Activity): Activity
    requires p.Publishing?
  {
    if p.attempt + 1 < MAX_RETRIES then Looking(p.update, p.attempt + 1) else Resting
  }

  function With(w: World, a: Agent, p: Activity): World {
    w.(agents := w.agents[a := p])
  }

  function Next(w: World, step: Step): World
    requires Enabled(w, step)
  {
    match step
    case Begin(a, u) => With(w, a, Looking(u, 0))
    case LookUp(a, found) =>
      var p := w.agents[a];
      With(w, a, if found then Publishing(p.update, p.attempt, w.stored.value) else NotFound(w, p))
    case Publish(a, fate) =>
      var p := w.agents[a];
      if fate.NeverArrives? then With(w, a, Resting)
      else if !Accepts(w.stored, Published(p).version) then With(w, a, if fate.Answered? then Conflicted(p) else Resting)
      else With(Accepted(w, p), a,
                if fate.Answered? && p.update.add then Caching(p.update.peer, Published(p)) else Resting)
    case Save(a, ok) =>
      var p := w.agents[a];
      With(if ok then w.(cache := w.cache[p.peer := p.rec]) else w, a, Resting)
    case Abort(a) => With(w, a, Resting)
    case Expire => w.(stored := None)
  }

  /** The step stores a record. */
  predicate Accepting(w: World, step: Step)
    requires Enabled(w, step)
  {
    step.Publish? && !step.fate.NeverArrives? && Accepts(w.stored, Published(w.agents[step.a]).version)
  }

  predicate Fresh(w: World) {
    && w.stored.None? && w.cache == map[] && w.log == []
    && forall a :: a in w.agents ==> w.agents[a].Resting?
  }

  // ---------------------------------------------------------------- invariant

  /** The members after the given updates. */
  function Replay(log: seq<Update>): set<Peer> {
    if log == [] then {}
    else
      var u := log[|log| - 1];
      Replay(log[..|log| - 1]) - {u.peer} + if u.add then {u.peer} else {}
  }

  /** The member list the given updates build. */
  function Built(past: seq<Update>): seq<Peer> {
    if past == [] then [] else Rebuilt(Built(past[..|past| - 1]), past[|past| - 1])
  }

  lemma {:induction false} BuiltIsReplay(past: seq<Update>)
    ensures forall q {:trigger q in Replay(past)} :: q in Built(past) <==> q in Replay(past)
    ensures NoDuplicates(Built(past))
  {
    if past != [] {
      var front, u := past[..|past| - 1], past[|past| - 1];
      BuiltIsReplay(front);
      RebuiltIsExact(Built(front), u);
      forall q ensures q in Built(past) <==> q in Replay(past) { assert q in Built(front) <==> q in Replay(front); }
    }
  }

  /** The version of the record built by k updates. */
  function VersionOf(k: nat): (v: nat)
    ensures k < VERSIONS ==> v == k
  {
    k % VERSIONS
  }

  lemma NextVersionOf(k: nat)
    ensures NextVersion(VersionOf(k)) == VersionOf(k + 1)
  {
    var q, r := k / VERSIONS, k % VERSIONS;
    assert k == q * VERSIONS + r;
    if r + 1 == VERSIONS {
      assert k + 1 == (q + 1) * VERSIONS;
      assert (k + 1) % VERSIONS == 0;
    } else {
      assert (k + 1) % VERSIONS == r + 1;
    }
  }

  /** A record is what its past builds; on an undisturbed log, the past begins the log. */
  predicate Sound(r: Record, log: seq<Update>, undisturbed: bool) {
    && r.version == VersionOf(|r.past|) && r.members == Built(r.past)
    && (undisturbed ==> r.past <= log)
  }

  predicate AgentOk(w: World, a: Agent, undisturbed: bool) {
    a in w.agents ==>
      && (w.agents[a].Looking? || w.agents[a].Publishing? ==> w.agents[a].attempt < MAX_RETRIES)
      && (w.agents[a].Publishing? ==> Sound(w.agents[a].base, w.log, undisturbed))
      && (w.agents[a].Caching? ==> Sound(w.agents[a].rec, w.log, undisturbed))
  }

  predicate CacheOk(w: World, p: Peer, undisturbed: bool) {
    p in w.cache ==> Sound(w.cache[p], w.log, undisturbed)
  }

  function Members(w: World): seq<Peer> {
    if w.stored.Some? then w.stored.value.members else []
  }

  predicate StoredOk(w: World, undisturbed: bool) {
    && (w.stored.Some? ==> Sound(w.stored.value, w.log, undisturbed))
    && (undisturbed ==> |w.log| < VERSIONS && (w.stored.Some? ==> w.stored.value.past == w.log))
  }

  /** Every record in sight is what its past builds. While undisturbed, that is until a record is
      accepted in place of an expired one, all pasts begin the log and the stored one is all of it. */
  ghost predicate Inv(w: World, undisturbed: bool) {
    && StoredOk(w, undisturbed)
    && (forall a {:trigger AgentOk(w, a, undisturbed)} :: AgentOk(w, a, undisturbed))
    && (forall p {:trigger CacheOk(w, p, undisturbed)} :: CacheOk(w, p, undisturbed))
  }

  /** Nothing was ever accepted, or what was is still stored. */
  predicate Unexpired(w: World) {
    w.stored.Some? || w.log == []
  }

  /** An accepted record was built on the stored one. */
  lemma BuiltOnStored(w: World, a: Agent)
    requires Inv(w, true) && Unexpired(w) && a in w.agents && w.agents[a].Publishing?
    requires Accepts(w.stored, Published(w.agents[a]).version)
    ensures w.agents[a].base.past == w.log && w.agents[a].base.members == Members(w)
    ensures Published(w.agents[a]).version == |w.log| + 1 < VERSIONS
  {
    assert AgentOk(w, a, true);
    NextVersionOf(|w.agents[a].base.past|);
  }

  /** No update is lost: each accepted record is the stored member list plus or minus exactly its publisher. */
  lemma AcceptedIsExact(w: World, a: Agent, fate: Fate)
    requires Inv(w, true) && Unexpired(w) && Enabled(w, Publish(a, fate)) && Accepting(w, Publish(a, fate))
    ensures var n, u := Next(w, Publish(a, fate)), w.agents[a].update;
            && n.stored == Some(Published(w.agents[a])) && n.log == w.log + [u]
            && NoDuplicates(Members(n))
            && forall q :: q in Members(n) <==> if q == u.peer then u.add else q in Members(w)
  {
    BuiltOnStored(w, a);
    BuiltIsReplay(w.log);
    RebuiltIsExact(Members(w), w.agents[a].update);
  }

  lemma PublishedIsSound(p: Activity, log: seq<Update>)
    requires p.Publishing? && Sound(p.base, log, false)
    ensures Sound(Published(p), log, false)
  {
    NextVersionOf(|p.base.past|);
    var past := p.base.past + [p.update];
    assert past[..|past| - 1] == p.base.past;
  }

  lemma AcceptKeepsInv(w: World, a: Agent, undisturbed: bool)
    requires Inv(w, undisturbed) && (undisturbed ==> Unexpired(w)) && a in w.agents && w.agents[a].Publishing?
    requires Accepts(w.stored, Published(w.agents[a]).version)
    ensures Inv(Accepted(w, w.agents[a]), undisturbed)
  {
    var n := Accepted(w, w.agents[a]);
    assert AgentOk(w, a, undisturbed);
    PublishedIsSound(w.agents[a], w.log);
    if undisturbed { BuiltOnStored(w, a); }
    forall b ensures AgentOk(n, b, undisturbed) { assert AgentOk(w, b, undisturbed); }
    forall q ensures CacheOk(n, q, undisturbed) { assert CacheOk(w, q, undisturbed); }
  }

  lemma ActivityKeepsInv(w: World, a: Agent, p: Activity, undisturbed: bool)
    requires Inv(w, undisturbed) && AgentOk(With(w, a, p), a, undisturbed)
    ensures Inv(With(w, a, p), undisturbed)
  {
    var n := With(w, a, p);
    forall b ensures AgentOk(n, b, undisturbed) { assert AgentOk(w, b, undisturbed); }
    forall q ensures CacheOk(n, q, undisturbed) { assert CacheOk(w, q, undisturbed); }
  }

  lemma PublishKeepsInv(w: World, a: Agent, fate: Fate, undisturbed: bool)
    requires Inv(w, undisturbed) && Enabled(w, Publish(a, fate))
    requires undisturbed && Accepting(w, Publish(a, fate)) ==> Unexpired(w)
    ensures Inv(Next(w, Publish(a, fate)), undisturbed)
  {
    var n := Next(w, Publish(a, fate));
    assert AgentOk(w, a, undisturbed);
    if Accepting(w, Publish(a, fate)) {
      AcceptKeepsInv(w, a, undisturbed);
      ActivityKeepsInv(Accepted(w, w.agents[a]), a, n.agents[a], undisturbed);
    } else {
      ActivityKeepsInv(w, a, n.agents[a], undisturbed);
    }
  }

  lemma SaveKeepsInv(w: World, a: Agent, ok: bool, undisturbed: bool)
    requires Inv(w, undisturbed) && Enabled(w, Save(a, ok))
    ensures Inv(Next(w, Save(a, ok)), undisturbed)
  {
    assert AgentOk(w, a, undisturbed);
    var n := if ok then w.(cache := w.cache[w.agents[a].peer := w.agents[a].rec]) else w;
    forall b ensures AgentOk(n, b, undisturbed) { assert AgentOk(w, b, undisturbed); }
    forall q ensures CacheOk(n, q, undisturbed) { assert CacheOk(w, q, undisturbed); }
    ActivityKeepsInv(n, a, Resting, undisturbed);
  }

  lemma StepKeepsInv(w: World, step: Step, undisturbed: bool)
    requires Inv(w, undisturbed) && Enabled(w, step)
    requires undisturbed && Accepting(w, step) ==> Unexpired(w)
    ensures Inv(Next(w, step), undisturbed)
  {
    match step
    case Expire =>
      var n := Next(w, step);
      forall b ensures AgentOk(n, b, undisturbed) { assert AgentOk(w, b, undisturbed); }
      forall q ensures CacheOk(n, q, undisturbed) { assert CacheOk(w, q, undisturbed); }
    case Publish(a, fate) => PublishKeepsInv(w, a, fate, undisturbed);
    case Save(a, ok) => SaveKeepsInv(w, a, ok, undisturbed);
    case LookUp(a, found) =>
      assert AgentOk(w, a, undisturbed);
      assert CacheOk(w, w.agents[a].update.peer, undisturbed);
      ActivityKeepsInv(w, a, Next(w, step).agents[a], undisturbed);
    case _ => ActivityKeepsInv(w, step.a, Next(w, step).agents[step.a], undisturbed);
  }

  // ---------------------------------------------------------------- interleavings

  ghost predicate IsRun(w: World, steps: seq<Step>)
    decreases |steps|
  {
    steps != [] ==> Enabled(w, steps[0]) && IsRun(Next(w, steps[0]), steps[1..])
  }

  ghost function RunFrom(w: World, steps: seq<Step>): World
    requires IsRun(w, steps)
    decreases |steps|
  {
    if steps == [] then w else RunFrom(Next(w, steps[0]), steps[1..])
  }

  /** No record is accepted in place of an expired one. */
  ghost predicate Undisturbed(w: World, steps: seq<Step>)
    requires IsRun(w, steps)
    decreases |steps|
  {
    steps != [] ==> (Accepting(w, steps[0]) ==> Unexpired(w)) && Undisturbed(Next(w, steps[0]), steps[1..])
  }

  lemma {:induction false} RunKeepsInv(w: World, steps: seq<Step>, undisturbed: bool)
    requires Inv(w, undisturbed) && IsRun(w, steps) && (undisturbed ==> Undisturbed(w, steps))
    ensures Inv(RunFrom(w, steps), undisturbed)
    decreases |steps|
  {
    if steps != [] {
      StepKeepsInv(w, steps[0], undisturbed);
      RunKeepsInv(Next(w, steps[0]), steps[1..], undisturbed);
    }
  }

  lemma FreshIsInv(w: World)
    requires Fresh(w)
    ensures Inv(w, true) && Inv(w, false)
  {
    forall a ensures AgentOk(w, a, true) && AgentOk(w, a, false) {}
    forall q ensures CacheOk(w, q, true) && CacheOk(w, q, false) {}
  }

  /** A run in which nothing expires. */
  predicate NoExpiry(steps: seq<Step>) {
    Expire !in steps
  }

  lemma {:induction false} NoExpiryIsUndisturbed(w: World, steps: seq<Step>)
    requires IsRun(w, steps) && Unexpired(w) && NoExpiry(steps)
    ensures Undisturbed(w, steps) && Unexpired(RunFrom(w, steps))
    decreases |steps|
  {
    if steps != [] {
      assert steps[0] in steps;
      NoExpiryIsUndisturbed(Next(w, steps[0]), steps[1..]);
    }
  }

  /** log[i] adds p and no later update is p's. */
  predicate AddsLast(log: seq<Update>, p: Peer, i: nat) {
    i < |log| && log[i] == Update(p, true) && forall j :: i < j < |log| ==> log[j].peer != p
  }

  /** The last accepted update of p, if any, was an addition. */
  ghost predicate LastAdds(log: seq<Update>, p: Peer) {
    exists i :: AddsLast(log, p, i)
  }

  lemma LastAddsStep(log: seq<Update>, u: Update, p: Peer)
    ensures LastAdds(log + [u], p) <==> if u.peer == p then u.add else LastAdds(log, p)
  {
    var all, n := log + [u], |log|;
    if u.peer == p {
      assert all[n] == u && (u.add ==> AddsLast(all, p, n));
      forall i: nat | i < n ensures !AddsLast(all, p, i) { assert all[n].peer == p; }
    } else {
      forall i: nat ensures AddsLast(all, p, i) <==> AddsLast(log, p, i) {
        assert i < n ==> all[i] == log[i];
        assert forall j :: i < j < n ==> all[j] == log[j];
      }
    }
  }

  lemma {:induction false} ReplayIsLast(log: seq<Update>, p: Peer)
    ensures p in Replay(log) <==> LastAdds(log, p)
  {
    if log != [] {
      var front, u := log[..|log| - 1], log[|log| - 1];
      assert log == front + [u];
      ReplayIsLast(front, p);
      LastAddsStep(front, u, p);
    }
  }

  /** In every interleaving without expiry the stored members are exactly the peers whose last
      accepted update was an addition, each once. */
  lemma NoLostUpdates(w: World, steps: seq<Step>, p: Peer)
    requires Fresh(w) && IsRun(w, steps) && NoExpiry(steps)
    ensures p in Members(RunFrom(w, steps)) <==> LastAdds(RunFrom(w, steps).log, p)
    ensures NoDuplicates(Members(RunFrom(w, steps)))
  {
    FreshIsInv(w);
    NoExpiryIsUndisturbed(w, steps);
    RunKeepsInv(w, steps, true);
    var n := RunFrom(w, steps);
    BuiltIsReplay(n.log);
    assert p in Built(n.log) <==> p in Replay(n.log);
    ReplayIsLast(n.log, p);
  }

  // ---------------------------------------------------------------- expiry

  /** The stored members are those of all updates ever accepted. */
  ghost predicate NothingLost(w: World) {
    forall q {:trigger q in Replay(w.log)} :: q in Members(w) <==> q in Replay(w.log)
  }

  /** Two lists of updates leave everyone but p with the same membership. */
  ghost predicate AgreeOff(a: seq<Update>, b: seq<Update>, p: Peer) {
    forall q {:trigger q in Replay(a)} :: q != p ==> (q in Replay(a) <==> q in Replay(b))
  }

  lemma ReplaySnoc(log: seq<Update>, u: Update, q: Peer)
    ensures q in Replay(log + [u]) <==> if q == u.peer then u.add else q in Replay(log)
  {
    assert (log + [u])[..|log|] == log;
  }

  /** In every run, expiry or not, an accepted record is the replay of its base's past and the update;
      it loses nothing if and only if that past and the log agree on everyone but the publisher. */
  lemma AcceptedReplays(w: World, a: Agent, fate: Fate)
    requires Inv(w, false) && Enabled(w, Publish(a, fate)) && Accepting(w, Publish(a, fate))
    ensures var n, u, base := Next(w, Publish(a, fate)), w.agents[a].update, w.agents[a].base;
            && n.stored.Some? && n.stored.value.past == base.past + [u] && n.log == w.log + [u]
            && (forall q {:trigger q in Replay(base.past + [u])} :: q in Members(n) <==> q in Replay(base.past + [u]))
            && NoDuplicates(Members(n))
            && (NothingLost(n) <==> AgreeOff(base.past, w.log, u.peer))
  {
    var n, u, base := Next(w, Publish(a, fate)), w.agents[a].update, w.agents[a].base;
    assert AgentOk(w, a, false);
    PublishedIsSound(w.agents[a], w.log);
    BuiltIsReplay(base.past + [u]);
    forall q ensures (q in Members(n) <==> q in Replay(base.past + [u])) {
      assert q in Built(base.past + [u]) <==> q in Replay(base.past + [u]);
    }
    forall q
      ensures (q in Members(n) <==> q in Replay(n.log)) <==>
                q == u.peer || (q in Replay(base.past) <==> q in Replay(w.log))
    {
      ReplaySnoc(base.past, u, q);
      ReplaySnoc(w.log, u, q);
    }
  }

  /** The first record accepted in place of an expired one is the replay of the log up to its base's
      version and the update; it loses nothing if and only if the updates after that version change
      the membership of nobody but the publisher. */
  lemma AfterExpiry(w: World, a: Agent, fate: Fate)
    requires Inv(w, true) && Enabled(w, Publish(a, fate)) && Accepting(w, Publish(a, fate))
    ensures var n, u, v := Next(w, Publish(a, fate)), w.agents[a].update, w.agents[a].base.version;
            && v <= |w.log| && n.stored.Some? && n.stored.value.past == w.log[..v] + [u]
            && (forall q {:trigger q in Replay(w.log[..v] + [u])} ::
                  q in Members(n) <==> q in Replay(w.log[..v] + [u]))
            && (NothingLost(n) <==> AgreeOff(w.log[..v], w.log, u.peer))
  {
    assert AgentOk(w, a, true);
    assert w.agents[a].base.past == w.log[..w.agents[a].base.version];
    LaxInv(w);
    AcceptedReplays(w, a, fate);
  }

  lemma LaxInv(w: World)
    requires Inv(w, true)
    ensures Inv(w, false)
  {
    forall b ensures AgentOk(w, b, false) { assert AgentOk(w, b, true); }
    forall q ensures CacheOk(w, q, false) { assert CacheOk(w, q, true); }
  }

  /** Whatever expires along a run, the stored record is the replay of its own past. */
  lemma StoredReplays(w: World, steps: seq<Step>, q: Peer)
    requires Fresh(w) && IsRun(w, steps)
    ensures var n := RunFrom(w, steps);
            n.stored.Some? ==>
              && n.stored.value.version == VersionOf(|n.stored.value.past|)
              && (q in Members(n) <==> LastAdds(n.stored.value.past, q)) && NoDuplicates(Members(n))
  {
    FreshIsInv(w);
    RunKeepsInv(w, steps, false);
    var n := RunFrom(w, steps);
    if n.stored.Some? {
      BuiltIsReplay(n.stored.value.past);
      assert q in Built(n.stored.value.past) <==> q in Replay(n.stored.value.past);
      ReplayIsLast(n.stored.value.past, q);
    }
  }

  lemma Prepend(w: World, step: Step, rest: seq<Step>)
    requires Enabled(w, step) && IsRun(Next(w, step), rest)
    ensures IsRun(w, [step] + rest) && RunFrom(w, [step] + rest) == RunFrom(Next(w, step), rest)
  {
    assert ([step] + rest)[1..] == rest;
  }

  lemma {:induction false} RunOn(w: World, first: seq<Step>, second: seq<Step>)
    requires IsRun(w, first) && IsRun(RunFrom(w, first), second)
    ensures IsRun(w, first + second) && RunFrom(w, first + second) == RunFrom(RunFrom(w, first), second)
    decreases |first|
  {
    if first == [] {
      assert first + second == second;
    } else {
      RunOn(Next(w, first[0]), first[1..], second);
      assert (first + second)[1..] == first[1..] + second;
    }
  }

  /** The record an addition by u builds on, when the lookup finds what is stored. */
  function BaseFor(w: World, u: Update): Record {
    if w.stored.Some? then w.stored.value
    else if u.peer in w.cache then w.cache[u.peer]
    else Record(0, [], [])
  }

  /** Three steps of a resting agent add a peer. */
  lemma Addition(w: World, a: Agent, u: Update, rec: Record) returns (steps: seq<Step>)
    requires a in w.agents && w.agents[a].Resting? && u.add
    requires rec == Record(BaseFor(w, u).version + 1, Rebuilt(BaseFor(w, u).members, u), BaseFor(w, u).past + [u])
    requires rec.version < VERSIONS
    ensures IsRun(w, steps)
    ensures RunFrom(w, steps) == World(Some(rec), w.cache, w.agents[a := Caching(u.peer, rec)], w.log + [u])
  {
    var look, publish := LookUp(a, w.stored.Some?), Publish(a, Answered);
    var w1 := Next(w, Begin(a, u));
    var w2 := Next(w1, look);
    assert Published(w2.agents[a]) == rec;
    var w3 := Next(w2, publish);
    assert w3.agents == w.agents[a := Caching(u.peer, rec)];
    steps := [];
    Prepend(w2, publish, steps); steps := [publish] + steps;
    Prepend(w1, look, steps); steps := [look] + steps;
    Prepend(w, Begin(a, u), steps); steps := [Begin(a, u)] + steps;
  }

  /** Agent 0 adds peer 1 and caches version 1; agent 1 adds peer 2 on top of it; the record expires;
      agent 0 adds peer 1 again on top of what it cached. */
  lemma StaleAddition(w: World) returns (steps: seq<Step>)
    requires w == World(None, map[], map[0 := Resting, 1 := Resting], [])
    ensures IsRun(w, steps)
    ensures RunFrom(w, steps).stored == Some(Record(2, [1], [Update(1, true), Update(1, true)]))
    ensures RunFrom(w, steps).log == [Update(1, true), Update(2, true), Update(1, true)]
  {
    var one, two := Update(1, true), Update(2, true);
    var first, second, third := Record(1, [1], [one]), Record(2, [1, 2], [one, two]), Record(2, [1], [one, one]);
    assert [] + [one] == [one] && [one] + [two] == [one, two] && [one] + [one] == [one, one];
    assert Rebuilt([], one) == [1] && Rebuilt([1], two) == [1, 2] && Rebuilt([1], one) == [1];
    var a1 := Addition(w, 0, one, first);
    var w1 := RunFrom(w, a1);
    var w2 := Next(w1, Save(0, true));
    var a2 := Addition(w2, 1, two, second);
    var w3 := RunFrom(w2, a2);
    var w4 := Next(w3, Expire);
    var a3 := Addition(w4, 0, one, third);
    assert w4.log == [one, two] && [one, two] + [one] == [one, two, one];
    Prepend(w3, Expire, a3);
    RunOn(w2, a2, [Expire] + a3);
    Prepend(w1, Save(0, true), a2 + ([Expire] + a3));
    RunOn(w, a1, [Save(0, true)] + (a2 + ([Expire] + a3)));
    steps := a1 + ([Save(0, true)] + (a2 + ([Expire] + a3)));
  }

  /** A run with one expiry that loses a member: peer 2's accepted addition is gone, although nobody
      removed it. */
  lemma ExpiryLosesUpdates() returns (w: World, steps: seq<Step>, q: Peer)
    ensures Fresh(w) && IsRun(w, steps)
    ensures LastAdds(RunFrom(w, steps).log, q) && q !in Members(RunFrom(w, steps))
  {
    q := 2;
    w := World(None, map[], map[0 := Resting, 1 := Resting], []);
    steps := StaleAddition(w);
    assert AddsLast(RunFrom(w, steps).log, 2, 1);
  }

  // ---------------------------------------------------------------- refusals and retries

  /** The responsible node turns a's record down, and a hears of it. */
  predicate Refusing(w: World, step: Step, a: Agent)
    requires Enabled(w, step)
  {
    step == Publish(a, Answered) && !Accepting(w, step)
  }

  /** How often a's records were refused, and how often accepted. */
  ghost function Refusals(w: World, steps: seq<Step>, a: Agent): nat
    requires IsRun(w, steps)
    decreases |steps|
  {
    if steps == [] then 0
    else (if Refusing(w, steps[0], a) then 1 else 0) + Refusals(Next(w, steps[0]), steps[1..], a)
  }

  ghost function Acceptances(w: World, steps: seq<Step>, a: Agent): nat
    requires IsRun(w, steps)
    decreases |steps|
  {
    if steps == [] then 0
    else (if Accepting(w, steps[0]) && steps[0].a == a then 1 else 0) + Acceptances(Next(w, steps[0]), steps[1..], a)
  }

  /** Nothing goes wrong for a on its way to u: it is not aborted, loses no message, and finds the record
      it wants to be removed from. The other agents, and expiry, may do anything. */
  predicate Unhindered(step: Step, a: Agent, u: Update) {
    !step.Expire? && step.a == a ==>
      !step.Begin? && !step.Abort? && (step.Publish? ==> step.fate.Answered?) && (step.LookUp? && !u.add ==> step.found)
  }

  /** Where a stands with u after so many refusals and acceptances. */
  predicate Stands(w: World, a: Agent, u: Update, refused: nat, accepted: nat) {
    && a in w.agents
    && (accepted > 0 ==> u in w.log)
    && match w.agents[a]
       case Looking(v, attempt) => v == u && attempt == refused < 5 && accepted == 0
       case Publishing(v, attempt, _) => v == u && attempt == refused < 5 && accepted == 0
       case Caching(q, _) => u.add && q == u.peer && refused < 5 && accepted == 1
       case Resting => (refused < 5 && accepted == 1) || (refused == 5 && accepted == 0)
  }

  lemma StepStands(w: World, step: Step, a: Agent, u: Update, refused: nat, accepted: nat)
    requires Enabled(w, step) && Unhindered(step, a, u) && Stands(w, a, u, refused, accepted)
    ensures Stands(Next(w, step), a, u, refused + (if Refusing(w, step, a) then 1 else 0),
                   accepted + if Accepting(w, step) && step.a == a then 1 else 0)
  {
  }

  lemma {:induction false} RunStands(w: World, steps: seq<Step>, a: Agent, u: Update, refused: nat, accepted: nat)
    requires IsRun(w, steps) && Stands(w, a, u, refused, accepted)
    requires forall step :: step in steps ==> Unhindered(step, a, u)
    ensures Stands(RunFrom(w, steps), a, u, refused + Refusals(w, steps, a), accepted + Acceptances(w, steps, a))
    decreases |steps|
  {
    if steps != [] {
      assert steps[0] in steps;
      StepStands(w, steps[0], a, u, refused, accepted);
      RunStands(Next(w, steps[0]), steps[1..], a, u, refused + (if Refusing(w, steps[0], a) then 1 else 0),
                accepted + if Accepting(w, steps[0]) && steps[0].a == a then 1 else 0);
    }
  }

  /** In every interleaving with other agents: an agent that began u, and that nothing goes wrong for, is
      at rest again only once u was accepted, exactly once, or after five refusals in a row. */
  lemma RestsOnlyWhenDone(w: World, steps: seq<Step>, a: Agent, u: Update)
    requires Enabled(w, Begin(a, u)) && IsRun(Next(w, Begin(a, u)), steps)
    requires forall step :: step in steps ==> Unhindered(step, a, u)
    ensures var w1 := Next(w, Begin(a, u));
            var n := RunFrom(w1, steps);
            var refused, accepted := Refusals(w1, steps, a), Acceptances(w1, steps, a);
            && a in n.agents && refused <= 5 && accepted <= 1 && (accepted == 1 ==> refused < 5 && u in n.log)
            && (n.agents[a].Resting? ==> accepted == 1 || refused == 5)
            && (n.agents[a].Looking? || n.agents[a].Publishing? ==> accepted == 0 && n.agents[a].attempt == refused < 5)
  {
    RunStands(Next(w, Begin(a, u)), steps, a, u, 0, 0);
  }

  /** A look and an answered publication with nobody in between store u, built on the stored record, or
      for an addition on the cached one or on none, unless the version wraps to zero. */
  lemma UndisturbedTryAccepts(w: World, a: Agent) returns (look: Step, publish: Step)
    requires a in w.agents && w.agents[a].Looking? && (w.stored.Some? || w.agents[a].update.add)
    ensures look == LookUp(a, w.stored.Some?) && publish == Publish(a, Answered)
    ensures Enabled(w, look) && Enabled(Next(w, look), publish)
    ensures var u, base := w.agents[a].update, BaseFor(w, w.agents[a].update);
            var n := Next(Next(w, look), publish);
            if w.stored.Some? && base.version + 1 >= 0x1_0000_0000_0000_0000
            then Refusing(Next(w, look), publish, a) && n.stored == w.stored && n.log == w.log
            else && n.stored.Some? && n.log == w.log + [u]
                 && (base.version + 1 < 0x1_0000_0000_0000_0000 ==> n.stored.value.version == base.version + 1)
                 && (forall q :: q in n.stored.value.members <==> if q == u.peer then u.add else q in base.members)
                 && n.agents[a] == if u.add then Caching(u.peer, n.stored.value) else Resting
  {
    look, publish := LookUp(a, w.stored.Some?), Publish(a, Answered);
    var u := w.agents[a].update;
    RebuiltIsExact(BaseFor(w, u).members, u);
  }

  /** A refused agent looks again, unless it was the fifth time; undisturbed, that try is accepted. */
  lemma RefusedTriesAgain(w: World, a: Agent) returns (look: Step, publish: Step)
    requires Enabled(w, Publish(a, Answered)) && Refusing(w, Publish(a, Answered), a)
    ensures var p, n := w.agents[a], Next(w, Publish(a, Answered));
            && n.agents[a] == (if p.attempt < 4 then Looking(p.update, p.attempt + 1) else Resting)
            && n.stored == w.stored && n.log == w.log
            && (p.attempt < 4 && w.stored.value.version + 1 < 0x1_0000_0000_0000_0000 ==>
                  && Enabled(n, look) && Enabled(Next(n, look), publish)
                  && Next(Next(n, look), publish).log == w.log + [p.update])
  {
    look, publish := Expire, Expire;
    if w.agents[a].attempt < 4 { look, publish := UndisturbedTryAccepts(Next(w, Publish(a, Answered)), a); }
  }

  /** A removal whose lookup fails gives up: nothing is published. */
  lemma RemovalNeedsRecord(w: World, a: Agent)
    requires Enabled(w, LookUp(a, false)) && !w.agents[a].update.add
    ensures Next(w, LookUp(a, false)) == w.(agents := w.agents[a := Resting])
  {
  }
}
