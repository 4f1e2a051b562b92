/**
  Provider records at the node responsible for a content key: a list of
  announcements and the time each provider last announced itself. Entries live
  for a fixed time after their announcement.
*/
module ProviderRecords {
  import opened Options

  type Key = nat
  type Provider = nat

  datatype ProviderRecord = ProviderRecord(content: nat, provider: Provider)

  type Records = map<Key, seq<ProviderRecord>>
  type Times = map<Provider, int>
  type EntryTimes = map<Key, Times>

  /** The two maps the node keeps. */
  datatype Table = Table(records: Records, times: EntryTimes)

  function ListAt(t: Table, key: Key): seq<ProviderRecord> {
    if key in t.records then t.records[key] else []
  }

  function TimesAt(t: Table, key: Key): Times {
    if key in t.times then t.times[key] else map[]
  }

  predicate IsLive(times: Times, p: Provider, ttl: int, now: int) {
    p in times && now - times[p] <= ttl
  }

  /** The entries announced within the time to live, in order. */
  function Live(list: seq<ProviderRecord>, times: Times, ttl: int, now: int): seq<ProviderRecord> {
    if list == [] then []
    else
      var rest := Live(list[..|list| - 1], times, ttl, now);
      if IsLive(times, list[|list| - 1].provider, ttl, now) then rest + [list[|list| - 1]] else rest
  }

  function Others(list: seq<ProviderRecord>, p: Provider): seq<ProviderRecord> {
    if list == [] then []
    else
      var rest := Others(list[..|list| - 1], p);
      if list[|list| - 1].provider != p then rest + [list[|list| - 1]] else rest
  }

  function Survivors(list: seq<ProviderRecord>, times: Times): seq<ProviderRecord> {
    if list == [] then []
    else
      var rest := Survivors(list[..|list| - 1], times);
      if list[|list| - 1].provider in times then rest + [list[|list| - 1]] else rest
  }

  /** An accepted announcement replaces the provider's entry and drops the expired ones. */
  function Announced(t: Table, key: Key, rec: ProviderRecord, ttl: int, now: int): Table {
    Table(t.records[key := Others(Live(ListAt(t, key), TimesAt(t, key), ttl, now), rec.provider) + [rec]],
          t.times[key := TimesAt(t, key)[rec.provider := now]])
  }

  /** What a read yields; nothing when no entry is live. */
  function Read(t: Table, key: Key, ttl: int, now: int): Option<seq<ProviderRecord>> {
    var live := Live(ListAt(t, key), TimesAt(t, key), ttl, now);
    if live == [] then None else Some(live)
  }

  function FreshTimes(times: Times, ttl: int, now: int): Times {
    map p | p in times && now - times[p] <= ttl :: times[p]
  }

  predicate Stays(t: Table, key: Key, ttl: int, now: int) {
    key in t.times && FreshTimes(t.times[key], ttl, now) != map[]
  }

  /** A key has a list exactly when it has entry times. */
  predicate Coupled(t: Table) {
    t.records.Keys == t.times.Keys
  }

  /** Purging the given keys drops expired entries, and a key with its last one. */
  function PurgedOn(t: Table, keys: set<Key>, ttl: int, now: int): Table
    requires Coupled(t)
  {
    Table(map k | k in t.records && (k in keys ==> Stays(t, k, ttl, now)) ::
            if k in keys then Survivors(t.records[k], FreshTimes(t.times[k], ttl, now)) else t.records[k],
          map k | k in t.times && (k in keys ==> Stays(t, k, ttl, now)) ::
            if k in keys then FreshTimes(t.times[k], ttl, now) else t.times[k])
  }

  function Purged(t: Table, ttl: int, now: int): Table
    requires Coupled(t)
  {
    PurgedOn(t, t.times.Keys, ttl, now)
  }

  // ---------------------------------------------------------------- the node's table

  lemma ListSteps(list: seq<ProviderRecord>, i: nat)
    requires i < |list|
    ensures list[..i + 1][..i] == list[..i] && list[..i + 1][i] == list[i] && |list[..i + 1]| == i + 1
  {
  }

  class ProviderTable {
    var records: Records
    var entryTimes: EntryTimes
    const ttl: int

    constructor (recordTTL: int)
      ensures records == map[] && entryTimes == map[] && ttl == recordTTL
    {
      records, entryTimes, ttl := map[], map[], recordTTL;
    }

    function Contents(): Table
      reads this
    {
      Table(records, entryTimes)
    }

    method LiveEntries(all: seq<ProviderRecord>, times: Times, now: int) returns (live: seq<ProviderRecord>)
      ensures live == Live(all, times, ttl, now)
    {
      live := [];
      for i := 0 to |all|
        invariant live == Live(all[..i], times, ttl, now)
      {
        ListSteps(all, i);
        if all[i].provider in times && now - times[all[i].provider] <= ttl { live := live + [all[i]]; }
      }
      assert all[..|all|] == all;
    }

    /** Accepts an announcement only from the provider it names. */
    method StoreProviderRecord(key: Key, rec: ProviderRecord, caller: Provider, now: int) returns (ok: bool)
      modifies this
      ensures ok <==> caller == rec.provider
      ensures Contents() == if ok then Announced(old(Contents()), key, rec, ttl, now) else old(Contents())
    {
      if caller != rec.provider { return false; }
      var times: Times := if key in entryTimes then entryTimes[key] else map[];
      var existing := [];
      if key in records { existing := LiveEntries(records[key], times, now); }
      var out := [];
      for i := 0 to |existing|
        invariant out == Others(existing[..i], rec.provider)
        invariant records == old(records) && entryTimes == old(entryTimes)
      {
        ListSteps(existing, i);
        if existing[i].provider != rec.provider { out := out + [existing[i]]; }
      }
      assert existing[..|existing|] == existing;
      entryTimes := entryTimes[key := times[rec.provider := now]];
      records := records[key := out + [rec]];
      ok := true;
    }

    method LocalRecordGet(key: Key, now: int) returns (r: Option<seq<ProviderRecord>>)
      requires Coupled(Contents())
      ensures r == Read(Contents(), key, ttl, now)
    {
      if key !in records { return None; }
      var live := LiveEntries(records[key], entryTimes[key], now);
      if live == [] { return None; }
      return Some(live);
    }

    /** Deletes the expired entry times of one key. */
    method FreshenTimes(times: Times, now: int) returns (fresh': Times)
      ensures fresh' == FreshTimes(times, ttl, now)
    {
      fresh' := times;
      var todo := times.Keys;
      while todo != {}
        invariant todo <= times.Keys
        invariant fresh' == map p | p in times && (p in todo || now - times[p] <= ttl) :: times[p]
        decreases todo
      {
        var p :| p in todo;
        if now - times[p] > ttl { fresh' := fresh' - {p}; }
        todo := todo - {p};
      }
    }

    method SurvivingEntries(all: seq<ProviderRecord>, times: Times) returns (out: seq<ProviderRecord>)
      ensures out == Survivors(all, times)
    {
      out := [];
      for i := 0 to |all|
        invariant out == Survivors(all[..i], times)
      {
        ListSteps(all, i);
        if all[i].provider in times { out := out + [all[i]]; }
      }
      assert all[..|all|] == all;
    }

    method PurgeExpiredRecords(now: int)
      requires Coupled(Contents())
      modifies this
      ensures Coupled(Contents())
      ensures Contents() == Purged(old(Contents()), ttl, now)
    {
      ghost var t := Contents();
      var keys := entryTimes.Keys;
      var todo := keys;
      assert Contents() == PurgedOn(t, keys - todo, ttl, now);
      while todo != {}
        invariant todo <= keys && Contents() == PurgedOn(t, keys - todo, ttl, now)
        decreases todo
      {
        var key :| key in todo;
        var times := FreshenTimes(entryTimes[key], now);
        if times == map[] {
          records := records - {key};
          entryTimes := entryTimes - {key};
        } else {
          var survivors := SurvivingEntries(records[key], times);
          records := records[key := survivors];
          entryTimes := entryTimes[key := times];
        }
        PurgeOne(t, keys - todo, key, ttl, now, Contents());
        assert keys - (todo - {key}) == keys - todo + {key};
        todo := todo - {key};
      }
      assert keys - todo == keys;
    }
  }

  lemma PurgeOneList(t: Table, done: set<Key>, key: Key, ttl: int, now: int)
    requires Coupled(t) && key in t.times && key !in done
    ensures var p, times := PurgedOn(t, done, ttl, now).records, FreshTimes(t.times[key], ttl, now);
            PurgedOn(t, done + {key}, ttl, now).records ==
              if times == map[] then p - {key} else p[key := Survivors(t.records[key], times)]
  {
  }

  lemma PurgeOneTime(t: Table, done: set<Key>, key: Key, ttl: int, now: int)
    requires Coupled(t) && key in t.times && key !in done
    ensures var p, times := PurgedOn(t, done, ttl, now).times, FreshTimes(t.times[key], ttl, now);
            PurgedOn(t, done + {key}, ttl, now).times == if times == map[] then p - {key} else p[key := times]
  {
  }

  /** Purging key by key. */
  lemma PurgeOne(t: Table, done: set<Key>, key: Key, ttl: int, now: int, n: Table)
    requires Coupled(t) && key in t.times && key !in done
    requires var p := PurgedOn(t, done, ttl, now); var times := FreshTimes(t.times[key], ttl, now);
             n == if times == map[] then Table(p.records - {key}, p.times - {key})
                  else Table(p.records[key := Survivors(t.records[key], times)], p.times[key := times])
    ensures n == PurgedOn(t, done + {key}, ttl, now)
  {
    PurgeOneList(t, done, key, ttl, now);
    PurgeOneTime(t, done, key, ttl, now);
  }

  // ---------------------------------------------------------------- what reads yield

  /** At most one entry per provider. */
  predicate Distinct(list: seq<ProviderRecord>) {
    forall i, j :: 0 <= i < j < |list| ==> list[i].provider != list[j].provider
  }

  lemma InFront(list: seq<ProviderRecord>)
    requires list != []
    ensures forall e :: e in list <==> e in list[..|list| - 1] || e == list[|list| - 1]
    ensures Distinct(list) ==> Distinct(list[..|list| - 1])
    ensures Distinct(list) ==> forall e :: e in list[..|list| - 1] ==> e.provider != list[|list| - 1].provider
  {
  }

  lemma DistinctAppend(list: seq<ProviderRecord>, e: ProviderRecord)
    requires Distinct(list) && forall x :: x in list ==> x.provider != e.provider
    ensures Distinct(list + [e])
  {
  }

  lemma {:induction false} LiveIs(list: seq<ProviderRecord>, times: Times, ttl: int, now: int)
    ensures forall e :: e in Live(list, times, ttl, now) <==> e in list && IsLive(times, e.provider, ttl, now)
    ensures Distinct(list) ==> Distinct(Live(list, times, ttl, now))
  {
    if list != [] {
      InFront(list);
      LiveIs(list[..|list| - 1], times, ttl, now);
      if Distinct(list) && IsLive(times, list[|list| - 1].provider, ttl, now) {
        DistinctAppend(Live(list[..|list| - 1], times, ttl, now), list[|list| - 1]);
      }
    }
  }

  lemma {:induction false} OthersIs(list: seq<ProviderRecord>, p: Provider)
    ensures forall e :: e in Others(list, p) <==> e in list && e.provider != p
    ensures Distinct(list) ==> Distinct(Others(list, p))
  {
    if list != [] {
      InFront(list);
      OthersIs(list[..|list| - 1], p);
      if Distinct(list) && list[|list| - 1].provider != p {
        DistinctAppend(Others(list[..|list| - 1], p), list[|list| - 1]);
      }
    }
  }

  lemma {:induction false} SurvivorsIs(list: seq<ProviderRecord>, times: Times)
    ensures forall e :: e in Survivors(list, times) <==> e in list && e.provider in times
    ensures Distinct(list) ==> Distinct(Survivors(list, times))
  {
    if list != [] {
      InFront(list);
      SurvivorsIs(list[..|list| - 1], times);
      if Distinct(list) && list[|list| - 1].provider in times {
        DistinctAppend(Survivors(list[..|list| - 1], times), list[|list| - 1]);
      }
    }
  }

  /** An announcement replaces the provider's entry, drops the key's expired entries and keeps the rest. */
  lemma AnnouncedIs(t: Table, key: Key, rec: ProviderRecord, ttl: int, now: int, k: Key, e: ProviderRecord, p: Provider)
    ensures var n := Announced(t, key, rec, ttl, now);
            && (e in ListAt(n, k) <==>
                  if k != key then e in ListAt(t, k)
                  else e == rec || (&& e in ListAt(t, k) && e.provider != rec.provider && e.provider in TimesAt(t, k)
                                    && now <= TimesAt(t, k)[e.provider] + ttl))
            && (p in TimesAt(n, k) <==> p in TimesAt(t, k) || (k == key && p == rec.provider))
            && (p in TimesAt(n, k) ==> TimesAt(n, k)[p] == if k == key && p == rec.provider then now else TimesAt(t, k)[p])
            && key in n.records && ListAt(n, key) != [] && ListAt(n, key)[|ListAt(n, key)| - 1] == rec
  {
    var live := Live(ListAt(t, key), TimesAt(t, key), ttl, now);
    LiveIs(ListAt(t, key), TimesAt(t, key), ttl, now);
    OthersIs(live, rec.provider);
  }

  /** A purge drops the expired entries, and a key with its last one, and keeps the rest. */
  lemma PurgedIs(t: Table, ttl: int, now: int, k: Key, e: ProviderRecord, p: Provider)
    requires Coupled(t)
    ensures var n := Purged(t, ttl, now);
            && (p in TimesAt(n, k) <==> p in TimesAt(t, k) && now <= TimesAt(t, k)[p] + ttl)
            && (p in TimesAt(n, k) ==> TimesAt(n, k)[p] == TimesAt(t, k)[p])
            && (e in ListAt(n, k) <==> e in ListAt(t, k) && e.provider in TimesAt(n, k))
            && (k in n.records <==> k in n.times) && (k in n.times ==> k in t.times && n.times[k] != map[])
  {
    if k in t.times { SurvivorsIs(t.records[k], FreshTimes(t.times[k], ttl, now)); }
  }

  /** Dropping what has expired now does not change what is live later. */
  lemma {:induction false} SurvivorsStayLive(list: seq<ProviderRecord>, times: Times, ttl: int, now: int, later: int)
    requires now <= later
    ensures Live(Survivors(list, FreshTimes(times, ttl, now)), FreshTimes(times, ttl, now), ttl, later)
         == Live(list, times, ttl, later)
  {
    if list != [] {
      var front, e, left := list[..|list| - 1], list[|list| - 1], FreshTimes(times, ttl, now);
      SurvivorsStayLive(front, times, ttl, now, later);
      var kept := Survivors(front, left);
      if e.provider in left {
        assert (kept + [e])[..|kept|] == kept;
      }
    }
  }

  /** A purge never changes the result of a later read. */
  lemma PurgeIsInvisible(t: Table, key: Key, ttl: int, now: int, later: int)
    requires Coupled(t) && now <= later
    ensures Read(Purged(t, ttl, now), key, ttl, later) == Read(t, key, ttl, later)
  {
    SurvivorsStayLive(ListAt(t, key), TimesAt(t, key), ttl, now, later);
    if key in t.times && !Stays(t, key, ttl, now) {
      SurvivorsIs(t.records[key], FreshTimes(t.times[key], ttl, now));
      LiveIs(Survivors(t.records[key], map[]), map[], ttl, later);
    }
  }

  // ---------------------------------------------------------------- histories

  datatype Event = Announce(key: Key, rec: ProviderRecord, at: int) | Purge(at: int)

  predicate ClockRuns(events: seq<Event>, now: int) {
    && (forall i, j :: 0 <= i < j < |events| ==> events[i].at <= events[j].at)
    && (forall i :: 0 <= i < |events| ==> events[i].at <= now)
  }

  function Apply(t: Table, e: Event, ttl: int): (n: Table)
    requires Coupled(t)
    ensures Coupled(n)
  {
    match e
    case Announce(key, rec, at) => Announced(t, key, rec, ttl, at)
    case Purge(at) => Purged(t, ttl, at)
  }

  function After(events: seq<Event>, ttl: int): (t: Table)
    ensures Coupled(t)
  {
    if events == [] then Table(map[], map[])
    else Apply(After(events[..|events| - 1], ttl), events[|events| - 1], ttl)
  }

  /** The provider's last announcement for the key. */
  function Last(events: seq<Event>, key: Key, p: Provider): Option<Event> {
    if events == [] then None
    else
      var e := events[|events| - 1];
      if e.Announce? && e.key == key && e.rec.provider == p then Some(e)
      else Last(events[..|events| - 1], key, p)
  }

  /** The provider's last announcement is within the time to live. */
  predicate Current(events: seq<Event>, key: Key, p: Provider, ttl: int, now: int) {
    Last(events, key, p).Some? && now - Last(events, key, p).value.at <= ttl
  }

  /** The table remembers the last announcement of every provider that has not expired, and no other record. */
  predicate Tracks(t: Table, events: seq<Event>, key: Key, p: Provider, ttl: int, clock: int) {
    var last := Last(events, key, p);
    && (p in TimesAt(t, key) ==> last.Some? && last.value.Announce? && TimesAt(t, key)[p] == last.value.at)
    && (Current(events, key, p, ttl, clock) ==>
          p in TimesAt(t, key) && last.value.Announce? && last.value.rec in ListAt(t, key))
    && (forall e :: e in ListAt(t, key) && e.provider == p ==> last.Some? && last.value.Announce? && e == last.value.rec)
  }

  lemma AnnounceTracks(t: Table, events: seq<Event>, e: Event, key: Key, p: Provider, ttl: int, clock: int)
    requires Coupled(t) && e.Announce? && clock <= e.at && Distinct(ListAt(t, key)) && Tracks(t, events, key, p, ttl, clock)
    ensures Tracks(Apply(t, e, ttl), events + [e], key, p, ttl, e.at) && Distinct(ListAt(Apply(t, e, ttl), key))
  {
    assert (events + [e])[..|events|] == events;
    LastIs(events, key, p);
    if e.key == key {
      var live := Live(ListAt(t, key), TimesAt(t, key), ttl, e.at);
      LiveIs(ListAt(t, key), TimesAt(t, key), ttl, e.at);
      OthersIs(live, e.rec.provider);
      DistinctAppend(Others(live, e.rec.provider), e.rec);
    }
  }

  lemma PurgeTracks(t: Table, events: seq<Event>, e: Event, key: Key, p: Provider, ttl: int, clock: int)
    requires Coupled(t) && e.Purge? && clock <= e.at && Distinct(ListAt(t, key)) && Tracks(t, events, key, p, ttl, clock)
    ensures Tracks(Apply(t, e, ttl), events + [e], key, p, ttl, e.at) && Distinct(ListAt(Apply(t, e, ttl), key))
  {
    assert (events + [e])[..|events|] == events;
    LastIs(events, key, p);
    if key in t.times {
      SurvivorsIs(t.records[key], FreshTimes(t.times[key], ttl, e.at));
    }
  }

  lemma {:induction false} HistoryTracks(events: seq<Event>, key: Key, p: Provider, ttl: int, now: int)
    requires ClockRuns(events, now)
    ensures Tracks(After(events, ttl), events, key, p, ttl, now) && Distinct(ListAt(After(events, ttl), key))
    decreases |events|
  {
    if events != [] {
      var front, e := events[..|events| - 1], events[|events| - 1];
      assert events == front + [e];
      HistoryTracks(front, key, p, ttl, e.at);
      if e.Announce? {
        AnnounceTracks(After(front, ttl), front, e, key, p, ttl, e.at);
      } else {
        PurgeTracks(After(front, ttl), front, e, key, p, ttl, e.at);
      }
    }
  }

  /**
    A read yields exactly the last announcements that are within the time to live, each
    provider once, whatever purges happened before.
  */
  lemma ReadsAreExact(events: seq<Event>, key: Key, rec: ProviderRecord, ttl: int, now: int)
    requires ClockRuns(events, now)
    ensures var r := Read(After(events, ttl), key, ttl, now);
            && (r.Some? && rec in r.value
                <==> Current(events, key, rec.provider, ttl, now)
                     && Last(events, key, rec.provider).value == Announce(key, rec, Last(events, key, rec.provider).value.at))
            && (r.Some? ==> Distinct(r.value))
  {
    var t := After(events, ttl);
    HistoryTracks(events, key, rec.provider, ttl, now);
    LiveIs(ListAt(t, key), TimesAt(t, key), ttl, now);
    LastIs(events, key, rec.provider);
  }

  lemma {:induction false} LastIs(events: seq<Event>, key: Key, p: Provider)
    ensures Last(events, key, p).Some? ==>
              var e := Last(events, key, p).value; e.Announce? && e.key == key && e.rec.provider == p && e in events
  {
    if events != [] { LastIs(events[..|events| - 1], key, p); }
  }

  lemma {:induction false} PurgeIsNoAnnouncement(before: seq<Event>, at: int, rest: seq<Event>, key: Key, p: Provider)
    ensures Last(before + [Purge(at)] + rest, key, p) == Last(before + rest, key, p)
    decreases rest
  {
    var a, b := before + [Purge(at)] + rest, before + rest;
    if rest == [] {
      assert a[..|a| - 1] == before && b == before;
    } else {
      assert a[..|a| - 1] == before + [Purge(at)] + rest[..|rest| - 1];
      assert b[..|b| - 1] == before + rest[..|rest| - 1];
      PurgeIsNoAnnouncement(before, at, rest[..|rest| - 1], key, p);
    }
  }

  /** Leaving a purge out of a history changes no later read's providers. */
  lemma PurgesDoNotMatter(before: seq<Event>, at: int, rest: seq<Event>, key: Key, rec: ProviderRecord, ttl: int, now: int)
    requires ClockRuns(before + [Purge(at)] + rest, now) && ClockRuns(before + rest, now)
    ensures var a := Read(After(before + [Purge(at)] + rest, ttl), key, ttl, now);
            var b := Read(After(before + rest, ttl), key, ttl, now);
            (a.Some? && rec in a.value) <==> (b.Some? && rec in b.value)
  {
    ReadsAreExact(before + [Purge(at)] + rest, key, rec, ttl, now);
    ReadsAreExact(before + rest, key, rec, ttl, now);
    PurgeIsNoAnnouncement(before, at, rest, key, rec.provider);
  }
}
