/** The response cache with a time to live per entry and a background sweep. Times are in nanoseconds. */
module Cache {

  datatype Entry<+D> = Entry(data: D, expiresAt: int)

  type Entries<D> = map<string, Entry<D>>

  datatype Lookup<+D> = Miss | Hit(data: D)

  // ---------------------------------------------------------------- the cache as a value

  datatype Call<+D> =
    | Set(key: string, data: D, ttl: int, at: int)
    | Get(key: string, at: int)
    | Sweep(at: int)  // one tick of the cleanup loop

  function Found<D>(entries: Entries<D>, key: string, now: int): Lookup<D> {
    if key !in entries || now > entries[key].expiresAt then Miss else Hit(entries[key].data)
  }

  function Swept<D>(entries: Entries<D>, now: int): Entries<D> {
    map key | key in entries && now <= entries[key].expiresAt :: entries[key]
  }

  function Step<D>(entries: Entries<D>, c: Call<D>): Entries<D> {
    match c
    case Set(key, data, ttl, at) => entries[key := Entry(data, at + ttl)]
    case Get(_, _) => entries
    case Sweep(at) => Swept(entries, at)
  }

  function Run<D>(entries: Entries<D>, calls: seq<Call<D>>): Entries<D>
    decreases |calls|
  {
    if calls == [] then entries else Run(Step(entries, calls[0]), calls[1..])
  }

  ghost predicate ClockAdvances<D(!new)>(from: int, calls: seq<Call<D>>, until: int)
    decreases |calls|
  {
    if calls == [] then from <= until else from <= calls[0].at && ClockAdvances(calls[0].at, calls[1..], until)
  }

  // ---------------------------------------------------------------- what a caller may expect

  /** Call `k` is the last write of this key, and its time to live is not over at `now`. */
  ghost predicate LiveSet<D(!new)>(calls: seq<Call<D>>, key: string, k: int, now: int) {
    && 0 <= k < |calls| && calls[k].Set? && calls[k].key == key
    && (forall j :: k < j < |calls| && calls[j].Set? ==> calls[j].key != key)
    && now <= calls[k].at + calls[k].ttl
  }

  lemma LiveSetOfFront<D(!new)>(calls: seq<Call<D>>, key: string, k: int, now: int)
    requires calls != []
    requires calls[|calls| - 1].Set? ==> calls[|calls| - 1].key != key
    ensures LiveSet(calls[..|calls| - 1], key, k, now) <==> LiveSet(calls, key, k, now)
  {
    var front := calls[..|calls| - 1];
    assert forall j :: 0 <= j < |front| ==> front[j] == calls[j];
  }

  /** Entries agree with `full`, a cache that never sweeps, on everything that has not expired at `now`. */
  ghost predicate AgreesFrom<D>(entries: Entries<D>, full: Entries<D>, now: int) {
    forall key, t :: now <= t ==> Found(entries, key, t) == Found(full, key, t)
  }

  /** A run without its sweeps. */
  function Unswept<D>(calls: seq<Call<D>>): seq<Call<D>>
    decreases |calls|
  {
    if calls == [] then [] else (if calls[0].Sweep? then [] else [calls[0]]) + Unswept(calls[1..])
  }

  /** Leaving out every sweep of a run changes no later lookup. */
  lemma {:induction false} SweepsAreInvisible<D(!new)>(
    entries: Entries<D>, full: Entries<D>, calls: seq<Call<D>>, from: int, now: int)
    requires AgreesFrom(entries, full, from) && ClockAdvances(from, calls, now)
    ensures AgreesFrom(Run(entries, calls), Run(full, Unswept(calls)), now)
    decreases |calls|
  {
    if calls != [] {
      var c := calls[0];
      var kept := if c.Sweep? then full else Step(full, c);
      forall key, t | c.at <= t ensures Found(Step(entries, c), key, t) == Found(kept, key, t) {
        assert Found(entries, key, t) == Found(full, key, t);
      }
      if !c.Sweep? { assert Unswept(calls)[1..] == Unswept(calls[1..]); }
      assert c.Sweep? ==> Unswept(calls) == Unswept(calls[1..]);
      SweepsAreInvisible(Step(entries, c), kept, calls[1..], c.at, now);
    }
  }

  lemma {:induction false} RunSnoc<D(!new)>(entries: Entries<D>, calls: seq<Call<D>>, c: Call<D>)
    ensures Run(entries, calls + [c]) == Step(Run(entries, calls), c)
    decreases |calls|
  {
    if calls == [] {
      assert ([c])[1..] == [];
      assert [] + [c] == [c];
      assert Run(Step(entries, c), []) == Step(entries, c);
    } else {
      assert (calls + [c])[0] == calls[0] && (calls + [c])[1..] == calls[1..] + [c];
      RunSnoc(Step(entries, calls[0]), calls[1..], c);
    }
  }

  ghost predicate Chronological<D(!new)>(calls: seq<Call<D>>) {
    forall i, j :: 0 <= i < j < |calls| ==> calls[i].at <= calls[j].at
  }

  /**
   * Under any interleaving, a lookup hits exactly when the last write of its key has not outlived its time, and then
   * with the data of that write.
   */
  lemma {:induction false} LookupFollowsLastSet<D(!new)>(calls: seq<Call<D>>, key: string, now: int)
    requires Chronological(calls) && forall i :: 0 <= i < |calls| ==> calls[i].at <= now
    ensures Found(Run(map[], calls), key, now).Hit? <==> exists k :: LiveSet(calls, key, k, now)
    ensures forall k :: LiveSet(calls, key, k, now) ==> Found(Run(map[], calls), key, now) == Hit(calls[k].data)
  {
    if calls != [] {
      var n := |calls| - 1;
      var front, c := calls[..n], calls[n];
      assert calls == front + [c];
      RunSnoc(map[], front, c);
      if c.Set? && c.key == key {
        assert LiveSet(calls, key, n, now) <==> now <= c.at + c.ttl;
        assert forall k :: LiveSet(calls, key, k, now) ==> k == n;
      } else {
        LookupFollowsLastSet(front, key, now);
        forall k ensures LiveSet(front, key, k, now) <==> LiveSet(calls, key, k, now) {
          LiveSetOfFront(calls, key, k, now);
        }
      }
    }
  }

  /** A sweep keeps exactly the entries that have not expired. */
  lemma SweepKeepsExactlyTheUnexpired<D(!new)>(entries: Entries<D>, now: int)
    ensures forall key :: key in Swept(entries, now) <==> Found(entries, key, now).Hit?
    ensures forall key, t :: now <= t ==> Found(Swept(entries, now), key, t) == Found(entries, key, t)
  {
  }

  // ---------------------------------------------------------------- the cache

  class Cache<D> {
    var entries: Entries<D>

    constructor ()
      ensures entries == map[]
    {
      entries := map[];
    }

    method Get(key: string, now: int) returns (r: Lookup<D>)
      ensures r == Found(entries, key, now)
      ensures r.Hit? <==> key in entries && now <= entries[key].expiresAt
      ensures r.Hit? ==> r.data == entries[key].data
    {
      if key !in entries || now > entries[key].expiresAt { return Miss; }
      r := Hit(entries[key].data);
    }

    method Set(key: string, data: D, ttl: int, now: int)
      modifies this
      ensures entries == Step(old(entries), Call.Set(key, data, ttl, now))
      ensures entries == old(entries)[key := Entry(data, now + ttl)]
    {
      entries := entries[key := Entry(data, now + ttl)];
    }

    /** The body of one tick: visits the keys in whatever order the map yields them. */
    method CleanupTick(now: int)
      modifies this
      ensures entries == Step(old(entries), Sweep(now))
      ensures forall key :: key in entries <==> key in old(entries) && now <= old(entries)[key].expiresAt
      ensures forall key :: key in entries ==> entries[key] == old(entries)[key]
    {
      var todo := entries.Keys;
      while todo != {}
        invariant forall key :: key in entries <==>
                                  key in old(entries) && (key in todo || now <= old(entries)[key].expiresAt)
        invariant forall key :: key in entries ==> entries[key] == old(entries)[key]
        decreases todo
      {
        var key :| key in todo;
        if key in entries && now > entries[key].expiresAt {
          entries := entries - {key};
        }
        todo := todo - {key};
      }
      assert entries == Swept(old(entries), now);
    }
  }
}
