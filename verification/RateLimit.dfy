/** The fixed-window limiter of the gateway's middleware: a request count per key, reset on every tick. */
module RateLimit {

  datatype Event = Request(key: string) | Tick

  type Counts = map<string, nat>

  function CountOf(counts: Counts, key: string): nat {
    if key in counts then counts[key] else 0
  }

  predicate Admits(counts: Counts, limit: int, key: string) {
    CountOf(counts, key) < limit
  }

  function Step(counts: Counts, limit: int, e: Event): Counts {
    match e
    case Request(key) => if Admits(counts, limit, key) then counts[key := CountOf(counts, key) + 1] else counts
    case Tick => map[]
  }

  function Run(counts: Counts, limit: int, events: seq<Event>): Counts
    decreases |events|
  {
    if events == [] then counts else Run(Step(counts, limit, events[0]), limit, events[1..])
  }

  // ---------------------------------------------------------------- bound on every stretch

  /** Admissions of a key in a stretch of events that starts with these counts. */
  function Admitted(counts: Counts, limit: int, events: seq<Event>, key: string): nat
    decreases |events|
  {
    if events == [] then 0
    else (if events[0] == Request(key) && Admits(counts, limit, key) then 1 else 0)
         + Admitted(Step(counts, limit, events[0]), limit, events[1..], key)
  }

  function Ticks(events: seq<Event>): nat
    decreases |events|
  {
    if events == [] then 0 else (if events[0].Tick? then 1 else 0) + Ticks(events[1..])
  }

  ghost predicate NoneOver(counts: Counts, limit: int) {
    forall key :: key in counts ==> counts[key] <= limit
  }

  lemma {:induction false} CountsStayUnderLimit(counts: Counts, limit: int, events: seq<Event>)
    requires NoneOver(counts, limit)
    ensures NoneOver(Run(counts, limit, events), limit)
    decreases |events|
  {
    if events != [] { CountsStayUnderLimit(Step(counts, limit, events[0]), limit, events[1..]); }
  }

  lemma {:induction false} AdmittedBound(counts: Counts, limit: nat, events: seq<Event>, key: string)
    requires NoneOver(counts, limit)
    ensures Admitted(counts, limit, events, key) + CountOf(counts, key) <= (Ticks(events) + 1) * limit
    decreases |events|
  {
    if events != [] {
      var rest := events[1..];
      AdmittedBound(Step(counts, limit, events[0]), limit, rest, key);
      if events[0].Tick? { assert (Ticks(rest) + 2) * limit == (Ticks(rest) + 1) * limit + limit; }
    } else {
      assert 1 * limit == limit;
    }
  }

  /** After any past, a stretch with `r` ticks admits at most (r + 1) * limit requests of a key. */
  lemma EveryStretchBounded(limit: nat, past: seq<Event>, stretch: seq<Event>, key: string)
    ensures Admitted(Run(map[], limit, past), limit, stretch, key) <= (Ticks(stretch) + 1) * limit
  {
    CountsStayUnderLimit(map[], limit, past);
    AdmittedBound(Run(map[], limit, past), limit, stretch, key);
  }

  function Requests(key: string, n: nat): (r: seq<Event>)
    ensures |r| == n
  {
    if n == 0 then [] else [Request(key)] + Requests(key, n - 1)
  }

  lemma {:induction false} FullBurst(counts: Counts, limit: nat, key: string, n: nat, after: seq<Event>)
    requires CountOf(counts, key) + n <= limit
    ensures Admitted(counts, limit, Requests(key, n) + after, key)
            == n + Admitted(Run(counts, limit, Requests(key, n)), limit, after, key)
    decreases n
  {
    var events := Requests(key, n) + after;
    if n == 0 {
      assert events == after;
    } else {
      assert events[0] == Request(key) && events[1..] == Requests(key, n - 1) + after;
      assert Requests(key, n)[1..] == Requests(key, n - 1);
      FullBurst(Step(counts, limit, Request(key)), limit, key, n - 1, after);
    }
  }

  /** The bound is reached: two full bursts on either side of one tick are all admitted. */
  lemma TwiceTheLimitAcrossATick(limit: nat, key: string)
    ensures var burst := Requests(key, limit);
            Ticks(burst + [Tick] + burst) == 1 && Admitted(map[], limit, burst + [Tick] + burst, key) == 2 * limit
  {
    var burst := Requests(key, limit);
    assert burst + [Tick] + burst == burst + ([Tick] + burst);
    assert ([Tick] + burst)[1..] == burst && burst + [] == burst;
    FullBurst(map[], limit, key, limit, [Tick] + burst);
    FullBurst(map[], limit, key, limit, []);
    TicksOfBurst(key, limit, [Tick] + burst);
    TicksOfBurst(key, limit, []);
  }

  lemma {:induction false} TicksOfBurst(key: string, n: nat, after: seq<Event>)
    ensures Ticks(Requests(key, n) + after) == Ticks(after)
  {
    var events := Requests(key, n) + after;
    if n == 0 {
      assert events == after;
    } else {
      assert events[0] == Request(key) && events[1..] == Requests(key, n - 1) + after;
      TicksOfBurst(key, n - 1, after);
    }
  }

  // ---------------------------------------------------------------- when a request is refused

  /** The number of requests of a key since the last tick. */
  function RequestsSinceTick(events: seq<Event>, key: string): nat {
    if events == [] || events[|events| - 1].Tick? then 0
    else RequestsSinceTick(events[..|events| - 1], key) + if events[|events| - 1] == Request(key) then 1 else 0
  }

  lemma {:induction false} RunSnoc(counts: Counts, limit: int, events: seq<Event>, e: Event)
    ensures Run(counts, limit, events + [e]) == Step(Run(counts, limit, events), limit, e)
    decreases |events|
  {
    if events == [] {
      assert [] + [e] == [e] && [e][1..] == [];
      assert Run(Step(counts, limit, e), limit, []) == Step(counts, limit, e);
    } else {
      assert (events + [e])[0] == events[0] && (events + [e])[1..] == events[1..] + [e];
      RunSnoc(Step(counts, limit, events[0]), limit, events[1..], e);
    }
  }

  /**
   * A request is refused exactly when its key has made `limit` requests since the last tick, whatever other keys
   * did: the count is the number of those requests, capped at the limit.
   */
  lemma {:induction false} RefusedExactlyAtLimit(limit: int, events: seq<Event>, key: string)
    ensures !Admits(Run(map[], limit, events), limit, key) <==> RequestsSinceTick(events, key) >= limit
    ensures var requests := RequestsSinceTick(events, key);
            CountOf(Run(map[], limit, events), key)
            == if requests <= limit then requests else if limit < 0 then 0 else limit
  {
    if events != [] {
      var front, e := events[..|events| - 1], events[|events| - 1];
      assert events == front + [e];
      RunSnoc(map[], limit, front, e);
      RefusedExactlyAtLimit(limit, front, key);
    }
  }

  // ---------------------------------------------------------------- when a stretch keeps the limit

  function Min(a: nat, b: nat): nat {
    if a < b then a else b
  }

  /**
   * The requests of a key in each piece between ticks, capped at the limit and added up; the first piece already
   * holds `n` requests from before the stretch.
   */
  function Total(limit: nat, n: nat, stretch: seq<Event>, key: string): nat
    decreases |stretch|
  {
    if stretch == [] then Min(limit, n)
    else if stretch[0].Tick? then Min(limit, n) + Total(limit, 0, stretch[1..], key)
    else Total(limit, n + if stretch[0] == Request(key) then 1 else 0, stretch[1..], key)
  }

  lemma {:induction false} AdmittedIsTotal(counts: Counts, limit: nat, n: nat, stretch: seq<Event>, key: string)
    requires CountOf(counts, key) == Min(limit, n)
    ensures Admitted(counts, limit, stretch, key) + Min(limit, n) == Total(limit, n, stretch, key)
    decreases |stretch|
  {
    if stretch != [] {
      var e := stretch[0];
      var n' := if e.Tick? then 0 else n + if e == Request(key) then 1 else 0;
      AdmittedIsTotal(Step(counts, limit, e), limit, n', stretch[1..], key);
    }
  }

  /** Earlier requests of the first piece can only take away from what the stretch admits. */
  lemma {:induction false} TotalGrowsSlowly(limit: nat, m: nat, n: nat, stretch: seq<Event>, key: string)
    ensures Total(limit, m + n, stretch, key) <= Total(limit, m, stretch, key) + Min(limit, n)
    decreases |stretch|
  {
    if stretch != [] && !stretch[0].Tick? {
      TotalGrowsSlowly(limit, m + if stretch[0] == Request(key) then 1 else 0, n, stretch[1..], key);
    }
  }

  /** Exactly how many requests of a key a stretch admits, after any past and with any ticks. */
  lemma AdmittedExactly(limit: nat, past: seq<Event>, stretch: seq<Event>, key: string)
    ensures var n := RequestsSinceTick(past, key);
            Admitted(Run(map[], limit, past), limit, stretch, key)
            == Total(limit, n, stretch, key) - Min(limit, n)
               <= Total(limit, 0, stretch, key)
  {
    var n := RequestsSinceTick(past, key);
    RefusedExactlyAtLimit(limit, past, key);
    AdmittedIsTotal(Run(map[], limit, past), limit, n, stretch, key);
    TotalGrowsSlowly(limit, 0, n, stretch, key);
  }

  /** A stretch keeps the limit, whatever came before it, exactly when its own traffic has such a total. */
  lemma KeepsLimitExactly(limit: nat, stretch: seq<Event>, key: string)
    ensures (forall past :: Admitted(Run(map[], limit, past), limit, stretch, key) <= limit)
            <==> Total(limit, 0, stretch, key) <= limit
  {
    if Total(limit, 0, stretch, key) <= limit {
      forall past ensures Admitted(Run(map[], limit, past), limit, stretch, key) <= limit {
        AdmittedExactly(limit, past, stretch, key);
      }
    } else {
      AdmittedExactly(limit, [], stretch, key);
      assert Admitted(Run(map[], limit, []), limit, stretch, key) > limit;
    }
  }

  // ---------------------------------------------------------------- spans of time

  datatype Timed = Timed(at: int, event: Event)

  ghost predicate Chronological(run: seq<Timed>) {
    forall i, j :: 0 <= i < j < |run| ==> run[i].at <= run[j].at
  }

  /** Any two ticks are at least a window apart. */
  ghost predicate TicksApart(run: seq<Timed>, window: int) {
    forall i, j :: 0 <= i < j < |run| && run[i].event.Tick? && run[j].event.Tick? ==> run[i].at + window <= run[j].at
  }

  /** Admissions of a key at moments in the half-open span (lo, hi]. */
  function AdmittedWithin(counts: Counts, limit: int, run: seq<Timed>, key: string, lo: int, hi: int): nat
    decreases |run|
  {
    if run == [] then 0
    else
      var t := run[0];
      (if lo < t.at <= hi && t.event == Request(key) && Admits(counts, limit, key) then 1 else 0)
      + AdmittedWithin(Step(counts, limit, t.event), limit, run[1..], key, lo, hi)
  }

  function TicksWithin(run: seq<Timed>, lo: int, hi: int): nat
    decreases |run|
  {
    if run == [] then 0
    else (if lo < run[0].at <= hi && run[0].event.Tick? then 1 else 0) + TicksWithin(run[1..], lo, hi)
  }

  lemma {:induction false} NothingAfterSpan(counts: Counts, limit: int, run: seq<Timed>, key: string, lo: int, hi: int)
    requires forall i :: 0 <= i < |run| ==> hi < run[i].at
    ensures AdmittedWithin(counts, limit, run, key, lo, hi) == 0
    decreases |run|
  {
    if run != [] { NothingAfterSpan(Step(counts, limit, run[0].event), limit, run[1..], key, lo, hi); }
  }

  lemma {:induction false} SpanBound(counts: Counts, limit: nat, run: seq<Timed>, key: string, lo: int, hi: int)
    requires Chronological(run) && NoneOver(counts, limit)
    ensures AdmittedWithin(counts, limit, run, key, lo, hi)
            + (if run != [] && lo < run[0].at then CountOf(counts, key) else 0)
            <= (TicksWithin(run, lo, hi) + 1) * limit
    decreases |run|
  {
    if run != [] {
      var t, rest := run[0], run[1..];
      SpanBound(Step(counts, limit, t.event), limit, rest, key, lo, hi);
      MoreTicksMoreRoom(TicksWithin(rest, lo, hi), limit);
      if hi < t.at { NothingAfterSpan(counts, limit, run, key, lo, hi); }
    }
  }

  lemma MoreTicksMoreRoom(ticks: nat, limit: nat)
    ensures (ticks + 2) * limit == (ticks + 1) * limit + limit
    ensures limit <= (ticks + 1) * limit
  {
    assert (ticks + 1) * limit == ticks * limit + limit;
  }

  lemma {:induction false} NoMoreTicksWithin(run: seq<Timed>, lo: int, hi: int)
    requires forall i :: 0 <= i < |run| && run[i].event.Tick? ==> hi < run[i].at
    ensures TicksWithin(run, lo, hi) == 0
    decreases |run|
  {
    if run != [] { NoMoreTicksWithin(run[1..], lo, hi); }
  }

  lemma {:induction false} AtMostOneTick(run: seq<Timed>, window: int, lo: int)
    requires TicksApart(run, window)
    ensures TicksWithin(run, lo, lo + window) <= 1
    decreases |run|
  {
    if run != [] {
      AtMostOneTick(run[1..], window, lo);
      if run[0].event.Tick? && lo < run[0].at { NoMoreTicksWithin(run[1..], lo, lo + window); }
    }
  }

  /** With ticks at least a window apart, no span of time of that length admits more than twice the limit of a key. */
  lemma EverySpanHoldsAtMostTwiceTheLimit(limit: nat, window: int, run: seq<Timed>, key: string, lo: int)
    requires Chronological(run) && TicksApart(run, window)
    ensures AdmittedWithin(map[], limit, run, key, lo, lo + window) <= 2 * limit
  {
    SpanBound(map[], limit, run, key, lo, lo + window);
    AtMostOneTick(run, window, lo);
  }

  // ---------------------------------------------------------------- the limiter

  class Limiter {
    const limit: int
    var requests: Counts

    constructor (limit: int)
      ensures this.limit == limit && requests == map[]
    {
      this.limit := limit;
      requests := map[];
    }

    /** The admission decision of the middleware; refusal is the 429 response. */
    method Admit(key: string) returns (admitted: bool)
      modifies this
      ensures requests == Step(old(requests), limit, Request(key))
      ensures admitted == old(Admits(requests, limit, key))
      ensures var count := if key in old(requests) then old(requests)[key] else 0;
              && (admitted <==> count < limit)
              && requests == if admitted then old(requests)[key := count + 1] else old(requests)
    {
      var count := if key in requests then requests[key] else 0;
      if count >= limit { return false; }
      requests := requests[key := count + 1];
      return true;
    }

    method CleanupTick()
      modifies this
      ensures requests == Step(old(requests), limit, Tick)
      ensures requests == map[]
    {
      requests := map[];
    }
  }
}
