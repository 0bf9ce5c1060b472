/** The token-bucket limiter, with real-valued tokens and clock readings in seconds passed to each call. */
module TokenBucket {

  // ---------------------------------------------------------------- the bucket as a value

  datatype Bucket = Bucket(capacity: real, tokens: real, rate: real, last: real)

  datatype Call =
    | Allow(amount: real, at: real)
    | Peek(at: real)  // GetAvailableTokens
    | Reset(at: real)

  function Min(a: real, b: real): real {
    if a < b then a else b
  }

  function New(capacity: real, rate: real, now: real): Bucket {
    Bucket(capacity, capacity, rate, now)
  }

  /** What flows into a bucket from one moment to another. */
  function Accrued(rate: real, from: real, to: real): real {
    rate * (to - from)
  }

  function Refilled(b: Bucket, now: real): Bucket {
    b.(tokens := Min(b.capacity, b.tokens + Accrued(b.rate, b.last, now)), last := now)
  }

  predicate Admits(b: Bucket, amount: real, now: real) {
    Refilled(b, now).tokens >= amount
  }

  function Step(b: Bucket, c: Call): Bucket {
    match c
    case Allow(amount, at) =>
      var r := Refilled(b, at);
      if r.tokens >= amount then r.(tokens := r.tokens - amount) else r
    case Peek(at) => Refilled(b, at)
    case Reset(at) => b.(tokens := b.capacity, last := at)
  }

  // ---------------------------------------------------------------- exact admission

  /** What a call withdrew, and when; refused calls and peeks withdraw nothing. */
  datatype Event = Event(at: real, amount: real)

  /**
   * A bucket with the events since its construction or its last reset, that moment included, those from before
   * that, and the moments of its resets.
   */
  datatype Metered = Metered(bucket: Bucket, log: seq<Event>, prior: seq<Event>, resets: seq<real>)

  function Start(capacity: real, rate: real, now: real): Metered {
    Metered(New(capacity, rate, now), [Event(now, 0.0)], [], [])
  }

  function Meter(m: Metered, c: Call): Metered {
    var b := Step(m.bucket, c);
    match c
    case Allow(amount, at) =>
      m.(bucket := b, log := m.log + [Event(at, if Admits(m.bucket, amount, at) then amount else 0.0)])
    case Peek(at) => m.(bucket := b, log := m.log + [Event(at, 0.0)])
    case Reset(at) => Metered(b, [Event(at, 0.0)], m.prior + m.log, m.resets + [at])
  }

  /** All events ever. */
  function AllTime(m: Metered): seq<Event> {
    m.prior + m.log
  }

  function MeterAll(m: Metered, calls: seq<Call>): Metered
    decreases |calls|
  {
    if calls == [] then m else MeterAll(Meter(m, calls[0]), calls[1..])
  }

  /** Tokens withdrawn by the events from index `j` on. */
  function Spent(log: seq<Event>, j: nat): real
    requires j <= |log|
    decreases |log|
  {
    if j == |log| then 0.0 else Spent(log[..|log| - 1], j) + log[|log| - 1].amount
  }

  /** The most that could have been withdrawn between event `j` and `now`, less what was. */
  function Slack(m: Metered, j: nat, now: real): real
    requires j < |m.log|
  {
    m.bucket.capacity + Accrued(m.bucket.rate, m.log[j].at, now) - Spent(m.log, j)
  }

  /** The level is the least slack over all events. */
  ghost predicate Exact(m: Metered) {
    && m.log != [] && m.log[|m.log| - 1].at == m.bucket.last
    && (forall j :: 0 <= j < |m.log| ==> m.bucket.tokens <= Slack(m, j, m.bucket.last))
    && (exists j :: 0 <= j < |m.log| && m.bucket.tokens == Slack(m, j, m.bucket.last))
  }

  lemma AccruedIsProduct(rate: real, from: real, to: real)
    ensures Accrued(rate, from, to) == rate * (to - from)
  {
  }

  lemma AccruedInTime(rate: real, from: real, to: real, elapsed: real)
    requires elapsed == to - from
    ensures elapsed * rate == Accrued(rate, from, to) == rate * (to - from)
  {
    AccruedIsProduct(rate, from, to);
  }

  lemma AccruedAdds(rate: real, t0: real, t1: real, t2: real)
    ensures Accrued(rate, t0, t1) + Accrued(rate, t1, t2) == Accrued(rate, t0, t2)
    ensures Accrued(rate, t0, t0) == 0.0
  {
  }

  lemma AccruedGrows(rate: real, u: real, s: real, t: real, v: real)
    requires rate >= 0.0 && u <= s <= t <= v
    ensures 0.0 <= Accrued(rate, s, t) <= Accrued(rate, u, v)
  {
    assert rate * (s - u) >= 0.0 && rate * (t - s) >= 0.0 && rate * (v - t) >= 0.0;
  }

  lemma StartExact(capacity: real, rate: real, now: real)
    ensures Exact(Start(capacity, rate, now))
  {
    var m := Start(capacity, rate, now);
    AccruedAdds(rate, now, now, now);
    assert Spent(m.log[..0], 0) == 0.0;
    assert m.bucket.tokens == Slack(m, 0, now);
  }

  lemma RefilledSlack(m: Metered, now: real)
    requires Exact(m)
    ensures var level := Refilled(m.bucket, now).tokens;
            && level <= m.bucket.capacity
            && (forall j :: 0 <= j < |m.log| ==> level <= Slack(m, j, now))
            && (level == m.bucket.capacity || exists j :: 0 <= j < |m.log| && level == Slack(m, j, now))
  {
    var gain := Accrued(m.bucket.rate, m.bucket.last, now);
    forall j | 0 <= j < |m.log| ensures Slack(m, j, now) == Slack(m, j, m.bucket.last) + gain {
      AccruedAdds(m.bucket.rate, m.log[j].at, m.bucket.last, now);
    }
  }

  lemma MeterExact(m: Metered, c: Call)
    requires Exact(m)
    ensures Exact(Meter(m, c))
  {
    var m' := Meter(m, c);
    var n := |m.log|;
    AccruedAdds(m.bucket.rate, c.at, c.at, c.at);
    if c.Reset? {
      assert Spent(m'.log[..0], 0) == 0.0;
      assert m'.bucket.tokens == Slack(m', 0, c.at);
    } else {
      RefilledSlack(m, c.at);
      var amount := m'.log[n].amount;
      assert m'.log[..n] == m.log;
      assert m'.bucket.tokens == Refilled(m.bucket, c.at).tokens - amount;
      forall j | 0 <= j < n ensures Slack(m', j, c.at) == Slack(m, j, c.at) - amount {}
      assert Spent(m'.log[..n], n) == 0.0;
      assert Slack(m', n, c.at) == m.bucket.capacity - amount;
      assert exists j :: 0 <= j < |m'.log| && m'.bucket.tokens == Slack(m', j, c.at) by {
        if m'.bucket.tokens != Slack(m', n, c.at) {
          var j :| 0 <= j < n && Refilled(m.bucket, c.at).tokens == Slack(m, j, c.at);
          assert m'.bucket.tokens == Slack(m', j, c.at);
        }
      }
    }
  }

  lemma {:induction false} MeterAllExact(m: Metered, calls: seq<Call>)
    requires Exact(m)
    ensures Exact(MeterAll(m, calls))
    decreases |calls|
  {
    if calls != [] {
      MeterExact(m, calls[0]);
      MeterAllExact(Meter(m, calls[0]), calls[1..]);
    }
  }

  /**
   * After any calls, at any clock readings and with any sign of capacity, rate and amounts, a request is
   * admitted exactly when it fits the capacity and, from every event since construction or the last reset, what was
   * withdrawn since then and the request together fit the capacity and what has flowed in since then.
   */
  lemma AdmitsExactly(capacity: real, rate: real, start: real, calls: seq<Call>, amount: real, now: real)
    ensures var m := MeterAll(Start(capacity, rate, start), calls);
            Admits(m.bucket, amount, now)
            <==> && amount <= capacity
                 && forall j :: 0 <= j < |m.log| ==>
                      Spent(m.log, j) + amount <= capacity + rate * (now - m.log[j].at)
  {
    hide *;
    var m0 := Start(capacity, rate, start);
    StartExact(capacity, rate, start);
    MeterAllExact(m0, calls);
    StartParameters(capacity, rate, start, calls);
    AdmitsByLog(MeterAll(m0, calls), amount, now);
  }

  lemma AdmitsByLog(m: Metered, amount: real, now: real)
    requires Exact(m)
    ensures Admits(m.bucket, amount, now)
            <==> && amount <= m.bucket.capacity
                 && forall j :: 0 <= j < |m.log| ==>
                      Spent(m.log, j) + amount <= m.bucket.capacity + m.bucket.rate * (now - m.log[j].at)
  {
    hide Accrued, Exact;
    RefilledSlack(m, now);
    forall j | 0 <= j < |m.log|
      ensures Slack(m, j, now) == m.bucket.capacity + m.bucket.rate * (now - m.log[j].at) - Spent(m.log, j)
    {
      AccruedIsProduct(m.bucket.rate, m.log[j].at, now);
    }
  }

  // ---------------------------------------------------------------- bound on every interval

  /** Tokens withdrawn at moments from `u` to `v`, both included. */
  function SpentWithin(log: seq<Event>, u: real, v: real): real {
    if log == [] then 0.0
    else
      var e := log[|log| - 1];
      SpentWithin(log[..|log| - 1], u, v) + if u <= e.at <= v then e.amount else 0.0
  }

  ghost predicate Chronological(log: seq<Event>) {
    forall i, j :: 0 <= i < j < |log| ==> log[i].at <= log[j].at
  }

  ghost predicate ClockAdvances(from: real, calls: seq<Call>)
    decreases |calls|
  {
    calls != [] ==> from <= calls[0].at && ClockAdvances(calls[0].at, calls[1..])
  }

  /** In a chronological log that ends by `v`, the interval's withdrawals are those of the suffix from `u` on. */
  lemma {:induction false} SpentWithinIsSuffix(log: seq<Event>, u: real, v: real) returns (j: nat)
    requires Chronological(log)
    requires forall i :: 0 <= i < |log| ==> log[i].at <= v
    ensures j <= |log| && SpentWithin(log, u, v) == Spent(log, j)
    ensures forall i :: j <= i < |log| ==> u <= log[i].at
    ensures forall i :: 0 <= i < j ==> log[i].at < u
  {
    if log == [] {
      j := 0;
    } else {
      var front := log[..|log| - 1];
      var k := SpentWithinIsSuffix(front, u, v);
      if log[|log| - 1].at < u {
        assert k == |front| by { assert forall i :: 0 <= i < |front| ==> front[i].at == log[i].at; }
        j := |log|;
      } else {
        j := k;
      }
    }
  }

  ghost predicate WithinRate(m: Metered, u: real, v: real) {
    SpentWithin(m.log, u, v) <= m.bucket.capacity + Accrued(m.bucket.rate, u, v)
  }

  /** The events since the last reset are in order and within the rate on every interval. */
  ghost predicate RateKept(m: Metered) {
    && Exact(m) && Chronological(m.log)
    && m.bucket.capacity >= 0.0 && m.bucket.rate >= 0.0
    && forall u, v :: u <= v ==> WithinRate(m, u, v)
  }

  lemma MeterKeepsRate(m: Metered, c: Call, u: real, v: real)
    requires RateKept(m) && m.bucket.last <= c.at && u <= v
    ensures WithinRate(Meter(m, c), u, v)
  {
    var m' := Meter(m, c);
    assert WithinRate(m, u, v);
    AccruedGrows(m.bucket.rate, u, u, v, v);
    if c.Reset? {
      assert SpentWithin(m'.log[..0], u, v) == 0.0;
    } else {
      assert m'.log[..|m.log|] == m.log;
      if u <= c.at <= v && c.Allow? && Admits(m.bucket, c.amount, c.at) {
        RefilledSlack(m, c.at);
        var j := SpentWithinIsSuffix(m.log, u, v);
        if j < |m.log| {
          assert c.amount <= Slack(m, j, c.at);
          AccruedGrows(m.bucket.rate, u, m.log[j].at, c.at, v);
        } else {
          assert SpentWithin(m.log, u, v) == 0.0;
        }
      }
    }
  }

  lemma MeterRateKept(m: Metered, c: Call)
    requires RateKept(m) && m.bucket.last <= c.at
    ensures RateKept(Meter(m, c))
  {
    MeterExact(m, c);
    forall u, v | u <= v ensures WithinRate(Meter(m, c), u, v) {
      MeterKeepsRate(m, c, u, v);
    }
  }

  // ---------------------------------------------------------------- resets

  function CountWithin(moments: seq<real>, u: real, v: real): nat {
    if moments == [] then 0
    else
      var last := moments[|moments| - 1];
      CountWithin(moments[..|moments| - 1], u, v) + if u <= last <= v then 1 else 0
  }

  /** As many full buckets as there are resets in the interval. */
  function Refunds(m: Metered, u: real, v: real): real {
    CountWithin(m.resets, u, v) as real * m.bucket.capacity
  }

  ghost predicate AllAtMost(log: seq<Event>, t: real) {
    forall i :: 0 <= i < |log| ==> log[i].at <= t
  }

  /**
   * What was withdrawn in the interval before the last reset, at `s`, is covered by the resets in the interval and
   * the inflow up to `s`.
   */
  ghost predicate PriorCovered(m: Metered, u: real, v: real)
    requires m.log != []
  {
    var s, spent := m.log[0].at, SpentWithin(m.prior, u, v);
    && AllAtMost(m.prior, m.bucket.last) && s <= m.bucket.last
    && (s < u ==> spent == 0.0)
    && (u <= s <= v ==> spent <= Refunds(m, u, v) + Accrued(m.bucket.rate, u, s))
    && (v < s ==> spent <= Refunds(m, u, v) + m.bucket.capacity + Accrued(m.bucket.rate, u, v))
  }

  lemma {:induction false} SpentWithinConcat(a: seq<Event>, b: seq<Event>, u: real, v: real)
    ensures SpentWithin(a + b, u, v) == SpentWithin(a, u, v) + SpentWithin(b, u, v)
  {
    if b == [] {
      assert a + b == a;
    } else {
      assert (a + b)[..|a + b| - 1] == a + b[..|b| - 1];
      SpentWithinConcat(a, b[..|b| - 1], u, v);
    }
  }

  /** Intervals that hold the same events of a log see the same withdrawn. */
  lemma {:induction false} SpentWithinSame(log: seq<Event>, u: real, v: real, u': real, v': real)
    requires forall i :: 0 <= i < |log| ==> (u <= log[i].at <= v <==> u' <= log[i].at <= v')
    ensures SpentWithin(log, u, v) == SpentWithin(log, u', v')
  {
    if log != [] { SpentWithinSame(log[..|log| - 1], u, v, u', v'); }
  }

  lemma {:induction false} NothingSpentWithin(log: seq<Event>, u: real, v: real)
    requires forall i :: 0 <= i < |log| ==> !(u <= log[i].at <= v)
    ensures SpentWithin(log, u, v) == 0.0
  {
    if log != [] { NothingSpentWithin(log[..|log| - 1], u, v); }
  }

  lemma RefundsOf(m: Metered, at: real, u: real, v: real)
    requires m.bucket.capacity >= 0.0
    ensures var m' := Meter(m, Reset(at));
            Refunds(m', u, v) == Refunds(m, u, v) + if u <= at <= v then m.bucket.capacity else 0.0
    ensures Refunds(m, u, v) >= 0.0
  {
    assert (m.resets + [at])[..|m.resets|] == m.resets;
    var r, capacity := CountWithin(m.resets, u, v) as real, m.bucket.capacity;
    assert (r + 1.0) * capacity == r * capacity + capacity;
  }

  /** The withdrawals since the last reset, at `s`, within an interval of events no later than `w`. */
  lemma SpentSinceReset(m: Metered, u: real, v: real, w: real)
    requires RateKept(m) && u <= w <= v
    requires AllAtMost(m.log, w) || w == v
    ensures var s := m.log[0].at;
            && (s <= u ==> SpentWithin(m.log, u, v) <= m.bucket.capacity + Accrued(m.bucket.rate, u, w))
            && (u <= s <= w ==> SpentWithin(m.log, u, v) <= m.bucket.capacity + Accrued(m.bucket.rate, s, w))
            && (v < s ==> SpentWithin(m.log, u, v) == 0.0)
  {
    var s := m.log[0].at;
    SpentWithinSame(m.log, u, v, u, w);
    assert WithinRate(m, u, w);
    if u <= s <= w {
      SpentWithinSame(m.log, u, w, s, w);
      assert WithinRate(m, s, w);
    }
    if v < s { NothingSpentWithin(m.log, u, v); }
  }

  /** All that was ever withdrawn in an interval whose events are no later than `w`. */
  lemma AllTimeCovered(m: Metered, u: real, v: real, w: real)
    requires RateKept(m) && PriorCovered(m, u, v) && u <= w <= v
    requires w == v || (AllAtMost(m.log, w) && m.log[0].at <= w)
    ensures SpentWithin(AllTime(m), u, v) <= Refunds(m, u, v) + m.bucket.capacity + Accrued(m.bucket.rate, u, w)
  {
    var s, rate := m.log[0].at, m.bucket.rate;
    SpentWithinConcat(m.prior, m.log, u, v);
    SpentSinceReset(m, u, v, w);
    RefundsOf(m, s, u, v);
    if u <= s <= w { AccruedAdds(rate, u, s, w); }
  }

  lemma LogAtMostLast(m: Metered)
    requires Exact(m) && Chronological(m.log)
    ensures AllAtMost(m.log, m.bucket.last)
  {
  }

  lemma ResetKeepsCovered(m: Metered, at: real, u: real, v: real)
    requires RateKept(m) && PriorCovered(m, u, v) && m.bucket.last <= at && u <= v
    ensures PriorCovered(Meter(m, Reset(at)), u, v)
  {
    LogAtMostLast(m);
    RefundsOf(m, at, u, v);
    if at < u {
      NothingSpentWithin(m.prior + m.log, u, v);
    } else {
      AllTimeCovered(m, u, v, if at <= v then at else v);
    }
  }

  lemma OtherCallsKeepCovered(m: Metered, c: Call, u: real, v: real)
    requires RateKept(m) && PriorCovered(m, u, v) && m.bucket.last <= c.at && !c.Reset?
    ensures PriorCovered(Meter(m, c), u, v)
  {
    hide SpentWithin, CountWithin, Accrued, Slack, Spent, WithinRate, Admits, Refilled;
    var m' := Meter(m, c);
    assert m'.prior == m.prior && m'.resets == m.resets && m'.log[0] == m.log[0];
    KeepsParameters(m.bucket, c);
  }

  lemma KeepsParameters(b: Bucket, c: Call)
    ensures var b' := Step(b, c); b'.capacity == b.capacity && b'.rate == b.rate && b'.last == c.at
  {
  }

  lemma {:induction false} MeterAllCovered(m: Metered, calls: seq<Call>, u: real, v: real)
    requires RateKept(m) && PriorCovered(m, u, v) && u <= v && ClockAdvances(m.bucket.last, calls)
    ensures var m' := MeterAll(m, calls); RateKept(m') && PriorCovered(m', u, v)
    decreases |calls|
  {
    hide RateKept, PriorCovered;
    if calls != [] {
      var c := calls[0];
      MeterRateKept(m, c);
      if c.Reset? { ResetKeepsCovered(m, c.at, u, v); } else { OtherCallsKeepCovered(m, c, u, v); }
      MeterAllCovered(Meter(m, c), calls[1..], u, v);
    }
  }

  lemma StartCovered(capacity: real, rate: real, start: real, u: real, v: real)
    requires capacity >= 0.0 && rate >= 0.0 && u <= v
    ensures var m := Start(capacity, rate, start); RateKept(m) && PriorCovered(m, u, v)
  {
    var m := Start(capacity, rate, start);
    StartExact(capacity, rate, start);
    forall u, v | u <= v ensures WithinRate(m, u, v) {
      assert SpentWithin(m.log[..0], u, v) == 0.0;
      AccruedGrows(rate, u, u, v, v);
    }
    AccruedGrows(rate, u, u, v, v);
    if u <= start <= v { AccruedGrows(rate, u, u, start, v); }
  }

  /**
   * With a clock that never goes back, at most capacity + rate * length of all that was ever withdrawn leaves in
   * any interval of time, and one capacity more for each reset in that interval.
   */
  lemma EveryIntervalBounded(capacity: real, rate: real, start: real, calls: seq<Call>, u: real, v: real)
    requires capacity >= 0.0 && rate >= 0.0 && u <= v && ClockAdvances(start, calls)
    ensures var m := MeterAll(Start(capacity, rate, start), calls);
            SpentWithin(AllTime(m), u, v)
            <= (1 + CountWithin(m.resets, u, v)) as real * capacity + rate * (v - u)
  {
    hide *;
    var m := Start(capacity, rate, start);
    StartParameters(capacity, rate, start, calls);
    StartCovered(capacity, rate, start, u, v);
    MeterAllCovered(m, calls, u, v);
    AllTimeWithinBudget(MeterAll(m, calls), u, v);
  }

  lemma StartParameters(capacity: real, rate: real, start: real, calls: seq<Call>)
    ensures var b := MeterAll(Start(capacity, rate, start), calls).bucket; b.capacity == capacity && b.rate == rate
    ensures Start(capacity, rate, start).bucket.last == start
  {
    ParametersFixed(Start(capacity, rate, start), calls);
  }

  lemma AllTimeWithinBudget(m: Metered, u: real, v: real)
    requires RateKept(m) && PriorCovered(m, u, v) && u <= v
    ensures SpentWithin(AllTime(m), u, v)
            <= (1 + CountWithin(m.resets, u, v)) as real * m.bucket.capacity + m.bucket.rate * (v - u)
  {
    hide SpentWithin, CountWithin, Accrued, RateKept, PriorCovered;
    AllTimeCovered(m, u, v, v);
    AccruedIsProduct(m.bucket.rate, u, v);
    var r := CountWithin(m.resets, u, v);
    OneMoreRefund(r, m.bucket.capacity);
    var refunds := r as real * m.bucket.capacity;
    assert refunds == Refunds(m, u, v);
  }

  lemma OneMoreRefund(r: nat, capacity: real)
    ensures (1 + r) as real * capacity == r as real * capacity + capacity
  {
    assert (1 + r) as real == r as real + 1.0;
    assert (r as real + 1.0) * capacity == r as real * capacity + capacity;
  }

  /** Without the resets: the withdrawals since the last reset stay within the rate on every interval. */
  lemma EveryIntervalSinceResetBounded(capacity: real, rate: real, start: real, calls: seq<Call>, u: real, v: real)
    requires capacity >= 0.0 && rate >= 0.0 && u <= v && ClockAdvances(start, calls)
    ensures SpentWithin(MeterAll(Start(capacity, rate, start), calls).log, u, v) <= capacity + rate * (v - u)
  {
    hide *;
    var m0 := Start(capacity, rate, start);
    StartParameters(capacity, rate, start, calls);
    StartCovered(capacity, rate, start, u, v);
    MeterAllCovered(m0, calls, u, v);
    RateKeptOn(MeterAll(m0, calls), u, v);
  }

  lemma RateKeptOn(m: Metered, u: real, v: real)
    requires RateKept(m) && u <= v
    ensures SpentWithin(m.log, u, v) <= m.bucket.capacity + m.bucket.rate * (v - u)
  {
    assert WithinRate(m, u, v);
  }

  lemma {:induction false} ParametersFixed(m: Metered, calls: seq<Call>)
    ensures var m' := MeterAll(m, calls);
            m'.bucket.capacity == m.bucket.capacity && m'.bucket.rate == m.bucket.rate
    decreases |calls|
  {
    if calls != [] { ParametersFixed(Meter(m, calls[0]), calls[1..]); }
  }

  // ---------------------------------------------------------------- idle calls leave no trace

  /** Refilling in two steps is refilling once: the lazy refill does not depend on when it happens. */
  lemma RefillComposes(b: Bucket, t1: real, t2: real)
    requires b.rate >= 0.0 && t1 <= t2
    ensures Refilled(Refilled(b, t1), t2) == Refilled(b, t2)
  {
    AccruedAdds(b.rate, b.last, t1, t2);
    AccruedGrows(b.rate, t1, t1, t2, t2);
  }

  /** A call that withdraws nothing: a peek or a refused request. */
  predicate Idle(b: Bucket, c: Call) {
    c.Peek? || (c.Allow? && !Admits(b, c.amount, c.at))
  }

  /** `keep` selects calls of a run from `b`, leaving out idle ones only. */
  predicate DropsOnlyIdle(b: Bucket, calls: seq<Call>, keep: seq<bool>)
    decreases |calls|
  {
    && |keep| == |calls|
    && (calls != [] ==> (keep[0] || Idle(b, calls[0])) && DropsOnlyIdle(Step(b, calls[0]), calls[1..], keep[1..]))
  }

  function Kept<T>(xs: seq<T>, keep: seq<bool>): seq<T>
    requires |keep| == |xs|
    decreases |xs|
  {
    if xs == [] then [] else (if keep[0] then [xs[0]] else []) + Kept(xs[1..], keep[1..])
  }

  /** What a call tells its caller. */
  datatype Answer = Decision(admitted: bool) | Level(tokens: real) | Done

  function Answered(b: Bucket, c: Call): Answer {
    match c
    case Allow(amount, at) => Decision(Admits(b, amount, at))
    case Peek(at) => Level(Refilled(b, at).tokens)
    case Reset(_) => Done
  }

  function Answers(b: Bucket, calls: seq<Call>): (r: seq<Answer>)
    ensures |r| == |calls|
    decreases |calls|
  {
    if calls == [] then [] else [Answered(b, calls[0])] + Answers(Step(b, calls[0]), calls[1..])
  }

  /** `b` is what `lagging` becomes once it is refilled, or is `lagging` itself. */
  ghost predicate CatchesUp(lagging: Bucket, b: Bucket) {
    lagging == b || (lagging.last <= b.last && Refilled(lagging, b.last) == b)
  }

  lemma CatchUpAt(lagging: Bucket, b: Bucket, now: real)
    requires CatchesUp(lagging, b) && b.rate >= 0.0 && b.last <= now
    ensures Refilled(lagging, now) == Refilled(b, now)
  {
    if lagging != b { RefillComposes(lagging, b.last, now); }
  }

  /** Leaving out any choice of idle calls changes no answer to the other calls. */
  lemma {:induction false} IdleCallsLeaveNoTrace(lagging: Bucket, b: Bucket, calls: seq<Call>, keep: seq<bool>)
    requires CatchesUp(lagging, b) && b.rate >= 0.0
    requires ClockAdvances(b.last, calls) && DropsOnlyIdle(b, calls, keep)
    ensures Answers(lagging, Kept(calls, keep)) == Kept(Answers(b, calls), keep)
    decreases |calls|
  {
    if calls != [] {
      var c := calls[0];
      CatchUpAt(lagging, b, c.at);
      if keep[0] {
        assert Kept(calls, keep)[1..] == Kept(calls[1..], keep[1..]);
        assert Answered(lagging, c) == Answered(b, c);
        assert Step(lagging, c) == Step(b, c);
        IdleCallsLeaveNoTrace(Step(b, c), Step(b, c), calls[1..], keep[1..]);
      } else {
        assert Kept(calls, keep) == Kept(calls[1..], keep[1..]);
        IdleCallsLeaveNoTrace(lagging, Step(b, c), calls[1..], keep[1..]);
      }
    }
  }

  // ---------------------------------------------------------------- the level stays in range

  ghost predicate NonNegativeRequests(calls: seq<Call>) {
    forall i :: 0 <= i < |calls| && calls[i].Allow? ==> calls[i].amount >= 0.0
  }

  predicate InBounds(b: Bucket) {
    0.0 <= b.tokens <= b.capacity
  }

  lemma {:induction false} LevelStaysInBounds(m: Metered, calls: seq<Call>)
    requires InBounds(m.bucket) && m.bucket.rate >= 0.0
    requires ClockAdvances(m.bucket.last, calls) && NonNegativeRequests(calls)
    ensures InBounds(MeterAll(m, calls).bucket)
    decreases |calls|
  {
    if calls != [] {
      var c := calls[0];
      AccruedGrows(m.bucket.rate, m.bucket.last, m.bucket.last, c.at, c.at);
      assert forall i :: 0 <= i < |calls[1..]| ==> calls[1..][i] == calls[i + 1];
      LevelStaysInBounds(Meter(m, c), calls[1..]);
    }
  }

  // ---------------------------------------------------------------- the limiter

  class TokenBucket {
    const capacity: real
    const refillRate: real
    var tokensAvailable: real
    var lastRefillTime: real

    function State(): Bucket
      reads this
    {
      Bucket(capacity, tokensAvailable, refillRate, lastRefillTime)
    }

    constructor (capacity: real, refillRate: real, now: real)
      ensures State() == New(capacity, refillRate, now)
      ensures this.capacity == capacity && this.refillRate == refillRate
      ensures tokensAvailable == capacity && lastRefillTime == now
    {
      this.capacity := capacity;
      tokensAvailable := capacity;
      this.refillRate := refillRate;
      lastRefillTime := now;
    }

    method Refill(now: real)
      modifies this
      ensures State() == Refilled(old(State()), now)
      ensures lastRefillTime == now
      ensures var sum := old(tokensAvailable) + refillRate * (now - old(lastRefillTime));
              tokensAvailable == if sum <= capacity then sum else capacity
    {
      hide Accrued;
      var elapsed := now - lastRefillTime;
      AccruedInTime(refillRate, lastRefillTime, now, elapsed);
      lastRefillTime := now;
      var tokensToAdd := elapsed * refillRate;
      tokensAvailable := Min(capacity, tokensAvailable + tokensToAdd);
    }

    method Allow(tokens: real, now: real) returns (ok: bool)
      modifies this
      ensures State() == Step(old(State()), Call.Allow(tokens, now))
      ensures ok == old(Admits(State(), tokens, now))
      ensures lastRefillTime == now
      ensures var sum := old(tokensAvailable) + refillRate * (now - old(lastRefillTime));
              && (ok <==> tokens <= sum && tokens <= capacity)
              && tokensAvailable == (if sum <= capacity then sum else capacity) - if ok then tokens else 0.0
    {
      Refill(now);
      if tokensAvailable >= tokens {
        tokensAvailable := tokensAvailable - tokens;
        return true;
      }
      return false;
    }

    method AllowN(n: int, now: real) returns (ok: bool)
      modifies this
      ensures State() == Step(old(State()), Call.Allow(n as real, now))
      ensures ok == old(Admits(State(), n as real, now))
      ensures lastRefillTime == now
      ensures var sum := old(tokensAvailable) + refillRate * (now - old(lastRefillTime));
              && (ok <==> n as real <= sum && n as real <= capacity)
              && tokensAvailable == (if sum <= capacity then sum else capacity) - if ok then n as real else 0.0
    {
      ok := Allow(n as real, now);
    }

    method GetAvailableTokens(now: real) returns (tokens: real)
      modifies this
      ensures State() == Step(old(State()), Peek(now))
      ensures tokens == old(Refilled(State(), now).tokens)
      ensures lastRefillTime == now && tokens == tokensAvailable
      ensures var sum := old(tokensAvailable) + refillRate * (now - old(lastRefillTime));
              tokens == if sum <= capacity then sum else capacity
    {
      Refill(now);
      tokens := tokensAvailable;
    }

    method Reset(now: real)
      modifies this
      ensures State() == New(capacity, refillRate, now)
      ensures State() == Step(old(State()), Call.Reset(now))
      ensures tokensAvailable == capacity && lastRefillTime == now
    {
      tokensAvailable := capacity;
      lastRefillTime := now;
    }
  }
}
