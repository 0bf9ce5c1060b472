/** The least-connections balancer: a count of open connections per origin. */
module LeastConn {
  import opened Models
  import RR = RoundRobin

  type Conns = map<string, Int>

  // ---------------------------------------------------------------- one selection

  function CountOf(conns: Conns, id: string): Int {
    if id in conns then conns[id] else 0
  }

  function Loads(conns: Conns, origins: seq<Origin>): (r: seq<Int>)
    ensures |r| == |origins|
    ensures forall i :: 0 <= i < |r| ==> r[i] == CountOf(conns, origins[i].id)
  {
    seq(|origins|, i requires 0 <= i < |origins| => CountOf(conns, origins[i].id))
  }

  /** Index `m` is the first of the least loaded. */
  ghost predicate IsFirstLeast(loads: seq<int>, m: int) {
    && 0 <= m < |loads|
    && (forall i :: 0 <= i < |loads| ==> loads[m] <= loads[i])
    && (forall i :: 0 <= i < m ==> loads[m] < loads[i])
  }

  lemma {:induction false} FirstLeastExists(loads: seq<int>) returns (m: int)
    requires loads != []
    ensures IsFirstLeast(loads, m)
  {
    var front := loads[..|loads| - 1];
    if front == [] {
      m := 0;
    } else {
      m := FirstLeastExists(front);
      assert forall i :: 0 <= i < |front| ==> front[i] == loads[i];
      if loads[|loads| - 1] < front[m] { m := |loads| - 1; }
    }
  }

  lemma SomeFirstLeast(loads: seq<int>)
    requires loads != []
    ensures exists m :: IsFirstLeast(loads, m)
  {
    var m := FirstLeastExists(loads);
  }

  ghost function FirstLeast(loads: seq<int>): (m: int)
    requires loads != []
    ensures IsFirstLeast(loads, m)
  {
    SomeFirstLeast(loads);
    var m :| IsFirstLeast(loads, m);
    m
  }

  function Incremented(conns: Conns, id: string): Conns {
    conns[id := WrappingInc(CountOf(conns, id))]
  }

  function Decremented(conns: Conns, id: string): Conns {
    if CountOf(conns, id) > 0 then conns[id := conns[id] - 1] else conns
  }

  /** Selecting an origin and opening a connection to it. */
  ghost function Serve(conns: Conns, origins: seq<Origin>): Conns
    requires origins != []
  {
    Incremented(conns, origins[FirstLeast(Loads(conns, origins))].id)
  }

  ghost function ServeMany(conns: Conns, origins: seq<Origin>, n: nat): Conns
    requires origins != []
  {
    if n == 0 then conns else Serve(ServeMany(conns, origins, n - 1), origins)
  }

  /** The position selected when `n` requests have been served and no connection closed. */
  ghost function Pick(conns: Conns, origins: seq<Origin>, n: nat): int
    requires origins != []
  {
    FirstLeast(Loads(ServeMany(conns, origins, n), origins))
  }

  // ---------------------------------------------------------------- the loads of the listed origins

  /** One more connection for the first of the least loaded. */
  ghost function Raise(loads: seq<Int>): (r: seq<Int>)
    requires loads != []
    ensures |r| == |loads|
  {
    loads[FirstLeast(loads) := WrappingInc(loads[FirstLeast(loads)])]
  }

  ghost function RaiseMany(loads: seq<Int>, n: nat): (r: seq<Int>)
    requires loads != []
    ensures |r| == |loads|
  {
    if n == 0 then loads else Raise(RaiseMany(loads, n - 1))
  }

  lemma ServeRaises(conns: Conns, origins: seq<Origin>)
    requires origins != [] && DistinctIds(origins)
    ensures Loads(Serve(conns, origins), origins) == Raise(Loads(conns, origins))
  {
    var loads := Loads(conns, origins);
    var m := FirstLeast(loads);
    forall i | 0 <= i < |loads| && i != m ensures Loads(Serve(conns, origins), origins)[i] == loads[i] {
      assert origins[i].id != origins[m].id;
    }
  }

  lemma {:induction false} ServeManyRaises(conns: Conns, origins: seq<Origin>, n: nat)
    requires origins != [] && DistinctIds(origins)
    ensures Loads(ServeMany(conns, origins, n), origins) == RaiseMany(Loads(conns, origins), n)
  {
    if n > 0 {
      ServeManyRaises(conns, origins, n - 1);
      ServeRaises(ServeMany(conns, origins, n - 1), origins);
    }
  }

  /** The difference between the greatest and the least load is at most `d`. */
  ghost predicate SpreadAtMost(loads: seq<int>, d: int) {
    forall i, j :: 0 <= i < |loads| && 0 <= j < |loads| ==> loads[i] - loads[j] <= d
  }

  ghost predicate AtMost(loads: seq<int>, top: int) {
    forall i :: 0 <= i < |loads| ==> loads[i] <= top
  }

  /** Serving a request never raises the spread above the greater of its old value and 1. */
  lemma ServingKeepsSpread(conns: Conns, origins: seq<Origin>, d: int)
    requires origins != [] && DistinctIds(origins)
    requires exists i :: 0 <= i < |origins| && Loads(conns, origins)[i] < MAX_INT
    requires SpreadAtMost(Loads(conns, origins), d)
    ensures SpreadAtMost(Loads(Serve(conns, origins), origins), if d > 1 then d else 1)
  {
    ServeRaises(conns, origins);
  }

  // ---------------------------------------------------------------- selections in flight

  /** The counts, and the origins that were selected but whose connection is not counted yet. */
  datatype Traffic = Traffic(conns: Conns, inFlight: multiset<string>)

  /** Selecting and counting lock separately, so other calls may come between them. */
  datatype Phase = Selected | Counted(id: string)

  ghost function Advance(t: Traffic, origins: seq<Origin>, e: Phase): Traffic
    requires origins != []
  {
    match e
    case Selected =>
      t.(inFlight := t.inFlight + multiset{origins[FirstLeast(Loads(t.conns, origins))].id})
    case Counted(id) =>
      if id in t.inFlight then Traffic(Incremented(t.conns, id), t.inFlight - multiset{id}) else t
  }

  ghost function AdvanceAll(t: Traffic, origins: seq<Origin>, events: seq<Phase>): Traffic
    requires origins != []
    decreases |events|
  {
    if events == [] then t else AdvanceAll(Advance(t, origins, events[0]), origins, events[1..])
  }

  ghost predicate InFlightAtMost(t: Traffic, origins: seq<Origin>, events: seq<Phase>, k: nat)
    requires origins != []
    decreases |events|
  {
    && |t.inFlight| <= k
    && (events != [] ==> InFlightAtMost(Advance(t, origins, events[0]), origins, events[1..], k))
  }

  /** The count of an origin once everything in flight is counted. */
  ghost function Committed(t: Traffic, id: string): int {
    CountOf(t.conns, id) + t.inFlight[id]
  }

  ghost predicate CommittedSpread(t: Traffic, origins: seq<Origin>, d: int, top: int) {
    forall i, j :: 0 <= i < |origins| && 0 <= j < |origins| ==>
                     && Committed(t, origins[i].id) <= CountOf(t.conns, origins[j].id) + d
                     && Committed(t, origins[i].id) <= top
  }

  lemma MultiplicityAtMostSize(m: multiset<string>, id: string)
    ensures m[id] <= |m|
  {
    assert |m[id := 0]| == |m| - m[id];
  }

  lemma SelectedKeepsSpread(t: Traffic, origins: seq<Origin>, d: int, top: int)
    requires origins != [] && CommittedSpread(t, origins, d, top)
    requires |Advance(t, origins, Selected).inFlight| <= d
    ensures CommittedSpread(Advance(t, origins, Selected), origins, d, top + 1)
  {
    var t' := Advance(t, origins, Selected);
    var loads := Loads(t.conns, origins);
    var m := FirstLeast(loads);
    MultiplicityAtMostSize(t'.inFlight, origins[m].id);
    forall i, j | 0 <= i < |origins| && 0 <= j < |origins|
      ensures Committed(t', origins[i].id) <= CountOf(t.conns, origins[j].id) + d
      ensures Committed(t', origins[i].id) <= top + 1
    {
      assert loads[m] <= loads[j];
      assert Committed(t, origins[i].id) <= CountOf(t.conns, origins[j].id) + d;
    }
  }

  /** Counting a selection leaves what an origin is committed to as it is, and lowers no count. */
  lemma CountedKeepsCommitted(t: Traffic, origins: seq<Origin>, id: string, other: string)
    requires origins != [] && Committed(t, other) <= MAX_INT
    ensures var t' := Advance(t, origins, Counted(id));
            Committed(t', other) == Committed(t, other) && CountOf(t.conns, other) <= CountOf(t'.conns, other)
  {
  }

  lemma AdvanceKeepsSpread(t: Traffic, origins: seq<Origin>, e: Phase, d: int, top: int)
    requires origins != [] && CommittedSpread(t, origins, d, top) && top < MAX_INT
    requires |Advance(t, origins, e).inFlight| <= d
    ensures CommittedSpread(Advance(t, origins, e), origins, d, top + 1)
  {
    if e.Selected? {
      SelectedKeepsSpread(t, origins, d, top);
    } else {
      hide Advance, Committed, CountOf;
      var t' := Advance(t, origins, e);
      forall i, j | 0 <= i < |origins| && 0 <= j < |origins|
        ensures Committed(t', origins[i].id) <= CountOf(t'.conns, origins[j].id) + d
        ensures Committed(t', origins[i].id) <= top + 1
      {
        assert Committed(t, origins[i].id) <= CountOf(t.conns, origins[j].id) + d;
        assert Committed(t, origins[i].id) <= top && Committed(t, origins[j].id) <= top;
        CountedKeepsCommitted(t, origins, e.id, origins[i].id);
        CountedKeepsCommitted(t, origins, e.id, origins[j].id);
      }
    }
  }

  lemma {:induction false} AdvanceAllKeepsSpread(t: Traffic, origins: seq<Origin>, events: seq<Phase>, d: nat, top: int)
    requires origins != [] && CommittedSpread(t, origins, d, top) && top + |events| <= MAX_INT
    requires InFlightAtMost(t, origins, events, d)
    ensures CommittedSpread(AdvanceAll(t, origins, events), origins, d, top + |events|)
    decreases |events|
  {
    if events != [] {
      AdvanceKeepsSpread(t, origins, events[0], d, top);
      AdvanceAllKeepsSpread(Advance(t, origins, events[0]), origins, events[1..], d, top + 1);
    }
  }

  /**
   * However selections and their increments interleave, the spread never rises above the greater of its old value
   * and the greatest number of selections in flight at once.
   */
  lemma SpreadWithSelectionsInFlight(
    conns: Conns, origins: seq<Origin>, events: seq<Phase>, d: nat, k: nat, top: int)
    requires origins != [] && AtMost(Loads(conns, origins), top) && top + |events| <= MAX_INT
    requires SpreadAtMost(Loads(conns, origins), d)
    requires InFlightAtMost(Traffic(conns, multiset{}), origins, events, k)
    ensures var t := AdvanceAll(Traffic(conns, multiset{}), origins, events);
            SpreadAtMost(Loads(t.conns, origins), if d > k then d else k)
  {
    var t, bound := Traffic(conns, multiset{}), if d > k then d else k;
    var loads := Loads(conns, origins);
    forall i, j | 0 <= i < |origins| && 0 <= j < |origins|
      ensures Committed(t, origins[i].id) <= CountOf(conns, origins[j].id) + bound
      ensures Committed(t, origins[i].id) <= top
    {
      assert loads[i] - loads[j] <= d && loads[i] <= top;
    }
    InFlightMonotone(t, origins, events, k, bound);
    AdvanceAllKeepsSpread(t, origins, events, bound, top);
    var t' := AdvanceAll(t, origins, events);
    var after: seq<int> := Loads(t'.conns, origins);
    forall i, j | 0 <= i < |origins| && 0 <= j < |origins| ensures after[i] - after[j] <= bound {
      assert Committed(t', origins[i].id) <= CountOf(t'.conns, origins[j].id) + bound;
    }
  }

  lemma {:induction false} InFlightMonotone(t: Traffic, origins: seq<Origin>, events: seq<Phase>, k: nat, k': nat)
    requires origins != [] && k <= k' && InFlightAtMost(t, origins, events, k)
    ensures InFlightAtMost(t, origins, events, k')
    decreases |events|
  {
    if events != [] { InFlightMonotone(Advance(t, origins, events[0]), origins, events[1..], k, k'); }
  }

  function Times(e: Phase, n: nat): (r: seq<Phase>)
    ensures |r| == n
  {
    if n == 0 then [] else [e] + Times(e, n - 1)
  }

  lemma FirstPhase(t: Traffic, origins: seq<Origin>, e: Phase, rest: seq<Phase>, k: nat)
    requires origins != []
    ensures AdvanceAll(t, origins, [e] + rest) == AdvanceAll(Advance(t, origins, e), origins, rest)
    ensures InFlightAtMost(t, origins, [e] + rest, k)
            <==> |t.inFlight| <= k && InFlightAtMost(Advance(t, origins, e), origins, rest, k)
  {
    assert ([e] + rest)[1..] == rest;
  }

  lemma SelectOne(t: Traffic, origins: seq<Origin>, n: nat)
    requires origins != [] && FirstLeast(Loads(t.conns, origins)) == 0
    ensures var id, next := origins[0].id, Advance(t, origins, Selected);
            && next.conns == t.conns && |next.inFlight| == |t.inFlight| + 1
            && next.inFlight[id := next.inFlight[id] + n] == t.inFlight[id := t.inFlight[id] + (n + 1)]
  {
  }

  /** Further selections find the same counts, so all of them go to the first origin. */
  lemma {:induction false} SelectMany(t: Traffic, origins: seq<Origin>, n: nat, after: seq<Phase>, k: nat)
    requires origins != [] && FirstLeast(Loads(t.conns, origins)) == 0
    requires |t.inFlight| + n <= k
    ensures var id := origins[0].id;
            var t' := t.(inFlight := t.inFlight[id := t.inFlight[id] + n]);
            && AdvanceAll(t, origins, Times(Selected, n) + after) == AdvanceAll(t', origins, after)
            && (InFlightAtMost(t', origins, after, k) ==>
                  InFlightAtMost(t, origins, Times(Selected, n) + after, k))
    decreases n
  {
    hide Advance, AdvanceAll, InFlightAtMost, FirstLeast, Loads;
    if n == 0 {
      assert Times(Selected, 0) + after == after;
      assert t.inFlight[origins[0].id := t.inFlight[origins[0].id] + 0] == t.inFlight;
    } else {
      var rest := Times(Selected, n - 1) + after;
      assert Times(Selected, n) + after == [Selected] + rest;
      FirstPhase(t, origins, Selected, rest, k);
      SelectOne(t, origins, n - 1);
      SelectMany(Advance(t, origins, Selected), origins, n - 1, after, k);
    }
  }

  lemma CountOne(t: Traffic, origins: seq<Origin>, id: string)
    requires origins != [] && 0 < t.inFlight[id] && CountOf(t.conns, id) < MAX_INT
    ensures var next := Advance(t, origins, Counted(id));
            && next.inFlight[id] == t.inFlight[id] - 1 && |next.inFlight| == |t.inFlight| - 1
            && CountOf(next.conns, id) == CountOf(t.conns, id) + 1
            && forall other :: other != id ==> CountOf(next.conns, other) == CountOf(t.conns, other)
  {
  }

  lemma {:induction false} CountMany(t: Traffic, origins: seq<Origin>, id: string, n: nat, k: nat)
    requires origins != [] && n <= t.inFlight[id] && |t.inFlight| <= k && CountOf(t.conns, id) + n <= MAX_INT
    ensures var t' := AdvanceAll(t, origins, Times(Counted(id), n));
            && CountOf(t'.conns, id) == CountOf(t.conns, id) + n
            && (forall other :: other != id ==> CountOf(t'.conns, other) == CountOf(t.conns, other))
            && InFlightAtMost(t, origins, Times(Counted(id), n), k)
    decreases n
  {
    if n > 0 {
      hide Advance, AdvanceAll, InFlightAtMost, CountOf;
      FirstPhase(t, origins, Counted(id), Times(Counted(id), n - 1), k);
      CountOne(t, origins, id);
      CountMany(Advance(t, origins, Counted(id)), origins, id, n - 1, k);
    }
  }

  /** That bound is reached: `k` selections from level loads, all before any increment, give a spread of `k`. */
  lemma {:induction false} InFlightBoundIsReached(conns: Conns, origins: seq<Origin>, level: Int, k: nat)
    requires |origins| > 1 && DistinctIds(origins) && Staircase(Loads(conns, origins), level, 0)
    requires level + k <= MAX_INT
    ensures var events := Times(Selected, k) + Times(Counted(origins[0].id), k);
            var start := Traffic(conns, multiset{});
            var after := AdvanceAll(start, origins, events).conns;
            && InFlightAtMost(start, origins, events, k)
            && CountOf(after, origins[0].id) == CountOf(after, origins[1].id) + k
  {
    var id, start := origins[0].id, Traffic(conns, multiset{});
    var loads := Loads(conns, origins);
    assert loads[0] == level && loads[1] == level;
    assert IsFirstLeast(loads, FirstLeast(loads));
    var selected := start.(inFlight := start.inFlight[id := start.inFlight[id] + k]);
    assert |selected.inFlight| == k;
    SelectMany(start, origins, k, Times(Counted(id), k), k);
    CountMany(selected, origins, id, k, k);
  }

  // ---------------------------------------------------------------- convergence

  /** How many connections it takes to raise every load to `top`. */
  function Deficit(loads: seq<int>, top: int): int {
    if loads == [] then 0 else top - loads[|loads| - 1] + Deficit(loads[..|loads| - 1], top)
  }

  lemma {:induction false} DeficitBounds(loads: seq<int>, top: int, i: int)
    requires 0 <= i < |loads| && AtMost(loads, top)
    ensures Deficit(loads, top) >= top - loads[i] >= 0
  {
    var front := loads[..|loads| - 1];
    if |front| > 0 { DeficitBounds(front, top, if i < |front| then i else 0); }
  }

  lemma {:induction false} DeficitDrops(loads: seq<int>, top: int, m: int)
    requires 0 <= m < |loads|
    ensures Deficit(loads[m := loads[m] + 1], top) == Deficit(loads, top) - 1
  {
    var front := loads[..|loads| - 1];
    if m == |front| {
      assert loads[m := loads[m] + 1][..|front|] == front;
    } else {
      assert loads[m := loads[m] + 1][..|front|] == front[m := front[m] + 1];
      DeficitDrops(front, top, m);
    }
  }

  lemma {:induction false} PositiveDeficit(loads: seq<int>, top: int) returns (i: int)
    requires Deficit(loads, top) > 0
    ensures 0 <= i < |loads| && loads[i] < top
  {
    if loads[|loads| - 1] < top { i := |loads| - 1; } else { i := PositiveDeficit(loads[..|loads| - 1], top); }
  }

  lemma {:induction false} CatchingUp(loads: seq<Int>, top: int, n: nat)
    requires loads != [] && AtMost(loads, top) && top <= MAX_INT
    requires n <= Deficit(loads, top)
    ensures AtMost(RaiseMany(loads, n), top)
    ensures Deficit(RaiseMany(loads, n), top) == Deficit(loads, top) - n
  {
    if n > 0 {
      CatchingUp(loads, top, n - 1);
      var before := RaiseMany(loads, n - 1);
      var i := PositiveDeficit(before, top);
      DeficitDrops(before, top, FirstLeast(before));
    }
  }

  lemma AllLevel(loads: seq<int>, top: int)
    requires AtMost(loads, top) && Deficit(loads, top) == 0
    ensures forall i :: 0 <= i < |loads| ==> loads[i] == top
  {
    forall i | 0 <= i < |loads| ensures loads[i] == top { DeficitBounds(loads, top, i); }
  }

  // ---------------------------------------------------------------- the balanced phase

  /** All loads are `level`, except that the first `r` are one higher. */
  ghost predicate Staircase(loads: seq<int>, level: int, r: nat) {
    r < |loads| && forall i :: 0 <= i < |loads| ==> loads[i] == if i < r then level + 1 else level
  }

  lemma StaircaseStep(loads: seq<Int>, level: int, r: nat)
    requires Staircase(loads, level, r) && level < MAX_INT
    ensures FirstLeast(loads) == r
    ensures if r + 1 < |loads| then Staircase(Raise(loads), level, r + 1) else Staircase(Raise(loads), level + 1, 0)
  {
    assert loads[r] == level;
    assert IsFirstLeast(loads, FirstLeast(loads));
  }

  /** Full rounds and the position within the round after `n` requests over `k` origins. */
  function Turn(n: nat, k: nat): (t: (nat, nat))
    requires k > 0
    ensures t.0 <= n && t.1 < k
  {
    if n == 0 then (0, 0)
    else
      var (rounds, r) := Turn(n - 1, k);
      if r + 1 < k then (rounds, r + 1) else (rounds + 1, 0)
  }

  lemma TurnIsDivMod(n: nat, k: nat)
    requires k > 0
    ensures Turn(n, k) == (n / k, n % k)
  {
    TurnAddsUp(n, k);
    var (rounds, r) := Turn(n, k);
    RR.ModUnique(n, k, rounds, r);
  }

  lemma {:induction false} TurnAddsUp(n: nat, k: nat)
    requires k > 0
    ensures n == Turn(n, k).0 * k + Turn(n, k).1
  {
    if n > 0 {
      TurnAddsUp(n - 1, k);
      RR.OneRoundMore(Turn(n - 1, k).0, k);
    }
  }

  /** From level loads after `d` requests, each further request goes to the next position in turn. */
  lemma {:induction false} StaircaseAfter(loads: seq<Int>, level: int, d: nat, n: nat)
    requires loads != [] && Staircase(RaiseMany(loads, d), level, 0)
    requires level + Turn(n, |loads|).0 < MAX_INT
    ensures Staircase(RaiseMany(loads, d + n), level + Turn(n, |loads|).0, Turn(n, |loads|).1)
    ensures FirstLeast(RaiseMany(loads, d + n)) == Turn(n, |loads|).1
  {
    if n > 0 {
      StaircaseAfter(loads, level, d, n - 1);
      StaircaseStep(RaiseMany(loads, d + n - 1), level + Turn(n - 1, |loads|).0, Turn(n - 1, |loads|).1);
    }
    StaircaseStep(RaiseMany(loads, d + n), level + Turn(n, |loads|).0, Turn(n, |loads|).1);
  }

  /** Position `r` is next, all loads are `level`, except that those before `r` are one higher. */
  ghost predicate InTurn(conns: Conns, origins: seq<Origin>, served: nat, level: int, r: nat)
    requires origins != []
  {
    && Pick(conns, origins, served) == r
    && Staircase(Loads(ServeMany(conns, origins, served), origins), level, r)
  }

  lemma InTurnByLoads(conns: Conns, origins: seq<Origin>, served: nat, level: int, r: nat)
    requires origins != [] && DistinctIds(origins)
    requires Staircase(RaiseMany(Loads(conns, origins), served), level, r)
    requires FirstLeast(RaiseMany(Loads(conns, origins), served)) == r
    ensures InTurn(conns, origins, served, level, r)
  {
    ServeManyRaises(conns, origins, served);
  }

  lemma ServingInTurn(conns: Conns, origins: seq<Origin>, level: int, d: nat, n: nat)
    requires origins != [] && DistinctIds(origins)
    requires Staircase(RaiseMany(Loads(conns, origins), d), level, 0)
    requires level + Turn(n, |origins|).0 < MAX_INT
    ensures InTurn(conns, origins, d + n, level + Turn(n, |origins|).0, Turn(n, |origins|).1)
  {
    StaircaseAfter(Loads(conns, origins), level, d, n);
    InTurnByLoads(conns, origins, d + n, level + Turn(n, |origins|).0, Turn(n, |origins|).1);
  }

  lemma DeficitLevels(loads: seq<Int>, top: int)
    requires loads != [] && AtMost(loads, top) && top <= MAX_INT
    ensures Deficit(loads, top) >= 0
    ensures Staircase(RaiseMany(loads, Deficit(loads, top)), top, 0)
  {
    DeficitBounds(loads, top, 0);
    CatchingUp(loads, top, Deficit(loads, top));
    AllLevel(RaiseMany(loads, Deficit(loads, top)), top);
  }

  /**
   * Whatever the counts are, once the deficit is served selection is round robin: the request that comes `n` later
   * goes to position `n` modulo the number of origins, and the loads are level up to that turn.
   */
  lemma EventuallyRoundRobin(conns: Conns, origins: seq<Origin>, top: int, n: nat)
    requires origins != [] && DistinctIds(origins)
    requires AtMost(Loads(conns, origins), top) && top + n / |origins| < MAX_INT
    ensures Deficit(Loads(conns, origins), top) >= 0
    ensures var served := Deficit(Loads(conns, origins), top) + n;
            && Pick(conns, origins, served) == n % |origins|
            && Staircase(Loads(ServeMany(conns, origins, served), origins), top + n / |origins|, n % |origins|)
  {
    hide RaiseMany, Deficit, Turn, Staircase, Pick, Loads, ServeMany;
    DeficitLevels(Loads(conns, origins), top);
    TurnIsDivMod(n, |origins|);
    ServingInTurn(conns, origins, top, Deficit(Loads(conns, origins), top), n);
  }

  lemma StaircaseSpread(loads: seq<int>, level: int, r: nat)
    requires Staircase(loads, level, r)
    ensures SpreadAtMost(loads, 1)
  {
  }

  /** Before the deficit is served, no load passes the old maximum. */
  lemma MaximumHoldsUntilLevel(conns: Conns, origins: seq<Origin>, top: int, n: nat)
    requires origins != [] && DistinctIds(origins)
    requires AtMost(Loads(conns, origins), top) && top <= MAX_INT
    requires n <= Deficit(Loads(conns, origins), top)
    ensures AtMost(Loads(ServeMany(conns, origins, n), origins), top)
  {
    ServeManyRaises(conns, origins, n);
    CatchingUp(Loads(conns, origins), top, n);
  }

  /** From no connections at all, pick number `n` is that of a fresh round-robin balancer called as often. */
  lemma FreshBalancersAgree(origins: seq<Origin>, n: nat)
    requires origins != [] && DistinctIds(origins) && n < MAX_INT
    ensures Pick(map[], origins, n) == RR.Position(RR.CounterAfter(0, RR.Same(|origins|, n)), |origins|)
    ensures Pick(map[], origins, n) == n % |origins|
    ensures Staircase(Loads(ServeMany(map[], origins, n), origins), n / |origins|, n % |origins|)
  {
    hide RaiseMany, ServeMany, Staircase, Loads, Turn, FirstLeast;
    RR.CounterAdvances(0, |origins|, n);
    TurnIsDivMod(n, |origins|);
    FreshLoadsAreLevel(origins);
    ServingInTurn(map[], origins, 0, 0, n);
  }

  lemma FreshLoadsAreLevel(origins: seq<Origin>)
    requires origins != []
    ensures Staircase(RaiseMany(Loads(map[], origins), 0), 0, 0)
  {
  }

  // ---------------------------------------------------------------- opening and closing connections

  datatype Event = Opened(id: string) | Closed(id: string)

  function Apply(conns: Conns, e: Event): Conns {
    match e
    case Opened(id) => Incremented(conns, id)
    case Closed(id) => Decremented(conns, id)
  }

  function Replay(events: seq<Event>): Conns {
    if events == [] then map[] else Apply(Replay(events[..|events| - 1]), events[|events| - 1])
  }

  /** Connections opened less connections closed. */
  function Open(events: seq<Event>, id: string): int {
    if events == [] then 0
    else
      var e := events[|events| - 1];
      Open(events[..|events| - 1], id) + if e == Opened(id) then 1 else if e == Closed(id) then -1 else 0
  }

  /** The lowest that the balance of opened and closed connections has been, at most 0. */
  function Lowest(events: seq<Event>, id: string): int {
    if events == [] then 0
    else
      var low := Lowest(events[..|events| - 1], id);
      if Open(events, id) < low then Open(events, id) else low
  }

  /**
   * After any history the count is the balance above its lowest point: releases without a connection are
   * ignored, and when there never were any, the count is exactly the number of open connections.
   */
  lemma {:induction false} CountIsBalanceAboveLowest(events: seq<Event>, id: string)
    requires |events| <= MAX_INT
    ensures CountOf(Replay(events), id) == Open(events, id) - Lowest(events, id)
    ensures 0 <= CountOf(Replay(events), id) <= |events|
  {
    if events != [] { CountIsBalanceAboveLowest(events[..|events| - 1], id); }
  }

  // ---------------------------------------------------------------- the balancer

  class Balancer {
    var connections: Conns

    constructor ()
      ensures connections == map[]
    {
      connections := map[];
    }

    method SelectOrigin(origins: seq<Origin>) returns (r: Outcome<Origin>)
      ensures r == if origins == [] then Err(NO_ORIGINS) else Ok(origins[FirstLeast(Loads(connections, origins))])
      ensures origins != [] ==>
                exists m ::
                  && 0 <= m < |origins| && r == Ok(origins[m])
                  && var least := if origins[m].id in connections then connections[origins[m].id] else 0;
                     forall i :: 0 <= i < |origins| ==>
                                   var count := if origins[i].id in connections then connections[origins[i].id] else 0;
                                   least <= count && (i < m ==> least < count)
    {
      if |origins| == 0 { return Err(NO_ORIGINS); }
      ghost var loads := Loads(connections, origins);
      var selected: int := -1;
      var minConns := MAX_INT;
      for i := 0 to |origins|
        invariant -1 <= selected < i
        invariant selected == -1 ==> minConns == MAX_INT && forall j :: 0 <= j < i ==> loads[j] == MAX_INT
        invariant selected >= 0 ==> minConns == loads[selected] < MAX_INT && IsFirstLeast(loads[..i], selected)
      {
        assert loads[..i + 1][..i] == loads[..i];
        var conns := CountOf(connections, origins[i].id);
        if conns < minConns {
          minConns := conns;
          selected := i;
        }
      }
      assert loads[..|origins|] == loads;
      if selected == -1 { selected := 0; }
      assert IsFirstLeast(loads, selected) && IsFirstLeast(loads, FirstLeast(loads));
      r := Ok(origins[selected]);
    }

    method IncrementConnections(originId: string)
      modifies this
      ensures connections == Apply(old(connections), Opened(originId))
      ensures var count := if originId in old(connections) then old(connections)[originId] else 0;
              connections == old(connections)[originId := if count == MAX_INT then MIN_INT else count + 1]
    {
      var count := if originId in connections then connections[originId] else 0;
      connections := connections[originId := WrappingInc(count)];
    }

    method DecrementConnections(originId: string)
      modifies this
      ensures connections == Apply(old(connections), Closed(originId))
      ensures connections == if originId in old(connections) && old(connections)[originId] > 0
                             then old(connections)[originId := old(connections)[originId] - 1] else old(connections)
    {
      if originId in connections && connections[originId] > 0 {
        connections := connections[originId := connections[originId] - 1];
      }
    }

    method GetConnectionCount(originId: string) returns (count: int)
      ensures count == CountOf(connections, originId)
      ensures count == if originId in connections then connections[originId] else 0
    {
      count := if originId in connections then connections[originId] else 0;
    }

    method Reset()
      modifies this
      ensures connections == map[]
    {
      connections := map[];
    }
  }
}
