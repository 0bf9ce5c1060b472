/** The sliding-window limiter: a pruned list of admission times. Times and durations are in nanoseconds. */
module SlidingWindow {
  import opened Models

  // ---------------------------------------------------------------- the limiter as a value

  datatype Window = Window(max: Size, size: int, timings: seq<int>)

  datatype Call =
    | Allow(at: int)
    | AllowN(n: Int, at: int)
    | Remaining(at: int)  // GetRemainingRequests
    | Reset(at: int)

  datatype Answer = Decision(admitted: bool) | Count(n: int) | Done

  function After(times: seq<int>, start: int): seq<int> {
    if times == [] then []
    else
      var last := times[|times| - 1];
      After(times[..|times| - 1], start) + if last > start then [last] else []
  }

  ghost predicate NotAfter(times: seq<int>, t: int) {
    forall i :: 0 <= i < |times| ==> times[i] <= t
  }

  function Repeat(t: int, n: int): (r: seq<int>)
    ensures |r| == if n < 0 then 0 else n
    ensures forall i :: 0 <= i < |r| ==> r[i] == t
    decreases if n < 0 then 0 else n
  {
    if n <= 0 then [] else Repeat(t, n - 1) + [t]
  }

  function Live(w: Window, now: int): seq<int> {
    After(w.timings, now - w.size)
  }

  function Answered(w: Window, c: Call): Answer {
    match c
    case Allow(at) => Decision(|Live(w, at)| < w.max)
    case AllowN(n, at) => Decision(WrappingAdd(|Live(w, at)|, n) <= w.max)
    case Remaining(at) => Count(w.max - |Live(w, at)|)
    case Reset(_) => Done
  }

  /** The admission times that a call adds. */
  function Granted(w: Window, c: Call): seq<int> {
    match c
    case Allow(at) => if Answered(w, c).admitted then [at] else []
    case AllowN(n, at) => if Answered(w, c).admitted then Repeat(at, n) else []
    case _ => []
  }

  function Step(w: Window, c: Call): Window {
    match c
    case Allow(at) => w.(timings := Live(w, at) + Granted(w, c))
    case AllowN(_, at) => w.(timings := Live(w, at) + Granted(w, c))
    case Remaining(_) => w
    case Reset(_) => w.(timings := [])
  }

  // ---------------------------------------------------------------- filtering

  lemma {:induction false} AfterConcat(a: seq<int>, b: seq<int>, start: int)
    ensures After(a + b, start) == After(a, start) + After(b, start)
  {
    if b == [] {
      assert a + b == a;
    } else {
      var front := b[..|b| - 1];
      assert (a + b)[..|a + b| - 1] == a + front;
      AfterConcat(a, front, start);
    }
  }

  lemma {:induction false} AfterAfter(times: seq<int>, s1: int, s2: int)
    requires s1 <= s2
    ensures After(After(times, s1), s2) == After(times, s2)
  {
    if times != [] {
      var last := times[|times| - 1];
      AfterAfter(times[..|times| - 1], s1, s2);
      AfterConcat(After(times[..|times| - 1], s1), if last > s1 then [last] else [], s2);
      assert [last][..0] == [];
    }
  }

  /** How many of these times are after `start`. */
  ghost function Later(times: seq<int>, start: int): nat {
    |set i | 0 <= i < |times| && times[i] > start|
  }

  /** These are the times after `start`, each as often as it was there, and `n` times `t` besides. */
  ghost predicate LaterAnd(kept: seq<int>, times: seq<int>, start: int, t: int, n: int) {
    forall x :: multiset(kept)[x] == (if x > start then multiset(times)[x] else 0) + if x == t && n > 0 then n else 0
  }

  lemma LaterSnoc(times: seq<int>, t: int, start: int)
    ensures Later(times + [t], start) == Later(times, start) + if t > start then 1 else 0
  {
    var all, here := times + [t], if t > start then {|times|} else {};
    var before := set i | 0 <= i < |times| && times[i] > start;
    assert (set i | 0 <= i < |all| && all[i] > start) == before + here;
  }

  /** Filtering keeps exactly the later times. */
  lemma {:induction false} AfterKeepsExactly(times: seq<int>, start: int)
    ensures LaterAnd(After(times, start), times, start, 0, 0)
    ensures |After(times, start)| == Later(times, start)
  {
    if times != [] {
      var front, last := times[..|times| - 1], times[|times| - 1];
      AfterKeepsExactly(front, start);
      assert times == front + [last];
      LaterSnoc(front, last, start);
    }
  }

  lemma {:induction false} RepeatBag(t: int, n: int)
    ensures forall x :: multiset(Repeat(t, n))[x] == if x == t && n > 0 then n else 0
    decreases if n < 0 then 0 else n
  {
    if n > 0 { RepeatBag(t, n - 1); }
  }

  lemma AfterAndRepeat(times: seq<int>, start: int, t: int, n: int)
    ensures LaterAnd(After(times, start) + Repeat(t, n), times, start, t, n)
  {
    AfterKeepsExactly(times, start);
    RepeatBag(t, n);
  }

  /** How many of these times lie in the half-open interval (lo, hi]. */
  function Within(times: seq<int>, lo: int, hi: int): nat {
    if times == [] then 0
    else
      var last := times[|times| - 1];
      Within(times[..|times| - 1], lo, hi) + if lo < last <= hi then 1 else 0
  }

  lemma {:induction false} WithinConcat(a: seq<int>, b: seq<int>, lo: int, hi: int)
    ensures Within(a + b, lo, hi) == Within(a, lo, hi) + Within(b, lo, hi)
  {
    if b == [] {
      assert a + b == a;
    } else {
      var front := b[..|b| - 1];
      assert (a + b)[..|a + b| - 1] == a + front;
      WithinConcat(a, front, lo, hi);
    }
  }

  lemma {:induction false} WithinAtMostAfter(times: seq<int>, start: int, lo: int, hi: int)
    requires start <= lo
    ensures Within(times, lo, hi) <= |After(times, start)|
  {
    if times != [] { WithinAtMostAfter(times[..|times| - 1], start, lo, hi); }
  }

  lemma {:induction false} WithinIsAfter(times: seq<int>, lo: int, hi: int)
    requires NotAfter(times, hi)
    ensures Within(times, lo, hi) == |After(times, lo)|
  {
    if times != [] { WithinIsAfter(times[..|times| - 1], lo, hi); }
  }

  lemma {:induction false} WithinOfRepeat(t: int, n: int, lo: int, hi: int)
    ensures Within(Repeat(t, n), lo, hi) == if lo < t <= hi && n > 0 then n else 0
    decreases if n < 0 then 0 else n
  {
    if n > 0 {
      WithinOfRepeat(t, n - 1, lo, hi);
      assert Repeat(t, n)[..n - 1] == Repeat(t, n - 1);
    }
  }

  // ---------------------------------------------------------------- runs

  /**
   * A limiter with the admissions since its construction or last reset, those from before that, and the moments
   * of its resets: none ever forgotten.
   */
  datatype Observed = Observed(window: Window, history: seq<int>, prior: seq<int>, resets: seq<int>)

  function Start(max: Size, size: int): Observed {
    Observed(Window(max, size, []), [], [], [])
  }

  function Observe(o: Observed, c: Call): Observed {
    if c.Reset? then Observed(Step(o.window, c), [], o.prior + o.history, o.resets + [c.at])
    else o.(window := Step(o.window, c), history := o.history + Granted(o.window, c))
  }

  function ObserveAll(o: Observed, calls: seq<Call>): Observed
    decreases |calls|
  {
    if calls == [] then o else ObserveAll(Observe(o, calls[0]), calls[1..])
  }

  /** All admissions ever. */
  function AllTime(o: Observed): seq<int> {
    o.prior + o.history
  }

  function ClockAfterAll(from: int, calls: seq<Call>): int
    decreases |calls|
  {
    if calls == [] then from else ClockAfterAll(calls[0].at, calls[1..])
  }

  ghost predicate ClockAdvances(from: int, calls: seq<Call>)
    decreases |calls|
  {
    calls != [] ==> from <= calls[0].at && ClockAdvances(calls[0].at, calls[1..])
  }

  /** The batch is small enough that adding it to the live count does not overflow; `n <= MAX_INT - max` always is. */
  predicate NoOverflow(w: Window, c: Call) {
    c.AllowN? ==> |Live(w, c.at)| + c.n <= MAX_INT
  }

  ghost predicate NeverOverflows(w: Window, calls: seq<Call>)
    decreases |calls|
  {
    calls != [] ==> NoOverflow(w, calls[0]) && NeverOverflows(Step(w, calls[0]), calls[1..])
  }

  ghost predicate WindowFits(o: Observed, lo: int) {
    Within(o.history, lo, lo + o.window.size) <= o.window.max
  }

  ghost predicate SameLiveTimes(o: Observed, start: int) {
    After(o.window.timings, start) == After(o.history, start)
  }

  /** From `now` on, the pruned list and the history hold the same live times, and no window is overfull. */
  ghost predicate Faithful(o: Observed, now: int) {
    && (forall s :: now - o.window.size <= s ==> SameLiveTimes(o, s))
    && NotAfter(o.history, now)
    && (forall lo :: WindowFits(o, lo))
  }

  lemma PruningKeepsLiveTimes(o: Observed, now: int, c: Call, s: int)
    requires Faithful(o, now) && now <= c.at && c.at - o.window.size <= s
    ensures SameLiveTimes(Observe(o, c), s)
  {
    hide After;
    assert SameLiveTimes(o, s);
    if c.Allow? || c.AllowN? {
      AfterConcat(Live(o.window, c.at), Granted(o.window, c), s);
      AfterConcat(o.history, Granted(o.window, c), s);
      AfterAfter(o.window.timings, c.at - o.window.size, s);
    } else {
      assert o.history + [] == o.history;
    }
  }

  lemma FittingGrant(history: seq<int>, at: int, n: int, size: int, max: nat, lo: int)
    requires |After(history, at - size)| + n <= max && Within(history, lo, lo + size) <= max
    ensures Within(history + Repeat(at, n), lo, lo + size) <= max
  {
    hide After, Within, Repeat;
    WithinConcat(history, Repeat(at, n), lo, lo + size);
    WithinOfRepeat(at, n, lo, lo + size);
    if at <= lo + size { WithinAtMostAfter(history, at - size, lo, lo + size); }
  }

  lemma GrantKeepsWindows(o: Observed, now: int, c: Call, lo: int)
    requires Faithful(o, now) && now <= c.at && NoOverflow(o.window, c)
    ensures WindowFits(Observe(o, c), lo)
  {
    assert WindowFits(o, lo);
    if (c.Allow? || c.AllowN?) && Answered(o.window, c).admitted {
      var n: int := if c.Allow? then 1 else c.n;
      assert Granted(o.window, c) == Repeat(c.at, n) by { assert Repeat(c.at, 1) == Repeat(c.at, 0) + [c.at]; }
      assert SameLiveTimes(o, c.at - o.window.size);
      FittingGrant(o.history, c.at, n, o.window.size, o.window.max, lo);
    } else {
      assert o.history + [] == o.history;
    }
  }

  lemma ObserveFaithful(o: Observed, now: int, c: Call)
    requires Faithful(o, now) && now <= c.at && NoOverflow(o.window, c)
    ensures Faithful(Observe(o, c), c.at)
  {
    var o' := Observe(o, c);
    forall s | c.at - o.window.size <= s ensures SameLiveTimes(o', s) {
      PruningKeepsLiveTimes(o, now, c, s);
    }
    forall lo ensures WindowFits(o', lo) {
      GrantKeepsWindows(o, now, c, lo);
    }
  }

  // ---------------------------------------------------------------- resets

  /** In the window from `lo`, the admissions before the last reset are paid for by the resets in that window. */
  ghost predicate PaidByResets(o: Observed, now: int, lo: int) {
    var hi := lo + o.window.size;
    && NotAfter(o.prior, now)
    && if now <= hi then Within(o.prior, lo, hi) <= Within(o.resets, lo, hi) * o.window.max
       else Within(o.prior, lo, hi) + Within(o.history, lo, hi) <= (1 + Within(o.resets, lo, hi)) * o.window.max
  }

  lemma OneMore(r: nat, max: nat)
    ensures (1 + r) * max == r * max + max
  {
  }

  lemma {:induction false} NothingWithin(times: seq<int>, lo: int, hi: int)
    requires NotAfter(times, lo)
    ensures Within(times, lo, hi) == 0
  {
    if times != [] { NothingWithin(times[..|times| - 1], lo, hi); }
  }

  lemma WithinSnoc(times: seq<int>, t: int, lo: int, hi: int)
    ensures Within(times + [t], lo, hi) == Within(times, lo, hi) + if lo < t <= hi then 1 else 0
  {
    assert (times + [t])[..|times|] == times;
  }

  lemma ResetKeepsPaid(o: Observed, now: int, at: int, lo: int)
    requires Faithful(o, now) && PaidByResets(o, now, lo) && now <= at
    ensures PaidByResets(Observe(o, Reset(at)), at, lo)
  {
    hide After, Within;
    var hi, o' := lo + o.window.size, Observe(o, Reset(at));
    assert WindowFits(o, lo);
    WithinConcat(o.prior, o.history, lo, hi);
    WithinSnoc(o.resets, at, lo, hi);
    OneMore(Within(o.resets, lo, hi), o.window.max);
    NothingWithin([], lo, hi);
    if at <= lo { NothingWithin(o'.prior, lo, hi); }
  }

  lemma GrantKeepsPaid(o: Observed, now: int, c: Call, lo: int)
    requires Faithful(o, now) && PaidByResets(o, now, lo) && now <= c.at && !c.Reset? && NoOverflow(o.window, c)
    ensures PaidByResets(Observe(o, c), c.at, lo)
  {
    var hi := lo + o.window.size;
    GrantKeepsWindows(o, now, c, lo);
    assert WindowFits(Observe(o, c), lo);
    OneMore(Within(o.resets, lo, hi), o.window.max);
    if now > hi {
      WithinConcat(o.history, Granted(o.window, c), lo, hi);
      NothingGrantedWithin(o.window, c, lo, hi);
    }
  }

  lemma NothingGrantedWithin(w: Window, c: Call, lo: int, hi: int)
    requires hi < c.at
    ensures Within(Granted(w, c), lo, hi) == 0
  {
    if c.AllowN? { WithinOfRepeat(c.at, c.n, lo, hi); }
    if c.Allow? { assert [c.at][..0] == []; }
  }

  lemma {:induction false} ObserveAllFaithful(o: Observed, now: int, calls: seq<Call>, lo: int)
    requires Faithful(o, now) && PaidByResets(o, now, lo)
    requires ClockAdvances(now, calls) && NeverOverflows(o.window, calls)
    ensures var o', now' := ObserveAll(o, calls), ClockAfterAll(now, calls);
            && Faithful(o', now') && PaidByResets(o', now', lo)
            && o'.window.max == o.window.max && o'.window.size == o.window.size
    decreases |calls|
  {
    if calls != [] {
      var c := calls[0];
      ObserveFaithful(o, now, c);
      if c.Reset? { ResetKeepsPaid(o, now, c.at, lo); } else { GrantKeepsPaid(o, now, c, lo); }
      ObserveAllFaithful(Observe(o, c), c.at, calls[1..], lo);
    }
  }

  /** The limiter in its state after these calls, with all that it ever admitted. */
  ghost function Reached(max: Size, size: int, calls: seq<Call>): Observed {
    ObserveAll(Start(max, size), calls)
  }

  /** A run that the limiter can see: its clock does not go back, and no batch overflows the live count. */
  ghost predicate Regular(max: Size, size: int, start: int, calls: seq<Call>) {
    ClockAdvances(start, calls) && NeverOverflows(Window(max, size, []), calls)
  }

  /** What a caller can check: no batch larger than the greatest `int` less the maximum. */
  ghost predicate SmallBatches(max: Size, calls: seq<Call>) {
    forall i :: 0 <= i < |calls| && calls[i].AllowN? ==> calls[i].n <= MAX_INT - max
  }

  lemma {:induction false} SmallBatchesNeverOverflow(o: Observed, now: int, calls: seq<Call>)
    requires Faithful(o, now) && ClockAdvances(now, calls) && SmallBatches(o.window.max, calls)
    ensures NeverOverflows(o.window, calls)
    decreases |calls|
  {
    hide After, Within;
    if calls != [] {
      var c, rest := calls[0], calls[1..];
      var start := c.at - o.window.size;
      assert SameLiveTimes(o, start) && WindowFits(o, start);
      LiveAtMostMax(o, now, c.at);
      ObserveFaithful(o, now, c);
      assert forall i :: 0 <= i < |rest| ==> rest[i] == calls[i + 1];
      SmallBatchesNeverOverflow(Observe(o, c), c.at, rest);
    }
  }

  lemma LiveAtMostMax(o: Observed, now: int, at: int)
    requires Faithful(o, now) && now <= at
    ensures |Live(o.window, at)| <= o.window.max
  {
    assert SameLiveTimes(o, at - o.window.size) && WindowFits(o, at - o.window.size);
    WithinIsAfter(o.history, at - o.window.size, at);
  }

  /** Small batches make a run regular, whatever state it goes through. */
  lemma SmallBatchesAreRegular(max: Size, size: int, start: int, calls: seq<Call>)
    requires ClockAdvances(start, calls) && SmallBatches(max, calls)
    ensures Regular(max, size, start, calls)
  {
    assert Faithful(Start(max, size), start);
    SmallBatchesNeverOverflow(Start(max, size), start, calls);
  }

  lemma ReachedFaithful(max: Size, size: int, start: int, calls: seq<Call>, lo: int)
    requires Regular(max, size, start, calls)
    ensures var o, now := Reached(max, size, calls), ClockAfterAll(start, calls);
            && Faithful(o, now) && PaidByResets(o, now, lo)
            && o.window.max == max && o.window.size == size
  {
    assert Faithful(Start(max, size), start);
    ObserveAllFaithful(Start(max, size), start, calls, lo);
  }

  /**
   * Every half-open window of time, wherever it lies and whatever resets the run has, holds at most `max` of all
   * admissions ever made, and `max` more for each reset in that window.
   */
  lemma EveryWindowHoldsAtMostMaxPerReset(max: Size, size: int, start: int, calls: seq<Call>, lo: int)
    requires Regular(max, size, start, calls)
    ensures var o := Reached(max, size, calls);
            Within(AllTime(o), lo, lo + size) <= (1 + Within(o.resets, lo, lo + size)) * max
  {
    ReachedFaithful(max, size, start, calls, lo);
    var o := Reached(max, size, calls);
    assert WindowFits(o, lo);
    WithinConcat(o.prior, o.history, lo, lo + size);
    OneMore(Within(o.resets, lo, lo + size), max);
  }

  /** Every half-open window of time holds at most `max` of the admissions since the last reset. */
  lemma EveryWindowSinceResetHoldsAtMostMax(max: Size, size: int, start: int, calls: seq<Call>, lo: int)
    requires Regular(max, size, start, calls)
    ensures Within(Reached(max, size, calls).history, lo, lo + size) <= max
  {
    ReachedFaithful(max, size, start, calls, lo);
    assert WindowFits(Reached(max, size, calls), lo);
  }

  // ---------------------------------------------------------------- answers

  /** What a limiter that forgets nothing answers: it counts the admissions in the window that ends now. */
  function IdealAnswer(max: Size, size: int, history: seq<int>, c: Call): Answer {
    match c
    case Allow(at) => Decision(Within(history, at - size, at) < max)
    case AllowN(n, at) => Decision(Within(history, at - size, at) + n <= max)
    case Remaining(at) => Count(max - Within(history, at - size, at))
    case Reset(_) => Done
  }

  lemma LiveIsWithin(max: Size, size: int, start: int, calls: seq<Call>, now: int)
    requires Regular(max, size, start, calls) && ClockAfterAll(start, calls) <= now
    ensures var o := Reached(max, size, calls);
            && |Live(o.window, now)| == Within(o.history, now - size, now) <= max
            && o.window.max == max && o.window.size == size
  {
    ReachedFaithful(max, size, start, calls, now - size);
    var o := Reached(max, size, calls);
    assert SameLiveTimes(o, now - size) && WindowFits(o, now - size);
    WithinIsAfter(o.history, now - size, now);
  }

  /**
   * Pruning is invisible: each answer is that of the limiter that forgets nothing, except that a batch whose size
   * overflows the live count is admitted.
   */
  lemma PruningIsInvisible(max: Size, size: int, start: int, calls: seq<Call>, next: Call)
    requires Regular(max, size, start, calls) && ClockAfterAll(start, calls) <= next.at
    ensures var o := Reached(max, size, calls);
            Answered(o.window, next) == IdealAnswer(max, size, o.history, next) <==> NoOverflow(o.window, next)
  {
    hide After, Within;
    LiveIsWithin(max, size, start, calls, next.at);
  }

  /** The remaining count is never negative; a batch is admitted exactly when it is no larger, or overflows. */
  lemma RemainingIsExact(max: Size, size: int, start: int, calls: seq<Call>, n: Int, now: int)
    requires Regular(max, size, start, calls) && ClockAfterAll(start, calls) <= now
    ensures var w := Reached(max, size, calls).window;
            var remaining := Answered(w, Remaining(now)).n;
            && remaining >= 0
            && (Answered(w, AllowN(n, now)).admitted <==> n <= remaining || !NoOverflow(w, AllowN(n, now)))
  {
    hide After, Within;
    LiveIsWithin(max, size, start, calls, now);
  }

  /** After one more call no window is overfull, exactly when that call does not overflow the live count. */
  lemma WindowsKeepFittingExactlyWithoutOverflow(max: Size, size: int, start: int, calls: seq<Call>, next: Call)
    requires Regular(max, size, start, calls) && ClockAfterAll(start, calls) <= next.at && size > 0
    ensures var o := Reached(max, size, calls);
            (forall lo :: WindowFits(Observe(o, next), lo)) <==> NoOverflow(o.window, next)
  {
    var o := Reached(max, size, calls);
    ReachedFaithful(max, size, start, calls, 0);
    if NoOverflow(o.window, next) {
      forall lo ensures WindowFits(Observe(o, next), lo) {
        GrantKeepsWindows(o, ClockAfterAll(start, calls), next, lo);
      }
    } else {
      LiveIsWithin(max, size, start, calls, next.at);
      OverflowOverfills(o, next);
    }
  }

  lemma OverflowOverfills(o: Observed, c: Call)
    requires !NoOverflow(o.window, c) && o.window.size > 0
    requires |Live(o.window, c.at)| == Within(o.history, c.at - o.window.size, c.at) <= o.window.max
    ensures !WindowFits(Observe(o, c), c.at - o.window.size)
  {
    hide After, Within;
    WithinConcat(o.history, Repeat(c.at, c.n), c.at - o.window.size, c.at);
    WithinOfRepeat(c.at, c.n, c.at - o.window.size, c.at);
  }

  lemma OneAdmission(max: Size, size: int, at: int)
    requires max > 0 && size > 0
    ensures Reached(max, size, [Allow(at)]).window == Window(max, size, [at])
    ensures Live(Window(max, size, [at]), at) == [at]
  {
    var o, c := Start(max, size), Allow(at);
    assert [c][1..] == [];
    assert ObserveAll(Observe(o, c), [c][1..]) == Observe(o, c);
    assert Live(o.window, at) == [] && [] + [at] == [at];
    AfterSnoc([], at, at - size);
  }

  /** With one live time, a batch of the greatest `int` is admitted although only max - 1 remain. */
  lemma OverflowingBatchIsAdmitted(max: Size, size: int, at: int)
    requires max > 0 && size > 0
    ensures var w := Reached(max, size, [Allow(at)]).window;
            Answered(w, AllowN(MAX_INT, at)).admitted && Answered(w, Remaining(at)) == Count(max - 1)
  {
    hide After, ObserveAll;
    OneAdmission(max, size, at);
  }

  // ---------------------------------------------------------------- batches

  /** `n` single requests at the same moment: the resulting limiter and whether all were admitted. */
  function Singles(w: Window, n: nat, at: int): (Window, bool) {
    if n == 0 then (w.(timings := Live(w, at)), true)
    else
      var (w', all) := Singles(w, n - 1, at);
      (Step(w', Allow(at)), all && Answered(w', Allow(at)).admitted)
  }

  lemma AfterSnoc(times: seq<int>, t: int, start: int)
    ensures After(times + [t], start) == After(times, start) + if start < t then [t] else []
  {
    assert (times + [t])[..|times|] == times;
  }

  lemma AfterNone(start: int)
    ensures After([], start) == []
  {
  }

  lemma {:induction false} AfterOfRepeat(t: int, n: nat, start: int)
    ensures After(Repeat(t, n), start) == if start < t then Repeat(t, n) else []
  {
    hide After;
    AfterNone(start);
    if n > 0 {
      AfterOfRepeat(t, n - 1, start);
      AfterSnoc(Repeat(t, n - 1), t, start);
    }
  }

  /** Right after being pruned and given some requests of this moment, a limiter has nothing to prune. */
  lemma NothingToPrune(w: Window, n: nat, at: int)
    requires w.size > 0
    ensures var live := Live(w, at) + Repeat(at, n); After(live, at - w.size) == live
  {
    hide After, Repeat;
    AfterAfter(w.timings, at - w.size, at - w.size);
    AfterOfRepeat(at, n, at - w.size);
    AllAfterConcat(Live(w, at), Repeat(at, n), at - w.size);
  }

  lemma AllAfterConcat(a: seq<int>, b: seq<int>, start: int)
    requires After(a, start) == a && After(b, start) == b
    ensures After(a + b, start) == a + b
  {
    AfterConcat(a, b, start);
  }

  lemma RepeatOnce(times: seq<int>, t: int, n: nat)
    ensures times + Repeat(t, n) + [t] == times + Repeat(t, n + 1)
  {
  }

  lemma AllowWithNothingToPrune(w: Window, at: int)
    requires Live(w, at) == w.timings
    ensures Answered(w, Allow(at)).admitted <==> |w.timings| < w.max
    ensures |w.timings| < w.max ==> Step(w, Allow(at)).timings == w.timings + [at]
  {
  }

  lemma OneMoreSingle(w: Window, n: nat, at: int, w': Window)
    requires w.size > 0 && w' == w.(timings := Live(w, at) + Repeat(at, n))
    ensures Answered(w', Allow(at)).admitted <==> |Live(w, at)| + n < w.max
    ensures Answered(w', Allow(at)).admitted ==>
              Step(w', Allow(at)) == w.(timings := Live(w, at) + Repeat(at, n + 1))
  {
    NothingToPrune(w, n, at);
    AllowWithNothingToPrune(w', at);
    RepeatOnce(Live(w, at), at, n);
  }

  lemma {:induction false} FittingSingles(w: Window, n: nat, at: int)
    requires w.size > 0 && |Live(w, at)| + n <= w.max
    ensures Singles(w, n, at) == (w.(timings := Live(w, at) + Repeat(at, n)), true)
  {
    if n == 0 {
      assert Live(w, at) + [] == Live(w, at);
    } else {
      FittingSingles(w, n - 1, at);
      OneMoreSingle(w, n - 1, at, Singles(w, n - 1, at).0);
    }
  }

  lemma {:induction false} RefusalIsKept(w: Window, m: nat, n: nat, at: int)
    requires m <= n && Singles(w, n, at).1
    ensures Singles(w, m, at).1
  {
    if m < n { RefusalIsKept(w, m, n - 1, at); }
  }

  lemma OverfullSingles(w: Window, n: nat, at: int)
    requires w.size > 0 && |Live(w, at)| <= w.max < |Live(w, at)| + n
    ensures !Singles(w, n, at).1
  {
    var room := w.max - |Live(w, at)|;
    if Singles(w, n, at).1 {
      RefusalIsKept(w, room + 1, n, at);
      FittingSingles(w, room, at);
      OneMoreSingle(w, room, at, Singles(w, room, at).0);
    }
  }

  lemma BatchEqualsSinglesFrom(w: Window, n: Size, at: int)
    requires w.size > 0 && |Live(w, at)| <= w.max && NoOverflow(w, AllowN(n, at))
    ensures Answered(w, AllowN(n, at)).admitted == Singles(w, n, at).1
    ensures Answered(w, AllowN(n, at)).admitted ==> Step(w, AllowN(n, at)) == Singles(w, n, at).0
    ensures !Answered(w, AllowN(n, at)).admitted ==> Step(w, AllowN(n, at)).timings == Live(w, at)
  {
    if |Live(w, at)| + n <= w.max { FittingSingles(w, n, at); } else { OverfullSingles(w, n, at); }
    assert Live(w, at) + [] == Live(w, at);
  }

  /**
   * After any run, a batch is admitted exactly when as many single requests at once would all be, if and only if
   * it does not overflow the live count; it then has the same effect, and a refused batch records nothing.
   */
  lemma BatchEqualsSinglesExactly(max: Size, size: int, start: int, calls: seq<Call>, n: Size, now: int)
    requires size > 0 && Regular(max, size, start, calls) && ClockAfterAll(start, calls) <= now
    ensures var w := Reached(max, size, calls).window;
            var batch, singles := AllowN(n, now), Singles(w, n, now);
            && (Answered(w, batch).admitted == singles.1 <==> NoOverflow(w, batch))
            && (NoOverflow(w, batch) ==>
                  Step(w, batch) == if singles.1 then singles.0 else w.(timings := Live(w, now)))
  {
    hide After, Within;
    var w := Reached(max, size, calls).window;
    LiveIsWithin(max, size, start, calls, now);
    if NoOverflow(w, AllowN(n, now)) {
      BatchEqualsSinglesFrom(w, n, now);
    } else {
      OverfullSingles(w, n, now);
    }
  }

  /**
   * With a window that is not positive nothing is ever live, so a batch is still judged against the maximum while
   * single requests are always admitted: the decisions agree exactly when the batch itself fits, or nothing ever does.
   */
  lemma BatchAdmittedLikeSinglesWithoutWindowExactly(w: Window, n: Size, at: int)
    requires w.size <= 0 && NotAfter(w.timings, at)
    ensures Answered(w, AllowN(n, at)).admitted == Singles(w, n, at).1 <==> n <= w.max || w.max == 0
  {
    hide After, Singles;
    NothingAfter(w.timings, at - w.size);
    SinglesWithoutWindow(w, n, at);
  }

  /**
   * The states agree too only for batches of at most one, or when nothing is ever admitted: of several singles each
   * prunes the one before it, while a batch records all.
   */
  lemma BatchEqualsSinglesWithoutWindowExactly(w: Window, n: Size, at: int)
    requires w.size <= 0 && NotAfter(w.timings, at)
    ensures var batch, singles := AllowN(n, at), Singles(w, n, at);
            (Answered(w, batch).admitted == singles.1 && Step(w, batch) == singles.0) <==> n <= 1 || w.max == 0
  {
    hide After, Singles;
    NothingAfter(w.timings, at - w.size);
    SinglesWithoutWindow(w, n, at);
    LastSingleWithoutWindow(w, n, at);
    RepeatUpToOnce(at);
  }

  lemma RepeatUpToOnce(t: int)
    ensures Repeat(t, 0) == [] && Repeat(t, 1) == [t]
  {
    assert Repeat(t, 1) == Repeat(t, 0) + [t];
  }

  lemma NothingLive(w: Window, at: int)
    requires w.size <= 0 && NotAfter(w.timings, at)
    ensures Live(w, at) == []
  {
    NothingAfter(w.timings, at - w.size);
  }

  lemma SingleWithoutWindow(w: Window, at: int)
    requires w.size <= 0 && NotAfter(w.timings, at)
    ensures Step(w, Allow(at)) == w.(timings := if w.max == 0 then [] else [at])
  {
    NothingLive(w, at);
  }

  lemma {:induction false} LastSingleWithoutWindow(w: Window, n: nat, at: int)
    requires w.size <= 0 && NotAfter(w.timings, at)
    ensures Singles(w, n, at).0 == w.(timings := if n == 0 || w.max == 0 then [] else [at])
  {
    hide After, Live, Step;
    if n == 0 {
      NothingLive(w, at);
    } else {
      LastSingleWithoutWindow(w, n - 1, at);
      SingleWithoutWindow(Singles(w, n - 1, at).0, at);
    }
  }

  /** Without a window the recorded times never matter: no later answer can tell such states apart. */
  lemma TimesDoNotMatterWithoutWindow(w: Window, w': Window, c: Call)
    requires w'.max == w.max && w'.size == w.size <= 0
    requires NotAfter(w.timings, c.at) && NotAfter(w'.timings, c.at)
    ensures Answered(w, c) == Answered(w', c) && Granted(w, c) == Granted(w', c)
  {
    NothingAfter(w.timings, c.at - w.size);
    NothingAfter(w'.timings, c.at - w.size);
  }

  lemma {:induction false} NothingAfter(times: seq<int>, start: int)
    requires NotAfter(times, start)
    ensures After(times, start) == []
  {
    if times != [] { NothingAfter(times[..|times| - 1], start); }
  }

  lemma AllowWithNothingLive(w: Window, at: int)
    requires w.size <= 0 && NotAfter(w.timings, at)
    ensures Answered(w, Allow(at)).admitted == (w.max > 0)
    ensures NotAfter(Step(w, Allow(at)).timings, at)
  {
    NothingAfter(w.timings, at - w.size);
  }

  lemma {:induction false} SinglesWithoutWindow(w: Window, n: nat, at: int)
    requires w.size <= 0 && NotAfter(w.timings, at)
    ensures Singles(w, n, at).1 == (n == 0 || w.max > 0)
    ensures var w' := Singles(w, n, at).0;
            w'.max == w.max && w'.size == w.size && NotAfter(w'.timings, at)
  {
    if n == 0 {
      NothingAfter(w.timings, at - w.size);
    } else {
      SinglesWithoutWindow(w, n - 1, at);
      AllowWithNothingLive(Singles(w, n - 1, at).0, at);
    }
  }

  // ---------------------------------------------------------------- the limiter

  class Limiter {
    const maxRequests: Size
    const windowSize: int
    var requestTimings: seq<int>

    function State(): Window
      reads this
    {
      Window(maxRequests, windowSize, requestTimings)
    }

    constructor (maxRequests: Size, windowSize: int)
      ensures State() == Start(maxRequests, windowSize).window
      ensures this.maxRequests == maxRequests && this.windowSize == windowSize && requestTimings == []
    {
      this.maxRequests := maxRequests;
      this.windowSize := windowSize;
      requestTimings := [];
    }

    /** The stored times after `windowStart`, the list that both kinds of request keep. */
    method ValidRequests(windowStart: int) returns (validRequests: seq<int>)
      ensures validRequests == After(requestTimings, windowStart)
      ensures LaterAnd(validRequests, requestTimings, windowStart, 0, 0)
      ensures |validRequests| == Later(requestTimings, windowStart)
    {
      AfterKeepsExactly(requestTimings, windowStart);
      validRequests := [];
      for i := 0 to |requestTimings|
        invariant validRequests == After(requestTimings[..i], windowStart)
      {
        var reqTime := requestTimings[i];
        assert requestTimings[..i + 1][..i] == requestTimings[..i];
        if reqTime > windowStart { validRequests := validRequests + [reqTime]; }
      }
      assert requestTimings[..|requestTimings|] == requestTimings;
    }

    method Allow(now: int) returns (ok: bool)
      modifies this
      ensures State() == Step(old(State()), Call.Allow(now))
      ensures Decision(ok) == old(Answered(State(), Call.Allow(now)))
      ensures ok <==> Later(old(requestTimings), now - windowSize) < maxRequests
      ensures LaterAnd(requestTimings, old(requestTimings), now - windowSize, now, if ok then 1 else 0)
    {
      hide After, Later, LaterAnd, Repeat;
      RepeatUpToOnce(now);
      AfterAndRepeat(requestTimings, now - windowSize, now, 0);
      AfterAndRepeat(requestTimings, now - windowSize, now, 1);
      requestTimings := ValidRequests(now - windowSize);
      if |requestTimings| < maxRequests {
        requestTimings := requestTimings + [now];
        return true;
      }
      assert requestTimings + [] == requestTimings;
      return false;
    }

    method AllowN(n: Int, now: int) returns (ok: bool)
      modifies this
      ensures State() == Step(old(State()), Call.AllowN(n, now))
      ensures Decision(ok) == old(Answered(State(), Call.AllowN(n, now)))
      ensures var live := Later(old(requestTimings), now - windowSize);
              && (live + n <= MAX_INT ==> (ok <==> live + n <= maxRequests))
              && (live <= MAX_INT < live + n ==> ok)
      ensures LaterAnd(requestTimings, old(requestTimings), now - windowSize, now, if ok then n else 0)
    {
      hide After, Later, LaterAnd;
      AfterAndRepeat(requestTimings, now - windowSize, now, 0);
      AfterAndRepeat(requestTimings, now - windowSize, now, n);
      var validRequests := ValidRequests(now - windowSize);
      ghost var live := validRequests;
      assert live + [] == live;
      if WrappingAdd(|validRequests|, n) <= maxRequests {
        var i := 0;
        while i < n
          invariant 0 <= i <= if n < 0 then 0 else n
          invariant validRequests == live + Repeat(now, i)
        {
          RepeatOnce(live, now, i);
          validRequests := validRequests + [now];
          i := i + 1;
        }
        requestTimings := validRequests;
        return true;
      }
      requestTimings := validRequests;
      return false;
    }

    method GetRemainingRequests(now: int) returns (remaining: int)
      ensures Count(remaining) == Answered(State(), Remaining(now))
      ensures remaining == maxRequests - Later(requestTimings, now - windowSize)
    {
      hide Later, LaterAnd;
      AfterKeepsExactly(requestTimings, now - windowSize);
      var windowStart := now - windowSize;
      var validCount := 0;
      for i := 0 to |requestTimings|
        invariant validCount == |After(requestTimings[..i], windowStart)|
      {
        assert requestTimings[..i + 1][..i] == requestTimings[..i];
        if requestTimings[i] > windowStart { validCount := validCount + 1; }
      }
      assert requestTimings[..|requestTimings|] == requestTimings;
      remaining := maxRequests - validCount;
    }

    /** The moment of a reset is not read from the clock. */
    method Reset(ghost now: int)
      modifies this
      ensures State() == Step(old(State()), Call.Reset(now))
      ensures requestTimings == []
    {
      requestTimings := [];
    }
  }
}
