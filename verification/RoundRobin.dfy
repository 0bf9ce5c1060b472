/** The round-robin balancer: a counter taken modulo the number of listed origins. */
module RoundRobin {
  import opened Models

  /** The remainder operator of Go, which takes the sign of the dividend. */
  function Rem(a: int, k: nat): int
    requires k > 0
  {
    if a >= 0 then a % k else -((-a) % k)
  }

  /** The position selected at a counter value. */
  function Position(counter: int, k: nat): int
    requires k > 0
  {
    Rem(counter, k)
  }

  // ---------------------------------------------------------------- the counter

  /** A negative counter indexes out of range, unless the list length divides it. */
  predicate Panics(counter: Int, k: nat) {
    k > 0 && counter < 0 && counter % k != 0
  }

  /** The counter after one selection over a list of length `k`; an error or a panic leaves it as it was. */
  function NextCounter(counter: Int, k: nat): Int {
    if k == 0 || Panics(counter, k) then counter else WrappingInc(counter)
  }

  /** The counter after selections over lists of these lengths. */
  function CounterAfter(counter: Int, lengths: seq<nat>): Int {
    if lengths == [] then counter
    else NextCounter(CounterAfter(counter, lengths[..|lengths| - 1]), lengths[|lengths| - 1])
  }

  function NonEmpty(lengths: seq<nat>): nat {
    if lengths == [] then 0
    else NonEmpty(lengths[..|lengths| - 1]) + if lengths[|lengths| - 1] > 0 then 1 else 0
  }

  /** A counter that is not negative counts the selections over lists that are not empty. */
  lemma {:induction false} CounterCountsSelections(counter: Size, lengths: seq<nat>)
    requires counter + |lengths| <= MAX_INT
    ensures CounterAfter(counter, lengths) == counter + NonEmpty(lengths)
    ensures NonEmpty(lengths) <= |lengths|
  {
    if lengths != [] { CounterCountsSelections(counter, lengths[..|lengths| - 1]); }
  }

  /** `n` selections over a list of the same length `k`. */
  function Same(k: nat, n: nat): (r: seq<nat>)
    ensures |r| == n
  {
    if n == 0 then [] else Same(k, n - 1) + [k]
  }

  lemma SameSnoc(counter: Int, k: nat, n: nat)
    ensures CounterAfter(counter, Same(k, n + 1)) == NextCounter(CounterAfter(counter, Same(k, n)), k)
    ensures NonEmpty(Same(k, n + 1)) == NonEmpty(Same(k, n)) + if k > 0 then 1 else 0
  {
    assert Same(k, n + 1)[..n] == Same(k, n);
  }

  lemma {:induction false} AllNonEmpty(k: nat, n: nat)
    requires k > 0
    ensures NonEmpty(Same(k, n)) == n
  {
    if n > 0 {
      AllNonEmpty(k, n - 1);
      SameSnoc(0, k, n - 1);
    }
  }

  lemma CounterAdvances(counter: Size, k: nat, n: nat)
    requires k > 0 && counter + n <= MAX_INT
    ensures CounterAfter(counter, Same(k, n)) == counter + n
  {
    CounterCountsSelections(counter, Same(k, n));
    AllNonEmpty(k, n);
  }

  // ---------------------------------------------------------------- fairness

  /** How many of the `n` successive selections over `k` origins, the first at `counter`, fall on position `p`. */
  function Selections(counter: Int, n: nat, k: nat, p: nat): nat
    requires k > 0
  {
    if n == 0 then 0
    else Selections(counter, n - 1, k, p) + if Position(CounterAfter(counter, Same(k, n - 1)), k) == p then 1 else 0
  }

  lemma ModUnique(x: int, k: nat, q: int, r: int)
    requires k > 0 && 0 <= r < k && x == q * k + r
    ensures x / k == q && x % k == r
  {
    var d := x / k - q;
    assert x == x / k * k + x % k;
    assert d * k == x / k * k - q * k;
    MulMagnitude(d, k);
  }

  lemma MulMagnitude(d: int, k: nat)
    ensures d > 0 ==> d * k >= k
    ensures d < 0 ==> d * k + k <= 0
  {
    if d > 0 { assert (d - 1) * k >= 0; }
    if d < 0 { assert (-d - 1) * k >= 0; }
  }

  /** Steps from the start until position `p` comes up. */
  function Distance(counter: nat, k: nat, p: nat): (d: nat)
    requires p < k
    ensures d < k
  {
    (p - counter) % k
  }

  lemma PositionComesUp(counter: nat, k: nat, p: nat, rounds: nat, r: nat)
    requires p < k && r < k && Position(counter + (rounds * k + r), k) == p
    ensures Distance(counter, k, p) == r
  {
    var at := counter + (rounds * k + r);
    var c := at / k;
    assert at == c * k + p;
    assert (rounds - c) * k == rounds * k - c * k;
    ModUnique(p - counter, k, rounds - c, r);
  }

  lemma DistanceComesUp(counter: nat, k: nat, p: nat, rounds: nat)
    requires p < k
    ensures Position(counter + (rounds * k + Distance(counter, k, p)), k) == p
  {
    var r, d := Distance(counter, k, p), (p - counter) / k;
    assert p - counter == d * k + r;
    assert (rounds - d) * k == rounds * k - d * k;
    ModUnique(counter + (rounds * k + r), k, rounds - d, p);
  }

  lemma ComesUpAt(counter: nat, k: nat, p: nat, rounds: nat, r: nat)
    requires p < k && r < k
    ensures Position(counter + (rounds * k + r), k) == p <==> Distance(counter, k, p) == r
  {
    hide *;
    DistanceComesUp(counter, k, p, rounds);
    if Position(counter + (rounds * k + r), k) == p { PositionComesUp(counter, k, p, rounds, r); }
  }

  lemma OneMoreSelection(counter: Size, k: nat, p: nat, rounds: nat, r: nat)
    requires p < k && r < k && counter + (rounds * k + r) <= MAX_INT
    ensures Selections(counter, rounds * k + r + 1, k, p)
            == Selections(counter, rounds * k + r, k, p) + if Distance(counter, k, p) == r then 1 else 0
  {
    hide Position, Distance, CounterAfter, NextCounter, Same;
    CounterAdvances(counter, k, rounds * k + r);
    ComesUpAt(counter, k, p, rounds, r);
  }

  lemma {:induction false} FairnessByRounds(counter: Size, k: nat, p: nat, rounds: nat, r: nat)
    requires p < k && r < k && counter + (rounds * k + r) <= MAX_INT + 1
    ensures Selections(counter, rounds * k + r, k, p) == rounds + if Distance(counter, k, p) < r then 1 else 0
    decreases rounds, r
  {
    hide *;
    if r > 0 {
      FairnessByRounds(counter, k, p, rounds, r - 1);
      OneMoreSelection(counter, k, p, rounds, r - 1);
    } else if rounds > 0 {
      OneRoundMore(rounds - 1, k);
      FairnessByRounds(counter, k, p, rounds - 1, k - 1);
      OneMoreSelection(counter, k, p, rounds - 1, k - 1);
    } else {
      NoSelections(counter, k, p);
    }
  }

  lemma OneRoundMore(rounds: nat, k: nat)
    ensures (rounds + 1) * k == rounds * k + k
  {
  }

  lemma NoSelections(counter: Size, k: nat, p: nat)
    requires k > 0
    ensures Selections(counter, 0 * k + 0, k, p) == 0
  {
  }

  /**
   * Any `n` successive calls over `k` origins pick position `p` n / k times, and once more exactly when `p` lies within
   * n % k steps of the start.
   */
  lemma WindowFairness(counter: Size, n: nat, k: nat, p: nat)
    requires p < k && counter + n <= MAX_INT + 1
    ensures Selections(counter, n, k, p) == n / k + if (p - counter) % k < n % k then 1 else 0
  {
    var rounds, r := n / k, n % k;
    assert n == rounds * k + r;
    FairnessByRounds(counter, k, p, rounds, r);
  }

  /** Over whole rounds every position is picked equally often, wherever the counter starts. */
  lemma WholeRoundsAreEven(counter: Size, m: nat, k: nat, p: nat)
    requires p < k && counter + m * k <= MAX_INT + 1
    ensures Selections(counter, m * k, k, p) == m
  {
    FairnessByRounds(counter, k, p, m, 0);
  }

  // ---------------------------------------------------------------- after the wrap-around

  /** The first selection of a fresh balancer after the wrap-around panics exactly for these lengths, 3 among them. */
  lemma FreshBalancerReachesPanic(k: nat)
    requires k > 0
    ensures CounterAfter(0, Same(k, MAX_INT + 1)) == MIN_INT
    ensures Panics(CounterAfter(0, Same(k, MAX_INT + 1)), k) <==> MIN_INT % k != 0
    ensures Panics(MIN_INT, 3)
  {
    CounterAdvances(0, k, MAX_INT);
    SameSnoc(0, k, MAX_INT);
  }

  lemma {:induction false} CounterNeverFalls(counter: Int, lengths: seq<nat>)
    requires counter + |lengths| <= MAX_INT
    ensures counter <= CounterAfter(counter, lengths) <= counter + |lengths|
  {
    if lengths != [] { CounterNeverFalls(counter, lengths[..|lengths| - 1]); }
  }

  /**
   * A negative counter stays where it is, and so a length that panicked once panics on every later call, exactly
   * until a selection over a list whose length divides the counter.
   */
  lemma {:induction false} PanicLastsExactlyUntilDivided(counter: Int, lengths: seq<nat>)
    requires counter < 0 && |lengths| <= MAX_INT
    ensures CounterAfter(counter, lengths) == counter
            <==> forall i :: 0 <= i < |lengths| && lengths[i] > 0 ==> counter % lengths[i] != 0
  {
    if lengths != [] {
      var front, last := lengths[..|lengths| - 1], lengths[|lengths| - 1];
      assert forall i :: 0 <= i < |front| ==> lengths[i] == front[i];
      PanicLastsExactlyUntilDivided(counter, front);
      CounterNeverFalls(counter, front);
      NextNeverFalls(CounterAfter(counter, front), last);
    }
  }

  lemma NextNeverFalls(counter: Int, k: nat)
    requires counter < MAX_INT
    ensures counter <= NextCounter(counter, k)
    ensures counter < 0 ==> (NextCounter(counter, k) == counter <==> k == 0 || counter % k != 0)
  {
  }

  lemma NegativeRem(a: int, k: nat)
    requires k > 0 && a < 0
    ensures Rem(a, k) <= 0 && (Rem(a, k) == 0 <==> a % k == 0)
  {
    var q, r := (-a) / k, (-a) % k;
    if r == 0 { ModUnique(a, k, -q, 0); } else { ModUnique(a, k, -q - 1, k - r); }
  }

  // ---------------------------------------------------------------- the balancer

  class Balancer {
    var counter: Int

    constructor ()
      ensures counter == 0
    {
      counter := 0;
    }

    method SelectOrigin(origins: seq<Origin>) returns (r: Outcome<Origin>)
      modifies this
      ensures counter == NextCounter(old(counter), |origins|)
      ensures origins == [] ==> r == Err(NO_ORIGINS) && counter == old(counter)
      ensures origins != [] && !Panics(old(counter), |origins|) ==>
                && 0 <= Position(old(counter), |origins|) < |origins|
                && r == Ok(origins[Position(old(counter), |origins|)])
      ensures origins != [] && old(counter) >= 0 ==>
                && r == Ok(origins[old(counter) % |origins|])
                && counter == if old(counter) == MAX_INT then MIN_INT else old(counter) + 1
      ensures origins != [] && old(counter) < 0 && old(counter) % |origins| == 0 ==>
                r == Ok(origins[0]) && counter == old(counter) + 1
      ensures origins != [] && old(counter) < 0 && old(counter) % |origins| != 0 ==>
                r == Panic && counter == old(counter)
    {
      if |origins| == 0 { return Err(NO_ORIGINS); }
      var i := Rem(counter, |origins|);
      if counter < 0 { NegativeRem(counter, |origins|); }
      if !(0 <= i < |origins|) { return Panic; }
      r := Ok(origins[i]);
      counter := WrappingInc(counter);
    }

    method Reset()
      modifies this
      ensures counter == 0
    {
      counter := 0;
    }
  }
}
