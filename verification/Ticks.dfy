/** Timeouts on a tick counter that wraps: `xTaskGetTickCount() - start < limit`
  * in unsigned arithmetic modulo `m`. */
module Ticks {
  /** The test the code makes, on counter values. `start` and `now` are true times. */
  predicate InTime(start: nat, now: nat, limit: nat, m: nat)
    requires m > 0
  {
    (now % m - start % m) % m < limit
  }

  lemma WrapAgrees(start: nat, now: nat, limit: nat, m: nat)
    requires limit <= m && start <= now < start + m
    ensures InTime(start, now, limit, m) <==> now - start < limit
  {
    TickDifference(start, now, 0, now - start, m);
  }

  lemma MulGap(a: int, b: int, d: nat)
    ensures a < b ==> a * d + d <= b * d
    ensures a <= b ==> a * d <= b * d
  {
    if a < b {
      assert (a + 1) * d <= b * d;
    }
  }

  lemma ModUnique(x: int, q: int, r: nat, m: nat)
    requires x == q * m + r && r < m
    ensures x % m == r
  {
    var q1, r1 := x / m, x % m;
    assert x == q1 * m + r1;
    MulGap(q, q1, m);
    MulGap(q1, q, m);
  }

  /** The unsigned difference of two counter values is the true difference modulo
    * `m`. */
  lemma TickDifference(start: nat, now: nat, q: nat, r: nat, m: nat)
    requires now - start == q * m + r && r < m
    ensures (now % m - start % m) % m == r
  {
    var a, b := now / m, start / m;
    assert now == a * m + now % m && start == b * m + start % m;
    var c := q + b - a;
    assert c * m == q * m + b * m - a * m;
    ModUnique(now % m - start % m, c, r, m);
  }

  /** A check `gap` ticks after the moment `e` tells the truth. */
  predicate Truthful(start: nat, e: nat, gap: nat, limit: nat, m: nat)
    requires m > 0
  {
    InTime(start, start + e + gap, limit, m) <==> e + gap < limit
  }

  /** After a moment within the limit, the next check `gap` ticks later tells the
    * truth for every such moment exactly when the gap leaves room below the wrap. */
  lemma NextCheckExact(start: nat, gap: nat, limit: nat, m: nat)
    requires 0 < limit <= m && gap < m
    ensures (forall e: nat | e < limit :: Truthful(start, e, gap, limit, m)) <==> gap <= m - limit
  {
    if gap <= m - limit {
      forall e: nat | e < limit ensures Truthful(start, e, gap, limit, m) {
        WrapAgrees(start, start + e + gap, limit, m);
      }
    } else {
      var e: nat := m - gap;
      TickDifference(start, start + e + gap, 1, 0, m);
      assert !Truthful(start, e, gap, limit, m);
    }
  }

  /** `clock(0)` is when the start was read, `clock(k)` when the `k`-th check was
    * made: each turn of the loop takes at least `d` ticks, and no turn so many
    * that the counter could come round unnoticed. */
  ghost predicate Paced(clock: nat -> nat, d: nat, limit: nat, m: nat) {
    && 0 < d && 0 < limit < m
    && clock(0) <= clock(1) <= clock(0) + (m - limit)
    && forall k: nat | k > 0 :: clock(k) + d <= clock(k + 1) <= clock(k) + (m - limit)
  }

  /** A steady clock of `d` ticks a turn is such a one. */
  lemma SteadyIsPaced(d: nat, limit: nat, m: nat)
    requires 0 < d <= m - limit && 0 < limit
    ensures Paced((k: nat) => k * d, d, limit, m)
  {
    var clock := (k: nat) => k * d;
    forall k: nat | k >= 0
      ensures clock(k) + d == clock(k + 1)
    {
      assert (k + 1) * d == k * d + d;
    }
    assert clock(0) + d == clock(0 + 1);
  }

  ghost predicate Passed(clock: nat -> nat, limit: nat, m: nat, n: nat)
    requires m > 0
  {
    forall k: nat | 0 < k <= n :: InTime(clock(0), clock(k), limit, m)
  }

  /** While every check so far has passed, the next one agrees with true time. */
  lemma {:induction false} ChecksAgree(clock: nat -> nat, d: nat, limit: nat, m: nat, n: nat)
    requires Paced(clock, d, limit, m) && n > 0 && Passed(clock, limit, m, n - 1)
    ensures (n - 1) * d <= clock(n) - clock(0) < m
    ensures InTime(clock(0), clock(n), limit, m) <==> clock(n) - clock(0) < limit
    decreases n
  {
    if n > 1 {
      ChecksAgree(clock, d, limit, m, n - 1);
      assert InTime(clock(0), clock(n - 1), limit, m);
      assert clock(n - 1) + d <= clock(n - 1 + 1) <= clock(n - 1) + (m - limit);
      assert (n - 1) * d == (n - 2) * d + d;
    }
    WrapAgrees(clock(0), clock(n), limit, m);
  }

  function CeilDiv(a: nat, b: nat): nat
    requires b > 0
  {
    (a + b - 1) / b
  }

  /** The loop body runs at most `ceil(limit / d)` times. */
  lemma TurnsBounded(clock: nat -> nat, d: nat, limit: nat, m: nat, n: nat)
    requires Paced(clock, d, limit, m) && Passed(clock, limit, m, n)
    ensures n <= CeilDiv(limit, d)
  {
    if n > 0 {
      ChecksAgree(clock, d, limit, m, n);
      assert InTime(clock(0), clock(n), limit, m);
      assert (n - 1) * d < limit;
      if n > CeilDiv(limit, d) {
        var q := CeilDiv(limit, d);
        assert q * d >= limit;
        MulGap(q, n - 1, d);
      }
    }
  }

  /** Checks passed in counter time were passed in true time, and the next one
    * agrees with it. */
  lemma PassedInTrueTime(clock: nat -> nat, d: nat, limit: nat, m: nat, n: nat)
    requires Paced(clock, d, limit, m) && Passed(clock, limit, m, n)
    ensures forall k | 0 < k <= n :: clock(k) - clock(0) < limit
    ensures InTime(clock(0), clock(n + 1), limit, m) <==> clock(n + 1) - clock(0) < limit
  {
    ChecksAgree(clock, d, limit, m, n + 1);
    forall k | 0 < k <= n
      ensures clock(k) - clock(0) < limit
    {
      ChecksAgree(clock, d, limit, m, k);
      assert InTime(clock(0), clock(k), limit, m);
    }
  }
}
