/**
 Waiting for a database that is not ready yet (internal/db/db.go): a pause that doubles up to
 a cap, inside a total budget. Times are whole nanoseconds.
 */
module Retry {

  datatype Policy = Policy(budget: nat, initial: nat, max: nat)

  datatype Ping = Answers | Permanent | Transient

  datatype Outcome = Connected | Refused | GaveUp | Cancelled

  ghost predicate Sensible(p: Policy)
  {
    0 < p.initial <= p.max
  }

  function Pow2(k: nat): (n: nat)
    ensures n >= 1
  {
    if k == 0 then 1 else 2 * Pow2(k - 1)
  }

  function Min(a: nat, b: nat): nat
  {
    if a <= b then a else b
  }

  /** The pause before attempt k + 2: the initial one doubled k times, capped. */
  function Pause(p: Policy, k: nat): nat
  {
    Min(p.initial * Pow2(k), p.max)
  }

  /** The first n pauses together. */
  function Total(p: Policy, n: nat): nat
  {
    if n == 0 then 0 else Total(p, n - 1) + Pause(p, n - 1)
  }

  /** What the loop's environment does on each attempt. */
  datatype World = World(ping: nat -> Ping, pingTime: nat -> nat, oversleep: nat -> nat, cancelled: nat -> bool)

  lemma PauseDoubles(p: Policy, k: nat)
    requires Sensible(p)
    ensures Pause(p, k + 1) == Min(Pause(p, k) * 2, p.max) && Pause(p, k) > 0
  {
    assert p.initial * Pow2(k + 1) == p.initial * Pow2(k) * 2;
    assert p.initial * Pow2(k) >= p.initial;
  }

  lemma {:induction false} TotalGrows(p: Policy, m: nat, n: nat)
    requires Sensible(p) && m <= n
    ensures Total(p, m) + (n - m) <= Total(p, n)
    decreases n
  {
    if m < n {
      PauseDoubles(p, n - 1);
      TotalGrows(p, m, n - 1);
    }
  }

  /** The largest count of pauses that fits the budget. */
  function Fitting(p: Policy, n: nat): (m: nat)
    requires Sensible(p) && Total(p, n) <= p.budget
    ensures m >= n && Total(p, m) <= p.budget < Total(p, m + 1)
    decreases p.budget - Total(p, n)
  {
    PauseDoubles(p, n);
    if Total(p, n + 1) <= p.budget then Fitting(p, n + 1) else n
  }

  function MaxPauses(p: Policy): nat
    requires Sensible(p)
  {
    Fitting(p, 0)
  }

  /** However the pings turn out, a count of pauses within the budget is at most the largest that fits. */
  lemma PausesBounded(p: Policy, n: nat)
    requires Sensible(p)
    ensures Total(p, n) <= p.budget <==> n <= MaxPauses(p)
  {
    var m := MaxPauses(p);
    if n <= m {
      TotalGrows(p, n, m);
    } else {
      TotalGrows(p, m + 1, n);
    }
  }

  /**
   The loop: its clock runs on by each ping and by at least the pause it asked for. However the pings
   turn out it makes at most one attempt more than the pauses that fit the budget, and exactly that
   many when it gives up without the clock running on of itself.
   */
  method WaitForDatabase(p: Policy, w: World) returns (r: Outcome, attempts: nat, slept: nat)
    requires Sensible(p)
    ensures attempts >= 1 && slept == Total(p, attempts - 1) <= p.budget
    ensures r.Connected? <==> w.ping(attempts).Answers?
    ensures r.Refused? <==> w.ping(attempts).Permanent?
    ensures forall k :: 1 <= k < attempts ==> w.ping(k).Transient?
    ensures attempts <= MaxPauses(p) + 1
    ensures r.GaveUp? && (forall k :: w.pingTime(k) == w.oversleep(k) == 0) ==> attempts == MaxPauses(p) + 1
    ensures r.Cancelled? ==> w.cancelled(attempts)
  {
    var now, deadline, delay := 0, p.budget, p.initial;
    attempts, slept := 1, 0;
    while true
      invariant attempts >= 1 && slept == Total(p, attempts - 1) <= now
      invariant slept <= p.budget
      invariant delay == Pause(p, attempts - 1)
      invariant forall k :: 1 <= k < attempts ==> w.ping(k).Transient?
      invariant (forall k :: w.pingTime(k) == w.oversleep(k) == 0) ==> now == slept
      decreases p.budget - slept
    {
      PauseDoubles(p, attempts - 1);
      PausesBounded(p, attempts - 1);
      PausesBounded(p, attempts);
      now := now + w.pingTime(attempts);
      var answer := w.ping(attempts);
      if answer.Answers? {
        return Connected, attempts, slept;
      }
      if answer.Permanent? {
        return Refused, attempts, slept;
      }
      if now + delay > deadline {
        return GaveUp, attempts, slept;
      }
      if w.cancelled(attempts) {
        return Cancelled, attempts, slept;
      }
      now := now + delay + w.oversleep(attempts);
      slept := slept + delay;
      delay := Min(delay * 2, p.max);
      attempts := attempts + 1;
    }
  }

  /** 60 s, 250 ms, 5 s. */
  const DEFAULT := Policy(60_000_000_000, 250_000_000, 5_000_000_000)

  lemma Powers()
    ensures Pow2(0) == 1 && Pow2(1) == 2 && Pow2(2) == 4 && Pow2(3) == 8 && Pow2(4) == 16 && Pow2(5) == 32
  {
  }

  lemma {:induction false} DefaultPausesAtCap(k: nat)
    requires k >= 5
    ensures Pause(DEFAULT, k) == DEFAULT.max
    ensures Pow2(k) >= 32
  {
    Powers();
    if k > 5 {
      DefaultPausesAtCap(k - 1);
    }
  }

  lemma {:induction false} DefaultTotal(n: nat)
    requires n >= 5
    ensures Total(DEFAULT, n) == 7_750_000_000 + (n - 5) * 5_000_000_000
  {
    Powers();
    if n > 5 {
      DefaultTotal(n - 1);
      DefaultPausesAtCap(n - 1);
    } else {
      assert Total(DEFAULT, 1) == 250_000_000;
      assert Total(DEFAULT, 2) == 750_000_000;
      assert Total(DEFAULT, 3) == 1_750_000_000;
      assert Total(DEFAULT, 4) == 3_750_000_000;
    }
  }

  /** The default policy makes at most sixteen attempts. */
  lemma DefaultSixteenAttempts()
    ensures MaxPauses(DEFAULT) + 1 == 16
  {
    DefaultTotal(15);
    DefaultTotal(16);
    PausesBounded(DEFAULT, 15);
    PausesBounded(DEFAULT, 16);
  }
}
