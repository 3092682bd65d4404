/** The rule that holds a sender, or a receiver, to a requested rate: compare the time the messages so far
    should have taken with the time elapsed, and sleep the difference, at most one second. */
module Pacing {
  import opened Powers

  /** What the environment adds to one turn of the loop, all at least zero: the time the message takes, what
      the sleep takes beyond the time asked for, and the time up to the clock reading that ends the turn. */
  datatype Turn = Turn(message: real, overrun: real, read: real) {
    predicate Valid() { message >= 0.0 && overrun >= 0.0 && read >= 0.0 }
  }

  /** Messages so far, messages since the last check, and time since the start. */
  datatype Pace = Pace(sent: nat, cnt: nat, now: real)

  /** The pause at a check; at a rate of zero the division fails and there is none. */
  function Delay(sent: nat, rate: real, elapsed: real): (d: real)
    ensures 0.0 <= d <= 1.0
  {
    var expected := if rate == 0.0 then 0.0 else sent as real / rate;
    var delay := if expected > elapsed then expected - elapsed else 0.0;
    if delay > 1.0 then 1.0 else delay
  }

  datatype Pacer = Pacer(rate: real, batch: int) {
    predicate Valid() { rate > 0.0 }

    /** A batch below one is checked after every message, like a batch of one. */
    function Batch(): nat { if batch < 1 then 1 else batch }

    /** The most messages a second the rule lets through in the long run. */
    function Ceiling(): (c: real)
      ensures c >= 1.0 && c >= rate && c >= Batch() as real
      ensures Batch() as real <= rate ==> c == rate
    {
      if rate > Batch() as real then rate else Batch() as real
    }

    /** The time of one turn without the pause asked for. */
    function Extra(s: Pace, t: Turn): real {
      t.message + (if s.cnt + 1 >= batch then t.overrun else 0.0) + t.read
    }

    function Step(s: Pace, t: Turn): Pace {
      var sent, now := s.sent + 1, s.now + t.message;
      if s.cnt + 1 >= batch then Pace(sent, 0, now + Delay(sent, rate, now) + t.overrun + t.read)
      else Pace(sent, s.cnt + 1, now + t.read)
    }

    /** After `n` turns. */
    function At(env: nat -> Turn, n: nat): Pace {
      if n == 0 then Pace(0, 0, 0.0) else Step(At(env, n - 1), env(n - 1))
    }

    /** The messages of completed batches are within what the ceiling `c` allows by now. */
    ghost predicate OnPace(c: real, s: Pace) {
      && 0.0 <= s.now
      && s.cnt <= s.sent && s.cnt < Batch()
      && Allowed(c, s.now, (s.sent - s.cnt) as real)
    }
  }

  predicate Allowed(c: real, time: real, messages: real) {
    messages <= c * time
  }

  ghost predicate Adversary(env: nat -> Turn) { forall i: nat :: env(i).Valid() }

  lemma AllowedLater(c: real, time: real, later: real, messages: real)
    requires c >= 0.0 && time <= later && Allowed(c, time, messages)
    ensures Allowed(c, later, messages)
  {
    MulMonotone(c, time, later);
  }

  /** A check after `n` messages, `k` of them allowed at the previous check, leaves the sender on pace
      whether or not the sleep was capped. */
  lemma CheckRestoresPace(c: real, b: real, rate: real, k: real, n: real, before: real, elapsed: real, until: real)
    requires c >= b && c >= rate > 0.0 && n <= k + b && before <= elapsed
    requires Allowed(c, before, k)
    requires until >= elapsed + 1.0 || (until >= 0.0 && until >= n / rate)
    ensures Allowed(c, until, n)
  {
    if until >= elapsed + 1.0 {
      MulMonotone(c, before, until - 1.0);
      assert c * (until - 1.0) == c * until - c;
    } else {
      QuotientTimes(n, rate);
      MulMonotone(rate, n / rate, until);
      MulMonotone(until, rate, c);
    }
  }

  /** The cap does not bind when the ceiling is the requested rate itself. */
  lemma CapNeverBinds(b: real, rate: real, k: real, n: real, before: real, elapsed: real)
    requires 0.0 < rate && b <= rate && n <= k + b && before <= elapsed
    requires Allowed(rate, before, k)
    ensures n / rate - elapsed <= 1.0
  {
    MulMonotone(rate, before, elapsed);
    assert rate * (elapsed + 1.0) == rate * elapsed + rate;
    QuotientAtMost(n, rate, elapsed + 1.0);
  }

  lemma StepStaysOnPace(p: Pacer, c: real, s: Pace, t: Turn)
    requires p.Valid() && c >= p.rate && c >= p.Batch() as real && t.Valid() && p.OnPace(c, s)
    ensures p.OnPace(c, p.Step(s, t))
  {
    var elapsed, s' := s.now + t.message, p.Step(s, t);
    if s.cnt + 1 >= p.batch {
      CheckRestoresPace(c, p.Batch() as real, p.rate, (s.sent - s.cnt) as real, s'.sent as real, s.now, elapsed, s'.now);
    } else {
      AllowedLater(c, s.now, s'.now, (s.sent - s.cnt) as real);
    }
  }

  lemma {:induction false} StaysOnPace(p: Pacer, env: nat -> Turn, n: nat)
    requires p.Valid() && Adversary(env)
    ensures p.OnPace(p.Ceiling(), p.At(env, n)) && p.At(env, n).sent == n
  {
    if n > 0 {
      StaysOnPace(p, env, n - 1);
      assert env(n - 1).Valid();
      StepStaysOnPace(p, p.Ceiling(), p.At(env, n - 1), env(n - 1));
    }
  }

  /** For every clock and every send latency: at the end of each turn the messages sent exceed what the
      ceiling allows by at most one batch less one. */
  lemma PacingBound(p: Pacer, env: nat -> Turn, n: nat)
    requires p.Valid() && Adversary(env)
    ensures p.At(env, n).sent == n
    ensures Allowed(p.Ceiling(), p.At(env, n).now, n as real - (p.Batch() - 1) as real)
  {
    StaysOnPace(p, env, n);
  }

  /** When a batch is at most one second's worth, no sleep of the whole run is cut short by the cap. */
  lemma SleepNeverCapped(p: Pacer, env: nat -> Turn, n: nat)
    requires p.Valid() && Adversary(env) && p.Batch() as real <= p.rate
    ensures (n + 1) as real / p.rate - (p.At(env, n).now + env(n).message) <= 1.0
  {
    StaysOnPace(p, env, n);
    assert env(n).Valid();
    var s := p.At(env, n);
    CapNeverBinds(p.Batch() as real, p.rate, (s.sent - s.cnt) as real, (n + 1) as real, s.now, s.now + env(n).message);
  }

  /** On an ideal clock, where sending takes no time and sleeps are exact, the completed batches have been
      sent at exactly the requested rate. */
  lemma {:induction false} IdealClockExact(p: Pacer, env: nat -> Turn, n: nat)
    requires p.Valid() && p.Batch() as real <= p.rate
    requires forall i: nat :: env(i) == Turn(0.0, 0.0, 0.0)
    ensures var s := p.At(env, n); s.sent == n && s.cnt < p.Batch() && Exact(p.rate, s.now, s.sent - s.cnt)
  {
    if n > 0 {
      IdealClockExact(p, env, n - 1);
      assert env(n - 1) == Turn(0.0, 0.0, 0.0);
      IdealStep(p, p.At(env, n - 1));
    }
  }

  predicate Exact(rate: real, time: real, messages: int) {
    rate * time == messages as real
  }

  lemma IdealStep(p: Pacer, s: Pace)
    requires p.Valid() && p.Batch() as real <= p.rate && s.cnt < p.Batch() && Exact(p.rate, s.now, s.sent - s.cnt)
    ensures var s' := p.Step(s, Turn(0.0, 0.0, 0.0)); s'.cnt < p.Batch() && Exact(p.rate, s'.now, s'.sent - s'.cnt)
  {
    var k, n := (s.sent - s.cnt) as real, (s.sent + 1) as real;
    QuotientTimes(n, p.rate);
    QuotientAtLeast(n, p.rate, s.now);
    CapNeverBinds(p.Batch() as real, p.rate, k, n, s.now, s.now);
  }

  // ----- no slower than asked for -----

  /** At `rate` messages a second, `messages` of them are due by `time` or later. */
  predicate DueBy(rate: real, time: real, messages: real) {
    rate * time <= messages
  }

  lemma DueEarlier(rate: real, time: real, earlier: real, messages: real)
    requires rate >= 0.0 && earlier <= time && DueBy(rate, time, messages)
    ensures DueBy(rate, earlier, messages)
  {
    MulMonotone(rate, earlier, time);
  }

  /** A pause never goes past the moment the messages are due, so a sender that is behind does not pause. */
  lemma NeverPastDue(sent: nat, rate: real, elapsed: real)
    requires rate > 0.0 && Delay(sent, rate, elapsed) > 0.0
    ensures DueBy(rate, elapsed + Delay(sent, rate, elapsed), sent as real)
  {
    var until := elapsed + Delay(sent, rate, elapsed);
    assert until <= sent as real / rate;
    MulMonotone(rate, until, sent as real / rate);
    QuotientTimes(sent as real, rate);
  }

  /** A negative rate is not paced at all. */
  lemma NegativeNotPaced(sent: nat, rate: real, elapsed: real)
    requires rate < 0.0 && elapsed >= 0.0
    ensures Delay(sent, rate, elapsed) == 0.0
  {
    var due := sent as real / rate;
    assert due * rate == sent as real;
    if due > 0.0 {
      MulLess(due, rate, 0.0);
    }
  }

  /** The time of the first `n` turns that is no pause the sender asked for. */
  function Overhead(p: Pacer, env: nat -> Turn, n: nat): real {
    if n == 0 then 0.0 else Overhead(p, env, n - 1) + p.Extra(p.At(env, n - 1), env(n - 1))
  }

  /** For every clock and every send latency: apart from the time that sending, oversleeping and reading the clock
      take, the sender is never slower than the requested rate. */
  lemma {:induction false} NeverSlower(p: Pacer, env: nat -> Turn, n: nat)
    requires p.Valid() && Adversary(env)
    ensures Overhead(p, env, n) >= 0.0
    ensures DueBy(p.rate, p.At(env, n).now - Overhead(p, env, n), n as real)
  {
    if n > 0 {
      NeverSlower(p, env, n - 1);
      StaysOnPace(p, env, n - 1);
      assert env(n - 1).Valid();
      StepNotSlower(p, p.At(env, n - 1), env(n - 1), Overhead(p, env, n - 1));
    }
  }

  lemma StepNotSlower(p: Pacer, s: Pace, t: Turn, overhead: real)
    requires p.Valid() && t.Valid() && overhead >= 0.0 && DueBy(p.rate, s.now - overhead, s.sent as real)
    ensures DueBy(p.rate, p.Step(s, t).now - (overhead + p.Extra(s, t)), (s.sent + 1) as real)
  {
    var elapsed := s.now + t.message;
    var delay := if s.cnt + 1 >= p.batch then Delay(s.sent + 1, p.rate, elapsed) else 0.0;
    var left := p.Step(s, t).now - (overhead + p.Extra(s, t));
    assert left == s.now + delay - overhead;
    if delay > 0.0 {
      NeverPastDue(s.sent + 1, p.rate, elapsed);
      DueEarlier(p.rate, elapsed + delay, left, (s.sent + 1) as real);
    }
  }

  /** The messages since the last check count up to a full batch, so every batch is checked once. */
  lemma {:induction false} CountsInBatches(p: Pacer, env: nat -> Turn, n: nat)
    ensures p.At(env, n).cnt == n % p.Batch()
  {
    if n > 0 {
      CountsInBatches(p, env, n - 1);
      NextRemainder(n - 1, p.Batch());
    }
  }

  lemma NextRemainder(n: nat, b: nat)
    requires b > 0
    ensures (n + 1) % b == if n % b + 1 == b then 0 else n % b + 1
  {
    if n % b + 1 == b {
      assert b * (n / b + 1) == b * (n / b) + b;
      Divide(n + 1, b, n / b + 1, 0);
    } else {
      Divide(n + 1, b, n / b, n % b + 1);
    }
  }

  // ----- the length of a test and the rate it reports -----

  /** The number of turns after which a test of the given duration is over, even if sending takes no time. */
  function Limit(ceiling: real, batch: nat, duration: real): int {
    (ceiling * duration).Floor + batch
  }

  lemma TestEnds(p: Pacer, env: nat -> Turn, duration: real, n: nat)
    requires p.Valid() && Adversary(env)
    requires p.At(env, n).now < duration
    ensures n < Limit(p.Ceiling(), p.Batch(), duration)
  {
    PacingBound(p, env, n);
    StaysOnPace(p, env, n);
    LimitFromBound(p.Ceiling(), n, p.Batch(), p.At(env, n).now, duration);
  }

  lemma LimitFromBound(c: real, n: nat, b: nat, elapsed: real, duration: real)
    requires c >= 1.0 && b >= 1 && 0.0 <= elapsed < duration && Allowed(c, elapsed, n as real - (b - 1) as real)
    ensures n < Limit(c, b, duration)
  {
    MulMonotone(c, elapsed, duration);
  }

  /** The test comes to a turn that ends after its duration. */
  ghost predicate TimeComes(p: Pacer, env: nat -> Turn, duration: real) {
    exists n: nat :: n > 0 && p.At(env, n).now >= duration
  }

  /** At a positive rate it always does. */
  lemma TestBound(p: Pacer, env: nat -> Turn, duration: real)
    requires p.Valid() && Adversary(env)
    ensures TimeComes(p, env, duration)
  {
    var limit := Limit(p.Ceiling(), p.Batch(), duration);
    var n := if limit > 0 then limit else 1;
    if p.At(env, n).now < duration {
      TestEnds(p, env, duration, n);
    }
  }

  /** A test that first sees its duration passed at turn `n` has sent at most the limit, and reports a rate of
      at most the ceiling plus one batch less one spread over its duration. */
  lemma ReportedRateBound(p: Pacer, env: nat -> Turn, duration: real, n: nat)
    requires p.Valid() && Adversary(env)
    requires n > 0 && p.At(env, n - 1).now < duration <= p.At(env, n).now && duration > 0.0
    ensures n <= Limit(p.Ceiling(), p.Batch(), duration)
    ensures RateWithin(p.Ceiling(), (p.Batch() - 1) as real, duration, n as real / p.At(env, n).now)
  {
    TestEnds(p, env, duration, n - 1);
    PacingBound(p, env, n);
    RateFromBound(p.Ceiling(), n as real, (p.Batch() - 1) as real, p.At(env, n).now, duration);
  }

  predicate RateWithin(ceiling: real, slack: real, duration: real, rate: real)
    requires duration > 0.0
  {
    rate <= ceiling + slack / duration
  }

  lemma RateFromBound(c: real, n: real, slack: real, elapsed: real, duration: real)
    requires 0.0 < duration <= elapsed && slack >= 0.0 && Allowed(c, elapsed, n - slack)
    ensures RateWithin(c, slack, duration, n / elapsed)
  {
    var over := slack / duration;
    QuotientAtLeast(slack, duration, 0.0);
    QuotientTimes(slack, duration);
    MulMonotone(over, duration, elapsed);
    assert elapsed * (c + over) == c * elapsed + over * elapsed;
    QuotientAtMost(n, elapsed, c + over);
  }
}
