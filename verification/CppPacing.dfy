/** The pacing of the C++ publisher: how many messages a test may have sent by a given time. */
module CppPacing {
  import opened Wrappers
  import opened Powers
  import opened CppPublisher
  import opened CppLiveness
  import Pacing

  /** The most messages a second the checks let through in the long run. */
  function Ceiling(c: Control): (n: nat)
    ensures n >= c.rate && n >= c.batch
  {
    if c.rate > c.batch then c.rate else c.batch
  }

  /** The most messages from one check up to the next. */
  function Slack(batch: nat): nat { if batch > 2 then batch - 1 else 1 }

  /** The most messages since the last check that the counter allows for. */
  function Since(cnt: nat, batch: nat): (n: nat)
    ensures n <= Slack(batch)
  {
    if cnt + 1 < Slack(batch) then cnt + 1 else Slack(batch)
  }

  /** By `elapsed` after the start, `messages` are within the ceiling, give or take the second that a reading of
      whole seconds may be off. */
  predicate WithinASecond(ceiling: nat, elapsed: real, messages: int) {
    Pacing.Allowed(ceiling as real, elapsed + 1.0, messages as real)
  }

  /** All messages but those since the last check are within the ceiling. */
  predicate OnPace(m: Machine, elapsed: real) {
    WithinASecond(Ceiling(m.ctl), elapsed, m.ctl.msgCnt - Since(m.cnt, m.ctl.batch))
  }

  lemma FewerLater(c: nat, elapsed: real, later: real, messages: int, fewer: int)
    requires elapsed <= later && fewer <= messages && WithinASecond(c, elapsed, messages)
    ensures WithinASecond(c, later, fewer)
  {
    MulMonotone(c as real, elapsed + 1.0, later + 1.0);
  }

  /** A check makes up for the messages since the check before it, whether or not its pause is cut short. */
  lemma CheckMakesUp(c: nat, rate: nat, messages: nat, slack: nat, seen: int, elapsed: real, later: real)
    requires c >= rate && c >= slack && 0.0 <= elapsed && seen as real <= elapsed + 1.0
    requires WithinASecond(c, elapsed, messages - slack)
    requires later - elapsed >= Pause(messages, rate, seen)
    ensures WithinASecond(c, later, messages)
  {
    assert later >= elapsed;
    var pause := Pause(messages, rate, seen);
    if pause == 1.0 {
      ASecondLater(c, elapsed, messages, slack);
      FewerLater(c, elapsed + 1.0, later, messages, messages);
    } else if rate == 0 {
      NothingSent(c, later);
    } else {
      assert messages as real / rate as real - seen as real <= pause;
      WhenDue(c, rate, messages, later);
    }
  }

  lemma ASecondLater(c: nat, elapsed: real, messages: nat, slack: nat)
    requires c >= slack && WithinASecond(c, elapsed, messages - slack)
    ensures WithinASecond(c, elapsed + 1.0, messages)
  {
    assert c as real * (elapsed + 2.0) == c as real * (elapsed + 1.0) + c as real;
  }

  lemma WhenDue(c: nat, rate: nat, messages: nat, later: real)
    requires c >= rate > 0 && later >= 0.0 && messages as real / rate as real <= later + 1.0
    ensures WithinASecond(c, later, messages)
  {
    QuotientTimes(messages as real, rate as real);
    MulMonotone(rate as real, messages as real / rate as real, later + 1.0);
    MulMonotone(later + 1.0, rate as real, c as real);
  }

  lemma NothingSent(c: nat, elapsed: real)
    requires elapsed >= 0.0
    ensures WithinASecond(c, elapsed, 0)
  {
    MulMonotone(c as real, 0.0, elapsed + 1.0);
  }

  /** A step of a test that reads the clock at `now`; the next does so at `next`, after any sleep in between. */
  ghost predicate StepTakes(m: Machine, i: Input, now: real, next: real)
    requires Inv(m)
  {
    && now.Floor == m.clock + i.dt
    && next - now >= TotalSlept(Step(m, i).log) - TotalSlept(m.log)
  }

  /** The part of a test before its stop, as far as pacing goes. */
  ghost predicate Paced(m: Machine, start: real, now: real) {
    && InTest(m) && 0 < m.ctl.batch && m.cnt < m.ctl.batch
    && start.Floor == m.startTime && start <= now && OnPace(m, now - start)
  }

  /** A poll sends nothing and sleeps for nothing. */
  lemma PollPaced(m: Machine, i: Input, start: real, now: real, next: real)
    requires Paced(m, start, now) && Quiet(i) && StepTakes(m, i, now, next) && !m.inBurst
    ensures Paced(Step(m, i), start, next)
  {
    TestStep(m, i);
    var m' := Step(m, i);
    if i.request.Some? {
      SleptAppend(m.log, m'.log[|m.log|]);
    }
    assert m'.ctl == m.ctl && m'.cnt == m.cnt;
    FewerLater(Ceiling(m.ctl), now - start, next - start, m.ctl.msgCnt - Since(m.cnt, m.ctl.batch),
               m.ctl.msgCnt - Since(m.cnt, m.ctl.batch));
  }

  lemma SendPaced(m: Machine, i: Input, start: real, now: real, next: real)
    requires Paced(m, start, now) && Quiet(i) && StepTakes(m, i, now, next) && m.inBurst && m.cnt + 1 < m.ctl.batch
    ensures Paced(Step(m, i), start, next)
  {
    TestStep(m, i);
    var m' := Step(m, i);
    SleptAppend(m.log, Sent(m.ctl.msgCnt));
    FewerLater(Ceiling(m.ctl), now - start, next - start, m.ctl.msgCnt - Since(m.cnt, m.ctl.batch),
               m'.ctl.msgCnt - Since(m'.cnt, m'.ctl.batch));
  }

  lemma CheckPaced(m: Machine, i: Input, start: real, now: real, next: real)
    requires Paced(m, start, now) && Quiet(i) && StepTakes(m, i, now, next) && m.inBurst && m.cnt + 1 == m.ctl.batch
    ensures OnPace(Step(m, i), next - start)
    ensures Step(m, i).ctl.Phase() == Running ==> Paced(Step(m, i), start, next)
  {
    TestStep(m, i);
    var t := Tick(m, i.dt);
    assert Step(m, i) == Check(t, m.ctl.batch);
    var seen := t.clock - t.startTime;
    var pause := Pause(m.ctl.msgCnt, m.ctl.rate, seen);
    if Overdue(t) {
      FewerLater(Ceiling(m.ctl), now - start, next - start, m.ctl.msgCnt - Since(m.cnt, m.ctl.batch),
                 m.ctl.msgCnt - Slack(m.ctl.batch));
    } else {
      SleptAppend(m.log, Slept(pause));
      SleptAppend(Rest(t).log, Sent(m.ctl.msgCnt));
      CheckMakesUp(Ceiling(m.ctl), m.ctl.rate, m.ctl.msgCnt, Slack(m.ctl.batch), seen, now - start, next - start);
    }
  }

  lemma StepPaced(m: Machine, i: Input, start: real, now: real, next: real)
    requires Paced(m, start, now) && Quiet(i) && StepTakes(m, i, now, next)
    ensures OnPace(Step(m, i), next - start)
    ensures Step(m, i).ctl.Phase() == Running ==> Paced(Step(m, i), start, next)
  {
    if !m.inBurst {
      PollPaced(m, i, start, now, next);
    } else if m.cnt + 1 < m.ctl.batch {
      SendPaced(m, i, start, now, next);
    } else {
      CheckPaced(m, i, start, now, next);
    }
  }

  // ----- never past due -----

  predicate DueBy(rate: nat, time: real, messages: nat) {
    Pacing.DueBy(rate as real, time, messages as real)
  }

  lemma DueEarlier(rate: nat, time: real, earlier: real, messages: nat, more: nat)
    requires earlier <= time && messages <= more && DueBy(rate, time, messages)
    ensures DueBy(rate, earlier, more)
  {
    MulMonotone(rate as real, earlier, time);
  }

  lemma PauseNeverPastDue(messages: nat, rate: nat, elapsed: int)
    requires rate > 0 && Pause(messages, rate, elapsed) > 0.0
    ensures DueBy(rate, elapsed as real + Pause(messages, rate, elapsed), messages)
  {
    var until := elapsed as real + Pause(messages, rate, elapsed);
    assert until <= messages as real / rate as real;
    MulMonotone(rate as real, until, messages as real / rate as real);
    QuotientTimes(messages as real, rate as real);
  }

  /** Before the first message there is no pause, whatever the rate; with a rate of zero there is a full one ever
      after. */
  lemma PauseAtZero(messages: nat, rate: nat, elapsed: nat)
    requires messages == 0 || rate == 0
    ensures Pause(messages, rate, elapsed) == if messages == 0 then 0.0 else 1.0
  {
  }

  lemma BurstPause(m: Machine)
    requires m.inBurst
    ensures var slept := TotalSlept(Burst(m).log) - TotalSlept(m.log);
            slept == 0.0 || slept == Pause(m.ctl.msgCnt, m.ctl.rate, m.clock - m.startTime)
  {
    SleptAppend(m.log, Sent(m.ctl.msgCnt));
    SleptAppend(m.log, Slept(Pause(m.ctl.msgCnt, m.ctl.rate, m.clock - m.startTime)));
    SleptAppend(Rest(m).log, Sent(m.ctl.msgCnt));
  }

  /** A turn of the inner loop that sleeps does not sleep past the moment its messages are due: a publisher that is
      behind does not sleep. */
  lemma TurnNeverPastDue(m: Machine)
    requires m.inBurst && m.ctl.rate > 0
    ensures var slept := TotalSlept(Burst(m).log) - TotalSlept(m.log);
            slept > 0.0 ==> DueBy(m.ctl.rate, (m.clock - m.startTime) as real + slept, m.ctl.msgCnt)
  {
    BurstPause(m);
    if TotalSlept(Burst(m).log) - TotalSlept(m.log) > 0.0 {
      PauseNeverPastDue(m.ctl.msgCnt, m.ctl.rate, m.clock - m.startTime);
    }
  }

  /** The state of a test that has slept for no longer than it has lasted, nor, but for a second, than its messages
      take at the requested rate. */
  ghost predicate Brisk(m: Machine, s: Machine, start: real, now: real) {
    && SameTest(m, s) && start.Floor == s.startTime && 0.0 <= SleptSince(m, s) <= now - start
    && DueBy(m.ctl.rate, SleptSince(m, s) - 1.0, s.ctl.msgCnt)
  }

  /** The time slept since the test was as in `m`. */
  function SleptSince(m: Machine, s: Machine): real { TotalSlept(s.log) - TotalSlept(m.log) }

  lemma BriskNext(m: Machine, s: Machine, i: Input, start: real, now: real, next: real)
    requires m.ctl.rate > 0 && Brisk(m, s, start, now)
    requires InTest(s) && Quiet(i) && StepTakes(s, i, now, next)
    ensures Brisk(m, Step(s, i), start, next)
  {
    TestStep(s, i);
    if s.inBurst {
      BurstBrisk(m, Tick(s, i.dt), start, now);
    } else if i.request.Some? {
      SleptAppend(s.log, Step(s, i).log[|s.log|]);
    }
  }

  /** A turn of the inner loop at the time `now` that takes no longer than its sleep. */
  lemma BurstBrisk(m: Machine, s: Machine, start: real, now: real)
    requires m.ctl.rate > 0 && Brisk(m, s, start, now) && s.inBurst && now.Floor == s.clock
    ensures var s' := Burst(s);
            0.0 <= SleptSince(m, s') <= now + SleptSince(s, s') - start
            && DueBy(m.ctl.rate, SleptSince(m, s') - 1.0, s'.ctl.msgCnt)
  {
    var s' := Burst(s);
    BurstSlept(s);
    TurnNeverPastDue(s);
    BurstSends(s);
    var slept, d := SleptSince(m, s), SleptSince(s, s');
    if d > 0.0 {
      DueEarlier(m.ctl.rate, (s.clock - s.startTime) as real + d, slept + d - 1.0, s.ctl.msgCnt, s'.ctl.msgCnt);
    } else {
      DueEarlier(m.ctl.rate, slept - 1.0, slept - 1.0, s.ctl.msgCnt, s'.ctl.msgCnt);
    }
  }

  lemma BurstSends(m: Machine)
    ensures Burst(m).ctl.msgCnt >= m.ctl.msgCnt
  {
  }

  // ----- over a whole test -----

  /** Step `n` reads the clock at `at(n)`, of which it sees the whole seconds, and sleeps for as long as it asks to. */
  ghost predicate FeedKeepsTime(m: Machine, feed: nat -> Input, at: nat -> real)
    requires Inv(m)
  {
    forall n: nat :: StepTakesAt(m, feed, at, n)
  }

  ghost predicate StepTakesAt(m: Machine, feed: nat -> Input, at: nat -> real, n: nat)
    requires Inv(m)
  {
    StepTakes(After(m, feed, n), feed(n), at(n), at(n + 1))
  }

  /** A test that has just begun, at the time `start`. */
  ghost predicate JustBegun(m: Machine, start: real) {
    InTest(m) && m.inBurst && m.ctl.msgCnt == 0 && m.cnt == 0 && m.clock == m.startTime == start.Floor
  }

  /** An accepted start begins a test so, with the time of the clock reading for its start. */
  lemma StartBegins(m: Machine, start: real)
    requires Inv(m) && !m.inBurst && !m.aborted && !m.ctl.publishing && start.Floor == m.clock
    ensures JustBegun(Poll(m, Some(TestStart)), start)
  {
    PollKeepsInv(m, Some(TestStart));
  }

  /** `s` is a state of the test of `m`, paced until its stop. */
  ghost predicate PacedIn(m: Machine, s: Machine, start: real, now: real) {
    && SameTest(m, s) && OnPace(s, now - start)
    && (s.ctl.Phase() == Running ==> Paced(s, start, now))
  }

  lemma PacedNext(m: Machine, s: Machine, i: Input, start: real, now: real, next: real)
    requires PacedIn(m, s, start, now) && s.ctl.Phase() == Running && Quiet(i) && Inv(s) && StepTakes(s, i, now, next)
    ensures PacedIn(m, Step(s, i), start, next)
  {
    TestStep(s, i);
    StepPaced(s, i, start, now, next);
  }

  lemma {:induction false} PacedSoFar(m: Machine, feed: nat -> Input, at: nat -> real, start: real, n: nat)
    requires JustBegun(m, start) && 0 < m.ctl.batch && start <= at(0)
    requires AllQuiet(feed) && FeedKeepsTime(m, feed, at)
    requires forall i: nat :: i < n ==> After(m, feed, i).ctl.Phase() == Running
    ensures PacedIn(m, After(m, feed, n), start, at(n))
  {
    if n > 0 {
      PacedSoFar(m, feed, at, start, n - 1);
      AfterNext(m, feed, n - 1);
      assert StepTakesAt(m, feed, at, n - 1);
      PacedNext(m, After(m, feed, n - 1), feed(n - 1), start, at(n - 1), at(n));
    } else {
      assert After(m, feed, 0) == m;
      BeginsPaced(m, start, at(0));
    }
  }

  lemma BeginsPaced(m: Machine, start: real, now: real)
    requires JustBegun(m, start) && 0 < m.ctl.batch && start <= now
    ensures PacedIn(m, m, start, now)
  {
    NothingSent(Ceiling(m.ctl), now - start);
    FewerLater(Ceiling(m.ctl), now - start, now - start, 0, m.ctl.msgCnt - Since(m.cnt, m.ctl.batch));
  }

  lemma PacedWithinBatch(m: Machine, m': Machine, elapsed: real)
    requires SameTest(m, m') && OnPace(m', elapsed)
    ensures WithinASecond(Ceiling(m.ctl), elapsed, m'.ctl.msgCnt - Slack(m.ctl.batch))
  {
    FewerLater(Ceiling(m.ctl), elapsed, elapsed, m'.ctl.msgCnt - Since(m'.cnt, m'.ctl.batch),
               m'.ctl.msgCnt - Slack(m.ctl.batch));
  }

  /** On every clock that respects the sleeps, up to and including its stop, a test has sent at most
      max(rate, batch) times a second more than the time since its start, plus a batch less one. */
  lemma CppPacingBound(m: Machine, feed: nat -> Input, at: nat -> real, start: real, n: nat)
    requires JustBegun(m, start) && 0 < m.ctl.batch && start <= at(0)
    requires AllQuiet(feed) && FeedKeepsTime(m, feed, at)
    requires forall i: nat :: i < n ==> After(m, feed, i).ctl.Phase() == Running
    ensures WithinASecond(Ceiling(m.ctl), at(n) - start, After(m, feed, n).ctl.msgCnt - Slack(m.ctl.batch))
  {
    PacedSoFar(m, feed, at, start, n);
    PacedWithinBatch(m, After(m, feed, n), at(n) - start);
  }

  /** All of this holds of the first `n` steps of a test on a clock that respects the sleeps. */
  ghost predicate TestUpTo(m: Machine, feed: nat -> Input, at: nat -> real, start: real, n: nat) {
    && JustBegun(m, start) && start <= at(0) && AllQuiet(feed) && FeedKeepsTime(m, feed, at)
    && forall i: nat :: i < n ==> After(m, feed, i).ctl.Phase() == Running
  }

  /** The bound holds of every test exactly when the batch is not zero: with a batch of zero nothing is paced. */
  lemma PacedExactly(batch: nat)
    requires batch < UINT32
    ensures (forall m: Machine, feed: nat -> Input, at: nat -> real, start: real, n: nat
               | m.ctl.batch == batch && TestUpTo(m, feed, at, start, n) ::
               WithinASecond(Ceiling(m.ctl), at(n) - start, After(m, feed, n).ctl.msgCnt - Slack(batch))) <==>
            batch != 0
  {
    if batch != 0 {
      forall m: Machine, feed: nat -> Input, at: nat -> real, start: real, n: nat
        | m.ctl.batch == batch && TestUpTo(m, feed, at, start, n)
        ensures WithinASecond(Ceiling(m.ctl), at(n) - start, After(m, feed, n).ctl.msgCnt - Slack(batch))
      {
        CppPacingBound(m, feed, at, start, n);
      }
    } else {
      var m, feed, at, n := UnpacedTest();
    }
  }

  lemma BatchZeroStep(m: Machine, i: Input)
    requires InTest(m) && m.ctl.batch == 0 && Quiet(i)
    ensures var m' := Step(m, i);
            && TotalSlept(m'.log) == TotalSlept(m.log)
            && (m.inBurst && m.cnt + 1 < UINT32 - 1 ==>
                  m'.inBurst && m'.cnt == m.cnt + 1 && m'.ctl == m.ctl.(msgCnt := m.ctl.msgCnt + 1))
  {
    var m' := Step(m, i);
    if |m'.log| > |m.log| {
      SleptAppend(m.log, m'.log[|m.log|]);
    }
  }

  lemma {:induction false} BatchZeroSends(m: Machine, feed: nat -> Input, n: nat)
    requires InTest(m) && m.inBurst && m.ctl.batch == 0 && m.cnt == 0 && m.ctl.msgCnt == 0 && AllQuiet(feed)
    requires n < UINT32 - 1
    ensures var m' := After(m, feed, n); m'.inBurst && m'.cnt == n == m'.ctl.msgCnt
  {
    if n > 0 {
      BatchZeroSends(m, feed, n - 1);
      BatchZeroNeverStops(m, feed, n - 1);
      AfterNext(m, feed, n - 1);
      BatchZeroStep(After(m, feed, n - 1), feed(n - 1));
    } else {
      assert After(m, feed, 0) == m;
    }
  }

  lemma {:induction false} NoTimePasses(feed: nat -> Input, n: nat)
    requires forall i: nat :: feed(i).dt == 0
    ensures Elapsed(feed, n) == 0
  {
    if n > 0 {
      NoTimePasses(feed, n - 1);
    }
  }

  /** A test with a batch of zero that sends 1002 messages in no time, at a requested rate of 1000 a second. */
  lemma UnpacedTest() returns (m: Machine, feed: nat -> Input, at: nat -> real, n: nat)
    ensures m.ctl.batch == 0 && TestUpTo(m, feed, at, 0.0, n)
    ensures !WithinASecond(Ceiling(m.ctl), at(n), After(m, feed, n).ctl.msgCnt - Slack(0))
  {
    var boot := Boot(0).(ctl := Boot(0).ctl.(batch := 0));
    StartBegins(boot, 0.0);
    m, n := Poll(boot, Some(TestStart)), 1002;
    feed, at := (i: nat) => Input(None, 0), (i: nat) => 0.0;
    forall i: nat
      ensures After(m, feed, i).ctl.Phase() == Running
    {
      BatchZeroNeverStops(m, feed, i);
    }
    forall i: nat
      ensures StepTakesAt(m, feed, at, i)
    {
      BatchZeroNeverStops(m, feed, i);
      TestSoFar(m, feed, i);
      NoTimePasses(feed, i);
      BatchZeroStep(After(m, feed, i), feed(i));
    }
    BatchZeroSends(m, feed, n);
    assert Ceiling(m.ctl) == 1000;
  }

  lemma {:induction false} BriskSoFar(m: Machine, feed: nat -> Input, at: nat -> real, start: real, n: nat)
    requires JustBegun(m, start) && 0 < m.ctl.rate && start <= at(0)
    requires AllQuiet(feed) && FeedKeepsTime(m, feed, at)
    requires forall i: nat :: i < n ==> After(m, feed, i).ctl.Phase() == Running
    ensures Brisk(m, After(m, feed, n), start, at(n))
  {
    if n > 0 {
      BriskSoFar(m, feed, at, start, n - 1);
      AfterNext(m, feed, n - 1);
      StillInTest(m, feed, n - 1);
      assert StepTakesAt(m, feed, at, n - 1);
      BriskNext(m, After(m, feed, n - 1), feed(n - 1), start, at(n - 1), at(n));
    } else {
      assert After(m, feed, 0) == m;
      BeginsBrisk(m, start, at(0));
    }
  }

  lemma StillInTest(m: Machine, feed: nat -> Input, n: nat)
    requires InTest(m) && AllQuiet(feed) && forall i: nat :: i <= n ==> After(m, feed, i).ctl.Phase() == Running
    ensures InTest(After(m, feed, n))
  {
    TestSoFar(m, feed, n);
  }

  lemma BeginsBrisk(m: Machine, start: real, now: real)
    requires JustBegun(m, start) && start <= now
    ensures Brisk(m, m, start, now)
  {
  }

  /** The counterpart of the bound, with any batch: the messages of a test make up, at the requested rate, for all the
      time it slept but a second. So apart from the time `busy` that sends, polls and oversleeping take, a test is
      at most a second's worth of messages behind. */
  lemma NeverFarBehind(m: Machine, feed: nat -> Input, at: nat -> real, start: real, n: nat)
    requires TestUpTo(m, feed, at, start, n) && m.ctl.rate > 0
    ensures var busy := at(n) - start - SleptSince(m, After(m, feed, n));
            busy >= 0.0 && DueBy(m.ctl.rate, at(n) - start - busy - 1.0, After(m, feed, n).ctl.msgCnt)
  {
    BriskSoFar(m, feed, at, start, n);
  }

  /** The statistics report at most `ceiling` messages for each second and two more, plus the slack. */
  predicate ReportWithin(ints: map<string, int>, ceiling: nat, slack: nat) {
    && ints.Keys == {"time:start", "time:end", "msg_cnt"}
    && ints["msg_cnt"] <= ceiling * (ints["time:end"] - ints["time:start"] + 2) + slack
  }

  /** So the statistics of a test report at most max(rate, batch) messages for each of the seconds it took and for
      two more, plus a batch less one. */
  lemma ReportedWithinPace(m: Machine, feed: nat -> Input, at: nat -> real, start: real, n: nat)
    requires JustBegun(m, start) && 0 < m.ctl.batch && start <= at(0)
    requires AllQuiet(feed) && FeedKeepsTime(m, feed, at)
    requires forall i: nat :: i < n ==> After(m, feed, i).ctl.Phase() == Running
    requires After(m, feed, n).ctl.Phase() == Stopping
    ensures ReportWithin(After(m, feed, n + 1).ctl.ints, Ceiling(m.ctl), Slack(m.ctl.batch))
  {
    PacedSoFar(m, feed, at, start, n);
    TestSoFar(m, feed, n);
    AfterNext(m, feed, n);
    assert StepTakesAt(m, feed, at, n);
    StopWithinPace(m, After(m, feed, n), feed(n), start, at(n), at(n + 1));
  }

  lemma StopWithinPace(m: Machine, stopped: Machine, i: Input, start: real, now: real, next: real)
    requires Inv(stopped) && !stopped.aborted && stopped.ctl.Phase() == Stopping && Quiet(i)
    requires PacedIn(m, stopped, start, now) && start.Floor == m.startTime && StepTakes(stopped, i, now, next)
    ensures ReportWithin(Step(stopped, i).ctl.ints, Ceiling(m.ctl), Slack(m.ctl.batch))
  {
    PacedWithinBatch(m, stopped, now - start);
    StopReports(stopped, i);
    var seconds := stopped.clock + i.dt - m.startTime;
    FromReals(Ceiling(m.ctl), now - start, stopped.ctl.msgCnt - Slack(m.ctl.batch), seconds + 2);
  }

  lemma StopReports(m: Machine, i: Input)
    requires Inv(m) && !m.aborted && m.ctl.Phase() == Stopping && Quiet(i)
    ensures Step(m, i).ctl.ints ==
            map["time:start" := m.startTime, "time:end" := m.clock + i.dt, "msg_cnt" := m.ctl.msgCnt]
  {
    PollReports(Tick(m, i.dt), i.request, m.startTime);
  }

  lemma PollReports(m: Machine, request: Option<Command>, began: int)
    requires !m.aborted && m.ctl.Phase() == Stopping && m.ctl.ints == map["time:start" := began]
    requires request.Some? ==> !request.value.UpdateConfig?
    ensures Poll(m, request).ctl.ints ==
            map["time:start" := began, "time:end" := m.clock, "msg_cnt" := m.ctl.msgCnt]
  {
    var answered := Answer(m, request);
    assert answered.ctl.Phase() == Stopping && answered.ctl.msgCnt == m.ctl.msgCnt;
  }

  lemma FromReals(c: nat, elapsed: real, messages: int, seconds: int)
    requires WithinASecond(c, elapsed, messages) && elapsed + 1.0 <= seconds as real
    ensures messages <= c * seconds
  {
    MulMonotone(c as real, elapsed + 1.0, seconds as real);
    assert (c * seconds) as real == c as real * seconds as real;
  }
}
