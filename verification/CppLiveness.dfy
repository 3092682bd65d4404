/** How long the C++ publisher may stay in its inner loop between two polls, and when its tests end. */
module CppLiveness {
  import opened Wrappers
  import opened Powers
  import opened CppPublisher

  // ----- between two polls -----

  /** How many turns of the inner loop remain at most. */
  function Rank(m: Machine): (r: nat)
    ensures r > 0
  {
    if m.cnt < Top(m.ctl.batch) then Top(m.ctl.batch) - m.cnt else Top(m.ctl.batch) + 1
  }

  function CountSent(log: seq<Event>): nat {
    if log == [] then 0
    else CountSent(log[..|log| - 1]) + if log[|log| - 1].Sent? then 1 else 0
  }

  function CountSlept(log: seq<Event>): nat {
    if log == [] then 0
    else CountSlept(log[..|log| - 1]) + if log[|log| - 1].Slept? then 1 else 0
  }

  lemma CountAppend(log: seq<Event>, e: Event)
    ensures CountSent(log + [e]) == CountSent(log) + if e.Sent? then 1 else 0
    ensures CountSlept(log + [e]) == CountSlept(log) + if e.Slept? then 1 else 0
  {
    assert (log + [e])[..|log|] == log;
  }

  lemma SendCosts(m: Machine, cnt: nat)
    ensures CountSent(Send(m, cnt).log) == CountSent(m.log) + 1
    ensures CountSlept(Send(m, cnt).log) == CountSlept(m.log)
  {
    CountAppend(m.log, Sent(m.ctl.msgCnt));
  }

  lemma CheckCosts(m: Machine, cnt: nat)
    requires m.inBurst
    ensures var m' := Check(m, cnt);
            && m'.ctl.batch == m.ctl.batch && (m'.inBurst ==> m'.cnt == 0) && (!m'.inBurst ==> m'.cnt == cnt)
            && CountSent(m'.log) == CountSent(m.log) + (if m'.inBurst then 1 else 0)
            && CountSlept(m'.log) == CountSlept(m.log) + (if m'.inBurst then 1 else 0)
  {
    CountAppend(m.log, Slept(Pause(m.ctl.msgCnt, m.ctl.rate, m.clock - m.startTime)));
    SendCosts(Rest(m), 0);
  }

  /** One turn of the inner loop leaves it without sending, or sends one message and uses up one turn. */
  lemma AdvanceCosts(m: Machine)
    requires Countable(m)
    ensures var m' := Burst(m);
            && m'.ctl.batch == m.ctl.batch && m'.cnt < UINT32
            && (m'.inBurst ==> Countable(m') && Rank(m') == Rank(m) - 1 && m'.cnt < Top(m.ctl.batch))
            && CountSent(m'.log) == CountSent(m.log) + (if m'.inBurst then 1 else 0)
            && CountSlept(m'.log) <= CountSlept(m.log) + (if m.cnt >= Top(m.ctl.batch) then 1 else 0)
  {
    var cnt := Increment(m.cnt);
    if cnt == Top(m.ctl.batch) {
      assert Burst(m) == Leave(m, cnt, m.ctl.starting);
    } else if cnt >= Top(m.ctl.batch) && cnt >= m.ctl.batch {
      assert Burst(m) == Check(m, cnt);
      CheckCosts(m, cnt);
    } else {
      assert Burst(m) == Send(m, cnt);
      SendCosts(m, cnt);
    }
  }

  predicate Countable(m: Machine) {
    m.inBurst && m.ctl.batch < UINT32 && m.ctl.batch != 1 && m.cnt < UINT32
  }

  lemma {:induction false} BurstsCost(m: Machine, env: nat -> nat, n: nat)
    requires Countable(m) && forall i :: 0 <= i < n ==> Bursts(m, env, i).inBurst
    ensures var m' := Bursts(m, env, n);
            && m'.ctl.batch == m.ctl.batch && m'.cnt < UINT32
            && (m'.inBurst ==> Rank(m') == Rank(m) - n && (n > 0 ==> m'.cnt < Top(m.ctl.batch)))
            && CountSent(m'.log) == CountSent(m.log) + (if m'.inBurst then n else n - 1)
            && CountSlept(m'.log) <= CountSlept(m.log) + (if n > 0 then 1 else 0)
    decreases n
  {
    if n > 0 {
      var before := Bursts(m, env, n - 1);
      assert before.inBurst;
      BurstsCost(m, env, n - 1);
      AdvanceCosts(Tick(before, env(n - 1)));
    }
  }

  ghost predicate ReturnsAfter(m: Machine, env: nat -> nat, n: nat) {
    !Bursts(m, env, n).inBurst && forall i :: 0 <= i < n ==> Bursts(m, env, i).inBurst
  }

  ghost predicate Returns(m: Machine, env: nat -> nat) { exists n: nat :: ReturnsAfter(m, env, n) }

  lemma FindReturn(m: Machine, env: nat -> nat) returns (r: nat)
    requires Countable(m)
    ensures r <= Rank(m) && ReturnsAfter(m, env, r)
  {
    if forall i: nat :: i <= Rank(m) ==> Bursts(m, env, i).inBurst {
      BurstsCost(m, env, Rank(m));
      assert false;
    }
    var n: nat :| n <= Rank(m) && !Bursts(m, env, n).inBurst;
    r := FirstOut(m, env, n);
  }

  lemma FirstOut(m: Machine, env: nat -> nat, n: nat) returns (r: nat)
    requires !Bursts(m, env, n).inBurst
    ensures r <= n && ReturnsAfter(m, env, r)
  {
    r := 0;
    while Bursts(m, env, r).inBurst
      invariant r <= n && forall i :: 0 <= i < r ==> Bursts(m, env, i).inBurst
      decreases n - r
    {
      r := r + 1;
    }
  }

  /** Whatever value the counter has and whatever batch other than one is configured, the inner loop returns to
      the poll after at most one message less than the batch (in 32-bit arithmetic) and at most one capped sleep. */
  lemma BurstReturnsToPoll(m: Machine, env: nat -> nat)
    requires Countable(m)
    ensures Returns(m, env)
    ensures forall n: nat | ReturnsAfter(m, env, n) ::
              && CountSent(Bursts(m, env, n).log) <= CountSent(m.log) + Top(m.ctl.batch)
              && CountSlept(Bursts(m, env, n).log) <= CountSlept(m.log) + 1
  {
    var r := FindReturn(m, env);
    forall n: nat | ReturnsAfter(m, env, n)
      ensures CountSent(Bursts(m, env, n).log) <= CountSent(m.log) + Top(m.ctl.batch)
      ensures CountSlept(Bursts(m, env, n).log) <= CountSlept(m.log) + 1
    {
      SameReturn(m, env, n, r);
      BurstsCost(m, env, n);
    }
  }

  lemma SameReturn(m: Machine, env: nat -> nat, n: nat, r: nat)
    requires ReturnsAfter(m, env, n) && ReturnsAfter(m, env, r)
    ensures n == r
  {
  }

  // ----- a clock that respects the sleeps -----

  function TotalSlept(log: seq<Event>): real {
    if log == [] then 0.0
    else TotalSlept(log[..|log| - 1]) + if log[|log| - 1].Slept? then log[|log| - 1].delay else 0.0
  }

  lemma SleptAppend(log: seq<Event>, e: Event)
    ensures TotalSlept(log + [e]) == TotalSlept(log) + if e.Slept? then e.delay else 0.0
  {
    assert (log + [e])[..|log|] == log;
  }

  /** Turn `n` of the inner loop looks at the clock at the time `at(n)`, of which it sees the whole seconds, and
      does not end before it has slept for as long as it asked to. */
  ghost predicate TurnKeepsTime(m: Machine, env: nat -> nat, at: nat -> real, n: nat) {
    && at(n).Floor == Bursts(m, env, n + 1).clock
    && at(n + 1) - at(n) >= TotalSlept(Bursts(m, env, n + 1).log) - TotalSlept(Bursts(m, env, n).log)
  }

  ghost predicate KeepsTime(m: Machine, env: nat -> nat, at: nat -> real) {
    forall n: nat :: TurnKeepsTime(m, env, at, n)
  }

  /** A turn sleeps for a second at most. */
  lemma BurstSlept(m: Machine)
    ensures 0.0 <= TotalSlept(Burst(m).log) - TotalSlept(m.log) <= 1.0
  {
    if m.inBurst {
      var cnt := Increment(m.cnt);
      SleptAppend(m.log, Sent(m.ctl.msgCnt));
      SleptAppend(m.log, Slept(Pause(m.ctl.msgCnt, m.ctl.rate, m.clock - m.startTime)));
      SleptAppend(Rest(m).log, Sent(m.ctl.msgCnt));
    }
  }

  lemma NextClock(m: Machine, env: nat -> nat, n: nat)
    ensures Bursts(m, env, n + 1).clock == Bursts(m, env, n).clock + env(n)
  {
  }

  /** So a clock that moves on by at least a second every turn respects the sleeps of any machine. */
  lemma TickingKeepsTime(m: Machine, env: nat -> nat, at: nat -> real)
    requires forall i: nat :: env(i) >= 1
    requires forall i: nat :: at(i) == Bursts(m, env, i + 1).clock as real
    ensures KeepsTime(m, env, at)
  {
    forall n: nat
      ensures TurnKeepsTime(m, env, at, n)
    {
      BurstSlept(Tick(Bursts(m, env, n), env(n)));
      NextClock(m, env, n + 1);
      assert at(n + 1) == Bursts(m, env, n + 2).clock as real;
    }
  }

  // ----- a batch of one -----

  function ClockAfter(clock: int, env: nat -> nat, n: nat): int {
    if n == 0 then clock else ClockAfter(clock, env, n - 1) + env(n - 1)
  }

  /** The check in turn `n`, counted from one, sees that the duration has passed. */
  predicate Late(m: Machine, env: nat -> nat, n: nat) {
    ClockAfter(m.clock, env, n) - m.startTime > m.ctl.duration
  }

  predicate Overdue(m: Machine) { m.clock - m.startTime > m.ctl.duration }

  predicate BatchOne(m: Machine) {
    m.inBurst && m.ctl.batch == 1 && m.cnt < UINT32 - 1
  }

  lemma BatchOneTurn(m: Machine)
    requires BatchOne(m)
    ensures var m' := Burst(m);
            if Overdue(m) then
              !m'.inBurst && CountSent(m'.log) == CountSent(m.log) && CountSlept(m'.log) == CountSlept(m.log)
            else
              && BatchOne(m') && m'.clock == m.clock && m'.startTime == m.startTime
              && m'.ctl == m.ctl.(msgCnt := m.ctl.msgCnt + 1)
              && CountSent(m'.log) == CountSent(m.log) + 1 && CountSlept(m'.log) == CountSlept(m.log) + 1
  {
    assert Burst(m) == Check(m, m.cnt + 1);
    CheckCosts(m, m.cnt + 1);
  }

  /** With a batch of one each turn sleeps and sends one message, without a poll, until one is late. */
  lemma {:induction false} BatchOneStays(m: Machine, env: nat -> nat, n: nat)
    requires BatchOne(m) && forall i :: 1 <= i <= n ==> !Late(m, env, i)
    ensures var m' := Bursts(m, env, n);
            && BatchOne(m') && m'.clock == ClockAfter(m.clock, env, n) && m'.startTime == m.startTime
            && m'.ctl == m.ctl.(msgCnt := m.ctl.msgCnt + n)
            && CountSent(m'.log) == CountSent(m.log) + n && CountSlept(m'.log) == CountSlept(m.log) + n
  {
    if n > 0 {
      BatchOneStays(m, env, n - 1);
      assert !Late(m, env, n);
      BatchOneTurn(Tick(Bursts(m, env, n - 1), env(n - 1)));
    }
  }

  lemma BatchOneLeaves(m: Machine, env: nat -> nat, n: nat)
    requires BatchOne(m) && n > 0 && Late(m, env, n) && forall i :: 1 <= i < n ==> !Late(m, env, i)
    ensures ReturnsAfter(m, env, n)
    ensures CountSent(Bursts(m, env, n).log) == CountSent(m.log) + n - 1
    ensures CountSlept(Bursts(m, env, n).log) == CountSlept(m.log) + n - 1
  {
    forall i | 0 <= i < n
      ensures Bursts(m, env, i).inBurst
    {
      BatchOneStays(m, env, i);
    }
    BatchOneStays(m, env, n - 1);
    BatchOneTurn(Tick(Bursts(m, env, n - 1), env(n - 1)));
  }

  lemma FirstLate(m: Machine, env: nat -> nat, n: nat) returns (k: nat)
    requires n > 0 && Late(m, env, n)
    ensures 0 < k <= n && Late(m, env, k) && forall i :: 1 <= i < k ==> !Late(m, env, i)
  {
    k := 1;
    while !Late(m, env, k)
      invariant 0 < k <= n && forall i :: 1 <= i < k ==> !Late(m, env, i)
      decreases n - k
    {
      k := k + 1;
    }
  }

  lemma WrappingLeaves(m: Machine, env: nat -> nat)
    requires m.inBurst && m.ctl.batch == 1 && m.cnt == UINT32 - 1
    ensures ReturnsAfter(m, env, 1)
  {
    assert Bursts(m, env, 0) == m;
  }

  /** The clock comes to show that the duration of the test has passed. */
  ghost predicate TimeComes(m: Machine, env: nat -> nat) { exists n: nat :: n > 0 && Late(m, env, n) }

  /** With a batch of one and on any clock at all, the inner loop returns to the poll exactly if some turn is
      late, but for a counter that is about to wrap around. */
  lemma BatchOneReturnsExactly(m: Machine, env: nat -> nat)
    requires m.inBurst && m.ctl.batch == 1 && m.cnt < UINT32
    ensures Returns(m, env) <==> m.cnt == UINT32 - 1 || TimeComes(m, env)
  {
    if m.cnt == UINT32 - 1 {
      WrappingLeaves(m, env);
    } else if n: nat :| n > 0 && Late(m, env, n) {
      var k := FirstLate(m, env, n);
      BatchOneLeaves(m, env, k);
    } else {
      forall n: nat
        ensures !ReturnsAfter(m, env, n)
      {
        BatchOneStays(m, env, n);
      }
    }
  }

  /** Once so many messages are sent in a test the pauses are all of a second. */
  function Ahead(c: Control): nat { c.rate * (c.duration + 1) + 1 }

  lemma PauseWhenAhead(c: Control, elapsed: int)
    requires elapsed <= c.duration && c.msgCnt >= Ahead(c)
    ensures Pause(c.msgCnt, c.rate, elapsed) == 1.0
  {
    if c.rate > 0 {
      var n, r, d := c.msgCnt as real, c.rate as real, (c.duration + 1) as real;
      assert (c.rate * (c.duration + 1)) as real == r * d;
      QuotientAtLeast(n, r, d);
    }
  }

  lemma AheadTurnSleeps(m: Machine)
    requires BatchOne(m) && !Overdue(m) && m.ctl.msgCnt >= Ahead(m.ctl)
    ensures TotalSlept(Burst(m).log) == TotalSlept(m.log) + 1.0
  {
    PauseWhenAhead(m.ctl, m.clock - m.startTime);
    assert Burst(m) == Send(Rest(m), 0);
    SleptAppend(m.log, Slept(1.0));
    SleptAppend(Rest(m).log, Sent(m.ctl.msgCnt));
  }

  /** From turn `k` on, with enough messages sent, every turn that stays in the loop takes a second. */
  lemma {:induction false} SecondsPass(m: Machine, env: nat -> nat, at: nat -> real, k: nat, j: nat)
    requires BatchOne(m) && KeepsTime(m, env, at) && k >= Ahead(m.ctl)
    requires forall i :: 1 <= i <= k + j ==> !Late(m, env, i)
    ensures at(k + j) >= at(k) + j as real
  {
    if j > 0 {
      SecondsPass(m, env, at, k, j - 1);
      SecondPasses(m, env, at, k + j - 1);
    }
  }

  lemma SecondPasses(m: Machine, env: nat -> nat, at: nat -> real, n: nat)
    requires BatchOne(m) && KeepsTime(m, env, at) && n >= Ahead(m.ctl)
    requires forall i :: 1 <= i <= n + 1 ==> !Late(m, env, i)
    ensures at(n + 1) >= at(n) + 1.0
  {
    AheadTurnAt(m, env, n);
    assert TurnKeepsTime(m, env, at, n);
  }

  lemma AheadTurnAt(m: Machine, env: nat -> nat, n: nat)
    requires BatchOne(m) && n >= Ahead(m.ctl)
    requires forall i :: 1 <= i <= n + 1 ==> !Late(m, env, i)
    ensures TotalSlept(Bursts(m, env, n + 1).log) == TotalSlept(Bursts(m, env, n).log) + 1.0
  {
    StillAhead(m, env, n);
    AheadTurnSleeps(Tick(Bursts(m, env, n), env(n)));
  }

  lemma StillAhead(m: Machine, env: nat -> nat, n: nat)
    requires BatchOne(m) && n >= Ahead(m.ctl)
    requires forall i :: 1 <= i <= n + 1 ==> !Late(m, env, i)
    ensures var now := Tick(Bursts(m, env, n), env(n));
            BatchOne(now) && !Overdue(now) && now.ctl.msgCnt >= Ahead(now.ctl)
  {
    BatchOneStays(m, env, n);
    assert !Late(m, env, n + 1);
  }

  /** On a clock that respects the sleeps some turn is late, after about as many as the messages of the test. */
  lemma SomeTurnLate(m: Machine, env: nat -> nat, at: nat -> real) returns (n: nat)
    requires Inv(m) && BatchOne(m) && KeepsTime(m, env, at)
    ensures 0 < n <= Ahead(m.ctl) + m.ctl.duration + 2 && Late(m, env, n)
  {
    var k, d := Ahead(m.ctl), m.ctl.duration;
    if i :| 1 <= i <= k + d + 1 && Late(m, env, i) {
      n := i;
    } else {
      n := k + d + 2;
      SecondsPass(m, env, at, k, d + 1);
      LateAtLast(m, env, at, k, d + 1);
    }
  }

  lemma LateAtLast(m: Machine, env: nat -> nat, at: nat -> real, k: nat, j: nat)
    requires m.startTime <= m.clock && KeepsTime(m, env, at)
    requires j > m.ctl.duration && at(k + j) >= at(k) + j as real
    ensures Late(m, env, k + j + 1)
  {
    assert TurnKeepsTime(m, env, at, k) && TurnKeepsTime(m, env, at, k + j);
    ClockOf(m, env, k + 1);
    ClockOf(m, env, k + j + 1);
    ClockForward(m.clock, env, k + 1);
    assert at(k + j).Floor >= at(k).Floor + j;
  }

  lemma {:induction false} ClockOf(m: Machine, env: nat -> nat, n: nat)
    ensures Bursts(m, env, n).clock == ClockAfter(m.clock, env, n)
  {
    if n > 0 {
      ClockOf(m, env, n - 1);
      NextClock(m, env, n - 1);
    }
  }

  lemma {:induction false} ClockForward(clock: int, env: nat -> nat, n: nat)
    ensures ClockAfter(clock, env, n) >= clock
  {
    if n > 0 {
      ClockForward(clock, env, n - 1);
    }
  }

  /** On a clock that respects the sleeps the inner loop returns to the poll even with a batch of one: after about
      as many turns as messages are due until the test is over. */
  lemma BatchOneReturnsInTime(m: Machine, env: nat -> nat, at: nat -> real) returns (n: nat)
    requires Inv(m) && m.inBurst && m.ctl.batch == 1 && KeepsTime(m, env, at)
    ensures ReturnsAfter(m, env, n) && n <= Ahead(m.ctl) + m.ctl.duration + 2
  {
    if m.cnt == UINT32 - 1 {
      WrappingLeaves(m, env);
      n := 1;
    } else {
      var late := SomeTurnLate(m, env, at);
      n := FirstLate(m, env, late);
      BatchOneLeaves(m, env, n);
    }
  }

  /** So it returns with every batch. */
  lemma EveryBatchReturns(m: Machine, env: nat -> nat, at: nat -> real)
    requires Inv(m) && m.inBurst && KeepsTime(m, env, at)
    ensures Returns(m, env)
  {
    if m.ctl.batch != 1 {
      BurstReturnsToPoll(m, env);
    } else {
      var n := BatchOneReturnsInTime(m, env, at);
    }
  }

  // ----- responsiveness -----

  /** The loop returns after at most a batch of messages and one sleep. */
  ghost predicate ReturnsPromptly(m: Machine, env: nat -> nat) {
    exists n: nat :: ReturnsAfter(m, env, n)
      && CountSent(Bursts(m, env, n).log) <= CountSent(m.log) + m.ctl.batch
      && CountSlept(Bursts(m, env, n).log) <= CountSlept(m.log) + 1
  }

  /** On every clock that respects the sleeps a publisher in a test polls again within a batch and a sleep, exactly
      when the batch is two or more. */
  lemma ResponsiveExactly(batch: nat)
    requires batch < UINT32
    ensures (forall m: Machine, env: nat -> nat, at: nat -> real
               | Inv(m) && m.inBurst && m.ctl.batch == batch && KeepsTime(m, env, at) :: ReturnsPromptly(m, env)) <==>
            batch >= 2
  {
    if batch >= 2 {
      forall m: Machine, env: nat -> nat, at: nat -> real
        | Inv(m) && m.inBurst && m.ctl.batch == batch && KeepsTime(m, env, at)
        ensures ReturnsPromptly(m, env)
      {
        BurstReturnsToPoll(m, env);
      }
    } else if batch == 1 {
      var m, env, at := DeafMachine(2);
    } else {
      var m, env, at := DeafForLong();
    }
  }

  /** With a batch of zero and a fresh counter, on any clock, the inner loop returns to the poll after 2^32 - 2
      messages and no fewer. */
  lemma BatchZeroReturnsLate(m: Machine, env: nat -> nat, n: nat)
    requires m.inBurst && m.ctl.batch == 0 && m.cnt == 0 && ReturnsAfter(m, env, n)
    ensures CountSent(Bursts(m, env, n).log) == CountSent(m.log) + UINT32 - 2
  {
    BurstsCost(m, env, n - 1);
    BurstsCost(m, env, n);
    var before := Bursts(m, env, n - 1);
    assert before.inBurst && !Burst(Tick(before, env(n - 1))).inBurst;
    AdvanceCosts(Tick(before, env(n - 1)));
    assert Increment(before.cnt) == Top(0);
  }

  lemma DeafForLong() returns (m: Machine, env: nat -> nat, at: nat -> real)
    ensures Inv(m) && m.inBurst && m.ctl.batch == 0 && KeepsTime(m, env, at) && !ReturnsPromptly(m, env)
  {
    m := Started(Boot(0).ctl.(batch := 0));
    env := (i: nat) => 1 as nat;
    at := (i: nat) => Bursts(m, env, i + 1).clock as real;
    TickingKeepsTime(m, env, at);
    forall n: nat | ReturnsAfter(m, env, n)
      ensures CountSent(Bursts(m, env, n).log) > CountSent(m.log)
    {
      BatchZeroReturnsLate(m, env, n);
    }
  }

  /** A test with a batch of one can send any number of messages, and sleep as often, before the next poll: here
      one a second, for as long as the test lasts. */
  lemma DeafMachine(k: nat) returns (m: Machine, env: nat -> nat, at: nat -> real)
    requires k < UINT32
    ensures Inv(m) && m.inBurst && m.ctl.batch == 1 && KeepsTime(m, env, at)
    ensures ReturnsAfter(m, env, k + 1)
    ensures CountSent(Bursts(m, env, k + 1).log) == CountSent(m.log) + k
    ensures CountSlept(Bursts(m, env, k + 1).log) == CountSlept(m.log) + k
    ensures k > 1 ==> !ReturnsPromptly(m, env)
  {
    m := Started(Boot(0).ctl.(batch := 1, duration := k));
    env := (i: nat) => 1 as nat;
    at := (i: nat) => Bursts(m, env, i + 1).clock as real;
    TickingKeepsTime(m, env, at);
    LateAfter(m, env, k);
    BatchOneLeaves(m, env, k + 1);
    forall n: nat | ReturnsAfter(m, env, n)
      ensures n == k + 1
    {
      SameReturn(m, env, n, k + 1);
    }
  }

  lemma LateAfter(m: Machine, env: nat -> nat, k: nat)
    requires forall i: nat :: env(i) == 1
    requires m.clock == m.startTime && m.ctl.duration == k
    ensures forall i: nat :: Late(m, env, i) <==> i > k
  {
    forall i: nat
      ensures Late(m, env, i) <==> i > k
    {
      OneASecond(m.clock, env, i);
    }
  }

  lemma {:induction false} OneASecond(clock: int, env: nat -> nat, n: nat)
    requires forall i: nat :: env(i) == 1
    ensures ClockAfter(clock, env, n) == clock + n
  {
    if n > 0 {
      OneASecond(clock, env, n - 1);
    }
  }

  /** A test just begun with the given configuration. */
  lemma Started(c: Control) returns (m: Machine)
    requires c == Boot(0).ctl.(batch := c.batch, duration := c.duration) && c.batch < UINT32
    ensures Inv(m) && m.inBurst && !m.aborted && m.cnt == 0 && m.clock == 0 == m.startTime
    ensures m.ctl.batch == c.batch && m.ctl.duration == c.duration && m.ctl.Phase() == Running
  {
    var boot := Boot(0).(ctl := c);
    PollKeepsInv(boot, Some(TestStart));
    m := Poll(boot, Some(TestStart));
  }

  // ----- every test ends -----

  /** The machine after the first `n` inputs of a stream. */
  function After(m: Machine, feed: nat -> Input, n: nat): (m': Machine)
    requires Inv(m)
    ensures Inv(m')
  {
    Run(m, Prefix(feed, n))
  }

  function Prefix(feed: nat -> Input, n: nat): seq<Input> { seq(n, i requires 0 <= i => feed(i)) }

  lemma AfterNext(m: Machine, feed: nat -> Input, n: nat)
    requires Inv(m)
    ensures After(m, feed, n + 1) == Step(After(m, feed, n), feed(n))
  {
    assert Prefix(feed, n + 1)[..n] == Prefix(feed, n);
  }

  predicate Quiet(i: Input) { i.request.Some? ==> !i.request.value.UpdateConfig? }

  /** No input changes the configuration. */
  ghost predicate AllQuiet(feed: nat -> Input) { forall i: nat :: Quiet(feed(i)) }

  ghost predicate InTest(m: Machine) { Inv(m) && !m.aborted && m.ctl.Phase() == Running }

  /** The test comes to "stopping", from where the next turn completes its statistics. */
  ghost predicate ComesToStop(m: Machine, feed: nat -> Input)
    requires Inv(m)
  {
    exists n: nat :: After(m, feed, n).ctl.Phase() == Stopping
  }

  /** Turns left in the inner loop until a check or the break before one. */
  function ToGo(m: Machine): nat {
    if m.cnt < Top(m.ctl.batch) then Top(m.ctl.batch) - m.cnt
    else if m.cnt == UINT32 - 1 then Top(m.ctl.batch) + 1
    else 0
  }

  /** Steps left of an overdue test. */
  function StepsLeft(m: Machine): nat { 2 * ToGo(m) + if m.inBurst then 0 else 1 }

  predicate SameTest(m: Machine, m': Machine) {
    && m'.startTime == m.startTime && m'.ctl.batch == m.ctl.batch && m'.ctl.duration == m.ctl.duration
    && m'.ctl.rate == m.ctl.rate
  }

  /** A step of a test that does not change the configuration stays in the test or stops it. */
  lemma TestStep(m: Machine, i: Input)
    requires InTest(m) && Quiet(i)
    ensures var m' := Step(m, i);
            && Inv(m') && !m'.aborted && SameTest(m, m') && m'.clock == m.clock + i.dt
            && (m'.ctl.Phase() == Running || (m'.ctl.Phase() == Stopping && !m'.inBurst))
            && (m.ctl.batch == 0 ==> m'.ctl.Phase() == Running)
  {
  }

  lemma OverdueStep(m: Machine, i: Input)
    requires InTest(m) && Quiet(i) && Overdue(m) && m.ctl.batch != 0
    ensures var m' := Step(m, i);
            m'.ctl.Phase() == Stopping || (InTest(m') && Overdue(m') && StepsLeft(m') < StepsLeft(m))
  {
    TestStep(m, i);
  }

  /** An overdue test stops within two turns a message of a batch, whatever value the counter has. */
  lemma OverdueStops(m: Machine, feed: nat -> Input, i: nat) returns (n: nat)
    requires Inv(m) && AllQuiet(feed)
    requires var o := After(m, feed, i); InTest(o) && Overdue(o) && o.ctl.batch != 0
    ensures i < n <= i + StepsLeft(After(m, feed, i)) + 1
    ensures var s := After(m, feed, n); s.ctl.Phase() == Stopping && !s.aborted && !s.inBurst
    ensures SameTest(After(m, feed, i), After(m, feed, n))
    decreases StepsLeft(After(m, feed, i))
  {
    var o := After(m, feed, i);
    AfterNext(m, feed, i);
    TestStep(o, feed(i));
    OverdueStep(o, feed(i));
    n := i + 1;
    if After(m, feed, n).ctl.Phase() != Stopping {
      n := OverdueStops(m, feed, n);
    }
  }

  /** Once the duration has passed, a test with a batch other than zero stops within `2 * batch + 2` steps, and the
      step after that completes its statistics. */
  lemma OverdueCompletes(m: Machine, feed: nat -> Input) returns (n: nat)
    requires InTest(m) && Overdue(m) && m.ctl.batch != 0 && AllQuiet(feed)
    ensures n <= 2 * m.ctl.batch + 2 && After(m, feed, n).ctl.Phase() == Stopping
    ensures var done := After(m, feed, n + 1);
            done.ctl.Phase() == Stopped
            && CompleteStats(done.ctl.ints, done.ctl.floats, m.startTime, SentInRun(After(m, feed, n).log))
  {
    assert After(m, feed, 0) == m;
    n := OverdueStops(m, feed, 0);
    AfterNext(m, feed, n);
    StopCompletes(After(m, feed, n), feed(n));
  }

  lemma StopCompletes(m: Machine, i: Input)
    requires Inv(m) && !m.inBurst && !m.aborted && m.ctl.Phase() == Stopping && Quiet(i)
    ensures var done := Step(m, i);
            done.ctl.Phase() == Stopped && CompleteStats(done.ctl.ints, done.ctl.floats, m.startTime, SentInRun(m.log))
  {
    TickKeepsInv(m, i.dt);
    StoppingCompletes(Tick(m, i.dt), i.request);
  }

  /** With a batch of zero the duration is never looked at, and the test goes on for ever. */
  lemma {:induction false} BatchZeroNeverStops(m: Machine, feed: nat -> Input, n: nat)
    requires InTest(m) && m.ctl.batch == 0 && AllQuiet(feed)
    ensures InTest(After(m, feed, n)) && After(m, feed, n).ctl.batch == 0
  {
    if n > 0 {
      BatchZeroNeverStops(m, feed, n - 1);
      AfterNext(m, feed, n - 1);
      TestStep(After(m, feed, n - 1), feed(n - 1));
    }
  }

  /** Every overdue test comes to a stop while its configuration stays as it is, exactly when the batch is not zero. */
  lemma OverdueStopsExactly(batch: nat)
    requires batch < UINT32
    ensures (forall m: Machine, feed: nat -> Input
               | InTest(m) && Overdue(m) && m.ctl.batch == batch && AllQuiet(feed) :: ComesToStop(m, feed)) <==>
            batch != 0
  {
    if batch != 0 {
      forall m: Machine, feed: nat -> Input | InTest(m) && Overdue(m) && m.ctl.batch == batch && AllQuiet(feed)
        ensures ComesToStop(m, feed)
      {
        var n := OverdueCompletes(m, feed);
      }
    } else {
      var m, feed := EndlessTest();
    }
  }

  /** A test with a batch of zero, its duration long over, and a clock that ticks on. */
  lemma EndlessTest() returns (m: Machine, feed: nat -> Input)
    ensures InTest(m) && Overdue(m) && m.ctl.batch == 0 && AllQuiet(feed) && Progresses(feed) && !ComesToStop(m, feed)
  {
    var p := Started(Boot(0).ctl.(batch := 0));
    TickKeepsInv(p, 6);
    m := Tick(p, 6);
    feed := (i: nat) => Input(None, 1);
    forall n: nat
      ensures After(m, feed, n).ctl.Phase() == Running
    {
      BatchZeroNeverStops(m, feed, n);
    }
    forall t: nat
      ensures TimePasses(feed, t)
    {
      SecondsFed(feed, t);
    }
  }

  function Elapsed(feed: nat -> Input, n: nat): nat {
    if n == 0 then 0 else Elapsed(feed, n - 1) + feed(n - 1).dt
  }

  lemma {:induction false} SecondsFed(feed: nat -> Input, n: nat)
    requires forall i: nat :: feed(i).dt == 1
    ensures Elapsed(feed, n) == n
  {
    if n > 0 {
      SecondsFed(feed, n - 1);
    }
  }

  ghost predicate TimePasses(feed: nat -> Input, t: nat) { exists n: nat :: Elapsed(feed, n) >= t }

  /** Time goes on without bound. */
  ghost predicate Progresses(feed: nat -> Input) { forall t: nat :: TimePasses(feed, t) }

  /** `m'` is `m` after `elapsed` seconds of the same test, still running or just stopping. */
  predicate StillIn(m: Machine, m': Machine, elapsed: nat) {
    && !m'.aborted && SameTest(m, m') && m'.clock == m.clock + elapsed
    && (m'.ctl.Phase() == Running || m'.ctl.Phase() == Stopping)
  }

  lemma StillInStep(m: Machine, m': Machine, elapsed: nat, i: Input)
    requires Inv(m') && StillIn(m, m', elapsed) && m'.ctl.Phase() != Stopping && Quiet(i)
    ensures StillIn(m, Step(m', i), elapsed + i.dt)
  {
    TestStep(m', i);
  }

  /** Up to its stop a test keeps its configuration and its clock follows the inputs. */
  lemma {:induction false} TestSoFar(m: Machine, feed: nat -> Input, n: nat)
    requires InTest(m) && AllQuiet(feed)
    requires forall i: nat :: i < n ==> After(m, feed, i).ctl.Phase() != Stopping
    ensures StillIn(m, After(m, feed, n), Elapsed(feed, n))
  {
    if n > 0 {
      TestSoFar(m, feed, n - 1);
      AfterNext(m, feed, n - 1);
      StillInStep(m, After(m, feed, n - 1), Elapsed(feed, n - 1), feed(n - 1));
    }
  }

  /** Every test comes to a stop while time goes on and its configuration stays as it is, exactly when the batch is
      not zero. */
  lemma TestEndsExactly(batch: nat)
    requires batch < UINT32
    ensures (forall m: Machine, feed: nat -> Input
               | InTest(m) && m.ctl.batch == batch && AllQuiet(feed) && Progresses(feed) :: ComesToStop(m, feed)) <==>
            batch != 0
  {
    if batch != 0 {
      forall m: Machine, feed: nat -> Input
        | InTest(m) && m.ctl.batch == batch && AllQuiet(feed) && Progresses(feed)
        ensures ComesToStop(m, feed)
      {
        TestComesToStop(m, feed);
      }
    } else {
      var m, feed := EndlessTest();
    }
  }

  lemma TestComesToStop(m: Machine, feed: nat -> Input)
    requires InTest(m) && m.ctl.batch != 0 && AllQuiet(feed) && Progresses(feed)
    ensures ComesToStop(m, feed)
  {
    assert TimePasses(feed, m.ctl.duration + 1);
    var n: nat :| Elapsed(feed, n) >= m.ctl.duration + 1;
    if forall i: nat :: i <= n ==> After(m, feed, i).ctl.Phase() != Stopping {
      TestSoFar(m, feed, n);
      var s := OverdueStops(m, feed, n);
    }
  }
}
