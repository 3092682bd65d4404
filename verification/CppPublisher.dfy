/** The C++ publisher as a state machine: one step is a turn of the main loop up to its inner loop, or one
    turn of the inner loop. Requests and clock are arbitrary. */
module CppPublisher {
  import opened Wrappers
  import opened Powers

  const UINT32 := 0x1_0000_0000

  function ToUint32(x: int): (r: nat)
    ensures r < UINT32 && (0 <= x < UINT32 ==> r == x)
  {
    x % UINT32
  }

  /** `++` on a 32-bit counter. */
  function Increment(cnt: nat): (r: nat)
    ensures r < UINT32 && (cnt < UINT32 ==> r == if cnt == UINT32 - 1 then 0 else cnt + 1)
  {
    ToUint32(cnt + 1)
  }

  // ----- commands and replies -----

  datatype Arg = Arg(name: string, intValue: Option<int>, floatValue: Option<real>)

  datatype Command =
    | Garbled
    | NotACommand
    | Ping
    | TestStart
    | TestStatus
    | UpdateConfig(args: seq<Arg>)
    | GetStats
    | Unknown(name: string)

  datatype Phase = Running | Stopping | Starting | Stopped

  datatype Reply =
    | Pong
    | Accepted
    | Refused
    | Status(phase: Phase)
    | Updated
    | Stats(ints: map<string, int>, floats: map<string, real>)
    | Failed

  /** The fields of `TestControl`. */
  datatype Control = Control(
    publishing: bool, starting: bool,
    ints: map<string, int>, floats: map<string, real>,
    duration: nat, batch: nat, rate: nat, msgCnt: nat)
  {
    function Phase(): Phase {
      if publishing && starting then Running
      else if publishing then Stopping
      else if starting then Starting
      else Stopped
    }

    /** What `std::time` at a stop turns into statistics; the division is by zero only if no second passed. */
    function Finish(now: int): Control
      requires "time:start" in ints
    {
      this.(publishing := false,
            ints := ints["time:end" := now]["msg_cnt" := msgCnt],
            floats := floats["rate" := Rate(msgCnt, now - ints["time:start"])])
    }
  }

  function Rate(msgCnt: nat, elapsed: int): real {
    if elapsed == 0 then 0.0 else msgCnt as real / elapsed as real
  }

  /** One configuration argument; `None` when its value has the wrong kind and an assertion aborts the process. */
  function UpdateOne(c: Control, a: Arg): Option<Control> {
    if a.name == "test_duration" then
      if a.intValue.Some? then Some(c.(duration := ToUint32(a.intValue.value))) else None
    else if a.name == "msg_batch" then
      if a.intValue.Some? then Some(c.(batch := ToUint32(a.intValue.value))) else None
    else if a.name == "msg_requested_rate" then
      if a.intValue.Some? then Some(c.(rate := ToUint32(a.intValue.value)))
      else if a.floatValue.Some? then Some(c.(rate := ToUint32(Truncate(a.floatValue.value))))
      else None
    else Some(c)
  }

  function UpdateAll(c: Control, args: seq<Arg>): Option<Control> {
    if args == [] then Some(c)
    else
      var before := UpdateAll(c, args[..|args| - 1]);
      if before.None? then None else UpdateOne(before.value, args[|args| - 1])
  }

  /** `process_message`; no reply means the process aborts. */
  function Process(c: Control, cmd: Command): (Control, Option<Reply>) {
    match cmd
    case Ping => (c, Some(Pong))
    case TestStart =>
      if c.publishing || c.starting then (c, Some(Refused)) else (c.(starting := true), Some(Accepted))
    case TestStatus => (c, Some(Status(c.Phase())))
    case UpdateConfig(args) =>
      var updated := UpdateAll(c, args);
      if updated.Some? then (updated.value, Some(Updated)) else (c, None)
    case GetStats => (c, Some(Stats(c.ints, c.floats)))
    case _ => (c, Some(Failed))
  }

  lemma {:induction false} UpdateAllKeepsRun(c: Control, args: seq<Arg>)
    ensures var u := UpdateAll(c, args);
            u.Some? ==> u.value == c.(duration := u.value.duration, batch := u.value.batch, rate := u.value.rate)
  {
    if args != [] {
      UpdateAllKeepsRun(c, args[..|args| - 1]);
    }
  }

  /** No request touches the run in progress; only an accepted start changes a flag. */
  lemma UpdateKeepsRun(c: Control, cmd: Command)
    ensures var (c', r) := Process(c, cmd);
            && c'.publishing == c.publishing && c'.ints == c.ints && c'.floats == c.floats && c'.msgCnt == c.msgCnt
            && (c'.starting <==> c.starting || r == Some(Accepted))
            && (r == Some(Accepted) <==> cmd.TestStart? && !c.publishing && !c.starting)
  {
    if cmd.UpdateConfig? {
      UpdateAllKeepsRun(c, cmd.args);
    }
  }

  /** The last argument of the given name. */
  function LastNamed(args: seq<Arg>, name: string): Option<Arg> {
    if args == [] then None
    else if args[|args| - 1].name == name then Some(args[|args| - 1])
    else LastNamed(args[..|args| - 1], name)
  }

  /** The argument has a value of a kind its setting can take. */
  predicate Typed(a: Arg) {
    && (a.name == "test_duration" || a.name == "msg_batch" ==> a.intValue.Some?)
    && (a.name == "msg_requested_rate" ==> a.intValue.Some? || a.floatValue.Some?)
  }

  /** A setting is the integer of the last argument of its name, in 32 bits, and stays as it was without one. */
  predicate Set(args: seq<Arg>, name: string, before: nat, after: nat) {
    var last := LastNamed(args, name);
    if last.None? then after == before
    else last.value.intValue.Some? ==> (after - last.value.intValue.value) % UINT32 == 0 && after < UINT32
  }

  /** A rate that is not an integer loses its fraction. */
  predicate FractionLost(args: seq<Arg>, rate: nat) {
    var last := LastNamed(args, "msg_requested_rate");
    last.Some? && last.value.intValue.None? && last.value.floatValue.Some?
    && 0.0 <= last.value.floatValue.value < UINT32 as real ==>
      rate as real <= last.value.floatValue.value < rate as real + 1.0
  }

  /** Each of the three settings of `u` is that of the last argument of its name. */
  predicate Settings(c: Control, args: seq<Arg>, u: Control) {
    && Set(args, "test_duration", c.duration, u.duration)
    && Set(args, "msg_batch", c.batch, u.batch)
    && Set(args, "msg_requested_rate", c.rate, u.rate) && FractionLost(args, u.rate)
  }

  /** An update of the configuration is accepted exactly if every argument has a value its setting can take, and then
      each setting is that of the last argument of its name. */
  lemma {:induction false} UpdateSettings(c: Control, args: seq<Arg>)
    ensures UpdateAll(c, args).Some? <==> forall a :: a in args ==> Typed(a)
    ensures UpdateAll(c, args).Some? ==> Settings(c, args, UpdateAll(c, args).value)
  {
    if args != [] {
      var init, last := args[..|args| - 1], args[|args| - 1];
      UpdateSettings(c, init);
      assert args == init + [last];
      if UpdateAll(c, init).Some? {
        var mid := UpdateAll(c, init).value;
        UpdateSetting(mid, last);
        if Typed(last) {
          SettingsSnoc(c, init, mid, last, UpdateOne(mid, last).value);
        }
      }
    }
  }

  lemma SettingsSnoc(c: Control, args: seq<Arg>, mid: Control, last: Arg, u: Control)
    requires Settings(c, args, mid) && Settings(mid, [last], u)
    ensures Settings(c, args + [last], u)
  {
    NamedSnoc(args, last, "test_duration");
    NamedSnoc(args, last, "msg_batch");
    NamedSnoc(args, last, "msg_requested_rate");
  }

  lemma NamedSnoc(args: seq<Arg>, last: Arg, name: string)
    ensures LastNamed(args + [last], name) == if last.name == name then Some(last) else LastNamed(args, name)
    ensures LastNamed([last], name) == if last.name == name then Some(last) else None
  {
    assert (args + [last])[..|args|] == args;
  }

  lemma UpdateSetting(c: Control, a: Arg)
    ensures UpdateOne(c, a).Some? <==> Typed(a)
    ensures UpdateOne(c, a).Some? ==> Settings(c, [a], UpdateOne(c, a).value)
  {
    NamedSnoc([], a, "test_duration");
    NamedSnoc([], a, "msg_batch");
    NamedSnoc([], a, "msg_requested_rate");
    if a.intValue.Some? {
      Wrapped(a.intValue.value);
    }
    if a.floatValue.Some? {
      TruncateTowardsZero(a.floatValue.value);
    }
  }

  lemma Wrapped(x: int)
    ensures (ToUint32(x) - x) % UINT32 == 0
  {
  }

  /** Which request gets which kind of answer. */
  lemma RepliesExactly(c: Control, cmd: Command)
    ensures var reply := Process(c, cmd).1;
            && (reply.None? <==> cmd.UpdateConfig? && exists a :: a in cmd.args && !Typed(a))
            && (reply == Some(Failed) <==> cmd.Garbled? || cmd.NotACommand? || cmd.Unknown?)
            && (reply == Some(Pong) <==> cmd.Ping?)
            && (reply == Some(Refused) <==> cmd.TestStart? && (c.publishing || c.starting))
            && (reply == Some(Stats(c.ints, c.floats)) <==> cmd.GetStats?)
  {
    if cmd.UpdateConfig? {
      UpdateSettings(c, cmd.args);
    }
  }

  // ----- events, and what the log of every run looks like -----

  datatype Event =
    | Answered(reply: Reply)
    | Began(time: int)
    | Sent(number: nat)
    | Slept(delay: real)
    | Finished(time: int, msgCnt: nat)

  /** A run has begun and not finished. */
  function InRun(log: seq<Event>): bool {
    if log == [] then false
    else match log[|log| - 1]
      case Began(_) => true
      case Finished(_, _) => false
      case _ => InRun(log[..|log| - 1])
  }

  /** Messages sent since the last run began. */
  function SentInRun(log: seq<Event>): nat {
    if log == [] then 0
    else match log[|log| - 1]
      case Began(_) => 0
      case Sent(_) => SentInRun(log[..|log| - 1]) + 1
      case _ => SentInRun(log[..|log| - 1])
  }

  /** When the last run began, if any did. */
  function LastBegan(log: seq<Event>): Option<int> {
    if log == [] then None
    else match log[|log| - 1]
      case Began(t) => Some(t)
      case _ => LastBegan(log[..|log| - 1])
  }

  predicate JustAccepted(log: seq<Event>) {
    log != [] && log[|log| - 1] == Answered(Accepted)
  }

  /** Event `e` may follow `log`. Runs begin only right after an accepted start and only outside a run;
      messages are numbered from zero and sent only in a run; a run finishes with the number of messages
      sent in it, at least a second after it began; "starting" is never answered; sleeps are capped. */
  predicate MayFollow(log: seq<Event>, e: Event) {
    && (JustAccepted(log) ==> e.Began?)
    && match e
       case Answered(r) => r != Status(Starting) && (r == Accepted ==> !InRun(log))
       case Began(_) => !InRun(log) && JustAccepted(log)
       case Sent(k) => InRun(log) && k == SentInRun(log)
       case Slept(d) => InRun(log) && 0.0 <= d <= 1.0
       case Finished(t, n) => InRun(log) && n == SentInRun(log) && LastBegan(log).Some? && t > LastBegan(log).value
  }

  predicate LogOk(log: seq<Event>) {
    log == [] || (LogOk(log[..|log| - 1]) && MayFollow(log[..|log| - 1], log[|log| - 1]))
  }

  lemma Append(log: seq<Event>, e: Event)
    ensures LogOk(log + [e]) <==> LogOk(log) && MayFollow(log, e)
    ensures InRun(log + [e]) == (e.Began? || (!e.Finished? && InRun(log)))
    ensures SentInRun(log + [e]) == if e.Began? then 0 else if e.Sent? then SentInRun(log) + 1 else SentInRun(log)
    ensures LastBegan(log + [e]) == if e.Began? then Some(e.time) else LastBegan(log)
    ensures JustAccepted(log + [e]) <==> e == Answered(Accepted)
  {
    assert (log + [e])[..|log|] == log;
  }

  // ----- the main loop -----

  /** The locals of `main`, the clock, whether control is in the inner loop, and what has happened so far. */
  datatype Machine = Machine(
    ctl: Control, cnt: nat, startTime: int, clock: int, inBurst: bool, aborted: bool, log: seq<Event>)

  function Boot(clock: int): Machine {
    Machine(Control(false, false, map[], map[], 5, 100, 1000, 0), 0, 0, clock, false, false, [])
  }

  /** The part of a turn between the poll and the inner loop. */
  function Dispatch(m: Machine): Machine
    requires m.ctl.publishing ==> "time:start" in m.ctl.ints
  {
    var c := m.ctl;
    if !c.publishing && c.starting then
      m.(ctl := c.(publishing := true, ints := map["time:start" := m.clock], floats := map[], msgCnt := 0),
         startTime := m.clock, cnt := 0, inBurst := true, log := m.log + [Began(m.clock)])
    else if c.publishing && !c.starting then
      m.(ctl := c.Finish(m.clock), inBurst := false, log := m.log + [Finished(m.clock, c.msgCnt)])
    else m.(inBurst := c.publishing)
  }

  /** Receiving and answering a request, if there is one. */
  function Answer(m: Machine, request: Option<Command>): (m': Machine)
    ensures m'.ctl.publishing == m.ctl.publishing && m'.ctl.ints == m.ctl.ints
    ensures m.ctl.publishing ==> m'.ctl.starting == m.ctl.starting && SentInRun(m'.log) == SentInRun(m.log)
  {
    if request.None? then m
    else
      UpdateKeepsRun(m.ctl, request.value);
      var (c, reply) := Process(m.ctl, request.value);
      if reply.None? then m.(aborted := true)
      else
        Append(m.log, Answered(reply.value));
        m.(ctl := c, log := m.log + [Answered(reply.value)])
  }

  function Tick(m: Machine, dt: nat): Machine { m.(clock := m.clock + dt) }

  /** A turn of the main loop up to its inner loop: control is at the poll, with or without a request. */
  function Poll(m: Machine, request: Option<Command>): Machine
    requires m.ctl.publishing ==> "time:start" in m.ctl.ints
  {
    var answered := Answer(m, request);
    if answered.aborted then answered else Dispatch(answered)
  }

  /** The sleep a check asks for. Dividing by a zero rate gives infinity, or not-a-number for no message. */
  function Pause(msgCnt: nat, rate: nat, elapsed: int): (d: real)
    ensures 0.0 <= d <= 1.0
  {
    if rate == 0 then if msgCnt == 0 then 0.0 else 1.0
    else
      var delay := msgCnt as real / rate as real - elapsed as real;
      if delay > 1.0 then 1.0 else if delay < 0.0 then 0.0 else delay
  }

  function Send(m: Machine, cnt: nat): Machine {
    m.(cnt := cnt, ctl := m.ctl.(msgCnt := m.ctl.msgCnt + 1), log := m.log + [Sent(m.ctl.msgCnt)])
  }

  /** The count at which the inner loop breaks to poll: one below the batch, in 32-bit arithmetic. */
  function Top(batch: nat): (t: nat)
    ensures t < UINT32 && (batch < UINT32 ==> t == if batch == 0 then UINT32 - 1 else batch - 1)
  {
    ToUint32(batch - 1)
  }

  function Leave(m: Machine, cnt: nat, starting: bool): Machine {
    m.(cnt := cnt, ctl := m.ctl.(starting := starting), inBurst := false)
  }

  function Rest(m: Machine): Machine {
    m.(log := m.log + [Slept(Pause(m.ctl.msgCnt, m.ctl.rate, m.clock - m.startTime))])
  }

  /** A full batch: the end of the test is noticed here, otherwise the pause comes before the next message. */
  function Check(m: Machine, cnt: nat): Machine {
    if m.clock - m.startTime > m.ctl.duration then Leave(m, cnt, false) else Send(Rest(m), 0)
  }

  /** One turn of the inner loop. */
  function Burst(m: Machine): Machine {
    if m.inBurst then Advance(m, Increment(m.cnt)) else m
  }

  function Advance(m: Machine, cnt: nat): Machine {
    if cnt == Top(m.ctl.batch) then Leave(m, cnt, m.ctl.starting)
    else if cnt >= Top(m.ctl.batch) && cnt >= m.ctl.batch then Check(m, cnt)
    else Send(m, cnt)
  }

  /** `n` turns of the inner loop. */
  function Bursts(m: Machine, env: nat -> nat, n: nat): Machine {
    if n == 0 then m else Burst(Tick(Bursts(m, env, n - 1), env(n - 1)))
  }

  // ----- what every state satisfies -----

  /** The statistics of a finished run that began at `began` and sent `sent` messages. */
  ghost predicate CompleteStats(ints: map<string, int>, floats: map<string, real>, began: int, sent: nat) {
    exists end: int :: end > began
      && ints == map["time:start" := began, "time:end" := end, "msg_cnt" := sent]
      && floats.Keys == {"rate"} && Makes(floats["rate"], end - began, sent)
  }

  /** At this rate the given time makes the given number of messages. */
  predicate Makes(rate: real, elapsed: int, messages: nat) {
    rate * elapsed as real == messages as real
  }

  /** What holds throughout: the flags, the counter and the statistics agree with what has happened. */
  ghost predicate Consistent(m: Machine) {
    && LogOk(m.log)
    && m.ctl.publishing == InRun(m.log)
    && m.cnt < UINT32 && m.ctl.batch < UINT32
    && StatsAgree(m)
  }

  ghost predicate StatsAgree(m: Machine) {
    if m.ctl.publishing then
      && LastBegan(m.log) == Some(m.startTime) && m.startTime <= m.clock
      && m.ctl.ints == map["time:start" := m.startTime] && m.ctl.floats == map[]
      && m.ctl.msgCnt == SentInRun(m.log)
      && (!m.ctl.starting ==> m.startTime < m.clock)
    else if LastBegan(m.log).None? then m.ctl.ints == map[] && m.ctl.floats == map[]
    else CompleteStats(m.ctl.ints, m.ctl.floats, LastBegan(m.log).value, SentInRun(m.log))
  }

  /** What every state satisfies between turns and within the inner loop: no start is pending. */
  ghost predicate Inv(m: Machine) {
    && Consistent(m)
    && (m.ctl.starting ==> m.ctl.publishing)
    && !JustAccepted(m.log)
    && (m.inBurst ==> m.ctl.publishing && m.ctl.starting)
  }

  lemma RateMakes(msgCnt: nat, elapsed: int)
    requires elapsed > 0
    ensures Makes(Rate(msgCnt, elapsed), elapsed, msgCnt)
  {
    QuotientTimes(msgCnt as real, elapsed as real);
  }

  lemma BootInv(clock: int)
    ensures Inv(Boot(clock))
  {
  }

  /** Between the answer and the inner loop a start may be pending, exactly if it was just accepted. */
  lemma DispatchKeepsInv(m: Machine)
    requires Consistent(m) && !m.inBurst
    requires m.ctl.starting && !m.ctl.publishing <==> JustAccepted(m.log)
    ensures Inv(Dispatch(m))
  {
    var c := m.ctl;
    if !c.publishing && c.starting {
      Append(m.log, Began(m.clock));
    } else if c.publishing && !c.starting {
      Append(m.log, Finished(m.clock, c.msgCnt));
      var f := c.Finish(m.clock);
      assert f.ints == map["time:start" := m.startTime, "time:end" := m.clock, "msg_cnt" := c.msgCnt];
      RateMakes(c.msgCnt, m.clock - m.startTime);
      assert CompleteStats(f.ints, f.floats, m.startTime, c.msgCnt);
    }
  }

  lemma {:induction false} UpdateAllKeepsBatch(c: Control, args: seq<Arg>)
    requires c.batch < UINT32
    ensures UpdateAll(c, args).Some? ==> UpdateAll(c, args).value.batch < UINT32
  {
    if args != [] {
      UpdateAllKeepsBatch(c, args[..|args| - 1]);
    }
  }

  lemma AnswerConsistent(m: Machine, request: Option<Command>)
    requires Inv(m) && !m.inBurst && !m.aborted
    ensures var m' := Answer(m, request);
            if m'.aborted then Inv(m')
            else Consistent(m') && !m'.inBurst && (m'.ctl.starting && !m'.ctl.publishing <==> JustAccepted(m'.log))
  {
    if request.Some? {
      var (c, reply) := Process(m.ctl, request.value);
      UpdateKeepsRun(m.ctl, request.value);
      if reply.Some? {
        Append(m.log, Answered(reply.value));
      }
      if request.value.UpdateConfig? {
        UpdateAllKeepsBatch(m.ctl, request.value.args);
      }
    }
  }

  /** A turn of the main loop keeps the invariant, whatever is asked. */
  lemma PollKeepsInv(m: Machine, request: Option<Command>)
    requires Inv(m) && !m.inBurst && !m.aborted
    ensures Inv(Poll(m, request))
  {
    AnswerConsistent(m, request);
    if !Answer(m, request).aborted {
      DispatchKeepsInv(Answer(m, request));
    }
  }

  lemma TickKeepsInv(m: Machine, dt: nat)
    requires Inv(m)
    ensures Inv(Tick(m, dt))
  {
  }

  lemma SendKeepsInv(m: Machine, cnt: nat)
    requires Inv(m) && m.inBurst && cnt < UINT32
    ensures Inv(Send(m, cnt)) && Send(m, cnt).inBurst
  {
    Append(m.log, Sent(m.ctl.msgCnt));
  }

  lemma RestKeepsInv(m: Machine)
    requires Inv(m) && m.inBurst
    ensures Inv(Rest(m)) && Rest(m).inBurst
  {
    Append(m.log, Slept(Pause(m.ctl.msgCnt, m.ctl.rate, m.clock - m.startTime)));
  }

  lemma LeaveKeepsInv(m: Machine, cnt: nat, starting: bool)
    requires Inv(m) && m.inBurst && cnt < UINT32 && (starting || m.clock > m.startTime)
    ensures Inv(Leave(m, cnt, starting))
  {
  }

  lemma CheckKeepsInv(m: Machine, cnt: nat)
    requires Inv(m) && m.inBurst && cnt < UINT32
    ensures Inv(Check(m, cnt))
  {
    if m.clock - m.startTime > m.ctl.duration {
      LeaveKeepsInv(m, cnt, false);
    } else {
      RestKeepsInv(m);
      SendKeepsInv(Rest(m), 0);
    }
  }

  lemma AdvanceKeepsInv(m: Machine, cnt: nat)
    requires Inv(m) && m.inBurst && cnt < UINT32
    ensures Inv(Advance(m, cnt))
  {
    if cnt == Top(m.ctl.batch) {
      LeaveKeepsInv(m, cnt, m.ctl.starting);
    } else if cnt >= Top(m.ctl.batch) && cnt >= m.ctl.batch {
      CheckKeepsInv(m, cnt);
    } else {
      SendKeepsInv(m, cnt);
    }
  }

  lemma BurstKeepsInv(m: Machine)
    requires Inv(m)
    ensures Inv(Burst(m))
  {
    if m.inBurst {
      AdvanceKeepsInv(m, Increment(m.cnt));
    }
  }

  // ----- every run -----

  /** What the outside does at one step: time passes, and at a poll there may be a request. */
  datatype Input = Input(request: Option<Command>, dt: nat)

  function Step(m: Machine, i: Input): (m': Machine)
    requires Inv(m)
    ensures Inv(m')
  {
    TickKeepsInv(m, i.dt);
    var now := Tick(m, i.dt);
    if m.aborted then m
    else if m.inBurst then BurstKeepsInv(now); Burst(now)
    else PollKeepsInv(now, i.request); Poll(now, i.request)
  }

  /** Any run of the publisher, from any state that satisfies the invariant. */
  function Run(m: Machine, inputs: seq<Input>): (m': Machine)
    requires Inv(m)
    ensures Inv(m')
  {
    if inputs == [] then m else Step(Run(m, inputs[..|inputs| - 1]), inputs[|inputs| - 1])
  }

  lemma {:induction false} LogOkAt(log: seq<Event>, i: nat)
    requires LogOk(log) && i < |log|
    ensures MayFollow(log[..i], log[i])
  {
    var init := log[..|log| - 1];
    if i < |log| - 1 {
      LogOkAt(init, i);
      assert init[..i] == log[..i];
    }
  }

  function BootOk(clock: int): (m: Machine)
    ensures Inv(m)
  {
    BootInv(clock);
    Boot(clock)
  }

  /** Over every run and every sequence of requests: a message is sent only in a run, numbered by the messages
      before it; the count reported at a stop is the number of messages sent since that run began; the run took
      at least a second; and "starting" is never answered. */
  lemma EveryRun(start: int, inputs: seq<Input>, i: nat)
    requires i < |Run(BootOk(start), inputs).log|
    ensures var log := Run(BootOk(start), inputs).log;
            && (log[i].Sent? ==> InRun(log[..i]) && log[i].number == SentInRun(log[..i]))
            && (log[i].Finished? ==> InRun(log[..i]) && log[i].msgCnt == SentInRun(log[..i])
                                     && LastBegan(log[..i]).Some? && log[i].time > LastBegan(log[..i]).value)
            && (log[i].Slept? ==> InRun(log[..i]) && log[i].delay <= 1.0)
            && log[i] != Answered(Status(Starting))
  {
    LogOkAt(Run(BootOk(start), inputs).log, i);
  }

  /** An accepted start is never lost, and nothing else begins a run: the two events alternate in the log. */
  lemma AcceptedBegins(m: Machine, i: nat)
    requires Inv(m) && i < |m.log|
    ensures m.log[i] == Answered(Accepted) <==> i + 1 < |m.log| && m.log[i + 1].Began?
  {
    if i + 1 < |m.log| {
      LogOkAt(m.log, i + 1);
      assert m.log[..i + 1][i] == m.log[i];
    }
  }

  // ----- the handshake with the controller -----

  /** The status answered tells whether a run is in progress. */
  lemma StatusTellsRun(m: Machine)
    requires Inv(m)
    ensures Process(m.ctl, TestStatus).1 == Some(Status(Stopped)) <==> !InRun(m.log)
    ensures InRun(m.log) ==> Process(m.ctl, TestStatus).1 == Some(Status(if m.ctl.starting then Running else Stopping))
  {
  }

  /** A start is accepted exactly when no test is in progress, and then the run begins in the same turn. */
  lemma StartBeginsAtOnce(m: Machine)
    requires Inv(m) && !m.inBurst && !m.aborted
    ensures var m' := Poll(m, Some(TestStart));
            if m.ctl.publishing then
              m.log + [Answered(Refused)] <= m'.log && forall i :: |m.log| <= i < |m'.log| ==> !m'.log[i].Began?
            else
              && m'.log == m.log + [Answered(Accepted), Began(m.clock)]
              && m'.inBurst && m'.ctl.publishing && m'.ctl.starting && m'.ctl.msgCnt == 0 && m'.startTime == m.clock
  {
  }

  /** Once a test is stopping, the next turn completes its statistics, whatever is asked meanwhile. */
  lemma StoppingCompletes(m: Machine, request: Option<Command>)
    requires Inv(m) && !m.inBurst && !m.aborted && m.ctl.Phase() == Stopping
    requires !Answer(m, request).aborted
    ensures var m' := Poll(m, request);
            && m'.ctl.Phase() == Stopped && !m'.inBurst && !m'.aborted
            && CompleteStats(m'.ctl.ints, m'.ctl.floats, m.startTime, SentInRun(m.log))
            && m.startTime == LastBegan(m.log).value
  {
    var answered := Answer(m, request);
    AnswerConsistent(m, request);
    DispatchKeepsInv(answered);
    assert answered.ctl.Phase() == Stopping;
    assert LastBegan(answered.log) == Some(m.startTime);
    Append(answered.log, Finished(m.clock, answered.ctl.msgCnt));
  }

  /** Between two tests the publisher keeps the statistics of the last one, however long it idles and whatever it
      is asked, short of a new start. */
  lemma {:induction false} StatsKept(m: Machine, inputs: seq<Input>)
    requires Inv(m) && !m.inBurst && m.ctl.Phase() == Stopped
    requires forall i :: i in inputs ==> i.request != Some(TestStart)
    ensures var m' := Run(m, inputs);
            && !m'.inBurst && m'.ctl.Phase() == Stopped
            && m'.ctl.ints == m.ctl.ints && m'.ctl.floats == m.ctl.floats
            && LastBegan(m'.log) == LastBegan(m.log) && SentInRun(m'.log) == SentInRun(m.log)
  {
    if inputs != [] {
      var init, last := inputs[..|inputs| - 1], inputs[|inputs| - 1];
      StatsKept(m, init);
      var before := Tick(Run(m, init), last.dt);
      if !before.aborted && last.request.Some? {
        UpdateKeepsRun(before.ctl, last.request.value);
        var reply := Process(before.ctl, last.request.value).1;
        if reply.Some? {
          Append(before.log, Answered(reply.value));
        }
      }
    }
  }

  /** What the wait loop of the controller relies on: once a test has been started and a status request is
      answered "stopping" or "stopped", a later request for statistics gets those of the whole run, whatever the
      publisher does and is asked in between, short of a new start. */
  lemma StatusThenStats(m: Machine, asked: Input, between: seq<Input>, dt: nat)
    requires Inv(m) && !m.inBurst && !m.aborted && LastBegan(m.log).Some?
    requires m.ctl.Phase() == Stopping || m.ctl.Phase() == Stopped
    requires asked.request == Some(TestStatus) && forall i :: i in between ==> i.request != Some(TestStart)
    requires !Run(Step(m, asked), between).aborted
    ensures var m1 := Step(m, asked);
            var m2 := Run(m1, between);
            var m3 := Step(m2, Input(Some(GetStats), dt));
            && m.log + [Answered(Status(m.ctl.Phase()))] <= m1.log
            && m3.log == m2.log + [Answered(Stats(m3.ctl.ints, m3.ctl.floats))]
            && CompleteStats(m3.ctl.ints, m3.ctl.floats, LastBegan(m.log).value, SentInRun(m.log))
  {
    StatusStep(m, asked);
    StatsKept(Step(m, asked), between);
    StatsStep(Run(Step(m, asked), between), dt);
  }

  lemma StatusStep(m: Machine, asked: Input)
    requires Inv(m) && !m.inBurst && !m.aborted && asked.request == Some(TestStatus)
    requires m.ctl.Phase() == Stopping || m.ctl.Phase() == Stopped
    ensures var m1 := Step(m, asked);
            && m.log + [Answered(Status(m.ctl.Phase()))] <= m1.log
            && !m1.inBurst && m1.ctl.Phase() == Stopped
            && LastBegan(m1.log) == LastBegan(m.log) && SentInRun(m1.log) == SentInRun(m.log)
  {
    var now := Tick(m, asked.dt);
    TickKeepsInv(m, asked.dt);
    if m.ctl.publishing {
      StoppingCompletes(now, asked.request);
      CompletedRun(now, asked.request);
    } else {
      Append(m.log, Answered(Status(Stopped)));
    }
  }

  lemma StatsStep(m: Machine, dt: nat)
    requires Inv(m) && !m.inBurst && !m.aborted && m.ctl.Phase() == Stopped && LastBegan(m.log).Some?
    ensures var m' := Step(m, Input(Some(GetStats), dt));
            && m'.log == m.log + [Answered(Stats(m'.ctl.ints, m'.ctl.floats))]
            && CompleteStats(m'.ctl.ints, m'.ctl.floats, LastBegan(m.log).value, SentInRun(m.log))
  {
  }

  /** Completing a run's statistics leaves when it began and what it sent as they were. */
  lemma CompletedRun(m: Machine, request: Option<Command>)
    requires Inv(m) && !m.inBurst && !m.aborted && m.ctl.Phase() == Stopping
    requires !Answer(m, request).aborted
    ensures var m' := Poll(m, request);
            LastBegan(m'.log) == LastBegan(m.log) && SentInRun(m'.log) == SentInRun(m.log)
  {
    var answered := Answer(m, request);
    if request.Some? {
      UpdateKeepsRun(m.ctl, request.value);
      Append(m.log, answered.log[|m.log|]);
    }
    Append(answered.log, Finished(m.clock, answered.ctl.msgCnt));
  }
}
