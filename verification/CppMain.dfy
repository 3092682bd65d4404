/** `TestControl` and the main loop of the C++ publisher as code, against the state machine. */
module CppMain {
  import opened Wrappers
  import opened CppPublisher
  import opened CppLiveness
  import opened Powers

  class TestControl {
    var publishing: bool
    var startPublishing: bool
    var intStats: map<string, int>
    var floatStats: map<string, real>
    var testDuration: nat
    var msgBatch: nat
    var msgRequestedRate: nat
    var msgCnt: nat

    function View(): Control reads this {
      Control(publishing, startPublishing, intStats, floatStats, testDuration, msgBatch, msgRequestedRate, msgCnt)
    }

    constructor ()
      ensures View() == Boot(0).ctl
      ensures !publishing && !startPublishing && testDuration == 5 && msgBatch == 100 && msgRequestedRate == 1000
    {
      publishing, startPublishing := false, false;
      testDuration, msgBatch, msgRequestedRate := 5, 100, 1000;
      msgCnt := 0;
      intStats, floatStats := map[], map[];
    }

    method StartTest(now: int) returns (startTime: int)
      modifies this
      ensures startTime == now
      ensures View() == old(View()).(ints := map["time:start" := now], floats := map[], msgCnt := 0)
    {
      floatStats := map[];
      intStats := map[];
      startTime := now;
      intStats := intStats["time:start" := startTime];
      msgCnt := 0;
    }

    method StopTest(now: int)
      requires "time:start" in intStats && !publishing && now != intStats["time:start"]
      modifies this`intStats, this`floatStats
      ensures View() == old(View()).Finish(now)
    {
      intStats := intStats["time:end" := now];
      var elapsedTime := intStats["time:end"] - intStats["time:start"];
      floatStats := floatStats["rate" := msgCnt as real / elapsedTime as real];
      intStats := intStats["msg_cnt" := msgCnt];
    }

    /** No reply: an assertion on an argument failed and the process is gone. */
    method ProcessMessage(cmd: Command) returns (reply: Option<Reply>)
      modifies this
      ensures reply == Process(old(View()), cmd).1
      ensures reply.Some? ==> View() == Process(old(View()), cmd).0
    {
      match cmd
      case Ping =>
        reply := Some(Pong);
      case TestStart =>
        if publishing || startPublishing {
          reply := Some(Refused);
        } else {
          startPublishing := true;
          reply := Some(Accepted);
        }
      case TestStatus =>
        if publishing && startPublishing {
          reply := Some(Status(Running));
        } else if publishing && !startPublishing {
          reply := Some(Status(Stopping));
        } else if !publishing && startPublishing {
          reply := Some(Status(Starting));
        } else {
          reply := Some(Status(Stopped));
        }
      case UpdateConfig(args) =>
        var ok := UpdateFrom(args);
        reply := if ok then Some(Updated) else None;
      case GetStats =>
        reply := Some(Stats(intStats, floatStats));
      case _ =>
        reply := Some(Failed);
    }

    method UpdateFrom(args: seq<Arg>) returns (ok: bool)
      modifies this`testDuration, this`msgBatch, this`msgRequestedRate
      ensures ok <==> UpdateAll(old(View()), args).Some?
      ensures ok ==> View() == UpdateAll(old(View()), args).value
    {
      for i := 0 to |args|
        invariant UpdateAll(old(View()), args[..i]) == Some(View())
      {
        var arg := args[i];
        assert args[..i + 1][..i] == args[..i];
        if arg.name == "test_duration" {
          if arg.intValue.None? {
            AbortStays(old(View()), args, i + 1);
            return false;
          }
          testDuration := ToUint32(arg.intValue.value);
        } else if arg.name == "msg_batch" {
          if arg.intValue.None? {
            AbortStays(old(View()), args, i + 1);
            return false;
          }
          msgBatch := ToUint32(arg.intValue.value);
        } else if arg.name == "msg_requested_rate" {
          if arg.intValue.None? && arg.floatValue.None? {
            AbortStays(old(View()), args, i + 1);
            return false;
          }
          if arg.intValue.Some? {
            msgRequestedRate := ToUint32(arg.intValue.value);
          } else {
            msgRequestedRate := ToUint32(Truncate(arg.floatValue.value));
          }
        }
      }
      assert args[..|args|] == args;
      ok := true;
    }
  }

  lemma {:induction false} AbortStays(c: Control, args: seq<Arg>, i: nat)
    requires i <= |args| && UpdateAll(c, args[..i]).None?
    ensures UpdateAll(c, args).None?
    decreases |args| - i
  {
    if i < |args| {
      assert args[..i + 1][..i] == args[..i];
      AbortStays(c, args, i + 1);
    } else {
      assert args[..i] == args;
    }
  }

  class Publisher {
    const tctrl: TestControl
    var cnt: nat
    var startTime: int
    var clock: int
    ghost var log: seq<Event>

    constructor (clock: int)
      ensures View(false) == Boot(clock) && fresh(tctrl)
    {
      tctrl := new TestControl();
      cnt, startTime := 0, 0;
      this.clock := clock;
      log := [];
    }

    /** The machine this object is, given whether control is in the inner loop. */
    ghost function View(inBurst: bool): Machine reads this, tctrl {
      Machine(tctrl.View(), cnt, startTime, clock, inBurst, false, log)
    }

    /** The part of a turn of the main loop before the inner loop; `ok` is false if the process aborts. */
    method PollAndControl(request: Option<Command>) returns (ok: bool)
      requires Inv(View(false))
      modifies this, tctrl
      ensures ok <==> !Poll(old(View(false)), request).aborted
      ensures ok ==> View(tctrl.publishing && tctrl.startPublishing) == Poll(old(View(false)), request)
    {
      ghost var m := View(false);
      AnswerConsistent(m, request);
      if request.Some? {
        var reply := tctrl.ProcessMessage(request.value);
        if reply.None? {
          return false;
        }
        log := log + [Answered(reply.value)];
      }
      assert View(false) == Answer(m, request);
      ControlStep();
      ok := true;
    }

    /** Starting and stopping a run. */
    method ControlStep()
      requires Consistent(View(false))
      modifies this, tctrl
      ensures View(tctrl.publishing && tctrl.startPublishing) == Dispatch(old(View(false)))
    {
      if !tctrl.publishing && tctrl.startPublishing {
        tctrl.publishing := true;
        startTime := tctrl.StartTest(clock);
        cnt := 0;
        log := log + [Began(clock)];
      } else if tctrl.publishing && !tctrl.startPublishing {
        tctrl.publishing := false;
        log := log + [Finished(clock, tctrl.msgCnt)];
        tctrl.StopTest(clock);
      }
    }

    /** One turn of the inner loop; `stay` is false when it breaks. */
    method InnerTurn(dt: nat) returns (stay: bool)
      modifies this`cnt, this`clock, this`log, tctrl`startPublishing, tctrl`msgCnt
      ensures View(stay) == Burst(Tick(old(View(true)), dt))
    {
      clock := clock + dt;
      cnt := Increment(cnt);
      if cnt >= Top(tctrl.msgBatch) {
        if cnt == Top(tctrl.msgBatch) {
          return false;
        }
        if cnt >= tctrl.msgBatch {
          var duration := clock - startTime;
          if duration > tctrl.testDuration {
            tctrl.startPublishing := false;
            return false;
          }
          log := log + [Slept(Pause(tctrl.msgCnt, tctrl.msgRequestedRate, duration))];
          cnt := 0;
        }
      }
      log := log + [Sent(tctrl.msgCnt)];
      tctrl.msgCnt := tctrl.msgCnt + 1;
      stay := true;
    }

    /** The inner loop: from a machine that is publishing to the next poll. */
    method PublishUntilPoll(env: nat -> nat)
      requires Returns(View(true), env)
      modifies this`cnt, this`clock, this`log, tctrl`startPublishing, tctrl`msgCnt
      ensures exists n: nat :: ReturnsAfter(old(View(true)), env, n) && View(false) == Bursts(old(View(true)), env, n)
    {
      ghost var m := View(true);
      ghost var last: nat :| ReturnsAfter(m, env, last);
      var n := 0;
      var stay := true;
      while stay
        invariant 0 <= n <= last && View(stay) == Bursts(m, env, n)
        decreases last - n
      {
        assert n != last by { assert Bursts(m, env, n).inBurst; }
        ghost var before := View(true);
        stay := InnerTurn(env(n));
        NextBurst(m, env, n, before, View(stay));
        n := n + 1;
      }
      assert n == last by { assert !Bursts(m, env, n).inBurst; }
    }

    /** A whole turn of the main loop, `dt` seconds after the previous one. With a batch of one it only returns
        if the clock comes to show that the test is over. */
    method MainTurn(dt: nat, request: Option<Command>, env: nat -> nat) returns (ok: bool)
      requires Inv(View(false))
      requires var m := Poll(Tick(View(false), dt), request); m.ctl.batch == 1 ==> TimeComes(m, env)
      modifies this, tctrl
      ensures ok <==> !Poll(Tick(old(View(false)), dt), request).aborted
      ensures ok ==> exists n: nat :: var m := Poll(Tick(old(View(false)), dt), request);
                       ReturnsAfter(m, env, n) && View(false) == Bursts(m, env, n) && Inv(View(false))
    {
      ghost var m := View(false);
      TickKeepsInv(m, dt);
      clock := clock + dt;
      assert View(false) == Tick(m, dt);
      PollKeepsInv(Tick(m, dt), request);
      ok := PollAndControl(request);
      if ok && tctrl.publishing && tctrl.startPublishing {
        ghost var p := View(true);
        if p.ctl.batch == 1 {
          BatchOneReturnsExactly(p, env);
        } else {
          BurstReturnsToPoll(p, env);
        }
        PublishUntilPoll(env);
        ghost var n: nat :| ReturnsAfter(p, env, n) && View(false) == Bursts(p, env, n);
        BurstsKeepInv(p, env, n);
      } else if ok {
        assert ReturnsAfter(View(false), env, 0);
      }
    }
  }

  lemma NextBurst(m: Machine, env: nat -> nat, n: nat, before: Machine, after: Machine)
    requires before == Bursts(m, env, n) && after == Burst(Tick(before, env(n)))
    ensures after == Bursts(m, env, n + 1)
  {
  }

  lemma {:induction false} BurstsKeepInv(m: Machine, env: nat -> nat, n: nat)
    requires Inv(m)
    ensures Inv(Bursts(m, env, n))
  {
    if n > 0 {
      BurstsKeepInv(m, env, n - 1);
      TickKeepsInv(Bursts(m, env, n - 1), env(n - 1));
      BurstKeepsInv(Tick(Bursts(m, env, n - 1), env(n - 1)));
    }
  }
}
