/** The Python publisher: one test from the start signal to the stored statistics. */
module ZmqPub {
  import opened Wrappers
  import opened Pacing

  datatype PubStats = PubStats(rate: real, msgCnt: nat)

  datatype Status = Stopped | Running | Stopping

  class PubServer {
    var testDuration: real
    var msgBatch: int
    var msgRequestedRate: real
    var start: bool
    var testStatus: Status
    var stats: PubStats

    function Pacing(): Pacer reads this { Pacer(msgRequestedRate, msgBatch) }

    /** The rate is zero and the first full batch comes before the end of the test. */
    ghost predicate DividesByZero(env: nat -> Turn) reads this {
      msgRequestedRate == 0.0 && forall i :: 0 < i < Pacing().Batch() ==> Pacing().At(env, i).now < testDuration
    }

    /** Publishes until the test duration has passed, whatever the clock does, and ends at the first turn
        that sees it passed. It divides by zero at the first full batch if the rate is zero, and at the end if no
        time passed; a negative rate is not paced, so then only the clock can end the test. */
    method PublishTest(env: nat -> Turn) returns (r: Result<PubStats, string>, ghost n: nat)
      requires start && Adversary(env)
      requires msgRequestedRate < 0.0 ==> TimeComes(Pacing(), env, testDuration)
      modifies this`start, this`testStatus, this`stats
      ensures DividesByZero(env) ==> r.Err? && n == Pacing().Batch()
      ensures !DividesByZero(env) ==>
                && n > 0 && Pacing().At(env, n).now >= testDuration
                && (forall i :: 0 < i < n ==> Pacing().At(env, i).now < testDuration)
                && (Pacing().At(env, n).now > 0.0 <==> r.Ok?)
                && (testDuration > 0.0 ==> r.Ok?)
      ensures r.Ok? ==> r.value == stats == PubStats(n as real / Pacing().At(env, n).now, n)
                        && testStatus == Stopping && !start
      ensures r.Err? ==> stats == old(stats) && testStatus == old(testStatus) && start
    {
      var ok, msgCnt, now := SendUntilOver(env);
      n := msgCnt;
      if !ok || now == 0.0 {
        return Err("division by zero"), n;
      }
      stats := PubStats(msgCnt as real / now, msgCnt);
      testStatus := Stopping;
      start := false;
      r := Ok(stats);
    }

    /** The loop of a test; not `ok` if it divides by zero. */
    method SendUntilOver(env: nat -> Turn) returns (ok: bool, msgCnt: nat, now: real)
      requires Adversary(env)
      requires msgRequestedRate < 0.0 ==> TimeComes(Pacing(), env, testDuration)
      ensures ok <==> !DividesByZero(env)
      ensures !ok ==> msgCnt == Pacing().Batch()
      ensures ok ==> msgCnt > 0 && Pacing().At(env, msgCnt).now == now && now >= 0.0 && now >= testDuration
      ensures ok ==> forall i :: 0 < i < msgCnt ==> Pacing().At(env, i).now < testDuration
    {
      ghost var p := Pacing();
      var cnt := 0;
      msgCnt, now, ok := 0, 0.0, true;
      ghost var bound := Bound(p, env);
      while true
        invariant Pace(msgCnt, cnt, now) == p.At(env, msgCnt)
        invariant 0 <= msgCnt <= bound && now >= 0.0
        invariant msgCnt > 0 ==> now < testDuration
        invariant forall i :: 0 < i < msgCnt ==> p.At(env, i).now < testDuration
        invariant msgRequestedRate == 0.0 ==> cnt == msgCnt < p.Batch()
        decreases bound - msgCnt
      {
        ok, cnt, now := Send(env, cnt, msgCnt, now);
        msgCnt := msgCnt + 1;
        if !ok || now >= testDuration {
          break;
        }
      }
    }

    /** One message, and the pause if a batch is full; not `ok` if the rate is zero then. */
    method Send(env: nat -> Turn, cnt: nat, msgCnt: nat, now: real) returns (ok: bool, cnt': nat, now': real)
      requires Adversary(env) && Pace(msgCnt, cnt, now) == Pacing().At(env, msgCnt)
      ensures ok <==> cnt + 1 < msgBatch || msgRequestedRate != 0.0
      ensures ok ==> Pace(msgCnt + 1, cnt', now') == Pacing().At(env, msgCnt + 1) && now' >= now
      ensures ok && cnt + 1 < msgBatch ==> cnt' == cnt + 1
    {
      var turn := env(msgCnt);
      assert turn.Valid();
      ok, cnt', now' := true, cnt + 1, now + turn.message;
      if cnt' >= msgBatch {
        var duration := now';
        if msgRequestedRate == 0.0 {
          ok := false;
          return;
        }
        var expectedTime := (msgCnt + 1) as real / msgRequestedRate;
        var delay := 0.0;
        if expectedTime > duration {
          delay := expectedTime - duration;
        }
        if delay > 1.0 {
          delay := 1.0;
        }
        now' := now' + delay + turn.overrun;
        cnt' := 0;
      }
      now' := now' + turn.read;
    }

    /** A turn by which the test is over. */
    lemma Bound(p: Pacer, env: nat -> Turn) returns (bound: nat)
      requires Adversary(env) && (p.rate < 0.0 ==> TimeComes(p, env, testDuration))
      ensures bound > 0
      ensures if p.rate == 0.0 then bound == p.Batch() else p.At(env, bound).now >= testDuration
    {
      if p.rate == 0.0 {
        bound := p.Batch();
      } else {
        if p.rate > 0.0 {
          TestBound(p, env, testDuration);
        }
        bound :| bound > 0 && p.At(env, bound).now >= testDuration;
      }
    }
  }
}
