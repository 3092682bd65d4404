/** `MarathonIF` and the scaling calls of `HydraBase`: the loops that issue the planned targets. */
module Scaling {
  import opened Wrappers
  import opened Ramp

  /** What a cluster reports. Successive readings of the task list are arbitrary; the number of running tasks
      may depend on the target last asked for as well as on the number of the poll. */
  class MarathonIF {
    const seen: nat -> int
    const running: (int, nat) -> int
    var listings: nat
    var polls: nat
    var requests: seq<int>
    var corrections: seq<int>

    constructor (seen: nat -> int, running: (int, nat) -> int)
      ensures this.seen == seen && this.running == running
      ensures listings == 0 && polls == 0 && requests == [] && corrections == []
    {
      this.seen, this.running := seen, running;
      listings, polls, requests, corrections := 0, 0, [], [];
    }

    /** Asked for `target`, the cluster comes to run that many tasks, again and again. */
    ghost predicate Reaches() {
      forall target: int, from: nat :: ReachesFrom(target, from)
    }

    ghost predicate ReachesFrom(target: int, from: nat) {
      exists i: nat :: i >= from && running(target, i) == target
    }

    method GetAppTasks() returns (count: int)
      modifies this`listings
      ensures count == Observed(seen, old(listings), 0) && listings == old(listings) + 1
    {
      count := seen(listings);
      listings := listings + 1;
    }

    /** Polls until exactly `runningCount` tasks run, asking again for that count whenever more do: returns at the
        first poll that shows it, and never asks for anything else. If none shows it, the source polls forever. */
    method WaitAppReady(runningCount: int)
      requires ReachesFrom(runningCount, polls)
      modifies this`polls, this`corrections
      ensures polls > old(polls) && running(runningCount, polls - 1) == runningCount
      ensures forall i :: old(polls) <= i < polls - 1 ==> running(runningCount, i) != runningCount
      ensures old(corrections) <= corrections
      ensures forall i :: |old(corrections)| <= i < |corrections| ==> corrections[i] == runningCount
      ensures |corrections| == |old(corrections)| + |set i: nat | old(polls) <= i < polls && running(runningCount, i) > runningCount|
    {
      ghost var due: nat :| due >= polls && running(runningCount, due) == runningCount;
      while true
        invariant old(polls) <= polls <= due
        invariant forall i :: old(polls) <= i < polls ==> running(runningCount, i) != runningCount
        invariant old(corrections) <= corrections
        invariant forall i :: |old(corrections)| <= i < |corrections| ==> corrections[i] == runningCount
        invariant |corrections| == |old(corrections)| + |TooMany(running, runningCount, old(polls), polls)|
        decreases due - polls
      {
        var tasksRunning := running(runningCount, polls);
        OneMorePoll(running, runningCount, old(polls), polls);
        polls := polls + 1;
        if tasksRunning > runningCount {
          corrections := corrections + [runningCount];
          continue;
        }
        if tasksRunning == runningCount {
          break;
        }
      }
    }

    method RequestAndWait(target: int)
      requires Reaches()
      modifies this`requests, this`polls, this`corrections
      ensures requests == old(requests) + [target] && polls > 0 && running(target, polls - 1) == target
    {
      requests := requests + [target];
      assert ReachesFrom(target, polls);
      WaitAppReady(target);
    }

    /** A request, the wait for it, and the listing that the loops look at next. */
    method RequestAndList(target: int) returns (tasks: int)
      requires Reaches()
      modifies this
      ensures requests == old(requests) + [target]
      ensures tasks == Observed(seen, old(listings), 0) && listings == old(listings) + 1
    {
      RequestAndWait(target);
      tasks := GetAppTasks();
    }
  }

  /** One attempt of a retried request: whether it succeeds and how long it takes. */
  datatype Try = Try(ok: bool, cost: real)

  /** When attempt `i` starts: ten seconds after the one before failed. */
  function StartsAt(env: nat -> Try, i: nat): real {
    if i == 0 then 0.0 else StartsAt(env, i - 1) + env(i - 1).cost + 10.0
  }

  lemma {:induction false} TenSecondsApart(env: nat -> Try, i: nat)
    requires forall k: nat :: env(k).cost >= 0.0
    ensures StartsAt(env, i) >= 10.0 * i as real
  {
    if i > 0 {
      TenSecondsApart(env, i - 1);
    }
  }

  /** The number of attempts is bounded by the timeout alone. */
  lemma AttemptsBounded(env: nat -> Try, timeout: real, n: nat)
    requires forall k: nat :: env(k).cost >= 0.0
    requires n > 0 && InTime(env, timeout, n - 1)
    ensures 10.0 * n as real < timeout + 10.0
  {
    TenSecondsApart(env, n - 1);
  }

  /** Attempts that take no time start exactly ten seconds apart, so the bound is met. */
  lemma {:induction false} InstantAttempts(env: nat -> Try, timeout: real, i: nat)
    requires forall k: nat :: env(k).cost == 0.0
    ensures InTime(env, timeout, i) <==> 10.0 * i as real < timeout
  {
    InstantStart(env, i);
  }

  lemma {:induction false} InstantStart(env: nat -> Try, i: nat)
    requires forall k: nat :: env(k).cost == 0.0
    ensures StartsAt(env, i) == 10.0 * i as real
  {
    if i > 0 {
      InstantStart(env, i - 1);
    }
  }

  lemma TimeoutPasses(env: nat -> Try, timeout: real) returns (n: nat)
    requires forall k: nat :: env(k).cost >= 0.0
    ensures !InTime(env, timeout, n)
  {
    n := if timeout <= 0.0 then 0 else (timeout / 10.0).Floor + 1;
    TenSecondsApart(env, n);
  }

  /** Attempt `i` starts within the timeout. */
  predicate InTime(env: nat -> Try, timeout: real, i: nat) { StartsAt(env, i) < timeout }

  /** The retry loop around a request: it stops at the first attempt that succeeds, and gives up at the first
      moment an attempt would start after the timeout. */
  method RetryUntilTimeout(env: nat -> Try, timeout: real) returns (ok: bool, n: nat)
    requires forall k: nat :: env(k).cost >= 0.0
    ensures forall i :: 0 <= i < n ==> InTime(env, timeout, i)
    ensures forall i :: 0 <= i < n - 1 ==> !env(i).ok
    ensures ok <==> n > 0 && env(n - 1).ok
    ensures !ok ==> !InTime(env, timeout, n)
  {
    ghost var bound := TimeoutPasses(env, timeout);
    n := 0;
    ok := false;
    var elapsed := 0.0;
    while elapsed < timeout
      invariant elapsed == StartsAt(env, n) && n <= bound
      invariant forall i :: 0 <= i < n ==> InTime(env, timeout, i)
      invariant forall i :: 0 <= i < n ==> !env(i).ok
      decreases bound - n
    {
      assert InTime(env, timeout, n);
      ok := env(n).ok;
      elapsed := elapsed + env(n).cost + 10.0;
      n := n + 1;
      if ok {
        return;
      }
    }
  }

  /** The polls that show too many tasks. */
  function TooMany(running: (int, nat) -> int, target: int, from: nat, to: nat): set<nat> {
    set i: nat | from <= i < to && running(target, i) > target
  }

  lemma OneMorePoll(running: (int, nat) -> int, target: int, from: nat, to: nat)
    requires from <= to
    ensures |TooMany(running, target, from, to + 1)| ==
            |TooMany(running, target, from, to)| + if running(target, to) > target then 1 else 0
  {
    var before := TooMany(running, target, from, to);
    assert TooMany(running, target, from, to + 1) == if running(target, to) > target then before + {to} else before;
  }

  /** The next planned target of a drain that has `remaining` instances to go. */
  lemma DrainNext(plan: seq<int>, j: nat, remaining: int, batch: nat)
    requires batch > 0 && remaining >= 0 && j < |plan| && plan[j..] == Drain(remaining, batch)
    ensures plan[..j + 1] == plan[..j] + [plan[j]]
    ensures if remaining < batch then plan[j] == 1 && |plan| == j + 1
            else j + 1 < |plan| && plan[j] == remaining - batch && plan[j + 1..] == Drain(remaining - batch, batch)
  {
    assert plan[j] == plan[j..][0] && plan[j + 1..] == plan[j..][1..];
  }

  /** `j` targets of the ramp have been asked for, the last of them `launched`. */
  ghost predicate AtRung(plan: seq<int>, j: nat, launched: int, goal: int, batch: nat)
    requires batch > 0
  {
    launched <= goal && j < |plan| && plan[j..] == Ladder(launched, goal, batch)[1..]
  }

  lemma FirstRung(threshold: int, goal: int, batch: nat)
    requires batch > 0 && threshold < goal
    ensures var plan := Ladder(threshold, goal, batch);
            plan[..1] == plan[..0] + [threshold] && AtRung(plan, 1, threshold, goal, batch)
  {
    LadderShape(threshold, goal, batch);
  }

  /** The next planned target of a ramp that has launched `launched` instances. */
  lemma RampNext(plan: seq<int>, j: nat, launched: int, goal: int, batch: nat)
    requires batch > 0 && AtRung(plan, j, launched, goal, batch)
    ensures plan[..j + 1] == plan[..j] + [plan[j]]
    ensures if goal - launched < batch then plan[j] == goal && |plan| == j + 1
            else plan[j] == launched + batch && AtRung(plan, j + 1, launched + batch, goal, batch)
  {
    assert plan[j] == plan[j..][0] && plan[j + 1..] == plan[j..][1..];
    if goal - launched >= batch {
      LadderShape(launched + batch, goal, batch);
      assert Ladder(launched, goal, batch)[1..] == Ladder(launched + batch, goal, batch);
    }
  }

  class HydraScaler {
    const mt: MarathonIF

    constructor (mt: MarathonIF)
      ensures this.mt == mt
    {
      this.mt := mt;
    }

    /** Scales to `scaleCnt`, in batches above the threshold. Whatever is observed between the requests, they are the
        planned targets in order, up to the moment the goal is seen; the call succeeds exactly if the goal is seen
        when the loop ends and again when the tasks are listed afterwards. */
    method ScaleApp(scaleCnt: int, batch: nat, threshold: int) returns (ok: bool, ghost j: nat)
      requires batch > 0 && mt.Reaches()
      modifies mt
      ensures scaleCnt > threshold ==>
                && Issued(Ladder(threshold, scaleCnt, batch), scaleCnt, mt.seen, old(mt.listings), j)
                && mt.requests == old(mt.requests) + Ladder(threshold, scaleCnt, batch)[..j]
                && (ok <==> Observed(mt.seen, old(mt.listings), j) == scaleCnt == Observed(mt.seen, old(mt.listings), j + 1))
      ensures scaleCnt <= threshold ==>
                mt.requests == old(mt.requests) + [scaleCnt] && (ok <==> Observed(mt.seen, old(mt.listings), 0) == scaleCnt)
    {
      j := 0;
      if scaleCnt > threshold {
        ok, j := RampUp(scaleCnt, batch, threshold);
        if !ok {
          return;
        }
      } else {
        mt.RequestAndWait(scaleCnt);
      }
      var instCnt := mt.GetAppTasks();
      ok := instCnt == scaleCnt;
    }

    method RampUp(scaleCnt: int, batch: nat, threshold: int) returns (ok: bool, ghost j: nat)
      requires batch > 0 && mt.Reaches() && scaleCnt > threshold
      modifies mt
      ensures Issued(Ladder(threshold, scaleCnt, batch), scaleCnt, mt.seen, old(mt.listings), j)
      ensures mt.requests == old(mt.requests) + Ladder(threshold, scaleCnt, batch)[..j]
      ensures mt.listings == old(mt.listings) + j + 1
      ensures ok <==> Observed(mt.seen, old(mt.listings), j) == scaleCnt
    {
      ghost var plan := Ladder(threshold, scaleCnt, batch);
      ghost var from, before := mt.listings, mt.requests;
      j := 0;
      var instancesLaunched, remaining, firstBatch := 0, 0, true;
      var tasks := mt.GetAppTasks();
      while tasks != scaleCnt
        invariant j < |plan| && mt.listings == from + j + 1 && tasks == Observed(mt.seen, from, j)
        invariant forall i :: 0 <= i < j ==> Observed(mt.seen, from, i) != scaleCnt
        invariant mt.requests == before + plan[..j]
        invariant if firstBatch then j == 0 && instancesLaunched == 0
                  else remaining == scaleCnt - instancesLaunched && AtRung(plan, j, instancesLaunched, scaleCnt, batch)
        decreases |plan| - j
      {
        if firstBatch {
          firstBatch := false;
          FirstRung(threshold, scaleCnt, batch);
          tasks := mt.RequestAndList(threshold);
          remaining := scaleCnt - threshold;
          instancesLaunched := instancesLaunched + threshold;
        } else {
          RampNext(plan, j, instancesLaunched, scaleCnt, batch);
          if remaining < batch {
            tasks := mt.RequestAndList(instancesLaunched + remaining);
            j := j + 1;
            ok := tasks == scaleCnt;
            return;
          }
          tasks := mt.RequestAndList(instancesLaunched + batch);
          remaining := remaining - batch;
          instancesLaunched := instancesLaunched + batch;
        }
        j := j + 1;
      }
      ok := true;
    }

    /** Deletes an app, draining it in batches first if more than the threshold run. Whatever is observed, the
        requests are the planned ones in order, up to the moment a single instance is seen; if none of that is
        seen in the end the call fails before the app is deleted. */
    method DeleteApp(running: Option<nat>, batch: nat, threshold: int) returns (deleted: bool, ghost j: nat)
      requires batch > 0 && mt.Reaches()
      modifies mt
      ensures running.Some? && running.value > threshold ==>
                && Issued(Drain(running.value, batch), 1, mt.seen, old(mt.listings), j)
                && mt.requests == old(mt.requests) + Drain(running.value, batch)[..j]
                && (deleted <==> Observed(mt.seen, old(mt.listings), j) == 1)
      ensures running.None? || running.value <= threshold ==> mt.requests == old(mt.requests) && deleted
    {
      j := 0;
      if running.Some? && running.value > threshold {
        deleted, j := DrainApp(running.value, batch);
        if !deleted {
          return;
        }
      }
      deleted := true;
    }

    method DrainApp(count: nat, batch: nat) returns (ok: bool, ghost j: nat)
      requires batch > 0 && mt.Reaches()
      modifies mt
      ensures Issued(Drain(count, batch), 1, mt.seen, old(mt.listings), j)
      ensures mt.requests == old(mt.requests) + Drain(count, batch)[..j]
      ensures ok <==> Observed(mt.seen, old(mt.listings), j) == 1
    {
      ghost var plan := Drain(count, batch);
      ghost var from, before := mt.listings, mt.requests;
      j := 0;
      var remaining: int := count;
      var tasks := mt.GetAppTasks();
      while tasks != 1
        invariant j < |plan| && mt.listings == from + j + 1 && tasks == Observed(mt.seen, from, j)
        invariant forall i :: 0 <= i < j ==> Observed(mt.seen, from, i) != 1
        invariant mt.requests == before + plan[..j]
        invariant remaining >= 0 && plan[j..] == Drain(remaining, batch)
        decreases |plan| - j
      {
        DrainNext(plan, j, remaining, batch);
        if remaining < batch {
          tasks := mt.RequestAndList(1);
          j := j + 1;
          ok := tasks == 1;
          return;
        }
        tasks := mt.RequestAndList(remaining - batch);
        remaining := remaining - batch;
        j := j + 1;
      }
      ok := true;
    }
  }
}
