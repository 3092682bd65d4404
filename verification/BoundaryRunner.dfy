/** `BoundaryRunnerBase`: one remembered result, a first-run flag and up to five attempts a call. */
module BoundaryRunner {
  import opened Wrappers

  /** What a test measured, tagged with the rate that was set in the options while it ran. */
  datatype TestResult = TestResult(rate: real, figures: seq<real>)

  /** How the environment lets one attempt end. A launch that fails never gets as far as `rerun_test`. */
  datatype Fate = LaunchFails | TestFails | Succeeds(figures: seq<real>)

  /** `cleanupOk` says whether deleting the launched apps after a failure itself raises. */
  datatype Attempt = Attempt(fate: Fate, cleanupOk: bool)

  datatype Event = Event(rerun: bool, ok: bool, cleanupOk: bool)

  /** What a call hands to the result function: the rate it reads from the options, and a result. */
  datatype Outcome = Reported(read: real, result: TestResult) | Raised

  /** `resets` says whether the subclass empties the memo at the start of `rerun_test`, as all three do. */
  datatype Runner = Runner(rate: real, firstRun: bool, memo: map<real, TestResult>, log: seq<Event>, resets: bool)

  function RunOnce(s: Runner, a: Attempt): Runner {
    var reset := s.resets && (!s.firstRun || !a.fate.LaunchFails?);
    s.(memo := if reset then map[] else s.memo,
       firstRun := if a.fate.Succeeds? then false else a.cleanupOk || s.firstRun,
       log := s.log + [Event(!s.firstRun, a.fate.Succeeds?, a.cleanupOk)])
  }

  /** The retry loop from attempt number `tries` on. */
  function Tries(env: nat -> Attempt, s: Runner, tries: nat): (Runner, Option<TestResult>)
    requires tries <= 4
    decreases 4 - tries
  {
    var a := env(|s.log|);
    var s' := RunOnce(s, a);
    if a.fate.Succeeds? then (s', Some(TestResult(s.rate, a.fate.figures)))
    else if !a.cleanupOk || tries == 4 then (s', None)
    else Tries(env, s', tries + 1)
  }

  function Call(env: nat -> Attempt, s: Runner, arg: real): (Runner, Outcome) {
    if arg in s.memo then (s, Reported(s.rate, s.memo[arg]))
    else
      var (s', r) := Tries(env, s.(rate := arg), 0);
      if r.None? then (s', Raised)
      else (s'.(memo := s'.memo[arg := r.value]), Reported(s'.rate, r.value))
  }

  /** The outcomes of any sequence of calls, including calls that raise. */
  function Calls(env: nat -> Attempt, s: Runner, args: seq<real>): (Runner, seq<Outcome>)
    decreases args
  {
    if args == [] then (s, [])
    else
      var (s', o) := Call(env, s, args[0]);
      var (t, os) := Calls(env, s', args[1..]);
      (t, [o] + os)
  }

  function Initial(rate: real, resets: bool): Runner { Runner(rate, true, map[], [], resets) }

  /** The memo is empty, or holds just the rate set in the options with a result produced at it. */
  ghost predicate MemoCurrent(s: Runner) {
    s.memo == map[] || (s.rate in s.memo && s.memo == map[s.rate := s.memo[s.rate]] && s.memo[s.rate].rate == s.rate)
  }

  /** Attempt `i` updates the running apps exactly when the attempt before succeeded, or was itself such an
      update whose failure was followed by a clean-up that raised. */
  ghost predicate KindOfAttempt(log: seq<Event>, i: nat)
    requires i < |log|
  {
    log[i].rerun <==> i > 0 && (log[i - 1].ok || (log[i - 1].rerun && !log[i - 1].cleanupOk))
  }

  ghost predicate Coherent(s: Runner) {
    && s.resets
    && (s.firstRun ==> s.memo == map[])
    && MemoCurrent(s)
    && LogCoherent(s)
  }

  ghost predicate LogCoherent(s: Runner) {
    && (forall i :: 0 <= i < |s.log| ==> KindOfAttempt(s.log, i))
    && (s.firstRun <==> |s.log| == 0 || (!s.log[|s.log| - 1].ok
                                         && (s.log[|s.log| - 1].cleanupOk || !s.log[|s.log| - 1].rerun)))
  }

  lemma AttemptKeepsLog(s: Runner, a: Attempt)
    requires LogCoherent(s)
    ensures LogCoherent(RunOnce(s, a))
  {
    var s' := RunOnce(s, a);
    forall i | 0 <= i < |s'.log|
      ensures KindOfAttempt(s'.log, i)
    {
      if i < |s.log| {
        assert KindOfAttempt(s.log, i);
      }
    }
  }

  /** The retry loop: at most five attempts, each after the first following a failure that was cleaned up; it
      gives up only after five failures or a clean-up that raised, and it always leaves the memo empty. */
  lemma {:induction false} TriesCoherent(env: nat -> Attempt, s: Runner, tries: nat)
    requires tries <= 4 && s.resets && LogCoherent(s) && (s.firstRun ==> s.memo == map[])
    ensures var (s', r) := Tries(env, s, tries);
            && LogCoherent(s') && s'.memo == map[] && s'.resets && s'.rate == s.rate
            && s.log < s'.log && |s'.log| <= |s.log| + 5 - tries
            && (forall i :: |s.log| <= i < |s'.log| - 1 ==> !s'.log[i].ok && s'.log[i].cleanupOk)
            && (r.Some? <==> s'.log[|s'.log| - 1].ok)
            && (r.Some? ==> !s'.firstRun && r.value.rate == s.rate)
            && (r.None? ==> |s'.log| == |s.log| + 5 - tries || !s'.log[|s'.log| - 1].cleanupOk)
    decreases 4 - tries
  {
    var a := env(|s.log|);
    AttemptKeepsLog(s, a);
    var s' := RunOnce(s, a);
    if !a.fate.Succeeds? && a.cleanupOk && tries < 4 {
      TriesCoherent(env, s', tries + 1);
      assert Tries(env, s', tries + 1).0.log[|s.log|] == s'.log[|s.log|];
    }
  }

  /** From entry `from` on, every attempt but the last failed, was cleaned up, and was followed by a full launch. */
  ghost predicate Retried(log: seq<Event>, from: nat) {
    && (forall i :: from <= i < |log| - 1 ==> !log[i].ok && log[i].cleanupOk)
    && (forall i :: from < i < |log| ==> !log[i].rerun)
  }

  lemma RetriesAreLaunches(log: seq<Event>, from: nat)
    requires forall i :: 0 <= i < |log| ==> KindOfAttempt(log, i)
    requires forall i :: from <= i < |log| - 1 ==> !log[i].ok && log[i].cleanupOk
    ensures Retried(log, from)
  {
    forall i | from < i < |log|
      ensures !log[i].rerun
    {
      assert KindOfAttempt(log, i);
    }
  }

  /** One call on a coherent runner: the result function is given a result produced at the very rate it
      reads, the runner stays coherent even when the call raises, and every attempt after a failure within
      the call is a full launch. */
  lemma CallCoherent(env: nat -> Attempt, s: Runner, arg: real)
    requires Coherent(s)
    ensures var (s', o) := Call(env, s, arg);
            && Coherent(s')
            && s.log <= s'.log && |s'.log| <= |s.log| + 5
            && Retried(s'.log, |s.log|)
            && (o.Reported? ==> o.read == arg == o.result.rate && s'.memo == map[arg := o.result])
            && (o.Reported? && s' != s ==> s'.log != s.log && s'.log[|s'.log| - 1].ok)
            && (o.Raised? ==> |s'.log| == |s.log| + 5 || !s'.log[|s'.log| - 1].cleanupOk)
  {
    if arg !in s.memo {
      TriesCoherent(env, s.(rate := arg), 0);
      RetriesAreLaunches(Tries(env, s.(rate := arg), 0).0.log, |s.log|);
    }
  }

  /** Over every sequence of calls. */
  lemma {:induction false} CallsCoherent(env: nat -> Attempt, s: Runner, args: seq<real>)
    requires Coherent(s)
    ensures var (s', os) := Calls(env, s, args);
            && Coherent(s') && |os| == |args| && s.log <= s'.log
            && forall i :: 0 <= i < |os| && os[i].Reported? ==> os[i].read == args[i] == os[i].result.rate
    decreases args
  {
    if args != [] {
      CallCoherent(env, s, args[0]);
      CallsCoherent(env, Call(env, s, args[0]).0, args[1..]);
    }
  }

  /** Attempt number `n`, counted from one, measured these figures. */
  predicate MeasuredBy(env: nat -> Attempt, n: nat, result: TestResult) {
    n > 0 && env(n - 1).fate == Succeeds(result.figures)
  }

  /** What is remembered was measured by the last attempt. */
  ghost predicate MemoMeasured(env: nat -> Attempt, s: Runner) {
    forall arg :: arg in s.memo ==> MeasuredBy(env, |s.log|, s.memo[arg])
  }

  lemma {:induction false} TriesMeasured(env: nat -> Attempt, s: Runner, tries: nat)
    requires tries <= 4
    ensures var (s', r) := Tries(env, s, tries); r.Some? ==> MeasuredBy(env, |s'.log|, r.value)
    decreases 4 - tries
  {
    var a := env(|s.log|);
    if !a.fate.Succeeds? && a.cleanupOk && tries < 4 {
      TriesMeasured(env, RunOnce(s, a), tries + 1);
    }
  }

  /** A call reports the figures that the last attempt measured, whether that attempt was its own or, for a
      remembered rate, that of an earlier call. */
  lemma CallMeasured(env: nat -> Attempt, s: Runner, arg: real)
    requires Coherent(s) && MemoMeasured(env, s)
    ensures var (s', o) := Call(env, s, arg);
            MemoMeasured(env, s') && (o.Reported? ==> MeasuredBy(env, |s'.log|, o.result))
  {
    if arg !in s.memo {
      TriesCoherent(env, s.(rate := arg), 0);
      TriesMeasured(env, s.(rate := arg), 0);
    }
  }

  /** Over every sequence of calls: each report has the figures of the last attempt made by then. */
  lemma {:induction false} CallsMeasured(env: nat -> Attempt, s: Runner, args: seq<real>)
    requires Coherent(s) && MemoMeasured(env, s)
    ensures var (s', os) := Calls(env, s, args);
            && MemoMeasured(env, s') && |os| == |args|
            && forall i :: 0 <= i < |os| && os[i].Reported? ==>
                 MeasuredBy(env, |Calls(env, s, args[..i + 1]).0.log|, os[i].result)
    decreases args
  {
    if args != [] {
      var (mid, o) := Call(env, s, args[0]);
      CallCoherent(env, s, args[0]);
      CallMeasured(env, s, args[0]);
      CallsMeasured(env, mid, args[1..]);
      var os := Calls(env, s, args).1;
      forall i | 0 <= i < |os| && os[i].Reported?
        ensures MeasuredBy(env, |Calls(env, s, args[..i + 1]).0.log|, os[i].result)
      {
        assert args[..i + 1][1..] == args[1..][..i];
        if i > 0 {
          assert os[i] == Calls(env, mid, args[1..]).1[i - 1];
        }
      }
    }
  }

  /** After a report, asking for the same rate again gives the same answer without an attempt, and asking for any
      other makes one. */
  lemma OnlyRepeatsAreFree(env: nat -> Attempt, s: Runner, arg: real, next: real)
    requires Coherent(s) && Call(env, s, arg).1.Reported?
    ensures var (s', o) := Call(env, s, arg);
            && (next == arg ==> Call(env, s', next) == (s', o))
            && (|Call(env, s', next).0.log| > |s'.log| <==> next != arg)
  {
    CallCoherent(env, s, arg);
    var s' := Call(env, s, arg).0;
    if next != arg {
      TriesCoherent(env, s'.(rate := next), 0);
    }
  }

  /** An update of the running apps follows nothing but a success exactly when no failed update had a
      clean-up that raised before a later attempt. */
  lemma UpdatesFollowSuccess(s: Runner)
    requires Coherent(s)
    ensures (forall i :: 0 <= i < |s.log| && s.log[i].rerun ==> i > 0 && s.log[i - 1].ok) <==>
            (forall i :: 0 <= i < |s.log| - 1 && s.log[i].rerun && !s.log[i].ok ==> s.log[i].cleanupOk)
  {
    if forall i :: 0 <= i < |s.log| && s.log[i].rerun ==> i > 0 && s.log[i - 1].ok {
      forall i | 0 <= i < |s.log| - 1 && s.log[i].rerun && !s.log[i].ok
        ensures s.log[i].cleanupOk
      {
        assert KindOfAttempt(s.log, i + 1);
        assert !s.log[i + 1].rerun;
      }
    }
    if forall i :: 0 <= i < |s.log| - 1 && s.log[i].rerun && !s.log[i].ok ==> s.log[i].cleanupOk {
      forall i | 0 <= i < |s.log| && s.log[i].rerun
        ensures i > 0 && s.log[i - 1].ok
      {
        assert KindOfAttempt(s.log, i);
      }
    }
  }

  /** The log tells the verdicts and clean-ups of the environment, attempt by attempt. */
  ghost predicate LogFits(env: nat -> Attempt, log: seq<Event>) {
    forall i :: 0 <= i < |log| ==> log[i].ok == env(i).fate.Succeeds? && log[i].cleanupOk == env(i).cleanupOk
  }

  lemma {:induction false} TriesFit(env: nat -> Attempt, s: Runner, tries: nat)
    requires tries <= 4 && LogFits(env, s.log)
    ensures LogFits(env, Tries(env, s, tries).0.log)
    decreases 4 - tries
  {
    var a := env(|s.log|);
    if !a.fate.Succeeds? && a.cleanupOk && tries < 4 {
      TriesFit(env, RunOnce(s, a), tries + 1);
    }
  }

  lemma {:induction false} CallsFit(env: nat -> Attempt, s: Runner, args: seq<real>)
    requires LogFits(env, s.log)
    ensures LogFits(env, Calls(env, s, args).0.log)
    decreases args
  {
    if args != [] {
      if args[0] !in s.memo {
        TriesFit(env, s.(rate := args[0]), 0);
      }
      CallsFit(env, Call(env, s, args[0]).0, args[1..]);
    }
  }

  /** Rates never asked for before cost at least an attempt each. */
  lemma {:induction false} FreshRates(env: nat -> Attempt, s: Runner, n: nat) returns (args: seq<real>)
    requires Coherent(s)
    ensures |Calls(env, s, args).0.log| >= |s.log| + n
    decreases n
  {
    args := [];
    if n > 0 {
      var arg := s.rate + 1.0;
      assert arg !in s.memo;
      TriesCoherent(env, s.(rate := arg), 0);
      CallCoherent(env, s, arg);
      var rest := FreshRates(env, Call(env, s, arg).0, n - 1);
      args := [arg] + rest;
      assert args[1..] == rest;
    }
  }

  /** Every update of the running apps directly follows a success. */
  ghost predicate UpdatesDirect(log: seq<Event>) {
    forall i :: 0 <= i < |log| && log[i].rerun ==> i > 0 && log[i - 1].ok
  }

  /** No clean-up raises after a failure that comes directly after a success: then it is an update that failed. */
  ghost predicate CleansUpUpdates(env: nat -> Attempt) {
    forall i: nat :: env(i).fate.Succeeds? && !env(i + 1).fate.Succeeds? ==> env(i + 1).cleanupOk
  }

  lemma {:induction false} DirectSoFar(env: nat -> Attempt, log: seq<Event>, i: nat)
    requires CleansUpUpdates(env) && LogFits(env, log) && forall k :: 0 <= k < |log| ==> KindOfAttempt(log, k)
    requires i < |log| && log[i].rerun
    ensures i > 0 && log[i - 1].ok
  {
    assert KindOfAttempt(log, i);
    if !log[i - 1].ok {
      DirectSoFar(env, log, i - 1);
      assert false;
    }
  }

  /** Whatever rates are asked for, every update directly follows a success, exactly if the environment lets no
      clean-up after a failed update raise. */
  lemma UpdatesDirectExactly(env: nat -> Attempt, rate: real)
    ensures (forall args :: UpdatesDirect(Calls(env, Initial(rate, true), args).0.log)) <==> CleansUpUpdates(env)
  {
    var s := Initial(rate, true);
    forall args
      ensures LogFits(env, Calls(env, s, args).0.log) && Coherent(Calls(env, s, args).0)
    {
      CallsFit(env, s, args);
      CallsCoherent(env, s, args);
    }
    if CleansUpUpdates(env) {
      forall args
        ensures UpdatesDirect(Calls(env, s, args).0.log)
      {
        DirectEverywhere(env, Calls(env, s, args).0.log);
      }
    } else {
      var i: nat :| env(i).fate.Succeeds? && !env(i + 1).fate.Succeeds? && !env(i + 1).cleanupOk;
      var args := FreshRates(env, s, i + 3);
      UpdateRepeats(Calls(env, s, args).0.log, i);
    }
  }

  lemma DirectEverywhere(env: nat -> Attempt, log: seq<Event>)
    requires CleansUpUpdates(env) && LogFits(env, log) && forall k :: 0 <= k < |log| ==> KindOfAttempt(log, k)
    ensures UpdatesDirect(log)
  {
    forall i | 0 <= i < |log| && log[i].rerun
      ensures i > 0 && log[i - 1].ok
    {
      DirectSoFar(env, log, i);
    }
  }

  lemma UpdateRepeats(log: seq<Event>, i: nat)
    requires i + 2 < |log| && forall k :: 0 <= k < |log| ==> KindOfAttempt(log, k)
    requires log[i].ok && !log[i + 1].ok && !log[i + 1].cleanupOk
    ensures !UpdatesDirect(log)
  {
    assert KindOfAttempt(log, i + 1) && KindOfAttempt(log, i + 2);
    assert log[i + 2].rerun;
  }

  /** That case is reachable: a success, a failed update whose clean-up raises, and the next call updates
      apps that may be half deleted. */
  lemma UpdateAfterFailureReachable()
    ensures exists env: nat -> Attempt, args ::
              var log := Calls(env, Initial(0.0, true), args).0.log;
              |log| == 3 && log[2].rerun && !log[1].ok
  {
    var env := (i: nat) => if i == 1 then Attempt(TestFails, false) else Attempt(Succeeds([]), true);
    var s0 := Initial(0.0, true);
    var s1 := Call(env, s0, 1.0).0;
    var s2 := Call(env, s1, 2.0).0;
    var s3 := Call(env, s2, 3.0).0;
    assert s1.log == [Event(false, true, true)];
    assert s2.log == s1.log + [Event(true, false, false)];
    assert s3.log == s2.log + [Event(true, true, true)];
    assert Calls(env, s2, [3.0]).0 == s3 by { assert [3.0][1..] == []; }
    assert Calls(env, s1, [2.0, 3.0]).0 == s3 by { assert [2.0, 3.0][1..] == [3.0]; }
    assert Calls(env, s0, [1.0, 2.0, 3.0]).0 == s3 by { assert [1.0, 2.0, 3.0][1..] == [2.0, 3.0]; }
  }

  /** The reset in the subclass is what keeps results current: without it the third of these calls reads
      rate 2 from the options and is given a result produced at rate 1. */
  lemma ResetIsNeeded()
    ensures exists env: nat -> Attempt, args ::
              var os := Calls(env, Initial(0.0, false), args).1;
              |os| == 3 && os[2].Reported? && os[2].read == 2.0 && os[2].result.rate == 1.0
  {
    var env := (i: nat) => Attempt(Succeeds([]), true);
    var s0 := Initial(0.0, false);
    var s1 := Call(env, s0, 1.0).0;
    var s2 := Call(env, s1, 2.0).0;
    assert s1.memo == map[1.0 := TestResult(1.0, [])];
    assert s2.memo == map[1.0 := TestResult(1.0, []), 2.0 := TestResult(2.0, [])];
    var o1, o2, o3 := Call(env, s0, 1.0).1, Call(env, s1, 2.0).1, Call(env, s2, 1.0).1;
    assert Calls(env, s2, [1.0]).1 == [o3] by { assert [1.0][1..] == []; }
    assert Calls(env, s1, [2.0, 1.0]).1 == [o2, o3] by { assert [2.0, 1.0][1..] == [1.0]; }
    assert Calls(env, s0, [1.0, 2.0, 1.0]).1 == [o1, o2, o3] by { assert [1.0, 2.0, 1.0][1..] == [2.0, 1.0]; }
  }

  class BoundaryRunnerBase {
    var rate: real
    var firstRun: bool
    var memo: map<real, TestResult>
    var attempts: nat
    const env: nat -> Attempt
    ghost var log: seq<Event>

    ghost predicate Valid() reads this { attempts == |log| }

    ghost function View(): Runner reads this { Runner(rate, firstRun, memo, log, true) }

    constructor (rate: real, env: nat -> Attempt)
      ensures Valid() && View() == Initial(rate, true) && this.env == env
    {
      this.rate := rate;
      this.env := env;
      firstRun := true;
      memo := map[];
      attempts := 0;
      log := [];
    }

    /** `rerun_test`: it starts by emptying the memo, whatever happens afterwards. */
    method RerunTest() returns (r: Option<TestResult>)
      modifies this`memo
      ensures memo == map[]
      ensures r == if env(attempts).fate.Succeeds? then Some(TestResult(rate, env(attempts).fate.figures)) else None
    {
      memo := map[];
      match env(attempts).fate
      case Succeeds(figures) => r := Some(TestResult(rate, figures));
      case _ => r := None;
    }

    /** `run_test`: launch the apps, then `rerun_test`. */
    method RunTest() returns (r: Option<TestResult>)
      modifies this`memo
      ensures memo == if env(attempts).fate.LaunchFails? then old(memo) else map[]
      ensures r == if env(attempts).fate.Succeeds? then Some(TestResult(rate, env(attempts).fate.figures)) else None
    {
      if env(attempts).fate.LaunchFails? {
        return None;
      }
      r := RerunTest();
    }

    method BoundaryRun(arg: real) returns (o: Outcome)
      requires Valid()
      modifies this
      ensures Valid()
      ensures (View(), o) == Call(env, old(View()), arg)
    {
      if arg in memo {
        return Reported(rate, memo[arg]);
      }
      rate := arg;
      ghost var start := View();
      var tryCnt := 0;
      var res: Option<TestResult> := None;
      while true
        invariant Valid() && tryCnt <= 4
        invariant Tries(env, start, 0) == Tries(env, View(), tryCnt)
        invariant rate == arg
        decreases 4 - tryCnt
      {
        var attempt := env(attempts);
        ghost var event := Event(!firstRun, attempt.fate.Succeeds?, attempt.cleanupOk);
        if firstRun {
          res := RunTest();
          if res.Some? {
            firstRun := false;
          }
        } else {
          rate := arg;
          res := RerunTest();
        }
        attempts, log := attempts + 1, log + [event];
        if res.Some? {
          break;
        }
        if !attempt.cleanupOk {
          return Raised;
        }
        firstRun := true;
        if tryCnt + 1 > 4 {
          return Raised;
        }
        tryCnt := tryCnt + 1;
      }
      memo := memo[arg := res.value];
      o := Reported(rate, res.value);
    }
  }
}
