/** The batched ramp-up and drain: the targets the loops ask a cluster for, in full. */
module Ramp {
  import opened Powers

  /** `s` moves by at most `step` from each target to the next. */
  ghost predicate Steps(s: seq<int>, step: int) {
    forall i, j :: 0 <= i < |s| && j == i + 1 && j < |s| ==> -step <= s[j] - s[i] <= step
  }

  ghost predicate Ascending(s: seq<int>) {
    forall i, j :: 0 <= i < j < |s| ==> s[i] < s[j]
  }

  function Last(s: seq<int>): int
    requires s != []
  {
    s[|s| - 1]
  }

  // ----- ramp-up -----

  /** The targets of a ramp that asks for `launched` instances next. */
  function Ladder(launched: int, goal: int, batch: nat): seq<int>
    requires batch > 0 && launched <= goal
    decreases goal - launched
  {
    [launched] + if goal - launched < batch then [goal] else Ladder(launched + batch, goal, batch)
  }

  /** The ramp ends at the goal, in steps of at most a batch, and never asks for more than the goal. */
  lemma {:induction false} LadderShape(launched: int, goal: int, batch: nat)
    requires batch > 0 && launched <= goal
    ensures var l := Ladder(launched, goal, batch);
            && |l| > 1 && l[0] == launched && Last(l) == goal
            && Steps(l, batch)
            && forall i :: 0 <= i < |l| ==> launched <= l[i] <= goal
    decreases goal - launched
  {
    if goal - launched >= batch {
      LadderShape(launched + batch, goal, batch);
      StepsCons(launched, Ladder(launched + batch, goal, batch), batch);
    } else {
      StepsCons(launched, [goal], batch);
    }
  }

  lemma StepsCons(x: int, s: seq<int>, step: int)
    requires s != [] && Steps(s, step) && -step <= s[0] - x <= step
    ensures Steps([x] + s, step)
  {
  }

  lemma {:induction false} LadderLength(launched: int, goal: int, batch: nat)
    requires batch > 0 && launched <= goal
    ensures |Ladder(launched, goal, batch)| == (goal - launched) / batch + 2
    decreases goal - launched
  {
    if goal - launched >= batch {
      LadderLength(launched + batch, goal, batch);
      DivideStep(goal - launched, batch);
    } else {
      DivideSmall(goal - launched, batch);
    }
  }

  /** All targets but the last are whole batches above the first. */
  lemma {:induction false} LadderRungs(launched: int, goal: int, batch: nat, i: nat)
    requires batch > 0 && launched <= goal && i + 1 < |Ladder(launched, goal, batch)|
    ensures Ladder(launched, goal, batch)[i] == launched + i * batch
    decreases goal - launched
  {
    if i > 0 {
      LadderRungs(launched + batch, goal, batch, i - 1);
      assert i * batch == (i - 1) * batch + batch;
    }
  }

  predicate Whole(n: int, batch: nat)
    requires batch > 0
  {
    n % batch == 0
  }

  lemma WholeStep(n: int, batch: nat)
    requires batch > 0 && n >= 0
    ensures Whole(n, batch) <==> if n < batch then n == 0 else Whole(n - batch, batch)
  {
    if n >= batch {
      DivideStep(n, batch);
    } else {
      DivideSmall(n, batch);
    }
  }

  /** The targets without the last one: what a ramp asks for before its final request. */
  function Climb(launched: int, goal: int, batch: nat): seq<int>
    requires batch > 0 && launched <= goal
    decreases goal - launched
  {
    [launched] + if goal - launched < batch then [] else Climb(launched + batch, goal, batch)
  }

  /** All targets but the last ascend strictly, and the last of them is the goal already exactly when the goal is
      a whole number of batches away. */
  lemma {:induction false} ClimbAscends(launched: int, goal: int, batch: nat)
    requires batch > 0 && launched <= goal
    ensures var c := Climb(launched, goal, batch);
            && Ladder(launched, goal, batch) == c + [goal]
            && c != [] && c[0] == launched && Ascending(c)
            && (forall i :: 0 <= i < |c| ==> launched <= c[i] <= Last(c) <= goal)
            && (Last(c) == goal <==> Whole(goal - launched, batch))
    decreases goal - launched
  {
    WholeStep(goal - launched, batch);
    if goal - launched >= batch {
      ClimbAscends(launched + batch, goal, batch);
      AscendingTail(launched, Climb(launched + batch, goal, batch));
    }
  }

  lemma AscendingTail(x: int, s: seq<int>)
    requires s != [] && x < s[0] && forall i :: 0 <= i < |s| ==> s[0] <= s[i]
    ensures Ascending([x] + s) <==> Ascending(s)
  {
    if Ascending([x] + s) {
      forall i, j | 0 <= i < j < |s|
        ensures s[i] < s[j]
      {
        assert ([x] + s)[i + 1] == s[i] && ([x] + s)[j + 1] == s[j];
      }
    }
  }

  lemma DivideStep(n: int, batch: nat)
    requires batch > 0 && n >= batch
    ensures n % batch == (n - batch) % batch && n / batch == (n - batch) / batch + 1
  {
    Divide(n, batch, (n - batch) / batch + 1, (n - batch) % batch);
  }

  lemma DivideSmall(n: int, batch: nat)
    requires 0 <= n < batch
    ensures n % batch == n && n / batch == 0
  {
    Divide(n, batch, 0, n);
  }

  // ----- drain -----

  /** The targets of a drain from `count` instances. */
  function Drain(count: int, batch: nat): seq<int>
    requires batch > 0 && count >= 0
    decreases count
  {
    if count < batch then [1] else [count - batch] + Drain(count - batch, batch)
  }

  /** The drain never asks for a negative count, moves by at most a batch, and ends at one; it goes by way of
      zero exactly when the count is a whole number of batches, and otherwise never goes below one. */
  lemma {:induction false} DrainShape(count: int, batch: nat)
    requires batch > 0 && count >= 0
    ensures var d := Drain(count, batch);
            && |d| > 0 && Last(d) == 1
            && Steps([count] + d, batch)
            && (forall i :: 0 <= i < |d| ==> 0 <= d[i] && (i < |d| - 1 ==> d[i] < count))
            && (0 in d <==> count >= batch && Whole(count, batch))
    decreases count
  {
    var d := Drain(count, batch);
    WholeStep(count, batch);
    if count >= batch {
      WholeStep(count - batch, batch);
      DrainShape(count - batch, batch);
      var rest := Drain(count - batch, batch);
      assert d == [count - batch] + rest;
      StepsCons(count, d, batch);
      assert 0 in d <==> count == batch || 0 in rest;
    }
  }

  /** A drain takes whole batches as long as it can. */
  lemma {:induction false} DrainLength(count: int, batch: nat)
    requires batch > 0 && count >= 0
    ensures |Drain(count, batch)| == count / batch + 1
    decreases count
  {
    if count >= batch {
      DrainLength(count - batch, batch);
      DivideStep(count, batch);
    } else {
      DivideSmall(count, batch);
    }
  }

  /** All targets but the last are whole batches below the count. */
  lemma {:induction false} DrainRungs(count: int, batch: nat, i: nat)
    requires batch > 0 && count >= 0 && i + 1 < |Drain(count, batch)|
    ensures Drain(count, batch)[i] == count - (i + 1) * batch
    decreases count
  {
    if i > 0 {
      DrainRungs(count - batch, batch, i - 1);
      assert (i + 1) * batch == i * batch + batch;
    } else {
      assert (i + 1) * batch == batch;
    }
  }

  // ----- what is asked for, given what is observed -----

  function Observed(seen: nat -> int, from: nat, i: nat): int { seen(from + i) }

  /** The loop observes the task count before each request and stops as soon as it sees `goal`, so it makes the
      first `j` of the planned requests. */
  ghost predicate Issued(plan: seq<int>, goal: int, seen: nat -> int, from: nat, j: nat) {
    && j <= |plan|
    && (forall i :: 0 <= i < j ==> Observed(seen, from, i) != goal)
    && (j < |plan| ==> Observed(seen, from, j) == goal)
  }

  /** Between the requests the cluster shows what was last asked for. */
  ghost predicate Honest(plan: seq<int>, start: int, seen: nat -> int, from: nat) {
    && Observed(seen, from, 0) == start
    && forall i, k :: 0 <= i < |plan| && k == i + 1 ==> Observed(seen, from, k) == plan[i]
  }

  /** An honest cluster is left at the first planned target that is the goal. */
  lemma HonestIssued(plan: seq<int>, goal: int, start: int, seen: nat -> int, from: nat, j: nat)
    requires Honest(plan, start, seen, from) && Issued(plan, goal, seen, from, j)
    requires plan != [] && Last(plan) == goal && start != goal
    ensures j > 0 && plan[j - 1] == goal == Observed(seen, from, j)
    ensures forall i :: 0 <= i < j - 1 ==> plan[i] != goal
  {
    assert Observed(seen, from, 0) == start;
    assert Observed(seen, from, j) == plan[j - 1];
    forall i | 0 <= i < j - 1
      ensures plan[i] != goal
    {
      assert Observed(seen, from, i + 1) == plan[i];
    }
  }

  /** On an honest cluster below its goal a ramp asks for strictly ascending targets in steps of at most a batch,
      the last of them the goal, and sees it reached. */
  lemma HonestRamp(threshold: int, goal: int, batch: nat, start: int, seen: nat -> int, from: nat, j: nat)
    requires batch > 0 && threshold < goal && start != goal
    requires Honest(Ladder(threshold, goal, batch), start, seen, from)
    requires Issued(Ladder(threshold, goal, batch), goal, seen, from, j)
    ensures var issued := Ladder(threshold, goal, batch)[..j];
            && issued != [] && issued[0] == threshold && Last(issued) == goal
            && Ascending(issued) && Steps(issued, batch)
            && Observed(seen, from, j) == goal
  {
    var plan, c := Ladder(threshold, goal, batch), Climb(threshold, goal, batch);
    LadderShape(threshold, goal, batch);
    ClimbAscends(threshold, goal, batch);
    HonestIssued(plan, goal, start, seen, from, j);
    assert c == plan[..|plan| - 1];
    StepsPrefix(plan, batch, j);
    if j == |plan| {
      assert plan[|plan| - 2] == Last(c);
    }
  }

  /** Whatever is observed, the targets issued ascend strictly unless the goal is a whole number of batches away
      and not seen before any request: then the last of them repeats the one before. */
  lemma IssuedAscends(threshold: int, goal: int, batch: nat, seen: nat -> int, from: nat, j: nat)
    requires batch > 0 && threshold < goal
    requires Issued(Ladder(threshold, goal, batch), goal, seen, from, j)
    ensures var plan := Ladder(threshold, goal, batch);
            Ascending(plan[..j]) <==>
            !(Whole(goal - threshold, batch) && forall i :: 0 <= i < |plan| ==> Observed(seen, from, i) != goal)
  {
    var plan, c := Ladder(threshold, goal, batch), Climb(threshold, goal, batch);
    ClimbAscends(threshold, goal, batch);
    if j == |plan| {
      assert plan[..j] == c + [goal];
      AscendingSnoc(c, goal);
    } else {
      assert plan[..j] == c[..j];
    }
  }

  lemma AscendingSnoc(s: seq<int>, x: int)
    requires s != [] && Ascending(s)
    ensures Ascending(s + [x]) <==> Last(s) < x
  {
    if Ascending(s + [x]) {
      assert (s + [x])[|s| - 1] < (s + [x])[|s|];
    }
  }

  /** One task lost at the wrong moment is enough: on a cluster that is honest but for the observation after the
      goal was first reached, a goal a whole number of batches away is asked for twice. */
  lemma DriftRepeats(threshold: int, goal: int, batch: nat, start: int) returns (seen: nat -> int)
    requires batch > 0 && threshold < goal && start != goal && Whole(goal - threshold, batch)
    ensures var plan := Ladder(threshold, goal, batch);
            && |plan| > 1 && Issued(plan, goal, seen, 0, |plan|)
            && plan[|plan| - 2] == plan[|plan| - 1] == goal
            && Observed(seen, 0, 0) == start && Observed(seen, 0, |plan| - 1) == goal - 1
            && forall i, k :: 0 <= i < |plan| && k == i + 1 && k != |plan| - 1 ==> Observed(seen, 0, k) == plan[i]
  {
    var plan, c := Ladder(threshold, goal, batch), Climb(threshold, goal, batch);
    ClimbAscends(threshold, goal, batch);
    assert |plan| == |c| + 1 && plan[|c| - 1] == Last(c);
    assert |c| > 1;
    seen := (i: nat) => if i == 0 then start else if i == |c| then goal - 1 else if i <= |plan| then plan[i - 1] else goal;
    forall i | 0 <= i < |plan|
      ensures Observed(seen, 0, i) != goal
    {
      if 0 < i < |c| {
        assert plan[i - 1] == c[i - 1] < Last(c);
      }
    }
  }

  /** Whatever is observed, the targets issued ascend strictly, exactly if the goal is no whole number of batches
      away from the threshold. */
  lemma AscendsExactly(threshold: int, goal: int, batch: nat)
    requires batch > 0 && threshold < goal
    ensures (forall seen, from, j: nat | Issued(Ladder(threshold, goal, batch), goal, seen, from, j) ::
               Ascending(Ladder(threshold, goal, batch)[..j])) <==>
            !Whole(goal - threshold, batch)
  {
    if Whole(goal - threshold, batch) {
      var seen := DriftRepeats(threshold, goal, batch, goal - 1);
      var plan := Ladder(threshold, goal, batch);
      IssuedAscends(threshold, goal, batch, seen, 0, |plan|);
      assert Issued(plan, goal, seen, 0, |plan|);
    } else {
      forall seen, from, j: nat | Issued(Ladder(threshold, goal, batch), goal, seen, from, j)
        ensures Ascending(Ladder(threshold, goal, batch)[..j])
      {
        IssuedAscends(threshold, goal, batch, seen, from, j);
      }
    }
  }

  lemma StepsPrefix(s: seq<int>, step: int, j: nat)
    requires Steps(s, step) && j <= |s|
    ensures Steps(s[..j], step)
  {
  }

  /** On an honest cluster a drain sees exactly one instance in the end, by way of none exactly when the count was
      a whole number of batches of more than one. */
  lemma HonestDrain(count: int, batch: nat, seen: nat -> int, from: nat, j: nat)
    requires batch > 0 && count > 1
    requires Honest(Drain(count, batch), count, seen, from)
    requires Issued(Drain(count, batch), 1, seen, from, j)
    ensures var issued := Drain(count, batch)[..j];
            && issued != [] && Last(issued) == 1 && Steps([count] + issued, batch)
            && (forall i :: 0 <= i < |issued| ==> 0 <= issued[i])
            && (0 in issued <==> batch > 1 && count >= batch && Whole(count, batch))
            && Observed(seen, from, j) == 1
  {
    var plan := Drain(count, batch);
    DrainShape(count, batch);
    HonestIssued(plan, 1, count, seen, from, j);
    assert ([count] + plan)[..j + 1] == [count] + plan[..j];
    StepsPrefix([count] + plan, batch, j + 1);
    if batch == 1 {
      UnitDrain(count);
      assert plan[count - 2] == 1;
    } else if 0 in plan {
      ZeroComesBeforeOne(count, batch);
    }
  }

  lemma {:induction false} UnitDrain(count: int)
    requires count >= 0
    ensures var d := Drain(count, 1); |d| == count + 1 && forall i :: 0 <= i < count ==> d[i] == count - 1 - i
    decreases count
  {
    if count >= 1 {
      UnitDrain(count - 1);
    }
  }

  /** Only the last target is one when a drain in batches of more than one goes by way of zero. */
  lemma {:induction false} ZeroComesBeforeOne(count: int, batch: nat)
    requires batch > 1 && count >= 0 && 0 in Drain(count, batch)
    ensures var d := Drain(count, batch); forall i :: 0 <= i < |d| - 1 ==> d[i] != 1
    decreases count
  {
    if count >= batch {
      var rest := Drain(count - batch, batch);
      DrainShape(count - batch, batch);
      if 0 in rest {
        ZeroComesBeforeOne(count - batch, batch);
        DrainShape(count, batch);
        WholeStep(count - batch, batch);
      }
    }
  }
}
