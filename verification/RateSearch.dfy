/** `Scanner.search`: doubling until a run fails, then bisection over a bracket that is never stored. */
module RateSearch {
  import opened Powers

  /** What one call of the run function reports. */
  datatype Answer = Answer(status: bool, rate: real, res: real)

  /** The loop variables of `search` before a probe. */
  datatype State = State(value: real, lastIncrease: real, toggled: bool, climbs: nat, bestRes: real, bestRate: real)

  /** The comparison behind the best result: the result against the expected and against the best one. */
  predicate Nearer(expected: real, bestRes: real, res: real) {
    Abs(expected - res) < Abs(bestRes - res)
  }

  /** One search. The run function sees the probe number as well as the rate, so it may answer the
      same rate differently each time: every run of a non-deterministic system is one such function. */
  datatype Search = Search(run: (nat, real) -> Answer, start: real, expected: real) {

    function Increment(s: State, a: Answer): real {
      if a.res > expected then -Abs(s.lastIncrease / 2.0)
      else if s.toggled then Abs(s.lastIncrease / 2.0)
      else s.value
    }

    predicate Improves(s: State, a: Answer) {
      || s.bestRes == -1.0
      || Nearer(expected, s.bestRes, a.res)
      || (a.res == s.bestRes && a.rate > s.bestRate)
    }

    function Next(s: State, a: Answer): State {
      var inc := Increment(s, a);
      var toggled := s.toggled || a.res > expected;
      State(s.value + inc, inc, toggled, if toggled then s.climbs else s.climbs + 1,
            if Improves(s, a) then a.res else s.bestRes,
            if Improves(s, a) then a.rate else s.bestRate)
    }

    /** The state before probe `n`, as if no probe had ended the search. */
    function At(n: nat): State {
      if n == 0 then State(start, start, false, 0, -1.0, 0.0)
      else Next(At(n - 1), run(n - 1, At(n - 1).value))
    }

    function Probe(n: nat): Answer { run(n, At(n).value) }

    predicate Passed(n: nat) { Probe(n).res <= expected }

    /** The search ends at probe `n`: the run broke, or the previous increase was already small enough. */
    predicate Stops(error: real, n: nat) {
      !Probe(n).status || Fraction(Abs(At(n).lastIncrease), At(n).value, error)
    }

    ghost predicate Halts(error: real) { exists n: nat :: Stops(error, n) }

    predicate NoStopUpTo(error: real, n: nat) { forall i :: 0 <= i < n ==> !Stops(error, i) }

    predicate FirstStop(error: real, n: nat) { Stops(error, n) && NoStopUpTo(error, n) }

    /** The two ends of the bracket that `value` and `last_increase` hide. */
    function Low(n: nat): real { At(n).value - Abs(At(n).lastIncrease) }
    function High(n: nat): real { At(n).value + Abs(At(n).lastIncrease) }

    ghost predicate ProbedFailing(rate: real, n: nat) {
      exists i :: 0 <= i < n && !Passed(i) && At(i).value == rate
    }

    ghost predicate ProbedPassing(rate: real, n: nat) {
      exists i :: 0 <= i < n && Passed(i) && At(i).value == rate
    }

    ghost predicate AllPassed(n: nat) { forall i :: 0 <= i < n ==> Passed(i) }
    ghost predicate AllFailed(n: nat) { forall i :: 0 <= i < n ==> !Passed(i) }

    /** The answers along the two ladders of rates: conditions on the run function alone. */
    predicate ClimbPasses(i: nat) { run(i, Doubled(start, i)).res <= expected }
    predicate DescentPasses(i: nat) { run(i, Halved(start, i)).res <= expected }

    /** The doubling ladder first fails at rung `k`. */
    predicate TurnsDown(k: nat) {
      !ClimbPasses(k) && forall i :: 0 <= i < k ==> ClimbPasses(i)
    }

    /** The halving ladder first passes at rung `k`. */
    predicate TurnsUp(k: nat) {
      DescentPasses(k) && forall i :: 0 <= i < k ==> !DescentPasses(i)
    }

    /** A system that carries every rate below `threshold` with the same result and no other, and reports
        the rate it was asked for. */
    ghost predicate StepResponse(threshold: real, pass: real) {
      && 0.0 <= pass <= expected
      && forall n: nat, v: real :: var a := run(n, v);
           a.status && a.rate == v && if v < threshold then a.res == pass else a.res > expected
    }

    predicate Turns(k: nat) { k > 0 && (TurnsDown(k) || TurnsUp(k)) }
  }

  // ----- before the first change of verdict: the two ladders -----

  lemma {:induction false} ClimbingLadder(s: Search, n: nat)
    requires forall i :: 0 <= i < n ==> s.ClimbPasses(i)
    ensures s.AllPassed(n)
    ensures s.At(n).value == Doubled(s.start, n) && !s.At(n).toggled && s.At(n).climbs == n
    ensures s.At(n).lastIncrease == if n == 0 then s.start else s.At(n).value / 2.0
  {
    if n > 0 {
      ClimbingLadder(s, n - 1);
      assert s.ClimbPasses(n - 1);
    }
  }

  lemma {:induction false} DescendingLadder(s: Search, n: nat)
    requires s.start > 0.0
    requires forall i :: 0 <= i < n ==> !s.DescentPasses(i)
    ensures s.AllFailed(n)
    ensures s.At(n).value == Halved(s.start, n) > 0.0 && s.At(n).climbs == 0
    ensures s.At(n).toggled == (n > 0)
    ensures Abs(s.At(n).lastIncrease) == s.At(n).value
  {
    if n > 0 {
      DescendingLadder(s, n - 1);
      assert !s.DescentPasses(n - 1);
    }
  }

  lemma {:induction false} AllPassedClimbs(s: Search, n: nat)
    requires s.AllPassed(n)
    ensures forall i :: 0 <= i < n ==> s.ClimbPasses(i)
  {
    if n > 0 {
      AllPassedClimbs(s, n - 1);
      ClimbingLadder(s, n - 1);
      assert s.Passed(n - 1);
    }
  }

  lemma {:induction false} AllFailedDescends(s: Search, n: nat)
    requires s.start > 0.0 && s.AllFailed(n)
    ensures forall i :: 0 <= i < n ==> !s.DescentPasses(i)
  {
    if n > 0 {
      AllFailedDescends(s, n - 1);
      DescendingLadder(s, n - 1);
      assert !s.Passed(n - 1);
    }
  }

  lemma {:induction false} ToggledByFailure(s: Search, n: nat)
    ensures s.At(n).toggled <==> !s.AllPassed(n)
  {
    if n > 0 {
      ToggledByFailure(s, n - 1);
      assert s.AllPassed(n) <==> s.AllPassed(n - 1) && s.Passed(n - 1);
    }
  }

  // ----- after it: the bracket -----

  /** Once a run has failed, `value + |last_increase|` is a rate that was probed and failed, and
      `value - |last_increase|` is zero or a rate that was probed and passed. */
  lemma {:induction false} HiddenBracket(s: Search, n: nat)
    requires s.start > 0.0 && s.At(n).toggled
    ensures 0.0 <= s.Low(n) < s.At(n).value < s.High(n)
    ensures s.ProbedFailing(s.High(n), n)
    ensures s.Low(n) == 0.0 || s.ProbedPassing(s.Low(n), n)
  {
    var m := n - 1;
    var v := s.At(m).value;
    if s.At(m).toggled {
      HiddenBracket(s, m);
      if s.Passed(m) {
        assert s.High(n) == s.High(m);
        assert s.Low(n) == v;
      } else {
        assert s.High(n) == v;
        assert s.Low(n) == s.Low(m);
      }
    } else {
      FirstFailure(s, m);
    }
  }

  /** The step that first fails: it brackets between the last rung that passed and this one. */
  lemma FirstFailure(s: Search, n: nat)
    requires s.start > 0.0 && !s.At(n).toggled && !s.Passed(n)
    ensures 0.0 <= s.Low(n + 1) < s.At(n + 1).value < s.High(n + 1)
    ensures s.High(n + 1) == s.At(n).value
    ensures s.Low(n + 1) == if n == 0 then 0.0 else s.At(n - 1).value
    ensures n > 0 ==> s.Passed(n - 1)
  {
    ToggledByFailure(s, n);
    AllPassedClimbs(s, n);
    ClimbingLadder(s, n);
    if n > 0 {
      ClimbingLadder(s, n - 1);
      assert s.Passed(n - 1);
    }
    DoubledPositive(s.start, n);
  }

  /** Over any stretch of a run after the first failure the brackets are nested, and the width halves
      with every probe. */
  lemma {:induction false} BracketsNest(s: Search, m: nat, n: nat)
    requires s.At(m).toggled && m <= n
    ensures s.At(n).toggled
    ensures s.Low(m) <= s.Low(n) <= s.High(n) <= s.High(m)
    ensures s.High(n) - s.Low(n) == Halved(s.High(m) - s.Low(m), n - m)
  {
    if m < n {
      BracketsNest(s, m, n - 1);
    }
  }

  // ----- how many probes -----

  /** No probe up to and including the one that changes verdict is precise enough to stop at. */
  lemma NoStopOnLadder(s: Search, error: real, n: nat)
    requires s.start > 0.0 && 0.0 < error <= 0.5
    requires s.AllPassed(n) || s.AllFailed(n)
    requires s.Probe(n).status
    ensures !s.Stops(error, n)
  {
    DoubledPositive(s.start, n);
    if s.AllPassed(n) {
      AllPassedClimbs(s, n);
      ClimbingLadder(s, n);
    } else {
      AllFailedDescends(s, n);
      DescendingLadder(s, n);
    }
    HalfTooMuch(s.At(n).value, error);
  }

  /** A search that ends without a broken run has seen both verdicts, and its bracket has a passing lower end. */
  lemma NormalEndHasPassed(s: Search, error: real, n: nat)
    requires s.start > 0.0 && 0.0 < error <= 0.5
    requires s.Stops(error, n) && s.Probe(n).status
    ensures s.At(n).toggled && s.ProbedFailing(s.High(n), n) && s.ProbedPassing(s.Low(n), n)
  {
    if s.AllPassed(n) || s.AllFailed(n) {
      NoStopOnLadder(s, error, n);
    }
    ToggledByFailure(s, n);
    HiddenBracket(s, n);
    var k := FindTurn(s, n);
    BracketAfter(s, k, n);
  }

  /** The half width of the bracket when the verdict first changes, at probe `k`. */
  lemma FirstBracket(s: Search, k: nat)
    requires s.start > 0.0 && s.Turns(k)
    ensures s.At(k + 1).toggled && s.At(k + 1).climbs == if s.TurnsDown(k) then k else 0
    ensures Abs(s.At(k).lastIncrease) > 0.0
    ensures s.Low(k + 1) == Abs(s.At(k).lastIncrease) && s.High(k + 1) == 2.0 * Abs(s.At(k).lastIncrease)
    ensures if s.TurnsDown(k) then s.AllPassed(k) && !s.Passed(k) else s.AllFailed(k) && s.Passed(k)
  {
    if s.TurnsDown(k) {
      ClimbingLadder(s, k);
      assert !s.ClimbPasses(k);
      DoubledPositive(s.start, k);
    } else {
      DescendingLadder(s, k);
      assert s.DescentPasses(k);
    }
  }

  lemma BracketAfter(s: Search, k: nat, n: nat)
    requires s.start > 0.0 && s.Turns(k) && k < n
    ensures var l := Abs(s.At(k).lastIncrease);
            && l > 0.0
            && l <= s.Low(n) < s.At(n).value < s.High(n) <= 2.0 * l
            && Abs(s.At(n).lastIncrease) == Halved(l, n - k)
            && s.At(n).toggled
  {
    var l := Abs(s.At(k).lastIncrease);
    FirstBracket(s, k);
    BracketsNest(s, k + 1, n);
    HiddenBracket(s, n);
    HalvedScales(2.0, Halved(l, 1), n - k - 1);
    HalvedSplits(l, 1, n - k - 1);
  }

  lemma StopsWithin(s: Search, error: real, k: nat, m: nat)
    requires s.start > 0.0 && error > 0.0 && s.Turns(k)
    requires m > 0 && Halved(1.0, m) <= error
    ensures s.Stops(error, k + m)
  {
    HalvedShrinks(1.0, m, m);
    BracketAfter(s, k, k + m);
    HalvedEnough(Abs(s.At(k).lastIncrease), m, s.At(k + m).value, error);
  }

  lemma NoStopBefore(s: Search, error: real, k: nat, n: nat)
    requires s.start > 0.0 && error > 0.0 && s.Turns(k) && k < n
    requires error <= Halved(1.0, n - k + 1)
    requires s.Probe(n).status
    ensures !s.Stops(error, n)
  {
    BracketAfter(s, k, n);
    HalvedTooFew(Abs(s.At(k).lastIncrease), n - k, s.At(n).value, error);
  }

  /** The cost of a search, to within one probe, for any run function: `k` rungs to the first change of
      verdict, then as many bisections as halvings needed to reach the error. */
  lemma SearchCost(s: Search, error: real, k: nat, m: nat, n: nat)
    requires s.start > 0.0 && 0.0 < error <= 0.5 && s.Turns(k)
    requires Halved(1.0, m) <= error
    requires forall i: nat :: s.Probe(i).status
    requires s.FirstStop(error, n)
    ensures k < n <= k + m
    ensures m > 0 && Halved(1.0, m - 1) > error ==> k + m - 1 <= n
    ensures s.At(n).climbs == if s.TurnsDown(k) then k else 0
  {
    StopsWithin(s, error, k, m);
    FirstBracket(s, k);
    if n <= k {
      NoStopOnLadder(s, error, n);
    } else {
      ClimbsFixed(s, k + 1, n);
      if m > 0 && Halved(1.0, m - 1) > error && n < k + m - 1 {
        HalvedShrinks(1.0, n - k + 1, m - 1);
        NoStopBefore(s, error, k, n);
      }
    }
  }

  lemma {:induction false} ClimbsFixed(s: Search, m: nat, n: nat)
    requires m <= n && s.At(m).toggled
    ensures s.At(n).toggled && s.At(n).climbs == s.At(m).climbs
  {
    if m < n {
      ClimbsFixed(s, m, n - 1);
    }
  }

  lemma {:induction false} FindTurn(s: Search, n: nat) returns (k: nat)
    requires s.start > 0.0 && !s.AllPassed(n) && !s.AllFailed(n)
    ensures k < n && s.Turns(k)
  {
    k := n - 1;
    if s.AllPassed(k) {
      AllPassedClimbs(s, k);
      ClimbingLadder(s, k);
      assert s.TurnsDown(k);
    } else if s.AllFailed(k) {
      AllFailedDescends(s, k);
      DescendingLadder(s, k);
      assert s.TurnsUp(k);
    } else {
      k := FindTurn(s, k);
    }
  }

  /** A search returns exactly when some run breaks or the ladder of rates from the start changes verdict. */
  lemma HaltsExactly(s: Search, error: real)
    requires s.start > 0.0 && 0.0 < error <= 0.5
    ensures s.Halts(error) <==> (exists n: nat :: !s.Probe(n).status) || (exists k: nat :: s.Turns(k))
  {
    if s.Halts(error) && forall n: nat :: s.Probe(n).status {
      var n: nat :| s.Stops(error, n);
      if s.AllPassed(n) || s.AllFailed(n) {
        NoStopOnLadder(s, error, n);
      }
      var k := FindTurn(s, n);
    }
    if n: nat :| !s.Probe(n).status {
      assert s.Stops(error, n);
    }
    if k: nat :| s.Turns(k) {
      var m := EnoughHalvings(error);
      StopsWithin(s, error, k, m);
    }
  }

  // ----- which result is kept as the best one -----

  /** Both results are passing ones, or both failing ones. */
  predicate SameSide(expected: real, res: real, other: real) {
    res <= expected <==> other <= expected
  }

  /** When a different result takes the place of the best one: among passing results, or among failing ones, only
      if it more than halves the distance to the expected result; across the two always, unless the best result is
      exactly the expected one. The initial best result of -1 gives way to anything. */
  lemma DisplacedExactly(s: Search, b: State, a: Answer)
    requires a.res != b.bestRes
    ensures var b' := s.Next(b, a);
            && (b'.bestRes == a.res && b'.bestRate == a.rate <==> b'.bestRes != b.bestRes)
            && (b'.bestRes == b.bestRes ==> b'.bestRate == b.bestRate)
            && (b'.bestRes != b.bestRes <==>
                  || b.bestRes == -1.0
                  || if SameSide(s.expected, b.bestRes, a.res)
                     then 2.0 * Abs(s.expected - a.res) < Abs(s.expected - b.bestRes)
                     else b.bestRes != s.expected)
  {
  }

  /** An equal result counts only for its rate: the higher of the two is kept. */
  lemma EqualKeepsHigherRate(s: Search, b: State, a: Answer)
    requires a.res == b.bestRes != -1.0
    ensures s.Next(b, a).bestRes == b.bestRes
    ensures s.Next(b, a).bestRate == if a.rate > b.bestRate then a.rate else b.bestRate
  {
  }

  /** For any run function: while the verdict stays on the side of the best result, the best result gets no farther
      from the expected one, and is within twice the distance of every result seen. */
  lemma {:induction false} BestIsNear(s: Search, m: nat, n: nat)
    requires m <= n && s.At(m).bestRes >= 0.0
    requires forall i :: m <= i < n ==> s.Probe(i).res >= 0.0 && SameSide(s.expected, s.At(m).bestRes, s.Probe(i).res)
    ensures s.At(n).bestRes >= 0.0 && SameSide(s.expected, s.At(m).bestRes, s.At(n).bestRes)
    ensures Abs(s.expected - s.At(n).bestRes) <= Abs(s.expected - s.At(m).bestRes)
    ensures forall i :: m <= i < n ==> Abs(s.expected - s.At(n).bestRes) <= 2.0 * Abs(s.expected - s.Probe(i).res)
  {
    if m < n {
      BestIsNear(s, m, n - 1);
      var b, a := s.At(n - 1), s.Probe(n - 1);
      if a.res == b.bestRes {
        EqualKeepsHigherRate(s, b, a);
      } else {
        DisplacedExactly(s, b, a);
      }
    }
  }

  /** Whatever the run function does, the best result and its rate come from one and the same probe. */
  lemma {:induction false} BestIsProbed(s: Search, n: nat) returns (i: nat)
    requires n > 0
    ensures i < n && s.Probe(i).res == s.At(n).bestRes && s.Probe(i).rate == s.At(n).bestRate
  {
    i := n - 1;
    if n > 1 && !s.Improves(s.At(n - 1), s.Probe(n - 1)) {
      i := BestIsProbed(s, n - 1);
    }
  }

  /** A search whose first run is broken has nothing to report, and says so with a result of -1 at rate 0. */
  lemma BrokenAtOnce(s: Search, error: real)
    requires !s.Probe(0).status
    ensures s.FirstStop(error, 0) && s.At(0).bestRes == -1.0 && s.At(0).bestRate == 0.0
  {
  }

  /** Two of the passing results differ: of drops of 0 below 1600, 2/5 from there and 10 from 2000, a search for 1/2
      reports 2/5 once a probe shows it. */
  lemma ReportsNearerPass()
    ensures var s := Search((n: nat, v: real) => Answer(true, v, if v < 1600.0 then 0.0 else if v < 2000.0 then 0.4 else 10.0),
                            1000.0, 0.5);
            s.FirstStop(0.1, 4) && s.At(4).bestRes == 0.4 && s.At(4).bestRate == 1750.0
            && s.At(5).bestRes == 0.4 && s.At(5).bestRate == 1875.0
  {
    var s := Search((n: nat, v: real) => Answer(true, v, if v < 1600.0 then 0.0 else if v < 2000.0 then 0.4 else 10.0),
                    1000.0, 0.5);
    assert s.At(1) == State(2000.0, 1000.0, false, 1, 0.0, 1000.0);
    assert s.At(2) == State(1500.0, -500.0, true, 1, 10.0, 2000.0);
    assert s.At(3) == State(1750.0, 250.0, true, 1, 0.0, 1500.0);
    assert s.At(4) == State(1875.0, 125.0, true, 1, 0.4, 1750.0);
  }

  // ----- what the search reports -----

  lemma StepResponseHalts(s: Search, error: real, threshold: real, pass: real)
    requires s.start > 0.0 && 0.0 < error <= 0.5 && threshold > 0.0
    requires s.StepResponse(threshold, pass)
    ensures s.Halts(error)
  {
    var n := 0;
    if s.start < threshold {
      n := DoublingReaches(s.start, threshold);
      assert !s.ClimbPasses(n) && s.DescentPasses(0);
    } else {
      n := HalvingReaches(s.start, threshold);
      assert !s.ClimbPasses(0) && s.DescentPasses(n);
    }
    if s.AllPassed(n + 1) {
      AllPassedClimbs(s, n + 1);
    }
    if s.AllFailed(n + 1) {
      AllFailedDescends(s, n + 1);
    }
    var k := FindTurn(s, n + 1);
    HaltsExactly(s, error);
  }

  /** The highest rate known to pass: the hidden lower end, or the last rung while still climbing. */
  function LastPass(s: Search, n: nat): real
    requires n > 0
  {
    if s.At(n).toggled then s.Low(n) else s.At(n - 1).value
  }

  /** One turn of the best-result rule, by what the best result was before. */
  lemma BestStep(s: Search, threshold: real, pass: real, n: nat)
    requires s.StepResponse(threshold, pass)
    requires n == 0 || s.At(n).bestRes >= 0.0
    ensures var b, v, r := s.At(n), s.At(n).value, s.At(n + 1);
            if s.Passed(n) then
              v < threshold && (b.bestRes > s.expected || n == 0 || (b.bestRes == pass && b.bestRate < v) ==>
                                  r.bestRes == pass && r.bestRate == v)
            else if b.bestRes == pass == s.expected then
              r.bestRes == pass && r.bestRate == b.bestRate
            else
              b.bestRes == pass || n == 0 || (b.bestRes > s.expected && b.bestRate >= threshold) ==>
                r.bestRes > s.expected && r.bestRate >= threshold
  {
    var v := s.At(n).value;
    assert s.run(n, v).rate == v;
  }

  lemma LastPassStep(s: Search, n: nat)
    requires s.start > 0.0 && n > 0 && !s.AllFailed(n)
    ensures LastPass(s, n) < s.At(n).value
    ensures LastPass(s, n + 1) == if s.Passed(n) then s.At(n).value else LastPass(s, n)
  {
    if s.At(n).toggled {
      HiddenBracket(s, n);
      BracketStep(s, n);
    } else {
      StillClimbing(s, n);
      if !s.Passed(n) {
        FirstFailure(s, n);
      }
    }
  }

  /** When the passing result is exactly the expected one, a passing best result is never displaced.
      When it is below, every failing run displaces it. */
  lemma {:induction false} BestSoFar(s: Search, threshold: real, pass: real, n: nat)
    requires s.start > 0.0 && n > 0 && s.StepResponse(threshold, pass)
    ensures if !s.AllFailed(n) && (pass == s.expected || s.Passed(n - 1))
            then s.At(n).bestRes == pass && s.At(n).bestRate == LastPass(s, n)
            else s.At(n).bestRes > s.expected && s.At(n).bestRate >= threshold
  {
    var m := n - 1;
    assert s.AllFailed(n) <==> s.AllFailed(m) && !s.Passed(m);
    if m > 0 {
      BestSoFar(s, threshold, pass, m);
    }
    BestStep(s, threshold, pass, m);
    if s.AllFailed(m) {
      if s.Passed(m) {
        FirstPass(s, m);
      }
    } else {
      LastPassStep(s, m);
    }
  }

  lemma FirstPass(s: Search, n: nat)
    requires s.start > 0.0 && s.AllFailed(n) && s.Passed(n)
    ensures LastPass(s, n + 1) == s.At(n).value
  {
    if n > 0 {
      assert !s.Passed(0);
      ToggledByFailure(s, n);
      BracketStep(s, n);
    }
  }

  lemma StillClimbing(s: Search, n: nat)
    requires s.start > 0.0 && n > 0 && !s.At(n).toggled
    ensures s.At(n).value == 2.0 * s.At(n - 1).value > s.At(n - 1).value
  {
    ToggledByFailure(s, n);
    AllPassedClimbs(s, n);
    ClimbingLadder(s, n);
    ClimbingLadder(s, n - 1);
    DoubledPositive(s.start, n - 1);
  }

  lemma BracketStep(s: Search, n: nat)
    requires s.At(n).toggled
    ensures s.At(n + 1).toggled
    ensures s.Low(n + 1) == if s.Passed(n) then s.At(n).value else s.Low(n)
    ensures s.High(n + 1) == if s.Passed(n) then s.High(n) else s.At(n).value
  {
  }

  /** Where the threshold lies once both verdicts have been seen. */
  lemma ThresholdBracketed(s: Search, threshold: real, pass: real, n: nat)
    requires s.start > 0.0 && s.StepResponse(threshold, pass)
    requires !s.AllPassed(n) && !s.AllFailed(n)
    ensures s.At(n).toggled
    ensures 0.0 < s.Low(n) < threshold <= s.High(n)
  {
    ToggledByFailure(s, n);
    HiddenBracket(s, n);
    var k := FindTurn(s, n);
    BracketAfter(s, k, n);
  }

  /** The best result after probe `n`, once both verdicts have been seen. */
  lemma ReportAfter(s: Search, threshold: real, pass: real, n: nat)
    requires s.start > 0.0 && s.StepResponse(threshold, pass)
    requires !s.AllPassed(n) && !s.AllFailed(n)
    ensures var r, v, gap := s.At(n + 1), s.At(n).value, Abs(s.At(n).lastIncrease);
            && 0.0 <= gap < v
            && if pass == s.expected || s.Passed(n) then
                 && r.bestRes == pass && r.bestRate < threshold
                 && if s.Passed(n) then r.bestRate == v && threshold <= v + gap
                                   else r.bestRate == v - gap && threshold <= v
               else
                 r.bestRes > s.expected && r.bestRate >= threshold
  {
    ThresholdBracketed(s, threshold, pass, n);
    BestSoFar(s, threshold, pass, n + 1);
    BracketStep(s, n);
    assert s.run(n, s.At(n).value).rate == s.At(n).value;
  }

  predicate WithinError(error: real, threshold: real, rate: real) {
    (1.0 - error) * threshold < rate < threshold
  }

  /** What a finished search says about a step response. The reported rate is below the threshold, and
      within the relative error of it, exactly when the expected result is the passing one or the last
      probe passed; otherwise a failing run is reported as the best one. */
  lemma SearchPrecision(s: Search, error: real, threshold: real, pass: real, n: nat)
    requires s.start > 0.0 && 0.0 < error <= 0.5 && s.StepResponse(threshold, pass)
    requires s.FirstStop(error, n)
    ensures var r, gap := s.At(n + 1), Abs(s.At(n).lastIncrease);
            && Fraction(gap, s.At(n).value, error)
            && if pass == s.expected || s.Passed(n) then
                 && r.bestRes == pass
                 && WithinError(error, threshold, r.bestRate)
                 && threshold <= r.bestRate + gap
               else
                 r.bestRes > s.expected && r.bestRate >= threshold
  {
    if s.AllPassed(n) || s.AllFailed(n) {
      NoStopOnLadder(s, error, n);
    }
    ReportAfter(s, threshold, pass, n);
    assert s.Probe(n).status;
    if pass == s.expected || s.Passed(n) {
      RelativeError(s.At(n).value, Abs(s.At(n).lastIncrease), error, s.At(n + 1).bestRate, threshold);
    }
  }

  lemma RelativeError(v: real, gap: real, error: real, rate: real, threshold: real)
    requires 0.0 < error <= 0.5 && 0.0 <= gap && Fraction(gap, v, error) && rate < threshold
    requires (rate == v && threshold <= v + gap) || (rate == v - gap && threshold <= v)
    ensures WithinError(error, threshold, rate)
  {
    if rate == v {
      MulMonotone(1.0 - error, threshold, v + gap);
      assert (1.0 - error) * (v + gap) == v + gap - v * error - error * gap;
      MulMonotone(error, 0.0, gap);
    } else {
      MulMonotone(1.0 - error, threshold, v);
      assert (1.0 - error) * v == v - v * error;
    }
  }

  /** The step response whose runs give one result below the threshold and another from it on. */
  function TwoLevel(start: real, threshold: real, pass: real, fail: real, expected: real): Search {
    Search((n: nat, v: real) => Answer(true, v, if v < threshold then pass else fail), start, expected)
  }

  /** Choosing the expected result: the search is safe on every threshold exactly when the expected result
      equals what a passing run returns, and not merely bounds it. */
  lemma SafeExactlyWhenExpected(pass: real, fail: real, expected: real)
    requires 0.0 <= pass <= expected < fail
    ensures pass == expected <==>
            forall start: real, threshold: real, error: real, n: nat
              | start > 0.0 && threshold > 0.0 && 0.0 < error <= 0.5
                && TwoLevel(start, threshold, pass, fail, expected).FirstStop(error, n) ::
              TwoLevel(start, threshold, pass, fail, expected).At(n + 1).bestRate < threshold
  {
    if pass == expected {
      forall start: real, threshold: real, error: real, n: nat
        | start > 0.0 && threshold > 0.0 && 0.0 < error <= 0.5
          && TwoLevel(start, threshold, pass, fail, expected).FirstStop(error, n)
        ensures TwoLevel(start, threshold, pass, fail, expected).At(n + 1).bestRate < threshold
      {
        SearchPrecision(TwoLevel(start, threshold, pass, fail, expected), error, threshold, pass, n);
      }
    } else {
      ReportsFailingRate(pass, fail, expected);
    }
  }

  /** With a lenient expected result the third probe stops the search and the rate reported, 2, failed:
      it lies two thirds above the threshold of 6/5. */
  lemma ReportsFailingRate(pass: real, fail: real, expected: real)
    requires 0.0 <= pass < expected < fail
    ensures var s := TwoLevel(1.0, 1.2, pass, fail, expected);
            s.FirstStop(0.5, 2) && s.At(3).bestRate == 2.0 && s.At(3).bestRes == fail
  {
    var s := TwoLevel(1.0, 1.2, pass, fail, expected);
    assert s.At(1) == State(2.0, 1.0, false, 1, pass, 1.0);
    assert s.At(2) == State(1.5, -0.5, true, 1, fail, 2.0);
  }
}
