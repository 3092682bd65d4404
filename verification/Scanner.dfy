/** The `Scanner` object: its two searches as loops, each against the search it performs. */
module Scanner {
  import opened Wrappers
  import opened Powers
  import opened RateSearch
  import opened PlateauSearch

  lemma AtNext(s: Search, n: nat)
    ensures s.At(n + 1) == s.Next(s.At(n), s.run(n, s.At(n).value))
  {
  }

  lemma Continues(s: Search, error: real, n: nat)
    requires s.NoStopUpTo(error, n) && !s.Stops(error, n)
    ensures s.NoStopUpTo(error, n + 1)
  {
  }

  class Scanner {
    const startValue: real
    const runfn: (nat, real) -> Answer
    var initialToggleCount: nat

    constructor (runfn: (nat, real) -> Answer, startValue: real)
      ensures this.runfn == runfn && this.startValue == startValue
    {
      this.runfn := runfn;
      this.startValue := startValue;
      initialToggleCount := 0;
    }

    function SearchFor(expected: real): RateSearch.Search { RateSearch.Search(runfn, startValue, expected) }

    function PlateauFor(): Plateau { Plateau(runfn, startValue) }

    /** `cnt` is the first probe at which the search may stop; a broken run reports the best result
        before it, any other stop the best result up to and including it. */
    method Search(expected: real, error: real)
      returns (status: bool, cnt: nat, bestRes: real, bestRate: real)
      requires SearchFor(expected).Halts(error)
      modifies this`initialToggleCount
      ensures SearchFor(expected).FirstStop(error, cnt)
      ensures status == SearchFor(expected).Probe(cnt).status
      ensures var s := SearchFor(expected).At(if status then cnt + 1 else cnt);
              bestRes == s.bestRes && bestRate == s.bestRate
      ensures initialToggleCount == SearchFor(expected).At(cnt).climbs
    {
      ghost var s := SearchFor(expected);
      ghost var st := s.At(0);
      ghost var last: nat :| s.Stops(error, last);
      var value := startValue;
      var inc := 0.0;
      var lastIncrease := value;
      var firstToggle := false;
      cnt := 0;
      initialToggleCount := 0;
      status := true;
      bestRes := -1.0;
      bestRate := 0.0;
      while true
        invariant st == s.At(cnt) == State(value, lastIncrease, firstToggle, initialToggleCount, bestRes, bestRate)
        invariant cnt <= last
        invariant s.NoStopUpTo(error, cnt)
        decreases last - cnt
      {
        var answer := runfn(cnt, value);
        ghost var next := s.Next(st, answer);
        AtNext(s, cnt);
        status := answer.status;
        if !status {
          break;
        }
        var rate, res := answer.rate, answer.res;
        if res <= expected {
          if !firstToggle {
            inc := value;
          } else {
            inc := Abs(lastIncrease / 2.0);
          }
        } else {
          inc := -Abs(lastIncrease / 2.0);
          firstToggle := true;
        }
        if bestRes == -1.0
           || Nearer(expected, bestRes, res)
           || (res == bestRes && rate > bestRate) {
          bestRes := res;
          bestRate := rate;
        }
        if Fraction(Abs(lastIncrease), value, error) {
          break;
        }
        Continues(s, error, cnt);
        st := next;
        lastIncrease := inc;
        value := value + inc;
        cnt := cnt + 1;
        if !firstToggle {
          initialToggleCount := initialToggleCount + 1;
        }
      }
    }

    /** The largest rate over all probes, with the drop of a probe that measured it: one of the last two. */
    method FindMaxRate() returns (status: bool, maxRate: Option<real>, maxDrop: real, ghost n: nat)
      requires exists n: nat :: PlateauFor().EndsAt(n)
      ensures status && PlateauFor().EndsAt(n)
      ensures maxRate.Some?
      ensures forall i :: 0 <= i <= n ==> PlateauFor().Rate(i) <= maxRate.value
      ensures exists i: nat :: n - 1 <= i <= n
                && PlateauFor().Probe(i).rate == maxRate.value && PlateauFor().Probe(i).res == maxDrop
    {
      ghost var p := PlateauFor();
      ghost var last: nat :| p.EndsAt(last);
      n := 0;
      status := true;
      var value := startValue;
      maxRate := None;
      maxDrop := 0.0;
      var lastRate := 0.1;
      var probe := 0;
      while true
        invariant n == probe <= last && p.Reached(probe)
        invariant value == Doubled(startValue, probe)
        invariant lastRate == p.Previous(probe) > 0.0
        invariant probe == 0 ==> maxRate == None
        invariant probe > 0 ==> lastRate >= 1.0 && maxRate == Some(lastRate) && maxDrop == p.Probe(probe - 1).res
        decreases last - probe
      {
        var answer := runfn(probe, value);
        var rate, drop := answer.rate, answer.res;
        if maxRate == None || maxRate.value == 0.0 || maxRate.value < rate {
          maxRate := Some(rate);
          maxDrop := drop;
        }
        assert p.Probe(probe) == answer;
        if (rate - lastRate) / lastRate < 0.02 {
          break;
        }
        if rate < 1.0 {
          break;
        }
        assert p.Continues(probe);
        GrowsTwoPercent(p, probe);
        value := value + value;
        lastRate := rate;
        probe := probe + 1;
        n := probe;
      }
      forall i | 0 <= i <= n
        ensures p.Rate(i) <= maxRate.value
      {
        if i < n {
          RatesIncrease(p, i, n);
        }
      }
    }
  }
}
