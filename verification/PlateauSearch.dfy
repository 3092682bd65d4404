/** `Scanner.find_max_rate`: doubling the rate until the measured rate stops growing by 2%. */
module PlateauSearch {
  import opened Powers
  import opened RateSearch

  datatype Plateau = Plateau(run: (nat, real) -> Answer, start: real) {

    function Probe(n: nat): Answer { run(n, Doubled(start, n)) }

    function Rate(n: nat): real { Probe(n).rate }

    /** `last_rate` before probe `n`. */
    function Previous(n: nat): real { if n == 0 then 0.1 else Rate(n - 1) }

    /** Probe `n` neither stagnated nor collapsed. */
    predicate Continues(n: nat) {
      Previous(n) > 0.0 && (Rate(n) - Previous(n)) / Previous(n) >= 0.02 && Rate(n) >= 1.0
    }

    ghost predicate Reached(n: nat) { forall i :: 0 <= i < n ==> Continues(i) }

    ghost predicate EndsAt(n: nat) { Reached(n) && !Continues(n) }

    ghost predicate BoundedBy(m: real) { forall n: nat :: Rate(n) <= m }
  }

  lemma PreviousPositive(p: Plateau, n: nat)
    requires p.Reached(n)
    ensures p.Previous(n) > 0.0
  {
    if n > 0 {
      assert p.Continues(n - 1);
    }
  }

  /** The loop goes on exactly if the measured rate grew by at least 2% and is at least 1. */
  lemma ContinuesExactly(p: Plateau, n: nat)
    requires p.Previous(n) > 0.0
    ensures p.Continues(n) <==> p.Rate(n) >= 1.02 * p.Previous(n) && p.Rate(n) >= 1.0
  {
    var prev := p.Previous(n);
    if p.Rate(n) >= 1.02 * prev {
      QuotientAtLeast(p.Rate(n) - prev, prev, 0.02);
    }
    if p.Continues(n) {
      GrowsTwoPercent(p, n);
    }
  }

  /** The first probe has nothing to grow from: only a rate below 1 ends the loop there. */
  lemma FirstContinues(p: Plateau)
    ensures p.Continues(0) <==> p.Rate(0) >= 1.0
  {
    ContinuesExactly(p, 0);
  }

  lemma GrowsTwoPercent(p: Plateau, n: nat)
    requires p.Continues(n)
    ensures p.Rate(n) >= 1.02 * p.Previous(n)
  {
    var prev := p.Previous(n);
    var q := (p.Rate(n) - prev) / prev;
    assert q * prev == p.Rate(n) - prev;
    MulMonotone(prev, 0.02, q);
  }

  /** Each continuation costs a factor of 1.02 in measured rate. */
  lemma {:induction false} GrowthAlongProbes(p: Plateau, n: nat)
    requires p.Reached(n + 1)
    ensures p.Rate(n) >= Pow(1.02, n)
  {
    assert p.Continues(n);
    if n > 0 {
      GrowthAlongProbes(p, n - 1);
      GrowsTwoPercent(p, n);
      MulMonotone(1.02, Pow(1.02, n - 1), p.Rate(n - 1));
    }
  }

  /** With rates bounded by `m` the loop has continued `n` times only if 1.02 to the power n - 1 is at most `m`;
      it therefore ends, within 50 * m + 1 probes. */
  lemma BoundedRatesEnd(p: Plateau, m: real)
    requires p.BoundedBy(m)
    ensures forall n: nat | n > 0 && p.Reached(n) :: Pow(1.02, n - 1) <= m && (n - 1) as real <= 50.0 * m
    ensures exists n: nat :: p.EndsAt(n)
  {
    forall n: nat | n > 0 && p.Reached(n)
      ensures Pow(1.02, n - 1) <= m && (n - 1) as real <= 50.0 * m
    {
      GrowthAlongProbes(p, n - 1);
      Bernoulli(0.02, n - 1);
    }
    var far: nat := if m <= 0.0 then 1 else (50.0 * m).Floor + 2;
    assert !p.Reached(far);
    var n := FindEnd(p, far);
  }

  lemma {:induction false} FindEnd(p: Plateau, n: nat) returns (e: nat)
    requires !p.Reached(n)
    ensures e < n && p.EndsAt(e)
  {
    e := n - 1;
    if !p.Reached(e) {
      e := FindEnd(p, e);
    }
  }

  /** Measured rates strictly increase as long as the loop continues, so the largest one is among the last two. */
  lemma {:induction false} RatesIncrease(p: Plateau, i: nat, n: nat)
    requires p.Reached(n) && i < n
    ensures p.Rate(i) <= p.Rate(n - 1) && (i < n - 1 ==> p.Rate(i) < p.Rate(n - 1))
  {
    if i < n - 1 {
      RatesIncrease(p, i, n - 1);
      assert p.Continues(n - 2);
      GrowsTwoPercent(p, n - 1);
    }
  }
}
