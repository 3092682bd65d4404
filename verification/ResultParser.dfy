/** `result_parser` and `boundary_resultfn`: what the collected statistics say about a run. */
module ResultParser {
  import opened Wrappers
  import opened Powers
  import opened RateSearch

  datatype Client = Client(taskId: string, rate: real, msgCnt: nat, reconnectCnt: nat)

  /** The publisher's statistics; processor time and traffic are zero when it reports none. */
  datatype PubData = PubData(msgCnt: nat, rate: real, cpu: real, netTx: real, netRx: real, time: real)

  datatype Kind = Slow | Reconnecting | Valid

  /** Clients that received nothing are grouped with the slow ones. */
  function KindOf(c: Client, slow: set<string>, rec: set<string>): Kind {
    if c.taskId in slow || c.msgCnt == 0 then Slow
    else if c.taskId in rec then Reconnecting
    else Valid
  }

  // ----- reference definitions: the clients of each kind, and sums over them -----

  function OfKind(clients: seq<Client>, k: Kind, slow: set<string>, rec: set<string>): seq<Client> {
    if clients == [] then []
    else
      var init, last := OfKind(clients[..|clients| - 1], k, slow, rec), clients[|clients| - 1];
      if KindOf(last, slow, rec) == k then init + [last] else init
  }

  function Failing(clients: seq<Client>, sent: nat): seq<Client> {
    if clients == [] then []
    else
      var init, last := Failing(clients[..|clients| - 1], sent), clients[|clients| - 1];
      if last.msgCnt != sent then init + [last] else init
  }

  function Packets(clients: seq<Client>): nat {
    if clients == [] then 0 else Packets(clients[..|clients| - 1]) + clients[|clients| - 1].msgCnt
  }

  function RateSum(clients: seq<Client>): real {
    if clients == [] then 0.0 else RateSum(clients[..|clients| - 1]) + clients[|clients| - 1].rate
  }

  function Reconnects(clients: seq<Client>): nat {
    if clients == [] then 0 else Reconnects(clients[..|clients| - 1]) + clients[|clients| - 1].reconnectCnt
  }

  lemma PacketsSnoc(clients: seq<Client>, c: Client)
    ensures Packets(clients + [c]) == Packets(clients) + c.msgCnt
  {
    assert (clients + [c])[..|clients|] == clients;
  }

  lemma OfKindSnoc(clients: seq<Client>, c: Client, k: Kind, slow: set<string>, rec: set<string>)
    ensures OfKind(clients + [c], k, slow, rec) ==
            if KindOf(c, slow, rec) == k then OfKind(clients, k, slow, rec) + [c] else OfKind(clients, k, slow, rec)
  {
    assert (clients + [c])[..|clients|] == clients;
  }

  /** Each kind's list holds exactly the clients of that kind, each as often as it was collected. */
  lemma {:induction false} KindMembers(clients: seq<Client>, k: Kind, slow: set<string>, rec: set<string>, x: Client)
    ensures multiset(OfKind(clients, k, slow, rec))[x] == if KindOf(x, slow, rec) == k then multiset(clients)[x] else 0
  {
    if clients != [] {
      var init, last := clients[..|clients| - 1], clients[|clients| - 1];
      KindMembers(init, k, slow, rec, x);
      OfKindSnoc(init, last, k, slow, rec);
      assert clients == init + [last];
    }
  }

  /** Which client is of which kind: being listed as slow goes before being listed as reconnecting, and a client that
      received nothing is slow whatever it is listed as. */
  lemma KindRules(clients: seq<Client>, slow: set<string>, rec: set<string>, x: Client)
    ensures x in OfKind(clients, Valid, slow, rec) <==>
            x in clients && x.msgCnt > 0 && x.taskId !in slow + rec
    ensures x in OfKind(clients, Reconnecting, slow, rec) <==>
            x in clients && x.msgCnt > 0 && x.taskId in rec - slow
    ensures x in OfKind(clients, Slow, slow, rec) <==>
            x in clients && (x.taskId in slow || x.msgCnt == 0)
  {
    KindMembers(clients, Valid, slow, rec, x);
    KindMembers(clients, Reconnecting, slow, rec, x);
    KindMembers(clients, Slow, slow, rec, x);
    assert multiset(clients)[x] > 0 <==> x in clients;
  }

  /** The three kinds partition the clients, and their packets add up to all packets received. */
  lemma {:induction false} KindsPartition(clients: seq<Client>, slow: set<string>, rec: set<string>)
    ensures var s, r, v := OfKind(clients, Slow, slow, rec), OfKind(clients, Reconnecting, slow, rec),
                           OfKind(clients, Valid, slow, rec);
            |s| + |r| + |v| == |clients| && Packets(s) + Packets(r) + Packets(v) == Packets(clients)
  {
    if clients != [] {
      var init, last := clients[..|clients| - 1], clients[|clients| - 1];
      KindsPartition(init, slow, rec);
      OfKindSnoc(init, last, Slow, slow, rec);
      OfKindSnoc(init, last, Reconnecting, slow, rec);
      OfKindSnoc(init, last, Valid, slow, rec);
      PacketsSnoc(OfKind(init, KindOf(last, slow, rec), slow, rec), last);
      assert clients == init + [last];
    }
  }

  // ----- the parser -----

  datatype Tally = Tally(rate: real, packets: nat, count: nat)

  datatype Report = Report(
    clientCount: nat, packetTx: nat, averagePackets: int, averageRate: real, failingClients: nat,
    averageTxRate: real, validClients: nat, failingRate: Option<real>, averageLoss: real,
    pubCpu: real, pubTxRate: real, pubRxRate: real)

  /** The percentage of the packets sent that a group of clients missed on average. */
  function Loss(sent: nat, packets: nat, count: nat): real
    requires sent > 0 && count > 0
  {
    (sent as real - packets as real / count as real) * 100.0 / sent as real
  }

  function TallyOf(clients: seq<Client>): Tally {
    Tally(RateSum(clients), Packets(clients), |clients|)
  }

  function Add(t: Tally, c: Client): Tally {
    Tally(t.rate + c.rate, t.packets + c.msgCnt, t.count + 1)
  }

  lemma TallySnoc(clients: seq<Client>, c: Client)
    ensures TallyOf(clients + [c]) == Add(TallyOf(clients), c)
  {
    assert (clients + [c])[..|clients|] == clients;
  }

  lemma ReconnectsSnoc(clients: seq<Client>, c: Client)
    ensures Reconnects(clients + [c]) == Reconnects(clients) + c.reconnectCnt
  {
    assert (clients + [c])[..|clients|] == clients;
  }

  lemma FailingSnoc(clients: seq<Client>, c: Client, sent: nat)
    ensures Failing(clients + [c], sent) == if c.msgCnt != sent then Failing(clients, sent) + [c] else Failing(clients, sent)
  {
    assert (clients + [c])[..|clients|] == clients;
  }

  /** The accumulators of the loop after the given clients. */
  datatype Sums = Sums(slow: Tally, rec: Tally, reconnects: nat, good: Tally, bad: Tally)

  function SumsOf(clients: seq<Client>, slow: set<string>, rec: set<string>, sent: nat): Sums {
    SumsFrom(OfKind(clients, Slow, slow, rec), OfKind(clients, Reconnecting, slow, rec),
             OfKind(clients, Valid, slow, rec), sent)
  }

  function SumsFrom(slows: seq<Client>, recs: seq<Client>, valid: seq<Client>, sent: nat): Sums {
    Sums(TallyOf(slows), TallyOf(recs), Reconnects(recs), TallyOf(valid), TallyOf(Failing(valid, sent)))
  }

  function Next(s: Sums, c: Client, slow: set<string>, rec: set<string>, sent: nat): Sums {
    match KindOf(c, slow, rec)
    case Slow => s.(slow := Add(s.slow, c))
    case Reconnecting => s.(rec := Add(s.rec, c), reconnects := s.reconnects + c.reconnectCnt)
    case Valid => s.(good := Add(s.good, c), bad := if c.msgCnt != sent then Add(s.bad, c) else s.bad)
  }

  lemma SumsStep(clients: seq<Client>, c: Client, slow: set<string>, rec: set<string>, sent: nat)
    ensures SumsOf(clients + [c], slow, rec, sent) == Next(SumsOf(clients, slow, rec, sent), c, slow, rec, sent)
  {
    OfKindSnoc(clients, c, Slow, slow, rec);
    OfKindSnoc(clients, c, Reconnecting, slow, rec);
    OfKindSnoc(clients, c, Valid, slow, rec);
    FromSnoc(OfKind(clients, Slow, slow, rec), OfKind(clients, Reconnecting, slow, rec),
             OfKind(clients, Valid, slow, rec), c, sent);
  }

  lemma FromSnoc(slows: seq<Client>, recs: seq<Client>, valid: seq<Client>, c: Client, sent: nat)
    ensures var s := SumsFrom(slows, recs, valid, sent);
            && SumsFrom(slows + [c], recs, valid, sent) == s.(slow := Add(s.slow, c))
            && SumsFrom(slows, recs + [c], valid, sent) ==
                 s.(rec := Add(s.rec, c), reconnects := s.reconnects + c.reconnectCnt)
            && SumsFrom(slows, recs, valid + [c], sent) ==
                 s.(good := Add(s.good, c), bad := if c.msgCnt != sent then Add(s.bad, c) else s.bad)
  {
    TallySnoc(slows, c);
    TallySnoc(recs, c);
    ReconnectsSnoc(recs, c);
    TallySnoc(valid, c);
    FailingSnoc(valid, c, sent);
    TallySnoc(Failing(valid, sent), c);
  }

  /** One pass over the clients, with an accumulator for each kind and one for the failing clients. */
  method SumUp(clients: seq<Client>, slow: set<string>, rec: set<string>, sent: nat) returns (s: Sums)
    ensures s == SumsOf(clients, slow, rec, sent)
  {
    var slowTally, recTally := Tally(0.0, 0, 0), Tally(0.0, 0, 0);
    var recCnt: nat := 0;
    var good, bad := Tally(0.0, 0, 0), Tally(0.0, 0, 0);
    for i := 0 to |clients|
      invariant Sums(slowTally, recTally, recCnt, good, bad) == SumsOf(clients[..i], slow, rec, sent)
    {
      var info := clients[i];
      SumsStep(clients[..i], info, slow, rec, sent);
      assert clients[..i + 1] == clients[..i] + [info];
      if info.taskId in slow || info.msgCnt == 0 {
        slowTally := Add(slowTally, info);
      } else if info.taskId in rec {
        recTally := Add(recTally, info);
        recCnt := recCnt + info.reconnectCnt;
      } else {
        good := Add(good, info);
        if info.msgCnt != sent {
          bad := Add(bad, info);
        }
      }
    }
    assert clients[..|clients|] == clients;
    s := Sums(slowTally, recTally, recCnt, good, bad);
  }

  /** What the figures need: a valid client, packets sent, and time passed. */
  predicate Reportable(clients: seq<Client>, pub: PubData, slow: set<string>, rec: set<string>) {
    OfKind(clients, Valid, slow, rec) != [] && pub.msgCnt > 0 && pub.time != 0.0
  }

  /** The report on the valid clients and the publisher. */
  function ReportOf(clients: seq<Client>, pub: PubData, slow: set<string>, rec: set<string>): Report
    requires Reportable(clients, pub, slow, rec)
  {
    var valid := OfKind(clients, Valid, slow, rec);
    var failing := Failing(valid, pub.msgCnt);
    Report(|clients|, pub.msgCnt, Packets(valid) / |valid|, RateSum(valid) / |valid| as real, |failing|,
           pub.rate, |valid|, if failing == [] then None else Some(RateSum(failing) / |failing| as real),
           Loss(pub.msgCnt, Packets(valid), |valid|),
           100.0 * pub.cpu / pub.time, pub.netTx / pub.time, pub.netRx / pub.time)
  }

  /** A division by zero is the only way to fail: no valid client, nothing sent, or no time passed. */
  method ParseResult(clients: seq<Client>, pub: PubData, slow: set<string>, rec: set<string>)
    returns (r: Result<Report, string>)
    ensures r.Err? <==> !Reportable(clients, pub, slow, rec)
    ensures r.Ok? ==> r.value == ReportOf(clients, pub, slow, rec)
  {
    var s := SumUp(clients, slow, rec, pub.msgCnt);
    var good, bad := s.good, s.bad;
    if good.count == 0 || pub.msgCnt == 0 || pub.time == 0.0 {
      return Err("division by zero");
    }
    r := Ok(Report(|clients|, pub.msgCnt, good.packets / good.count, good.rate / good.count as real, bad.count,
                   pub.rate, good.count, if bad.count > 0 then Some(bad.rate / bad.count as real) else None,
                   Loss(pub.msgCnt, good.packets, good.count),
                   100.0 * pub.cpu / pub.time, pub.netTx / pub.time, pub.netRx / pub.time));
  }

  // ----- what the figures mean -----

  /** A sum of rates lies between as many times the lowest and the highest one. */
  ghost predicate Between(lo: real, hi: real, sum: real, count: nat) {
    lo * count as real <= sum <= hi * count as real
  }

  ghost predicate RatesWithin(clients: seq<Client>, lo: real, hi: real) {
    forall c :: c in clients ==> lo <= c.rate <= hi
  }

  lemma {:induction false} RateSumBetween(clients: seq<Client>, lo: real, hi: real)
    requires RatesWithin(clients, lo, hi)
    ensures Between(lo, hi, RateSum(clients), |clients|)
  {
    if clients != [] {
      var init, last := clients[..|clients| - 1], clients[|clients| - 1];
      RateSumBetween(init, lo, hi);
      assert last in clients;
      BetweenNext(lo, hi, RateSum(init), |init|, last.rate);
    }
  }

  lemma BetweenNext(lo: real, hi: real, sum: real, count: nat, x: real)
    requires Between(lo, hi, sum, count) && lo <= x <= hi
    ensures Between(lo, hi, sum + x, count + 1)
  {
    var n := count as real;
    assert lo * (n + 1.0) == lo * n + lo && hi * (n + 1.0) == hi * n + hi;
  }

  lemma AverageBetween(lo: real, hi: real, sum: real, count: nat)
    requires count > 0 && Between(lo, hi, sum, count)
    ensures lo <= sum / count as real <= hi
  {
    QuotientAtLeast(sum, count as real, lo);
    QuotientAtMost(sum, count as real, hi);
  }

  lemma {:induction false} FailingAmong(clients: seq<Client>, sent: nat)
    ensures |Failing(clients, sent)| <= |clients|
    ensures forall x :: x in Failing(clients, sent) <==> x in clients && x.msgCnt != sent
  {
    if clients != [] {
      FailingAmong(clients[..|clients| - 1], sent);
    }
  }

  /** The average rate lies between the lowest and the highest rate of a valid client, and the rate of the failing
      clients, given exactly if there are any, between those of the failing ones. */
  lemma ReportedRates(clients: seq<Client>, pub: PubData, slow: set<string>, rec: set<string>, lo: real, hi: real)
    requires Reportable(clients, pub, slow, rec)
    ensures var report := ReportOf(clients, pub, slow, rec);
            var valid := OfKind(clients, Valid, slow, rec);
            var failing := Failing(valid, pub.msgCnt);
            && (RatesWithin(valid, lo, hi) ==> lo <= report.averageRate <= hi)
            && (report.failingRate.Some? <==> exists c :: c in valid && c.msgCnt != pub.msgCnt)
            && (RatesWithin(failing, lo, hi) && report.failingRate.Some? ==> lo <= report.failingRate.value <= hi)
  {
    var valid := OfKind(clients, Valid, slow, rec);
    var failing := Failing(valid, pub.msgCnt);
    FailingAmong(valid, pub.msgCnt);
    if RatesWithin(valid, lo, hi) {
      RateSumBetween(valid, lo, hi);
      AverageBetween(lo, hi, RateSum(valid), |valid|);
    }
    if RatesWithin(failing, lo, hi) && failing != [] {
      RateSumBetween(failing, lo, hi);
      AverageBetween(lo, hi, RateSum(failing), |failing|);
    }
  }

  /** The share of each of `count` clients, and less than one more for each, is in `packets`. */
  predicate SharedOut(packets: nat, count: nat, share: int) {
    share * count <= packets < share * count + count
  }

  lemma Shares(packets: nat, count: nat)
    requires count > 0
    ensures SharedOut(packets, count, packets / count)
  {
  }

  /** The counts: all clients are valid, slow or reconnecting, the failing ones are valid ones, and the average is
      the packets of the valid clients shared out evenly, without the remainder. */
  lemma ReportedCounts(clients: seq<Client>, pub: PubData, slow: set<string>, rec: set<string>)
    requires Reportable(clients, pub, slow, rec)
    ensures var report := ReportOf(clients, pub, slow, rec);
            var packets := Packets(OfKind(clients, Valid, slow, rec));
            && report.clientCount == report.validClients + |OfKind(clients, Slow, slow, rec)|
                                                         + |OfKind(clients, Reconnecting, slow, rec)|
            && report.packetTx == pub.msgCnt
            && report.failingClients <= report.validClients
            && SharedOut(packets, report.validClients, report.averagePackets)
  {
    Shares(Packets(OfKind(clients, Valid, slow, rec)), |OfKind(clients, Valid, slow, rec)|);
    KindsPartition(clients, slow, rec);
    FailingAmong(OfKind(clients, Valid, slow, rec), pub.msgCnt);
  }

  /** The reconnects of clients are added up, each client's once. */
  lemma {:induction false} ReconnectsAddUp(a: seq<Client>, b: seq<Client>, c: Client)
    ensures Reconnects(a + b) == Reconnects(a) + Reconnects(b) && Reconnects([c]) == c.reconnectCnt
  {
    ReconnectsSnoc([], c);
    assert [] + [c] == [c];
    if b == [] {
      assert a + b == a;
    } else {
      var init, last := b[..|b| - 1], b[|b| - 1];
      ReconnectsAddUp(a, init, c);
      ReconnectsSnoc(a + init, last);
      assert a + b == (a + init) + [last];
    }
  }

  /** The publisher's figures are those for the time its test took. */
  lemma ReportedLoad(clients: seq<Client>, pub: PubData, slow: set<string>, rec: set<string>)
    requires Reportable(clients, pub, slow, rec)
    ensures var report := ReportOf(clients, pub, slow, rec);
            && report.pubCpu * pub.time == 100.0 * pub.cpu
            && report.pubTxRate * pub.time == pub.netTx && report.pubRxRate * pub.time == pub.netRx
  {
  }

  /** What a search is given: a rate between those of the valid clients, and a broken run exactly if the publisher
      sent less than seven tenths of the rate asked for. */
  lemma SearchIsGiven(clients: seq<Client>, pub: PubData, slow: set<string>, rec: set<string>, messageRate: real,
                      lo: real, hi: real)
    requires Reportable(clients, pub, slow, rec) && RatesWithin(OfKind(clients, Valid, slow, rec), lo, hi)
    ensures var answer := BoundaryResult(messageRate, ReportOf(clients, pub, slow, rec));
            lo <= answer.rate <= hi && (!answer.status <==> 10.0 * pub.rate < 7.0 * messageRate)
  {
    ReportedRates(clients, pub, slow, rec, lo, hi);
  }

  // ----- what the loss means -----

  lemma {:induction false} PacketsBelow(clients: seq<Client>, sent: nat)
    requires forall c :: c in clients ==> c.msgCnt <= sent
    ensures Packets(clients) <= sent * |clients|
    ensures Packets(clients) == sent * |clients| <==> Failing(clients, sent) == []
  {
    if clients != [] {
      var init, last := clients[..|clients| - 1], clients[|clients| - 1];
      PacketsBelow(init, sent);
      assert sent * |clients| == sent * |init| + sent;
      assert last in clients;
    }
  }

  lemma LossRange(sent: nat, packets: nat, count: nat)
    requires sent > 0 && count > 0
    ensures Loss(sent, packets, count) <= 100.0
    ensures Loss(sent, packets, count) == 100.0 <==> packets == 0
    ensures Loss(sent, packets, count) >= 0.0 <==> packets <= sent * count
    ensures Loss(sent, packets, count) == 0.0 <==> packets == sent * count
  {
    var n, s, p := count as real, sent as real, packets as real;
    var average := p / n;
    QuotientTimes(p, n);
    var missed := s - average;
    QuotientTimes(missed * 100.0, s);
    var loss := missed * 100.0 / s;
    assert n * missed == s * n - p;
    assert s * loss == missed * 100.0;
    SameSign(n, missed);
    SameSign(s, loss);
    SameSign(n, average);
    SameSign(s, 100.0 - loss);
    assert (sent * count) as real == s * n;
    assert s * (100.0 - loss) == 100.0 * average;
  }

  /** The loss is the share of the packets that should have been received and were not, in hundredths. */
  lemma LossIsShareMissed(sent: nat, packets: nat, count: nat)
    requires sent > 0 && count > 0
    ensures Loss(sent, packets, count) * (sent as real * count as real) ==
            100.0 * (sent as real * count as real - packets as real)
  {
    var n, s, p := count as real, sent as real, packets as real;
    QuotientTimes(p, n);
    var missed := s - p / n;
    QuotientTimes(missed * 100.0, s);
    assert n * missed == s * n - p;
    assert Loss(sent, packets, count) * (s * n) == s * Loss(sent, packets, count) * n;
    assert s * Loss(sent, packets, count) == missed * 100.0;
    assert missed * 100.0 * n == 100.0 * (n * missed);
  }

  lemma SameSign(a: real, x: real)
    requires a > 0.0
    ensures a * x >= 0.0 <==> x >= 0.0
    ensures a * x == 0.0 <==> x == 0.0
  {
    if x > 0.0 {
      assert a * x > 0.0;
    } else if x < 0.0 {
      assert a * -x > 0.0;
    }
  }

  lemma {:induction false} ValidReceived(clients: seq<Client>, slow: set<string>, rec: set<string>)
    ensures Packets(OfKind(clients, Valid, slow, rec)) >= |OfKind(clients, Valid, slow, rec)|
  {
    if clients != [] {
      var init, last := clients[..|clients| - 1], clients[|clients| - 1];
      ValidReceived(init, slow, rec);
      assert clients == init + [last];
      OfKindSnoc(init, last, Valid, slow, rec);
      PacketsSnoc(OfKind(init, Valid, slow, rec), last);
    }
  }

  /** If no valid client counts more packets than were sent, the loss is a percentage, and it is zero exactly when
      no client is counted as failing. */
  lemma LossMeansFailing(clients: seq<Client>, sent: nat, slow: set<string>, rec: set<string>)
    requires sent > 0 && OfKind(clients, Valid, slow, rec) != []
    requires forall c :: c in OfKind(clients, Valid, slow, rec) ==> c.msgCnt <= sent
    ensures var valid := OfKind(clients, Valid, slow, rec);
            var loss := Loss(sent, Packets(valid), |valid|);
            0.0 <= loss < 100.0 && (loss == 0.0 <==> Failing(valid, sent) == [])
  {
    var valid := OfKind(clients, Valid, slow, rec);
    PacketsBelow(valid, sent);
    ValidReceived(clients, slow, rec);
    LossRange(sent, Packets(valid), |valid|);
  }

  /** No loss on average says the same as no failing client. */
  ghost predicate LossTells(clients: seq<Client>, sent: nat, slow: set<string>, rec: set<string>)
    requires sent > 0 && OfKind(clients, Valid, slow, rec) != []
  {
    var valid := OfKind(clients, Valid, slow, rec);
    Loss(sent, Packets(valid), |valid|) == 0.0 <==> Failing(valid, sent) == []
  }

  /** There is a valid client, and none of the valid ones counts more than `cap` packets. */
  ghost predicate Capped(clients: seq<Client>, cap: nat, slow: set<string>, rec: set<string>) {
    OfKind(clients, Valid, slow, rec) != [] && forall c :: c in OfKind(clients, Valid, slow, rec) ==> c.msgCnt <= cap
  }

  /** No loss means no failing client, for all clients that count at most `cap` packets, exactly when that is no
      more than was sent, or when a single packet was sent. */
  lemma LossTellsExactly(sent: nat, cap: nat)
    requires sent > 0
    ensures (forall clients, slow, rec | Capped(clients, cap, slow, rec) :: LossTells(clients, sent, slow, rec)) <==>
            cap <= sent || sent == 1
  {
    if cap <= sent || sent == 1 {
      forall clients, slow, rec | Capped(clients, cap, slow, rec)
        ensures LossTells(clients, sent, slow, rec)
      {
        if cap <= sent {
          LossMeansFailing(clients, sent, slow, rec);
        } else {
          SinglePacketTells(clients, slow, rec);
        }
      }
    } else {
      var clients := OvercountHidesLoss(sent);
      assert Capped(clients, cap, {}, {});
    }
  }

  lemma {:induction false} PacketsAbove(clients: seq<Client>, sent: nat)
    requires forall c :: c in clients ==> c.msgCnt >= sent
    ensures Packets(clients) >= sent * |clients|
    ensures Packets(clients) == sent * |clients| <==> Failing(clients, sent) == []
  {
    if clients != [] {
      var init, last := clients[..|clients| - 1], clients[|clients| - 1];
      PacketsAbove(init, sent);
      assert sent * |clients| == sent * |init| + sent;
      assert last in clients;
    }
  }

  /** A valid client counts at least one packet, so with one packet sent nobody can hide what another missed. */
  lemma SinglePacketTells(clients: seq<Client>, slow: set<string>, rec: set<string>)
    requires OfKind(clients, Valid, slow, rec) != []
    ensures LossTells(clients, 1, slow, rec)
  {
    var valid := OfKind(clients, Valid, slow, rec);
    forall c | c in valid
      ensures c.msgCnt >= 1
    {
      KindMembers(clients, Valid, slow, rec, c);
    }
    PacketsAbove(valid, 1);
    LossRange(1, Packets(valid), |valid|);
  }

  /** A client that counts one packet too many hides the one that another missed: no loss, two failing clients. */
  lemma OvercountHidesLoss(sent: nat) returns (clients: seq<Client>)
    requires sent > 1
    ensures OfKind(clients, Valid, {}, {}) == clients != []
    ensures forall c :: c in clients ==> c.msgCnt <= sent + 1
    ensures Loss(sent, Packets(clients), |clients|) == 0.0 && |Failing(clients, sent)| == 2
  {
    var a, b := Client("a", 1.0, sent - 1, 0), Client("b", 1.0, sent + 1, 0);
    clients := [a] + [b];
    assert [] + [a] == [a];
    OfKindSnoc([], a, Valid, {}, {});
    OfKindSnoc([a], b, Valid, {}, {});
    PacketsSnoc([], a);
    PacketsSnoc([a], b);
    FailingSnoc([], a, sent);
    FailingSnoc([a], b, sent);
    LossRange(sent, Packets(clients), |clients|);
  }

  // ----- the answer a search sees -----

  /** The run counts as broken if less than 70% of the requested rate was sent. */
  function BoundaryResult(messageRate: real, r: Report): Answer {
    Answer(!(r.averageTxRate < 0.7 * messageRate), r.averageRate, r.averageLoss)
  }

  /** A run counts as a pass in a search for no loss exactly if no client is failing, and then with a result of
      exactly zero. */
  ghost predicate PassesRightly(clients: seq<Client>, pub: PubData, slow: set<string>, rec: set<string>,
                                messageRate: real)
    requires Reportable(clients, pub, slow, rec)
  {
    var report := ReportOf(clients, pub, slow, rec);
    var res := BoundaryResult(messageRate, report).res;
    (res <= 0.0 <==> report.failingClients == 0) && (res <= 0.0 ==> res == 0.0)
  }

  /** If no valid client counts more than was sent, searching for an expected loss of zero is searching for runs
      without a failing client, with zero as the result of every one of them: the case in which a search is safe. */
  lemma ZeroLossPasses(clients: seq<Client>, pub: PubData, slow: set<string>, rec: set<string>, messageRate: real)
    requires Reportable(clients, pub, slow, rec) && Capped(clients, pub.msgCnt, slow, rec)
    ensures PassesRightly(clients, pub, slow, rec, messageRate)
  {
    LossMeansFailing(clients, pub.msgCnt, slow, rec);
  }

  /** For all clients that count at most `cap` packets this is so exactly if that is no more than was sent. */
  lemma ZeroLossPassesExactly(pub: PubData, cap: nat, messageRate: real)
    requires pub.msgCnt > 0 && pub.time != 0.0
    ensures (forall clients, slow, rec | Capped(clients, cap, slow, rec) ::
               PassesRightly(clients, pub, slow, rec, messageRate)) <==>
            cap <= pub.msgCnt
  {
    if cap <= pub.msgCnt {
      forall clients, slow, rec | Capped(clients, cap, slow, rec)
        ensures PassesRightly(clients, pub, slow, rec, messageRate)
      {
        ZeroLossPasses(clients, pub, slow, rec, messageRate);
      }
    } else {
      var clients := OvercountPasses(pub, messageRate);
    }
  }

  /** One client that counts a packet too many: a negative loss, which a search takes for a pass. */
  lemma OvercountPasses(pub: PubData, messageRate: real) returns (clients: seq<Client>)
    requires pub.msgCnt > 0 && pub.time != 0.0
    ensures Capped(clients, pub.msgCnt + 1, {}, {}) && !PassesRightly(clients, pub, {}, {}, messageRate)
  {
    var a := Client("a", 1.0, pub.msgCnt + 1, 0);
    clients := [a];
    assert [] + [a] == clients;
    OfKindSnoc([], a, Valid, {}, {});
    PacketsSnoc([], a);
    FailingSnoc([], a, pub.msgCnt);
    LossRange(pub.msgCnt, Packets(clients), 1);
  }

  // ----- the order of the clients -----

  lemma {:induction false} TallyInsert(a: seq<Client>, x: Client, b: seq<Client>)
    ensures TallyOf(a + [x] + b) == Add(TallyOf(a + b), x)
  {
    if b == [] {
      TallySnoc(a, x);
      assert a + [x] + b == a + [x] && a + b == a;
    } else {
      var init, last := b[..|b| - 1], b[|b| - 1];
      TallyInsert(a, x, init);
      TallySnoc(a + [x] + init, last);
      TallySnoc(a + init, last);
      assert a + [x] + b == (a + [x] + init) + [last] && a + b == (a + init) + [last];
    }
  }

  lemma {:induction false} TallyPermutes(s: seq<Client>, t: seq<Client>)
    requires multiset(s) == multiset(t)
    ensures TallyOf(s) == TallyOf(t)
    decreases |s|
  {
    if s == [] {
      assert |multiset(t)| == 0;
    } else {
      var init, x := s[..|s| - 1], s[|s| - 1];
      assert s == init + [x];
      assert x in multiset(t);
      var i :| 0 <= i < |t| && t[i] == x;
      assert t == t[..i] + [x] + t[i + 1..];
      assert multiset(t[..i] + t[i + 1..]) == multiset(t) - multiset{x} == multiset(init);
      TallyPermutes(init, t[..i] + t[i + 1..]);
      TallyInsert(t[..i], x, t[i + 1..]);
      TallySnoc(init, x);
    }
  }

  lemma {:induction false} FailingMembers(clients: seq<Client>, sent: nat, x: Client)
    ensures multiset(Failing(clients, sent))[x] == if x.msgCnt != sent then multiset(clients)[x] else 0
  {
    if clients != [] {
      var init, last := clients[..|clients| - 1], clients[|clients| - 1];
      FailingMembers(init, sent, x);
      FailingSnoc(init, last, sent);
      assert clients == init + [last];
    }
  }

  /** The sums, and so the report, do not depend on the order in which the clients are walked. */
  lemma OrderIrrelevant(c1: seq<Client>, c2: seq<Client>, slow: set<string>, rec: set<string>, sent: nat)
    requires multiset(c1) == multiset(c2)
    ensures var s1, s2 := SumsOf(c1, slow, rec, sent), SumsOf(c2, slow, rec, sent);
            s1.slow == s2.slow && s1.rec == s2.rec && s1.good == s2.good && s1.bad == s2.bad
  {
    KindPermutes(c1, c2, Slow, slow, rec);
    KindPermutes(c1, c2, Reconnecting, slow, rec);
    KindPermutes(c1, c2, Valid, slow, rec);
    var v1, v2 := OfKind(c1, Valid, slow, rec), OfKind(c2, Valid, slow, rec);
    forall x: Client
      ensures multiset(Failing(v1, sent))[x] == multiset(Failing(v2, sent))[x]
    {
      FailingMembers(v1, sent, x);
      FailingMembers(v2, sent, x);
    }
    TallyPermutes(Failing(v1, sent), Failing(v2, sent));
  }

  lemma KindPermutes(c1: seq<Client>, c2: seq<Client>, k: Kind, slow: set<string>, rec: set<string>)
    requires multiset(c1) == multiset(c2)
    ensures multiset(OfKind(c1, k, slow, rec)) == multiset(OfKind(c2, k, slow, rec))
    ensures TallyOf(OfKind(c1, k, slow, rec)) == TallyOf(OfKind(c2, k, slow, rec))
  {
    var o1, o2 := OfKind(c1, k, slow, rec), OfKind(c2, k, slow, rec);
    forall x: Client
      ensures multiset(o1)[x] == multiset(o2)[x]
    {
      KindMembers(c1, k, slow, rec, x);
      KindMembers(c2, k, slow, rec, x);
    }
    TallyPermutes(o1, o2);
  }
}
