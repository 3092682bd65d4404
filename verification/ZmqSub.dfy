/** The Python subscriber: the receive limiter and the reconnect counter. */
module ZmqSub {
  import opened Powers
  import opened Pacing

  /** Counters of a subscriber; times are readings of one clock. */
  datatype Sub = Sub(msgCnt: nat, startIdx: int, reconnectCnt: nat, first: real, last: real, now: real) {
    function Elapsed(): real { now - first }
  }

  /** The sleep after message number `cnt`; a receive rate of zero means no limit. */
  function LimiterSleep(cnt: nat, recvRate: real, elapsed: real): (d: real)
    ensures 0.0 <= d <= 1.0
  {
    if recvRate == 0.0 then 0.0
    else
      var duration := cnt as real / recvRate;
      if elapsed >= duration then 0.0
      else if duration - elapsed > 1.0 then 1.0
      else duration - elapsed
  }

  /** More reconnects are due by now than have been made; a reconnect rate of zero means none. */
  predicate ReconnectDue(reconnectRate: real, elapsed: real, reconnects: nat) {
    reconnectRate != 0.0 && Truncate(reconnectRate * elapsed) > reconnects
  }

  /** One received message: its index, the wait for it, and the rest of the turn, in which `turn.message` is the
      time it takes to count the message. */
  datatype Receipt = Receipt(index: int, wait: real, turn: Turn) {
    predicate Valid() { wait >= 0.0 && turn.Valid() }
  }

  /** Receiving and counting one message. */
  function Arrive(s: Sub, r: Receipt): Sub {
    var now := s.now + r.wait;
    Sub(s.msgCnt + 1, r.index + 1, s.reconnectCnt, if s.msgCnt == 0 then now else s.first, now, now + r.turn.message)
  }

  /** The rest of the turn: the limiter's sleep, and a reconnect if one is due. */
  function Finish(s: Sub, recvRate: real, reconnectRate: real, t: Turn): Sub {
    var now := s.now + LimiterSleep(s.msgCnt, recvRate, s.Elapsed()) + t.overrun + t.read;
    s.(now := now,
       reconnectCnt := if ReconnectDue(reconnectRate, now - s.first, s.reconnectCnt) then s.reconnectCnt + 1 else s.reconnectCnt)
  }

  function Next(s: Sub, recvRate: real, reconnectRate: real, r: Receipt): Sub {
    Finish(Arrive(s, r), recvRate, reconnectRate, r.turn)
  }

  /** A run: the receipts of all messages. */
  function Run(s: Sub, recvRate: real, reconnectRate: real, input: seq<Receipt>): Sub {
    if input == [] then s
    else Next(Run(s, recvRate, reconnectRate, input[..|input| - 1]), recvRate, reconnectRate, input[|input| - 1])
  }

  function Ceiling(recvRate: real): real { if recvRate > 1.0 then recvRate else 1.0 }

  ghost predicate Held(s: Sub, recvRate: real, reconnectRate: real) {
    && (s.msgCnt > 0 ==> s.Elapsed() >= 0.0)
    && (recvRate > 0.0 ==> s.msgCnt == 0 || Allowed(Ceiling(recvRate), s.Elapsed(), s.msgCnt as real))
    && (s.msgCnt == 0 ==> s.reconnectCnt == 0)
    && (s.reconnectCnt > 0 ==> reconnectRate > 0.0 && Allowed(reconnectRate, s.Elapsed(), s.reconnectCnt as real))
  }

  /** One message is within the ceiling after the limiter's sleep, and at most one beyond it on arrival. */
  lemma TurnLimits(s: Sub, recvRate: real, reconnectRate: real, r: Receipt)
    requires Held(s, recvRate, reconnectRate) && r.Valid() && recvRate > 0.0
    ensures Allowed(Ceiling(recvRate), Next(s, recvRate, reconnectRate, r).Elapsed(), (s.msgCnt + 1) as real)
    ensures Allowed(Ceiling(recvRate), Arrive(s, r).Elapsed(), s.msgCnt as real)
  {
    var a := Arrive(s, r);
    var until := Next(s, recvRate, reconnectRate, r).Elapsed();
    var before := if s.msgCnt == 0 then 0.0 else s.Elapsed();
    AllowedLater(Ceiling(recvRate), before, a.Elapsed(), s.msgCnt as real);
    CheckRestoresPace(Ceiling(recvRate), 1.0, recvRate, s.msgCnt as real, a.msgCnt as real, before, a.Elapsed(), until);
  }

  lemma TurnHolds(s: Sub, recvRate: real, reconnectRate: real, r: Receipt)
    requires Held(s, recvRate, reconnectRate) && r.Valid()
    ensures Held(Next(s, recvRate, reconnectRate, r), recvRate, reconnectRate)
  {
    var s' := Next(s, recvRate, reconnectRate, r);
    if recvRate > 0.0 {
      TurnLimits(s, recvRate, reconnectRate, r);
    }
    if ReconnectDue(reconnectRate, s'.Elapsed(), s.reconnectCnt) {
      DueIsAllowed(reconnectRate, s'.Elapsed(), s.reconnectCnt);
    } else if s.reconnectCnt > 0 {
      AllowedLater(reconnectRate, s.Elapsed(), s'.Elapsed(), s.reconnectCnt as real);
    }
  }

  lemma DueIsAllowed(rate: real, elapsed: real, reconnects: nat)
    requires elapsed >= 0.0 && ReconnectDue(rate, elapsed, reconnects)
    ensures rate > 0.0 && Allowed(rate, elapsed, reconnects as real + 1.0)
  {
    if rate <= 0.0 {
      MulMonotone(elapsed, rate, 0.0);
    }
  }

  /** Over any run from reset counters: the messages received stay within the ceiling at the end of every turn,
      and the reconnects within what the reconnect rate allows. */
  lemma {:induction false} LimiterBound(s: Sub, recvRate: real, reconnectRate: real, input: seq<Receipt>)
    requires s.msgCnt == 0 && s.reconnectCnt == 0
    requires forall r :: r in input ==> r.Valid()
    ensures Run(s, recvRate, reconnectRate, input).msgCnt == |input|
    ensures Held(Run(s, recvRate, reconnectRate, input), recvRate, reconnectRate)
  {
    if input != [] {
      var init, last := input[..|input| - 1], input[|input| - 1];
      LimiterBound(s, recvRate, reconnectRate, init);
      TurnHolds(Run(s, recvRate, reconnectRate, init), recvRate, reconnectRate, last);
    }
  }

  /** The next message of such a run is the only one in flight: on arrival all others are within the ceiling. */
  lemma OneInFlight(s: Sub, recvRate: real, reconnectRate: real, input: seq<Receipt>, next: Receipt)
    requires s.msgCnt == 0 && s.reconnectCnt == 0 && recvRate > 0.0 && next.Valid()
    requires forall r :: r in input ==> r.Valid()
    ensures Allowed(Ceiling(recvRate), Arrive(Run(s, recvRate, reconnectRate, input), next).Elapsed(), |input| as real)
  {
    LimiterBound(s, recvRate, reconnectRate, input);
    TurnLimits(Run(s, recvRate, reconnectRate, input), recvRate, reconnectRate, next);
  }

  /** The limiter never sleeps past the moment the messages are due, and not at all without a limit. */
  lemma SleepNeverPastDue(cnt: nat, recvRate: real, elapsed: real)
    requires recvRate >= 0.0 && LimiterSleep(cnt, recvRate, elapsed) > 0.0
    ensures recvRate > 0.0 && DueBy(recvRate, elapsed + LimiterSleep(cnt, recvRate, elapsed), cnt as real)
  {
    var until := elapsed + LimiterSleep(cnt, recvRate, elapsed);
    assert until <= cnt as real / recvRate;
    MulMonotone(recvRate, until, cnt as real / recvRate);
    QuotientTimes(cnt as real, recvRate);
  }

  /** The time of a run that is not sleep asked for by the limiter. */
  function Lost(input: seq<Receipt>): real {
    if input == [] then 0.0
    else
      var last := input[|input| - 1];
      Lost(input[..|input| - 1]) + last.wait + last.turn.message + last.turn.overrun + last.turn.read
  }

  /** Over any run from reset counters: apart from the time that waiting and counting take, the subscriber is never
      held below the receive rate. */
  lemma {:induction false} NeverHeldBelow(s: Sub, recvRate: real, reconnectRate: real, input: seq<Receipt>)
    requires s.msgCnt == 0 && s.reconnectCnt == 0 && recvRate > 0.0 && input != []
    requires forall r :: r in input ==> r.Valid()
    ensures Lost(input) >= 0.0
    ensures DueBy(recvRate, Run(s, recvRate, reconnectRate, input).Elapsed() - Lost(input), |input| as real)
  {
    var init, last := input[..|input| - 1], input[|input| - 1];
    var before := Run(s, recvRate, reconnectRate, init);
    LimiterBound(s, recvRate, reconnectRate, init);
    if init != [] {
      NeverHeldBelow(s, recvRate, reconnectRate, init);
      TurnNotBelow(before, recvRate, reconnectRate, last, Lost(init));
    } else {
      TurnNotBelow(before.(first := before.now), recvRate, reconnectRate, last, 0.0);
    }
  }

  lemma TurnNotBelow(s: Sub, recvRate: real, reconnectRate: real, r: Receipt, lost: real)
    requires recvRate > 0.0 && r.Valid() && lost >= 0.0 && s.Elapsed() >= 0.0
    requires DueBy(recvRate, s.Elapsed() - lost, s.msgCnt as real)
    ensures var lost' := lost + r.wait + r.turn.message + r.turn.overrun + r.turn.read;
            DueBy(recvRate, Next(s, recvRate, reconnectRate, r).Elapsed() - lost', (s.msgCnt + 1) as real)
  {
    var a := Arrive(s, r);
    var sleep := LimiterSleep(a.msgCnt, recvRate, a.Elapsed());
    var left := Next(s, recvRate, reconnectRate, r).Elapsed() - (lost + r.wait + r.turn.message + r.turn.overrun + r.turn.read);
    if sleep > 0.0 {
      SleepNeverPastDue(a.msgCnt, recvRate, a.Elapsed());
      DueEarlier(recvRate, a.Elapsed() + sleep, left, a.msgCnt as real);
    } else {
      DueEarlier(recvRate, s.Elapsed() - lost, left, s.msgCnt as real);
    }
  }

  /** A turn reconnects exactly if the reconnect rate allows for one more than were made. */
  lemma ReconnectsExactly(s: Sub, recvRate: real, reconnectRate: real, r: Receipt)
    ensures var s' := Next(s, recvRate, reconnectRate, r);
            && (s'.reconnectCnt == s.reconnectCnt + 1 <==>
                  reconnectRate != 0.0 && reconnectRate * s'.Elapsed() >= (s.reconnectCnt + 1) as real)
            && (s'.reconnectCnt == s.reconnectCnt || s'.reconnectCnt == s.reconnectCnt + 1)
  {
  }

  /** Over a run the time of the first message is kept, the last one is followed, and the index expected next is the
      one after it. */
  lemma {:induction false} FirstAndLast(s: Sub, recvRate: real, reconnectRate: real, input: seq<Receipt>)
    requires s.msgCnt == 0 && input != []
    ensures var s' := Run(s, recvRate, reconnectRate, input);
            var before := Run(s, recvRate, reconnectRate, input[..|input| - 1]);
            && s'.msgCnt == |input| && s'.first == s.now + input[0].wait
            && s'.last == before.now + input[|input| - 1].wait && s'.startIdx == input[|input| - 1].index + 1
  {
    var init := input[..|input| - 1];
    if init != [] {
      FirstAndLast(s, recvRate, reconnectRate, init);
      assert init[0] == input[0];
    }
  }

  class SubServer {
    var recvRate: real
    var reconnectRate: real
    var msgCnt: nat
    var startIdx: int
    var reconnectCnt: nat
    var first: real
    var last: real
    var now: real

    ghost function View(): Sub reads this { Sub(msgCnt, startIdx, reconnectCnt, first, last, now) }

    /** One received message; `gap` says it was not the one expected next, `reconnect` that the socket is
        closed and opened again. */
    method Receive(receipt: Receipt) returns (gap: bool, reconnect: bool)
      modifies this`msgCnt, this`startIdx, this`reconnectCnt, this`first, this`last, this`now
      ensures View() == Next(old(View()), recvRate, reconnectRate, receipt)
      ensures gap <==> receipt.index != old(startIdx)
      ensures reconnect <==> reconnectCnt == old(reconnectCnt) + 1
    {
      now := now + receipt.wait;
      if msgCnt == 0 {
        first := now;
      }
      msgCnt := msgCnt + 1;
      gap := startIdx != receipt.index;
      if gap {
        startIdx := receipt.index;
      }
      startIdx := startIdx + 1;
      last := now;
      now := now + receipt.turn.message;
      var sleepTime := 0.0;
      if recvRate != 0.0 {
        var duration := msgCnt as real / recvRate;
        var currentDuration := now - first;
        if currentDuration < duration {
          sleepTime := duration - currentDuration;
          if sleepTime > 1.0 {
            sleepTime := 1.0;
          }
        }
      }
      assert View() == Arrive(old(View()), receipt);
      assert sleepTime == LimiterSleep(msgCnt, recvRate, now - first);
      now := now + sleepTime + receipt.turn.overrun + receipt.turn.read;
      reconnect := ReconnectDue(reconnectRate, now - first, reconnectCnt);
      if reconnect {
        reconnectCnt := reconnectCnt + 1;
      }
    }
  }
}
