# Verified model of the hydra scale-testing harness

hydra launches publishers and thousands of subscribers on a Mesos/Marathon cluster, drives the publisher at
requested rates, collects what the subscribers received, and searches for the highest rate a system carries.
This project models the parts of hydra that decide something and proves what they keep, for every input and over
every run:

| file | part of hydra |
|---|---|
| `RateSearch.dfy`, `PlateauSearch.dfy`, `Scanner.dfy` | the two searches of `Scanner` |
| `BoundaryRunner.dfy` | the remembered result, first-run flag and retries of `boundary_run` |
| `Pacing.dfy`, `ZmqPub.dfy`, `ZmqSub.dfy` | the Python publisher's pacing loop and the subscriber's limiter |
| `CppPublisher.dfy`, `CppMain.dfy` | the C++ publisher: commands, main loop, batch counter, statistics |
| `CppLiveness.dfy`, `CppPacing.dfy` | how long it stays away from its poll, when its tests end, and how much they send |
| `TaskBook.dfy`, `HydraGroups.dfy` | tasks, groups, random group creation, removal of silent tasks |
| `Ramp.dfy`, `Scaling.dfy` | batched scaling and draining, and the Marathon calls under them |
| `StatsCollection.dfy`, `ResultParser.dfy` | reading counts until they are stable, and summing them up |
| `Powers.dfy`, `Wrappers.dfy` | real arithmetic, optional values and results |

Code that changes state is a class or a method with the source's loops; each method is proved against a function or
a relation on values, and the lemmas are about those. Whatever hydra does not control is a parameter: the run
function and the attempts of a test are functions of the number of the call, so they stand for any behaviour,
including a different answer to the same question; sends take any time at all, and a sleep takes at least the time
asked for (for the C++ publisher, whose clock shows whole seconds, that is `KeepsTime` and
`FeedKeepsTime`, asked for only where a result needs it); the cluster shows any counts. Numbers in the searches and in pacing are exact reals.

## What the code does not keep

Each of these is a property one would expect. A lemma gives an input on which it fails, and another says exactly
when it holds.

- **The rate search can report a rate that failed.** The best result is compared by `abs(best_res - res)`, not by
  the distance between the best and the expected result. On a step response the reported rate is below the
  threshold exactly if the passing result *equals* the expected one or the last probe passed
  (`SearchPrecision`, `SafeExactlyWhenExpected`). `maxrate_test.py:79` searches for an expected drop of 0.5 where
  passing runs drop nothing: there the reported rate can be well above the threshold (`ReportsFailingRate`).
  For any run function the best result is replaced, on its own side of the expected one, only by one that more than
  halves the distance to it (`DisplacedExactly`), so it is within twice the smallest distance seen (`BestIsNear`).
  Searching for 0 is safe as long as no valid client counts more packets than were sent (`ZeroLossPasses`), and for
  all clients that count at most `cap` packets only then (`ZeroLossPassesExactly`): one packet too many gives a
  negative loss, which counts as a pass (`OvercountPasses`).
- **`rerun_test` can follow a failure.** If deleting the apps after a failed update raises, the first-run flag stays
  off and the next call updates apps that may be half deleted (`UpdateAfterFailureReachable`). Whatever rates are
  asked for, every update directly follows a success exactly if the environment lets no clean-up raise after a
  failure that comes directly after a success (`UpdatesDirectExactly`).
- **A C++ publisher with a batch of one or zero hardly polls during a test.** On every clock that respects the sleeps
  it polls again within a batch of messages and one sleep exactly if the batch is at least two (`ResponsiveExactly`).
  With a batch of one it polls again exactly when a turn finds the duration passed (`BatchOneReturnsExactly`), which
  happens (`BatchOneReturnsInTime`) but after any number of messages (`DeafMachine`). With a batch of zero the
  comparison wraps around, and the next poll comes after 2^32 - 2 messages (`BatchZeroReturnsLate`).
- **A C++ publisher with a batch of zero never ends a test.** A test ends, while its configuration stays as it is,
  exactly if the batch is not zero (`OverdueStopsExactly`, `TestEndsExactly`, `BatchZeroNeverStops`). Both batches can
  be set by `updateconfig`.
- **A C++ publisher with a batch of zero is not paced at all.** The bound on the messages of a test holds for every
  test exactly if the batch is not zero (`CppPacingBound`, `PacedExactly`, `UnpacedTest`).
- **A ramp can repeat its last target.** The targets issued ascend strictly unless the goal is a whole number of
  batches away and is not seen at any look at the cluster before a request (`IssuedAscends`); losing one task at the
  wrong moment is enough (`DriftRepeats`), so they always ascend exactly if the goal is no whole number of batches
  away (`AscendsExactly`). A drain goes by way of zero instances when the count is a whole number of
  batches of more than one (`HonestDrain`).
- **A failing kill loses a live task.** `delete_tasks_from_group` pops the task before killing it, so when the kill
  raises the task is in no group although it still runs, and `num_tasks` still counts it (`FailingKillLosesTask`);
  the tasks gone are the tasks killed exactly if none of the kills asked for raises (`PoppedAreKilledExactly`).
- **No loss does not mean no failing client** once a client counts more packets than were sent
  (`OvercountHidesLoss`). The two say the same for all clients that count at most `cap` packets exactly if
  `cap <= sent`, or a single packet was sent (`LossTellsExactly`).
- The comment at `hydrabase.py:667` speaks of 100 stable reads; the code, and so the model, stops after 41.

## Model

| member | source | states |
|---|---|---|
| RateSearch.ClimbingLadder | src/main/python/hydra/lib/boundary.py:34-37 | while every probe passes, probe n is at the start doubled n times, nothing is toggled and n doublings are counted |
| RateSearch.DescendingLadder | src/main/python/hydra/lib/boundary.py:41-43 | while every probe fails, probe n is at the start halved n times |
| RateSearch.HiddenBracket | src/main/python/hydra/lib/boundary.py:34-58 | for any run function, once a run failed `value + abs(last_increase)` is a probed failing rate and `value - abs(last_increase)` is 0 or a probed passing rate |
| RateSearch.BracketsNest | src/main/python/hydra/lib/boundary.py:34-58 | over any stretch after the first failure the lower end never falls, the upper end never rises and the width is halved by every probe |
| RateSearch.NormalEndHasPassed | src/main/python/hydra/lib/boundary.py:34-58 | a search that ends without a broken run has seen a failing and a passing run, and its bracket is between a probed passing and a probed failing rate |
| RateSearch.NoStopOnLadder | src/main/python/hydra/lib/boundary.py:55-56 | no probe up to and including the first change of verdict is precise enough to stop at |
| RateSearch.SearchCost | src/main/python/hydra/lib/boundary.py:30-61 | for any run function whose ladder changes verdict at rung k, the step count exceeds k, is at most k + m for every m with 1/2^m (`Halved(1.0, m)`) at most the error, and at least k + m - 1 for the least such m; the toggle count is k or 0 |
| Powers.TruncateTowardsZero | src/main/c/zmq/zmq_pub.cc:111-116 | a rate that is not an integer loses its fraction, towards zero |
| Powers.HalvedReciprocal | src/main/python/hydra/lib/boundary.py:34-43 | doubling 1 n times gives 2^n and halving it n times gives 1/2^n |
| RateSearch.HaltsExactly | src/main/python/hydra/lib/boundary.py:30-61 | the search returns if and only if some run breaks or the ladder of doubled or halved rates changes verdict |
| RateSearch.StepResponseHalts | src/main/python/hydra/lib/boundary.py:20-63 | on a step response with a positive threshold the search always returns |
| RateSearch.DisplacedExactly | src/main/python/hydra/lib/boundary.py:49-54 | for any run: a different result takes the place of the best one, with its rate, if and only if it more than halves the distance to the expected result or, on the other side of that, the best one is not exactly the expected one |
| RateSearch.EqualKeepsHigherRate | src/main/python/hydra/lib/boundary.py:49-54 | of two equal results the higher rate is kept |
| RateSearch.BestIsNear | src/main/python/hydra/lib/boundary.py:49-54 | for any run function: as long as the verdicts stay on the side of the best result, it gets no farther from the expected one and is within twice the distance of every result seen |
| RateSearch.BestIsProbed | src/main/python/hydra/lib/boundary.py:49-54 | for any run function the best result and rate come from one and the same probe |
| RateSearch.BrokenAtOnce | src/main/python/hydra/lib/boundary.py:26-31 | a search whose first run is broken reports the result -1 at rate 0 |
| RateSearch.ReportsNearerPass | src/main/python/hydra/lib/boundary.py:49-54 | with drops of 0 and 2/5 below a threshold of 2000, a search for 1/2 from 1000 reports 2/5 at rate 1875 after five probes |
| RateSearch.BestSoFar | src/main/python/hydra/lib/boundary.py:49-54 | after any number of probes the best result is the highest passing rate known, exactly if something passed and the passing result equals the expected one or the last probe passed; otherwise it is a failing rate |
| RateSearch.SearchPrecision | src/main/python/hydra/lib/boundary.py:20-63 | at the end of a search on a step response with threshold T the reported rate r satisfies (1 - error) T < r < T <= r + abs(last_increase) if the passing result is the expected one or the last probe passed, and otherwise a failing rate is reported |
| RateSearch.SafeExactlyWhenExpected | src/main/python/hydra/lib/boundary.py:49-54 | the reported rate is below the threshold for every start, threshold and error if and only if passing runs return exactly the expected result |
| RateSearch.ReportsFailingRate | src/main/python/hydra/lib/boundary.py:49-54 | with a passing result below the expected one, a search from 1 with threshold 6/5 ends after three probes reporting the failing rate 2 |
| Scanner.Scanner.Search | src/main/python/hydra/lib/boundary.py:20-63 | the loop ends at the first probe that may end it, with that probe's status, the best result so far and the count of doublings |
| Scanner.Scanner.FindMaxRate | src/main/python/hydra/lib/boundary.py:65-83 | returns the maximum rate over all probes, and the drop of one of the last two probes, which measured it |
| PlateauSearch.PreviousPositive | src/main/python/hydra/lib/boundary.py:68-82 | the rate divided by is positive at every probe reached |
| PlateauSearch.ContinuesExactly | src/main/python/hydra/lib/boundary.py:74-82 | the loop goes on if and only if the rate grew by at least 2% and is at least 1 |
| PlateauSearch.FirstContinues | src/main/python/hydra/lib/boundary.py:68-82 | after the first probe it goes on if and only if the rate is at least 1 |
| PlateauSearch.GrowthAlongProbes | src/main/python/hydra/lib/boundary.py:74-82 | continuing past probe n means a measured rate of at least 1.02^n |
| PlateauSearch.BoundedRatesEnd | src/main/python/hydra/lib/boundary.py:69-82 | with rates bounded by M the loop has continued n times only if 1.02^(n-1) <= M and n - 1 <= 50 M, and it ends |
| PlateauSearch.RatesIncrease | src/main/python/hydra/lib/boundary.py:71-82 | measured rates strictly increase while the loop continues |
| BoundaryRunner.TriesCoherent | src/main/python/hydra/lib/boundary.py:111-133 | the retry loop makes at most five attempts, gives up only after five failures or a clean-up that raised, and leaves the memo empty |
| BoundaryRunner.CallCoherent | src/main/python/hydra/lib/boundary.py:104-137 | a call hands the result function a result produced at the rate it reads, remembers just that one, retries only with full launches, and keeps the runner coherent even if it raises |
| BoundaryRunner.CallsCoherent | src/main/python/hydra/lib/boundary.py:93-140 | over any sequence of calls, including calls that raise, first run implies an empty memo, a non-empty memo holds exactly the rate in the options, and every report is for the rate asked for |
| BoundaryRunner.CallMeasured | src/main/python/hydra/lib/boundary.py:104-137 | a call reports, and remembers, the figures that the last attempt measured, its own or that of an earlier call for the same rate |
| BoundaryRunner.CallsMeasured | src/main/python/hydra/lib/boundary.py:93-140 | over any sequence of calls every report has the figures of the last attempt made by then |
| BoundaryRunner.OnlyRepeatsAreFree | src/main/python/hydra/lib/boundary.py:104-110 | after a report, asking again makes an attempt if and only if the rate is another, and else gives the same answer |
| BoundaryRunner.UpdatesFollowSuccess | src/main/python/hydra/lib/boundary.py:114-133 | in any log, `rerun_test` is only ever called directly after a success if and only if no failed update had a clean-up that raised before a later attempt |
| BoundaryRunner.CallsFit | src/main/python/hydra/lib/boundary.py:111-133 | over any sequence of calls attempt i is the environment's i-th, with its verdict and clean-up |
| BoundaryRunner.FreshRates | src/main/python/hydra/lib/boundary.py:106-110 | some sequence of rates makes any number of attempts |
| BoundaryRunner.UpdatesDirectExactly | src/main/python/hydra/lib/boundary.py:104-137 | for every environment: whatever rates are asked for, every `rerun_test` directly follows a success, if and only if no clean-up raises after a failure that comes directly after a success |
| BoundaryRunner.UpdateAfterFailureReachable | src/main/python/hydra/lib/boundary.py:123-133 | three calls in which an update directly follows a failed update |
| BoundaryRunner.ResetIsNeeded | src/main/python/hydra/zmqtest/runtest.py:57-59 | without the reset of the memo in `rerun_test` a third call reads rate 2 and is given a result produced at rate 1 |
| BoundaryRunner.BoundaryRunnerBase.RerunTest | src/main/python/hydra/zmqtest/runtest.py:57-126 | the memo is empty afterwards whether or not the test succeeds |
| BoundaryRunner.BoundaryRunnerBase.RunTest | src/main/python/hydra/zmqtest/runtest.py:128-137 | the memo is emptied unless the launch already failed |
| BoundaryRunner.BoundaryRunnerBase.BoundaryRun | src/main/python/hydra/lib/boundary.py:104-137 | flag, memo, options and outcome after the loop of attempts are those of the specified call |
| Pacing.StaysOnPace | src/main/python/hydra/zmqtest/zmq_pub.py:105-127 | at the end of every turn the completed batches are within max(rate, batch) times the elapsed time, whatever sends and sleeps take |
| Pacing.PacingBound | src/main/python/hydra/zmqtest/zmq_pub.py:105-127 | at the end of every turn the messages sent are at most max(rate, batch) times the elapsed time plus a batch less one |
| Pacing.SleepNeverCapped | src/main/python/hydra/zmqtest/zmq_pub.py:116-123 | if a batch is at most one second's worth no sleep of the whole run exceeds one second |
| Pacing.IdealClockExact | src/main/python/hydra/zmqtest/zmq_pub.py:105-127 | on an ideal clock the completed batches are sent at exactly the requested rate |
| Pacing.NeverPastDue | src/main/python/hydra/zmqtest/zmq_pub.py:116-123 | a pause never goes past the moment the messages are due, so a sender that is behind does not pause |
| Pacing.NeverSlower | src/main/python/hydra/zmqtest/zmq_pub.py:105-127 | on every clock, apart from the time that sending, oversleeping and reading the clock take, the sender is never slower than the requested rate |
| Pacing.CountsInBatches | src/main/python/hydra/zmqtest/zmq_pub.py:113-124 | after n messages the counter is n modulo the batch, so each full batch is checked once |
| Pacing.NegativeNotPaced | src/main/python/hydra/zmqtest/zmq_pub.py:117-120 | a negative rate gives no pause |
| Pacing.TestEnds | src/main/python/hydra/zmqtest/zmq_pub.py:108-127 | while the duration D has not passed the message count stays below floor(max(rate, batch) D) + batch, even if sends take no time |
| Pacing.ReportedRateBound | src/main/python/hydra/zmqtest/zmq_pub.py:125-130 | the reported rate is at most max(rate, batch) + (batch - 1) / D |
| ZmqPub.PubServer.PublishTest | src/main/python/hydra/zmqtest/zmq_pub.py:105-137 | for every requested rate: the loop ends at the first turn that sees the duration passed and stores that count, its rate and the stopping state; it divides by zero at the first full batch exactly if the rate is zero and the duration has not passed before, and else only if no time passed |
| ZmqSub.TurnLimits | src/main/python/hydra/zmqtest/zmq_sub.py:118-142 | one received message is within the ceiling after the limiter's sleep, and one beyond it on arrival |
| ZmqSub.LimiterBound | src/main/python/hydra/zmqtest/zmq_sub.py:118-151 | over any run from reset counters the messages received stay within max(rate, 1) times the time since the first at the end of every turn, and reconnects within the reconnect rate |
| ZmqSub.OneInFlight | src/main/python/hydra/zmqtest/zmq_sub.py:118-142 | when a message arrives, all messages of the run before it are within the ceiling |
| ZmqSub.NeverHeldBelow | src/main/python/hydra/zmqtest/zmq_sub.py:133-142 | over any run, apart from the time that waiting and counting take, the subscriber is never held below the receive rate |
| ZmqSub.ReconnectsExactly | src/main/python/hydra/zmqtest/zmq_sub.py:144-151 | a turn reconnects if and only if the reconnect rate allows for one more by then |
| ZmqSub.FirstAndLast | src/main/python/hydra/zmqtest/zmq_sub.py:118-132 | over a run the time of the first message is kept, that of the last is followed, and the index expected next is the one after the last |
| ZmqSub.SubServer.Receive | src/main/python/hydra/zmqtest/zmq_sub.py:118-151 | one turn updates the counters as specified, reports a gap exactly if the index is not the expected one, and reconnects exactly if more reconnects are due than were made |
| CppPublisher.UpdateKeepsRun | src/main/c/zmq/zmq_pub.cc:47-154 | no request touches the run in progress, and only an accepted start sets the start flag |
| CppPublisher.UpdateSettings | src/main/c/zmq/zmq_pub.cc:96-117 | an update is accepted if and only if every argument has a value of the right kind, and then duration, batch and rate are each that of the last argument of its name, in 32 bits and without its fraction, or as before |
| CppPublisher.RepliesExactly | src/main/c/zmq/zmq_pub.cc:47-154 | which requests are answered with a failure, a refusal, a pong, the statistics, or not at all |
| CppPublisher.DispatchKeepsInv | src/main/c/zmq/zmq_pub.cc:217-229 | starting and stopping a run restores agreement of flags, counter and statistics, with an elapsed time of at least a second at a stop; while a test publishes the statistics hold only its start time |
| CppPublisher.PollKeepsInv | src/main/c/zmq/zmq_pub.cc:198-229 | after any request no start is pending: the state "not publishing, start requested" is not reachable at a poll |
| CppPublisher.BurstKeepsInv | src/main/c/zmq/zmq_pub.cc:231-266 | one turn of the inner loop keeps flags, counter and statistics in agreement, for every batch including 0 and 1 |
| CppPublisher.EveryRun | src/main/c/zmq/zmq_pub.cc:22-36 | over every run and command sequence messages are sent only in a run and numbered from 0, the count reported at a stop is the number sent since the start, a run lasts at least a second, sleeps are at most a second, "starting" is never answered |
| CppPublisher.AcceptedBegins | src/main/c/zmq/zmq_pub.cc:67-78 | a run begins exactly right after an accepted start, so no accepted start is lost |
| CppPublisher.StartBeginsAtOnce | src/main/c/zmq/zmq_pub.cc:67-78 | a start is refused exactly during a test, and otherwise begins a run with a zero count in the same turn |
| CppPublisher.StatusTellsRun | src/main/c/zmq/zmq_pub.cc:79-94 | the status is "stopped" if and only if no run is in progress, and tells a running test from a stopping one |
| CppPublisher.StoppingCompletes | src/main/c/zmq/zmq_pub.cc:222-225 | once a test is stopping the next turn completes its statistics whatever is asked |
| CppPublisher.StatsKept | src/main/c/zmq/zmq_pub.cc:198-229 | between two tests the statistics stay those of the last one, over any idle turns and requests short of a new start |
| CppPublisher.StatusThenStats | src/main/python/hydra/lib/h_analyser.py:117-142 | after an answer "stopping" or "stopped" a later request for statistics gets those of the whole last run, however long the publisher idles and whatever it is asked in between, short of a new start |
| CppLiveness.BurstsCost | src/main/c/zmq/zmq_pub.cc:231-266 | each turn spent in the inner loop sends one message and at most one sleep happens before it is left |
| CppLiveness.BurstReturnsToPoll | src/main/c/zmq/zmq_pub.cc:231-266 | with any counter value and any batch but 1 the inner loop ends, with at most batch - 1 sends (in 32-bit arithmetic) and one capped sleep |
| CppLiveness.TickingKeepsTime | src/main/c/zmq/zmq_pub.cc:239-250 | a turn sleeps for at most a second, so every clock that moves on a second each turn respects the sleeps |
| CppLiveness.BatchOneStays | src/main/c/zmq/zmq_pub.cc:231-266 | with a batch of one each turn sleeps and sends one message, without a poll, until a turn finds the duration passed |
| CppLiveness.BatchOneReturnsExactly | src/main/c/zmq/zmq_pub.cc:231-266 | with a batch of one, on any clock at all, the inner loop returns to the poll if and only if a turn finds the duration passed, or the counter is about to wrap around |
| CppLiveness.BatchOneReturnsInTime | src/main/c/zmq/zmq_pub.cc:231-266 | on a clock that respects the sleeps that happens within rate * (duration + 1) + duration + 3 turns |
| CppLiveness.EveryBatchReturns | src/main/c/zmq/zmq_pub.cc:231-266 | on a clock that respects the sleeps the inner loop returns to the poll with every batch and counter |
| CppLiveness.ResponsiveExactly | src/main/c/zmq/zmq_pub.cc:231-266 | the inner loop returns to the poll within a batch of messages and one sleep, for every state and every clock that respects the sleeps, if and only if the batch is at least 2 |
| CppLiveness.BatchZeroReturnsLate | src/main/c/zmq/zmq_pub.cc:231-266 | with a batch of 0 and a fresh counter the inner loop returns after exactly 2^32 - 2 messages, on any clock |
| CppLiveness.DeafMachine | src/main/c/zmq/zmq_pub.cc:231-266 | for every k a test with a batch of one, on a ticking clock, that sends k messages and sleeps k times before its next poll |
| CppLiveness.BatchZeroNeverStops | src/main/c/zmq/zmq_pub.cc:198-267 | with a batch of 0 a test is still running after any number of steps that do not change the configuration |
| CppLiveness.OverdueStops | src/main/c/zmq/zmq_pub.cc:198-246 | with a batch other than 0 an overdue test stops within two steps for each message left of a batch, for every counter value, in the inner loop or at the poll |
| CppLiveness.OverdueCompletes | src/main/c/zmq/zmq_pub.cc:198-246 | that is within 2 * batch + 2 steps, and one step later the statistics of the whole run are complete |
| CppLiveness.OverdueStopsExactly | src/main/c/zmq/zmq_pub.cc:198-267 | every overdue test comes to "stopping" over any steps that do not change the configuration, if and only if the batch is not 0 |
| CppLiveness.TestEndsExactly | src/main/c/zmq/zmq_pub.cc:198-267 | every test comes to "stopping" as time goes on over such steps, if and only if the batch is not 0 |
| CppPacing.CheckMakesUp | src/main/c/zmq/zmq_pub.cc:239-250 | a check makes up for the messages since the check before it, whether or not its pause is cut to a second |
| CppPacing.CppPacingBound | src/main/c/zmq/zmq_pub.cc:231-266 | on every clock that respects the sleeps, across polls and up to the stop, the messages of a test are at most max(rate, batch) * (elapsed + 1) plus max(batch - 1, 1), for every batch but 0 and every rate |
| CppPacing.PacedExactly | src/main/c/zmq/zmq_pub.cc:231-266 | that bound holds of every test on every such clock, if and only if the batch is not 0 |
| CppPacing.TurnNeverPastDue | src/main/c/zmq/zmq_pub.cc:239-250 | a turn that sleeps does not sleep past the moment its messages are due by the clock it read |
| CppPacing.PauseAtZero | src/main/c/zmq/zmq_pub.cc:241-249 | before the first message there is no pause, and at a rate of zero a full one ever after |
| CppPacing.NeverFarBehind | src/main/c/zmq/zmq_pub.cc:231-266 | on every clock that respects the sleeps, with any batch, apart from the time that sends, polls and oversleeping take, a test is at most a second's worth of messages behind the requested rate |
| CppPacing.ReportedWithinPace | src/main/c/zmq/zmq_pub.cc:30-36 | the count reported by a test that took w whole seconds is at most max(rate, batch) * (w + 2) plus max(batch - 1, 1) |
| CppMain.TestControl.StartTest | src/main/c/zmq/zmq_pub.cc:22-29 | only the start time remains in the statistics and the count is zero |
| CppMain.TestControl.StopTest | src/main/c/zmq/zmq_pub.cc:30-36 | end time, rate and message count are added; the elapsed time is required not to be zero |
| CppMain.TestControl.ProcessMessage | src/main/c/zmq/zmq_pub.cc:47-154 | reply and state are those specified for the command; no reply means an assertion on an argument failed |
| CppMain.Publisher.InnerTurn | src/main/c/zmq/zmq_pub.cc:231-266 | one pass of the loop body is one step of the inner loop of the machine |
| CppMain.Publisher.MainTurn | src/main/c/zmq/zmq_pub.cc:198-267 | a whole turn of the main loop is a poll step and then inner steps up to the next poll, on any clock with any batch but 1, and keeps the invariant |
| TaskBook.RegistrationMatters | src/main/python/hydra/lib/hydrabase.py:405-431 | the test of a random pick excludes tasks already picked if and only if some group is registered |
| TaskBook.AcceptablePickExists | src/main/python/hydra/lib/hydrabase.py:414-430 | an acceptable pick exists at a turn of the sampling loop if and only if fewer tasks were picked than are free |
| TaskBook.CreatedKeepsGood | src/main/python/hydra/lib/hydrabase.py:400-433 | a created group leaves all groups duplicate-free and disjoint |
| TaskBook.CreatedSize | src/main/python/hydra/lib/hydrabase.py:408-431 | a request for more than all tasks groups them all, one for fewer groups exactly as many, and a negative one none |
| TaskBook.RemovedKeepsGood | src/main/python/hydra/lib/hydrabase.py:591-609 | removal of tasks keeps each task list equal to its port map and the groups apart |
| TaskBook.RemovedExactly | src/main/python/hydra/lib/hydrabase.py:591-609 | the removed tasks are in no list, port map or group afterwards, every other task is where it was, and the groups keep their app and count |
| TaskBook.WithoutConcat | src/main/python/hydra/lib/hydrabase.py:591-609 | removal keeps the order of what is left |
| TaskBook.FillableExactly | src/main/python/hydra/lib/hydrabase.py:408-431 | a group of n distinct free tasks can be picked if and only if n tasks are free |
| TaskBook.OpKeepsGood | src/main/python/hydra/lib/hydrabase.py:83-128 | every operation on apps, tasks and groups keeps groups apart and lists in agreement with port maps |
| TaskBook.EveryHistoryGood | src/main/python/hydra/lib/hydrabase.py:166-168 | from the empty book, over every sequence of launching, refreshing and deleting apps, group creation and deletion, task deletion and removal of silent tasks, no group holds a task twice, no task is in two groups, each task list is its port map |
| HydraGroups.AppGroup.AddTasksToGroup | src/main/python/hydra/lib/hydrabase.py:83-94 | the members become the union, in front of which the old list stays, without new duplicates |
| HydraGroups.AppGroup.PopAndKill | src/main/python/hydra/lib/hydrabase.py:112-120 | the last tasks are popped and killed in turn and returned in reverse; at the first kill that raises the loop stops with that task gone and still counted |
| HydraGroups.ReversedAt | src/main/python/hydra/lib/hydrabase.py:112-117 | the deleted tasks are listed last first |
| HydraGroups.PoppedAreKilledExactly | src/main/python/hydra/lib/hydrabase.py:112-120 | the tasks gone are the tasks killed, and the count goes down by as many, if and only if none of the kills asked for raises |
| HydraGroups.FailingKillLosesTask | src/main/python/hydra/lib/hydrabase.py:112-120 | if one kill raises, of the task at any position, exactly the tasks before it are left, it is not among them, and the count went down by one less than the group |
| HydraGroups.PingAll | src/main/python/hydra/lib/hydrabase.py:573-589 | fails exactly if a task has no address; the removal list is the silent tasks in order and answers plus removals add up to the tasks pinged |
| HydraGroups.HydraBase.IsAcceptable | src/main/python/hydra/lib/hydrabase.py:421-426 | the loop over all groups decides acceptability of a pick |
| HydraGroups.HydraBase.DrawTasks | src/main/python/hydra/lib/hydrabase.py:414-430 | with enough free tasks and fair picks the sampling ends with exactly min(requested, available) distinct free tasks |
| HydraGroups.HydraBase.CreateAppInstancesGroup | src/main/python/hydra/lib/hydrabase.py:384-433 | refuses an unknown app or a used name without change, else registers a group of min(requested, available) distinct free tasks of the app and changes nothing else |
| HydraGroups.HydraBase.DeleteAppInstancesGroup | src/main/python/hydra/lib/hydrabase.py:435-446 | exactly the named group goes |
| HydraGroups.HydraBase.DeleteTasksFromGroup | src/main/python/hydra/lib/hydrabase.py:96-128 | outcome and new state in every case: all killed and refreshed, a kill that raised, an unknown app, a negative number |
| HydraGroups.HydraBase.CreateApp | src/main/python/hydra/lib/hydrabase.py:352-367 | an app not known yet becomes known with the tasks of its first snapshot; a known one is refused without change |
| HydraGroups.HydraBase.ForgetApp | src/main/python/hydra/lib/hydrabase.py:302-303 | exactly the app's entry goes, and the book stays good |
| HydraGroups.HydraBase.RefreshAppInfo | src/main/python/hydra/lib/hydrabase.py:611-627 | port map and task list become the snapshot and the groups stay as they are |
| HydraGroups.HydraBase.RemoveUnresponsiveTasks | src/main/python/hydra/lib/hydrabase.py:557-609 | afterwards the task list is the old one filtered in order, still equal to the port map, no group holds a silent task, all else is untouched, and answers plus removed tasks are the tasks pinged; on an error nothing changes |
| HydraGroups.SilentGo | src/main/python/hydra/lib/hydrabase.py:573-609 | a task that was pinged and did not answer is nowhere afterwards, and any other is where it was |
| Ramp.LadderShape | src/main/python/hydra/lib/hydrabase.py:495-524 | the targets of a ramp start at the threshold, end at the goal, never exceed it and move by at most a batch |
| Ramp.LadderLength | src/main/python/hydra/lib/hydrabase.py:495-524 | a ramp plans (goal - threshold) / batch + 2 requests |
| Ramp.LadderRungs | src/main/python/hydra/lib/hydrabase.py:495-524 | all planned targets but the last are whole batches above the threshold |
| Ramp.ClimbAscends | src/main/python/hydra/lib/hydrabase.py:495-524 | all planned targets but the last ascend strictly, and the last repeats the one before exactly if the goal is a whole number of batches from the threshold |
| Ramp.DrainShape | src/main/python/hydra/lib/hydrabase.py:304-319 | the targets of a drain are never negative, move by at most a batch, end at 1, and include 0 exactly for a whole number of batches |
| Ramp.DrainLength | src/main/python/hydra/lib/hydrabase.py:304-319 | a drain plans count / batch + 1 requests |
| Ramp.DrainRungs | src/main/python/hydra/lib/hydrabase.py:304-319 | all of them but the last are whole batches below the count |
| Ramp.IssuedAscends | src/main/python/hydra/lib/hydrabase.py:495-524 | whatever is observed, the targets issued ascend strictly unless the goal is a whole number of batches from the threshold and never seen before a request |
| Ramp.DriftRepeats | src/main/python/hydra/lib/hydrabase.py:495-524 | for every such goal one observation that is off by one task, on an otherwise honest cluster, makes the ramp ask for the goal twice |
| Ramp.AscendsExactly | src/main/python/hydra/lib/hydrabase.py:495-524 | the targets issued ascend strictly whatever is observed, if and only if the goal is no whole number of batches from the threshold |
| Ramp.HonestRamp | src/main/python/hydra/lib/hydrabase.py:493-530 | on a cluster that shows what was asked for, the targets issued ascend strictly from the threshold to exactly the goal, which is then seen |
| Ramp.HonestDrain | src/main/python/hydra/lib/hydrabase.py:303-319 | on such a cluster a drain ends at exactly 1, by way of 0 exactly for a whole number of batches of more than one |
| Scaling.AttemptsBounded | src/main/python/hydra/lib/mmapi.py:139-150 | a request retried every ten seconds is attempted fewer than timeout / 10 + 1 times |
| Scaling.InstantAttempts | src/main/python/hydra/lib/mmapi.py:139-150 | attempts that take no time start exactly ten seconds apart |
| Scaling.RetryUntilTimeout | src/main/python/hydra/lib/mmapi.py:139-150 | the retry loop stops at the first attempt that succeeds, starts none after the timeout, and fails only if none succeeded |
| Scaling.MarathonIF.WaitAppReady | src/main/python/hydra/lib/mmapi.py:118-137 | returns at the first poll that shows the count, having asked again for just that count once for every poll that showed more |
| Scaling.HydraScaler.ScaleApp | src/main/python/hydra/lib/hydrabase.py:474-530 | whatever is observed, the requests are the planned targets up to the first observation of the goal; succeeds exactly if the goal is seen at the end of the loop and at the refresh |
| Scaling.HydraScaler.DeleteApp | src/main/python/hydra/lib/hydrabase.py:291-325 | whatever is observed, the requests are the planned drain up to the first observation of one instance; the app is deleted exactly if one is seen, or if it was below the threshold |
| StatsCollection.MonotoneSettles | src/main/python/hydra/lib/hydrabase.py:658-672 | a count that never falls and is bounded is read twice in a row with the same value |
| StatsCollection.StableCountsTrailing | src/main/python/hydra/lib/hydrabase.py:651-672 | the counter of stable reads is the number of equal comparisons in a row at the end of all comparisons |
| StatsCollection.SwitchedOffExactly | src/main/python/hydra/lib/hydrabase.py:664-671 | checking goes off exactly after 41 equal comparisons in a row, so never among the first 40 clients |
| StatsCollection.ReadUntilStable | src/main/python/hydra/lib/hydrabase.py:658-672 | the count returned is the first that two readings in a row agree on |
| StatsCollection.FetchAppStats | src/main/python/hydra/lib/hydrabase.py:649-675 | terminates; every count recorded while checking was on was read twice in a row, every later one is a first reading, checking was on for exactly the clients it had to be, and the table holds the records by address |
| StatsCollection.TableKeepsAll | src/main/python/hydra/lib/hydrabase.py:674-675 | with an address of its own for every client the table holds every record |
| StatsCollection.TableHoldsLast | src/main/python/hydra/lib/hydrabase.py:674-675 | the table holds at each address the last record of a client there, and nothing else |
| ResultParser.KindMembers | src/main/python/hydra/zmqtest/runtest.py:187-202 | each kind's list holds exactly the clients of that kind |
| ResultParser.KindsPartition | src/main/python/hydra/zmqtest/runtest.py:187-202 | slow, reconnecting and valid clients partition all clients and their packets add up to the total |
| ResultParser.KindRules | src/main/python/hydra/zmqtest/runtest.py:187-197 | a client is valid if and only if it received something and is in neither list, reconnecting if it received something and is only in that list, and slow otherwise |
| ResultParser.SumUp | src/main/python/hydra/zmqtest/runtest.py:166-209 | the accumulators of the loop are the sums over the clients of each kind and over the failing ones |
| ResultParser.ParseResult | src/main/python/hydra/zmqtest/runtest.py:156-259 | fails exactly without a valid client, without packets sent or without elapsed time; otherwise reports counts, averages and loss over the valid clients |
| ResultParser.ReportedRates | src/main/python/hydra/zmqtest/runtest.py:205-241 | the average rate lies between the lowest and the highest rate of a valid client; the rate of the failing clients is given if and only if there are any, and lies between theirs |
| ResultParser.ReportedCounts | src/main/python/hydra/zmqtest/runtest.py:233-239 | the clients are the valid, slow and reconnecting ones, the failing ones are valid ones, and the average is the packets of the valid clients shared out evenly without the remainder |
| ResultParser.ReportedLoad | src/main/python/hydra/zmqtest/runtest.py:244-257 | the publisher's processor and network figures make up its totals over the time its test took |
| ResultParser.SearchIsGiven | src/main/python/hydra/zmqtest/runtest.py:139-151 | a search is given a rate between those of the valid clients, and a broken run if and only if the publisher sent less than 7/10 of the requested rate |
| ResultParser.ReconnectsAddUp | src/main/python/hydra/zmqtest/runtest.py:191-195 | the reconnects of clients are added up, each client's once |
| ResultParser.LossRange | src/main/python/hydra/zmqtest/runtest.py:242-243 | the loss is at most 100, is 100 exactly if nothing was received, not negative exactly if the average is at most what was sent, and 0 exactly if it equals it |
| ResultParser.LossIsShareMissed | src/main/python/hydra/zmqtest/runtest.py:242-243 | the loss is the share, in hundredths, of the packets that should have been received and were not |
| ResultParser.LossMeansFailing | src/main/python/hydra/zmqtest/runtest.py:199-243 | if no valid client counts more than was sent the loss is in [0, 100) and is 0 exactly when no client is failing |
| ResultParser.LossTellsExactly | src/main/python/hydra/zmqtest/runtest.py:199-243 | no loss means no failing client, for all clients that count at most cap packets, if and only if cap is at most what was sent or one packet was sent |
| ResultParser.OvercountHidesLoss | src/main/python/hydra/zmqtest/runtest.py:203-243 | for more than one packet sent, counts of one less and one more give a loss of 0 and two failing clients |
| ResultParser.ZeroLossPasses | src/main/python/hydra/zmqtest/runtest.py:139-151 | if no valid client counts more than was sent, the answer given to a search on a parsed report is at most 0, and then exactly 0, if and only if no client is failing |
| ResultParser.ZeroLossPassesExactly | src/main/python/hydra/zmqtest/runtest.py:139-243 | that is so for all clients that count at most cap packets, if and only if cap is at most what was sent |
| ResultParser.OvercountPasses | src/main/python/hydra/zmqtest/runtest.py:203-243 | one client that counts a packet too many gives a negative loss and one failing client |
| ResultParser.OrderIrrelevant | src/main/python/hydra/zmqtest/runtest.py:178-209 | the sums do not depend on the order in which the dictionary of clients is walked |

## Left out

- Sockets, protobuf bytes, HTTP calls, processes and iptables commands; a command arrives decoded, or as one that cannot be decoded.
- The RabbitMQ and Kafka publishers and result parsers: the same loops as the ZMQ ones.
- Interleavings of the Python publisher's reply thread with its loop: rate, batch and duration are fixed during a test.
- Rounding of floating-point numbers, and the truncation of the returned best result to an integer.
- Logging, options, the command line, the app server, configuration files, processor and traffic statistics beyond the quotients in the report.
- The mock back end and `ChildManager`; the choice of slow and reconnecting clients at random in `rerun_test`.
- The check of the `analyser` argument of `AppGroup`, and the assertions of scaling and statistics that an app or group of the given name exists: those take the app's own list.
- `range` of `Scanner`, and property and lookup methods of `HydraBase` that only read or write one entry.
- RateSearch.HaltsExactly, RateSearch.SearchCost and RateSearch.SearchPrecision: for a positive start and an error of at most one half, the range in which the ladder is never left early; `Scanner.Search` itself has no such bound, but asks that the search returns at all.
- Pacing.PacingBound: for a positive requested rate; a negative one is not paced.
- ZmqPub.PubServer.PublishTest: with a negative rate, asks that the clock passes the duration, without which the source sends forever.
- CppMain.Publisher.MainTurn: with a batch of 1, asks that the clock passes the duration, without which the source stays in its inner loop.
- CppPacing.CppPacingBound: for requests that do not change the configuration while the test runs.
- CppPublisher.EveryRun: 32-bit arithmetic is modelled for the batch counter and the configuration; the 64-bit message count does not wrap, the clock does not go backwards, a fractional rate outside the 32-bit range is taken modulo 2^32 where C++ leaves it undefined, and an error of the poll itself is not modelled.
- CppLiveness.EveryBatchReturns: for a clock that respects the sleeps; a `usleep` cut short by a signal is not modelled.
- CppLiveness.TestEndsExactly: for requests that do not change the configuration while the test runs.
- HydraGroups.HydraBase.CreateAppInstancesGroup: asks for enough free tasks, without which no picks would do (`FillableExactly`), and for random picks that come up with every position again and again; without them the source samples forever.
- HydraGroups.HydraBase.DeleteTasksFromGroup: the name a task is killed under, which drops the port from its id.
- HydraGroups.HydraBase.RefreshAppInfo: the snapshot is the table of task ids and addresses; building the ids from host and ports is not modelled, and neither is the reset of statistics and properties.
- Scaling.MarathonIF.WaitAppReady: asks that some poll shows the count, without which the source polls forever.
- HydraGroups.HydraBase.CreateApp: the request to the cluster and the wait for the first task.
- Scaling.HydraScaler.ScaleApp: each request is taken to succeed within its retries, and the cluster to reach every count it is asked for; the batch is positive.
- Scaling.HydraScaler.DeleteApp: deleting the deployments and the app itself, and waiting for its removal.
- StatsCollection.FetchAppStats: the table is returned, not stored, so a table cut short by a task without an address is not modelled; it asks that each client's count settles at some point, without which the source reads forever.
