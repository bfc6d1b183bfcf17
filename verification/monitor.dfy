/**
 * The distance-limit test of the robot simulation harness: a steppable that
 * the simulation polls once per tick, checks a distance reading against a
 * range limit with a grace duration and a hard floor, and records the first
 * violation; and the `run` sequence around it (preconditions, waiting for the
 * steppable's removal, re-raising the stored error, stopping the controller).
 *
 * Instants and durations are integer milliseconds; the distance reading is a
 * `real` supplied with each tick.
 */
module Testing {
  import opened Wrappers

  /** A reading at or below this distance fails the test at once. */
  const HardFloor: real := 0.03

  /** The test's constructor arguments; durations in milliseconds. */
  datatype TestParams = TestParams(
    rangeLimit: real,
    allowableOutsideLimit: int,
    startupTime: int,
    timeout: int)

  /** The two instants `run` derives from its start instant. */
  datatype Schedule = Schedule(startAfter: int, endAt: int)

  function ScheduleFrom(p: TestParams, start: int): Schedule
  {
    Schedule(start + p.startupTime, start + p.timeout)
  }

  /** The two assertion failures the steppable can capture. */
  datatype Violation =
    | TooClose(distance: real)
    | ExceededLimit(rangeLimit: real, allowable: int)

  /** The steppable's fields (`lastGood`, `ended`) and the test's (`failed`, `error`). */
  datatype MonitorState = MonitorState(
    lastGood: Option<int>,
    ended: bool,
    failed: bool,
    error: Option<Violation>)

  const Initial := MonitorState(None, false, false, None)

  /** One tick of the simulation clock, with the distance the sensor would report. */
  datatype Tick = Tick(now: int, reading: real)

  /** `isWithinRange`: the range limit is inclusive. */
  predicate WithinRange(p: TestParams, reading: real)
  {
    reading <= p.rangeLimit
  }

  /** The steppable's `remove`. */
  predicate Removes(s: MonitorState)
  {
    s.failed || s.ended
  }

  /** A failure flag is never held without a captured error, nor an error without the flag. */
  predicate Consistent(s: MonitorState)
  {
    s.failed <==> s.error.Some?
  }

  /** The tick is checked: not past the end, past the start-up window, and a baseline exists. */
  predicate Monitoring(sch: Schedule, s: MonitorState, now: int)
  {
    now <= sch.endAt && s.lastGood.Some? && now > sch.startAfter
  }

  /** The violation the assertion message reports when the grace duration is exceeded. */
  function Exceeded(p: TestParams): Violation
  {
    ExceededLimit(p.rangeLimit, p.allowableOutsideLimit)
  }

  /** The catch block: an assertion failure sets the flag and stores the error. */
  function Capture(s: MonitorState, v: Violation): MonitorState
  {
    s.(failed := true, error := Some(v))
  }

  /**
   * The steppable's `step` on the record state. Each tick does exactly one of:
   * end the run, treat the tick as good without reading, fail on the hard
   * floor, refresh the baseline, fail after the grace duration, or tolerate.
   */
  function Next(p: TestParams, sch: Schedule, s: MonitorState, now: int, reading: real): (r: MonitorState)
    // after endAt: success; the baseline, the flag and the error are kept
    ensures now > sch.endAt ==> r.ended && r.lastGood == s.lastGood && r.failed == s.failed && r.error == s.error
    // start-up window or no baseline yet: never fails, whatever the reading, and counts as good
    ensures now <= sch.endAt && !Monitoring(sch, s, now) ==> r == s.(lastGood := Some(now))
    // hard floor: fails as too close, whatever the grace duration
    ensures Monitoring(sch, s, now) && reading <= HardFloor ==>
      r.failed && r.error == Some(TooClose(reading)) && r.lastGood == s.lastGood && r.ended == s.ended
    // inside (HardFloor, rangeLimit]: never fails, refreshes the baseline
    ensures Monitoring(sch, s, now) && HardFloor < reading && WithinRange(p, reading) ==>
      r == s.(lastGood := Some(now))
    // out of range: fails exactly when the time since the baseline is over the grace duration
    ensures Monitoring(sch, s, now) && HardFloor < reading && !WithinRange(p, reading) ==>
      && (now - s.lastGood.value > p.allowableOutsideLimit ==>
            r.failed && r.error == Some(Exceeded(p)) && r.lastGood == s.lastGood && r.ended == s.ended)
      && (now - s.lastGood.value <= p.allowableOutsideLimit ==> r == s)
    // the failure flag is one-way, and the error changes only together with it
    ensures s.failed ==> r.failed
    ensures r.error != s.error ==> r.failed
    ensures Consistent(s) ==> Consistent(r)
  {
    if now > sch.endAt then
      s.(ended := true)
    else if s.lastGood.Some? && now > sch.startAfter then
      if reading <= HardFloor then
        Capture(s, TooClose(reading))
      else if WithinRange(p, reading) then
        s.(lastGood := Some(now))
      else if now - s.lastGood.value > p.allowableOutsideLimit then
        Capture(s, Exceeded(p))
      else
        s
    else
      s.(lastGood := Some(now))
  }

  /**
   * The simulation driver's side of `addAndWaitSteppable`: each tick steps the
   * steppable and then asks `remove`; the wait returns at the first tick that
   * answers true. Without such a tick the wait has not returned yet.
   */
  function Drive(p: TestParams, sch: Schedule, s: MonitorState, ticks: seq<Tick>): (r: MonitorState)
    ensures Consistent(s) ==> Consistent(r)
    ensures s.failed ==> r.failed
    decreases |ticks|
  {
    if ticks == [] then s
    else
      var s' := Next(p, sch, s, ticks[0].now, ticks[0].reading);
      if Removes(s') then s' else Drive(p, sch, s', ticks[1..])
  }

  /** A tick that is not checked does not depend on the reading at all. */
  lemma ReadingIgnoredUnlessMonitoring(p: TestParams, sch: Schedule, s: MonitorState, now: int, r1: real, r2: real)
    requires !Monitoring(sch, s, now)
    ensures Next(p, sch, s, now, r1) == Next(p, sch, s, now, r2)
    ensures Next(p, sch, s, now, r1).failed == s.failed
  {
  }

  /**
   * The range limit is inclusive: on a checked tick above the hard floor, a
   * reading at or below `rangeLimit` refreshes the baseline and nothing else,
   * and a reading above it never does.
   */
  lemma RangeLimitInclusive(p: TestParams, sch: Schedule, s: MonitorState, now: int, reading: real)
    requires Monitoring(sch, s, now) && HardFloor < reading
    ensures reading <= p.rangeLimit ==> Next(p, sch, s, now, reading) == s.(lastGood := Some(now))
    ensures reading > p.rangeLimit ==> Next(p, sch, s, now, reading).lastGood == s.lastGood
  {
  }

  /**
   * A tick the run reaches (the wait has not returned after the ticks before
   * it) and that captures a failure is the last one stepped: the wait returns
   * with the state that tick left.
   */
  lemma {:induction false} FailureEndsWait(p: TestParams, sch: Schedule, s: MonitorState, ticks: seq<Tick>, k: int)
    requires 0 <= k < |ticks|
    requires !Removes(Drive(p, sch, s, ticks[..k]))
    requires Next(p, sch, Drive(p, sch, s, ticks[..k]), ticks[k].now, ticks[k].reading).failed
    ensures Drive(p, sch, s, ticks) == Next(p, sch, Drive(p, sch, s, ticks[..k]), ticks[k].now, ticks[k].reading)
    ensures Removes(Drive(p, sch, s, ticks))
    decreases k
  {
    if k > 0 {
      var s' := Next(p, sch, s, ticks[0].now, ticks[0].reading);
      assert ticks[..k][0] == ticks[0] && ticks[..k][1..] == ticks[1..][..k - 1];
      assert ticks[1..][k - 1] == ticks[k];
      FailureEndsWait(p, sch, s', ticks[1..], k - 1);
    }
  }

  /** Tick instants never go backwards. */
  predicate Sorted(ticks: seq<Tick>)
  {
    forall i, j :: 0 <= i < j < |ticks| ==> ticks[i].now <= ticks[j].now
  }

  /** A run whose every tick lies in the start-up window never fails, whatever the readings. */
  lemma {:induction false} StartupWindowNeverFails(p: TestParams, sch: Schedule, s: MonitorState, ticks: seq<Tick>)
    requires !s.failed
    requires forall i :: 0 <= i < |ticks| ==> ticks[i].now <= sch.startAfter
    ensures !Drive(p, sch, s, ticks).failed
    decreases |ticks|
  {
    if ticks != [] {
      var s' := Next(p, sch, s, ticks[0].now, ticks[0].reading);
      if !Removes(s') {
        StartupWindowNeverFails(p, sch, s', ticks[1..]);
      }
    }
  }

  /** Once a tick past `endAt` arrives, the wait for the steppable has returned. */
  lemma {:induction false} WaitReturnsAfterEnd(p: TestParams, sch: Schedule, s: MonitorState, ticks: seq<Tick>)
    requires exists i :: 0 <= i < |ticks| && ticks[i].now > sch.endAt
    ensures Removes(Drive(p, sch, s, ticks))
    decreases |ticks|
  {
    var i :| 0 <= i < |ticks| && ticks[i].now > sch.endAt;
    var s' := Next(p, sch, s, ticks[0].now, ticks[0].reading);
    if i > 0 && !Removes(s') {
      assert ticks[1..][i - 1] == ticks[i];
      WaitReturnsAfterEnd(p, sch, s', ticks[1..]);
    }
  }

  /**
   * Tick j leaves `lastGood` at its own instant (when it is not past `endAt`):
   * the first tick seeds the baseline, a start-up tick is taken as good, and
   * so is a reading inside (HardFloor, rangeLimit].
   */
  predicate MarksGood(p: TestParams, sch: Schedule, ticks: seq<Tick>, j: int)
    requires 0 <= j < |ticks|
  {
    j == 0 || ticks[j].now <= sch.startAfter ||
    (HardFloor < ticks[j].reading && WithinRange(p, ticks[j].reading))
  }

  /** Tick i is read and compared: not the first tick, past the start-up window, not past the end. */
  predicate Checked(sch: Schedule, ticks: seq<Tick>, i: int)
    requires 0 <= i < |ticks|
  {
    0 < i && sch.startAfter < ticks[i].now <= sch.endAt
  }

  /**
   * The grace-window condition: no checked reading is at the hard floor, and
   * every checked reading out of range comes at most `allowableOutsideLimit`
   * after an earlier tick that marked the baseline.
   */
  predicate WithinGrace(p: TestParams, sch: Schedule, ticks: seq<Tick>)
  {
    forall i :: 0 <= i < |ticks| && Checked(sch, ticks, i) ==>
      && HardFloor < ticks[i].reading
      && (WithinRange(p, ticks[i].reading) ||
          exists j :: 0 <= j < i && MarksGood(p, sch, ticks, j) &&
                      ticks[i].now - ticks[j].now <= p.allowableOutsideLimit)
  }

  lemma {:induction false} GraceFrom(p: TestParams, sch: Schedule, ticks: seq<Tick>, k: int, s: MonitorState)
    requires Sorted(ticks) && WithinGrace(p, sch, ticks)
    requires 0 <= k <= |ticks|
    requires !s.failed && !s.ended
    requires k == 0 ==> s.lastGood.None?
    requires k > 0 ==> s.lastGood.Some?
    requires k > 0 ==> forall j :: 0 <= j < k && MarksGood(p, sch, ticks, j) ==> ticks[j].now <= s.lastGood.value
    ensures !Drive(p, sch, s, ticks[k..]).failed
    decreases |ticks| - k
  {
    if k < |ticks| {
      assert ticks[k..][0] == ticks[k] && ticks[k..][1..] == ticks[k + 1..];
      var t := ticks[k];
      var s' := Next(p, sch, s, t.now, t.reading);
      if Monitoring(sch, s, t.now) && !WithinRange(p, t.reading) {
        assert Checked(sch, ticks, k);
        var j :| 0 <= j < k && MarksGood(p, sch, ticks, j) && t.now - ticks[j].now <= p.allowableOutsideLimit;
        assert ticks[j].now <= s.lastGood.value;
      }
      if !Removes(s') {
        forall j | 0 <= j < k + 1 && MarksGood(p, sch, ticks, j)
          ensures ticks[j].now <= s'.lastGood.value
        {
          if s'.lastGood != s.lastGood {
            assert j < k ==> ticks[j].now <= ticks[k].now;
          }
        }
        GraceFrom(p, sch, ticks, k + 1, s');
      }
    }
  }

  /**
   * The grace-window property: out-of-range readings that each come within
   * `allowableOutsideLimit` of a baseline-marking tick never fail the test.
   */
  lemma GraceWindow(p: TestParams, sch: Schedule, ticks: seq<Tick>)
    requires Sorted(ticks) && WithinGrace(p, sch, ticks)
    ensures !Drive(p, sch, Initial, ticks).failed
  {
    assert ticks[0..] == ticks;
    GraceFrom(p, sch, ticks, 0, Initial);
  }

  /** Readings that stay inside (HardFloor, rangeLimit] never fail the test. */
  lemma {:induction false} InRangeNeverFails(p: TestParams, sch: Schedule, s: MonitorState, ticks: seq<Tick>)
    requires !s.failed
    requires forall i :: 0 <= i < |ticks| ==> HardFloor < ticks[i].reading <= p.rangeLimit
    ensures !Drive(p, sch, s, ticks).failed
    decreases |ticks|
  {
    if ticks != [] {
      var s' := Next(p, sch, s, ticks[0].now, ticks[0].reading);
      if !Removes(s') {
        InRangeNeverFails(p, sch, s', ticks[1..]);
      }
    }
  }

  /** Range limit 0.5, grace 2 s, start-up 1 s, timeout 10 s; readings of 0.4 every second. */
  function SteadyTicks(): seq<Tick>
  {
    seq(11, i => Tick(1000 * (i + 1), 0.4))
  }

  const Example := TestParams(0.5, 2000, 1000, 10000)

  /** With steady in-range readings the test passes at the first tick after 10 s. */
  lemma SteadyRunPasses()
    ensures Verdict(Drive(Example, ScheduleFrom(Example, 0), Initial, SteadyTicks())) == Passed
  {
    var ticks := SteadyTicks();
    var sch := ScheduleFrom(Example, 0);
    InRangeNeverFails(Example, sch, Initial, ticks);
    assert ticks[10].now > sch.endAt;
    WaitReturnsAfterEnd(Example, sch, Initial, ticks);
  }

  /** The same test, with readings of 0.6 from 2 s: the baseline stays at 1 s and the 4 s tick fails. */
  lemma DriftingRunFails()
    ensures Drive(Example, ScheduleFrom(Example, 0), Initial,
                  [Tick(1000, 0.4), Tick(2000, 0.6), Tick(3000, 0.6), Tick(4000, 0.6), Tick(5000, 0.6)])
         == MonitorState(Some(1000), false, true, Some(ExceededLimit(0.5, 2000)))
  {
    var sch := ScheduleFrom(Example, 0);
    var ticks := [Tick(1000, 0.4), Tick(2000, 0.6), Tick(3000, 0.6), Tick(4000, 0.6), Tick(5000, 0.6)];
    var s1 := MonitorState(Some(1000), false, false, None);
    assert Next(Example, sch, Initial, 1000, 0.4) == s1;
    assert Next(Example, sch, s1, 2000, 0.6) == s1;
    assert Next(Example, sch, s1, 3000, 0.6) == s1;
    assert ticks[1..] == [Tick(2000, 0.6), Tick(3000, 0.6), Tick(4000, 0.6), Tick(5000, 0.6)];
    assert ticks[1..][1..] == [Tick(3000, 0.6), Tick(4000, 0.6), Tick(5000, 0.6)];
    assert ticks[1..][1..][1..] == [Tick(4000, 0.6), Tick(5000, 0.6)];
  }

  /** How `run` ends. */
  datatype Outcome =
    | ControllerMissing          // the null-controller assertion
    | StartupNotBeforeTimeout    // the `startAfter.isBefore(endAt)` assertion
    | Passed                     // the steppable was removed without a failure
    | Failed(violation: Violation) // the stored error, re-raised
    | StillWaiting               // the steppable has not been removed yet

  /** The calls `run` makes into its collaborators, in order. */
  datatype Action = StartSimulation | StartController | StopController | NotifyStopped

  datatype RunResult = RunResult(outcome: Outcome, actions: seq<Action>)

  /** What `run` reports once the wait for the steppable has returned or not. */
  function Verdict(s: MonitorState): Outcome
    requires Consistent(s)
  {
    if !Removes(s) then StillWaiting
    else if s.failed then Failed(s.error.value)
    else Passed
  }

  /**
   * The anonymous steppable, with the test's `failed` and `error` fields
   * folded in: `Step` updates the fields tick by tick.
   */
  class Steppable {
    const params: TestParams
    const schedule: Schedule
    var lastGood: Option<int>
    var ended: bool
    var failed: bool
    var error: Option<Violation>

    function State(): MonitorState
      reads this
    {
      MonitorState(lastGood, ended, failed, error)
    }

    constructor (p: TestParams, sch: Schedule)
      ensures params == p && schedule == sch
      ensures State() == Initial
    {
      params, schedule := p, sch;
      lastGood, ended, failed, error := None, false, false, None;
    }

    method Step(now: int, reading: real)
      modifies this
      ensures State() == Next(params, schedule, old(State()), now, reading)
    {
      if now > schedule.endAt {
        ended := true;
      } else if lastGood.Some? && now > schedule.startAfter {
        if reading <= HardFloor {
          failed, error := true, Some(TooClose(reading));
        } else if WithinRange(params, reading) {
          lastGood := Some(now);
        } else if now - lastGood.value > params.allowableOutsideLimit {
          failed, error := true, Some(Exceeded(params));
        }
      } else {
        lastGood := Some(now);
      }
    }

    function Remove(): (r: bool)
      reads this
      ensures r == Removes(State())
    {
      failed || ended
    }
  }

  /**
   * `run`, single-threaded: the two precondition assertions, then the wait
   * for the steppable over the given ticks, the re-raise of the stored error
   * and the finally block that stops the controller and notifies listeners.
   */
  method Run(hasController: bool, p: TestParams, start: int, ticks: seq<Tick>) returns (res: RunResult)
    ensures !hasController ==> res == RunResult(ControllerMissing, [])
    ensures hasController && p.startupTime >= p.timeout ==>
      res == RunResult(StartupNotBeforeTimeout, [StartSimulation])
    ensures hasController && p.startupTime < p.timeout ==>
      var final := Drive(p, ScheduleFrom(p, start), Initial, ticks);
      && res.outcome == Verdict(final)
      && res.actions == [StartSimulation, StartController] +
                        (if Removes(final) then [StopController, NotifyStopped] else [])
    // the controller is stopped exactly on the paths through the try block that have returned
    ensures StopController in res.actions <==> res.outcome.Passed? || res.outcome.Failed?
  {
    if !hasController {
      return RunResult(ControllerMissing, []);
    }
    var actions := [StartSimulation];
    var sch := ScheduleFrom(p, start);
    if !(sch.startAfter < sch.endAt) {
      return RunResult(StartupNotBeforeTimeout, actions);
    }
    actions := actions + [StartController];
    var steppable := new Steppable(p, sch);
    var i := 0;
    var removed := false;
    assert ticks[0..] == ticks;
    while i < |ticks| && !removed
      invariant 0 <= i <= |ticks|
      invariant steppable.params == p && steppable.schedule == sch
      invariant Consistent(steppable.State())
      invariant removed == Removes(steppable.State())
      invariant removed ==> Drive(p, sch, Initial, ticks) == steppable.State()
      invariant !removed ==> Drive(p, sch, Initial, ticks) == Drive(p, sch, steppable.State(), ticks[i..])
    {
      assert ticks[i..][0] == ticks[i] && ticks[i..][1..] == ticks[i + 1..];
      steppable.Step(ticks[i].now, ticks[i].reading);
      removed := steppable.Remove();
      i := i + 1;
    }
    if !removed {
      return RunResult(StillWaiting, actions);
    }
    var outcome := if steppable.failed then Failed(steppable.error.value) else Passed;
    actions := actions + [StopController, NotifyStopped];
    res := RunResult(outcome, actions);
  }
}
