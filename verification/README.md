# Distance-limit test and linear translation, modelled in Dafny

This project models two tick-driven pieces of the `rp` robot simulation harness.
Both are run single-threaded here.

- **`Testing`** (`monitor.dfy`) models `DistanceLimitTest`. This is an acceptance test that runs a robot controller while the simulation polls a steppable once per tick.
  - Each tick, the steppable either declares success (the tick is after `endAt`), or treats the tick as good without reading the sensor (start-up window, or no baseline yet), or checks the distance reading.
  - A checked reading can fail on the hard floor (≤ 0.03), refresh the `lastGood` baseline (reading ≤ `rangeLimit`), fail because it has been out of range for longer than the grace duration, or be tolerated.
  - Failures are captured into a `failed` flag and a stored error. `remove` is `failed || ended`.
  - `run` checks its two preconditions, waits for the steppable's removal, re-raises the stored error, and in its `finally` block stops the controller and notifies listeners.
  - The state is the record `MonitorState(lastGood, ended, failed, error)`. `Next` is one tick and `Drive` is the driver's loop up to removal. The class `Steppable` keeps the same fields and updates them in place. `Run` steps a `Steppable` over a list of ticks.
  - Instants and durations are integer milliseconds. Each `Tick` carries the distance the sensor would report at that instant.
- **`Simulation`** (`translation.dfy`) models `LinearTranslation`. This movable moves along x at a constant speed from where it was placed towards `x + distance`.
  - It makes a single pass: once x is strictly past the limit in its direction of travel, it sets a one-way `remove` flag.
  - The class comment says it moves "back and forth", but the code never reverses. The model follows the code.
  - The class `LinearTranslation` has the fields `x, y, speed, distance, limit, movePositive, remove`. Its `SetPose` and `Step` are specified by the functions `Placed` and `Stepped` over the value `Translation`. `Advance` runs a sequence of steps.
  - `getPose` and `remove` are plain field reads. In the model they are the fields `x`, `y` and `remove` of the class.
- **`Wrappers`** holds `Option`, which stands in for a nullable reference (`lastGood`, the stored error).

`run` raises its two precondition assertions (the non-null controller at lines 50-51, and `startAfter.isBefore(endAt)` at line 61) before the `try` at line 63. On those paths the controller is never started, and neither `stop` nor the listener notification runs. `Run` states this: `StopController` appears in its actions exactly when the outcome is `Passed` or `Failed`.

The method `Simulation.OnePassClient` drives the worked example of `OnePassThenRemoved` through the class itself. It also shows that a later `SetPose` does not reset `remove`.

## Model

| member | source | states |
|---|---|---|
| `Testing.Next` | src/rp/robotics/testing/DistanceLimitTest.java:79-117 | A tick after `endAt` sets `ended` and keeps the baseline, the flag and the error. An unchecked tick (start-up window or no baseline) never fails, whatever the reading, and sets `lastGood := now`. A checked reading ≤ 0.03 fails as too close, whatever the grace duration. A checked reading in (0.03, rangeLimit] sets `lastGood := now` and nothing else. An out-of-range reading fails with the exceeded-limit error exactly when `now - lastGood > allowableOutsideLimit`, and otherwise changes nothing. `failed` is one-way, the error changes only with the flag set, and "failed iff an error is stored" is preserved |
| `Testing.Drive` | src/rp/robotics/testing/DistanceLimitTest.java:65-125 | Stepping until the first tick whose `remove` is true preserves "failed iff an error is stored" and never clears `failed` |
| `Testing.Steppable.constructor` | src/rp/robotics/testing/DistanceLimitTest.java:66-69 | A fresh steppable has no baseline, has not ended, and holds no failure |
| `Testing.Steppable.Step` | src/rp/robotics/testing/DistanceLimitTest.java:72-118 | Updating the fields in place leaves exactly the state `Next` gives |
| `Testing.Steppable.Remove` | src/rp/robotics/testing/DistanceLimitTest.java:120-124 | The answer is `Removes` of the steppable's state, the predicate the driver loop `Drive` stops on. So `WaitReturnsAfterEnd` and `FailureEndsWait` apply to it: removal follows a tick past `endAt`, and it follows at once on a captured failure |
| `Testing.FailureEndsWait` | src/rp/robotics/testing/DistanceLimitTest.java:114-124 | A tick the run reaches that captures a failure is the last one stepped. The wait returns with exactly the state that tick left, and removal is asked for |
| `Testing.RangeLimitInclusive` | src/rp/robotics/testing/DistanceLimitTest.java:41-43 | On a checked tick above the hard floor, a reading at or below `rangeLimit` (the limit itself included) refreshes `lastGood := now` and changes nothing else. A reading above it never refreshes `lastGood` |
| `Testing.Run` | src/rp/robotics/testing/DistanceLimitTest.java:48-149 | A null controller fails before anything starts. `startupTime >= timeout` fails after the simulation starts but before the controller thread does. Otherwise the controller starts, and the outcome is the stored error when `failed` is set, a pass when the steppable was removed without failure, and still waiting when no tick removed it. Stop and listener notification happen exactly when the wait has returned |
| `Testing.ReadingIgnoredUnlessMonitoring` | src/rp/robotics/testing/DistanceLimitTest.java:85-113 | An unchecked tick does not depend on the reading and never fails |
| `Testing.StartupWindowNeverFails` | src/rp/robotics/testing/DistanceLimitTest.java:85-113 | A run whose ticks all lie at or before `startAfter` never fails, whatever the readings |
| `Testing.WaitReturnsAfterEnd` | src/rp/robotics/testing/DistanceLimitTest.java:81-124 | When some tick is after `endAt`, the steppable has been removed by the time the ticks run out |
| `Testing.GraceWindow` | src/rp/robotics/testing/DistanceLimitTest.java:97-109 | Take a run with non-decreasing instants. Suppose every checked reading is above 0.03, and each out-of-range one comes at most `allowableOutsideLimit` after an earlier tick that set the baseline. Then the run never fails |
| `Testing.InRangeNeverFails` | src/rp/robotics/testing/DistanceLimitTest.java:92-99 | Readings that stay in (0.03, rangeLimit] never fail the test, from any state that has not failed and in any order of instants |
| `Testing.SteadyRunPasses` | src/rp/robotics/testing/DistanceLimitTest.java:81-124 | Range limit 0.5, grace 2 s, start-up 1 s, timeout 10 s, and readings of 0.4 every second: the test passes |
| `Testing.DriftingRunFails` | src/rp/robotics/testing/DistanceLimitTest.java:100-117 | Same test, with readings of 0.6 from 2 s on: the baseline stays at 1 s and the 4 s tick fails with the exceeded-limit error |
| `Simulation.Placed` | src/rp/robotics/simulation/LinearTranslation.java:43-51 | After `setPose` the pose is the new one, `limit - x == distance` and `movePositive <==> distance > 0`. Earlier progress is forgotten, so the new program is not past its limit. `remove` is never reset |
| `Simulation.Stepped` | src/rp/robotics/simulation/LinearTranslation.java:58-74 | x moves by the signed speed times `intervalMillis / 1000`, and y, the limit and the direction are unchanged. `remove` is one-way and is raised exactly when the new x is strictly past the limit in the direction of travel. With non-negative speed and interval, x moves in the direction of the flag |
| `Simulation.LinearTranslation.constructor` | src/rp/robotics/simulation/LinearTranslation.java:22-27 | The field initialisers, then `setPose` on the initial pose. The new entity is not removed |
| `Simulation.LinearTranslation.SetPose` | src/rp/robotics/simulation/LinearTranslation.java:43-51 | The fields afterwards are exactly those `Placed` gives |
| `Simulation.LinearTranslation.Step` | src/rp/robotics/simulation/LinearTranslation.java:58-74 | The fields afterwards are exactly those `Stepped` gives |
| `Simulation.RemoveIsSticky` | src/rp/robotics/simulation/LinearTranslation.java:67-70 | Once `remove` is true, no sequence of steps makes it false |
| `Simulation.AdvanceKeepsFrame` | src/rp/robotics/simulation/LinearTranslation.java:62-65 | No sequence of steps changes y, the limit, the direction or the speed |
| `Simulation.Displacement` | src/rp/robotics/simulation/LinearTranslation.java:62-65 | After any sequence of steps, x has moved by the signed speed times the total time in seconds |
| `Simulation.MonotoneX` | src/rp/robotics/simulation/LinearTranslation.java:62-65 | With speed ≥ 0 and non-negative intervals, x never decreases when moving positive and never increases when moving negative |
| `Simulation.RemovedExactlyPastLimit` | src/rp/robotics/simulation/LinearTranslation.java:62-70 | With speed ≥ 0 and non-negative intervals, if `remove` matched "past the limit" before, it does after any sequence of steps. So it is never raised before x crosses the limit, and always once it has |
| `Simulation.OnePassThenRemoved` | src/rp/robotics/simulation/LinearTranslation.java:43-70 | Start at x = 0 with distance 1.0 and speed 0.5. Two one-second ticks reach x = 1.0 and the entity is not removed. The third reaches x = 1.5 and removal is asked for |

## Left out

- Threads and blocking are not modelled: the controller thread, `t.start()`, `t.join(10000)` with its `InterruptedException` handler, and the blocking `addAndWaitSteppable`. The wait is the driver loop `Drive` over a finite tick list. When no tick removes the steppable, `Run` reports `StillWaiting`.
- The simulation core is not part of this model. The driver is assumed to call `step` and then `remove` on each tick, and to stop at the first `true`.
- `synchronized (m_pose)` is not modelled. The model is single-threaded, so the lock, and the old pose it locks while replacing it, do not appear.
- Wall-clock reads (`Instant.now()`, `System.currentTimeMillis()`) are not modelled. The start instant is a parameter of `Run`, and the elapsed stop-to-join time passed to the listeners is left out.
- `getSimulation().start()`, `m_controller.stop()` and `callListenersControllerStopped` are modelled only as the actions `StartSimulation`, `StopController` and `NotifyStopped`.
- The `System.out.println` calls are left out.
- `getDistance()` is abstract and bound to a sensor. Its value is an input of each tick. No exception thrown from it is modelled.
- The monitor ignores the tick's `stepInterval`, and `LinearTranslation.step` ignores `now`. Both arguments are dropped.
- Floating point is not modelled. Readings, speeds and positions are `real`, and intervals are whole milliseconds. With IEEE floats, `limit > x` is not always the same as `distance > 0`, and `toMillis()` drops sub-millisecond parts.
- The lejos `Pose` is reduced to the `(x, y)` fields of the entity. `step` mutates the caller's `Pose` object in place through `setLocation`, and that aliasing is not modelled.
- `m_failed` and `m_error` are fields of the test object and are never reset, so a second `run` on the same object would start already failed. `Run` models one run on a fresh test object.
- The assertion messages are the tagged values `TooClose(distance)` and `ExceededLimit(rangeLimit, allowable)`, not strings.
