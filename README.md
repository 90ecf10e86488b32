# Button gesture classifiers of the load-cell device firmware

The firmware turns button presses into gesture events in two independent
ways, and this project models both.

**The polling driver** (`src/drivers/button_driver.c`, module `ButtonDriver`).
- Each button has a six-state classifier (`process_button_state`). A poll round feeds it one sampled level and the current tick, and it returns at most one event:
  Pressed, Released, Click, LongPress, DoubleClick or DoubleLongPress.
- `button_driver_init` checks its arguments and resets the array of button records.
- One round of `button_polling_task` steps the buttons in index order. It appends every reported event, tagged with the button's GPIO number, to a bounded queue, and the queue drops the event when it is full.
- The records live in an `array` of the class `Driver`, and the queue is a `seq` field of the same class. The methods update them in place.
- Each method is proved against a specification function: `Step` for one button, `RoundEvents` and `SendAll` for a round.
- Module `DriverGestures` proves what sequences of polls report: whole gestures, at-most-once reports per hold, and quirks of the code as written.

**The four-button reader** (`src/modules/button_task.c`, module `ButtonTask`).
- `button_handler_read_event` scans the fixed table of buttons A, B, C, D. The buttons are on GPIO 13, 12, 14 and 27.
- It updates each button's record in place and returns the first event it finds:
  - LONG_PRESS_START after 1000 ms held;
  - LONG_PRESS_UP on the release that follows;
  - a deferred click: a short release stores a pending click, which becomes DOUBLE_CLICK on a second short release within 300 ms, or SINGLE_CLICK once 300 ms pass with the button released.
- After the four buttons it checks for an A+B combined long press.
- The table is an `array` of the class `ButtonHandler`. `ReadEvent` is proved against the specification function `ReadEventSpec`.
- Module `TaskGestures` proves:
  - the per-button rules;
  - which button answers a call;
  - the combination rule and its unreachability;
  - scenarios from boot.

Levels are booleans. `true` is a high level, that is, a released button, because the inputs are active low with pull-ups.
- Driver ticks are naturals. A poll round uses one tick value for all its buttons.
- Reader times are unsigned 64-bit microsecond values. Durations use 64-bit unsigned subtraction, divided by 1000.
- `pdMS_TO_TICKS` assumes the ESP-IDF default tick rate of 100 Hz. That gives 100 ticks for a long press, 30 for the double-click timeout and 200 for a double long press.

Where the code and its description differ, the model follows the code:
- A short press in the driver reports Pressed, then Click, and no Released, because Click overwrites Released in the same step.
- The reader reports single clicks late, once the double-click time has passed. A double click is reported at the second release itself.

## Model

| member | source | states |
|---|---|---|
| `ButtonDriver.MsToTicks` | src/drivers/button_driver.c:108-181 | `pdMS_TO_TICKS`, from which every tick threshold of the model is derived. `MsToTicksRoundsDown` proves that it rounds down, and `TickConstants` gives its values at 100 Hz. |
| `ButtonDriver.MsToTicksRoundsDown` | src/drivers/button_driver.c:108-181 | `pdMS_TO_TICKS` rounds down: the result is the largest tick count whose length in milliseconds does not exceed the argument. |
| `ButtonDriver.TickConstants` | src/drivers/button_driver.c:108-224 | At 100 Hz the polling period is 5 ticks, the long-press time 100, the double-click timeout 30 and the double-long-press time 200. |
| `ButtonDriver.ResetButton` | src/drivers/button_driver.c:42-49 | The record the init loop writes: the given GPIO, Idle, zero ticks and press count, both flags clear. `ResetIsWellFormed` proves that it keeps the flag discipline, and `Driver.Init` writes it for every button. |
| `ButtonDriver.WellFormed` | src/drivers/button_driver.c:86-197 | The flag discipline of the reachable records. A well-formed record is never in LongPressDetected, and in Idle or WaitingForSecondPress both flags are clear. Its partners are `ResetIsWellFormed` and `StepPreservesWellFormed`. |
| `ButtonDriver.Step` | src/drivers/button_driver.c:82-200 | One classifier step keeps the button's GPIO number and never stores a tick later than the current one. The transitions out of each of its six states are stated by the step lemmas that follow, from `IdleStep` to `DoubleLongPressDetectedStep`, with two lemmas for PressedState. |
| `ButtonDriver.IdleStep` | src/drivers/button_driver.c:87-94 | In Idle, a low sample records the press tick, enters PressedState and reports Pressed. A high sample changes nothing and reports nothing. |
| `ButtonDriver.HeldLongPress` | src/drivers/button_driver.c:117-123 | While held in PressedState, LongPress is reported exactly when the flag is clear and the hold has lasted at least the long-press time (ties count). Then setting the flag is the only change to the record; otherwise nothing is reported and the record is unchanged. |
| `ButtonDriver.ReleaseFromPressed` | src/drivers/button_driver.c:96-116 | A release from PressedState records the release tick and clears the long-press flag. It reports Click if and only if there was no long press and the press was shorter than the long-press time. Click then sets press count 1 and enters WaitingForSecondPress; otherwise the release reports Released and goes Idle. A reported long press never yields Click. Nothing else in the record changes. |
| `ButtonDriver.WaitingStep` | src/drivers/button_driver.c:135-157 | In WaitingForSecondPress, a press within the timeout (ties count) restarts the press tick, enters DoubleClickDetected and reports Pressed. A later press goes Idle and also reports Pressed. While released nothing is reported; once strictly more than the timeout has passed the state falls to Idle, and that is the only change. |
| `ButtonDriver.DoubleClickStep` | src/drivers/button_driver.c:159-187 | In DoubleClickDetected, DoubleLongPress is reported while held exactly when its flag is clear and the threshold is reached; that sets the flag and nothing else changes. On release, DoubleClick is reported if and only if there was no double long press and the press was shorter than the threshold. After a reported double long press the release reports Released. An unreported double long press is reported at release, sets the flag and enters DoubleLongPressDetected. A release changes only the release tick, the state and the flag. |
| `ButtonDriver.LongPressDetectedStep` | src/drivers/button_driver.c:126-133 | In LongPressDetected, a release reports Released, clears the long-press flag and returns to Idle; nothing else changes. A held poll reports nothing and changes nothing. |
| `ButtonDriver.DoubleLongPressDetectedStep` | src/drivers/button_driver.c:189-195 | In DoubleLongPressDetected, a release reports Released, clears the double-long-press flag and returns to Idle, without recording the release tick. A low sample, that is a new press, is swallowed: nothing is reported and nothing changes. |
| `ButtonDriver.NeverEntersLongPressDetected` | src/drivers/button_driver.c:126-133 | No step leads into LongPressDetected; only a button already there and still held stays there. |
| `ButtonDriver.ResetIsWellFormed` | src/drivers/button_driver.c:42-49 | A record as init writes it, or as calloc leaves it, is Idle and keeps the flag discipline. |
| `ButtonDriver.StepPreservesWellFormed` | src/drivers/button_driver.c:86-197 | Every step keeps the flag discipline. In particular, both flags are clear whenever the button is Idle or WaitingForSecondPress. |
| `ButtonDriver.Send` | src/drivers/button_driver.c:219-221 | A send with zero timeout keeps the queued events in place and adds at most one. It appends exactly when the queue is below capacity, and what it appends is the sent event. |
| `ButtonDriver.SendAll` | src/drivers/button_driver.c:207-221 | Sending a batch keeps the queued events as a prefix and adds at most the batch. A queue within its capacity stays within it. |
| `ButtonDriver.SendAllKeepsOldest` | src/drivers/button_driver.c:219-221 | Sending a batch to a queue of bounded size gives the old contents plus the oldest new events that fit. Its length is the smaller of the capacity and the old length plus the batch length, and the rest is dropped. |
| `ButtonDriver.Tagged` | src/drivers/button_driver.c:213-218 | A button's step adds at most one queue entry. It adds one exactly when the step reports an event, and the entry carries that event and the button's GPIO number. |
| `ButtonDriver.RoundEvents` | src/drivers/button_driver.c:207-222 | A round produces at most one entry per button and never a NoEvent entry. Their order is stated by `RoundEventsInIndexOrder`. |
| `ButtonDriver.EventIndicesAscending` | src/drivers/button_driver.c:207-214 | The indices of the buttons that report in a round are strictly increasing and in range. An index is listed if and only if that button's step reports an event. |
| `ButtonDriver.RoundEventsInIndexOrder` | src/drivers/button_driver.c:207-218 | A round's events are those buttons' events in index order. Each is tagged with its own button's GPIO number and none is NoEvent. |
| `ButtonDriver.Driver.Init` | src/drivers/button_driver.c:22-49 | Init fails, changing nothing, if and only if there are no buttons or no GPIO array. Otherwise every record is reset to Idle on its GPIO with zero ticks and clear flags, and the queue is empty with the given capacity. |
| `ButtonDriver.Driver.constructor` | src/drivers/button_driver.c:16-17 | Before init there are no buttons and no queue room. |
| `ButtonDriver.Driver.ProcessButtonState` | src/drivers/button_driver.c:82-200 | The in-place update of one record gives exactly Step's record and event. No other record changes. |
| `ButtonDriver.Driver.QueueSend` | src/drivers/button_driver.c:219-221 | A non-blocking send appends the event when there is room and otherwise drops it. The queue stays within its capacity. |
| `ButtonDriver.Driver.PollButton` | src/drivers/button_driver.c:208-222 | One button of a round: its record becomes Step's, no other record changes, and the queue receives its tagged event, if any. |
| `ButtonDriver.Driver.PollNext` | src/drivers/button_driver.c:207-222 | One iteration of the round's loop takes the loop invariant from button i to button i + 1. The first i + 1 records are stepped, the rest are untouched, and the queue holds the first i + 1 buttons' events sent in order. |
| `ButtonDriver.Driver.PollRound` | src/drivers/button_driver.c:207-222 | After one round every record is Step's, the flag discipline holds, and the queue is the old queue with the round's events sent in index order. |
| `DriverGestures.Run` | src/drivers/button_driver.c:207-211 | Polling one button through n samples gives n step results and keeps its GPIO number. |
| `DriverGestures.Emitted` | src/drivers/button_driver.c:214 | The reported events contain no NoEvent. |
| `DriverGestures.RunPreservesWellFormed` | src/drivers/button_driver.c:82-200 | Any number of polls keeps the flag discipline. |
| `DriverGestures.HeldInPressed` | src/drivers/button_driver.c:117-123 | Holding in PressedState reports LongPress once, if some poll sees the long-press time, and nothing else. Only the flag changes. Which poll reports it is stated by `LongPressAtFirstLongPoll`. |
| `DriverGestures.HeldInDoubleClick` | src/drivers/button_driver.c:180-186 | Holding the second press reports DoubleLongPress once, if some poll sees the threshold, and nothing else. Only its flag changes. Which poll reports it is stated by `DoubleLongPressAtFirstLongPoll`. |
| `DriverGestures.HeldAfterReport` | src/drivers/button_driver.c:117-186 | Once the hold's LongPress or DoubleLongPress has been reported, further held polls report nothing and change nothing. |
| `DriverGestures.LongPressAtFirstLongPoll` | src/drivers/button_driver.c:117-123 | LongPress is reported by the first poll of the hold that sees the long-press time, and every other poll of the hold reports nothing. |
| `DriverGestures.DoubleLongPressAtFirstLongPoll` | src/drivers/button_driver.c:180-186 | DoubleLongPress is reported by the first poll of the second hold that sees the double-long-press time, and every other poll of the hold reports nothing. |
| `DriverGestures.HeldReportsLongPressAtMostOnce` | src/drivers/button_driver.c:117-123 | From any well-formed record, a hold of any length reports LongPress at most once and DoubleLongPress at most once, each bounded by what the state still allows. |
| `DriverGestures.ReleasedWhileWaiting` | src/drivers/button_driver.c:150-156 | Staying released within the double-click timeout reports nothing and changes nothing. |
| `DriverGestures.EmittedKeepsEvents` | src/drivers/button_driver.c:214 | An event occurs among the polls' results if and only if it is reported. |
| `DriverGestures.ShortPress` | src/drivers/button_driver.c:87-113 | A press shorter than the long-press time reports exactly Pressed, Click. The button then waits for a second press, with the press and release ticks and press count 1. |
| `DriverGestures.LongHoldThenRelease` | src/drivers/button_driver.c:96-123 | From PressedState, a hold that some poll sees last the long-press time, followed by its release, reports exactly LongPress, Released and ends Idle with both flags clear. |
| `DriverGestures.LongPressGesture` | src/drivers/button_driver.c:87-107 | A hold that some poll sees last the long-press time reports exactly Pressed, LongPress, Released, and never Click. It ends Idle with both flags clear. |
| `DriverGestures.ShortHoldThenLateRelease` | src/drivers/button_driver.c:96-123 | From PressedState, a hold that no held poll sees reach the long-press time, released at or after it, reports exactly Released and ends Idle with both flags clear. |
| `DriverGestures.LongPressSeenOnlyAtRelease` | src/drivers/button_driver.c:96-123 | A press that only its release poll sees last the long-press time reports exactly Pressed, Released: neither LongPress nor Click. It ends Idle with both flags clear. |
| `DriverGestures.LongPressSeenOnlyAtReleaseScenario` | src/drivers/button_driver.c:96-123 | Polls low at ticks 0 and 95 and high at 100 report Pressed, Released only. |
| `DriverGestures.SecondPress` | src/drivers/button_driver.c:136-179 | A second press inside the timeout and shorter than the double-long-press time reports exactly Pressed, DoubleClick and ends Idle. |
| `DriverGestures.SecondShortPress` | src/drivers/button_driver.c:135-179 | The same after a gap of released polls within the timeout. |
| `DriverGestures.DoubleClickGesture` | src/drivers/button_driver.c:87-179 | Two short presses close together report exactly Pressed, Click, Pressed, DoubleClick. |
| `DriverGestures.LatePressReportedTwice` | src/drivers/button_driver.c:144-148 | A late second press sends a held button to Idle, so the next poll reports Pressed again and restarts the press tick. |
| `DriverGestures.DoubleLongPressFoundAtRelease` | src/drivers/button_driver.c:159-199 | A second press whose double long press no held poll reported is found at release. That poll reports DoubleLongPress, not Released, and enters DoubleLongPressDetected. The next high poll reports Released and returns to Idle with the flag clear. |
| `DriverGestures.PressSwallowedAfterDoubleLongPress` | src/drivers/button_driver.c:159-195 | After a double long press found at release, a press made before the next high poll is never reported: the polls give DoubleLongPress, nothing, Released, and the button ends Idle with its flag clear. |
| `DriverGestures.ClickScenario` | src/drivers/button_driver.c:87-113 | A 150 ms click polled every 50 ms reports Pressed, Click only. |
| `ButtonTask.Code` | src/modules/button_task.h:26-54 | The enumeration values run from 0 to 17; 0 is BUTTON_NONE and 17 is the A+B long press. |
| `ButtonTask.CodeInjective` | src/modules/button_task.h:26-54 | Distinct events have distinct values. |
| `ButtonTask.LetterOf` | src/modules/button_task.h:12-15 | GPIO 13, 12, 14, 27 are buttons A, B, C, D; no other GPIO has a letter. |
| `ButtonTask.EventFor` | src/modules/button_task.c:147-197 | The switch on the GPIO number gives an event exactly when the GPIO has a letter. That event is the given gesture of that letter. |
| `ButtonTask.Sub64` | src/modules/button_task.c:145-209 | Unsigned 64-bit subtraction: the plain difference when it is not negative, and in every case the value that added to the subtrahend gives the minuend modulo 2^64. |
| `ButtonTask.ElapsedMs` | src/modules/button_task.c:145-209 | The elapsed milliseconds are the unsigned difference divided by 1000, rounded down; when the start is not after the end this is the plain difference. |
| `ButtonTask.BootTable` | src/modules/button_task.c:14-19 | The boot table lists A, B, C, D in scan order, each released, not pressed, untriggered and with no click pending. |
| `ButtonTask.ButtonStep` | src/modules/button_task.c:136-201 | One button's step records the level and keeps the GPIO number. Its event is none or a gesture of that button's own letter. |
| `ButtonTask.Combination` | src/modules/button_task.c:207-229 | The combination check keeps the table size. What it returns and changes is stated by `TaskGestures.CombinationRule`. |
| `ButtonTask.Scan` | src/modules/button_task.c:135-203 | Scanning keeps the table size. Which button answers is stated by `TaskGestures.ScanAnswer`. |
| `ButtonTask.ReadEventSpec` | src/modules/button_task.c:130-232 | One call keeps the table's size and every button's GPIO number. What it returns is stated by `TaskGestures.ScanAnswer` and `TaskGestures.ReadEventAnswer`. |
| `ButtonTask.ButtonHandler.constructor` | src/modules/button_task.c:14-19 | At boot the table holds A, B, C, D, all released, with nothing pending. |
| `ButtonTask.ButtonHandler.HandleButton` | src/modules/button_task.c:136-201 | The in-place update of one record gives exactly ButtonStep's record and event. No other record changes. |
| `ButtonTask.ButtonHandler.CheckCombination` | src/modules/button_task.c:207-229 | The in-place combination check on records 0 and 1 gives exactly Combination's table and event. |
| `ButtonTask.ButtonHandler.ReadEvent` | src/modules/button_task.c:130-232 | One call gives exactly ReadEventSpec's table and event, and the table keeps its GPIO numbers. |
| `TaskGestures.PressStarts` | src/modules/button_task.c:139-143 | A low button that was not pressed becomes pressed, records the press time, clears its trigger and yields no event. |
| `TaskGestures.HeldStep` | src/modules/button_task.c:144-155 | While held, LONG_PRESS_START is returned exactly when untriggered and (now − press)/1000 ≥ 1000, and the trigger is then set. Nothing else changes. |
| `TaskGestures.ReleaseAfterLongPress` | src/modules/button_task.c:158-170 | A release after a triggered long press returns that button's LONG_PRESS_UP and leaves the pending click time untouched. |
| `TaskGestures.ShortRelease` | src/modules/button_task.c:171-186 | A short release returns DOUBLE_CLICK and resets the pending click to 0 when (now − pending)/1000 < 300. Otherwise it stores now as the pending click and returns nothing. In both cases the button is released with the release time recorded, and nothing else in the record changes. |
| `TaskGestures.PendingClickMatures` | src/modules/button_task.c:188-200 | A pending (non-zero) click at least 300 ms old, on a released button, returns SINGLE_CLICK and resets the pending time to 0. Otherwise nothing changes. |
| `TaskGestures.RunButton` | src/modules/button_task.c:135-201 | Stepping one button through n calls gives n events and keeps its GPIO. |
| `TaskGestures.HeldReportsLongPressStartAtMostOnce` | src/modules/button_task.c:144-155 | However long a button is held, its own steps report its LONG_PRESS_START at most once, and not at all if an ongoing hold has already triggered. They report nothing else. |
| `TaskGestures.HeldReportsLongPressStartOnceReached` | src/modules/button_task.c:144-155 | An untriggered hold that some call sees last 1000 ms reports LONG_PRESS_START exactly once and stays triggered. Which call reports it is stated by `LongPressStartAtFirstLongCall`. |
| `TaskGestures.LongPressStartAtFirstLongCall` | src/modules/button_task.c:144-155 | LONG_PRESS_START comes from the first call of the hold that finds it 1000 ms long, and every other call of the hold returns no event. |
| `TaskGestures.HeldStaysTriggered` | src/modules/button_task.c:144-146 | A triggered hold keeps its record while held and reports nothing. |
| `TaskGestures.ReleasedReportsSingleClickAtMostOnce` | src/modules/button_task.c:188-200 | A button left released reports SINGLE_CLICK at most once, only if a click is pending, and nothing else. |
| `TaskGestures.PendingClickReportedOnce` | src/modules/button_task.c:188-200 | A pending click on a released button that some call finds 300 ms old is reported exactly once and is then cleared. Which call reports it is stated by `SingleClickAtFirstMatureCall`. |
| `TaskGestures.SingleClickAtFirstMatureCall` | src/modules/button_task.c:188-200 | SINGLE_CLICK comes from the first call that finds the pending click 300 ms old, and every other call of the released button returns no event. |
| `TaskGestures.ReleasedWithoutPendingChangesNothing` | src/modules/button_task.c:188-201 | With nothing pending, a button left released keeps its record apart from the sampled level, and every call reports nothing. |
| `TaskGestures.FirstResponder` | src/modules/button_task.c:135-203 | This is the first button from i on whose step has an event. Every button before it has none. |
| `TaskGestures.Stepped` | src/modules/button_task.c:135-136 | Stepping a range of buttons keeps the table size. Its use is in `TaskGestures.ScanAnswer`. |
| `TaskGestures.ScanAnswer` | src/modules/button_task.c:135-203 | A call returns the event of the first button that has one, after stepping exactly the buttons up to it. Later buttons are neither sampled nor changed and the combination is skipped. If no button has an event, all are stepped and the combination decides. |
| `TaskGestures.ReadEventAnswer` | src/modules/button_task.c:135-229 | A call's gesture event belongs to the letter of the GPIO of the first button that answers. This holds for all four switches: long-press start, long-press up, double click and single click. With no answering button, the event is none or the A+B long press. |
| `TaskGestures.CombinationRule` | src/modules/button_task.c:207-229 | AB_LONG_PRESS is returned if and only if A and B are both pressed, both held ≥ 1000 ms and neither is triggered; then both triggers are set. When they are not both pressed and both triggers are set, both are reset. Nothing else in the table changes. |
| `TaskGestures.ABLongPressUnreachable` | src/modules/button_task.c:144-221 | No call ever returns AB_LONG_PRESS. If button 0 has been held 1000 ms untriggered, its own step in the same call sets its trigger before the combination check reads it. |
| `TaskGestures.ReadEvents` | src/modules/button_task.c:130-232 | Successive calls of the reader, each on the table the previous call left, give one event each. |
| `TaskGestures.CallOnLaterButton` | src/modules/button_task.c:135-229 | One call leaves button C or D alone or steps it. It returns an event of that button only when it steps it, and then the event is that step's. |
| `TaskGestures.LaterButtonHeldReportsLongPressStartAtMostOnce` | src/modules/button_task.c:135-229 | While C or D reads low at every call, successive calls report its LONG_PRESS_START at most once, and not at all if the hold has already triggered. This holds even when other buttons answer some calls first. |
| `TaskGestures.BLongPressFromBoot` | src/modules/button_task.c:139-170 | From boot, holding B for a second and releasing it reports nothing, then B's LONG_PRESS_START, then B's LONG_PRESS_UP. B's trigger stays set afterwards. |
| `TaskGestures.AHeldAfterBLongPress` | src/modules/button_task.c:144-228 | With B's trigger left set, one hold of A reports A's LONG_PRESS_START in two different calls. |
| `TaskGestures.LongPressStartTwiceInOneHold` | src/modules/button_task.c:223-228 | From boot, after B has been long-pressed and released, holding A reports A's LONG_PRESS_START twice in one hold: the combination reset clears A's trigger. |
| `TaskGestures.FirstClickAfterBootIsDouble` | src/modules/button_task.c:173-181 | From boot, a first short click of A within 300 ms of timer zero returns DOUBLE_CLICK, because the pending time 0 also means "none pending". |
| `TaskGestures.SingleClickScenario` | src/modules/button_task.c:171-200 | From boot, a short click of B is reported as SINGLE_CLICK 300 ms after its release, once. |
| `TaskGestures.DoubleClickScenario` | src/modules/button_task.c:171-186 | From boot, two short clicks of B 200 ms apart give one DOUBLE_CLICK and no SINGLE_CLICK. |
| `TaskGestures.LostClickScenario` | src/modules/button_task.c:171-200 | From boot, B released at 1100 ms, pressed again at 1350 ms before that click matures and released at 1450 ms: the second release is 350 ms after the first, so it overwrites the pending time and reports nothing, and the two clicks give a single SINGLE_CLICK at 1750 ms. |

## Left out

- The sampled level is an input of every step, so GPIO configuration and `gpio_get_level` are not modelled. This covers `button_driver_init`'s `gpio_config` calls and `button_task_init`.
- FreeRTOS is not modelled: task creation, `vTaskDelay` and `vTaskDelayUntil`, and the blocking `button_driver_get_event`. The queue is modelled only as the non-blocking append-or-drop of the polling task, and it is never read concurrently during a round.
- `ButtonDriver.Driver.Init` does not model the failure of `calloc`, `xQueueCreate` or `xTaskCreate`. Allocation always succeeds, including for a zero queue size.
- `ButtonDriver.Step` does not model the wrap-around of the 32-bit `TickType_t`. Ticks are unbounded naturals that never go backwards, so `NotAfter` holds. The source reads the tick inside each step; the model passes one tick per round.
- The tick rate is a build setting that does not appear in the source. 100 Hz is assumed.
- `button_task_update` and `send_button_event` are not modelled. They log the event and forward it, BUTTON_NONE included, through a 200 ms queue send.
- ESP_LOG calls are not modelled.
- `DEBOUNCE_TIME_MS` is defined in `button_task.h` but never used, so it is not modelled. The record field `prev_state` is carried but never read. The driver has no debounce apart from its 50 ms polling period (`POLL_PERIOD_TICKS`).
- The other parts of the firmware are not part of this model:
  - the communication task (ESP-NOW, Wi-Fi, an interrupt callback);
  - the display task and its driver;
  - the application's main task and entry point;
  - the floating-point weight payloads of `include/data_type.h`.
