/**
 * The polling button driver (src/drivers/button_driver.c, include/button_defs.h).
 *
 * Every button has a six-state classifier. A polling task samples every
 * button's level once per round (active low: `true` is a high level, the
 * button released) and feeds it with the current tick to the classifier,
 * which returns at most one event. Events other than NoEvent are appended,
 * tagged with the button's GPIO number, to a bounded queue; when the queue
 * is full the event is dropped.
 *
 * Ticks are unbounded naturals: the model assumes that time never goes
 * backwards and leaves the wrap-around of TickType_t out.
 */
module ButtonDriver {
  import opened Wrappers

  type uint8 = x: int | 0 <= x < 256

  // Timing configuration, in milliseconds. BUTTON_DEBOUNCE_MS is the period
  // of the polling task, the only debouncing the driver does.
  const BUTTON_DEBOUNCE_MS: nat := 50
  const BUTTON_LONG_PRESS_TIME_MS: nat := 1000
  const BUTTON_DOUBLE_CLICK_TIMEOUT_MS: nat := 300
  const BUTTON_DOUBLE_LONG_PRESS_TIME_MS: nat := 2000

  /** configTICK_RATE_HZ of the FreeRTOS build (the ESP-IDF default). */
  const TICK_RATE_HZ: nat := 100

  /** FreeRTOS's pdMS_TO_TICKS: milliseconds to ticks, rounded down. */
  function MsToTicks(ms: nat): nat {
    ms * TICK_RATE_HZ / 1000
  }

  /** pdMS_TO_TICKS rounds down: the largest tick count not longer than `ms`. */
  lemma MsToTicksRoundsDown(ms: nat)
    ensures MsToTicks(ms) * 1000 <= ms * TICK_RATE_HZ < MsToTicks(ms) * 1000 + 1000
  {
  }

  /** The polling task's period in ticks. */
  const POLL_PERIOD_TICKS: nat := MsToTicks(BUTTON_DEBOUNCE_MS)

  const LONG_PRESS_TICKS: nat := MsToTicks(BUTTON_LONG_PRESS_TIME_MS)
  const DOUBLE_CLICK_TIMEOUT_TICKS: nat := MsToTicks(BUTTON_DOUBLE_CLICK_TIMEOUT_MS)
  const DOUBLE_LONG_PRESS_TICKS: nat := MsToTicks(BUTTON_DOUBLE_LONG_PRESS_TIME_MS)

  /** At 100 Hz every configured time is a whole number of ticks. */
  lemma TickConstants()
    ensures POLL_PERIOD_TICKS == 5 && LONG_PRESS_TICKS == 100
    ensures DOUBLE_CLICK_TIMEOUT_TICKS == 30 && DOUBLE_LONG_PRESS_TICKS == 200
  {
  }

  /** button_event_type_t: what one classifier step reports. */
  datatype EventType =
    | NoEvent
    | Pressed
    | Released
    | Click
    | LongPress
    | DoubleClick
    | DoubleLongPress

  /** button_internal_state_t. */
  datatype State =
    | Idle
    | PressedState
    | LongPressDetected
    | WaitingForSecondPress
    | DoubleClickDetected
    | DoubleLongPressDetected

  /** button_t: the record the driver keeps for each button. */
  datatype Button = Button(
    gpioNum: uint8,
    currentState: State,
    lastPressTick: nat,
    lastReleaseTick: nat,
    pressCount: int,
    isLongPressActive: bool,
    isDoubleLongPressActive: bool)

  /**
   * button_event_t: one entry of the event queue. (The C struct declares
   * the second field with the state enum's type but stores an event code
   * in it; the model stores the event.)
   */
  datatype ButtonEvent = ButtonEvent(gpioNum: uint8, eventType: EventType)

  /** The new record and the event of one classifier step. */
  datatype StepResult = StepResult(button: Button, event: EventType)

  /** What calloc leaves in a freshly allocated button record: all zero. */
  const CALLOC_BUTTON: Button := Button(0, Idle, 0, 0, 0, false, false)

  /** The record button_driver_init writes for a button on `gpio`. */
  function ResetButton(gpio: uint8): (r: Button)
    ensures r.gpioNum == gpio && r.currentState == Idle
    ensures r.lastPressTick == 0 && r.lastReleaseTick == 0 && r.pressCount == 0
    ensures !r.isLongPressActive && !r.isDoubleLongPressActive
  {
    Button(gpio, Idle, 0, 0, 0, false, false)
  }

  /** Neither stored tick lies after `now`: the clock is monotonic. */
  predicate NotAfter(b: Button, now: nat) {
    b.lastPressTick <= now && b.lastReleaseTick <= now
  }

  /**
   * The flag discipline of every record the driver can reach: both flags are
   * clear in Idle and WaitingForSecondPress, only the long-press flag can be
   * set in PressedState, only the double-long-press flag in
   * DoubleClickDetected, and DoubleLongPressDetected always has it set.
   * LongPressDetected is never reached.
   */
  predicate WellFormed(b: Button): (r: bool)
    ensures r ==> b.currentState != LongPressDetected
    ensures r && b.currentState in {Idle, WaitingForSecondPress} ==> !b.isLongPressActive && !b.isDoubleLongPressActive
  {
    match b.currentState
    case Idle => !b.isLongPressActive && !b.isDoubleLongPressActive
    case WaitingForSecondPress => !b.isLongPressActive && !b.isDoubleLongPressActive
    case PressedState => !b.isDoubleLongPressActive
    case LongPressDetected => false
    case DoubleClickDetected => !b.isLongPressActive
    case DoubleLongPressDetected => !b.isLongPressActive && b.isDoubleLongPressActive
  }

  /**
   * process_button_state: one step of the classifier for one sampled level
   * (`level` true is high, i.e. released) at tick `now`. Elapsed times are
   * integer differences; the driver only steps a record at a tick not before
   * its stored ticks (NotAfter), where they equal the unsigned differences
   * of the C code.
   */
  function Step(b: Button, level: bool, now: nat): (r: StepResult)
    ensures r.button.gpioNum == b.gpioNum
    ensures NotAfter(b, now) ==> NotAfter(r.button, now)
  {
    match b.currentState
    case Idle =>
      if !level then StepResult(b.(lastPressTick := now, currentState := PressedState), Pressed)
      else StepResult(b, NoEvent)
    case PressedState =>
      if level then
        var released := b.(lastReleaseTick := now);
        var pressDuration := now - b.lastPressTick;
        if b.isLongPressActive then
          StepResult(released.(isLongPressActive := false, currentState := Idle), Released)
        else if pressDuration < LONG_PRESS_TICKS then
          StepResult(released.(currentState := WaitingForSecondPress, pressCount := 1), Click)
        else
          StepResult(released.(currentState := Idle), Released)
      else if !b.isLongPressActive && now - b.lastPressTick >= LONG_PRESS_TICKS then
        StepResult(b.(isLongPressActive := true), LongPress)
      else
        StepResult(b, NoEvent)
    case LongPressDetected =>
      if level then StepResult(b.(isLongPressActive := false, currentState := Idle), Released)
      else StepResult(b, NoEvent)
    case WaitingForSecondPress =>
      if !level then
        if now - b.lastReleaseTick <= DOUBLE_CLICK_TIMEOUT_TICKS then
          StepResult(b.(lastPressTick := now, currentState := DoubleClickDetected), Pressed)
        else
          StepResult(b.(currentState := Idle), Pressed)
      else if now - b.lastReleaseTick > DOUBLE_CLICK_TIMEOUT_TICKS then
        StepResult(b.(currentState := Idle), NoEvent)
      else
        StepResult(b, NoEvent)
    case DoubleClickDetected =>
      if level then
        var released := b.(lastReleaseTick := now);
        var pressDuration := now - b.lastPressTick;
        if b.isDoubleLongPressActive then
          StepResult(released.(isDoubleLongPressActive := false, currentState := Idle), Released)
        else if pressDuration >= DOUBLE_LONG_PRESS_TICKS then
          StepResult(released.(currentState := DoubleLongPressDetected, isDoubleLongPressActive := true), DoubleLongPress)
        else
          StepResult(released.(currentState := Idle), DoubleClick)
      else if !b.isDoubleLongPressActive && now - b.lastPressTick >= DOUBLE_LONG_PRESS_TICKS then
        StepResult(b.(isDoubleLongPressActive := true), DoubleLongPress)
      else
        StepResult(b, NoEvent)
    case DoubleLongPressDetected =>
      if level then StepResult(b.(isDoubleLongPressActive := false, currentState := Idle), Released)
      else StepResult(b, NoEvent)
  }

  // ---------------------------------------------------------------------
  // One step at a time
  // ---------------------------------------------------------------------

  /** In Idle a low sample starts a press; a high sample changes nothing. */
  lemma IdleStep(b: Button, level: bool, now: nat)
    requires b.currentState == Idle
    ensures var r := Step(b, level, now);
      && (!level ==> r.event == Pressed && r.button == b.(currentState := PressedState, lastPressTick := now))
      && (level ==> r.event == NoEvent && r.button == b)
  {
  }

  /**
   * While the button is held in PressedState, LongPress is reported exactly
   * when it has not been reported yet in this hold and the hold has lasted
   * at least the long-press time (a tie counts); setting the flag is then
   * the only change to the record, and otherwise nothing changes.
   */
  lemma HeldLongPress(b: Button, now: nat)
    requires b.currentState == PressedState
    ensures var r := Step(b, false, now);
      && (r.event == LongPress <==> !b.isLongPressActive && now - b.lastPressTick >= LONG_PRESS_TICKS)
      && (r.event != LongPress ==> r.event == NoEvent)
      && r.button == (if r.event == LongPress then b.(isLongPressActive := true) else b)
  {
  }

  /**
   * Releasing from PressedState records the release tick and clears the
   * long-press flag. It reports Click, and waits for a second press, exactly
   * when no long press was reported and the press was shorter than the
   * long-press time; otherwise it reports Released and returns to Idle.
   * A hold that reported LongPress never yields Click.
   */
  lemma ReleaseFromPressed(b: Button, now: nat)
    requires b.currentState == PressedState
    ensures var r := Step(b, true, now);
      && r.button.lastReleaseTick == now
      && !r.button.isLongPressActive
      && (r.event == Click <==> !b.isLongPressActive && now - b.lastPressTick < LONG_PRESS_TICKS)
      && (r.event == Click ==> r.button.currentState == WaitingForSecondPress && r.button.pressCount == 1)
      && (r.event != Click ==> r.event == Released && r.button.currentState == Idle)
      && (b.isLongPressActive ==> r.event == Released)
      && r.button == (if r.event == Click
                      then b.(lastReleaseTick := now, currentState := WaitingForSecondPress, pressCount := 1)
                      else b.(lastReleaseTick := now, currentState := Idle, isLongPressActive := false))
  {
  }

  /**
   * In WaitingForSecondPress, a press within the double-click timeout (a tie
   * counts) restarts the press tick and enters DoubleClickDetected, a later
   * press goes back to Idle; both report Pressed. While released, the state
   * falls back to Idle, silently, once strictly more than the timeout has
   * passed.
   */
  lemma WaitingStep(b: Button, level: bool, now: nat)
    requires b.currentState == WaitingForSecondPress
    ensures var r := Step(b, level, now);
      && (!level ==> r.event == Pressed)
      && (!level && now - b.lastReleaseTick <= DOUBLE_CLICK_TIMEOUT_TICKS ==>
            r.button == b.(lastPressTick := now, currentState := DoubleClickDetected))
      && (!level && now - b.lastReleaseTick > DOUBLE_CLICK_TIMEOUT_TICKS ==>
            r.button == b.(currentState := Idle))
      && (level ==> r.event == NoEvent)
      && (level ==> r.button == (if now - b.lastReleaseTick > DOUBLE_CLICK_TIMEOUT_TICKS then b.(currentState := Idle) else b))
  {
  }

  /**
   * In DoubleClickDetected, DoubleLongPress is reported while held exactly
   * once per hold, guarded by its flag. On release, DoubleClick is reported
   * exactly when no double long press was reported and the second press
   * was shorter than the double-long-press time; a second press that reached
   * that time without being reported reports DoubleLongPress on release.
   */
  lemma DoubleClickStep(b: Button, level: bool, now: nat)
    requires b.currentState == DoubleClickDetected
    ensures var r := Step(b, level, now);
      && (!level ==> (r.event == DoubleLongPress <==> !b.isDoubleLongPressActive && now - b.lastPressTick >= DOUBLE_LONG_PRESS_TICKS))
      && (!level ==> r.button.currentState == DoubleClickDetected)
      && (!level && r.event != DoubleLongPress ==> r.event == NoEvent && r.button == b)
      && (level ==> r.button.lastReleaseTick == now)
      && (level ==> (r.event == DoubleClick <==> !b.isDoubleLongPressActive && now - b.lastPressTick < DOUBLE_LONG_PRESS_TICKS))
      && (level && r.event == DoubleClick ==> r.button.currentState == Idle)
      && (level && b.isDoubleLongPressActive ==> r.event == Released && r.button.currentState == Idle && !r.button.isDoubleLongPressActive)
      && (level && !b.isDoubleLongPressActive && now - b.lastPressTick >= DOUBLE_LONG_PRESS_TICKS ==>
            r.event == DoubleLongPress && r.button.currentState == DoubleLongPressDetected)
      && (level ==> r.button == b.(lastReleaseTick := now,
                                   currentState := if r.event == DoubleLongPress then DoubleLongPressDetected else Idle,
                                   isDoubleLongPressActive := r.event == DoubleLongPress))
      && (!level ==> r.button == (if r.event == DoubleLongPress then b.(isDoubleLongPressActive := true) else b))
  {
  }

  /**
   * In LongPressDetected a release reports Released, clears the long-press
   * flag and returns to Idle; a held poll changes nothing and reports nothing.
   */
  lemma LongPressDetectedStep(b: Button, level: bool, now: nat)
    requires b.currentState == LongPressDetected
    ensures var r := Step(b, level, now);
      && (level ==> r.event == Released && r.button == b.(isLongPressActive := false, currentState := Idle))
      && (!level ==> r.event == NoEvent && r.button == b)
  {
  }

  /**
   * In DoubleLongPressDetected a release reports Released, clears the
   * double-long-press flag and returns to Idle, without recording the release
   * tick; a low sample (a new press) is swallowed: nothing changes and
   * nothing is reported.
   */
  lemma DoubleLongPressDetectedStep(b: Button, level: bool, now: nat)
    requires b.currentState == DoubleLongPressDetected
    ensures var r := Step(b, level, now);
      && (level ==> r.event == Released && r.button == b.(isDoubleLongPressActive := false, currentState := Idle))
      && (!level ==> r.event == NoEvent && r.button == b)
  {
  }

  /** No transition ever targets LongPressDetected; only its own release leaves it. */
  lemma NeverEntersLongPressDetected(b: Button, level: bool, now: nat)
    ensures Step(b, level, now).button.currentState != LongPressDetected
             || (b.currentState == LongPressDetected && !level)
  {
  }

  /** A record written by button_driver_init (or left by calloc) is well formed. */
  lemma ResetIsWellFormed(gpio: uint8)
    ensures WellFormed(ResetButton(gpio)) && WellFormed(CALLOC_BUTTON)
    ensures ResetButton(gpio).currentState == Idle
  {
  }

  /** Every step keeps the flag discipline, in particular both flags are clear whenever the button is Idle. */
  lemma StepPreservesWellFormed(b: Button, level: bool, now: nat)
    requires WellFormed(b)
    ensures WellFormed(Step(b, level, now).button)
  {
  }

  // ---------------------------------------------------------------------
  // The event queue
  // ---------------------------------------------------------------------

  /** xQueueSend with a zero timeout: append when there is room, otherwise drop. */
  function Send(q: seq<ButtonEvent>, capacity: nat, m: ButtonEvent): (r: seq<ButtonEvent>)
    ensures |q| <= |r| <= |q| + 1 && r[..|q|] == q
    ensures |r| == |q| + 1 <==> |q| < capacity
    ensures |r| == |q| + 1 ==> r[|q|] == m
  {
    if |q| < capacity then q + [m] else q
  }

  /** Send each of `ms` in order. */
  function SendAll(q: seq<ButtonEvent>, capacity: nat, ms: seq<ButtonEvent>): (r: seq<ButtonEvent>)
    ensures |q| <= |r| <= |q| + |ms| && r[..|q|] == q
    ensures |q| <= capacity ==> |r| <= capacity
    decreases |ms|
  {
    if ms == [] then q
    else Send(SendAll(q, capacity, ms[..|ms| - 1]), capacity, ms[|ms| - 1])
  }

  /** Sending one more event is one more send. */
  lemma SendAllAppendOne(q: seq<ButtonEvent>, capacity: nat, ms: seq<ButtonEvent>, m: ButtonEvent)
    ensures SendAll(q, capacity, ms + [m]) == Send(SendAll(q, capacity, ms), capacity, m)
  {
    assert (ms + [m])[..|ms|] == ms;
  }

  /** Sending a batch of at most one event after another batch is sending both. */
  lemma SendAllAppend(q: seq<ButtonEvent>, capacity: nat, ms: seq<ButtonEvent>, more: seq<ButtonEvent>)
    requires |more| <= 1
    ensures SendAll(q, capacity, ms + more) == SendAll(SendAll(q, capacity, ms), capacity, more)
  {
    if more == [] {
      assert ms + more == ms;
    } else {
      SendAllAppendOne(q, capacity, ms, more[0]);
      SendAllAppendOne(SendAll(q, capacity, ms), capacity, [], more[0]);
      assert more == [more[0]];
    }
  }

  function Min(a: int, b: int): int {
    if a <= b then a else b
  }

  /**
   * Sending a batch keeps what was queued, appends the oldest of the new
   * events while there is room and drops the rest: the queue never grows
   * beyond its capacity and the events already queued are never changed.
   */
  lemma {:induction false} SendAllKeepsOldest(q: seq<ButtonEvent>, capacity: nat, ms: seq<ButtonEvent>)
    requires |q| <= capacity
    ensures var r := SendAll(q, capacity, ms);
      && |r| == Min(capacity, |q| + |ms|)
      && r == q + ms[..|r| - |q|]
    decreases |ms|
  {
    if ms != [] {
      var init := ms[..|ms| - 1];
      SendAllKeepsOldest(q, capacity, init);
      assert init[..Min(capacity, |q| + |init|) - |q|] == ms[..Min(capacity, |q| + |init|) - |q|];
      if |q| + |init| < capacity {
        assert ms[..|init| + 1] == ms;
      }
    }
  }

  // ---------------------------------------------------------------------
  // One poll round
  // ---------------------------------------------------------------------

  /** The queue entry, if any, for button `bs[i]` in a round. */
  function Tagged(b: Button, level: bool, now: nat): (r: seq<ButtonEvent>)
    ensures |r| <= 1
    ensures r != [] <==> Step(b, level, now).event != NoEvent
    ensures r != [] ==> r[0].gpioNum == b.gpioNum && r[0].eventType == Step(b, level, now).event
  {
    var e := Step(b, level, now).event;
    if e == NoEvent then [] else [ButtonEvent(b.gpioNum, e)]
  }

  /** The events a poll round produces, in button-index order. */
  function RoundEvents(bs: seq<Button>, levels: seq<bool>, now: nat): (r: seq<ButtonEvent>)
    requires |levels| == |bs|
    ensures |r| <= |bs|
    ensures forall k :: 0 <= k < |r| ==> r[k].eventType != NoEvent
    decreases |bs|
  {
    if bs == [] then []
    else
      var n := |bs| - 1;
      RoundEvents(bs[..n], levels[..n], now) + Tagged(bs[n], levels[n], now)
  }

  /** Extending a round by the next button adds that button's entry, if any. */
  lemma RoundEventsExtend(bs: seq<Button>, levels: seq<bool>, now: nat, i: nat)
    requires |levels| == |bs| && i < |bs|
    ensures RoundEvents(bs[..i + 1], levels[..i + 1], now)
            == RoundEvents(bs[..i], levels[..i], now) + Tagged(bs[i], levels[i], now)
  {
    assert bs[..i + 1][..i] == bs[..i] && levels[..i + 1][..i] == levels[..i];
  }

  /** The records after the first n buttons of a round have been stepped. */
  function SteppedButtons(bs: seq<Button>, levels: seq<bool>, now: nat, n: nat): (r: seq<Button>)
    requires |levels| == |bs|
    ensures |r| == |bs|
  {
    seq(|bs|, j requires 0 <= j < |bs| => if j < n then Step(bs[j], levels[j], now).button else bs[j])
  }

  /** Stepping one more button updates exactly that button's record. */
  lemma SteppedButtonsNext(bs: seq<Button>, levels: seq<bool>, now: nat, i: nat)
    requires |levels| == |bs| && i < |bs|
    ensures SteppedButtons(bs, levels, now, i + 1) == SteppedButtons(bs, levels, now, i)[i := Step(bs[i], levels[i], now).button]
  {
  }

  /** Sending the first i + 1 buttons' entries is sending the first i, then button i's. */
  lemma SendRoundPrefix(q: seq<ButtonEvent>, capacity: nat, bs: seq<Button>, levels: seq<bool>, now: nat, i: nat)
    requires |levels| == |bs| && i < |bs|
    ensures SendAll(q, capacity, RoundEvents(bs[..i + 1], levels[..i + 1], now))
            == SendAll(SendAll(q, capacity, RoundEvents(bs[..i], levels[..i], now)), capacity, Tagged(bs[i], levels[i], now))
  {
    RoundEventsExtend(bs, levels, now, i);
    SendAllAppend(q, capacity, RoundEvents(bs[..i], levels[..i], now), Tagged(bs[i], levels[i], now));
  }

  /** The indices, ascending, of the buttons whose step reports an event. */
  function EventIndices(bs: seq<Button>, levels: seq<bool>, now: nat): seq<nat>
    requires |levels| == |bs|
    decreases |bs|
  {
    if bs == [] then []
    else
      var n := |bs| - 1;
      EventIndices(bs[..n], levels[..n], now)
        + (if Step(bs[n], levels[n], now).event == NoEvent then [] else [n])
  }

  /**
   * EventIndices lists, in strictly increasing order, exactly the buttons
   * whose step in the round reports an event.
   */
  lemma {:induction false} EventIndicesAscending(bs: seq<Button>, levels: seq<bool>, now: nat)
    requires |levels| == |bs|
    ensures var idx := EventIndices(bs, levels, now);
      && (forall k :: 0 <= k < |idx| ==> idx[k] < |bs|)
      && (forall k, l :: 0 <= k < l < |idx| ==> idx[k] < idx[l])
      && (forall i :: 0 <= i < |bs| ==> (i in idx <==> Step(bs[i], levels[i], now).event != NoEvent))
    decreases |bs|
  {
    if bs != [] {
      var n := |bs| - 1;
      var bs', levels' := bs[..n], levels[..n];
      EventIndicesAscending(bs', levels', now);
      assert forall i :: 0 <= i < n ==> bs'[i] == bs[i] && levels'[i] == levels[i];
    }
  }

  /**
   * A round's events are, in the order of EventIndices, the events of those
   * buttons, each tagged with its own button's GPIO number.
   */
  lemma {:induction false} RoundEventsInIndexOrder(bs: seq<Button>, levels: seq<bool>, now: nat)
    requires |levels| == |bs|
    ensures var idx := EventIndices(bs, levels, now);
      var evs := RoundEvents(bs, levels, now);
      && |idx| == |evs|
      && (forall k :: 0 <= k < |idx| ==>
            && idx[k] < |bs|
            && evs[k] == ButtonEvent(bs[idx[k]].gpioNum, Step(bs[idx[k]], levels[idx[k]], now).event)
            && evs[k].eventType != NoEvent)
    decreases |bs|
  {
    if bs != [] {
      var n := |bs| - 1;
      var bs', levels' := bs[..n], levels[..n];
      RoundEventsInIndexOrder(bs', levels', now);
      assert forall i :: 0 <= i < n ==> bs'[i] == bs[i] && levels'[i] == levels[i];
    }
  }

  // ---------------------------------------------------------------------
  // The driver's state: the button array and the event queue
  // ---------------------------------------------------------------------

  class Driver {
    /** s_buttons */
    var buttons: array<Button>
    /** s_num_buttons */
    var numButtons: uint8
    /** The contents of s_button_event_queue, oldest first. */
    var queue: seq<ButtonEvent>
    /** The queue's capacity (event_queue_size). */
    var queueSize: nat

    ghost predicate Valid()
      reads this, buttons
    {
      && buttons.Length == numButtons
      && |queue| <= queueSize
      && forall i :: 0 <= i < buttons.Length ==> WellFormed(buttons[i])
    }

    /** The driver before button_driver_init: no buttons, no queue room. */
    constructor ()
      ensures Valid() && fresh(buttons)
      ensures numButtons == 0 && queue == [] && queueSize == 0
    {
      buttons := new Button[0];
      numButtons := 0;
      queue := [];
      queueSize := 0;
    }

    /**
     * button_driver_init. `gpios` is None for a NULL array. Fails, changing
     * nothing, when there are no buttons or no GPIO array; otherwise
     * allocates the records, creates an empty queue of the given size and
     * resets every button to Idle with zero ticks and cleared flags.
     */
    method Init(num: uint8, gpios: Option<seq<uint8>>, eventQueueSize: nat) returns (ok: bool)
      requires gpios.Some? ==> |gpios.value| >= num
      modifies this
      ensures ok <==> num != 0 && gpios.Some?
      ensures ok ==> Valid() && fresh(buttons)
      ensures ok ==> numButtons == num && queue == [] && queueSize == eventQueueSize
      ensures ok ==> forall i :: 0 <= i < num ==> buttons[i] == ResetButton(gpios.value[i])
      ensures !ok ==> unchanged(this)
    {
      if num == 0 || gpios.None? {
        return false;
      }
      numButtons := num;
      var a := new Button[num](_ => CALLOC_BUTTON);
      buttons := a;
      queue := [];
      queueSize := eventQueueSize;
      var gs := gpios.value;
      var i := 0;
      while i < num
        invariant 0 <= i <= num
        invariant forall j :: 0 <= j < i ==> a[j] == ResetButton(gs[j])
        invariant forall j :: i <= j < num ==> a[j] == CALLOC_BUTTON
        modifies a
      {
        a[i] := a[i].(gpioNum := gs[i]);
        a[i] := a[i].(currentState := Idle);
        a[i] := a[i].(lastPressTick := 0);
        a[i] := a[i].(lastReleaseTick := 0);
        a[i] := a[i].(pressCount := 0);
        a[i] := a[i].(isLongPressActive := false);
        a[i] := a[i].(isDoubleLongPressActive := false);
        i := i + 1;
      }
      forall j | 0 <= j < num ensures WellFormed(a[j]) {
        ResetIsWellFormed(gs[j]);
      }
      ok := true;
    }

    /**
     * process_button_state on `buttons[i]`, updating the record in place.
     * The record and the event are those of Step; no other record changes.
     */
    method ProcessButtonState(i: nat, level: bool, now: nat) returns (event: EventType)
      requires i < buttons.Length && NotAfter(buttons[i], now)
      modifies buttons
      ensures StepResult(buttons[i], event) == Step(old(buttons[i]), level, now)
      ensures forall j :: 0 <= j < buttons.Length && j != i ==> buttons[j] == old(buttons[j])
    {
      event := NoEvent;
      match buttons[i].currentState {
        case Idle =>
          if !level {
            buttons[i] := buttons[i].(lastPressTick := now);
            buttons[i] := buttons[i].(currentState := PressedState);
            event := Pressed;
          }
        case PressedState =>
          if level {
            buttons[i] := buttons[i].(lastReleaseTick := now);
            event := Released;
            var pressDuration := buttons[i].lastReleaseTick - buttons[i].lastPressTick;
            if buttons[i].isLongPressActive {
              buttons[i] := buttons[i].(isLongPressActive := false);
              buttons[i] := buttons[i].(currentState := Idle);
            } else if pressDuration < LONG_PRESS_TICKS {
              buttons[i] := buttons[i].(currentState := WaitingForSecondPress);
              buttons[i] := buttons[i].(pressCount := 1);
              event := Click;
            } else {
              buttons[i] := buttons[i].(currentState := Idle);
            }
          } else if !buttons[i].isLongPressActive && now - buttons[i].lastPressTick >= LONG_PRESS_TICKS {
            event := LongPress;
            buttons[i] := buttons[i].(isLongPressActive := true);
          }
        case LongPressDetected =>
          if level {
            buttons[i] := buttons[i].(isLongPressActive := false);
            buttons[i] := buttons[i].(currentState := Idle);
            event := Released;
          }
        case WaitingForSecondPress =>
          if !level {
            var timeSinceLastRelease := now - buttons[i].lastReleaseTick;
            if timeSinceLastRelease <= DOUBLE_CLICK_TIMEOUT_TICKS {
              buttons[i] := buttons[i].(lastPressTick := now);
              buttons[i] := buttons[i].(currentState := DoubleClickDetected);
              event := Pressed;
            } else {
              buttons[i] := buttons[i].(currentState := Idle);
              event := Pressed;
            }
          } else {
            var timeSinceFirstRelease := now - buttons[i].lastReleaseTick;
            if timeSinceFirstRelease > DOUBLE_CLICK_TIMEOUT_TICKS {
              buttons[i] := buttons[i].(currentState := Idle);
            }
          }
        case DoubleClickDetected =>
          if level {
            buttons[i] := buttons[i].(lastReleaseTick := now);
            event := Released;
            var pressDurationSecondPress := buttons[i].lastReleaseTick - buttons[i].lastPressTick;
            if buttons[i].isDoubleLongPressActive {
              buttons[i] := buttons[i].(isDoubleLongPressActive := false);
              buttons[i] := buttons[i].(currentState := Idle);
            } else if pressDurationSecondPress >= DOUBLE_LONG_PRESS_TICKS {
              buttons[i] := buttons[i].(currentState := DoubleLongPressDetected);
              buttons[i] := buttons[i].(isDoubleLongPressActive := true);
              event := DoubleLongPress;
            } else {
              buttons[i] := buttons[i].(currentState := Idle);
              event := DoubleClick;
            }
          } else if !buttons[i].isDoubleLongPressActive && now - buttons[i].lastPressTick >= DOUBLE_LONG_PRESS_TICKS {
            event := DoubleLongPress;
            buttons[i] := buttons[i].(isDoubleLongPressActive := true);
          }
        case DoubleLongPressDetected =>
          if level {
            buttons[i] := buttons[i].(isDoubleLongPressActive := false);
            buttons[i] := buttons[i].(currentState := Idle);
            event := Released;
          }
      }
    }

    /** xQueueSend with a zero timeout: the event is appended, or dropped when the queue is full. */
    method QueueSend(m: ButtonEvent)
      requires |queue| <= queueSize
      modifies this`queue
      ensures queue == Send(old(queue), queueSize, m)
      ensures |queue| <= queueSize
    {
      if |queue| < queueSize {
        queue := queue + [m];
      }
    }

    /**
     * The body of the polling loop for button i: step it on its sampled
     * level and send what it reports, tagged with its GPIO number.
     */
    method PollButton(i: nat, level: bool, now: nat)
      requires Valid() && i < buttons.Length && NotAfter(buttons[i], now)
      modifies this`queue, buttons
      ensures Valid()
      ensures buttons[..] == old(buttons[..])[i := Step(old(buttons[i]), level, now).button]
      ensures queue == SendAll(old(queue), queueSize, Tagged(old(buttons[i]), level, now))
    {
      StepPreservesWellFormed(buttons[i], level, now);
      var eventTypeRaw := ProcessButtonState(i, level, now);
      if eventTypeRaw != NoEvent {
        var buttonEventData := ButtonEvent(buttons[i].gpioNum, eventTypeRaw);
        SendAllAppendOne(queue, queueSize, [], buttonEventData);
        QueueSend(buttonEventData);
      }
    }

    /** Polling button i after the first i buttons of a round: the round advances by one button. */
    method PollNext(i: nat, levels: seq<bool>, now: nat, ghost before: seq<Button>, ghost q0: seq<ButtonEvent>)
      requires Valid() && i < buttons.Length == |before| == |levels|
      requires NotAfter(before[i], now)
      requires buttons[..] == SteppedButtons(before, levels, now, i)
      requires queue == SendAll(q0, queueSize, RoundEvents(before[..i], levels[..i], now))
      modifies this`queue, buttons
      ensures Valid()
      ensures buttons[..] == SteppedButtons(before, levels, now, i + 1)
      ensures queue == SendAll(q0, queueSize, RoundEvents(before[..i + 1], levels[..i + 1], now))
    {
      assert buttons[i] == before[i];
      ghost var sofar := queue;
      SendRoundPrefix(q0, queueSize, before, levels, now, i);
      SteppedButtonsNext(before, levels, now, i);
      PollButton(i, levels[i], now);
      assert queue == SendAll(sofar, queueSize, Tagged(before[i], levels[i], now));
    }

    /**
     * One iteration of button_polling_task: `levels[i]` is the level read
     * from button i in this round. Buttons are stepped in index order and
     * each reported event is sent, tagged with the button's GPIO number, to
     * the queue, which drops it when full.
     */
    method PollRound(levels: seq<bool>, now: nat)
      requires Valid() && |levels| == buttons.Length
      requires forall i :: 0 <= i < buttons.Length ==> NotAfter(buttons[i], now)
      modifies this`queue, buttons
      ensures Valid()
      ensures forall i :: 0 <= i < buttons.Length ==> buttons[i] == Step(old(buttons[i]), levels[i], now).button
      ensures queue == SendAll(old(queue), queueSize, RoundEvents(old(buttons[..]), levels, now))
    {
      ghost var before := buttons[..];
      assert forall j :: 0 <= j < |before| ==> NotAfter(before[j], now);
      assert before[..0] == [] && levels[..0] == [];
      var i: nat := 0;
      while i < numButtons
        invariant 0 <= i <= numButtons == buttons.Length
        invariant Valid()
        invariant buttons[..] == SteppedButtons(before, levels, now, i)
        invariant queue == SendAll(old(queue), queueSize, RoundEvents(before[..i], levels[..i], now))
      {
        PollNext(i, levels, now, before, old(queue));
        i := i + 1;
      }
      assert before[..i] == before && levels[..i] == levels;
      forall j | 0 <= j < buttons.Length
        ensures buttons[j] == Step(before[j], levels[j], now).button
      {
        assert buttons[j] == buttons[..][j];
      }
    }
  }
}
