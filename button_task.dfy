/**
 * The four-button reader of the button task: each call samples the buttons
 * A, B, C, D in table order, updates their records in place and returns the
 * first event it finds. Clicks are deferred: a short release stores a
 * potential click, which becomes a double click on a second short release
 * within 300 ms, or a single click once 300 ms pass with the button released.
 * After the four buttons comes a check for a combined long press of A and B.
 *
 * Time is the microsecond timer, an unsigned 64-bit value; durations are
 * unsigned differences divided by 1000 (milliseconds).
 */
module ButtonTask {
  import opened Wrappers

  type uint64 = x: int | 0 <= x < 0x1_0000_0000_0000_0000

  /** GPIO numbers of the four buttons. */
  const BUTTON_A_GPIO: int := 13
  const BUTTON_B_GPIO: int := 12
  const BUTTON_C_GPIO: int := 14
  const BUTTON_D_GPIO: int := 27

  const DOUBLE_CLICK_TIME_MS: int := 300
  const LONG_PRESS_TIME_MS: int := 1000

  const NUM_BUTTONS: nat := 4

  datatype Letter = A | B | C | D

  datatype Gesture = SingleClick | DoubleClick | LongPressStart | LongPressUp

  /** button_event_type_t of button_task.h: no event, a gesture of one button, or the A+B combination. */
  datatype TaskEvent = ButtonNone | ButtonEvent(letter: Letter, gesture: Gesture) | ABLongPress

  /** The numeric value of each event in the enumeration. */
  function Code(e: TaskEvent): (r: nat)
    ensures r <= 17
    ensures r == 0 <==> e == ButtonNone
    ensures r == 17 <==> e == ABLongPress
  {
    match e
    case ButtonNone => 0
    case ABLongPress => 17
    case ButtonEvent(l, g) =>
      var base := match l case A => 0 case B => 4 case C => 8 case D => 12;
      var offset := match g case SingleClick => 1 case DoubleClick => 2 case LongPressStart => 3 case LongPressUp => 4;
      base + offset
  }

  /** Distinct events have distinct values. */
  lemma CodeInjective(e1: TaskEvent, e2: TaskEvent)
    ensures Code(e1) == Code(e2) <==> e1 == e2
  {
  }

  /** The button letter of a GPIO number; the switch statements of the reader have no case for others. */
  function LetterOf(gpio: int): (r: Option<Letter>)
    ensures r == Some(A) <==> gpio == BUTTON_A_GPIO
    ensures r == Some(B) <==> gpio == BUTTON_B_GPIO
    ensures r == Some(C) <==> gpio == BUTTON_C_GPIO
    ensures r == Some(D) <==> gpio == BUTTON_D_GPIO
  {
    if gpio == BUTTON_A_GPIO then Some(A)
    else if gpio == BUTTON_B_GPIO then Some(B)
    else if gpio == BUTTON_C_GPIO then Some(C)
    else if gpio == BUTTON_D_GPIO then Some(D)
    else None
  }

  /** The event of gesture `g` for the button at `gpio`, or no event for an unknown GPIO. */
  function EventFor(gpio: int, g: Gesture): (r: TaskEvent)
    ensures r != ButtonNone <==> LetterOf(gpio).Some?
    ensures r != ButtonNone ==> r.ButtonEvent? && LetterOf(gpio) == Some(r.letter) && r.gesture == g
  {
    match LetterOf(gpio)
    case Some(l) => ButtonEvent(l, g)
    case None => ButtonNone
  }

  /** Unsigned 64-bit subtraction. */
  function Sub64(a: uint64, b: uint64): (r: uint64)
    ensures a >= b ==> r == a - b
    ensures (r + b) % 0x1_0000_0000_0000_0000 == a
  {
    if a >= b then a - b else a - b + 0x1_0000_0000_0000_0000
  }

  /** Milliseconds from `since` to `now`, truncated. */
  function ElapsedMs(now: uint64, since: uint64): (r: uint64)
    ensures r * 1000 <= Sub64(now, since) < r * 1000 + 1000
    ensures since <= now ==> r * 1000 <= now - since < r * 1000 + 1000
  {
    Sub64(now, since) / 1000
  }

  /** button_info_t: the record the reader keeps for each button (`currentState` true is high). */
  datatype ButtonInfo = ButtonInfo(
    gpioNum: int,
    currentState: bool,
    prevState: bool,
    lastPressTime: uint64,
    lastReleaseTime: uint64,
    lastSingleClickTime: uint64,
    longPressTriggered: bool,
    isPressed: bool)

  /** The record of a button at boot: released, nothing pending. */
  function BootRecord(gpio: int): ButtonInfo {
    ButtonInfo(gpio, true, true, 0, 0, 0, false, false)
  }

  /** The button table at boot, in the order the reader scans it. */
  const INITIAL_BUTTONS: seq<ButtonInfo> :=
    [BootRecord(BUTTON_A_GPIO), BootRecord(BUTTON_B_GPIO), BootRecord(BUTTON_C_GPIO), BootRecord(BUTTON_D_GPIO)]

  /** The boot table lists A, B, C, D in that order, each released, not held and with no click pending. */
  lemma BootTable()
    ensures TableGpios(INITIAL_BUTTONS)
    ensures forall j :: 0 <= j < |INITIAL_BUTTONS| ==>
      && INITIAL_BUTTONS[j].currentState && !INITIAL_BUTTONS[j].isPressed
      && !INITIAL_BUTTONS[j].longPressTriggered && INITIAL_BUTTONS[j].lastSingleClickTime == 0
  {
  }

  /**
   * One button of one call: record the sampled level (`level` true is high)
   * and classify it at time `now`. The second component is the event, or
   * ButtonNone when the call goes on to the next button.
   */
  function ButtonStep(b: ButtonInfo, level: bool, now: uint64): (r: (ButtonInfo, TaskEvent))
    ensures r.0.gpioNum == b.gpioNum && r.0.currentState == level && r.0.prevState == b.prevState
    ensures r.1 == ButtonNone || (r.1.ButtonEvent? && LetterOf(b.gpioNum) == Some(r.1.letter))
  {
    var s := b.(currentState := level);
    if !level then
      if !s.isPressed then
        (s.(isPressed := true, lastPressTime := now, longPressTriggered := false), ButtonNone)
      else if !s.longPressTriggered && ElapsedMs(now, s.lastPressTime) >= LONG_PRESS_TIME_MS then
        (s.(longPressTriggered := true), EventFor(s.gpioNum, LongPressStart))
      else
        (s, ButtonNone)
    else if s.isPressed then
      var released := s.(isPressed := false, lastReleaseTime := now);
      if released.longPressTriggered then
        (released, EventFor(s.gpioNum, LongPressUp))
      else if ElapsedMs(now, released.lastSingleClickTime) < DOUBLE_CLICK_TIME_MS then
        (released.(lastSingleClickTime := 0), EventFor(s.gpioNum, DoubleClick))
      else
        (released.(lastSingleClickTime := now), ButtonNone)
    else if s.lastSingleClickTime != 0 && ElapsedMs(now, s.lastSingleClickTime) >= DOUBLE_CLICK_TIME_MS then
      (s.(lastSingleClickTime := 0), EventFor(s.gpioNum, SingleClick))
    else
      (s, ButtonNone)
  }

  /**
   * The combination check after the four buttons: A+B long press when both
   * are pressed, both held at least the long-press time and neither has
   * triggered; otherwise, when not both are pressed, both flags are reset if
   * both are set.
   */
  function Combination(bs: seq<ButtonInfo>, now: uint64): (r: (seq<ButtonInfo>, TaskEvent))
    requires |bs| >= 2
    ensures |r.0| == |bs|
    ensures TableGpios(bs) ==> TableGpios(r.0)
    ensures r.1 == ButtonNone || r.1 == ABLongPress
  {
    if bs[0].isPressed && bs[1].isPressed then
      if && ElapsedMs(now, bs[0].lastPressTime) >= LONG_PRESS_TIME_MS
         && ElapsedMs(now, bs[1].lastPressTime) >= LONG_PRESS_TIME_MS
         && !bs[0].longPressTriggered && !bs[1].longPressTriggered
      then
        (bs[0 := bs[0].(longPressTriggered := true)][1 := bs[1].(longPressTriggered := true)], ABLongPress)
      else
        (bs, ButtonNone)
    else if bs[0].longPressTriggered && bs[1].longPressTriggered then
      (bs[0 := bs[0].(longPressTriggered := false)][1 := bs[1].(longPressTriggered := false)], ButtonNone)
    else
      (bs, ButtonNone)
  }

  /** The reader from button `i` on: the first event ends the call. */
  function Scan(bs: seq<ButtonInfo>, levels: seq<bool>, now: uint64, i: nat): (r: (seq<ButtonInfo>, TaskEvent))
    requires |bs| == NUM_BUTTONS && |levels| == NUM_BUTTONS && i <= NUM_BUTTONS
    ensures |r.0| == NUM_BUTTONS
    ensures TableGpios(bs) ==> TableGpios(r.0)
    decreases NUM_BUTTONS - i
  {
    if i == NUM_BUTTONS then Combination(bs, now)
    else
      var st := ButtonStep(bs[i], levels[i], now);
      if st.1 != ButtonNone then (bs[i := st.0], st.1)
      else Scan(bs[i := st.0], levels, now, i + 1)
  }

  /** button_handler_read_event: the new table and the event of one call. */
  function ReadEventSpec(bs: seq<ButtonInfo>, levels: seq<bool>, now: uint64): (r: (seq<ButtonInfo>, TaskEvent))
    requires |bs| == NUM_BUTTONS && |levels| == NUM_BUTTONS
    ensures |r.0| == NUM_BUTTONS
    ensures TableGpios(bs) ==> TableGpios(r.0)
  {
    Scan(bs, levels, now, 0)
  }

  /** The GPIO numbers of the table are those of A, B, C, D in that order. */
  predicate TableGpios(bs: seq<ButtonInfo>) {
    && |bs| == NUM_BUTTONS
    && bs[0].gpioNum == BUTTON_A_GPIO
    && bs[1].gpioNum == BUTTON_B_GPIO
    && bs[2].gpioNum == BUTTON_C_GPIO
    && bs[3].gpioNum == BUTTON_D_GPIO
  }

  /** The button table and the reader over it. */
  class ButtonHandler {
    var buttons: array<ButtonInfo>

    predicate Valid()
      reads this, buttons
    {
      TableGpios(buttons[..])
    }

    /** The table as initialised at boot. */
    constructor ()
      ensures Valid() && fresh(buttons)
      ensures buttons[..] == INITIAL_BUTTONS
    {
      buttons := new ButtonInfo[NUM_BUTTONS](i requires 0 <= i < NUM_BUTTONS => INITIAL_BUTTONS[i]);
      new;
      assert buttons[..] == INITIAL_BUTTONS;
    }

    /** The body of the loop for button `i`: updates that record in place. */
    method HandleButton(i: nat, level: bool, now: uint64) returns (event: TaskEvent)
      requires i < buttons.Length
      modifies buttons
      ensures (buttons[i], event) == ButtonStep(old(buttons[i]), level, now)
      ensures buttons[..] == old(buttons[..])[i := buttons[i]]
    {
      event := ButtonNone;
      buttons[i] := buttons[i].(currentState := level);
      if !level {
        if !buttons[i].isPressed {
          buttons[i] := buttons[i].(isPressed := true);
          buttons[i] := buttons[i].(lastPressTime := now);
          buttons[i] := buttons[i].(longPressTriggered := false);
        } else if !buttons[i].longPressTriggered && ElapsedMs(now, buttons[i].lastPressTime) >= LONG_PRESS_TIME_MS {
          buttons[i] := buttons[i].(longPressTriggered := true);
          event := EventFor(buttons[i].gpioNum, LongPressStart);
        }
      } else if buttons[i].isPressed {
        buttons[i] := buttons[i].(isPressed := false);
        buttons[i] := buttons[i].(lastReleaseTime := now);
        if buttons[i].longPressTriggered {
          event := EventFor(buttons[i].gpioNum, LongPressUp);
        } else if ElapsedMs(now, buttons[i].lastSingleClickTime) < DOUBLE_CLICK_TIME_MS {
          event := EventFor(buttons[i].gpioNum, DoubleClick);
          buttons[i] := buttons[i].(lastSingleClickTime := 0);
        } else {
          buttons[i] := buttons[i].(lastSingleClickTime := now);
        }
      } else if buttons[i].lastSingleClickTime != 0 && ElapsedMs(now, buttons[i].lastSingleClickTime) >= DOUBLE_CLICK_TIME_MS {
        event := EventFor(buttons[i].gpioNum, SingleClick);
        buttons[i] := buttons[i].(lastSingleClickTime := 0);
      }
    }

    /** The combination check on buttons 0 and 1, in place. */
    method CheckCombination(now: uint64) returns (event: TaskEvent)
      requires buttons.Length == NUM_BUTTONS
      modifies buttons
      ensures (buttons[..], event) == Combination(old(buttons[..]), now)
    {
      event := ButtonNone;
      if buttons[0].isPressed && buttons[1].isPressed {
        var durationA := ElapsedMs(now, buttons[0].lastPressTime);
        var durationB := ElapsedMs(now, buttons[1].lastPressTime);
        if durationA >= LONG_PRESS_TIME_MS && durationB >= LONG_PRESS_TIME_MS {
          if !buttons[0].longPressTriggered && !buttons[1].longPressTriggered {
            event := ABLongPress;
            buttons[0] := buttons[0].(longPressTriggered := true);
            buttons[1] := buttons[1].(longPressTriggered := true);
          }
        }
      } else if buttons[0].longPressTriggered && buttons[1].longPressTriggered {
        buttons[0] := buttons[0].(longPressTriggered := false);
        buttons[1] := buttons[1].(longPressTriggered := false);
      }
    }

    /**
     * button_handler_read_event: `levels[i]` is what button `i` reads if the
     * call gets that far, `now` the timer value read at its start.
     */
    method ReadEvent(levels: seq<bool>, now: uint64) returns (event: TaskEvent)
      requires Valid() && |levels| == NUM_BUTTONS
      modifies buttons
      ensures Valid()
      ensures (buttons[..], event) == ReadEventSpec(old(buttons[..]), levels, now)
    {
      var i := 0;
      while i < NUM_BUTTONS
        invariant 0 <= i <= NUM_BUTTONS && TableGpios(buttons[..])
        invariant Scan(buttons[..], levels, now, i) == ReadEventSpec(old(buttons[..]), levels, now)
      {
        event := HandleButton(i, levels[i], now);
        if event != ButtonNone {
          return;
        }
        i := i + 1;
      }
      event := CheckCombination(now);
    }
  }
}
