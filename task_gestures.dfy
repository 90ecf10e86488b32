/**
 * Properties of the four-button reader: what one button does from call to
 * call, which button answers a call, the A+B combination, and the quirks of
 * the reader as written.
 */
module TaskGestures {
  import opened Wrappers
  import opened ButtonTask

  // ---------------------------------------------------------------------
  // One button, one call
  // ---------------------------------------------------------------------

  /** A button seen low while not pressed becomes pressed, records the press time and clears its trigger; no event. */
  lemma PressStarts(b: ButtonInfo, now: uint64)
    requires !b.isPressed
    ensures ButtonStep(b, false, now)
      == (b.(currentState := false, isPressed := true, lastPressTime := now, longPressTriggered := false), ButtonNone)
  {
  }

  /**
   * While held, LONG_PRESS_START is returned exactly when the hold has not
   * triggered yet and has lasted at least the long-press time (a tie
   * counts); the trigger is then set, and nothing else changes.
   */
  lemma HeldStep(b: ButtonInfo, now: uint64)
    requires b.isPressed
    ensures var reached := !b.longPressTriggered && ElapsedMs(now, b.lastPressTime) >= LONG_PRESS_TIME_MS;
      && ButtonStep(b, false, now).0 == b.(currentState := false, longPressTriggered := b.longPressTriggered || reached)
      && ButtonStep(b, false, now).1 == (if reached then EventFor(b.gpioNum, LongPressStart) else ButtonNone)
  {
  }

  /** Releasing after a triggered long press returns LONG_PRESS_UP and leaves the pending click alone. */
  lemma ReleaseAfterLongPress(b: ButtonInfo, now: uint64)
    requires b.isPressed && b.longPressTriggered
    ensures var r := ButtonStep(b, true, now);
      && r.1 == EventFor(b.gpioNum, LongPressUp)
      && r.0 == b.(currentState := true, isPressed := false, lastReleaseTime := now)
  {
  }

  /**
   * A short release (no long press): a double click when less than the
   * double-click time has passed since the pending click, which is then
   * cleared; otherwise no event, and the release becomes the pending click.
   */
  lemma ShortRelease(b: ButtonInfo, now: uint64)
    requires b.isPressed && !b.longPressTriggered
    ensures var r := ButtonStep(b, true, now);
      && r.0 == b.(currentState := true, isPressed := false, lastReleaseTime := now,
                   lastSingleClickTime := r.0.lastSingleClickTime)
      && (ElapsedMs(now, b.lastSingleClickTime) < DOUBLE_CLICK_TIME_MS ==>
            r.1 == EventFor(b.gpioNum, DoubleClick) && r.0.lastSingleClickTime == 0)
      && (ElapsedMs(now, b.lastSingleClickTime) >= DOUBLE_CLICK_TIME_MS ==>
            r.1 == ButtonNone && r.0.lastSingleClickTime == now)
  {
  }

  /**
   * Released and not pressed: a pending click (non-zero time) at least the
   * double-click time old becomes SINGLE_CLICK and is cleared; otherwise
   * nothing happens.
   */
  lemma PendingClickMatures(b: ButtonInfo, now: uint64)
    requires !b.isPressed
    ensures var fires := b.lastSingleClickTime != 0 && ElapsedMs(now, b.lastSingleClickTime) >= DOUBLE_CLICK_TIME_MS;
      && ButtonStep(b, true, now).1 == (if fires then EventFor(b.gpioNum, SingleClick) else ButtonNone)
      && ButtonStep(b, true, now).0 == b.(currentState := true, lastSingleClickTime := if fires then 0 else b.lastSingleClickTime)
  {
  }

  // ---------------------------------------------------------------------
  // One button over many calls
  // ---------------------------------------------------------------------

  /** The level one button reads in a call, and the timer value of that call. */
  datatype Sample = Sample(level: bool, timeUs: uint64)

  /** One button stepped through successive calls (as when no other button answers first). */
  function RunButton(b: ButtonInfo, samples: seq<Sample>): (r: (ButtonInfo, seq<TaskEvent>))
    ensures |r.1| == |samples| && r.0.gpioNum == b.gpioNum
    decreases |samples|
  {
    if samples == [] then (b, [])
    else
      var st := ButtonStep(b, samples[0].level, samples[0].timeUs);
      var rest := RunButton(st.0, samples[1..]);
      (rest.0, [st.1] + rest.1)
  }

  /** How many of the events are gesture `g` (of any button). */
  function CountGesture(g: Gesture, es: seq<TaskEvent>): nat {
    if es == [] then 0
    else (if es[0].ButtonEvent? && es[0].gesture == g then 1 else 0) + CountGesture(g, es[1..])
  }

  /**
   * However long a button is held and however often it is stepped, it
   * reports LONG_PRESS_START at most once (none if an ongoing hold has
   * already triggered) and no other event.
   */
  lemma {:induction false} HeldReportsLongPressStartAtMostOnce(b: ButtonInfo, samples: seq<Sample>)
    requires forall k :: 0 <= k < |samples| ==> !samples[k].level
    ensures CountGesture(LongPressStart, RunButton(b, samples).1)
            <= (if b.isPressed && b.longPressTriggered then 0 else 1)
    ensures forall k :: 0 <= k < |samples| ==>
      RunButton(b, samples).1[k] == ButtonNone || RunButton(b, samples).1[k] == EventFor(b.gpioNum, LongPressStart)
    decreases |samples|
  {
    if samples != [] {
      var st := ButtonStep(b, false, samples[0].timeUs);
      HeldReportsLongPressStartAtMostOnce(st.0, samples[1..]);
      var r := RunButton(b, samples);
      assert r.1 == [st.1] + RunButton(st.0, samples[1..]).1;
      forall k | 0 <= k < |samples|
        ensures r.1[k] == ButtonNone || r.1[k] == EventFor(b.gpioNum, LongPressStart)
      {
        if k > 0 {
          assert r.1[k] == RunButton(st.0, samples[1..]).1[k - 1];
        }
      }
    }
  }

  /**
   * A hold that has not triggered reports LONG_PRESS_START exactly once as
   * soon as one of its calls sees it last the long-press time.
   */
  lemma {:induction false} HeldReportsLongPressStartOnceReached(b: ButtonInfo, samples: seq<Sample>, k: nat)
    requires b.isPressed && !b.longPressTriggered && LetterOf(b.gpioNum).Some?
    requires forall j :: 0 <= j < |samples| ==> !samples[j].level
    requires k < |samples| && ElapsedMs(samples[k].timeUs, b.lastPressTime) >= LONG_PRESS_TIME_MS
    ensures CountGesture(LongPressStart, RunButton(b, samples).1) == 1
    ensures RunButton(b, samples).0.longPressTriggered
    decreases |samples|
  {
    var st := ButtonStep(b, false, samples[0].timeUs);
    if st.1 == ButtonNone {
      assert st.0 == b.(currentState := false);
      HeldReportsLongPressStartOnceReached(st.0, samples[1..], k - 1);
    } else {
      HeldReportsLongPressStartAtMostOnce(st.0, samples[1..]);
      HeldStaysTriggered(st.0, samples[1..]);
    }
  }

  /** A triggered hold stays triggered while held, and no call reports anything. */
  lemma {:induction false} HeldStaysTriggered(b: ButtonInfo, samples: seq<Sample>)
    requires b.isPressed && b.longPressTriggered
    requires forall j :: 0 <= j < |samples| ==> !samples[j].level
    ensures RunButton(b, samples).0 == b.(currentState := if samples == [] then b.currentState else false)
    ensures forall j :: 0 <= j < |samples| ==> RunButton(b, samples).1[j] == ButtonNone
    decreases |samples|
  {
    if samples != [] {
      var rest := RunButton(b.(currentState := false), samples[1..]);
      HeldStaysTriggered(b.(currentState := false), samples[1..]);
      assert RunButton(b, samples).1 == [ButtonNone] + rest.1;
    }
  }

  /**
   * The LONG_PRESS_START of a hold comes from the first call that finds the
   * hold at least the long-press time long; every other call of the hold
   * returns no event.
   */
  lemma {:induction false} LongPressStartAtFirstLongCall(b: ButtonInfo, samples: seq<Sample>, k: nat)
    requires b.isPressed && !b.longPressTriggered
    requires forall j :: 0 <= j < |samples| ==> !samples[j].level
    requires k < |samples| && ElapsedMs(samples[k].timeUs, b.lastPressTime) >= LONG_PRESS_TIME_MS
    requires forall j :: 0 <= j < k ==> ElapsedMs(samples[j].timeUs, b.lastPressTime) < LONG_PRESS_TIME_MS
    ensures RunButton(b, samples).1[k] == EventFor(b.gpioNum, LongPressStart)
    ensures forall j :: 0 <= j < |samples| && j != k ==> RunButton(b, samples).1[j] == ButtonNone
    decreases |samples|
  {
    var st := ButtonStep(b, false, samples[0].timeUs);
    var rest := RunButton(st.0, samples[1..]);
    var r := RunButton(b, samples);
    assert r.1 == [st.1] + rest.1;
    if k == 0 {
      HeldStaysTriggered(st.0, samples[1..]);
    } else {
      assert st == (b.(currentState := false), ButtonNone);
      assert forall j :: 0 <= j < k - 1 ==> samples[1..][j] == samples[j + 1];
      LongPressStartAtFirstLongCall(st.0, samples[1..], k - 1);
      assert r.1[k] == rest.1[k - 1];
    }
    forall j | 0 <= j < |samples| && j != k
      ensures r.1[j] == ButtonNone
    {
      if j > 0 {
        assert r.1[j] == rest.1[j - 1];
      }
    }
  }

  /**
   * A button left released reports SINGLE_CLICK at most once, and only if a
   * click is pending; it reports nothing else.
   */
  lemma {:induction false} ReleasedReportsSingleClickAtMostOnce(b: ButtonInfo, samples: seq<Sample>)
    requires !b.isPressed
    requires forall k :: 0 <= k < |samples| ==> samples[k].level
    ensures CountGesture(SingleClick, RunButton(b, samples).1) <= (if b.lastSingleClickTime != 0 then 1 else 0)
    ensures forall k :: 0 <= k < |samples| ==>
      RunButton(b, samples).1[k] == ButtonNone || RunButton(b, samples).1[k] == EventFor(b.gpioNum, SingleClick)
    decreases |samples|
  {
    if samples != [] {
      var st := ButtonStep(b, true, samples[0].timeUs);
      ReleasedReportsSingleClickAtMostOnce(st.0, samples[1..]);
      var r := RunButton(b, samples);
      assert r.1 == [st.1] + RunButton(st.0, samples[1..]).1;
      forall k | 0 <= k < |samples|
        ensures r.1[k] == ButtonNone || r.1[k] == EventFor(b.gpioNum, SingleClick)
      {
        if k > 0 {
          assert r.1[k] == RunButton(st.0, samples[1..]).1[k - 1];
        }
      }
    }
  }

  /**
   * A pending click is reported as SINGLE_CLICK exactly once, and cleared,
   * when the button stays released until a call finds it at least the
   * double-click time old.
   */
  lemma {:induction false} PendingClickReportedOnce(b: ButtonInfo, samples: seq<Sample>, k: nat)
    requires !b.isPressed && b.lastSingleClickTime != 0 && LetterOf(b.gpioNum).Some?
    requires forall j :: 0 <= j < |samples| ==> samples[j].level
    requires k < |samples| && ElapsedMs(samples[k].timeUs, b.lastSingleClickTime) >= DOUBLE_CLICK_TIME_MS
    ensures CountGesture(SingleClick, RunButton(b, samples).1) == 1
    ensures RunButton(b, samples).0.lastSingleClickTime == 0
    decreases |samples|
  {
    var st := ButtonStep(b, true, samples[0].timeUs);
    if st.1 == ButtonNone {
      assert st.0 == b.(currentState := true);
      PendingClickReportedOnce(st.0, samples[1..], k - 1);
    } else {
      ReleasedReportsSingleClickAtMostOnce(st.0, samples[1..]);
      ReleasedWithoutPendingChangesNothing(st.0, samples[1..]);
    }
  }

  /** With no click pending, a released button keeps its record (but for the level) and reports nothing. */
  lemma {:induction false} ReleasedWithoutPendingChangesNothing(b: ButtonInfo, samples: seq<Sample>)
    requires !b.isPressed && b.lastSingleClickTime == 0
    requires forall j :: 0 <= j < |samples| ==> samples[j].level
    ensures RunButton(b, samples).0 == b.(currentState := if samples == [] then b.currentState else true)
    ensures forall j :: 0 <= j < |samples| ==> RunButton(b, samples).1[j] == ButtonNone
    decreases |samples|
  {
    if samples != [] {
      var rest := RunButton(b.(currentState := true), samples[1..]);
      ReleasedWithoutPendingChangesNothing(b.(currentState := true), samples[1..]);
      assert RunButton(b, samples).1 == [ButtonNone] + rest.1;
    }
  }

  /**
   * The SINGLE_CLICK of a pending click comes from the first call that finds
   * the click at least the double-click time old; every other call returns
   * no event.
   */
  lemma {:induction false} SingleClickAtFirstMatureCall(b: ButtonInfo, samples: seq<Sample>, k: nat)
    requires !b.isPressed && b.lastSingleClickTime != 0
    requires forall j :: 0 <= j < |samples| ==> samples[j].level
    requires k < |samples| && ElapsedMs(samples[k].timeUs, b.lastSingleClickTime) >= DOUBLE_CLICK_TIME_MS
    requires forall j :: 0 <= j < k ==> ElapsedMs(samples[j].timeUs, b.lastSingleClickTime) < DOUBLE_CLICK_TIME_MS
    ensures RunButton(b, samples).1[k] == EventFor(b.gpioNum, SingleClick)
    ensures forall j :: 0 <= j < |samples| && j != k ==> RunButton(b, samples).1[j] == ButtonNone
    decreases |samples|
  {
    var st := ButtonStep(b, true, samples[0].timeUs);
    var rest := RunButton(st.0, samples[1..]);
    var r := RunButton(b, samples);
    assert r.1 == [st.1] + rest.1;
    if k == 0 {
      ReleasedWithoutPendingChangesNothing(st.0, samples[1..]);
    } else {
      assert st == (b.(currentState := true), ButtonNone);
      assert forall j :: 0 <= j < k - 1 ==> samples[1..][j] == samples[j + 1];
      SingleClickAtFirstMatureCall(st.0, samples[1..], k - 1);
      assert r.1[k] == rest.1[k - 1];
    }
    forall j | 0 <= j < |samples| && j != k
      ensures r.1[j] == ButtonNone
    {
      if j > 0 {
        assert r.1[j] == rest.1[j - 1];
      }
    }
  }

  // ---------------------------------------------------------------------
  // Which button answers a call
  // ---------------------------------------------------------------------

  /** The first button, from `i` on, whose step in this call gives an event; NUM_BUTTONS if none does. */
  function FirstResponder(bs: seq<ButtonInfo>, levels: seq<bool>, now: uint64, i: nat): (k: nat)
    requires |bs| == NUM_BUTTONS && |levels| == NUM_BUTTONS && i <= NUM_BUTTONS
    ensures i <= k <= NUM_BUTTONS
    ensures forall j :: i <= j < k ==> ButtonStep(bs[j], levels[j], now).1 == ButtonNone
    ensures k < NUM_BUTTONS ==> ButtonStep(bs[k], levels[k], now).1 != ButtonNone
    decreases NUM_BUTTONS - i
  {
    if i == NUM_BUTTONS then NUM_BUTTONS
    else if ButtonStep(bs[i], levels[i], now).1 != ButtonNone then i
    else FirstResponder(bs, levels, now, i + 1)
  }

  /** The table with the buttons `lo` .. `hi`-1 stepped in this call and the others as they were. */
  function Stepped(bs: seq<ButtonInfo>, levels: seq<bool>, now: uint64, lo: nat, hi: nat): (r: seq<ButtonInfo>)
    requires |bs| == NUM_BUTTONS && |levels| == NUM_BUTTONS
    ensures |r| == NUM_BUTTONS
  {
    seq(NUM_BUTTONS, j requires 0 <= j < NUM_BUTTONS =>
      if lo <= j < hi then ButtonStep(bs[j], levels[j], now).0 else bs[j])
  }

  /**
   * The call from button `i` on returns the event of the first button that
   * has one, after stepping exactly the buttons up to it: later buttons are
   * neither sampled nor changed and the combination check is skipped. When
   * no button has an event, all are stepped and the combination decides.
   */
  lemma {:induction false} ScanAnswer(bs: seq<ButtonInfo>, levels: seq<bool>, now: uint64, i: nat)
    requires |bs| == NUM_BUTTONS && |levels| == NUM_BUTTONS && i <= NUM_BUTTONS
    ensures var k := FirstResponder(bs, levels, now, i);
      && (k < NUM_BUTTONS ==>
            Scan(bs, levels, now, i) == (Stepped(bs, levels, now, i, k + 1), ButtonStep(bs[k], levels[k], now).1))
      && (k == NUM_BUTTONS ==>
            Scan(bs, levels, now, i) == Combination(Stepped(bs, levels, now, i, NUM_BUTTONS), now))
    decreases NUM_BUTTONS - i
  {
    var k := FirstResponder(bs, levels, now, i);
    if i == NUM_BUTTONS {
      assert Stepped(bs, levels, now, i, NUM_BUTTONS) == bs;
    } else {
      var st := ButtonStep(bs[i], levels[i], now);
      var next := bs[i := st.0];
      if st.1 != ButtonNone {
        assert k == i;
        SteppedOne(bs, levels, now, i);
        assert Scan(bs, levels, now, i) == (next, st.1);
      } else {
        assert Scan(bs, levels, now, i) == Scan(next, levels, now, i + 1);
        SameResponder(bs, next, levels, now, i + 1);
        assert k == FirstResponder(next, levels, now, i + 1);
        ScanAnswer(next, levels, now, i + 1);
        SteppedShift(bs, levels, now, i, if k < NUM_BUTTONS then k + 1 else NUM_BUTTONS);
        if k < NUM_BUTTONS {
          assert next[k] == bs[k];
        }
      }
    }
  }

  /** Stepping button `i` alone. */
  lemma SteppedOne(bs: seq<ButtonInfo>, levels: seq<bool>, now: uint64, i: nat)
    requires |bs| == NUM_BUTTONS && |levels| == NUM_BUTTONS && i < NUM_BUTTONS
    ensures Stepped(bs, levels, now, i, i + 1) == bs[i := ButtonStep(bs[i], levels[i], now).0]
  {
    var hi := i + 1;
    var next := bs[i := ButtonStep(bs[i], levels[i], now).0];
    assert forall j :: 0 <= j < NUM_BUTTONS ==> Stepped(bs, levels, now, i, hi)[j] == next[j];
  }

  /** Stepping button `i` first, then the buttons after it, is stepping them all. */
  lemma SteppedShift(bs: seq<ButtonInfo>, levels: seq<bool>, now: uint64, i: nat, hi: nat)
    requires |bs| == NUM_BUTTONS && |levels| == NUM_BUTTONS && i < hi && i < NUM_BUTTONS
    ensures Stepped(bs[i := ButtonStep(bs[i], levels[i], now).0], levels, now, i + 1, hi) == Stepped(bs, levels, now, i, hi)
  {
    var next := bs[i := ButtonStep(bs[i], levels[i], now).0];
    assert forall j :: 0 <= j < NUM_BUTTONS ==>
      Stepped(next, levels, now, i + 1, hi)[j] == Stepped(bs, levels, now, i, hi)[j];
  }

  /** The responder from `i` on depends only on the buttons from `i` on. */
  lemma {:induction false} SameResponder(bs: seq<ButtonInfo>, cs: seq<ButtonInfo>, levels: seq<bool>, now: uint64, i: nat)
    requires |bs| == NUM_BUTTONS && |cs| == NUM_BUTTONS && |levels| == NUM_BUTTONS && i <= NUM_BUTTONS
    requires forall j :: i <= j < NUM_BUTTONS ==> bs[j] == cs[j]
    ensures FirstResponder(bs, levels, now, i) == FirstResponder(cs, levels, now, i)
    decreases NUM_BUTTONS - i
  {
    if i < NUM_BUTTONS {
      SameResponder(bs, cs, levels, now, i + 1);
    }
  }

  /**
   * Each call returns at most one event. A gesture event belongs to the
   * letter of the first button that has one; otherwise the event is the
   * combination's (ABLongPress or nothing).
   */
  lemma ReadEventAnswer(bs: seq<ButtonInfo>, levels: seq<bool>, now: uint64)
    requires |bs| == NUM_BUTTONS && |levels| == NUM_BUTTONS
    ensures var k := FirstResponder(bs, levels, now, 0);
      var e := ReadEventSpec(bs, levels, now).1;
      && (k < NUM_BUTTONS ==> e.ButtonEvent? && LetterOf(bs[k].gpioNum) == Some(e.letter))
      && (k == NUM_BUTTONS ==> e == ButtonNone || e == ABLongPress)
  {
    ScanAnswer(bs, levels, now, 0);
  }

  // ---------------------------------------------------------------------
  // The A+B combination
  // ---------------------------------------------------------------------

  /**
   * The combination returns ABLongPress exactly when A and B are both
   * pressed, both held at least the long-press time and neither triggered,
   * and then sets both triggers. When not both are pressed and both triggers
   * are set, both are cleared. Only those two triggers ever change.
   */
  lemma CombinationRule(bs: seq<ButtonInfo>, now: uint64)
    requires |bs| == NUM_BUTTONS
    ensures var r := Combination(bs, now);
      var fires := && bs[0].isPressed && bs[1].isPressed
                   && ElapsedMs(now, bs[0].lastPressTime) >= LONG_PRESS_TIME_MS
                   && ElapsedMs(now, bs[1].lastPressTime) >= LONG_PRESS_TIME_MS
                   && !bs[0].longPressTriggered && !bs[1].longPressTriggered;
      var resets := !(bs[0].isPressed && bs[1].isPressed) && bs[0].longPressTriggered && bs[1].longPressTriggered;
      && (r.1 == ABLongPress <==> fires)
      && (r.1 != ABLongPress ==> r.1 == ButtonNone)
      && r.0[2..] == bs[2..]
      && r.0[0] == bs[0].(longPressTriggered := r.0[0].longPressTriggered)
      && r.0[1] == bs[1].(longPressTriggered := r.0[1].longPressTriggered)
      && r.0[0].longPressTriggered == (if fires then true else if resets then false else bs[0].longPressTriggered)
      && r.0[1].longPressTriggered == (if fires then true else if resets then false else bs[1].longPressTriggered)
  {
  }

  /**
   * A call never returns the A+B long press: if button 0 has been held the
   * long-press time untriggered, its own step in the same call sets its
   * trigger before the combination check looks at it (and, for A, answers
   * the call with LONG_PRESS_START); otherwise button 0 has just been
   * pressed, is released, has triggered or is held too briefly.
   */
  lemma ABLongPressUnreachable(bs: seq<ButtonInfo>, levels: seq<bool>, now: uint64)
    requires |bs| == NUM_BUTTONS && |levels| == NUM_BUTTONS
    ensures ReadEventSpec(bs, levels, now).1 != ABLongPress
  {
    ScanAnswer(bs, levels, now, 0);
    var k := FirstResponder(bs, levels, now, 0);
    if k == NUM_BUTTONS {
      var a := Stepped(bs, levels, now, 0, NUM_BUTTONS)[0];
      assert a == ButtonStep(bs[0], levels[0], now).0;
      if !levels[0] && a.isPressed && !a.longPressTriggered {
        if bs[0].isPressed {
          HeldStep(bs[0], now);
          assert ElapsedMs(now, a.lastPressTime) < LONG_PRESS_TIME_MS;
        } else {
          assert a.lastPressTime == now;
          assert ElapsedMs(now, a.lastPressTime) == 0;
        }
      }
    }
  }

  // ---------------------------------------------------------------------
  // Scenarios from boot
  // ---------------------------------------------------------------------

  /** The levels and timer value of one call of the reader. */
  datatype Call = Call(levels: seq<bool>, nowUs: uint64)

  /** The events of successive calls, starting from table `bs`. */
  function ReadEvents(bs: seq<ButtonInfo>, calls: seq<Call>): (es: seq<TaskEvent>)
    requires |bs| == NUM_BUTTONS
    requires forall k :: 0 <= k < |calls| ==> |calls[k].levels| == NUM_BUTTONS
    ensures |es| == |calls|
    decreases |calls|
  {
    if calls == [] then []
    else
      var r := ReadEventSpec(bs, calls[0].levels, calls[0].nowUs);
      [r.1] + ReadEvents(r.0, calls[1..])
  }

  /** Only A held low. */
  const A_HELD: seq<bool> := [false, true, true, true]
  /** Only B held low. */
  const B_HELD: seq<bool> := [true, false, true, true]
  /** All released. */
  const NONE_HELD: seq<bool> := [true, true, true, true]

  /** One call, then the rest. */
  lemma ReadEventsFirst(bs: seq<ButtonInfo>, c: Call, rest: seq<Call>)
    requires |bs| == NUM_BUTTONS && |c.levels| == NUM_BUTTONS
    requires forall k :: 0 <= k < |rest| ==> |rest[k].levels| == NUM_BUTTONS
    ensures ReadEvents(bs, [c] + rest)
      == [ReadEventSpec(bs, c.levels, c.nowUs).1] + ReadEvents(ReadEventSpec(bs, c.levels, c.nowUs).0, rest)
  {
    assert ([c] + rest)[1..] == rest;
  }

  /** How many of the events are `e`. */
  function CountEvent(e: TaskEvent, es: seq<TaskEvent>): nat {
    if es == [] then 0
    else (if es[0] == e then 1 else 0) + CountEvent(e, es[1..])
  }

  /**
   * What one call does to button C or D (index 2 or 3): its record is
   * either left alone or stepped, and the call returns an event of that
   * button only when the button was stepped, as that step's event.
   */
  lemma CallOnLaterButton(bs: seq<ButtonInfo>, levels: seq<bool>, now: uint64, i: nat)
    requires TableGpios(bs) && |levels| == NUM_BUTTONS && 2 <= i < NUM_BUTTONS
    ensures var r := ReadEventSpec(bs, levels, now);
      var st := ButtonStep(bs[i], levels[i], now);
      && (r.0[i] == bs[i] || r.0[i] == st.0)
      && (r.1.ButtonEvent? && LetterOf(bs[i].gpioNum) == Some(r.1.letter) ==> r.1 == st.1 && r.0[i] == st.0)
  {
    ScanAnswer(bs, levels, now, 0);
    ReadEventAnswer(bs, levels, now);
    var k := FirstResponder(bs, levels, now, 0);
    if k == NUM_BUTTONS {
      var stepped := Stepped(bs, levels, now, 0, NUM_BUTTONS);
      CombinationRule(stepped, now);
      assert Combination(stepped, now).0[i] == Combination(stepped, now).0[2..][i - 2] == stepped[i];
    }
  }

  /**
   * While button C or D reads low at every call, successive calls report
   * its LONG_PRESS_START at most once (not at all if the hold has already
   * triggered), also when other buttons answer some of the calls first.
   */
  lemma {:induction false} LaterButtonHeldReportsLongPressStartAtMostOnce(bs: seq<ButtonInfo>, calls: seq<Call>, i: nat)
    requires TableGpios(bs) && 2 <= i < NUM_BUTTONS
    requires forall k :: 0 <= k < |calls| ==> |calls[k].levels| == NUM_BUTTONS && !calls[k].levels[i]
    ensures CountEvent(EventFor(bs[i].gpioNum, LongPressStart), ReadEvents(bs, calls))
            <= (if bs[i].isPressed && bs[i].longPressTriggered then 0 else 1)
    decreases |calls|
  {
    if calls != [] {
      var c := calls[0];
      var r := ReadEventSpec(bs, c.levels, c.nowUs);
      var st := ButtonStep(bs[i], false, c.nowUs);
      var e := EventFor(bs[i].gpioNum, LongPressStart);
      CallOnLaterButton(bs, c.levels, c.nowUs, i);
      if bs[i].isPressed {
        HeldStep(bs[i], c.nowUs);
      } else {
        PressStarts(bs[i], c.nowUs);
      }
      LaterButtonHeldReportsLongPressStartAtMostOnce(r.0, calls[1..], i);
      var es := ReadEvents(bs, calls);
      assert es == [r.1] + ReadEvents(r.0, calls[1..]);
      assert es[1..] == ReadEvents(r.0, calls[1..]);
    }
  }

  /** B's record while it is held from 1 ms after boot, before its long press is reported. */
  const B_DOWN: ButtonInfo := ButtonInfo(BUTTON_B_GPIO, false, true, 1_000, 0, 0, false, true)

  /**
   * The table after B has been held past the long-press time and released:
   * B's trigger is still set, nothing else has changed since boot.
   */
  const AFTER_B_LONG_PRESS: seq<ButtonInfo> :=
    [BootRecord(BUTTON_A_GPIO), ButtonInfo(BUTTON_B_GPIO, true, true, 1_000, 1_002_000, 0, true, false),
     BootRecord(BUTTON_C_GPIO), BootRecord(BUTTON_D_GPIO)]

  /** Pressing B at boot starts its hold and reports nothing. */
  lemma BPressedAtBoot()
    ensures ReadEventSpec(INITIAL_BUTTONS, B_HELD, 1_000) == (INITIAL_BUTTONS[1 := B_DOWN], ButtonNone)
  {
    var r := ReadEventSpec(INITIAL_BUTTONS, B_HELD, 1_000);
    assert r.1 == ButtonNone;
    assert r.0[0] == INITIAL_BUTTONS[0] && r.0[1] == B_DOWN;
    assert r.0[2] == INITIAL_BUTTONS[2] && r.0[3] == INITIAL_BUTTONS[3];
    assert r.0 == INITIAL_BUTTONS[1 := B_DOWN];
  }

  /** A second later B's LONG_PRESS_START is reported and its trigger set. */
  lemma BLongPressStarts()
    ensures ReadEventSpec(INITIAL_BUTTONS[1 := B_DOWN], B_HELD, 1_001_000)
      == (INITIAL_BUTTONS[1 := B_DOWN.(longPressTriggered := true)], ButtonEvent(B, LongPressStart))
  {
    var r := ReadEventSpec(INITIAL_BUTTONS[1 := B_DOWN], B_HELD, 1_001_000);
    assert r.1 == ButtonEvent(B, LongPressStart);
    assert r.0[0] == INITIAL_BUTTONS[0] && r.0[1] == B_DOWN.(longPressTriggered := true);
    assert r.0[2] == INITIAL_BUTTONS[2] && r.0[3] == INITIAL_BUTTONS[3];
    assert r.0 == INITIAL_BUTTONS[1 := B_DOWN.(longPressTriggered := true)];
  }

  /** Releasing B reports its LONG_PRESS_UP; the call returns before the combination check. */
  lemma BLongPressEnds()
    ensures ReadEventSpec(INITIAL_BUTTONS[1 := B_DOWN.(longPressTriggered := true)], NONE_HELD, 1_002_000)
      == (AFTER_B_LONG_PRESS, ButtonEvent(B, LongPressUp))
  {
    var r := ReadEventSpec(INITIAL_BUTTONS[1 := B_DOWN.(longPressTriggered := true)], NONE_HELD, 1_002_000);
    assert r.1 == ButtonEvent(B, LongPressUp);
    assert r.0[0] == AFTER_B_LONG_PRESS[0] && r.0[1] == AFTER_B_LONG_PRESS[1];
    assert r.0[2] == AFTER_B_LONG_PRESS[2] && r.0[3] == AFTER_B_LONG_PRESS[3];
    assert r.0 == AFTER_B_LONG_PRESS;
  }

  /** From boot, B's long press and release: None, LONG_PRESS_START, LONG_PRESS_UP. */
  lemma BLongPressFromBoot(rest: seq<Call>)
    requires forall k :: 0 <= k < |rest| ==> |rest[k].levels| == NUM_BUTTONS
    ensures ReadEvents(INITIAL_BUTTONS, [Call(B_HELD, 1_000), Call(B_HELD, 1_001_000), Call(NONE_HELD, 1_002_000)] + rest)
      == [ButtonNone, ButtonEvent(B, LongPressStart), ButtonEvent(B, LongPressUp)] + ReadEvents(AFTER_B_LONG_PRESS, rest)
  {
    var c1: Call := Call(B_HELD, 1_000);
    var c2: Call := Call(B_HELD, 1_001_000);
    var c3: Call := Call(NONE_HELD, 1_002_000);
    var t1 := INITIAL_BUTTONS[1 := B_DOWN];
    var t2 := INITIAL_BUTTONS[1 := B_DOWN.(longPressTriggered := true)];
    BLongPressEnds();
    ReadEventsFirst(t2, c3, rest);
    var e3 := ReadEvents(t2, [c3] + rest);
    assert e3 == [ButtonEvent(B, LongPressUp)] + ReadEvents(AFTER_B_LONG_PRESS, rest);
    BLongPressStarts();
    ReadEventsFirst(t1, c2, [c3] + rest);
    var e2 := ReadEvents(t1, [c2] + ([c3] + rest));
    assert e2 == [ButtonEvent(B, LongPressStart)] + e3;
    BPressedAtBoot();
    ReadEventsFirst(INITIAL_BUTTONS, c1, [c2] + ([c3] + rest));
    assert ReadEvents(INITIAL_BUTTONS, [c1] + ([c2] + ([c3] + rest))) == [ButtonNone] + e2;
    assert [c1, c2, c3] + rest == [c1] + ([c2] + ([c3] + rest));
  }
  /**
   * With B's trigger left set, holding A reports A's LONG_PRESS_START, the
   * combination reset then clears A's trigger, and a later call of the same
   * hold reports it again.
   */
  lemma AHeldAfterBLongPress()
    ensures ReadEvents(AFTER_B_LONG_PRESS, [Call(A_HELD, 1_003_000), Call(A_HELD, 2_003_000), Call(A_HELD, 2_004_000), Call(A_HELD, 2_005_000)])
      == [ButtonNone, ButtonEvent(A, LongPressStart), ButtonNone, ButtonEvent(A, LongPressStart)]
  {
    var c4: Call := Call(A_HELD, 1_003_000);
    var c5: Call := Call(A_HELD, 2_003_000);
    var c6: Call := Call(A_HELD, 2_004_000);
    var c7: Call := Call(A_HELD, 2_005_000);
    var r4 := ReadEventSpec(AFTER_B_LONG_PRESS, c4.levels, c4.nowUs);
    assert r4.1 == ButtonNone;
    var r5 := ReadEventSpec(r4.0, c5.levels, c5.nowUs);
    assert r5.1 == ButtonEvent(A, LongPressStart);
    var r6 := ReadEventSpec(r5.0, c6.levels, c6.nowUs);
    assert r6.1 == ButtonNone;
    var r7 := ReadEventSpec(r6.0, c7.levels, c7.nowUs);
    assert r7.1 == ButtonEvent(A, LongPressStart);
    ReadEventsFirst(r6.0, c7, []);
    ReadEventsFirst(r5.0, c6, [c7]);
    ReadEventsFirst(r4.0, c5, [c6, c7]);
    ReadEventsFirst(AFTER_B_LONG_PRESS, c4, [c5, c6, c7]);
  }

  /**
   * The combination reset clears the trigger of a button that is still
   * held: B long-pressed and released keeps its trigger set; A is then held;
   * after A's LONG_PRESS_START the reset (A and B not both pressed, both
   * triggers set) clears A's trigger, and the next call reports A's
   * LONG_PRESS_START again within the same hold.
   */
  lemma LongPressStartTwiceInOneHold()
    ensures ReadEvents(INITIAL_BUTTONS, [
        Call(B_HELD, 1_000), Call(B_HELD, 1_001_000), Call(NONE_HELD, 1_002_000),
        Call(A_HELD, 1_003_000), Call(A_HELD, 2_003_000), Call(A_HELD, 2_004_000), Call(A_HELD, 2_005_000)])
      == [ButtonNone, ButtonEvent(B, LongPressStart), ButtonEvent(B, LongPressUp),
          ButtonNone, ButtonEvent(A, LongPressStart), ButtonNone, ButtonEvent(A, LongPressStart)]
  {
    var rest := [Call(A_HELD, 1_003_000), Call(A_HELD, 2_003_000), Call(A_HELD, 2_004_000), Call(A_HELD, 2_005_000)];
    BLongPressFromBoot(rest);
    AHeldAfterBLongPress();
    assert [Call(B_HELD, 1_000), Call(B_HELD, 1_001_000), Call(NONE_HELD, 1_002_000)] + rest
      == [Call(B_HELD, 1_000), Call(B_HELD, 1_001_000), Call(NONE_HELD, 1_002_000),
          Call(A_HELD, 1_003_000), Call(A_HELD, 2_003_000), Call(A_HELD, 2_004_000), Call(A_HELD, 2_005_000)];
  }

  /**
   * The pending-click time 0 doubles as "no click pending", but the double
   * click test does not check for it: a first short click within 300 ms of
   * boot is reported as a double click.
   */
  lemma FirstClickAfterBootIsDouble()
    ensures ReadEvents(INITIAL_BUTTONS, [Call(A_HELD, 100_000), Call(NONE_HELD, 200_000)])
      == [ButtonNone, ButtonEvent(A, DoubleClick)]
  {
  }

  /**
   * Later, a short click is held back and reported as SINGLE_CLICK once the
   * double-click time has passed.
   */
  lemma SingleClickScenario()
    ensures ReadEvents(INITIAL_BUTTONS, [
        Call(B_HELD, 1_000_000), Call(NONE_HELD, 1_100_000), Call(NONE_HELD, 1_300_000), Call(NONE_HELD, 1_400_000),
        Call(NONE_HELD, 1_500_000)])
      == [ButtonNone, ButtonNone, ButtonNone, ButtonEvent(B, SingleClick), ButtonNone]
  {
    var c1: Call := Call(B_HELD, 1_000_000);
    var c2: Call := Call(NONE_HELD, 1_100_000);
    var c3: Call := Call(NONE_HELD, 1_300_000);
    var c4: Call := Call(NONE_HELD, 1_400_000);
    var c5: Call := Call(NONE_HELD, 1_500_000);
    var r1 := ReadEventSpec(INITIAL_BUTTONS, c1.levels, c1.nowUs);
    assert r1.1 == ButtonNone;
    var r2 := ReadEventSpec(r1.0, c2.levels, c2.nowUs);
    assert r2.1 == ButtonNone;
    var r3 := ReadEventSpec(r2.0, c3.levels, c3.nowUs);
    assert r3.1 == ButtonNone;
    var r4 := ReadEventSpec(r3.0, c4.levels, c4.nowUs);
    assert r4.1 == ButtonEvent(B, SingleClick);
    var r5 := ReadEventSpec(r4.0, c5.levels, c5.nowUs);
    assert r5.1 == ButtonNone;
    ReadEventsFirst(r4.0, c5, []);
    ReadEventsFirst(r3.0, c4, [c5]);
    ReadEventsFirst(r2.0, c3, [c4, c5]);
    ReadEventsFirst(r1.0, c2, [c3, c4, c5]);
    ReadEventsFirst(INITIAL_BUTTONS, c1, [c2, c3, c4, c5]);
  }

  /** Two short clicks within the double-click time give one DOUBLE_CLICK and no SINGLE_CLICK. */
  lemma DoubleClickScenario()
    ensures ReadEvents(INITIAL_BUTTONS, [
        Call(B_HELD, 1_000_000), Call(NONE_HELD, 1_100_000), Call(B_HELD, 1_200_000), Call(NONE_HELD, 1_300_000),
        Call(NONE_HELD, 1_700_000)])
      == [ButtonNone, ButtonNone, ButtonNone, ButtonEvent(B, DoubleClick), ButtonNone]
  {
    var c1: Call := Call(B_HELD, 1_000_000);
    var c2: Call := Call(NONE_HELD, 1_100_000);
    var c3: Call := Call(B_HELD, 1_200_000);
    var c4: Call := Call(NONE_HELD, 1_300_000);
    var c5: Call := Call(NONE_HELD, 1_700_000);
    var r1 := ReadEventSpec(INITIAL_BUTTONS, c1.levels, c1.nowUs);
    assert r1.1 == ButtonNone;
    var r2 := ReadEventSpec(r1.0, c2.levels, c2.nowUs);
    assert r2.1 == ButtonNone;
    var r3 := ReadEventSpec(r2.0, c3.levels, c3.nowUs);
    assert r3.1 == ButtonNone;
    var r4 := ReadEventSpec(r3.0, c4.levels, c4.nowUs);
    assert r4.1 == ButtonEvent(B, DoubleClick);
    var r5 := ReadEventSpec(r4.0, c5.levels, c5.nowUs);
    assert r5.1 == ButtonNone;
    ReadEventsFirst(r4.0, c5, []);
    ReadEventsFirst(r3.0, c4, [c5]);
    ReadEventsFirst(r2.0, c3, [c4, c5]);
    ReadEventsFirst(r1.0, c2, [c3, c4, c5]);
    ReadEventsFirst(INITIAL_BUTTONS, c1, [c2, c3, c4, c5]);
  }

  /**
   * A click lost by a second press made before the first click matures: the
   * double-click test measures from the first release rather than from the
   * second press, so a second release 350 ms after the first overwrites the
   * pending time and reports nothing, and the two clicks give one
   * SINGLE_CLICK, 300 ms after the second release.
   */
  lemma LostClickScenario()
    ensures ReadEvents(INITIAL_BUTTONS, [
        Call(B_HELD, 1_000_000), Call(NONE_HELD, 1_100_000), Call(B_HELD, 1_350_000), Call(NONE_HELD, 1_450_000),
        Call(NONE_HELD, 1_700_000), Call(NONE_HELD, 1_750_000)])
      == [ButtonNone, ButtonNone, ButtonNone, ButtonNone, ButtonNone, ButtonEvent(B, SingleClick)]
  {
    var c1: Call := Call(B_HELD, 1_000_000);
    var c2: Call := Call(NONE_HELD, 1_100_000);
    var c3: Call := Call(B_HELD, 1_350_000);
    var c4: Call := Call(NONE_HELD, 1_450_000);
    var c5: Call := Call(NONE_HELD, 1_700_000);
    var c6: Call := Call(NONE_HELD, 1_750_000);
    var r1 := ReadEventSpec(INITIAL_BUTTONS, c1.levels, c1.nowUs);
    assert r1.1 == ButtonNone;
    var r2 := ReadEventSpec(r1.0, c2.levels, c2.nowUs);
    assert r2.1 == ButtonNone;
    assert r2.0[1].lastSingleClickTime == 1_100_000;
    var r3 := ReadEventSpec(r2.0, c3.levels, c3.nowUs);
    assert r3.1 == ButtonNone;
    var r4 := ReadEventSpec(r3.0, c4.levels, c4.nowUs);
    assert r4.1 == ButtonNone;
    assert r4.0 == INITIAL_BUTTONS[1 := ButtonInfo(BUTTON_B_GPIO, true, true, 1_350_000, 1_450_000, 1_450_000, false, false)];
    LostClickMatures(r4.0);
    ReadEventsFirst(r3.0, c4, [c5, c6]);
    ReadEventsFirst(r2.0, c3, [c4, c5, c6]);
    ReadEventsFirst(r1.0, c2, [c3, c4, c5, c6]);
    ReadEventsFirst(INITIAL_BUTTONS, c1, [c2, c3, c4, c5, c6]);
  }

  /** The end of the lost-click trace: the overwritten pending time matures 300 ms after the second release. */
  lemma LostClickMatures(t: seq<ButtonInfo>)
    requires t == INITIAL_BUTTONS[1 := ButtonInfo(BUTTON_B_GPIO, true, true, 1_350_000, 1_450_000, 1_450_000, false, false)]
    ensures ReadEvents(t, [Call(NONE_HELD, 1_700_000), Call(NONE_HELD, 1_750_000)]) == [ButtonNone, ButtonEvent(B, SingleClick)]
  {
    var c5: Call := Call(NONE_HELD, 1_700_000);
    var c6: Call := Call(NONE_HELD, 1_750_000);
    var r5 := ReadEventSpec(t, c5.levels, c5.nowUs);
    assert r5.1 == ButtonNone;
    var r6 := ReadEventSpec(r5.0, c6.levels, c6.nowUs);
    assert r6.1 == ButtonEvent(B, SingleClick);
    ReadEventsFirst(r5.0, c6, []);
    ReadEventsFirst(t, c5, [c6]);
  }
}
