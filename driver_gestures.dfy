/**
 * Gestures of one button of the polling driver: what successive poll rounds
 * report for that button, given the level sampled in each round and the
 * round's tick.
 */
module DriverGestures {
  import opened ButtonDriver

  /** The level read from the button in one poll round, and that round's tick. */
  datatype Sample = Sample(level: bool, tick: nat)

  /** Ticks never decrease along the samples. */
  predicate Ascending(samples: seq<Sample>) {
    forall i, j :: 0 <= i < j < |samples| ==> samples[i].tick <= samples[j].tick
  }

  /** The button is low (held) in every sample. */
  predicate Held(samples: seq<Sample>) {
    forall k :: 0 <= k < |samples| ==> !samples[k].level
  }

  /**
   * One press of the button as the polls see it: low in the first sample,
   * low in all but the last, high in the last.
   */
  predicate IsPress(samples: seq<Sample>) {
    && |samples| >= 2
    && !samples[0].level
    && samples[|samples| - 1].level
    && forall k :: 0 < k < |samples| - 1 ==> !samples[k].level
  }

  /** Ticks from the first sample to the last. */
  function Duration(samples: seq<Sample>): int
    requires samples != []
  {
    samples[|samples| - 1].tick - samples[0].tick
  }

  lemma {:induction false} AscendingSlice(samples: seq<Sample>, i: nat, j: nat)
    requires Ascending(samples) && i <= j <= |samples|
    ensures Ascending(samples[i..j])
  {
    assert forall k :: 0 <= k < j - i ==> samples[i..j][k] == samples[i + k];
  }

  /** Successive polls of one button: its final record and what each poll reported. */
  function Run(b: Button, samples: seq<Sample>): (r: (Button, seq<EventType>))
    ensures |r.1| == |samples|
    ensures r.0.gpioNum == b.gpioNum
    decreases |samples|
  {
    if samples == [] then (b, [])
    else
      var s := Step(b, samples[0].level, samples[0].tick);
      var rest := Run(s.button, samples[1..]);
      (rest.0, [s.event] + rest.1)
  }

  /** The reported events, that is, every poll's result other than NoEvent. */
  function Emitted(es: seq<EventType>): (r: seq<EventType>)
    ensures NoEvent !in r
    ensures |r| <= |es|
  {
    if es == [] then []
    else (if es[0] == NoEvent then [] else [es[0]]) + Emitted(es[1..])
  }

  /** How many times `e` occurs in `es`. */
  function Count(e: EventType, es: seq<EventType>): nat {
    if es == [] then 0
    else (if es[0] == e then 1 else 0) + Count(e, es[1..])
  }

  lemma {:induction false} EmittedAppend(a: seq<EventType>, b: seq<EventType>)
    ensures Emitted(a + b) == Emitted(a) + Emitted(b)
    decreases |a|
  {
    if a != [] {
      assert (a + b)[1..] == a[1..] + b;
      EmittedAppend(a[1..], b);
    } else {
      assert a + b == b;
    }
  }

  /** Polling through `s1` and then `s2` is polling through both. */
  lemma {:induction false} RunAppend(b: Button, s1: seq<Sample>, s2: seq<Sample>)
    ensures Run(b, s1 + s2).0 == Run(Run(b, s1).0, s2).0
    ensures Run(b, s1 + s2).1 == Run(b, s1).1 + Run(Run(b, s1).0, s2).1
    decreases |s1|
  {
    if s1 == [] {
      assert s1 + s2 == s2;
    } else {
      assert (s1 + s2)[0] == s1[0] && (s1 + s2)[1..] == s1[1..] + s2;
      RunAppend(Step(b, s1[0].level, s1[0].tick).button, s1[1..], s2);
    }
  }

  /** Polling keeps the flag discipline of WellFormed. */
  lemma {:induction false} RunPreservesWellFormed(b: Button, samples: seq<Sample>)
    requires WellFormed(b)
    ensures WellFormed(Run(b, samples).0)
    decreases |samples|
  {
    if samples != [] {
      StepPreservesWellFormed(b, samples[0].level, samples[0].tick);
      RunPreservesWellFormed(Step(b, samples[0].level, samples[0].tick).button, samples[1..]);
    }
  }

  // ---------------------------------------------------------------------
  // Holding the button down
  // ---------------------------------------------------------------------

  /**
   * Holding a button in PressedState: LongPress is reported once, as soon as
   * a poll sees the hold last the long-press time, and never before or again;
   * nothing else is reported and only the long-press flag changes.
   */
  lemma {:induction false} HeldInPressed(b: Button, samples: seq<Sample>)
    requires b.currentState == PressedState && Held(samples) && Ascending(samples)
    ensures var reached := !b.isLongPressActive && samples != []
      && samples[|samples| - 1].tick - b.lastPressTick >= LONG_PRESS_TICKS;
      && Run(b, samples).0 == (if reached then b.(isLongPressActive := true) else b)
      && Emitted(Run(b, samples).1) == (if reached then [LongPress] else [])
    decreases |samples|
  {
    if samples != [] {
      var st := Step(b, false, samples[0].tick);
      var rest := samples[1..];
      HeldLongPress(b, samples[0].tick);
      HeldInPressed(st.button, rest);
      assert Run(b, samples).1 == [st.event] + Run(st.button, rest).1;
      EmittedAppend([st.event], Run(st.button, rest).1);
      if rest != [] {
        assert rest[|rest| - 1] == samples[|samples| - 1];
      }
    }
  }

  /**
   * Holding the second press in DoubleClickDetected: DoubleLongPress is
   * reported once, as soon as a poll sees the hold last the double-long-press
   * time, and never again while held.
   */
  lemma {:induction false} HeldInDoubleClick(b: Button, samples: seq<Sample>)
    requires b.currentState == DoubleClickDetected && Held(samples) && Ascending(samples)
    ensures var reached := !b.isDoubleLongPressActive && samples != []
      && samples[|samples| - 1].tick - b.lastPressTick >= DOUBLE_LONG_PRESS_TICKS;
      && Run(b, samples).0 == (if reached then b.(isDoubleLongPressActive := true) else b)
      && Emitted(Run(b, samples).1) == (if reached then [DoubleLongPress] else [])
    decreases |samples|
  {
    if samples != [] {
      var st := Step(b, false, samples[0].tick);
      var rest := samples[1..];
      DoubleClickStep(b, false, samples[0].tick);
      HeldInDoubleClick(st.button, rest);
      assert Run(b, samples).1 == [st.event] + Run(st.button, rest).1;
      EmittedAppend([st.event], Run(st.button, rest).1);
      if rest != [] {
        assert rest[|rest| - 1] == samples[|samples| - 1];
      }
    }
  }

  /**
   * A hold whose report is already made (LongPress in PressedState,
   * DoubleLongPress in DoubleClickDetected) is polled silently and changes
   * nothing.
   */
  lemma {:induction false} HeldAfterReport(b: Button, samples: seq<Sample>)
    requires || (b.currentState == PressedState && b.isLongPressActive)
             || (b.currentState == DoubleClickDetected && b.isDoubleLongPressActive)
    requires Held(samples)
    ensures Run(b, samples).0 == b
    ensures forall j :: 0 <= j < |samples| ==> Run(b, samples).1[j] == NoEvent
    decreases |samples|
  {
    if samples != [] {
      var rest := Run(b, samples[1..]);
      HeldAfterReport(b, samples[1..]);
      assert Run(b, samples).1 == [NoEvent] + rest.1;
    }
  }

  /**
   * LongPress comes from the first poll of the hold that finds it at least
   * the long-press time long; every other poll of the hold reports nothing.
   */
  lemma {:induction false} LongPressAtFirstLongPoll(b: Button, samples: seq<Sample>, k: nat)
    requires b.currentState == PressedState && !b.isLongPressActive && Held(samples)
    requires k < |samples| && samples[k].tick - b.lastPressTick >= LONG_PRESS_TICKS
    requires forall j :: 0 <= j < k ==> samples[j].tick - b.lastPressTick < LONG_PRESS_TICKS
    ensures Run(b, samples).1[k] == LongPress
    ensures forall j :: 0 <= j < |samples| && j != k ==> Run(b, samples).1[j] == NoEvent
    decreases |samples|
  {
    var st := Step(b, false, samples[0].tick);
    var rest := Run(st.button, samples[1..]);
    var r := Run(b, samples);
    assert r.1 == [st.event] + rest.1;
    if k == 0 {
      HeldAfterReport(st.button, samples[1..]);
    } else {
      assert st == StepResult(b, NoEvent);
      assert forall j :: 0 <= j < k - 1 ==> samples[1..][j] == samples[j + 1];
      LongPressAtFirstLongPoll(b, samples[1..], k - 1);
      assert r.1[k] == rest.1[k - 1];
    }
    forall j | 0 <= j < |samples| && j != k
      ensures r.1[j] == NoEvent
    {
      if j > 0 {
        assert r.1[j] == rest.1[j - 1];
      }
    }
  }

  /**
   * DoubleLongPress comes from the first poll of the second hold that finds
   * it at least the double-long-press time long; every other poll of the
   * hold reports nothing.
   */
  lemma {:induction false} DoubleLongPressAtFirstLongPoll(b: Button, samples: seq<Sample>, k: nat)
    requires b.currentState == DoubleClickDetected && !b.isDoubleLongPressActive && Held(samples)
    requires k < |samples| && samples[k].tick - b.lastPressTick >= DOUBLE_LONG_PRESS_TICKS
    requires forall j :: 0 <= j < k ==> samples[j].tick - b.lastPressTick < DOUBLE_LONG_PRESS_TICKS
    ensures Run(b, samples).1[k] == DoubleLongPress
    ensures forall j :: 0 <= j < |samples| && j != k ==> Run(b, samples).1[j] == NoEvent
    decreases |samples|
  {
    var st := Step(b, false, samples[0].tick);
    var rest := Run(st.button, samples[1..]);
    var r := Run(b, samples);
    assert r.1 == [st.event] + rest.1;
    if k == 0 {
      HeldAfterReport(st.button, samples[1..]);
    } else {
      assert st == StepResult(b, NoEvent);
      assert forall j :: 0 <= j < k - 1 ==> samples[1..][j] == samples[j + 1];
      DoubleLongPressAtFirstLongPoll(b, samples[1..], k - 1);
      assert r.1[k] == rest.1[k - 1];
    }
    forall j | 0 <= j < |samples| && j != k
      ensures r.1[j] == NoEvent
    {
      if j > 0 {
        assert r.1[j] == rest.1[j - 1];
      }
    }
  }

  /** How many more LongPress reports a continuous hold can still produce. */
  function LongPressBudget(b: Button): nat {
    match b.currentState
    case PressedState => if b.isLongPressActive then 0 else 1
    case DoubleClickDetected => 0
    case DoubleLongPressDetected => 0
    case _ => 1
  }

  /** How many more DoubleLongPress reports a continuous hold can still produce. */
  function DoubleLongPressBudget(b: Button): nat {
    match b.currentState
    case WaitingForSecondPress => 1
    case DoubleClickDetected => if b.isDoubleLongPressActive then 0 else 1
    case _ => 0
  }

  /**
   * However long a button stays held and however often it is polled, from
   * any reachable record it reports LongPress at most once and
   * DoubleLongPress at most once.
   */
  lemma {:induction false} HeldReportsLongPressAtMostOnce(b: Button, samples: seq<Sample>)
    requires WellFormed(b) && Held(samples)
    ensures Count(LongPress, Run(b, samples).1) <= LongPressBudget(b) <= 1
    ensures Count(DoubleLongPress, Run(b, samples).1) <= DoubleLongPressBudget(b) <= 1
    decreases |samples|
  {
    if samples != [] {
      var st := Step(b, false, samples[0].tick);
      StepPreservesWellFormed(b, false, samples[0].tick);
      HeldReportsLongPressAtMostOnce(st.button, samples[1..]);
    }
  }

  /** Released in WaitingForSecondPress and still within the double-click timeout: nothing happens. */
  lemma {:induction false} ReleasedWhileWaiting(b: Button, samples: seq<Sample>)
    requires b.currentState == WaitingForSecondPress
    requires forall k :: 0 <= k < |samples| ==>
      samples[k].level && samples[k].tick - b.lastReleaseTick <= DOUBLE_CLICK_TIMEOUT_TICKS
    ensures Run(b, samples).0 == b
    ensures Emitted(Run(b, samples).1) == []
    decreases |samples|
  {
    if samples != [] {
      ReleasedWhileWaiting(b, samples[1..]);
    }
  }

  // ---------------------------------------------------------------------
  // Whole gestures
  // ---------------------------------------------------------------------

  /** Polling once. */
  lemma {:induction false} RunOne(b: Button, x: Sample)
    ensures Run(b, [x]) == (Step(b, x.level, x.tick).button, [Step(b, x.level, x.tick).event])
  {
    var s := Step(b, x.level, x.tick);
    assert [x][1..] == [];
    assert Run(s.button, []) == (s.button, []);
    assert [s.event] + [] == [s.event];
  }

  /** Polling through a press: its first sample, the samples in between, and its last sample. */
  lemma {:induction false} RunPress(b: Button, press: seq<Sample>)
    requires |press| >= 2
    ensures var n := |press|;
      var first := Step(b, press[0].level, press[0].tick);
      var mid := Run(first.button, press[1..n - 1]);
      var last := Step(mid.0, press[n - 1].level, press[n - 1].tick);
      Run(b, press) == (last.button, [first.event] + mid.1 + [last.event])
  {
    var n := |press|;
    var first := Step(b, press[0].level, press[0].tick);
    var holds := press[1..n - 1];
    var x := press[n - 1];
    assert press[1..] == holds + [x];
    assert Run(b, press) == (Run(first.button, press[1..]).0, [first.event] + Run(first.button, press[1..]).1);
    RunAppend(first.button, holds, [x]);
    var mid := Run(first.button, holds);
    RunOne(mid.0, x);
    var last := Step(mid.0, x.level, x.tick);
    assert Run(first.button, press[1..]) == (last.button, mid.1 + [last.event]);
    assert [first.event] + (mid.1 + [last.event]) == [first.event] + mid.1 + [last.event];
  }

  lemma {:induction false} EmittedPress(x: EventType, m: seq<EventType>, y: EventType)
    ensures Emitted([x] + m + [y]) == Emitted([x]) + Emitted(m) + Emitted([y])
  {
    EmittedAppend([x] + m, [y]);
    EmittedAppend([x], m);
  }

  /** The samples held in between the first and the last of a press all come no later than the last. */
  lemma {:induction false} HoldsBeforeRelease(press: seq<Sample>)
    requires IsPress(press) && Ascending(press)
    ensures var holds := press[1..|press| - 1];
      && Held(holds) && Ascending(holds)
      && (holds != [] ==> holds[|holds| - 1].tick <= press[|press| - 1].tick)
  {
    AscendingSlice(press, 1, |press| - 1);
    var holds := press[1..|press| - 1];
    assert forall k :: 0 <= k < |holds| ==> holds[k] == press[k + 1];
  }

  /**
   * A press shorter than the long-press time reports Pressed and then Click;
   * the release itself is not reported (Click takes its place), and the
   * button then waits for a second press.
   */
  lemma {:induction false} ShortPress(b: Button, press: seq<Sample>)
    requires b.currentState == Idle && WellFormed(b)
    requires IsPress(press) && Ascending(press) && Duration(press) < LONG_PRESS_TICKS
    ensures var r := Run(b, press);
      && Emitted(r.1) == [Pressed, Click]
      && r.0 == b.(currentState := WaitingForSecondPress, lastPressTick := press[0].tick,
                   lastReleaseTick := press[|press| - 1].tick, pressCount := 1)
  {
    var n := |press|;
    var pressed := b.(currentState := PressedState, lastPressTick := press[0].tick);
    var holds := press[1..n - 1];
    RunPress(b, press);
    HoldsBeforeRelease(press);
    HeldInPressed(pressed, holds);
    var last := Step(pressed, true, press[n - 1].tick);
    EmittedPress(Pressed, Run(pressed, holds).1, last.event);
  }

  /** From PressedState, a hold too short for LongPress whose release comes at or after the long-press time reports only Released. */
  lemma {:induction false} ShortHoldThenLateRelease(p: Button, holds: seq<Sample>, x: Sample)
    requires p.currentState == PressedState && !p.isLongPressActive && WellFormed(p)
    requires Held(holds) && Ascending(holds) && x.level
    requires holds != [] ==> holds[|holds| - 1].tick - p.lastPressTick < LONG_PRESS_TICKS
    requires x.tick - p.lastPressTick >= LONG_PRESS_TICKS
    ensures var r := Run(p, holds + [x]);
      && Emitted(r.1) == [Released]
      && r.0.currentState == Idle && !r.0.isLongPressActive && !r.0.isDoubleLongPressActive
  {
    RunAppend(p, holds, [x]);
    HeldInPressed(p, holds);
    var mid := Run(p, holds);
    assert mid.0 == p && Emitted(mid.1) == [];
    RunOne(p, x);
    ReleaseFromPressed(p, x.tick);
    EmittedAppend(mid.1, [Released]);
    assert Emitted([Released]) == [Released];
  }

  /**
   * A press that no held poll sees last the long-press time, but whose
   * release poll does, reports Pressed and then Released: neither LongPress
   * nor Click. The button ends Idle with both flags clear.
   */
  lemma {:induction false} LongPressSeenOnlyAtRelease(b: Button, press: seq<Sample>)
    requires b.currentState == Idle && WellFormed(b)
    requires IsPress(press) && Ascending(press)
    requires press[|press| - 2].tick - press[0].tick < LONG_PRESS_TICKS <= Duration(press)
    ensures var r := Run(b, press);
      && Emitted(r.1) == [Pressed, Released]
      && LongPress !in r.1 && Click !in r.1
      && r.0.currentState == Idle && !r.0.isLongPressActive && !r.0.isDoubleLongPressActive
  {
    var n := |press|;
    var pressed := b.(currentState := PressedState, lastPressTick := press[0].tick);
    var holds := press[1..n - 1];
    HoldsBeforeRelease(press);
    if holds != [] {
      assert holds[|holds| - 1] == press[n - 2];
    }
    assert press[1..] == holds + [press[n - 1]];
    ShortHoldThenLateRelease(pressed, holds, press[n - 1]);
    var rest := Run(pressed, press[1..]);
    assert Run(b, press) == (rest.0, [Pressed] + rest.1);
    EmittedAppend([Pressed], rest.1);
    assert Emitted([Pressed]) == [Pressed];
    EmittedKeepsEvents(Run(b, press).1, LongPress);
    EmittedKeepsEvents(Run(b, press).1, Click);
  }

  /** Such a press: low at ticks 0 and 95, high at 100. */
  lemma LongPressSeenOnlyAtReleaseScenario()
    ensures Emitted(Run(ResetButton(0), [Sample(false, 0), Sample(false, 95), Sample(true, 100)]).1)
            == [Pressed, Released]
  {
    TickConstants();
    LongPressSeenOnlyAtRelease(ResetButton(0), [Sample(false, 0), Sample(false, 95), Sample(true, 100)]);
  }

  /** From PressedState, a hold that reaches the long-press time and its release report LongPress, Released. */
  lemma {:induction false} LongHoldThenRelease(p: Button, holds: seq<Sample>, x: Sample)
    requires p.currentState == PressedState && !p.isLongPressActive && WellFormed(p)
    requires Held(holds) && Ascending(holds) && holds != [] && x.level
    requires holds[|holds| - 1].tick - p.lastPressTick >= LONG_PRESS_TICKS
    ensures var r := Run(p, holds + [x]);
      && Emitted(r.1) == [LongPress, Released]
      && r.0.currentState == Idle && !r.0.isLongPressActive && !r.0.isDoubleLongPressActive
  {
    RunAppend(p, holds, [x]);
    HeldInPressed(p, holds);
    var mid := Run(p, holds);
    assert mid.0 == p.(isLongPressActive := true) && Emitted(mid.1) == [LongPress];
    RunOne(mid.0, x);
    ReleaseFromPressed(mid.0, x.tick);
    EmittedAppend(mid.1, [Released]);
    assert Emitted([Released]) == [Released];
  }

  /**
   * A hold that some poll sees last the long-press time reports Pressed,
   * LongPress and, on release, Released, and never Click; the button is
   * then Idle with both flags clear.
   */
  lemma {:induction false} LongPressGesture(b: Button, press: seq<Sample>)
    requires b.currentState == Idle && WellFormed(b)
    requires IsPress(press) && Ascending(press) && |press| >= 3
    requires press[|press| - 2].tick - press[0].tick >= LONG_PRESS_TICKS
    ensures var r := Run(b, press);
      && Emitted(r.1) == [Pressed, LongPress, Released]
      && Click !in r.1
      && r.0.currentState == Idle && !r.0.isLongPressActive && !r.0.isDoubleLongPressActive
  {
    var n := |press|;
    var pressed := b.(currentState := PressedState, lastPressTick := press[0].tick);
    var holds := press[1..n - 1];
    HoldsBeforeRelease(press);
    assert holds[|holds| - 1] == press[n - 2];
    assert press[1..] == holds + [press[n - 1]];
    LongHoldThenRelease(pressed, holds, press[n - 1]);
    var rest := Run(pressed, press[1..]);
    assert Run(b, press) == (rest.0, [Pressed] + rest.1);
    EmittedAppend([Pressed], rest.1);
    assert Emitted([Pressed]) == [Pressed];
    EmittedKeepsEvents(Run(b, press).1, Click);
  }

  /** An event other than NoEvent occurs in a poll sequence exactly when it is reported. */
  lemma {:induction false} EmittedKeepsEvents(es: seq<EventType>, e: EventType)
    requires e != NoEvent
    ensures e in es <==> e in Emitted(es)
    decreases |es|
  {
    if es != [] {
      EmittedKeepsEvents(es[1..], e);
      assert es == [es[0]] + es[1..];
    }
  }

  /**
   * From WaitingForSecondPress, a second press that starts within the
   * double-click timeout and is shorter than the double-long-press time
   * reports Pressed and then DoubleClick, and the button is Idle.
   */
  lemma {:induction false} SecondPress(b: Button, press: seq<Sample>)
    requires b.currentState == WaitingForSecondPress && WellFormed(b)
    requires IsPress(press) && Ascending(press) && Duration(press) < DOUBLE_LONG_PRESS_TICKS
    requires b.lastReleaseTick <= press[0].tick <= b.lastReleaseTick + DOUBLE_CLICK_TIMEOUT_TICKS
    ensures var r := Run(b, press);
      && Emitted(r.1) == [Pressed, DoubleClick]
      && r.0.currentState == Idle && !r.0.isLongPressActive && !r.0.isDoubleLongPressActive
  {
    var n := |press|;
    var second := b.(currentState := DoubleClickDetected, lastPressTick := press[0].tick);
    var holds := press[1..n - 1];
    RunPress(b, press);
    HoldsBeforeRelease(press);
    HeldInDoubleClick(second, holds);
    var last := Step(second, true, press[n - 1].tick);
    EmittedPress(Pressed, Run(second, holds).1, last.event);
  }

  /**
   * The same, after staying released within the timeout: the polls in the
   * gap report nothing and change nothing.
   */
  lemma {:induction false} SecondShortPress(b: Button, gap: seq<Sample>, press: seq<Sample>)
    requires b.currentState == WaitingForSecondPress && WellFormed(b)
    requires forall k :: 0 <= k < |gap| ==>
      gap[k].level && b.lastReleaseTick <= gap[k].tick <= b.lastReleaseTick + DOUBLE_CLICK_TIMEOUT_TICKS
    requires IsPress(press) && Ascending(press) && Duration(press) < DOUBLE_LONG_PRESS_TICKS
    requires b.lastReleaseTick <= press[0].tick <= b.lastReleaseTick + DOUBLE_CLICK_TIMEOUT_TICKS
    ensures var r := Run(b, gap + press);
      && Emitted(r.1) == [Pressed, DoubleClick]
      && r.0.currentState == Idle && !r.0.isLongPressActive && !r.0.isDoubleLongPressActive
  {
    RunAppend(b, gap, press);
    ReleasedWhileWaiting(b, gap);
    SecondPress(b, press);
    EmittedAppend(Run(b, gap).1, Run(b, press).1);
  }

  /**
   * A double click: two short presses, the second starting within the
   * double-click timeout of the first release, report Pressed, Click,
   * Pressed, DoubleClick; the first Click is not withdrawn.
   */
  lemma {:induction false} DoubleClickGesture(b: Button, first: seq<Sample>, gap: seq<Sample>, second: seq<Sample>)
    requires b.currentState == Idle && WellFormed(b)
    requires IsPress(first) && Ascending(first) && Duration(first) < LONG_PRESS_TICKS
    requires forall k :: 0 <= k < |gap| ==>
      gap[k].level && first[|first| - 1].tick <= gap[k].tick <= first[|first| - 1].tick + DOUBLE_CLICK_TIMEOUT_TICKS
    requires IsPress(second) && Ascending(second) && Duration(second) < DOUBLE_LONG_PRESS_TICKS
    requires first[|first| - 1].tick <= second[0].tick <= first[|first| - 1].tick + DOUBLE_CLICK_TIMEOUT_TICKS
    ensures var r := Run(b, first + (gap + second));
      && Emitted(r.1) == [Pressed, Click, Pressed, DoubleClick]
      && r.0.currentState == Idle
  {
    RunAppend(b, first, gap + second);
    ShortPress(b, first);
    SecondShortPress(Run(b, first).0, gap, second);
    EmittedAppend(Run(b, first).1, Run(Run(b, first).0, gap + second).1);
  }

  // ---------------------------------------------------------------------
  // Quirks of the driver, as written
  // ---------------------------------------------------------------------

  /**
   * A second press that comes after the double-click timeout sends the
   * button to Idle although it is still held, so the next poll reports
   * Pressed again and restarts the press tick: one physical press, two
   * Pressed reports, and the press is timed from the second poll.
   */
  lemma {:induction false} LatePressReportedTwice(b: Button, p: Sample, q: Sample)
    requires b.currentState == WaitingForSecondPress && WellFormed(b)
    requires !p.level && !q.level
    requires p.tick - b.lastReleaseTick > DOUBLE_CLICK_TIMEOUT_TICKS
    ensures Run(b, [p, q]).1 == [Pressed, Pressed]
    ensures Run(b, [p, q]).0 == b.(currentState := PressedState, lastPressTick := q.tick)
  {
    var idle := Step(b, false, p.tick).button;
    assert [p, q][1..] == [q];
    RunOne(idle, q);
  }

  /**
   * A second press that reaches the double-long-press time between two polls
   * is found only at its release: that poll reports DoubleLongPress (not
   * Released) and enters DoubleLongPressDetected, and the next high poll
   * reports Released and returns to Idle.
   */
  lemma {:induction false} DoubleLongPressFoundAtRelease(b: Button, r1: Sample, r2: Sample)
    requires b.currentState == DoubleClickDetected && !b.isDoubleLongPressActive
    requires r1.level && r2.level
    requires r1.tick - b.lastPressTick >= DOUBLE_LONG_PRESS_TICKS
    ensures Run(b, [r1, r2]).1 == [DoubleLongPress, Released]
    ensures Run(b, [r1, r2]).0.currentState == Idle
    ensures !Run(b, [r1, r2]).0.isDoubleLongPressActive
  {
    var held := Step(b, true, r1.tick).button;
    assert [r1, r2][1..] == [r2];
    RunOne(held, r2);
  }

  /**
   * A press made while DoubleLongPressDetected waits for its release is
   * swallowed: after a double long press found at release, a low poll
   * reports nothing and the next high poll reports Released and returns to
   * Idle, so that press is never reported as Pressed.
   */
  lemma {:induction false} PressSwallowedAfterDoubleLongPress(b: Button, r1: Sample, p: Sample, r2: Sample)
    requires b.currentState == DoubleClickDetected && !b.isDoubleLongPressActive
    requires r1.level && !p.level && r2.level
    requires r1.tick - b.lastPressTick >= DOUBLE_LONG_PRESS_TICKS
    ensures Run(b, [r1, p, r2]).1 == [DoubleLongPress, NoEvent, Released]
    ensures Run(b, [r1, p, r2]).0.currentState == Idle
    ensures !Run(b, [r1, p, r2]).0.isDoubleLongPressActive
  {
    var found := Step(b, true, r1.tick);
    DoubleClickStep(b, true, r1.tick);
    var swallowed := Step(found.button, false, p.tick);
    DoubleLongPressDetectedStep(found.button, false, p.tick);
    DoubleLongPressDetectedStep(swallowed.button, true, r2.tick);
    assert [r1, p, r2][1..] == [p, r2];
    assert [p, r2][1..] == [r2];
    RunOne(swallowed.button, r2);
  }

  /**
   * The scenario of a 150 ms click polled every BUTTON_DEBOUNCE_MS (press
   * seen at the first poll, release at the fourth) reports only Pressed and
   * Click: there is no Released between them.
   */
  lemma ClickScenario()
    ensures var p := POLL_PERIOD_TICKS;
      Emitted(Run(ResetButton(0), [Sample(false, 0), Sample(false, p), Sample(false, 2 * p), Sample(true, 3 * p)]).1)
        == [Pressed, Click]
  {
    TickConstants();
    ShortPress(ResetButton(0), [Sample(false, 0), Sample(false, 5), Sample(false, 10), Sample(true, 15)]);
  }
}
