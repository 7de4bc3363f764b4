/** The button gesture recogniser (button_handler.c): pressed edges and four timers
    turn into single-click, double-click and long-press callbacks.

    Each handler is one atomic step. The sampled line level is an input, the callbacks
    a handler dispatches are its output trace, and a timer is only "armed" or not.
    A single-shot timer that fires is no longer armed when its handler runs; the
    repeat timer stays armed until it is stopped. */
module Gesture {
  import opened CInt

  datatype Event = SingleClick | DoubleClick | LongPress

  /** Which of the four timers are running. */
  datatype Timers = Timers(debounce: bool, doubleClick: bool, longPress: bool, repeat: bool)

  /** Which callback slots hold a function; an empty (NULL) slot is skipped. */
  datatype Callbacks = Callbacks(single: bool, double: bool, longPress: bool)

  /** The module state of button_handler.c. */
  datatype Buttons = Buttons(
    clickCounter: uint8,
    longPressActive: bool,
    firstClickDetected: bool,
    doubleClickDetected: bool,
    timers: Timers,
    callbacks: Callbacks)

  /** The state after a handler and the callbacks it dispatched, in order. */
  datatype Step = Step(next: Buttons, events: seq<Event>)

  const NoTimers := Timers(false, false, false, false)

  /** The static initialisers: counter 0, every flag false, no timer running, no callback registered. */
  const Initial := Buttons(0, false, false, false, NoTimers, Callbacks(false, false, false))

  /** first_click_detected and double_click_detected are never set: the recogniser keeps them false. */
  ghost predicate DeadFlagsClear(b: Buttons) {
    !b.firstClickDetected && !b.doubleClickDetected
  }

  /** button_event_init: registers the three callbacks and nothing else. */
  function EventInit(b: Buttons, callbacks: Callbacks): (r: Buttons)
    ensures r.callbacks == callbacks && r.(callbacks := b.callbacks) == b
  {
    b.(callbacks := callbacks)
  }

  /** button_interrupt_handler: a pressed line (re)arms the debounce timer; a released one is ignored. */
  function Edge(b: Buttons, pressed: bool): (r: Step)
    ensures r.events == []
    ensures !pressed ==> r.next == b
    ensures pressed ==>
      r.next.timers.debounce && r.next.(timers := b.timers) == b &&
      r.next.timers.(debounce := b.timers.debounce) == b.timers
  {
    if pressed then Step(b.(timers := b.timers.(debounce := true)), []) else Step(b, [])
  }

  /** The callback process_button_click dispatches for the counter value it has just stored. */
  function ClickEvents(counter: uint8, callbacks: Callbacks): (r: seq<Event>)
    ensures r == [SingleClick] <==> counter == 1 && callbacks.single
    ensures r == [DoubleClick] <==> counter == 2 && callbacks.double
    ensures r == [] <==> !(counter == 1 && callbacks.single) && !(counter == 2 && callbacks.double)
  {
    if counter == 1 && callbacks.single then [SingleClick]
    else if counter == 2 && callbacks.double then [DoubleClick]
    else []
  }

  /** process_button_click: counts the press modulo 256 (uint8_t), (re)arms the double-click window
      and reports a single click on the first press and a double click on the second. */
  function Click(b: Buttons): (r: Step)
    ensures r.next.clickCounter == (b.clickCounter + 1) % 0x100
    ensures r.next.timers.doubleClick
    ensures r.events == ClickEvents(r.next.clickCounter, b.callbacks)
    ensures r.next.(clickCounter := b.clickCounter, timers := b.timers) == b
    ensures r.next.timers.(doubleClick := b.timers.doubleClick) == b.timers
  {
    var counter := (b.clickCounter + 1) % 0x100;
    Step(b.(clickCounter := counter, timers := b.timers.(doubleClick := true)), ClickEvents(counter, b.callbacks))
  }

  /** debounce_timer_handler. While pressed: arms the long-press timer unless a long press is active,
      then counts a click. While released: stops both long-press timers and ends the long press. */
  function Debounce(b: Buttons, pressed: bool): (r: Step)
    ensures !r.next.timers.debounce
    ensures pressed ==>
      r.next.clickCounter == (b.clickCounter + 1) % 0x100 && r.next.timers.doubleClick &&
      r.next.timers.longPress == (b.timers.longPress || !b.longPressActive) &&
      r.next.longPressActive == b.longPressActive && r.next.timers.repeat == b.timers.repeat &&
      r.events == ClickEvents(r.next.clickCounter, b.callbacks)
    ensures !pressed ==>
      r.events == [] && r.next.clickCounter == b.clickCounter && !r.next.longPressActive &&
      !r.next.timers.longPress && !r.next.timers.repeat && r.next.timers.doubleClick == b.timers.doubleClick
    ensures r.next.callbacks == b.callbacks && r.next.firstClickDetected == b.firstClickDetected &&
      r.next.doubleClickDetected == b.doubleClickDetected
  {
    var fired := b.(timers := b.timers.(debounce := false));
    if pressed then
      var armed := if !fired.longPressActive then fired.(timers := fired.timers.(longPress := true)) else fired;
      Click(armed)
    else
      Step(fired.(longPressActive := false, timers := fired.timers.(longPress := false, repeat := false)), [])
  }

  /** double_click_timer_handler: the window closes and the counter returns to 0, whatever it was. */
  function WindowExpiry(b: Buttons): (r: Step)
    ensures r.events == [] && r.next.clickCounter == 0 && !r.next.timers.doubleClick
    ensures !r.next.firstClickDetected
    ensures r.next.(clickCounter := b.clickCounter, firstClickDetected := b.firstClickDetected,
                    timers := b.timers) == b
    ensures r.next.timers.(doubleClick := b.timers.doubleClick) == b.timers
  {
    Step(b.(timers := b.timers.(doubleClick := false), firstClickDetected := false, clickCounter := 0), [])
  }

  /** long_press_timer_handler: while pressed, starts the long press, reports it once and arms the repeat timer. */
  function LongPressExpiry(b: Buttons, pressed: bool): (r: Step)
    ensures !r.next.timers.longPress
    ensures pressed ==>
      r.next.longPressActive && r.next.timers.repeat &&
      r.events == (if b.callbacks.longPress then [LongPress] else [])
    ensures !pressed ==> r.events == [] && r.next == b.(timers := b.timers.(longPress := false))
    ensures r.next.(longPressActive := b.longPressActive, timers := b.timers) == b
    ensures r.next.timers.(longPress := b.timers.longPress, repeat := b.timers.repeat) == b.timers
  {
    var fired := b.(timers := b.timers.(longPress := false));
    if pressed then
      Step(fired.(longPressActive := true, timers := fired.timers.(repeat := true)),
           if fired.callbacks.longPress then [LongPress] else [])
    else Step(fired, [])
  }

  /** long_press_repeat_timer_handler: while pressed, reports the long press again and changes nothing;
      once released, stops repeating and ends the long press. */
  function RepeatExpiry(b: Buttons, pressed: bool): (r: Step)
    ensures pressed ==> r.next == b && r.events == (if b.callbacks.longPress then [LongPress] else [])
    ensures !pressed ==>
      r.events == [] && !r.next.timers.repeat && !r.next.longPressActive &&
      r.next.(longPressActive := b.longPressActive, timers := b.timers) == b &&
      r.next.timers.(repeat := b.timers.repeat) == b.timers
  {
    if pressed then Step(b, if b.callbacks.longPress then [LongPress] else [])
    else Step(b.(longPressActive := false, timers := b.timers.(repeat := false)), [])
  }

  /** Every handler keeps the two dead flags clear. */
  lemma HandlersKeepDeadFlagsClear(b: Buttons, pressed: bool, callbacks: Callbacks)
    requires DeadFlagsClear(b)
    ensures DeadFlagsClear(EventInit(b, callbacks)) && DeadFlagsClear(Edge(b, pressed).next)
    ensures DeadFlagsClear(Debounce(b, pressed).next) && DeadFlagsClear(WindowExpiry(b).next)
    ensures DeadFlagsClear(LongPressExpiry(b, pressed).next) && DeadFlagsClear(RepeatExpiry(b, pressed).next)
  {
  }

  // ---------------------------------------------------------------- gestures over several handlers

  /** A confirmed press: a pressed edge, then the debounce timer expiring with the line still pressed. */
  function Press(b: Buttons): (r: Step)
    ensures r.next.clickCounter == (b.clickCounter + 1) % 0x100 && r.next.callbacks == b.callbacks
    ensures r.events == ClickEvents(r.next.clickCounter, b.callbacks)
  {
    var edge := Edge(b, true);
    var confirmed := Debounce(edge.next, true);
    Step(confirmed.next, edge.events + confirmed.events)
  }

  /** The handler sequence `step` applied `n` times in a row, with the callbacks of every step in order. */
  function Iterate(step: Buttons -> Step, b: Buttons, n: nat): (r: Step)
    decreases n
  {
    if n == 0 then Step(b, [])
    else
      var first := step(b);
      var rest := Iterate(step, first.next, n - 1);
      Step(rest.next, first.events + rest.events)
  }

  /** Iterating n times is iterating m <= n times and then n - m more. */
  lemma {:induction false} IterateSplit(step: Buttons -> Step, b: Buttons, m: nat, n: nat)
    requires m <= n
    ensures Iterate(step, b, n).next == Iterate(step, Iterate(step, b, m).next, n - m).next
    ensures Iterate(step, b, n).events == Iterate(step, b, m).events + Iterate(step, Iterate(step, b, m).next, n - m).events
    decreases m
  {
    if m > 0 {
      IterateSplit(step, step(b).next, m - 1, n - 1);
    }
  }

  /** `n` confirmed presses in a row with no double-click window expiry between them. */
  function Presses(b: Buttons, n: nat): Step {
    Iterate(Press, b, n)
  }

  /** The first m of n presses, then the remaining n - m from where they left the buttons. */
  lemma PressesSplit(b: Buttons, m: nat, n: nat)
    requires m <= n
    ensures Presses(b, n).next == Presses(Presses(b, m).next, n - m).next
    ensures Presses(b, n).events == Presses(b, m).events + Presses(Presses(b, m).next, n - m).events
  {
    IterateSplit(Press, b, m, n);
  }

  /** The last of n presses comes after the first n - 1. */
  lemma PressesThenOne(b: Buttons, n: nat)
    requires n > 0
    ensures Presses(b, n).events == Presses(b, n - 1).events + Press(Presses(b, n - 1).next).events
  {
    PressesSplit(b, n - 1, n);
    IterateOnce(Press, Presses(b, n - 1).next);
  }

  /** Confirmed presses count modulo 256 and leave the callbacks alone. */
  lemma {:induction false} PressesCount(b: Buttons, n: nat)
    ensures Presses(b, n).next.clickCounter == (b.clickCounter + n) % 0x100
    ensures Presses(b, n).next.callbacks == b.callbacks
    decreases n
  {
    if n > 0 {
      var first := Press(b).next;
      PressesCount(first, n - 1);
      assert Presses(b, n).next == Presses(first, n - 1).next;
      CounterSum(b.clickCounter, n);
    }
  }

  /** One count, then n - 1 more, modulo 256, is n more. */
  lemma CounterSum(c: nat, n: nat)
    requires n > 0
    ensures ((c + 1) % 0x100 + (n - 1)) % 0x100 == (c + n) % 0x100
  {
    var q := (c + 1) / 0x100;
    assert (c + 1) % 0x100 == c + 1 - q * 0x100;
    assert (c + 1 - q * 0x100 + (n - 1)) % 0x100 == (c + n - q * 0x100) % 0x100;
  }

  /** Presses that take the counter from 2 or more up to at most 255 dispatch nothing. */
  lemma {:induction false} QuietPresses(b: Buttons, n: nat)
    requires 2 <= b.clickCounter && b.clickCounter + n <= 0xFF
    ensures Presses(b, n).events == []
    decreases n
  {
    if n > 0 {
      QuietPresses(Press(b).next, n - 1);
      assert Presses(b, n).events == Press(b).events + Presses(Press(b).next, n - 1).events;
    }
  }

  /** Two confirmed presses within one window report a single click and then a double click. */
  lemma TwoPressesSingleThenDouble(b: Buttons)
    requires b.clickCounter == 0 && b.callbacks.single && b.callbacks.double
    ensures Presses(b, 2).events == [SingleClick, DoubleClick]
  {
    var first := Press(b);
    PressReports(b, 1);
    PressReports(first.next, 2);
    IterateOnce(Press, first.next);
    assert Presses(b, 2).events == first.events + Iterate(Press, first.next, 1).events;
  }

  /** A press that brings the counter to `count` reports that count's click event. */
  lemma PressReports(b: Buttons, count: nat)
    requires count == b.clickCounter + 1 < 0x100
    ensures Press(b).next.clickCounter == count && Press(b).next.callbacks == b.callbacks
    ensures Press(b).events == ClickEvents(count, b.callbacks)
  {
  }

  /** One iteration is one step. */
  lemma IterateOnce(step: Buttons -> Step, b: Buttons)
    ensures Iterate(step, b, 1) == step(b)
  {
    assert Iterate(step, step(b).next, 0) == Step(step(b).next, []);
    assert step(b).events + [] == step(b).events;
  }

  /** A burst of 2 to 256 presses within one window reports exactly one single and one double click. */
  lemma {:induction false} BurstReportsSingleThenDouble(b: Buttons, n: nat)
    requires b.clickCounter == 0 && b.callbacks.single && b.callbacks.double
    requires 2 <= n <= 0x100
    ensures Presses(b, n).events == [SingleClick, DoubleClick]
  {
    if n == 2 {
      TwoPressesSingleThenDouble(b);
    } else {
      BurstReportsSingleThenDouble(b, n - 1);
      var front := Presses(b, n - 1).next;
      assert 2 <= front.clickCounter by {
        PressesCount(b, n - 1);
      }
      LaterPressIsQuiet(front);
      PressesThenOne(b, n);
    }
  }

  /** A press from a count of 2 or more, the wrap from 255 to 0 included, dispatches nothing. */
  lemma LaterPressIsQuiet(b: Buttons)
    requires 2 <= b.clickCounter
    ensures Press(b).events == []
  {
  }

  /** From a count of 2 or more, the presses that take the counter up to 255 and then wrap it to 0 dispatch nothing. */
  lemma QuietUpToWrap(b: Buttons, n: nat)
    requires 2 <= b.clickCounter && 1 <= n && b.clickCounter + n == 0x100
    ensures Presses(b, n).events == []
  {
    var front := Presses(b, n - 1);
    PressesCount(b, n - 1);
    assert front.next.clickCounter == 0xFF;
    WrappingPressIsQuiet(front.next);
    QuietPresses(b, n - 1);
    PressesSplit(b, n - 1, n);
  }

  /** The press that wraps the counter from 255 to 0 dispatches nothing. */
  lemma WrappingPressIsQuiet(b: Buttons)
    requires b.clickCounter == 0xFF
    ensures Presses(b, 1).events == [] && Presses(b, 1).next.clickCounter == 0
  {
    IterateOnce(Press, b);
  }

  /** A press that brings the counter back to 1 is a single click again, after any earlier presses. */
  lemma PressAtZero(b: Buttons, m: nat)
    requires Presses(b, m).next.clickCounter == 0 && b.callbacks.single
    ensures Presses(b, m + 1).events == Presses(b, m).events + [SingleClick]
  {
    var front := Presses(b, m).next;
    assert Press(front).events == [SingleClick] by {
      PressesCount(b, m);
      PressReports(front, 1);
    }
    PressesThenOne(b, m + 1);
  }

  /** 256 presses bring the uint8_t counter back to where it started. */
  lemma FullCycleKeepsCounter(b: Buttons, n: nat)
    requires n == 0x100
    ensures Presses(b, n).next.clickCounter == b.clickCounter
  {
    var c: int := b.clickCounter;
    assert (c + 0x100) % 0x100 == c;
    PressesCount(b, n);
  }

  /** The uint8_t counter wraps: after 256 presses in one window, the next press reports a single click again. */
  lemma CounterWrapsToSingleClick(b: Buttons, n: nat)
    requires b.clickCounter == 0 && b.callbacks.single && b.callbacks.double
    requires n == 0x100
    ensures Presses(b, n + 1).events == [SingleClick, DoubleClick, SingleClick]
  {
    FullCycleKeepsCounter(b, n);
    BurstReportsSingleThenDouble(b, n);
    PressAtZero(b, n);
  }

  /** A confirmed press after the double-click window has expired is a single click. */
  lemma PressAfterWindowIsSingle(b: Buttons)
    requires b.callbacks.single
    ensures Press(WindowExpiry(b).next).events == [SingleClick]
  {
  }

  /** A repeat-timer expiry with the line still pressed. */
  function RepeatHeld(b: Buttons): Step {
    RepeatExpiry(b, true)
  }

  /** `n` repeat-timer expiries with the line held pressed. */
  function Hold(b: Buttons, n: nat): Step {
    Iterate(RepeatHeld, b, n)
  }

  /** Holding the button through `n` repeat periods reports `n` long presses and changes no state. */
  lemma {:induction false} HoldRepeatsLongPress(b: Buttons, n: nat)
    requires b.callbacks.longPress
    ensures Hold(b, n).next == b
    ensures Hold(b, n).events == seq(n, _ => LongPress)
    decreases n
  {
    if n > 0 {
      HoldRepeatsLongPress(b, n - 1);
      assert [LongPress] + seq(n - 1, _ => LongPress) == seq(n, _ => LongPress);
    }
  }

  /** A press held past the long-press delay: the first expiry reports one long press and each repeat one more;
      the release seen by the repeat timer ends the long press. */
  lemma HeldPressThenRelease(b: Buttons, n: nat)
    requires b.callbacks.longPress
    ensures var start := LongPressExpiry(b, true);
      start.events == [LongPress] && start.next.longPressActive &&
      Hold(start.next, n).events == seq(n, _ => LongPress) &&
      !RepeatExpiry(Hold(start.next, n).next, false).next.longPressActive &&
      !RepeatExpiry(Hold(start.next, n).next, false).next.timers.repeat
  {
    HoldRepeatsLongPress(LongPressExpiry(b, true).next, n);
  }

  // ---------------------------------------------------------------- the handler module state

  /** The module-level variables of button_handler.c, updated in place by the handlers. */
  class ButtonHandler {
    var clickCounter: uint8
    var longPressActive: bool
    var firstClickDetected: bool
    var doubleClickDetected: bool
    var debounceArmed: bool
    var doubleClickArmed: bool
    var longPressArmed: bool
    var repeatArmed: bool
    var hasSingleClick: bool
    var hasDoubleClick: bool
    var hasLongPress: bool

    ghost function State(): Buttons
      reads this
    {
      Buttons(clickCounter, longPressActive, firstClickDetected, doubleClickDetected,
              Timers(debounceArmed, doubleClickArmed, longPressArmed, repeatArmed),
              Callbacks(hasSingleClick, hasDoubleClick, hasLongPress))
    }

    ghost predicate Valid()
      reads this
    {
      DeadFlagsClear(State())
    }

    /** The static initialisers. */
    constructor ()
      ensures Valid() && State() == Initial
    {
      clickCounter := 0;
      longPressActive, firstClickDetected, doubleClickDetected := false, false, false;
      debounceArmed, doubleClickArmed, longPressArmed, repeatArmed := false, false, false, false;
      hasSingleClick, hasDoubleClick, hasLongPress := false, false, false;
    }

    /** button_event_init. */
    method ButtonEventInit(single: bool, double: bool, longPress: bool)
      requires Valid()
      modifies this
      ensures Valid() && State() == EventInit(old(State()), Callbacks(single, double, longPress))
    {
      hasSingleClick, hasDoubleClick, hasLongPress := single, double, longPress;
    }

    /** button_interrupt_handler, with the sampled line level as input. */
    method ButtonInterruptHandler(pressed: bool) returns (events: seq<Event>)
      requires Valid()
      modifies this
      ensures Valid() && Step(State(), events) == Edge(old(State()), pressed)
    {
      if pressed {
        debounceArmed := true;
      }
      events := [];
    }

    /** debounce_timer_handler. */
    method DebounceTimerHandler(pressed: bool) returns (events: seq<Event>)
      requires Valid()
      modifies this
      ensures Valid() && Step(State(), events) == Debounce(old(State()), pressed)
    {
      debounceArmed := false;
      if pressed {
        if !longPressActive {
          longPressArmed := true;
        }
        events := ProcessButtonClick();
      } else {
        longPressArmed := false;
        repeatArmed := false;
        longPressActive := false;
        events := [];
      }
    }

    /** process_button_click. */
    method ProcessButtonClick() returns (events: seq<Event>)
      requires Valid()
      modifies this
      ensures Valid() && Step(State(), events) == Click(old(State()))
    {
      clickCounter := (clickCounter + 1) % 0x100;
      doubleClickArmed := true;
      events := [];
      if clickCounter == 1 {
        if hasSingleClick {
          events := [SingleClick];
        }
      } else if clickCounter == 2 {
        if hasDoubleClick {
          events := [DoubleClick];
        }
      }
    }

    /** double_click_timer_handler. */
    method DoubleClickTimerHandler()
      requires Valid()
      modifies this
      ensures Valid() && State() == WindowExpiry(old(State())).next
    {
      doubleClickArmed := false;
      firstClickDetected := false;
      clickCounter := 0;
    }

    /** long_press_timer_handler. */
    method LongPressTimerHandler(pressed: bool) returns (events: seq<Event>)
      requires Valid()
      modifies this
      ensures Valid() && Step(State(), events) == LongPressExpiry(old(State()), pressed)
    {
      longPressArmed := false;
      events := [];
      if pressed {
        longPressActive := true;
        if hasLongPress {
          events := [LongPress];
        }
        repeatArmed := true;
      }
    }

    /** long_press_repeat_timer_handler. */
    method LongPressRepeatTimerHandler(pressed: bool) returns (events: seq<Event>)
      requires Valid()
      modifies this
      ensures Valid() && Step(State(), events) == RepeatExpiry(old(State()), pressed)
    {
      events := [];
      if pressed {
        if hasLongPress {
          events := [LongPress];
        }
      } else {
        repeatArmed := false;
        longPressActive := false;
      }
    }
  }

  /** Two quick presses on a freshly initialised recogniser with all callbacks registered. */
  method DoubleClickScenario() returns (trace: seq<Event>)
    ensures trace == [SingleClick, DoubleClick]
  {
    var h := new ButtonHandler();
    h.ButtonEventInit(true, true, true);
    var e1 := h.ButtonInterruptHandler(true);
    var e2 := h.DebounceTimerHandler(true);
    var e3 := h.ButtonInterruptHandler(false);
    var e4 := h.ButtonInterruptHandler(true);
    var e5 := h.DebounceTimerHandler(true);
    trace := e1 + e2 + e3 + e4 + e5;
  }
}
