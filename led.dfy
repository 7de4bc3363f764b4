/** The colour-mode state of led_control.c: the mode cycler, the per-mode value updaters
    driven by the button callbacks and the PWM timer, and the ping-pong stepper.

    All values are `uint32_t` in the firmware; their arithmetic wraps modulo 2^32 and is
    written out with Wrap32. SATURATION_STEP and BRIGHTNESS_STEP are not defined in the
    firmware sources shown, so they are parameters here. */
module Led {
  import opened CInt

  /** PWM_TOP_VALUE (pwm_control.h:14). */
  const PwmTop: uint32 := 255

  /** The four controller modes, in declaration order. */
  datatype Mode = Afk | Hue | Saturation | Brightness

  /** The enumerator value of a mode. */
  function ModeIndex(m: Mode): (i: nat)
    ensures i < 4
  {
    match m
    case Afk => 0
    case Hue => 1
    case Saturation => 2
    case Brightness => 3
  }

  /** set_current_mode on the mode alone: the enumerator value plus one, modulo 4. */
  function NextMode(m: Mode): (r: Mode)
    ensures ModeIndex(r) == (ModeIndex(m) + 1) % 4
  {
    match m
    case Afk => Hue
    case Hue => Saturation
    case Saturation => Brightness
    case Brightness => Afk
  }

  /** The per-mode constants of LED1's duty cycle (the `steps_for_mode` table). */
  const AfkStep: uint32 := 0
  const HueStep: uint32 := 3
  const SaturationStep: uint32 := 10
  const BrightnessStep: uint32 := PwmTop

  /** A value and its direction flag, the two things change_value_smoothly updates through its address arguments. */
  datatype Swing = Swing(value: uint32, increasing: bool)

  /** change_value_smoothly as written: the value moves by `step` in the current direction with
      uint32_t wrap-around, and is clamped to the bound it reaches, which flips the direction. */
  function Smoothed(value: uint32, increasing: bool, min: uint32, max: uint32, step: uint32): (r: Swing)
    ensures increasing && value + step < max ==> r == Swing(value + step, true)
    ensures increasing && max <= value + step < 0x1_0000_0000 ==> r == Swing(max, false)
    ensures !increasing && step <= value && value - step <= min ==> r == Swing(min, true)
    ensures !increasing && step <= value && min < value - step ==> r == Swing(value - step, false)
    ensures !increasing && value < step && min < value - step + 0x1_0000_0000 ==>
      r == Swing(value - step + 0x1_0000_0000, false)
    ensures !increasing && value < step && value - step + 0x1_0000_0000 <= min ==> r == Swing(min, true)
    ensures increasing && value + step >= 0x1_0000_0000 ==>
      var v := value + step - 0x1_0000_0000;
      r == (if v >= max then Swing(max, false) else Swing(v, true))
  {
    if increasing then
      var v := Wrap32(value + step);
      if v >= max then Swing(max, false) else Swing(v, true)
    else
      var v := Wrap32(value - step);
      if v <= min then Swing(min, true) else Swing(v, false)
  }

  /** While no bound is crossed by wrap-around, the stepper keeps the value within [min, max]. */
  lemma SmoothedStaysInRange(value: uint32, increasing: bool, min: uint32, max: uint32, step: uint32)
    requires min <= value <= max && value + step < 0x1_0000_0000
    requires !increasing ==> step <= value
    ensures min <= Smoothed(value, increasing, min, max, step).value <= max
  {
  }

  /** A decrement below zero wraps: the value leaves [min, max] and the direction stays "decreasing". */
  lemma SmoothedUnderflowEscapes(value: uint32, min: uint32, max: uint32, step: uint32)
    requires value < step && min <= max && step - value < 0x1_0000_0000 - max
    ensures Smoothed(value, false, min, max, step).value > max
    ensures !Smoothed(value, false, min, max, step).increasing
  {
  }

  /** The concrete case: saturation 5, step 10, bounds 0 and 255. */
  lemma DecrementUnderflows()
    ensures Smoothed(5, false, 0, PwmTop, 10) == Swing(4294967291, false)
  {
    SmoothedUnderflowEscapes(5, 0, PwmTop, 10);
  }

  /** The stepper as evidently intended: compare before moving, so no step can wrap. */
  function SmoothedFixed(value: uint32, increasing: bool, min: uint32, max: uint32, step: uint32): (r: Swing)
    requires min <= value <= max
    ensures min <= r.value <= max
    ensures r.increasing != increasing <==> r.value == (if increasing then max else min)
  {
    if increasing then
      if step >= max - value then Swing(max, false) else Swing(value + step, true)
    else
      if step >= value - min then Swing(min, true) else Swing(value - step, false)
  }

  /** The corrected stepper agrees with the firmware wherever the firmware does not wrap. */
  lemma SmoothedFixedAgrees(value: uint32, increasing: bool, min: uint32, max: uint32, step: uint32)
    requires min <= value <= max && value + step < 0x1_0000_0000
    requires !increasing ==> step <= value
    ensures SmoothedFixed(value, increasing, min, max, step) == Smoothed(value, increasing, min, max, step)
  {
  }

  /** The module globals of led_control.c. */
  datatype Colour = Colour(
    hue: uint32,
    saturation: uint32,
    brightness: uint32,
    increasingSaturation: bool,
    increasingBrightness: bool,
    ledStep: uint32,
    mode: Mode)

  /** The static initialisers: hue (int)360 * 0.85 = 306, saturation and brightness at PWM_TOP_VALUE,
      led_step 0, AFK mode, both direction flags false. */
  const InitialColour := Colour(306, PwmTop, PwmTop, false, false, 0, Afk)

  /** set_current_mode: advances the mode and changes nothing else. */
  function SetMode(c: Colour): (r: Colour)
    ensures r.mode == NextMode(c.mode) && r.(mode := c.mode) == c
  {
    c.(mode := NextMode(c.mode))
  }

  /** update_duty_cycle_RGB: the variable of the current mode takes one step. */
  function UpdateRgb(c: Colour, saturationStep: uint32, brightnessStep: uint32): (r: Colour)
    ensures c.mode == Hue ==> r == c.(hue := r.hue) && r.hue < 360
    ensures c.mode == Hue && c.hue < 359 ==> r.hue == c.hue + 1
    ensures c.mode == Hue && c.hue == 359 ==> r.hue == 0
    ensures c.mode == Saturation ==>
      r == c.(saturation := r.saturation, increasingSaturation := r.increasingSaturation) &&
      Swing(r.saturation, r.increasingSaturation) == Smoothed(c.saturation, c.increasingSaturation, 0, PwmTop, saturationStep)
    ensures c.mode == Brightness ==>
      r == c.(brightness := r.brightness, increasingBrightness := r.increasingBrightness) &&
      Swing(r.brightness, r.increasingBrightness) == Smoothed(c.brightness, c.increasingBrightness, 0, PwmTop, brightnessStep)
    ensures c.mode == Afk ==> r == c
  {
    match c.mode
    case Hue => c.(hue := Wrap32(c.hue + 1) % 360)
    case Saturation =>
      var s := Smoothed(c.saturation, c.increasingSaturation, 0, PwmTop, saturationStep);
      c.(saturation := s.value, increasingSaturation := s.increasing)
    case Brightness =>
      var s := Smoothed(c.brightness, c.increasingBrightness, 0, PwmTop, brightnessStep);
      c.(brightness := s.value, increasingBrightness := s.increasing)
    case Afk => c
  }

  /** LED1's value advanced by `step` in uint32_t arithmetic and reduced modulo PWM_TOP_VALUE: below
      PWM_TOP_VALUE, and simply the sum while that stays below PWM_TOP_VALUE. */
  function AdvanceLed1(value: uint32, step: uint32): (r: uint32)
    ensures r < PwmTop
    ensures value + step < PwmTop ==> r == value + step
    ensures PwmTop <= value + step < 2 * PwmTop ==> r == value + step - PwmTop
  {
    Wrap32(value + step) % PwmTop
  }

  /** update_duty_cycle_LED1: LED1's duty value is set from the current mode and is never above PWM_TOP_VALUE. */
  function UpdateLed1(c: Colour): (r: Colour)
    ensures r == c.(ledStep := r.ledStep) && r.ledStep <= PwmTop
    ensures c.mode == Hue && c.ledStep < 252 ==> r.ledStep == c.ledStep + 3
    ensures c.mode == Saturation && c.ledStep < 245 ==> r.ledStep == c.ledStep + 10
    ensures c.mode == Hue && 252 <= c.ledStep <= PwmTop ==> r.ledStep == c.ledStep + 3 - PwmTop
    ensures c.mode == Saturation && 245 <= c.ledStep <= PwmTop ==> r.ledStep == c.ledStep + 10 - PwmTop
    ensures c.mode == Brightness ==> r.ledStep == PwmTop
    ensures c.mode == Afk ==> r.ledStep == 0
  {
    match c.mode
    case Hue => c.(ledStep := AdvanceLed1(c.ledStep, HueStep))
    case Saturation => c.(ledStep := AdvanceLed1(c.ledStep, SaturationStep))
    case Brightness => c.(ledStep := BrightnessStep)
    case Afk => c.(ledStep := AfkStep)
  }

  /** Four mode changes restore the original mode, passing through every mode on the way. */
  lemma FourModeChangesRestore(c: Colour)
    ensures SetMode(SetMode(SetMode(SetMode(c)))) == c
    ensures {c.mode, SetMode(c).mode, SetMode(SetMode(c)).mode, SetMode(SetMode(SetMode(c))).mode} ==
      {Afk, Hue, Saturation, Brightness}
  {
  }

  /** What the handlers keep true of the globals: hue below 360 and LED1's value at most PWM_TOP_VALUE. */
  predicate Bounded(c: Colour) {
    c.hue < 360 && c.ledStep <= PwmTop
  }

  /** Every handler keeps Bounded, starting from the initialisers. */
  lemma HandlersKeepBounded(c: Colour, saturationStep: uint32, brightnessStep: uint32)
    requires Bounded(c)
    ensures Bounded(InitialColour)
    ensures Bounded(SetMode(c)) && Bounded(UpdateLed1(c)) && Bounded(UpdateRgb(c, saturationStep, brightnessStep))
  {
  }

  /** `n` long-press repeats (each one calls update_duty_cycle_RGB). */
  function Repeats(c: Colour, saturationStep: uint32, brightnessStep: uint32, n: nat): Colour
    decreases n
  {
    if n == 0 then c else UpdateRgb(Repeats(c, saturationStep, brightnessStep, n - 1), saturationStep, brightnessStep)
  }

  /** Holding the button in saturation mode lowers the saturation by one step per repeat, while it stays above a step. */
  lemma {:induction false} SaturationDescends(c: Colour, step: uint32, brightnessStep: uint32, n: nat)
    requires c.mode == Saturation && !c.increasingSaturation && n * step < c.saturation
    ensures var r := Repeats(c, step, brightnessStep, n);
      r.mode == Saturation && !r.increasingSaturation && r.saturation == c.saturation - n * step
    decreases n
  {
    if n > 0 {
      assert (n - 1) * step == n * step - step;
      SaturationDescends(c, step, brightnessStep, n - 1);
    }
  }

  /** From the initial saturation 255, with a step that does not divide 255, holding the button in
      saturation mode drives the saturation above PWM_TOP_VALUE: the (255 / step + 1)-th repeat underflows. */
  lemma SaturationLeavesRange(step: uint32, brightnessStep: uint32)
    requires 0 < step <= PwmTop && PwmTop % step != 0
    ensures var start := InitialColour.(mode := Saturation);
      Repeats(start, step, brightnessStep, PwmTop / step + 1).saturation > PwmTop
  {
    var start := InitialColour.(mode := Saturation);
    var k := PwmTop / step;
    assert k * step == PwmTop - PwmTop % step;
    SaturationDescends(start, step, brightnessStep, k);
    SmoothedUnderflowEscapes(PwmTop % step, 0, PwmTop, step);
  }

  /** The module globals of led_control.c, reassigned by its functions. */
  class LedState {
    var hue: uint32
    var saturation: uint32
    var brightness: uint32
    var increasingSaturation: bool
    var increasingBrightness: bool
    var ledStep: uint32
    var currentMode: Mode
    /** SATURATION_STEP and BRIGHTNESS_STEP. */
    const saturationStep: uint32
    const brightnessStep: uint32

    ghost function State(): Colour
      reads this
    {
      Colour(hue, saturation, brightness, increasingSaturation, increasingBrightness, ledStep, currentMode)
    }

    /** The static initialisers. */
    constructor (saturationStep: uint32, brightnessStep: uint32)
      ensures State() == InitialColour && Bounded(State())
      ensures this.saturationStep == saturationStep && this.brightnessStep == brightnessStep
    {
      hue, saturation, brightness := 306, PwmTop, PwmTop;
      increasingSaturation, increasingBrightness := false, false;
      ledStep := 0;
      currentMode := Afk;
      this.saturationStep, this.brightnessStep := saturationStep, brightnessStep;
    }

    /** set_current_mode. */
    method SetCurrentMode()
      modifies this
      ensures State() == SetMode(old(State()))
    {
      currentMode := NextMode(currentMode);
    }

    /** update_duty_cycle_RGB. */
    method UpdateDutyCycleRgb()
      modifies this
      ensures State() == UpdateRgb(old(State()), saturationStep, brightnessStep)
    {
      match currentMode
      case Hue =>
        hue := Wrap32(hue + 1) % 360;
      case Saturation =>
        saturation, increasingSaturation := ChangeValueSmoothly(saturation, increasingSaturation, 0, PwmTop, saturationStep);
      case Brightness =>
        brightness, increasingBrightness := ChangeValueSmoothly(brightness, increasingBrightness, 0, PwmTop, brightnessStep);
      case Afk =>
    }

    /** update_duty_cycle_LED1. */
    method UpdateDutyCycleLed1()
      modifies this
      ensures State() == UpdateLed1(old(State()))
    {
      match currentMode
      case Hue =>
        ledStep := Wrap32(ledStep + HueStep) % PwmTop;
      case Saturation =>
        ledStep := Wrap32(ledStep + SaturationStep) % PwmTop;
      case Brightness =>
        ledStep := BrightnessStep;
      case Afk =>
        ledStep := AfkStep;
    }
  }

  /** change_value_smoothly: returns the new `*value` and `*increasing`. */
  method ChangeValueSmoothly(value: uint32, increasing: bool, min: uint32, max: uint32, step: uint32)
    returns (newValue: uint32, newIncreasing: bool)
    ensures Swing(newValue, newIncreasing) == Smoothed(value, increasing, min, max, step)
  {
    newValue, newIncreasing := value, increasing;
    if newIncreasing {
      newValue := Wrap32(newValue + step);
      if newValue >= max {
        newValue := max;
        newIncreasing := false;
      }
    } else {
      newValue := Wrap32(newValue - step);
      if newValue <= min {
        newValue := min;
        newIncreasing := true;
      }
    }
  }
}
