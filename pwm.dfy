/** The PWM duty table of pwm_control.c: four 16-bit channel slots played back by the PWM
    peripheral, one of which pwm_update_duty_cycle overwrites at a time. */
module Pwm {
  import opened CInt

  /** PWM_TOP_VALUE (pwm_control.h:14): the counter top, so the largest meaningful duty value. */
  const PwmTop: uint32 := 255

  /** The `pwm_duty_cycles` struct (nrf_pwm_values_individual_t: four uint16_t fields). */
  datatype DutyTable = DutyTable(channel0: uint16, channel1: uint16, channel2: uint16, channel3: uint16)

  /** The static struct starts zeroed. */
  const ZeroTable := DutyTable(0, 0, 0, 0)

  /** The value held for channel `ch`. */
  function Slot(t: DutyTable, ch: nat): uint16
    requires ch < 4
  {
    match ch
    case 0 => t.channel0
    case 1 => t.channel1
    case 2 => t.channel2
    case 3 => t.channel3
  }

  /** pwm_update_duty_cycle: the duty value reduced modulo PWM_TOP_VALUE + 1 goes into the slot of
      `channel`; the other slots keep their values, and a channel above 3 changes nothing. */
  function WithDuty(t: DutyTable, channel: uint8, duty: uint32): (r: DutyTable)
    ensures channel < 4 ==> Slot(r, channel) == duty % (PwmTop + 1)
    ensures forall ch :: 0 <= ch < 4 && ch != channel ==> Slot(r, ch) == Slot(t, ch)
    ensures channel >= 4 ==> r == t
  {
    var value := duty % (PwmTop + 1);
    match channel
    case 0 => t.(channel0 := value)
    case 1 => t.(channel1 := value)
    case 2 => t.(channel2 := value)
    case 3 => t.(channel3 := value)
    case _ => t
  }

  /** Every slot at most PWM_TOP_VALUE. */
  predicate WithinTop(t: DutyTable) {
    forall ch :: 0 <= ch < 4 ==> Slot(t, ch) <= PwmTop
  }

  /** Starting from the zeroed struct, every update keeps all four slots at most PWM_TOP_VALUE. */
  lemma UpdateKeepsWithinTop(t: DutyTable, channel: uint8, duty: uint32)
    requires WithinTop(t)
    ensures WithinTop(ZeroTable)
    ensures WithinTop(WithDuty(t, channel, duty))
  {
    assert forall ch :: 0 <= ch < 4 ==> Slot(ZeroTable, ch) == 0;
  }

  /** Two tables are equal when their four slots agree. */
  lemma SlotsDetermineTable(a: DutyTable, b: DutyTable)
    requires forall ch :: 0 <= ch < 4 ==> Slot(a, ch) == Slot(b, ch)
    ensures a == b
  {
    assert Slot(a, 0) == Slot(b, 0) && Slot(a, 1) == Slot(b, 1);
    assert Slot(a, 2) == Slot(b, 2) && Slot(a, 3) == Slot(b, 3);
  }

  /** The last write to a channel wins; in particular, repeating a call has the effect of one call. */
  lemma LastWriteWins(t: DutyTable, channel: uint8, first: uint32, second: uint32)
    ensures WithDuty(WithDuty(t, channel, first), channel, second) == WithDuty(t, channel, second)
    ensures WithDuty(WithDuty(t, channel, first), channel, first) == WithDuty(t, channel, first)
  {
    var once := WithDuty(t, channel, second);
    var twice := WithDuty(WithDuty(t, channel, first), channel, second);
    SlotsDetermineTable(twice, once);
  }

  /** Writes to two different channels commute. */
  lemma DifferentChannelsCommute(t: DutyTable, a: uint8, da: uint32, b: uint8, db: uint32)
    requires a != b
    ensures WithDuty(WithDuty(t, a, da), b, db) == WithDuty(WithDuty(t, b, db), a, da)
  {
    var ab := WithDuty(WithDuty(t, a, da), b, db);
    var ba := WithDuty(WithDuty(t, b, db), a, da);
    SlotsDetermineTable(ab, ba);
  }

  /** The static `pwm_duty_cycles` struct, one field assigned per update. */
  class PwmDuty {
    var channel0: uint16
    var channel1: uint16
    var channel2: uint16
    var channel3: uint16

    ghost function Table(): DutyTable
      reads this
    {
      DutyTable(channel0, channel1, channel2, channel3)
    }

    /** Static storage is zero-initialised. */
    constructor ()
      ensures Table() == ZeroTable
    {
      channel0, channel1, channel2, channel3 := 0, 0, 0, 0;
    }

    /** pwm_update_duty_cycle. */
    method UpdateDutyCycle(channel: uint8, duty: uint32)
      modifies this
      ensures Table() == WithDuty(old(Table()), channel, duty)
    {
      var value := duty % (PwmTop + 1);
      if channel == 0 {
        channel0 := value;
      } else if channel == 1 {
        channel1 := value;
      } else if channel == 2 {
        channel2 := value;
      } else if channel == 3 {
        channel3 := value;
      }
    }
  }
}
