/**
 * `src/leds.rs`: the two PWM channels driven from the light state. The red
 * channel follows `warm` and the blue channel `cold`; each 16-bit field
 * becomes a 12-bit duty. At start the light fades in over 100 steps, then
 * every change of the light state sets both channels.
 *
 * The arithmetic is `u32`, written out here with its wrap-around. The LEDC
 * peripheral is reduced to the last duty set on each channel; pin and timer
 * setup and every delay are not modelled.
 */
module Leds {
  import opened Bytes
  import opened Wrappers
  import opened LightStates
  import opened Synchronizer

  /** `Duty12Bit`: the duty resolution in bits. */
  const DUTY_BITS: nat := 12
  /** The number of fade-in steps. */
  const STEPS: nat := 100
  /** The APB clock that feeds the LEDC timer, in Hz. */
  const APB_CLOCK: nat := 80_000_000

  const U32_MODULUS: nat := 0x1_0000_0000

  /** `80_000_000 >> DUTY`: the PWM frequency, the clock divided by the 4096 duty steps, rounded down. */
  function PwmFrequency(): (f: nat)
    ensures f * 4096 <= APB_CLOCK < (f + 1) * 4096
    ensures f == 19531
  {
    APB_CLOCK / 4096
  }

  /** `(field as u32) << DUTY >> 16`, with the shift left wrapping at 32 bits. */
  function Duty(field: u16): (d: nat)
    ensures field * 4096 < U32_MODULUS
    ensures d == field / 16 && d < 4096
  {
    ShiftFits(field);
    ((field * 4096) % U32_MODULUS) / 0x1_0000
  }

  lemma ShiftFits(field: u16)
    ensures field * 4096 < U32_MODULUS
    ensures (field * 4096) / 0x1_0000 == field / 16
  {
    assert field * 4096 <= 0xFFFF * 4096;
    var q := field / 16;
    var r := field % 16;
    assert field * 4096 == q * 0x1_0000 + r * 4096;
  }

  /** The duties of the red and the blue channel for a light state. */
  datatype Duties = Duties(red: nat, blue: nat)

  function ColorDuties(s: LightState): (d: Duties)
    ensures d.red == s.warm / 16 && d.blue == s.cold / 16
    ensures d.red < 4096 && d.blue < 4096
  {
    Duties(Duty(s.warm), Duty(s.cold))
  }

  /** `duty * i / STEPS` in `u32` arithmetic: the duty at fade-in step `i`. */
  function FadeDuty(duty: nat, i: nat): (r: nat)
    requires duty < 4096 && 1 <= i <= STEPS
    ensures duty * i < U32_MODULUS
    ensures r <= duty
    ensures i == STEPS ==> r == duty
  {
    MulBound(duty, i);
    ((duty * i) % U32_MODULUS) / STEPS
  }

  lemma MulBound(duty: nat, i: nat)
    requires duty < 4096 && 1 <= i <= STEPS
    ensures duty * i <= duty * STEPS < U32_MODULUS
  {
  }

  /** The fade never dims: a later step's duty is at least an earlier one's. */
  lemma {:induction false} FadeMonotone(duty: nat, i: nat, j: nat)
    requires duty < 4096 && 1 <= i <= j <= STEPS
    ensures FadeDuty(duty, i) <= FadeDuty(duty, j)
  {
    MulBound(duty, i);
    MulBound(duty, j);
    MulMonotone(duty, i, j);
    DivMonotone(duty * i, duty * j, STEPS);
  }

  lemma MulMonotone(a: nat, i: nat, j: nat)
    requires i <= j
    ensures a * i <= a * j
  {
  }

  lemma DivMonotone(x: nat, y: nat, d: nat)
    requires x <= y && d > 0
    ensures x / d <= y / d
  {
    if x / d > y / d {
      MulMonotone(d, y / d + 1, x / d);
      assert false;
    }
  }

  /** A PWM channel, reduced to the duty last set on it (`set_duty_hw`). */
  class Channel {
    var duty: nat

    constructor()
      ensures duty == 0
    {
      duty := 0;
    }

    method SetDutyHw(d: nat)
      modifies this
      ensures duty == d
    {
      duty := d;
    }
  }

  /**
   * The start of `led_task`: watch the light state, take its current value,
   * and fade both channels in over `STEPS` steps. `steps` records the duties
   * set at each step: they never decrease, never pass the target, and the
   * last one is the target.
   */
  method LedTaskStart(value: ValueSynchronizer<LightState>, red: Channel, blue: Channel)
    returns (watcher: Watcher<LightState>, steps: seq<Duties>)
    requires red != blue
    modifies red, blue
    ensures fresh(watcher) && watcher.synchronizer == value && watcher.Valid()
    ensures var target := ColorDuties(value.value);
            |steps| == STEPS
            && (forall k :: 0 <= k < STEPS ==> steps[k] == Duties(FadeDuty(target.red, k + 1), FadeDuty(target.blue, k + 1)))
            && steps[STEPS - 1] == target
            && red.duty == target.red && blue.duty == target.blue
    ensures forall k, l :: 0 <= k <= l < |steps| ==> steps[k].red <= steps[l].red && steps[k].blue <= steps[l].blue
    ensures forall k :: 0 <= k < |steps| ==> steps[k].red <= red.duty && steps[k].blue <= blue.duty
  {
    watcher := value.Watch();
    var message := value.ReadClone();
    var target := ColorDuties(message);
    steps := [];
    for i := 1 to STEPS + 1
      modifies red, blue
      invariant |steps| == i - 1
      invariant forall k :: 0 <= k < i - 1 ==> steps[k] == Duties(FadeDuty(target.red, k + 1), FadeDuty(target.blue, k + 1))
      invariant i > 1 ==> red.duty == FadeDuty(target.red, i - 1) && blue.duty == FadeDuty(target.blue, i - 1)
    {
      var d := Duties(FadeDuty(target.red, i), FadeDuty(target.blue, i));
      red.SetDutyHw(d.red);
      blue.SetDutyHw(d.blue);
      steps := steps + [d];
    }
    forall k, l | 0 <= k <= l < |steps|
      ensures steps[k].red <= steps[l].red && steps[k].blue <= steps[l].blue
    {
      FadeMonotone(target.red, k + 1, l + 1);
      FadeMonotone(target.blue, k + 1, l + 1);
    }
  }

  /**
   * One turn of `led_task`'s loop: when the light state has changed since
   * the watcher last caught up, both channels are set from the new value;
   * otherwise the read stays pending and the channels keep their duty.
   */
  method LedStep(watcher: Watcher<LightState>, red: Channel, blue: Channel, waker: WakerId)
    returns (r: Option<Duties>)
    requires watcher.Valid() && red != blue
    modifies watcher, watcher.synchronizer`wakers, red, blue
    ensures watcher.Valid()
    ensures r.Some? <==> old(watcher.lastCounter) < watcher.synchronizer.counter
    ensures r.Some? ==> r.value == ColorDuties(watcher.synchronizer.value)
                        && red.duty == r.value.red && blue.duty == r.value.blue
    ensures r.None? ==> red.duty == old(red.duty) && blue.duty == old(blue.duty)
  {
    var message := watcher.Poll(waker);
    if message.None? {
      return None;
    }
    var d := ColorDuties(message.value);
    red.SetDutyHw(d.red);
    blue.SetDutyHw(d.blue);
    r := Some(d);
  }
}
