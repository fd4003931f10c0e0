/**
 Hardware fades of ledc.c: the set-up and the interrupt handler program runs of at most 1023 steps
 until the target duty is reached.
 */
module LedcFade {

  const LEDC_STEP_NUM_MAX := 1023
  const FIELD := 1024          // the step, cycle and scale fields have ten bits

  /** The duty and fade registers of a channel. */
  datatype Conf = Conf(duty: nat, inc: bool, num: nat, cycle: nat, scale: nat)

  /** The fade record of a channel. */
  datatype Record = Record(target: nat, inc: bool, scale: nat, cycle: nat)

  function Distance(a: nat, b: nat): nat {
    if a > b then a - b else b - a
  }

  /** `d` lies on the way from a to b. */
  predicate OnWay(a: nat, b: nat, d: nat) {
    a <= d <= b || b <= d <= a
  }

  /** How far a number of steps goes. */
  function Span(steps: nat, scale: nat): nat {
    steps * scale
  }

  /** The programmed run does not pass the target. */
  ghost predicate Short(c: Conf, target: nat) {
    if c.inc then c.duty + Span(c.num, c.scale) <= target else target + Span(c.num, c.scale) <= c.duty
  }

  /** The number of steps of a run over `delta`. */
  function Steps(delta: nat, scale: nat): nat
    requires scale > 0
  {
    if delta / scale > LEDC_STEP_NUM_MAX then LEDC_STEP_NUM_MAX else delta / scale
  }

  /** As many steps as fit, up to 1023, stay within the distance, and use it up to less than a step
      unless all 1023 are taken. */
  lemma StepsFit(delta: nat, scale: nat)
    requires scale > 0
    ensures var steps := Steps(delta, scale);
      && steps <= LEDC_STEP_NUM_MAX
      && Span(steps, scale) <= delta
      && (steps > 0 <==> delta >= scale)
      && (steps > 0 ==> Span(steps, scale) >= scale)
      && (steps < LEDC_STEP_NUM_MAX ==> delta < Span(steps, scale) + scale)
  {
    var q := delta / scale;
    var steps := Steps(delta, scale);
    assert q * scale <= delta < q * scale + scale;
    MulMono(steps, q, scale);
    if steps > 0 {
      MulMono(1, steps, scale);
    }
  }

  lemma MulMono(a: nat, b: nat, c: nat)
    requires a <= b
    ensures a * c <= b * c && Span(a, c) <= Span(b, c)
  {
    assert (b - a) * c >= 0;
  }

  lemma SpanFacts(k: nat, scale: nat)
    ensures Span(0, scale) == 0 && Span(k, 0) == 0 && Span(k + 1, scale) == Span(k, scale) + scale
  {
  }

  class Channel {
    const maxDuty: nat

    var rec: Record
    var conf: Conf

    // The hardware: the duty that can be read, and all duties since the set-up.
    var duty: nat
    var visited: seq<nat>

    constructor (maxDuty: nat, duty: nat)
      requires 0 < maxDuty && duty <= maxDuty
      ensures this.maxDuty == maxDuty && this.duty == duty
    {
      this.maxDuty, this.duty := maxDuty, duty;
      rec, conf, visited := Record(0, false, 0, 0), Conf(duty, false, 0, 0, 0), [];
    }

    /** ledc_duty_config: the fields are cut to their width. */
    method DutyConfig(duty: nat, inc: bool, num: nat, cycle: nat, scale: nat)
      modifies `conf
      ensures conf == Conf(duty, inc, num % FIELD, cycle % FIELD, scale % FIELD)
    {
      conf := Conf(duty, inc, num % FIELD, cycle % FIELD, scale % FIELD);
    }

    /** The hardware carries out a programmed run. */
    method Ramp(ghost target: nat)
      requires Short(conf, target)
      modifies `duty, `visited
      ensures var span := Span(conf.num, conf.scale);
        duty == if conf.inc then conf.duty + span else conf.duty - span
      ensures old(visited) <= visited
      ensures forall i | |old(visited)| <= i < |visited| :: OnWay(conf.duty, target, visited[i])
    {
      hide Span;
      SpanFacts(0, conf.scale);
      duty := conf.duty;
      visited := visited + [duty];
      var i := 0;
      while i < conf.num
        invariant i <= conf.num
        invariant duty == if conf.inc then conf.duty + Span(i, conf.scale) else conf.duty - Span(i, conf.scale)
        invariant old(visited) <= visited
        invariant forall k | |old(visited)| <= k < |visited| :: OnWay(conf.duty, target, visited[k])
      {
        SpanFacts(i, conf.scale);
        MulMono(i + 1, conf.num, conf.scale);
        duty := if conf.inc then duty + conf.scale else duty - conf.scale;
        visited := visited + [duty];
        i := i + 1;
      }
    }

    /** _ledc_set_fade_with_step. */
    method SetFadeWithStep(target: nat, scale: nat, cycle: nat)
      requires target <= maxDuty && scale < FIELD && 0 < maxDuty
      modifies this
      ensures rec == Record(target, rec.inc, scale, cycle) && duty == old(duty) && visited == []
      ensures var from := if duty == maxDuty then duty - 1 else duty;
        && (scale > 0 ==> rec.inc == (from <= target))
        && (if conf.num == 0 then conf.duty == target
            else scale > 0 && conf == Conf(from, rec.inc, Steps(Distance(from, target), scale), cycle % FIELD, scale))
      ensures Short(conf, target) && conf.num <= LEDC_STEP_NUM_MAX
    {
      hide Span, Steps;
      visited := [];
      var cur := if duty == maxDuty then duty - 1 else duty;
      var num, inc := 0, false;
      rec := Record(target, rec.inc, scale, cycle);
      if scale > 0 {
        StepsFit(Distance(cur, target), scale);
        if cur > target {
          rec := rec.(inc := false);
          num := Steps(cur - target, scale);
        } else {
          rec := rec.(inc := true);
          inc := true;
          num := Steps(target - cur, scale);
        }
      }
      SpanFacts(0, 0);
      if scale > 0 && num > 0 {
        DutyConfig(cur, inc, num, cycle, scale);
      } else {
        DutyConfig(target, inc, 0, 1, 0);
      }
    }

    /** ledc_fade_isr for this channel, at the end of a run: returns true when the fade is over. */
    method FadeIsr() returns (over: bool)
      requires rec.scale < FIELD
      requires rec.scale > 0 && duty != rec.target ==> rec.inc == (duty < rec.target)
      modifies `conf
      ensures over <==> duty == rec.target || rec.scale == 0
      ensures !over ==> Short(conf, rec.target) && conf.num <= LEDC_STEP_NUM_MAX && conf.inc == rec.inc
      ensures !over ==>
        var delta := Distance(duty, rec.target);
        if delta > rec.scale then
          && conf == Conf(duty, rec.inc, Steps(delta, rec.scale), rec.cycle % FIELD, rec.scale)
          && rec.scale <= Span(conf.num, conf.scale) <= delta
        else conf.duty == rec.target && Span(conf.num, conf.scale) == 0
    {
      hide Span, Steps;
      if duty == rec.target {
        return true;
      }
      if rec.scale == 0 {
        return true;
      }
      var delta := if !rec.inc then duty - rec.target else rec.target - duty;
      var step := Steps(delta, rec.scale);
      StepsFit(delta, rec.scale);
      SpanFacts(1, 0);
      if delta > rec.scale {
        DutyConfig(duty, rec.inc, step, rec.cycle, rec.scale);
      } else {
        DutyConfig(rec.target, rec.inc, 1, 1, 0);
      }
      return false;
    }

    /** A whole fade: it ends at exactly the target, no duty on the way lies beyond it, and each run of
        the interrupt handler brings the duty closer. */
    method Fade(target: nat, scale: nat, cycle: nat)
      requires target <= maxDuty && scale < FIELD && 0 < maxDuty
      modifies this
      ensures duty == target
      ensures var from := if old(duty) == maxDuty then old(duty) - 1 else old(duty);
        forall i | 0 <= i < |visited| :: OnWay(from, target, visited[i])
    {
      hide Span, Steps;
      ghost var from := if duty == maxDuty then duty - 1 else duty;
      if scale > 0 {
        StepsFit(Distance(from, target), scale);
      }
      SetFadeWithStep(target, scale, cycle);
      SpanFacts(0, conf.scale);
      Ramp(target);
      var over := false;
      while !over
        invariant rec.target == target && rec.scale == scale
        invariant scale > 0 && duty != target ==> rec.inc == (duty < target)
        invariant over || scale == 0 ==> duty == target
        invariant OnWay(from, target, duty)
        invariant forall i | 0 <= i < |visited| :: OnWay(from, target, visited[i])
        decreases !over, Distance(duty, target)
      {
        over := FadeIsr();
        if !over {
          Ramp(target);
        }
      }
    }
  }
}
