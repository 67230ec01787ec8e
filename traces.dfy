/** Interrupts and main-loop passes interleave in any order; here an
    execution is a sequence of discrete events, and the lemmas state what
    holds along every such sequence. */
module Traces {
  import opened Mapping
  import opened Joystick

  /** A button interrupt on pin `gpio` at clock `usSinceBoot`, or one pass
      of the main loop with ADC readings `x` and `y`. */
  datatype Event = Irq(gpio: U32, usSinceBoot: nat) | Tick(x: Reading, y: Reading)

  function Step(g: Globals, e: Event): (r: Globals)
    ensures e.Tick? ==> r.lastInterruptTime == g.lastInterruptTime &&
                        r.isLedActive == g.isLedActive && r.greenLed == g.greenLed
    ensures e.Irq? && e.gpio != ButtonAPin && e.gpio != JoystickButtonPin ==>
              r.isLedActive == g.isLedActive && r.greenLed == g.greenLed &&
              r.redLevel == g.redLevel && r.blueLevel == g.blueLevel
    ensures LevelsInRange(g) ==> LevelsInRange(r)
  {
    match e
    case Irq(gpio, t) => OnIrq(g, gpio, Truncate32(t))
    case Tick(x, y) => AfterLoop(g, x, y)
  }

  /** The state after the events `evs`, the first one first. Loop passes
      alone never touch what only the handler writes. */
  function Run(g: Globals, evs: seq<Event>): (r: Globals)
    ensures (forall i :: 0 <= i < |evs| ==> evs[i].Tick?) ==>
              r.lastInterruptTime == g.lastInterruptTime &&
              r.isLedActive == g.isLedActive && r.greenLed == g.greenLed
    decreases |evs|
  {
    if evs == [] then g else Run(Step(g, evs[0]), evs[1..])
  }

  /** An interrupt from one of the two buttons, the only pins the
      firmware registers the handler for. */
  predicate IsButtonIrq(e: Event) {
    e.Irq? && (e.gpio == ButtonAPin || e.gpio == JoystickButtonPin)
  }

  /** Both PWM levels lie within the counter top of their slice. */
  predicate LevelsInRange(g: Globals) {
    g.redLevel <= PwmWrap && g.blueLevel <= PwmWrap
  }

  /** Every level ever written lies within PWM_WRAP. */
  lemma {:induction false} RunKeepsLevelsInRange(g: Globals, evs: seq<Event>)
    requires LevelsInRange(g)
    ensures LevelsInRange(Run(g, evs))
    decreases |evs|
  {
    if evs != [] {
      RunKeepsLevelsInRange(Step(g, evs[0]), evs[1..]);
    }
  }

  /** In particular, from the state after setup, in any interleaving. */
  lemma LevelsAlwaysInRange(evs: seq<Event>)
    ensures LevelsInRange(Run(Boot, evs))
  {
    RunKeepsLevelsInRange(Boot, evs);
  }

  /** A burst of interrupts (a bouncing contact) that all come within the
      debounce window of the last accepted one changes nothing at all. */
  lemma {:induction false} BounceSuppressed(g: Globals, evs: seq<Event>)
    requires forall i :: 0 <= i < |evs| ==>
               evs[i].Irq? &&
               Elapsed(Truncate32(evs[i].usSinceBoot), g.lastInterruptTime) <= DebounceUs
    ensures Run(g, evs) == g
    decreases |evs|
  {
    if evs != [] {
      assert Step(g, evs[0]) == g;
      BounceSuppressed(g, evs[1..]);
    }
  }

  /** Running `evs[..i + 1]` is taking the first step and then running
      the next `i` events. */
  lemma RunPrefix(g: Globals, evs: seq<Event>, i: nat)
    requires i < |evs|
    ensures Run(g, evs[..i + 1]) == Run(Step(g, evs[0]), evs[1..][..i])
  {
    assert evs[..i + 1][0] == evs[0];
    assert evs[..i + 1][1..] == evs[1..][..i];
  }

  /** While the LEDs are off, they stay off and their levels stay frozen
      through main-loop passes, interrupts from any other pin, and button
      interrupts that the debounce rejects in the state they arrive in
      (the bounce of a press); only an accepted button press ends this. */
  lemma {:induction false} LevelsFrozenWhileInactive(g: Globals, evs: seq<Event>)
    requires !g.isLedActive
    requires forall i :: 0 <= i < |evs| && IsButtonIrq(evs[i]) ==>
               !Accepts(Run(g, evs[..i]), Truncate32(evs[i].usSinceBoot))
    ensures var r := Run(g, evs);
            !r.isLedActive && r.greenLed == g.greenLed &&
            r.redLevel == g.redLevel && r.blueLevel == g.blueLevel
    decreases |evs|
  {
    if evs != [] {
      assert evs[..0] == [];
      var h := Step(g, evs[0]);
      assert !h.isLedActive && h.greenLed == g.greenLed;
      assert h.redLevel == g.redLevel && h.blueLevel == g.blueLevel;
      var rest := evs[1..];
      forall i | 0 <= i < |rest| && IsButtonIrq(rest[i])
        ensures !Accepts(Run(h, rest[..i]), Truncate32(rest[i].usSinceBoot))
      {
        RunPrefix(g, evs, i);
        assert rest[i] == evs[i + 1];
      }
      LevelsFrozenWhileInactive(h, rest);
    }
  }

  /** Two accepted presses of button A, with no event between them, give
      the flag back its old value, and both levels are zero afterwards:
      one of the two presses switched the LEDs off. */
  lemma ButtonATwice(g: Globals, t1: U32, t2: U32)
    requires Accepts(g, t1)
    requires Elapsed(t2, t1) > DebounceUs
    ensures var r := OnIrq(OnIrq(g, ButtonAPin, t1), ButtonAPin, t2);
            r.isLedActive == g.isLedActive &&
            r.greenLed == g.greenLed &&
            r.lastInterruptTime == t2 &&
            r.redLevel == 0 && r.blueLevel == 0
  {
  }

  /** A main-loop pass into which the button interrupt falls after the
      flag test at the top of the LED update but before its level writes:
      the writes follow the flag as it was read, not as the handler left
      it. */
  function InterruptedPass(g: Globals, x: Reading, y: Reading, gpio: U32, now: U32): (r: Globals)
    ensures var h := OnIrq(g, gpio, now);
            r.lastInterruptTime == h.lastInterruptTime &&
            r.isLedActive == h.isLedActive && r.greenLed == h.greenLed
    ensures !g.isLedActive ==> r == OnIrq(g, gpio, now)
    ensures g.isLedActive && x != Mid ==> r.blueLevel == Level(x)
    ensures g.isLedActive && y != Mid ==> r.redLevel == Level(y)
    ensures g.isLedActive && x == Mid ==> r.blueLevel == OnIrq(g, gpio, now).blueLevel
    ensures g.isLedActive && y == Mid ==> r.redLevel == OnIrq(g, gpio, now).redLevel
  {
    var h := OnIrq(g, gpio, now);
    if g.isLedActive then
      h.(blueLevel := Updated(h.blueLevel, x), redLevel := Updated(h.redLevel, y))
    else h
  }

  /** Button A turns the LEDs off inside that window: the flag ends false,
      yet both LEDs are left at full level, and no order of the two whole
      steps gives this state. */
  lemma StaleFlagLeavesLedsLit()
    ensures var g := Globals(0, true, false, 0, 0);
            var r := InterruptedPass(g, 0, 0, ButtonAPin, 200001);
            !r.isLedActive && r.blueLevel == 2048 && r.redLevel == 2048 &&
            r != AfterLoop(OnIrq(g, ButtonAPin, 200001), 0, 0) &&
            r != OnIrq(AfterLoop(g, 0, 0), ButtonAPin, 200001)
  {
  }

  /** A main-loop pass into which the button interrupt falls between the
      blue write and the red write: blue was written under the old flag,
      the handler may then clear it, and red is still written under the
      flag as it was read. */
  function InterruptedBetweenWrites(g: Globals, x: Reading, y: Reading, gpio: U32, now: U32): (r: Globals)
    ensures var h := OnIrq(g, gpio, now);
            r.lastInterruptTime == h.lastInterruptTime &&
            r.isLedActive == h.isLedActive && r.greenLed == h.greenLed
    ensures !g.isLedActive ==> r == OnIrq(g, gpio, now)
    ensures g.isLedActive ==>
              r.blueLevel == if Accepts(g, now) && gpio == ButtonAPin then 0 else Updated(g.blueLevel, x)
    ensures g.isLedActive && y != Mid ==> r.redLevel == Level(y)
    ensures g.isLedActive && y == Mid ==> r.redLevel == OnIrq(g, gpio, now).redLevel
  {
    if g.isLedActive then
      var h := OnIrq(g.(blueLevel := Updated(g.blueLevel, x)), gpio, now);
      h.(redLevel := Updated(h.redLevel, y))
    else OnIrq(g, gpio, now)
  }

  /** Button A turns the LEDs off between the two writes: the flag ends
      false with blue dark but red at full level, a state that neither the
      interrupt after the flag test nor either order of the two whole steps
      gives. */
  lemma HalfWrittenPassLeavesRedLit()
    ensures var g := Globals(0, true, false, 0, 0);
            var r := InterruptedBetweenWrites(g, 0, 0, ButtonAPin, 200001);
            !r.isLedActive && r.blueLevel == 0 && r.redLevel == 2048 &&
            r != InterruptedPass(g, 0, 0, ButtonAPin, 200001) &&
            r != AfterLoop(OnIrq(g, ButtonAPin, 200001), 0, 0) &&
            r != OnIrq(AfterLoop(g, 0, 0), ButtonAPin, 200001)
  {
  }

  /** With the handler and the loop pass as whole steps, an accepted press
      of button A that switches the LEDs off holds both levels at 0 until
      the next accepted button press: through loop passes, interrupts from
      other pins and the bounces the debounce rejects. */
  lemma OffPressHoldsLedsDark(g: Globals, t: U32, evs: seq<Event>)
    requires g.isLedActive && Accepts(g, t)
    requires forall i :: 0 <= i < |evs| && IsButtonIrq(evs[i]) ==>
               !Accepts(Run(OnIrq(g, ButtonAPin, t), evs[..i]), Truncate32(evs[i].usSinceBoot))
    ensures var r := Run(OnIrq(g, ButtonAPin, t), evs);
            !r.isLedActive && r.redLevel == 0 && r.blueLevel == 0
  {
    LevelsFrozenWhileInactive(OnIrq(g, ButtonAPin, t), evs);
  }

  /** For instance: the off-press at 200001, its bounce 1000 us later, and
      a pass with the stick pushed fully to one corner leave the LEDs dark. */
  lemma BouncedOffPressStaysDark()
    ensures var g := Globals(0, true, false, 0, 0);
            var r := Run(OnIrq(g, ButtonAPin, 200001), [Irq(ButtonAPin, 201001), Tick(0, 0)]);
            !r.isLedActive && r.redLevel == 0 && r.blueLevel == 0
  {
    var g := Globals(0, true, false, 0, 0);
    var evs := [Irq(ButtonAPin, 201001), Tick(0, 0)];
    var h := OnIrq(g, ButtonAPin, 200001);
    assert evs[..0] == [];
    assert evs[..1] == [evs[0]];
    assert Run(h, evs[..1]) == h;
    OffPressHoldsLedsDark(g, 200001, evs);
  }
}
