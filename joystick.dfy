/** The firmware's mutable state: the debounce timestamp, the flag that
    says whether the blue and red LEDs are driven, the green LED and the
    two PWM level registers; the button interrupt handler and one pass of
    the main loop, each given first as a function on that state and then
    as a method of the class that holds it. */
module Joystick {
  import opened Mapping

  /** The values of a `uint32_t`. */
  type U32 = v: int | 0 <= v < 0x1_0000_0000

  const Modulus32: int := 0x1_0000_0000

  const ButtonAPin: U32 := 5
  const JoystickButtonPin: U32 := 22

  /** Two interrupts less than this many microseconds apart count once. */
  const DebounceUs: int := 200000

  /** The firmware state as a value. `redLevel` and `blueLevel` are the
      levels last written to the red and blue LED pins. */
  datatype Globals = Globals(
    lastInterruptTime: U32,
    isLedActive: bool,
    greenLed: bool,
    redLevel: U16,
    blueLevel: U16)

  /** The state once setup is done: timestamp 0, LEDs active, green LED
      off, red level 0 and blue level 100. */
  const Boot: Globals := Globals(0, true, false, 0, 100)

  /** The 64-bit microsecond count since boot, stored into a `uint32_t`. */
  function Truncate32(t: nat): (r: U32)
    ensures (t - r) % Modulus32 == 0
  {
    t % Modulus32
  }

  /** Microseconds from `last` to `now` on the wrapping 32-bit clock: the
      amount that, added to `last` with 32-bit wrap-around, gives `now`. */
  function Elapsed(now: U32, last: U32): (e: U32)
    ensures (last + e) % Modulus32 == now
    ensures now >= last ==> e == now - last
  {
    (now - last) % Modulus32
  }

  /** Whether an interrupt at `now` gets past the debounce filter. */
  predicate Accepts(g: Globals, now: U32)
    ensures Accepts(g, now) ==> now != g.lastInterruptTime
    ensures now >= g.lastInterruptTime ==>
              (Accepts(g, now) <==> now - g.lastInterruptTime > DebounceUs)
    ensures now < g.lastInterruptTime ==>
              (Accepts(g, now) <==> now + Modulus32 - g.lastInterruptTime > DebounceUs)
  {
    Elapsed(now, g.lastInterruptTime) > DebounceUs
  }

  /** The state after the button interrupt handler runs for `gpio` at time
      `now`. */
  function OnIrq(g: Globals, gpio: U32, now: U32): (r: Globals)
    ensures !Accepts(g, now) ==> r == g
    ensures Accepts(g, now) ==> r.lastInterruptTime == now
    ensures r.isLedActive != g.isLedActive <==>
              Accepts(g, now) && (gpio == JoystickButtonPin || gpio == ButtonAPin)
    ensures r.greenLed != g.greenLed <==> Accepts(g, now) && gpio == JoystickButtonPin
    ensures (r.redLevel, r.blueLevel) ==
              if Accepts(g, now) && gpio == ButtonAPin && !r.isLedActive then (0, 0)
              else (g.redLevel, g.blueLevel)
  {
    if !Accepts(g, now) then g
    else
      var stamped := g.(lastInterruptTime := now);
      if gpio == JoystickButtonPin then
        stamped.(greenLed := !g.greenLed, isLedActive := !g.isLedActive)
      else if gpio == ButtonAPin then
        var toggled := stamped.(isLedActive := !g.isLedActive);
        if toggled.isLedActive then toggled else toggled.(redLevel := 0, blueLevel := 0)
      else stamped
  }

  /** The state after one pass of the main loop with readings `x` and `y`. */
  function AfterLoop(g: Globals, x: Reading, y: Reading): (r: Globals)
    ensures r.lastInterruptTime == g.lastInterruptTime
    ensures r.isLedActive == g.isLedActive && r.greenLed == g.greenLed
    ensures !g.isLedActive ==> r == g
    ensures g.isLedActive ==>
              r.blueLevel == (if x == Mid then g.blueLevel else Level(x)) &&
              r.redLevel == (if y == Mid then g.redLevel else Level(y))
  {
    if g.isLedActive then
      g.(blueLevel := Updated(g.blueLevel, x), redLevel := Updated(g.redLevel, y))
    else g
  }

  /** The firmware's globals and output registers, updated in place by the
      interrupt handler and the main loop. */
  class Firmware {
    var lastInterruptTime: U32
    var isLedActive: bool
    var greenLed: bool
    var redLevel: U16
    var blueLevel: U16

    function State(): Globals
      reads this
    {
      Globals(lastInterruptTime, isLedActive, greenLed, redLevel, blueLevel)
    }

    /** The state the main loop starts from. */
    constructor ()
      ensures State() == Boot
    {
      lastInterruptTime := 0;
      isLedActive := true;
      greenLed := false;
      redLevel := 0;
      blueLevel := 100;
    }

    /** The button interrupt handler, run for pin `gpio` when the clock
        reads `usSinceBoot`. */
    method HandleIrq(gpio: U32, usSinceBoot: nat)
      modifies this
      ensures State() == OnIrq(old(State()), gpio, Truncate32(usSinceBoot))
    {
      var currentTime := Truncate32(usSinceBoot);
      if Elapsed(currentTime, lastInterruptTime) > DebounceUs {
        lastInterruptTime := currentTime;
        if gpio == JoystickButtonPin {
          greenLed := !greenLed;
          isLedActive := !isLedActive;
        } else if gpio == ButtonAPin {
          isLedActive := !isLedActive;
          if !isLedActive {
            redLevel := 0;
            blueLevel := 0;
          }
        }
      }
    }

    /** One pass of the main loop with ADC readings `x` and `y`: drives the
        LEDs while they are active and returns the rectangles drawn. */
    method LoopStep(x: Reading, y: Reading) returns (frame: seq<Rect>)
      modifies this
      ensures State() == AfterLoop(old(State()), x, y)
      ensures frame == Frame(isLedActive, x, y)
    {
      if isLedActive {
        if x > Mid {
          blueLevel := x - Mid;
        } else if x < Mid {
          blueLevel := Mid - x;
        }
        if y > Mid {
          redLevel := y - Mid;
        } else if y < Mid {
          redLevel := Mid - y;
        }
      }

      var dx := 60 - x * 60 / 4096 - SquareSize / 2;
      var dy := y * 120 / 4096;

      frame := [];
      if !isLedActive {
        frame := frame + [OuterBorder];
      }
      frame := frame + [InnerBorder];
      if dx < 0 {
        frame := frame + [Rect(-dx, dy, SquareSize, SquareSize, true)];
      } else {
        frame := frame + [Rect(dx, dy, SquareSize, SquareSize, true)];
      }
    }
  }
}
