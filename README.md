# Joystick firmware model

A Dafny model of the logic inside a Raspberry Pi Pico firmware. The
firmware reads a two-axis analog joystick and drives the blue and red LEDs
with PWM levels that follow how far the stick is pushed. It draws a square
that marks the stick position on a 128x64 SSD1306 OLED. Two buttons are
wired to one falling-edge interrupt handler. The joystick's own button
toggles the green LED. Button A switches the blue and red LEDs off and on.
Either button also toggles the shared `is_led_active` flag. The handler
debounces with a 200 ms window on a wrapping 32-bit microsecond clock.

The model has three modules:

- `Mapping` (`mapping.dfy`) holds the pure arithmetic of the main loop.
  A reading is turned into an LED level, the distance from the centre 2048.
  A reading is also turned into the square's row offset `Dx` and column
  `Dy`, and each pass gives a list of rectangle requests (`Frame`).
  It also proves that `Dx` and `Dy` are monotone and can be inverted up to
  the truncation of their divisions. Every rectangle lies on the panel.
- `Joystick` (`joystick.dfy`) holds the firmware state. `Globals` is the
  state as a value. `OnIrq` gives the state after the interrupt handler and
  `AfterLoop` the state after one main-loop pass; these two functions are
  the specification. The class `Firmware` keeps the same state in fields.
  Its imperative `HandleIrq` and `LoopStep` are proved to follow the two
  functions.
- `Traces` (`traces.dfy`) treats an execution as any sequence of
  interrupts and loop passes. It proves what holds along every sequence:
  levels stay within `PWM_WRAP`; contact bounce inside the debounce window
  changes nothing; while the LEDs are off, the levels stay frozen until an
  accepted button press. These hold when each interrupt falls between
  whole loop passes. A pass that the interrupt splits is modelled
  separately (`InterruptedPass`, `InterruptedBetweenWrites`), and such a
  pass breaks the last property (see Findings).

Modelling choices:

- The `redLevel` and `blueLevel` fields are the levels last written to
  the red and blue LED pins. They are not the C globals `red_led_level`
  and `blue_led_level`, which are read only once, at setup
  (joystick.c:82, 89). After setup the level registers hold 0 and 100.
- `greenLed` is the level driven on the green LED pin. Setup drives it
  low (joystick.c:58), and the handler inverts it.
- The clock value is the 64-bit microsecond count since boot.
  `Truncate32` stores it into a `uint32_t`. `Elapsed` is the unsigned 32-bit
  subtraction, which wraps modulo 2^32.
- ADC readings have the subset type `Reading` (0..4095), the range of the
  12-bit converter. Every quotient in `Dx` and `Dy` has non-negative
  operands, so C's truncating `/` and Dafny's `/` agree.
- `inc/ssd1306.h` is not part of this model. `Rect` records the arguments
  of each `ssd1306_rect` call. The first two are taken as top row and left
  column, and the next two as width and height. The fixed border
  `(2, 2, 124, 60)` at joystick.c:183 fits the 128x64 panel only with the
  width third and the height fourth. The border alone does not tell top
  from left. The square does: `dy` reaches 119, and 119 plus 8 cannot be a
  row of a 64-row panel, so `dy` is the column.
- `PWM_WRAP` is 2048, and a reading of 0 writes level 2048
  (joystick.c:25, 163), so levels lie in 0..2048.
- The joystick button toggles the same flag as button A. So it also stops
  the LED updates, and it leaves the LEDs at their last level; the model
  keeps this (`LevelsFrozenWhileInactive`).

## Model

| member | source | states |
|---|---|---|
| `Mapping.Level` | joystick.c:160-169 | the level for a reading is its distance from the centre 2048: at most `PWM_WRAP`, and zero exactly at the centre |
| `Mapping.Updated` | joystick.c:160-164 | after a driven pass the level is that distance for any reading other than 2048, which leaves the old level in place |
| `Mapping.Dx` | joystick.c:174 | for every reading the row offset `60 - x*60/4096 - 4` lies in -3..56 |
| `Mapping.Dy` | joystick.c:175 | for every reading the column `y*120/4096` lies in 0..119 |
| `Mapping.DxNonIncreasing` | joystick.c:174 | pushing the stick further along X never increases the row offset |
| `Mapping.DyNonDecreasing` | joystick.c:175 | pushing the stick further along Y never decreases the column |
| `Mapping.LeastXFor` | joystick.c:174 | every row offset in -3..56 is reached, and the function gives the smallest reading that reaches it |
| `Mapping.LeastYFor` | joystick.c:175 | every column in 0..119 is reached, and the function gives the smallest reading that reaches it |
| `Mapping.DxFiber` | joystick.c:174 | the readings drawn at one row offset form exactly one interval of readings: the mapping is invertible up to truncation |
| `Mapping.DyFiber` | joystick.c:175 | the readings drawn at one column form exactly one interval of readings |
| `Mapping.SquareTop` | joystick.c:187-191 | the square is drawn at row `abs(dx)`, and the 8-pixel square then ends within the 64 rows of the panel |
| `Mapping.Square` | joystick.c:187-191 | the square request is filled, 8 by 8, with its top row the magnitude of `dx` and its left column `dy`, and it lies on the panel |
| `Mapping.Frame` | joystick.c:180-191 | a pass draws the outer border exactly when the LEDs are off; the outer border, when drawn, comes first, then the inner border, and the square last; it draws nothing else (two rectangles when the LEDs are on, three when off); every rectangle lies on the 128x64 panel |
| `Joystick.Truncate32` | joystick.c:95 | the stored time is the microsecond count modulo 2^32 |
| `Joystick.Elapsed` | joystick.c:96 | the elapsed time is the amount that, added to the last timestamp with 32-bit wrap-around, gives the current time; it is the plain difference when there is no wrap |
| `Joystick.Accepts` | joystick.c:96 | an interrupt passes the debounce test when more than 200000 us have passed since the last accepted one: the plain difference when the clock has not wrapped, the difference plus 2^32 when it has; an interrupt at the same instant never passes |
| `Joystick.OnIrq` | joystick.c:94-112 | an interrupt within 200000 us of the last accepted one changes nothing; otherwise it stores the time for any pin; the flag flips exactly when the pin is the joystick button or button A; the green LED flips exactly for the joystick button; both levels become 0 exactly for button A turning the LEDs off, and otherwise are unchanged |
| `Joystick.AfterLoop` | joystick.c:158-171 | a loop pass changes neither the timestamp, nor the flag, nor the green LED; with the LEDs off it changes nothing; with the LEDs on each level independently becomes its own axis's distance from 2048, or stays as it was at exactly 2048 |
| `Joystick.Firmware.constructor` | joystick.c:25-91 | the loop starts with timestamp 0, the LEDs active, the green LED off, red level 0 and blue level 100 |
| `Joystick.Firmware.HandleIrq` | joystick.c:94-112 | the in-place handler leaves the fields equal to `OnIrq` of the old state at the truncated current time |
| `Joystick.Firmware.LoopStep` | joystick.c:146-193 | one in-place loop pass leaves the fields equal to `AfterLoop` of the old state, and returns the rectangles of `Frame` for the current flag and readings |
| `Traces.Step` | joystick.c:125-146 | one event is either the handler or one loop pass: a loop pass leaves the timestamp, the flag and the green LED alone; an interrupt from a pin other than the two buttons changes nothing but the timestamp; no event takes a level above `PWM_WRAP` |
| `Traces.Run` | joystick.c:125-146 | the state after a sequence of handler runs and loop passes, in any order; loop passes alone never touch the timestamp, the flag or the green LED |
| `Traces.RunKeepsLevelsInRange` | joystick.c:159-171 | from a state whose levels are within `PWM_WRAP`, no sequence of interrupts and loop passes writes a level above 2048 |
| `Traces.LevelsAlwaysInRange` | joystick.c:25-26 | from the state after setup, every interleaving keeps both levels within `PWM_WRAP` |
| `Traces.BounceSuppressed` | joystick.c:95-97 | any burst of interrupts within the debounce window of the last accepted one leaves the whole state unchanged |
| `Traces.LevelsFrozenWhileInactive` | joystick.c:159 | while the LEDs are off, loop passes, interrupts from other pins and button interrupts that the debounce rejects in the state they arrive in keep the flag off and the green LED and both levels unchanged |
| `Traces.ButtonATwice` | joystick.c:103-108 | two accepted presses of button A restore the flag and leave both levels at 0 |
| `Traces.InterruptedPass` | joystick.c:159-169 | a pass interrupted after its flag test keeps the handler's timestamp, flag and green LED; under the flag as it was read, each level becomes its reading's distance from 2048, or keeps what the handler left at exactly 2048 |
| `Traces.StaleFlagLeavesLedsLit` | joystick.c:159-169 | an off-press of button A inside that window ends with the flag false and both levels at 2048, a state that neither order of the two whole steps produces |
| `Traces.InterruptedBetweenWrites` | joystick.c:159-169 | a pass interrupted between the blue and the red write keeps the handler's timestamp, flag and green LED; blue is the pass's value unless an accepted button A zeroed it; red is its reading's distance from 2048, or what the handler left at exactly 2048 |
| `Traces.HalfWrittenPassLeavesRedLit` | joystick.c:161-169 | an off-press of button A between the two writes ends with the flag false, blue at 0 and red at 2048, a state that no other split or order produces |
| `Traces.OffPressHoldsLedsDark` | joystick.c:103-108 | when the handler and the pass are whole steps, an off-press of button A keeps both levels at 0 until the next accepted button press: through loop passes, other interrupts and the rejected bounces |
| `Traces.BouncedOffPressStaysDark` | joystick.c:95-108 | an off-press, its rejected bounce 1000 us later and a pass at full deflection leave the LEDs dark |

## Left out

- Peripheral setup and register access are left out: `gpio_init`, `adc_init`, `adc_select_input`, `adc_read`, the `pwm_set_*` calls and the I2C/SSD1306 initialisation (joystick.c:55-91, 117-140, 148-154). They are hardware side effects behind SDK calls. ADC readings and the clock are method parameters, and the PWM levels and the green LED are plain fields.
- The SSD1306 driver is left out: clearing, pixel drawing and transmission (`ssd1306_fill`, `ssd1306_send_data`). The model records only which rectangles are requested, and it drops the constant pixel-value argument `1`.
- `printf`, `sleep_us` and `sleep_ms` are diagnostic output and delays, so they are left out.
- `PWM_DIVIDER` is a floating-point clock divider that only goes to hardware, so it is left out.
- The interrupt can preempt the main loop at any point. `Traces.Run` treats interrupts and loop passes as whole, discrete steps in any order, so `LevelsFrozenWhileInactive` and `OffPressHoldsLedsDark` hold only for executions in which no interrupt lands inside a pass. Inside the LED update, two split points are modelled (see Findings). `Traces.InterruptedPass` is an interrupt after the flag test at joystick.c:159 and before both writes. `Traces.InterruptedBetweenWrites` is an interrupt after the blue write (161/163) and before the red write (167/169). Suppose button A turns the LEDs off at one of these points. At the first point both LEDs stay lit for readings other than 2048. At the second, the handler's zero replaces the blue write, so only red stays lit (for y other than 2048). Either way the flag is then false, so no later pass corrects the lit LED, and it stays lit while off. An interrupt between the LED update and the border drawing of one pass is not modelled.
- The handler's `events` argument is never read, so it is not modelled.
- `BUTTON_B_PIN`, the `ButtonState` enum and the slice-number globals are never used by the logic, so they are not modelled.
- The green LED is modelled as the level the firmware last drove. The model assumes `gpio_get` on that output pin reads back that level.

## Findings

| source | as written | input that shows it | evidently intended | confidence | as-written member | corrected member |
|---|---|---|---|---|---|---|
| joystick.c:159-169 | the loop tests `is_led_active` once, then writes both levels, with the button interrupt enabled throughout | LEDs on, levels 0, x = y = 0; button A accepted after the test at line 159 and before the writes at lines 161-169 | once button A turns the LEDs off, they stay dark until the next toggle | not executed | `Traces.StaleFlagLeavesLedsLit` | `Traces.OffPressHoldsLedsDark` |
| joystick.c:161-169 | the red level is written under the flag tested before the blue write | LEDs on, levels 0, x = y = 0; button A accepted between the blue write at line 163 and the red write at line 169 | once button A turns the LEDs off, they stay dark until the next toggle | not executed | `Traces.HalfWrittenPassLeavesRedLit` | `Traces.OffPressHoldsLedsDark` |
