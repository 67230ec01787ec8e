/** The arithmetic of the firmware's main loop: how one joystick reading
    becomes a PWM level for an LED and a position of the square on the
    128x64 OLED panel. Everything here is integer arithmetic on
    non-negative operands, where C's truncating division agrees with
    Dafny's. */
module Mapping {

  /** A conversion result of the RP2040's 12-bit ADC. */
  type Reading = v: int | 0 <= v < 4096

  /** The values of a `uint16_t`, the type of a PWM level. */
  type U16 = v: int | 0 <= v < 0x1_0000

  /** The reading of a stick at rest. */
  const Mid: int := 2048

  /** The counter top of both PWM slices. */
  const PwmWrap: int := 2048

  /** Side of the square that marks the stick position, in pixels. */
  const SquareSize: int := 8

  const PanelWidth: int := 128
  const PanelHeight: int := 64

  /** The LED level for one axis: how far the reading is from the centre. */
  function Level(v: Reading): (r: U16)
    ensures r == v - Mid || r == Mid - v
    ensures r <= PwmWrap
    ensures r == 0 <==> v == Mid
  {
    if v > Mid then v - Mid else Mid - v
  }

  /** The level an LED holds after one loop pass that drives it: the
      distance of the reading from the centre, except that a reading of
      exactly the centre writes nothing and the old level stays. */
  function Updated(current: U16, v: Reading): (r: U16)
    ensures v == Mid ==> r == current
    ensures v != Mid ==> r == Level(v) && 0 < r <= PwmWrap
  {
    if v == Mid then current else Level(v)
  }

  /** Row offset of the square computed from the X axis (may be negative). */
  function Dx(x: Reading): (r: int)
    ensures -3 <= r <= 56
  {
    60 - x * 60 / 4096 - SquareSize / 2
  }

  /** Column of the square computed from the Y axis. */
  function Dy(y: Reading): (r: int)
    ensures 0 <= r <= 119
  {
    y * 120 / 4096
  }

  lemma DxNonIncreasing(x1: Reading, x2: Reading)
    requires x1 <= x2
    ensures Dx(x2) <= Dx(x1)
  {
  }

  lemma DyNonDecreasing(y1: Reading, y2: Reading)
    requires y1 <= y2
    ensures Dy(y1) <= Dy(y2)
  {
  }

  /** The smallest X reading that places the square at row offset `d`;
      together with DxFiber it shows that Dx is invertible up to the
      truncation of its division. */
  function LeastXFor(d: int): (x: Reading)
    requires -3 <= d <= 56
    ensures Dx(x) == d
    ensures x == 0 || Dx(x - 1) > d
  {
    var q := 60 - SquareSize / 2 - d;
    (q * 4096 + 59) / 60
  }

  /** The smallest Y reading that places the square at column `c`. */
  function LeastYFor(c: int): (y: Reading)
    requires 0 <= c <= 119
    ensures Dy(y) == c
    ensures y == 0 || Dy(y - 1) < c
  {
    (c * 4096 + 119) / 120
  }

  /** The readings drawn at row offset `d` form one interval. */
  lemma DxFiber(x: Reading, d: int)
    requires -3 <= d <= 56
    ensures Dx(x) == d <==> LeastXFor(d) <= x && (d == -3 || x < LeastXFor(d - 1))
  {
  }

  /** The readings drawn at column `c` form one interval. */
  lemma DyFiber(y: Reading, c: int)
    requires 0 <= c <= 119
    ensures Dy(y) == c <==> LeastYFor(c) <= y && (c == 119 || y < LeastYFor(c + 1))
  {
  }

  /** A rectangle request to the display driver: top row, left column,
      width, height and whether it is filled (every request sets pixels). */
  datatype Rect = Rect(top: int, left: int, width: int, height: int, fill: bool)

  /** The outer border, drawn only while the LEDs are switched off. */
  const OuterBorder: Rect := Rect(2, 2, 124, 60, false)

  /** The inner border, drawn on every pass. */
  const InnerBorder: Rect := Rect(3, 3, 122, 58, false)

  predicate OnPanel(r: Rect) {
    0 <= r.top && r.top + r.height <= PanelHeight &&
    0 <= r.left && r.left + r.width <= PanelWidth
  }

  /** The top row of the square: the magnitude of Dx. */
  function SquareTop(x: Reading): (t: nat)
    ensures t == Dx(x) || t == -Dx(x)
    ensures t + SquareSize <= PanelHeight
  {
    var dx := Dx(x);
    if dx < 0 then -dx else dx
  }

  /** The filled square that marks the stick position. */
  function Square(x: Reading, y: Reading): (r: Rect)
    ensures r.fill && r.width == SquareSize && r.height == SquareSize
    ensures r.top == Dx(x) || r.top == -Dx(x)
    ensures r.left == Dy(y)
    ensures OnPanel(r)
  {
    Rect(SquareTop(x), Dy(y), SquareSize, SquareSize, true)
  }

  /** The rectangles one loop pass asks the driver to draw, in order, on
      a cleared frame. */
  function Frame(active: bool, x: Reading, y: Reading): (f: seq<Rect>)
    ensures (OuterBorder in f) <==> !active
    ensures InnerBorder in f
    ensures |f| > 0 && f[|f| - 1] == Square(x, y)
    ensures forall i :: 0 <= i < |f| ==> OnPanel(f[i])
    ensures forall r :: r in f ==> r == OuterBorder || r == InnerBorder || r == Square(x, y)
    ensures |f| == if active then 2 else 3
    ensures !active ==> f[0] == OuterBorder
    ensures f[|f| - 2] == InnerBorder
  {
    (if active then [] else [OuterBorder]) + [InnerBorder, Square(x, y)]
  }
}
