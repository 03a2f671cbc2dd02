/**
 * Clamp-and-scale maps from a simulated voltage to an actuator duty value
 * (2Dcells.c:9-11, 66-78). Voltages are modelled as reals; the C conversion
 * of a non-negative double to int truncates, which is `.Floor` here.
 */
module OutputMap {
  import opened Wrappers
  import opened Index

  /** The two output modes `writeV` dispatches on: `PWM` (1) for LEDs and shape-memory
      alloy, `smotor` (2) for servo motors, which run inverted. */
  datatype Mode = Pwm | ServoMotor

  /** The mode numbers of 2Dcells.c:10-11; any other number selects no output at all. */
  function ModeOf(code: int): (m: Option<Mode>)
    ensures m.Some? <==> code == 1 || code == 2
    ensures m == Some(Pwm) <==> code == 1
  {
    if code == 1 then Some(Pwm) else if code == 2 then Some(ServoMotor) else None
  }

  /** `val` limited to `[0, 1.25]`. */
  function Clamp(val: real): (c: real)
    ensures 0.0 <= c <= 1.25
    ensures 0.0 <= val <= 1.25 ==> c == val
  {
    if val > 1.25 then 1.25 else if val < 0.0 then 0.0 else val
  }

  /** `pwmmap` (2Dcells.c:67-74): the clamped voltage scaled linearly onto `[0, range]`,
      rounded down. `range` is the device resolution `PWMrange`. */
  function PwmMap(val: real, range: nat): (r: int)
    ensures 0 <= r <= range
    ensures val <= 0.0 ==> r == 0
    ensures val >= 1.25 ==> r == range
    ensures (r as real) * 1.25 <= Clamp(val) * (range as real) < (r as real + 1.0) * 1.25
  {
    ScaledFloor(Clamp(val), range);
    ((Clamp(val) / 1.25) * (range as real)).Floor
  }

  /** Truncating the scaled value stays in `[0, range]`, and brackets `c * range`
      between consecutive multiples of the saturation voltage. */
  lemma ScaledFloor(c: real, range: nat)
    requires 0.0 <= c <= 1.25
    ensures var r := ((c / 1.25) * (range as real)).Floor;
      && 0 <= r <= range
      && (c == 0.0 ==> r == 0)
      && (c == 1.25 ==> r == range)
      && (r as real) * 1.25 <= c * (range as real) < (r as real + 1.0) * 1.25
  {
    var k := range as real;
    ScaleMonotone(0.0, c, k);
    ScaleMonotone(c, 1.25, k);
  }

  /** `smmap` (2Dcells.c:76-78): the servo output, `range` minus the PWM output. */
  function SmMap(val: real, range: nat): (r: int)
    ensures 0 <= r <= range
    ensures val <= 0.0 ==> r == range
    ensures val >= 1.25 ==> r == 0
    ensures r + PwmMap(val, range) == range
  {
    range - PwmMap(val, range)
  }

  /** The value `writeV` sends for one channel in the given mode. */
  function MapFor(mode: Mode, val: real, range: nat): (r: int)
    ensures 0 <= r <= range
  {
    match mode
    case Pwm => PwmMap(val, range)
    case ServoMotor => SmMap(val, range)
  }

  lemma ClampMonotone(a: real, b: real)
    requires a <= b
    ensures Clamp(a) <= Clamp(b)
  {
  }

  /** A higher voltage never gives a lower PWM output. */
  lemma PwmMapMonotone(a: real, b: real, range: nat)
    requires a <= b
    ensures PwmMap(a, range) <= PwmMap(b, range)
  {
    var k := range as real;
    ClampMonotone(a, b);
    ScaleMonotone(Clamp(a) / 1.25, Clamp(b) / 1.25, k);
    FloorMonotone((Clamp(a) / 1.25) * k, (Clamp(b) / 1.25) * k);
  }

  /** Truncation toward negative infinity preserves order. */
  lemma FloorMonotone(x: real, y: real)
    requires x <= y
    ensures x.Floor <= y.Floor
  {
  }

  /** A higher voltage never gives a higher servo output. */
  lemma SmMapAntitone(a: real, b: real, range: nat)
    requires a <= b
    ensures SmMap(a, range) >= SmMap(b, range)
  {
    PwmMapMonotone(a, b, range);
  }
}
