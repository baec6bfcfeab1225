/** The d-pad hit test (`VControllerDPad::getInput`).

    A touch inside the pad area is turned into a numeric-keypad style code
    laid out as
        0 1 2
        3 4 5
        6 7 8
    where 4, the center, is never reported. Each axis has a deadzone that
    widens the further the touch lies past the deadzone on the other axis,
    which rounds off the square dead region toward the diagonals. */
module DPadHitTest {
  import opened Geometry

  /** `padArea` is the touch-sensitive square, `deadzone` is in pixels and
      `diagonalSensitivity` divides the widening of the other axis' deadzone. */
  datatype DPad = DPad(padArea: Rect, deadzone: int, diagonalSensitivity: real)

  const NoInput: int := -1

  /** The codes the pad can report: the eight directions and "no input". */
  const Reported: set<int> := {-1, 0, 1, 2, 3, 5, 6, 7, 8}

  /** The deadzone on one axis once the touch lies `other` pixels from the
      center on the other axis. The C++ adds a float increment to an int and
      truncates the sum toward zero. */
  function InflatedDeadzone(deadzone: int, other: int, sensitivity: real): (dz: int)
    requires sensitivity > 0.0
    ensures Abs(other) <= deadzone ==> dz == deadzone
    ensures dz >= deadzone
    ensures deadzone >= 0 && Abs(other) > deadzone ==>
      dz == deadzone + ((Abs(other) - deadzone) as real / sensitivity).Floor
  {
    if Abs(other) > deadzone then
      var inc := (Abs(other) - deadzone) as real / sensitivity;
      assert inc > 0.0;
      TruncReal(deadzone as real + inc)
    else
      deadzone
  }

  /** The touch is past the (widened) horizontal deadzone. */
  predicate PastX(dx: int, dy: int, deadzone: int, sensitivity: real)
    requires sensitivity > 0.0
  {
    Abs(dx) > InflatedDeadzone(deadzone, dy, sensitivity)
  }

  /** The touch is past the (widened) vertical deadzone. */
  predicate PastY(dx: int, dy: int, deadzone: int, sensitivity: real)
    requires sensitivity > 0.0
  {
    Abs(dy) > InflatedDeadzone(deadzone, dx, sensitivity)
  }

  /** The code for a touch at offset (dx, dy) from the pad's center. */
  function DirectionFromOffset(dx: int, dy: int, deadzone: int, sensitivity: real): (code: int)
    requires sensitivity > 0.0
    ensures code in Reported && code != 4
    // inside the square deadzone nothing is reported; comparisons are strict
    ensures Abs(dx) <= deadzone && Abs(dy) <= deadzone ==> code == NoInput
    ensures code == NoInput <==> !PastX(dx, dy, deadzone, sensitivity) && !PastY(dx, dy, deadzone, sensitivity)
    // a diagonal exactly when both widened thresholds are exceeded
    ensures code in {0, 2, 6, 8} <==> PastX(dx, dy, deadzone, sensitivity) && PastY(dx, dy, deadzone, sensitivity)
    // the column follows the horizontal test alone, the sign of dx choosing the side
    ensures code in {2, 5, 8} <==> PastX(dx, dy, deadzone, sensitivity) && dx > 0
    ensures code in {0, 3, 6} <==> PastX(dx, dy, deadzone, sensitivity) && dx <= 0
    // the row follows the vertical test alone, the sign of dy choosing the side
    ensures code in {6, 7, 8} <==> PastY(dx, dy, deadzone, sensitivity) && dy > 0
    ensures code in {0, 1, 2} <==> PastY(dx, dy, deadzone, sensitivity) && dy <= 0
  {
    CodeForThresholds(dx, dy, InflatedDeadzone(deadzone, dy, sensitivity), InflatedDeadzone(deadzone, dx, sensitivity))
  }

  /** The code once both deadzones are known: `dx` past the horizontal one
      picks the column, `dy` past the vertical one the row. */
  function CodeForThresholds(dx: int, dy: int, xDeadzone: int, yDeadzone: int): int
  {
    var pad := if Abs(dx) > xDeadzone then (if dx > 0 then 5 else 3) else 4;
    var pad' := if Abs(dy) > yDeadzone then (if dy > 0 then pad + 3 else pad - 3) else pad;
    if pad' == 4 then NoInput else pad'
  }

  /** `VControllerDPad::getInput`: the code for a touch at `p`. */
  function GetInput(pad: DPad, p: Point): (code: int)
    requires pad.diagonalSensitivity > 0.0
    ensures code in Reported && code != 4
    ensures !Contains(pad.padArea, p) ==> code == NoInput
    ensures Contains(pad.padArea, p) ==>
      code == DirectionFromOffset(p.x - XCenter(pad.padArea), p.y - YCenter(pad.padArea),
                                  pad.deadzone, pad.diagonalSensitivity)
  {
    if Contains(pad.padArea, p) then
      DirectionFromOffset(p.x - XCenter(pad.padArea), p.y - YCenter(pad.padArea),
                          pad.deadzone, pad.diagonalSensitivity)
    else
      NoInput
  }

  /** The code seen in a mirror held along the vertical axis: left and right swap. */
  function MirrorX(code: int): int
  {
    if code == NoInput then NoInput else code - code % 3 + (2 - code % 3)
  }

  /** The code seen in a mirror held along the horizontal axis: top and bottom swap. */
  function MirrorY(code: int): int
  {
    if code == NoInput then NoInput else (2 - code / 3) * 3 + code % 3
  }

  /** The pad is symmetric left to right: negating a non-zero dx mirrors the code. */
  lemma MirrorXSymmetry(dx: int, dy: int, deadzone: int, sensitivity: real)
    requires sensitivity > 0.0
    requires dx != 0
    ensures DirectionFromOffset(-dx, dy, deadzone, sensitivity)
         == MirrorX(DirectionFromOffset(dx, dy, deadzone, sensitivity))
  {
    var xDeadzone := InflatedDeadzone(deadzone, dy, sensitivity);
    var yDeadzone := InflatedDeadzone(deadzone, dx, sensitivity);
    assert InflatedDeadzone(deadzone, -dx, sensitivity) == yDeadzone;
    ThresholdsMirrorX(dx, dy, xDeadzone, yDeadzone);
  }

  /** Negating a non-zero dx swaps the column, whatever the deadzones. */
  lemma ThresholdsMirrorX(dx: int, dy: int, xDeadzone: int, yDeadzone: int)
    requires dx != 0
    ensures CodeForThresholds(-dx, dy, xDeadzone, yDeadzone) == MirrorX(CodeForThresholds(dx, dy, xDeadzone, yDeadzone))
  {
  }

  /** Negating a non-zero dy swaps the row, whatever the deadzones. */
  lemma ThresholdsMirrorY(dx: int, dy: int, xDeadzone: int, yDeadzone: int)
    requires dy != 0
    ensures CodeForThresholds(dx, -dy, xDeadzone, yDeadzone) == MirrorY(CodeForThresholds(dx, dy, xDeadzone, yDeadzone))
  {
  }

  /** The pad is symmetric top to bottom: negating a non-zero dy mirrors the code. */
  lemma MirrorYSymmetry(dx: int, dy: int, deadzone: int, sensitivity: real)
    requires sensitivity > 0.0
    requires dy != 0
    ensures DirectionFromOffset(dx, -dy, deadzone, sensitivity)
         == MirrorY(DirectionFromOffset(dx, dy, deadzone, sensitivity))
  {
    var xDeadzone := InflatedDeadzone(deadzone, dy, sensitivity);
    var yDeadzone := InflatedDeadzone(deadzone, dx, sensitivity);
    assert InflatedDeadzone(deadzone, -dy, sensitivity) == xDeadzone;
    ThresholdsMirrorY(dx, dy, xDeadzone, yDeadzone);
  }

  /** Moving further out along x never switches the horizontal component
      off: once past the horizontal threshold, a touch further from the
      center on the same side stays past it. */
  lemma HorizontalMonotone(dx: int, dx': int, dy: int, deadzone: int, sensitivity: real)
    requires sensitivity > 0.0
    requires 0 < dx <= dx' || dx' <= dx < 0
    requires PastX(dx, dy, deadzone, sensitivity)
    ensures PastX(dx', dy, deadzone, sensitivity)
    ensures DirectionFromOffset(dx', dy, deadzone, sensitivity) % 3
         == DirectionFromOffset(dx, dy, deadzone, sensitivity) % 3
  {
  }
}
