/** Integer window geometry and the C arithmetic the controller code relies on.

    A rectangle is given by its two corners (x, y) and (x2, y2) in window
    pixels; a point on any edge counts as inside it. */
module Geometry {

  datatype Point = Point(x: int, y: int)

  datatype Rect = Rect(x: int, y: int, x2: int, y2: int)

  /** `makeWindowRectRel`: a rectangle from its top-left corner and its size. */
  function RectRel(x: int, y: int, w: int, h: int): (r: Rect)
    ensures r.x == x && r.y == y && r.x2 - r.x == w && r.y2 - r.y == h
  {
    Rect(x, y, x + w, y + h)
  }

  /** `overlaps` of a rectangle and a point: edges inclusive. */
  predicate Contains(r: Rect, p: Point)
  {
    r.x <= p.x <= r.x2 && r.y <= p.y <= r.y2
  }

  /** Every point of `inner` lies in `outer`. */
  predicate Within(inner: Rect, outer: Rect)
  {
    outer.x <= inner.x && inner.x2 <= outer.x2 && outer.y <= inner.y && inner.y2 <= outer.y2
  }

  function Abs(n: int): nat
  {
    if n < 0 then -n else n
  }

  function Min(a: int, b: int): int
  {
    if a <= b then a else b
  }

  function Max(a: int, b: int): int
  {
    if a <= b then b else a
  }

  /** C's `/` on ints with a positive divisor: the quotient is rounded toward zero. */
  function TruncDiv(a: int, b: int): (q: int)
    requires b > 0
    ensures a >= 0 ==> q == a / b && 0 <= a - q * b < b
    ensures a < 0 ==> q <= 0 && -b < a - q * b <= 0
  {
    if a >= 0 then
      a / b
    else
      var q := (-a) / b;
      assert -a == q * b + (-a) % b;
      -q
  }

  /** Conversion of a real to an int as C does it for a float: toward zero. */
  function TruncReal(r: real): (n: int)
    ensures r >= 0.0 ==> n == r.Floor
    ensures r < 0.0 ==> n == -((-r).Floor) && n <= 0
    ensures Abs(n) as real <= (if r < 0.0 then -r else r)
    ensures (if r < 0.0 then -r else r) < Abs(n) as real + 1.0
  {
    if r >= 0.0 then r.Floor else -((-r).Floor)
  }

  /** The horizontal center of a rectangle, `(x + x2) / 2` in C. */
  function XCenter(r: Rect): int
  {
    TruncDiv(r.x + r.x2, 2)
  }

  /** The vertical center of a rectangle, `(y + y2) / 2` in C. */
  function YCenter(r: Rect): int
  {
    TruncDiv(r.y + r.y2, 2)
  }

  const Modulus32: nat := 0x1_0000_0000

  /** The value an unsigned 32-bit `uint` holds for the mathematical result `n`. */
  function Wrap32(n: int): (w: nat)
    ensures w < Modulus32
    ensures 0 <= n < Modulus32 ==> w == n
    ensures (w - n) % Modulus32 == 0
  {
    n % Modulus32
  }

  /** A multiple of a positive number is at least that number away from 0 unless the factor is 0. */
  lemma MulSign(d: int, b: int)
    requires b > 0
    ensures d >= 1 ==> d * b >= b
    ensures d <= -1 ==> d * b <= -b
  {
  }

  /** Division and remainder are determined by any decomposition `q * b + r` with `0 <= r < b`. */
  lemma DivModUnique(a: int, b: int, q: int, r: int)
    requires b > 0 && 0 <= r < b && a == q * b + r
    ensures a / b == q && a % b == r
  {
    var q', r' := a / b, a % b;
    assert (q - q') * b == r' - r;
    MulSign(q - q', b);
  }

  /** For non-negative `a`, `a / b` is the band of width `b` that `a` falls in. */
  lemma DivBand(a: int, b: int)
    requires a >= 0 && b > 0
    ensures (a / b) * b <= a < (a / b + 1) * b
  {
  }

  /** A value at least `k` bands wide has a quotient of at least `k`. */
  lemma DivAtLeast(a: int, b: int, k: nat)
    requires b > 0 && a >= k * b
    ensures a / b >= k
  {
    var q := a / b;
    assert a == q * b + a % b;
    assert (k - q) * b == k * b - q * b;
    MulSign(k - q, b);
  }
}
