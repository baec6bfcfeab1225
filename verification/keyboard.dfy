/** The on-screen keyboard hit test (`VControllerKeyboard::getInput`).

    The keyboard is a grid of four rows of keys of `keyXSize` by `keyYSize`
    pixels. Row 2, and row 1 in the primary mode, sit half a key to the
    right and hold nine keys; the other rows hold ten. A touch is turned
    into the flat index `col + row * cols`, where `cols` is the stride of
    the keyboard's key table. */
module KeyboardHitTest {
  import opened Geometry

  /** `altMode` is the keyboard's `mode != 0` (the secondary key layout). */
  datatype Keyboard = Keyboard(bound: Rect, keyXSize: int, keyYSize: int, altMode: bool, cols: nat)

  datatype Cell = Cell(row: nat, col: nat)

  const NoKey: int := -1

  /** The rows shifted right by half a key. */
  predicate ShiftedRow(altMode: bool, row: nat)
  {
    (!altMode && row == 1) || row == 2
  }

  predicate Sized(kb: Keyboard)
  {
    kb.keyXSize > 0 && kb.keyYSize > 0
  }

  /** A quotient capped at `cap` still marks a band boundary below `a`. */
  lemma CappedBand(a: int, b: int, cap: nat)
    requires a >= 0 && b > 0
    ensures Min(a / b, cap) * b <= a
    ensures Min(a / b, cap) < cap ==> a < (Min(a / b, cap) + 1) * b
  {
    DivBand(a, b);
    if a / b > cap {
      assert cap * b <= (a / b) * b;
    }
  }

  /** The row band of a vertical offset `relY`, the bottom band extending downward. */
  function RowOf(relY: nat, keyYSize: int): (row: nat)
    requires keyYSize > 0
    ensures row <= 3
    ensures row * keyYSize <= relY
    ensures row < 3 ==> relY < (row + 1) * keyYSize
  {
    CappedBand(relY, keyYSize, 3);
    Min(relY / keyYSize, 3)
  }

  /** The column of a shifted row: nine keys half a key in, the end keys extending outward. */
  function ShiftedCol(shiftedX: int, keyXSize: int): (col: nat)
    requires keyXSize > 0
    ensures col <= 8
    ensures col > 0 ==> col * keyXSize <= shiftedX
    ensures col < 8 ==> shiftedX < (col + 1) * keyXSize
  {
    if shiftedX < 0 then
      0
    else
      CappedBand(shiftedX, keyXSize, 8);
      Min(shiftedX / keyXSize, 8)
  }

  /** The column of an unshifted row: ten keys from the left edge, the last extending rightward. */
  function PlainCol(relX: nat, keyXSize: int): (col: nat)
    requires keyXSize > 0
    ensures col <= 9
    ensures col * keyXSize <= relX
    ensures col < 9 ==> relX < (col + 1) * keyXSize
  {
    CappedBand(relX, keyXSize, 9);
    Min(relX / keyXSize, 9)
  }

  /** The key cell under a point inside the keyboard. */
  function KeyCell(kb: Keyboard, p: Point): (c: Cell)
    requires Sized(kb)
    requires Contains(kb.bound, p)
    ensures c.row <= 3
    // the row is the horizontal band holding the point, the last band extending downward
    ensures c.row * kb.keyYSize <= p.y - kb.bound.y
    ensures c.row < 3 ==> p.y - kb.bound.y < (c.row + 1) * kb.keyYSize
    // shifted rows: nine keys offset by half a key, the end keys extending outward
    ensures ShiftedRow(kb.altMode, c.row) ==> c.col <= 8
    ensures ShiftedRow(kb.altMode, c.row) && c.col > 0 ==>
      c.col * kb.keyXSize <= p.x - kb.bound.x - kb.keyXSize / 2
    ensures ShiftedRow(kb.altMode, c.row) && c.col < 8 ==>
      p.x - kb.bound.x - kb.keyXSize / 2 < (c.col + 1) * kb.keyXSize
    // other rows: ten keys from the left edge, the last key extending rightward
    ensures !ShiftedRow(kb.altMode, c.row) ==> c.col <= 9
    ensures !ShiftedRow(kb.altMode, c.row) ==> c.col * kb.keyXSize <= p.x - kb.bound.x
    ensures !ShiftedRow(kb.altMode, c.row) && c.col < 9 ==>
      p.x - kb.bound.x < (c.col + 1) * kb.keyXSize
  {
    var relX := p.x - kb.bound.x;
    var relY := p.y - kb.bound.y;
    var row: nat := relY / kb.keyYSize;
    if ShiftedRow(kb.altMode, row) then
      assert row == RowOf(relY, kb.keyYSize);
      Cell(row, ShiftedCol(relX - kb.keyXSize / 2, kb.keyXSize))
    else
      Cell(RowOf(relY, kb.keyYSize), PlainCol(relX, kb.keyXSize))
  }

  /** The flat key index of a cell. */
  function KeyIndex(cols: nat, c: Cell): nat
  {
    c.col + c.row * cols
  }

  /** `VControllerKeyboard::getInput`: the flat index of the key under `p`, or -1. */
  function GetInput(kb: Keyboard, p: Point): (idx: int)
    requires Sized(kb)
    ensures !Contains(kb.bound, p) <==> idx == NoKey
    ensures Contains(kb.bound, p) ==> idx == KeyIndex(kb.cols, KeyCell(kb, p))
    ensures idx <= 9 + 3 * kb.cols
  {
    if Contains(kb.bound, p) then
      var c := KeyCell(kb, p);
      assert c.row * kb.cols <= 3 * kb.cols;
      KeyIndex(kb.cols, c)
    else
      NoKey
  }

  /** With a stride of at least ten the flat index is unambiguous: row and
      column are recovered by division and remainder. */
  lemma {:induction false} KeyIndexDecodes(kb: Keyboard, p: Point)
    requires Sized(kb) && kb.cols >= 10
    requires Contains(kb.bound, p)
    ensures GetInput(kb, p) / kb.cols == KeyCell(kb, p).row
    ensures GetInput(kb, p) % kb.cols == KeyCell(kb, p).col
  {
    var c := KeyCell(kb, p);
    DivModUnique(GetInput(kb, p), kb.cols, c.row, c.col);
  }

  /** Two points inside the keyboard get the same index exactly when they fall in the same cell. */
  lemma SameKeyIffSameCell(kb: Keyboard, p: Point, q: Point)
    requires Sized(kb) && kb.cols >= 10
    requires Contains(kb.bound, p) && Contains(kb.bound, q)
    ensures GetInput(kb, p) == GetInput(kb, q) <==> KeyCell(kb, p) == KeyCell(kb, q)
  {
    KeyIndexDecodes(kb, p);
    KeyIndexDecodes(kb, q);
  }

  /** The top-left corner of the keyboard is key 0. */
  lemma TopLeftIsKeyZero(kb: Keyboard)
    requires Sized(kb)
    requires kb.bound.x <= kb.bound.x2 && kb.bound.y <= kb.bound.y2
    ensures GetInput(kb, Point(kb.bound.x, kb.bound.y)) == 0
  {
  }

  /** A touch in the bottom row beyond the tenth column is key `9 + 3 * cols`,
      however far below or to the right of the grid it lies. */
  lemma BottomRightClamps(kb: Keyboard, p: Point)
    requires Sized(kb)
    requires Contains(kb.bound, p)
    requires p.y - kb.bound.y >= 3 * kb.keyYSize
    requires p.x - kb.bound.x >= 9 * kb.keyXSize
    ensures GetInput(kb, p) == 9 + 3 * kb.cols
  {
    DivAtLeast(p.y - kb.bound.y, kb.keyYSize, 3);
    DivAtLeast(p.x - kb.bound.x, kb.keyXSize, 9);
  }
}
