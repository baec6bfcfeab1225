/** Face-button layout (`rowsForButtons`, `setFaceBtnPos`, `layoutBtnRows`,
    `setBaseBtnSize`).

    Buttons are laid out left to right in rows of `btns / rows`, each row
    staggered vertically by `stagger` per button and shifted horizontally by
    `rowShift` for every row it lies above the last one. Offsets are taken
    from the bottom-left corner of the face-button area, y growing upward,
    and all sizes are whole pixels. */
module FaceLayout {
  import opened Geometry
  import opened GamepadHitTest

  /** `rowsForButtons`: one or two rows of face buttons. */
  function RowsForButtons(sys: SystemInput, triggersInline: bool, activeButtons: nat): (rows: nat)
    ensures rows == 1 || rows == 2
    ensures !sys.hasTriggerBtns ==> (rows == 2 <==> activeButtons > 3)
    ensures sys.hasTriggerBtns && triggersInline ==> rows == 2
    ensures sys.hasTriggerBtns && !triggersInline ==> (rows == 2 <==> sys.inputFaceBtns >= 6)
  {
    if !sys.hasTriggerBtns then
      (if activeButtons > 3 then 2 else 1)
    else if triggersInline then
      2
    else if sys.inputFaceBtns < 6 then
      1
    else
      2
  }

  /** The table `a` and row count that `setFaceBtnPos` hands to
      `layoutBtnRows`: the i-th laid-out slot shows face button `a[i]`. */
  datatype Arrangement = Arrangement(table: seq<nat>, rows: nat)

  /** `t` lists each of 0 .. |t|-1 exactly once. */
  predicate IsIndexPermutation(t: seq<nat>)
  {
    && (forall i :: 0 <= i < |t| ==> t[i] < |t|)
    && (forall i, j :: 0 <= i < j < |t| ==> t[i] != t[j])
    && (forall k: nat :: k < |t| ==> k in t)
  }

  /** The reordering tables of `setFaceBtnPos`, per trigger style and button count. */
  function FaceArrangement(sys: SystemInput, triggersInline: bool, activeFaceBtns: nat): (a: Arrangement)
    ensures IsIndexPermutation(a.table)
    ensures |a.table| in {2, 3, 4, 6, 8}
    ensures a.rows in {1, 2} && |a.table| % a.rows == 0
    // the rows follow rowsForButtons when there are no triggers
    ensures !sys.hasTriggerBtns ==> a.rows == RowsForButtons(sys, triggersInline, activeFaceBtns)
    // separate triggers keep their own slots: only the face slots below them are laid out
    ensures sys.hasTriggerBtns && !triggersInline && sys.inputFaceBtns in {4, 6, 8} ==>
      |a.table| == sys.inputFaceBtns - 2
  {
    if !sys.hasTriggerBtns then
      Arrangement(PlainTable(sys.hasRevBtnLayout, activeFaceBtns), RowsForButtons(sys, triggersInline, activeFaceBtns))
    else if triggersInline then
      Arrangement(InlineTriggerTable(sys.inputFaceBtns), 2)
    else
      var t := SeparateTriggerTable(sys.inputFaceBtns);
      Arrangement(t, if |t| == 2 then 1 else 2)
  }

  /** The table for a system without trigger buttons. */
  function PlainTable(revLayout: bool, activeFaceBtns: nat): (t: seq<nat>)
    ensures IsIndexPermutation(t)
    ensures |t| == if activeFaceBtns in {3, 4, 6} then activeFaceBtns else 2
  {
    if activeFaceBtns == 6 then
      if revLayout then
        var t := [0, 1, 2, 3, 4, 5];
        assert t[0] == 0 && t[1] == 1 && t[2] == 2 && t[3] == 3 && t[4] == 4 && t[5] == 5;
        t
      else
        var t := [2, 1, 0, 3, 4, 5];
        assert t[2] == 0 && t[1] == 1 && t[0] == 2 && t[3] == 3 && t[4] == 4 && t[5] == 5;
        t
    else if activeFaceBtns == 4 then
      var t := [0, 1, 2, 3];
      assert t[0] == 0 && t[1] == 1 && t[2] == 2 && t[3] == 3;
      t
    else if activeFaceBtns == 3 then
      var t := [0, 1, 2];
      assert t[0] == 0 && t[1] == 1 && t[2] == 2;
      t
    else
      if revLayout then
        var t := [0, 1];
        assert t[0] == 0 && t[1] == 1;
        t
      else
        var t := [1, 0];
        assert t[1] == 0 && t[0] == 1;
        t
  }

  /** The table for triggers laid out inline with the face buttons. */
  function InlineTriggerTable(inputFaceBtns: nat): (t: seq<nat>)
    ensures IsIndexPermutation(t)
    ensures |t| == if inputFaceBtns in {6, 8} then inputFaceBtns else 4
  {
    if inputFaceBtns == 8 then
      var t := [0, 1, 2, 6, 3, 4, 5, 7];
      assert t[0] == 0 && t[1] == 1 && t[2] == 2 && t[4] == 3 && t[5] == 4 && t[6] == 5 && t[3] == 6 && t[7] == 7;
      t
    else if inputFaceBtns == 6 then
      var t := [1, 0, 5, 3, 2, 4];
      assert t[1] == 0 && t[0] == 1 && t[4] == 2 && t[3] == 3 && t[5] == 4 && t[2] == 5;
      t
    else
      var t := [1, 0, 2, 3];
      assert t[1] == 0 && t[0] == 1 && t[2] == 2 && t[3] == 3;
      t
  }

  /** The face-slot table when the triggers are separate controls. */
  function SeparateTriggerTable(inputFaceBtns: nat): (t: seq<nat>)
    ensures IsIndexPermutation(t)
    ensures |t| == if inputFaceBtns in {6, 8} then inputFaceBtns - 2 else 2
  {
    if inputFaceBtns == 8 then
      var t := [0, 1, 2, 3, 4, 5];
      assert t[0] == 0 && t[1] == 1 && t[2] == 2 && t[3] == 3 && t[4] == 4 && t[5] == 5;
      t
    else if inputFaceBtns == 6 then
      var t := [1, 0, 3, 2];
      assert t[1] == 0 && t[0] == 1 && t[3] == 2 && t[2] == 3;
      t
    else
      var t := [1, 0];
      assert t[1] == 0 && t[0] == 1;
      t
  }

  /** An offset from the face-button area's bottom-left corner. */
  datatype Offset = Offset(x: int, y: int)

  /** The starting height that keeps a downward stagger inside the area. */
  function StaggerBase(btnsPerRow: int, stagger: int): int
  {
    if stagger < 0 then -stagger * (btnsPerRow - 1) else 0
  }

  /** Where the k-th laid-out button sits: row `k / bpr`, column `k % bpr`
      (a single unbroken row when `bpr` is 0). The row shift multiplies the
      unsigned `(rows - 1) - row`. */
  function SlotAt(k: nat, btns: nat, rows: nat, size: int, space: int, rowShift: int, stagger: int): Offset
    requires rows >= 1
  {
    var bpr := btns / rows;
    var r := if bpr == 0 then 0 else k / bpr;
    var c := if bpr == 0 then k else k % bpr;
    Offset(-rowShift * Wrap32(rows - 1 - r) + c * (size + space),
           StaggerBase(bpr, stagger) + r * (size + space) + c * stagger)
  }

  /** The running row and column counters of `layoutBtnRows` name the slot `SlotAt` places. */
  lemma SlotFromCounters(i: nat, btns: nat, rows: nat, size: int, space: int, rowShift: int, stagger: int,
                         row: int, btnPos: int)
    requires rows >= 1
    requires btns / rows == 0 ==> row == 0 && btnPos == i
    requires btns / rows > 0 ==> 0 <= row && 0 <= btnPos < btns / rows && i == row * (btns / rows) + btnPos
    ensures SlotAt(i, btns, rows, size, space, rowShift, stagger)
         == Offset(-rowShift * Wrap32(rows - 1 - row) + btnPos * (size + space),
                   StaggerBase(btns / rows, stagger) + row * (size + space) + btnPos * stagger)
  {
    if btns / rows > 0 {
      DivModUnique(i, btns / rows, row, btnPos);
    }
  }

  /** One more step of a running product. */
  lemma NextMultiple(n: int, step: int)
    ensures (n + 1) * step == n * step + step
  {
  }

  /** `layoutBtnRows`: the slot offsets in laying-out order, computed by the
      running offsets the C++ keeps. */
  method LayoutSlots(btns: nat, rows: nat, size: int, space: int, rowShift: int, stagger: int)
    returns (slots: seq<Offset>)
    requires rows >= 1
    ensures |slots| == btns
    ensures forall k :: 0 <= k < btns ==> slots[k] == SlotAt(k, btns, rows, size, space, rowShift, stagger)
  {
    var btnsPerRow := btns / rows;
    var advance := size + space;
    var row := 0;
    var btnPos := 0;
    var yOffset := StaggerBase(btnsPerRow, stagger);
    var xOffset := -rowShift * Wrap32(rows - 1);
    var staggerOffset := 0;
    slots := [];
    var i := 0;
    while i < btns
      invariant 0 <= i <= btns
      invariant |slots| == i
      invariant forall k :: 0 <= k < i ==> slots[k] == SlotAt(k, btns, rows, size, space, rowShift, stagger)
      invariant btnsPerRow == 0 ==> row == 0 && btnPos == i
      invariant btnsPerRow > 0 ==> 0 <= row && 0 <= btnPos < btnsPerRow && i == row * btnsPerRow + btnPos
      invariant xOffset == -rowShift * Wrap32(rows - 1 - row) + btnPos * advance
      invariant yOffset == StaggerBase(btnsPerRow, stagger) + row * advance
      invariant staggerOffset == btnPos * stagger
    {
      SlotFromCounters(i, btns, rows, size, space, rowShift, stagger, row, btnPos);
      slots := slots + [Offset(xOffset, yOffset + staggerOffset)];
      NextMultiple(btnPos, advance);
      NextMultiple(btnPos, stagger);
      xOffset := xOffset + advance;
      staggerOffset := staggerOffset + stagger;
      btnPos := btnPos + 1;
      if btnPos == btnsPerRow {
        NextMultiple(row, btnsPerRow);
        NextMultiple(row, advance);
        row := row + 1;
        yOffset := yOffset + advance;
        staggerOffset := 0;
        xOffset := -rowShift * Wrap32(rows - 1 - row);
        btnPos := 0;
      }
      i := i + 1;
    }
  }

  /** Pixel width of the face-button area for `btnsPerRow` buttons in `rows`
      rows: the advances of `layoutBtnRows` from a row's first button to its
      last, that last button, and the full row shift. */
  function AreaWidth(btnsPerRow: int, rows: int, size: int, space: int, rowShift: int): (w: int)
    ensures w == (size + space) * (btnsPerRow - 1) + size + Abs(rowShift * (rows - 1))
  {
    StepsAndButton(size, space, btnsPerRow);
    size * btnsPerRow + space * (btnsPerRow - 1) + Abs(rowShift * (rows - 1))
  }

  /** Pixel height of the face-button area: the row advances from the first
      row to the last, the last row, and the full stagger of a row. */
  function AreaHeight(btnsPerRow: int, rows: int, size: int, space: int, stagger: int): (h: int)
    ensures h == (size + space) * (rows - 1) + size + Abs(stagger * (btnsPerRow - 1))
  {
    StepsAndButton(size, space, rows);
    size * rows + space * (rows - 1) + Abs(stagger * (btnsPerRow - 1))
  }

  /** The number of face buttons `setBaseBtnSize` sizes the area for. */
  function AreaBtnCount(sys: SystemInput, triggersInline: bool, activeFaceBtns: nat): (n: nat)
    // all system face buttons but the two trigger slots, or the active ones
    ensures sys.hasTriggerBtns && !triggersInline && 2 <= sys.inputFaceBtns < Modulus32 ==>
      n == sys.inputFaceBtns - 2
    ensures !(sys.hasTriggerBtns && !triggersInline) ==> n == activeFaceBtns
  {
    if sys.hasTriggerBtns && !triggersInline then Wrap32(sys.inputFaceBtns - 2) else activeFaceBtns
  }

  /** `setBaseBtnSize`: the face-button area's width and height in pixels. */
  function FaceAreaSize(sys: SystemInput, triggersInline: bool, activeFaceBtns: nat,
                        size: int, space: int, rowShift: int, stagger: int): Offset
  {
    var btns := AreaBtnCount(sys, triggersInline, activeFaceBtns);
    var rows := RowsForButtons(sys, triggersInline, activeFaceBtns);
    var bpr := btns / rows;
    Offset(AreaWidth(bpr, rows, size, space, rowShift), AreaHeight(bpr, rows, size, space, stagger))
  }

  /** The area is sized for exactly the face buttons the hit test scans. */
  lemma AreaCountsScannedButtons(sys: SystemInput, gp: Gamepad)
    ensures AreaBtnCount(sys, gp.triggersInline, gp.activeFaceBtns) == FaceBtnCount(sys, gp)
  {
  }

  /** A non-negative factor scales a range monotonically. */
  lemma MulMono(t: int, f: int, n: int)
    requires t >= 0 && 0 <= f <= n
    ensures 0 <= t * f <= t * n
  {
    assert t * n - t * f == t * (n - f);
  }

  /** `t` times a factor between 0 and `n` lies between 0 and `t` times `n`. */
  lemma ScaledBetween(t: int, f: int, n: int)
    requires 0 <= f <= n
    ensures Min(0, t * n) <= t * f <= Max(0, t * n)
  {
    if t >= 0 {
      MulMono(t, f, n);
    } else {
      MulMono(-t, f, n);
      assert (-t) * f == -(t * f) && (-t) * n == -(t * n);
    }
  }

  /** `n` buttons of `size` with `n - 1` gaps of `space`, as `n - 1` steps of `size + space` and one button. */
  lemma StepsAndButton(size: int, space: int, n: int)
    ensures (size + space) * (n - 1) + size == size * n + space * (n - 1)
  {
  }

  /** A slot in row `r`, column `c` of a `rows` by `bpr` grid lies inside the width. */
  lemma SlotXFits(r: int, c: int, bpr: int, rows: int, size: int, space: int, rowShift: int)
    requires 0 <= r < rows && 0 <= c < bpr
    requires size >= 0 && space >= 0
    ensures var x := -rowShift * (rows - 1 - r) + c * (size + space);
            var left := Min(0, -rowShift * (rows - 1));
            left <= x && x + size <= left + AreaWidth(bpr, rows, size, space, rowShift)
    ensures rowShift <= 0 ==> Min(0, -rowShift * (rows - 1)) == 0
  {
    if rowShift <= 0 {
      MulMono(-rowShift, rows - 1, rows - 1);
    }
    var w := -rowShift * (rows - 1);
    ScaledBetween(-rowShift, rows - 1 - r, rows - 1);
    assert rowShift * (rows - 1) == -w;
    assert Abs(rowShift * (rows - 1)) == Max(0, w) - Min(0, w);
    MulMono(size + space, c, bpr - 1);
    assert c * (size + space) == (size + space) * c;
    StepsAndButton(size, space, bpr);
  }

  /** The starting height lifts the lowest staggered button to 0. */
  lemma StaggerBaseLifts(bpr: int, stagger: int)
    requires bpr >= 1
    ensures StaggerBase(bpr, stagger) == -Min(0, stagger * (bpr - 1))
  {
    if stagger < 0 {
      MulMono(-stagger, bpr - 1, bpr - 1);
      assert (-stagger) * (bpr - 1) == -(stagger * (bpr - 1));
    } else {
      MulMono(stagger, bpr - 1, bpr - 1);
    }
  }

  /** A slot in row `r`, column `c` of a `rows` by `bpr` grid lies inside the height. */
  lemma SlotYFits(r: int, c: int, bpr: int, rows: int, size: int, space: int, stagger: int)
    requires 0 <= r < rows && 0 <= c < bpr
    requires size >= 0 && space >= 0
    ensures var y := StaggerBase(bpr, stagger) + r * (size + space) + c * stagger;
            0 <= y && y + size <= AreaHeight(bpr, rows, size, space, stagger)
  {
    ScaledBetween(stagger, c, bpr - 1);
    assert c * stagger == stagger * c;
    StaggerBaseLifts(bpr, stagger);
    assert Abs(stagger * (bpr - 1)) == Max(0, stagger * (bpr - 1)) - Min(0, stagger * (bpr - 1));
    MulMono(size + space, r, rows - 1);
    assert r * (size + space) == (size + space) * r;
    StepsAndButton(size, space, rows);
  }

  /** The slots `layoutBtnRows` lays out fit a window of the width and
      height `setBaseBtnSize` computes. Vertically that window is the area
      itself. Horizontally it starts at the leftmost row's start: the area's
      left edge when the row shift is not positive (see
      `PositiveShiftOverhangs` for the other case). */
  lemma {:induction false} SlotFitsArea(k: nat, btns: nat, rows: nat, size: int, space: int, rowShift: int, stagger: int)
    requires 1 <= rows < Modulus32 && rows <= btns && btns % rows == 0
    requires size >= 0 && space >= 0
    requires k < btns
    ensures var s := SlotAt(k, btns, rows, size, space, rowShift, stagger);
            var left := Min(0, -rowShift * (rows - 1));
            && left <= s.x
            && s.x + size <= left + AreaWidth(btns / rows, rows, size, space, rowShift)
            && 0 <= s.y
            && s.y + size <= AreaHeight(btns / rows, rows, size, space, stagger)
    ensures var s := SlotAt(k, btns, rows, size, space, rowShift, stagger);
            rowShift <= 0 ==> 0 <= s.x && s.x + size <= AreaWidth(btns / rows, rows, size, space, rowShift)
  {
    var bpr := btns / rows;
    assert btns == bpr * rows;
    assert bpr >= 1 by {
      MulSign(bpr, rows);
    }
    var r := k / bpr;
    var c := k % bpr;
    assert 0 <= r < rows by {
      assert k == r * bpr + c;
      MulSign(rows - r, bpr);
    }
    assert Wrap32(rows - 1 - r) == rows - 1 - r;
    SlotXFits(r, c, bpr, rows, size, space, rowShift);
    SlotYFits(r, c, bpr, rows, size, space, stagger);
  }

  /** With a positive row shift, the bottom row starts left of the area's
      left edge by the shift times the rows above it, and no slot reaches
      that many pixels at the area's right edge. */
  lemma {:induction false} PositiveShiftOverhangs(btns: nat, rows: nat, size: int, space: int, rowShift: int, stagger: int)
    requires 2 <= rows < Modulus32 && rows <= btns && btns % rows == 0
    requires size >= 0 && space >= 0 && rowShift > 0
    ensures SlotAt(0, btns, rows, size, space, rowShift, stagger).x == -rowShift * (rows - 1) < 0
    ensures forall k :: 0 <= k < btns ==>
      SlotAt(k, btns, rows, size, space, rowShift, stagger).x + size
        <= AreaWidth(btns / rows, rows, size, space, rowShift) - rowShift * (rows - 1)
  {
    MulMono(rowShift, 1, rows - 1);
    assert btns / rows >= 1 by {
      assert btns == (btns / rows) * rows;
      MulSign(btns / rows, rows);
    }
    assert Wrap32(rows - 1) == rows - 1;
    forall k | 0 <= k < btns
      ensures SlotAt(k, btns, rows, size, space, rowShift, stagger).x + size
        <= AreaWidth(btns / rows, rows, size, space, rowShift) - rowShift * (rows - 1)
    {
      SlotFitsArea(k, btns, rows, size, space, rowShift, stagger);
    }
  }

  /** For the configurations the systems use, the tables of `setFaceBtnPos`
      lay out exactly the buttons, in exactly the rows, that `setBaseBtnSize`
      sized the face-button area for. */
  lemma ArrangementMatchesArea(sys: SystemInput, triggersInline: bool, activeFaceBtns: nat)
    requires !sys.hasTriggerBtns ==> activeFaceBtns in {2, 3, 4, 6}
    requires sys.hasTriggerBtns ==> sys.inputFaceBtns in {4, 6, 8} && activeFaceBtns == sys.inputFaceBtns
    ensures |FaceArrangement(sys, triggersInline, activeFaceBtns).table| == AreaBtnCount(sys, triggersInline, activeFaceBtns)
    ensures FaceArrangement(sys, triggersInline, activeFaceBtns).rows == RowsForButtons(sys, triggersInline, activeFaceBtns)
  {
  }

  /** Every slot laid out for a system's face buttons fits the area sized
      for them: vertically always, horizontally from the leftmost row's
      start, which is the area's left edge when the row shift is not positive. */
  lemma FaceBtnsFitArea(sys: SystemInput, triggersInline: bool, activeFaceBtns: nat,
                        size: int, space: int, rowShift: int, stagger: int, k: nat)
    requires !sys.hasTriggerBtns ==> activeFaceBtns in {2, 3, 4, 6}
    requires sys.hasTriggerBtns ==> sys.inputFaceBtns in {4, 6, 8} && activeFaceBtns == sys.inputFaceBtns
    requires size >= 0 && space >= 0
    requires k < |FaceArrangement(sys, triggersInline, activeFaceBtns).table|
    ensures var a := FaceArrangement(sys, triggersInline, activeFaceBtns);
            var s := SlotAt(k, |a.table|, a.rows, size, space, rowShift, stagger);
            var area := FaceAreaSize(sys, triggersInline, activeFaceBtns, size, space, rowShift, stagger);
            var left := Min(0, -rowShift * (a.rows - 1));
            && left <= s.x && s.x + size <= left + area.x
            && 0 <= s.y && s.y + size <= area.y
            && (rowShift <= 0 ==> 0 <= s.x && s.x + size <= area.x)
  {
    var a := FaceArrangement(sys, triggersInline, activeFaceBtns);
    ArrangementMatchesArea(sys, triggersInline, activeFaceBtns);
    SlotFitsArea(k, |a.table|, a.rows, size, space, rowShift, stagger);
  }

  /** The extra touch margin of a face button on one axis: twice the spacing
      when a size multiplier is set, plus the button size times that
      multiplier, the float sum truncated to an int. */
  function ExtraSize(space: int, sizePixels: nat, multiplier: real): (extra: int)
    ensures multiplier == 0.0 ==> extra == space
    ensures space >= 0 && multiplier > 0.0 ==> extra >= 2 * space
    ensures space >= 0 && multiplier > 0.0 ==> extra == 2 * space + (sizePixels as real * multiplier).Floor
  {
    FloorAddInt(space * 2, sizePixels as real * multiplier);
    var buttonSpace := if multiplier != 0.0 then space * 2 else space;
    TruncReal(buttonSpace as real + sizePixels as real * multiplier)
  }

  /** Adding a whole number moves the floor by that number. */
  lemma FloorAddInt(k: int, x: real)
    ensures (k as real + x).Floor == k + x.Floor
  {
  }

  /** The vertical size multiplier used: the single-row one for one row. */
  function ExtraYMultiplier(rows: nat, singleRow: real, multiRow: real): real
  {
    if rows == 1 then singleRow else multiRow
  }

  /** Without trigger buttons, the single-row vertical multiplier is the one
      used exactly when at most three face buttons are shown. */
  lemma SingleRowMultiplierForFewButtons(sys: SystemInput, triggersInline: bool, activeFaceBtns: nat,
                                         singleRow: real, multiRow: real)
    requires !sys.hasTriggerBtns && singleRow != multiRow
    ensures ExtraYMultiplier(RowsForButtons(sys, triggersInline, activeFaceBtns), singleRow, multiRow) == singleRow
      <==> activeFaceBtns <= 3
  {
  }

  /** A face button's touch bound: its drawn rectangle grown by `extraX` and
      `extraY`, half of each (rounded toward zero) on the left and top. */
  function PaddedBound(b: Rect, extraX: int, extraY: int): (r: Rect)
    ensures r.x2 - r.x == b.x2 - b.x + extraX && r.y2 - r.y == b.y2 - b.y + extraY
    ensures extraX >= 0 && extraY >= 0 ==> Within(b, r)
    // the left and top margins are half the extra size, rounded down, so
    // the right and bottom ones are equal or one pixel larger
    ensures extraX >= 0 ==> b.x - r.x == extraX / 2 && 0 <= (r.x2 - b.x2) - (b.x - r.x) <= 1
    ensures extraY >= 0 ==> b.y - r.y == extraY / 2 && 0 <= (r.y2 - b.y2) - (b.y - r.y) <= 1
  {
    RectRel(b.x - TruncDiv(extraX, 2), b.y - TruncDiv(extraY, 2), b.x2 - b.x + extraX, b.y2 - b.y + extraY)
  }

  /** Writing the i-th slot's bound to `bounds[table[i]]`, in order, as
      `layoutBtnRows` does for `faceBtnBound`. */
  function WriteBounds(bounds: seq<Rect>, table: seq<nat>, rects: seq<Rect>): (r: seq<Rect>)
    requires |table| == |rects|
    requires forall i :: 0 <= i < |table| ==> table[i] < |bounds|
    ensures |r| == |bounds|
    ensures forall j :: 0 <= j < |bounds| && j !in table ==> r[j] == bounds[j]
    ensures (forall i, j :: 0 <= i < j < |table| ==> table[i] != table[j]) ==>
      forall i :: 0 <= i < |table| ==> r[table[i]] == rects[i]
    decreases |table|
  {
    if |table| == 0 then
      bounds
    else
      assert forall j :: j in table[1..] ==> j in table;
      WriteBounds(bounds[table[0] := rects[0]], table[1..], rects[1..])
  }

  /** With an arrangement's table, each face bound 0 .. n-1 receives the
      bound of exactly the slot that shows it, and nothing else changes. */
  lemma {:induction false} LayoutWritesEachBoundOnce(sys: SystemInput, triggersInline: bool, activeFaceBtns: nat,
                                                     bounds: seq<Rect>, rects: seq<Rect>)
    requires var a := FaceArrangement(sys, triggersInline, activeFaceBtns);
             |rects| == |a.table| <= |bounds|
    ensures var a := FaceArrangement(sys, triggersInline, activeFaceBtns);
            var r := WriteBounds(bounds, a.table, rects);
            && |r| == |bounds|
            && (forall i :: 0 <= i < |a.table| ==> r[a.table[i]] == rects[i])
            && (forall j :: |a.table| <= j < |bounds| ==> r[j] == bounds[j])
  {
    var a := FaceArrangement(sys, triggersInline, activeFaceBtns);
    assert forall j :: |a.table| <= j < |bounds| ==> j !in a.table;
  }

  /** With separate triggers, laying out the face buttons leaves the two
      trigger bounds as `setLTriggerPos` and `setRTriggerPos` wrote them. */
  lemma {:induction false} LayoutKeepsTriggerBounds(sys: SystemInput, triggersInline: bool, activeFaceBtns: nat,
                                                    bounds: seq<Rect>, rects: seq<Rect>)
    requires sys.hasTriggerBtns && !triggersInline && sys.inputFaceBtns in {4, 6, 8}
    requires sys.inputFaceBtns <= |bounds|
    requires |rects| == |FaceArrangement(sys, triggersInline, activeFaceBtns).table|
    ensures var r := WriteBounds(bounds, FaceArrangement(sys, triggersInline, activeFaceBtns).table, rects);
            r[LTriggerIdx(sys)] == bounds[LTriggerIdx(sys)] && r[RTriggerIdx(sys)] == bounds[RTriggerIdx(sys)]
  {
    LayoutWritesEachBoundOnce(sys, triggersInline, activeFaceBtns, bounds, rects);
  }
}
