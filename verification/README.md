# On-screen virtual controller of EmuFramework, modelled in Dafny

This project models the touch-screen controller that EmuFramework draws over
the emulated game (`VController`), together with two small neighbours.

The controller model covers:

- **The hit tests.**
  - The d-pad turns a touch into one of eight directions. Its deadzone widens toward the diagonals.
  - The on-screen keyboard turns a touch into a flat key index.
  - The center-button and face-button scans report the first two buttons under a touch.
- **The face-button layout.**
  - How many rows the face buttons use.
  - The reordering tables that choose which button occupies each slot.
  - The running offsets of `layoutBtnRows`.
  - The padded touch bounds.
  - The area size `setBaseBtnSize` computes. The model proves every slot lies vertically inside that area. Horizontally, the slots fit a window of the area's width that starts where the leftmost row starts. That is the area's left edge when the row shift is zero or negative. With a positive row shift the bottom rows start left of the area.
- **The aggregator state machine.**
  - `findElementUnderPos` looks in priority order: keyboard, center buttons, face buttons and triggers, then the d-pad.
  - `applyInput` diffs the pair of elements each pointer device holds.
  - `inputAction` handles turbo bookkeeping.
  - Also modelled: `resetInput`, `toggleKeyboard`, the keyboard layout switch, `numElements`, `setState` and `state`.
  - Every call to the emulated system (`EmuSystem::handleInputAction`) is returned as a list of emitted (action, code) pairs.

The two neighbours are:

- The `EmuSystem` helpers: the run-state predicates, the save-slot names, and the game-name fallbacks.
- The file picker's choice of storage root for a path, and its directory-entry filter.

Files:

- `geometry.dfy`: rectangles, points, and C's truncating division and float-to-int conversion. Also the 32-bit unsigned wrap-around.
- `dpad.dfy`, `keyboard.dfy`, `gamepad.dfy`: the hit tests.
- `face_layout.dfy`: the face-button layout.
- `vcontroller.dfy`: the aggregator (module `Aggregator`).
- `emu_system.dfy`: the `EmuSystem` helpers (module `EmuSystemModel`).
- `file_picker.dfy`: `nearestRootLocation` and the picker's filters (module `FilePicker`).
- `wrappers.dfy`: an `Option` type.

Modelling choices:

- **Rectangles.** A rectangle is its two corners `(x, y)` and `(x2, y2)`, and a point on an edge is inside it. `WindowRect::overlaps` is not part of this model, so inclusive edges are an assumption.
- **Constants as inputs.** These values are inputs:
  - the keyboard's column stride `cols`;
  - the element offsets `C_ELEM`, `F_ELEM` and `D_ELEM`;
  - `TURBO_BIT` and `ACTION_MASK`;
  - the action map;
  - the two keyboard key maps.

  The predicate `Aggregator.Valid` states what the controller relies on about them.
- **`diagonalSensitivity`.** It is a positive `real`. Adding the float increment to an `int` deadzone truncates toward zero.
- **Offsets.** Face-button offsets are whole pixels, measured from the face-button area's bottom-left corner (`btnArea.pos(LB2DO)`), with y growing upward.
- **Unsigned arithmetic.** `lTriggerIdx`, `rTriggerIdx` and the row shift `(rows-1)-row` use unsigned arithmetic, which is written out with `Wrap32`.
- **Keyboard `mode`.** It is toggled with `^= true`, so it is modelled as a boolean.
- **Build.** The model follows the gamepad build (`CONFIG_VCONTROLS_GAMEPAD`).
- **`rowsForButtons` with trigger buttons.** It uses one row only when the triggers are separate and the system has fewer than six face buttons (`VController.cc:435`). Inline triggers always take two rows.
- **`applyInput` lookups.** `Input::Event::isPointerPushed` is not part of this model. It is taken to be true whenever the left button is held, drags included, so `applyInput` (`VController.cc:857`) looks elements up for every event with the button held. Only a released button finds nothing.
- **Rectangle helpers.** `IG::WindowRect` is not part of this model, so two of its helpers are assumptions:
  - `xCenter` and `yCenter` are taken to be `(x + x2) / 2` and `(y + y2) / 2`, with C's truncating division;
  - `makeWindowRectRel(pos, size)` is taken to be the rectangle from `pos` to `pos + size`.

## Model

| member | source | states |
|---|---|---|
| Geometry.TruncDiv | EmuFramework/src/VController.cc:417 | C's `/` by a positive divisor rounds toward zero: the remainder has the dividend's sign and is smaller than the divisor |
| Geometry.TruncReal | EmuFramework/src/VController.cc:149 | converting a float sum to `int` drops the fraction toward zero: the floor for a non-negative value, minus the floor of the magnitude for a negative one; the result is within 1 of the value, never farther from 0 |
| Geometry.Wrap32 | EmuFramework/src/VController.cc:341-349 | an unsigned result is the mathematical one modulo 2^32, and equals it when it is in range |
| DPadHitTest.InflatedDeadzone | EmuFramework/src/VController.cc:147-151 | an axis' deadzone is the base deadzone until the touch passes the deadzone on the other axis; then it grows by the excess divided by the sensitivity, rounded down, and it never shrinks |
| DPadHitTest.DirectionFromOffset | EmuFramework/src/VController.cc:146-168 | the code is never the center 4; inside the square deadzone it is -1 (strict comparisons); it is a diagonal exactly when both widened thresholds are passed; the column depends only on the horizontal test and the sign of dx, the row only on the vertical test and the sign of dy |
| DPadHitTest.GetInput | EmuFramework/src/VController.cc:142-171 | a touch outside the pad area gives -1; inside, the direction of its offset from the pad's center; the result is always one of -1,0,1,2,3,5,6,7,8 |
| DPadHitTest.ThresholdsMirrorX | EmuFramework/src/VController.cc:153-168 | with the deadzones fixed, negating a non-zero dx swaps the left and right columns of the code |
| DPadHitTest.ThresholdsMirrorY | EmuFramework/src/VController.cc:153-168 | with the deadzones fixed, negating a non-zero dy swaps the top and bottom rows of the code |
| DPadHitTest.MirrorXSymmetry | EmuFramework/src/VController.cc:153-160 | the pad is left-right symmetric: negating dx swaps left and right in the reported direction |
| DPadHitTest.MirrorYSymmetry | EmuFramework/src/VController.cc:161-167 | the pad is top-bottom symmetric: negating dy swaps the top and bottom rows of the reported direction |
| DPadHitTest.HorizontalMonotone | EmuFramework/src/VController.cc:147-160 | a touch past the horizontal threshold stays past it when moved further out on the same side, and keeps its column |
| KeyboardHitTest.RowOf | EmuFramework/src/VController.cc:226-241 | the row is the band of height keyYSize holding the touch, the bottom row 3 absorbing everything below |
| KeyboardHitTest.ShiftedCol | EmuFramework/src/VController.cc:229-236 | in a half-key-shifted row the column is the key band holding the shifted x, the first key absorbing anything left of it and key 8 anything right |
| KeyboardHitTest.PlainCol | EmuFramework/src/VController.cc:242-244 | in an unshifted row the column is the key band holding x, key 9 absorbing everything to its right |
| KeyboardHitTest.KeyCell | EmuFramework/src/VController.cc:226-245 | the cell under a point: its row band contains the point's height, and its column band contains the point's x, offset by half a key in row 2 and, in the primary mode, row 1 |
| KeyboardHitTest.GetInput | EmuFramework/src/VController.cc:222-251 | -1 exactly for touches outside the keyboard; otherwise the flat index col + row * cols of the cell under the touch, at most 9 + 3 * cols |
| KeyboardHitTest.KeyIndexDecodes | EmuFramework/src/VController.cc:246 | with a stride of at least ten, the flat index gives back the row by division and the column by remainder |
| KeyboardHitTest.SameKeyIffSameCell | EmuFramework/src/VController.cc:246 | two touches give the same key index if and only if they fall in the same cell |
| KeyboardHitTest.TopLeftIsKeyZero | EmuFramework/src/VController.cc:222-251 | the keyboard's top-left corner is key 0 |
| KeyboardHitTest.BottomRightClamps | EmuFramework/src/VController.cc:238-246 | any touch in the bottom band beyond the tenth column is key 9 + 3 * cols |
| GamepadHitTest.LTriggerIdx | EmuFramework/src/VController.cc:341-344 | the left trigger's slot is the unsigned `inputFaceBtns - 2`: that difference from two face buttons up, and wrapped past 2^32 below |
| GamepadHitTest.RTriggerIdx | EmuFramework/src/VController.cc:346-349 | the right trigger's slot is the unsigned `inputFaceBtns - 1`: that difference from one face button up, and 2^32 - 1 for none |
| GamepadHitTest.FaceBtnCount | EmuFramework/src/VController.cc:539 | the face buttons scanned are the active ones, or with separate triggers every slot before the left trigger's |
| GamepadHitTest.TriggerSlotsFollowFaceBtns | EmuFramework/src/VController.cc:341-349 | the trigger slots are the system's last two face-button slots, right after the face buttons scanned when triggers are separate |
| GamepadHitTest.Range | EmuFramework/src/VController.cc:518 | the scan order 0 .. n-1 holds exactly the indices below n, in order |
| GamepadHitTest.FirstTwoHits | EmuFramework/src/VController.cc:514-530 | a scan reports the first two candidates, in scan order, whose bound holds the point, padded with -1; every other hit comes after both |
| GamepadHitTest.GetCenterBtnInput | EmuFramework/src/VController.cc:514-530 | the first two center buttons under the point, each a valid center-button index |
| GamepadHitTest.BtnCandidates | EmuFramework/src/VController.cc:532-575 | the buttons scanned are the shown face buttons, then each shown separate trigger, in increasing slot order |
| GamepadHitTest.GetBtnInput | EmuFramework/src/VController.cc:532-577 | the first two shown face buttons or separate triggers under the point; hidden face buttons and hidden or inline triggers are never reported |
| FaceLayout.RowsForButtons | EmuFramework/src/VController.cc:427-437 | one or two rows: two for more than three buttons without triggers, two for inline triggers, and two for separate triggers only from six face buttons up |
| FaceLayout.FaceArrangement | EmuFramework/src/VController.cc:439-488 | each reordering table is a permutation of its slots, whose length divides evenly into the rows used; without triggers the rows are those of rowsForButtons; separate triggers leave their two slots out |
| FaceLayout.PlainTable | EmuFramework/src/VController.cc:443-459 | the tables without triggers are permutations of 6, 4, 3 or 2 slots, chosen by the active button count |
| FaceLayout.InlineTriggerTable | EmuFramework/src/VController.cc:463-474 | the tables with inline triggers are permutations of 8, 6 or 4 slots |
| FaceLayout.SeparateTriggerTable | EmuFramework/src/VController.cc:475-486 | the tables with separate triggers are permutations of two fewer slots than the system has face buttons |
| FaceLayout.StaggerBaseLifts | EmuFramework/src/VController.cc:390 | the starting height of a row lifts its lowest staggered button to height 0 |
| FaceLayout.StaggerBase | EmuFramework/src/VController.cc:390 | defined as the starting `yOffset`: `-stagger * (bpr - 1)` for a negative stagger, otherwise 0; its meaning is stated by StaggerBaseLifts |
| FaceLayout.SlotAt | EmuFramework/src/VController.cc:389-404 | defined in closed form: the k-th button sits in row k / bpr and column k % bpr (one unbroken row when bpr is 0), at `-rowShift * ((rows - 1) - row)` plus one advance per column across and the stagger base plus one advance per row and one stagger per column up; LayoutSlots proves the loop produces these slots |
| FaceLayout.SlotFromCounters | EmuFramework/src/VController.cc:389-405 | the running row and column counters of the loop name the row k / bpr and column k % bpr of the k-th slot |
| FaceLayout.LayoutSlots | EmuFramework/src/VController.cc:383-406 | the running offsets place the k-th button at column k % bpr of row k / bpr, staggered per column and shifted per row counted from the last row |
| FaceLayout.AreaWidth | EmuFramework/src/VController.cc:500 | the area's width is the advances from a row's first button to its last, that last button, and the whole row shift |
| FaceLayout.AreaHeight | EmuFramework/src/VController.cc:501 | the area's height is the advances from the first row to the last, the last row, and a row's whole stagger |
| FaceLayout.AreaCountsScannedButtons | EmuFramework/src/VController.cc:497 | the area is sized for exactly the face buttons the hit test scans |
| FaceLayout.AreaBtnCount | EmuFramework/src/VController.cc:497 | with separate triggers, all the system's face buttons but the two trigger slots; otherwise the active face buttons |
| FaceLayout.FaceAreaSize | EmuFramework/src/VController.cc:497-502 | defined as AreaWidth and AreaHeight at AreaBtnCount / RowsForButtons buttons per row; its fit is stated by FaceBtnsFitArea |
| FaceLayout.SlotFitsArea | EmuFramework/src/VController.cc:383-405 | every laid-out slot lies vertically inside the area setBaseBtnSize computes; horizontally it lies in a window of the area's width starting at the leftmost row's start, and inside the area itself when the row shift is not positive |
| FaceLayout.PositiveShiftOverhangs | EmuFramework/src/VController.cc:391 | with a positive row shift, the bottom row starts left of the area by the shift times the rows above it, and no slot reaches that far into the area's right edge |
| FaceLayout.ArrangementMatchesArea | EmuFramework/src/VController.cc:497-499 | for the systems' configurations, the reordering table lays out exactly as many buttons, in as many rows, as the area was sized for |
| FaceLayout.FaceBtnsFitArea | EmuFramework/src/VController.cc:497-502 | for the systems' configurations, each face-button slot fits the computed area's height, and its width from the leftmost row's start; with a row shift that is not positive it fits inside the area |
| FaceLayout.ExtraSize | EmuFramework/src/VController.cc:411-414 | the touch margin is the spacing when no size multiplier is set, and otherwise twice the spacing plus the button size times the multiplier, rounded down |
| FaceLayout.SingleRowMultiplierForFewButtons | EmuFramework/src/VController.cc:410 | without trigger buttons, the single-row vertical size multiplier is used exactly when at most three face buttons are shown |
| FaceLayout.ExtraYMultiplier | EmuFramework/src/VController.cc:410 | defined as the single-row multiplier for one row and the multi-row one otherwise; SingleRowMultiplierForFewButtons ties it to the button count |
| FaceLayout.PaddedBound | EmuFramework/src/VController.cc:417-418 | the touch bound is the drawn rectangle grown by the margins, so it contains the drawn rectangle; the left and top margins are half the extra size rounded down, so the right and bottom ones are equal or one pixel larger |
| FaceLayout.WriteBounds | EmuFramework/src/VController.cc:415-418 | writing the slots' bounds through a duplicate-free table sets each listed bound to its slot's bound and leaves every other bound as it was |
| FaceLayout.LayoutWritesEachBoundOnce | EmuFramework/src/VController.cc:393-419 | with a reordering table, face bounds 0 .. n-1 each receive the bound of the slot showing that button, and later bounds are untouched |
| FaceLayout.LayoutKeepsTriggerBounds | EmuFramework/src/VController.cc:475-486 | with separate triggers, laying out the face buttons leaves the two trigger bounds as setLTriggerPos and setRTriggerPos wrote them |
| Aggregator.InputAction | EmuFramework/src/VController.cc:729-754 | one call per action, carrying the key-map entry in keyboard mode and otherwise the masked action-map entry; a turbo entry's code joins the turbo set on a press and leaves it on a release; nothing else changes |
| Aggregator.Code | EmuFramework/src/VController.cc:731-740 | the key-map entry in keyboard mode; otherwise a code with no bit outside the action mask (`map[vBtn] & ACTION_MASK`) |
| Aggregator.IsTurbo | EmuFramework/src/VController.cc:739-741 | defined as "not in keyboard mode and the action-map entry has the turbo bit"; NoTurboInKeyboardMode and InputAction state its effect |
| Aggregator.InKeyboardMode | EmuFramework/src/VController.cc:1046-1049 | defined as "the system has a keyboard and the keyboard mode is on"; FindElementUnderPos and KeyboardModeIgnoresGamepad state what it selects |
| Aggregator.TurboPushThenRelease | EmuFramework/src/VController.cc:738-749 | a turbo press followed by its release leaves the code out of the turbo set |
| Aggregator.ForwardedCodeHasNoTurboBit | EmuFramework/src/VController.cc:739-740 | when the action mask excludes the turbo flag, no forwarded gamepad code carries it |
| Aggregator.Dispatch | EmuFramework/src/VController.cc:863-884 | a series of actions makes one call each, in order, and changes only the turbo set |
| Aggregator.DispatchTurbo | EmuFramework/src/VController.cc:738-749 | after a series of actions, a code is in the turbo set exactly when the last action on a turbo element with that code was a press, or when no action touched such an element and the code was there before |
| Aggregator.ReleasesOnlyRemove | EmuFramework/src/VController.cc:741-750 | a run of releases only removes codes: a code stays in the turbo set exactly when it was there and no released turbo element has it |
| Aggregator.ReleaseAllTurbo | EmuFramework/src/VController.cc:756-767 | releasing every held element drops exactly the codes of the held turbo elements from the turbo set, and in keyboard mode leaves it unchanged |
| Aggregator.NoTurboInKeyboardMode | EmuFramework/src/VController.cc:731-735 | in keyboard mode no held element counts as turbo, since key presses bypass the turbo set |
| Aggregator.TurboAfterStep | EmuFramework/src/VController.cc:738-749 | the turbo outcome of a series is that of the rest of the series from the turbo set its first action leaves |
| Aggregator.ResetInput | EmuFramework/src/VController.cc:756-767 | every slot of every device becomes -1; unless initialising, each held element is released once, device by device, and when initialising nothing is emitted; a non-initialising reset drops from the turbo set exactly the codes of held turbo elements, and in keyboard mode the turbo set is unchanged |
| Aggregator.ResetIsIdempotent | EmuFramework/src/VController.cc:756-767 | a second reset releases nothing and changes nothing |
| Aggregator.ResetReleasesEachHeld | EmuFramework/src/VController.cc:758-766 | every element any device held is released by a reset |
| Aggregator.ToggleKeyboard | EmuFramework/src/VController.cc:789-794 | the keyboard mode flips after every held element is released; the turbo set loses exactly the codes of held turbo elements, and nothing else changes |
| Aggregator.ToggleTwice | EmuFramework/src/VController.cc:789-794 | toggling twice restores the mode, and the second toggle releases nothing |
| Aggregator.ResetIgnoresLayout | EmuFramework/src/VController.cc:811-813 | switching the keyboard layout before the reset does not change what the reset releases |
| Aggregator.SwitchLayout | EmuFramework/src/VController.cc:808-815 | keys 31 and 32 flip the layout, release every device with the old key map's codes, then install the new layout's key map; the turbo set is unchanged, since no element is turbo in keyboard mode |
| Aggregator.KeyboardFind | EmuFramework/src/VController.cc:798-819 | outside the keyboard nothing is found; a fresh press on key 30 toggles the keyboard and on key 31 or 32 switches its layout, both finding nothing; any other key, or those keys when not freshly pressed, is found alone |
| Aggregator.FindElementUnderPos | EmuFramework/src/VController.cc:796-849 | keyboard mode consults only the keyboard; otherwise the gamepad, changing nothing; every element found is an entry of the current table, and a found pair has distinct elements |
| Aggregator.Renumber | EmuFramework/src/VController.cc:827 | hits are shifted into element numbering while -1 stays -1 |
| Aggregator.CenterElems | EmuFramework/src/VController.cc:822-829 | the center scan's hits, each shifted by C_ELEM; they lie in the center-button range and are found exactly when the center scan hits |
| Aggregator.FaceElems | EmuFramework/src/VController.cc:831-837 | the face scan's hits, each shifted by F_ELEM; they lie in the face-button range and are found exactly when the face scan hits |
| Aggregator.DPadElem | EmuFramework/src/VController.cc:839-846 | the d-pad gives at most one element, D_ELEM plus its direction, and none exactly when the pad reports -1 |
| Aggregator.GamepadElems | EmuFramework/src/VController.cc:821-848 | nothing is found exactly when no shown center button, no face button or trigger, and no shown d-pad direction is hit; with no shown center hit and no face hit, a shown d-pad gives the d-pad's element; a found pair is increasing |
| Aggregator.CenterBtnsComeFirst | EmuFramework/src/VController.cc:822-829 | a shown and hit center button wins over everything else: both found elements are the center hits shifted by C_ELEM |
| Aggregator.FaceBeforeDPad | EmuFramework/src/VController.cc:831-837 | with no shown center button hit, a face-button or trigger hit wins over the d-pad: both found elements are the face hits shifted by F_ELEM |
| Aggregator.DPadComesLast | EmuFramework/src/VController.cc:839-846 | a d-pad element is reported only when no shown center button and no face button or trigger is hit |
| Aggregator.KeyboardModeIgnoresGamepad | EmuFramework/src/VController.cc:798-819 | in keyboard mode the gamepad's contents do not affect what is found |
| Aggregator.Diff | EmuFramework/src/VController.cc:862-884 | an element is released exactly when it was held and is no longer touched, and pressed exactly when newly touched; all releases come before all presses |
| Aggregator.DiffSlotBySlot | EmuFramework/src/VController.cc:862-884 | the diff goes slot by slot: a release for each old slot, first slot first, whose element the new pair lacks, then a press for each new slot whose element the old pair lacks |
| Aggregator.DiffHasNoRepeats | EmuFramework/src/VController.cc:862-884 | when neither pair holds one element in both slots, no call is made twice |
| Aggregator.Keep | EmuFramework/src/VController.cc:865 | the actions kept are exactly those whose element is outside the other pair |
| Aggregator.DiffReconciles | EmuFramework/src/VController.cc:862-886 | after the diff, the device holds exactly what it held and did not release, plus what it pressed |
| Aggregator.DiffOfSamePairIsEmpty | EmuFramework/src/VController.cc:862-884 | an unchanged pair makes no calls: a held element is never pressed again |
| Aggregator.ChordFromNothing | EmuFramework/src/VController.cc:862-884 | a device that held nothing and touches two elements presses both, first slot first, and releases nothing |
| Aggregator.Locate | EmuFramework/src/VController.cc:856-858 | with the left button up nothing is found and nothing changes; with it held, the result is that of findElementUnderPos at the event's position |
| Aggregator.ApplyInput | EmuFramework/src/VController.cc:851-887 | the device now holds what was found (nothing when the button is up); other devices keep their pairs unless a keyboard key released everything; out of keyboard mode only the pairs and the turbo set change |
| Aggregator.ApplyFound | EmuFramework/src/VController.cc:862-886 | after the keyboard's own calls come one call per action of the device's diff, releases first; the device then holds the found pair and the other devices are untouched |
| Aggregator.ApplyFoundTurbo | EmuFramework/src/VController.cc:862-884 | after applyInput, a code is in the turbo set exactly when the device's diff last pressed a turbo element with that code, or touched none and the code was there before |
| Aggregator.ApplyInputEmitsDiff | EmuFramework/src/VController.cc:855-886 | the calls of applyInput are those made while finding, followed by one per action of the device's diff |
| Aggregator.LiftReleasesAll | EmuFramework/src/VController.cc:856-870 | lifting the touch releases what the device held, first slot first, and empties its pair |
| Aggregator.ApplyInputUnchanged | EmuFramework/src/VController.cc:862-886 | a device already holding what it finds makes no calls and no change |
| Aggregator.LocateAfterApply | EmuFramework/src/VController.cc:856-858 | out of keyboard mode, the elements found after an event are those the device now holds |
| Aggregator.ApplyInputIsIdempotent | EmuFramework/src/VController.cc:851-887 | out of keyboard mode, repeating an event emits nothing and changes nothing |
| Aggregator.NumElements | EmuFramework/src/VController.cc:929-936 | seven elements exactly when the triggers are separate controls, otherwise five |
| Aggregator.ExtraElementsAreTriggerSlots | EmuFramework/src/VController.cc:535-570 | with seven elements the face scan stops two slots short of the system's face buttons, and the two trigger slots come right after it; with five the face scan covers the active face buttons |
| Aggregator.SetState | EmuFramework/src/VController.cc:992-1017 | the state read back for the element set is the new one; every other element's state, and everything but the states, is unchanged |
| Aggregator.ElementState | EmuFramework/src/VController.cc:1019-1044 | defined as the d-pad, center-button, face-button, menu, fast-forward, left-trigger and right-trigger state for indices 0 to 6; SetState, SetStateRoundTrip and HiddenElementsNotFound state its meaning |
| Aggregator.SetStateRoundTrip | EmuFramework/src/VController.cc:992-1044 | setting an element's state to the one `state` reports changes nothing |
| Aggregator.HiddenElementsNotFound | EmuFramework/src/VController.cc:821-848 | a hidden d-pad reports no d-pad element when the d-pad's elements follow the center and face ones; with the d-pad, center buttons, face buttons and both triggers hidden, the gamepad finds nothing |
| EmuSystemModel.IsActive | EmuFramework/include/emuframework/EmuSystem.hh:163 | active exactly in the ACTIVE state |
| EmuSystemModel.IsStarted | EmuFramework/include/emuframework/EmuSystem.hh:164 | started exactly in the ACTIVE and PAUSED states |
| EmuSystemModel.IsPaused | EmuFramework/include/emuframework/EmuSystem.hh:165 | paused exactly in the PAUSED state |
| EmuSystemModel.StartedIsActiveOrPaused | EmuFramework/include/emuframework/EmuSystem.hh:163-165 | started means active or paused but never both; OFF and STARTING are not started |
| EmuSystemModel.StateNameStr | EmuFramework/include/emuframework/EmuSystem.hh:253-258 | slot -1 is named "Auto" and slots 0 to 9 by their single decimal digit |
| EmuSystemModel.ParseStateName | EmuFramework/include/emuframework/EmuSystem.hh:256 | a parsed name stands for a slot from -1 to 9 |
| EmuSystemModel.StateNameRoundTrip | EmuFramework/include/emuframework/EmuSystem.hh:253-258 | each slot's name parses back to that slot |
| EmuSystemModel.StateNamesDistinct | EmuFramework/include/emuframework/EmuSystem.hh:256 | no two slots share a name |
| EmuSystemModel.CString | EmuFramework/include/emuframework/EmuSystem.hh:73 | the string a character buffer holds is its NUL-free prefix up to the first NUL |
| EmuSystemModel.FullGameName | EmuFramework/include/emuframework/EmuSystem.hh:178 | the full name when it holds a non-empty string, otherwise the short game name |
| EmuSystemModel.GameIsRunning | EmuFramework/include/emuframework/EmuSystem.hh:238-241 | a game runs exactly when its short name is not the empty string |
| EmuSystemModel.RunningGameHasName | EmuFramework/include/emuframework/EmuSystem.hh:178 | while a game runs, the name shown for it is never empty |
| FilePicker.NearestRootLocation | EmuFramework/src/FilePicker.cc:80-103 | a null path, or a path no prefix location covers, gives the empty root; otherwise the root of the location whose path starts the input with the strictly longest root, ties going to the earliest |
| FilePicker.NearestIsUnique | EmuFramework/src/FilePicker.cc:87-98 | at most one location is the nearest, so the chosen root is determined |
| FilePicker.LongerMatchWins | EmuFramework/src/FilePicker.cc:92-96 | a location loses to any prefix match with a longer root |
| FilePicker.AcceptEntry | EmuFramework/src/FilePicker.cc:35-51 | picking a directory lists exactly the directories; picking a file lists an entry exactly when it is a directory outside single-directory mode, an archive the system cannot open itself, or a name the system's filter accepts |
| FilePicker.DirectoriesAlwaysListed | EmuFramework/src/FilePicker.cc:43-44 | outside single-directory mode every directory is listed, whatever the name filter says |
| FilePicker.NoFilterListsOnlyDirectories | EmuFramework/src/FilePicker.cc:43-50 | with no name filter and archives handled by the system, only directories are listed, and only outside single-directory mode |
| FilePicker.FilterOnlyAdds | EmuFramework/src/FilePicker.cc:47-50 | adding a name filter in file mode only ever lists more entries |

## Left out

- Rendering: sprites, textures, `draw`, `updateBoundingAreaGfx`, `setImg`, `updateImg` and the bounding-area graphics only draw.
- The float projection between window pixels and the projection plane (`unProjectRect`, `projectRect`, `unprojectXSize`). Offsets and sizes are whole pixels instead, and slot offsets are relative to the face-button area's bottom-left corner, as `layoutBtnRows` adds them to `btnArea.pos(LB2DO)`.
- The center-button area's size in `setBaseBtnSize`: the center buttons are placed by `setCenterBtnPos`, which is not part of this model, so their bounds are inputs.
- `VControllerKeyboard::place` and the `*1.25`, `*1.5` and `*2.5` sizings: float computations. Key sizes, the pad area and the keyboard bound are inputs.
- Positioning with `setPos`, `fitIn` and `bounds(elemIdx)`: they rely on viewport helpers that are not part of this model.
- `Base::vibrate` on a press: a platform side effect.
- The turbo timer's scheduling: the turbo set records the codes it repeats.
- `init` and `place`: `place` is `resetInput` and `init` ends with `resetInput(1)`, both modelled. Their other work is layout and graphics.
- `updateMapping`: it fills the action map through code that is not part of this model. The action map is an input.
- `updateKeyboardMapping`: it becomes a choice between two key maps given as inputs.
- Menu and fast-forward button bounds: only their states are modelled.
- `Base::rootFileLocations` and `EmuApp::hasArchiveExtension` are inputs. The picker constructor's `setPath`, its error popups, the `makeFor*` factories and `inputEvent` are user-interface and filesystem work.
- The rest of `EmuSystem`: loading, saving, audio, timing and frame pacing are I/O or declarations without bodies.
- DPadHitTest.InflatedDeadzone: models the float `diagonalSensitivity` as an exact real. Single-precision rounding of the increment is not modelled.
- GamepadHitTest.WellFormed: the system's face-button count is required to fit 32 bits, to be at least 2 when there are triggers, and every scanned slot must have a bound. The source relies on this without checking.
- FaceLayout.ArrangementMatchesArea and FaceLayout.FaceBtnsFitArea: they require the configurations the systems use. Without triggers there are 2, 3, 4 or 6 active buttons. With triggers there are 4, 6 or 8 face buttons, all of them active. Other counts make the tables and the area disagree, which the source does not guard against.
- FaceLayout.SlotFitsArea: the horizontal fit is promised inside the area only for a row shift that is zero or negative. With a positive row shift the bottom row starts `rowShift * (rows - 1)` pixels left of the area (FaceLayout.PositiveShiftOverhangs), because `setBaseBtnSize` adds the shift's magnitude to the width while `layoutBtnRows` shifts the lower rows left of the area's corner.
- FaceLayout.FaceBtnsFitArea: the same limit as FaceLayout.SlotFitsArea, for the same reason.
- FaceLayout.LayoutSlots: offsets are integers; the source keeps them as floats.
- Aggregator.SetState: requires an element index below 7. An index outside the switch hits the source's fatal `bug_branch`.
- Aggregator.ApplyInput: other devices are promised to keep their pair or to hold nothing. The second case arises when a keyboard key releases every device.
