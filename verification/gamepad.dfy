/** The gamepad's button hit tests (`VControllerGamepad::getCenterBtnInput`
    and `getBtnInput`) and the trigger slots of the face-button bound table.

    Each test scans its buttons in a fixed order and reports the first two
    whose touch bound holds the point, padding with -1. */
module GamepadHitTest {
  import opened Geometry
  import DPadHitTest

  /** The emulated system's fixed input description (`EmuSystem::inputFaceBtns`,
      `inputCenterBtns`, `inputHasTriggerBtns`, `inputHasRevBtnLayout`). */
  datatype SystemInput = SystemInput(
    inputFaceBtns: nat,
    inputCenterBtns: nat,
    hasTriggerBtns: bool,
    hasRevBtnLayout: bool)

  /** The gamepad part of the overlay: its configuration, the touch bounds
      of its buttons, the d-pad, and the visibility state of each control
      (0 hidden, 1 shown, 2 shown but inactive; only "non-zero" matters here). */
  datatype Gamepad = Gamepad(
    triggersInline: bool,
    activeFaceBtns: nat,
    centerBtnBound: seq<Rect>,
    faceBtnBound: seq<Rect>,
    dp: DPadHitTest.DPad,
    dpState: nat,
    centerBtnsState: nat,
    faceBtnsState: nat,
    lTriggerState: nat,
    rTriggerState: nat)

  /** Two element slots (`std::array<int, 2>`), -1 meaning empty. */
  datatype Held = Held(first: int, second: int)

  const NoElem: int := -1
  const NoneHeld: Held := Held(-1, -1)

  /** The triggers are separate square controls rather than part of the face-button rows. */
  predicate SeparateTriggers(sys: SystemInput, gp: Gamepad)
  {
    sys.hasTriggerBtns && !gp.triggersInline
  }

  /** `lTriggerIdx`: the face-bound slot of the left trigger, an unsigned `inputFaceBtns - 2`. */
  function LTriggerIdx(sys: SystemInput): (i: nat)
    ensures 2 <= sys.inputFaceBtns < Modulus32 ==> i == sys.inputFaceBtns - 2
    ensures sys.inputFaceBtns < 2 ==> i == Modulus32 + sys.inputFaceBtns - 2
  {
    Wrap32(sys.inputFaceBtns - 2)
  }

  /** `rTriggerIdx`: the face-bound slot of the right trigger, an unsigned `inputFaceBtns - 1`. */
  function RTriggerIdx(sys: SystemInput): (i: nat)
    ensures 1 <= sys.inputFaceBtns < Modulus32 ==> i == sys.inputFaceBtns - 1
    ensures sys.inputFaceBtns == 0 ==> i == Modulus32 - 1
  {
    Wrap32(sys.inputFaceBtns - 1)
  }

  /** How many face buttons are scanned and drawn: with separate triggers,
      all but the last two slots; otherwise the active face buttons. */
  function FaceBtnCount(sys: SystemInput, gp: Gamepad): (n: nat)
    ensures !SeparateTriggers(sys, gp) ==> n == gp.activeFaceBtns
    ensures SeparateTriggers(sys, gp) ==> n == LTriggerIdx(sys)
  {
    if SeparateTriggers(sys, gp) then Wrap32(sys.inputFaceBtns - 2) else gp.activeFaceBtns
  }

  /** The trigger slots are the last two slots of the system's face buttons,
      right after the face buttons that are scanned with separate triggers. */
  lemma TriggerSlotsFollowFaceBtns(sys: SystemInput, gp: Gamepad)
    requires sys.hasTriggerBtns && 2 <= sys.inputFaceBtns < Modulus32
    ensures LTriggerIdx(sys) + 1 == RTriggerIdx(sys) == sys.inputFaceBtns - 1
    ensures SeparateTriggers(sys, gp) ==> FaceBtnCount(sys, gp) == LTriggerIdx(sys)
  {
  }

  /** The configuration the hit tests rely on: every scanned slot has a bound. */
  predicate WellFormed(sys: SystemInput, gp: Gamepad)
  {
    && sys.inputFaceBtns < Modulus32
    && (sys.hasTriggerBtns ==> 2 <= sys.inputFaceBtns)
    && sys.inputFaceBtns <= |gp.faceBtnBound|
    && gp.activeFaceBtns <= |gp.faceBtnBound|
    && sys.inputCenterBtns <= |gp.centerBtnBound|
    && gp.dp.diagonalSensitivity > 0.0
  }

  /** The indices 0 .. n-1 in order. */
  function Range(n: nat): (s: seq<nat>)
    ensures |s| == n
    ensures forall i :: 0 <= i < n ==> s[i] == i
    ensures forall c: nat :: c in s <==> c < n
  {
    if n == 0 then
      []
    else
      var s := Range(n - 1) + [n - 1];
      assert s[n - 1] == n - 1;
      s
  }

  predicate Increasing(s: seq<nat>)
  {
    forall i, j :: 0 <= i < j < |s| ==> s[i] < s[j]
  }

  /** `r` holds the first two candidates, in scan order, whose bound contains
      `p`, padded with -1: both reported elements are hits, the first comes
      before the second, and every other hit comes after both. */
  ghost predicate FirstTwoOf(cands: seq<nat>, rects: seq<Rect>, p: Point, r: Held)
    requires forall c :: c in cands ==> c < |rects|
  {
    && (r.first == NoElem ==> r.second == NoElem)
    && (r.first != NoElem ==> r.first in cands && Contains(rects[r.first], p))
    && (r.second != NoElem ==> r.second in cands && Contains(rects[r.second], p) && r.first < r.second)
    && (forall c :: c in cands && Contains(rects[c], p) ==>
          c == r.first || c == r.second || (r.second != NoElem && r.second < c))
  }

  /** The scan both hit tests perform, over candidates in increasing order. */
  function FirstTwoHits(cands: seq<nat>, rects: seq<Rect>, p: Point): (r: Held)
    requires forall c :: c in cands ==> c < |rects|
    requires Increasing(cands)
    ensures FirstTwoOf(cands, rects, p, r)
    decreases |cands|
  {
    if |cands| == 0 then
      NoneHeld
    else
      assert cands[0] in cands;
      assert forall c :: c in cands[1..] ==> c in cands && cands[0] < c;
      assert forall c :: c in cands ==> c == cands[0] || c in cands[1..];
      var rest := FirstTwoHits(cands[1..], rects, p);
      if Contains(rects[cands[0]], p) then Held(cands[0], rest.first) else rest
  }

  /** `getCenterBtnInput`: the first two center buttons under `p`. */
  function GetCenterBtnInput(sys: SystemInput, gp: Gamepad, p: Point): (r: Held)
    requires WellFormed(sys, gp)
    ensures FirstTwoOf(Range(sys.inputCenterBtns), gp.centerBtnBound, p, r)
    ensures r.first != NoElem ==> 0 <= r.first < sys.inputCenterBtns
    ensures r.second != NoElem ==> 0 <= r.second < sys.inputCenterBtns
  {
    FirstTwoHits(Range(sys.inputCenterBtns), gp.centerBtnBound, p)
  }

  /** The order `getBtnInput` scans in: the face buttons if they are shown,
      then each separate trigger that is shown. */
  function BtnCandidates(sys: SystemInput, gp: Gamepad): (s: seq<nat>)
    requires WellFormed(sys, gp)
    ensures Increasing(s)
    ensures forall c :: c in s ==> c < |gp.faceBtnBound|
    ensures forall c: nat :: c in s <==>
      || (gp.faceBtnsState != 0 && c < FaceBtnCount(sys, gp))
      || (SeparateTriggers(sys, gp) && gp.lTriggerState != 0 && c == LTriggerIdx(sys))
      || (SeparateTriggers(sys, gp) && gp.rTriggerState != 0 && c == RTriggerIdx(sys))
  {
    var face := if gp.faceBtnsState != 0 then Range(FaceBtnCount(sys, gp)) else [];
    var l := if SeparateTriggers(sys, gp) && gp.lTriggerState != 0 then [LTriggerIdx(sys)] else [];
    var r := if SeparateTriggers(sys, gp) && gp.rTriggerState != 0 then [RTriggerIdx(sys)] else [];
    assert forall i :: 0 <= i < |face| ==> face[i] < FaceBtnCount(sys, gp);
    assert SeparateTriggers(sys, gp) ==> FaceBtnCount(sys, gp) == LTriggerIdx(sys) < RTriggerIdx(sys);
    face + l + r
  }

  /** `getBtnInput`: the first two face buttons or separate triggers under `p`. */
  function GetBtnInput(sys: SystemInput, gp: Gamepad, p: Point): (r: Held)
    requires WellFormed(sys, gp)
    ensures FirstTwoOf(BtnCandidates(sys, gp), gp.faceBtnBound, p, r)
    // hidden face buttons are never reported
    ensures gp.faceBtnsState == 0 ==>
      (r.first == NoElem || r.first >= FaceBtnCount(sys, gp)) &&
      (r.second == NoElem || r.second >= FaceBtnCount(sys, gp))
    // triggers are reported only when separate and shown
    ensures !SeparateTriggers(sys, gp) ==>
      (r.first == NoElem || r.first < gp.activeFaceBtns) &&
      (r.second == NoElem || r.second < gp.activeFaceBtns)
    ensures SeparateTriggers(sys, gp) && gp.lTriggerState == 0 ==>
      r.first != LTriggerIdx(sys) && r.second != LTriggerIdx(sys)
    ensures SeparateTriggers(sys, gp) && gp.rTriggerState == 0 ==>
      r.first != RTriggerIdx(sys) && r.second != RTriggerIdx(sys)
  {
    FirstTwoHits(BtnCandidates(sys, gp), gp.faceBtnBound, p)
  }
}
