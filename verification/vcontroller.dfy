/** The controller's aggregator (`VController`): which element lies under a
    pointer, the press/release bookkeeping of each pointer device, the turbo
    set, and the per-element visibility states.

    Each pointer device holds up to two elements. An element is an index
    into the gamepad's action map (`map`, here `actionMap`) or, in keyboard mode, into the
    keyboard's key map (`kbMap`). Every press and release is forwarded to
    the emulated system; the model returns those calls as a list of
    emitted (action, code) pairs instead of performing them. */
module Aggregator {
  import opened Geometry
  import opened GamepadHitTest
  import DPadHitTest
  import KeyboardHitTest

  datatype Action = Pushed | Released

  /** One call of `EmuSystem::handleInputAction`. */
  datatype Emitted = Emitted(action: Action, code: bv32)

  /** A press or release of an element, before its code is looked up. */
  datatype ElemAction = ElemAction(action: Action, elem: nat)

  /** The build's constants: the element offsets of the center buttons,
      face buttons and d-pad in the action map, the turbo flag and action
      mask of a map entry, and the key maps of the two keyboard modes. */
  datatype Bindings = Bindings(
    cElem: nat,
    fElem: nat,
    dElem: nat,
    turboBit: bv32,
    actionMask: bv32,
    kbMapPrimary: seq<bv32>,
    kbMapAlt: seq<bv32>)

  /** What stays fixed while the controller runs: the system's inputs,
      whether it has a keyboard, the build's constants and the action map
      of the current player. */
  datatype Config = Config(
    sys: SystemInput,
    hasKeyboard: bool,
    bindings: Bindings,
    actionMap: seq<bv32>)

  datatype VController = VController(
    cfg: Config,
    gp: Gamepad,
    kb: KeyboardHitTest.Keyboard,
    kbMode: bool,
    menuBtnState: nat,
    ffBtnState: nat,
    kbMap: seq<bv32>,
    ptrElem: seq<Held>,
    turboActions: set<bv32>)

  /** A new controller state and the calls made on the way to it. */
  datatype Step = Step(vc: VController, events: seq<Emitted>)

  /** The result of `findElementUnderPos`: the elements found, and the state
      and calls left by the keyboard keys that act on the controller. */
  datatype Found = Found(vc: VController, events: seq<Emitted>, elem: Held)

  /** A pointer event: the device, the position, whether it is the press
      itself, and whether the left button is held. */
  datatype PointerEvent = PointerEvent(devId: nat, pos: Point, pushed: bool, buttonDown: bool)

  /** `isInKeyboardMode`. */
  predicate InKeyboardMode(vc: VController)
  {
    vc.cfg.hasKeyboard && vc.kbMode
  }

  /** The table elements index in the current mode. */
  function CurrentMap(vc: VController): seq<bv32>
  {
    if InKeyboardMode(vc) then vc.kbMap else vc.cfg.actionMap
  }

  /** The key map `updateKeyboardMapping` installs for a keyboard mode. */
  function KeyMapFor(b: Bindings, altMode: bool): seq<bv32>
  {
    if altMode then b.kbMapAlt else b.kbMapPrimary
  }

  /** A slot holds -1 or an element of a table of `n` entries. */
  predicate SlotIn(x: int, n: nat)
  {
    x == NoElem || 0 <= x < n
  }

  predicate PairIn(h: Held, n: nat)
  {
    SlotIn(h.first, n) && SlotIn(h.second, n)
  }

  /** `e` is one of the two slots of `h`. */
  predicate InPair(e: int, h: Held)
  {
    e == h.first || e == h.second
  }

  /** What the controller relies on between calls: the hit tests are
      defined, every element they can report has a map entry, the key maps
      cover every key index, and every held element is an entry of the
      current table. */
  predicate Valid(vc: VController)
  {
    var b := vc.cfg.bindings;
    var keys := 10 + 3 * vc.kb.cols;
    && GamepadValid(vc.cfg, vc.gp)
    && KeyboardHitTest.Sized(vc.kb)
    && (vc.cfg.hasKeyboard ==> keys <= |vc.kbMap| && keys <= |b.kbMapPrimary| && keys <= |b.kbMapAlt|)
    && (forall d :: 0 <= d < |vc.ptrElem| ==> PairIn(vc.ptrElem[d], |CurrentMap(vc)|))
  }

  /** The gamepad's hit tests are defined and every element they report has an action-map entry. */
  predicate GamepadValid(cfg: Config, gp: Gamepad)
  {
    && WellFormed(cfg.sys, gp)
    && cfg.bindings.cElem + cfg.sys.inputCenterBtns <= |cfg.actionMap|
    && cfg.bindings.fElem + |gp.faceBtnBound| <= |cfg.actionMap|
    && cfg.bindings.dElem + 9 <= |cfg.actionMap|
  }

  /** The code forwarded for element `v`: the key map's entry in keyboard
      mode, otherwise the action map's entry without its flag bits. */
  function Code(vc: VController, v: nat): (c: bv32)
    requires v < |CurrentMap(vc)|
    // a gamepad code carries no bit outside the action mask
    ensures !InKeyboardMode(vc) ==> c & vc.cfg.bindings.actionMask == c
    ensures InKeyboardMode(vc) ==> c == vc.kbMap[v]
  {
    if InKeyboardMode(vc) then vc.kbMap[v] else ActionCode(vc.cfg, v)
  }

  /** An action-map entry without its flag bits (`map[vBtn] & ACTION_MASK`). */
  function ActionCode(cfg: Config, v: nat): bv32
    requires v < |cfg.actionMap|
  {
    cfg.actionMap[v] & cfg.bindings.actionMask
  }

  /** The element is bound to a turbo action (`map[vBtn] & TURBO_BIT`). */
  predicate IsTurbo(vc: VController, v: nat)
    requires v < |CurrentMap(vc)|
  {
    !InKeyboardMode(vc) && TurboEntry(vc.cfg, v)
  }

  predicate TurboEntry(cfg: Config, v: nat)
    requires v < |cfg.actionMap|
  {
    cfg.actionMap[v] & cfg.bindings.turboBit != 0
  }

  /** `inputAction`: forward one press or release, keeping the set of
      codes the turbo timer repeats. */
  function InputAction(vc: VController, action: Action, v: nat): (s: Step)
    requires v < |CurrentMap(vc)|
    ensures s.events == [Emitted(action, Code(vc, v))]
    ensures s.vc == vc.(turboActions := s.vc.turboActions)
    ensures !IsTurbo(vc, v) ==> s.vc.turboActions == vc.turboActions
    ensures IsTurbo(vc, v) && action == Pushed ==> s.vc.turboActions == vc.turboActions + {Code(vc, v)}
    ensures IsTurbo(vc, v) && action == Released ==> s.vc.turboActions == vc.turboActions - {Code(vc, v)}
  {
    var keyCode := Code(vc, v);
    var turboActions :=
      if IsTurbo(vc, v) then
        (if action == Pushed then vc.turboActions + {keyCode} else vc.turboActions - {keyCode})
      else
        vc.turboActions;
    Step(vc.(turboActions := turboActions), [Emitted(action, keyCode)])
  }

  /** A turbo press followed by its release leaves the code out of the turbo set. */
  lemma TurboPushThenRelease(vc: VController, v: nat)
    requires v < |CurrentMap(vc)|
    requires IsTurbo(vc, v)
    ensures var pushed := InputAction(vc, Pushed, v).vc;
            && Code(vc, v) in pushed.turboActions
            && InputAction(pushed, Released, v).vc.turboActions == vc.turboActions - {Code(vc, v)}
  {
  }

  /** When the action mask clears the turbo flag, no forwarded gamepad code carries it. */
  lemma ForwardedCodeHasNoTurboBit(vc: VController, v: nat)
    requires v < |CurrentMap(vc)|
    requires !InKeyboardMode(vc)
    requires vc.cfg.bindings.turboBit & vc.cfg.bindings.actionMask == 0
    ensures Code(vc, v) & vc.cfg.bindings.turboBit == 0
  {
  }

  /** `inputAction` for each element action in turn. */
  function Dispatch(vc: VController, acts: seq<ElemAction>): (s: Step)
    requires forall i :: 0 <= i < |acts| ==> acts[i].elem < |CurrentMap(vc)|
    ensures s.vc == vc.(turboActions := s.vc.turboActions)
    ensures |s.events| == |acts|
    ensures forall i :: 0 <= i < |acts| ==> s.events[i] == Emitted(acts[i].action, Code(vc, acts[i].elem))
    decreases |acts|
  {
    if |acts| == 0 then
      Step(vc, [])
    else
      var first := InputAction(vc, acts[0].action, acts[0].elem);
      var rest := Dispatch(first.vc, acts[1..]);
      var events := first.events + rest.events;
      assert forall i :: 1 <= i < |acts| ==>
        events[i] == rest.events[i - 1] == Emitted(acts[i].action, Code(first.vc, acts[i].elem));
      Step(rest.vc, events)
  }

  /** Action `a` presses or releases a turbo element whose code is `c`. */
  predicate TurboTouch(vc: VController, a: ElemAction, c: bv32)
  {
    a.elem < |CurrentMap(vc)| && IsTurbo(vc, a.elem) && Code(vc, a.elem) == c
  }

  /** Position `i` holds the last action of `acts` on a turbo element with code `c`. */
  predicate LastTurboTouch(vc: VController, acts: seq<ElemAction>, c: bv32, i: int)
  {
    && 0 <= i < |acts| && TurboTouch(vc, acts[i], c)
    && forall j :: i < j < |acts| ==> !TurboTouch(vc, acts[j], c)
  }

  /** Whether the turbo timer repeats `c` after `acts`: when some action
      touches a turbo element with that code, the last such action decides
      (a press adds it, a release removes it); otherwise it stays as it was. */
  predicate TurboAfter(vc: VController, acts: seq<ElemAction>, c: bv32)
  {
    if exists i :: 0 <= i < |acts| && TurboTouch(vc, acts[i], c)
    then exists i :: 0 <= i < |acts| && LastTurboTouch(vc, acts, c, i) && acts[i].action == Pushed
    else c in vc.turboActions
  }

  /** The turbo set left by a dispatch follows the last turbo action on each code. */
  lemma {:induction false} DispatchTurbo(vc: VController, acts: seq<ElemAction>, c: bv32)
    requires forall i :: 0 <= i < |acts| ==> acts[i].elem < |CurrentMap(vc)|
    ensures c in Dispatch(vc, acts).vc.turboActions <==> TurboAfter(vc, acts, c)
    decreases |acts|
  {
    if |acts| > 0 {
      var first := InputAction(vc, acts[0].action, acts[0].elem);
      assert CurrentMap(first.vc) == CurrentMap(vc);
      DispatchTurbo(first.vc, acts[1..], c);
      TurboAfterStep(vc, acts, c);
    }
  }

  /** Whether an action touches a turbo code does not depend on the turbo set. */
  lemma TurboTouchIgnoresTurbo(vc: VController, t: set<bv32>, c: bv32)
    ensures forall a :: TurboTouch(vc.(turboActions := t), a, c) == TurboTouch(vc, a, c)
  {
    assert CurrentMap(vc.(turboActions := t)) == CurrentMap(vc);
  }

  /** `TurboAfter` after the first action is `TurboAfter` of the rest from
      the turbo set that action leaves. */
  lemma TurboAfterStep(vc: VController, acts: seq<ElemAction>, c: bv32)
    requires |acts| > 0 && acts[0].elem < |CurrentMap(vc)|
    ensures TurboAfter(vc, acts, c) <==> TurboAfter(InputAction(vc, acts[0].action, acts[0].elem).vc, acts[1..], c)
  {
    var w := InputAction(vc, acts[0].action, acts[0].elem).vc;
    var rest := acts[1..];
    TurboTouchIgnoresTurbo(vc, w.turboActions, c);
    assert w == vc.(turboActions := w.turboActions);
    if exists i :: 0 <= i < |rest| && TurboTouch(vc, rest[i], c) {
      RestDecides(vc, w, acts, c);
    } else if TurboTouch(vc, acts[0], c) {
      assert LastTurboTouch(vc, acts, c, 0);
      assert forall i :: 0 <= i < |acts| && LastTurboTouch(vc, acts, c, i) ==> i == 0;
    } else {
      assert forall i :: 0 <= i < |acts| ==> !TurboTouch(vc, acts[i], c);
    }
  }

  /** When a later action touches the code, the first action does not decide. */
  lemma RestDecides(vc: VController, w: VController, acts: seq<ElemAction>, c: bv32)
    requires |acts| > 0
    requires forall a :: TurboTouch(w, a, c) == TurboTouch(vc, a, c)
    requires exists i :: 0 <= i < |acts| - 1 && TurboTouch(vc, acts[1..][i], c)
    ensures TurboAfter(vc, acts, c) <==> TurboAfter(w, acts[1..], c)
  {
    var rest := acts[1..];
    var m :| 0 <= m < |rest| && TurboTouch(vc, rest[m], c);
    assert TurboTouch(vc, acts[m + 1], c);
    assert TurboTouch(w, rest[m], c);
    if TurboAfter(vc, acts, c) {
      var i :| 0 <= i < |acts| && LastTurboTouch(vc, acts, c, i) && acts[i].action == Pushed;
      LastTouchInRest(vc, w, acts, c, i, m);
    }
    if TurboAfter(w, rest, c) {
      var k :| 0 <= k < |rest| && LastTurboTouch(w, rest, c, k) && rest[k].action == Pushed;
      LastTouchOfRest(vc, w, acts, c, k);
    }
  }

  /** The last touch of `acts`, when a later action touches too, is the last touch of the rest. */
  lemma LastTouchInRest(vc: VController, w: VController, acts: seq<ElemAction>, c: bv32, i: int, m: int)
    requires |acts| > 0
    requires forall a :: TurboTouch(w, a, c) == TurboTouch(vc, a, c)
    requires 0 <= m < |acts| - 1 && TurboTouch(vc, acts[m + 1], c)
    requires LastTurboTouch(vc, acts, c, i)
    ensures i > 0 && LastTurboTouch(w, acts[1..], c, i - 1)
  {
  }

  /** The last touch of the rest is the last touch of `acts`. */
  lemma LastTouchOfRest(vc: VController, w: VController, acts: seq<ElemAction>, c: bv32, k: int)
    requires |acts| > 0
    requires forall a :: TurboTouch(w, a, c) == TurboTouch(vc, a, c)
    requires LastTurboTouch(w, acts[1..], c, k)
    ensures LastTurboTouch(vc, acts, c, k + 1)
  {
    assert forall j :: k + 1 < j < |acts| ==> acts[j] == acts[1..][j - 1];
  }

  /** The elements a pair holds, first slot first. */
  function PairElems(h: Held): (r: seq<nat>)
    requires h.first >= NoElem && h.second >= NoElem
    ensures forall e: nat :: e in r <==> InPair(e, h)
    ensures |r| <= 2
  {
    (if h.first != NoElem then [h.first as nat] else []) + (if h.second != NoElem then [h.second as nat] else [])
  }

  /** The elements held by all devices, device by device. */
  function HeldElems(ptrs: seq<Held>): (r: seq<nat>)
    requires forall d :: 0 <= d < |ptrs| ==> ptrs[d].first >= NoElem && ptrs[d].second >= NoElem
    ensures forall e: nat :: e in r <==> exists d :: 0 <= d < |ptrs| && InPair(e, ptrs[d])
    ensures |r| <= 2 * |ptrs|
    decreases |ptrs|
  {
    if |ptrs| == 0 then
      []
    else
      var rest := HeldElems(ptrs[1..]);
      assert forall d :: 1 <= d < |ptrs| ==> ptrs[1..][d - 1] == ptrs[d];
      PairElems(ptrs[0]) + rest
  }

  /** The same action on each element of `elems`, in order. */
  function Tag(action: Action, elems: seq<nat>): (r: seq<ElemAction>)
    ensures |r| == |elems|
    ensures forall i :: 0 <= i < |elems| ==> r[i] == ElemAction(action, elems[i])
    ensures forall a :: a in r <==> a.action == action && a.elem in elems
  {
    seq(|elems|, i requires 0 <= i < |elems| => ElemAction(action, elems[i]))
  }

  /** All device pairs empty. */
  predicate NothingHeld(ptrs: seq<Held>)
  {
    forall d :: 0 <= d < |ptrs| ==> ptrs[d] == NoneHeld
  }

  /** The elements every device holds, each an entry of the current table. */
  function HeldNow(vc: VController): (r: seq<nat>)
    requires Valid(vc)
    ensures r == HeldElems(vc.ptrElem)
    ensures forall i :: 0 <= i < |r| ==> r[i] < |CurrentMap(vc)|
  {
    var held := HeldElems(vc.ptrElem);
    assert forall i :: 0 <= i < |held| ==> held[i] in held;
    held
  }

  /** Every device's pair set to -1. */
  function Cleared(vc: VController): (r: VController)
    requires Valid(vc)
    ensures Valid(r)
    ensures |r.ptrElem| == |vc.ptrElem| && NothingHeld(r.ptrElem)
    ensures r == vc.(ptrElem := r.ptrElem)
  {
    vc.(ptrElem := seq(|vc.ptrElem|, d => NoneHeld))
  }

  /** `resetInput`: every held element is released (unless initialising)
      and every slot of every device is set to -1. */
  function ResetInput(vc: VController, init: bool): (s: Step)
    requires Valid(vc)
    ensures Valid(s.vc)
    ensures |s.vc.ptrElem| == |vc.ptrElem| && NothingHeld(s.vc.ptrElem)
    ensures s.vc == vc.(ptrElem := s.vc.ptrElem, turboActions := s.vc.turboActions)
    ensures init ==> s.events == [] && s.vc.turboActions == vc.turboActions
    // a release for each held slot, in device order
    ensures !init ==> |s.events| == |HeldNow(vc)|
    ensures !init ==> forall i :: 0 <= i < |s.events| ==> s.events[i] == Emitted(Released, Code(vc, HeldNow(vc)[i]))
    // releasing stops the turbo repeat of every held turbo element and keeps the rest
    ensures !init ==> forall c :: c in s.vc.turboActions <==> c in vc.turboActions && !HeldTurbo(vc, c)
    ensures InKeyboardMode(vc) ==> s.vc.turboActions == vc.turboActions
  {
    if init then
      Step(Cleared(vc), [])
    else
      var s := Dispatch(vc, Tag(Released, HeldNow(vc)));
      ReleaseAllTurbo(vc);
      Step(Cleared(s.vc), s.events)
  }

  /** Some device holds a turbo element whose code is `c`. */
  predicate HeldTurbo(vc: VController, c: bv32)
    requires Valid(vc)
  {
    var held := HeldNow(vc);
    exists i :: 0 <= i < |held| && IsTurbo(vc, held[i]) && Code(vc, held[i]) == c
  }

  /** A run of releases can only take codes out of the turbo set: a code
      stays exactly when it was there and no released turbo element has it. */
  lemma ReleasesOnlyRemove(vc: VController, acts: seq<ElemAction>, c: bv32)
    requires forall i :: 0 <= i < |acts| ==> acts[i].action == Released
    ensures TurboAfter(vc, acts, c) <==>
      c in vc.turboActions && !exists i :: 0 <= i < |acts| && TurboTouch(vc, acts[i], c)
  {
  }

  /** Releasing every held element leaves the turbo set without the codes
      of the held turbo elements; in keyboard mode nothing is turbo, so
      the set is unchanged. */
  lemma ReleaseAllTurbo(vc: VController)
    requires Valid(vc)
    ensures var t := Dispatch(vc, Tag(Released, HeldNow(vc))).vc.turboActions;
            && (forall c :: c in t <==> c in vc.turboActions && !HeldTurbo(vc, c))
            && (InKeyboardMode(vc) ==> t == vc.turboActions)
  {
    var acts := Tag(Released, HeldNow(vc));
    var t := Dispatch(vc, acts).vc.turboActions;
    forall c
      ensures c in t <==> c in vc.turboActions && !HeldTurbo(vc, c)
    {
      DispatchTurbo(vc, acts, c);
      ReleasesOnlyRemove(vc, acts, c);
      assert (exists i :: 0 <= i < |acts| && TurboTouch(vc, acts[i], c)) <==> HeldTurbo(vc, c);
    }
    if InKeyboardMode(vc) {
      NoTurboInKeyboardMode(vc);
      SameMembers(t, vc.turboActions);
    }
  }

  /** In keyboard mode no element is turbo, so none is held. */
  lemma NoTurboInKeyboardMode(vc: VController)
    requires Valid(vc) && InKeyboardMode(vc)
    ensures forall c :: !HeldTurbo(vc, c)
  {
  }

  /** Two sets of codes with the same members are equal. */
  lemma SameMembers(a: set<bv32>, b: set<bv32>)
    requires forall c :: c in a ==> c in b
    requires forall c :: c in b ==> c in a
    ensures a == b
  {
    forall c | c in a ensures c in b { }
    forall c | c in b ensures c in a { }
    assert a - b == {};
    assert b - a == {};
  }

  /** Devices that hold nothing contribute no elements. */
  lemma {:induction false} NothingHeldHoldsNothing(ptrs: seq<Held>)
    requires NothingHeld(ptrs)
    ensures HeldElems(ptrs) == []
    decreases |ptrs|
  {
    if |ptrs| > 0 {
      NothingHeldHoldsNothing(ptrs[1..]);
    }
  }

  /** Resetting twice releases nothing the second time. */
  lemma {:induction false} ResetIsIdempotent(vc: VController, init: bool)
    requires Valid(vc)
    ensures ResetInput(ResetInput(vc, init).vc, false).events == []
    ensures ResetInput(ResetInput(vc, init).vc, false).vc == ResetInput(vc, init).vc
  {
    var s := ResetInput(vc, init).vc;
    NothingHeldHoldsNothing(s.ptrElem);
    assert ResetInput(s, false).vc.ptrElem == s.ptrElem;
  }

  /** Every element held before a reset is released by it. */
  lemma ResetReleasesEachHeld(vc: VController, d: nat, e: nat)
    requires Valid(vc)
    requires d < |vc.ptrElem| && InPair(e, vc.ptrElem[d])
    ensures e < |CurrentMap(vc)|
    ensures Emitted(Released, Code(vc, e)) in ResetInput(vc, false).events
  {
    var held := HeldNow(vc);
    assert e in held;
    var i :| 0 <= i < |held| && held[i] == e;
    assert ResetInput(vc, false).events[i] == Emitted(Released, Code(vc, e));
  }

  /** `toggleKeyboard`: release everything, then switch between the gamepad and the keyboard. */
  function ToggleKeyboard(vc: VController): (s: Step)
    requires Valid(vc)
    ensures Valid(s.vc)
    ensures s.vc.kbMode == !vc.kbMode
    ensures NothingHeld(s.vc.ptrElem) && |s.vc.ptrElem| == |vc.ptrElem|
    ensures s.events == ResetInput(vc, false).events
    ensures s.vc == vc.(kbMode := s.vc.kbMode, ptrElem := s.vc.ptrElem, turboActions := s.vc.turboActions)
    ensures forall c :: c in s.vc.turboActions <==> c in vc.turboActions && !HeldTurbo(vc, c)
  {
    var r := ResetInput(vc, false);
    Step(r.vc.(kbMode := !vc.kbMode), r.events)
  }

  /** Toggling twice returns to the original mode with nothing held, and
      the second toggle releases nothing. */
  lemma {:induction false} ToggleTwice(vc: VController)
    requires Valid(vc)
    ensures var once := ToggleKeyboard(vc).vc;
            var twice := ToggleKeyboard(once);
            && twice.vc.kbMode == vc.kbMode
            && twice.events == []
            && twice.vc == once.(kbMode := vc.kbMode)
  {
    var once := ToggleKeyboard(vc).vc;
    var reset := ResetInput(vc, false).vc;
    assert once == reset.(kbMode := !vc.kbMode);
    ResetIsIdempotent(once, true);
    assert ResetInput(once, true).vc == once;
  }

  /** The releases of a reset do not depend on the keyboard's layout. */
  lemma ResetIgnoresLayout(vc: VController, kb: KeyboardHitTest.Keyboard)
    requires Valid(vc) && Valid(vc.(kb := kb))
    ensures ResetInput(vc.(kb := kb), false).events == ResetInput(vc, false).events
  {
    var w := vc.(kb := kb);
    assert HeldNow(w) == HeldNow(vc);
    assert forall v :: 0 <= v < |CurrentMap(vc)| ==> Code(w, v) == Code(vc, v);
  }

  /** Keys 31 and 32: switch the keyboard's layout, release every device
      (with the codes of the layout being left), then install the new key map. */
  function SwitchLayout(vc: VController): (s: Step)
    requires Valid(vc) && InKeyboardMode(vc)
    ensures Valid(s.vc) && InKeyboardMode(s.vc)
    ensures s.vc.kb == vc.kb.(altMode := !vc.kb.altMode)
    ensures s.vc.kbMap == KeyMapFor(vc.cfg.bindings, s.vc.kb.altMode)
    ensures |s.vc.ptrElem| == |vc.ptrElem| && NothingHeld(s.vc.ptrElem)
    ensures s.events == ResetInput(vc, false).events
    ensures s.vc == vc.(kb := s.vc.kb, kbMap := s.vc.kbMap, ptrElem := s.vc.ptrElem)
  {
    var switched := vc.(kb := vc.kb.(altMode := !vc.kb.altMode));
    var r := ResetInput(switched, false);
    ResetIgnoresLayout(vc, switched.kb);
    Step(r.vc.(kbMap := KeyMapFor(vc.cfg.bindings, !vc.kb.altMode)), r.events)
  }

  /** The keyboard part of `findElementUnderPos`. Only the keyboard is
      consulted; a press on key 30 hides it and a press on key 31 or 32
      switches its layout, both reporting nothing; any other key, and those
      keys when not freshly pressed, are reported as ordinary keys. */
  function KeyboardFind(vc: VController, p: Point, pushed: bool): (f: Found)
    requires Valid(vc) && InKeyboardMode(vc)
    ensures Valid(f.vc) && PairIn(f.elem, |CurrentMap(f.vc)|)
    ensures f.elem.second == NoElem
    ensures KeyboardHitTest.GetInput(vc.kb, p) == KeyboardHitTest.NoKey ==> f == Found(vc, [], NoneHeld)
    ensures KeyboardHitTest.GetInput(vc.kb, p) == 30 && pushed ==>
      f.elem == NoneHeld && Step(f.vc, f.events) == ToggleKeyboard(vc)
    ensures KeyboardHitTest.GetInput(vc.kb, p) in {31, 32} && pushed ==>
      f.elem == NoneHeld && Step(f.vc, f.events) == SwitchLayout(vc)
    ensures KeyboardHitTest.GetInput(vc.kb, p) !in {-1, 30, 31, 32} || !pushed ==>
      f == Found(vc, [], Held(KeyboardHitTest.GetInput(vc.kb, p), NoElem))
  {
    var kbChar := KeyboardHitTest.GetInput(vc.kb, p);
    if kbChar == KeyboardHitTest.NoKey then
      Found(vc, [], NoneHeld)
    else if kbChar == 30 && pushed then
      var t := ToggleKeyboard(vc);
      Found(t.vc, t.events, NoneHeld)
    else if (kbChar == 31 || kbChar == 32) && pushed then
      var t := SwitchLayout(vc);
      Found(t.vc, t.events, NoneHeld)
    else
      Found(vc, [], Held(kbChar, NoElem))
  }

  /** `findElementUnderPos`: the elements under `p`. In keyboard mode only
      the keyboard is consulted; otherwise the gamepad is, without changing
      any state. */
  function FindElementUnderPos(vc: VController, p: Point, pushed: bool): (f: Found)
    requires Valid(vc)
    ensures Valid(f.vc)
    ensures PairIn(f.elem, |CurrentMap(f.vc)|)
    ensures f.elem.first == NoElem ==> f.elem.second == NoElem
    ensures f.elem.second != NoElem ==> f.elem.first != f.elem.second
    ensures InKeyboardMode(vc) ==> f == KeyboardFind(vc, p, pushed)
    ensures !InKeyboardMode(vc) ==> f == Found(vc, [], GamepadElems(vc.cfg, vc.gp, p))
    // the keyboard keys only switch the keyboard and release every device
    ensures f.vc == vc.(kb := f.vc.kb, kbMode := f.vc.kbMode, kbMap := f.vc.kbMap,
                        ptrElem := f.vc.ptrElem, turboActions := f.vc.turboActions)
    ensures f.vc.ptrElem == vc.ptrElem || (|f.vc.ptrElem| == |vc.ptrElem| && NothingHeld(f.vc.ptrElem))
  {
    if InKeyboardMode(vc) then KeyboardFind(vc, p, pushed) else Found(vc, [], GamepadElems(vc.cfg, vc.gp, p))
  }

  /** A pair of hits renumbered from `base`. */
  function Renumber(base: nat, h: Held): (r: Held)
    requires h.first >= NoElem && h.second >= NoElem
    ensures r.first == NoElem <==> h.first == NoElem
    ensures r.second == NoElem <==> h.second == NoElem
    ensures h.first != NoElem ==> r.first == base + h.first
    ensures h.second != NoElem ==> r.second == base + h.second
  {
    Held(if h.first != NoElem then base + h.first else NoElem,
         if h.second != NoElem then base + h.second else NoElem)
  }

  /** The center buttons hit, in element numbering. */
  function CenterElems(cfg: Config, gp: Gamepad, p: Point): (r: Held)
    requires GamepadValid(cfg, gp)
    ensures PairIn(r, |cfg.actionMap|)
    ensures r.first == NoElem ==> r.second == NoElem
    ensures r.second != NoElem ==> r.first < r.second
    ensures r.first != NoElem ==> cfg.bindings.cElem <= r.first < cfg.bindings.cElem + cfg.sys.inputCenterBtns
    ensures r.first == NoElem <==> GetCenterBtnInput(cfg.sys, gp, p).first == NoElem
    ensures r == Renumber(cfg.bindings.cElem, GetCenterBtnInput(cfg.sys, gp, p))
  {
    Renumber(cfg.bindings.cElem, GetCenterBtnInput(cfg.sys, gp, p))
  }

  /** The face buttons and separate triggers hit, in element numbering. */
  function FaceElems(cfg: Config, gp: Gamepad, p: Point): (r: Held)
    requires GamepadValid(cfg, gp)
    ensures PairIn(r, |cfg.actionMap|)
    ensures r.first == NoElem ==> r.second == NoElem
    ensures r.second != NoElem ==> r.first < r.second
    ensures r.first != NoElem ==> cfg.bindings.fElem <= r.first < cfg.bindings.fElem + |gp.faceBtnBound|
    ensures r.first == NoElem <==> GetBtnInput(cfg.sys, gp, p).first == NoElem
    ensures r == Renumber(cfg.bindings.fElem, GetBtnInput(cfg.sys, gp, p))
  {
    var face := GetBtnInput(cfg.sys, gp, p);
    assert face.first != NoElem ==> face.first in BtnCandidates(cfg.sys, gp);
    assert face.second != NoElem ==> face.second in BtnCandidates(cfg.sys, gp);
    Renumber(cfg.bindings.fElem, face)
  }

  /** The d-pad direction touched, in element numbering. */
  function DPadElem(cfg: Config, gp: Gamepad, p: Point): (r: Held)
    requires GamepadValid(cfg, gp)
    ensures PairIn(r, |cfg.actionMap|) && r.second == NoElem
    ensures r.first == NoElem <==> DPadHitTest.GetInput(gp.dp, p) == DPadHitTest.NoInput
    ensures r.first != NoElem ==> r.first == cfg.bindings.dElem + DPadHitTest.GetInput(gp.dp, p)
  {
    var code := DPadHitTest.GetInput(gp.dp, p);
    if code == DPadHitTest.NoInput then NoneHeld else Held(cfg.bindings.dElem + code, NoElem)
  }

  /** The gamepad part of `findElementUnderPos`, in element numbering: the
      first group, in priority order, that reports a hit. */
  function GamepadElems(cfg: Config, gp: Gamepad, p: Point): (elem: Held)
    requires GamepadValid(cfg, gp)
    ensures PairIn(elem, |cfg.actionMap|)
    ensures elem.first == NoElem ==> elem.second == NoElem
    ensures elem.second != NoElem ==> elem.first < elem.second
    ensures elem == NoneHeld <==>
      && (gp.centerBtnsState == 0 || GetCenterBtnInput(cfg.sys, gp, p).first == NoElem)
      && GetBtnInput(cfg.sys, gp, p).first == NoElem
      && (gp.dpState == 0 || DPadHitTest.GetInput(gp.dp, p) == DPadHitTest.NoInput)
    // with no shown center hit and no face hit, a shown d-pad decides
    ensures (gp.centerBtnsState == 0 || GetCenterBtnInput(cfg.sys, gp, p).first == NoElem)
            && GetBtnInput(cfg.sys, gp, p).first == NoElem && gp.dpState != 0
            ==> elem == DPadElem(cfg, gp, p)
  {
    var center := CenterElems(cfg, gp, p);
    var face := FaceElems(cfg, gp, p);
    if gp.centerBtnsState != 0 && center.first != NoElem then
      center
    else if face.first != NoElem then
      face
    else if gp.dpState != 0 then
      DPadElem(cfg, gp, p)
    else
      NoneHeld
  }

  /** The center buttons win whenever one of them is shown and hit: the
      elements are the center hits in their numbering. */
  lemma CenterBtnsComeFirst(cfg: Config, gp: Gamepad, p: Point)
    requires GamepadValid(cfg, gp)
    requires gp.centerBtnsState != 0 && GetCenterBtnInput(cfg.sys, gp, p).first != NoElem
    ensures var e := GamepadElems(cfg, gp, p);
            var c := GetCenterBtnInput(cfg.sys, gp, p);
            && e.first == cfg.bindings.cElem + c.first
            && cfg.bindings.cElem <= e.first < cfg.bindings.cElem + cfg.sys.inputCenterBtns
            && (e.second == NoElem <==> c.second == NoElem)
            && (c.second != NoElem ==> e.second == cfg.bindings.cElem + c.second)
  {
  }

  /** Without a shown center-button hit, a face-button or trigger hit wins
      over the d-pad: the elements are the face hits in their numbering. */
  lemma FaceBeforeDPad(cfg: Config, gp: Gamepad, p: Point)
    requires GamepadValid(cfg, gp)
    requires gp.centerBtnsState == 0 || GetCenterBtnInput(cfg.sys, gp, p).first == NoElem
    requires GetBtnInput(cfg.sys, gp, p).first != NoElem
    ensures var e := GamepadElems(cfg, gp, p);
            var h := GetBtnInput(cfg.sys, gp, p);
            && e.first == cfg.bindings.fElem + h.first
            && (e.second == NoElem <==> h.second == NoElem)
            && (h.second != NoElem ==> e.second == cfg.bindings.fElem + h.second)
  {
  }

  /** The d-pad is consulted last: it is reported only when no shown
      center button and no face button or trigger is hit. */
  lemma DPadComesLast(cfg: Config, gp: Gamepad, p: Point)
    requires GamepadValid(cfg, gp)
    requires cfg.bindings.dElem <= GamepadElems(cfg, gp, p).first < cfg.bindings.dElem + 9
    requires cfg.bindings.cElem + cfg.sys.inputCenterBtns <= cfg.bindings.dElem
    requires cfg.bindings.fElem + |gp.faceBtnBound| <= cfg.bindings.dElem
    ensures gp.centerBtnsState == 0 || GetCenterBtnInput(cfg.sys, gp, p).first == NoElem
    ensures GetBtnInput(cfg.sys, gp, p).first == NoElem
    ensures gp.dpState != 0
    ensures GamepadElems(cfg, gp, p).first == cfg.bindings.dElem + DPadHitTest.GetInput(gp.dp, p)
  {
  }

  /** In keyboard mode the gamepad is not consulted: controllers that differ
      only in their gamepad find the same elements. */
  lemma KeyboardModeIgnoresGamepad(vc: VController, gp: Gamepad, p: Point, pushed: bool)
    requires Valid(vc) && Valid(vc.(gp := gp))
    requires InKeyboardMode(vc)
    ensures FindElementUnderPos(vc.(gp := gp), p, pushed).elem == FindElementUnderPos(vc, p, pushed).elem
    ensures FindElementUnderPos(vc.(gp := gp), p, pushed).events == FindElementUnderPos(vc, p, pushed).events
  {
  }

  /** The releases and presses that take a device from holding `cur` to
      holding `next`: each old element not in the new pair is released,
      then each new element not in the old pair is pressed. */
  function Diff(cur: Held, next: Held): (r: seq<ElemAction>)
    requires cur.first >= NoElem && cur.second >= NoElem
    requires next.first >= NoElem && next.second >= NoElem
    ensures |r| <= 4
    ensures forall e: nat :: ElemAction(Released, e) in r <==> InPair(e, cur) && !InPair(e, next)
    ensures forall e: nat :: ElemAction(Pushed, e) in r <==> InPair(e, next) && !InPair(e, cur)
    // every release comes before every press
    ensures forall i, j :: 0 <= i < j < |r| && r[j].action == Released ==> r[i].action == Released
  {
    Keep(Tag(Released, PairElems(cur)), next) + Keep(Tag(Pushed, PairElems(next)), cur)
  }

  /** A pair whose two slots do not hold the same element. */
  predicate DistinctSlots(h: Held)
  {
    h.first == NoElem || h.first != h.second
  }

  /** `action` on each slot of `h` that holds an element `other` does not
      hold, first slot first. */
  function SlotActions(action: Action, h: Held, other: Held): seq<ElemAction>
    requires h.first >= NoElem && h.second >= NoElem
  {
    (if h.first != NoElem && !InPair(h.first, other) then [ElemAction(action, h.first as nat)] else [])
    + (if h.second != NoElem && !InPair(h.second, other) then [ElemAction(action, h.second as nat)] else [])
  }

  /** The diff goes slot by slot: the old pair's releases, then the new
      pair's presses, each first slot first. */
  lemma DiffSlotBySlot(cur: Held, next: Held)
    requires cur.first >= NoElem && cur.second >= NoElem
    requires next.first >= NoElem && next.second >= NoElem
    ensures Diff(cur, next) == SlotActions(Released, cur, next) + SlotActions(Pushed, next, cur)
  {
    KeepSlots(Released, cur, next);
    KeepSlots(Pushed, next, cur);
  }

  /** Pairs without a repeated element give a diff without a repeated call. */
  lemma DiffHasNoRepeats(cur: Held, next: Held)
    requires cur.first >= NoElem && cur.second >= NoElem
    requires next.first >= NoElem && next.second >= NoElem
    requires DistinctSlots(cur) && DistinctSlots(next)
    ensures NoRepeats(Diff(cur, next))
  {
    DiffSlotBySlot(cur, next);
    var rel := SlotActions(Released, cur, next);
    var push := SlotActions(Pushed, next, cur);
    SlotActionsNoRepeats(Released, cur, next);
    SlotActionsNoRepeats(Pushed, next, cur);
    ConcatNoRepeats(rel, push);
  }

  /** No element of `s` occurs twice. */
  predicate NoRepeats<T(==)>(s: seq<T>)
  {
    forall i, j :: 0 <= i < j < |s| ==> s[i] != s[j]
  }

  /** The slot actions of a pair without a repeated element repeat nothing,
      and all carry the same action. */
  lemma SlotActionsNoRepeats(action: Action, h: Held, other: Held)
    requires h.first >= NoElem && h.second >= NoElem && DistinctSlots(h)
    ensures NoRepeats(SlotActions(action, h, other))
    ensures forall a :: a in SlotActions(action, h, other) ==> a.action == action
  {
  }

  /** Two sequences without repeats that share nothing concatenate to one without repeats. */
  lemma ConcatNoRepeats(a: seq<ElemAction>, b: seq<ElemAction>)
    requires NoRepeats(a) && NoRepeats(b)
    requires forall x :: x in a ==> x.action == Released
    requires forall y :: y in b ==> y.action == Pushed
    ensures NoRepeats(a + b)
  {
    var ab := a + b;
    forall i, j | 0 <= i < j < |ab|
      ensures ab[i] != ab[j]
    {
      if j >= |a| && i < |a| {
        assert ab[i] in a && ab[j] in b;
      } else if j >= |a| {
        assert ab[i] == b[i - |a|] && ab[j] == b[j - |a|];
      }
    }
  }

  /** Keeping the actions on a pair's elements outside `other` goes slot by slot. */
  lemma {:induction false} KeepSlots(action: Action, h: Held, other: Held)
    requires h.first >= NoElem && h.second >= NoElem
    ensures Keep(Tag(action, PairElems(h)), other) == SlotActions(action, h, other)
  {
    var t := Tag(action, PairElems(h));
    assert Keep([], other) == [];
    if |t| == 1 {
      assert Keep(t, other) == (if InPair(t[0].elem, other) then [] else [t[0]]) + Keep(t[1..], other);
    } else if |t| == 2 {
      assert Keep(t[1..], other) == (if InPair(t[1].elem, other) then [] else [t[1]]) + Keep(t[2..], other);
      assert Keep(t, other) == (if InPair(t[0].elem, other) then [] else [t[0]]) + Keep(t[1..], other);
    }
  }

  /** The actions of `acts` whose element is not in `other`. */
  function Keep(acts: seq<ElemAction>, other: Held): (r: seq<ElemAction>)
    ensures |r| <= |acts|
    ensures forall a :: a in r <==> a in acts && !InPair(a.elem, other)
    decreases |acts|
  {
    if |acts| == 0 then
      []
    else
      assert forall a :: a in acts <==> a == acts[0] || a in acts[1..];
      (if InPair(acts[0].elem, other) then [] else [acts[0]]) + Keep(acts[1..], other)
  }

  /** After the diff, a device holds exactly what it held and was not
      released, plus what was pressed. */
  lemma DiffReconciles(cur: Held, next: Held, e: nat)
    requires cur.first >= NoElem && cur.second >= NoElem
    requires next.first >= NoElem && next.second >= NoElem
    ensures InPair(e, next) <==>
      (InPair(e, cur) && ElemAction(Released, e) !in Diff(cur, next)) || ElemAction(Pushed, e) in Diff(cur, next)
  {
  }

  /** Keeping only actions outside a pair drops every action inside it. */
  lemma {:induction false} KeepOwnPair(acts: seq<ElemAction>, h: Held)
    requires forall i :: 0 <= i < |acts| ==> InPair(acts[i].elem, h)
    ensures Keep(acts, h) == []
    decreases |acts|
  {
    if |acts| > 0 {
      KeepOwnPair(acts[1..], h);
    }
  }

  /** A pair that does not change needs no calls. */
  lemma DiffOfSamePairIsEmpty(h: Held)
    requires h.first >= NoElem && h.second >= NoElem
    ensures Diff(h, h) == []
  {
    KeepOwnPair(Tag(Released, PairElems(h)), h);
    KeepOwnPair(Tag(Pushed, PairElems(h)), h);
  }

  /** A device that held nothing and now touches two elements presses both,
      first slot first, and releases nothing. */
  lemma {:induction false} ChordFromNothing(next: Held)
    requires 0 <= next.first && 0 <= next.second
    ensures Diff(NoneHeld, next) == [ElemAction(Pushed, next.first as nat), ElemAction(Pushed, next.second as nat)]
  {
    assert PairElems(NoneHeld) == [];
    var pushes := Tag(Pushed, PairElems(next));
    KeepNothing(pushes);
    assert pushes == [ElemAction(Pushed, next.first as nat), ElemAction(Pushed, next.second as nat)];
  }

  /** The elements under a pointer event: none unless the button is held. */
  function Locate(vc: VController, ev: PointerEvent): (f: Found)
    requires Valid(vc)
    ensures Valid(f.vc) && PairIn(f.elem, |CurrentMap(f.vc)|)
    ensures f.vc == vc.(kb := f.vc.kb, kbMode := f.vc.kbMode, kbMap := f.vc.kbMap,
                        ptrElem := f.vc.ptrElem, turboActions := f.vc.turboActions)
    ensures f.vc.ptrElem == vc.ptrElem || (|f.vc.ptrElem| == |vc.ptrElem| && NothingHeld(f.vc.ptrElem))
    ensures !InKeyboardMode(vc) ==> f.vc == vc && f.events == []
    ensures !ev.buttonDown ==> f == Found(vc, [], NoneHeld)
    ensures ev.buttonDown ==> f == FindElementUnderPos(vc, ev.pos, ev.pushed)
  {
    if ev.buttonDown then FindElementUnderPos(vc, ev.pos, ev.pushed) else Found(vc, [], NoneHeld)
  }

  /** The turbo set plays no part in validity. */
  lemma ValidIgnoresTurbo(vc: VController, t: set<bv32>)
    requires Valid(vc)
    ensures Valid(vc.(turboActions := t))
  {
    assert CurrentMap(vc.(turboActions := t)) == CurrentMap(vc);
  }

  /** A device's pair replaced by `h`. */
  function Hold(vc: VController, devId: nat, h: Held): (r: VController)
    requires Valid(vc) && devId < |vc.ptrElem| && PairIn(h, |CurrentMap(vc)|)
    ensures Valid(r)
    ensures r == vc.(ptrElem := r.ptrElem)
    ensures |r.ptrElem| == |vc.ptrElem| && r.ptrElem[devId] == h
    ensures forall d :: 0 <= d < |vc.ptrElem| && d != devId ==> r.ptrElem[d] == vc.ptrElem[d]
  {
    var r := vc.(ptrElem := vc.ptrElem[devId := h]);
    assert CurrentMap(r) == CurrentMap(vc);
    r
  }

  /** The diff a device goes through, with every element an entry of the current table. */
  function DeviceDiff(vc: VController, devId: nat, next: Held): (acts: seq<ElemAction>)
    requires Valid(vc) && devId < |vc.ptrElem| && PairIn(next, |CurrentMap(vc)|)
    ensures acts == Diff(vc.ptrElem[devId], next)
    ensures forall i :: 0 <= i < |acts| ==> acts[i].elem < |CurrentMap(vc)|
  {
    var acts := Diff(vc.ptrElem[devId], next);
    assert forall i :: 0 <= i < |acts| ==> acts[i] in acts;
    acts
  }

  /** `applyInput`: find the elements under a held pointer (none when the
      button is up), release what the device no longer touches, press what
      it newly touches, and remember the new pair. */
  function ApplyInput(vc: VController, ev: PointerEvent): (s: Step)
    requires Valid(vc)
    requires ev.devId < |vc.ptrElem|
    ensures Valid(s.vc)
    ensures |s.vc.ptrElem| == |vc.ptrElem|
    ensures s.vc.ptrElem[ev.devId] == (if ev.buttonDown then FindElementUnderPos(vc, ev.pos, ev.pushed).elem else NoneHeld)
    // other devices keep their pair unless a keyboard key released everything
    ensures forall d :: 0 <= d < |vc.ptrElem| && d != ev.devId ==>
      s.vc.ptrElem[d] == vc.ptrElem[d] || s.vc.ptrElem[d] == NoneHeld
    ensures s.vc.cfg == vc.cfg && s.vc.gp == vc.gp
    // out of keyboard mode only the held pairs and the turbo set change
    ensures !InKeyboardMode(vc) ==> s.vc == vc.(ptrElem := s.vc.ptrElem, turboActions := s.vc.turboActions)
  {
    ApplyFound(ev.devId, Locate(vc, ev))
  }

  /** The second half of `applyInput`, once the elements `f.elem` under the
      device's pointer are known: the device's diff is dispatched after the
      calls the keyboard already made, and the device now holds `f.elem`. */
  function ApplyFound(devId: nat, f: Found): (s: Step)
    requires Valid(f.vc) && devId < |f.vc.ptrElem| && PairIn(f.elem, |CurrentMap(f.vc)|)
    ensures Valid(s.vc)
    ensures s.vc == f.vc.(ptrElem := s.vc.ptrElem, turboActions := s.vc.turboActions)
    ensures |s.vc.ptrElem| == |f.vc.ptrElem| && s.vc.ptrElem[devId] == f.elem
    ensures forall d :: 0 <= d < |f.vc.ptrElem| && d != devId ==> s.vc.ptrElem[d] == f.vc.ptrElem[d]
    ensures var acts := DeviceDiff(f.vc, devId, f.elem);
            && |s.events| == |f.events| + |acts|
            && s.events[..|f.events|] == f.events
            && (forall i :: 0 <= i < |acts| ==> s.events[|f.events| + i] == Emitted(acts[i].action, Code(f.vc, acts[i].elem)))
  {
    var acts := DeviceDiff(f.vc, devId, f.elem);
    var d := Dispatch(f.vc, acts);
    ValidIgnoresTurbo(f.vc, d.vc.turboActions);
    var events := f.events + d.events;
    assert forall i :: 0 <= i < |acts| ==> events[|f.events| + i] == d.events[i];
    Step(Hold(d.vc, devId, f.elem), events)
  }

  /** After `applyInput`, the turbo timer repeats a code exactly when the
      device's diff last pressed a turbo element with that code, or, when
      the diff touched none, when it repeated the code before. */
  lemma ApplyFoundTurbo(devId: nat, f: Found, c: bv32)
    requires Valid(f.vc) && devId < |f.vc.ptrElem| && PairIn(f.elem, |CurrentMap(f.vc)|)
    ensures c in ApplyFound(devId, f).vc.turboActions <==> TurboAfter(f.vc, DeviceDiff(f.vc, devId, f.elem), c)
  {
    DispatchTurbo(f.vc, DeviceDiff(f.vc, devId, f.elem), c);
  }

  /** The calls `applyInput` makes: those of the keyboard key acting on the
      controller, if any, then one per action of the device's diff, releases
      before presses. */
  lemma ApplyInputEmitsDiff(vc: VController, ev: PointerEvent)
    requires Valid(vc)
    requires ev.devId < |vc.ptrElem|
    ensures var f := Locate(vc, ev);
            var acts := DeviceDiff(f.vc, ev.devId, f.elem);
            var s := ApplyInput(vc, ev);
            && |s.events| == |f.events| + |acts|
            && s.events[..|f.events|] == f.events
            && (forall i :: 0 <= i < |acts| ==> s.events[|f.events| + i] == Emitted(acts[i].action, Code(f.vc, acts[i].elem)))
  {
    var f := Locate(vc, ev);
    assert ApplyInput(vc, ev) == ApplyFound(ev.devId, f);
  }

  /** Lifting the touch releases what the device held, first slot first,
      and nothing else. */
  lemma {:induction false} LiftReleasesAll(vc: VController, ev: PointerEvent)
    requires Valid(vc)
    requires ev.devId < |vc.ptrElem|
    requires !ev.buttonDown
    ensures var held := PairElems(vc.ptrElem[ev.devId]);
            var s := ApplyInput(vc, ev);
            && s.vc.ptrElem[ev.devId] == NoneHeld
            && |s.events| == |held|
            && (forall i :: 0 <= i < |held| ==> s.events[i] == Emitted(Released, Code(vc, held[i])))
  {
    var cur := vc.ptrElem[ev.devId];
    var held := PairElems(cur);
    var acts := Diff(cur, NoneHeld);
    assert PairElems(NoneHeld) == [];
    assert Keep(seq(|held|, i requires 0 <= i < |held| => ElemAction(Released, held[i])), NoneHeld)
        == seq(|held|, i requires 0 <= i < |held| => ElemAction(Released, held[i])) by {
      KeepNothing(seq(|held|, i requires 0 <= i < |held| => ElemAction(Released, held[i])));
    }
    assert Keep([], cur) == [];
    assert acts == seq(|held|, i requires 0 <= i < |held| => ElemAction(Released, held[i]));
  }

  /** Keeping against an empty pair keeps every action of natural elements. */
  lemma {:induction false} KeepNothing(acts: seq<ElemAction>)
    ensures Keep(acts, NoneHeld) == acts
    decreases |acts|
  {
    if |acts| > 0 {
      KeepNothing(acts[1..]);
      assert acts == [acts[0]] + acts[1..];
    }
  }

  /** A device already holding what it finds makes no calls and no changes. */
  lemma {:induction false} ApplyInputUnchanged(vc: VController, ev: PointerEvent)
    requires Valid(vc)
    requires ev.devId < |vc.ptrElem|
    requires Locate(vc, ev) == Found(vc, [], vc.ptrElem[ev.devId])
    ensures ApplyInput(vc, ev) == Step(vc, [])
  {
    var e := vc.ptrElem[ev.devId];
    DiffOfSamePairIsEmpty(e);
    assert DeviceDiff(vc, ev.devId, e) == [];
    assert Dispatch(vc, []) == Step(vc, []);
    assert vc.ptrElem[ev.devId := e] == vc.ptrElem;
    assert Hold(vc, ev.devId, e) == vc;
  }

  /** Out of keyboard mode, the gamepad finds the same elements after an event as before it. */
  lemma {:induction false} LocateAfterApply(vc: VController, ev: PointerEvent)
    requires Valid(vc)
    requires ev.devId < |vc.ptrElem|
    requires !InKeyboardMode(vc)
    ensures var once := ApplyInput(vc, ev).vc;
            Locate(once, ev) == Found(once, [], once.ptrElem[ev.devId])
  {
    var once := ApplyInput(vc, ev).vc;
    assert once.cfg == vc.cfg && once.gp == vc.gp && !InKeyboardMode(once);
    assert ev.buttonDown ==> once.ptrElem[ev.devId] == GamepadElems(vc.cfg, vc.gp, ev.pos);
  }

  /** Out of keyboard mode, repeating an event changes nothing and emits nothing. */
  lemma {:induction false} ApplyInputIsIdempotent(vc: VController, ev: PointerEvent)
    requires Valid(vc)
    requires ev.devId < |vc.ptrElem|
    requires !InKeyboardMode(vc)
    ensures var once := ApplyInput(vc, ev).vc;
            var twice := ApplyInput(once, ev);
            twice.events == [] && twice.vc == once
  {
    LocateAfterApply(vc, ev);
    ApplyInputUnchanged(ApplyInput(vc, ev).vc, ev);
  }

  /** `numElements`: the d-pad, center buttons, face buttons, menu and
      fast-forward buttons, plus the two triggers when they are separate. */
  function NumElements(vc: VController): (n: nat)
    ensures n == 7 <==> SeparateTriggers(vc.cfg.sys, vc.gp)
    ensures n == 5 || n == 7
  {
    if vc.cfg.sys.hasTriggerBtns && !vc.gp.triggersInline then 7 else 5
  }

  /** The two elements beyond the first five are the trigger slots that the
      face-button scan leaves out; without them the face scan covers the
      active face buttons, triggers included. */
  lemma ExtraElementsAreTriggerSlots(vc: VController)
    requires WellFormed(vc.cfg.sys, vc.gp)
    ensures NumElements(vc) == 7 ==>
      FaceBtnCount(vc.cfg.sys, vc.gp) + 2 == vc.cfg.sys.inputFaceBtns
      && LTriggerIdx(vc.cfg.sys) == FaceBtnCount(vc.cfg.sys, vc.gp)
      && RTriggerIdx(vc.cfg.sys) == FaceBtnCount(vc.cfg.sys, vc.gp) + 1
    ensures NumElements(vc) == 5 ==> FaceBtnCount(vc.cfg.sys, vc.gp) == vc.gp.activeFaceBtns
  {
    if NumElements(vc) == 7 {
      TriggerSlotsFollowFaceBtns(vc.cfg.sys, vc.gp);
    }
  }

  /** `state`: the visibility state of element `idx`. */
  function ElementState(vc: VController, idx: nat): nat
    requires idx < 7
  {
    match idx
    case 0 => vc.gp.dpState
    case 1 => vc.gp.centerBtnsState
    case 2 => vc.gp.faceBtnsState
    case 3 => vc.menuBtnState
    case 4 => vc.ffBtnState
    case 5 => vc.gp.lTriggerState
    case _ => vc.gp.rTriggerState
  }

  /** `setState`: set the visibility state of element `idx`. */
  function SetState(vc: VController, idx: nat, state: nat): (r: VController)
    requires idx < 7
    ensures ElementState(r, idx) == state
    ensures forall j :: 0 <= j < 7 && j != idx ==> ElementState(r, j) == ElementState(vc, j)
    // nothing but the states changes
    ensures r.gp == vc.gp.(dpState := r.gp.dpState, centerBtnsState := r.gp.centerBtnsState,
                           faceBtnsState := r.gp.faceBtnsState, lTriggerState := r.gp.lTriggerState,
                           rTriggerState := r.gp.rTriggerState)
    ensures r == vc.(gp := r.gp, menuBtnState := r.menuBtnState, ffBtnState := r.ffBtnState)
  {
    match idx
    case 0 => vc.(gp := vc.gp.(dpState := state))
    case 1 => vc.(gp := vc.gp.(centerBtnsState := state))
    case 2 => vc.(gp := vc.gp.(faceBtnsState := state))
    case 3 => vc.(menuBtnState := state)
    case 4 => vc.(ffBtnState := state)
    case 5 => vc.(gp := vc.gp.(lTriggerState := state))
    case _ => vc.(gp := vc.gp.(rTriggerState := state))
  }

  /** Setting a state back to what it was changes nothing. */
  lemma SetStateRoundTrip(vc: VController, idx: nat)
    requires idx < 7
    ensures SetState(vc, idx, ElementState(vc, idx)) == vc
  {
  }

  /** What the states mean to the hit test: a hidden d-pad reports no
      d-pad element (when the d-pad's elements follow the center and face
      ones), and with the d-pad, the center buttons, the face buttons and
      both triggers hidden the gamepad finds nothing at all. */
  lemma HiddenElementsNotFound(vc: VController, p: Point)
    requires Valid(vc)
    ensures var b := vc.cfg.bindings;
            var e := GamepadElems(vc.cfg, vc.gp, p);
            && b.cElem + vc.cfg.sys.inputCenterBtns <= b.dElem
            && b.fElem + |vc.gp.faceBtnBound| <= b.dElem
            && ElementState(vc, 0) == 0
            ==> e.first < b.dElem && e.second < b.dElem
    ensures (forall idx :: 0 <= idx < 7 && idx !in {3, 4} ==> ElementState(vc, idx) == 0) ==>
      GamepadElems(vc.cfg, vc.gp, p) == NoneHeld
  {
    if forall idx :: 0 <= idx < 7 && idx !in {3, 4} ==> ElementState(vc, idx) == 0 {
      assert ElementState(vc, 0) == 0 && ElementState(vc, 1) == 0 && ElementState(vc, 2) == 0;
      assert ElementState(vc, 5) == 0 && ElementState(vc, 6) == 0;
      assert BtnCandidates(vc.cfg.sys, vc.gp) == [];
    }
  }
}
