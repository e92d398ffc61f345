/**
 The button records of the `arena-ui-buttons` component and what each of its
 four event handlers does to the dictionary `buttonMap` that holds them.

 Every handler is given here as a function from the old dictionary to the new
 one; the class in arena_ui_buttons.dfy performs the same updates step by step
 and is proved to agree with these functions.
 */
module Buttons {

  datatype Option<+T> = None | Some(value: T)

  /** The three keys of `BUTTONSTATES`. A call `el.set(BUTTONSTATES.k)` is
      modelled as setting the record's abstract `style` to `k`. */
  datatype ButtonState = Default | Hover | Selected

  /** Button names (the keys of `buttonMap`, and the parent names of hit objects). */
  type Name = string

  /** The identity of a cursor element (`evt.detail.cursorEl`). */
  type Cursor = string

  /** The two `clickFn` closures built by `makePanel`. */
  datatype ClickAction = ShowNext | ShowPrevious

  /** One entry of `buttonMap`: `{el, clickFn, state, prevState, selector}`,
      where `el` is reduced to the style last applied to it. `prevState` is
      `None` while the field is absent, `selector` is `None` while undefined. */
  datatype Button = Button(
    style: ButtonState,
    state: ButtonState,
    prevState: Option<ButtonState>,
    selector: Option<Cursor>,
    clickFn: ClickAction)

  /** A record as `makePanel` creates it: styled default, state default, no
      `prevState` and no `selector`. */
  function NewButton(clickFn: ClickAction): (b: Button)
    ensures b.style == Default && b.state == Default
    ensures b.prevState == None && b.selector == None && b.clickFn == clickFn
    ensures ButtonOk(b)
  {
    Button(Default, Default, None, None, clickFn)
  }

  /** The per-record invariant that every handler keeps:
      - `prevState` is never `selected`, so a release never restores into `selected`;
      - a button owned by a cursor has a `prevState`, so `BUTTONSTATES[prevState]`
        is defined when the owner releases it;
      - a button whose state is `selected` is owned;
      - the style is `selected` exactly when the state is. */
  predicate ButtonOk(b: Button)
  {
    && b.prevState != Some(Selected)
    && (b.selector.Some? ==> b.prevState.Some?)
    && (b.state == Selected ==> b.selector.Some?)
    && (b.style == Selected <==> b.state == Selected)
  }

  predicate AllOk(m: map<Name, Button>)
  {
    forall k :: k in m ==> ButtonOk(m[k])
  }

  /** True iff button `k` exists and is owned by cursor `c`. */
  predicate OwnedBy(m: map<Name, Button>, k: Name, c: Cursor)
  {
    k in m && m[k].selector == Some(c)
  }

  /** True iff cursor `c` owns no button. */
  predicate NoneOwnedBy(m: map<Name, Button>, c: Cursor)
  {
    forall k :: k in m ==> m[k].selector != Some(c)
  }

  // ----- one record -----

  /** The three assignments of `mouseEnterHandler` to a known button. */
  function Hovered(b: Button): (r: Button)
    ensures ButtonOk(r)
  {
    b.(style := Hover, prevState := Some(Default), state := Hover)
  }

  /** The three assignments of `mouseLeaveHandler` to a known button. */
  function Cleared(b: Button): (r: Button)
    ensures ButtonOk(r)
  {
    b.(style := Default, prevState := Some(Default), state := Default)
  }

  /** The four assignments of `mouseDownHandler` to the hit button. */
  function Pressed(b: Button, c: Cursor): (r: Button)
    ensures ButtonOk(r)
  {
    b.(style := Selected, prevState := Some(Hover), state := Selected, selector := Some(c))
  }

  /** The four assignments of `mouseUpHandler` to the button the cursor owned.
      The style comes from `BUTTONSTATES[prevState]`; should `prevState` be
      absent, the style is left as it was (`ButtonOk` rules that case out for
      an owned button). */
  function Restored(b: Button): (r: Button)
    ensures ButtonOk(b) && b.selector.Some? ==> ButtonOk(r) && r.style == b.prevState.value
  {
    var style := match b.prevState case Some(s) => s case None => b.style;
    b.(style := style, prevState := Some(Default), state := Default, selector := None)
  }

  // ----- the handlers, on the whole dictionary -----

  /** `mouseEnterHandler`: `uiEl` is `evt.detail.UIEl`, `None` when the detail
      has no such key. */
  function Enter(m: map<Name, Button>, uiEl: Option<Name>): (r: map<Name, Button>)
    ensures r.Keys == m.Keys
    ensures forall k :: k in m && uiEl != Some(k) ==> r[k] == m[k]
    ensures uiEl.Some? && uiEl.value in m ==>
      var b, b' := m[uiEl.value], r[uiEl.value];
      && b'.state == Hover && b'.prevState == Some(Default) && b'.style == Hover
      && b'.selector == b.selector && b'.clickFn == b.clickFn
    ensures AllOk(m) ==> AllOk(r)
  {
    if uiEl.Some? && uiEl.value in m then m[uiEl.value := Hovered(m[uiEl.value])] else m
  }

  /** The `forEach` of `mouseLeaveHandler` over the parent names of the cleared
      elements, one name at a time, in list order. */
  function ClearAll(m: map<Name, Button>, names: seq<Name>): (r: map<Name, Button>)
    ensures r.Keys == m.Keys
    ensures forall k :: k in m ==> r[k] == if k in names then Cleared(m[k]) else m[k]
    decreases |names|
  {
    if names == [] then m
    else
      var last := names[|names| - 1];
      var rest := ClearAll(m, names[..|names| - 1]);
      assert names == names[..|names| - 1] + [last];
      if last in rest then rest[last := Cleared(rest[last])] else rest
  }

  /** `mouseLeaveHandler`: `cleared` is `evt.detail.clearedUIEls` (by parent
      name), `None` when it is undefined. Every listed known button is forced
      to default, even mid-press; ownership is left as it was. */
  function Leave(m: map<Name, Button>, cleared: Option<seq<Name>>): (r: map<Name, Button>)
    ensures r.Keys == m.Keys
    ensures forall k :: k in m && !(cleared.Some? && k in cleared.value) ==> r[k] == m[k]
    ensures cleared.Some? ==> forall k :: k in m && k in cleared.value ==>
      && r[k].state == Default && r[k].prevState == Some(Default) && r[k].style == Default
      && r[k].selector == m[k].selector && r[k].clickFn == m[k].clickFn
    ensures AllOk(m) ==> AllOk(r)
  {
    match cleared
    case None => m
    case Some(names) => ClearAll(m, names)
  }

  /** `mouseDownHandler`: `cursor` is `evt.detail.cursorEl` (`None` when the
      detail has no such key) and `hit` is the parent name of the intersected
      object (`None` when there is no intersection). No check is made that
      another cursor already owns the button: the new cursor takes it over. */
  function Press(m: map<Name, Button>, cursor: Option<Cursor>, hit: Option<Name>): (r: map<Name, Button>)
    ensures r.Keys == m.Keys
    ensures forall k :: k in m && !(cursor.Some? && hit == Some(k)) ==> r[k] == m[k]
    ensures cursor.Some? && hit.Some? && hit.value in m ==>
      var b, b' := m[hit.value], r[hit.value];
      && b'.state == Selected && b'.prevState == Some(Hover) && b'.style == Selected
      && b'.selector == cursor && b'.clickFn == b.clickFn
    ensures AllOk(m) ==> AllOk(r)
  {
    if cursor.Some? && hit.Some? && hit.value in m
    then m[hit.value := Pressed(m[hit.value], cursor.value)]
    else m
  }

  /** The first step of `mouseUpHandler`: the name of the button whose
      `clickFn` is called, if any. It fires exactly when the button under the
      ray exists and is owned by the releasing cursor. */
  function ClickTarget(m: map<Name, Button>, cursor: Option<Cursor>, hit: Option<Name>): (fired: Option<Name>)
    ensures fired.Some? <==> cursor.Some? && hit.Some? && OwnedBy(m, hit.value, cursor.value)
    ensures fired.Some? ==> fired == hit
  {
    match cursor
    case None => None
    case Some(c) => if hit.Some? && hit.value in m && m[hit.value].selector == Some(c) then hit else None
  }

  /** `Object.values(buttonMap).find(b => b.selector === cursor)`, as an index
      into `order`, the order in which the dictionary enumerates its keys. */
  function FindOwner(order: seq<Name>, m: map<Name, Button>, c: Cursor): (r: Option<nat>)
    ensures r.Some? ==> r.value < |order| && OwnedBy(m, order[r.value], c)
    ensures r.Some? ==> forall j :: 0 <= j < r.value ==> !OwnedBy(m, order[j], c)
    ensures r.None? ==> forall j :: 0 <= j < |order| ==> !OwnedBy(m, order[j], c)
  {
    if order == [] then None
    else if OwnedBy(m, order[0], c) then Some(0)
    else match FindOwner(order[1..], m, c)
      case None => None
      case Some(i) => Some(i + 1)
  }

  /** The second step of `mouseUpHandler`: the first button in `order` that
      the cursor owns is restored, whether or not a click fired. Nothing else
      changes: buttons owned by other cursors, by none, or owned by this
      cursor but later in the order keep their record. */
  function Release(order: seq<Name>, m: map<Name, Button>, cursor: Option<Cursor>): (r: map<Name, Button>)
    ensures r.Keys == m.Keys
    ensures cursor.None? ==> r == m
    ensures cursor.Some? ==> match FindOwner(order, m, cursor.value)
      case None => r == m
      case Some(i) =>
        var k := order[i];
        && (forall j :: j in m && j != k ==> r[j] == m[j])
        && r[k].state == Default && r[k].prevState == Some(Default) && r[k].selector == None
        && r[k].clickFn == m[k].clickFn
        && (m[k].prevState.Some? ==> r[k].style == m[k].prevState.value)
    ensures AllOk(m) ==> AllOk(r)
  {
    if cursor.None? then m
    else match FindOwner(order, m, cursor.value)
      case None => m
      case Some(i) => m[order[i] := Restored(m[order[i]])]
  }

  // ----- a press followed by a release -----

  /** When `w` is the only button owned by `c`, the release's search finds `w`. */
  lemma OnlyOwned(order: seq<Name>, m: map<Name, Button>, c: Cursor, w: Name)
    requires OwnedBy(m, w, c) && w in order
    requires forall k :: k in m && k != w ==> !OwnedBy(m, k, c)
    ensures FindOwner(order, m, c).Some? && order[FindOwner(order, m, c).value] == w
  {
  }

  /** A cursor that owned nothing presses `w` and releases: `w` alone changes,
      to an unowned record with state default and style hover, and the cursor
      owns nothing again. */
  lemma SolePressThenRelease(order: seq<Name>, m: map<Name, Button>, c: Cursor, w: Name)
    requires w in m && w in order && NoneOwnedBy(m, c)
    ensures
      var m1 := Press(m, Some(c), Some(w));
      var m2 := Release(order, m1, Some(c));
      && OwnedBy(m1, w, c)
      && m2 == m[w := m[w].(style := Hover, state := Default, prevState := Some(Default), selector := None)]
      && NoneOwnedBy(m2, c)
  {
    var m1 := Press(m, Some(c), Some(w));
    assert m1 == m[w := Pressed(m[w], c)];
    OnlyOwned(order, m1, c, w);
    assert Release(order, m1, Some(c)) == m1[w := Restored(m1[w])];
  }

  /** A cursor that owned nothing presses `a` and then `b` without releasing,
      where `a` comes first in the enumeration order: its release finds `a`. */
  lemma DoublePressThenRelease(order: seq<Name>, m: map<Name, Button>, c: Cursor, ia: nat, ib: nat)
    requires forall i, j :: 0 <= i < j < |order| ==> order[i] != order[j]
    requires ia < ib < |order| && order[ia] in m && order[ib] in m && NoneOwnedBy(m, c)
    ensures
      var a, b := order[ia], order[ib];
      var m2 := Press(Press(m, Some(c), Some(a)), Some(c), Some(b));
      && OwnedBy(m2, a, c) && OwnedBy(m2, b, c)
      && Release(order, m2, Some(c)) == m2[a := Restored(m2[a])]
  {
    var a, b := order[ia], order[ib];
    var m1 := Press(m, Some(c), Some(a));
    assert m1 == m[a := Pressed(m[a], c)];
    var m2 := Press(m1, Some(c), Some(b));
    assert m2 == m1[b := Pressed(m1[b], c)];
    assert forall k :: OwnedBy(m2, k, c) ==> k == a || k == b;
    var r := FindOwner(order, m2, c);
    assert OwnedBy(m2, order[ia], c);
    assert r.Some? && r.value <= ia;
    assert order[r.value] == a;
  }

  /** Two cursors that owned nothing press two different buttons; the first
      cursor's release restores only its own button. */
  lemma TwoCursorsPressThenRelease(order: seq<Name>, m: map<Name, Button>, c1: Cursor, c2: Cursor, a: Name, b: Name)
    requires a in m && b in m && a in order && b in order && a != b && c1 != c2
    requires NoneOwnedBy(m, c1) && NoneOwnedBy(m, c2)
    ensures
      var m2 := Press(Press(m, Some(c1), Some(a)), Some(c2), Some(b));
      && OwnedBy(m2, a, c1) && OwnedBy(m2, b, c2)
      && Release(order, m2, Some(c1)) == m2[a := Restored(m2[a])]
  {
    var m1 := Press(m, Some(c1), Some(a));
    assert m1 == m[a := Pressed(m[a], c1)];
    var m2 := Press(m1, Some(c2), Some(b));
    assert m2 == m1[b := Pressed(m1[b], c2)];
    OnlyOwned(order, m2, c1, a);
  }

  /** One more name of the `forEach` in `mouseLeaveHandler`. */
  lemma ClearAllStep(m: map<Name, Button>, names: seq<Name>, i: nat)
    requires i < |names|
    ensures
      var r := ClearAll(m, names[..i]);
      ClearAll(m, names[..i + 1]) == if names[i] in r then r[names[i] := Cleared(r[names[i]])] else r
  {
    assert names[..i + 1][..i] == names[..i];
  }
}
