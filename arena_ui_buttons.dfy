/**
 The `arena-ui-buttons` component as an object: its handlers update the
 records of `buttonMap` in place, the click callbacks move `currentMesh`, and
 `showMesh` sets the `visible` flags of the three meshes. Each handler is
 proved to perform exactly the matching `Step` of the Component module, so
 every lemma proved there about sequences of events holds of this object.
 */
module ArenaUi {
  import opened Buttons
  import opened Meshes
  import opened Component

  class ButtonsComponent {
    var buttonMap: map<Name, Button>
    /** The order in which `Object.values(buttonMap)` lists the records: the
        order in which their keys were inserted. */
    var order: seq<Name>
    /** The index captured by the two click closures. */
    var currentMesh: int
    /** The `visible` flags of `[sphere, box, cone]`. */
    const meshVisible: array<bool>

    ghost function State(): Panel
      reads this
    {
      Panel(buttonMap, order, currentMesh)
    }

    /** The component invariant, and exactly the mesh at `currentMesh` visible. */
    ghost predicate Valid()
      reads this, meshVisible
    {
      && PanelOk(State())
      && meshVisible.Length == MeshCount
      && forall i :: 0 <= i < MeshCount ==> meshVisible[i] == (i == currentMesh)
    }

    /** `makePanel`: only the sphere visible, `currentMesh = 0`, and the two
        buttons inserted next first, each styled and stated default. */
    constructor ()
      ensures Valid() && fresh(meshVisible)
      ensures State() == InitialPanel()
    {
      var visible := new bool[MeshCount];
      visible[0] := true;
      visible[1], visible[2] := false, false;
      meshVisible := visible;
      currentMesh := 0;
      buttonMap := map[NextName := NewButton(ShowNext), PreviousName := NewButton(ShowPrevious)];
      order := [NextName, PreviousName];
    }

    /** `mouseEnterHandler`. */
    method MouseEnterHandler(uiEl: Option<Name>)
      requires Valid()
      modifies this`buttonMap
      ensures Valid()
      ensures buttonMap == Enter(old(buttonMap), uiEl)
      ensures State() == Step(old(State()), MouseEnter(uiEl)).panel
    {
      if uiEl.Some? {
        var name := uiEl.value;
        if name in buttonMap {
          buttonMap := buttonMap[name := buttonMap[name].(style := Hover, prevState := Some(Default), state := Hover)];
        }
      }
    }

    /** The `forEach` of `mouseLeaveHandler`: each known name among `names`
        gets style, `prevState` and state default. */
    method ClearNames(names: seq<Name>)
      modifies this`buttonMap
      ensures buttonMap == ClearAll(old(buttonMap), names)
    {
      for i := 0 to |names|
        invariant buttonMap == ClearAll(old(buttonMap), names[..i])
      {
        var name := names[i];
        ClearAllStep(old(buttonMap), names, i);
        if name in buttonMap {
          buttonMap := buttonMap[name := buttonMap[name].(style := Default, prevState := Some(Default), state := Default)];
        }
      }
      assert names[..|names|] == names;
    }

    /** `mouseLeaveHandler`: nothing happens when `clearedUIEls` is undefined. */
    method MouseLeaveHandler(cleared: Option<seq<Name>>)
      requires Valid()
      modifies this`buttonMap
      ensures Valid()
      ensures buttonMap == Leave(old(buttonMap), cleared)
      ensures State() == Step(old(State()), MouseLeave(cleared)).panel
    {
      if cleared.Some? {
        ClearNames(cleared.value);
      }
    }

    /** `mouseDownHandler`. */
    method MouseDownHandler(cursor: Option<Cursor>, hit: Option<Name>)
      requires Valid()
      modifies this`buttonMap
      ensures Valid()
      ensures buttonMap == Press(old(buttonMap), cursor, hit)
      ensures State() == Step(old(State()), MouseDown(cursor, hit)).panel
    {
      if cursor.Some? {
        if hit.Some? && hit.value in buttonMap {
          var name := hit.value;
          buttonMap := buttonMap[name := buttonMap[name].(style := Selected, prevState := Some(Hover), state := Selected, selector := cursor)];
        }
      }
    }

    /** The `find` of `mouseUpHandler`: the position in `order` of the first
        record owned by cursor `c`, if there is one. */
    method FindOwned(c: Cursor) returns (r: Option<nat>)
      ensures r.Some? ==> r.value < |order| && OwnedBy(buttonMap, order[r.value], c)
      ensures r.Some? ==> forall j :: 0 <= j < r.value ==> !OwnedBy(buttonMap, order[j], c)
      ensures r.None? ==> forall j :: 0 <= j < |order| ==> !OwnedBy(buttonMap, order[j], c)
      ensures r == FindOwner(order, buttonMap, c)
    {
      var i := 0;
      while i < |order|
        invariant 0 <= i <= |order|
        invariant forall j :: 0 <= j < i ==> !OwnedBy(buttonMap, order[j], c)
      {
        var name := order[i];
        if name in buttonMap && buttonMap[name].selector == Some(c) {
          return Some(i);
        }
        i := i + 1;
      }
      return None;
    }

    /** `showMesh(id)`: mesh `i` is made visible exactly when `i == id`. */
    method ShowMesh(id: int)
      modifies meshVisible
      ensures forall i :: 0 <= i < meshVisible.Length ==> meshVisible[i] == (i == id)
    {
      for i := 0 to meshVisible.Length
        invariant forall j :: 0 <= j < i ==> meshVisible[j] == (j == id)
      {
        meshVisible[i] := i == id;
      }
    }

    /** The `clickFn` of `buttonNext`. */
    method NextClick()
      requires Valid()
      modifies this`currentMesh, meshVisible
      ensures Valid()
      ensures currentMesh == NextMesh(old(currentMesh))
    {
      currentMesh := JsRem(currentMesh + 1, MeshCount);
      ShowMesh(currentMesh);
    }

    /** The `clickFn` of `buttonPrevious`. */
    method PreviousClick()
      requires Valid()
      modifies this`currentMesh, meshVisible
      ensures Valid()
      ensures currentMesh == PreviousMesh(old(currentMesh))
    {
      currentMesh := currentMesh - 1;
      if currentMesh < 0 {
        currentMesh := MeshCount - 1;
      }
      ShowMesh(currentMesh);
    }

    /** The restoring half of `mouseUpHandler`: the first record owned by `c`
        gets the style `BUTTONSTATES[prevState]`, `prevState` and `state`
        default, and loses its owner. */
    method RestoreOwned(c: Cursor)
      requires Valid()
      modifies this`buttonMap
      ensures Valid()
      ensures buttonMap == Release(order, old(buttonMap), Some(c))
    {
      var owner := FindOwned(c);
      if owner.Some? {
        var name := order[owner.value];
        var b := buttonMap[name];
        var style := match b.prevState case Some(s) => s case None => b.style;
        buttonMap := buttonMap[name := b.(style := style, prevState := Some(Default), state := Default, selector := None)];
        assert buttonMap == old(buttonMap)[name := Restored(b)];
      }
    }

    /** Calls the `clickFn` of the known button `name`. */
    method CallClickFn(name: Name)
      requires Valid() && name in buttonMap
      modifies this`currentMesh, meshVisible
      ensures Valid()
      ensures currentMesh == ClickEffect(buttonMap[name].clickFn, old(currentMesh))
    {
      match buttonMap[name].clickFn
      case ShowNext => NextClick();
      case ShowPrevious => PreviousClick();
    }

    /** `mouseUpHandler`: fire the click of the button under the ray if this
        cursor owns it, then restore the first button this cursor owns. */
    method MouseUpHandler(cursor: Option<Cursor>, hit: Option<Name>) returns (fired: Option<Name>)
      requires Valid()
      modifies this`buttonMap, this`currentMesh, meshVisible
      ensures Valid()
      ensures fired == ClickTarget(old(buttonMap), cursor, hit)
      ensures buttonMap == Release(order, old(buttonMap), cursor)
      ensures currentMesh == if fired.Some? then ClickEffect(old(buttonMap)[fired.value].clickFn, old(currentMesh)) else old(currentMesh)
      ensures Outcome(State(), fired) == Step(old(State()), MouseUp(cursor, hit))
    {
      fired := None;
      if cursor.Some? {
        var c := cursor.value;
        if hit.Some? && hit.value in buttonMap && buttonMap[hit.value].selector == Some(c) {
          fired := hit;
          CallClickFn(hit.value);
        }
        RestoreOwned(c);
      }
    }
  }
}
