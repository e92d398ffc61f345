/**
 The whole `arena-ui-buttons` component as a value: its dictionary of buttons,
 the order in which `Object.values` enumerates them, and the `currentMesh`
 index captured by the click callbacks. `Step` applies one event as the
 matching handler does, `Run` a sequence of them, and the lemmas state the
 press/release protocol the handlers implement.
 */
module Component {
  import opened Buttons
  import opened Meshes

  datatype Panel = Panel(buttons: map<Name, Button>, order: seq<Name>, currentMesh: int)

  /** The events the component listens to, with the fields of `evt.detail`
      each handler reads. A `None` stands for a missing key or an undefined
      value. */
  datatype Event =
    | MouseEnter(uiEl: Option<Name>)
    | MouseLeave(cleared: Option<seq<Name>>)
    | MouseDown(cursor: Option<Cursor>, hit: Option<Name>)
    | MouseUp(cursor: Option<Cursor>, hit: Option<Name>)

  /** The new panel after one event, and the button whose `clickFn` ran. */
  datatype Outcome = Outcome(panel: Panel, fired: Option<Name>)

  /** The panel after a sequence of events, and every click fired, in order. */
  datatype Trace = Trace(panel: Panel, clicks: seq<Name>)

  const NextName: Name := "buttonNext"
  const PreviousName: Name := "buttonPrevious"

  /** The invariant of the component: the enumeration order lists every key
      exactly once, the mesh index is one of the three meshes, and every
      record satisfies `ButtonOk`. */
  predicate PanelOk(p: Panel)
  {
    && (forall i, j :: 0 <= i < j < |p.order| ==> p.order[i] != p.order[j])
    && (forall k :: k in p.buttons ==> k in p.order)
    && (forall i :: 0 <= i < |p.order| ==> p.order[i] in p.buttons)
    && 0 <= p.currentMesh < MeshCount
    && AllOk(p.buttons)
  }

  /** The buttons and index that `makePanel` sets up. */
  function InitialPanel(): (p: Panel)
    ensures PanelOk(p) && p.currentMesh == 0
    ensures p.buttons.Keys == {NextName, PreviousName} && p.order == [NextName, PreviousName]
    ensures p.buttons[NextName].clickFn == ShowNext && p.buttons[PreviousName].clickFn == ShowPrevious
    ensures forall k :: k in p.buttons ==>
      && p.buttons[k].style == Default && p.buttons[k].state == Default
      && p.buttons[k].prevState == None && p.buttons[k].selector == None
  {
    Panel(
      map[NextName := NewButton(ShowNext), PreviousName := NewButton(ShowPrevious)],
      [NextName, PreviousName],
      0)
  }

  /** The effect of calling a `clickFn` on the mesh index. */
  function ClickEffect(a: ClickAction, i: int): (r: int)
    ensures 0 <= i < MeshCount ==> 0 <= r < MeshCount
  {
    match a
    case ShowNext => NextMesh(i)
    case ShowPrevious => PreviousMesh(i)
  }

  /** One event, handled as the component's listener for it does. Only a
      release can fire a click and move the mesh: it fires exactly when the
      releasing cursor owns the button under the ray, judged before the
      restore; then the first button that cursor owns is restored. */
  function Step(p: Panel, e: Event): (o: Outcome)
    ensures o.panel.order == p.order && o.panel.buttons.Keys == p.buttons.Keys
    ensures e.MouseEnter? ==> o.panel == p.(buttons := Enter(p.buttons, e.uiEl)) && o.fired == None
    ensures e.MouseLeave? ==> o.panel == p.(buttons := Leave(p.buttons, e.cleared)) && o.fired == None
    ensures e.MouseDown? ==> o.panel == p.(buttons := Press(p.buttons, e.cursor, e.hit)) && o.fired == None
    ensures e.MouseUp? ==>
      && (o.fired.Some? <==> e.cursor.Some? && e.hit.Some? && OwnedBy(p.buttons, e.hit.value, e.cursor.value))
      && (o.fired.Some? ==> o.fired == e.hit)
      && o.panel.buttons == Release(p.order, p.buttons, e.cursor)
      && o.panel.currentMesh == (if o.fired.Some? then ClickEffect(p.buttons[o.fired.value].clickFn, p.currentMesh) else p.currentMesh)
  {
    match e
    case MouseEnter(u) => Outcome(p.(buttons := Enter(p.buttons, u)), None)
    case MouseLeave(c) => Outcome(p.(buttons := Leave(p.buttons, c)), None)
    case MouseDown(c, h) => Outcome(p.(buttons := Press(p.buttons, c, h)), None)
    case MouseUp(c, h) =>
      var fired := ClickTarget(p.buttons, c, h);
      var mesh := if fired.Some? then ClickEffect(p.buttons[fired.value].clickFn, p.currentMesh) else p.currentMesh;
      Outcome(Panel(Release(p.order, p.buttons, c), p.order, mesh), fired)
  }

  /** The click log entry of one event: the fired button, if any. */
  function Fired(f: Option<Name>): (r: seq<Name>)
    ensures |r| <= 1 && (f.None? <==> r == []) && (f.Some? ==> r == [f.value])
  {
    match f
    case None => []
    case Some(k) => [k]
  }

  /** The events of `es`, handled one after another. No event adds or removes
      a button or reorders them. */
  function Run(p: Panel, es: seq<Event>): (t: Trace)
    ensures t.panel.buttons.Keys == p.buttons.Keys && t.panel.order == p.order
    ensures forall i :: 0 <= i < |t.clicks| ==> t.clicks[i] in p.buttons
    decreases |es|
  {
    if es == [] then Trace(p, [])
    else
      var t := Run(p, es[..|es| - 1]);
      var o := Step(t.panel, es[|es| - 1]);
      Trace(o.panel, t.clicks + Fired(o.fired))
  }

  // ----- the invariant -----

  lemma StepPreservesOk(p: Panel, e: Event)
    requires PanelOk(p)
    ensures PanelOk(Step(p, e).panel)
  {
  }

  /** Every reachable panel satisfies the invariant; in particular no record's
      `prevState` is ever `selected`, and every owned record has one. */
  lemma {:induction false} RunPreservesOk(p: Panel, es: seq<Event>)
    requires PanelOk(p)
    ensures PanelOk(Run(p, es).panel)
    decreases |es|
  {
    if es != [] {
      RunPreservesOk(p, es[..|es| - 1]);
      StepPreservesOk(Run(p, es[..|es| - 1]).panel, es[|es| - 1]);
    }
  }

  /** The number of release events in `es`. */
  function Releases(es: seq<Event>): (n: nat)
    ensures n <= |es|
    decreases |es|
  {
    if es == [] then 0
    else Releases(es[..|es| - 1]) + (if es[|es| - 1].MouseUp? then 1 else 0)
  }

  /** Only a release fires a click, and at most one: a trace never logs more
      clicks than it has releases. */
  lemma {:induction false} ClicksAtMostReleases(p: Panel, es: seq<Event>)
    ensures |Run(p, es).clicks| <= Releases(es)
    decreases |es|
  {
    if es != [] {
      var init := es[..|es| - 1];
      ClicksAtMostReleases(p, init);
      var o := Step(Run(p, init).panel, es[|es| - 1]);
      assert !es[|es| - 1].MouseUp? ==> o.fired == None;
    }
  }

  /** Ownership survives a leave: a pressed button that the ray leaves is
      shown and reported as default yet still owned, so releasing over it
      still fires its click. */
  lemma LeaveKeepsOwner(p: Panel, c: Cursor, a: Name)
    requires a in p.buttons
    ensures
      var o1 := Step(p, MouseDown(Some(c), Some(a)));
      var o2 := Step(o1.panel, MouseLeave(Some([a])));
      var o3 := Step(o2.panel, MouseUp(Some(c), Some(a)));
      && o2.panel.buttons[a].state == Default && o2.panel.buttons[a].style == Default
      && o2.panel.buttons[a].selector == Some(c)
      && o3.fired == Some(a)
  {
  }

  // ----- the press/release protocol -----

  /** A press followed by a release over the same button fires its click
      exactly once, and the button ends unowned with state default and the
      hover style (the press recorded `prevState = hover`). A second release
      fires nothing. */
  lemma ClickOnce(p: Panel, c: Cursor, w: Name)
    requires w in p.buttons && w in p.order && NoneOwnedBy(p.buttons, c)
    ensures
      var o1 := Step(p, MouseDown(Some(c), Some(w)));
      var o2 := Step(o1.panel, MouseUp(Some(c), Some(w)));
      var o3 := Step(o2.panel, MouseUp(Some(c), Some(w)));
      && o1.fired == None && o2.fired == Some(w) && o3.fired == None
      && o2.panel.currentMesh == ClickEffect(p.buttons[w].clickFn, p.currentMesh)
      && o2.panel.buttons == p.buttons[w := p.buttons[w].(style := Hover, state := Default, prevState := Some(Default), selector := None)]
  {
    SolePressThenRelease(p.order, p.buttons, c, w);
  }

  /** Dragging off: a press on `a` and a release anywhere else (another
      button or none) fires no click, and still restores `a`. */
  lemma DragOffSuppressesClick(p: Panel, c: Cursor, a: Name, h: Option<Name>)
    requires a in p.buttons && a in p.order && NoneOwnedBy(p.buttons, c) && h != Some(a)
    ensures
      var o1 := Step(p, MouseDown(Some(c), Some(a)));
      var o2 := Step(o1.panel, MouseUp(Some(c), h));
      && o2.fired == None
      && o2.panel.currentMesh == p.currentMesh
      && o2.panel.buttons == p.buttons[a := p.buttons[a].(style := Hover, state := Default, prevState := Some(Default), selector := None)]
  {
    SolePressThenRelease(p.order, p.buttons, c, a);
  }

  /** Two cursors pressing two different buttons: the first cursor's release
      fires only its own button, restores only that one, and leaves the other
      cursor's button selected and owned. */
  lemma IndependentCursors(p: Panel, c1: Cursor, c2: Cursor, a: Name, b: Name)
    requires a in p.buttons && b in p.buttons && a in p.order && b in p.order && a != b && c1 != c2
    requires NoneOwnedBy(p.buttons, c1) && NoneOwnedBy(p.buttons, c2)
    ensures
      var o1 := Step(p, MouseDown(Some(c1), Some(a)));
      var o2 := Step(o1.panel, MouseDown(Some(c2), Some(b)));
      var o3 := Step(o2.panel, MouseUp(Some(c1), Some(a)));
      && o3.fired == Some(a)
      && o3.panel.buttons == o2.panel.buttons[a := Restored(o2.panel.buttons[a])]
      && o3.panel.buttons[b].state == Selected && o3.panel.buttons[b].selector == Some(c2)
      && o3.panel.buttons[a].selector == None && o3.panel.buttons[a].state == Default
  {
    TwoCursorsPressThenRelease(p.order, p.buttons, c1, c2, a, b);
  }

  /** A press does not check for an owner: a second cursor takes the button
      over, and the first cursor's release over it then fires nothing and
      leaves it selected. */
  lemma SecondCursorTakesOver(p: Panel, c1: Cursor, c2: Cursor, a: Name)
    requires a in p.buttons && c1 != c2 && NoneOwnedBy(p.buttons, c1)
    ensures
      var o1 := Step(p, MouseDown(Some(c1), Some(a)));
      var o2 := Step(o1.panel, MouseDown(Some(c2), Some(a)));
      var o3 := Step(o2.panel, MouseUp(Some(c1), Some(a)));
      && o3.fired == None
      && o3.panel == o2.panel
      && o3.panel.buttons[a].state == Selected && o3.panel.buttons[a].selector == Some(c2)
  {
    var m2 := Press(Press(p.buttons, Some(c1), Some(a)), Some(c2), Some(a));
    assert NoneOwnedBy(m2, c1);
  }

  /** Two presses by one cursor without a release in between leave it owning
      two buttons; its release restores only the one that comes first in the
      enumeration order, and the other stays selected. */
  lemma DoublePressRestoresFirstOnly(p: Panel, c: Cursor, ia: nat, ib: nat)
    requires forall i, j :: 0 <= i < j < |p.order| ==> p.order[i] != p.order[j]
    requires ia < ib < |p.order| && p.order[ia] in p.buttons && p.order[ib] in p.buttons
    requires NoneOwnedBy(p.buttons, c)
    ensures
      var a, b := p.order[ia], p.order[ib];
      var o1 := Step(p, MouseDown(Some(c), Some(a)));
      var o2 := Step(o1.panel, MouseDown(Some(c), Some(b)));
      var o3 := Step(o2.panel, MouseUp(Some(c), Some(b)));
      && o3.fired == Some(b)
      && o3.panel.buttons[a].selector == None && o3.panel.buttons[a].state == Default
      && o3.panel.buttons[b].selector == Some(c) && o3.panel.buttons[b].state == Selected
  {
    DoublePressThenRelease(p.order, p.buttons, c, ia, ib);
  }

  // ----- hover follows the latest enter or leave -----

  predicate IsHoverEvent(e: Event)
  {
    e.MouseEnter? || e.MouseLeave?
  }

  /** True iff the event names button `w`. */
  predicate Touches(e: Event, w: Name)
  {
    match e
    case MouseEnter(u) => u == Some(w)
    case MouseLeave(c) => c.Some? && w in c.value
    case _ => false
  }

  /** The index of the last event in `es` that names `w`. */
  function LastTouch(es: seq<Event>, w: Name): (r: Option<nat>)
    ensures r.Some? ==> r.value < |es| && Touches(es[r.value], w)
    ensures r.Some? ==> forall j :: r.value < j < |es| ==> !Touches(es[j], w)
    ensures r.None? ==> forall j :: 0 <= j < |es| ==> !Touches(es[j], w)
    decreases |es|
  {
    if es == [] then None
    else if Touches(es[|es| - 1], w) then Some(|es| - 1)
    else LastTouch(es[..|es| - 1], w)
  }

  /** Under enter and leave events only, a button is hover (in state and in
      style) exactly when the last event that named it was an enter; one that
      no event named is unchanged; and its owner is never touched. */
  lemma {:induction false} HoverReflectsLatest(p: Panel, es: seq<Event>, w: Name)
    requires w in p.buttons
    requires forall i :: 0 <= i < |es| ==> IsHoverEvent(es[i])
    ensures
      var b := Run(p, es).panel.buttons[w];
      && b.selector == p.buttons[w].selector
      && match LastTouch(es, w)
         case None => b == p.buttons[w]
         case Some(i) => (b.state == Hover <==> es[i].MouseEnter?) && b.style == b.state
    decreases |es|
  {
    if es != [] {
      var init, e := es[..|es| - 1], es[|es| - 1];
      assert forall i :: 0 <= i < |init| ==> init[i] == es[i];
      HoverReflectsLatest(p, init, w);
      var before := Run(p, init).panel.buttons;
      var after := Run(p, es).panel.buttons;
      assert after == Step(Run(p, init).panel, e).panel.buttons;
      if Touches(e, w) {
        assert LastTouch(es, w) == Some(|es| - 1);
      } else {
        assert after[w] == before[w];
        assert LastTouch(es, w) == LastTouch(init, w);
      }
    }
  }

  // ----- a worked scenario -----

  /** Entering, pressing and releasing `buttonNext` with one cursor on a fresh
      panel: the button shows hover, then selected; the release fires its
      click once, moves to the box mesh, and leaves the button unowned with
      state default and style hover. */
  lemma NextButtonScenario(c: Cursor)
    ensures
      var o1 := Step(InitialPanel(), MouseEnter(Some(NextName)));
      var o2 := Step(o1.panel, MouseDown(Some(c), Some(NextName)));
      var o3 := Step(o2.panel, MouseUp(Some(c), Some(NextName)));
      && o1.panel.buttons[NextName].state == Hover
      && o2.panel.buttons[NextName].state == Selected && o2.panel.buttons[NextName].prevState == Some(Hover)
      && o3.fired == Some(NextName) && o3.panel.currentMesh == 1
      && o3.panel.buttons[NextName].state == Default && o3.panel.buttons[NextName].style == Hover
      && o3.panel.buttons[NextName].selector == None
  {
    var o1 := Step(InitialPanel(), MouseEnter(Some(NextName)));
    var o2 := Step(o1.panel, MouseDown(Some(c), Some(NextName)));
    OnlyOwned(o2.panel.order, o2.panel.buttons, c, NextName);
  }
}
