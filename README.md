# arena-ui-buttons: the multi-cursor button state machine, in Dafny

This project models the `arena-ui-buttons` A-Frame component of
arena-mesh-ui (`src/buttons.js`). The component holds a dictionary
`buttonMap` from button name to a record `{el, clickFn, state, prevState,
selector}`. Four event handlers update those records in place:

- **enter** (`mouseEnterHandler`): the button named by `UIEl` becomes hover;
- **leave** (`mouseLeaveHandler`): every button among the cleared elements' parent names is forced to default;
- **press** (`mouseDownHandler`): the hit button becomes selected and is owned (`selector`) by the pressing cursor;
- **release** (`mouseUpHandler`): the hit button's `clickFn` fires when the releasing cursor owns it; then the first button that cursor owns is restored and released.

The two click callbacks built by `makePanel` move a `currentMesh` index
through three meshes. `showMesh` makes exactly one of them visible.

Files:

- `buttons_model.dfy` (module `Buttons`): the records, the per-record
  invariant `ButtonOk`, and each handler as a function on the dictionary.
- `mesh_cycle.dfy` (module `Meshes`): the index arithmetic of the two click
  callbacks, with JavaScript's truncating `%` written out.
- `component.dfy` (module `Component`): the component as a value, `Step` for
  one event, `Run` for a sequence of events, and the lemmas about the
  press/release protocol.
- `arena_ui_buttons.dfy` (module `ArenaUi`): class `ButtonsComponent`. Its
  handlers update `buttonMap`, `currentMesh` and an `array<bool>` of mesh
  visibility step by step, with loops where the source has `forEach` and
  `find`. Each handler is proved to do exactly what `Step` does, so every
  trace lemma also holds of the object.

Each `el.set(BUTTONSTATES.x)` call is modelled as setting an abstract `style`
field to the tag `x`. `Object.values(buttonMap)` lists the records in
key-insertion order for non-numeric names such as `buttonNext` and
`buttonPrevious` (JavaScript lists integer-like keys first, ascending), so the model keeps that order as `order: seq<Name>`.
The release's `find` then means "the first owned record in `order`".

The model follows the code as written, including where it differs from an
idealised multi-pointer widget protocol:

- A press does not check for an existing owner. A second cursor takes the
  button over (`SecondCursorTakesOver`).
- A press records `prevState = hover` whatever the state was before. A
  release sets the logical `state` to default but the style to
  `BUTTONSTATES[prevState]`. So a click leaves the button with state default
  and style hover (`ClickOnce`, `NextButtonScenario`).
- A leave forces default even mid-press and keeps the owner. The button is
  then default yet owned, and a release over it still fires
  (`LeaveKeepsOwner`). "Owned exactly when selected" therefore does not hold.
  What does hold is "selected implies owned" (`ButtonOk`).
- An enter makes the button hover even when another cursor owns it.
- A release restores only the first button its cursor owns. If one cursor
  presses twice without a release, the other button stays selected
  (`DoublePressRestoresFirstOnly`).

## Model

| member | source | states |
|---|---|---|
| `Buttons.NewButton` | src/buttons.js:194-213 | a fresh record has style and state default, no `prevState`, no owner, the given `clickFn`, and satisfies the record invariant |
| `Buttons.Hovered` | src/buttons.js:78-80 | the enter assignments leave a record satisfying the invariant |
| `Buttons.Cleared` | src/buttons.js:90-92 | the leave assignments leave a record satisfying the invariant |
| `Buttons.Pressed` | src/buttons.js:102-105 | the press assignments leave a record satisfying the invariant |
| `Buttons.Restored` | src/buttons.js:119-124 | restoring an owned, valid record takes its style from `prevState` (never selected) and keeps the invariant |
| `Buttons.Enter` | src/buttons.js:72-83 | on a known `UIEl`: state hover, `prevState` default, style hover, owner and `clickFn` kept; every other button unchanged; a missing or unknown name changes nothing; the invariant is kept |
| `Buttons.ClearAll` | src/buttons.js:86-94 | the `forEach` over cleared names clears exactly the known buttons listed (repeats included) and leaves the rest unchanged |
| `Buttons.Leave` | src/buttons.js:84-95 | every listed known button gets state, `prevState` and style default, even when selected, and keeps its owner; unlisted buttons and an undefined list change nothing; the invariant is kept |
| `Buttons.Press` | src/buttons.js:97-108 | with a cursor and a known hit: state selected, `prevState` hover, style selected, owner = the cursor; no cursor, or a missing or unknown hit, changes nothing; other buttons unchanged; the invariant is kept |
| `Buttons.ClickTarget` | src/buttons.js:111-116 | a click fires exactly when there is a cursor, a hit, and the hit button exists and is owned by that cursor; the fired button is the hit one |
| `Buttons.FindOwner` | src/buttons.js:118 | the result is the index in enumeration order of the first button owned by the cursor, or none when no listed button is owned |
| `Buttons.Release` | src/buttons.js:111-124 | a release without a cursor changes nothing; otherwise only the first button owned by the releasing cursor changes: state and `prevState` default, owner cleared, style taken from `prevState`; buttons owned by other cursors or by none are unchanged; the invariant is kept |
| `Buttons.ClearAllStep` | src/buttons.js:86-94 | handling one more cleared name extends the `forEach` by exactly that name's update |
| `Buttons.OnlyOwned` | src/buttons.js:118 | when the cursor owns exactly one listed button, the release's search finds that button |
| `Buttons.SolePressThenRelease` | src/buttons.js:97-124 | a cursor owning nothing presses a button and releases: only that button changes, to unowned, state default, style hover, and the cursor owns nothing again |
| `Buttons.DoublePressThenRelease` | src/buttons.js:97-124 | a cursor owning nothing presses two buttons: it owns both, and its release restores only the one earlier in the enumeration order |
| `Buttons.TwoCursorsPressThenRelease` | src/buttons.js:97-124 | two cursors owning nothing press two different buttons: each owns its own, and the first cursor's release restores only its own |
| `Meshes.JsRem` | src/buttons.js:200 | JavaScript's remainder: equals Dafny's on non-negative dividends and lies in (-n, 0] for negative ones |
| `Meshes.JsRemIsOdd` | src/buttons.js:200 | the truncating remainder of `-a` is minus that of `a` |
| `Meshes.NextMesh` | src/buttons.js:199-202 | from an index in {0,1,2}, next stays in range, adds one, and wraps 2 to 0 |
| `Meshes.PreviousMesh` | src/buttons.js:207-211 | previous stays in range, subtracts one, and wraps 0 to 2 |
| `Meshes.NextThenPrevious` | src/buttons.js:199-211 | previous undoes next |
| `Meshes.PreviousThenNext` | src/buttons.js:199-211 | next undoes previous |
| `Meshes.ThreeNextsAreIdentity` | src/buttons.js:199-202 | three nexts return to the starting mesh |
| `Meshes.ThreePreviousAreIdentity` | src/buttons.js:207-211 | three previouses return to the starting mesh |
| `Component.InitialPanel` | src/buttons.js:135-213 | the panel starts on mesh 0 with exactly `buttonNext` and `buttonPrevious`, enumerated in that order, wired to the next and previous callbacks, both with style and state default, no `prevState` and no owner, and satisfies the invariant |
| `Component.ClickEffect` | src/buttons.js:199-211 | running either click callback keeps the mesh index in range |
| `Component.Step` | src/buttons.js:66-126 | each event goes to its handler; only a release can fire, and it fires exactly when the releasing cursor owns the hit button before the restore; the mesh moves by that button's callback only when it fired; the buttons become `Release` of the old ones |
| `Component.Run` | src/buttons.js:72-126 | no sequence of events adds, removes or reorders buttons, and every logged click names one of the buttons |
| `Component.ClicksAtMostReleases` | src/buttons.js:109-116 | a sequence of events never logs more clicks than it has releases |
| `Component.StepPreservesOk` | src/buttons.js:72-126 | every handler keeps the component invariant |
| `Component.RunPreservesOk` | src/buttons.js:79-121 | after any sequence of events, no `prevState` is selected and every owned button has a `prevState`, so `BUTTONSTATES[prevState]` is always defined on release |
| `Component.LeaveKeepsOwner` | src/buttons.js:84-116 | a leave during a press shows default but keeps the owner, and the owner's release over the button still fires it |
| `Component.ClickOnce` | src/buttons.js:97-126 | press then release over the same button fires it exactly once, applies its callback to the mesh index, and leaves it unowned, state default, style hover, with nothing else changed; a second release fires nothing |
| `Component.DragOffSuppressesClick` | src/buttons.js:109-124 | press on A, release over anything else (another button or nothing): no click, mesh unchanged, A restored and unowned, nothing else changed |
| `Component.IndependentCursors` | src/buttons.js:97-126 | two cursors pressing two different buttons: the first cursor's release fires only its own button, restores only that one, and leaves the other cursor's button selected and owned |
| `Component.SecondCursorTakesOver` | src/buttons.js:97-116 | a second cursor's press takes ownership; the first cursor's release then fires nothing and changes nothing |
| `Component.DoublePressRestoresFirstOnly` | src/buttons.js:117-124 | one cursor pressing two buttons: its release fires the hit one but restores only the first in order, and the other stays selected and owned |
| `Component.LastTouch` | src/buttons.js:72-95 | the index of the last enter or leave that names a button |
| `Component.HoverReflectsLatest` | src/buttons.js:72-95 | under enters and leaves only, a button is hover, in state and style, exactly when the last event naming it was an enter; an unnamed button is unchanged; the owner is never touched |
| `Component.NextButtonScenario` | src/buttons.js:72-202 | enter, press, release of `buttonNext` on a fresh panel shows hover, then selected with `prevState` hover, then fires once, moves to mesh 1, and leaves it unowned, state default, style hover |
| `ArenaUi.ButtonsComponent.constructor` | src/buttons.js:153-213 | the object starts as the initial panel with only the sphere visible |
| `ArenaUi.ButtonsComponent.MouseEnterHandler` | src/buttons.js:72-83 | the new dictionary is `Enter` of the old; the object invariant is kept |
| `ArenaUi.ButtonsComponent.ClearNames` | src/buttons.js:86-94 | the loop over cleared names yields `ClearAll` of the old dictionary |
| `ArenaUi.ButtonsComponent.MouseLeaveHandler` | src/buttons.js:84-95 | the new dictionary is `Leave` of the old; the object invariant is kept |
| `ArenaUi.ButtonsComponent.MouseDownHandler` | src/buttons.js:97-108 | the new dictionary is `Press` of the old; the object invariant is kept |
| `ArenaUi.ButtonsComponent.FindOwned` | src/buttons.js:118 | the search loop returns the first owned position in enumeration order, or none when no listed button is owned |
| `ArenaUi.ButtonsComponent.ShowMesh` | src/buttons.js:160-164 | afterwards mesh i is visible iff i == id |
| `ArenaUi.ButtonsComponent.NextClick` | src/buttons.js:199-202 | the index becomes `NextMesh` of the old one, and exactly that mesh is visible |
| `ArenaUi.ButtonsComponent.PreviousClick` | src/buttons.js:207-211 | the index becomes `PreviousMesh` of the old one, and exactly that mesh is visible |
| `ArenaUi.ButtonsComponent.CallClickFn` | src/buttons.js:115 | calling the button's `clickFn` moves the mesh index by `ClickEffect` of its action and keeps the object invariant |
| `ArenaUi.ButtonsComponent.RestoreOwned` | src/buttons.js:117-124 | the dictionary becomes `Release` of the old for this cursor |
| `ArenaUi.ButtonsComponent.MouseUpHandler` | src/buttons.js:109-126 | the fired button is `ClickTarget` of the old dictionary; its callback moves the mesh index; the dictionary becomes `Release` of the old; together this is exactly `Step` |

## Left out

- src/card.js, src/prompt.js, src/click-listener.js, src/main.js, src/constants.js and vite.config.js are not part of this model. They hold layout, texture loading, listener plumbing that does nothing, and constants.
- Scene and geometry setup in `init` and `makePanel` is left out: groups, meshes, materials, positions and the `ThreeMeshUI.Block` layout. Only the `visible` flags of the three meshes are kept.
- `el.set` merges partial style options, so a style's look depends on earlier calls (hover sets only a background colour). The model keeps only the tag of the last style applied, not the merged colour, offset and padding values.
- The raycaster layer that produces enter, leave, press and release events is not part of this model. Its events are method inputs: a name for enter, a list of parent names for leave, and an optional cursor plus an optional hit parent name for press and release. `init`'s listener registration is represented by these four methods.
- A `cursorEl` key that is present but holds `undefined` is not modelled. A cursor is either absent or a defined identity.
- Property lookups that JavaScript resolves through the prototype chain (a hit parent named `constructor`, for instance) are not modelled. Only names inserted into `buttonMap` are buttons.
- `buttonMap` is declared on the component definition, so every instance of the component shares one dictionary. The model gives each object its own.
- Records are values in a map that the handlers reassign, not shared objects. Nothing outside `buttonMap` holds a reference to a record, so no aliasing is lost.
- Buttons.Restored: when `prevState` is absent, `BUTTONSTATES[undefined]` passes `undefined` to `el.set`; the model leaves the style unchanged instead. `RunPreservesOk` shows that an owned button always has a `prevState`, so a release never reaches that case.
