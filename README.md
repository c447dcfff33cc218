# MUI ripple effect, modelled in Dafny

A model of MUI's button ripple, in its two versions. The first is the
plain-JavaScript module `src/js/ripple.js`. The second is the Angular
directives `muiButton` and `muiRipple` in `src/angular/button.js`.

A press on a button creates a `mui-ripple-effect` element. It is sized and
placed so that a square of side `diameter` is centred on the contact point;
the diameter is halved on a `mui-btn--fab` button. The element is appended to
the button, a release handler is bound to `mouseup mouseleave touchend`, and
an animation frame is requested. The frame stamps the start time `t0` and adds
`mui--animate-in mui--active`.

The first release does three things. It unbinds the handler and drops
`mui--active`. It adds `mui--animate-out` when more than 600 ms have passed
since `t0`. And it queues one timer that takes the ripple out of the button
600 ms later.

Files (modules):

- `wrappers.dfy` (`Wrappers`): `Option`.
- `events.dfy` (`Events`): DOM event types and the pointer event.
- `geometry.dfy` (`Geometry`): the size and position arithmetic, on exact reals.
- `lifecycle.dfy` (`Lifecycle`): the value view of one ripple (`RippleView`).
  - The three events that drive it: animation frame, release, timer due.
  - A trace machine `Run` over those events.
  - Every lemma about timing: exactly-once scheduling, the animate-out rule, when removal happens.
- `dom.dfy` (`Dom`): the DOM objects changed in place.
  - The classes `Button` and `Ripple`.
  - Listener sets with `On`/`Off`.
  - `Ripple.View()`, the link between the objects and `Lifecycle`.
- `ripple.dfy` (`RippleJs`): the functions of `src/js/ripple.js` as methods on those objects.
- `button.dfy` (`NgButton`): the two link functions of `src/angular/button.js`.
- `host.dfy` (`Host`): the browser's side.
  - It runs a queued frame, delivers a release to a bound handler, and fires a due timer.
  - Each step is proved to change `Ripple.View()` exactly as `Lifecycle.Step` does, so the trace lemmas hold of the objects.
  - `Host.DeliverRelease` runs the corrected Angular release handler (see "## Findings"); `Host.DeliverReleaseAsWritten` runs the Angular handler as written, and its steps match `Lifecycle.Step` with the timer that removes nothing.

Time is an integer clock in milliseconds, carried by each event. The
`requestAnimationFrame` and `setTimeout` callbacks are explicit per-ripple
queues: `framePending` and `timers`. `new Date` is the time of the event that
runs the callback. `jqLite.offset(el)` is an input to the press handlers.

Points where the code's behaviour may be unexpected:

- It has no deduplication window between `touchstart` and `mousedown`.
- It has no "pressed" flag.
- Removal does not wait for the later of the release and the animation's end.
  The ripple is removed 600 ms after the first release. In a press released
  100 ms after the first frame it is still in place at 600 ms and gone at
  700 ms (`Lifecycle.RemovedAtReleasePlusDuration`).
- A release that comes before the first frame finds `t0` undefined
  (`new Date - undefined` is `NaN`). So `mui--animate-out` is not added, and
  the frame that follows still adds `mui--active`
  (`Lifecycle.ReleaseBeforeFrameReactivates`).
- There is no guard against re-entry: each accepted press appends a new ripple.

## Model

| member | source | states |
|---|---|---|
| Geometry.CreateStyle | src/js/ripple.js:70-87 | The ripple is square. Its side is the button's height, or half of it on a `mui-btn--fab` button. Its centre is the contact point relative to the button's offset. |
| Geometry.RegularButtonExample | src/js/ripple.js:76-87 | A 40 px button pressed 10 px inside its corner gets a 40 px ripple at top/left -10. |
| Geometry.FabButtonExample | src/js/ripple.js:77 | On a floating action button the same press gets a 20 px ripple at top/left 0. |
| Lifecycle.Created | src/js/ripple.js:52-58 | A ripple right after an accepted press is attached, bound to the three release events, and has its frame queued. It has no `t0`, no timer, and none of `mui--animate-in`, `mui--active`, `mui--animate-out`. |
| Lifecycle.Elapsed | src/js/ripple.js:112 | The test fails while `t0` is undefined, and whenever at most 600 ms have passed since `t0`. |
| Lifecycle.OnFrame | src/js/ripple.js:127-130 | The frame stamps `t0` with now and adds `mui--animate-in` and `mui--active`, and no other class. It leaves the frame no longer queued and changes nothing else. |
| Lifecycle.OnRelease | src/js/ripple.js:104-121 | The release handler leaves the ripple bound to no event and without `mui--active`. `mui--animate-out` is present iff it was or the animation has run longer than 600 ms. Exactly one timer is appended, due 600 ms from now. Nothing else changes. |
| Lifecycle.OnTimeout | src/js/ripple.js:117-120 | A firing timer leaves the queue, which loses exactly that one timer. The ripple stays attached iff it was and the timer removes nothing. Nothing else changes. |
| Lifecycle.Step | src/js/ripple.js:97-131 | No event re-attaches a ripple, and only a timeout detaches it. Only a release unbinds the handler, and nothing binds it again. Nothing re-queues the frame. At most one timer is added, and the queue changes only by a timeout or a release reaching the bound handler. |
| Lifecycle.SchedulesFrom | src/js/ripple.js:104-124 | From a view bound to all release events or to none: the handler queues exactly one removal, at the first release, if it was bound, and none otherwise. |
| Lifecycle.BoundUntilRelease | src/js/ripple.js:104-106 | From a view bound to all release events or to none: the handler stays bound exactly until the first release, and never again after it. |
| Lifecycle.ScheduledExactlyOnce | src/js/ripple.js:104-124 | Over any trace from creation, at most one removal is queued. It is queued 600 ms after the first release if there is one, and none is queued otherwise. The handler stays bound until the first release. |
| Lifecycle.QueueFromSchedules | src/js/ripple.js:117-120 | Every timer in the real removal queue at the end of a trace was either queued at its start or queued by the release handler along it, with multiplicity. |
| Lifecycle.AtMostOneTimer | src/js/ripple.js:104-121 | Over any trace from creation, the real removal queue holds at most one timer. |
| Lifecycle.BeforeRelease | src/js/ripple.js:124-130 | Before any release there is no timer and the handler stays bound. `mui--animate-out` is not added and the ripple stays attached. `t0` is the time of the first frame if a frame was queued. |
| Lifecycle.AfterRelease | src/js/ripple.js:106-114 | Once the handler is unbound, no later event adds or removes `mui--animate-out`. |
| Lifecycle.AnimateOutIff | src/js/ripple.js:112-114 | `mui--animate-out` is present at the end of a trace iff a frame came before the first release and the release came more than 600 ms after that frame. |
| Lifecycle.ActiveAfterRelease | src/js/ripple.js:109-130 | Once the handler is unbound, `mui--active` is present iff it already was or a still-queued frame runs. |
| Lifecycle.ActiveIff | src/js/ripple.js:109-130 | `mui--active` is present at the end of a trace iff no frame came before the first release and one came after it. |
| Lifecycle.StaysWithoutRelease | src/js/ripple.js:97-131 | Without a release the ripple stays attached and has no timer and no `mui--animate-out`. |
| Lifecycle.QuietAfterRemoval | src/js/ripple.js:117-120 | With the handler unbound and no timer queued, nothing changes whether the ripple is attached. |
| Lifecycle.RemovalAfterRelease | src/js/ripple.js:117-120 | With the single removal queued, the ripple is detached iff a timeout for it fires at or after its due time. |
| Lifecycle.RemovedIff | src/js/ripple.js:104-121 | After the first release at time `at`, the ripple is removed iff its timer fires at or after `at + 600`. |
| Lifecycle.DetachedStaysDetached | src/js/ripple.js:118-119 | A detached ripple stays detached. |
| Lifecycle.UnboundTimersKeepAttached | src/angular/button.js:107 | If every queued timer calls `remove` without its element, no trace detaches the ripple. |
| Lifecycle.UnboundRemovalLeaks | src/angular/button.js:107 | With the timer as written, a ripple of the Angular directive is attached after every trace. |
| Lifecycle.ReleaseBeforeFrameReactivates | src/js/ripple.js:112-130 | Release at 5 ms, frame at 16 ms: no `mui--animate-out`; the ripple is active and animating in; one removal is due at 605 ms. |
| Lifecycle.RemovedAtReleasePlusDuration | src/js/ripple.js:117-120 | Frame at 0 and release at 100: attached at 600 ms, detached at 700 ms. |
| Dom.On | src/js/ripple.js:124 | Binding keeps every listener, adds one per named event, and adds nothing else. A repeated binding adds nothing. |
| Dom.Off | src/js/ripple.js:106 | Unbinding removes exactly the handler's listeners for the named events. |
| Dom.Without | src/js/ripple.js:119 | `removeChild`: the ripple is no longer a child; every other child stays, as often as before. |
| Dom.Ripple.constructor | src/js/ripple.js:67 | A new `div` has no classes, style, start time, queued callbacks or parent. |
| RippleJs.PressEvent | src/js/ripple.js:30-34 | The press event is `touchstart` iff the element supports touch, and `mousedown` otherwise. It is never a release event. |
| RippleJs.BoundListeners | src/js/ripple.js:23-34 | `initialize` keeps every listener and adds only the press listener. It adds nothing to a bound button or an `INPUT`, and adds the press listener to any other. |
| RippleJs.Accepts | src/js/ripple.js:44-49 | A press on a disabled button is refused. Any other touch press is accepted. A `mousedown` is accepted iff the button is enabled and the mouse button is the primary one. |
| RippleJs.BindingAddsOnePressListener | src/js/ripple.js:21-35 | An unbound non-`INPUT` button gets exactly one press listener, for the event its touch support selects. Other buttons get none. No other listener changes. |
| RippleJs.Initialize | src/js/ripple.js:21-35 | Sets `_muiRipple`. Binds the press handler only on the first call, and never on an `INPUT`. |
| RippleJs.CreateEl | src/js/ripple.js:66-90 | A new ripple element with class `mui-ripple-effect`, no parent, and the style of `Geometry.CreateStyle`. |
| RippleJs.AnimateEl | src/js/ripple.js:97-131 | Binds the ripple's handler to the three release events and queues its frame. |
| RippleJs.EventHandler | src/js/ripple.js:42-59 | A secondary-button `mousedown` or a press on a disabled button changes nothing. Any other press appends exactly one new ripple, with the geometry's style and the view `Created()`. |
| RippleJs.MouseHandler | src/js/ripple.js:104-121 | Unbinds only this ripple's handler. The new view is `OnRelease` of the old one with removal from the parent. |
| RippleJs.FrameCallback | src/js/ripple.js:127-130 | Sets `t0` to now and adds `mui--animate-in` and `mui--active`. |
| RippleJs.RemoveCallback | src/js/ripple.js:117-120 | Takes the ripple out of its parent when it has one. Otherwise it does nothing. |
| RippleJs.WithClass | src/js/ripple.js:141 | The elements returned are exactly those that carry the class. |
| RippleJs.InitListeners | src/js/ripple.js:137-142 | Every `mui-btn` element of the document ends bound as by one `initialize` on its starting state. Every other element is untouched. |
| RippleJs.NodesInserted | src/js/ripple.js:145-147 | The same for each element the insertion watcher reports, however often it is reported. |
| NgButton.ModifierClasses | src/angular/button.js:39-42 | A class is added iff it is `mui-btn--` followed by the truthy value of `variant`, `color` or `size`. |
| NgButton.AddModifierClasses | src/angular/button.js:39-42 | The `forEach` loop adds exactly `ModifierClasses` to the element's classes. |
| NgButton.MuiButtonLink | src/angular/button.js:25-43 | Sets `_muiDropdown` and `_muiRipple`. Sets `disabled` iff `disabled` is given without `ngDisabled`. Adds exactly the modifier classes. |
| NgButton.LinkThenInitialize | src/angular/button.js:30-31 | After the `muiButton` link, the plain module's `initialize` binds nothing. |
| NgButton.PressEventAsWritten | src/angular/button.js:53 | As written, the press event is always `mousedown`. |
| NgButton.PressEventAsWrittenIgnoresTouch | src/angular/button.js:53 | As written, a touch-capable element gets a different event from the one the plain module binds. |
| NgButton.MuiRippleLink | src/angular/button.js:53-59 | Binds the directive's press handler to `touchstart` on touch-capable elements and to `mousedown` otherwise. |
| NgButton.ApplyStyles | src/angular/button.js:80-83 | The `for ... in` loop sets each of the four style properties to its computed value. |
| NgButton.PressHandler | src/angular/button.js:59-118 | A press on a disabled element changes nothing. Any other press, with any mouse button, appends one ripple. The ripple has the same geometry and initial view as in the plain module, its release handler bound and its frame queued. |
| NgButton.MouseHandlerAsWritten | src/angular/button.js:94-108 | The release handler as written: the view is `OnRelease` with a timer that calls `remove` without its element. |
| NgButton.MouseHandler | src/angular/button.js:94-108 | The release handler with the removal bound to the ripple: the view is `OnRelease` with removal from the parent. |
| NgButton.FrameCallback | src/angular/button.js:114-117 | Sets `t0` to now and adds `mui--animate-in` and `mui--active`. |
| NgButton.Remove | src/angular/button.js:107 | jqLite `remove` on the ripple: detaches it from its parent when it has one. |
| Host.RunFrame | src/js/ripple.js:127-130 | Running the frame changes the ripple's view exactly as `Lifecycle.Step` with a `Frame` event. |
| Host.DeliverRelease | src/js/ripple.js:104-124 | Delivering a release changes the view exactly as `Lifecycle.Step` with a `Release` event and removal from the parent. An Angular ripple runs the corrected handler. The button's other listeners, its press listener among them, are untouched; the ripple's own are removed iff the event reached its handler. Every other ripple stays bound as before. |
| Host.DeliverReleaseAsWritten | src/angular/button.js:94-111 | Delivering a release with both handlers as written changes the view exactly as `Lifecycle.Step` with a `Release` event, whose timer removes nothing for an Angular ripple and removes the ripple otherwise. The button's other listeners, its press listener among them, are untouched; the ripple's own are removed iff the event reached its handler. Every other ripple stays bound as before. |
| Host.RunTimer | src/js/ripple.js:117-120 | Firing a timer changes the view exactly as `Lifecycle.Step` with a `Timeout` event. The parent loses exactly this ripple when it is detached, and is unchanged otherwise. |

## Left out

- `src/js/lib/jqLite.js` and `src/js/lib/util.js` are not part of this model.
  `jqLite.offset` is a parameter of the press handlers. The insertion watcher
  `util.onNodeInserted` is modelled as the sequence of elements it reports.
  `on`/`off` are modelled on `addEventListener` semantics, where a repeated
  identical binding adds nothing.
- Real time, `requestAnimationFrame` and `setTimeout` are left out. Each is an
  event with an explicit time. The order in which the browser interleaves
  callbacks of different ripples is left free: any trace is allowed.
- A release event reaching several ripples of one button is delivered to one
  handler at a time (`Host.DeliverRelease`), not as one dispatch.
- Angular module registration, the directive template, `replace`,
  transclusion and the isolated `type` scope binding are not modelled.
  `angular.isUndefined` on an attribute is modelled as that attribute
  missing from the attribute map.
- CSS values are exact reals; the `'px'` string suffix and the browser's
  layout are not modelled.
- The code has no touch/mouse deduplication window and no "pressed" flag, so
  the model has neither.
- NgButton.ModifierClasses: attribute values are taken to be single class
  tokens. jqLite's `addClass` splits its argument on spaces, so a value such as
  `"raised big"` adds `mui-btn--raised` and `big`, where the model adds the one
  string `"mui-btn--raised big"`.
- Events.PointerEvent: every press is assumed to carry its contact point in
  `pageX`/`pageY`. Both press handlers read `ev.pageX`/`ev.pageY` of a
  `touchstart` event as well, and the Touch Events standard puts those fields
  on the `Touch` objects of `ev.touches`, not on the `TouchEvent`; on a touch
  press the source's `top`/`left` may be `NaN`. Geometry.CreateStyle's centring
  therefore holds for touch presses only under this assumption.
- Several `muiRipple` links on one element bind one listener per event in
  the model. The browser would bind each link's own closure.
- NgButton.MouseHandlerAsWritten: assumes the window that receives the
  unbound `remove` call holds no frames, so no element is touched.

## Findings

| source | as written | input that shows it | evidently intended | confidence | as-written member | corrected member |
|---|---|---|---|---|---|---|
| src/angular/button.js:53 | `'ontouchstart' in element` asks the jqLite wrapper, which never has that property | any touch-capable element: the directive binds `mousedown`, while `src/js/ripple.js:30` binds `touchstart` | ask the DOM element `element[0]`, as the plain module does | not executed | NgButton.PressEventAsWritten, NgButton.PressEventAsWrittenIgnoresTouch | NgButton.MuiRippleLink |
| src/angular/button.js:107 | `setTimeout(rippleEl.remove, animationDuration)` passes `remove` detached from `rippleEl` | any press followed by a release and a timer run: the ripple stays in the button | remove the ripple 600 ms after release, as `src/js/ripple.js:117-120` does | not executed | NgButton.MouseHandlerAsWritten, Lifecycle.UnboundRemovalLeaks | NgButton.MouseHandler, Lifecycle.RemovedIff |
