/**
 * The plain-JavaScript ripple module: binding a button once, accepting a press,
 * building and placing the ripple element, and the closures that animate it
 * and take it out again.
 */
module RippleJs {
  import opened Wrappers
  import opened Events
  import opened Dom
  import Geometry
  import Lifecycle

  /** The press event bound on an element: `touchstart` where touch is supported, else `mousedown`. */
  function PressEvent(touchCapable: bool): (t: EventType)
    ensures t == TouchStart <==> touchCapable
    ensures t == TouchStart || t == MouseDown
    ensures t !in ReleaseEvents
  {
    if touchCapable then TouchStart else MouseDown
  }

  /** The listener set `initialize` leaves on an element that had `ls`. */
  function BoundListeners(alreadyBound: bool, tagName: string, touchCapable: bool, ls: set<Listener>): (r: set<Listener>)
    ensures forall l | l in ls :: l in r
    ensures forall l | l in r && l !in ls :: l == Listener(PressEvent(touchCapable), PressHandler)
    ensures alreadyBound || tagName == "INPUT" ==> r == ls
    ensures !alreadyBound && tagName != "INPUT" ==> Listener(PressEvent(touchCapable), PressHandler) in r
  {
    if alreadyBound || tagName == "INPUT" then ls else On(ls, {PressEvent(touchCapable)}, PressHandler)
  }

  /**
   * A button that had no press handler gets exactly one, for the press event its
   * touch support selects; an `INPUT` or an already bound element keeps its listeners.
   */
  lemma BindingAddsOnePressListener(alreadyBound: bool, tagName: string, touchCapable: bool, ls: set<Listener>)
    requires forall l | l in ls :: l.handler != PressHandler
    ensures var r := BoundListeners(alreadyBound, tagName, touchCapable, ls);
      (set l | l in r && l.handler == PressHandler) ==
        if alreadyBound || tagName == "INPUT" then {} else {Listener(PressEvent(touchCapable), PressHandler)}
    ensures var r := BoundListeners(alreadyBound, tagName, touchCapable, ls);
      forall l | l in r && l.handler != PressHandler :: l in ls
  {
  }

  /**
   * `initialize`: the first call sets `_muiRipple` (an `INPUT` gets nothing more)
   * and binds the press handler; every later call returns at once.
   */
  method Initialize(b: Button)
    modifies b`muiRipple, b`listeners
    ensures b.muiRipple
    ensures b.listeners == BoundListeners(old(b.muiRipple), b.tagName, b.touchCapable, old(b.listeners))
  {
    if b.muiRipple {
      return;
    }
    b.muiRipple := true;
    if b.tagName == "INPUT" {
      return;
    }
    if b.touchCapable {
      b.listeners := On(b.listeners, {TouchStart}, PressHandler);
    } else {
      b.listeners := On(b.listeners, {MouseDown}, PressHandler);
    }
  }

  /** The press is handled: not a secondary mouse button, and the button is not disabled. */
  predicate Accepts(ev: PointerEvent, disabled: bool)
    ensures disabled ==> !Accepts(ev, disabled)
    ensures ev.kind != MouseDown ==> (Accepts(ev, disabled) <==> !disabled)
    ensures ev.kind == MouseDown ==> (Accepts(ev, disabled) <==> !disabled && ev.button == 0)
  {
    !(ev.kind == MouseDown && ev.button != 0) && !disabled
  }

  /** `createEl`: a new `div` with class `mui-ripple-effect`, sized and placed by the geometry. */
  method CreateEl(ev: PointerEvent, b: Button, offset: Geometry.Offset) returns (r: Ripple)
    ensures fresh(r) && r.owner == b && !r.angular
    ensures r.classes == {Lifecycle.RippleClass}
    ensures r.style == Geometry.Css(Geometry.CreateStyle(ev.pageX, ev.pageY, offset, FabClass in b.classes))
    ensures r.t0 == None && !r.framePending && r.timers == [] && r.parent == null
  {
    r := new Ripple(b, false);
    r.classes := {Lifecycle.RippleClass};
    var s := Geometry.CreateStyle(ev.pageX, ev.pageY, offset, FabClass in b.classes);
    r.style := r.style + Geometry.Css(s);
  }

  /** `animateEl`: bind the ripple's release handler on the button and request an animation frame. */
  method AnimateEl(r: Ripple, b: Button)
    modifies b`listeners, r`framePending
    ensures b.listeners == On(old(b.listeners), ReleaseEvents, ReleaseHandler(r))
    ensures r.framePending
  {
    b.listeners := On(b.listeners, ReleaseEvents, ReleaseHandler(r));
    r.framePending := true;
  }

  /**
   * `eventHandler`: a secondary-button `mousedown` or a press on a disabled button
   * changes nothing; any other press appends exactly one new ripple, placed by the
   * geometry, with its release handler bound and its frame requested.
   */
  method EventHandler(b: Button, ev: PointerEvent, offset: Geometry.Offset) returns (r: Ripple?)
    modifies b`children, b`listeners
    ensures !Accepts(ev, b.disabled) ==> r == null && b.children == old(b.children) && b.listeners == old(b.listeners)
    ensures Accepts(ev, b.disabled) ==>
      r != null && fresh(r) && r.owner == b && r.parent == b && !r.angular
      && b.children == old(b.children) + [r]
      && b.listeners == On(old(b.listeners), ReleaseEvents, ReleaseHandler(r))
      && r.style == Geometry.Css(Geometry.CreateStyle(ev.pageX, ev.pageY, offset, FabClass in b.classes))
      && r.View() == Lifecycle.Created()
  {
    if ev.kind == MouseDown && ev.button != 0 {
      return null;
    }
    if b.disabled {
      return null;
    }
    r := CreateEl(ev, b, offset);
    // appendChild
    b.children := b.children + [r];
    r.parent := b;
    AnimateEl(r, b);
  }

  /**
   * `mouseHandler`: unbind itself from the three release events, drop `mui--active`,
   * add `mui--animate-out` if more than 600ms passed since `t0`, and queue one removal
   * 600ms from now. Other ripples of the button keep their handlers.
   */
  method MouseHandler(r: Ripple, now: int)
    modifies r.owner`listeners, r`classes, r`timers
    ensures r.owner.listeners == Off(old(r.owner.listeners), ReleaseEvents, ReleaseHandler(r))
    ensures r.View() == Lifecycle.OnRelease(old(r.View()), now, Lifecycle.RemoveFromParent)
  {
    var b := r.owner;
    b.listeners := Off(b.listeners, ReleaseEvents, ReleaseHandler(r));
    r.classes := r.classes - {Lifecycle.ActiveClass};
    if Lifecycle.Elapsed(now, r.t0) {
      r.classes := r.classes + {Lifecycle.AnimateOutClass};
    }
    r.timers := r.timers + [Lifecycle.Timer(now + Lifecycle.AnimationDuration, Lifecycle.RemoveFromParent)];
    assert r.Listening() == {};
  }

  /** The animation-frame callback: stamp `t0` and add `mui--animate-in mui--active`. */
  method FrameCallback(r: Ripple, now: int)
    modifies r`t0, r`classes
    ensures r.t0 == Some(now)
    ensures r.classes == old(r.classes) + {Lifecycle.AnimateInClass, Lifecycle.ActiveClass}
  {
    r.t0 := Some(now);
    r.classes := r.classes + {Lifecycle.AnimateInClass, Lifecycle.ActiveClass};
  }

  /** The removal callback: take the ripple out of its parent, or do nothing when it has none. */
  method RemoveCallback(r: Ripple)
    modifies r`parent, (if r.parent != null then {r.parent} else {})`children
    ensures r.parent == null
    ensures old(r.parent) != null ==> old(r.parent).children == Without(old(r.parent.children), r)
  {
    var parentNode := r.parent;
    if parentNode != null {
      parentNode.children := Without(parentNode.children, r);
      r.parent := null;
    }
  }

  /** The elements of `els` that carry class `c`. */
  function WithClass(els: seq<Button>, c: string): (r: seq<Button>)
    reads els
    ensures forall b | b in r :: b in els && c in b.classes
    ensures forall b | b in els && c in b.classes :: b in r
    decreases |els|
  {
    if els == [] then []
    else (if c in els[0].classes then [els[0]] else []) + WithClass(els[1..], c)
  }

  /** `b` is bound as by one `initialize` call on the state (`wasBound`, `ls`) if `done`, and is untouched otherwise. */
  ghost predicate Settled(b: Button, done: bool, wasBound: bool, ls: set<Listener>)
    reads b
  {
    if done then b.muiRipple && b.listeners == BoundListeners(wasBound, b.tagName, b.touchCapable, ls)
    else b.muiRipple == wasBound && b.listeners == ls
  }

  /**
   * The loop of `initListeners`: bind every `mui-btn` element of the document, last
   * to first. Each ends up bound as by one `initialize` call on its starting state,
   * however often it occurs; the other elements are left alone.
   */
  method InitListeners(doc: seq<Button>)
    modifies doc`muiRipple, doc`listeners
    ensures forall b | b in doc ::
      Settled(b, BtnClass in b.classes, old(b.muiRipple), old(b.listeners))
  {
    ghost var bound0 := map b | b in doc :: b.muiRipple;
    ghost var ls0 := map b | b in doc :: b.listeners;
    ghost var done: set<Button> := {};
    var elList := WithClass(doc, BtnClass);
    var i := |elList|;
    while i > 0
      invariant 0 <= i <= |elList|
      invariant forall b | b in done :: b in doc && BtnClass in b.classes
      invariant forall k | i <= k < |elList| :: elList[k] in done
      invariant forall b | b in doc :: Settled(b, b in done, bound0[b], ls0[b])
    {
      i := i - 1;
      var el := elList[i];
      assert el in elList;
      Initialize(el);
      done := done + {el};
    }
    forall b | b in doc
      ensures Settled(b, BtnClass in b.classes, bound0[b], ls0[b])
    {
      assert Settled(b, b in done, bound0[b], ls0[b]);
      if BtnClass in b.classes {
        assert b in elList;
      }
    }
  }

  /**
   * The insertion watcher's callback, for each element of the feed in turn: bind it
   * if it has class `mui-btn`. Each such element ends up bound as by one `initialize`
   * call on its starting state, however often it is inserted.
   */
  method NodesInserted(feed: seq<Button>)
    modifies feed`muiRipple, feed`listeners
    ensures forall b | b in feed ::
      Settled(b, BtnClass in b.classes, old(b.muiRipple), old(b.listeners))
  {
    ghost var bound0 := map b | b in feed :: b.muiRipple;
    ghost var ls0 := map b | b in feed :: b.listeners;
    ghost var done: set<Button> := {};
    for j := 0 to |feed|
      invariant forall b | b in done :: b in feed && BtnClass in b.classes
      invariant forall k | 0 <= k < j && BtnClass in feed[k].classes :: feed[k] in done
      invariant forall b | b in feed :: Settled(b, b in done, bound0[b], ls0[b])
    {
      var el := feed[j];
      if BtnClass in el.classes {
        Initialize(el);
        done := done + {el};
      }
    }
    forall b | b in feed
      ensures Settled(b, BtnClass in b.classes, bound0[b], ls0[b])
    {
      assert Settled(b, b in done, bound0[b], ls0[b]);
      if BtnClass in b.classes {
        var k :| 0 <= k < |feed| && feed[k] == b;
      }
    }
  }
}
