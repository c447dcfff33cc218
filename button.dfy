/**
 * The Angular button directives: `muiButton` (flags, disabled propagation,
 * modifier classes) and `muiRipple` (the same ripple geometry and lifecycle as
 * the plain-JavaScript module, without the left-click filter).
 */
module NgButton {
  import opened Wrappers
  import opened Events
  import opened Dom
  import Geometry
  import Lifecycle
  import RippleJs

  /** The attributes whose values become `mui-btn--<value>` classes, in `forEach` order. */
  const StyleAttributes: seq<string> := ["variant", "color", "size"]

  const ModifierPrefix: string := "mui-btn--"

  /** An attribute value tested by `if (attrVal)`: present and not the empty string. */
  predicate Truthy(attrs: map<string, string>, name: string) {
    name in attrs && attrs[name] != ""
  }

  /** The classes the `forEach` over `names` adds, one name after the other. */
  function ModifierClasses(names: seq<string>, attrs: map<string, string>): (cs: set<string>)
    ensures forall c | c in cs :: exists n | n in names :: Truthy(attrs, n) && c == ModifierPrefix + attrs[n]
    ensures forall n | n in names && Truthy(attrs, n) :: ModifierPrefix + attrs[n] in cs
    decreases |names|
  {
    if names == [] then {}
    else
      var n := names[|names| - 1];
      var init := names[..|names| - 1];
      assert names == init + [n];
      ModifierClasses(init, attrs) + (if Truthy(attrs, n) then {ModifierPrefix + attrs[n]} else {})
  }

  /**
   * The `muiButton` link function: set `_muiDropdown` and `_muiRipple`, set
   * `disabled` when the `disabled` attribute is present and `ngDisabled` is not,
   * and add `mui-btn--<value>` for each of `variant`, `color`, `size` whose value
   * is truthy. Nothing else changes.
   */
  method MuiButtonLink(el: Button, attrs: map<string, string>)
    modifies el`muiDropdown, el`muiRipple, el`disabled, el`classes
    ensures el.muiDropdown && el.muiRipple
    ensures el.disabled == if "disabled" in attrs && "ngDisabled" !in attrs then true else old(el.disabled)
    ensures el.classes == old(el.classes) + ModifierClasses(StyleAttributes, attrs)
  {
    el.muiDropdown := true;
    el.muiRipple := true;
    if "disabled" in attrs && "ngDisabled" !in attrs {
      el.disabled := true;
    }
    AddModifierClasses(el, StyleAttributes, attrs);
  }

  /** The `forEach` of the link function: add `mui-btn--<value>` for each truthy attribute of `names`, in order. */
  method AddModifierClasses(el: Button, names: seq<string>, attrs: map<string, string>)
    modifies el`classes
    ensures el.classes == old(el.classes) + ModifierClasses(names, attrs)
  {
    for i := 0 to |names|
      invariant el.classes == old(el.classes) + ModifierClasses(names[..i], attrs)
    {
      var attrName := names[i];
      assert names[..i + 1][..i] == names[..i];
      if Truthy(attrs, attrName) {
        el.classes := el.classes + {ModifierPrefix + attrs[attrName]};
      }
    }
    assert names[..|names|] == names;
  }

  /**
   * A button linked by `muiButton` is left alone by the plain-JavaScript module:
   * a later `initialize` binds nothing.
   */
  method LinkThenInitialize(el: Button, attrs: map<string, string>)
    modifies el`muiDropdown, el`muiRipple, el`disabled, el`classes, el`listeners
    ensures el.listeners == old(el.listeners)
    ensures el.muiRipple
  {
    MuiButtonLink(el, attrs);
    RippleJs.Initialize(el);
  }

  /**
   * The press event as written: `'ontouchstart' in element` asks the jqLite
   * wrapper, not the DOM element. The model takes the wrapper (and its prototype)
   * to have no `ontouchstart` property, so the answer is `mousedown` whatever the
   * element supports; the element's touch support is therefore not an input.
   */
  function PressEventAsWritten(): (t: EventType)
    ensures t == MouseDown
  {
    var wrapperHasOntouchstart := false;
    if wrapperHasOntouchstart then TouchStart else MouseDown
  }

  /** On a touch-capable element the directive as written binds another event than the plain module does. */
  lemma PressEventAsWrittenIgnoresTouch()
    ensures PressEventAsWritten() != RippleJs.PressEvent(true)
  {
  }

  /**
   * The `muiRipple` link function, asking the element itself for touch support:
   * bind the directive's press handler for `touchstart` on touch-capable elements
   * and for `mousedown` otherwise.
   */
  method MuiRippleLink(el: Button)
    modifies el`listeners
    ensures el.listeners == old(el.listeners) + {Listener(if el.touchCapable then TouchStart else MouseDown, NgPressHandler)}
  {
    var touchEvent := RippleJs.PressEvent(el.touchCapable);
    el.listeners := On(el.listeners, {touchEvent}, NgPressHandler);
  }

  /** The styles of the new ripple, set one property at a time by the `for ... in` loop. */
  method ApplyStyles(r: Ripple, css: map<Geometry.CssProperty, real>)
    requires forall p | p in Geometry.StyleProperties :: p in css
    modifies r`style
    ensures r.style == old(r.style) + (map p | p in Geometry.StyleProperties :: css[p])
  {
    var props := Geometry.StyleProperties;
    for i := 0 to |props|
      invariant r.style == old(r.style) + (map p | p in props[..i] :: css[p])
    {
      var p := props[i];
      assert props[..i + 1] == props[..i] + [p];
      r.style := r.style[p := css[p]];
    }
    assert props[..|props|] == props;
  }

  /**
   * The directive's press handler: a press on a disabled element changes
   * nothing; any other press, whatever its mouse button, appends exactly one new
   * ripple with the same geometry as the plain module, binds its release handler
   * and requests its animation frame.
   */
  method PressHandler(el: Button, ev: PointerEvent, offset: Geometry.Offset) returns (r: Ripple?)
    modifies el`children, el`listeners
    ensures el.disabled ==> r == null && el.children == old(el.children) && el.listeners == old(el.listeners)
    ensures !el.disabled ==>
      r != null && fresh(r) && r.owner == el && r.parent == el && r.angular
      && el.children == old(el.children) + [r]
      && el.listeners == On(old(el.listeners), ReleaseEvents, ReleaseHandler(r))
      && r.style == Geometry.Css(Geometry.CreateStyle(ev.pageX, ev.pageY, offset, FabClass in el.classes))
      && r.View() == Lifecycle.Created()
  {
    if el.disabled {
      return null;
    }
    var s := Geometry.CreateStyle(ev.pageX, ev.pageY, offset, FabClass in el.classes);
    var css := Geometry.Css(s);
    r := new Ripple(el, true);
    r.classes := r.classes + {Lifecycle.RippleClass};
    ApplyStyles(r, css);
    assert r.style == css;
    // element.append(rippleEl)
    el.children := el.children + [r];
    r.parent := el;
    // bind the release handler and request the animation frame
    el.listeners := On(el.listeners, ReleaseEvents, ReleaseHandler(r));
    r.framePending := true;
  }

  /**
   * The directive's `mouseHandler` as written: the removal timer is given
   * `rippleEl.remove` detached from `rippleEl`, so when it fires jqLite's `remove`
   * runs on the window rather than on the ripple.
   */
  method MouseHandlerAsWritten(r: Ripple, now: int)
    modifies r.owner`listeners, r`classes, r`timers
    ensures r.owner.listeners == Off(old(r.owner.listeners), ReleaseEvents, ReleaseHandler(r))
    ensures r.View() == Lifecycle.OnRelease(old(r.View()), now, Lifecycle.RemoveUnbound)
  {
    r.owner.listeners := Off(r.owner.listeners, ReleaseEvents, ReleaseHandler(r));
    r.classes := r.classes - {Lifecycle.ActiveClass};
    if Lifecycle.Elapsed(now, r.t0) {
      r.classes := r.classes + {Lifecycle.AnimateOutClass};
    }
    r.timers := r.timers + [Lifecycle.Timer(now + Lifecycle.AnimationDuration, Lifecycle.RemoveUnbound)];
    assert r.Listening() == {};
  }

  /**
   * The directive's `mouseHandler` with the removal bound to the ripple: unbind,
   * drop `mui--active`, add `mui--animate-out` if more than 600ms passed since
   * `t0`, and queue one removal of this ripple 600ms from now.
   */
  method MouseHandler(r: Ripple, now: int)
    modifies r.owner`listeners, r`classes, r`timers
    ensures r.owner.listeners == Off(old(r.owner.listeners), ReleaseEvents, ReleaseHandler(r))
    ensures r.View() == Lifecycle.OnRelease(old(r.View()), now, Lifecycle.RemoveFromParent)
  {
    r.owner.listeners := Off(r.owner.listeners, ReleaseEvents, ReleaseHandler(r));
    r.classes := r.classes - {Lifecycle.ActiveClass};
    if Lifecycle.Elapsed(now, r.t0) {
      r.classes := r.classes + {Lifecycle.AnimateOutClass};
    }
    r.timers := r.timers + [Lifecycle.Timer(now + Lifecycle.AnimationDuration, Lifecycle.RemoveFromParent)];
    assert r.Listening() == {};
  }

  /** The directive's animation-frame callback: stamp `t0` and add `mui--animate-in mui--active`. */
  method FrameCallback(r: Ripple, now: int)
    modifies r`t0, r`classes
    ensures r.t0 == Some(now)
    ensures r.classes == old(r.classes) + {Lifecycle.AnimateInClass, Lifecycle.ActiveClass}
  {
    r.t0 := Some(now);
    r.classes := r.classes + {Lifecycle.AnimateInClass, Lifecycle.ActiveClass};
  }

  /** jqLite's `remove` on the ripple: detach it from its parent if it has one. */
  method Remove(r: Ripple)
    modifies r`parent, (if r.parent != null then {r.parent} else {})`children
    ensures r.parent == null
    ensures old(r.parent) != null ==> old(r.parent).children == Without(old(r.parent.children), r)
  {
    var parent := r.parent;
    if parent != null {
      parent.children := Without(parent.children, r);
      r.parent := null;
    }
  }
}
