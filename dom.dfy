/**
 * The DOM objects the ripple code changes in place: a button element and the
 * ripple `div`s it owns, with their flags, class lists, listener sets, child
 * lists and styles.
 */
module Dom {
  import opened Wrappers
  import opened Events
  import Lifecycle
  import Geometry

  const BtnClass: string := "mui-btn"
  const FabClass: string := "mui-btn--fab"

  /**
   * The event handlers that can be bound to a button: the press handler of the
   * plain-JavaScript module, the press handler of the Angular directive, and the
   * release handler (`mouseHandler`) of one ripple, a closure over that ripple.
   */
  datatype Handler = PressHandler | NgPressHandler | ReleaseHandler(ripple: Ripple)

  datatype Listener = Listener(event: EventType, handler: Handler)

  /** `on(el, events, handler)`: `addEventListener` for each event; a second identical binding adds nothing. */
  function On(ls: set<Listener>, events: set<EventType>, h: Handler): (r: set<Listener>)
    ensures forall l | l in ls :: l in r
    ensures forall e | e in events :: Listener(e, h) in r
    ensures forall l | l in r :: l in ls || (l.handler == h && l.event in events)
  {
    ls + set e | e in events :: Listener(e, h)
  }

  /** `off(el, events, handler)`: `removeEventListener` for each event. */
  function Off(ls: set<Listener>, events: set<EventType>, h: Handler): (r: set<Listener>)
    ensures forall l | l in r :: l in ls && !(l.handler == h && l.event in events)
    ensures forall l | l in ls && !(l.handler == h && l.event in events) :: l in r
  {
    ls - set e | e in events :: Listener(e, h)
  }

  /** `s` with every occurrence of `x` taken out, every other element kept as often as it occurs. */
  function Without<T(==)>(s: seq<T>, x: T): (r: seq<T>)
    ensures x !in r
    ensures forall y | y in r :: y in s
    ensures forall y | y in s && y != x :: multiset(r)[y] == multiset(s)[y]
    decreases |s|
  {
    if s == [] then []
    else
      assert s == [s[0]] + s[1..];
      (if s[0] == x then [] else [s[0]]) + Without(s[1..], x)
  }

  class Button {
    const tagName: string
    /** Whether `'ontouchstart' in el` holds for this element. */
    const touchCapable: bool
    /** `_muiRipple`: the ripple module has been bound. */
    var muiRipple: bool
    /** `_muiDropdown`: the dropdown module must leave the element alone. */
    var muiDropdown: bool
    var disabled: bool
    var classes: set<string>
    var listeners: set<Listener>
    /** The ripple elements in the button, in document order. */
    var children: seq<Ripple>

    constructor (tagName: string, touchCapable: bool, disabled: bool, classes: set<string>)
      ensures this.tagName == tagName && this.touchCapable == touchCapable
      ensures !muiRipple && !muiDropdown && this.disabled == disabled && this.classes == classes
      ensures listeners == {} && children == []
    {
      this.tagName := tagName;
      this.touchCapable := touchCapable;
      this.disabled := disabled;
      this.classes := classes;
      muiRipple, muiDropdown := false, false;
      listeners, children := {}, [];
    }
  }

  class Ripple {
    /** The button whose press created the ripple; the ripple's closures capture it. */
    const owner: Button
    /** Whether the Angular directive (rather than the plain-JavaScript module) created it. */
    const angular: bool
    var classes: set<string>
    var style: map<Geometry.CssProperty, real>
    /** The start time `t0` captured by the closures of the ripple's animation. */
    var t0: Option<int>
    /** Its `requestAnimationFrame` callback is queued and has not run. */
    var framePending: bool
    /** Its queued `setTimeout` removal callbacks. */
    var timers: seq<Lifecycle.Timer>
    var parent: Button?

    /** `document.createElement('div')`, to be placed in `owner`. */
    constructor (owner: Button, angular: bool)
      ensures this.owner == owner && this.angular == angular
      ensures classes == {} && style == map[] && t0 == None
      ensures !framePending && timers == [] && parent == null
    {
      this.owner := owner;
      this.angular := angular;
      classes, style, t0 := {}, map[], None;
      framePending, timers, parent := false, [], null;
    }

    /** The release events the ripple's handler is bound to on its button. */
    function Listening(): set<EventType>
      reads this, owner
    {
      set e | e in ReleaseEvents && Listener(e, ReleaseHandler(this)) in owner.listeners
    }

    /** The part of the DOM state the ripple's lifecycle reads and changes. */
    function View(): Lifecycle.RippleView
      reads this, owner
    {
      Lifecycle.RippleView(classes, t0, Listening(), framePending, timers, parent != null)
    }
  }
}
