/**
 * The browser's side of the lifecycle: it runs a queued animation-frame callback,
 * delivers a release event to a ripple's handler while it is bound, and fires a
 * removal timer once it is due. Each step changes the ripple's view exactly as
 * `Lifecycle.Step` does, so the lifecycle lemmas hold of the DOM objects.
 */
module Host {
  import opened Wrappers
  import opened Events
  import opened Dom
  import Lifecycle
  import RippleJs
  import NgButton
  import Geometry

  /** The next frame: the ripple's `requestAnimationFrame` callback runs if it is still queued. */
  method RunFrame(r: Ripple, now: int)
    modifies r`framePending, r`t0, r`classes
    ensures r.View() == Lifecycle.Step(old(r.View()), Lifecycle.Frame(now), Lifecycle.RemoveFromParent)
  {
    if r.framePending {
      r.framePending := false;
      if r.angular {
        NgButton.FrameCallback(r, now);
      } else {
        RippleJs.FrameCallback(r, now);
      }
    }
  }

  /**
   * A release event of type `kind` on the ripple's button reaches the ripple's
   * handler if it is bound to that event. Every other ripple keeps its handlers.
   * A ripple of the Angular directive runs the corrected handler, whose timer
   * removes the ripple itself.
   */
  method DeliverRelease(r: Ripple, kind: EventType, now: int)
    modifies r.owner`listeners, r`classes, r`timers
    ensures r.View() == Lifecycle.Step(old(r.View()), Lifecycle.Release(kind, now), Lifecycle.RemoveFromParent)
    ensures r.owner.listeners ==
      if kind in old(r.Listening()) then Off(old(r.owner.listeners), ReleaseEvents, ReleaseHandler(r))
      else old(r.owner.listeners)
    ensures forall q: Ripple | q != r && old(allocated(q)) :: q.Listening() == old(q.Listening())
  {
    if kind in ReleaseEvents && Listener(kind, ReleaseHandler(r)) in r.owner.listeners {
      if r.angular {
        NgButton.MouseHandler(r, now);
      } else {
        RippleJs.MouseHandler(r, now);
      }
    }
  }

  /**
   * The same delivery with both release handlers as written: the Angular
   * directive's handler queues a timer that calls `remove` without its element.
   */
  method DeliverReleaseAsWritten(r: Ripple, kind: EventType, now: int)
    modifies r.owner`listeners, r`classes, r`timers
    ensures r.View() == Lifecycle.Step(old(r.View()), Lifecycle.Release(kind, now),
      if r.angular then Lifecycle.RemoveUnbound else Lifecycle.RemoveFromParent)
    ensures r.owner.listeners ==
      if kind in old(r.Listening()) then Off(old(r.owner.listeners), ReleaseEvents, ReleaseHandler(r))
      else old(r.owner.listeners)
    ensures forall q: Ripple | q != r && old(allocated(q)) :: q.Listening() == old(q.Listening())
  {
    if kind in ReleaseEvents && Listener(kind, ReleaseHandler(r)) in r.owner.listeners {
      if r.angular {
        NgButton.MouseHandlerAsWritten(r, now);
      } else {
        RippleJs.MouseHandler(r, now);
      }
    }
  }

  /** Removal timer `i` of the ripple fires if it is due. */
  method RunTimer(r: Ripple, i: nat, now: int)
    modifies r`timers, r`parent, (if r.parent != null then {r.parent} else {})`children
    ensures r.View() == Lifecycle.Step(old(r.View()), Lifecycle.Timeout(i, now), Lifecycle.RemoveFromParent)
    ensures r.parent == old(r.parent) || r.parent == null
    ensures old(r.parent) != null && !r.View().attached ==>
      old(r.parent).children == Without(old(r.parent.children), r)
    ensures old(r.parent) != null && r.View().attached ==> old(r.parent).children == old(r.parent.children)
  {
    if i < |r.timers| && r.timers[i].due <= now {
      var t := r.timers[i];
      r.timers := r.timers[..i] + r.timers[i + 1..];
      match t.action
      case RemoveFromParent =>
        if r.angular {
          NgButton.Remove(r);
        } else {
          RippleJs.RemoveCallback(r);
        }
      case RemoveUnbound =>
        // jqLite's `remove` with the window as its receiver: no element is touched
    }
  }

  /**
   * A 50px-high button bound by the plain module, pressed at its centre: the
   * ripple is as high as the button and sits at its top-left corner.
   */
  method PressAtCentreScenario() {
    var b := new Button("BUTTON", false, false, {BtnClass});
    RippleJs.Initialize(b);
    var r := RippleJs.EventHandler(b, PointerEvent(MouseDown, 0, 125.0, 225.0), Geometry.Offset(200.0, 100.0, 50.0));
    assert r != null && b.children == [r];
    assert r.style[Geometry.Height] == 50.0 && r.style[Geometry.Top] == 0.0 && r.style[Geometry.Left] == 0.0;
  }

  /**
   * A ripple released 100ms after its first frame: it is still in place at
   * 600ms and taken out of its button at 700ms.
   */
  method ReleaseThenRemoveScenario(b: Button, ev: PointerEvent, offset: Geometry.Offset)
    requires b.children == []
    modifies b
  {
    var r := RippleJs.EventHandler(b, ev, offset);
    if r == null {
      return;
    }
    RunFrame(r, 0);
    assert r.View().t0 == Some(0) && r.View().listening == ReleaseEvents;
    DeliverRelease(r, MouseUp, 100);
    assert r.timers == [Lifecycle.Timer(700, Lifecycle.RemoveFromParent)];
    RunTimer(r, 0, 600);
    assert r.parent == b && b.children == [r];
    RunTimer(r, 0, 700);
    assert r.parent == null && b.children == Without([r], r);
    assert b.children == [];
  }

  /**
   * The Angular directive as written: a ripple pressed, animated and released
   * is still in its button after its removal timer has fired.
   */
  method AngularLeakScenario(el: Button, ev: PointerEvent, offset: Geometry.Offset)
    modifies el
  {
    var r := NgButton.PressHandler(el, ev, offset);
    if r == null {
      return;
    }
    RunFrame(r, 0);
    DeliverReleaseAsWritten(r, MouseUp, 100);
    assert r.timers == [Lifecycle.Timer(700, Lifecycle.RemoveUnbound)];
    RunTimer(r, 0, 700);
    assert r.timers == [] && r.parent == el;
  }
}
