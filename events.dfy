/** The DOM events the ripple code listens to, and the pointer event record it reads. */
module Events {

  datatype EventType = MouseDown | TouchStart | MouseUp | MouseLeave | TouchEnd

  /** The release events `'mouseup mouseleave touchend'` a ripple's handler is bound to. */
  const ReleaseEvents: set<EventType> := {MouseUp, MouseLeave, TouchEnd}

  /** The fields of a DOM event the press handlers read: `type`, `button`, `pageX`, `pageY`. */
  datatype PointerEvent = PointerEvent(kind: EventType, button: int, pageX: real, pageY: real)
}
