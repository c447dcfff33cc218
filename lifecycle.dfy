/**
 * The life of one ripple element, as seen by the closures of `animateEl`
 * (and of the Angular press handler, which repeats it).
 *
 * A `RippleView` collects everything those closures read or change: the
 * ripple's class list, the captured start time `t0`, the release events its
 * handler is still bound to on the button, whether its animation-frame
 * callback is still queued, its queued removal timers, and whether it still
 * has a parent. Three kinds of events drive it: the animation frame, a release
 * event on the button, and a removal timer coming due. Time is a logical clock
 * in milliseconds carried by each event.
 */
module Lifecycle {
  import opened Wrappers
  import opened Events

  /** `animationDuration`, in milliseconds. */
  const AnimationDuration: int := 600

  const RippleClass: string := "mui-ripple-effect"
  const AnimateInClass: string := "mui--animate-in"
  const ActiveClass: string := "mui--active"
  const AnimateOutClass: string := "mui--animate-out"

  /**
   * What a removal timer does when it fires: take the ripple out of its parent
   * (a no-op when it has none), or call jqLite's `remove` with no element as its
   * receiver, which touches nothing.
   */
  datatype TimerAction = RemoveFromParent | RemoveUnbound

  datatype Timer = Timer(due: int, action: TimerAction)

  datatype RippleView = RippleView(
    classes: set<string>,
    t0: Option<int>,
    listening: set<EventType>,
    framePending: bool,
    timers: seq<Timer>,
    attached: bool)

  datatype Event =
    | Frame(at: int)
    | Release(kind: EventType, at: int)
    | Timeout(index: nat, at: int)

  /** A ripple right after an accepted press: appended, handler bound, frame requested. */
  function Created(): (c: RippleView)
    ensures c.attached && c.framePending && c.t0.None? && c.timers == []
    ensures c.listening == ReleaseEvents
    ensures ActiveClass !in c.classes && AnimateOutClass !in c.classes && AnimateInClass !in c.classes
  {
    RippleView({RippleClass}, None, ReleaseEvents, true, [], true)
  }

  /** `new Date - t0 > animationDuration`; with `t0` undefined the difference is NaN and the test fails. */
  predicate Elapsed(now: int, t0: Option<int>)
    ensures t0.None? ==> !Elapsed(now, t0)
    ensures t0.Some? && now <= t0.value + AnimationDuration ==> !Elapsed(now, t0)
  {
    t0.Some? && now - t0.value > AnimationDuration
  }

  /** The animation-frame callback: stamp `t0`, add `mui--animate-in mui--active`. */
  function OnFrame(v: RippleView, now: int): (w: RippleView)
    ensures w.t0 == Some(now) && !w.framePending
    ensures AnimateInClass in w.classes && ActiveClass in w.classes
    ensures forall c | c in v.classes :: c in w.classes
    ensures forall c | c in w.classes && c != AnimateInClass && c != ActiveClass :: c in v.classes
    ensures w.listening == v.listening && w.timers == v.timers && w.attached == v.attached
  {
    v.(t0 := Some(now), classes := v.classes + {AnimateInClass, ActiveClass}, framePending := false)
  }

  /**
   * `mouseHandler`: unbind from all release events, drop `mui--active`, add
   * `mui--animate-out` when the animation has run longer than its duration, and
   * queue one removal `AnimationDuration` after now.
   */
  function OnRelease(v: RippleView, now: int, action: TimerAction): (w: RippleView)
    ensures w.listening == {} && ActiveClass !in w.classes
    ensures AnimateOutClass in w.classes <==> AnimateOutClass in v.classes || Elapsed(now, v.t0)
    ensures forall c | c in v.classes && c != ActiveClass :: c in w.classes
    ensures forall c | c in w.classes && c != AnimateOutClass :: c in v.classes
    ensures |w.timers| == |v.timers| + 1 && w.timers[..|v.timers|] == v.timers
    ensures w.timers[|v.timers|] == Timer(now + AnimationDuration, action)
    ensures w.t0 == v.t0 && w.framePending == v.framePending && w.attached == v.attached
  {
    var inactive := v.classes - {ActiveClass};
    v.(listening := {},
       classes := if Elapsed(now, v.t0) then inactive + {AnimateOutClass} else inactive,
       timers := v.timers + [Timer(now + AnimationDuration, action)])
  }

  /** Timer `i` fires and leaves the queue. */
  function OnTimeout(v: RippleView, i: nat): (w: RippleView)
    requires i < |v.timers|
    ensures |w.timers| == |v.timers| - 1
    ensures multiset(w.timers) + multiset{v.timers[i]} == multiset(v.timers)
    ensures w.attached <==> v.attached && v.timers[i].action == RemoveUnbound
    ensures w.classes == v.classes && w.t0 == v.t0 && w.listening == v.listening && w.framePending == v.framePending
  {
    assert v.timers == v.timers[..i] + [v.timers[i]] + v.timers[i + 1..];
    v.(timers := v.timers[..i] + v.timers[i + 1..],
       attached := v.attached && v.timers[i].action != RemoveFromParent)
  }

  /**
   * One event as the browser delivers it: a frame runs the callback only while it
   * is queued, a release event reaches the handler only while it is bound to that
   * event, and a timer fires only once it is due. `action` is what the release
   * handler's timer does.
   */
  function Step(v: RippleView, e: Event, action: TimerAction): (w: RippleView)
    ensures w.attached ==> v.attached
    ensures !e.Timeout? ==> w.attached == v.attached
    ensures w.listening <= v.listening
    ensures !e.Release? ==> w.listening == v.listening
    ensures w.framePending ==> v.framePending
    ensures |w.timers| <= |v.timers| + 1
    ensures w.timers != v.timers ==> e.Timeout? || (e.Release? && e.kind in v.listening)
  {
    match e
    case Frame(at) => if v.framePending then OnFrame(v, at) else v
    case Release(kind, at) => if kind in v.listening then OnRelease(v, at, action) else v
    case Timeout(i, at) => if i < |v.timers| && v.timers[i].due <= at then OnTimeout(v, i) else v
  }

  function Run(v: RippleView, evs: seq<Event>, action: TimerAction): RippleView
    decreases |evs|
  {
    if evs == [] then v else Run(Step(v, evs[0], action), evs[1..], action)
  }

  /** The removal timers queued by one step (by the release handler, if it runs). */
  function Scheduled(v: RippleView, e: Event, action: TimerAction): seq<Timer> {
    if e.Release? && e.kind in v.listening then [Timer(e.at + AnimationDuration, action)] else []
  }

  /** Every removal timer queued along a run, in order. */
  function Schedules(v: RippleView, evs: seq<Event>, action: TimerAction): seq<Timer>
    decreases |evs|
  {
    if evs == [] then [] else Scheduled(v, evs[0], action) + Schedules(Step(v, evs[0], action), evs[1..], action)
  }

  predicate IsRelease(e: Event) {
    e.Release? && e.kind in ReleaseEvents
  }

  predicate NoRelease(evs: seq<Event>) {
    forall j :: 0 <= j < |evs| ==> !IsRelease(evs[j])
  }

  /** The time of the first release event of a trace. */
  function FirstRelease(evs: seq<Event>): Option<int>
    decreases |evs|
  {
    if evs == [] then None
    else if IsRelease(evs[0]) then Some(evs[0].at)
    else FirstRelease(evs[1..])
  }

  /** The time of the first animation frame of a trace. */
  function FirstFrame(evs: seq<Event>): Option<int>
    decreases |evs|
  {
    if evs == [] then None
    else if evs[0].Frame? then Some(evs[0].at)
    else FirstFrame(evs[1..])
  }

  /** Some event of the trace fires the ripple's only timer at or after `due`. */
  predicate Fires(evs: seq<Event>, due: int) {
    exists j :: 0 <= j < |evs| && evs[j].Timeout? && evs[j].index == 0 && due <= evs[j].at
  }

  lemma {:induction false} RunAppend(v: RippleView, xs: seq<Event>, ys: seq<Event>, action: TimerAction)
    ensures Run(v, xs + ys, action) == Run(Run(v, xs, action), ys, action)
    decreases |xs|
  {
    if xs == [] {
      assert xs + ys == ys;
    } else {
      assert (xs + ys)[0] == xs[0];
      assert (xs + ys)[1..] == xs[1..] + ys;
      RunAppend(Step(v, xs[0], action), xs[1..], ys, action);
    }
  }

  /**
   * While the handler is bound to every release event, or to none, the handler
   * runs exactly at the first release event and never again.
   */
  /** One step from a view bound to all release events or to none: only a release event unbinds and queues. */
  lemma StepBinding(v: RippleView, e: Event, action: TimerAction)
    requires v.listening == ReleaseEvents || v.listening == {}
    ensures Step(v, e, action).listening == if IsRelease(e) then {} else v.listening
    ensures Scheduled(v, e, action) ==
      if IsRelease(e) && v.listening != {} then [Timer(e.at + AnimationDuration, action)] else []
  {
    if e.Release? && v.listening == ReleaseEvents {
      assert e.kind in v.listening <==> IsRelease(e);
    }
  }

  lemma {:induction false} SchedulesFrom(v: RippleView, evs: seq<Event>, action: TimerAction)
    requires v.listening == ReleaseEvents || v.listening == {}
    ensures Schedules(v, evs, action) ==
      if v.listening == {} || FirstRelease(evs).None? then []
      else [Timer(FirstRelease(evs).value + AnimationDuration, action)]
    decreases |evs|
  {
    if evs != [] {
      var w := Step(v, evs[0], action);
      StepBinding(v, evs[0], action);
      SchedulesFrom(w, evs[1..], action);
      var tail := Schedules(w, evs[1..], action);
      assert Schedules(v, evs, action) == Scheduled(v, evs[0], action) + tail;
      if IsRelease(evs[0]) && v.listening != {} {
        assert tail == [] && FirstRelease(evs) == Some(evs[0].at);
      } else {
        assert Scheduled(v, evs[0], action) == [] && w.listening == v.listening;
        assert v.listening == {} || FirstRelease(evs) == FirstRelease(evs[1..]);
      }
    }
  }

  /** While the handler is bound to every release event, or to none, it stays bound exactly until the first release. */
  lemma {:induction false} BoundUntilRelease(v: RippleView, evs: seq<Event>, action: TimerAction)
    requires v.listening == ReleaseEvents || v.listening == {}
    ensures Run(v, evs, action).listening ==
      if v.listening == {} || FirstRelease(evs).Some? then {} else ReleaseEvents
    decreases |evs|
  {
    if evs != [] {
      var w := Step(v, evs[0], action);
      StepBinding(v, evs[0], action);
      BoundUntilRelease(w, evs[1..], action);
    }
  }

  /**
   * Exactly-once scheduling: over any trace, a ripple's release handler queues
   * one removal, `AnimationDuration` after the first release, if some release
   * event arrives, and none otherwise; afterwards it is bound to no event.
   */
  lemma ScheduledExactlyOnce(evs: seq<Event>, action: TimerAction)
    ensures Schedules(Created(), evs, action) ==
      if FirstRelease(evs).None? then []
      else [Timer(FirstRelease(evs).value + AnimationDuration, action)]
    ensures |Schedules(Created(), evs, action)| <= 1
    ensures Run(Created(), evs, action).listening ==
      if FirstRelease(evs).Some? then {} else ReleaseEvents
  {
    SchedulesFrom(Created(), evs, action);
    BoundUntilRelease(Created(), evs, action);
  }

  /** The real removal queue only ever holds timers it started with or timers the handler queued. */
  lemma {:induction false} QueueFromSchedules(v: RippleView, evs: seq<Event>, action: TimerAction)
    ensures multiset(Run(v, evs, action).timers) <= multiset(v.timers) + multiset(Schedules(v, evs, action))
    decreases |evs|
  {
    if evs != [] {
      var w := Step(v, evs[0], action);
      StepQueue(v, evs[0], action);
      QueueFromSchedules(w, evs[1..], action);
      assert Schedules(v, evs, action) == Scheduled(v, evs[0], action) + Schedules(w, evs[1..], action);
    }
  }

  /** One step keeps a subset of the queue, plus the timer the handler queues if it runs. */
  lemma StepQueue(v: RippleView, e: Event, action: TimerAction)
    ensures multiset(Step(v, e, action).timers) <= multiset(v.timers) + multiset(Scheduled(v, e, action))
  {
    if e.Timeout? && e.index < |v.timers| && v.timers[e.index].due <= e.at {
      assert multiset(Step(v, e, action).timers) + multiset{v.timers[e.index]} == multiset(v.timers);
    }
  }

  /** Over any trace from creation the removal queue holds at most one timer. */
  lemma AtMostOneTimer(evs: seq<Event>, action: TimerAction)
    ensures |Run(Created(), evs, action).timers| <= 1
  {
    QueueFromSchedules(Created(), evs, action);
    ScheduledExactlyOnce(evs, action);
    var q := Run(Created(), evs, action).timers;
    var s := Schedules(Created(), evs, action);
    assert multiset(q) <= multiset(s);
    assert |multiset(q)| <= |multiset(s)| by {
      assert multiset(s) == multiset(q) + (multiset(s) - multiset(q));
    }
  }

  /** Before any release: frames stamp `t0` once, no timer exists, nothing is removed. */
  lemma {:induction false} BeforeRelease(v: RippleView, evs: seq<Event>, action: TimerAction)
    requires NoRelease(evs) && v.timers == [] && v.listening <= ReleaseEvents
    ensures Run(v, evs, action).listening == v.listening
    ensures Run(v, evs, action).timers == []
    ensures Run(v, evs, action).attached == v.attached
    ensures AnimateOutClass in Run(v, evs, action).classes <==> AnimateOutClass in v.classes
    ensures Run(v, evs, action).t0 ==
      if v.framePending && FirstFrame(evs).Some? then FirstFrame(evs) else v.t0
    ensures Run(v, evs, action).framePending == (v.framePending && FirstFrame(evs).None?)
    decreases |evs|
  {
    if evs != [] {
      assert !IsRelease(evs[0]);
      var w := Step(v, evs[0], action);
      assert NoRelease(evs[1..]) by {
        forall j | 0 <= j < |evs[1..]| ensures !IsRelease(evs[1..][j]) {
          assert evs[1..][j] == evs[j + 1];
        }
      }
      BeforeRelease(w, evs[1..], action);
    }
  }

  /** After the handler has unbound itself, nothing adds or drops `mui--animate-out`. */
  lemma {:induction false} AfterRelease(v: RippleView, evs: seq<Event>, action: TimerAction)
    requires v.listening == {}
    ensures Run(v, evs, action).listening == {}
    ensures AnimateOutClass in Run(v, evs, action).classes <==> AnimateOutClass in v.classes
    decreases |evs|
  {
    if evs != [] {
      AfterRelease(Step(v, evs[0], action), evs[1..], action);
    }
  }

  /**
   * `mui--animate-out` is added exactly when the first release comes more than
   * `AnimationDuration` after the first animation frame; a release that comes
   * before any frame finds `t0` undefined and never adds it.
   */
  lemma AnimateOutIff(pre: seq<Event>, kind: EventType, at: int, post: seq<Event>, action: TimerAction)
    requires NoRelease(pre) && kind in ReleaseEvents
    ensures AnimateOutClass in Run(Created(), pre + [Release(kind, at)] + post, action).classes <==>
      FirstFrame(pre).Some? && at - FirstFrame(pre).value > AnimationDuration
  {
    var w := Run(Created(), pre, action);
    BeforeRelease(Created(), pre, action);
    RunAppend(Created(), pre, [Release(kind, at)], action);
    RunAppend(Created(), pre + [Release(kind, at)], post, action);
    var u := OnRelease(w, at, action);
    assert Run(w, [Release(kind, at)], action) == u;
    AfterRelease(u, post, action);
  }

  /**
   * After the handler has unbound itself, `mui--active` is present exactly when it
   * already was or a still-queued frame callback runs.
   */
  lemma {:induction false} ActiveAfterRelease(v: RippleView, evs: seq<Event>, action: TimerAction)
    requires v.listening == {}
    ensures ActiveClass in Run(v, evs, action).classes <==>
      ActiveClass in v.classes || (v.framePending && FirstFrame(evs).Some?)
    decreases |evs|
  {
    if evs != [] {
      var w := Step(v, evs[0], action);
      assert w.listening == {};
      assert ActiveClass in w.classes <==> ActiveClass in v.classes || (v.framePending && evs[0].Frame?);
      assert w.framePending == (v.framePending && !evs[0].Frame?);
      ActiveAfterRelease(w, evs[1..], action);
    }
  }

  /**
   * `mui--active` is present at the end of a trace exactly when no frame came
   * before the first release and one came after it: the release drops the class,
   * and only the entry frame adds it.
   */
  lemma ActiveIff(pre: seq<Event>, kind: EventType, at: int, post: seq<Event>, action: TimerAction)
    requires NoRelease(pre) && kind in ReleaseEvents
    ensures ActiveClass in Run(Created(), pre + [Release(kind, at)] + post, action).classes <==>
      FirstFrame(pre).None? && FirstFrame(post).Some?
  {
    var w := Run(Created(), pre, action);
    BeforeRelease(Created(), pre, action);
    RunAppend(Created(), pre, [Release(kind, at)], action);
    RunAppend(Created(), pre + [Release(kind, at)], post, action);
    var u := OnRelease(w, at, action);
    assert Run(w, [Release(kind, at)], action) == u;
    ActiveAfterRelease(u, post, action);
  }

  /** Without a release a ripple keeps its classes free of `mui--animate-out`, has no timer and stays in place. */
  lemma StaysWithoutRelease(evs: seq<Event>, action: TimerAction)
    requires NoRelease(evs)
    ensures Run(Created(), evs, action).attached
    ensures Run(Created(), evs, action).timers == []
    ensures AnimateOutClass !in Run(Created(), evs, action).classes
  {
    BeforeRelease(Created(), evs, action);
  }

  /** Once unbound and with no timer queued, nothing ever changes whether the ripple is attached. */
  lemma {:induction false} QuietAfterRemoval(v: RippleView, evs: seq<Event>, action: TimerAction)
    requires v.listening == {} && v.timers == []
    ensures Run(v, evs, action).attached == v.attached
    decreases |evs|
  {
    if evs != [] {
      QuietAfterRemoval(Step(v, evs[0], action), evs[1..], action);
    }
  }

  /** With the single removal timer due at `due` queued, the ripple is detached exactly when some timeout fires it. */
  lemma {:induction false} RemovalAfterRelease(v: RippleView, evs: seq<Event>, due: int)
    requires v.listening == {} && v.timers == [Timer(due, RemoveFromParent)] && v.attached
    ensures !Run(v, evs, RemoveFromParent).attached <==> Fires(evs, due)
    decreases |evs|
  {
    if evs != [] {
      var w := Step(v, evs[0], RemoveFromParent);
      FiresFirstOrLater(evs, due);
      if evs[0].Timeout? && evs[0].index == 0 && due <= evs[0].at {
        assert w.listening == {} && w.timers == [] && !w.attached;
        QuietAfterRemoval(w, evs[1..], RemoveFromParent);
      } else {
        assert w.listening == {} && w.timers == v.timers && w.attached;
        RemovalAfterRelease(w, evs[1..], due);
      }
    }
  }

  /** A non-empty trace fires the timer at its first event or later. */
  lemma FiresFirstOrLater(evs: seq<Event>, due: int)
    requires evs != []
    ensures Fires(evs, due) <==>
      (evs[0].Timeout? && evs[0].index == 0 && due <= evs[0].at) || Fires(evs[1..], due)
  {
    if Fires(evs[1..], due) {
      var j :| 0 <= j < |evs[1..]| && evs[1..][j].Timeout? && evs[1..][j].index == 0 && due <= evs[1..][j].at;
      assert evs[j + 1] == evs[1..][j];
    }
    if Fires(evs, due) && !(evs[0].Timeout? && evs[0].index == 0 && due <= evs[0].at) {
      var j :| 0 <= j < |evs| && evs[j].Timeout? && evs[j].index == 0 && due <= evs[j].at;
      assert evs[1..][j - 1] == evs[j];
    }
  }

  /**
   * Removal timing: after the first release at `at`, the ripple leaves its parent
   * exactly when its timer fires at or after `at + AnimationDuration`; it is not
   * gated on the later of the release and the entry animation.
   */
  lemma RemovedIff(pre: seq<Event>, kind: EventType, at: int, post: seq<Event>)
    requires NoRelease(pre) && kind in ReleaseEvents
    ensures !Run(Created(), pre + [Release(kind, at)] + post, RemoveFromParent).attached <==>
      Fires(post, at + AnimationDuration)
  {
    var w := Run(Created(), pre, RemoveFromParent);
    BeforeRelease(Created(), pre, RemoveFromParent);
    RunAppend(Created(), pre, [Release(kind, at)], RemoveFromParent);
    RunAppend(Created(), pre + [Release(kind, at)], post, RemoveFromParent);
    var u := OnRelease(w, at, RemoveFromParent);
    assert Run(w, [Release(kind, at)], RemoveFromParent) == u;
    RemovalAfterRelease(u, post, at + AnimationDuration);
  }

  /** A removed ripple stays removed: removal happens at most once. */
  lemma {:induction false} DetachedStaysDetached(v: RippleView, evs: seq<Event>, action: TimerAction)
    requires !v.attached
    ensures !Run(v, evs, action).attached
    decreases |evs|
  {
    if evs != [] {
      DetachedStaysDetached(Step(v, evs[0], action), evs[1..], action);
    }
  }

  predicate AllUnbound(timers: seq<Timer>) {
    forall j :: 0 <= j < |timers| ==> timers[j].action == RemoveUnbound
  }

  /** When every queued timer calls `remove` without its element, the ripple is never taken out. */
  lemma {:induction false} UnboundTimersKeepAttached(v: RippleView, evs: seq<Event>)
    requires v.attached && AllUnbound(v.timers)
    ensures Run(v, evs, RemoveUnbound).attached
    decreases |evs|
  {
    if evs != [] {
      var w := Step(v, evs[0], RemoveUnbound);
      assert AllUnbound(w.timers) by {
        if evs[0].Timeout? && evs[0].index < |v.timers| && v.timers[evs[0].index].due <= evs[0].at {
          var i := evs[0].index;
          forall j | 0 <= j < |w.timers| ensures w.timers[j].action == RemoveUnbound {
            if j < i { assert w.timers[j] == v.timers[j]; } else { assert w.timers[j] == v.timers[j + 1]; }
          }
        }
      }
      UnboundTimersKeepAttached(w, evs[1..]);
    }
  }

  /** The Angular handler as written: over every trace its ripple is never removed. */
  lemma UnboundRemovalLeaks(evs: seq<Event>)
    ensures Run(Created(), evs, RemoveUnbound).attached
  {
    UnboundTimersKeepAttached(Created(), evs);
  }

  /**
   * Release before the first frame: `t0` is still undefined, so no
   * `mui--animate-out`; the frame that follows makes the ripple active again.
   */
  lemma ReleaseBeforeFrameReactivates()
    ensures
      var w := Run(Created(), [Release(MouseUp, 5), Frame(16)], RemoveFromParent);
      ActiveClass in w.classes && AnimateInClass in w.classes && AnimateOutClass !in w.classes
      && w.timers == [Timer(605, RemoveFromParent)]
  {
  }

  /** Release at 100ms: the ripple is still there at 600ms and gone at 700ms. */
  lemma RemovedAtReleasePlusDuration()
    ensures Run(Created(), [Frame(0), Release(MouseUp, 100), Timeout(0, 600)], RemoveFromParent).attached
    ensures !Run(Created(), [Frame(0), Release(MouseUp, 100), Timeout(0, 700)], RemoveFromParent).attached
  {
  }
}
