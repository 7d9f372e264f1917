/** The emitter: a persistent registry fed by `on`/`off` and a one-shot
    registry fed by `once`/`offOnce`, dispatched in two phases by `emit`.
    Every deferred callback invocation is recorded as an entry of a trace,
    in the order `emit` schedules them. */
module AsyncEventEmitter {
  import opened ListenerSets
  import opened Registries

  datatype Emitter<E(==), CB> = Emitter(events: Registry<E, CB>, onceEvents: Registry<E, CB>)

  /** Both registries keep the registry invariant. */
  ghost predicate Valid<E, CB>(s: Emitter<E, CB>) {
    ValidRegistry(s.events) && ValidRegistry(s.onceEvents)
  }

  /** The emitter after a registration call, with how the call ended:
      `Success(())` when it returned, `Failure(error)` when it threw. */
  datatype Step<E(==), CB> = Step(after: Emitter<E, CB>, outcome: Result<()>)

  /** One deferred call of a callback with the emitted arguments. */
  datatype Invocation<CB, D> = Invocation(callback: CB, data: D)

  /** The invocations an `emit` scheduled, and the emitter it left behind. */
  datatype Dispatch<E(==), CB, D> = Dispatch(trace: seq<Invocation<CB, D>>, after: Emitter<E, CB>)

  /** A fresh emitter: both registries empty. */
  function New<E, CB>(): (s: Emitter<E, CB>)
    ensures Valid(s)
    ensures s.events == map[] && s.onceEvents == map[]
  {
    Emitter(map[], map[])
  }

  /** `on`: registers a persistent listener; the one-shot registry is not
      touched, and a duplicate throws without changing anything. */
  function On<E, CB(==)>(s: Emitter<E, CB>, e: E, cb: CB): (r: Step<E, CB>)
    ensures r.after.onceEvents == s.onceEvents
    ensures r.outcome.Failure? <==> cb in Listeners(s.events, e)
    ensures r.outcome.Failure? ==> r.after == s && r.outcome.error == DuplicateCallback
    ensures r.outcome.Success? ==> Listeners(r.after.events, e) == Listeners(s.events, e) + [cb]
    ensures r.after.events - {e} == s.events - {e}
    ensures Valid(s) ==> Valid(r.after)
  {
    match AddListener(s.events, e, cb)
    case Success(reg) => Step(s.(events := reg), Success(()))
    case Failure(err) => Step(s, Failure(err))
  }

  /** `once`: registers a one-shot listener; the persistent registry is not
      touched, and a duplicate throws without changing anything. */
  function Once<E, CB(==)>(s: Emitter<E, CB>, e: E, cb: CB): (r: Step<E, CB>)
    ensures r.after.events == s.events
    ensures r.outcome.Failure? <==> cb in Listeners(s.onceEvents, e)
    ensures r.outcome.Failure? ==> r.after == s && r.outcome.error == DuplicateCallback
    ensures r.outcome.Success? ==> Listeners(r.after.onceEvents, e) == Listeners(s.onceEvents, e) + [cb]
    ensures r.after.onceEvents - {e} == s.onceEvents - {e}
    ensures Valid(s) ==> Valid(r.after)
  {
    match AddListener(s.onceEvents, e, cb)
    case Success(reg) => Step(s.(onceEvents := reg), Success(()))
    case Failure(err) => Step(s, Failure(err))
  }

  /** `off`: unregisters a persistent listener and never throws; the
      one-shot registry is not touched. */
  function Off<E, CB(==)>(s: Emitter<E, CB>, e: E, cb: CB): (r: Emitter<E, CB>)
    ensures r.onceEvents == s.onceEvents
    ensures cb !in Listeners(r.events, e)
    ensures cb !in Listeners(s.events, e) ==> r == s
    ensures forall i :: 0 <= i < |Listeners(s.events, e)| && Listeners(s.events, e)[i] != cb ==>
                          Listeners(s.events, e)[i] in Listeners(r.events, e)
    ensures Valid(s) ==>
              forall k :: 0 <= k < |Listeners(s.events, e)| && Listeners(s.events, e)[k] == cb ==>
                Listeners(r.events, e) == Listeners(s.events, e)[..k] + Listeners(s.events, e)[k + 1..]
    ensures r.events - {e} == s.events - {e}
    ensures Valid(s) ==> Valid(r)
  {
    s.(events := RemoveListener(s.events, e, cb))
  }

  /** `offOnce`: unregisters a one-shot listener and never throws; the
      persistent registry is not touched. */
  function OffOnce<E, CB(==)>(s: Emitter<E, CB>, e: E, cb: CB): (r: Emitter<E, CB>)
    ensures r.events == s.events
    ensures cb !in Listeners(r.onceEvents, e)
    ensures cb !in Listeners(s.onceEvents, e) ==> r == s
    ensures forall i :: 0 <= i < |Listeners(s.onceEvents, e)| && Listeners(s.onceEvents, e)[i] != cb ==>
                          Listeners(s.onceEvents, e)[i] in Listeners(r.onceEvents, e)
    ensures Valid(s) ==>
              forall k :: 0 <= k < |Listeners(s.onceEvents, e)| && Listeners(s.onceEvents, e)[k] == cb ==>
                Listeners(r.onceEvents, e) == Listeners(s.onceEvents, e)[..k] + Listeners(s.onceEvents, e)[k + 1..]
    ensures r.onceEvents - {e} == s.onceEvents - {e}
    ensures Valid(s) ==> Valid(r)
  {
    s.(onceEvents := RemoveListener(s.onceEvents, e, cb))
  }

  /** The `forEach` over a snapshot of a listener set: one invocation per
      listener, in iteration order, each with the emitted arguments. */
  function Schedule<CB, D>(listeners: seq<CB>, data: D): (l: seq<Invocation<CB, D>>)
    ensures |l| == |listeners|
    ensures forall i :: 0 <= i < |l| ==> l[i].callback == listeners[i] && l[i].data == data
  {
    if listeners == [] then []
    else [Invocation(listeners[0], data)] + Schedule(listeners[1..], data)
  }

  /** The one-shot phase: every one-shot listener of `e` is scheduled once,
      then the key leaves the one-shot registry; the persistent registry and
      the other keys are not touched. */
  function EmitOnceEvents<E, CB, D>(s: Emitter<E, CB>, e: E, data: D): (r: Dispatch<E, CB, D>)
    ensures |r.trace| == |Listeners(s.onceEvents, e)|
    ensures forall i :: 0 <= i < |r.trace| ==>
                          r.trace[i] == Invocation(Listeners(s.onceEvents, e)[i], data)
    ensures r.after.events == s.events
    ensures !HasListeners(r.after.onceEvents, e)
    ensures Valid(s) ==> e !in r.after.onceEvents
    ensures r.after.onceEvents - {e} == s.onceEvents - {e}
    ensures Valid(s) ==> Valid(r.after)
  {
    if HasListeners(s.onceEvents, e) then
      Dispatch(Schedule(s.onceEvents[e], data), s.(onceEvents := s.onceEvents - {e}))
    else
      Dispatch([], s)
  }

  /** The persistent phase: every persistent listener of `e` is scheduled
      once, and neither registry changes. */
  function EmitPersistent<E, CB, D>(s: Emitter<E, CB>, e: E, data: D): (r: Dispatch<E, CB, D>)
    ensures |r.trace| == |Listeners(s.events, e)|
    ensures forall i :: 0 <= i < |r.trace| ==>
                          r.trace[i] == Invocation(Listeners(s.events, e)[i], data)
    ensures r.after == s
  {
    if HasListeners(s.events, e) then
      Dispatch(Schedule(s.events[e], data), s)
    else
      Dispatch([], s)
  }

  /** `emit`: the one-shot phase, then the persistent phase on the state the
      first phase left. All one-shot invocations precede all persistent ones;
      afterwards `e` has no one-shot listeners and the persistent registry is
      as before. */
  function Emit<E, CB, D>(s: Emitter<E, CB>, e: E, data: D): (r: Dispatch<E, CB, D>)
    ensures |r.trace| == |Listeners(s.onceEvents, e)| + |Listeners(s.events, e)|
    ensures forall i :: 0 <= i < |Listeners(s.onceEvents, e)| ==>
                          r.trace[i] == Invocation(Listeners(s.onceEvents, e)[i], data)
    ensures forall i :: |Listeners(s.onceEvents, e)| <= i < |r.trace| ==>
                          r.trace[i] == Invocation(Listeners(s.events, e)[i - |Listeners(s.onceEvents, e)|], data)
    ensures r.after.events == s.events
    ensures !HasListeners(r.after.onceEvents, e)
    ensures r.after.onceEvents - {e} == s.onceEvents - {e}
    ensures !HasListeners(s.onceEvents, e) && !HasListeners(s.events, e) ==> r.trace == [] && r.after == s
    ensures Valid(s) ==> Valid(r.after)
  {
    var once := EmitOnceEvents(s, e, data);
    var persistent := EmitPersistent(once.after, e, data);
    Dispatch(once.trace + persistent.trace, persistent.after)
  }
}
