/** Properties of the emitter across several calls: how often each callback
    is invoked, the one-shot rule, repeated emission, undoing a registration,
    and the scenarios the repository's tests describe. */
module EmitterProperties {
  import opened ListenerSets
  import opened Registries
  import opened AsyncEventEmitter

  /** How many invocations of `cb` a trace holds. */
  function Calls<CB(==), D>(trace: seq<Invocation<CB, D>>, cb: CB): nat
  {
    if trace == [] then 0
    else (if trace[0].callback == cb then 1 else 0) + Calls(trace[1..], cb)
  }

  lemma {:induction false} CallsAppend<CB, D>(a: seq<Invocation<CB, D>>, b: seq<Invocation<CB, D>>, cb: CB)
    ensures Calls(a + b, cb) == Calls(a, cb) + Calls(b, cb)
    decreases |a|
  {
    if a == [] {
      assert a + b == b;
    } else {
      assert (a + b)[1..] == a[1..] + b;
      CallsAppend(a[1..], b, cb);
    }
  }

  /** Scheduling a listener set invokes each member exactly once and
      nothing else. */
  lemma {:induction false} ScheduleCallsEachOnce<CB, D>(listeners: seq<CB>, data: D, cb: CB)
    requires NoDuplicates(listeners)
    ensures Calls(Schedule(listeners, data), cb) == if cb in listeners then 1 else 0
    decreases |listeners|
  {
    if listeners != [] {
      var l := Schedule(listeners, data);
      HeadNotInTail(listeners);
      ScheduleCallsEachOnce(listeners[1..], data, cb);
      assert l[0].callback == listeners[0];
      assert l[1..] == Schedule(listeners[1..], data);
      assert cb in listeners <==> cb == listeners[0] || cb in listeners[1..];
    }
  }

  /** The trace of `emit` is the one-shot snapshot's schedule followed by the
      persistent snapshot's schedule. */
  lemma EmitTraceIsBothPhases<E, CB, D>(s: Emitter<E, CB>, e: E, data: D)
    ensures Emit(s, e, data).trace
         == Schedule(Listeners(s.onceEvents, e), data) + Schedule(Listeners(s.events, e), data)
  {
    var t := Emit(s, e, data).trace;
    var a := Schedule(Listeners(s.onceEvents, e), data);
    var b := Schedule(Listeners(s.events, e), data);
    assert |t| == |a + b|;
    forall i | 0 <= i < |t|
      ensures t[i] == (a + b)[i]
    {
      if i < |a| {
        assert (a + b)[i] == a[i];
      } else {
        assert (a + b)[i] == b[i - |a|];
      }
    }
  }

  /** One `emit` invokes a callback once for each registry in which it is
      listening to the event, and not at all otherwise. */
  lemma EmitCalls<E, CB, D>(s: Emitter<E, CB>, e: E, data: D, cb: CB)
    requires Valid(s)
    ensures Calls(Emit(s, e, data).trace, cb)
         == (if cb in Listeners(s.onceEvents, e) then 1 else 0)
          + (if cb in Listeners(s.events, e) then 1 else 0)
  {
    EmitTraceIsBothPhases(s, e, data);
    CallsAppend(Schedule(Listeners(s.onceEvents, e), data), Schedule(Listeners(s.events, e), data), cb);
    ScheduleCallsEachOnce(Listeners(s.onceEvents, e), data, cb);
    ScheduleCallsEachOnce(Listeners(s.events, e), data, cb);
  }

  /** The one-shot rule: after one `emit`, a second `emit` of the same event
      invokes exactly the persistent listeners, none of the one-shot ones. */
  lemma SecondEmitSkipsOnceListeners<E, CB, D>(s: Emitter<E, CB>, e: E, first: D, second: D)
    ensures Emit(Emit(s, e, first).after, e, second).trace
         == Schedule(Listeners(s.events, e), second)
  {
    var t := Emit(s, e, first).after;
    EmitTraceIsBothPhases(t, e, second);
    assert Listeners(t.onceEvents, e) == [];
    assert Schedule(Listeners(t.onceEvents, e), second) == [];
  }

  /** `n` successive emissions of the same event with the same arguments. */
  function EmitTimes<E, CB, D>(s: Emitter<E, CB>, e: E, data: D, n: nat): (r: Dispatch<E, CB, D>)
    ensures r.after.events == s.events
    ensures n > 0 ==> !HasListeners(r.after.onceEvents, e)
    ensures forall i :: 0 <= i < |r.trace| ==> r.trace[i].data == data
    ensures Valid(s) ==> Valid(r.after)
    decreases n
  {
    if n == 0 then Dispatch([], s)
    else
      var first := Emit(s, e, data);
      var rest := EmitTimes(first.after, e, data, n - 1);
      Dispatch(first.trace + rest.trace, rest.after)
  }

  /** Over `n` emissions a persistent listener is invoked `n` times and a
      one-shot listener once (none when `n` is zero). */
  lemma {:induction false} RepeatedEmitCalls<E, CB, D>(s: Emitter<E, CB>, e: E, data: D, n: nat, cb: CB)
    requires Valid(s)
    ensures Calls(EmitTimes(s, e, data, n).trace, cb)
         == (if cb in Listeners(s.events, e) then n else 0)
          + (if n > 0 && cb in Listeners(s.onceEvents, e) then 1 else 0)
    decreases n
  {
    if n > 0 {
      var first := Emit(s, e, data);
      var rest := EmitTimes(first.after, e, data, n - 1);
      CallsAppend(first.trace, rest.trace, cb);
      EmitCalls(s, e, data, cb);
      RepeatedEmitCalls(first.after, e, data, n - 1, cb);
      assert Listeners(first.after.onceEvents, e) == [];
    }
  }

  /** Removing a persistent listener right after adding it restores the
      emitter exactly. */
  lemma OffUndoesOn<E, CB>(s: Emitter<E, CB>, e: E, cb: CB)
    requires Valid(s)
    requires On(s, e, cb).outcome.Success?
    ensures Off(On(s, e, cb).after, e, cb) == s
  {
    RemoveUndoesAdd(s.events, e, cb);
  }

  /** Removing a one-shot listener right after adding it restores the
      emitter exactly. */
  lemma OffOnceUndoesOnce<E, CB>(s: Emitter<E, CB>, e: E, cb: CB)
    requires Valid(s)
    requires Once(s, e, cb).outcome.Success?
    ensures OffOnce(Once(s, e, cb).after, e, cb) == s
  {
    RemoveUndoesAdd(s.onceEvents, e, cb);
  }

  /** Registering the same callback twice for the same event in the same
      registry throws the duplicate error and keeps the first registration. */
  lemma DuplicateRegistrationThrows<E, CB>(s: Emitter<E, CB>, e: E, cb: CB)
    ensures var t := On(s, e, cb).after;
            On(t, e, cb) == Step(t, Failure(DuplicateCallback))
    ensures var t := Once(s, e, cb).after;
            Once(t, e, cb) == Step(t, Failure(DuplicateCallback))
  {
  }

  /** `off` does not reach the one-shot registry: a callback added with both
      `on` and `once`, then removed with `off`, still fires once. */
  lemma OffLeavesOnceRegistration<E, CB, D>(s: Emitter<E, CB>, e: E, cb: CB, data: D)
    requires Valid(s)
    requires cb !in Listeners(s.events, e) && cb !in Listeners(s.onceEvents, e)
    ensures var s1 := On(s, e, cb).after;
            var s2 := Once(s1, e, cb).after;
            Calls(Emit(Off(s2, e, cb), e, data).trace, cb) == 1
  {
    var s1 := On(s, e, cb).after;
    var s2 := Once(s1, e, cb).after;
    EmitCalls(Off(s2, e, cb), e, data, cb);
  }

  /** `offOnce` does not reach the persistent registry: a callback added with
      both `on` and `once`, then removed with `offOnce`, still fires once. */
  lemma OffOnceLeavesOnRegistration<E, CB, D>(s: Emitter<E, CB>, e: E, cb: CB, data: D)
    requires Valid(s)
    requires cb !in Listeners(s.events, e) && cb !in Listeners(s.onceEvents, e)
    ensures var s1 := On(s, e, cb).after;
            var s2 := Once(s1, e, cb).after;
            Calls(Emit(OffOnce(s2, e, cb), e, data).trace, cb) == 1
  {
    var s1 := On(s, e, cb).after;
    var s2 := Once(s1, e, cb).after;
    EmitCalls(OffOnce(s2, e, cb), e, data, cb);
  }

  /** A listener removed right after being added, in either registry, is not
      invoked by the next `emit` on a fresh emitter. */
  lemma RemovedListenerNotInvoked<E, CB, D>(e: E, cb: CB, data: D)
    ensures Emit(Off(On(New(), e, cb).after, e, cb), e, data).trace == []
    ensures Emit(OffOnce(Once(New(), e, cb).after, e, cb), e, data).trace == []
  {
    OffUndoesOn(New(), e, cb);
    OffOnceUndoesOnce(New(), e, cb);
  }

  /** Listeners of another event are not invoked, and the emitter is left as
      it was. */
  lemma OtherEventNotInvoked<E, CB, D>(e: E, f: E, cb: CB, data: D)
    requires e != f
    ensures var s := On(New(), f, cb).after; Emit(s, e, data) == Dispatch([], s)
    ensures var s := Once(New(), f, cb).after; Emit(s, e, data) == Dispatch([], s)
  {
  }

  /** A call on the emitter's public surface. `EmitCall` is an `emit` the
      caller awaits before its next call. An `emit` that is not awaited is
      split in two: `EmitStart` is the part that runs synchronously inside
      the call (the one-shot phase), and `EmitResume` is the persistent phase
      that runs once the one-shot invocations have settled. Other calls may
      come between the two. */
  datatype Call<E(==), CB, D> =
    | OnCall(event: E, callback: CB)
    | OnceCall(event: E, callback: CB)
    | OffCall(event: E, callback: CB)
    | OffOnceCall(event: E, callback: CB)
    | EmitCall(event: E, data: D)
    | EmitStart(event: E, data: D)
    | EmitResume(event: E, data: D)

  /** Only the emission calls schedule invocations. */
  predicate IsEmission<E, CB, D>(c: Call<E, CB, D>) {
    c.EmitCall? || c.EmitStart? || c.EmitResume?
  }

  /** One call: a registration that throws leaves the emitter as it was and
      schedules nothing; only emission schedules invocations, and only the
      one-shot half of an emission changes the emitter. */
  function Apply<E, CB(==), D>(s: Emitter<E, CB>, c: Call<E, CB, D>): (r: Dispatch<E, CB, D>)
    ensures !IsEmission(c) ==> r.trace == []
    ensures c.EmitResume? ==> r.after == s
    ensures IsEmission(c) ==> r.after.events == s.events
    ensures Valid(s) ==> Valid(r.after)
  {
    match c
    case OnCall(e, cb) => Dispatch([], On(s, e, cb).after)
    case OnceCall(e, cb) => Dispatch([], Once(s, e, cb).after)
    case OffCall(e, cb) => Dispatch([], Off(s, e, cb))
    case OffOnceCall(e, cb) => Dispatch([], OffOnce(s, e, cb))
    case EmitCall(e, data) => Emit(s, e, data)
    case EmitStart(e, data) => EmitOnceEvents(s, e, data)
    case EmitResume(e, data) => EmitPersistent(s, e, data)
  }

  /** A sequence of calls, with the invocations they scheduled in order. Both
      registry invariants hold after any such sequence from a valid emitter. */
  function Run<E, CB(==), D>(s: Emitter<E, CB>, calls: seq<Call<E, CB, D>>): (r: Dispatch<E, CB, D>)
    ensures Valid(s) ==> Valid(r.after)
    ensures (forall i :: 0 <= i < |calls| ==> !IsEmission(calls[i])) ==> r.trace == []
    decreases |calls|
  {
    if calls == [] then Dispatch([], s)
    else
      var first := Apply(s, calls[0]);
      var rest := Run(first.after, calls[1..]);
      Dispatch(first.trace + rest.trace, rest.after)
  }

  lemma RunOne<E, CB, D>(s: Emitter<E, CB>, c: Call<E, CB, D>)
    ensures Run(s, [c]) == Apply(s, c)
  {
    assert [c][1..] == [];
    assert Apply(s, c).trace + [] == Apply(s, c).trace;
  }

  lemma RunCons<E, CB, D>(s: Emitter<E, CB>, c: Call<E, CB, D>, calls: seq<Call<E, CB, D>>)
    ensures var first := Apply(s, c);
            var rest := Run(first.after, calls);
            Run(s, [c] + calls) == Dispatch(first.trace + rest.trace, rest.after)
  {
    assert ([c] + calls)[1..] == calls;
  }

  /** An awaited `emit` is its two halves run back to back. */
  lemma AwaitedEmitIsStartThenResume<E, CB, D>(s: Emitter<E, CB>, e: E, data: D)
    ensures Run(s, [EmitStart(e, data), EmitResume(e, data)]) == Run(s, [EmitCall(e, data)])
  {
    var start: Call<E, CB, D> := EmitStart(e, data);
    var resume: Call<E, CB, D> := EmitResume(e, data);
    RunOne(Apply(s, start).after, resume);
    RunCons(s, start, [resume]);
    assert [start] + [resume] == [start, resume];
    RunOne(s, EmitCall(e, data));
  }

  /** The persistent snapshot is taken when the persistent phase runs: an
      `off` made while an `emit` is still pending removes the listener from
      that very emission. */
  lemma PendingEmitSeesLaterOff<E, CB, D>(e: E, cb: CB, data: D)
    ensures Run(New(), [OnCall(e, cb), EmitStart(e, data), OffCall(e, cb), EmitResume(e, data)]).trace == []
  {
    var on: Call<E, CB, D> := OnCall(e, cb);
    var off: Call<E, CB, D> := OffCall(e, cb);
    var start: Call<E, CB, D> := EmitStart(e, data);
    var resume: Call<E, CB, D> := EmitResume(e, data);

    var s1 := On(New(), e, cb).after;
    assert s1.events == map[e := [cb]] && s1.onceEvents == map[];
    assert Apply(New(), on) == Dispatch([], s1);
    assert Apply(s1, start) == Dispatch([], s1);
    assert Delete([cb], cb) == [];
    var s3 := Off(s1, e, cb);
    assert s3.events == map[];
    assert Apply(s1, off) == Dispatch([], s3);
    assert Apply(s3, resume) == Dispatch([], s3);

    RunOne(s3, resume);
    RunCons(s1, off, [resume]);
    RunCons(s1, start, [off, resume]);
    RunCons(New(), on, [start, off, resume]);
    assert [on] + [start, off, resume] == [on, start, off, resume];
    assert [start] + [off, resume] == [start, off, resume];
    assert [off] + [resume] == [off, resume];
  }

  /** After an awaited `emit`, the same `off` comes too late: the listener
      was invoked. */
  lemma AwaitedEmitPrecedesLaterOff<E, CB, D>(e: E, cb: CB, data: D)
    ensures Run(New(), [OnCall(e, cb), EmitCall(e, data), OffCall(e, cb)]).trace == [Invocation(cb, data)]
  {
    var on: Call<E, CB, D> := OnCall(e, cb);
    var off: Call<E, CB, D> := OffCall(e, cb);
    var emit: Call<E, CB, D> := EmitCall(e, data);

    var s1 := On(New(), e, cb).after;
    assert Apply(New(), on) == Dispatch([], s1);
    SoleListenerEmit(e, cb, data);
    assert Apply(s1, emit) == Dispatch([Invocation(cb, data)], s1);
    assert Apply(s1, off).trace == [];

    RunOne(s1, off);
    RunCons(s1, emit, [off]);
    RunCons(New(), on, [emit, off]);
    assert [on] + [emit, off] == [on, emit, off];
    assert [emit] + [off] == [emit, off];
  }

  lemma SoleListenerEmit<E, CB, D>(e: E, cb: CB, data: D)
    ensures var s1 := On(New(), e, cb).after;
            Emit(s1, e, data) == Dispatch([Invocation(cb, data)], s1)
  {
    var s1 := On(New(), e, cb).after;
    assert s1.events == map[e := [cb]] && s1.onceEvents == map[];
    EmitTraceIsBothPhases(s1, e, data);
    assert Schedule([cb], data) == [Invocation(cb, data)];
  }
}
