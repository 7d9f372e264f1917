# AsyncEventEmitter in Dafny

A model of `AsyncEventEmitter`, an in-process publish/subscribe registry.
Callers register callbacks against event keys in one of two registries:
- the persistent registry (`on` / `off`);
- the one-shot registry (`once` / `offOnce`).

`emit(event, ...data)` works in two phases:
1. It schedules every one-shot listener of the event and drops the event from the one-shot registry.
2. After those invocations complete, it schedules every persistent listener.

The model is functional:
- A registry is a `map<E, seq<CB>>`. `E` is the event key type and `CB` is an opaque callback identity.
- Each listener set is a sequence without repeats, in insertion order. This stands in for the identity set the source uses.
- Registration operations return the new emitter, plus whether the call returned or threw (a `Result`).
- Emission returns the trace of scheduled invocations (`Invocation(callback, data)`) together with the new emitter.

Files:
- `listener_set.dfy` (`ListenerSets`): the listener set, its `Add` and `Delete`, and the round trip between them.
- `registry.dfy` (`Registries`): the three private helpers shared by both registries, plus the registry invariant: no key maps to an empty set, and no set holds a duplicate.
- `emitter.dfy` (`AsyncEventEmitter`): the public operations and the two emission phases.
- `emitter_properties.dfy` (`EmitterProperties`): properties that span several calls. These are invocation counts, the one-shot rule, repeated emission, undoing a registration, the scenarios from the repository's tests, and preservation of the invariant over any call sequence.

The model follows the code on phase ordering. One could read `emit` as scheduling both phases before awaiting either, but the code (`src/lib/AsyncEventEmitter.ts:29-30`) awaits the one-shot invocations before it takes the persistent snapshot. For that reason `Emit` runs `EmitPersistent` on the state that `EmitOnceEvents` leaves, as a separate step.

## Model

| member | source | states |
|---|---|---|
| ListenerSets.Add | src/lib/AsyncEventEmitter.ts:47 | the callback becomes a member and every old member stays; a new callback goes last in iteration order; a set without duplicates stays without duplicates |
| ListenerSets.Delete | src/lib/AsyncEventEmitter.ts:63 | the callback is no longer a member and every other member stays; deleting a non-member changes nothing; on a duplicate-free set containing it, the size drops by exactly one |
| ListenerSets.DeleteKeepsOrder | src/lib/AsyncEventEmitter.ts:63 | on a set without duplicates, deleting the member at position k gives the set with just that position cut out, so every other member keeps its place in iteration order |
| ListenerSets.DeleteUndoesAdd | src/lib/AsyncEventEmitter.ts:47-63 | deleting a callback just added to a set that lacked it gives back the original set, in its original order |
| Registries.HasListeners | src/lib/AsyncEventEmitter.ts:71-80 | true exactly when the key has a non-empty listener set; on a valid registry, exactly when the key is present |
| Registries.AddListener | src/lib/AsyncEventEmitter.ts:39-51 | fails with the duplicate error exactly when the callback is already registered for the key; otherwise an absent key gets a singleton set, a present key gets its set plus the callback, other keys are unchanged, and the invariant is kept |
| Registries.RemoveListener | src/lib/AsyncEventEmitter.ts:55-67 | a missing key or callback leaves the registry unchanged; otherwise only that callback leaves the key's set and the remaining listeners keep their order (on a valid registry), the key is dropped exactly when the callback was its last listener, other keys are unchanged, and the invariant is kept |
| Registries.RemoveIdempotent | src/lib/AsyncEventEmitter.ts:55-61 | a second identical removal changes nothing |
| Registries.RemoveUndoesAdd | src/lib/AsyncEventEmitter.ts:39-67 | removing a callback right after a successful add restores the registry exactly, including the absence of a newly created key |
| AsyncEventEmitter.New | src/lib/AsyncEventEmitter.ts:35-36 | a new emitter has two empty registries, which satisfy the invariant |
| AsyncEventEmitter.On | src/lib/AsyncEventEmitter.ts:8-10 | throws the duplicate error, changing nothing, exactly when the callback is already a persistent listener of the event; otherwise the event's listeners become the old ones followed by the callback; the one-shot registry and other events are untouched |
| AsyncEventEmitter.Once | src/lib/AsyncEventEmitter.ts:13-15 | the same as `on`, for the one-shot registry; the persistent registry is untouched |
| AsyncEventEmitter.Off | src/lib/AsyncEventEmitter.ts:18-20 | afterwards the callback is not a persistent listener of the event, while the event's other persistent listeners stay, in their order on a valid emitter; never throws; a no-op when it was not registered; the one-shot registry and other events are untouched |
| AsyncEventEmitter.OffOnce | src/lib/AsyncEventEmitter.ts:23-25 | the same as `off`, for the one-shot registry; the persistent registry is untouched |
| AsyncEventEmitter.Schedule | src/lib/AsyncEventEmitter.ts:87-95 | one invocation per listener of the snapshot, in iteration order, each carrying the emitted arguments |
| AsyncEventEmitter.EmitOnceEvents | src/lib/AsyncEventEmitter.ts:83-99 | invokes each one-shot listener of the event once with the arguments; afterwards the event has no one-shot listeners (on a valid emitter its key is gone); the persistent registry and other events are untouched |
| AsyncEventEmitter.EmitPersistent | src/lib/AsyncEventEmitter.ts:102-118 | invokes each persistent listener of the event once with the arguments, and leaves the emitter unchanged |
| AsyncEventEmitter.Emit | src/lib/AsyncEventEmitter.ts:28-32 | every one-shot invocation comes before every persistent invocation; the one-shot listeners of the event are consumed; the persistent registry is unchanged; an event with no listeners yields no invocations and no change |
| EmitterProperties.EmitTraceIsBothPhases | src/lib/AsyncEventEmitter.ts:28-30 | the trace of `emit` is the one-shot snapshot's invocations followed by the persistent snapshot's invocations |
| EmitterProperties.EmitCalls | src/lib/AsyncEventEmitter.ts:83-118 | one `emit` invokes a callback once for each registry in which it listens to the event, and otherwise not at all |
| EmitterProperties.SecondEmitSkipsOnceListeners | src/lib/AsyncEventEmitter.ts:85-96 | a second `emit` of the same event invokes exactly the persistent listeners, with none of the consumed one-shot ones |
| EmitterProperties.EmitTimes | src/__tests__/index.test.ts:94-104 | repeated emission leaves the persistent registry as it was, consumes the event's one-shot listeners, and carries the emitted arguments in every invocation |
| EmitterProperties.RepeatedEmitCalls | src/__tests__/index.test.ts:94-104 | over n emissions, a persistent listener is invoked n times and a one-shot listener once |
| EmitterProperties.OffUndoesOn | src/lib/AsyncEventEmitter.ts:8-20 | `off` right after a successful `on` restores the emitter exactly |
| EmitterProperties.OffOnceUndoesOnce | src/lib/AsyncEventEmitter.ts:13-25 | `offOnce` right after a successful `once` restores the emitter exactly |
| EmitterProperties.DuplicateRegistrationThrows | src/__tests__/index.test.ts:67-73 | registering the same callback for the same event twice in the same registry throws the duplicate error and keeps the first registration, for both `on` and `once` |
| EmitterProperties.OffLeavesOnceRegistration | src/__tests__/index.test.ts:42-52 | after `on`, `once` and then `off`, the next `emit` invokes the callback exactly once |
| EmitterProperties.OffOnceLeavesOnRegistration | src/__tests__/index.test.ts:15-25 | after `on`, `once` and then `offOnce`, the next `emit` invokes the callback exactly once |
| EmitterProperties.RemovedListenerNotInvoked | src/__tests__/index.test.ts:28-36 | a listener added to a fresh emitter and then removed, in either registry, is not invoked |
| EmitterProperties.OtherEventNotInvoked | src/__tests__/index.test.ts:106-114 | emitting an event nobody listens to invokes nothing and changes nothing, even when another event has listeners |
| EmitterProperties.Apply | src/lib/AsyncEventEmitter.ts:8-32 | only emission schedules invocations; the persistent half of an emission changes nothing and no emission touches the persistent registry; every call keeps the invariant |
| EmitterProperties.Run | src/lib/AsyncEventEmitter.ts:7-36 | every sequence of calls from a valid emitter, including calls made between the two halves of a pending `emit`, keeps both registry invariants; a sequence with no emission schedules nothing |
| EmitterProperties.AwaitedEmitIsStartThenResume | src/lib/AsyncEventEmitter.ts:28-30 | an awaited `emit` is exactly its synchronous one-shot half followed by its persistent half |
| EmitterProperties.PendingEmitSeesLaterOff | src/lib/AsyncEventEmitter.ts:29-30 | an `off` made while an `emit` is still pending keeps the listener out of that emission, because the persistent snapshot is taken only after the await |
| EmitterProperties.AwaitedEmitPrecedesLaterOff | src/lib/AsyncEventEmitter.ts:28-32 | the same `off` made after the `emit` is awaited comes too late: the listener was invoked once with the arguments |

## Left out

- Asynchronous scheduling is not modelled: `setImmediate`, the per-invocation promises, the two `Promise.all` joins and the `true` that `emit` resolves with. Each scheduled invocation becomes an entry of the returned trace, in scheduling order.
- Listener failures are not modelled. Callbacks are opaque, so nothing in the model can throw or reject inside a callback, and propagation to `emit`'s promise is absent.
- Callback side effects are not modelled, and neither are re-entrant `on`/`emit` calls made from inside a callback. Calls the caller makes while an `emit` is pending are modelled: `Run` accepts an un-awaited `emit` as two calls, `EmitStart` and `EmitResume`, with other calls between them.
- EmitterProperties.Run: does not check that each `EmitResume` pairs with an earlier `EmitStart` of the same event and arguments. The caller chooses the interleaving, so it admits every order the event loop can produce and some it cannot. `EmitCall` stands for an `emit` that is awaited before the caller's next call.
- The emitted arguments (`...data`) are one opaque value of type `D`.
- The internals of the `pop-set` library are not part of this model. A listener set is assumed to be an identity set that iterates in insertion order.
- ListenerSets.Add: assumes that adding a present member leaves the set unchanged. The source only adds after checking membership, so this case never arises from the emitter.
- The thrown error is the single value `DuplicateCallback`. The message constant used at `src/lib/AsyncEventEmitter.ts:45` is not imported in that file, and its text is not part of this model.
- In `Run`, a registration that throws leaves the emitter unchanged and the sequence continues. This is how a caller that catches the error would see it.
- `src/meta/interfaces.ts` only declares the public signatures and has no behaviour.
