/** A registry maps an event key to the listener set registered for it. The
    emitter owns two of them (persistent and one-shot); the three private
    helpers below are shared by both. */
module Registries {
  import opened ListenerSets

  /** The one error the bookkeeping raises: the same callback instance
      registered twice for the same event in the same registry. */
  datatype Error = DuplicateCallback

  /** The outcome of a call that may throw: its value, or the error. */
  datatype Result<T> = Success(value: T) | Failure(error: Error)

  type Registry<E(==), CB> = map<E, seq<CB>>

  /** The registry invariant: a key present in the map has a non-empty
      listener set, and no set holds the same callback twice. */
  ghost predicate ValidRegistry<E, CB>(reg: Registry<E, CB>) {
    forall e :: e in reg ==> reg[e] != [] && NoDuplicates(reg[e])
  }

  /** The listeners registered for `e`, in iteration order (none when the
      key is absent). */
  function Listeners<E, CB>(reg: Registry<E, CB>, e: E): seq<CB> {
    if e in reg then reg[e] else []
  }

  /** The guard used before dispatch: the key is present and its set is not
      empty. On a valid registry this is plain key membership. */
  function HasListeners<E, CB>(reg: Registry<E, CB>, e: E): (b: bool)
    ensures b <==> Listeners(reg, e) != []
    ensures ValidRegistry(reg) ==> (b <==> e in reg)
  {
    e in reg && |reg[e]| > 0
  }

  /** Registers `cb` for `e`: a duplicate is refused; an absent key gets a
      singleton set; a present key gets `cb` appended to its set. */
  function AddListener<E, CB(==)>(reg: Registry<E, CB>, e: E, cb: CB): (r: Result<Registry<E, CB>>)
    ensures r.Failure? <==> cb in Listeners(reg, e)
    ensures r.Failure? ==> r.error == DuplicateCallback
    ensures r.Success? ==> r.value.Keys == reg.Keys + {e}
    ensures r.Success? ==> cb in r.value[e]
    ensures r.Success? && e !in reg ==> r.value[e] == [cb]
    ensures r.Success? && e in reg ==> r.value[e] == reg[e] + [cb]
    ensures r.Success? ==> forall k :: k in reg && k != e ==> r.value[k] == reg[k]
    ensures r.Success? && ValidRegistry(reg) ==> ValidRegistry(r.value)
  {
    if e in reg then
      if cb in reg[e] then Failure(DuplicateCallback)
      else Success(reg[e := Add(reg[e], cb)])
    else
      Success(reg[e := [cb]])
  }

  /** Unregisters `cb` from `e`: tolerant of an absent key or callback;
      the other listeners keep their order, and the key is dropped once its
      set is empty. */
  function RemoveListener<E, CB(==)>(reg: Registry<E, CB>, e: E, cb: CB): (r: Registry<E, CB>)
    ensures cb !in Listeners(reg, e) ==> r == reg
    ensures cb !in Listeners(r, e)
    ensures r.Keys - {e} == reg.Keys - {e}
    ensures forall k :: k in reg && k != e ==> k in r && r[k] == reg[k]
    ensures forall i :: 0 <= i < |Listeners(reg, e)| && Listeners(reg, e)[i] != cb ==>
                          Listeners(reg, e)[i] in Listeners(r, e)
    ensures forall i :: 0 <= i < |Listeners(r, e)| ==> Listeners(r, e)[i] in Listeners(reg, e)
    ensures ValidRegistry(reg) ==>
              forall k :: 0 <= k < |Listeners(reg, e)| && Listeners(reg, e)[k] == cb ==>
                Listeners(r, e) == Listeners(reg, e)[..k] + Listeners(reg, e)[k + 1..]
    ensures ValidRegistry(reg) && cb in Listeners(reg, e) ==> (e !in r <==> reg[e] == [cb])
    ensures ValidRegistry(reg) ==> ValidRegistry(r)
  {
    if e !in reg || cb !in reg[e] then reg
    else
      DeleteKeepsOrderAt(reg[e], cb);
      var rest := Delete(reg[e], cb);
      if |rest| == 0 then reg - {e} else reg[e := rest]
  }

  /** Removal is idempotent: a second identical call changes nothing. */
  lemma RemoveIdempotent<E, CB>(reg: Registry<E, CB>, e: E, cb: CB)
    ensures RemoveListener(RemoveListener(reg, e, cb), e, cb) == RemoveListener(reg, e, cb)
  {
  }

  /** A successful registration is undone by removing the same callback: the
      registry is restored exactly, including the absence of a new key. */
  lemma RemoveUndoesAdd<E, CB>(reg: Registry<E, CB>, e: E, cb: CB)
    requires ValidRegistry(reg)
    requires AddListener(reg, e, cb).Success?
    ensures RemoveListener(AddListener(reg, e, cb).value, e, cb) == reg
  {
    if e in reg {
      AddToPresentKeyUndone(reg, e, cb);
    } else {
      AddToAbsentKeyUndone(reg, e, cb);
    }
  }

  lemma AddToPresentKeyUndone<E, CB>(reg: Registry<E, CB>, e: E, cb: CB)
    requires e in reg && reg[e] != [] && cb !in reg[e]
    ensures RemoveListener(reg[e := reg[e] + [cb]], e, cb) == reg
  {
    var listeners := reg[e];
    var added := reg[e := listeners + [cb]];
    DeleteAppended(listeners, cb);
    assert RemoveListener(added, e, cb) == added[e := listeners];
  }

  lemma AddToAbsentKeyUndone<E, CB>(reg: Registry<E, CB>, e: E, cb: CB)
    requires e !in reg
    ensures RemoveListener(reg[e := [cb]], e, cb) == reg
  {
    var added := reg[e := [cb]];
    assert Delete([cb], cb) == [];
    assert RemoveListener(added, e, cb) == added - {e};
  }
}
