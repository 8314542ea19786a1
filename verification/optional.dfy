/** The optional values the pointer state is built from (std::optional in the
    original), the consuming `pop` helper that swaps an optional with an
    empty one and hands back what was there, and the outcome of an expression
    whose evaluation may be undefined behaviour. */
module Optional {

  datatype Option<T> = None | Some(value: T)

  /** `value_or`: the held value, or the fallback when the optional is empty. */
  function ValueOr<T>(op: Option<T>, fallback: T): (v: T)
    ensures op.Some? ==> v == op.value
    ensures op.None? ==> v == fallback
  {
    if op.Some? then op.value else fallback
  }

  /** Result of `pop`: the value taken out and the emptied slot. */
  datatype Taken<T> = Taken(result: Option<T>, slot: Option<T>)

  /** `pop<T>(op)`: the slot is left empty and whatever it held is returned. */
  function Pop<T>(op: Option<T>): (t: Taken<T>)
    ensures t.slot.None?
    ensures t.result.Some? <==> op.Some?
    ensures op.Some? ==> t.result.value == op.value
  {
    Taken(op, None)
  }

  /** Popping an already-popped slot yields nothing: a consumed value is
      reported exactly once. */
  lemma PopTwiceYieldsNothing<T>(op: Option<T>)
    ensures Pop(Pop(op).slot).result.None?
    ensures Pop(Pop(op).slot).slot == Pop(op).slot
  {
  }

  /** What evaluating an expression that may read through an empty optional
      or past the end of an array yields: its value, or undefined behaviour. */
  datatype Behaviour<T> = Defined(value: T) | Undefined
}
