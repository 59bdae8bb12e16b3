/** Stream values, timestamps, and the outcome of a computation that may panic. */
module Values {

  /** Timestamps and durations are whole nanoseconds since the start of the monitor. */
  type Time = nat

  /** A dynamically typed stream value. `None` is the absence of a value. */
  datatype Value =
    | None
    | Bool(b: bool)
    | Unsigned(u: nat)
    | Signed(i: int)
    | Float(f: real)
    | Tuple(entries: seq<Value>)
    | Str(s: string)
    | Bytes(bytes: seq<bv8>)

  /** A value together with the time at which a window accepted it. */
  datatype Sample = Sample(v: Value, ts: Time)

  datatype Option<+T> = Nothing | Just(value: T)

  /** Either a result, or a panic (a failed assertion, `unreachable!`, `unimplemented!`, an index out of bounds). */
  datatype Outcome<+T> = Ok(value: T) | Panic {
    predicate IsFailure() { Panic? }

    function PropagateFailure<U>(): Outcome<U>
      requires Panic?
    {
      Panic
    }

    function Extract(): T
      requires Ok?
    {
      value
    }
  }
}
