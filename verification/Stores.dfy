/** Bounded stream buffers: the most recent value is at the front. */
module Stores {
  import opened Values

  datatype MemorizationBound = Unbounded | Bounded(limit: nat)

  /** The buffer after a push: the oldest value is dropped when the buffer is full. */
  function Pushed(buffer: seq<Value>, bound: MemorizationBound, v: Value): seq<Value> {
    var kept := if bound.Bounded? && |buffer| == bound.limit && buffer != [] then buffer[..|buffer| - 1] else buffer;
    [v] + kept
  }

  /** The value at an offset of at most zero, or `None` if the buffer does not reach that far. */
  function ValueAt(buffer: seq<Value>, offset: int): Value
    requires offset <= 0
  {
    if -offset < |buffer| then buffer[-offset] else Value.None
  }

  /** The discrete lookup: the freshness of the target decides whether the current value is skipped. */
  function LookupWithOffset(buffer: seq<Value>, isFresh: bool, offset: int): Outcome<Value> {
    var shifted := if isFresh then offset else offset + 1;
    if shifted > 0 then Panic else Ok(ValueAt(buffer, shifted))
  }

  /**
   The offset of a past lookup by `k`: the cast of a 32-bit number to 16 bits wraps, and negating the
   minimum overflows.
   */
  function PastOffset(k: nat): Outcome<int> {
    var low := k % 0x1_0000;
    var k16 := if low < 0x8000 then low else low - 0x1_0000;
    if k16 == -0x8000 then Panic else Ok(-k16)
  }

  function LookupPast(buffer: seq<Value>, isFresh: bool, k: nat): Outcome<Value> {
    var offset :- PastOffset(k);
    LookupWithOffset(buffer, isFresh, offset)
  }

  predicate HasRoom(bound: MemorizationBound, n: nat) {
    bound.Bounded? ==> n <= bound.limit
  }

  /** A buffer that is as long as its bound allows. */
  predicate WithinBound(buffer: seq<Value>, bound: MemorizationBound) {
    HasRoom(bound, |buffer|)
  }

  /** The buffer holds the most recent values of the oldest-first history, as many as the bound allows. */
  ghost predicate Represents(buffer: seq<Value>, bound: MemorizationBound, history: seq<Value>) {
    && |buffer| == (if bound.Bounded? && bound.limit < |history| then bound.limit else |history|)
    && forall i | 0 <= i < |buffer| :: buffer[i] == history[|history| - 1 - i]
  }

  /** The `k`-th most recent value of a history, counting from one. */
  function KthRecent(history: seq<Value>, k: nat): Value
    requires k >= 1
  {
    if k <= |history| then history[|history| - k] else Value.None
  }

  function Latest(history: seq<Value>): Value {
    KthRecent(history, 1)
  }

  lemma PushRepresents(buffer: seq<Value>, bound: MemorizationBound, history: seq<Value>, v: Value)
    requires HasRoom(bound, 1) && Represents(buffer, bound, history)
    ensures Represents(Pushed(buffer, bound, v), bound, history + [v])
  {
  }

  /** Whatever was pushed, a bounded buffer of limit at least one holds exactly the newest values. */
  lemma {:induction false} PushesRepresent(bound: MemorizationBound, history: seq<Value>)
    requires HasRoom(bound, 1)
    ensures Represents(PushAll([], bound, history), bound, history)
  {
    if history != [] {
      var n := |history| - 1;
      PushesRepresent(bound, history[..n]);
      PushRepresents(PushAll([], bound, history[..n]), bound, history[..n], history[n]);
      assert history[..n] + [history[n]] == history;
    }
  }

  function PushAll(buffer: seq<Value>, bound: MemorizationBound, vs: seq<Value>): seq<Value> {
    if vs == [] then buffer else Pushed(PushAll(buffer, bound, vs[..|vs| - 1]), bound, vs[|vs| - 1])
  }

  /**
   The meaning of a discrete lookup by `k`: the `k`-th most recent value strictly before the
   current one, whether or not the target has already been extended in this step.
   */
  lemma PastLookupMeaning(buffer: seq<Value>, bound: MemorizationBound, history: seq<Value>, k: nat)
    requires 1 <= k < 0x8000 && HasRoom(bound, k + 1)
    requires Represents(buffer, bound, history)
    ensures LookupPast(buffer, false, k) == Ok(KthRecent(history, k))
    ensures history != [] ==> LookupPast(buffer, true, k) == Ok(KthRecent(history[..|history| - 1], k))
  {
  }

  /**
   What every past lookup by `k` answers: in 16 bits `k` is the `k % 65536`-th value before the current
   one, or the current value, which must be fresh; an upper half of the range looks into the future.
   */
  lemma PastLookupExact(buffer: seq<Value>, isFresh: bool, k: nat)
    ensures LookupPast(buffer, isFresh, k).Panic? <==> k % 65536 >= 32768 || (k % 65536 == 0 && !isFresh)
    ensures LookupPast(buffer, isFresh, k).Ok? ==>
              var i := if isFresh then k % 65536 else k % 65536 - 1;
              LookupPast(buffer, isFresh, k).value == if i < |buffer| then buffer[i] else Value.None
  {
  }

  /** The freshness shift: a push followed by marking the stream as fresh leaves every past lookup unchanged. */
  lemma PastLookupIgnoresPush(buffer: seq<Value>, bound: MemorizationBound, v: Value, k: nat)
    requires 1 <= k < 0x8000 && HasRoom(bound, k + 1) && WithinBound(buffer, bound)
    ensures LookupPast(Pushed(buffer, bound, v), true, k) == LookupPast(buffer, false, k)
  {
  }

  /** A buffer one value too small for an access by `k` loses exactly the value that is asked for. */
  lemma SmallerBufferFails(history: seq<Value>, k: nat)
    requires 1 <= k < 0x8000 && k + 1 <= |history|
    requires KthRecent(history[..|history| - 1], k) != Value.None
    ensures LookupPast(PushAll([], Bounded(k), history), true, k) == Ok(Value.None)
    ensures LookupPast(PushAll([], Bounded(k), history), true, k) != Ok(KthRecent(history[..|history| - 1], k))
  {
    PushesRepresent(Bounded(k), history);
  }

  class InstanceStore {
    var buffer: seq<Value>
    const bound: MemorizationBound

    constructor (bound: MemorizationBound)
      ensures this.bound == bound && buffer == []
      ensures Represents(buffer, bound, [])
    {
      this.bound := bound;
      buffer := [];
    }

    /** The buffer entry at `offset`; a positive offset fails the assertion. */
    method GetValue(offset: int) returns (v: Outcome<Value>)
      ensures v == if offset > 0 then Panic else Ok(ValueAt(buffer, offset))
      ensures offset <= 0 ==> v == Ok(if -offset < |buffer| then buffer[-offset] else Value.None)
    {
      if offset > 0 {
        return Panic;
      }
      if offset == 0 {
        v := Ok(if buffer != [] then buffer[0] else Value.None);
      } else {
        v := Ok(if -offset < |buffer| then buffer[-offset] else Value.None);
      }
    }

    method PushValue(v: Value)
      modifies this`buffer
      ensures buffer == Pushed(old(buffer), bound, v)
    {
      if bound.Bounded? {
        if |buffer| == bound.limit && buffer != [] {
          buffer := buffer[..|buffer| - 1];
        }
      }
      buffer := [v] + buffer;
    }
  }
}
