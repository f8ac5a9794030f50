/**
  The `io.Writer` the encoder writes to. A sink either has unlimited room
  (standard output in the program) or a fixed capacity; a write that does
  not fit stores what fits and reports a short write, as Go's `io.Writer`
  contract allows (`n < len(p)` together with a non-nil error).
 */
module Sinks {
  import opened Wrappers
  import opened BigEndian

  /** How many of `len` bytes a sink with the given room accepts. */
  function Accepted(room: Option<nat>, len: nat): (n: nat)
    ensures n <= len
    ensures n == len <==> (room.None? || len <= room.value)
    ensures n < len ==> n == room.value
  {
    match room
    case None => len
    case Some(k) => if k < len then k else len
  }

  class Sink {
    var data: seq<byte>
    const capacity: Option<nat>

    ghost predicate Valid()
      reads this
    {
      capacity.Some? ==> |data| <= capacity.value
    }

    /** Bytes the sink can still take; `None` when it is unbounded. */
    function Room(): (r: Option<nat>)
      reads this
      requires Valid()
      ensures r.None? <==> capacity.None?
      ensures r.Some? ==> |data| + r.value == capacity.value
    {
      match capacity
      case None => None
      case Some(c) => Some(c - |data|)
    }

    constructor (capacity: Option<nat>)
      ensures Valid() && data == [] && this.capacity == capacity
    {
      data := [];
      this.capacity := capacity;
    }

    /** `w.Write(p)`: appends the part of `p` that fits; `ok` is false on a short write. */
    method Write(p: seq<byte>) returns (n: nat, ok: bool)
      requires Valid()
      modifies this
      ensures Valid()
      ensures n == Accepted(old(Room()), |p|)
      ensures data == old(data) + p[..n]
      ensures ok <==> n == |p|
    {
      n := Accepted(Room(), |p|);
      data := data + p[..n];
      ok := n == |p|;
    }
  }
}
