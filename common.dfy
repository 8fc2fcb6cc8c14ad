// Values shared by the leadership lock and the node registry.
module Common {

  /** A 128-bit GUID; the model only compares GUIDs for equality. */
  newtype Guid = x: int | 0 <= x < 0x1_0000_0000_0000_0000_0000_0000_0000_0000

  /** An agent URI, identified by its text. */
  type Uri = string

  /** A DateTimeOffset, as a count of 100-nanosecond ticks. */
  type Time = int

  /** TimeSpan.TicksPerMinute. */
  const TicksPerMinute: int := 600_000_000

  /** The C# `int` type. */
  newtype Int32 = x: int | -0x8000_0000 <= x < 0x8000_0000

  const Int32Max: Int32 := 0x7fff_ffff
  const Int32Min: Int32 := -0x8000_0000

  /** A nullable reference or value. */
  datatype Option<T> = None | Some(value: T)

  /** An operation that either completes with a value or throws. */
  datatype Result<T> = Success(value: T) | Failure(error: string)

  ghost predicate NoDuplicates<T>(s: seq<T>) {
    forall i, j :: 0 <= i < j < |s| ==> s[i] != s[j]
  }
}
