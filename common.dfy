/** Values shared by the exploration server, its legacy predecessor and the robot firmware. */
module Common {

  /** A value that may be absent: a missing JSON key, a null field, a failed request. */
  datatype Option<T> = None | Some(value: T)

  /** An endpoint's reply: its payload, or the error it answers with (an HTTP 400). */
  datatype Result<T, E> = Ok(value: T) | Err(error: E)

  /** A grid cell, the JSON object {"x": x, "y": y}. */
  datatype Cell = Cell(x: int, y: int)

  /** No element occurs twice. */
  predicate NoDuplicates<T(==)>(s: seq<T>)
  {
    forall i, j :: 0 <= i < j < |s| ==> s[i] != s[j]
  }
}
