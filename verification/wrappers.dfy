/** The optional-value type, and one sequence law, shared by the other
    modules. */
module Wrappers {

  /** A value that may be absent: the model's counterpart of a C# `null`
      or of a `TryParse` that returned false. */
  datatype Option<+T> = None | Some(value: T)

  /** Concatenation is associative (stated once, so that proofs in a busy
      context can cite it instead of rediscovering it). */
  lemma AppendAssoc<T>(a: seq<T>, b: seq<T>, c: seq<T>)
    ensures (a + b) + c == a + (b + c)
  {
  }
}
