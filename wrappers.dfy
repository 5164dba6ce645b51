/** The optional value used throughout the model: `None` stands for Python's
    `None` (no record, no match, no element found). */
module Wrappers {

  datatype Option<+T> = None | Some(value: T)

  /** Concatenation regroups freely; called as a proof step where the
      solver would otherwise search for the regrouping. */
  lemma AppendAssoc<T>(a: seq<T>, b: seq<T>, c: seq<T>)
    ensures (a + b) + c == a + (b + c)
  {
  }
}
