/** Shared vocabulary of the model: node identifiers, failure-carrying
    results and a few facts about sequences. */
module Common {

  /** A biomolecule identifier (gene, transcript, protein, metabolite). */
  type Node = string

  datatype Option<+T> = None | Some(value: T)

  /** The value of a call that either returns or raises. */
  datatype Result<+T, +E> = Success(value: T) | Failure(error: E)

  /** True if no element occurs twice. */
  predicate NoDuplicates<T(==)>(s: seq<T>)
  {
    forall i, j :: 0 <= i < j < |s| ==> s[i] != s[j]
  }

  /** The set of elements of a sequence (Python's `set(list)`). */
  function Elements<T>(s: seq<T>): set<T>
  {
    set x | x in s
  }
}
