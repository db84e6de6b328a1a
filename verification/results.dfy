/** Failure-compatible wrappers for the two ways the punctuation core can stop
    early: an alignment fault while voting and a label read on a word that got
    no vote. */
module Results {

  datatype Option<+T> = None | Some(value: T)

  /** The exceptions the core can raise, each with the position it concerns. */
  datatype Fault =
    /** the `assert` that an oracle word equals the stored word failed */
    | Misaligned(index: nat, expected: string, found: string)
    /** an oracle word was mapped past the end of the word list (IndexError) */
    | OutOfRange(index: nat)
    /** the majority label was read on a word with no votes (IndexError) */
    | NoVotes(index: nat)

  datatype Result<+T> = Ok(value: T) | Err(fault: Fault) {

    predicate IsFailure() {
      Err?
    }

    function PropagateFailure<U>(): (r: Result<U>)
      requires Err?
    {
      Err(fault)
    }

    function Extract(): (v: T)
      requires Ok?
    {
      value
    }
  }
}
