/**
 Shared vocabulary of the classification-key tool: the status codes every
 operation returns, the three ways an answer label is joined to a question
 when a directory is named, and the usual Option wrapper standing in for a
 pointer that may be NULL.
 */
module Types {

  /** Result of a storage call or of a whole materialization run. */
  datatype StatusCode =
    | Success
    | ErrorFileNotFound
    | ErrorInvalidJson
    | ErrorMemoryAllocation
    | ErrorDirectoryCreation
    | ErrorFileCreation
    | ErrorInvalidArguments

  /** The numeric value of a status code; a child process passes it to exit(). */
  function Code(s: StatusCode): (n: nat)
    ensures n == 0 <==> s == Success
    ensures n <= 6
  {
    match s
    case Success => 0
    case ErrorFileNotFound => 1
    case ErrorInvalidJson => 2
    case ErrorMemoryAllocation => 3
    case ErrorDirectoryCreation => 4
    case ErrorFileCreation => 5
    case ErrorInvalidArguments => 6
  }

  /** How an answer label and a question are joined into a directory name. */
  datatype ConcatMode = PrefixMode | SuffixMode | BothModes

  /** A value that may be absent (a NULL pointer in the program). */
  datatype Option<+T> = None | Some(value: T)

  /** Concatenation regroups freely; stated once so proofs over long element types stay cheap. */
  lemma AppendAssociative<T>(a: seq<T>, b: seq<T>, c: seq<T>)
    ensures a + (b + c) == (a + b) + c
  {
  }
}
