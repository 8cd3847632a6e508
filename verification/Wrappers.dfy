/** The two failure-carrying datatypes the other modules share, and facts about sequences. */
module Wrappers {
  datatype Option<+T> = None | Some(value: T)

  datatype Result<+T, +E> = Ok(value: T) | Err(error: E)

  function UnwrapOr<T>(o: Option<T>, default: T): T {
    match o
    case Some(v) => v
    case None => default
  }

  lemma SeqAssoc<T>(x: seq<T>, y: seq<T>, z: seq<T>)
    ensures x + y + z == x + (y + z)
  {
  }

  /** A concatenation taken apart where it was joined. */
  lemma TakeAndDrop<T>(x: seq<T>, y: seq<T>)
    ensures (x + y)[..|x|] == x && (x + y)[|x|..] == y
  {
  }

  /** Two adjoining slices are one; the first may be taken from a prefix. */
  lemma SlicesJoin<T>(prefix: seq<T>, all: seq<T>, from: nat, mid: nat, upTo: nat)
    requires prefix <= all && from <= mid <= |prefix| && mid <= upTo <= |all|
    ensures all[from..upTo] == prefix[from..mid] + all[mid..upTo]
  {
  }
}
