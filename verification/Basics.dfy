/** What several modules share: pointers into a table of records, bytes, pages. */
module Basics {

  const PAGE := 0x1000

  type Byte = x: int | 0 <= x < 256

  datatype Option<T> = None | Some(value: T)

  /** A pointer to a record of a table. */
  type Ref = nat
  const NULL: Ref := 0

  /** The k-th record of a linked list, NULL past its end. */
  function Nth(l: seq<Ref>, k: nat): Ref {
    if k < |l| then l[k] else NULL
  }
}
