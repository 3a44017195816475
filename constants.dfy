/** Run-wide routing parameters shared by every node and routing table
    (Kademlia/Core/Constants.cs). They are fixed before any node exists and are
    never changed afterwards; the model leaves their values open, so every
    result below holds for each choice. */
module Constants {

  type Pos = n: nat | n >= 1 witness 1

  /** Bucket capacity, and the size of a lookup result. */
  const K: Pos

  /** Bit width of the identifier space, and the number of buckets of a table. */
  const M: nat

  /** Number of peers queried per lookup round. */
  const Alpha: Pos
}
