/** Value types of the transport layer: node and transfer identifiers, transfer types. */
module Transfer {

  type Byte = bv8

  /** A node identifier as stored: 0 is broadcast, 1..127 are unicast, everything above is invalid. */
  type NodeId = n: int | 0 <= n < 256

  const BROADCAST_NODE: NodeId := 0
  const MAX_NODE: NodeId := 127
  const INVALID_NODE: NodeId := 255

  predicate IsValidNode(n: NodeId) { n <= MAX_NODE }

  predicate IsBroadcast(n: NodeId) { n == BROADCAST_NODE }

  predicate IsUnicast(n: NodeId) { n <= MAX_NODE && n != BROADCAST_NODE }

  /** `NumTransferTypes` is the out-of-range value that a default-constructed frame carries. */
  datatype TransferType = ServiceResponse | ServiceRequest | MessageBroadcast | NumTransferTypes

  /** The five-bit wrapping transfer identifier. */
  type TransferId = t: int | 0 <= t < TRANSFER_ID_MODULUS

  const TRANSFER_ID_MODULUS := 32
  const TRANSFER_ID_HALF := 16

  function Increment(t: TransferId): TransferId { (t + 1) % TRANSFER_ID_MODULUS }

  function IncrementBy(t: TransferId, n: nat): TransferId
  {
    if n == 0 then t else Increment(IncrementBy(t, n - 1))
  }

  /** The code's distance: a difference, lifted by the modulus when it is negative. */
  function ForwardDistance(from: TransferId, to: TransferId): (d: nat)
  {
    var d := to - from;
    if d < 0 then d + TRANSFER_ID_MODULUS else d
  }

  lemma {:induction false} IncrementByIsModular(t: TransferId, n: nat)
    ensures IncrementBy(t, n) == (t + n) % TRANSFER_ID_MODULUS
  {
    if n > 0 {
      IncrementByIsModular(t, n - 1);
      var q := (t + n - 1) / TRANSFER_ID_MODULUS;
      assert t + n - 1 == TRANSFER_ID_MODULUS * q + IncrementBy(t, n - 1);
    }
  }

  /** The distance is the least number of increments that leads from one identifier to the other. */
  lemma ForwardDistanceIsLeast(from: TransferId, to: TransferId, n: nat)
    ensures IncrementBy(from, ForwardDistance(from, to)) == to
    ensures IncrementBy(from, n) == to ==> ForwardDistance(from, to) <= n
  {
    IncrementByIsModular(from, ForwardDistance(from, to));
    IncrementByIsModular(from, n);
  }

  /** Distances computed on wrapped identifiers agree with differences of the unwrapped indices. */
  lemma ForwardDistanceOfIndices(a: int, b: int)
    ensures ForwardDistance(a % TRANSFER_ID_MODULUS, b % TRANSFER_ID_MODULUS) == (b - a) % TRANSFER_ID_MODULUS
  {
  }
}
