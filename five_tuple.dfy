/** Flow identity: the key of the session table. Only what the dispatcher
    relies on is modelled: equality and the reversal that swaps source and
    destination, address and port alike. */
module FiveTuples {
  import opened Bytes

  datatype FiveTuple = FiveTuple(proto: uint8, src: uint32, dst: uint32, srcPort: uint16, dstPort: uint16)

  /** The key of the same flow seen from the other endpoint (`get_reverse`). */
  function Reverse(k: FiveTuple): FiveTuple
  {
    FiveTuple(k.proto, k.dst, k.src, k.dstPort, k.srcPort)
  }

  /** `k` and `j` name the same bidirectional flow. */
  predicate SameFlow(k: FiveTuple, j: FiveTuple)
  {
    k == j || k == Reverse(j)
  }

  /** Reversing twice gives the key back. */
  lemma ReverseInvolutive(k: FiveTuple)
    ensures Reverse(Reverse(k)) == k
  {
  }

  /** A key is its own reverse exactly when both endpoints are the same. */
  lemma ReverseFixedPoint(k: FiveTuple)
    ensures Reverse(k) == k <==> (k.src == k.dst && k.srcPort == k.dstPort)
  {
  }
}
