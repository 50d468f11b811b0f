/** The small stock Option type used for child links and search results. */
module Options {
  datatype Option<T> = None | Some(value: T)
}

/**
 * Node identifiers and contacts of the Kademlia routing table.
 * An identifier is 20 bytes (160 bits); the table only ever reads byte 0,
 * one bit per trie level, most significant bit first.
 */
module NodeIds {
  /** Number of bytes in a node identifier. */
  const NodeLength: nat := 20

  type byte = bv8

  /** A fixed-width identifier: exactly `NodeLength` bytes. */
  type NodeId = s: seq<byte> | |s| == NodeLength witness seq(NodeLength, _ => 0)

  /** A known peer; contacts are identified by their node id alone. */
  datatype Contact = Contact(node: NodeId)

  /**
   * The bit that decides the branch at trie depth `depth`:
   * `(id[0] >> (7 - depth)) & 1`. Only depths inside byte 0 are meaningful.
   */
  function Bit(id: NodeId, depth: nat): (b: byte)
    requires depth < 8
    ensures b == 0 || b == 1
  {
    (id[0] >> (7 - depth)) & 1
  }

  /** `Bit(id, depth)` is bit `depth` of byte 0 counted from its most significant bit. */
  lemma BitIsMsbFirst(id: NodeId, depth: nat)
    requires depth < 8
    ensures Bit(id, depth) == 1 <==> id[0] & (0x80 >> depth) != 0
  {
  }
}
