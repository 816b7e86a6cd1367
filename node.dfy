/**
 * Virtual nodes (pkg/ring/node.go): one position on the 32-bit hash
 * circle, owned by a physical server. A node is never changed after it is
 * built, so it is a value here; the Go code passes it by pointer.
 */
module RingNode {
  import opened Wrappers
  import opened Hash
  import Utils

  datatype Node = Node(physicalId: string, virtualId: string, hashId: Uint32)

  /**
   * NewVirtualNode: virtual node virtualIndex of physicalId. It keeps the
   * server id, its id is the one GetVirtualId gives (node.go formats it
   * itself, with the same format), and its position is the hash of that id.
   */
  function NewVirtualNode(hasher: Hasher, physicalId: string, virtualIndex: int): (n: Node)
    ensures n.physicalId == physicalId
    ensures n.virtualId == Utils.GetVirtualId(physicalId, virtualIndex)
    ensures n.hashId == hasher.Hash(n.virtualId)
  {
    var virtualId := physicalId + ":" + Utils.FormatInt(virtualIndex);
    Node(physicalId, virtualId, hasher.Hash(virtualId))
  }

  /** The id of a node names where it came from: server and index read back from it. */
  lemma {:induction false} NewVirtualNodeOrigin(hasher: Hasher, physicalId: string, virtualIndex: int)
    ensures var n := NewVirtualNode(hasher, physicalId, virtualIndex);
      |n.virtualId| > |physicalId| && n.virtualId[..|physicalId| + 1] == physicalId + ":" &&
      Utils.SplitVirtualId(n.virtualId) == Some((physicalId, virtualIndex))
  {
    Utils.SplitGetVirtualId(physicalId, virtualIndex);
  }

  /** For one server, distinct indices give distinct virtual ids. */
  lemma {:induction false} DistinctIndicesDistinctIds(hasher: Hasher, physicalId: string, i: int, j: int)
    requires i != j
    ensures NewVirtualNode(hasher, physicalId, i).virtualId != NewVirtualNode(hasher, physicalId, j).virtualId
  {
    Utils.GetVirtualIdInjective(physicalId, i, physicalId, j);
  }

  /**
   * The nodes of physical server physicalId with indices 0 .. count-1, in
   * index order; none when count is not positive.
   */
  function VirtualNodes(hasher: Hasher, physicalId: string, count: int): (vs: seq<Node>)
    ensures |vs| == if count < 0 then 0 else count
    ensures forall i :: 0 <= i < |vs| ==> vs[i] == NewVirtualNode(hasher, physicalId, i)
  {
    if count <= 0 then [] else VirtualNodes(hasher, physicalId, count - 1) + [NewVirtualNode(hasher, physicalId, count - 1)]
  }

  /** The nodes built for one server are pairwise distinct: none is duplicated. */
  lemma {:induction false} VirtualNodesDistinct(hasher: Hasher, physicalId: string, count: int)
    ensures var vs := VirtualNodes(hasher, physicalId, count);
      forall i :: 0 <= i < |vs| ==> vs[i].physicalId == physicalId
    ensures var vs := VirtualNodes(hasher, physicalId, count);
      forall i, j :: 0 <= i < j < |vs| ==> vs[i].virtualId != vs[j].virtualId
  {
    var vs := VirtualNodes(hasher, physicalId, count);
    forall i, j | 0 <= i < j < |vs|
      ensures vs[i].virtualId != vs[j].virtualId
    {
      DistinctIndicesDistinctIds(hasher, physicalId, i, j);
    }
  }
}
