/**
 * The ring (pkg/ring/ring.go): the consistentHash state, holding the
 * nodes in a slice that AddNode appends to and sorts in place, the hasher
 * that places them, and the number of virtual nodes per physical server.
 */
module Ring {
  import opened Wrappers
  import opened Hash
  import opened RingNode
  import opened RingSort

  class ConsistentHash {
    var nodes: array<Node>
    var hasher: Hasher
    var virtualNodes: int

    /** The node list as a sequence. */
    function Nodes(): seq<Node>
      reads this, nodes
    {
      nodes[..]
    }

    /** NewRing: an empty node list, the given hasher and count kept as given. */
    constructor NewRing(hasher: Hasher, virtualNodes: int)
      ensures Nodes() == []
      ensures this.hasher == hasher && this.virtualNodes == virtualNodes
    {
      this.nodes := new Node[0];
      this.hasher := hasher;
      this.virtualNodes := virtualNodes;
    }

    /**
     * AddNode: append virtual nodes 0 .. virtualNodes-1 of physicalId, then
     * sort the whole list. Afterwards the list is non-decreasing by
     * position and holds exactly the old nodes and the new ones (nothing
     * dropped, nothing duplicated); hasher and count are untouched.
     */
    method AddNode(physicalId: string)
      modifies this
      ensures hasher == old(hasher) && virtualNodes == old(virtualNodes)
      ensures Sorted(Nodes())
      ensures multiset(Nodes()) == multiset(old(Nodes())) + multiset(VirtualNodes(hasher, physicalId, virtualNodes))
      ensures |Nodes()| == |old(Nodes())| + |VirtualNodes(hasher, physicalId, virtualNodes)|
    {
      var appended := nodes[..] + VirtualNodes(hasher, physicalId, virtualNodes);
      var grown := new Node[|appended|](i requires 0 <= i < |appended| => appended[i]);
      assert grown[..] == appended;
      Sort(grown);
      nodes := grown;
    }

    /**
     * Extension, not a model of source code: GetNode is declared in the
     * Ring interface with no body anywhere. The owner of a key is found by
     * binary search of the sorted list for the first node at or after the
     * key's hash, wrapping to the first node; an empty ring has no owner.
     */
    method Lookup(key: string) returns (owner: Option<Node>)
      requires Sorted(Nodes())
      ensures owner == Owner(Nodes(), hasher.Hash(key))
    {
      var h := hasher.Hash(key);
      if nodes.Length == 0 {
        return None;
      }
      var lo, hi := 0, nodes.Length;
      while lo < hi
        invariant 0 <= lo <= hi <= nodes.Length
        invariant forall i :: 0 <= i < lo ==> nodes[i].hashId < h
        invariant forall i :: hi <= i < nodes.Length ==> nodes[i].hashId >= h
      {
        var mid := lo + (hi - lo) / 2;
        if nodes[mid].hashId < h {
          lo := mid + 1;
        } else {
          hi := mid;
        }
      }
      FirstAtOrAfterUnique(Nodes(), h, lo);
      owner := Some(if lo < nodes.Length then nodes[lo] else nodes[0]);
    }
  }

  /** The nodes a ring holds after AddNode of each server in turn, from empty. */
  function AllVirtualNodes(hasher: Hasher, servers: seq<string>, virtualNodes: int): multiset<Node>
  {
    if servers == [] then multiset{}
    else
      AllVirtualNodes(hasher, servers[..|servers| - 1], virtualNodes)
        + multiset(VirtualNodes(hasher, servers[|servers| - 1], virtualNodes))
  }

  /**
   * The start-up sequence of main.go: NewRing, then AddNode for each
   * server. Sortedness holds after every step, and the ring holds every
   * server's virtual nodes and nothing else, virtualNodes per server.
   */
  method BuildRing(hasher: Hasher, virtualNodes: int, servers: seq<string>) returns (r: ConsistentHash)
    ensures fresh(r)
    ensures r.hasher == hasher && r.virtualNodes == virtualNodes
    ensures Sorted(r.Nodes())
    ensures multiset(r.Nodes()) == AllVirtualNodes(hasher, servers, virtualNodes)
    ensures |r.Nodes()| == |servers| * (if virtualNodes < 0 then 0 else virtualNodes)
  {
    r := new ConsistentHash.NewRing(hasher, virtualNodes);
    ghost var perServer := if virtualNodes < 0 then 0 else virtualNodes;
    var i := 0;
    while i < |servers|
      invariant i <= |servers|
      invariant fresh(r)
      invariant r.hasher == hasher && r.virtualNodes == virtualNodes
      invariant Sorted(r.Nodes())
      invariant multiset(r.Nodes()) == AllVirtualNodes(hasher, servers[..i], virtualNodes)
      invariant |r.Nodes()| == i * perServer
    {
      r.AddNode(servers[i]);
      AllVirtualNodesStep(hasher, servers, i, virtualNodes);
      MulSucc(i, perServer);
      i := i + 1;
    }
    assert servers[..i] == servers;
  }

  /** One more server adds its virtual nodes to the multiset. */
  lemma AllVirtualNodesStep(hasher: Hasher, servers: seq<string>, i: nat, virtualNodes: int)
    requires i < |servers|
    ensures AllVirtualNodes(hasher, servers[..i + 1], virtualNodes)
         == AllVirtualNodes(hasher, servers[..i], virtualNodes) + multiset(VirtualNodes(hasher, servers[i], virtualNodes))
  {
    assert servers[..i + 1][..i] == servers[..i];
  }

  lemma MulSucc(i: nat, p: nat)
    ensures (i + 1) * p == i * p + p
  {
  }

  /** Index of the first node at or after position h; |s| when every node is before h. */
  function FirstAtOrAfter(s: seq<Node>, h: int): (k: nat)
    ensures k <= |s|
    ensures forall i :: 0 <= i < k ==> s[i].hashId < h
    ensures k < |s| ==> s[k].hashId >= h
  {
    if s == [] then 0 else if s[0].hashId >= h then 0 else 1 + FirstAtOrAfter(s[1..], h)
  }

  /** Any index with only earlier nodes before h and a node at or after h at it is that first index. */
  lemma FirstAtOrAfterUnique(s: seq<Node>, h: int, k: nat)
    requires k <= |s|
    requires forall i :: 0 <= i < k ==> s[i].hashId < h
    requires k < |s| ==> s[k].hashId >= h
    ensures FirstAtOrAfter(s, h) == k
  {
  }

  /**
   * The owner of hash position h (extension): the first node at or after
   * h, or the first node when h is past every node; none on an empty ring.
   */
  function Owner(s: seq<Node>, h: Uint32): (r: Option<Node>)
  {
    if s == [] then None
    else
      var k := FirstAtOrAfter(s, h);
      Some(if k < |s| then s[k] else s[0])
  }

  /**
   * On a sorted ring the owner is a ring node; an empty ring has none; a
   * position past every node wraps to the node with the smallest
   * position; otherwise the owner is at or after h and no node lies
   * between h and it.
   */
  lemma OwnerIsClockwiseSuccessor(s: seq<Node>, h: Uint32)
    requires Sorted(s)
    ensures Owner(s, h).None? <==> s == []
    ensures Owner(s, h).Some? ==> Owner(s, h).value in s
    ensures s != [] && (forall i :: 0 <= i < |s| ==> s[i].hashId < h) ==>
      Owner(s, h) == Some(s[0]) && forall i :: 0 <= i < |s| ==> s[0].hashId <= s[i].hashId
    ensures (exists i :: 0 <= i < |s| && s[i].hashId >= h) ==>
      Owner(s, h).Some? && Owner(s, h).value.hashId >= h &&
      forall i :: 0 <= i < |s| && s[i].hashId >= h ==> Owner(s, h).value.hashId <= s[i].hashId
  {
  }
}
