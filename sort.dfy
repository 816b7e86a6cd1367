/**
 * The ordering of a ring's nodes (pkg/ring/sort.go): the sort.Interface
 * of Nodes. Nodes are compared by hash position only; nodes at the same
 * position are neither less than the other, so a sort leaves their order
 * unspecified, and nothing here claims any order among them.
 */
module RingSort {
  import opened RingNode

  /** Non-decreasing by position: what sort.Sort establishes with Less. */
  predicate Sorted(s: seq<Node>)
  {
    forall i, j :: 0 <= i < j < |s| ==> s[i].hashId <= s[j].hashId
  }

  /** Len: the number of nodes, the bound of every index sort uses. */
  function Len(n: seq<Node>): (r: nat)
    ensures r == |n|
  {
    |n|
  }

  /**
   * Less: node i is strictly before node j on the circle. Only positions
   * are compared, so nodes at the same position are never Less, whatever
   * their ids.
   */
  function Less(n: seq<Node>, i: nat, j: nat): (r: bool)
    requires i < |n| && j < |n|
    ensures r <==> n[i].hashId < n[j].hashId
    ensures n[i].hashId == n[j].hashId ==> !r
  {
    n[i].hashId < n[j].hashId
  }

  /**
   * Less is the strict weak order sort.Sort requires: irreflexive,
   * transitive, and two nodes are incomparable exactly when they share a
   * position, whatever their ids.
   */
  lemma LessStrictWeakOrder(n: seq<Node>)
    ensures forall i :: 0 <= i < |n| ==> !Less(n, i, i)
    ensures forall i, j, k :: 0 <= i < |n| && 0 <= j < |n| && 0 <= k < |n| ==>
      (Less(n, i, j) && Less(n, j, k) ==> Less(n, i, k))
    ensures forall i, j :: 0 <= i < |n| && 0 <= j < |n| ==>
      (!Less(n, i, j) && !Less(n, j, i) <==> n[i].hashId == n[j].hashId)
  {
  }

  /**
   * What Swap leaves behind: slots i and j exchanged, every other slot
   * as it was.
   */
  function Swapped(s: seq<Node>, i: nat, j: nat): (r: seq<Node>)
    requires i < |s| && j < |s|
    ensures |r| == |s| && r[i] == s[j] && r[j] == s[i]
    ensures forall k :: 0 <= k < |s| && k != i && k != j ==> r[k] == s[k]
  {
    s[i := s[j]][j := s[i]]
  }

  /** Swapping keeps every node: the result is a permutation. */
  lemma SwappedPermutes(s: seq<Node>, i: nat, j: nat)
    requires i < |s| && j < |s|
    ensures multiset(Swapped(s, i, j)) == multiset(s)
  {
  }

  /** Swap(i, i) changes nothing, and a second identical swap undoes the first. */
  lemma SwappedInvolution(s: seq<Node>, i: nat, j: nat)
    requires i < |s| && j < |s|
    ensures Swapped(s, i, i) == s
    ensures Swapped(Swapped(s, i, j), i, j) == s
  {
  }

  /** Swap: exchanges two slots of the slice in place. */
  method Swap(n: array<Node>, i: nat, j: nat)
    requires i < n.Length && j < n.Length
    modifies n
    ensures n[..] == Swapped(old(n[..]), i, j)
    ensures multiset(n[..]) == multiset(old(n[..]))
  {
    SwappedPermutes(n[..], i, j);
    n[i], n[j] := n[j], n[i];
  }

  /**
   * sort.Sort over Len, Less and Swap, as an insertion sort (the algorithm
   * Go's sort package uses on short runs): afterwards the nodes are in
   * non-decreasing order of position and are a permutation of the nodes
   * before. Among nodes at the same position no order is promised.
   */
  method Sort(n: array<Node>)
    modifies n
    ensures Sorted(n[..])
    ensures multiset(n[..]) == multiset(old(n[..]))
  {
    var i := 0;
    while i < Len(n[..])
      invariant i <= n.Length
      invariant Sorted(n[..i])
      invariant multiset(n[..]) == multiset(old(n[..]))
    {
      var j := i;
      while j > 0 && Less(n[..], j, j - 1)
        invariant 0 <= j <= i
        invariant forall p, q :: 0 <= p < q <= i && q != j ==> n[p].hashId <= n[q].hashId
        invariant multiset(n[..]) == multiset(old(n[..]))
      {
        Swap(n, j, j - 1);
        j := j - 1;
      }
      i := i + 1;
    }
  }
}
