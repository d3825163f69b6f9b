/** A duplicate-free set of integers kept as a doubly-linked list in
    strictly ascending order, with the set algebra built on ordered
    insertion. */
module LinkedSets {
  import opened SortedSeqs

  /** One cell of the list: an element and its two neighbours. */
  class Node {
    const element: int
    var next: Node?
    var prev: Node?

    /** A node that holds e and has no node before or after it. */
    constructor (e: int)
      ensures element == e && next == null && prev == null
    {
      element := e;
      next := null;
      prev := null;
    }
  }

  class LinkedSet {
    /** The first and last node of the list. */
    var front: Node?
    var rear: Node?
    /** The number of nodes in the list. */
    var size: int

    /** The elements from front to rear. */
    ghost var Contents: seq<int>
    /** The nodes from front to rear. */
    ghost var Nodes: seq<Node>
    /** The objects this set owns: itself and its nodes. */
    ghost var Repr: set<object>

    /** The list invariant: the chain of next links from front visits Nodes
        in order and ends at rear, prev links are its exact inverse, the ends
        point to null, size counts the nodes, an empty set has no front and
        no rear, and the elements ascend strictly. */
    ghost predicate Valid()
      reads this, Repr
    {
      && this in Repr
      && (forall i :: 0 <= i < |Nodes| ==> Nodes[i] in Repr)
      && |Nodes| == |Contents| == size
      && (if Nodes == [] then front == null && rear == null
          else && front == Nodes[0] && front.prev == null
               && rear == Nodes[|Nodes| - 1] && rear.next == null)
      && (forall i {:trigger Nodes[i].prev} :: 0 < i < |Nodes| ==> Nodes[i].prev == Nodes[i - 1])
      && (forall i {:trigger Nodes[i].next} :: 0 <= i < |Nodes| - 1 ==> Nodes[i].next == Nodes[i + 1])
      && (forall i :: 0 <= i < |Nodes| ==> Nodes[i].element == Contents[i])
      && Distinct(Nodes)
      && StrictlyIncreasing(Contents)
    }

    /** An empty set. */
    constructor ()
      ensures Valid() && fresh(Repr)
      ensures Contents == []
    {
      front := null;
      rear := null;
      size := 0;
      Contents := [];
      Nodes := [];
      Repr := {this};
    }

    method Size() returns (n: int)
      requires Valid()
      ensures n == |Contents|
    {
      n := size;
    }

    method IsEmpty() returns (empty: bool)
      requires Valid()
      ensures empty <==> Contents == []
    {
      empty := size == 0;
    }

    /** Walks the list from front looking for x. */
    method Contains(x: int) returns (found: bool)
      requires Valid()
      ensures found <==> x in Contents
    {
      if size == 0 {
        return false;
      }
      var temp := front;
      ghost var i := 0;
      while temp != null
        invariant 0 <= i <= |Nodes|
        invariant temp == (if i < |Nodes| then Nodes[i] else null)
        invariant x !in Contents[..i]
        decreases |Nodes| - i
      {
        if temp.element == x {
          return true;
        }
        assert Contents[..i + 1] == Contents[..i] + [Contents[i]];
        temp := temp.next;
        i := i + 1;
      }
      assert Contents[..i] == Contents;
      return false;
    }

    /** Ordered insertion. An element already present is rejected and
        nothing changes; otherwise a new node is linked in as the only node,
        after rear, before front, or in front of the first larger node. */
    method Add(x: int) returns (changed: bool)
      requires Valid()
      modifies Repr
      ensures Valid() && fresh(Repr - old(Repr)) && old(Repr) <= Repr
      ensures changed <==> x !in old(Contents)
      ensures Contents == Insert(old(Contents), x)
      ensures !changed ==> Repr == old(Repr) && unchanged(old(Repr))
    {
      var present := Contains(x);
      if present {
        InsertPresent(Contents, x);
        return false;
      }
      ghost var i, added := LinkNew(x);
      return true;
    }

    /** Add once x is known to be absent: a new node is linked in as the only
        node, after rear, before front, or in front of the first larger
        node. */
    method LinkNew(x: int) returns (ghost i: nat, ghost added: Node)
      requires Valid() && x !in Contents
      modifies Repr
      ensures Valid() && Repr == old(Repr) + {added}
      ensures Contents == Insert(old(Contents), x)
      ensures fresh(added) && added.element == x
      ensures i <= |old(Nodes)| && Nodes == old(Nodes[..i]) + [added] + old(Nodes[i..])
    {
      ghost var C, N := Contents, Nodes;
      var node := new Node(x);
      added := node;
      if size == 0 {
        InsertBetween(C, x, 0);
        LinkOnly(node);
        i := 0;
        assert N == [];
      } else if x > rear.element {
        InsertBetween(C, x, |C|);
        assert C[..|C|] + [x] + C[|C|..] == C + [x];
        LinkLast(node);
        i := |C|;
        assert N[..i] == N && N[i..] == [];
      } else if x < front.element {
        InsertBetween(C, x, 0);
        assert C[..0] + [x] + C[0..] == [x] + C;
        LinkFirst(node);
        i := 0;
        assert N[..0] == [] && N[0..] == N;
      } else {
        i := LinkInside(node);
      }
    }

    /** Add's last case: the new node, whose element lies strictly between
        the front and rear elements, is linked in front of the first larger
        node. */
    method LinkInside(node: Node) returns (ghost i: nat)
      requires Valid() && node !in Repr && node.element !in Contents
      requires Contents != [] && Contents[0] < node.element < Contents[|Contents| - 1]
      modifies Repr, node`next, node`prev
      ensures Valid() && Repr == old(Repr) + {node}
      ensures Contents == Insert(old(Contents), node.element)
      ensures 0 < i < |old(Nodes)| && Nodes == old(Nodes[..i]) + [node] + old(Nodes[i..])
    {
      var n, j := WalkToSuccessor(node.element);
      InsertBetween(Contents, node.element, j);
      LinkBefore(n, node, j);
      i := j;
    }

    /** The walk of Add's last case: from front along next to the first node
        whose element is not below x, which x does not pass as it lies
        strictly between the front and rear elements. */
    method WalkToSuccessor(x: int) returns (n: Node, ghost i: nat)
      requires Valid() && Contents != []
      requires Contents[0] < x < Contents[|Contents| - 1]
      ensures 0 < i < |Nodes| && n == Nodes[i]
      ensures Contents[i - 1] < x <= Contents[i]
    {
      n := front;
      i := 0;
      while x > n.element
        invariant 0 <= i < |Nodes| && n == Nodes[i]
        invariant 0 < i ==> Contents[i - 1] < x
        decreases |Nodes| - i
      {
        n := n.next;
        i := i + 1;
      }
    }

    /** The walk of Remove's last case: from front along next to the node
        that holds x. */
    method WalkTo(x: int) returns (n: Node, ghost i: nat)
      requires Valid() && x in Contents
      ensures 0 <= i < |Nodes| && n == Nodes[i] && Contents[i] == x
    {
      n := front;
      i := 0;
      while x != n.element
        invariant 0 <= i < |Nodes| && n == Nodes[i]
        invariant x !in Contents[..i]
        decreases |Nodes| - i
      {
        assert Contents[..i + 1] == Contents[..i] + [Contents[i]];
        n := n.next;
        i := i + 1;
      }
    }

    /** Add's first case: node becomes the only node. */
    method LinkOnly(node: Node)
      requires Valid() && size == 0 && node !in Repr && node.next == null
      modifies Repr, node`prev
      ensures Valid() && Repr == old(Repr) + {node}
      ensures Contents == [node.element] && Nodes == [node]
    {
      front := node;
      rear := front;
      front.prev := null;
      size := size + 1;
      Nodes, Contents, Repr := [node], [node.element], Repr + {node};
    }

    /** Add's second case: node, whose element exceeds every element, is
        linked in after rear and becomes rear. */
    method LinkLast(node: Node)
      requires Valid() && size > 0 && node !in Repr && node.next == null
      requires StrictlyIncreasing(Contents + [node.element])
      modifies Repr, node`prev
      ensures Valid() && Repr == old(Repr) + {node}
      ensures Contents == old(Contents) + [node.element]
      ensures Nodes == old(Nodes) + [node]
    {
      ghost var N, C, e := Nodes, Contents, node.element;
      ghost var M := N + [node];
      assert M == N[..|N|] + [node] + N[|N|..];
      assert C + [e] == C[..|C|] + [e] + C[|C|..];
      DistinctApart(N, |N| - 1);
      SpliceDistinct(N, node, |N|, M);
      SpliceElements(N, C, node, |N|, M, C + [e]);
      var n := rear;
      rear.next := node;
      rear := node;
      rear.prev := n;
      SpliceLinks(N, node, |N|, M);
      size, Nodes, Contents, Repr := size + 1, M, C + [e], Repr + {node};
    }

    /** Add's third case: node, whose element is below every element, is
        linked in before front and becomes front. */
    method LinkFirst(node: Node)
      requires Valid() && size > 0 && node !in Repr && node.prev == null
      requires StrictlyIncreasing([node.element] + Contents)
      modifies Repr, node`next
      ensures Valid() && Repr == old(Repr) + {node}
      ensures Contents == [node.element] + old(Contents)
      ensures Nodes == [node] + old(Nodes)
    {
      ghost var N, C, e := Nodes, Contents, node.element;
      ghost var M := [node] + N;
      assert M == N[..0] + [node] + N[0..];
      assert [e] + C == C[..0] + [e] + C[0..];
      DistinctApart(N, 0);
      SpliceDistinct(N, node, 0, M);
      SpliceElements(N, C, node, 0, M, [e] + C);
      node.next := front;
      front.prev := node;
      front := node;
      SpliceLinks(N, node, 0, M);
      size, Nodes, Contents, Repr := size + 1, M, [e] + C, Repr + {node};
    }

    /** Add's last case: node is linked in between the node at position i
        and its predecessor. */
    method LinkBefore(n: Node, node: Node, ghost i: nat)
      requires Valid()
      requires 0 < i < |Nodes| && n == Nodes[i] && node !in Repr
      requires StrictlyIncreasing(Contents[..i] + [node.element] + Contents[i..])
      modifies Repr, node`next, node`prev
      ensures Valid() && Repr == old(Repr) + {node}
      ensures Contents == old(Contents[..i] + [node.element] + Contents[i..])
      ensures Nodes == old(Nodes[..i]) + [node] + old(Nodes[i..])
    {
      ghost var N, C, e := Nodes, Contents, node.element;
      ghost var M := N[..i] + [node] + N[i..];
      DistinctApart(N, i - 1);
      DistinctApart(N, i);
      SpliceDistinct(N, node, i, M);
      SpliceElements(N, C, node, i, M, C[..i] + [e] + C[i..]);
      n.prev.next := node;
      node.next := n;
      node.prev := n.prev;
      n.prev := node;
      SpliceLinks(N, node, i, M);
      size, Nodes, Contents, Repr := size + 1, M, C[..i] + [e] + C[i..], Repr + {node};
    }

    /** Unlinks the node holding x: as the front node, as the rear node, or,
        once the list is known to hold x, as the middle node it walks to. An
        empty set and an absent x are left unchanged. */
    method Remove(x: int) returns (changed: bool)
      requires Valid()
      modifies Repr
      ensures Valid() && Repr == old(Repr)
      ensures changed <==> x in old(Contents)
      ensures Contents == Delete(old(Contents), x)
      ensures !changed ==> unchanged(old(Repr))
    {
      ghost var C := Contents;
      if size == 0 {
        DeleteAbsent(C, x);
        return false;
      }
      if x == front.element {
        DeleteAt(C, 0);
        DeleteStrict(C, x);
        assert C[..0] + C[1..] == C[1..];
        if size == 1 {
          UnlinkOnly();
        } else {
          UnlinkFront();
        }
        return true;
      }
      if x == rear.element {
        DeleteAt(C, |C| - 1);
        DeleteStrict(C, x);
        assert C[..|C| - 1] + C[|C|..] == C[..|C| - 1];
        UnlinkRear();
        return true;
      }
      var found := Contains(x);
      if found {
        var n, i := WalkTo(x);
        DeleteAt(C, i);
        DeleteStrict(C, x);
        UnlinkMiddle(n, i);
        return true;
      }
      DeleteAbsent(C, x);
      return false;
    }

    /** Remove's first case when the front node is the only node: the list
        becomes empty. */
    method UnlinkOnly()
      requires Valid() && size == 1
      modifies this
      ensures Valid() && Repr == old(Repr)
      ensures Contents == [] && Nodes == []
    {
      front := null;
      rear := null;
      size, Nodes, Contents := 0, [], [];
    }

    /** Remove's first case: the front node is unlinked and its successor
        becomes front. */
    method UnlinkFront()
      requires Valid() && size > 1
      requires StrictlyIncreasing(Contents[1..])
      modifies Repr
      ensures Valid() && Repr == old(Repr)
      ensures Contents == old(Contents[1..])
      ensures Nodes == old(Nodes[1..])
    {
      ghost var N, C := Nodes, Contents;
      ghost var M := N[1..];
      assert M == N[..0] + N[1..];
      assert C[1..] == C[..0] + C[1..];
      DistinctApart(N, 1);
      CutDistinct(N, 0, M);
      CutElements(N, C, 0, M, C[1..]);
      front.next.prev := null;
      front := front.next;
      CutLinks(N, 0, M);
      size, Nodes, Contents := size - 1, M, C[1..];
    }

    /** Remove's second case: the rear node of a list of at least two nodes
        is unlinked and its predecessor becomes rear. */
    method UnlinkRear()
      requires Valid() && size > 1
      requires StrictlyIncreasing(Contents[..|Contents| - 1])
      modifies Repr
      ensures Valid() && Repr == old(Repr)
      ensures Contents == old(Contents[..|Contents| - 1])
      ensures Nodes == old(Nodes[..|Nodes| - 1])
    {
      ghost var N, C := Nodes, Contents;
      ghost var i := |N| - 1;
      ghost var M := N[..i];
      assert M == N[..i] + N[i + 1..];
      assert C[..i] == C[..i] + C[i + 1..];
      DistinctApart(N, i - 1);
      CutDistinct(N, i, M);
      CutElements(N, C, i, M, C[..i]);
      rear.prev.next := null;
      rear := rear.prev;
      CutLinks(N, i, M);
      size, Nodes, Contents := size - 1, M, C[..i];
    }

    /** Remove's last case: the node n at position i, which has a node on
        each side, is bridged over. */
    method UnlinkMiddle(n: Node, ghost i: nat)
      requires Valid()
      requires 0 < i < |Nodes| - 1 && n == Nodes[i]
      requires StrictlyIncreasing(Contents[..i] + Contents[i + 1..])
      modifies Repr
      ensures Valid() && Repr == old(Repr)
      ensures Contents == old(Contents[..i] + Contents[i + 1..])
      ensures Nodes == old(Nodes[..i] + Nodes[i + 1..])
    {
      ghost var N, C := Nodes, Contents;
      ghost var M := N[..i] + N[i + 1..];
      DistinctApart(N, i - 1);
      DistinctApart(N, i + 1);
      CutDistinct(N, i, M);
      CutElements(N, C, i, M, C[..i] + C[i + 1..]);
      n.prev.next := n.next;
      n.next.prev := n.prev;
      CutLinks(N, i, M);
      size, Nodes, Contents := size - 1, M, C[..i] + C[i + 1..];
    }

    /** Equality as sets: the sizes agree and every element of this set is
        in s. Both lists are strictly ascending, so this is equality of the
        element sequences. */
    method Equals(s: LinkedSet) returns (eq: bool)
      requires Valid() && s.Valid()
      ensures eq <==> |Contents| == |s.Contents| && forall y :: y in Contents ==> y in s.Contents
      ensures eq <==> Contents == s.Contents
    {
      if s.size != size {
        return false;
      }
      var node := front;
      ghost var i := 0;
      while node != null
        invariant 0 <= i <= |Nodes|
        invariant node == (if i < |Nodes| then Nodes[i] else null)
        invariant forall y :: y in Contents[..i] ==> y in s.Contents
        decreases |Nodes| - i
      {
        var present := s.Contains(node.element);
        if !present {
          return false;
        }
        assert Contents[..i + 1] == Contents[..i] + [Contents[i]];
        node := node.next;
        i := i + 1;
      }
      assert Contents[..i] == Contents;
      SubsetSameSizeSame(Contents, s.Contents);
      return true;
    }

    /** Adds every element of s to this set, walking s from front to
        rear. */
    method AddAll(s: LinkedSet)
      requires Valid() && s.Valid() && Repr !! s.Repr
      modifies Repr
      ensures Valid() && fresh(Repr - old(Repr))
      ensures forall y :: y in Contents <==> y in old(Contents) || y in s.Contents
    {
      var node := s.front;
      ghost var i := 0;
      while node != null
        invariant Valid() && fresh(Repr - old(Repr)) && Repr !! s.Repr
        invariant 0 <= i <= |s.Nodes|
        invariant node == (if i < |s.Nodes| then s.Nodes[i] else null)
        invariant forall y :: y in Contents <==> y in old(Contents) || y in s.Contents[..i]
        decreases |s.Nodes| - i
      {
        var _ := Add(node.element);
        assert s.Contents[..i + 1] == s.Contents[..i] + [s.Contents[i]];
        node := node.next;
        i := i + 1;
      }
      assert s.Contents[..i] == s.Contents;
    }

    /** A new set holding the elements of this set and those of s. */
    method Union(s: LinkedSet) returns (u: LinkedSet)
      requires Valid() && s.Valid()
      ensures u.Valid() && fresh(u.Repr)
      ensures forall y :: y in u.Contents <==> y in Contents || y in s.Contents
    {
      u := new LinkedSet();
      u.AddAll(this);
      u.AddAll(s);
    }

    /** A new set holding the elements of this set that are also in s. */
    method Intersection(s: LinkedSet) returns (u: LinkedSet)
      requires Valid() && s.Valid()
      ensures u.Valid() && fresh(u.Repr)
      ensures forall y :: y in u.Contents <==> y in Contents && y in s.Contents
    {
      u := new LinkedSet();
      var node := front;
      ghost var i := 0;
      while node != null
        invariant u.Valid() && fresh(u.Repr)
        invariant 0 <= i <= |Nodes|
        invariant node == (if i < |Nodes| then Nodes[i] else null)
        invariant forall y :: y in u.Contents <==> y in Contents[..i] && y in s.Contents
        decreases |Nodes| - i
      {
        var present := s.Contains(node.element);
        if present {
          var _ := u.Add(node.element);
        }
        assert Contents[..i + 1] == Contents[..i] + [Contents[i]];
        node := node.next;
        i := i + 1;
      }
      assert Contents[..i] == Contents;
    }

    /** A new set holding the elements of this set that are not in s. When
        either set is empty the answer is a new copy of this set. */
    method Complement(s: LinkedSet) returns (u: LinkedSet)
      requires Valid() && s.Valid()
      ensures u.Valid() && fresh(u.Repr)
      ensures forall y :: y in u.Contents <==> y in Contents && y !in s.Contents
    {
      u := new LinkedSet();
      if s.size == 0 || size == 0 {
        u.AddAll(this);
        return;
      }
      var node := front;
      ghost var i := 0;
      while node != null
        invariant u.Valid() && fresh(u.Repr)
        invariant 0 <= i <= |Nodes|
        invariant node == (if i < |Nodes| then Nodes[i] else null)
        invariant forall y :: y in u.Contents <==> y in Contents[..i] && y !in s.Contents
        decreases |Nodes| - i
      {
        var present := s.Contains(node.element);
        if !present {
          var _ := u.Add(node.element);
        }
        assert Contents[..i + 1] == Contents[..i] + [Contents[i]];
        node := node.next;
        i := i + 1;
      }
      assert Contents[..i] == Contents;
    }
  }

  /** No node occurs twice in nodes. */
  ghost predicate Distinct(nodes: seq<Node>) {
    |nodes| == 0 || (nodes[0] !in nodes[1..] && Distinct(nodes[1..]))
  }

  /** Distinctness is the same as every two positions holding different
      nodes. */
  lemma {:induction false} DistinctPairwise(nodes: seq<Node>)
    ensures Distinct(nodes) <==> forall a, b :: 0 <= a < b < |nodes| ==> nodes[a] != nodes[b]
  {
    if nodes != [] {
      var t := nodes[1..];
      DistinctPairwise(t);
      if Distinct(nodes) {
        forall a, b | 0 <= a < b < |nodes| ensures nodes[a] != nodes[b] {
          assert nodes[b] == t[b - 1];
          if a > 0 {
            assert nodes[a] == t[a - 1];
          }
        }
      }
      if forall a, b :: 0 <= a < b < |nodes| ==> nodes[a] != nodes[b] {
        forall a, b | 0 <= a < b < |t| ensures t[a] != t[b] {
          assert t[a] == nodes[a + 1] && t[b] == nodes[b + 1];
        }
        forall k | 0 <= k < |t| ensures t[k] != nodes[0] {
          assert t[k] == nodes[k + 1];
        }
      }
    }
  }

  /** In a chain without repeats, every other position holds a node other
      than the one at j. */
  lemma DistinctApart(nodes: seq<Node>, j: nat)
    requires Distinct(nodes) && j < |nodes|
    ensures forall k :: 0 <= k < |nodes| && k != j ==> nodes[k] != nodes[j]
  {
    DistinctPairwise(nodes);
    forall k | 0 <= k < |nodes| && k != j ensures nodes[k] != nodes[j] {
      if k > j {
        assert nodes[j] != nodes[k];
      }
    }
  }

  /** The links of a chain into which node has been spliced at position i:
      the old links away from the splice point are kept and the four links
      around node are set. */
  lemma SpliceLinks(N: seq<Node>, node: Node, i: nat, M: seq<Node>)
    requires i <= |N| && M == N[..i] + [node] + N[i..]
    requires forall k {:trigger N[k].next} :: 0 <= k < |N| - 1 && k != i - 1 ==> N[k].next == N[k + 1]
    requires forall k {:trigger N[k].prev} :: 0 < k < |N| && k != i ==> N[k].prev == N[k - 1]
    requires 0 < i ==> N[i - 1].next == node && node.prev == N[i - 1]
    requires i < |N| ==> node.next == N[i] && N[i].prev == node
    ensures forall k {:trigger M[k].prev} :: 0 < k < |M| ==> M[k].prev == M[k - 1]
    ensures forall k {:trigger M[k].next} :: 0 <= k < |M| - 1 ==> M[k].next == M[k + 1]
  {
  }

  lemma SpliceDistinct(N: seq<Node>, node: Node, i: nat, M: seq<Node>)
    requires i <= |N| && M == N[..i] + [node] + N[i..]
    requires Distinct(N) && node !in N
    ensures Distinct(M)
  {
    DistinctPairwise(N);
    DistinctPairwise(M);
  }

  lemma SpliceElements(N: seq<Node>, C: seq<int>, node: Node, i: nat, M: seq<Node>, D: seq<int>)
    requires i <= |N| && M == N[..i] + [node] + N[i..]
    requires |N| == |C| && D == C[..i] + [node.element] + C[i..]
    requires forall k :: 0 <= k < |N| ==> N[k].element == C[k]
    ensures forall k :: 0 <= k < |M| ==> M[k].element == D[k]
  {
  }

  /** The links of a chain from which position i has been cut: the old
      links away from the cut are kept and the neighbours of the cut, if
      both exist, are linked to each other. */
  lemma CutLinks(N: seq<Node>, i: nat, M: seq<Node>)
    requires i < |N| && M == N[..i] + N[i + 1..]
    requires forall k {:trigger N[k].next} :: 0 <= k < |N| - 1 && k != i - 1 && k != i ==> N[k].next == N[k + 1]
    requires forall k {:trigger N[k].prev} :: 0 < k < |N| && k != i && k != i + 1 ==> N[k].prev == N[k - 1]
    requires 0 < i < |N| - 1 ==> N[i - 1].next == N[i + 1] && N[i + 1].prev == N[i - 1]
    ensures forall k {:trigger M[k].prev} :: 0 < k < |M| ==> M[k].prev == M[k - 1]
    ensures forall k {:trigger M[k].next} :: 0 <= k < |M| - 1 ==> M[k].next == M[k + 1]
  {
  }

  lemma CutDistinct(N: seq<Node>, i: nat, M: seq<Node>)
    requires i < |N| && M == N[..i] + N[i + 1..]
    requires Distinct(N)
    ensures Distinct(M)
  {
    DistinctPairwise(N);
    DistinctPairwise(M);
  }

  lemma CutElements(N: seq<Node>, C: seq<int>, i: nat, M: seq<Node>, D: seq<int>)
    requires i < |N| && M == N[..i] + N[i + 1..]
    requires |N| == |C| && D == C[..i] + C[i + 1..]
    requires forall k :: 0 <= k < |N| ==> N[k].element == C[k]
    ensures forall k :: 0 <= k < |M| ==> M[k].element == D[k]
  {
  }
}
