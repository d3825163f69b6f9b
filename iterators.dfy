/** The three cursors over a LinkedSet: ascending from front, descending
    from rear, and the power-set cursor that counts through the subset
    masks. Each keeps a reference to the set it walks, which must not
    change while the cursor is in use. */
module LinkedSetIterators {
  import opened SortedSeqs
  import opened LinkedSets

  /** What a cursor's next hands back: an element, or the signal that
      every element has been handed out already. */
  datatype Step = Yield(element: int) | NoSuchElement

  /** Walks the nodes from front to rear along next. */
  class AscendingIterator {
    const owner: LinkedSet
    var current: Node?

    /** The elements handed out so far. */
    ghost var Yielded: seq<int>

    /** The cursor stands on the node after the last one handed out, and
        what has been handed out is a prefix of the set's elements. */
    ghost predicate Valid()
      reads this, owner, owner.Repr
      ensures Valid() ==> owner.Valid()
    {
      && owner.Valid()
      && |Yielded| <= |owner.Contents|
      && Yielded == owner.Contents[..|Yielded|]
      && current == (if |Yielded| < |owner.Nodes| then owner.Nodes[|Yielded|] else null)
    }

    constructor (s: LinkedSet)
      requires s.Valid()
      ensures Valid() && owner == s && Yielded == []
    {
      owner := s;
      current := s.front;
      Yielded := [];
    }

    method HasNext() returns (b: bool)
      requires Valid()
      ensures b <==> |Yielded| < |owner.Contents|
      ensures !b ==> Yielded == owner.Contents
    {
      b := current != null;
    }

    /** Hands out the element under the cursor and moves to its successor;
        once every element is out, reports NoSuchElement. */
    method Next() returns (r: Step)
      requires Valid()
      modifies this
      ensures Valid()
      ensures old(|Yielded| < |owner.Contents|) ==>
        r == Yield(owner.Contents[old(|Yielded|)]) && Yielded == old(Yielded) + [r.element]
      ensures old(|Yielded| == |owner.Contents|) ==> r == NoSuchElement && Yielded == old(Yielded)
    {
      if current == null {
        return NoSuchElement;
      }
      ghost var i := |Yielded|;
      var item := current.element;
      current := current.next;
      assert owner.Contents[..i + 1] == owner.Contents[..i] + [owner.Contents[i]];
      Yielded := Yielded + [item];
      return Yield(item);
    }
  }

  /** Walks the nodes from rear to front along prev. */
  class DescendingIterator {
    const owner: LinkedSet
    var current: Node?

    /** The elements handed out so far. */
    ghost var Yielded: seq<int>
    /** How many elements are still to be handed out. */
    ghost var left: nat

    /** What has been handed out is the reversal of the suffix after the
        first left elements, and the cursor stands on the last node before
        that suffix. */
    ghost predicate Valid()
      reads this, owner, owner.Repr
      ensures Valid() ==> owner.Valid()
    {
      && owner.Valid()
      && left <= |owner.Contents|
      && Yielded == Reversed(owner.Contents[left..])
      && current == (if left > 0 then owner.Nodes[left - 1] else null)
    }

    constructor (s: LinkedSet)
      requires s.Valid()
      ensures Valid() && owner == s && Yielded == []
    {
      owner := s;
      current := s.rear;
      Yielded, left := [], |s.Contents|;
    }

    method HasNext() returns (b: bool)
      requires Valid()
      ensures b <==> |Yielded| < |owner.Contents|
      ensures !b ==> Yielded == Reversed(owner.Contents)
    {
      b := current != null;
      if !b {
        assert owner.Contents[0..] == owner.Contents;
      }
    }

    /** Hands out the element under the cursor and moves to its
        predecessor; once every element is out, reports NoSuchElement. */
    method Next() returns (r: Step)
      requires Valid()
      modifies this
      ensures Valid()
      ensures old(|Yielded| < |owner.Contents|) ==>
        r == Yield(owner.Contents[|owner.Contents| - 1 - old(|Yielded|)]) &&
        Yielded == old(Yielded) + [r.element]
      ensures old(|Yielded| == |owner.Contents|) ==> r == NoSuchElement && Yielded == old(Yielded)
    {
      if current == null {
        return NoSuchElement;
      }
      var item := current.element;
      current := current.prev;
      ReversedStep(owner.Contents, left);
      Yielded, left := Yielded + [item], left - 1;
      return Yield(item);
    }
  }
  /** Counts through the masks 0, 1, 2, ...; the mask m stands for the
      subset that keeps the element at position j iff bit j of m is set. */
  class PowerSetIterator {
    const owner: LinkedSet
    /** The size of the set when the cursor was made. */
    var count: int
    /** The mask of the next subset to hand out. */
    var current: nat

    /** The subsets handed out so far, in order. */
    ghost var Yielded: seq<seq<int>>

    /** The m-th subset handed out is the one mask m chooses. */
    ghost predicate Valid()
      reads this, owner, owner.Repr
      ensures Valid() ==> owner.Valid()
    {
      && owner.Valid()
      && count == |owner.Contents|
      && |Yielded| == current
      && forall m :: 0 <= m < |Yielded| ==> Yielded[m] == Select(owner.Contents, m)
    }

    constructor (s: LinkedSet)
      requires s.Valid()
      ensures Valid() && owner == s && Yielded == []
    {
      owner := s;
      count := s.size;
      current := 0;
      Yielded := [];
    }

    /** More subsets are due while fewer than 2^size masks have been used. */
    method HasNext() returns (b: bool)
      requires Valid()
      ensures b <==> |Yielded| < Pow2(|owner.Contents|)
    {
      b := current < Pow2(owner.size);
    }

    /** Hands out the subset chosen by the current mask and moves on to
        the next mask. There is no check that masks remain. */
    method Next() returns (p: LinkedSet)
      requires Valid()
      modifies this
      ensures Valid() && current == old(current) + 1
      ensures p.Valid() && fresh(p.Repr)
      ensures p.Contents == Select(owner.Contents, old(current))
      ensures Yielded == old(Yielded) + [p.Contents]
    {
      p := Subset(current);
      current := current + 1;
      Yielded := Yielded + [p.Contents];
    }

    /** Builds, as a new set, the subset chosen by mask, walking the nodes
        from front and keeping a node's element when the lowest unconsumed
        bit of the mask is set. */
    method Subset(mask: nat) returns (p: LinkedSet)
      requires owner.Valid()
      ensures p.Valid() && fresh(p.Repr)
      ensures p.Contents == Select(owner.Contents, mask)
    {
      ghost var C := owner.Contents;
      p := new LinkedSet();
      var bit := mask;
      var node := owner.front;
      var i := 0;
      while i < owner.size
        invariant p.Valid() && fresh(p.Repr)
        invariant 0 <= i <= |C|
        invariant node == (if i < |C| then owner.Nodes[i] else null)
        invariant p.Contents + Select(C[i..], bit) == Select(C, mask)
        invariant forall y :: y in p.Contents ==> y in C[..i]
        decreases |C| - i
      {
        ghost var acc := p.Contents;
        SelectStep(C, i, bit, acc);
        AppendNext(C, i, acc);
        if bit % 2 == 1 {
          var _ := p.Add(node.element);
          assert p.Contents == acc + [C[i]];
        } else {
          assert C[..i + 1] == C[..i] + [C[i]];
        }
        bit := bit / 2;
        node := node.next;
        i := i + 1;
      }
    }
  }

  /** Once the power-set cursor has run out, every subset of the set's
      elements has been handed out ... */
  lemma PowerSetAllHandedOut(it: PowerSetIterator, sub: set<int>) returns (m: nat)
    requires it.Valid() && |it.Yielded| >= Pow2(|it.owner.Contents|)
    requires sub <= Elements(it.owner.Contents)
    ensures m < Pow2(|it.owner.Contents|) && Elements(it.Yielded[m]) == sub
  {
    m := PowerSetCovers(it.owner.Contents, sub);
  }

  /** ... and no subset was handed out twice among the first 2^size. */
  lemma PowerSetNoRepeats(it: PowerSetIterator, m1: nat, m2: nat)
    requires it.Valid()
    requires m1 < m2 < |it.Yielded| && m2 < Pow2(|it.owner.Contents|)
    ensures Elements(it.Yielded[m1]) != Elements(it.Yielded[m2])
  {
    if Elements(it.Yielded[m1]) == Elements(it.Yielded[m2]) {
      PowerSetOnce(it.owner.Contents, m1, m2);
    }
  }
}
