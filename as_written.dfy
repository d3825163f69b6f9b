/** Three operations of LinkedSet as their code stands, next to inputs on
    which they break the promise the corrected operations keep. */
module AsWritten {
  import opened SortedSeqs
  import opened LinkedSets
  import opened LinkedSetIterators

  /** equals as the code stands: after the size test, the first pass of the
      loop returns whatever the test on the front element says, so the loop
      never makes a second pass and acts as a test on front; only the front
      element is ever compared, and two empty sets compare unequal. */
  method EqualsAsWritten(a: LinkedSet, s: LinkedSet) returns (eq: bool)
    requires a.Valid() && s.Valid()
    ensures eq <==> |a.Contents| == |s.Contents| && a.Contents != [] && a.Contents[0] in s.Contents
  {
    if s.size != a.size {
      return false;
    }
    var node := a.front;
    if node != null {
      var present := s.Contains(node.element);
      if present {
        return true;
      }
      return false;
    }
    return false;
  }

  /** What remove as written does to a list whose elements are c: either it
      follows a null link, or it ends with the given result and
      elements. */
  datatype RemoveOutcome = NullDereference | Removed(changed: bool, contents: seq<int>)

  /** remove as the code stands: it reads the front element before any
      emptiness test, and on a front match it sets the prev link of the
      front node's successor, which a one-element list does not have. The
      rear and middle cases behave as intended. */
  function RemoveAsWritten(c: seq<int>, x: int): (r: RemoveOutcome)
    requires StrictlyIncreasing(c)
    ensures r.NullDereference? <==> c == [] || (|c| == 1 && x == c[0])
    ensures r.Removed? ==> r.contents == Delete(c, x) && (r.changed <==> x in c)
  {
    if c == [] then NullDereference
    else if x == c[0] then
      if |c| == 1 then NullDereference
      else DeleteAt(c, 0); assert c[..0] + c[1..] == c[1..]; Removed(true, c[1..])
    else if x == c[|c| - 1] then
      DeleteAt(c, |c| - 1); assert c[..|c| - 1] + c[|c|..] == c[..|c| - 1]; Removed(true, c[..|c| - 1])
    else if x in c then Removed(true, Delete(c, x))
    else DeleteAbsent(c, x); Removed(false, c)
  }

  /** Removing from an empty set, and removing the only element, follow a
      null link as written, where the corrected remove answers with the
      set left empty. */
  lemma RemoveAsWrittenFaults(x: int)
    ensures RemoveAsWritten([], x) == NullDereference && Delete([], x) == []
    ensures RemoveAsWritten([x], x) == NullDereference && Delete([x], x) == []
  {
  }

  /** The power-set cursor as the code stands. */
  class PowerSetIteratorAsWritten {
    const owner: LinkedSet
    var count: int
    var current: int
    var bit: int

    constructor (s: LinkedSet)
      requires s.Valid()
      ensures owner == s && owner.Valid() && count == s.size && current == 0 && bit == 0
    {
      owner := s;
      count := s.size;
      current := 0;
      bit := 0;
    }

    /** next as the code stands: the mask stays 1 and the node stays at
        front, so each pass of the loop tests the lowest bit of bit and
        would add the front element again; bit is then set back to 0. */
    method Next() returns (p: LinkedSet)
      requires owner.Valid()
      modifies this
      ensures count == old(count) && current == old(current) + 1 && bit == 0
      ensures p.Valid() && fresh(p.Repr)
      ensures old(bit) % 2 == 0 ==> p.Contents == []
      ensures old(bit) % 2 == 1 && owner.Contents != [] ==> p.Contents == [owner.Contents[0]]
    {
      ghost var C := owner.Contents;
      p := new LinkedSet();
      var mask := 1;
      var node := owner.front;
      var i := 0;
      while i < owner.size
        invariant p.Valid() && fresh(p.Repr)
        invariant count == old(count) && current == old(current) && bit == old(bit) && mask == 1
        invariant 0 <= i <= |C| && node == owner.front
        invariant p.Contents == if bit % 2 == 1 && 0 < i then [C[0]] else []
        decreases |C| - i
      {
        if bit % 2 == mask {
          var added := p.Add(node.element);
        }
        i := i + 1;
      }
      current := current + 1;
      bit := 0;
    }
  }
}
