/** Verified scenarios: the call sequences of the add, remove, union,
    intersection and iterator unit tests of LinkedSet, and the inputs on which the
    code as written breaks the corrected promise. */
module Scenarios {
  import opened SortedSeqs
  import opened LinkedSets
  import opened LinkedSetIterators
  import opened AsWritten

  /** A new set made by adding the elements of xs in order, as the tests
      fill their sets. */
  method Build(xs: seq<int>) returns (s: LinkedSet)
    ensures s.Valid() && fresh(s.Repr)
    ensures s.Contents == InsertAll([], xs)
  {
    s := new LinkedSet();
    var i := 0;
    while i < |xs|
      invariant 0 <= i <= |xs|
      invariant s.Valid() && fresh(s.Repr)
      invariant InsertAll(s.Contents, xs[i..]) == InsertAll([], xs)
    {
      assert xs[i..][1..] == xs[i + 1..];
      var added := s.Add(xs[i]);
      i := i + 1;
    }
  }

  /** Adding 4, 1, 5, 3, 1, 2, 2, 3 leaves five elements, in ascending
      order. */
  method AddRepeatsScenario() returns (n: int)
    ensures n == 5
  {
    var s := Build([4, 1, 5, 3, 1, 2, 2, 3]);
    SameMembersSame(s.Contents, [1, 2, 3, 4, 5]);
    n := s.Size();
  }

  /** Removes the elements of xs from s in order. */
  method RemoveEach(s: LinkedSet, xs: seq<int>)
    requires s.Valid()
    modifies s.Repr
    ensures s.Valid() && s.Repr == old(s.Repr)
    ensures s.Contents == DeleteAll(old(s.Contents), xs)
  {
    var i := 0;
    while i < |xs|
      invariant 0 <= i <= |xs|
      invariant s.Valid() && s.Repr == old(s.Repr)
      invariant DeleteAll(s.Contents, xs[i..]) == DeleteAll(old(s.Contents), xs)
    {
      assert xs[i..][1..] == xs[i + 1..];
      var removed := s.Remove(xs[i]);
      i := i + 1;
    }
  }

  /** Adding 4, 1, 5, 3, 1, 2 and then removing 4, 1, 5, 2 leaves one
      element. */
  method RemoveScenario() returns (n: int)
    ensures n == 1
  {
    var s := Build([4, 1, 5, 3, 1, 2]);
    RemoveEach(s, [4, 1, 5, 2]);
    SameMembersSame(s.Contents, [3]);
    n := s.Size();
  }

  /** {6, 4, 5} united with {2, 1, 3} equals {1, 2, 3, 4, 5, 6}. */
  method UnionScenario() returns (eq: bool)
    ensures eq
  {
    var arrSet := Build([2, 1, 3]);
    var arrClone := Build([6, 4, 5]);
    var expected := Build([1, 2, 3, 4, 5, 6]);
    var actual := arrClone.Union(arrSet);
    SameMembersSame(expected.Contents, actual.Contents);
    eq := expected.Equals(actual);
  }

  /** {2, 1, 3, 4, 6, 5} intersected with {6, 4, 5} equals {4, 5, 6}. */
  method IntersectionScenario() returns (eq: bool)
    ensures eq
  {
    var arrSet := Build([2, 1, 3, 4, 6, 5]);
    var arrClone := Build([6, 4, 5]);
    var expected := Build([4, 5, 6]);
    var actual := arrSet.Intersection(arrClone);
    SameMembersSame(expected.Contents, actual.Contents);
    eq := expected.Equals(actual);
  }

  /** {1, 2, 3} less {2, 5} is {1, 3}. */
  method ComplementScenario() returns (eq: bool)
    ensures eq
  {
    var a := Build([1, 2, 3]);
    var b := Build([2, 5]);
    var expected := Build([1, 3]);
    var actual := a.Complement(b);
    SameMembersSame(expected.Contents, actual.Contents);
    eq := expected.Equals(actual);
  }

  /** {1, 2, 3} less the empty set is a new set equal to {1, 2, 3}. */
  method ComplementEmptyScenario() returns (eq: bool, same: bool)
    ensures eq && !same
  {
    var a := Build([1, 2, 3]);
    var none := new LinkedSet();
    var copy := a.Complement(none);
    SameMembersSame(a.Contents, copy.Contents);
    eq := a.Equals(copy);
    same := copy == a;
  }

  /** Runs an ascending cursor over s to the end, collecting what it hands
      out: the elements from front to rear. */
  method DrainAscending(s: LinkedSet) returns (out: seq<int>)
    requires s.Valid()
    ensures out == s.Contents
  {
    var it := new AscendingIterator(s);
    out := [];
    var more := it.HasNext();
    while more
      invariant it.Valid() && it.owner == s && fresh(it)
      invariant out == it.Yielded
      invariant more <==> |it.Yielded| < |s.Contents|
      invariant !more ==> out == s.Contents
      decreases |s.Contents| - |it.Yielded|
    {
      var step := it.Next();
      out := out + [step.element];
      more := it.HasNext();
    }
  }

  /** Runs a descending cursor over s to the end, collecting what it hands
      out: the elements from rear to front. */
  method DrainDescending(s: LinkedSet) returns (out: seq<int>, last: Step)
    requires s.Valid()
    ensures out == Reversed(s.Contents) && last == NoSuchElement
  {
    var it := new DescendingIterator(s);
    out := [];
    var more := it.HasNext();
    while more
      invariant it.Valid() && it.owner == s && fresh(it)
      invariant out == it.Yielded
      invariant more <==> |it.Yielded| < |s.Contents|
      invariant !more ==> out == Reversed(s.Contents)
      decreases |s.Contents| - |it.Yielded|
    {
      var step := it.Next();
      out := out + [step.element];
      more := it.HasNext();
    }
    last := it.Next();
  }

  /** Runs a power-set cursor over s to the end: it hands out 2^|s|
      subsets, the last of them the whole set. */
  method DrainPowerSet(s: LinkedSet) returns (count: int, lastSize: int, ghost last: seq<int>)
    requires s.Valid()
    ensures count == Pow2(|s.Contents|) && lastSize == |s.Contents|
    ensures last == s.Contents
  {
    var it := new PowerSetIterator(s);
    count, lastSize, last := 0, 0, [];
    var more := it.HasNext();
    while more
      invariant it.Valid() && it.owner == s && fresh(it)
      invariant count == |it.Yielded| <= Pow2(|s.Contents|)
      invariant more <==> count < Pow2(|s.Contents|)
      invariant 0 < count ==> lastSize == |last| && last == it.Yielded[count - 1]
      decreases Pow2(|s.Contents|) - count
    {
      var p := it.Next();
      lastSize := p.Size();
      last := p.Contents;
      count := count + 1;
      more := it.HasNext();
    }
    SelectAll(s.Contents);
  }

  /** Adding an element already present, or removing an absent one, leaves
      the list as it was, so a cursor made before the call is still good. */
  method NoOpKeepsCursor() returns (added: bool, removed: bool, r: Step)
    ensures !added && !removed && r == Yield(1)
  {
    var s := Build([3, 1, 2]);
    SameMembersSame(s.Contents, [1, 2, 3]);
    var it := new AscendingIterator(s);
    added := s.Add(2);
    removed := s.Remove(5);
    r := it.Next();
  }

  /** The ascending cursor over {3, 1, 2} hands out 1, 2, 3. */
  method AscendingScenario() returns (out: seq<int>)
    ensures out == [1, 2, 3]
  {
    var s := Build([3, 1, 2]);
    SameMembersSame(s.Contents, [1, 2, 3]);
    out := DrainAscending(s);
  }

  /** The descending cursor over {1, ..., 6} hands out 6, 5, 4, 3, 2, 1 and
      then reports that no element is left. */
  method DescendingScenario() returns (out: seq<int>, last: Step)
    ensures out == [6, 5, 4, 3, 2, 1] && last == NoSuchElement
  {
    var s := Build([1, 2, 3, 4, 5, 6]);
    SameMembersSame(s.Contents, [1, 2, 3, 4, 5, 6]);
    out, last := DrainDescending(s);
    forall k | 0 <= k < 6 ensures out[k] == s.Contents[5 - k] {
      ReversedAt(s.Contents, k);
    }
  }

  /** The power-set cursor over {1, 2, 3} hands out 2^3 = 8 subsets, the
      last of them the whole set. */
  method PowerSetScenario() returns (count: int, lastSize: int)
    ensures count == 8 && lastSize == 3
  {
    var s := Build([1, 2, 3]);
    SameMembersSame(s.Contents, [1, 2, 3]);
    ghost var last;
    count, lastSize, last := DrainPowerSet(s);
    assert Pow2(1) == 2 && Pow2(2) == 4;
  }

  /** {3, 2, 4} and {1, 2, 3} have the same size and share the front
      element 2, so equals as written calls them equal. */
  method EqualsAsWrittenFrontOnly() returns (asWritten: bool, corrected: bool)
    ensures asWritten && !corrected
  {
    var s := Build([3, 2, 4]);
    var arrSet := Build([1, 2, 3]);
    SameMembersSame(s.Contents, [2, 3, 4]);
    SameMembersSame(arrSet.Contents, [1, 2, 3]);
    asWritten := EqualsAsWritten(s, arrSet);
    corrected := s.Equals(arrSet);
  }

  /** Two empty sets compare unequal under equals as written. */
  method EqualsAsWrittenEmpty() returns (asWritten: bool, corrected: bool)
    ensures !asWritten && corrected
  {
    var a := new LinkedSet();
    var s := new LinkedSet();
    asWritten := EqualsAsWritten(a, s);
    corrected := a.Equals(s);
  }

  /** On the set {7} the mask 1 stands for {7}, so the second subset the
      corrected cursor hands out holds 7; the second subset the cursor as
      written hands out is empty again. */
  method PowerSetAsWrittenOnlyEmpty() returns (asWritten: bool, corrected: bool)
    ensures !asWritten && corrected
  {
    var s := new LinkedSet();
    var added := s.Add(7);
    var w := new PowerSetIteratorAsWritten(s);
    var p := w.Next();
    p := w.Next();
    asWritten := p.Contains(7);
    var c := new PowerSetIterator(s);
    p := c.Next();
    p := c.Next();
    corrected := p.Contains(7);
  }
}
