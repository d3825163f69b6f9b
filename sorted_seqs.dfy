/** Abstract values behind a LinkedSet: the element sequence read from front
    to rear, which is kept strictly ascending, and the operations on it that
    the linked-list surgery must realise. */
module SortedSeqs {

  /** The chain from front to rear is in strictly ascending order: every
      element is below its successor. */
  predicate StrictlyIncreasing(s: seq<int>) {
    |s| < 2 || (s[0] < s[1] && StrictlyIncreasing(s[1..]))
  }

  /** The chain condition is the same as every pair of positions being in
      order, so a strictly increasing sequence holds no duplicates. */
  lemma {:induction false} StrictlyIncreasingPairwise(s: seq<int>)
    ensures StrictlyIncreasing(s) <==> forall i, j :: 0 <= i < j < |s| ==> s[i] < s[j]
  {
    if |s| >= 2 {
      StrictlyIncreasingPairwise(s[1..]);
      if StrictlyIncreasing(s) {
        TailMembers(s);
        forall i, j | 0 <= i < j < |s| ensures s[i] < s[j] {
          assert s[j] == s[1..][j - 1] && s[j] in s[1..];
          if i > 0 {
            assert s[i] == s[1..][i - 1];
          } else {
            MinFirst(s, s[j]);
          }
        }
      }
      if forall i, j :: 0 <= i < j < |s| ==> s[i] < s[j] {
        forall i, j | 0 <= i < j < |s| - 1 ensures s[1..][i] < s[1..][j] {
          assert s[1..][i] == s[i + 1] && s[1..][j] == s[j + 1];
        }
      }
    }
  }

  /** The head of a strictly increasing sequence is below every later
      element. */
  lemma HeadBelow(s: seq<int>, i: nat)
    requires StrictlyIncreasing(s) && 0 < i < |s|
    ensures s[0] < s[i]
  {
    StrictlyIncreasingPairwise(s);
  }

  /** The sequence after an ordered insertion of x: x is placed before the
      first element that exceeds it; a sequence that already holds x is
      returned unchanged. */
  function Insert(s: seq<int>, x: int): (r: seq<int>)
    ensures forall y :: y in r <==> y in s || y == x
  {
    if s == [] then [x]
    else if x < s[0] then [x] + s
    else if x == s[0] then s
    else [s[0]] + Insert(s[1..], x)
  }

  /** The sequence with every occurrence of x unlinked. */
  function Delete(s: seq<int>, x: int): (r: seq<int>)
    ensures forall y :: y in r <==> y in s && y != x
    ensures |r| <= |s|
  {
    if s == [] then []
    else if s[0] == x then Delete(s[1..], x)
    else [s[0]] + Delete(s[1..], x)
  }

  /** The sequence after inserting the elements of xs one after another. */
  function InsertAll(s: seq<int>, xs: seq<int>): (r: seq<int>)
    ensures forall y :: y in r <==> y in s || y in xs
    decreases xs
  {
    if xs == [] then s else InsertAll(Insert(s, xs[0]), xs[1..])
  }

  /** The sequence after deleting the elements of xs one after another. */
  function DeleteAll(s: seq<int>, xs: seq<int>): (r: seq<int>)
    ensures forall y :: y in r <==> y in s && y !in xs
    decreases xs
  {
    if xs == [] then s else DeleteAll(Delete(s, xs[0]), xs[1..])
  }

  /** The elements of s in the opposite order. */
  function Reversed(s: seq<int>): (r: seq<int>)
    ensures |r| == |s|
  {
    if s == [] then [] else Reversed(s[1..]) + [s[0]]
  }

  /** 2 to the power n, as an exact integer. */
  function Pow2(n: nat): (r: nat)
    ensures r >= 1
  {
    if n == 0 then 1 else 2 * Pow2(n - 1)
  }

  /** Bit j (counting from the least significant, bit 0) of m is set. */
  predicate Bit(m: nat, j: nat) {
    if j == 0 then m % 2 == 1 else Bit(m / 2, j - 1)
  }

  /** The subset of s chosen by the mask m: s[j] is kept iff bit j of m is
      set, in the order of s. */
  function Select(s: seq<int>, m: nat): (r: seq<int>)
    ensures |r| <= |s|
    ensures forall y :: y in r ==> y in s
  {
    if s == [] then []
    else (if m % 2 == 1 then [s[0]] else []) + Select(s[1..], m / 2)
  }

  // ---------------------------------------------------------------------
  // Ordered insertion

  lemma {:induction false} InsertStrict(s: seq<int>, x: int)
    requires StrictlyIncreasing(s)
    ensures StrictlyIncreasing(Insert(s, x))
  {
    if s != [] && x > s[0] {
      TailMembers(s);
      InsertStrict(s[1..], x);
      var t := Insert(s[1..], x);
      forall y | y in t ensures s[0] < y {
        if y in s[1..] {
          MinFirst(s, y);
        }
      }
      ConsStrict(s[0], t);
    } else if s != [] && x < s[0] {
      forall y | y in s ensures x < y {
        MinFirst(s, y);
      }
      ConsStrict(x, s);
    }
  }

  lemma {:induction false} InsertLength(s: seq<int>, x: int)
    requires StrictlyIncreasing(s)
    ensures |Insert(s, x)| == if x in s then |s| else |s| + 1
  {
    if s != [] && x > s[0] {
      TailMembers(s);
      InsertLength(s[1..], x);
    } else if s != [] && x < s[0] {
      forall y | y in s ensures s[0] <= y {
        MinFirst(s, y);
      }
    }
  }

  /** Inserting an element that is already present changes nothing. */
  lemma {:induction false} InsertPresent(s: seq<int>, x: int)
    requires StrictlyIncreasing(s) && x in s
    ensures Insert(s, x) == s
  {
    if x != s[0] {
      assert x in s[1..];
      InsertPresent(s[1..], x);
    }
  }

  /** Ordered insertion is idempotent. */
  lemma InsertTwice(s: seq<int>, x: int)
    requires StrictlyIncreasing(s)
    ensures Insert(Insert(s, x), x) == Insert(s, x)
  {
    InsertStrict(s, x);
    InsertPresent(Insert(s, x), x);
  }

  /** Inserting x between a prefix below it and a suffix above it is a
      splice at that position. */
  lemma {:induction false} InsertAt(s: seq<int>, x: int, i: nat)
    requires i <= |s|
    requires forall j :: 0 <= j < i ==> s[j] < x
    requires forall j :: i <= j < |s| ==> x < s[j]
    ensures Insert(s, x) == s[..i] + [x] + s[i..]
  {
    if i > 0 {
      InsertAt(s[1..], x, i - 1);
      assert s[1..][..i - 1] == s[1..i];
      assert s[1..][i - 1..] == s[i..];
      assert s[..i] == [s[0]] + s[1..i];
    }
  }

  /** Inserting x just after an element below it and just before an
      element above it is a splice at that position. */
  lemma InsertBetween(s: seq<int>, x: int, i: nat)
    requires StrictlyIncreasing(s) && i <= |s|
    requires 0 < i ==> s[i - 1] < x
    requires i < |s| ==> x < s[i]
    ensures Insert(s, x) == s[..i] + [x] + s[i..]
    ensures StrictlyIncreasing(Insert(s, x))
  {
    StrictlyIncreasingPairwise(s);
    forall j | 0 <= j < i ensures s[j] < x {
      if j < i - 1 {
        assert s[j] < s[i - 1];
      }
    }
    forall j | i <= j < |s| ensures x < s[j] {
      if i < j {
        assert s[i] < s[j];
      }
    }
    InsertAt(s, x, i);
    InsertStrict(s, x);
  }

  // ---------------------------------------------------------------------
  // Unlinking

  lemma {:induction false} DeleteStrict(s: seq<int>, x: int)
    requires StrictlyIncreasing(s)
    ensures StrictlyIncreasing(Delete(s, x))
  {
    if s != [] {
      TailMembers(s);
      DeleteStrict(s[1..], x);
      var t := Delete(s[1..], x);
      forall y | y in t ensures s[0] < y {
        MinFirst(s, y);
      }
      if s[0] != x {
        ConsStrict(s[0], t);
      }
    }
  }

  lemma {:induction false} DeleteLength(s: seq<int>, x: int)
    requires StrictlyIncreasing(s)
    ensures |Delete(s, x)| == if x in s then |s| - 1 else |s|
  {
    if s != [] {
      TailMembers(s);
      DeleteLength(s[1..], x);
    }
  }

  /** Deleting the element at position i of a strictly increasing sequence
      closes the gap at i. */
  lemma {:induction false} DeleteAt(s: seq<int>, i: nat)
    requires StrictlyIncreasing(s) && i < |s|
    ensures Delete(s, s[i]) == s[..i] + s[i + 1..]
  {
    if i == 0 {
      TailMembers(s);
      DeleteAbsent(s[1..], s[0]);
    } else {
      HeadBelow(s, i);
      assert s[1..][i - 1] == s[i];
      DeleteAt(s[1..], i - 1);
      assert Delete(s, s[i]) == [s[0]] + Delete(s[1..], s[i]);
      assert s[1..][..i - 1] == s[1..i];
      assert s[1..][i..] == s[i + 1..];
      assert s[..i] == [s[0]] + s[1..i];
    }
  }

  /** Deleting an absent element changes nothing. */
  lemma {:induction false} DeleteAbsent(s: seq<int>, x: int)
    requires x !in s
    ensures Delete(s, x) == s
  {
    if s != [] {
      assert x !in s[1..];
      DeleteAbsent(s[1..], x);
    }
  }

  // ---------------------------------------------------------------------
  // A strictly increasing sequence is determined by its elements

  /** Two strictly increasing sequences with the same members are equal. */
  lemma SameMembersSame(a: seq<int>, b: seq<int>)
    requires StrictlyIncreasing(a) && StrictlyIncreasing(b)
    requires forall y :: y in a <==> y in b
    ensures a == b
  {
    SubsetNoLonger(a, b);
    SubsetNoLonger(b, a);
    SubsetSameSizeSame(a, b);
  }

  /** Prepending an element below every member keeps a sequence strictly
      increasing. */
  lemma ConsStrict(h: int, t: seq<int>)
    requires StrictlyIncreasing(t)
    requires forall y :: y in t ==> h < y
    ensures StrictlyIncreasing([h] + t)
  {
    assert ([h] + t)[1..] == t;
    if t != [] {
      assert t[0] in t;
    }
  }

  /** Every member of a strictly increasing sequence is at least its head. */
  lemma {:induction false} MinFirst(s: seq<int>, y: int)
    requires StrictlyIncreasing(s) && y in s
    ensures s[0] <= y
  {
    if y != s[0] {
      assert s == [s[0]] + s[1..];
      MinFirst(s[1..], y);
    }
  }

  /** The tail of a strictly increasing sequence holds all members but the
      head, and no more. */
  lemma TailMembers(s: seq<int>)
    requires StrictlyIncreasing(s) && s != []
    ensures StrictlyIncreasing(s[1..])
    ensures forall y :: y in s[1..] <==> y in s && y != s[0]
  {
    assert s == [s[0]] + s[1..];
    forall y | y in s[1..] ensures y != s[0] {
      MinFirst(s[1..], y);
    }
  }

  /** A strictly increasing sequence whose members all occur in another
      strictly increasing sequence is no longer than it. */
  lemma {:induction false} SubsetNoLonger(a: seq<int>, b: seq<int>)
    requires StrictlyIncreasing(a) && StrictlyIncreasing(b)
    requires forall y :: y in a ==> y in b
    ensures |a| <= |b|
  {
    if a != [] {
      assert a[0] in a;
      MinFirst(b, a[0]);
      TailMembers(b);
      if b[0] == a[0] {
        TailMembers(a);
        SubsetNoLonger(a[1..], b[1..]);
      } else {
        forall y | y in a ensures y in b[1..] {
          MinFirst(a, y);
        }
        SubsetNoLonger(a, b[1..]);
      }
    }
  }

  /** A subset of b that is as long as b cannot have skipped b's head. */
  lemma HeadNotSkipped(a: seq<int>, b: seq<int>)
    requires StrictlyIncreasing(a) && StrictlyIncreasing(b)
    requires forall y :: y in a ==> y in b
    requires a != [] && b != []
    ensures b[0] < a[0] ==> |a| < |b|
  {
    if b[0] < a[0] {
      TailMembers(b);
      forall y | y in a ensures y in b[1..] {
        MinFirst(a, y);
      }
      SubsetNoLonger(a, b[1..]);
    }
  }

  /** Equality as a LinkedSet decides it: same size and every element of
      one occurs in the other. */
  lemma {:induction false} SubsetSameSizeSame(a: seq<int>, b: seq<int>)
    requires StrictlyIncreasing(a) && StrictlyIncreasing(b)
    requires |a| == |b|
    requires forall y :: y in a ==> y in b
    ensures a == b
  {
    if a != [] {
      assert a[0] in a;
      MinFirst(b, a[0]);
      HeadNotSkipped(a, b);
      assert b[0] == a[0];
      TailMembers(a);
      TailMembers(b);
      SubsetSameSizeSame(a[1..], b[1..]);
      assert a == [a[0]] + a[1..];
      assert b == [b[0]] + b[1..];
    }
  }

  // ---------------------------------------------------------------------
  // Ordered insertion and unlinking undo each other

  lemma InsertThenDelete(s: seq<int>, x: int)
    requires StrictlyIncreasing(s) && x !in s
    ensures Delete(Insert(s, x), x) == s
  {
    InsertStrict(s, x);
    DeleteStrict(Insert(s, x), x);
    SameMembersSame(Delete(Insert(s, x), x), s);
  }

  lemma DeleteThenInsert(s: seq<int>, x: int)
    requires StrictlyIncreasing(s) && x in s
    ensures Insert(Delete(s, x), x) == s
  {
    DeleteStrict(s, x);
    InsertStrict(Delete(s, x), x);
    SameMembersSame(Insert(Delete(s, x), x), s);
  }

  // ---------------------------------------------------------------------
  // Reversal

  lemma {:induction false} ReversedAt(s: seq<int>, k: nat)
    requires k < |s|
    ensures Reversed(s)[k] == s[|s| - 1 - k]
  {
    if k < |s| - 1 {
      ReversedAt(s[1..], k);
    }
  }

  /** Reversing a suffix one element longer appends that element. */
  lemma ReversedStep(s: seq<int>, p: nat)
    requires 0 < p <= |s|
    ensures Reversed(s[p - 1..]) == Reversed(s[p..]) + [s[p - 1]]
  {
    assert s[p - 1..][1..] == s[p..];
  }

  // ---------------------------------------------------------------------
  // Subsets chosen by a mask

  /** The head of s is chosen exactly when the lowest bit of m is set, and
      no later element is ever the head. */
  lemma SelectHead(s: seq<int>, m: nat)
    requires StrictlyIncreasing(s) && s != []
    ensures s[0] in Select(s, m) <==> m % 2 == 1
  {
    TailMembers(s);
    assert s[0] !in Select(s[1..], m / 2);
  }

  lemma {:induction false} SelectStrict(s: seq<int>, m: nat)
    requires StrictlyIncreasing(s)
    ensures StrictlyIncreasing(Select(s, m))
  {
    if s != [] {
      TailMembers(s);
      SelectStrict(s[1..], m / 2);
      var t := Select(s[1..], m / 2);
      forall y | y in t ensures s[0] < y {
        MinFirst(s, y);
      }
      if m % 2 == 1 {
        ConsStrict(s[0], t);
      } else {
        assert Select(s, m) == t;
      }
    }
  }

  /** Element j of s is in the subset chosen by m iff bit j of m is set. */
  lemma {:induction false} SelectMember(s: seq<int>, m: nat, j: nat)
    requires StrictlyIncreasing(s) && j < |s|
    ensures s[j] in Select(s, m) <==> Bit(m, j)
  {
    if j == 0 {
      SelectHead(s, m);
    } else {
      HeadBelow(s, j);
      assert s[1..][j - 1] == s[j];
      SelectMember(s[1..], m / 2, j - 1);
      var head := if m % 2 == 1 then [s[0]] else [];
      assert Select(s, m) == head + Select(s[1..], m / 2);
      assert s[j] !in head;
    }
  }

  /** The mask with all |s| low bits set chooses the whole of s. */
  lemma {:induction false} SelectAll(s: seq<int>)
    ensures Select(s, Pow2(|s|) - 1) == s
  {
    if s != [] {
      var m := Pow2(|s|) - 1;
      assert m % 2 == 1 && m / 2 == Pow2(|s| - 1) - 1;
      SelectAll(s[1..]);
    }
  }

  /** Different masks below 2^|s| choose different subsets. */
  lemma {:induction false} SelectInjective(s: seq<int>, m1: nat, m2: nat)
    requires StrictlyIncreasing(s)
    requires m1 < Pow2(|s|) && m2 < Pow2(|s|) && m1 != m2
    ensures Select(s, m1) != Select(s, m2)
  {
    if s != [] {
      if m1 % 2 != m2 % 2 {
        SelectHead(s, m1);
        SelectHead(s, m2);
      } else {
        TailMembers(s);
        SelectInjective(s[1..], m1 / 2, m2 / 2);
        if m1 % 2 == 1 {
          assert Select(s, m1)[1..] == Select(s[1..], m1 / 2);
          assert Select(s, m2)[1..] == Select(s[1..], m2 / 2);
        } else {
          assert Select(s, m1) == Select(s[1..], m1 / 2);
          assert Select(s, m2) == Select(s[1..], m2 / 2);
        }
      }
    }
  }

  /** Every subset of the elements of s is chosen by some mask below 2^|s|. */
  lemma {:induction false} SelectCovers(s: seq<int>, sub: set<int>) returns (m: nat)
    requires StrictlyIncreasing(s)
    requires forall y :: y in sub ==> y in s
    ensures m < Pow2(|s|)
    ensures forall y :: y in Select(s, m) <==> y in sub
  {
    if s == [] {
      m := 0;
    } else {
      TailMembers(s);
      var rest := SelectCovers(s[1..], sub - {s[0]});
      m := 2 * rest + (if s[0] in sub then 1 else 0);
      assert m / 2 == rest;
      SelectHead(s, m);
    }
  }
  /** The members of s, as a set. */
  function Elements(s: seq<int>): (r: set<int>)
    ensures forall y :: y in r <==> y in s
  {
    set y | y in s
  }

  /** Enumerating the masks 0 .. 2^|s| - 1 visits every subset of the
      elements of s. */
  lemma PowerSetCovers(s: seq<int>, sub: set<int>) returns (m: nat)
    requires StrictlyIncreasing(s)
    requires sub <= Elements(s)
    ensures m < Pow2(|s|) && Elements(Select(s, m)) == sub
  {
    m := SelectCovers(s, sub);
    var e := Elements(Select(s, m));
    forall y | y in sub ensures y in e {
      assert y in Select(s, m);
    }
    forall y | y in e ensures y in sub {
      assert y in Select(s, m);
    }
  }

  /** Enumerating the masks 0 .. 2^|s| - 1 visits no subset twice: two
      masks below 2^|s| that choose the same members are the same mask. */
  lemma PowerSetOnce(s: seq<int>, m1: nat, m2: nat)
    requires StrictlyIncreasing(s)
    requires m1 < Pow2(|s|) && m2 < Pow2(|s|)
    requires Elements(Select(s, m1)) == Elements(Select(s, m2))
    ensures m1 == m2
  {
    SelectStrict(s, m1);
    SelectStrict(s, m2);
    SameMembersSame(Select(s, m1), Select(s, m2));
    if m1 != m2 {
      SelectInjective(s, m1, m2);
    }
  }

  /** One step of building the subset chosen by m from position i on:
      s[i] is kept iff the lowest bit of m is set and the rest is chosen by
      the other bits. */
  lemma SelectStep(s: seq<int>, i: nat, m: nat, acc: seq<int>)
    requires i < |s|
    ensures acc + Select(s[i..], m) ==
      (if m % 2 == 1 then acc + [s[i]] else acc) + Select(s[i + 1..], m / 2)
  {
    assert s[i..][1..] == s[i + 1..];
    var t := Select(s[i + 1..], m / 2);
    if m % 2 == 1 {
      assert Select(s[i..], m) == [s[i]] + t;
      assert acc + ([s[i]] + t) == acc + [s[i]] + t;
    } else {
      assert Select(s[i..], m) == [] + t == t;
    }
  }

  /** Appending s[i] to a strictly increasing sequence of elements drawn
      from before position i is an ordered insertion, and the result is
      drawn from up to position i. */
  lemma AppendNext(s: seq<int>, i: nat, acc: seq<int>)
    requires StrictlyIncreasing(s) && StrictlyIncreasing(acc) && i < |s|
    requires forall y :: y in acc ==> y in s[..i]
    ensures Insert(acc, s[i]) == acc + [s[i]]
    ensures forall y :: y in acc + [s[i]] ==> y in s[..i + 1]
  {
    var x := s[i];
    if acc != [] {
      var last := acc[|acc| - 1];
      assert last in acc;
      PrefixBelow(s, i, last);
    }
    InsertBetween(acc, x, |acc|);
    assert Insert(acc, x) == acc + [x] by {
      assert acc[..|acc|] + [x] + acc[|acc|..] == acc + [x];
    }
    PrefixGrows(s, i, acc);
  }

  /** Elements drawn from before position i, together with s[i], are drawn
      from up to position i. */
  lemma PrefixGrows(s: seq<int>, i: nat, acc: seq<int>)
    requires i < |s|
    requires forall y :: y in acc ==> y in s[..i]
    ensures forall y :: y in acc + [s[i]] ==> y in s[..i + 1]
  {
    assert s[..i + 1] == s[..i] + [s[i]];
  }

  /** Every element before position i is below the element at i. */
  lemma PrefixBelow(s: seq<int>, i: nat, y: int)
    requires StrictlyIncreasing(s) && i < |s| && y in s[..i]
    ensures y < s[i]
  {
    StrictlyIncreasingPairwise(s);
  }
}
