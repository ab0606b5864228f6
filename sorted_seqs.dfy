/** Sequences of keys: strict sortedness, insertion at the sorted position and
    removal of the first occurrence. These are the reference definitions that the
    tree's in-order sequence is compared against. */
module SortedSeqs {

  /** Strictly ascending: the in-order enumeration of a binary search tree without duplicates. */
  predicate StrictlySorted(s: seq<int>) {
    forall i, j :: 0 <= i < j < |s| ==> s[i] < s[j]
  }

  /** `x` placed in front of the first element that is not smaller than `x`. */
  function InsertSorted(s: seq<int>, x: int): (r: seq<int>)
    ensures |r| == |s| + 1
    ensures multiset(r) == multiset(s) + multiset{x}
  {
    if s == [] then [x]
    else if s[0] < x then
      assert s == [s[0]] + s[1..];
      [s[0]] + InsertSorted(s[1..], x)
    else [x] + s
  }

  /** `s` without its first occurrence of `x`; `s` itself when `x` does not occur. */
  function Erase(s: seq<int>, x: int): (r: seq<int>)
    ensures x in s ==> |r| == |s| - 1 && multiset(r) == multiset(s) - multiset{x}
    ensures x !in s ==> r == s
  {
    if s == [] then []
    else
      assert s == [s[0]] + s[1..];
      if s[0] == x then s[1..]
      else [s[0]] + Erase(s[1..], x)
  }

  /** A sequence `a + [k] + b` is strictly sorted exactly when both sides are and `k` separates them. */
  lemma SortedAround(a: seq<int>, k: int, b: seq<int>)
    ensures StrictlySorted(a + [k] + b) <==>
      StrictlySorted(a) && StrictlySorted(b) &&
      (forall y :: y in a ==> y < k) && (forall y :: y in b ==> k < y)
  {
    if StrictlySorted(a + [k] + b) {
      SortedSplit(a, k, b);
    }
    if StrictlySorted(a) && StrictlySorted(b) &&
       (forall y :: y in a ==> y < k) && (forall y :: y in b ==> k < y)
    {
      SortedJoin(a, k, b);
    }
  }

  lemma SortedSplit(a: seq<int>, k: int, b: seq<int>)
    requires StrictlySorted(a + [k] + b)
    ensures StrictlySorted(a) && StrictlySorted(b)
    ensures (forall y :: y in a ==> y < k) && (forall y :: y in b ==> k < y)
  {
    var s := a + [k] + b;
    forall i, j | 0 <= i < j < |a| ensures a[i] < a[j] { assert a[i] == s[i] && a[j] == s[j]; }
    forall i, j | 0 <= i < j < |b| ensures b[i] < b[j] {
      assert b[i] == s[|a| + 1 + i] && b[j] == s[|a| + 1 + j];
    }
    forall y | y in a ensures y < k {
      var i :| 0 <= i < |a| && a[i] == y;
      assert s[i] == y && s[|a|] == k;
    }
    forall y | y in b ensures k < y {
      var i :| 0 <= i < |b| && b[i] == y;
      assert s[|a| + 1 + i] == y && s[|a|] == k;
    }
  }

  lemma SortedJoin(a: seq<int>, k: int, b: seq<int>)
    requires StrictlySorted(a) && StrictlySorted(b)
    requires (forall y :: y in a ==> y < k) && (forall y :: y in b ==> k < y)
    ensures StrictlySorted(a + [k] + b)
  {
    var s := a + [k] + b;
    forall i, j | 0 <= i < j < |s| ensures s[i] < s[j] {
      if j < |a| {
        assert s[i] == a[i] && s[j] == a[j];
      } else if i > |a| {
        assert s[i] == b[i - |a| - 1] && s[j] == b[j - |a| - 1];
      } else if i == |a| {
        var y := b[j - |a| - 1];
        assert s[j] == y && y in b;
      } else if j == |a| {
        var x := a[i];
        assert s[i] == x && x in a;
      } else {
        var x, y := a[i], b[j - |a| - 1];
        assert s[i] == x && x in a && x < k;
        assert s[j] == y && y in b && k < y;
      }
    }
  }

  /** Inserting past a prefix whose elements are all smaller than `x` leaves the prefix in front. */
  lemma {:induction false} InsertSortedPastPrefix(a: seq<int>, b: seq<int>, x: int)
    requires forall y :: y in a ==> y < x
    ensures InsertSorted(a + b, x) == a + InsertSorted(b, x)
  {
    if a == [] {
      assert a + b == b;
    } else {
      assert a == [a[0]] + a[1..] && a[0] in a;
      assert (a + b)[0] == a[0] && (a + b)[1..] == a[1..] + b;
      forall y | y in a[1..] ensures y < x { assert y in a; }
      InsertSortedPastPrefix(a[1..], b, x);
    }
  }

  /** Inserting in front of a suffix that starts at or above `x` leaves the suffix behind. */
  lemma {:induction false} InsertSortedBeforeSuffix(a: seq<int>, b: seq<int>, x: int)
    requires b == [] || x <= b[0]
    ensures InsertSorted(a + b, x) == InsertSorted(a, x) + b
  {
    if a == [] {
      assert a + b == b;
    } else {
      assert (a + b)[0] == a[0] && (a + b)[1..] == a[1..] + b;
      InsertSortedBeforeSuffix(a[1..], b, x);
    }
  }

  /** Around a separator `k` below `x`, insertion goes into the part after `k`. */
  lemma InsertSortedAfter(a: seq<int>, k: int, b: seq<int>, x: int)
    requires (forall y :: y in a ==> y < k) && k < x
    ensures InsertSorted(a + [k] + b, x) == a + [k] + InsertSorted(b, x)
  {
    forall y | y in a + [k] ensures y < x {
      if y != k { assert y in a; }
    }
    InsertSortedPastPrefix(a + [k], b, x);
  }

  /** Around a separator `k` not below `x`, insertion goes into the part before `k`. */
  lemma InsertSortedBefore(a: seq<int>, k: int, b: seq<int>, x: int)
    requires x <= k
    ensures InsertSorted(a + [k] + b, x) == InsertSorted(a, x) + [k] + b
  {
    assert a + [k] + b == a + ([k] + b);
    InsertSortedBeforeSuffix(a, [k] + b, x);
  }

  /** The tail of a strictly sorted sequence is strictly sorted and above its head. */
  lemma SortedTail(s: seq<int>)
    requires StrictlySorted(s) && s != []
    ensures StrictlySorted(s[1..])
    ensures forall y :: y in s[1..] ==> s[0] < y
  {
    forall y | y in s[1..] ensures s[0] < y {
      var i :| 0 <= i < |s[1..]| && s[1..][i] == y;
      assert s[i + 1] == y;
    }
  }

  /** A key below every element of a strictly sorted sequence can go in front. */
  lemma SortedCons(x: int, r: seq<int>)
    requires StrictlySorted(r) && forall y :: y in r ==> x < y
    ensures StrictlySorted([x] + r)
  {
    var s := [x] + r;
    forall i, j | 0 <= i < j < |s| ensures s[i] < s[j] {
      assert s[j] == r[j - 1] && r[j - 1] in r;
      if i > 0 {
        assert s[i] == r[i - 1];
      }
    }
  }

  /** Inserting an absent key keeps a strictly sorted sequence strictly sorted. */
  lemma {:induction false} InsertSortedKeepsSorted(s: seq<int>, x: int)
    requires StrictlySorted(s) && x !in s
    ensures StrictlySorted(InsertSorted(s, x))
  {
    if s != [] && s[0] < x {
      SortedTail(s);
      InsertSortedKeepsSorted(s[1..], x);
      var r := InsertSorted(s[1..], x);
      forall y | y in r ensures s[0] < y {
        assert y in multiset(r);
        if y != x {
          assert y in multiset(s[1..]);
        }
      }
      SortedCons(s[0], r);
    } else if s != [] {
      SortedTail(s);
      assert s == [s[0]] + s[1..];
      forall y | y in s ensures x < y {
        if y != s[0] {
          assert y in s[1..];
        }
      }
      SortedCons(x, s);
    }
  }

  /** Removal only drops elements: everything left was in the original sequence. */
  lemma {:induction false} EraseSubset(s: seq<int>, x: int, y: int)
    requires y in Erase(s, x)
    ensures y in s
  {
    assert s == [s[0]] + s[1..];
    if s[0] != x && y != s[0] {
      EraseSubset(s[1..], x, y);
    }
  }

  /** Removing one element of a strictly sorted sequence keeps it strictly sorted. */
  lemma {:induction false} EraseKeepsSorted(s: seq<int>, x: int)
    requires StrictlySorted(s)
    ensures StrictlySorted(Erase(s, x))
  {
    if s != [] {
      SortedTail(s);
      if s[0] != x {
        EraseKeepsSorted(s[1..], x);
        var r := Erase(s[1..], x);
        forall y | y in r ensures s[0] < y {
          EraseSubset(s[1..], x, y);
        }
        SortedCons(s[0], r);
      }
    }
  }

  /** In a strictly sorted sequence a key occurs at most once, so removing it leaves none. */
  lemma {:induction false} EraseRemovesAll(s: seq<int>, x: int)
    requires StrictlySorted(s)
    ensures x !in Erase(s, x)
  {
    if s != [] {
      SortedTail(s);
      if s[0] != x {
        EraseRemovesAll(s[1..], x);
      }
    }
  }

  /** Removal skips a prefix that does not contain `x`. */
  lemma {:induction false} EraseAfterPrefix(a: seq<int>, b: seq<int>, x: int)
    requires x !in a
    ensures Erase(a + b, x) == a + Erase(b, x)
  {
    if a == [] {
      assert a + b == b;
    } else {
      var c := a + b;
      assert a == [a[0]] + a[1..];
      assert c[0] == a[0] && c[1..] == a[1..] + b;
      EraseAfterPrefix(a[1..], b, x);
      assert Erase(c, x) == [c[0]] + Erase(c[1..], x);
    }
  }

  /** Removal of an element the prefix contains leaves the suffix alone. */
  lemma {:induction false} EraseInPrefix(a: seq<int>, b: seq<int>, x: int)
    requires x in a
    ensures Erase(a + b, x) == Erase(a, x) + b
  {
    assert (a + b)[0] == a[0] && (a + b)[1..] == a[1..] + b;
    if a[0] != x {
      EraseInPrefix(a[1..], b, x);
    }
  }

  /** Around a separator `k` below `x`, removal happens in the part after `k`. */
  lemma EraseAfter(a: seq<int>, k: int, b: seq<int>, x: int)
    requires (forall y :: y in a ==> y < k) && k < x
    ensures Erase(a + [k] + b, x) == a + [k] + Erase(b, x)
  {
    assert x !in a + [k];
    EraseAfterPrefix(a + [k], b, x);
  }

  /** Removal of an element of the part before a separator leaves the rest alone. */
  lemma EraseBefore(a: seq<int>, k: int, b: seq<int>, x: int)
    requires x in a
    ensures Erase(a + [k] + b, x) == Erase(a, x) + [k] + b
  {
    assert a + [k] + b == a + ([k] + b);
    EraseInPrefix(a, [k] + b, x);
  }

  /** Removal of the separator itself joins the two parts. */
  lemma EraseAt(a: seq<int>, k: int, b: seq<int>)
    requires forall y :: y in a ==> y < k
    ensures Erase(a + [k] + b, k) == a + b
  {
    assert k !in a;
    assert a + [k] + b == a + ([k] + b);
    EraseAfterPrefix(a, [k] + b, k);
  }

  /** In a strictly sorted sequence the last element occurs once, so erasing it drops the last position. */
  lemma EraseLast(s: seq<int>)
    requires StrictlySorted(s) && s != []
    ensures Erase(s, s[|s| - 1]) == s[..|s| - 1]
  {
    var a, m := s[..|s| - 1], s[|s| - 1];
    assert s == a + [m];
    assert m !in a by {
      forall i | 0 <= i < |a| ensures a[i] != m { assert a[i] == s[i] < s[|s| - 1]; }
    }
    EraseAfterPrefix(a, [m], m);
    assert a + [] == a;
  }

  /** Removing a freshly inserted absent key gives back the original sequence. */
  lemma {:induction false} EraseInsertSorted(s: seq<int>, x: int)
    requires x !in s
    ensures Erase(InsertSorted(s, x), x) == s
  {
    var c := InsertSorted(s, x);
    if s != [] && s[0] < x {
      assert c == [s[0]] + InsertSorted(s[1..], x);
      assert c[0] == s[0] && c[1..] == InsertSorted(s[1..], x);
      EraseInsertSorted(s[1..], x);
      assert s == [s[0]] + s[1..];
    } else {
      assert c == [x] + s && c[0] == x && c[1..] == s;
    }
  }

  /** Erasing the last element of a strictly sorted prefix `a` below `k`, then putting
      it back in front of `b`, removes exactly `k` from `a + [k] + b`: the predecessor
      step of a deletion, seen on sequences. */
  lemma ErasePredecessor(a: seq<int>, k: int, b: seq<int>)
    requires StrictlySorted(a) && a != [] && forall y :: y in a ==> y < k
    ensures Erase(a, a[|a| - 1]) + [a[|a| - 1]] + b == Erase(a + [k] + b, k)
  {
    var m, p := a[|a| - 1], a[..|a| - 1];
    EraseLast(a);
    EraseAt(a, k, b);
    assert a == p + [m];
    assert a + b == p + [m] + b;
  }

  /** Insertion adds `x` and nothing else. */
  lemma InsertSortedMembers(s: seq<int>, x: int, y: int)
    ensures y in InsertSorted(s, x) <==> y == x || y in s
  {
    assert y in InsertSorted(s, x) <==> y in multiset(InsertSorted(s, x));
    assert y in s <==> y in multiset(s);
  }

  /** Erasing the second element of a strictly sorted sequence keeps the first and
      everything from the third on. */
  lemma EraseSecond(s: seq<int>)
    requires StrictlySorted(s) && |s| >= 2
    ensures Erase(s, s[1]) == [s[0]] + s[2..]
  {
    assert s == [s[0]] + [s[1]] + s[2..];
    assert s[0] < s[1];
    EraseAt([s[0]], s[1], s[2..]);
  }
}
