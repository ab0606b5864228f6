/** Repeated insertion and example scenarios of the public operations, stated for all keys. */
module RBScenarios {
  import opened RBNodes
  import opened SortedSeqs
  import opened RBTrees

  /** `insert` of each key in turn, starting from `t`. */
  function InsertAll(t: Tree, xs: seq<Key>): (r: Tree)
    ensures xs != [] ==> r.Node? && !IsRed(r)
    decreases |xs|
  {
    if xs == [] then t else InsertAll(TreeInsert(t, xs[0]), xs[1..])
  }

  /** Each key in turn placed at its sorted position. */
  function InsertSortedAll(s: seq<Key>, xs: seq<Key>): (r: seq<Key>)
    ensures multiset(r) == multiset(s) + multiset(xs)
    decreases |xs|
  {
    if xs == [] then s
    else
      assert xs == [xs[0]] + xs[1..];
      InsertSortedAll(InsertSorted(s, xs[0]), xs[1..])
  }

  /** Inserting distinct absent keys one after another into a valid ordered tree
      gives a valid ordered tree that enumerates the keys at their sorted positions. */
  lemma {:induction false} InsertAllValid(t: Tree, xs: seq<Key>)
    requires Ordered(t) && RedBlack(t)
    requires forall i :: 0 <= i < |xs| ==> xs[i] !in InOrder(t)
    requires forall i, j :: 0 <= i < j < |xs| ==> xs[i] != xs[j]
    ensures Ordered(InsertAll(t, xs)) && RedBlack(InsertAll(t, xs))
    ensures InOrder(InsertAll(t, xs)) == InsertSortedAll(InOrder(t), xs)
    decreases |xs|
  {
    if xs != [] {
      var t' := TreeInsert(t, xs[0]);
      TreeInsertValid(t, xs[0]);
      forall i | 0 <= i < |xs[1..]| ensures xs[1..][i] !in InOrder(t') {
        assert xs[1..][i] == xs[i + 1] != xs[0];
        InsertSortedMembers(InOrder(t), xs[0], xs[i + 1]);
      }
      InsertAllValid(t', xs[1..]);
    }
  }

  /** Keys that arrive in ascending order, each above everything already present,
      are appended. */
  lemma {:induction false} InsertSortedAllAscending(s: seq<Key>, xs: seq<Key>)
    requires StrictlySorted(s + xs)
    ensures InsertSortedAll(s, xs) == s + xs
    decreases |xs|
  {
    if xs != [] {
      var x := xs[0];
      forall y | y in s ensures y < x {
        var i :| 0 <= i < |s| && s[i] == y;
        assert (s + xs)[i] == y && (s + xs)[|s|] == x;
      }
      InsertSortedPastPrefix(s, [], x);
      assert s + [] == s && s + xs == (s + [x]) + xs[1..];
      InsertSortedAllAscending(s + [x], xs[1..]);
    }
  }

  /** Keys inserted in ascending order into the empty tree (1 to 7, say) are
      enumerated in that order, and the tree has a black root, no red-red edge and
      uniform black height. */
  lemma AscendingInserts(xs: seq<Key>)
    requires StrictlySorted(xs)
    ensures InOrder(InsertAll(Nil, xs)) == xs
    ensures RedBlack(InsertAll(Nil, xs)) && Ordered(InsertAll(Nil, xs))
  {
    InsertAllValid(Nil, xs);
    assert [] + xs == xs;
    InsertSortedAllAscending([], xs);
  }

  /** `remove` of the second smallest key of an ordered tree (20 in the tree built
      from 10 to 80 in steps of 10 by `AscendingInserts`, say): it is no longer found,
      the third smallest still is, and the enumeration skips exactly the removed key,
      whether or not the deficit is repaired. */
  lemma RemoveSecond(t: Tree, fixDeficit: bool)
    requires Ordered(t) && |InOrder(t)| >= 3
    ensures var xs, r := InOrder(t), TreeRemove(t, InOrder(t)[1], fixDeficit);
      !FindEntry(r, xs[1]) && FindEntry(r, xs[2]) && InOrder(r) == [xs[0]] + xs[2..]
  {
    var xs := InOrder(t);
    var x1, x2 := xs[1], xs[2];
    var r := TreeRemove(t, x1, fixDeficit);
    assert x1 in xs;
    TreeRemovePresent(t, x1, fixDeficit);
    EraseSecond(xs);
    var ys := InOrder(r);
    assert ys == [xs[0]] + xs[2..];
    assert ys[1] == x2;
    assert x2 in ys;
    FindEntryCorrect(r, x2);
  }

  /** `remove` on an empty tree changes nothing. */
  lemma RemoveFromEmpty(x: Key, fixDeficit: bool)
    ensures TreeRemove(Nil, x, fixDeficit) == Nil
  {
  }
}
