/** The source and exhaust lists: Python lists of coordinates that are
    toggled by "remove the first occurrence if present, append otherwise". */
module Lists {

  /** No element occurs twice. */
  predicate NoDup<T(==)>(xs: seq<T>) {
    forall i, j :: 0 <= i < j < |xs| ==> xs[i] != xs[j]
  }

  /** Position of the first occurrence of `x` (Python's `list.index`). */
  function IndexOf<T(==)>(xs: seq<T>, x: T): (i: nat)
    requires x in xs
    ensures i < |xs| && xs[i] == x && x !in xs[..i]
  {
    if xs[0] == x then 0 else 1 + IndexOf(xs[1..], x)
  }

  /** `xs` without its element at position `i` (Python's `list.pop(i)`). */
  function RemoveAt<T>(xs: seq<T>, i: nat): (r: seq<T>)
    requires i < |xs|
    ensures |r| == |xs| - 1
    ensures forall j :: 0 <= j < i ==> r[j] == xs[j]
    ensures forall j :: i <= j < |r| ==> r[j] == xs[j + 1]
    ensures multiset(r) == multiset(xs) - multiset{xs[i]}
  {
    assert xs == xs[..i] + [xs[i]] + xs[i + 1..];
    xs[..i] + xs[i + 1..]
  }

  /** Membership toggle: pop the first occurrence of `x` if there is one,
      append `x` otherwise. */
  function Toggle<T(==,!new)>(xs: seq<T>, x: T): (r: seq<T>)
    ensures x !in xs ==> r == xs + [x]
    ensures x in xs ==> exists i :: 0 <= i < |xs| && xs[i] == x && x !in xs[..i]
                                    && r == xs[..i] + xs[i + 1..]
    ensures x in xs ==> multiset(r) == multiset(xs) - multiset{x}
    ensures x !in xs ==> multiset(r) == multiset(xs) + multiset{x}
    ensures forall y :: y != x ==> (y in r <==> y in xs)
  {
    if x in xs then
      var i := IndexOf(xs, x);
      assert xs[..i] + xs[i + 1..] == RemoveAt(xs, i);
      RemoveAt(xs, i)
    else
      xs + [x]
  }

  /** A duplicate-free list stays duplicate-free under a toggle, and the
      toggled element's membership flips. */
  lemma ToggleKeepsNoDup<T(!new)>(xs: seq<T>, x: T)
    requires NoDup(xs)
    ensures NoDup(Toggle(xs, x))
    ensures x in Toggle(xs, x) <==> x !in xs
  {
    var r := Toggle(xs, x);
    if x in xs {
      var i := IndexOf(xs, x);
      assert r == RemoveAt(xs, i);
      assert multiset(xs)[x] == 1 by {
        MultisetCountNoDup(xs, i);
      }
      assert multiset(r)[x] == 0;
    } else {
      assert r == xs + [x];
    }
  }

  /** In a duplicate-free list an element present at `i` is counted once. */
  lemma {:induction false} MultisetCountNoDup<T>(xs: seq<T>, i: nat)
    requires NoDup(xs) && i < |xs|
    ensures multiset(xs)[xs[i]] == 1
  {
    if |xs| > 0 {
      assert xs == [xs[0]] + xs[1..];
      assert NoDup(xs[1..]);
      if i == 0 {
        assert xs[0] !in xs[1..];
        assert multiset(xs[1..])[xs[0]] == 0;
      } else {
        MultisetCountNoDup(xs[1..], i - 1);
        assert xs[1..][i - 1] == xs[i];
      }
    }
  }

  /** Toggling an absent element twice restores the list exactly. */
  lemma ToggleTwiceAbsent<T(!new)>(xs: seq<T>, x: T)
    requires x !in xs
    ensures Toggle(Toggle(xs, x), x) == xs
  {
    var ys := xs + [x];
    assert Toggle(xs, x) == ys;
    assert x !in ys[..|xs|] by {
      assert ys[..|xs|] == xs;
    }
    assert forall k :: 0 <= k < |xs| ==> ys[k] == xs[k];
    assert IndexOf(ys, x) == |xs|;
    assert ys[..|xs|] + ys[|xs| + 1..] == xs;
  }

  /** Toggling a present element twice (in a duplicate-free list) restores
      the membership of every element but moves `x` to the end. */
  lemma ToggleTwicePresent<T(!new)>(xs: seq<T>, x: T)
    requires NoDup(xs) && x in xs
    ensures Toggle(Toggle(xs, x), x) == RemoveAt(xs, IndexOf(xs, x)) + [x]
    ensures multiset(Toggle(Toggle(xs, x), x)) == multiset(xs)
    ensures forall y :: y in Toggle(Toggle(xs, x), x) <==> y in xs
  {
    ToggleKeepsNoDup(xs, x);
    var i := IndexOf(xs, x);
    assert Toggle(xs, x) == RemoveAt(xs, i);
    assert x !in Toggle(xs, x);
  }

  /** Witness that a double toggle of a present element does not in general
      restore the list itself: [1, 2] becomes [2, 1]. */
  lemma ToggleTwiceReorders()
    ensures Toggle(Toggle([1, 2], 1), 1) == [2, 1]
  {
    var xs := [1, 2];
    assert xs[0] == 1;
    assert IndexOf(xs, 1) == 0;
    assert xs[..0] + xs[1..] == [2];
    assert Toggle(xs, 1) == [2];
    assert 1 !in [2];
    assert Toggle([2], 1) == [2] + [1];
  }
}
