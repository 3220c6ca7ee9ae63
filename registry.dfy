/**
 * The list operations the connection registries of `server.cpp`,
 * `network.cpp` and `Network.h` rely on: `std::list::remove`, which erases
 * every element equal to its argument and keeps the others in order, and
 * the filter a broadcast over `weak_ptr`s applies when it skips expired
 * entries.
 */
module Registry {

  /** No element occurs twice. */
  predicate NoDuplicates<T(==)>(xs: seq<T>) {
    forall i, j :: 0 <= i < j < |xs| ==> xs[i] != xs[j]
  }

  /** `std::list::remove(c)`: every element equal to `c` is erased, the rest keep their order. */
  function Without<T(==)>(xs: seq<T>, c: T): (r: seq<T>)
    ensures forall i :: 0 <= i < |r| ==> r[i] in xs && r[i] != c
    ensures forall i :: 0 <= i < |xs| && xs[i] != c ==> xs[i] in r
    ensures |r| <= |xs|
  {
    if xs == [] then []
    else if xs[0] == c then Without(xs[1..], c)
    else [xs[0]] + Without(xs[1..], c)
  }

  /** The entries of `xs` that `keep` admits, in order: the broadcast's skipping of expired `weak_ptr`s. */
  function Filter<T(==)>(xs: seq<T>, keep: set<T>): (r: seq<T>)
    ensures |r| <= |xs|
  {
    if xs == [] then []
    else if xs[0] in keep then [xs[0]] + Filter(xs[1..], keep)
    else Filter(xs[1..], keep)
  }

  /** Removal works element by element and keeps the order: the survivors of a prefix come before those of the rest. */
  lemma {:induction false} WithoutAppend<T>(xs: seq<T>, ys: seq<T>, c: T)
    ensures Without(xs + ys, c) == Without(xs, c) + Without(ys, c)
  {
    if xs == [] {
      assert xs + ys == ys;
    } else {
      assert (xs + ys)[1..] == xs[1..] + ys;
      WithoutAppend(xs[1..], ys, c);
    }
  }

  /** Removal shortens the list by exactly the number of occurrences of `c`. */
  lemma {:induction false} WithoutLength<T>(xs: seq<T>, c: T)
    ensures |Without(xs, c)| == |xs| - multiset(xs)[c]
  {
    if xs != [] {
      WithoutLength(xs[1..], c);
      assert xs == [xs[0]] + xs[1..];
      assert multiset(xs)[c] == multiset{xs[0]}[c] + multiset(xs[1..])[c];
    }
  }

  /** Removing an element that is absent changes nothing. */
  lemma {:induction false} WithoutAbsent<T>(xs: seq<T>, c: T)
    requires c !in xs
    ensures Without(xs, c) == xs
  {
    if xs != [] {
      assert c !in xs[1..];
      WithoutAbsent(xs[1..], c);
    }
  }

  /** Removing twice is removing once: a second `on_disconnect` for the same connection is harmless. */
  lemma WithoutIdempotent<T>(xs: seq<T>, c: T)
    ensures Without(Without(xs, c), c) == Without(xs, c)
  {
    WithoutAbsent(Without(xs, c), c);
  }

  /** Removal erases exactly the occurrences of `c` and keeps the count of every other element. */
  lemma {:induction false} WithoutCounts<T>(xs: seq<T>, c: T)
    ensures multiset(Without(xs, c))[c] == 0
    ensures forall x :: x != c ==> multiset(Without(xs, c))[x] == multiset(xs)[x]
  {
    if xs != [] {
      var r := Without(xs[1..], c);
      WithoutCounts(xs[1..], c);
      assert xs == [xs[0]] + xs[1..];
      assert multiset(xs) == multiset{xs[0]} + multiset(xs[1..]);
      if xs[0] == c {
        assert Without(xs, c) == r;
      } else {
        assert Without(xs, c) == [xs[0]] + r;
        assert multiset(Without(xs, c)) == multiset{xs[0]} + multiset(r);
      }
    }
  }

  /** Removal keeps a list free of duplicates. */
  lemma {:induction false} WithoutNoDuplicates<T>(xs: seq<T>, c: T)
    requires NoDuplicates(xs)
    ensures NoDuplicates(Without(xs, c))
  {
    if xs != [] {
      assert NoDuplicates(xs[1..]) by {
        forall i, j | 0 <= i < j < |xs[1..]|
          ensures xs[1..][i] != xs[1..][j]
        {
          assert xs[1..][i] == xs[i + 1] && xs[1..][j] == xs[j + 1];
        }
      }
      WithoutNoDuplicates(xs[1..], c);
      if xs[0] != c {
        assert xs[0] !in xs[1..];
        ConsNoDuplicates(xs[0], Without(xs[1..], c));
      }
    }
  }

  /** Putting a new element in front of a list without duplicates keeps it without duplicates. */
  lemma ConsNoDuplicates<T>(x: T, xs: seq<T>)
    requires NoDuplicates(xs) && x !in xs
    ensures NoDuplicates([x] + xs)
  {
    var ys := [x] + xs;
    forall i, j | 0 <= i < j < |ys|
      ensures ys[i] != ys[j]
    {
      assert ys[j] == xs[j - 1];
      if i > 0 {
        assert ys[i] == xs[i - 1];
      }
    }
  }

  /** Appending an element not yet present keeps a list without duplicates: `push_back` of a fresh connection. */
  lemma SnocNoDuplicates<T>(xs: seq<T>, x: T)
    requires NoDuplicates(xs) && x !in xs
    ensures NoDuplicates(xs + [x])
  {
    var ys := xs + [x];
    forall i, j | 0 <= i < j < |ys|
      ensures ys[i] != ys[j]
    {
      assert ys[i] == xs[i];
    }
  }

  /** In a list without duplicates every member occurs exactly once, so a walk over the list reaches it exactly once. */
  lemma {:induction false} NoDuplicatesCount<T>(xs: seq<T>, x: T)
    requires NoDuplicates(xs)
    ensures multiset(xs)[x] == if x in xs then 1 else 0
  {
    if xs != [] {
      assert NoDuplicates(xs[1..]) by {
        forall i, j | 0 <= i < j < |xs[1..]|
          ensures xs[1..][i] != xs[1..][j]
        {
          assert xs[1..][i] == xs[i + 1] && xs[1..][j] == xs[j + 1];
        }
      }
      NoDuplicatesCount(xs[1..], x);
      assert xs == [xs[0]] + xs[1..];
      assert multiset(xs) == multiset{xs[0]} + multiset(xs[1..]);
      assert xs[0] !in xs[1..];
    }
  }

  /** The filter keeps exactly the admitted entries: every survivor is an admitted entry, and every admitted entry survives. */
  lemma {:induction false} FilterMembers<T>(xs: seq<T>, keep: set<T>)
    ensures forall i :: 0 <= i < |Filter(xs, keep)| ==> Filter(xs, keep)[i] in xs && Filter(xs, keep)[i] in keep
    ensures forall i :: 0 <= i < |xs| && xs[i] in keep ==> xs[i] in Filter(xs, keep)
  {
    if xs != [] {
      FilterMembers(xs[1..], keep);
      var r := Filter(xs[1..], keep);
      forall i | 0 <= i < |xs| && xs[i] in keep
        ensures xs[i] in Filter(xs, keep)
      {
        if i > 0 {
          assert xs[i] == xs[1..][i - 1];
        }
      }
    }
  }

  /** The filter works element by element: it distributes over concatenation. */
  lemma {:induction false} FilterAppend<T>(xs: seq<T>, ys: seq<T>, keep: set<T>)
    ensures Filter(xs + ys, keep) == Filter(xs, keep) + Filter(ys, keep)
  {
    if xs == [] {
      assert xs + ys == ys;
    } else {
      assert (xs + ys)[1..] == xs[1..] + ys;
      FilterAppend(xs[1..], ys, keep);
    }
  }

  /** When every entry is admitted the filter keeps the whole list. */
  lemma {:induction false} FilterAll<T>(xs: seq<T>, keep: set<T>)
    requires forall i :: 0 <= i < |xs| ==> xs[i] in keep
    ensures Filter(xs, keep) == xs
  {
    if xs != [] {
      FilterAll(xs[1..], keep);
    }
  }

  /** Concatenation is associative (stated once, for any element type, to keep the proofs that use it small). */
  lemma SeqAssoc<T>(x: seq<T>, y: seq<T>, z: seq<T>)
    ensures x + (y + z) == (x + y) + z
  {
  }

  /** A log extended by one more entry of a list walked in order (stated for any element type, to keep the proofs that use it small). */
  lemma LogStep<T>(log: seq<T>, start: seq<T>, xs: seq<T>, i: nat)
    requires i < |xs| && log == start + xs[..i]
    ensures log + [xs[i]] == start + xs[..i + 1]
  {
    assert xs[..i + 1] == xs[..i] + [xs[i]];
  }
}
