/**
 * Sequence utilities shared by the three scripts: order-preserving filtering
 * (Python list comprehensions with an `if`), element replacement and removal
 * (`str.replace`), sums, minima and maxima.
 */
module Seqs {
  import opened Wrappers

  /** The set of elements of a sequence (Python's `set(xs)`). */
  function Elems<T>(xs: seq<T>): set<T>
  {
    set x | x in xs
  }

  /** The elements of `xs` that satisfy `p`, in their original order. */
  function Filter<T>(xs: seq<T>, p: T -> bool): (r: seq<T>)
    ensures |r| <= |xs|
    ensures forall i :: 0 <= i < |r| ==> r[i] in xs && p(r[i])
  {
    if xs == [] then []
    else Filter(xs[..|xs| - 1], p) + (if p(xs[|xs| - 1]) then [xs[|xs| - 1]] else [])
  }

  /** Filtering keeps every element that satisfies `p`. */
  lemma {:induction false} FilterKeeps<T>(xs: seq<T>, p: T -> bool, i: nat)
    requires i < |xs| && p(xs[i])
    ensures xs[i] in Filter(xs, p)
  {
    if i < |xs| - 1 {
      FilterKeeps(xs[..|xs| - 1], p, i);
    }
  }

  /** Filtering a sequence none of whose elements satisfies `p` leaves nothing. */
  lemma {:induction false} FilterNone<T>(xs: seq<T>, p: T -> bool)
    requires forall i :: 0 <= i < |xs| ==> !p(xs[i])
    ensures Filter(xs, p) == []
  {
    if xs != [] {
      FilterNone(xs[..|xs| - 1], p);
    }
  }

  /** Filtering distributes over concatenation. */
  lemma {:induction false} FilterAppend<T>(a: seq<T>, b: seq<T>, p: T -> bool)
    ensures Filter(a + b, p) == Filter(a, p) + Filter(b, p)
    decreases |b|
  {
    if b != [] {
      var b' := b[..|b| - 1];
      assert (a + b)[..|a + b| - 1] == a + b';
      FilterAppend(a, b', p);
    } else {
      assert a + b == a;
    }
  }

  /** A kept element at position `i` lands at position `|Filter(xs[..i], p)|` of the filtered sequence. */
  lemma FilterAt<T>(xs: seq<T>, p: T -> bool, i: nat)
    requires i < |xs| && p(xs[i])
    ensures |Filter(xs[..i], p)| < |Filter(xs, p)|
    ensures Filter(xs, p)[|Filter(xs[..i], p)|] == xs[i]
  {
    var a, b := xs[..i + 1], xs[i + 1..];
    assert xs == a + b;
    FilterAppend(a, b, p);
    assert a[..i] == xs[..i];
  }

  /** Kept elements keep their order: a later prefix has more kept elements than one ending before a kept element. */
  lemma FilterPrefixGrows<T>(xs: seq<T>, p: T -> bool, i: nat, j: nat)
    requires i < j <= |xs| && p(xs[i])
    ensures |Filter(xs[..i], p)| < |Filter(xs[..j], p)|
  {
    var ys := xs[..j];
    assert ys[..i] == xs[..i];
    FilterAt(ys, p, i);
  }

  predicate Ascending(xs: seq<int>)
  {
    forall i, j :: 0 <= i < j < |xs| ==> xs[i] < xs[j]
  }

  /** Appending an element above all others keeps a sequence strictly ascending. */
  lemma AscendingSnoc(xs: seq<int>, x: int)
    requires Ascending(xs)
    requires forall i :: 0 <= i < |xs| ==> xs[i] < x
    ensures Ascending(xs + [x])
  {
  }

  /** A value below every element of an ascending sequence can lead it. */
  lemma AscendingCons(x: int, xs: seq<int>)
    requires Ascending(xs)
    requires forall i :: 0 <= i < |xs| ==> x < xs[i]
    ensures Ascending([x] + xs)
  {
  }

  /** Dropping the last element of a strictly ascending sequence keeps it ascending, and that element does not occur earlier. */
  lemma AscendingInit(xs: seq<int>)
    requires Ascending(xs) && xs != []
    ensures Ascending(xs[..|xs| - 1])
    ensures xs[|xs| - 1] !in xs[..|xs| - 1]
  {
    var init := xs[..|xs| - 1];
    forall j | 0 <= j < |init| ensures init[j] != xs[|xs| - 1] {
      assert xs[j] < xs[|xs| - 1];
    }
  }

  /** An element of a strictly ascending sequence occurs in it exactly once. */
  lemma {:induction false} AscendingOccursOnce(xs: seq<int>, x: int)
    requires Ascending(xs) && x in xs
    ensures multiset(xs)[x] == 1
  {
    var init, last := xs[..|xs| - 1], xs[|xs| - 1];
    assert xs == init + [last];
    if last == x {
      assert x !in init by {
        forall j | 0 <= j < |init| ensures init[j] != x {
          assert xs[j] < xs[|xs| - 1];
        }
      }
    } else {
      AscendingOccursOnce(init, x);
    }
  }

  /** Every occurrence of `x` deleted (`str.replace(x, "")` for one character), order kept. */
  function RemoveAll<T(==)>(xs: seq<T>, x: T): (r: seq<T>)
    ensures |r| <= |xs|
    ensures forall i :: 0 <= i < |r| ==> r[i] in xs && r[i] != x
  {
    if xs == [] then []
    else RemoveAll(xs[..|xs| - 1], x) + (if xs[|xs| - 1] != x then [xs[|xs| - 1]] else [])
  }

  /** Deletion keeps every element other than `x`. */
  lemma {:induction false} RemoveAllKeeps<T>(xs: seq<T>, x: T, i: nat)
    requires i < |xs| && xs[i] != x
    ensures xs[i] in RemoveAll(xs, x)
  {
    if i < |xs| - 1 {
      RemoveAllKeeps(xs[..|xs| - 1], x, i);
    }
  }

  /** Deleting every occurrence of `x` shortens `xs` by the number of occurrences of `x`. */
  lemma {:induction false} RemoveAllCount<T>(xs: seq<T>, x: T)
    ensures |RemoveAll(xs, x)| == |xs| - multiset(xs)[x]
    ensures forall y :: y != x ==> multiset(RemoveAll(xs, x))[y] == multiset(xs)[y]
  {
    if xs != [] {
      var init, last := xs[..|xs| - 1], xs[|xs| - 1];
      RemoveAllCount(init, x);
      assert xs == init + [last];
      assert multiset(xs) == multiset(init) + multiset{last};
      var tail := if last != x then [last] else [];
      assert RemoveAll(xs, x) == RemoveAll(init, x) + tail;
      assert multiset(RemoveAll(xs, x)) == multiset(RemoveAll(init, x)) + multiset(tail);
    }
  }

  /** Deleting an element that does not occur changes nothing. */
  lemma {:induction false} RemoveAllAbsent<T>(xs: seq<T>, x: T)
    requires x !in xs
    ensures RemoveAll(xs, x) == xs
  {
    if xs != [] {
      RemoveAllAbsent(xs[..|xs| - 1], x);
    }
  }

  /** Deletion distributes over concatenation. */
  lemma {:induction false} RemoveAllAppend<T>(a: seq<T>, b: seq<T>, x: T)
    ensures RemoveAll(a + b, x) == RemoveAll(a, x) + RemoveAll(b, x)
    decreases |b|
  {
    if b != [] {
      var b' := b[..|b| - 1];
      assert (a + b)[..|a + b| - 1] == a + b';
      RemoveAllAppend(a, b', x);
    } else {
      assert a + b == a;
    }
  }

  /** A leading occurrence of `x` is deleted like any other. */
  lemma RemoveAllLeading<T>(x: T, xs: seq<T>)
    ensures RemoveAll([x] + xs, x) == RemoveAll(xs, x)
  {
    RemoveAllAppend([x], xs, x);
    assert [x][..0] == [];
  }

  /** Deleting from a strictly ascending sequence keeps it strictly ascending. */
  lemma {:induction false} RemoveAllAscending(xs: seq<int>, x: int)
    requires Ascending(xs)
    ensures Ascending(RemoveAll(xs, x))
  {
    if xs != [] {
      var init := xs[..|xs| - 1];
      RemoveAllAscending(init, x);
      var r0 := RemoveAll(init, x);
      var last := xs[|xs| - 1];
      forall i | 0 <= i < |r0| ensures r0[i] < last {
        assert r0[i] in init;
        var j :| 0 <= j < |init| && init[j] == r0[i];
        assert xs[j] == init[j];
      }
      var r := RemoveAll(xs, x);
      if last != x {
        assert r == r0 + [last];
        forall i, j | 0 <= i < j < |r| ensures r[i] < r[j] {
          if j == |r0| {
            assert r[i] == r0[i];
          } else {
            assert r[i] == r0[i] && r[j] == r0[j];
          }
        }
      } else {
        assert r == r0;
      }
    }
  }

  /** Every occurrence of `a` replaced by `b` (`str.replace(a, b)` for single characters). */
  function Replace<T(==)>(xs: seq<T>, a: T, b: T): (r: seq<T>)
    ensures |r| == |xs|
    ensures forall i :: 0 <= i < |xs| ==> r[i] == if xs[i] == a then b else xs[i]
  {
    seq(|xs|, i requires 0 <= i < |xs| => if xs[i] == a then b else xs[i])
  }

  /** Replacing or deleting an element `p` rejects leaves the `p`-filtered view unchanged. */
  lemma {:induction false} FilterReplace<T>(xs: seq<T>, a: T, b: T, p: T -> bool)
    requires !p(a) && !p(b)
    ensures Filter(Replace(xs, a, b), p) == Filter(xs, p)
  {
    if xs != [] {
      var init := xs[..|xs| - 1];
      FilterReplace(init, a, b, p);
      assert Replace(xs, a, b)[..|xs| - 1] == Replace(init, a, b);
    }
  }

  lemma {:induction false} FilterRemoveAll<T>(xs: seq<T>, a: T, p: T -> bool)
    requires !p(a)
    ensures Filter(RemoveAll(xs, a), p) == Filter(xs, p)
  {
    if xs != [] {
      var init := xs[..|xs| - 1];
      FilterRemoveAll(init, a, p);
      var last := xs[|xs| - 1];
      FilterAppend(RemoveAll(init, a), if last != a then [last] else [], p);
      FilterAppend(init, [last], p);
    }
  }

  /** Python's `sum(xs)`. */
  function Sum(xs: seq<int>): int
  {
    if xs == [] then 0 else Sum(xs[..|xs| - 1]) + xs[|xs| - 1]
  }

  /** A sum of `|xs|` values between `lo` and `hi` lies between `|xs| * lo` and `|xs| * hi`. */
  lemma {:induction false} SumBetween(xs: seq<int>, lo: int, hi: int)
    requires forall i :: 0 <= i < |xs| ==> lo <= xs[i] <= hi
    ensures |xs| * lo <= Sum(xs) <= |xs| * hi
  {
    if xs != [] {
      var init := xs[..|xs| - 1];
      SumBetween(init, lo, hi);
      assert |xs| * lo == |init| * lo + lo;
      assert |xs| * hi == |init| * hi + hi;
    }
  }

  /** Python's `min(xs)`. */
  function Min(xs: seq<int>): (m: int)
    requires xs != []
    ensures m in xs
    ensures forall i :: 0 <= i < |xs| ==> m <= xs[i]
  {
    if |xs| == 1 then xs[0]
    else
      var rest := Min(xs[..|xs| - 1]);
      if xs[|xs| - 1] < rest then xs[|xs| - 1] else rest
  }

  /** Python's `max(xs)`. */
  function Max(xs: seq<int>): (m: int)
    requires xs != []
    ensures m in xs
    ensures forall i :: 0 <= i < |xs| ==> xs[i] <= m
  {
    if |xs| == 1 then xs[0]
    else
      var rest := Max(xs[..|xs| - 1]);
      if xs[|xs| - 1] > rest then xs[|xs| - 1] else rest
  }

  lemma ElemsSnoc<T>(xs: seq<T>, x: T)
    ensures Elems(xs + [x]) == Elems(xs) + {x}
  {
  }

  /** The elements of a non-empty sequence: those of its initial part and its last one. */
  lemma ElemsLast<T>(xs: seq<T>)
    requires xs != []
    ensures Elems(xs) == Elems(xs[..|xs| - 1]) + {xs[|xs| - 1]}
  {
    assert xs == xs[..|xs| - 1] + [xs[|xs| - 1]];
    ElemsSnoc(xs[..|xs| - 1], xs[|xs| - 1]);
  }

  /** A sequence has at least as many positions as distinct elements. */
  lemma {:induction false} ElemsCard<T>(xs: seq<T>)
    ensures |Elems(xs)| <= |xs|
  {
    if xs != [] {
      var init := xs[..|xs| - 1];
      ElemsCard(init);
      assert Elems(xs) == Elems(init) + {xs[|xs| - 1]};
    }
  }

  /** The integers 0 .. n-1. */
  function Range(n: nat): (s: set<int>)
    ensures forall j :: j in s <==> 0 <= j < n
    ensures |s| == n
  {
    if n == 0 then {} else Range(n - 1) + {n - 1}
  }

  /** A subset is no larger than its superset. */
  lemma SubsetCard<T>(a: set<T>, b: set<T>)
    requires a <= b
    ensures |a| <= |b|
  {
    assert b == a + (b - a);
  }

  /** Pigeonhole: a sequence that contains every index below `n` has at least `n` positions. */
  lemma CoversRange(xs: seq<int>, n: nat)
    requires forall j :: 0 <= j < n ==> j in xs
    ensures |xs| >= n
  {
    SubsetCard(Range(n), Elems(xs));
    ElemsCard(xs);
  }

  /** The values of the `Some` entries of `xs`, in order. */
  function Somes<T>(xs: seq<Option<T>>): (r: seq<T>)
    ensures |r| <= |xs|
  {
    if xs == [] then []
    else Somes(xs[..|xs| - 1]) + (match xs[|xs| - 1] case Some(v) => [v] case None => [])
  }

  /** The values of a prefix grow one entry at a time. */
  lemma SomesPrefix<T>(xs: seq<Option<T>>, i: nat)
    requires i < |xs|
    ensures Somes(xs[..i + 1]) == Somes(xs[..i]) + (match xs[i] case Some(v) => [v] case None => [])
  {
    assert xs[..i + 1][..i] == xs[..i];
  }

  /** Every value comes from some entry. */
  lemma {:induction false} SomesSound<T>(xs: seq<Option<T>>, q: nat)
    requires q < |Somes(xs)|
    ensures exists j :: 0 <= j < |xs| && xs[j] == Some(Somes(xs)[q])
  {
    var init := xs[..|xs| - 1];
    if q < |Somes(init)| {
      SomesSound(init, q);
      var j :| 0 <= j < |init| && init[j] == Some(Somes(init)[q]);
      assert xs[j] == init[j];
    } else {
      assert xs[|xs| - 1] == Some(Somes(xs)[q]);
    }
  }

  /** Every `Some` entry contributes its value. */
  lemma {:induction false} SomesComplete<T>(xs: seq<Option<T>>, j: nat)
    requires j < |xs| && xs[j].Some?
    ensures exists q :: 0 <= q < |Somes(xs)| && Somes(xs)[q] == xs[j].value
  {
    var init := xs[..|xs| - 1];
    if j < |xs| - 1 {
      SomesComplete(init, j);
      var q :| 0 <= q < |Somes(init)| && Somes(init)[q] == init[j].value;
      assert Somes(xs)[q] == Somes(init)[q];
    } else {
      assert Somes(xs)[|Somes(init)|] == xs[j].value;
    }
  }

  /** There are as many values as `Some` entries. */
  lemma {:induction false} SomesCount<T>(xs: seq<Option<T>>)
    ensures |Somes(xs)| == |set j: nat | j < |xs| && xs[j].Some?|
  {
    if xs != [] {
      var init := xs[..|xs| - 1];
      SomesCount(init);
      var prev := set j: nat | j < |init| && init[j].Some?;
      var last := if xs[|xs| - 1].Some? then {|xs| - 1} else {};
      assert (set j: nat | j < |xs| && xs[j].Some?) == prev + last;
    }
  }
}
