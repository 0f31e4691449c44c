/** Facts about sequences used as map-iteration orders. */
module Collections {
  function Elements<T>(s: seq<T>): set<T>
  {
    set x | x in s
  }

  predicate Distinct<T(==)>(s: seq<T>)
  {
    forall i, j | 0 <= i < j < |s| :: s[i] != s[j]
  }

  /** Appending an element not yet present keeps a sequence free of repetitions. */
  lemma DistinctSnoc<T>(s: seq<T>, x: T)
    requires Distinct(s) && x !in Elements(s)
    ensures Distinct(s + [x]) && Elements(s + [x]) == Elements(s) + {x}
  {
  }

  /** The sequences of `ss` one after the other. */
  function Flatten<T>(ss: seq<seq<T>>): seq<T>
  {
    if ss == [] then [] else Flatten(ss[..|ss| - 1]) + ss[|ss| - 1]
  }

  lemma FlattenSnoc<T>(ss: seq<seq<T>>, s: seq<T>)
    ensures Flatten(ss + [s]) == Flatten(ss) + s
  {
    assert (ss + [s])[..|ss|] == ss;
  }

  /** The elements of `xs` that are in `keep`, in order. */
  function Filter<T(==)>(xs: seq<T>, keep: set<T>): seq<T>
  {
    if xs == [] then []
    else Filter(xs[..|xs| - 1], keep) + (if xs[|xs| - 1] in keep then [xs[|xs| - 1]] else [])
  }

  /** The last element of a sequence without repetitions is not among the others. */
  lemma LastApart<T>(xs: seq<T>)
    requires Distinct(xs) && xs != []
    ensures Distinct(xs[..|xs| - 1])
    ensures Elements(xs) == Elements(xs[..|xs| - 1]) + {xs[|xs| - 1]}
    ensures xs[|xs| - 1] !in Elements(xs[..|xs| - 1])
  {
    assert xs == xs[..|xs| - 1] + [xs[|xs| - 1]];
  }

  /** Filtering a sequence without repetitions keeps one element per member of `keep` it holds. */
  lemma {:induction false} FilterCount<T>(xs: seq<T>, keep: set<T>)
    requires Distinct(xs)
    ensures |Filter(xs, keep)| == |keep * Elements(xs)|
  {
    if xs == [] {
      assert keep * Elements(xs) == {};
    } else {
      var prefix := xs[..|xs| - 1];
      var x := xs[|xs| - 1];
      LastApart(xs);
      FilterCount(prefix, keep);
      KeepOneMore(keep, Elements(prefix), x);
    }
  }

  /** Intersecting with one more element adds it exactly when it is kept and new. */
  lemma KeepOneMore<T>(keep: set<T>, elems: set<T>, x: T)
    requires x !in elems
    ensures |keep * (elems + {x})| == |keep * elems| + (if x in keep then 1 else 0)
  {
    if x in keep {
      assert keep * (elems + {x}) == keep * elems + {x};
    } else {
      assert keep * (elems + {x}) == keep * elems;
    }
  }

  /** A sequence without repetitions has as many elements as its set of elements. */
  lemma {:induction false} DistinctCard<T>(s: seq<T>)
    requires Distinct(s)
    ensures |Elements(s)| == |s|
  {
    if s != [] {
      var p := s[..|s| - 1];
      assert Distinct(p);
      DistinctCard(p);
      assert Elements(s) == Elements(p) + {s[|s| - 1]};
    }
  }

  /** An element found once in each of the sequences is found once per sequence in their concatenation. */
  lemma {:induction false} FlattenOnce<T>(ss: seq<seq<T>>, x: T)
    requires forall k | 0 <= k < |ss| :: multiset(ss[k])[x] == 1
    ensures multiset(Flatten(ss))[x] == |ss|
  {
    if ss != [] {
      var n := |ss| - 1;
      FlattenOnce(ss[..n], x);
      assert multiset(Flatten(ss)) == multiset(Flatten(ss[..n])) + multiset(ss[n]);
    }
  }
}
