/**
 * The set-level meaning shared by both set classes: what a "set or iterable"
 * argument contributes, and what the variadic bulk updates compute when they
 * apply their arguments one after another.
 */
module SetAlgebra {

  /** The members a finite source produces, with duplicates collapsed. */
  function Elems<T>(s: seq<T>): set<T>
  {
    set x | x in s
  }

  /** No value occurs twice. */
  ghost predicate Distinct<T>(s: seq<T>)
  {
    forall i, j :: 0 <= i < j < |s| ==> s[i] != s[j]
  }

  lemma ElemsSnoc<T>(s: seq<T>, x: T)
    ensures Elems(s + [x]) == Elems(s) + {x}
  {
    assert forall y :: y in s + [x] <==> y in s || y == x;
  }

  lemma ElemsPrefix<T>(s: seq<T>, i: nat)
    requires i < |s|
    ensures Elems(s[..i + 1]) == Elems(s[..i]) + {s[i]}
  {
    assert s[..i + 1] == s[..i] + [s[i]];
    ElemsSnoc(s[..i], s[i]);
  }

  /** `update(s1, ..., sn)`: every source in turn is added to `m`. */
  function UnionAll<T>(m: set<T>, sources: seq<seq<T>>): set<T>
  {
    if sources == [] then m
    else UnionAll(m, sources[..|sources| - 1]) + Elems(sources[|sources| - 1])
  }

  /** `differenceUpdate(s1, ..., sn)`: every source in turn is taken away from `m`. */
  function DifferenceAll<T>(m: set<T>, sources: seq<seq<T>>): set<T>
  {
    if sources == [] then m
    else DifferenceAll(m, sources[..|sources| - 1]) - Elems(sources[|sources| - 1])
  }

  /** `intersectionUpdate(s1, ..., sn)`: `m` is cut down by every source in turn. */
  function IntersectionAll<T>(m: set<T>, sources: seq<seq<T>>): set<T>
  {
    if sources == [] then m
    else IntersectionAll(m, sources[..|sources| - 1]) * Elems(sources[|sources| - 1])
  }

  /** `(other - this) ∪ (this - other)`, the construction both classes use. */
  function SymmetricDifference<T>(a: set<T>, b: set<T>): set<T>
  {
    (b - a) + (a - b)
  }

  /** Nothing is left of `a` after taking `b` away exactly when `a` lies inside `b`. */
  lemma EmptyDifference<T>(a: set<T>, b: set<T>)
    ensures a - b == {} <==> a <= b
  {
    if a - b == {} {
      forall x | x in a ensures x in b {
        assert x !in a - b;
      }
    }
  }

  /** With a single source, each fold is the plain set operation. */
  lemma SingleSource<T>(m: set<T>, s: seq<T>)
    ensures UnionAll(m, [s]) == m + Elems(s)
    ensures DifferenceAll(m, [s]) == m - Elems(s)
    ensures IntersectionAll(m, [s]) == m * Elems(s)
  {
    assert [s][..0] == [];
  }

  /** Unfolding each fold one step: the first `j + 1` sources are the first `j` and then source `j`. */
  lemma PrefixStep<T>(m: set<T>, sources: seq<seq<T>>, j: nat)
    requires j < |sources|
    ensures UnionAll(m, sources[..j + 1]) == UnionAll(m, sources[..j]) + Elems(sources[j])
    ensures DifferenceAll(m, sources[..j + 1]) == DifferenceAll(m, sources[..j]) - Elems(sources[j])
    ensures IntersectionAll(m, sources[..j + 1]) == IntersectionAll(m, sources[..j]) * Elems(sources[j])
  {
    assert sources[..j + 1][..j] == sources[..j];
  }

  lemma {:induction false} UnionAllMembers<T>(m: set<T>, sources: seq<seq<T>>, x: T)
    ensures x in UnionAll(m, sources) <==> x in m || exists i :: 0 <= i < |sources| && x in sources[i]
  {
    if sources != [] {
      var n := |sources|;
      var init := sources[..n - 1];
      UnionAllMembers(m, init, x);
      if exists i :: 0 <= i < n && x in sources[i] {
        var i :| 0 <= i < n && x in sources[i];
        if i < n - 1 {
          assert x in init[i];
        }
      }
      if exists i :: 0 <= i < n - 1 && x in init[i] {
        var i :| 0 <= i < n - 1 && x in init[i];
        assert x in sources[i];
      }
    }
  }

  lemma {:induction false} DifferenceAllMembers<T>(m: set<T>, sources: seq<seq<T>>, x: T)
    ensures x in DifferenceAll(m, sources) <==> x in m && forall i :: 0 <= i < |sources| ==> x !in sources[i]
  {
    if sources != [] {
      var n := |sources|;
      var init := sources[..n - 1];
      DifferenceAllMembers(m, init, x);
      if x in DifferenceAll(m, sources) {
        forall i | 0 <= i < n ensures x !in sources[i] {
          if i < n - 1 {
            assert sources[i] == init[i];
          }
        }
      }
      if x in m && forall i :: 0 <= i < n ==> x !in sources[i] {
        forall i | 0 <= i < n - 1 ensures x !in init[i] {
          assert init[i] == sources[i];
        }
      }
    }
  }

  lemma {:induction false} IntersectionAllMembers<T>(m: set<T>, sources: seq<seq<T>>, x: T)
    ensures x in IntersectionAll(m, sources) <==> x in m && forall i :: 0 <= i < |sources| ==> x in sources[i]
  {
    if sources != [] {
      var n := |sources|;
      var init := sources[..n - 1];
      IntersectionAllMembers(m, init, x);
      if x in IntersectionAll(m, sources) {
        forall i | 0 <= i < n ensures x in sources[i] {
          if i < n - 1 {
            assert sources[i] == init[i];
          }
        }
      }
      if x in m && forall i :: 0 <= i < n ==> x in sources[i] {
        forall i | 0 <= i < n - 1 ensures x in init[i] {
          assert init[i] == sources[i];
        }
      }
    }
  }

  /** Intersecting never adds a member: the result is a subset of the starting set. */
  lemma {:induction false} IntersectionAllShrinks<T>(m: set<T>, sources: seq<seq<T>>)
    ensures IntersectionAll(m, sources) <= m
  {
    if sources != [] {
      IntersectionAllShrinks(m, sources[..|sources| - 1]);
    }
  }

  /** Sources that share nothing with `m` leave it unchanged. */
  lemma {:induction false} DifferenceAllDisjoint<T>(m: set<T>, sources: seq<seq<T>>)
    requires forall i :: 0 <= i < |sources| ==> m !! Elems(sources[i])
    ensures DifferenceAll(m, sources) == m
  {
    if sources != [] {
      DifferenceAllDisjoint(m, sources[..|sources| - 1]);
    }
  }

  /** A source that covers all of `m` empties it, wherever it stands among the sources. */
  lemma DifferenceAllCovered<T>(m: set<T>, sources: seq<seq<T>>, k: nat)
    requires k < |sources| && m <= Elems(sources[k])
    ensures DifferenceAll(m, sources) == {}
  {
    if DifferenceAll(m, sources) != {} {
      var x :| x in DifferenceAll(m, sources);
      DifferenceAllMembers(m, sources, x);
      assert false;
    }
  }

  /** Two sets are disjoint exactly when their intersection counts no member. */
  lemma NoCommonMember<T>(a: set<T>, b: set<T>)
    ensures |a * b| == 0 <==> a !! b
  {
    if a * b != {} {
      var x :| x in a * b;
      assert x in a && x in b;
    } else {
      forall x | x in a ensures x !in b {
        assert x !in a * b;
      }
    }
  }

  /** An element belongs to the symmetric difference exactly when it is in one operand but not both. */
  lemma SymmetricDifferenceMembers<T>(a: set<T>, b: set<T>, x: T)
    ensures x in SymmetricDifference(a, b) <==> (x in a) != (x in b)
    ensures SymmetricDifference(a, b) == SymmetricDifference(b, a)
  {
  }

  /** A set has no more members than any sequence that lists it. */
  lemma {:induction false} ElemsCardinality<T>(s: seq<T>)
    ensures |Elems(s)| <= |s|
  {
    if s != [] {
      var n := |s|;
      assert s == s[..n - 1] + [s[n - 1]];
      ElemsSnoc(s[..n - 1], s[n - 1]);
      ElemsCardinality(s[..n - 1]);
    }
  }

  /** A sequence without repeats lists exactly as many values as it has entries. */
  lemma {:induction false} DistinctCardinality<T>(s: seq<T>)
    requires Distinct(s)
    ensures |Elems(s)| == |s|
  {
    if s != [] {
      var n := |s|;
      assert s == s[..n - 1] + [s[n - 1]];
      ElemsSnoc(s[..n - 1], s[n - 1]);
      DistinctCardinality(s[..n - 1]);
    }
  }

  /** A subset is never larger than its superset. */
  lemma {:induction false} SubsetCardinality<T>(a: set<T>, b: set<T>)
    requires a <= b
    ensures |a| <= |b|
    decreases a
  {
    if a != {} {
      var x :| x in a;
      SubsetCardinality(a - {x}, b - {x});
    }
  }
}
