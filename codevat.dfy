/**
 * `Codevat\Set` (src/Set.php): a set backed by an associative array whose keys
 * are the members and whose values are all `true`.
 *
 * Members are modelled as integers (PHP array keys are integers or strings;
 * only the integer keys are modelled, which is what lets `toArray` sort).
 * Every "set or iterable" argument is the finite sequence of values it
 * produces. A class name in a string is not resolved against the current
 * namespace, so `is_a($other, 'Set')` asks about the global class `Set`, and
 * it is false for every `Codevat\Set` argument: every argument goes through
 * `new self(...)` or a plain `foreach`, which is what the methods below do.
 */
module Codevat {
  import opened SetAlgebra

  /** What `pop` yields: the removed member, or the `OutOfBoundsException` it throws on an empty set. */
  datatype PopResult = Popped(member: int) | OutOfBounds

  /** Every value of a non-empty finite set of integers has a least member. */
  lemma {:induction false} MinimumExists(s: set<int>)
    requires s != {}
    ensures exists x :: x in s && forall y :: y in s ==> x <= y
    decreases s
  {
    // Discharges the existence check of the `:|` below, which fails on an integer-keyed set or map without it.
    if forall y :: y !in s {
      assert false;
    }
    var x :| x in s;
    var rest := s - {x};
    if rest == {} {
      assert s == {x};
    } else {
      MinimumExists(rest);
      var m :| m in rest && forall y :: y in rest ==> m <= y;
      var least := if x < m then x else m;
      forall y | y in s ensures least <= y {
        if y != x {
          assert y in rest;
        }
      }
      assert least in s;
    }
  }

  /** Strictly increasing, so in particular without repeats. */
  ghost predicate Ascending(s: seq<int>)
  {
    forall i, j :: 0 <= i < j < |s| ==> s[i] < s[j]
  }

  /** `r` is ascending and every entry of `r` lies below every value in `rest`. */
  ghost predicate Below(r: seq<int>, rest: set<int>)
  {
    Ascending(r) && forall i, y :: 0 <= i < |r| && y in rest ==> r[i] < y
  }

  /** Appending the least of the remaining values keeps the output ascending. */
  lemma AppendLeast(r: seq<int>, rest: set<int>, x: int)
    requires Below(r, rest)
    requires x in rest && forall y :: y in rest ==> x <= y
    ensures Below(r + [x], rest - {x})
  {
  }

  /** Appending a value not yet listed keeps the sequence free of repeats. */
  lemma AppendNew<T>(r: seq<T>, x: T)
    requires Distinct(r) && x !in Elems(r)
    ensures Distinct(r + [x]) && Elems(r + [x]) == Elems(r) + {x}
  {
    ElemsSnoc(r, x);
  }

  class Set {
    /** The associative array `$map`: member => true. */
    var entries: map<int, bool>

    /** Every key maps to `true`, the only value the class ever stores. */
    ghost predicate Valid()
      reads this
    {
      forall k | k in entries :: entries[k]
    }

    /** The abstract value: the set of keys. */
    ghost function Members(): set<int>
      reads this
    {
      entries.Keys
    }

    /** `new Set($members)`: every value the source produces becomes a key. */
    constructor (members: seq<int>)
      ensures Valid() && Members() == Elems(members)
    {
      // `if ($members)` skips a null or empty source; the loop does nothing for it either.
      var m: map<int, bool> := map[];
      var i := 0;
      while i < |members|
        invariant 0 <= i <= |members|
        invariant forall k | k in m :: m[k]
        invariant m.Keys == Elems(members[..i])
      {
        m := m[members[i] := true];
        ElemsPrefix(members, i);
        i := i + 1;
      }
      assert members[..|members|] == members;
      entries := m;
    }

    /** `clone $this`: a new object holding a copy of the array. */
    method Clone() returns (c: Set)
      requires Valid()
      ensures fresh(c) && c.Valid() && c.entries == entries
    {
      c := new Set([]);
      c.entries := entries;
    }

    /** `count()`: the number of keys, which is the number of distinct members. */
    function Count(): (n: nat)
      reads this
      ensures n == |Members()|
    {
      |entries|
    }

    /** `contains($value)`: `isset($this->map[$value])`. */
    function Contains(value: int): (b: bool)
      reads this
      ensures b <==> value in Members()
    {
      value in entries
    }

    /**
     * `toArray($sort)`: the keys, each once; ascending when `sort` holds.
     * With `sort` false this is also what iterating the set produces.
     */
    method ToArray(sort: bool) returns (r: seq<int>)
      ensures Elems(r) == Members() && Distinct(r) && |r| == Count()
      ensures sort ==> Ascending(r)
    {
      r := [];
      ghost var keys := entries.Keys;
      var rest := entries.Keys;
      while rest != {}
        invariant rest <= keys && Elems(r) == keys - rest
        invariant Distinct(r)
        invariant sort ==> Below(r, rest)
        decreases rest
      {
        var x;
        if sort {
          MinimumExists(rest);
          x :| x in rest && forall y :: y in rest ==> x <= y;
          AppendLeast(r, rest, x);
        } else {
          // Discharges the existence check of the `:|` below, which fails on an integer-keyed set or map without it.
          if forall y :: y !in rest {
            assert false;
          }
          x :| x in rest;
        }
        AppendNew(r, x);
        r := r + [x];
        rest := rest - {x};
      }
      DistinctCardinality(r);
    }

    /** `equals($other)`: the arrays of `$this` and of `new self($other)` are equal. */
    method Equals(other: seq<int>) returns (b: bool)
      requires Valid()
      ensures b <==> Members() == Elems(other)
    {
      var o := new Set(other);
      b := entries == o.entries;
      if Members() == o.Members() {
        assert forall k :: k in entries <==> k in o.entries;
        assert forall k | k in entries :: entries[k] == o.entries[k];
      }
    }

    /** `add($member)`. */
    method Add(member: int)
      requires Valid()
      modifies this
      ensures Valid() && Members() == old(Members()) + {member}
      ensures member in old(Members()) ==> entries == old(entries)
    {
      entries := entries[member := true];
    }

    /** `remove($member)`: `unset`, a no-op for a non-member. */
    method Remove(member: int)
      requires Valid()
      modifies this
      ensures Valid() && Members() == old(Members()) - {member}
      ensures member !in old(Members()) ==> entries == old(entries)
    {
      entries := entries - {member};
    }

    /** `update($s1, ..., $sn)`: every value of every source becomes a key. */
    method Update(sources: seq<seq<int>>)
      requires Valid()
      modifies this
      ensures Valid() && Members() == UnionAll(old(Members()), sources)
    {
      var j := 0;
      while j < |sources|
        invariant 0 <= j <= |sources|
        invariant Valid() && Members() == UnionAll(old(Members()), sources[..j])
      {
        var source := sources[j];
        ghost var before := Members();
        var i := 0;
        while i < |source|
          invariant 0 <= i <= |source|
          invariant Valid() && Members() == before + Elems(source[..i])
        {
          entries := entries[source[i] := true];
          ElemsPrefix(source, i);
          i := i + 1;
        }
        assert source[..|source|] == source;
        PrefixStep(old(Members()), sources, j);
        j := j + 1;
      }
      assert sources[..|sources|] == sources;
    }

    /** `union($s1, ..., $sn)`: `update` applied to a clone. */
    method Union(sources: seq<seq<int>>) returns (r: Set)
      requires Valid()
      ensures fresh(r) && r.Valid() && r.Members() == UnionAll(Members(), sources)
    {
      r := Clone();
      r.Update(sources);
    }

    /** `differenceUpdate($s1, ..., $sn)`: every value of every source is unset. */
    method DifferenceUpdate(sources: seq<seq<int>>)
      requires Valid()
      modifies this
      ensures Valid() && Members() == DifferenceAll(old(Members()), sources)
    {
      var j := 0;
      while j < |sources|
        invariant 0 <= j <= |sources|
        invariant Valid() && Members() == DifferenceAll(old(Members()), sources[..j])
      {
        var source := sources[j];
        ghost var before := Members();
        var i := 0;
        while i < |source|
          invariant 0 <= i <= |source|
          invariant Valid() && Members() == before - Elems(source[..i])
        {
          entries := entries - {source[i]};
          ElemsPrefix(source, i);
          i := i + 1;
        }
        assert source[..|source|] == source;
        PrefixStep(old(Members()), sources, j);
        j := j + 1;
      }
      assert sources[..|sources|] == sources;
    }

    /** `difference($s1, ..., $sn)`: `differenceUpdate` applied to a clone. */
    method Difference(sources: seq<seq<int>>) returns (r: Set)
      requires Valid()
      ensures fresh(r) && r.Valid() && r.Members() == DifferenceAll(Members(), sources)
    {
      r := Clone();
      r.DifferenceUpdate(sources);
    }

    /**
     * `intersectionUpdate($s1, ..., $sn)`: for each source in turn, a new
     * array holds the values of the source that are keys of the current one.
     */
    method IntersectionUpdate(sources: seq<seq<int>>)
      requires Valid()
      modifies this
      ensures Valid() && Members() == IntersectionAll(old(Members()), sources)
    {
      var j := 0;
      while j < |sources|
        invariant 0 <= j <= |sources|
        invariant Valid() && Members() == IntersectionAll(old(Members()), sources[..j])
      {
        var source := sources[j];
        var newEntries: map<int, bool> := map[];
        var i := 0;
        while i < |source|
          invariant 0 <= i <= |source|
          invariant Valid() && Members() == IntersectionAll(old(Members()), sources[..j])
          invariant forall k | k in newEntries :: newEntries[k]
          invariant newEntries.Keys == Members() * Elems(source[..i])
        {
          if source[i] in entries {
            newEntries := newEntries[source[i] := true];
          }
          ElemsPrefix(source, i);
          i := i + 1;
        }
        assert source[..|source|] == source;
        entries := newEntries;
        PrefixStep(old(Members()), sources, j);
        j := j + 1;
      }
      assert sources[..|sources|] == sources;
    }

    /** `intersection($s1, ..., $sn)`: `intersectionUpdate` applied to a clone. */
    method Intersection(sources: seq<seq<int>>) returns (r: Set)
      requires Valid()
      ensures fresh(r) && r.Valid() && r.Members() == IntersectionAll(Members(), sources)
    {
      r := Clone();
      r.IntersectionUpdate(sources);
    }

    /**
     * `symmetricDifference($other)`: `(other - this) ∪ (this - other)`, where
     * a set passed as a source contributes the keys it iterates over.
     */
    method SymmetricDifference(other: seq<int>) returns (r: Set)
      requires Valid()
      ensures fresh(r) && r.Valid()
      ensures r.Members() == SetAlgebra.SymmetricDifference(Members(), Elems(other))
      ensures forall x :: x in r.Members() <==> (x in Members()) != (x in other)
    {
      var o := new Set(other);
      var mine := ToArray(false);
      var left := o.Difference([mine]);
      var theirs := o.ToArray(false);
      var right := Difference([theirs]);
      var rightMembers := right.ToArray(false);
      r := left.Union([rightMembers]);
    }

    /** `symmetricDifferenceUpdate($other)`: takes over the array of `symmetricDifference`. */
    method SymmetricDifferenceUpdate(other: seq<int>)
      requires Valid()
      modifies this
      ensures Valid() && Members() == SetAlgebra.SymmetricDifference(old(Members()), Elems(other))
    {
      var s := SymmetricDifference(other);
      entries := s.entries;
    }

    /**
     * `isSuperset($other)`: false at once when `new self($other)` has more
     * members, otherwise whether `other - this` is empty.
     */
    method IsSuperset(other: seq<int>) returns (b: bool)
      requires Valid()
      ensures b <==> Elems(other) <= Members()
      ensures |Elems(other)| > Count() ==> !b
    {
      var o := new Set(other);
      if o.Count() > Count() {
        if Elems(other) <= Members() {
          SubsetCardinality(Elems(other), Members());
        }
        return false;
      }
      var mine := ToArray(false);
      var d := o.Difference([mine]);
      SingleSource(o.Members(), mine);
      EmptyDifference(Elems(other), Members());
      b := d.Count() == 0;
    }

    /**
     * `isSubset($other)`: for an array argument, false at once when it has
     * fewer entries than this set has members; otherwise whether
     * `this - other` is empty.
     */
    method IsSubset(other: seq<int>) returns (b: bool)
      requires Valid()
      ensures b <==> Members() <= Elems(other)
    {
      if |other| < Count() {
        ElemsCardinality(other);
        if Members() <= Elems(other) {
          SubsetCardinality(Members(), Elems(other));
        }
        return false;
      }
      var d := Difference([other]);
      SingleSource(Members(), other);
      EmptyDifference(Members(), Elems(other));
      b := d.Count() == 0;
    }

    /** `isDisjoint($other)`: whether the intersection with `other` is empty. */
    method IsDisjoint(other: seq<int>) returns (b: bool)
      requires Valid()
      ensures b <==> Members() !! Elems(other)
    {
      var i := Intersection([other]);
      SingleSource(Members(), other);
      NoCommonMember(Members(), Elems(other));
      b := i.Count() == 0;
    }

    /**
     * `pop()`: removes and returns the first key of the array; on an empty
     * set it throws `OutOfBoundsException`. Which key comes first is not
     * modelled: any member may be returned.
     */
    method Pop() returns (r: PopResult)
      requires Valid()
      modifies this
      ensures Valid()
      ensures old(Members()) == {} ==> r == OutOfBounds && entries == old(entries)
      ensures old(Members()) != {} ==>
                r.Popped? && r.member in old(Members()) && Members() == old(Members()) - {r.member}
      ensures r.Popped? ==> !Contains(r.member) && Count() == old(Count()) - 1
    {
      if entries == map[] {
        return OutOfBounds;
      }
      // Discharges the existence check of the `:|` below, which fails on an integer-keyed set or map without it.
      if forall y :: y !in entries {
        assert false;
      }
      var k :| k in entries;
      entries := entries - {k};
      r := Popped(k);
    }

    /** `clear()`: the array is emptied. */
    method Clear()
      modifies this
      ensures Valid() && Members() == {}
    {
      entries := map[];
    }
  }
}
