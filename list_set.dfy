/**
 * The older `Set` class of set.php: the members are kept in a plain list,
 * `$members`, that `add` appends to after a linear `in_array` scan and that
 * the bulk operations rebuild with `array_merge`, `array_unique`,
 * `array_diff` and `array_intersect`.
 *
 * Here `is_a($x, 'Set')` does hold for a `Set` argument (there is no
 * namespace), and the methods branch on what kind of argument they are given,
 * so the argument kind is kept in `Source`. Members are of any type with
 * equality; PHP's loose comparisons are not modelled.
 */
module ListBacked {
  import opened SetAlgebra
  import opened Sequences

  /** An argument accepted where set.php takes "a set or iterable". */
  datatype Source<T> =
    | SetSource(items: seq<T>)       // another `Set`: its `members` list
    | ArraySource(items: seq<T>)     // a PHP array; `null` acts as the empty array
    | IterableSource(items: seq<T>)  // any other Traversable: the values it produces

  /** What `pop` returns: `array_pop` gives `null` for an empty list. */
  datatype Option<T> = None | Some(value: T)

  /** The values of each argument, argument by argument. */
  function ItemsOf<T>(sources: seq<Source<T>>): seq<seq<T>>
  {
    seq(|sources|, i requires 0 <= i < |sources| => sources[i].items)
  }

  /** A `Set` argument holds a list without repeats, as every `Set` does. */
  ghost predicate WellFormed<T>(source: Source<T>)
  {
    source.SetSource? ==> Distinct(source.items)
  }

  class Set<T(==)> {
    /** The list `$members`. */
    var members: seq<T>

    /** The invariant the class keeps: no value is listed twice. */
    ghost predicate Valid()
      reads this
    {
      Distinct(members)
    }

    /** The abstract value: the set of listed values. */
    ghost function Members(): set<T>
      reads this
    {
      Elems(members)
    }

    /**
     * `new Set($members)`: a `Set` argument has its list copied, an array is
     * passed through `array_unique`, and any other Traversable has each of
     * its values given to `add`. All three keep the first occurrence of
     * every value, in order.
     */
    constructor (source: Source<T>)
      requires WellFormed(source)
      ensures Valid() && members == Dedup(source.items)
    {
      members := [];
      new;
      match source {
        case SetSource(items) =>
          DedupOfDistinct(items);
          members := items;
        case ArraySource(items) =>
          members := Dedup(items);
        case IterableSource(items) =>
          var i := 0;
          while i < |items|
            invariant 0 <= i <= |items|
            invariant Valid() && members == Dedup(items[..i])
          {
            DedupStep(items, i);
            Add(items[i]);
            i := i + 1;
          }
          assert items[..|items|] == items;
      }
    }

    /** `clone $this`: a new object holding a copy of the list. */
    method Clone() returns (c: Set<T>)
      requires Valid()
      ensures fresh(c) && c.Valid() && c.members == members
    {
      DedupOfDistinct(members);
      c := new Set(SetSource(members));
    }

    /** `count()`: the length of the list, which is the number of distinct members. */
    function Count(): (n: nat)
      requires Valid()
      reads this
      ensures n == |Members()|
    {
      DistinctCardinality(members);
      |members|
    }

    /** `contains($value)`: `in_array`. */
    function Contains(value: T): (b: bool)
      reads this
      ensures b <==> value in Members()
    {
      value in members
    }

    /** `add($member)`: appended only when `in_array` does not find it. */
    method Add(member: T)
      requires Valid()
      modifies this
      ensures Valid()
      ensures members == if member in old(members) then old(members) else old(members) + [member]
      ensures Members() == old(Members()) + {member}
    {
      if member !in members {
        ElemsSnoc(members, member);
        members := members + [member];
      }
    }

    /** `remove($member)`: the entry `array_search` finds is unset; nothing happens when there is none. */
    method Remove(member: T)
      requires Valid()
      modifies this
      ensures Valid()
      ensures members == Discard(old(members), {member})
      ensures Members() == old(Members()) - {member}
      ensures |members| == if member in old(members) then |old(members)| - 1 else |old(members)|
    {
      var index := IndexOf(members, member);
      if index < |members| {
        RemoveAt(members, index);
        members := members[..index] + members[index + 1..];
      }
    }

    /**
     * The single-argument branch of `update($other)`: the argument's values
     * are appended (`array_merge` for an array or a `Set`, one by one
     * otherwise), then the list goes through `array_unique`.
     */
    method UpdateOne(source: Source<T>)
      requires Valid()
      modifies this
      ensures Valid() && members == Dedup(old(members) + source.items)
    {
      var other := source.items;
      if source.IterableSource? {
        var i := 0;
        while i < |other|
          invariant 0 <= i <= |other|
          invariant members == old(members) + other[..i]
        {
          assert other[..i + 1] == other[..i] + [other[i]];
          members := members + [other[i]];
          i := i + 1;
        }
        assert other[..|other|] == other;
      } else {
        members := members + other;
      }
      members := Dedup(members);
    }

    /**
     * `update($s1, ..., $sn)`: the single-argument branch once per argument.
     * The old members keep their places and the new values follow in order
     * of first appearance.
     */
    method Update(sources: seq<Source<T>>)
      requires Valid()
      modifies this
      ensures Valid()
      ensures members == Dedup(old(members) + Flatten(ItemsOf(sources)))
      ensures Members() == UnionAll(old(Members()), ItemsOf(sources))
    {
      var items := ItemsOf(sources);
      assert old(members) + Flatten(items[..0]) == members;
      DedupOfDistinct(members);
      var j := 0;
      while j < |sources|
        invariant 0 <= j <= |sources|
        invariant Valid()
        invariant members == Dedup(old(members) + Flatten(items[..j]))
        invariant Members() == UnionAll(old(Members()), items[..j])
      {
        ghost var before := members;
        UpdateOne(sources[j]);
        assert sources[j].items == items[j];
        DedupFlattenStep(old(members), items, j);
        ElemsConcat(before, items[j]);
        PrefixStep(old(Members()), items, j);
        j := j + 1;
      }
      assert items[..|sources|] == items;
    }

    /** `union($s1, ..., $sn)`: `update` applied to a clone. */
    method Union(sources: seq<Source<T>>) returns (r: Set<T>)
      requires Valid()
      ensures fresh(r) && r.Valid()
      ensures r.members == Dedup(members + Flatten(ItemsOf(sources)))
      ensures r.Members() == UnionAll(Members(), ItemsOf(sources))
    {
      r := Clone();
      r.Update(sources);
    }

    /**
     * The single-argument branch of `differenceUpdate($other)`: `array_diff`
     * for an array or a `Set`, `remove` of each value otherwise.
     */
    method DifferenceUpdateOne(source: Source<T>)
      requires Valid()
      modifies this
      ensures Valid() && members == Discard(old(members), Elems(source.items))
    {
      var other := source.items;
      if source.IterableSource? {
        var i := 0;
        while i < |other|
          invariant 0 <= i <= |other|
          invariant Valid() && members == Discard(old(members), Elems(other[..i]))
        {
          Remove(other[i]);
          DiscardTwice(old(members), Elems(other[..i]), {other[i]});
          ElemsPrefix(other, i);
          i := i + 1;
        }
        assert other[..|other|] == other;
      } else {
        members := Discard(members, Elems(other));
      }
    }

    /**
     * `differenceUpdate($s1, ..., $sn)`: the single-argument branch once per
     * argument. The remaining members keep their order.
     */
    method DifferenceUpdate(sources: seq<Source<T>>)
      requires Valid()
      modifies this
      ensures Valid()
      ensures members == Discard(old(members), Elems(Flatten(ItemsOf(sources))))
      ensures Members() == DifferenceAll(old(Members()), ItemsOf(sources))
    {
      var items := ItemsOf(sources);
      var j := 0;
      while j < |sources|
        invariant 0 <= j <= |sources|
        invariant Valid()
        invariant members == Discard(old(members), Elems(Flatten(items[..j])))
        invariant Members() == DifferenceAll(old(Members()), items[..j])
      {
        DifferenceUpdateOne(sources[j]);
        assert sources[j].items == items[j];
        FlattenStep(items, j);
        PrefixStep(old(Members()), items, j);
        DiscardTwice(old(members), Elems(Flatten(items[..j])), Elems(items[j]));
        ElemsConcat(Flatten(items[..j]), items[j]);
        j := j + 1;
      }
      assert items[..|sources|] == items;
    }

    /** `difference($s1, ..., $sn)`: `differenceUpdate` applied to a clone. */
    method Difference(sources: seq<Source<T>>) returns (r: Set<T>)
      requires Valid()
      ensures fresh(r) && r.Valid()
      ensures r.members == Discard(members, Elems(Flatten(ItemsOf(sources))))
      ensures r.Members() == DifferenceAll(Members(), ItemsOf(sources))
    {
      r := Clone();
      r.DifferenceUpdate(sources);
    }

    /**
     * The single-argument branch of `intersectionUpdate($other)`: an array is
     * used as it is, a `Set` by its list, anything else is first made into a
     * `Set`; then `array_intersect`.
     */
    method IntersectionUpdateOne(source: Source<T>)
      requires Valid()
      modifies this
      ensures Valid() && members == Retain(old(members), Elems(source.items))
    {
      var keep: seq<T>;
      match source {
        case ArraySource(items) =>
          keep := items;
        case SetSource(items) =>
          keep := items;
        case IterableSource(items) =>
          var o := new Set(source);
          keep := o.members;
      }
      members := Retain(members, Elems(keep));
    }

    /**
     * `intersectionUpdate($s1, ..., $sn)`: the single-argument branch once per
     * argument. What remains are the old entries, in their order, whose
     * value every argument produces.
     */
    method IntersectionUpdate(sources: seq<Source<T>>)
      requires Valid()
      modifies this
      ensures Valid()
      ensures members == Retain(old(members), Members())
      ensures Members() == IntersectionAll(old(Members()), ItemsOf(sources))
    {
      var items := ItemsOf(sources);
      var j := 0;
      while j < |sources|
        invariant 0 <= j <= |sources|
        invariant Valid()
        invariant members == Retain(old(members), Members())
        invariant Members() == IntersectionAll(old(Members()), items[..j])
      {
        ghost var before := Members();
        IntersectionUpdateOne(sources[j]);
        RetainTwice(old(members), before, Elems(items[j]));
        PrefixStep(old(Members()), items, j);
        j := j + 1;
      }
      assert items[..|sources|] == items;
    }

    /** `intersection($s1, ..., $sn)`: `intersectionUpdate` applied to a clone. */
    method Intersection(sources: seq<Source<T>>) returns (r: Set<T>)
      requires Valid()
      ensures fresh(r) && r.Valid()
      ensures r.members == Retain(members, r.Members())
      ensures r.Members() == IntersectionAll(Members(), ItemsOf(sources))
    {
      r := Clone();
      r.IntersectionUpdate(sources);
    }

    /**
     * `symmetricDifference($other)`: `(other - this) ∪ (this - other)`, where
     * a non-`Set` argument is first made into a `Set`.
     */
    method SymmetricDifference(other: Source<T>) returns (r: Set<T>)
      requires Valid() && WellFormed(other)
      ensures fresh(r) && r.Valid()
      ensures r.members == Discard(Dedup(other.items), Members()) + Discard(members, Elems(other.items))
      ensures r.Members() == SetAlgebra.SymmetricDifference(Members(), Elems(other.items))
    {
      var o := new Set(other);
      var left := o.Difference([SetSource(members)]);
      var right := Difference([SetSource(o.members)]);
      r := left.Union([SetSource(right.members)]);
      assert Flatten([members]) == members;
      assert Flatten([o.members]) == o.members;
      assert Flatten([right.members]) == right.members;
      DistinctConcat(left.members, right.members);
      DedupOfDistinct(left.members + right.members);
    }

    /** `symmetricDifferenceUpdate($other)`: takes over the list of `symmetricDifference`. */
    method SymmetricDifferenceUpdate(other: Source<T>)
      requires Valid() && WellFormed(other)
      modifies this
      ensures Valid()
      ensures members == Discard(Dedup(other.items), old(Members())) + Discard(old(members), Elems(other.items))
      ensures Members() == SetAlgebra.SymmetricDifference(old(Members()), Elems(other.items))
    {
      var s := SymmetricDifference(other);
      members := s.members;
    }

    /**
     * `isSuperset($other)` as it should read (set.php:221-229 tests for
     * equality instead): false at once when `new Set($other)` has more
     * members, otherwise whether `other - this` is empty.
     */
    method IsSuperset(other: Source<T>) returns (b: bool)
      requires Valid() && WellFormed(other)
      ensures b <==> Elems(other.items) <= Members()
    {
      var o := new Set(other);
      if o.Count() > Count() {
        if Elems(other.items) <= Members() {
          SubsetCardinality(Elems(other.items), Members());
        }
        return false;
      }
      var d := o.Difference([SetSource(members)]);
      assert Flatten([members]) == members;
      EmptyDifference(Elems(other.items), Members());
      b := d.Count() == 0;
    }

    /** `isSubset($other)` as it should read (set.php:237-240 negates `isSuperset`): whether `this - other` is empty. */
    method IsSubset(other: Source<T>) returns (b: bool)
      requires Valid()
      ensures b <==> Members() <= Elems(other.items)
    {
      var d := Difference([other]);
      SingleSource(Members(), other.items);
      assert ItemsOf([other]) == [other.items];
      EmptyDifference(Members(), Elems(other.items));
      b := d.Count() == 0;
    }

    /** `isDisjoint($other)` as it should read (set.php:248-251 is inverted): whether the intersection is empty. */
    method IsDisjoint(other: Source<T>) returns (b: bool)
      requires Valid()
      ensures b <==> Members() !! Elems(other.items)
    {
      var i := Intersection([other]);
      SingleSource(Members(), other.items);
      assert ItemsOf([other]) == [other.items];
      NoCommonMember(Members(), Elems(other.items));
      b := i.Count() == 0;
    }

    /** `pop()`: `array_pop` removes and returns the last entry, or returns `null` for an empty list. */
    method Pop() returns (r: Option<T>)
      requires Valid()
      modifies this
      ensures Valid()
      ensures old(members) == [] ==> r == None && members == []
      ensures old(members) != [] ==>
                r == Some(old(members)[|old(members)| - 1]) && members == old(members)[..|old(members)| - 1]
      ensures r.Some? ==> Members() == old(Members()) - {r.value} && |members| == |old(members)| - 1
    {
      if members == [] {
        return None;
      }
      var last := members[|members| - 1];
      assert members == members[..|members| - 1] + [last];
      ElemsSnoc(members[..|members| - 1], last);
      members := members[..|members| - 1];
      r := Some(last);
    }

    /** `clear()`: the list is emptied. */
    method Clear()
      modifies this
      ensures Valid() && members == []
    {
      members := [];
    }
  }

  /**
   * `isSuperset($other)` as set.php:221-229 writes it, for an array
   * argument: false when the array has more entries (duplicates included)
   * than the set has members, otherwise whether the symmetric difference of
   * `new Set($other)` and this set is empty. That is set equality, not
   * inclusion.
   */
  function IsSupersetAsWritten<T(==)>(members: seq<T>, other: seq<T>): (b: bool)
    ensures b <==> |other| <= |members| && Elems(other) == Elems(members)
  {
    if |members| < |other| then false
    else
      EmptyDifference(Elems(other), Elems(members));
      EmptyDifference(Elems(members), Elems(other));
      SetAlgebra.SymmetricDifference(Elems(members), Elems(other)) == {}
  }

  /** `isSubset($other)` as set.php:237-240 writes it: the negation of `isSuperset`. */
  function IsSubsetAsWritten<T(==)>(members: seq<T>, other: seq<T>): (b: bool)
    ensures b <==> !(|other| <= |members| && Elems(other) == Elems(members))
  {
    !IsSupersetAsWritten(members, other)
  }

  /** `isDisjoint($other)` as set.php:248-251 writes it: true when the intersection is NOT empty. */
  function IsDisjointAsWritten<T(==)>(members: seq<T>, other: seq<T>): (b: bool)
    ensures b <==> !(Elems(members) !! Elems(other))
  {
    NoCommonMember(Elems(members), Elems(other));
    |Elems(members) * Elems(other)| != 0
  }

  /** Every proper subset is turned down: `isSuperset` as written rejects arguments it should accept. */
  lemma SupersetAsWrittenRejectsProperSubsets<T>(members: seq<T>, other: seq<T>)
    requires Elems(other) < Elems(members)
    ensures Elems(other) <= Elems(members) && !IsSupersetAsWritten(members, other)
  {
  }

  /** A repeated value in the array trips the count check: `{1}` is not a superset of `[1, 1]` as written. */
  lemma SupersetAsWrittenCountsDuplicates()
    ensures Elems([1, 1]) <= Elems([1]) && !IsSupersetAsWritten([1], [1, 1])
  {
    assert Elems([1, 1]) == {1} == Elems([1]);
  }

  /** Two sets that are neither inside the other are reported as subset of each other by `isSubset` as written. */
  lemma SubsetAsWrittenAcceptsIncomparable<T>(members: seq<T>, other: seq<T>)
    requires !(Elems(members) <= Elems(other)) && !(Elems(other) <= Elems(members))
    ensures IsSubsetAsWritten(members, other) && IsSubsetAsWritten(other, members)
  {
  }

  /** `{1}` and `[2]` share nothing, yet `isDisjoint` as written says they are not disjoint. */
  lemma DisjointAsWrittenInverted()
    ensures Elems([1]) !! Elems([2]) && !IsDisjointAsWritten([1], [2])
  {
    assert Elems([1]) == {1} && Elems([2]) == {2};
  }
}
