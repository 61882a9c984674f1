/**
 * The PHP array functions that set.php applies to its list of members, on
 * arrays used as lists: only the order of the values is modelled, not the
 * integer keys PHP keeps beside them.
 */
module Sequences {
  import opened SetAlgebra

  /**
   * `array_search($x, $s)`: the index of the first entry equal to `x`, or
   * `|s|` where PHP returns `false`.
   */
  function IndexOf<T(==)>(s: seq<T>, x: T): (i: nat)
    ensures i <= |s|
    ensures i < |s| ==> s[i] == x
    ensures forall j :: 0 <= j < i ==> s[j] != x
  {
    if s == [] then 0
    else if s[0] == x then 0
    else 1 + IndexOf(s[1..], x)
  }

  /** `array_unique($s)`: the first occurrence of every value, in order. */
  function Dedup<T(==)>(s: seq<T>): (r: seq<T>)
    ensures Elems(r) == Elems(s)
    ensures Distinct(r)
  {
    if s == [] then []
    else
      var init, x := s[..|s| - 1], s[|s| - 1];
      var d := Dedup(init);
      assert s == init + [x];
      ElemsSnoc(init, x);
      ElemsSnoc(d, x);
      if x in d then d else d + [x]
  }

  /** `array_diff($s, $drop)`: the entries of `s` whose value is not in `drop`, in order. */
  function Discard<T(==)>(s: seq<T>, drop: set<T>): (r: seq<T>)
    ensures Elems(r) == Elems(s) - drop
    ensures Distinct(s) ==> Distinct(r)
    ensures Elems(s) !! drop ==> r == s
  {
    if s == [] then []
    else
      var init, x := s[..|s| - 1], s[|s| - 1];
      var rest := Discard(init, drop);
      assert s == init + [x];
      ElemsSnoc(init, x);
      ElemsSnoc(rest, x);
      if x in drop then rest else rest + [x]
  }

  /** `array_intersect($s, $keep)`: the entries of `s` whose value is in `keep`, in order. */
  function Retain<T(==)>(s: seq<T>, keep: set<T>): (r: seq<T>)
    ensures Elems(r) == Elems(s) * keep
    ensures Distinct(s) ==> Distinct(r)
    ensures Elems(s) <= keep ==> r == s
  {
    if s == [] then []
    else
      var init, x := s[..|s| - 1], s[|s| - 1];
      var rest := Retain(init, keep);
      assert s == init + [x];
      ElemsSnoc(init, x);
      ElemsSnoc(rest, x);
      if x in keep then rest + [x] else rest
  }

  /** All the sources' values one after another, as `array_merge` lays them out. */
  function Flatten<T>(ss: seq<seq<T>>): seq<T>
  {
    if ss == [] then [] else Flatten(ss[..|ss| - 1]) + ss[|ss| - 1]
  }

  /** Flattening one more argument appends its values. */
  lemma FlattenStep<T>(items: seq<seq<T>>, j: nat)
    requires j < |items|
    ensures Flatten(items[..j + 1]) == Flatten(items[..j]) + items[j]
  {
    assert items[..j + 1][..j] == items[..j];
  }

  lemma ElemsConcat<T>(a: seq<T>, b: seq<T>)
    ensures Elems(a + b) == Elems(a) + Elems(b)
  {
    assert forall x :: x in a + b <==> x in a || x in b;
  }

  /** `array_unique` of a list with one more entry: that entry is kept unless its value already occurs. */
  lemma DedupSnoc<T>(s: seq<T>, x: T)
    ensures Dedup(s + [x]) == if x in Dedup(s) then Dedup(s) else Dedup(s) + [x]
  {
    var t := s + [x];
    assert t[..|t| - 1] == s && t[|t| - 1] == x;
  }

  /** The first index holding the value is where `array_search` stops. */
  lemma {:induction false} IndexOfUnique<T>(t: seq<T>, y: T, k: nat)
    requires k < |t| && t[k] == y
    requires forall j :: 0 <= j < k ==> t[j] != y
    ensures IndexOf(t, y) == k
  {
    if k > 0 {
      assert t[0] != y;
      assert t[1..][k - 1] == y;
      IndexOfUnique(t[1..], y, k - 1);
    }
  }

  /** `array_search` finds a value iff it occurs, and appending an entry does not move an earlier find. */
  lemma IndexOfSnoc<T>(s: seq<T>, x: T, y: T)
    ensures IndexOf(s, y) < |s| <==> y in s
    ensures y in s ==> IndexOf(s + [x], y) == IndexOf(s, y)
    ensures y !in s ==> IndexOf(s + [y], y) == |s|
  {
    var k := IndexOf(s, y);
    if k < |s| {
      assert s[k] == y;
      var t := s + [x];
      assert forall j :: 0 <= j < k ==> t[j] == s[j];
      IndexOfUnique(t, y, k);
    } else {
      assert forall j :: 0 <= j < |s| ==> s[j] != y;
      var u := s + [y];
      assert forall j :: 0 <= j < |s| ==> u[j] == s[j];
      IndexOfUnique(u, y, |s|);
    }
  }

  /**
   * `array_unique` keeps, for every value, its first occurrence, and keeps
   * those in the order they occur: the entries of the result are ordered by
   * where `array_search` first finds them in the input.
   */
  lemma {:induction false} DedupFirstOccurrences<T>(s: seq<T>)
    ensures forall i, j :: 0 <= i < j < |Dedup(s)| ==> IndexOf(s, Dedup(s)[i]) < IndexOf(s, Dedup(s)[j])
  {
    if s != [] {
      var init, x := s[..|s| - 1], s[|s| - 1];
      assert s == init + [x];
      DedupFirstOccurrences(init);
      DedupSnoc(init, x);
      var d, r := Dedup(init), Dedup(s);
      forall k | 0 <= k < |d| ensures IndexOf(s, d[k]) == IndexOf(init, d[k]) < |init| {
        assert d[k] in Elems(d);
        IndexOfSnoc(init, x, d[k]);
      }
      if x !in d {
        assert x !in Elems(init);
        IndexOfSnoc(init, x, x);
        forall i, j | 0 <= i < j < |r| ensures IndexOf(s, r[i]) < IndexOf(s, r[j]) {
          assert r[i] == d[i];
          if j < |d| {
            assert r[j] == d[j];
          }
        }
      }
    }
  }

  /** `array_unique` leaves a list without repeats as it is. */
  lemma {:induction false} DedupOfDistinct<T>(s: seq<T>)
    requires Distinct(s)
    ensures Dedup(s) == s
  {
    if s != [] {
      var init, x := s[..|s| - 1], s[|s| - 1];
      assert s == init + [x];
      assert Distinct(init);
      DedupOfDistinct(init);
      DedupSnoc(init, x);
      assert forall i :: 0 <= i < |init| ==> init[i] == s[i] != x;
    }
  }

  /** Lists with the same `array_unique` still have the same one after the same entry is appended. */
  lemma DedupSnocCongruent<T>(a: seq<T>, b: seq<T>, x: T)
    requires Dedup(a) == Dedup(b)
    ensures Dedup(a + [x]) == Dedup(b + [x])
  {
    DedupSnoc(a, x);
    DedupSnoc(b, x);
  }

  /** Lists with the same `array_unique` keep the same one after the same values are appended. */
  lemma {:induction false} DedupAppendCongruent<T>(a: seq<T>, b: seq<T>, y: seq<T>)
    requires Dedup(a) == Dedup(b)
    ensures Dedup(a + y) == Dedup(b + y)
  {
    if y == [] {
      assert a + y == a && b + y == b;
    } else {
      var init, last := y[..|y| - 1], y[|y| - 1];
      DedupAppendCongruent(a, b, init);
      assert a + y == (a + init) + [last];
      assert b + y == (b + init) + [last];
      DedupSnocCongruent(a + init, b + init, last);
    }
  }

  /** Appending to an already de-duplicated list and de-duplicating again is one `array_unique` of the whole. */
  lemma DedupAppend<T>(x: seq<T>, y: seq<T>)
    ensures Dedup(Dedup(x) + y) == Dedup(x + y)
  {
    DedupOfDistinct(Dedup(x));
    DedupAppendCongruent(Dedup(x), x, y);
  }

  /** One more value through `add`: the de-duplicated prefix grows by that value unless it is already there. */
  lemma DedupStep<T>(s: seq<T>, i: nat)
    requires i < |s|
    ensures Dedup(s[..i + 1]) == if s[i] in Dedup(s[..i]) then Dedup(s[..i]) else Dedup(s[..i]) + [s[i]]
  {
    assert s[..i + 1] == s[..i] + [s[i]];
    DedupSnoc(s[..i], s[i]);
  }

  /** One more argument through `update`: `array_unique` over the merged prefix of arguments. */
  lemma DedupFlattenStep<T>(m: seq<T>, items: seq<seq<T>>, j: nat)
    requires j < |items|
    ensures Dedup(Dedup(m + Flatten(items[..j])) + items[j]) == Dedup(m + Flatten(items[..j + 1]))
  {
    FlattenStep(items, j);
    DedupAppend(m + Flatten(items[..j]), items[j]);
    assert m + Flatten(items[..j + 1]) == (m + Flatten(items[..j])) + items[j];
  }

  /** Two successive `array_diff` calls drop the union of what each drops. */
  lemma {:induction false} DiscardTwice<T>(s: seq<T>, a: set<T>, b: set<T>)
    ensures Discard(Discard(s, a), b) == Discard(s, a + b)
  {
    if s != [] {
      var init, x := s[..|s| - 1], s[|s| - 1];
      DiscardTwice(init, a, b);
      var once := Discard(init, a);
      if x !in a {
        assert (once + [x])[..|once + [x]| - 1] == once;
      }
    }
  }

  /** Two successive `array_intersect` calls keep the intersection of what each keeps. */
  lemma {:induction false} RetainTwice<T>(s: seq<T>, a: set<T>, b: set<T>)
    ensures Retain(Retain(s, a), b) == Retain(s, a * b)
  {
    if s != [] {
      var init, x := s[..|s| - 1], s[|s| - 1];
      RetainTwice(init, a, b);
      var once := Retain(init, a);
      if x in a {
        assert (once + [x])[..|once + [x]| - 1] == once;
      }
    }
  }

  /**
   * `unset($s[$i])` on a list without repeats removes exactly the value at
   * `i`: the same as dropping that value everywhere.
   */
  lemma {:induction false} RemoveAt<T>(s: seq<T>, i: nat)
    requires Distinct(s) && i < |s|
    ensures s[..i] + s[i + 1..] == Discard(s, {s[i]})
  {
    var n := |s|;
    var init, x := s[..n - 1], s[n - 1];
    assert s == init + [x];
    if i == n - 1 {
      assert x !in Elems(init);
      assert s[..i] + s[i + 1..] == init;
    } else {
      RemoveAt(init, i);
      assert init[i] == s[i];
      assert s[..i] + s[i + 1..] == (init[..i] + init[i + 1..]) + [x];
    }
  }

  /** Two lists without repeats and without common values concatenate to a list without repeats. */
  lemma DistinctConcat<T>(a: seq<T>, b: seq<T>)
    requires Distinct(a) && Distinct(b) && Elems(a) !! Elems(b)
    ensures Distinct(a + b)
  {
    forall i, j | 0 <= i < j < |a + b| ensures (a + b)[i] != (a + b)[j] {
      if i < |a| && |a| <= j {
        assert (a + b)[i] in Elems(a) && (a + b)[j] in Elems(b);
      }
    }
  }
}
