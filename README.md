# phpsets in Dafny

phpsets ports Python's `set` type to PHP. It comes as two classes, and both are
modelled here.

- `Codevat\Set` (src/Set.php) stores the members as the keys of an associative
  array, `$map`, whose values are all `true`. Here that is the `Codevat.Set`
  class, with a `map<int, bool>` field called `entries`.
- The older global `Set` (set.php) stores the members in a plain list,
  `$members`. Adding scans the list with `in_array`. The bulk operations rebuild
  the list with `array_merge`, `array_unique`, `array_diff` and
  `array_intersect`. Here that is the `ListBacked.Set` class, with a
  `seq<T>` field.

Both classes are modelled as classes whose methods update the field in place.
Each class has a ghost `Valid()` invariant and a ghost `Members()` giving the
abstract set. Every method states its new list or map and its new member set.

The variadic bulk updates (`update`, `differenceUpdate`, `intersectionUpdate`)
take a sequence of arguments. They are specified by left folds in module
`SetAlgebra`: `UnionAll`, `DifferenceAll` and `IntersectionAll`. Their
membership lemmas say what the folds mean: in `m` or in some argument; in `m`
and in no argument; in `m` and in every argument.

The PHP array functions that set.php relies on are recursive functions in
module `Sequences`: `IndexOf` (`array_search`), `Dedup` (`array_unique`),
`Discard` (`array_diff`), `Retain` (`array_intersect`) and `Flatten` (what
`array_merge` makes of arrays with integer keys: their concatenation). Each
except `Flatten` carries its set-level meaning in its contract. `Discard` and `Retain` also state
that they leave a list unchanged when nothing is dropped. `DedupFirstOccurrences`
states the order `array_unique` keeps: first occurrences, in order.

PHP does not resolve a class name given as a string against the current
namespace. So in src/Set.php, `is_a($other, 'Set')` asks about the global class
`Set`, and it is false for every `Codevat\Set` argument. Every argument
therefore takes the same path: a `foreach` over its values, or
`new self($other)`. A `Codevat` argument is just the sequence of values it
yields.

In set.php, `is_a` does hold for a `Set`, and the methods branch on the kind of
argument. That kind is kept in `ListBacked.Source`: `SetSource`, `ArraySource`
or `IterableSource`.

## Model

| member | source | states |
|---|---|---|
| SetAlgebra.UnionAllMembers | src/Set.php:139-146 | After `update(s1..sn)` a value is a member iff it was one before or some argument yields it |
| SetAlgebra.DifferenceAllMembers | src/Set.php:169-180 | After `differenceUpdate(s1..sn)` a value is a member iff it was one before and no argument yields it |
| SetAlgebra.IntersectionAllMembers | src/Set.php:226-241 | After `intersectionUpdate(s1..sn)` a value is a member iff it was one before and every argument yields it |
| SetAlgebra.IntersectionAllShrinks | src/Set.php:226-241 | Intersecting never adds a member: the result is a subset of the starting set |
| SetAlgebra.DifferenceAllDisjoint | src/Set.php:169-180 | Arguments sharing no value with the set leave it unchanged |
| SetAlgebra.DifferenceAllCovered | src/Set.php:169-180 | An argument, in any position, that yields every member leaves the set empty |
| SetAlgebra.SymmetricDifferenceMembers | src/Set.php:205-209 | `(other - this) ∪ (this - other)` holds exactly the values in one operand but not both, and is commutative |
| SetAlgebra.EmptyDifference | src/Set.php:273 | `other - this` is empty exactly when `other` is included in `this`, which the emptiness tests of `isSuperset`/`isSubset` rely on |
| SetAlgebra.NoCommonMember | src/Set.php:306 | The intersection counts zero members exactly when the sets are disjoint, which `isDisjoint` relies on |
| SetAlgebra.SubsetCardinality | src/Set.php:269-271 | A subset never has more members, so the early `false` of `isSuperset` on a larger argument is sound |
| SetAlgebra.ElemsCardinality | src/Set.php:287-290 | An array never has fewer entries than distinct values, so the early `false` of `isSubset` on a shorter array is sound |
| SetAlgebra.DistinctCardinality | set.php:56-59 | A list without repeats has as many entries as distinct values, so `count()` of the list is the number of members |
| Sequences.IndexOf | set.php:83 | `array_search` gives the first index holding the value, or none (index `|s|`) when the value is absent |
| Sequences.Dedup | set.php:26 | `array_unique` keeps the same values and leaves no repeats |
| Sequences.IndexOfUnique | set.php:83 | `array_search` returns exactly the first index holding the value |
| Sequences.IndexOfSnoc | set.php:83 | `array_search` finds a value iff it occurs; appending an entry does not change where an earlier value is found, and a new value appended is found at the end |
| Sequences.DedupFirstOccurrences | set.php:26 | The entries `array_unique` keeps are ordered by where each value first occurs in the input |
| Sequences.DedupOfDistinct | set.php:24 | `array_unique` leaves a list without repeats as it is, so copying another `Set`'s list is the same as de-duplicating it |
| Sequences.DedupSnoc | set.php:70-75 | `array_unique` of a list with one more entry keeps that entry iff its value does not already occur. This is `Dedup`'s own definition unfolded once; that it matches `add` rests on `Dedup` being defined by that step |
| Sequences.Discard | set.php:137 | `array_diff` keeps exactly the values not dropped, preserves freedom from repeats, and changes nothing when no value is dropped |
| Sequences.Retain | set.php:199 | `array_intersect` keeps exactly the values also kept by the argument, preserves freedom from repeats, and changes nothing when all are kept |
| Sequences.DedupAppend | set.php:92-110 | De-duplicating, appending and de-duplicating again is one `array_unique` of the whole concatenation |
| Sequences.DedupFlattenStep | set.php:94-97 | Applying `update` one argument at a time equals one `array_unique` over all arguments merged |
| Sequences.DiscardTwice | set.php:130-133 | Two successive `array_diff` calls equal one that drops the union of both |
| Sequences.RetainTwice | set.php:185-188 | Two successive `array_intersect` calls equal one that keeps the intersection of both |
| Sequences.RemoveAt | set.php:81-86 | Unsetting the entry that `array_search` found in a list without repeats drops that value and nothing else |
| Sequences.DistinctConcat | set.php:167 | Joining `other - this` and `this - other` gives a list without repeats |
| Codevat.MinimumExists | src/Set.php:94-96 | A non-empty set of integers has a least member, the first entry of an `asort`ed array |
| Codevat.Set.constructor | src/Set.php:32-39 | `new Set($members)` has exactly the values `$members` yields as members; no argument gives the empty set |
| Codevat.Set.Clone | src/Set.php:158 | `clone $this`: a fresh object holding a copy of the map, with the same members |
| Codevat.Set.Count | src/Set.php:68-71 | `count()` is the number of members |
| Codevat.Set.ToArray | src/Set.php:91-98 | `toArray($sort)` lists every member exactly once and nothing else; with `$sort` the list is ascending |
| Codevat.Set.Equals | src/Set.php:107-111 | `equals($other)` holds iff the members are exactly the values `$other` yields |
| Codevat.Set.Add | src/Set.php:118-121 | The member set gains the value; adding a member already present changes nothing |
| Codevat.Set.Remove | src/Set.php:128-131 | The member set loses the value; removing a non-member changes nothing |
| Codevat.Set.Update | src/Set.php:139-146 | The new members are `UnionAll` of the old members and the arguments |
| Codevat.Set.Union | src/Set.php:156-161 | A fresh set holding `UnionAll` of the members and the arguments; the receiver is not changed |
| Codevat.Set.DifferenceUpdate | src/Set.php:169-180 | The new members are `DifferenceAll` of the old members and the arguments |
| Codevat.Set.Difference | src/Set.php:190-195 | A fresh set holding `DifferenceAll` of the members and the arguments |
| Codevat.Set.SymmetricDifference | src/Set.php:205-209 | A fresh set whose members are the values in exactly one of this set and the argument |
| Codevat.Set.SymmetricDifferenceUpdate | src/Set.php:216-219 | The new members are the symmetric difference of the old members and the argument |
| Codevat.Set.IntersectionUpdate | src/Set.php:226-241 | The new members are `IntersectionAll` of the old members and the arguments |
| Codevat.Set.Intersection | src/Set.php:250-255 | A fresh set holding `IntersectionAll` of the members and the arguments |
| Codevat.Set.IsSuperset | src/Set.php:266-274 | True iff every value the argument yields is a member; always false when the argument has more distinct values |
| Codevat.Set.IsSubset | src/Set.php:285-293 | True iff every member is among the argument's values, despite the early exit on a shorter array |
| Codevat.Set.IsDisjoint | src/Set.php:304-307 | True iff no member is among the argument's values |
| Codevat.Set.Pop | src/Set.php:316-324 | An empty set raises `OutOfBoundsException` (`OutOfBounds`) and is unchanged; otherwise a former member is returned and removed, and the count drops by one |
| Codevat.Set.Clear | src/Set.php:329-332 | The set becomes empty |
| Codevat.Set.Contains | src/Set.php:342-345 | True iff the value is a member |
| ListBacked.Set.constructor | set.php:21-32 | A `Set` argument's list is copied, an array goes through `array_unique`, any other iterable is added value by value; all give the first occurrences of the values, in order |
| ListBacked.Set.Clone | set.php:119 | `clone $this`: a fresh object holding a copy of the list |
| ListBacked.Set.Count | set.php:56-59 | The list length is the number of members |
| ListBacked.Set.Contains | set.php:275-278 | True iff the value is in the list |
| ListBacked.Set.Add | set.php:70-75 | The value is appended iff it was absent; the list stays free of repeats and the member set gains the value |
| ListBacked.Set.Remove | set.php:81-86 | The list becomes `array_diff(list, [value])`; its length drops by one iff the value was present |
| ListBacked.Set.UpdateOne | set.php:98-109 | One argument: the list becomes `array_unique` of the list followed by the argument's values |
| ListBacked.Set.Update | set.php:92-110 | The list is `array_unique` of the old list and all arguments' values, and the member set is `UnionAll` |
| ListBacked.Set.Union | set.php:117-122 | A fresh set with that list; the receiver is not changed |
| ListBacked.Set.DifferenceUpdateOne | set.php:134-143 | One argument: `array_diff` for a set or array, `remove` of each value otherwise; both give the same list |
| ListBacked.Set.DifferenceUpdate | set.php:128-144 | The remaining entries keep their order and are those no argument yields; the member set is `DifferenceAll` |
| ListBacked.Set.Difference | set.php:151-156 | A fresh set with that list |
| ListBacked.Set.IntersectionUpdateOne | set.php:189-200 | One argument: the list becomes `array_intersect` with the argument's values, whatever its kind |
| ListBacked.Set.IntersectionUpdate | set.php:183-201 | The old entries, in order, whose value every argument yields; the member set is `IntersectionAll` |
| ListBacked.Set.Intersection | set.php:208-213 | A fresh set with that list |
| ListBacked.Set.SymmetricDifference | set.php:164-168 | The list is the argument's new values followed by the members it lacks; the member set is the symmetric difference |
| ListBacked.Set.SymmetricDifferenceUpdate | set.php:174-177 | The receiver takes over that list |
| ListBacked.Set.Pop | set.php:257-260 | The last entry is removed and returned; an empty set returns `null` (`None`) and stays empty |
| ListBacked.Set.Clear | set.php:265-268 | The list becomes empty |
| ListBacked.Set.IsSuperset | set.php:215-229 | Corrected `isSuperset`: true iff every value of the argument is a member |
| ListBacked.Set.IsSubset | set.php:231-240 | Corrected `isSubset`: true iff every member is among the argument's values |
| ListBacked.Set.IsDisjoint | set.php:242-251 | Corrected `isDisjoint`: true iff no member is among the argument's values |
| ListBacked.IsSupersetAsWritten | set.php:221-229 | `isSuperset` as written holds iff the array is no longer than the list and has exactly the same values, which is equality rather than inclusion |
| ListBacked.IsSubsetAsWritten | set.php:237-240 | `isSubset` as written holds iff `isSuperset` as written fails |
| ListBacked.IsDisjointAsWritten | set.php:248-251 | `isDisjoint` as written holds iff the intersection is NOT empty |
| ListBacked.SupersetAsWrittenRejectsProperSubsets | set.php:221-229 | `isSuperset` as written answers false for every proper subset |
| ListBacked.SupersetAsWrittenCountsDuplicates | set.php:223 | An array with a repeated value, `[1, 1]` against `{1}`, fails the count check although it is included |
| ListBacked.SubsetAsWrittenAcceptsIncomparable | set.php:237-240 | For two sets neither of which includes the other, `isSubset` as written says each is a subset of the other |
| ListBacked.DisjointAsWrittenInverted | set.php:248-251 | `{1}` and `[2]` share nothing, yet `isDisjoint` as written says they are not disjoint |

## Left out

- `getIterator`, `__isset` (set.php) and `__toString` in src/Set.php are not modelled. They read the set and change nothing.
- ListBacked.Set.Pop: set.php's `__toString` is not modelled, and it is not read-only. It runs `asort($this->members)` (set.php:42), which reorders the list in place. The model's list order assumes no string conversion of the set happened in between. That covers the order stated by `Update`, `DifferenceUpdate`, `IntersectionUpdate`, `SymmetricDifference` and their clones, and the entry `Pop` returns. For example, `$s = new Set([2, 1]); echo $s; $s->pop();` returns 2, while the model's list `[2, 1]` gives 1, as PHP does without the `echo`.
- PHP's loose comparison (`in_array` and `array_search` compare loosely; `array_unique`, `array_diff` and `array_intersect` compare values as strings) is not modelled. Values are compared with Dafny equality.
- The key coercion of `$map[$member]` (`"1"` and `1` become one key, a float is truncated) is not modelled.
- `Codevat.Set` members are integers only. That keeps `asort` in `toArray` meaningful, and string members are left out.
- Codevat.Set.Pop: the model says a former member is returned, not that it is the earliest-inserted key, because `$map`'s insertion order is not modelled.
- Codevat.Set.ToArray: the result is a list of values; the integer keys `asort` keeps beside them are not modelled.
- The PHP array keys that `array_unique`, `array_diff`, `array_intersect` and `unset` leave as holes in set.php's `$members` are not modelled. The list is modelled as its values in order.
- `count($other)` on an argument that is not `Countable` is not modelled. In set.php's `isSuperset`, before PHP 8 it warns and counts 1; from PHP 8 on it throws `TypeError`. The as-written model takes the argument as an array.
- The requirement that `update`, `differenceUpdate`, `intersectionUpdate` and their clones get at least one argument is not modelled. The model accepts an empty sequence of arguments and then changes nothing.
- ListBacked.Set.UpdateOne: arrays with string keys are not modelled. `array_unique` (set.php:26) keeps the caller's string keys, and `array_merge` (set.php:101) lets a later equal string key overwrite an earlier value. So `new Set(['k' => 1])` then `update(['k' => 2])` leaves `{2}`, where the model gives `{1, 2}`. The same overwrite reaches `Update`, `Union` and `SymmetricDifference`, whose union goes through `array_merge`. The model takes every array argument as a list with integer keys.
- `PrimitivesSet` in set.php is not part of this model.
- tests.php is not part of this model.
- set.php's `pop` returns `null` on an empty set rather than raising. The model follows the code, with `None`.
- set.php's `isSubset` is the negation of `isSuperset` in the code. The model follows the code in `IsSubsetAsWritten` and corrects it in `ListBacked.Set.IsSubset`.

## Findings

| source | as written | input that shows it | evidently intended | confidence | as-written member | corrected member |
|---|---|---|---|---|---|---|
| set.php:221-229 | `isSuperset` tests that the symmetric difference is empty, which is set equality | `new Set([1, 2])` and `isSuperset([2])` gives false | true iff every value of `$other` is a member | high, not executed | ListBacked.SupersetAsWrittenRejectsProperSubsets | ListBacked.Set.IsSuperset |
| set.php:223 | the early exit compares the member count with `count($other)`, which counts repeated array entries | `new Set([1])` and `isSuperset([1, 1])` gives false | compare with the number of distinct values | high, not executed | ListBacked.SupersetAsWrittenCountsDuplicates | ListBacked.Set.IsSuperset |
| set.php:237-240 | `isSubset` is `!isSuperset` | `new Set([1])` and `isSubset([2])` gives true | true iff every member is among `$other`'s values | high, not executed | ListBacked.SubsetAsWrittenAcceptsIncomparable | ListBacked.Set.IsSubset |
| set.php:248-251 | `isDisjoint` returns `(bool) count(intersection)`, true when the sets DO share a value | `new Set([1])` and `isDisjoint([2])` gives false | true iff the intersection is empty | high, not executed | ListBacked.DisjointAsWrittenInverted | ListBacked.Set.IsDisjoint |
