# Array helpers: a verified model

This project models a small TypeScript library of array helpers.

`ArrayHelper` (src/util/arrayHelper.ts) has four helpers:
- `sortByLabel` sorts a copy of an array by a dotted key path.
- `mergeByLabels` merges each object of a second array with the first object of a first array that agrees with it on a list of key paths.
- `filterByConditions` keeps the objects whose values at some key paths are `===` to given values.
- `groupBy` collects objects into lists keyed by the stringified value at a key path.

All four read values through the same dot-path reader `getValue`. It splits the path on "." and folds `acc && acc[part]` over the segments.

`ArrayUtils` (src/util/sort.ts) has one helper: a `sortByLabel` that reads a plain top-level property instead of a path.

The model has six modules:

- `JsValue` (js_value.dfy) covers the JavaScript values the helpers touch:
  - `undefined`, `null`, booleans, integers, strings, and objects with an identity and own fields;
  - truthiness, own-property reads, `===`, and the operator `<` (strings character by character, everything else numerically);
  - conversion of a value to a property key.
- `PathReader` (path_reader.dfy) covers `path.split(".")`, the fold, and what the fold returns.
- `Sorting` (sorting.dfy) covers what the two sorts share: the spread copy, the three-way comparator, and the stable host sort.
  - The host sort follows `Array.prototype.sort` (section 23.1.3.30 of ECMA-262): undefined elements never reach the comparator and go after all the others (CompareArrayElements, section 23.1.3.30.2).
  - The host sort is modelled by `SortSeq`, an insertion sort written as a function. It is the specification.
  - `SortInPlace` implements it in place on an array.
  - Both are generic over the comparator's key function.
- `ConsistentSort` (consistent_sort.dfy) covers the host sort with `<` as the comparator, on keys where `<` is consistent. That means every element is defined, and the keys are either all number-like or all string-like. Number-like keys (null, booleans, integers) are compared as numbers. String-like keys (strings, objects) are compared as strings. On such keys a stable sort has exactly one result.
- `ArrayHelper` (array_helper.dfy) and `ArrayUtils` (array_utils.dfy) hold the helpers themselves.

Two behaviours of the code are easy to overlook, and the model keeps both.
- When a path traversal meets a falsy intermediate value, `getValue` returns that value, not undefined: `{a: 0}` read at `a.b` gives `0`.
- `groupBy` throws a TypeError for group keys that name members inherited from `Object.prototype`, such as "constructor" (see Findings).

## Model

| member | source | states |
|---|---|---|
| JsValue.Truthy | src/util/arrayHelper.ts:15 | ToBoolean, as `acc && acc[part]` tests it (and `match ? … : …` at line 53): undefined, null, false, 0 and "" are falsy, every other value is truthy |
| JsValue.Get | src/util/arrayHelper.ts:15 | the property read `acc[part]`: the own field of that name of an object, undefined for anything else |
| JsValue.OwnFields | src/util/arrayHelper.ts:54-55 | the fields an object spread `{...v}` copies: an object's own fields, none for other values |
| JsValue.StrictEquals | src/util/arrayHelper.ts:48 | `===` (also at line 78): the same identity for two objects, the same value otherwise |
| JsValue.LessThan | src/util/arrayHelper.ts:22-23 | `<`: an object becomes "[object Object]"; two strings compare character by character, shorter prefix first; otherwise both sides become numbers (null 0, booleans 0 and 1), and undefined or a string (NaN) makes it false |
| JsValue.GreaterThan | src/util/arrayHelper.ts:22 | `a > b` is evaluated as `b < a` |
| JsValue.LessThanComparedAs | src/util/arrayHelper.ts:22-23 | `a < b` depends only on what each side is compared as: null and booleans as numbers, objects as "[object Object]" |
| JsValue.ToPropertyKey | src/util/arrayHelper.ts:95-99 | the string a group key becomes when it indexes `acc`: "undefined", "null", "true"/"false", the decimal digits of a number, the string itself, "[object Object]" |
| JsValue.LessThanStrictOrder | src/util/arrayHelper.ts:22-23 | `<` as the comparator evaluates it is irreflexive and never holds both ways |
| JsValue.LessThanTotalOnKind | src/util/arrayHelper.ts:22-23 | on keys that are all number-like (null, booleans, integers) or all string-like (strings, objects), two keys compared as different values are ordered one way or the other, `<` is transitive, and so is "not greater" |
| JsValue.IntToStringRoundTrip | src/util/arrayHelper.ts:95 | the property key printed for an integer reads back to that integer |
| JsValue.IntToStringInjective | src/util/arrayHelper.ts:95 | distinct integers become distinct property keys |
| JsValue.NatToString | src/util/arrayHelper.ts:95 | a natural number prints as a non-empty string of decimal digits |
| PathReader.Split | src/util/arrayHelper.ts:15 | `path.split(".")` gives at least one segment, and no segment contains "." |
| PathReader.JoinSplit | src/util/arrayHelper.ts:15 | joining the segments with "." gives the path back |
| PathReader.SplitJoin | src/util/arrayHelper.ts:15 | splitting the join of dot-free segments gives those segments back |
| PathReader.SplitSingle | src/util/arrayHelper.ts:15 | a key without "." is one segment |
| PathReader.SplitConcat | src/util/arrayHelper.ts:15 | `a + "." + b` splits into the segments of `a` followed by those of `b` |
| PathReader.Step | src/util/arrayHelper.ts:15 | one step of the fold, `acc && acc[part]`: the field read on a truthy accumulator, the accumulator itself on a falsy one |
| PathReader.GetPath | src/util/arrayHelper.ts:15 | `reduce` of that step over the segments, left to right, starting from `obj` |
| PathReader.GetValue | src/util/arrayHelper.ts:14-16 | `getValue(obj, path)`: the fold over `path.split(".")` |
| PathReader.FalsyIsSticky | src/util/arrayHelper.ts:15 | once the accumulator of `acc && acc[part]` is falsy, the fold returns it unchanged |
| PathReader.GetPathConcat | src/util/arrayHelper.ts:15 | folding over `a + b` is folding over `b` from the result over `a` |
| PathReader.WalkConcat | src/util/arrayHelper.ts:15 | the plain nested read over `a + b` is the read of `b` from the read of `a` |
| PathReader.GetPathAllTruthy | src/util/arrayHelper.ts:15 | when every intermediate value is truthy, the fold equals the nested field read |
| PathReader.GetPathFirstFalsy | src/util/arrayHelper.ts:15 | when the k-th intermediate value is the first falsy one, the fold returns that value |
| PathReader.GetPathIsFieldOrFirstFalsy | src/util/arrayHelper.ts:15 | segments apply left to right: the result is the nested field, or else the first falsy intermediate value |
| PathReader.GetValueConcat | src/util/arrayHelper.ts:14-16 | `getValue(obj, p + "." + q)` equals `getValue(getValue(obj, p), q)` |
| PathReader.GetValueOfFalsy | src/util/arrayHelper.ts:14-16 | reading any path from a falsy value (undefined, say) gives that value back |
| PathReader.GetValueSingleSegment | src/util/arrayHelper.ts:14-16 | for a dot-free key on a truthy value, `getValue` is the property read `obj[key]` |
| Sorting.Compare | src/util/arrayHelper.ts:18-24 | what the host sort does with two elements: two undefined elements tie, an undefined element goes after any other, and otherwise the comparator decides, with `>` tested before `<` and the sign set by the order (the same comparator as sort.ts:10-14) |
| Sorting.CompareSpec | src/util/arrayHelper.ts:18-24 | for a strict `<`, the comparison (undefined elements last, else the comparator) is antisymmetric; it returns at most 0 exactly for pairs in order, and non-zero only when one side is undefined or the keys differ |
| Sorting.Insert | src/util/arrayHelper.ts:18 | one insertion step of the host sort adds exactly one element |
| Sorting.InsertPermutes | src/util/arrayHelper.ts:18 | an insertion step adds the element to the multiset and changes nothing else |
| Sorting.InsertSorted | src/util/arrayHelper.ts:18-25 | inserting into a sorted sequence keeps it sorted |
| Sorting.InsertStable | src/util/arrayHelper.ts:18-25 | inserting never moves an element in front of an earlier element with the same key |
| Sorting.InsertAt | src/util/arrayHelper.ts:18-25 | an insertion places the element right after the last element that does not compare greater |
| Sorting.SortSeq | src/util/arrayHelper.ts:18 | the sort returns a permutation of its input, of the same length |
| Sorting.SortSeqSnoc | src/util/arrayHelper.ts:18 | sorting `s + [x]` inserts `x` into the sorted `s` |
| Sorting.SortSeqSorted | src/util/arrayHelper.ts:18-25 | for a strict `<`, every neighbouring pair of the result is in the requested order |
| Sorting.SortSeqUndefinedLast | src/util/arrayHelper.ts:18 | in the result, every element after an undefined element is undefined too |
| Sorting.StableSortUnique | src/util/arrayHelper.ts:18-25 | when keys are totally ordered, two permutations that are both in order throughout and keep every key's elements in the same order are equal: a stable sort's result is unique |
| Sorting.Reverse | src/util/arrayHelper.ts:22-23 | the reversal has the same length and holds element `|s| - 1 - i` at `i` |
| Sorting.ReversePermutes | src/util/arrayHelper.ts:22-23 | reversing is a permutation |
| Sorting.WithKeyReverse | src/util/arrayHelper.ts:22-23 | the elements with a given key in a reversal are those of the original, reversed |
| Sorting.WithKeyDistinct | src/util/arrayHelper.ts:22-23 | with pairwise different keys, at most one element has any given key |
| Sorting.SortSeqStable | src/util/arrayHelper.ts:18-25 | the elements with any one key keep their input order (stability) |
| Sorting.SortSeqOfSorted | src/util/arrayHelper.ts:18-25 | a sequence already in order is returned unchanged |
| Sorting.SortSeqIdempotent | src/util/arrayHelper.ts:18-25 | sorting a sorted result again gives the same result |
| Sorting.SortSeqSameCompare | src/util/arrayHelper.ts:18-25 | two comparators that return the same for every pair of elements sort alike |
| Sorting.SortSeqSameKeys | src/util/arrayHelper.ts:18-25 | two comparators that read the same keys for every element sort identically |
| Sorting.Spread | src/util/arrayHelper.ts:18 | `[...data]` is a new array with the same contents |
| Sorting.InsertInPlace | src/util/arrayHelper.ts:18 | shifting one element into the sorted prefix of an array performs one insertion step and leaves the rest of the array as it was |
| Sorting.SortInPlace | src/util/arrayHelper.ts:18 | sorting an array in place leaves exactly the sort of its old contents |
| ConsistentSort.LessThanIsStrictOrder | src/util/arrayHelper.ts:22-23 | `<` on JavaScript values is a strict order, for every pair of values |
| ConsistentSort.OneKind | src/util/arrayHelper.ts:22-23 | the sequences on which `<` is consistent: every element is defined, and its keys are all number-like or all string-like |
| ConsistentSort.RankedCompare | src/util/arrayHelper.ts:22-24 | with `<` as the comparator, comparing the keys and comparing what `<` compares them as give the same result for every pair |
| ConsistentSort.TieIsSameRank | src/util/arrayHelper.ts:22-24 | two defined elements whose keys are of comparable kinds make the comparator return 0 exactly when `<` compares their keys as the same value (`true` and `1`, say) |
| ConsistentSort.SortSeqRanked | src/util/arrayHelper.ts:18-24 | sorting by the keys and sorting by what `<` compares them as give the same sequence |
| ConsistentSort.StableOnTies | src/util/arrayHelper.ts:18-24 | the elements whose keys `<` compares as one value (the pairs the comparator returns 0 for) keep their input order, for keys of any kinds |
| ConsistentSort.SortedThroughout | src/util/arrayHelper.ts:18-25 | on one-kind keys, neighbours in order puts every pair in order |
| ConsistentSort.TotalRanked | src/util/arrayHelper.ts:22-23 | on one-kind keys, any two compared values are equal or ordered by `<` one way or the other |
| ConsistentSort.SortSeqUnique | src/util/arrayHelper.ts:18-25 | on one-kind keys, any permutation in order that keeps tied elements in input order is the sort: a stable sort has one possible result |
| ConsistentSort.ReverseDescending | src/util/arrayHelper.ts:22-23 | on one-kind keys, the ascending sort read back to front has its neighbours in descending order |
| ConsistentSort.SortSeqReversed | src/util/arrayHelper.ts:22-23 | on one-kind keys with no two tied, the descending sort is the ascending sort reversed |
| ArrayHelper.ByLabel | src/util/arrayHelper.ts:18-24 | the comparator of `sortByLabel`: keys read with `getValue`, compared with `<` and `>`, in the requested order |
| ArrayHelper.SortByLabel | src/util/arrayHelper.ts:9-26 | the result is a new array holding the sort of `data` by `getValue` keys; `data` is unchanged |
| ArrayHelper.SortByLabelSorted | src/util/arrayHelper.ts:18-25 | the result is a permutation of `data`; with "asc" no neighbouring key is `>` the next one, with "desc" none is `<` it; undefined elements come after all the others |
| ArrayHelper.SortByLabelTotallyOrdered | src/util/arrayHelper.ts:18-25 | for defined elements whose keys are all number-like or all string-like, every pair of the result, not only neighbours, is in the requested order |
| ArrayHelper.SortByLabelUnique | src/util/arrayHelper.ts:18-25 | for defined elements whose keys are all number-like or all string-like, any permutation of `data` in the requested order that keeps tied elements (keys compared as the same value) in input order is the model's result: every stable sort agrees with it |
| ArrayHelper.SortByLabelStableOnTies | src/util/arrayHelper.ts:18-24 | the elements whose keys `<` compares as one value, such as `true` and `1`, keep their input order |
| ArrayHelper.SortByLabelReversed | src/util/arrayHelper.ts:22-23 | for keys of one kind with no two tied, the "desc" result is the "asc" result reversed |
| ArrayHelper.SortByLabelStable | src/util/arrayHelper.ts:22-24 | the elements whose `getValue` key is any given value keep their input order |
| ArrayHelper.SortByLabelIdempotent | src/util/arrayHelper.ts:18-25 | sorting the result again returns it unchanged |
| ArrayHelper.LabelsAgree | src/util/arrayHelper.ts:47-49 | `labels.every(...)`: on every label, the two values read with `getValue` are `===` |
| ArrayHelper.FindMatch | src/util/arrayHelper.ts:46-50 | the index `find` stops at is the lowest one whose element agrees on every label under `===`; when there is none, no element agrees |
| ArrayHelper.MergeOne | src/util/arrayHelper.ts:53-55 | one element of the result: a new object with the fields of `{ ...item2, ...match }` when the match is truthy, of `{ ...item2 }` otherwise |
| ArrayHelper.MergeByLabels | src/util/arrayHelper.ts:36-57 | one new object per element of `list2`, in order; its fields are those of `list2[i]` merged with the first match's, the match's winning; without a (truthy) match it is a copy of `list2[i]` |
| ArrayHelper.MergeWithNoLabels | src/util/arrayHelper.ts:46-50 | with no labels, every element is merged with `list1[0]` |
| ArrayHelper.MergeFreshObjects | src/util/arrayHelper.ts:53-55 | with `firstId` above every input identity, no merged object is `===` to an input element or to another merged object |
| ArrayHelper.MeetsConditions | src/util/arrayHelper.ts:76-79 | `Object.keys(conditions).every(...)`: on every condition key, the value read with `getValue` is `===` to the condition's value |
| ArrayHelper.FilterByConditions | src/util/arrayHelper.ts:65-81 | the result is a subsequence of `data` holding the elements that meet every condition, each as often as in `data`; no conditions keeps all of `data` |
| ArrayHelper.GroupKey | src/util/arrayHelper.ts:95 | `getValue(item, key) ?? "undefined"`, turned into the property key it indexes `acc` with |
| ArrayHelper.GroupBy | src/util/arrayHelper.ts:89-102 | (as intended) the group keys are exactly the keys that occur, and each group is the elements with that key, in input order |
| ArrayHelper.GroupByAsWritten | src/util/arrayHelper.ts:94-101 | (as written) on an accumulator inheriting the names `inherited` (`ObjectPrototypeMembers` for `{}`), fails with a TypeError exactly when some group key is one of those names; otherwise it groups as intended |
| ArrayHelper.InheritedKeyCounterexample | src/util/arrayHelper.ts:95-99 | an object whose key value is "constructor" makes the code as written fail, while the intended grouping gives it a group of its own |
| ArrayHelper.GroupIsPartition | src/util/arrayHelper.ts:94-101 | group `g` holds exactly the elements whose key is `g`, with every occurrence, and it is a subsequence of `data` |
| ArrayHelper.GroupKeyCases | src/util/arrayHelper.ts:95 | `null` and `undefined` both go to the group "undefined"; `false` goes to "false" and `0` to "0" |
| ArrayHelper.DistinctIntegersDistinctGroups | src/util/arrayHelper.ts:95 | elements whose keys are different integers land in different groups |
| ArrayUtils.ByProperty | src/util/sort.ts:11-12 | the comparator of this `sortByLabel`: keys read as `element[key]`, compared with `<` and `>`, in the requested order |
| ArrayUtils.SortByLabel | src/util/sort.ts:9-15 | the result is a new array holding the sort of `data` by the property `element[key]`; `data` is unchanged |
| ArrayUtils.SortByLabelSorted | src/util/sort.ts:10-12 | the result is a permutation of `data`; with "asc" no neighbouring `element[key]` is `>` the next, with "desc" none is `<` it; undefined elements come after all the others |
| ArrayUtils.SortByLabelShort | src/util/sort.ts:10-13 | an empty input gives an empty result, and one element comes back unchanged |
| ArrayUtils.SortByLabelStable | src/util/sort.ts:11-13 | the elements with equal `element[key]` keep their input order |
| ArrayUtils.SortByLabelStableOnTies | src/util/sort.ts:10-13 | the elements whose properties `<` compares as one value keep their input order |
| ArrayUtils.SortByLabelUnique | src/util/sort.ts:10-14 | for defined elements whose properties are all number-like or all string-like, any permutation of `data` in the requested order that keeps tied elements in input order is the model's result |
| ArrayUtils.AgreesWithArrayHelper | src/util/sort.ts:10-14 | for truthy elements and a key without ".", this sort gives the same result as `ArrayHelper.sortByLabel` |

## Findings

| source | as written | input that shows it | evidently intended | confidence | as-written member | corrected member |
|---|---|---|---|---|---|---|
| src/util/arrayHelper.ts:94-101 | The guard `!acc[groupKey]` runs on an accumulator made with `{}`, so it also sees members inherited from `Object.prototype`. For such a key no list is created, and `.push` is called on a function, which throws a TypeError. | an element whose key value is "constructor" (likewise "toString", "valueOf", "__proto__", ...) | one group per distinct key, whatever the key's name | high (not executed) | ArrayHelper.GroupByAsWritten, ArrayHelper.InheritedKeyCounterexample | ArrayHelper.GroupBy |

## Left out

- Numbers are integers. Floating point, NaN, -0, and the precision loss beyond 2^53 are not modelled.
- The operator `<` between a string and a non-string primitive (a number, a boolean or `null`) converts the string to a number: `"" < true` is true. The model gives false for every such pair, as it does for any comparison involving NaN. Keys that are all number-like (null, booleans, integers) or all string-like (strings, objects) compare exactly as in JavaScript.
- Strings are sequences of characters, compared by character. JavaScript compares UTF-16 code units; the two agree outside surrogate pairs.
- Property reads see only own fields. Reading through the prototype chain (`"abc".length`, methods of objects) and indexing into strings give undefined in the model. The exception is the `groupBy` accumulator, whose inherited members are modelled (see Findings).
- An object spread copies only objects' own fields. The spread of a string (its characters as indexed fields) is not modelled.
- Converting an object to a string always gives "[object Object]". Custom `toString` and `Symbol.toPrimitive` are not modelled.
- Objects are finite maps, so the enumeration order of their keys is not modelled. This covers the order of the groups and of the merged fields.
- ArrayHelper.MergeByLabels: the new objects get the identities `firstId`, `firstId + 1`, ..., in place of the allocator. `firstId` is not constrained, so a caller can give a new object the identity of an input object, and `===` would then equate two objects that JavaScript keeps apart. `ArrayHelper.MergeFreshObjects` shows that with `firstId` above every input identity the new objects are distinct.
- The host sort is modelled as a stable insertion sort. The comparator is consistent when every key is number-like (null, booleans and integers, all compared as numbers) or every key is string-like (strings and objects, all compared as strings). Mixes within one group are consistent: `true`, `1`, `0` ascending gives `0`, `true`, `1`. For such keys `ArrayHelper.SortByLabelUnique` and `ArrayUtils.SortByLabelUnique` show that every stable sort gives the model's result. Only two mixes make the comparator inconsistent. One is a missing (undefined) key among present ones: undefined is neither below nor above anything. The other is a string or object key beside a number-like one, which the model's `<` finds false both ways. For those ECMA-262 leaves the order implementation-defined, and the model fixes the order insertion sort produces.
- ArrayHelper.SortByLabel, ArrayHelper.SortByLabelSorted, ArrayHelper.SortByLabelStable, ArrayHelper.SortByLabelIdempotent: when a missing key sits among present ones, or a string-like key beside a number-like one, these describe insertion sort's order. That is one order a host may produce for the inconsistent comparator, not the only one. For the other keys it is the only one.
- ArrayUtils.SortByLabel, ArrayUtils.SortByLabelSorted, ArrayUtils.SortByLabelStable: the same holds for a missing property among present ones, or a string-like property beside a number-like one.
- ArrayHelper.SortByLabelUnique, ArrayUtils.SortByLabelUnique: these are stated for arrays without undefined elements. The host puts undefined elements last without calling the comparator, and `Sorting.SortSeqUndefinedLast` shows the model does the same. Uniqueness is not stated for arrays that contain them.
- ArrayUtils.SortByLabel: does not model the TypeError that reading `element[key]` throws on a `null` element. The host sort only calls the comparator when the array has two or more elements, and never on undefined elements (these go last, which the model does). The model reads undefined from `null` and sorts it as an element whose key is undefined.
- TypeScript types, generics and the `as T & U` casts have no run-time behaviour and are not modelled. The default `order = "asc"` is the caller passing `Asc`.
