/**
 * `ArrayHelper` (src/util/arrayHelper.ts): sorting, merging, filtering and
 * grouping arrays of objects by values read with the dot-path reader.
 */
module ArrayHelper {
  import opened JsValue
  import opened PathReader
  import opened Sorting
  import opened ConsistentSort

  /** `r` is `s` with some elements left out and the rest in their order. */
  ghost predicate IsSubsequence(r: seq<Val>, s: seq<Val>)
    decreases |s|
  {
    |r| == 0 || (|s| > 0 && ((r[0] == s[0] && IsSubsequence(r[1..], s[1..])) || IsSubsequence(r, s[1..])))
  }

  // ---------------------------------------------------------------- sortByLabel

  /** The sort key of `sortByLabel`: `getValue(element, key)`. */
  function LabelKey(key: string): Val -> Val {
    e => GetValue(e, key)
  }

  /** The comparator of `sortByLabel`, on `getValue` keys with `>` and `<`. */
  function ByLabel(key: string, order: Order): Comparator {
    Comparator(LabelKey(key), LessThan, order)
  }

  /**
   * `ArrayHelper.sortByLabel(data, key, order)`: sorts a spread copy of
   * `data`, which is itself left as it was.
   */
  method SortByLabel(data: array<Val>, key: string, order: Order) returns (sorted: array<Val>)
    ensures fresh(sorted)
    ensures sorted[..] == SortSeq(ByLabel(key, order), data[..])
    ensures data[..] == old(data[..])
  {
    sorted := Spread(data);
    SortInPlace(sorted, ByLabel(key, order));
  }

  /**
   * The result is a permutation of the input; the undefined elements come
   * last; and no neighbouring pair has its keys out of the requested order:
   * for "asc" no key is greater than the next one, for "desc" none is smaller.
   */
  lemma SortByLabelSorted(data: seq<Val>, key: string, order: Order)
    ensures var r := SortSeq(ByLabel(key, order), data);
      && |r| == |data|
      && multiset(r) == multiset(data)
      && (forall i, j :: 0 <= i < j < |r| && r[i].Undef? ==> r[j].Undef?)
      && forall i :: 0 <= i < |r| - 1 ==> KeysInOrder(order, GetValue(r[i], key), GetValue(r[i + 1], key))
  {
    var c := ByLabel(key, order);
    LessThanIsStrictOrder();
    SortSeqSorted(c, data);
    SortSeqUndefinedLast(c, data);
    var r := SortSeq(c, data);
    forall i | 0 <= i < |r| - 1 ensures KeysInOrder(order, GetValue(r[i], key), GetValue(r[i + 1], key)) {
      assert InOrder(c, r[i], r[i + 1]);
      if r[i + 1].Undef? {
        GetValueOfFalsy(Undef, key);
      }
    }
  }

  /** `a` may precede `b` in the requested order: for "asc" `a > b` is false, for "desc" `a < b` is. */
  predicate KeysInOrder(order: Order, a: Val, b: Val) {
    if order == Asc then !GreaterThan(a, b) else !LessThan(a, b)
  }

  /** No neighbouring pair of `t` has its keys out of the requested order. */
  predicate NeighboursInOrder(t: seq<Val>, key: string, order: Order) {
    forall i :: 0 <= i < |t| - 1 ==> KeysInOrder(order, GetValue(t[i], key), GetValue(t[i + 1], key))
  }

  /**
   * The keys read from `data` are ones `<` compares consistently: every
   * element is defined and its keys are all compared as numbers (null,
   * booleans and numbers) or all compared as strings (strings and objects).
   * A missing (undefined) key, or a string beside a number-like key, is neither.
   */
  predicate KeysOfOneKind(data: seq<Val>, key: string) {
    OneKind(LabelKey(key), data)
  }

  /** The key as `<` compares it (`ComparedAs`). */
  function RankKey(key: string): Val -> Val {
    RankOf(LabelKey(key))
  }

  /** No two keys read from `data` tie: `<` compares them as different values. */
  predicate NoTies(data: seq<Val>, key: string) {
    Untied(LabelKey(key), data)
  }

  /** For two defined elements, being in order for the comparator is having their keys in order. */
  lemma InOrderIsKeysInOrder(key: string, order: Order, x: Val, y: Val)
    requires !x.Undef? && !y.Undef?
    ensures InOrder(ByLabel(key, order), x, y) <==> KeysInOrder(order, GetValue(x, key), GetValue(y, key))
  {
  }

  /**
   * Stability for ties: the elements whose keys `<` compares as the same
   * value `v` (the comparator returns 0 between any two of them) keep their
   * input order.
   */
  lemma SortByLabelStableOnTies(data: seq<Val>, key: string, order: Order, v: Val)
    ensures WithKey(RankKey(key), SortSeq(ByLabel(key, order), data), v) == WithKey(RankKey(key), data, v)
  {
    StableOnTies(ByLabel(key, order), data, v);
  }

  /**
   * When the keys are of one kind `<` is a strict weak order on them, and
   * then every pair of the result is in order, not only neighbours.
   */
  lemma SortByLabelTotallyOrdered(data: seq<Val>, key: string, order: Order)
    requires KeysOfOneKind(data, key)
    ensures var r := SortSeq(ByLabel(key, order), data);
      forall i, j :: 0 <= i < j < |r| ==> KeysInOrder(order, GetValue(r[i], key), GetValue(r[j], key))
  {
    var c := ByLabel(key, order);
    var r := SortSeq(c, data);
    LessThanIsStrictOrder();
    SortSeqSorted(c, data);
    OneKindPermutation(c.key, data, r);
    SortedThroughout(c, r);
    forall i, j | 0 <= i < j < |r| ensures KeysInOrder(order, GetValue(r[i], key), GetValue(r[j], key)) {
      assert InOrder(c, r[i], r[j]);
      InOrderIsKeysInOrder(key, order, r[i], r[j]);
    }
  }

  /**
   * For keys of one kind the result is the only one a stable sort can give:
   * any permutation of `data` with neighbouring keys in order that keeps
   * tied elements (keys compared as the same value) in input order is it.
   */
  lemma SortByLabelUnique(data: seq<Val>, key: string, order: Order, t: seq<Val>)
    requires KeysOfOneKind(data, key)
    requires multiset(t) == multiset(data)
    requires NeighboursInOrder(t, key, order)
    requires SameTies(RankKey(key), t, data)
    ensures t == SortSeq(ByLabel(key, order), data)
  {
    var c := ByLabel(key, order);
    OneKindPermutation(c.key, data, t);
    forall i | 0 <= i < |t| - 1 ensures InOrder(c, t[i], t[i + 1]) {
      InOrderIsKeysInOrder(key, order, t[i], t[i + 1]);
    }
    SortSeqUnique(c, data, t);
  }

  /**
   * For keys of one kind with no two tied, the "desc" result is the "asc"
   * result reversed.
   */
  lemma SortByLabelReversed(data: seq<Val>, key: string)
    requires KeysOfOneKind(data, key) && NoTies(data, key)
    ensures SortSeq(ByLabel(key, Desc), data) == Reverse(SortSeq(ByLabel(key, Asc), data))
  {
    SortSeqReversed(ByLabel(key, Asc), data);
    assert ByLabel(key, Asc).(order := Desc) == ByLabel(key, Desc);
  }

  /** Stability: the elements whose key is `v` come out in their input order. */
  lemma SortByLabelStable(data: seq<Val>, key: string, order: Order, v: Val)
    ensures WithKey(LabelKey(key), SortSeq(ByLabel(key, order), data), v) == WithKey(LabelKey(key), data, v)
  {
    LessThanIsStrictOrder();
    SortSeqStable(ByLabel(key, order), data, v);
  }

  /** Sorting an already sorted result again returns it unchanged. */
  lemma SortByLabelIdempotent(data: seq<Val>, key: string, order: Order)
    ensures var r := SortSeq(ByLabel(key, order), data); SortSeq(ByLabel(key, order), r) == r
  {
    LessThanIsStrictOrder();
    SortSeqIdempotent(ByLabel(key, order), data);
  }

  // -------------------------------------------------------------- mergeByLabels

  /** `labels.every(label => getValue(item1, label) === getValue(item2, label))`. */
  predicate LabelsAgree(item1: Val, item2: Val, labels: seq<string>) {
    forall i :: 0 <= i < |labels| ==> StrictEquals(GetValue(item1, labels[i]), GetValue(item2, labels[i]))
  }

  /** `k` is the lowest index of `list1` whose element agrees with `item2` on every label. */
  ghost predicate IsFirstMatch(list1: seq<Val>, item2: Val, labels: seq<string>, k: int) {
    && 0 <= k < |list1|
    && LabelsAgree(list1[k], item2, labels)
    && forall j :: 0 <= j < k ==> !LabelsAgree(list1[j], item2, labels)
  }

  /** The index `list1.find(...)` stops at, if any. */
  function FindMatch(list1: seq<Val>, item2: Val, labels: seq<string>): (r: Option<nat>)
    ensures r.Some? ==> IsFirstMatch(list1, item2, labels, r.value)
    ensures r.None? ==> forall j :: 0 <= j < |list1| ==> !LabelsAgree(list1[j], item2, labels)
  {
    if |list1| == 0 then None
    else if LabelsAgree(list1[0], item2, labels) then Some(0)
    else
      match FindMatch(list1[1..], item2, labels)
      case None => None
      case Some(k) => Some(k + 1)
  }

  /** `out` is the shallow merge `{ ...base, ...over }`: the fields of both, `over` winning. */
  ghost predicate ShallowMerge(out: map<string, Val>, base: map<string, Val>, over: map<string, Val>) {
    && out.Keys == base.Keys + over.Keys
    && (forall f :: f in over ==> out[f] == over[f])
    && (forall f :: f in base && f !in over ==> out[f] == base[f])
  }

  /**
   * One element of the result: `match ? { ...item2, ...match } : { ...item2 }`,
   * a new object whose identity is `id`.
   */
  function MergeOne(item2: Val, found: Option<Val>, id: nat): Val {
    if found.Some? && Truthy(found.value) then Obj(id, OwnFields(item2) + OwnFields(found.value))
    else Obj(id, OwnFields(item2))
  }

  /**
   * `ArrayHelper.mergeByLabels(list1, list2, labels)`. The objects it
   * creates get the identities `firstId`, `firstId + 1`, ... in order.
   */
  function MergeByLabels(list1: seq<Val>, list2: seq<Val>, labels: seq<string>, firstId: nat): (r: seq<Val>)
    ensures |r| == |list2|
    ensures forall i :: 0 <= i < |r| ==> r[i].Obj? && r[i].id == firstId + i
    ensures forall i :: 0 <= i < |r| ==> OwnFields(list2[i]).Keys <= r[i].fields.Keys
    ensures forall i, k :: 0 <= i < |r| && IsFirstMatch(list1, list2[i], labels, k) ==>
              if Truthy(list1[k]) then ShallowMerge(r[i].fields, OwnFields(list2[i]), OwnFields(list1[k]))
              else r[i].fields == OwnFields(list2[i])
    ensures forall i :: 0 <= i < |r| && (forall j :: 0 <= j < |list1| ==> !LabelsAgree(list1[j], list2[i], labels)) ==>
              r[i].fields == OwnFields(list2[i])
  {
    seq(|list2|, i requires 0 <= i < |list2| =>
      var m := FindMatch(list1, list2[i], labels);
      MergeOne(list2[i], if m.Some? then Some(list1[m.value]) else None, firstId + i))
  }

  /**
   * With no labels every element of `list1` agrees with everything, so each
   * result is merged with `list1[0]`.
   */
  lemma MergeWithNoLabels(list1: seq<Val>, list2: seq<Val>, firstId: nat)
    requires |list1| > 0 && Truthy(list1[0])
    ensures var r := MergeByLabels(list1, list2, [], firstId);
      forall i :: 0 <= i < |r| ==> ShallowMerge(r[i].fields, OwnFields(list2[i]), OwnFields(list1[0]))
  {
    var r := MergeByLabels(list1, list2, [], firstId);
    forall i | 0 <= i < |r| ensures ShallowMerge(r[i].fields, OwnFields(list2[i]), OwnFields(list1[0])) {
      assert IsFirstMatch(list1, list2[i], [], 0);
    }
  }

  /**
   * When `firstId` is above the identity of every object in the inputs, the
   * merged objects are new: none is `===` to an input element or to another
   * merged object.
   */
  lemma MergeFreshObjects(list1: seq<Val>, list2: seq<Val>, labels: seq<string>, firstId: nat)
    requires forall e :: (e in list1 || e in list2) && e.Obj? ==> e.id < firstId
    ensures var r := MergeByLabels(list1, list2, labels, firstId);
      && (forall i, e :: 0 <= i < |r| && (e in list1 || e in list2) ==> !StrictEquals(r[i], e))
      && (forall i, j :: 0 <= i < j < |r| ==> !StrictEquals(r[i], r[j]))
  {
  }

  // --------------------------------------------------------- filterByConditions

  /** `Object.keys(conditions).every(key => getValue(item, key) === conditions[key])`. */
  predicate MeetsConditions(item: Val, conditions: map<string, Val>) {
    forall key :: key in conditions ==> StrictEquals(GetValue(item, key), conditions[key])
  }

  /**
   * `ArrayHelper.filterByConditions(data, conditions)`: the elements meeting
   * every condition, each as often as in `data` and in the order of `data`;
   * with no conditions, all of `data`.
   */
  function FilterByConditions(data: seq<Val>, conditions: map<string, Val>): (r: seq<Val>)
    ensures IsSubsequence(r, data)
    ensures forall x :: x in r <==> x in data && MeetsConditions(x, conditions)
    ensures forall x :: multiset(r)[x] == if MeetsConditions(x, conditions) then multiset(data)[x] else 0
    ensures |conditions| == 0 ==> r == data
  {
    if |data| == 0 then []
    else
      var rest := FilterByConditions(data[1..], conditions);
      FilterCons(data, conditions, rest);
      (if MeetsConditions(data[0], conditions) then [data[0]] else []) + rest
  }

  /** One step of the filter: the contract carries over from the tail to the whole of `data`. */
  lemma FilterCons(data: seq<Val>, conditions: map<string, Val>, rest: seq<Val>)
    requires |data| > 0 && IsSubsequence(rest, data[1..])
    requires forall x :: x in rest <==> x in data[1..] && MeetsConditions(x, conditions)
    requires forall x :: multiset(rest)[x] == if MeetsConditions(x, conditions) then multiset(data[1..])[x] else 0
    requires |conditions| == 0 ==> rest == data[1..]
    ensures var r := (if MeetsConditions(data[0], conditions) then [data[0]] else []) + rest;
      && IsSubsequence(r, data)
      && (forall x :: x in r <==> x in data && MeetsConditions(x, conditions))
      && (forall x :: multiset(r)[x] == if MeetsConditions(x, conditions) then multiset(data)[x] else 0)
      && (|conditions| == 0 ==> r == data)
  {
    SubsequenceCons(rest, data[1..], data[0], MeetsConditions(data[0], conditions));
    assert data == [data[0]] + data[1..];
  }

  /** Putting the same element in front of both sides, or only the right side, keeps a subsequence. */
  lemma SubsequenceCons(r: seq<Val>, s: seq<Val>, x: Val, keep: bool)
    requires IsSubsequence(r, s)
    ensures IsSubsequence((if keep then [x] else []) + r, [x] + s)
  {
    assert ([x] + s)[1..] == s;
    if keep {
      assert ([x] + r)[1..] == r;
    } else {
      assert [] + r == r;
    }
  }

  // -------------------------------------------------------------------- groupBy

  /** `getValue(item, key) ?? "undefined"`, as the property key the group is stored under. */
  function GroupKey(item: Val, key: string): string {
    var v := GetValue(item, key);
    ToPropertyKey(if Nullish(v) then Str("undefined") else v)
  }

  /** The members of group `g`: the elements of `data` whose group key is `g`, in order. */
  function Group(data: seq<Val>, key: string, g: string): seq<Val> {
    if |data| == 0 then []
    else Group(data[..|data| - 1], key, g) + (if GroupKey(data[|data| - 1], key) == g then [data[|data| - 1]] else [])
  }

  /**
   * `ArrayHelper.groupBy(data, key)` as intended: the accumulator gets one
   * list per group key that occurs, and each element is pushed onto its
   * list. Only the groups already created count as present (the code as
   * written also sees inherited members: `GroupByAsWritten`).
   */
  method GroupBy(data: seq<Val>, key: string) returns (groups: map<string, seq<Val>>)
    ensures forall g :: g in groups <==> exists i :: 0 <= i < |data| && GroupKey(data[i], key) == g
    ensures forall g :: g in groups ==> groups[g] == Group(data, key, g)
  {
    groups := map[];
    for i := 0 to |data|
      invariant GroupsOf(groups, data[..i], key)
    {
      var item := data[i];
      var groupKey := GroupKey(item, key);
      ghost var next := groups[groupKey := (if groupKey in groups then groups[groupKey] else []) + [item]];
      GroupsOfStep(groups, data, i, key);
      if groupKey !in groups {
        groups := groups[groupKey := []];
      }
      groups := groups[groupKey := groups[groupKey] + [item]];
      assert groups == next;
    }
    assert data[..|data|] == data;
    GroupKeysOccur(data, key);
  }

  /** `groups` is the grouping of `data`: the non-empty groups, each under its key. */
  ghost predicate GroupsOf(groups: map<string, seq<Val>>, data: seq<Val>, key: string) {
    && (forall g :: g in groups <==> Group(data, key, g) != [])
    && (forall g :: g in groups ==> groups[g] == Group(data, key, g))
  }

  /** One element pushed onto its group (created empty if missing) extends the grouping by that element. */
  lemma GroupsOfSnoc(groups: map<string, seq<Val>>, data: seq<Val>, item: Val, key: string)
    requires GroupsOf(groups, data, key)
    ensures var gk := GroupKey(item, key);
      GroupsOf(groups[gk := (if gk in groups then groups[gk] else []) + [item]], data + [item], key)
  {
    assert (data + [item])[..|data|] == data;
  }

  /** The grouping of the first `i` elements, with element `i` pushed onto its group, is the grouping of the first `i + 1`. */
  lemma GroupsOfStep(groups: map<string, seq<Val>>, data: seq<Val>, i: nat, key: string)
    requires i < |data| && GroupsOf(groups, data[..i], key)
    ensures var gk := GroupKey(data[i], key);
      GroupsOf(groups[gk := (if gk in groups then groups[gk] else []) + [data[i]]], data[..i + 1], key)
  {
    assert data[..i + 1] == data[..i] + [data[i]];
    GroupsOfSnoc(groups, data[..i], data[i], key);
  }

  /** A group is non-empty exactly when some element has its key. */
  lemma {:induction false} GroupKeysOccur(data: seq<Val>, key: string)
    ensures forall g :: Group(data, key, g) != [] <==> exists i :: 0 <= i < |data| && GroupKey(data[i], key) == g
  {
    if |data| > 0 {
      var init := data[..|data| - 1];
      GroupKeysOccur(init, key);
      forall g ensures Group(data, key, g) != [] <==> exists i :: 0 <= i < |data| && GroupKey(data[i], key) == g {
        if Group(init, key, g) != [] {
          var i :| 0 <= i < |init| && GroupKey(init[i], key) == g;
          assert data[i] == init[i];
        }
        if exists i :: 0 <= i < |data| && GroupKey(data[i], key) == g {
          var i :| 0 <= i < |data| && GroupKey(data[i], key) == g;
          if i < |init| {
            assert init[i] == data[i];
          }
        }
      }
    }
  }

  /**
   * The members every plain object inherits from `Object.prototype`
   * (section 20.1.3 of ECMA-262, with the accessors of its Annex B): all of
   * them are truthy and none of them has a `push` method.
   */
  const ObjectPrototypeMembers: set<string> := {
    "constructor", "hasOwnProperty", "isPrototypeOf", "propertyIsEnumerable",
    "toLocaleString", "toString", "valueOf", "__proto__",
    "__defineGetter__", "__defineSetter__", "__lookupGetter__", "__lookupSetter__"
  }

  datatype Grouping = Grouped(groups: map<string, seq<Val>>) | TypeError

  /**
   * `groupBy` as written, on an accumulator that inherits the members named
   * `inherited` (`ObjectPrototypeMembers` for one created with `{}`): the
   * guard `!acc[groupKey]` also sees those members, so for a group key such
   * as "constructor" no list is created and `push` is called on a function.
   */
  method GroupByAsWritten(data: seq<Val>, key: string, inherited: set<string>) returns (r: Grouping)
    ensures r.TypeError? <==> exists i :: 0 <= i < |data| && GroupKey(data[i], key) in inherited
    ensures r.Grouped? ==> forall g :: g in r.groups <==> exists i :: 0 <= i < |data| && GroupKey(data[i], key) == g
    ensures r.Grouped? ==> forall g :: g in r.groups ==> r.groups[g] == Group(data, key, g)
  {
    var groups: map<string, seq<Val>> := map[];
    for i := 0 to |data|
      invariant forall j :: 0 <= j < i ==> GroupKey(data[j], key) !in inherited
      invariant forall g :: g in groups ==> g !in inherited
      invariant GroupsOf(groups, data[..i], key)
    {
      var item := data[i];
      var groupKey := GroupKey(item, key);
      ghost var next := groups[groupKey := (if groupKey in groups then groups[groupKey] else []) + [item]];
      GroupsOfStep(groups, data, i, key);
      if groupKey !in groups {
        if groupKey in inherited {
          return TypeError;
        }
        groups := groups[groupKey := []];
      }
      groups := groups[groupKey := groups[groupKey] + [item]];
      assert groups == next;
    }
    assert data[..|data|] == data;
    GroupKeysOccur(data, key);
    return Grouped(groups);
  }

  /**
   * An object whose "kind" is "constructor": `groupBy` as written fails on
   * it, while the intended grouping puts it in the group "constructor".
   */
  lemma InheritedKeyCounterexample()
    ensures var item := Obj(0, map["kind" := Str("constructor")]);
      && GroupKey(item, "kind") in ObjectPrototypeMembers
      && Group([item], "kind", "constructor") == [item]
  {
    var item := Obj(0, map["kind" := Str("constructor")]);
    GetValueSingleSegment(item, "kind");
    assert GroupKey(item, "kind") == "constructor";
    assert [item][..0] == [];
  }

  /**
   * Partition: an element is in group `g` exactly when its group key is `g`,
   * and then with all its occurrences in `data`; the group keeps input order.
   */
  lemma {:induction false} GroupIsPartition(data: seq<Val>, key: string, g: string)
    ensures IsSubsequence(Group(data, key, g), data)
    ensures forall x :: multiset(Group(data, key, g))[x] == if GroupKey(x, key) == g then multiset(data)[x] else 0
  {
    if |data| > 0 {
      var init, last := data[..|data| - 1], data[|data| - 1];
      GroupIsPartition(init, key, g);
      assert data == init + [last];
      SubsequenceSnoc(Group(init, key, g), init, last, GroupKey(last, key) == g);
    }
  }

  /** Extending both sides by the same last element, or only the right side, keeps a subsequence. */
  lemma {:induction false} SubsequenceSnoc(r: seq<Val>, s: seq<Val>, x: Val, keep: bool)
    requires IsSubsequence(r, s)
    ensures IsSubsequence(r + (if keep then [x] else []), s + [x])
    decreases |s|
  {
    var r' := r + (if keep then [x] else []);
    if |s| == 0 {
      assert |r| == 0;
      if keep {
        assert r' == [x] && (s + [x])[1..] == [];
      }
    } else if |r| > 0 && r[0] == s[0] && IsSubsequence(r[1..], s[1..]) {
      SubsequenceSnoc(r[1..], s[1..], x, keep);
      assert r'[1..] == r[1..] + (if keep then [x] else []) && (s + [x])[1..] == s[1..] + [x];
    } else if |r| == 0 && !keep {
    } else if |r| == 0 {
      assert IsSubsequence(r, s[1..]);
      SubsequenceSnoc(r, s[1..], x, keep);
      assert (s + [x])[1..] == s[1..] + [x];
    } else {
      SubsequenceSnoc(r, s[1..], x, keep);
      assert (s + [x])[1..] == s[1..] + [x];
    }
  }

  /** `null` and `undefined` both fall into the group "undefined"; `false` and 0 keep groups of their own. */
  lemma GroupKeyCases(item: Val, key: string)
    ensures Nullish(GetValue(item, key)) ==> GroupKey(item, key) == "undefined"
    ensures GetValue(item, key) == Bool(false) ==> GroupKey(item, key) == "false"
    ensures GetValue(item, key) == Int(0) ==> GroupKey(item, key) == "0"
  {
  }

  /** Elements whose keys are different integers land in different groups. */
  lemma DistinctIntegersDistinctGroups(a: Val, b: Val, key: string)
    requires GetValue(a, key).Int? && GetValue(b, key).Int?
    requires GetValue(a, key) != GetValue(b, key)
    ensures GroupKey(a, key) != GroupKey(b, key)
  {
    IntToStringInjective(GetValue(a, key).i, GetValue(b, key).i);
  }
}
