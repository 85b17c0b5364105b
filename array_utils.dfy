/**
 * `ArrayUtils` (src/util/sort.ts): the simpler sort, which reads the sort key
 * as a direct property `element[key]` instead of through a dotted path.
 */
module ArrayUtils {
  import opened JsValue
  import opened PathReader
  import opened Sorting
  import opened ConsistentSort
  import ArrayHelper

  /** The sort key of this `sortByLabel`: the property read `element[key]`. */
  function PropertyKey(key: string): Val -> Val {
    e => Get(e, key)
  }

  /** The comparator of this `sortByLabel`, on property keys with `>` and `<`. */
  function ByProperty(key: string, order: Order): Comparator {
    Comparator(PropertyKey(key), LessThan, order)
  }

  /**
   * `ArrayUtils.sortByLabel(data, key, order)`: sorts a spread copy of
   * `data`, which is itself left as it was.
   */
  method SortByLabel(data: array<Val>, key: string, order: Order) returns (sorted: array<Val>)
    ensures fresh(sorted)
    ensures sorted[..] == SortSeq(ByProperty(key, order), data[..])
    ensures data[..] == old(data[..])
  {
    sorted := Spread(data);
    SortInPlace(sorted, ByProperty(key, order));
  }

  /**
   * The result is a permutation of the input with no neighbouring pair out
   * of the requested order, and undefined elements after all the others.
   */
  lemma SortByLabelSorted(data: seq<Val>, key: string, order: Order)
    ensures var r := SortSeq(ByProperty(key, order), data);
      && |r| == |data|
      && multiset(r) == multiset(data)
      && (forall i :: 0 <= i < |r| - 1 ==> ArrayHelper.KeysInOrder(order, Get(r[i], key), Get(r[i + 1], key)))
      && (forall i, j :: 0 <= i < j < |r| && r[i].Undef? ==> r[j].Undef?)
  {
    var c := ByProperty(key, order);
    LessThanIsStrictOrder();
    SortSeqSorted(c, data);
    SortSeqUndefinedLast(c, data);
    var r := SortSeq(c, data);
    forall i | 0 <= i < |r| - 1 ensures ArrayHelper.KeysInOrder(order, Get(r[i], key), Get(r[i + 1], key)) {
      assert InOrder(c, r[i], r[i + 1]);
    }
  }

  /** An empty input gives an empty result and a single element comes back as it was. */
  lemma SortByLabelShort(data: seq<Val>, key: string, order: Order)
    requires |data| <= 1
    ensures SortSeq(ByProperty(key, order), data) == data
  {
    if |data| == 1 {
      assert data == [] + [data[0]];
    }
  }

  /** Stability: the elements whose property is `v` come out in their input order. */
  lemma SortByLabelStable(data: seq<Val>, key: string, order: Order, v: Val)
    ensures WithKey(PropertyKey(key), SortSeq(ByProperty(key, order), data), v) == WithKey(PropertyKey(key), data, v)
  {
    LessThanIsStrictOrder();
    SortSeqStable(ByProperty(key, order), data, v);
  }

  /** Stability for ties: the elements whose properties `<` compares as the same value `v` keep their input order. */
  lemma SortByLabelStableOnTies(data: seq<Val>, key: string, order: Order, v: Val)
    ensures WithKey(RankOf(PropertyKey(key)), SortSeq(ByProperty(key, order), data), v) == WithKey(RankOf(PropertyKey(key)), data, v)
  {
    StableOnTies(ByProperty(key, order), data, v);
  }

  /**
   * When every element is defined and the properties are all number-like or
   * all string-like, any permutation of `data` with neighbouring properties
   * in order that keeps tied elements in input order is the result.
   */
  lemma SortByLabelUnique(data: seq<Val>, key: string, order: Order, t: seq<Val>)
    requires OneKind(PropertyKey(key), data)
    requires multiset(t) == multiset(data)
    requires forall i :: 0 <= i < |t| - 1 ==> ArrayHelper.KeysInOrder(order, Get(t[i], key), Get(t[i + 1], key))
    requires SameTies(RankOf(PropertyKey(key)), t, data)
    ensures t == SortSeq(ByProperty(key, order), data)
  {
    var c := ByProperty(key, order);
    OneKindPermutation(c.key, data, t);
    forall i | 0 <= i < |t| - 1 ensures InOrder(c, t[i], t[i + 1]) {
      assert ArrayHelper.KeysInOrder(order, Get(t[i], key), Get(t[i + 1], key));
    }
    SortSeqUnique(c, data, t);
  }

  /**
   * For a key without "." and elements that are all truthy (objects, say),
   * this sort and `ArrayHelper.sortByLabel` return the same sequence.
   */
  lemma AgreesWithArrayHelper(data: seq<Val>, key: string, order: Order)
    requires '.' !in key
    requires forall e :: e in data ==> Truthy(e)
    ensures SortSeq(ByProperty(key, order), data) == SortSeq(ArrayHelper.ByLabel(key, order), data)
  {
    forall e | e in data ensures PropertyKey(key)(e) == ArrayHelper.LabelKey(key)(e) {
      GetValueSingleSegment(e, key);
    }
    SortSeqSameKeys(ByProperty(key, order), ArrayHelper.ByLabel(key, order), data);
  }
}
