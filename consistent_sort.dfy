/**
 * The host sort with `<` as the comparator's `less`, for keys on which `<`
 * is consistent: every element defined and its keys all number-like (null,
 * booleans, numbers) or all string-like (strings, objects). On such keys the
 * comparator ranks two elements by what `<` compares their keys as
 * (`ComparedAs`), it is a strict weak order, and the stable sort has exactly
 * one possible result. Both `sortByLabel` helpers are instances, with their
 * own key functions.
 */
module ConsistentSort {
  import opened JsValue
  import opened Sorting

  /** JavaScript's `<` is a strict order, which is all the sort needs to be well behaved. */
  lemma LessThanIsStrictOrder()
    ensures StrictOrder(LessThan)
  {
    forall a, b ensures LessThan(a, b) ==> !LessThan(b, a) {
      LessThanStrictOrder(a, b);
    }
  }

  /** The key as `<` compares it: `true` and `1` are the same number to it, and any two plain objects the same string. */
  function RankOf(key: Val -> Val): Val -> Val {
    e => ComparedAs(key(e))
  }

  /** The comparator `c` with its keys replaced by what `<` compares them as. */
  function Ranked(c: Comparator): Comparator {
    Comparator(RankOf(c.key), c.less, c.order)
  }

  /** Every element of `s` is defined, and its keys are all number-like or all string-like. */
  predicate OneKind(key: Val -> Val, s: seq<Val>) {
    && (forall e :: e in s ==> !e.Undef?)
    && (|| (forall e :: e in s ==> NumberLike(key(e)))
        || (forall e :: e in s ==> StringLike(key(e))))
  }

  /** No two elements of `s` have keys that `<` compares as the same value. */
  predicate Untied(key: Val -> Val, s: seq<Val>) {
    forall i, j :: 0 <= i < j < |s| ==> RankOf(key)(s[i]) != RankOf(key)(s[j])
  }

  /** With `<` as `less`, comparing the keys and comparing what `<` compares them as give the same ranking. */
  lemma RankedCompare(c: Comparator, a: Val, b: Val)
    requires c.less == LessThan
    ensures Compare(c, a, b) == Compare(Ranked(c), a, b)
    ensures InOrder(c, a, b) == InOrder(Ranked(c), a, b)
  {
    LessThanComparedAs(c.key(a), c.key(b));
    LessThanComparedAs(c.key(b), c.key(a));
  }

  /**
   * Two defined elements whose keys are of comparable kinds tie (the
   * comparator returns 0) exactly when `<` compares their keys as the same value.
   */
  lemma TieIsSameRank(c: Comparator, a: Val, b: Val)
    requires c.less == LessThan
    requires !a.Undef? && !b.Undef? && ComparableKinds(c.key(a), c.key(b))
    ensures Compare(c, a, b) == 0 <==> RankOf(c.key)(a) == RankOf(c.key)(b)
  {
    var ka, kb := c.key(a), c.key(b);
    LessThanTotalOnKind(ka, kb, kb);
    LessThanComparedAs(ka, kb);
    LessThanComparedAs(kb, ka);
    LessThanStrictOrder(ComparedAs(ka), ComparedAs(ka));
  }

  /** Sorting by the keys and sorting by what `<` compares them as is the same sort. */
  lemma SortSeqRanked(c: Comparator, s: seq<Val>)
    requires c.less == LessThan
    ensures SortSeq(c, s) == SortSeq(Ranked(c), s)
  {
    forall a, b | a in s && b in s ensures Compare(c, a, b) == Compare(Ranked(c), a, b) {
      RankedCompare(c, a, b);
    }
    SortSeqSameCompare(c, Ranked(c), s);
  }

  /**
   * Stability for ties: the elements whose keys `<` compares as the same
   * value `v` keep their input order, whatever the kinds of the keys.
   */
  lemma StableOnTies(c: Comparator, s: seq<Val>, v: Val)
    requires c.less == LessThan
    ensures WithKey(RankOf(c.key), SortSeq(c, s), v) == WithKey(RankOf(c.key), s, v)
  {
    LessThanIsStrictOrder();
    SortSeqRanked(c, s);
    SortSeqStable(Ranked(c), s, v);
  }

  /** A permutation of a one-kind sequence is of one kind, and has no undefined element. */
  lemma OneKindPermutation(key: Val -> Val, s: seq<Val>, t: seq<Val>)
    requires OneKind(key, s) && multiset(t) == multiset(s)
    ensures OneKind(key, t)
    ensures forall i :: 0 <= i < |t| ==> !t[i].Undef?
  {
    forall e | e in t ensures e in s {
      assert multiset(t)[e] > 0;
    }
    forall i | 0 <= i < |t| ensures !t[i].Undef? {
      assert t[i] in t;
    }
  }

  /** Any two keys of a one-kind sequence are of comparable kinds. */
  lemma OneKindComparable(key: Val -> Val, t: seq<Val>, p: nat, q: nat)
    requires p < |t| && q < |t| && OneKind(key, t)
    ensures !t[p].Undef? && !t[q].Undef?
    ensures ComparableKinds(key(t[p]), key(t[q]))
  {
    assert t[p] in t && t[q] in t;
  }

  /** On keys of comparable kinds, "in order" is transitive. */
  lemma InOrderTransitive(c: Comparator, x: Val, y: Val, z: Val)
    requires c.less == LessThan
    requires !x.Undef? && !y.Undef? && !z.Undef?
    requires ComparableKinds(c.key(x), c.key(y)) && ComparableKinds(c.key(y), c.key(z))
    requires InOrder(c, x, y) && InOrder(c, y, z)
    ensures InOrder(c, x, z)
  {
    LessThanTotalOnKind(c.key(x), c.key(y), c.key(z));
    LessThanTotalOnKind(c.key(z), c.key(y), c.key(x));
  }

  /** In a one-kind sequence with neighbours in order, any two elements are in order. */
  lemma {:induction false} ChainInOrder(c: Comparator, t: seq<Val>, i: nat, j: nat)
    requires c.less == LessThan
    requires i < j < |t| && OneKind(c.key, t) && Sorted(c, t)
    ensures InOrder(c, t[i], t[j])
    decreases j - i
  {
    if j > i + 1 {
      ChainInOrder(c, t, i, j - 1);
      OneKindComparable(c.key, t, i, j - 1);
      OneKindComparable(c.key, t, j - 1, j);
      assert InOrder(c, t[j - 1], t[j]);
      InOrderTransitive(c, t[i], t[j - 1], t[j]);
    }
  }

  /** A one-kind sequence with neighbours in order is in order throughout. */
  lemma SortedThroughout(c: Comparator, t: seq<Val>)
    requires c.less == LessThan
    requires OneKind(c.key, t) && Sorted(c, t)
    ensures SortedAll(c, t)
  {
    forall i, j | 0 <= i < j < |t| ensures InOrder(c, t[i], t[j]) {
      ChainInOrder(c, t, i, j);
    }
  }

  /** In order throughout for the keys is in order throughout for what `<` compares them as. */
  lemma SortedAllRanked(c: Comparator, t: seq<Val>)
    requires c.less == LessThan && SortedAll(c, t)
    ensures SortedAll(Ranked(c), t)
  {
    forall i, j | 0 <= i < j < |t| ensures InOrder(Ranked(c), t[i], t[j]) {
      RankedCompare(c, t[i], t[j]);
    }
  }

  /** On one-kind keys, what `<` compares them as is totally ordered by `<`. */
  lemma TotalRanked(c: Comparator, t: seq<Val>)
    requires c.less == LessThan && OneKind(c.key, t)
    ensures TotalOn(Ranked(c), t)
  {
    forall a, b | a in t && b in t
      ensures var ka, kb := ComparedAs(c.key(a)), ComparedAs(c.key(b));
        ka == kb || LessThan(ka, kb) || LessThan(kb, ka)
    {
      LessThanTotalOnKind(c.key(a), c.key(b), c.key(b));
      LessThanComparedAs(c.key(a), c.key(b));
      LessThanComparedAs(c.key(b), c.key(a));
    }
  }

  /** A one-kind sequence in order throughout, ranked, is one side of a pair of stable sorts. */
  lemma RankedSide(c: Comparator, s: seq<Val>, t: seq<Val>)
    requires c.less == LessThan && OneKind(c.key, s)
    requires multiset(t) == multiset(s) && Sorted(c, t)
    ensures OneKind(c.key, t)
    ensures forall i :: 0 <= i < |t| ==> !t[i].Undef?
    ensures SortedAll(Ranked(c), t)
  {
    OneKindPermutation(c.key, s, t);
    SortedThroughout(c, t);
    SortedAllRanked(c, t);
  }

  /**
   * A permutation `t` of one-kind `s` in order that keeps tied elements in
   * input order, and the sort of `s`, are two stable sorts for the ranked comparator.
   */
  lemma StableSortOfRanked(c: Comparator, s: seq<Val>, t: seq<Val>)
    requires c.less == LessThan && OneKind(c.key, s)
    requires multiset(t) == multiset(s) && Sorted(c, t)
    requires SameTies(RankOf(c.key), t, s)
    ensures StableSortOf(Ranked(c), t, SortSeq(c, s))
  {
    var r := SortSeq(c, s);
    LessThanIsStrictOrder();
    SortSeqSorted(c, s);
    RankedSide(c, s, t);
    RankedSide(c, s, r);
    TotalRanked(c, t);
    forall v ensures WithKey(RankOf(c.key), t, v) == WithKey(RankOf(c.key), r, v) {
      StableOnTies(c, s, v);
    }
  }

  /**
   * On one-kind keys the sort has a single possible result: any permutation
   * of `s` with neighbours in order that keeps tied elements in input order is it.
   */
  lemma SortSeqUnique(c: Comparator, s: seq<Val>, t: seq<Val>)
    requires c.less == LessThan && OneKind(c.key, s)
    requires multiset(t) == multiset(s) && Sorted(c, t)
    requires SameTies(RankOf(c.key), t, s)
    ensures t == SortSeq(c, s)
  {
    StableSortOfRanked(c, s, t);
    StableSortUnique(Ranked(c), t, SortSeq(c, s));
  }

  /** The ascending sort of a one-kind sequence, read back to front, has its neighbours in descending order. */
  lemma ReverseDescending(c: Comparator, s: seq<Val>)
    requires c.less == LessThan && c.order == Asc && OneKind(c.key, s)
    ensures Sorted(c.(order := Desc), Reverse(SortSeq(c, s)))
  {
    LessThanIsStrictOrder();
    SortSeqSorted(c, s);
    OneKindPermutation(c.key, s, SortSeq(c, s));
    ReverseSorted(c, SortSeq(c, s));
  }

  /** Defined elements with neighbours in ascending order, read back to front, are in descending order. */
  lemma ReverseSorted(c: Comparator, r: seq<Val>)
    requires c.order == Asc && Sorted(c, r)
    requires forall i :: 0 <= i < |r| ==> !r[i].Undef?
    ensures Sorted(c.(order := Desc), Reverse(r))
  {
    forall i | 0 <= i < |r| - 1 ensures InOrder(c.(order := Desc), Reverse(r)[i], Reverse(r)[i + 1]) {
      ReverseSortedAt(c, r, i);
    }
  }

  /** One neighbouring pair of the reversal: the pair at `|r| - 2 - i` swapped. */
  lemma ReverseSortedAt(c: Comparator, r: seq<Val>, i: nat)
    requires c.order == Asc && i < |r| - 1
    requires InOrder(c, r[|r| - 2 - i], r[|r| - 1 - i])
    requires !r[|r| - 2 - i].Undef? && !r[|r| - 1 - i].Undef?
    ensures InOrder(c.(order := Desc), Reverse(r)[i], Reverse(r)[i + 1])
  {
    assert Reverse(r)[i] == r[|r| - 1 - i] && Reverse(r)[i + 1] == r[|r| - 2 - i];
  }

  /** Without ties, reversing the sort keeps the (single) element of every compared value. */
  lemma ReverseTies(c: Comparator, s: seq<Val>)
    requires c.less == LessThan && Untied(c.key, s)
    ensures SameTies(RankOf(c.key), Reverse(SortSeq(c, s)), s)
  {
    var r := SortSeq(c, s);
    forall v ensures WithKey(RankOf(c.key), Reverse(r), v) == WithKey(RankOf(c.key), s, v) {
      var w := WithKey(RankOf(c.key), s, v);
      WithKeyDistinct(RankOf(c.key), s, v);
      ReverseShort(w);
      StableOnTies(c, s, v);
      WithKeyReverse(RankOf(c.key), r, v);
    }
  }

  /** For one-kind keys without ties, the descending sort is the ascending sort reversed. */
  lemma SortSeqReversed(c: Comparator, s: seq<Val>)
    requires c.less == LessThan && c.order == Asc
    requires OneKind(c.key, s) && Untied(c.key, s)
    ensures SortSeq(c.(order := Desc), s) == Reverse(SortSeq(c, s))
  {
    var t := Reverse(SortSeq(c, s));
    ReversePermutes(SortSeq(c, s));
    ReverseDescending(c, s);
    ReverseTies(c, s);
    SortSeqUnique(c.(order := Desc), s, t);
  }
}
