/**
 * What both `sortByLabel` helpers share: the array spread `[...data]`, the
 * three-way comparator on the resolved keys, and `Array.prototype.sort`,
 * which ECMA-262 (section 23.1.3.30 of the 2023 edition) requires to be
 * stable. The host sort is modelled as a stable insertion sort: `SortSeq`
 * is its specification and `SortInPlace` the in-place algorithm.
 */
module Sorting {
  import opened JsValue

  datatype Order = Asc | Desc

  /**
   * The comparator `(a, b) => ...` of both helpers: `key` reads the sort
   * key of an element (the dot-path reader in arrayHelper.ts, the
   * top-level property `a[key]` in sort.ts), `less` is the operator `<`
   * (`x > y` being `y < x`) and `order` is the order flag.
   */
  datatype Comparator = Comparator(key: Val -> Val, less: (Val, Val) -> bool, order: Order)

  /** `less` never holds both ways, so in particular never of a value and itself. */
  ghost predicate StrictOrder(less: (Val, Val) -> bool) {
    forall a, b :: less(a, b) ==> !less(b, a)
  }

  /**
   * How the host sort ranks two elements (CompareArrayElements, section
   * 23.1.3.30.2 of ECMA-262, 2023 edition): undefined elements rank after
   * every other element and equal to each other, without a call to the
   * comparator; any other pair gets the comparator's result, where 1 puts
   * `a` after `b`, -1 before, and 0 leaves them as they are.
   */
  function Compare(c: Comparator, a: Val, b: Val): int {
    if a.Undef? && b.Undef? then 0
    else if a.Undef? then 1
    else if b.Undef? then -1
    else
      var va := c.key(a);
      var vb := c.key(b);
      if c.less(vb, va) then (if c.order == Asc then 1 else -1)
      else if c.less(va, vb) then (if c.order == Asc then -1 else 1)
      else 0
  }

  /**
   * What the sort promises of two neighbours: an undefined element is only
   * ever followed by undefined elements; otherwise, for "asc" the first key
   * is not greater than the second, for "desc" it is not smaller.
   */
  predicate InOrder(c: Comparator, a: Val, b: Val) {
    if b.Undef? then true
    else if a.Undef? then false
    else if c.order == Asc then !c.less(c.key(b), c.key(a))
    else !c.less(c.key(a), c.key(b))
  }

  predicate Sorted(c: Comparator, s: seq<Val>) {
    forall i :: 0 <= i < |s| - 1 ==> InOrder(c, s[i], s[i + 1])
  }

  /** Every pair of `s` is in order, not only neighbours. */
  ghost predicate SortedAll(c: Comparator, s: seq<Val>) {
    forall i, j :: 0 <= i < j < |s| ==> InOrder(c, s[i], s[j])
  }

  /** Folds the pairwise statement back into `SortedAll`, keeping the comparator opaque to the caller's proof. */
  lemma SortedAllIntro(c: Comparator, s: seq<Val>)
    requires forall i, j :: 0 <= i < j < |s| ==> InOrder(c, s[i], s[j])
    ensures SortedAll(c, s)
  {
  }

  /**
   * The elements of `s` other than undefined whose key is exactly `v`, in
   * their order in `s` (undefined elements are all the same value, so their
   * order is of no interest).
   */
  function WithKey(key: Val -> Val, s: seq<Val>, v: Val): seq<Val> {
    if |s| == 0 then []
    else WithKey(key, s[..|s| - 1], v) + (if !s[|s| - 1].Undef? && key(s[|s| - 1]) == v then [s[|s| - 1]] else [])
  }

  /**
   * For a strict order the comparator is antisymmetric, returns at most 0
   * exactly for neighbours in order, and returns 0 for equal keys.
   */
  lemma CompareSpec(c: Comparator, a: Val, b: Val)
    requires StrictOrder(c.less)
    ensures Compare(c, a, b) == -Compare(c, b, a)
    ensures Compare(c, a, b) <= 0 <==> InOrder(c, a, b)
    ensures Compare(c, a, b) != 0 ==> a.Undef? || b.Undef? || c.key(a) != c.key(b)
  {
    var va, vb := c.key(a), c.key(b);
    assert c.less(va, vb) ==> !c.less(vb, va);
    assert !c.less(va, va);
  }

  /** Stable insertion: `x` moves left past every element the comparator ranks after it. */
  function Insert(c: Comparator, s: seq<Val>, x: Val): (r: seq<Val>)
    ensures |r| == |s| + 1
    decreases |s|
  {
    if |s| == 0 || Compare(c, s[|s| - 1], x) <= 0 then s + [x]
    else Insert(c, s[..|s| - 1], x) + [s[|s| - 1]]
  }

  /** Insertion adds exactly `x` to the elements. */
  lemma {:induction false} InsertPermutes(c: Comparator, s: seq<Val>, x: Val)
    ensures multiset(Insert(c, s, x)) == multiset(s) + multiset{x}
    decreases |s|
  {
    if |s| > 0 && Compare(c, s[|s| - 1], x) > 0 {
      InsertPermutes(c, s[..|s| - 1], x);
      assert s == s[..|s| - 1] + [s[|s| - 1]];
    }
  }

  /** `Array.prototype.sort` with the comparator: insertion sort, front to back. */
  function SortSeq(c: Comparator, s: seq<Val>): (r: seq<Val>)
    ensures |r| == |s|
    ensures multiset(r) == multiset(s)
    decreases |s|
  {
    if |s| == 0 then []
    else
      assert s == s[..|s| - 1] + [s[|s| - 1]];
      InsertPermutes(c, SortSeq(c, s[..|s| - 1]), s[|s| - 1]);
      Insert(c, SortSeq(c, s[..|s| - 1]), s[|s| - 1])
  }

  lemma SortSeqSnoc(c: Comparator, s: seq<Val>, x: Val)
    ensures SortSeq(c, s + [x]) == Insert(c, SortSeq(c, s), x)
  {
    assert (s + [x])[..|s|] == s;
  }

  lemma SortedPrefix(c: Comparator, s: seq<Val>)
    requires |s| > 0 && Sorted(c, s)
    ensures Sorted(c, s[..|s| - 1])
  {
    var init := s[..|s| - 1];
    forall i | 0 <= i < |init| - 1 ensures InOrder(c, init[i], init[i + 1]) {
      assert init[i] == s[i] && init[i + 1] == s[i + 1];
    }
  }

  lemma {:induction false} InsertSorted(c: Comparator, s: seq<Val>, x: Val)
    requires StrictOrder(c.less) && Sorted(c, s)
    ensures Sorted(c, Insert(c, s, x))
    ensures var r := Insert(c, s, x); r[|r| - 1] == x || (|s| > 0 && r[|r| - 1] == s[|s| - 1])
    decreases |s|
  {
    var r := Insert(c, s, x);
    if |s| == 0 {
    } else if Compare(c, s[|s| - 1], x) <= 0 {
      CompareSpec(c, s[|s| - 1], x);
      assert r == s + [x];
    } else {
      var init, last := s[..|s| - 1], s[|s| - 1];
      var r' := Insert(c, init, x);
      SortedPrefix(c, s);
      InsertSorted(c, init, x);
      assert r == r' + [last];
      CompareSpec(c, last, x);
      if r'[|r'| - 1] != x {
        assert r'[|r'| - 1] == s[|s| - 2];
      }
      assert InOrder(c, r'[|r'| - 1], last);
    }
  }

  /** The sorted copy has every neighbouring pair in the requested order. */
  lemma {:induction false} SortSeqSorted(c: Comparator, s: seq<Val>)
    requires StrictOrder(c.less)
    ensures Sorted(c, SortSeq(c, s))
    decreases |s|
  {
    if |s| > 0 {
      SortSeqSorted(c, s[..|s| - 1]);
      InsertSorted(c, SortSeq(c, s[..|s| - 1]), s[|s| - 1]);
    }
  }

  lemma WithKeySnoc(key: Val -> Val, s: seq<Val>, x: Val, v: Val)
    ensures WithKey(key, s + [x], v) == WithKey(key, s, v) + (if !x.Undef? && key(x) == v then [x] else [])
  {
    assert (s + [x])[..|s|] == s;
  }

  lemma {:induction false} InsertStable(c: Comparator, s: seq<Val>, x: Val, v: Val)
    requires StrictOrder(c.less)
    ensures WithKey(c.key, Insert(c, s, x), v)
         == WithKey(c.key, s, v) + (if !x.Undef? && c.key(x) == v then [x] else [])
    decreases |s|
  {
    var r := Insert(c, s, x);
    if |s| == 0 || Compare(c, s[|s| - 1], x) <= 0 {
      assert r == s + [x];
      WithKeySnoc(c.key, s, x, v);
    } else {
      var init, last := s[..|s| - 1], s[|s| - 1];
      var r' := Insert(c, init, x);
      assert r == r' + [last];
      assert s == init + [last];
      InsertStable(c, init, x, v);
      WithKeySnoc(c.key, r', last, v);
      WithKeySnoc(c.key, init, last, v);
      CompareSpec(c, last, x);
    }
  }

  /**
   * Stability: for every key value, the elements carrying that key come out
   * in the order they went in.
   */
  lemma {:induction false} SortSeqStable(c: Comparator, s: seq<Val>, v: Val)
    requires StrictOrder(c.less)
    ensures WithKey(c.key, SortSeq(c, s), v) == WithKey(c.key, s, v)
    decreases |s|
  {
    if |s| > 0 {
      SortSeqStable(c, s[..|s| - 1], v);
      InsertStable(c, SortSeq(c, s[..|s| - 1]), s[|s| - 1], v);
    }
  }

  /** In a sorted sequence an undefined element is followed only by undefined elements. */
  lemma {:induction false} SortedUndefinedLast(c: Comparator, s: seq<Val>, i: nat, j: nat)
    requires Sorted(c, s) && i < j < |s| && s[i].Undef?
    ensures s[j].Undef?
    decreases j - i
  {
    assert InOrder(c, s[i], s[i + 1]);
    if j > i + 1 {
      SortedUndefinedLast(c, s, i + 1, j);
    }
  }

  /** The sort moves every undefined element behind all the others. */
  lemma SortSeqUndefinedLast(c: Comparator, s: seq<Val>)
    requires StrictOrder(c.less)
    ensures var r := SortSeq(c, s); forall i, j :: 0 <= i < j < |r| && r[i].Undef? ==> r[j].Undef?
  {
    var r := SortSeq(c, s);
    SortSeqSorted(c, s);
    forall i, j | 0 <= i < j < |r| && r[i].Undef? ensures r[j].Undef? {
      SortedUndefinedLast(c, r, i, j);
    }
  }

  /**
   * `t1` and `t2` are two results a stable sort could give for the same
   * input, for a `less` that is total on the keys: the same elements, none
   * undefined, both in order throughout, listing the elements of every key
   * in the same order.
   */
  ghost predicate StableSortOf(c: Comparator, t1: seq<Val>, t2: seq<Val>) {
    && StrictOrder(c.less)
    && (forall i :: 0 <= i < |t1| ==> !t1[i].Undef?)
    && TotalOn(c, t1)
    && multiset(t1) == multiset(t2)
    && SortedAll(c, t1) && SortedAll(c, t2)
    && SameTies(c.key, t1, t2)
  }

  /** Any two keys of elements of `s` are the same key or `less` orders them one way or the other. */
  ghost predicate TotalOn(c: Comparator, s: seq<Val>) {
    forall a, b :: a in s && b in s ==>
      c.key(a) == c.key(b) || c.less(c.key(a), c.key(b)) || c.less(c.key(b), c.key(a))
  }

  /** `t1` and `t2` list the elements of every key in the same order. */
  ghost predicate SameTies(key: Val -> Val, t1: seq<Val>, t2: seq<Val>) {
    forall v :: WithKey(key, t1, v) == WithKey(key, t2, v)
  }

  /** A stable sort has only one possible result when `less` is total on the keys. */
  lemma {:induction false} StableSortUnique(c: Comparator, t1: seq<Val>, t2: seq<Val>)
    requires StableSortOf(c, t1, t2)
    ensures t1 == t2
    decreases |t1|
  {
    if |t1| == 0 {
      assert |t2| == |multiset(t2)| == |multiset(t1)| == 0;
    } else {
      var n := |t1| - 1;
      StableSortStep(c, t1, t2);
      StableSortUnique(c, t1[..n], t2[..n]);
      assert t1 == t1[..n] + [t1[n]] && t2 == t2[..n] + [t2[n]];
    }
  }

  /** Both sequences end in the same element, and what comes before it is again a pair of stable sorts. */
  lemma StableSortStep(c: Comparator, t1: seq<Val>, t2: seq<Val>)
    requires StableSortOf(c, t1, t2) && |t1| > 0
    ensures |t2| == |t1| && t1[|t1| - 1] == t2[|t1| - 1]
    ensures StableSortOf(c, t1[..|t1| - 1], t2[..|t1| - 1])
  {
    assert |t1| == |multiset(t1)| == |multiset(t2)| == |t2|;
    LastEqual(c, t1, t2);
    StableSortDropLast(c, t1, t2);
  }

  /** Dropping the same last element from a pair of stable sorts leaves a pair of stable sorts. */
  lemma StableSortDropLast(c: Comparator, t1: seq<Val>, t2: seq<Val>)
    requires StableSortOf(c, t1, t2) && |t1| == |t2| > 0 && t1[|t1| - 1] == t2[|t1| - 1]
    ensures StableSortOf(c, t1[..|t1| - 1], t2[..|t1| - 1])
  {
    var n := |t1| - 1;
    var init1, init2 := t1[..n], t2[..n];
    assert t1 == init1 + [t1[n]] && t2 == init2 + [t1[n]];
    WithKeyDropLast(c.key, init1, init2, t1[n]);
    MultisetDropLast(init1, init2, t1[n]);
    SortedAllPrefix(c, t1);
    SortedAllPrefix(c, t2);
    TotalOnPrefix(c, t1);
  }

  lemma TotalOnPrefix(c: Comparator, t: seq<Val>)
    requires |t| > 0 && TotalOn(c, t)
    ensures TotalOn(c, t[..|t| - 1])
  {
    forall a, b | a in t[..|t| - 1] && b in t[..|t| - 1]
      ensures c.key(a) == c.key(b) || c.less(c.key(a), c.key(b)) || c.less(c.key(b), c.key(a))
    {
      assert a in t && b in t;
    }
  }

  /** Under the conditions of `StableSortUnique` both sequences end in the same element. */
  lemma LastEqual(c: Comparator, t1: seq<Val>, t2: seq<Val>)
    requires StrictOrder(c.less)
    requires |t1| == |t2| > 0
    requires forall i :: 0 <= i < |t1| ==> !t1[i].Undef?
    requires forall a, b :: a in t1 && b in t1 ==>
               c.key(a) == c.key(b) || c.less(c.key(a), c.key(b)) || c.less(c.key(b), c.key(a))
    requires multiset(t1) == multiset(t2)
    requires SortedAll(c, t1) && SortedAll(c, t2)
    requires forall v :: WithKey(c.key, t1, v) == WithKey(c.key, t2, v)
    ensures t1[|t1| - 1] == t2[|t2| - 1]
  {
    var n := |t1| - 1;
    var init1, x, init2, y := t1[..n], t1[n], t2[..n], t2[n];
    LastKeysEqual(c, t1, t2);
    WithKeySnoc(c.key, init1, x, c.key(x));
    WithKeySnoc(c.key, init2, y, c.key(x));
    assert t1 == init1 + [x] && t2 == init2 + [y];
    var w := WithKey(c.key, t1, c.key(x));
    assert x == w[|w| - 1] == y;
  }

  lemma SortedAllPrefix(c: Comparator, t: seq<Val>)
    requires |t| > 0 && SortedAll(c, t)
    ensures SortedAll(c, t[..|t| - 1])
  {
    var init := t[..|t| - 1];
    forall p, q | 0 <= p < q < |init| ensures InOrder(c, init[p], init[q]) {
      assert init[p] == t[p] && init[q] == t[q];
    }
  }

  lemma MultisetDropLast(init1: seq<Val>, init2: seq<Val>, x: Val)
    requires multiset(init1 + [x]) == multiset(init2 + [x])
    ensures multiset(init1) == multiset(init2)
  {
    assert multiset(init1) == multiset(init1 + [x]) - multiset{x};
    assert multiset(init2) == multiset(init2 + [x]) - multiset{x};
  }

  /** Two sequences in order throughout, with the same elements, end in elements with the same key. */
  lemma LastKeysEqual(c: Comparator, t1: seq<Val>, t2: seq<Val>)
    requires StrictOrder(c.less)
    requires |t1| == |t2| > 0
    requires forall i :: 0 <= i < |t1| ==> !t1[i].Undef?
    requires forall a, b :: a in t1 && b in t1 ==>
               c.key(a) == c.key(b) || c.less(c.key(a), c.key(b)) || c.less(c.key(b), c.key(a))
    requires multiset(t1) == multiset(t2)
    requires SortedAll(c, t1) && SortedAll(c, t2)
    ensures !t2[|t2| - 1].Undef?
    ensures c.key(t1[|t1| - 1]) == c.key(t2[|t2| - 1])
  {
    var n := |t1| - 1;
    var x, y := t1[n], t2[n];
    assert y in multiset(t2) && x in multiset(t1);
    var i :| 0 <= i < |t1| && t1[i] == y;
    var j :| 0 <= j < |t2| && t2[j] == x;
    if i < n {
      assert InOrder(c, t1[i], t1[n]);
    }
    if j < n {
      assert InOrder(c, t2[j], t2[n]);
    }
    assert x in t1 && y in t1;
  }

  /** Equal elements of every key stay equal after dropping the same last element from both sides. */
  lemma WithKeyDropLast(key: Val -> Val, init1: seq<Val>, init2: seq<Val>, x: Val)
    requires forall v :: WithKey(key, init1 + [x], v) == WithKey(key, init2 + [x], v)
    ensures forall v :: WithKey(key, init1, v) == WithKey(key, init2, v)
  {
    forall v ensures WithKey(key, init1, v) == WithKey(key, init2, v) {
      WithKeySnoc(key, init1, x, v);
      WithKeySnoc(key, init2, x, v);
      assert WithKey(key, init1 + [x], v) == WithKey(key, init2 + [x], v);
      var a, b := WithKey(key, init1, v), WithKey(key, init2, v);
      if !x.Undef? && key(x) == v {
        assert (a + [x])[..|a|] == a && (b + [x])[..|b|] == b;
      } else {
        assert a + [] == a && b + [] == b;
      }
    }
  }

  /** `s` back to front. */
  function Reverse(s: seq<Val>): (r: seq<Val>)
    ensures |r| == |s|
    ensures forall i :: 0 <= i < |s| ==> r[i] == s[|s| - 1 - i]
  {
    if |s| == 0 then [] else [s[|s| - 1]] + Reverse(s[..|s| - 1])
  }

  /** A sequence of at most one element is its own reverse. */
  lemma ReverseShort(s: seq<Val>)
    requires |s| <= 1
    ensures Reverse(s) == s
  {
    if |s| == 1 {
      assert Reverse(s)[0] == s[0];
    }
  }

  lemma {:induction false} ReversePermutes(s: seq<Val>)
    ensures multiset(Reverse(s)) == multiset(s)
  {
    if |s| > 0 {
      ReversePermutes(s[..|s| - 1]);
      assert s == s[..|s| - 1] + [s[|s| - 1]];
    }
  }

  lemma {:induction false} WithKeyCons(key: Val -> Val, x: Val, s: seq<Val>, v: Val)
    ensures WithKey(key, [x] + s, v) == (if !x.Undef? && key(x) == v then [x] else []) + WithKey(key, s, v)
  {
    if |s| > 0 {
      var init, last := s[..|s| - 1], s[|s| - 1];
      assert ([x] + s)[..|s|] == [x] + init;
      WithKeyCons(key, x, init, v);
    }
  }

  /** Reversing a sequence reverses the elements of every key. */
  lemma {:induction false} WithKeyReverse(key: Val -> Val, s: seq<Val>, v: Val)
    ensures WithKey(key, Reverse(s), v) == Reverse(WithKey(key, s, v))
  {
    if |s| > 0 {
      var init, last := s[..|s| - 1], s[|s| - 1];
      var lp := if !last.Undef? && key(last) == v then [last] else [];
      var w := WithKey(key, init, v);
      assert Reverse(s) == [last] + Reverse(init);
      WithKeyCons(key, last, Reverse(init), v);
      WithKeyReverse(key, init, v);
      assert WithKey(key, Reverse(s), v) == lp + Reverse(w);
      assert WithKey(key, s, v) == w + lp;
      if lp == [] {
        assert w + lp == w;
      } else {
        assert (w + [last])[..|w|] == w;
        assert Reverse(w + [last]) == [last] + Reverse(w);
      }
    }
  }

  /** With pairwise different keys, no key has more than one element. */
  lemma {:induction false} WithKeyDistinct(key: Val -> Val, s: seq<Val>, v: Val)
    requires forall i, j :: 0 <= i < j < |s| ==> key(s[i]) != key(s[j])
    ensures |WithKey(key, s, v)| <= 1
  {
    if |s| > 0 {
      var init, last := s[..|s| - 1], s[|s| - 1];
      if !last.Undef? && key(last) == v {
        WithKeyAbsent(key, init, v);
      } else {
        WithKeyDistinct(key, init, v);
      }
    }
  }

  lemma {:induction false} WithKeyAbsent(key: Val -> Val, s: seq<Val>, v: Val)
    requires forall i :: 0 <= i < |s| ==> key(s[i]) != v
    ensures WithKey(key, s, v) == []
  {
    if |s| > 0 {
      WithKeyAbsent(key, s[..|s| - 1], v);
    }
  }

  /** Appending an element that is in order after the last one is a plain append. */
  lemma InsertInOrder(c: Comparator, s: seq<Val>)
    requires StrictOrder(c.less)
    requires |s| > 0 && Sorted(c, s)
    ensures Insert(c, s[..|s| - 1], s[|s| - 1]) == s
  {
    var init, last := s[..|s| - 1], s[|s| - 1];
    assert s == init + [last];
    if |init| > 0 {
      assert InOrder(c, s[|s| - 2], last);
      CompareSpec(c, init[|init| - 1], last);
    }
  }

  /** A sequence already in order is left as it is. */
  lemma {:induction false} SortSeqOfSorted(c: Comparator, s: seq<Val>)
    requires StrictOrder(c.less) && Sorted(c, s)
    ensures SortSeq(c, s) == s
    decreases |s|
  {
    if |s| > 0 {
      var init, last := s[..|s| - 1], s[|s| - 1];
      SortedPrefix(c, s);
      SortSeqOfSorted(c, init);
      assert s == init + [last];
      SortSeqSnoc(c, init, last);
      InsertInOrder(c, s);
    }
  }

  /** Sorting the sorted output again gives it back unchanged. */
  lemma SortSeqIdempotent(c: Comparator, s: seq<Val>)
    requires StrictOrder(c.less)
    ensures SortSeq(c, SortSeq(c, s)) == SortSeq(c, s)
  {
    SortSeqSorted(c, s);
    SortSeqOfSorted(c, SortSeq(c, s));
  }

  /** Insertion only looks at how `x` compares with each element. */
  lemma {:induction false} InsertSameCompare(c1: Comparator, c2: Comparator, s: seq<Val>, x: Val)
    requires forall e :: e in s ==> Compare(c1, e, x) == Compare(c2, e, x)
    ensures Insert(c1, s, x) == Insert(c2, s, x)
    decreases |s|
  {
    if |s| > 0 {
      assert s[|s| - 1] in s;
      InsertSameCompare(c1, c2, s[..|s| - 1], x);
    }
  }

  /** The sort only looks at the comparator's results: two comparators that rank every pair alike sort alike. */
  lemma {:induction false} SortSeqSameCompare(c1: Comparator, c2: Comparator, s: seq<Val>)
    requires forall a, b :: a in s && b in s ==> Compare(c1, a, b) == Compare(c2, a, b)
    ensures SortSeq(c1, s) == SortSeq(c2, s)
    decreases |s|
  {
    if |s| > 0 {
      var init, x := s[..|s| - 1], s[|s| - 1];
      assert x in s;
      SortSeqSameCompare(c1, c2, init);
      var t := SortSeq(c1, init);
      forall e | e in t ensures Compare(c1, e, x) == Compare(c2, e, x) {
        assert e in multiset(t);
        assert e in init;
      }
      InsertSameCompare(c1, c2, t, x);
    }
  }

  /** In particular, two comparators that agree on every element's key sort alike. */
  lemma SortSeqSameKeys(c1: Comparator, c2: Comparator, s: seq<Val>)
    requires c1.less == c2.less && c1.order == c2.order
    requires forall e :: e in s ==> c1.key(e) == c2.key(e)
    ensures SortSeq(c1, s) == SortSeq(c2, s)
  {
    forall a, b | a in s && b in s ensures Compare(c1, a, b) == Compare(c2, a, b) {
    }
    SortSeqSameCompare(c1, c2, s);
  }

  /**
   * Where insertion puts `x`: after the last element it is not ranked
   * before, with everything the comparator ranks after it to its right.
   */
  lemma {:induction false} InsertAt(c: Comparator, s: seq<Val>, j: nat, x: Val)
    requires j <= |s|
    requires j == 0 || Compare(c, s[j - 1], x) <= 0
    requires forall k :: j <= k < |s| ==> Compare(c, s[k], x) > 0
    ensures Insert(c, s, x) == s[..j] + [x] + s[j..]
    decreases |s|
  {
    if j == |s| {
      assert s[..j] == s && s[j..] == [];
    } else {
      var init, last := s[..|s| - 1], s[|s| - 1];
      assert Compare(c, last, x) > 0;
      InsertAt(c, init, j, x);
      assert init[..j] == s[..j] && init[j..] + [last] == s[j..];
    }
  }

  /** `[...data]`: a fresh array holding the same elements. */
  method Spread(data: array<Val>) returns (copy: array<Val>)
    ensures fresh(copy)
    ensures copy[..] == data[..]
  {
    copy := new Val[data.Length];
    var i := 0;
    while i < data.Length
      invariant 0 <= i <= data.Length
      invariant copy[..i] == data[..i]
    {
      copy[i] := data[i];
      i := i + 1;
    }
  }

  /**
   * One pass of the sort: `a[i]` moves left into the sorted run `a[..i]`
   * past the elements the comparator ranks after it.
   */
  method InsertInPlace(a: array<Val>, i: nat, c: Comparator)
    requires i < a.Length
    modifies a
    ensures a[..i + 1] == Insert(c, old(a[..i]), old(a[i]))
    ensures forall k :: i < k < a.Length ==> a[k] == old(a[k])
  {
    var x := a[i];
    ghost var pre := a[..i];
    var j := i;
    while j > 0 && Compare(c, a[j - 1], x) > 0
      invariant 0 <= j <= i
      invariant forall k :: 0 <= k < j ==> a[k] == pre[k]
      invariant forall k :: j < k <= i ==> a[k] == pre[k - 1]
      invariant forall k :: i < k < a.Length ==> a[k] == old(a[k])
      invariant forall k :: j <= k < i ==> Compare(c, pre[k], x) > 0
    {
      a[j] := a[j - 1];
      j := j - 1;
    }
    InsertAt(c, pre, j, x);
    a[j] := x;
    ShiftedIsInserted(a[..i + 1], pre, j, x);
  }

  /** An array prefix shifted right from `j` with `x` written at `j` is `x` inserted at `j`. */
  lemma ShiftedIsInserted(t: seq<Val>, pre: seq<Val>, j: nat, x: Val)
    requires |t| == |pre| + 1 && j <= |pre|
    requires forall k :: 0 <= k < j ==> t[k] == pre[k]
    requires t[j] == x
    requires forall k :: j < k < |t| ==> t[k] == pre[k - 1]
    ensures t == pre[..j] + [x] + pre[j..]
  {
    var inserted := pre[..j] + [x] + pre[j..];
    forall k | 0 <= k < |t| ensures t[k] == inserted[k] {
      if k < j {
        assert inserted[k] == pre[k];
      } else if k > j {
        assert inserted[k] == pre[k - 1];
      }
    }
  }

  /** `a.sort(comparator)` on an array, as a stable in-place insertion sort. */
  method SortInPlace(a: array<Val>, c: Comparator)
    modifies a
    ensures a[..] == SortSeq(c, old(a[..]))
  {
    ghost var input := a[..];
    var i := 0;
    while i < a.Length
      invariant 0 <= i <= a.Length
      invariant a[..i] == SortSeq(c, input[..i])
      invariant forall k :: i <= k < a.Length ==> a[k] == input[k]
    {
      InsertInPlace(a, i, c);
      SortStep(c, input, i, a[..i + 1]);
      i := i + 1;
    }
    assert input[..a.Length] == input;
  }

  /** Inserting element `i` into the sort of the first `i` elements sorts the first `i + 1`. */
  lemma SortStep(c: Comparator, input: seq<Val>, i: nat, t: seq<Val>)
    requires i < |input| && t == Insert(c, SortSeq(c, input[..i]), input[i])
    ensures t == SortSeq(c, input[..i + 1])
  {
    assert input[..i + 1] == input[..i] + [input[i]];
    SortSeqSnoc(c, input[..i], input[i]);
  }
}
