/**
 * The dot-path reader `getValue(obj, path)` that every helper of
 * `ArrayHelper` declares for itself: the path is split on "." and the
 * segments are folded left to right with `acc && acc[part]`.
 */
module PathReader {
  import opened JsValue

  /** `path.split(".")`: never empty; "" gives [""] and "a..b" gives ["a", "", "b"]. */
  function Split(path: string): (segs: seq<string>)
    ensures |segs| >= 1
    ensures forall k :: 0 <= k < |segs| ==> '.' !in segs[k]
  {
    if |path| == 0 then [""]
    else
      var rest := Split(path[1..]);
      if path[0] == '.' then [""] + rest
      else [[path[0]] + rest[0]] + rest[1..]
  }

  /** The segments put back together with "." between them. */
  function Join(segs: seq<string>): string
    requires |segs| >= 1
  {
    if |segs| == 1 then segs[0] else segs[0] + "." + Join(segs[1..])
  }

  /** Joining the segments gives the path back. */
  lemma {:induction false} JoinSplit(path: string)
    ensures Join(Split(path)) == path
  {
    if |path| > 0 {
      var rest := Split(path[1..]);
      JoinSplit(path[1..]);
      assert path == [path[0]] + path[1..];
      if path[0] != '.' && |rest| > 1 {
        assert rest == [rest[0]] + rest[1..];
        assert Join(rest) == rest[0] + "." + Join(rest[1..]);
      }
    }
  }

  /** Splitting undoes joining, for segments without a "." in them. */
  lemma {:induction false} SplitJoin(segs: seq<string>)
    requires |segs| >= 1
    requires forall k :: 0 <= k < |segs| ==> '.' !in segs[k]
    ensures Split(Join(segs)) == segs
  {
    var head := segs[0];
    var tail := if |segs| == 1 then "" else "." + Join(segs[1..]);
    if |segs| > 1 {
      SplitJoin(segs[1..]);
    }
    SplitJoinHead(head, tail, segs);
    assert Join(segs) == head + tail;
    assert [head] + segs[1..] == segs;
  }

  /** One segment at a time: `Split(head + tail)` peels `head` off character by character. */
  lemma {:induction false} SplitJoinHead(head: string, tail: string, segs: seq<string>)
    requires |segs| >= 1 && segs[0] == head && '.' !in head
    requires |segs| == 1 ==> tail == ""
    requires |segs| > 1 ==> tail == "." + Join(segs[1..]) && Split(Join(segs[1..])) == segs[1..]
    ensures Split(head + tail) == [head] + segs[1..]
    decreases |head|
  {
    if |head| == 0 {
      assert head + tail == tail;
      if |segs| > 1 {
        assert tail[1..] == Join(segs[1..]);
      }
    } else {
      var s := head + tail;
      assert s[1..] == head[1..] + tail;
      var segs' := [head[1..]] + segs[1..];
      SplitJoinHead(head[1..], tail, segs');
      assert [head[0]] + head[1..] == head;
    }
  }

  /** A key without "." is a single segment. */
  lemma {:induction false} SplitSingle(key: string)
    requires '.' !in key
    ensures Split(key) == [key]
  {
    if |key| > 0 {
      SplitSingle(key[1..]);
      assert [key[0]] + key[1..] == key;
    }
  }

  /** `a + "." + b` splits into the segments of `a` followed by those of `b`. */
  lemma {:induction false} SplitConcat(a: string, b: string)
    ensures Split(a + "." + b) == Split(a) + Split(b)
  {
    var s := a + "." + b;
    if |a| == 0 {
      assert s == "." + b && s[1..] == b;
    } else {
      assert s[0] == a[0] && s[1..] == a[1..] + "." + b;
      SplitConcat(a[1..], b);
      var ra, rb := Split(a[1..]), Split(b);
      if a[0] != '.' {
        assert (ra + rb)[0] == ra[0] && (ra + rb)[1..] == ra[1..] + rb;
      }
    }
  }

  /** One step of the fold: `acc && acc[part]`. */
  function Step(acc: Val, part: string): Val {
    if Truthy(acc) then Get(acc, part) else acc
  }

  /** `segs.reduce((acc, part) => acc && acc[part], obj)`. */
  function GetPath(obj: Val, segs: seq<string>): Val
    decreases |segs|
  {
    if |segs| == 0 then obj else GetPath(Step(obj, segs[0]), segs[1..])
  }

  /** `getValue(obj, path)`. */
  function GetValue(obj: Val, path: string): Val {
    GetPath(obj, Split(path))
  }

  /**
   * The plain nested read `obj[s1][s2]...[sk]`, as if every intermediate
   * value could be read from; the reference the fold is compared with.
   */
  function Walk(obj: Val, segs: seq<string>): Val
    decreases |segs|
  {
    if |segs| == 0 then obj else Walk(Get(obj, segs[0]), segs[1..])
  }

  /** Once the accumulator is falsy the fold keeps it to the end. */
  lemma {:induction false} FalsyIsSticky(acc: Val, segs: seq<string>)
    requires !Truthy(acc)
    ensures GetPath(acc, segs) == acc
    decreases |segs|
  {
    if |segs| > 0 {
      FalsyIsSticky(acc, segs[1..]);
    }
  }

  /** Reading a path piecewise: the fold over `a + b` is the fold over `b` from the result over `a`. */
  lemma {:induction false} GetPathConcat(obj: Val, a: seq<string>, b: seq<string>)
    ensures GetPath(obj, a + b) == GetPath(GetPath(obj, a), b)
    decreases |a|
  {
    if |a| > 0 {
      assert (a + b)[1..] == a[1..] + b;
      GetPathConcat(Step(obj, a[0]), a[1..], b);
    } else {
      assert a + b == b;
    }
  }

  lemma {:induction false} WalkConcat(obj: Val, a: seq<string>, b: seq<string>)
    ensures Walk(obj, a + b) == Walk(Walk(obj, a), b)
    decreases |a|
  {
    if |a| > 0 {
      assert (a + b)[1..] == a[1..] + b;
      WalkConcat(Get(obj, a[0]), a[1..], b);
    } else {
      assert a + b == b;
    }
  }

  /** While every intermediate value is truthy the fold is the plain nested read. */
  lemma {:induction false} GetPathAllTruthy(obj: Val, segs: seq<string>)
    requires forall k :: 0 <= k < |segs| ==> Truthy(Walk(obj, segs[..k]))
    ensures GetPath(obj, segs) == Walk(obj, segs)
    decreases |segs|
  {
    if |segs| > 0 {
      var n := |segs| - 1;
      var init, last := segs[..n], segs[n];
      assert segs == init + [last];
      forall k | 0 <= k < |init| ensures Truthy(Walk(obj, init[..k])) {
        assert init[..k] == segs[..k];
      }
      GetPathAllTruthy(obj, init);
      GetPathConcat(obj, init, [last]);
      WalkConcat(obj, init, [last]);
      assert Truthy(Walk(obj, segs[..n]));
      assert GetPath(GetPath(obj, init), [last]) == GetPath(Step(GetPath(obj, init), last), []);
      assert Walk(Walk(obj, init), [last]) == Walk(Get(Walk(obj, init), last), []);
    }
  }

  /**
   * The reader applies the segments left to right. When every intermediate
   * value `Walk(obj, segs[..k])`, k < |segs|, is truthy it returns the nested
   * field; otherwise it returns the first falsy intermediate value itself
   * (0, "", false, null or undefined), not necessarily undefined.
   */
  lemma GetPathIsFieldOrFirstFalsy(obj: Val, segs: seq<string>)
    ensures (forall k :: 0 <= k < |segs| ==> Truthy(Walk(obj, segs[..k]))) ==>
              GetPath(obj, segs) == Walk(obj, segs)
    ensures forall k :: 0 <= k < |segs| && !Truthy(Walk(obj, segs[..k])) &&
                        (forall j :: 0 <= j < k ==> Truthy(Walk(obj, segs[..j]))) ==>
              GetPath(obj, segs) == Walk(obj, segs[..k])
  {
    if forall k :: 0 <= k < |segs| ==> Truthy(Walk(obj, segs[..k])) {
      GetPathAllTruthy(obj, segs);
    }
    forall k | 0 <= k < |segs| && !Truthy(Walk(obj, segs[..k])) &&
               (forall j :: 0 <= j < k ==> Truthy(Walk(obj, segs[..j])))
      ensures GetPath(obj, segs) == Walk(obj, segs[..k])
    {
      GetPathFirstFalsy(obj, segs, k);
    }
  }

  lemma GetPathFirstFalsy(obj: Val, segs: seq<string>, k: nat)
    requires k < |segs| && !Truthy(Walk(obj, segs[..k]))
    requires forall j :: 0 <= j < k ==> Truthy(Walk(obj, segs[..j]))
    ensures GetPath(obj, segs) == Walk(obj, segs[..k])
  {
    var pre := segs[..k];
    forall j | 0 <= j < |pre| ensures Truthy(Walk(obj, pre[..j])) {
      assert pre[..j] == segs[..j];
    }
    GetPathAllTruthy(obj, pre);
    assert segs == pre + segs[k..];
    GetPathConcat(obj, pre, segs[k..]);
    FalsyIsSticky(Walk(obj, pre), segs[k..]);
  }

  /** `getValue(obj, p + "." + q)` is `getValue(getValue(obj, p), q)`. */
  lemma GetValueConcat(obj: Val, p: string, q: string)
    ensures GetValue(obj, p + "." + q) == GetValue(GetValue(obj, p), q)
  {
    SplitConcat(p, q);
    GetPathConcat(obj, Split(p), Split(q));
  }

  /** Reading any path from a falsy value (undefined, say) gives that value back. */
  lemma GetValueOfFalsy(obj: Val, path: string)
    requires !Truthy(obj)
    ensures GetValue(obj, path) == obj
  {
    FalsyIsSticky(obj, Split(path));
  }

  /** A key without "." read from a truthy value is the plain property read `obj[key]`. */
  lemma GetValueSingleSegment(obj: Val, key: string)
    requires '.' !in key && Truthy(obj)
    ensures GetValue(obj, key) == Get(obj, key)
  {
    SplitSingle(key);
    assert GetPath(obj, [key]) == GetPath(Step(obj, key), []);
  }
}
