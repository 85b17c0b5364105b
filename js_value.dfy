/**
 * The slice of JavaScript value semantics that the array helpers rely on:
 * values, truthiness (ToBoolean), own-property reads, strict equality
 * (`===`), the relational operator `<` and the conversion of a value to a
 * property key (`String(v)`).
 */
module JsValue {

  datatype Option<T> = None | Some(value: T)

  /**
   * A JavaScript value. Objects carry an identity, so that `===` on two
   * objects can be reference equality, and their own fields.
   * Numbers are restricted to integers (no NaN, no fractions, no -0).
   */
  datatype Val =
    | Undef
    | Null
    | Bool(b: bool)
    | Int(i: int)
    | Str(s: string)
    | Obj(id: nat, fields: map<string, Val>)

  /** ToBoolean: undefined, null, false, 0 and "" are the falsy values. */
  predicate Truthy(v: Val) {
    match v
    case Undef => false
    case Null => false
    case Bool(b) => b
    case Int(i) => i != 0
    case Str(s) => s != ""
    case Obj(_, _) => true
  }

  /** The values that `??` replaces: null and undefined. */
  predicate Nullish(v: Val) {
    v.Undef? || v.Null?
  }

  /**
   * The property read `v[name]` on a value that is not null or undefined:
   * an own field of an object, and undefined otherwise (properties found
   * on a prototype are not modelled).
   */
  function Get(v: Val, name: string): Val {
    if v.Obj? && name in v.fields then v.fields[name] else Undef
  }

  /** The fields that an object spread `{...v}` copies out of `v`. */
  function OwnFields(v: Val): map<string, Val> {
    if v.Obj? then v.fields else map[]
  }

  /** `a === b`: identity on objects, equality of the value on primitives. */
  predicate StrictEquals(a: Val, b: Val) {
    if a.Obj? && b.Obj? then a.id == b.id else a == b
  }

  /**
   * ToPrimitive with hint number, as relational comparison asks for, on a
   * plain object: `valueOf` gives the object itself, so `toString` decides.
   */
  function ToPrimitive(v: Val): Val {
    if v.Obj? then Str("[object Object]") else v
  }

  /** ToNumber on a primitive; None stands for NaN. */
  function ToNumber(v: Val): Option<int> {
    match v
    case Null => Some(0)
    case Bool(b) => Some(if b then 1 else 0)
    case Int(i) => Some(i)
    case _ => None
  }

  /** String comparison character by character, shorter prefix first. */
  predicate StrLess(a: string, b: string) {
    if |a| == 0 then |b| > 0
    else if |b| == 0 then false
    else if a[0] != b[0] then a[0] < b[0]
    else StrLess(a[1..], b[1..])
  }

  /**
   * The abstract relational comparison behind `a < b`: two strings compare
   * character by character, otherwise both sides are converted to numbers and a NaN
   * on either side makes the comparison false.
   */
  predicate LessThan(a: Val, b: Val) {
    var pa := ToPrimitive(a);
    var pb := ToPrimitive(b);
    if pa.Str? && pb.Str? then StrLess(pa.s, pb.s)
    else ToNumber(pa).Some? && ToNumber(pb).Some? && ToNumber(pa).value < ToNumber(pb).value
  }

  /** `a > b` is evaluated as `b < a`. */
  predicate GreaterThan(a: Val, b: Val) {
    LessThan(b, a)
  }

  lemma {:induction false} StrLessIrreflexive(a: string)
    ensures !StrLess(a, a)
  {
    if |a| > 0 {
      StrLessIrreflexive(a[1..]);
    }
  }

  lemma {:induction false} StrLessAsymmetric(a: string, b: string)
    ensures StrLess(a, b) ==> !StrLess(b, a)
  {
    if |a| > 0 && |b| > 0 && a[0] == b[0] {
      StrLessAsymmetric(a[1..], b[1..]);
    }
  }

  lemma {:induction false} StrLessTransitive(a: string, b: string, c: string)
    ensures StrLess(a, b) && StrLess(b, c) ==> StrLess(a, c)
  {
    if |a| > 0 && |b| > 0 && |c| > 0 && a[0] == b[0] == c[0] {
      StrLessTransitive(a[1..], b[1..], c[1..]);
    }
  }

  lemma {:induction false} StrLessTotal(a: string, b: string)
    ensures a == b || StrLess(a, b) || StrLess(b, a)
  {
    if |a| > 0 && |b| > 0 && a[0] == b[0] {
      StrLessTotal(a[1..], b[1..]);
      if a[1..] == b[1..] {
        assert a == [a[0]] + a[1..] && b == [b[0]] + b[1..];
      }
    }
  }

  /** No value is less than itself, and `<` never holds both ways. */
  lemma LessThanStrictOrder(a: Val, b: Val)
    ensures !LessThan(a, a)
    ensures LessThan(a, b) ==> !LessThan(b, a)
  {
    if ToPrimitive(a).Str? {
      StrLessIrreflexive(ToPrimitive(a).s);
    }
    if ToPrimitive(a).Str? && ToPrimitive(b).Str? {
      StrLessAsymmetric(ToPrimitive(a).s, ToPrimitive(b).s);
    }
  }

  /** The values `<` compares as numbers: null, booleans and numbers. */
  predicate NumberLike(v: Val) {
    v.Null? || v.Bool? || v.Int?
  }

  /** The values `<` compares as strings: strings and plain objects. */
  predicate StringLike(v: Val) {
    v.Str? || v.Obj?
  }

  /**
   * The primitive `<` compares `v` as: the number of a null, boolean or
   * number, the string of a plain object, and anything else as it is.
   */
  function ComparedAs(v: Val): Val {
    match v
    case Null => Int(0)
    case Bool(b) => Int(if b then 1 else 0)
    case Obj(_, _) => ToPrimitive(v)
    case _ => v
  }

  /** `a < b` depends only on what the two sides are compared as. */
  lemma LessThanComparedAs(a: Val, b: Val)
    ensures LessThan(a, b) == LessThan(ComparedAs(a), ComparedAs(b))
  {
  }

  /** Two keys `<` compares the same way: both number-like or both string-like. */
  predicate ComparableKinds(a: Val, b: Val) {
    (NumberLike(a) && NumberLike(b)) || (StringLike(a) && StringLike(b))
  }

  /**
   * On keys that are all number-like or all string-like `<` is a strict weak
   * order: two keys compared as different values compare one way or the
   * other, `<` is transitive, and so is "not greater".
   */
  lemma LessThanTotalOnKind(a: Val, b: Val, c: Val)
    requires ComparableKinds(a, b) && ComparableKinds(b, c)
    ensures ComparedAs(a) == ComparedAs(b) || LessThan(a, b) || LessThan(b, a)
    ensures LessThan(a, b) && LessThan(b, c) ==> LessThan(a, c)
    ensures !LessThan(b, a) && !LessThan(c, b) ==> !LessThan(c, a)
  {
    if StringLike(a) {
      StringLikeTotal(a, b, c);
    } else {
      NumberLikeTotal(a, b, c);
    }
  }

  lemma NumberLikeTotal(a: Val, b: Val, c: Val)
    requires NumberLike(a) && NumberLike(b) && NumberLike(c)
    ensures ComparedAs(a) == ComparedAs(b) || LessThan(a, b) || LessThan(b, a)
    ensures LessThan(a, b) && LessThan(b, c) ==> LessThan(a, c)
    ensures !LessThan(b, a) && !LessThan(c, b) ==> !LessThan(c, a)
  {
  }

  lemma StringLikeTotal(a: Val, b: Val, c: Val)
    requires StringLike(a) && StringLike(b) && StringLike(c)
    ensures ComparedAs(a) == ComparedAs(b) || LessThan(a, b) || LessThan(b, a)
    ensures LessThan(a, b) && LessThan(b, c) ==> LessThan(a, c)
    ensures !LessThan(b, a) && !LessThan(c, b) ==> !LessThan(c, a)
  {
    LessThanOfStrings(a, b);
    LessThanOfStrings(b, c);
    LessThanOfStrings(a, c);
    StrLessWeakOrder(ComparedAs(a).s, ComparedAs(b).s, ComparedAs(c).s);
  }

  /** Two string-like values compare as the strings they are compared as, both ways round. */
  lemma LessThanOfStrings(a: Val, b: Val)
    requires StringLike(a) && StringLike(b)
    ensures ComparedAs(a).Str? && ComparedAs(b).Str?
    ensures LessThan(a, b) == StrLess(ComparedAs(a).s, ComparedAs(b).s)
    ensures LessThan(b, a) == StrLess(ComparedAs(b).s, ComparedAs(a).s)
  {
  }

  /** String comparison is total, transitive, and so is "not greater". */
  lemma StrLessWeakOrder(x: string, y: string, z: string)
    ensures x == y || StrLess(x, y) || StrLess(y, x)
    ensures StrLess(x, y) && StrLess(y, z) ==> StrLess(x, z)
    ensures !StrLess(y, x) && !StrLess(z, y) ==> !StrLess(z, x)
  {
    StrLessTotal(x, y);
    StrLessTransitive(x, y, z);
    StrLessTransitive(z, x, y);
  }

  function DigitChar(d: int): (c: char)
    requires 0 <= d < 10
    ensures '0' <= c <= '9' && c as int - '0' as int == d
  {
    ('0' as int + d) as char
  }

  /** Decimal digits of a natural number, most significant first. */
  function NatToString(n: nat): (r: string)
    ensures |r| >= 1
    ensures forall k :: 0 <= k < |r| ==> '0' <= r[k] <= '9'
  {
    if n < 10 then [DigitChar(n)] else NatToString(n / 10) + [DigitChar(n % 10)]
  }

  /** `String(i)` for an integer: a minus sign, then the decimal digits. */
  function IntToString(i: int): string {
    if i < 0 then "-" + NatToString(-i) else NatToString(i)
  }

  /** The decimal reading of a string of digits. */
  function ParseNat(s: string): int {
    if |s| == 0 then 0 else ParseNat(s[..|s| - 1]) * 10 + (s[|s| - 1] as int - '0' as int)
  }

  function ParseInt(s: string): int {
    if |s| > 0 && s[0] == '-' then -ParseNat(s[1..]) else ParseNat(s)
  }

  lemma {:induction false} NatToStringRoundTrip(n: nat)
    ensures ParseNat(NatToString(n)) == n
  {
    if n >= 10 {
      var s := NatToString(n);
      assert s[..|s| - 1] == NatToString(n / 10);
      NatToStringRoundTrip(n / 10);
    }
  }

  /** Integer keys read back to the integer they were printed from. */
  lemma IntToStringRoundTrip(i: int)
    ensures ParseInt(IntToString(i)) == i
  {
    if i < 0 {
      NatToStringRoundTrip(-i);
      assert IntToString(i)[1..] == NatToString(-i);
    } else {
      NatToStringRoundTrip(i);
    }
  }

  /** Distinct integers are printed as distinct property keys. */
  lemma IntToStringInjective(i: int, j: int)
    ensures IntToString(i) == IntToString(j) ==> i == j
  {
    IntToStringRoundTrip(i);
    IntToStringRoundTrip(j);
  }

  /** ToPropertyKey: the string a value becomes when used as `obj[v]`. */
  function ToPropertyKey(v: Val): string {
    match v
    case Undef => "undefined"
    case Null => "null"
    case Bool(b) => if b then "true" else "false"
    case Int(i) => IntToString(i)
    case Str(s) => s
    case Obj(_, _) => "[object Object]"
  }
}
