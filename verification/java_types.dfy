/** Java value types the generated Thrift structs are built from, and the
    comparison primitives their `compareTo` methods call: `Boolean.compareTo`,
    the integer `TBaseHelper.compareTo` overloads and `String.compareTo`.
 */
module JavaTypes {

  /** Java `short`, the width of a Thrift field id. */
  newtype Int16 = x: int | -0x8000 <= x < 0x8000

  /** Java `int`, Thrift I32. */
  newtype Int32 = x: int | -0x8000_0000 <= x < 0x8000_0000

  /** Java `long`, Thrift I64. */
  newtype Int64 = x: int | -0x8000_0000_0000_0000 <= x < 0x8000_0000_0000_0000

  /** Java `char`: one UTF-16 code unit. */
  newtype Char16 = x: int | 0 <= x < 0x1_0000

  /** A non-null Java `String`: a sequence of UTF-16 code units. A nullable
      reference is written `Option<JString>`. */
  type JString = seq<Char16>

  /** A nullable reference: `None` is Java's `null`. */
  datatype Option<+T> = None | Some(value: T)

  /** `Boolean.compareTo`: `false` sorts before `true`. */
  function CompareBool(x: bool, y: bool): (r: int)
    ensures r == 0 <==> x == y
    ensures r < 0 <==> !x && y
    ensures r > 0 <==> x && !y
  {
    if x == y then 0 else if x then 1 else -1
  }

  /** `TBaseHelper.compareTo(long, long)` and its `int` overload: -1, 0 or 1. */
  function CompareInt(x: int, y: int): (r: int)
    ensures r == 0 <==> x == y
    ensures r < 0 <==> x < y
    ensures r > 0 <==> x > y
    ensures -1 <= r <= 1
  {
    if x < y then -1 else if y < x then 1 else 0
  }

  /** `String.compareTo`: the difference of the first pair of code units that
      differ, or else the difference of the lengths. */
  function CompareString(a: JString, b: JString): (r: int)
    decreases |a|
  {
    if |a| == 0 || |b| == 0 then |a| - |b|
    else if a[0] != b[0] then a[0] as int - b[0] as int
    else CompareString(a[1..], b[1..])
  }

  /** Lexicographic order on code-unit sequences, stated independently of
      `CompareString`: a proper prefix comes first, otherwise the first
      differing code unit decides. */
  ghost predicate LexLess(a: JString, b: JString) {
    || (|a| < |b| && a == b[..|a|])
    || exists k :: 0 <= k < |a| && k < |b| && a[..k] == b[..k] && a[k] < b[k]
  }

  /** `String.compareTo` is zero exactly on equal strings. */
  lemma {:induction false} CompareStringZeroIff(a: JString, b: JString)
    ensures CompareString(a, b) == 0 <==> a == b
    decreases |a|
  {
    if |a| == 0 || |b| == 0 {
    } else if a[0] != b[0] {
    } else {
      CompareStringZeroIff(a[1..], b[1..]);
      if a[1..] == b[1..] {
        assert a == [a[0]] + a[1..] && b == [b[0]] + b[1..];
      }
    }
  }

  /** Swapping the operands of `String.compareTo` negates the result. */
  lemma {:induction false} CompareStringAntisymmetric(a: JString, b: JString)
    ensures CompareString(a, b) == -CompareString(b, a)
    decreases |a|
  {
    if |a| == 0 || |b| == 0 {
    } else if a[0] != b[0] {
    } else {
      CompareStringAntisymmetric(a[1..], b[1..]);
    }
  }

  /** A negative `String.compareTo` is exactly the lexicographic order. */
  lemma {:induction false} CompareStringIsLexLess(a: JString, b: JString)
    ensures CompareString(a, b) < 0 <==> LexLess(a, b)
    decreases |a|
  {
    if |a| == 0 {
      if |b| > 0 { assert a == b[..0]; }
    } else if |b| == 0 {
    } else if a[0] != b[0] {
      if a[0] < b[0] {
        assert a[..0] == b[..0];
      } else {
        if LexLess(a, b) {
          var k :| 0 <= k < |a| && k < |b| && a[..k] == b[..k] && a[k] < b[k];
          assert k != 0;
          assert a[0] == a[..k][0] == b[..k][0] == b[0];
        }
      }
    } else {
      var a', b' := a[1..], b[1..];
      CompareStringIsLexLess(a', b');
      if LexLess(a', b') {
        if |a'| < |b'| && a' == b'[..|a'|] {
          assert a == b[..|a|] by {
            assert a == [a[0]] + a' && b[..|a|] == [b[0]] + b'[..|a'|];
          }
        } else {
          var k :| 0 <= k < |a'| && k < |b'| && a'[..k] == b'[..k] && a'[k] < b'[k];
          assert a[..k + 1] == [a[0]] + a'[..k] && b[..k + 1] == [b[0]] + b'[..k];
          assert a[k + 1] < b[k + 1];
        }
      }
      if LexLess(a, b) {
        if |a| < |b| && a == b[..|a|] {
          assert a' == b'[..|a'|];
        } else {
          var k :| 0 <= k < |a| && k < |b| && a[..k] == b[..k] && a[k] < b[k];
          assert k != 0;
          assert a'[..k - 1] == a[1..k] == b[1..k] == b'[..k - 1];
          assert a'[k - 1] < b'[k - 1];
        }
      }
    }
  }

  /** `String.compareTo` orders strings transitively. */
  lemma {:induction false} CompareStringTransitive(a: JString, b: JString, c: JString)
    requires CompareString(a, b) < 0 && CompareString(b, c) < 0
    ensures CompareString(a, c) < 0
    decreases |a|
  {
    if |a| == 0 || |b| == 0 || |c| == 0 {
    } else if a[0] != b[0] || b[0] != c[0] {
    } else {
      CompareStringTransitive(a[1..], b[1..], c[1..]);
    }
  }
}
