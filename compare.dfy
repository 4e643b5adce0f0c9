/** The comparison helper of package `compare`: `Compare` orders two values of the
    same dynamic kind (an integer kind or a string) or delegates to a value that
    implements `Comparer`, and `LT`, `GT`, `EQ`, `NE`, `GE`, `LE` are sign tests on it. */
module Compare {

  /** The Go integer kinds `Compare` accepts; `byte` is `uint8` and `rune` is `int32`. */
  datatype IntKind = Int | Int8 | Int16 | Int32 | Int64 | Uint | Uint8 | Uint16 | Uint32 | Uint64

  /** A dynamic value handed to `Compare`: an integer of some kind (as a mathematical
      integer), a string, or a user value implementing `Comparer`, named by `id`. */
  datatype Value =
    | Integer(kind: IntKind, n: int)
    | Str(s: string)
    | Custom(id: nat)

  /** 2^53: every integer of magnitude up to this is exact as a float64. */
  const FLOAT64_EXACT: int := 0x20_0000_0000_0000

  /** The least value of a kind that the model admits. `int`, `int64`, `uint`
      and `uint64` are cut to the range that converts to float64 exactly. */
  function KindMin(k: IntKind): int
  {
    match k
    case Int8 => -0x80
    case Int16 => -0x8000
    case Int32 => -0x8000_0000
    case Int | Int64 => -FLOAT64_EXACT
    case Uint | Uint8 | Uint16 | Uint32 | Uint64 => 0
  }

  function KindMax(k: IntKind): int
  {
    match k
    case Int8 => 0x7F
    case Int16 => 0x7FFF
    case Int32 => 0x7FFF_FFFF
    case Uint8 => 0xFF
    case Uint16 => 0xFFFF
    case Uint32 => 0xFFFF_FFFF
    case Int | Int64 | Uint | Uint64 => FLOAT64_EXACT
  }

  predicate Representable(v: Value)
  {
    v.Integer? ==> KindMin(v.kind) <= v.n <= KindMax(v.kind)
  }

  predicate SameKind(v1: Value, v2: Value)
  {
    || (v1.Integer? && v2.Integer? && v1.kind == v2.kind)
    || (v1.Str? && v2.Str?)
  }

  /** What `Compare` accepts without panicking: a `Comparer` first argument, or two
      values of the same kind ("Type is not the same" otherwise). */
  predicate Comparable(v1: Value, v2: Value)
  {
    v1.Custom? || (SameKind(v1, v2) && Representable(v1) && Representable(v2))
  }

  /** `strings.Compare`: three-way lexicographic comparison, element by element. */
  function StrCompare(a: string, b: string): (r: int)
    ensures -1 <= r <= 1
    ensures r == 0 <==> a == b
    decreases |a|
  {
    if |a| == 0 then (if |b| == 0 then 0 else -1)
    else if |b| == 0 then 1
    else if a[0] < b[0] then -1
    else if a[0] > b[0] then 1
    else StrCompare(a[1..], b[1..])
  }

  /** Reference definition of lexicographic order: `a` is a proper prefix of `b`,
      or at the first position where they differ `a` has the smaller element. */
  ghost predicate LexLess(a: string, b: string)
  {
    exists k :: LexAt(a, b, k)
  }

  /** `a` and `b` agree before position `k`, and `k` is where `a` ends or is smaller. */
  ghost predicate LexAt(a: string, b: string, k: int)
  {
    0 <= k <= |a| && k <= |b| && a[..k] == b[..k] &&
      ((k == |a| && k < |b|) || (k < |a| && k < |b| && a[k] < b[k]))
  }

  lemma {:induction false} StrCompareIsLex(a: string, b: string)
    ensures StrCompare(a, b) < 0 <==> LexLess(a, b)
    decreases |a|
  {
    if |a| == 0 {
      if |b| > 0 {
        assert LexAt(a, b, 0);
      }
    } else if |b| == 0 {
    } else if a[0] < b[0] {
      assert LexAt(a, b, 0);
    } else if a[0] > b[0] {
      if LexLess(a, b) {
        var k :| LexAt(a, b, k);
        assert k > 0 ==> a[..k][0] == b[..k][0];
      }
    } else {
      StrCompareIsLex(a[1..], b[1..]);
      if LexLess(a, b) {
        var k :| LexAt(a, b, k);
        LexAtTail(a, b, k);
      }
      if LexLess(a[1..], b[1..]) {
        var k :| LexAt(a[1..], b[1..], k);
        LexAtCons(a, b, k);
      }
    }
  }

  lemma LexAtTail(a: string, b: string, k: int)
    requires |a| > 0 && |b| > 0 && a[0] == b[0] && LexAt(a, b, k)
    ensures k > 0 && LexAt(a[1..], b[1..], k - 1)
  {
    assert k > 0;
    assert a[1..][..k - 1] == a[..k][1..] && b[1..][..k - 1] == b[..k][1..];
  }

  lemma LexAtCons(a: string, b: string, k: int)
    requires |a| > 0 && |b| > 0 && a[0] == b[0] && LexAt(a[1..], b[1..], k)
    ensures LexAt(a, b, k + 1)
  {
    assert a[..k + 1] == [a[0]] + a[1..][..k] && b[..k + 1] == [b[0]] + b[1..][..k];
  }

  lemma {:induction false} StrCompareAntisymmetric(a: string, b: string)
    ensures StrCompare(a, b) == -StrCompare(b, a)
    decreases |a|
  {
    if |a| > 0 && |b| > 0 && a[0] == b[0] {
      StrCompareAntisymmetric(a[1..], b[1..]);
    }
  }

  lemma {:induction false} StrCompareTransitive(a: string, b: string, c: string)
    requires StrCompare(a, b) < 0 && StrCompare(b, c) < 0
    ensures StrCompare(a, c) < 0
    decreases |a|
  {
    if |a| > 0 && |b| > 0 && |c| > 0 && a[0] == b[0] && b[0] == c[0] {
      StrCompareTransitive(a[1..], b[1..], c[1..]);
    }
  }

  /** Comparing two concatenations whose first parts have the same length: the first
      parts decide unless they are equal. */
  lemma {:induction false} StrCompareConcat(x1: string, y1: string, x2: string, y2: string)
    requires |x1| == |x2|
    ensures StrCompare(x1 + y1, x2 + y2) == if x1 == x2 then StrCompare(y1, y2) else StrCompare(x1, x2)
    decreases |x1|
  {
    if |x1| == 0 {
      assert x1 + y1 == y1 && x2 + y2 == y2;
    } else {
      assert (x1 + y1)[0] == x1[0] && (x2 + y2)[0] == x2[0];
      if x1[0] == x2[0] {
        assert (x1 + y1)[1..] == x1[1..] + y1 && (x2 + y2)[1..] == x2[1..] + y2;
        StrCompareConcat(x1[1..], y1, x2[1..], y2);
        assert x1 == x2 <==> x1[1..] == x2[1..] by {
          assert x1 == [x1[0]] + x1[1..] && x2 == [x2[0]] + x2[1..];
        }
      }
    }
  }

  /** `Compare(v1, v2)`: positive if `v1` is greater, 0 if equal, negative if less. For
      integer kinds Go compares the float64 conversions, which are exact in the range
      `Representable` admits. A `Comparer` first argument answers by itself: `delegate(id, v2)`
      is its `Compare` method. */
  function Compare(v1: Value, v2: Value, delegate: (nat, Value) -> int): (r: int)
    requires Comparable(v1, v2)
    ensures v1.Custom? ==> r == delegate(v1.id, v2)
    ensures v1.Integer? ==>
      && (r == 1 <==> v1.n > v2.n)
      && (r == 0 <==> v1.n == v2.n)
      && (r == -1 <==> v1.n < v2.n)
    ensures v1.Str? ==>
      && -1 <= r <= 1
      && (r < 0 <==> LexLess(v1.s, v2.s))
      && (r == 0 <==> v1.s == v2.s)
      && (r > 0 <==> LexLess(v2.s, v1.s))
  {
    match v1
    case Custom(id) => delegate(id, v2)
    case Integer(_, first) =>
      var second := v2.n;
      if first > second then 1 else if first < second then -1 else 0
    case Str(s) =>
      StrCompareIsLex(s, v2.s);
      StrCompareIsLex(v2.s, s);
      StrCompareAntisymmetric(s, v2.s);
      StrCompare(s, v2.s)
  }

  predicate LT(v1: Value, v2: Value, delegate: (nat, Value) -> int): (b: bool)
    requires Comparable(v1, v2)
    ensures v1.Integer? ==> (b <==> v1.n < v2.n)
    ensures v1.Str? ==> (b <==> LexLess(v1.s, v2.s))
    ensures v1.Custom? ==> (b <==> delegate(v1.id, v2) < 0)
  {
    Compare(v1, v2, delegate) < 0
  }

  predicate GT(v1: Value, v2: Value, delegate: (nat, Value) -> int): (b: bool)
    requires Comparable(v1, v2)
    ensures v1.Integer? ==> (b <==> v1.n > v2.n)
    ensures v1.Str? ==> (b <==> LexLess(v2.s, v1.s))
    ensures v1.Custom? ==> (b <==> delegate(v1.id, v2) > 0)
  {
    Compare(v1, v2, delegate) > 0
  }

  predicate EQ(v1: Value, v2: Value, delegate: (nat, Value) -> int): (b: bool)
    requires Comparable(v1, v2)
    ensures !v1.Custom? ==> (b <==> v1 == v2)
    ensures v1.Custom? ==> (b <==> delegate(v1.id, v2) == 0)
  {
    Compare(v1, v2, delegate) == 0
  }

  predicate NE(v1: Value, v2: Value, delegate: (nat, Value) -> int): (b: bool)
    requires Comparable(v1, v2)
    ensures !v1.Custom? ==> (b <==> v1 != v2)
    ensures v1.Custom? ==> (b <==> delegate(v1.id, v2) != 0)
  {
    !EQ(v1, v2, delegate)
  }

  predicate GE(v1: Value, v2: Value, delegate: (nat, Value) -> int): (b: bool)
    requires Comparable(v1, v2)
    ensures v1.Integer? ==> (b <==> v1.n >= v2.n)
    ensures b <==> !LT(v1, v2, delegate)
  {
    GT(v1, v2, delegate) || EQ(v1, v2, delegate)
  }

  predicate LE(v1: Value, v2: Value, delegate: (nat, Value) -> int): (b: bool)
    requires Comparable(v1, v2)
    ensures v1.Integer? ==> (b <==> v1.n <= v2.n)
    ensures b <==> !GT(v1, v2, delegate)
  {
    LT(v1, v2, delegate) || EQ(v1, v2, delegate)
  }

  /** Exactly one of `LT`, `EQ`, `GT` holds, whatever the kinds. */
  lemma Trichotomy(v1: Value, v2: Value, delegate: (nat, Value) -> int)
    requires Comparable(v1, v2)
    ensures LT(v1, v2, delegate) || EQ(v1, v2, delegate) || GT(v1, v2, delegate)
    ensures !(LT(v1, v2, delegate) && EQ(v1, v2, delegate))
    ensures !(LT(v1, v2, delegate) && GT(v1, v2, delegate))
    ensures !(EQ(v1, v2, delegate) && GT(v1, v2, delegate))
  {
  }

  lemma CompareReflexive(v: Value, delegate: (nat, Value) -> int)
    requires !v.Custom? && Representable(v)
    ensures Comparable(v, v) && Compare(v, v, delegate) == 0
  {
  }

  /** Swapping the arguments negates the result, for integer and string kinds. */
  lemma CompareAntisymmetric(v1: Value, v2: Value, delegate: (nat, Value) -> int)
    requires Comparable(v1, v2) && !v1.Custom?
    ensures Comparable(v2, v1)
    ensures Compare(v1, v2, delegate) == -Compare(v2, v1, delegate)
  {
    if v1.Str? {
      StrCompareAntisymmetric(v1.s, v2.s);
    }
  }

  /** For integer and string kinds `LT` and `GT` are converses of each other. */
  lemma LTIsConverseOfGT(v1: Value, v2: Value, delegate: (nat, Value) -> int)
    requires Comparable(v1, v2) && !v1.Custom?
    ensures Comparable(v2, v1)
    ensures LT(v1, v2, delegate) <==> GT(v2, v1, delegate)
  {
    CompareAntisymmetric(v1, v2, delegate);
  }

  lemma LTTransitive(v1: Value, v2: Value, v3: Value, delegate: (nat, Value) -> int)
    requires !v1.Custom? && Comparable(v1, v2) && Comparable(v2, v3)
    requires LT(v1, v2, delegate) && LT(v2, v3, delegate)
    ensures Comparable(v1, v3) && LT(v1, v3, delegate)
  {
    if v1.Str? {
      assert StrCompare(v1.s, v2.s) < 0 && StrCompare(v2.s, v3.s) < 0;
      StrCompareTransitive(v1.s, v2.s, v3.s);
    }
  }
}
