/** The orders in which the signers sort parameter names before building the
    parameter string. */
module Collation {
  import opened Unicode

  /** `JsCodeUnits`: JavaScript's default `Array.prototype.sort`, which
      compares strings by their UTF-16 code units.
      `PyCodePoints`: Python's `sorted`, which compares `str` values by code
      point. */
  datatype KeyOrder = JsCodeUnits | PyCodePoints

  function Rank(o: KeyOrder, s: string): seq<int>
  {
    match o
    case JsCodeUnits => Utf16(s)
    case PyCodePoints => CodePoints(s)
  }

  /** Lexicographic order on integer sequences; a proper prefix comes first. */
  predicate LexLess(x: seq<int>, y: seq<int>)
  {
    if x == [] then y != []
    else if y == [] then false
    else if x[0] != y[0] then x[0] < y[0]
    else LexLess(x[1..], y[1..])
  }

  predicate KeyLess(o: KeyOrder, a: string, b: string)
  {
    LexLess(Rank(o, a), Rank(o, b))
  }

  lemma {:induction false} LexIrreflexive(x: seq<int>)
    ensures !LexLess(x, x)
  {
    if x != [] {
      LexIrreflexive(x[1..]);
    }
  }

  lemma {:induction false} LexTransitive(x: seq<int>, y: seq<int>, z: seq<int>)
    requires LexLess(x, y) && LexLess(y, z)
    ensures LexLess(x, z)
  {
    if x != [] && y != [] && z != [] && x[0] == y[0] == z[0] {
      LexTransitive(x[1..], y[1..], z[1..]);
    }
  }

  lemma {:induction false} LexTotal(x: seq<int>, y: seq<int>)
    requires x != y
    ensures LexLess(x, y) || LexLess(y, x)
  {
    if x != [] && y != [] && x[0] == y[0] {
      assert x == [x[0]] + x[1..] && y == [y[0]] + y[1..];
      LexTotal(x[1..], y[1..]);
    }
  }

  /** The first difference decides, and a proper prefix comes first. */
  lemma {:induction false} LexLessAt(x: seq<int>, y: seq<int>, k: nat)
    requires k <= |x| && k < |y| && x[..k] == y[..k]
    requires k == |x| || x[k] < y[k]
    ensures LexLess(x, y)
  {
    if k > 0 {
      assert x[1..][..k - 1] == x[..k][1..] == y[..k][1..] == y[1..][..k - 1];
      assert x[0] == x[..k][0] == y[..k][0] == y[0];
      LexLessAt(x[1..], y[1..], k - 1);
    }
  }

  lemma RankInjective(o: KeyOrder, a: string, b: string)
    requires Rank(o, a) == Rank(o, b)
    ensures a == b
  {
    match o
    case JsCodeUnits => Utf16Injective(a, b);
    case PyCodePoints => CodePointsInjective(a, b);
  }

  /** Both orders are strict total orders on names. */
  lemma KeyLessIrreflexive(o: KeyOrder, a: string)
    ensures !KeyLess(o, a, a)
  {
    LexIrreflexive(Rank(o, a));
  }

  lemma KeyLessTransitive(o: KeyOrder, a: string, b: string, c: string)
    requires KeyLess(o, a, b) && KeyLess(o, b, c)
    ensures KeyLess(o, a, c)
  {
    LexTransitive(Rank(o, a), Rank(o, b), Rank(o, c));
  }

  lemma KeyLessAsymmetric(o: KeyOrder, a: string, b: string)
    requires KeyLess(o, a, b)
    ensures !KeyLess(o, b, a)
  {
    if KeyLess(o, b, a) {
      KeyLessTransitive(o, a, b, a);
      KeyLessIrreflexive(o, a);
    }
  }

  lemma KeyLessTotal(o: KeyOrder, a: string, b: string)
    requires a != b
    ensures KeyLess(o, a, b) || KeyLess(o, b, a)
  {
    if Rank(o, a) == Rank(o, b) {
      RankInjective(o, a, b);
    }
    LexTotal(Rank(o, a), Rank(o, b));
  }

  predicate InBmp(s: string) {
    forall i | 0 <= i < |s| :: s[i] as int < 0x10000
  }

  /** Inside the Basic Multilingual Plane a character is one UTF-16 code
      unit, so JavaScript and Python sort such names the same way. */
  lemma {:induction false} OrdersAgreeInBmp(s: string)
    requires InBmp(s)
    ensures Rank(JsCodeUnits, s) == Rank(PyCodePoints, s)
  {
    if s != [] {
      OrdersAgreeInBmp(s[1..]);
      assert [s[0] as int] + CodePoints(s[1..]) == CodePoints(s);
    }
  }

  /** Outside it they differ: U+FF61 sorts before U+1F600 by code point but
      after it by code unit, whose first unit is the surrogate 0xD83D. */
  lemma OrdersDisagreeOutsideBmp()
    ensures KeyLess(PyCodePoints, "\U{FF61}", "\U{1F600}")
    ensures KeyLess(JsCodeUnits, "\U{1F600}", "\U{FF61}")
  {
    assert Utf16("\U{1F600}")[0] == 0xD83D;
    assert Utf16("\U{FF61}") == [0xFF61];
  }

  /** Two names in the Basic Multilingual Plane that agree up to position
      `k`, where the first ends or has the smaller character, are in order. */
  lemma KeyLessAt(o: KeyOrder, a: string, b: string, k: nat)
    requires InBmp(a) && InBmp(b)
    requires k <= |a| && k < |b| && a[..k] == b[..k]
    requires k == |a| || a[k] < b[k]
    ensures KeyLess(o, a, b)
  {
    OrdersAgreeInBmp(a);
    OrdersAgreeInBmp(b);
    assert CodePoints(a)[..k] == CodePoints(b)[..k];
    LexLessAt(CodePoints(a), CodePoints(b), k);
  }
}
