/** Parameter sets as the signers hold them. A JavaScript object built from
    string-named fields, and a Python dict, keep their entries in insertion
    order with one value per name; assigning to an existing name keeps its
    place, assigning to a new name appends it, and `{...a, ...b}` (JavaScript)
    or `{**a, **b}` (Python) assigns b's entries onto a copy of a, in order. */
module Params {
  import opened Collation

  type Dict = seq<(string, string)>

  function Keys(d: Dict): (ks: seq<string>)
    ensures |ks| == |d|
    ensures forall i | 0 <= i < |d| :: ks[i] == d[i].0
  {
    seq(|d|, i requires 0 <= i < |d| => d[i].0)
  }

  predicate DistinctKeys(d: Dict)
  {
    forall i, j | 0 <= i < j < |d| :: d[i].0 != d[j].0
  }

  /** The dictionary as a map, order forgotten; a later entry overrides an
      earlier one of the same name. */
  function ToMap(d: Dict): (m: map<string, string>)
    ensures forall k :: k in m <==> k in Keys(d)
  {
    if d == [] then map[]
    else
      var n := |d| - 1;
      assert Keys(d) == Keys(d[..n]) + [d[n].0];
      ToMap(d[..n])[d[n].0 := d[n].1]
  }

  /** In a dictionary with distinct names, the map sends each name to the
      value stored with it. */
  lemma {:induction false} ToMapAt(d: Dict, i: int)
    requires DistinctKeys(d) && 0 <= i < |d|
    ensures d[i].0 in ToMap(d) && ToMap(d)[d[i].0] == d[i].1
  {
    if i < |d| - 1 {
      ToMapAt(d[..|d| - 1], i);
    }
  }

  /** So, with distinct names, an entry belongs to the dictionary exactly
      when the map agrees with it. */
  lemma PairInIff(d: Dict, p: (string, string))
    requires DistinctKeys(d)
    ensures p in d <==> p.0 in ToMap(d) && ToMap(d)[p.0] == p.1
  {
    if p in d {
      var i :| 0 <= i < |d| && d[i] == p;
      ToMapAt(d, i);
    }
    if p.0 in ToMap(d) {
      assert p.0 in Keys(d);
      var i :| 0 <= i < |d| && Keys(d)[i] == p.0;
      ToMapAt(d, i);
      if ToMap(d)[p.0] == p.1 {
        assert d[i] == p;
      }
    }
  }

  /** Two dictionaries with distinct names and the same entries have the same map. */
  lemma SameEntriesSameMap(a: Dict, b: Dict)
    requires DistinctKeys(a) && DistinctKeys(b)
    requires forall p :: p in a <==> p in b
    ensures ToMap(a) == ToMap(b)
  {
    forall k | k in ToMap(a)
      ensures k in ToMap(b) && ToMap(b)[k] == ToMap(a)[k]
    {
      PairInIff(a, (k, ToMap(a)[k]));
      PairInIff(b, (k, ToMap(a)[k]));
    }
    forall k | k in ToMap(b)
      ensures k in ToMap(a)
    {
      PairInIff(b, (k, ToMap(b)[k]));
      PairInIff(a, (k, ToMap(b)[k]));
    }
  }

  /** The position of a name in the dictionary. */
  function IndexOf(d: Dict, k: string): (i: nat)
    requires k in Keys(d)
    ensures i < |d| && d[i].0 == k
  {
    if d[0].0 == k then 0
    else
      assert Keys(d) == [d[0].0] + Keys(d[1..]);
      1 + IndexOf(d[1..], k)
  }

  /** Replacing the value stored at a position updates the map at its name. */
  lemma {:induction false} ToMapUpdate(d: Dict, i: int, v: string)
    requires DistinctKeys(d) && 0 <= i < |d|
    ensures ToMap(d[i := (d[i].0, v)]) == ToMap(d)[d[i].0 := v]
  {
    var n, e := |d| - 1, d[i := (d[i].0, v)];
    if i == n {
      assert e[..n] == d[..n];
    } else {
      assert e[..n] == d[..n][i := (d[i].0, v)] && e[n] == d[n];
      ToMapUpdate(d[..n], i, v);
    }
  }

  /** `d[k] = v`: a name already present keeps its place and takes the new
      value; a new name goes at the end. */
  function Put(d: Dict, k: string, v: string): (r: Dict)
    requires DistinctKeys(d)
    ensures DistinctKeys(r)
    ensures ToMap(r) == ToMap(d)[k := v]
    ensures k in Keys(d) ==> Keys(r) == Keys(d)
    ensures k !in Keys(d) ==> r == d + [(k, v)]
  {
    if k in Keys(d) then
      var i := IndexOf(d, k);
      ToMapUpdate(d, i, v);
      assert Keys(d[i := (k, v)]) == Keys(d);
      d[i := (k, v)]
    else
      var r := d + [(k, v)];
      assert r[..|d|] == d;
      r
  }

  lemma MergeUpdate(m1: map<string, string>, m2: map<string, string>, k: string, v: string)
    ensures (m1 + m2)[k := v] == m1 + m2[k := v]
  {
  }

  lemma ToMapLast(d: Dict)
    requires d != []
    ensures ToMap(d) == ToMap(d[..|d| - 1])[d[|d| - 1].0 := d[|d| - 1].1]
  {
  }

  /** `{...a, ...b}`: b's entries assigned onto a, in b's order. The result
      maps every name of b to b's value and every other name of a to a's;
      a's names keep their places at the front. */
  function Spread(a: Dict, b: Dict): (r: Dict)
    requires DistinctKeys(a) && DistinctKeys(b)
    ensures DistinctKeys(r)
    ensures ToMap(r) == ToMap(a) + ToMap(b)
    ensures |a| <= |r| && Keys(r)[..|a|] == Keys(a)
  {
    if b == [] then a
    else
      var n := |b| - 1;
      assert DistinctKeys(b[..n]);
      var r := Spread(a, b[..n]);
      ToMapLast(b);
      MergeUpdate(ToMap(a), ToMap(b[..n]), b[n].0, b[n].1);
      PutKeepsPrefix(r, b[n].0, b[n].1, |a|);
      Put(r, b[n].0, b[n].1)
  }

  /** `d[k] = v` leaves the names in front where they were. */
  lemma PutKeepsPrefix(d: Dict, k: string, v: string, m: nat)
    requires DistinctKeys(d) && m <= |d|
    ensures m <= |Put(d, k, v)| && Keys(Put(d, k, v))[..m] == Keys(d)[..m]
  {
    if k !in Keys(d) {
      assert Keys(Put(d, k, v)) == Keys(d) + [k];
    }
  }

  // ------------------------------------------------------------- sorting

  predicate SortedBy(o: KeyOrder, d: Dict)
  {
    forall i, j | 0 <= i < j < |d| :: KeyLess(o, d[i].0, d[j].0)
  }

  /** Sortedness follows from each name preceding the next. */
  lemma {:induction false} ChainSorted(o: KeyOrder, d: Dict)
    requires forall i | 0 <= i < |d| - 1 :: KeyLess(o, d[i].0, d[i + 1].0)
    ensures SortedBy(o, d)
  {
    if |d| > 1 {
      ChainSorted(o, d[1..]);
      forall j | 1 < j < |d| ensures KeyLess(o, d[0].0, d[j].0) {
        assert KeyLess(o, d[1..][0].0, d[1..][j - 1].0);
        KeyLessTransitive(o, d[0].0, d[1].0, d[j].0);
      }
    }
  }

  /** Removing an entry keeps a dictionary sorted. */
  lemma SortedRemove(o: KeyOrder, d: Dict, k: int)
    requires SortedBy(o, d) && 0 <= k < |d|
    ensures SortedBy(o, d[..k] + d[k + 1..])
    ensures Keys(d[..k] + d[k + 1..]) == Keys(d)[..k] + Keys(d)[k + 1..]
  {
    var e := d[..k] + d[k + 1..];
    forall i, j | 0 <= i < j < |e| ensures KeyLess(o, e[i].0, e[j].0) {
      var i', j' := if i < k then i else i + 1, if j < k then j else j + 1;
      assert e[i] == d[i'] && e[j] == d[j'];
    }
  }

  lemma SortedDistinct(o: KeyOrder, d: Dict)
    requires SortedBy(o, d)
    ensures DistinctKeys(d)
  {
    forall i, j | 0 <= i < j < |d| ensures d[i].0 != d[j].0 {
      if d[i].0 == d[j].0 {
        KeyLessIrreflexive(o, d[i].0);
      }
    }
  }

  /** Inserts an entry with a new name into a sorted dictionary. */
  function Insert(o: KeyOrder, p: (string, string), d: Dict): (r: Dict)
    requires SortedBy(o, d) && p.0 !in Keys(d)
    ensures SortedBy(o, r)
    ensures |r| == |d| + 1
    ensures forall q :: q in r <==> q == p || q in d
  {
    if d == [] then [p]
    else if KeyLess(o, p.0, d[0].0) then
      forall j | 0 <= j < |d| ensures KeyLess(o, p.0, d[j].0) {
        if j > 0 { KeyLessTransitive(o, p.0, d[0].0, d[j].0); }
      }
      [p] + d
    else
      assert p.0 != d[0].0;
      KeyLessTotal(o, p.0, d[0].0);
      var rest := Insert(o, p, d[1..]);
      forall j | 0 <= j < |rest| ensures KeyLess(o, d[0].0, rest[j].0) {
        assert rest[j] in rest;
        if rest[j] != p {
          assert rest[j] in d[1..];
          var k :| 0 <= k < |d[1..]| && d[1..][k] == rest[j];
          assert d[k + 1] == rest[j];
        }
      }
      [d[0]] + rest
  }

  /** `Object.keys(d).sort()` / `sorted(d.items())`: the same entries, in
      ascending name order. */
  function SortByKey(o: KeyOrder, d: Dict): (r: Dict)
    requires DistinctKeys(d)
    ensures SortedBy(o, r)
    ensures |r| == |d|
    ensures forall q :: q in r <==> q in d
  {
    if d == [] then []
    else
      var rest := SortByKey(o, d[1..]);
      forall i | 0 <= i < |rest| ensures rest[i].0 != d[0].0 {
        assert rest[i] in d[1..];
        var k :| 0 <= k < |d[1..]| && d[1..][k] == rest[i];
        assert d[k + 1] == rest[i];
      }
      Insert(o, d[0], rest)
  }

  lemma HeadIn(d: Dict)
    ensures d != [] ==> d[0] in d
  {
  }

  /** A sorted dictionary is determined by its entries. */
  lemma {:induction false} SortedUnique(o: KeyOrder, a: Dict, b: Dict)
    requires SortedBy(o, a) && SortedBy(o, b)
    requires forall p :: p in a <==> p in b
    ensures a == b
    decreases |a|
  {
    HeadIn(a);
    HeadIn(b);
    if a != [] && b != [] {
      assert a[0] in b && b[0] in a;
      var j :| 0 <= j < |b| && b[j] == a[0];
      var i :| 0 <= i < |a| && a[i] == b[0];
      if j > 0 {
        if i > 0 {
          KeyLessAsymmetric(o, a[0].0, a[i].0);
        } else {
          KeyLessIrreflexive(o, a[0].0);
        }
        assert false;
      }
      SortedDistinct(o, a);
      SortedDistinct(o, b);
      forall p ensures p in a[1..] <==> p in b[1..] {
        if p in a[1..] {
          var k :| 0 <= k < |a[1..]| && a[1..][k] == p;
          assert p == a[k + 1] && p in b && p != b[0];
        }
        if p in b[1..] {
          var k :| 0 <= k < |b[1..]| && b[1..][k] == p;
          assert p == b[k + 1] && p in a && p != a[0];
        }
      }
      SortedUnique(o, a[1..], b[1..]);
      assert a == [a[0]] + a[1..] && b == [b[0]] + b[1..];
    }
  }

  /** Sorting forgets insertion order and nothing else: two dictionaries
      sort to the same sequence exactly when they hold the same map. */
  lemma SortByKeyCanonical(o: KeyOrder, a: Dict, b: Dict)
    requires DistinctKeys(a) && DistinctKeys(b)
    ensures SortByKey(o, a) == SortByKey(o, b) <==> ToMap(a) == ToMap(b)
  {
    var sa, sb := SortByKey(o, a), SortByKey(o, b);
    SortedDistinct(o, sa);
    SortedDistinct(o, sb);
    if ToMap(a) == ToMap(b) {
      forall p ensures p in sa <==> p in sb {
        PairInIff(a, p);
        PairInIff(b, p);
      }
      SortedUnique(o, sa, sb);
    }
    if sa == sb {
      SameEntriesSameMap(a, b);
    }
  }

  /** A sorted dictionary with the same entries is what sorting produces. */
  lemma SortByKeyIs(o: KeyOrder, d: Dict, c: Dict)
    requires DistinctKeys(d) && SortedBy(o, c)
    requires forall p :: p in c <==> p in d
    ensures SortByKey(o, d) == c
  {
    SortedUnique(o, c, SortByKey(o, d));
  }
}
