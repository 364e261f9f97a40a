/** The interpolated percentile of scripts/generate_qualification_report.py, over the reals. */
module Percentiles {

  ghost predicate Sorted(s: seq<real>) {
    forall i, j :: 0 <= i <= j < |s| ==> s[i] <= s[j]
  }

  function Insert(x: real, s: seq<real>): seq<real> {
    if s == [] || x <= s[0] then [x] + s else [s[0]] + Insert(x, s[1..])
  }

  /** `sorted(values)` */
  function Sort(s: seq<real>): seq<real> {
    if s == [] then [] else Insert(s[0], Sort(s[1..]))
  }

  /** `_percentile` */
  function Percentile(values: seq<real>, q: real): real
    requires 0.0 <= q <= 1.0
  {
    if values == [] then 0.0
    else
      SortLength(values);
      At(Sort(values), Index(|values|, q))
  }

  // The fractional index of a level in n sorted values.
  function Index(n: nat, q: real): (index: real)
    requires n >= 1 && 0.0 <= q <= 1.0
    ensures 0.0 <= index <= (n - 1) as real
  {
    var last := (n - 1) as real;
    Scale(last, 0.0, q);
    Scale(last, q, 1.0);
    assert 0.0 <= last * q;
    assert last * q <= last;
    last * q
  }

  // Reading sorted data at a fractional index.
  function At(data: seq<real>, index: real): real
    requires data != [] && 0.0 <= index <= (|data| - 1) as real
  {
    var low := index.Floor;
    var high := if low + 1 < |data| - 1 then low + 1 else |data| - 1;
    if low == high then data[low]
    else
      var fraction := index - low as real;
      data[low] * (1.0 - fraction) + data[high] * fraction
  }

  lemma Scale(a: real, x: real, y: real)
    requires a >= 0.0 && x <= y
    ensures a * x <= a * y && x * a <= y * a
  {
    assert a * (y - x) >= 0.0;
  }

  lemma IndexMonotone(n: nat, q: real, r: real)
    requires n >= 1 && 0.0 <= q <= r <= 1.0
    ensures Index(n, q) <= Index(n, r)
  {
    Scale((n - 1) as real, q, r);
  }

  lemma IndexEnds(n: nat)
    requires n >= 1
    ensures Index(n, 0.0) == 0.0 && Index(n, 1.0) == (n - 1) as real
  {
    var last := (n - 1) as real;
    assert last * 0.0 == 0.0;
    assert last * 1.0 == last;
  }

  // ---------------------------------------------------------------- sorting

  lemma {:induction false} InsertItems(x: real, s: seq<real>)
    ensures multiset(Insert(x, s)) == multiset(s) + multiset{x}
    ensures |Insert(x, s)| == |s| + 1
  {
    if s != [] && x > s[0] {
      InsertItems(x, s[1..]);
      HeadOut(s);
    }
  }

  lemma {:induction false} InsertSorted(x: real, s: seq<real>)
    requires Sorted(s)
    ensures Sorted(Insert(x, s))
  {
    if s != [] && x > s[0] {
      InsertSorted(x, s[1..]);
      var rest := Insert(x, s[1..]);
      InsertItems(x, s[1..]);
      forall i | 0 <= i < |rest| ensures s[0] <= rest[i] {
        assert rest[i] in multiset(rest);
      }
      SortedFromHead(s[0], rest);
    } else {
      InFront(x, s);
    }
  }

  lemma SortedFromHead(x: real, s: seq<real>)
    requires Sorted(s) && forall i :: 0 <= i < |s| ==> x <= s[i]
    ensures Sorted([x] + s)
  {
  }

  lemma InFront(x: real, s: seq<real>)
    requires Sorted(s) && (s == [] || x <= s[0])
    ensures Sorted([x] + s)
  {
  }

  lemma {:induction false} SortSorted(s: seq<real>)
    ensures Sorted(Sort(s)) && multiset(Sort(s)) == multiset(s)
  {
    if s != [] {
      SortSorted(s[1..]);
      InsertSorted(s[0], Sort(s[1..]));
      InsertItems(s[0], Sort(s[1..]));
      assert s == [s[0]] + s[1..];
    }
  }

  lemma {:induction false} SortLength(s: seq<real>)
    ensures |Sort(s)| == |s|
  {
    SortSorted(s);
    assert |multiset(Sort(s))| == |multiset(s)|;
  }

  // A multiset has one sorted arrangement.
  lemma {:induction false} SortedUnique(a: seq<real>, b: seq<real>)
    requires Sorted(a) && Sorted(b) && multiset(a) == multiset(b)
    ensures a == b
  {
    if a == [] {
      assert |multiset(b)| == 0;
    } else {
      assert |multiset(a)| == |multiset(b)|;
      SameFirst(a, b);
      HeadOut(a);
      HeadOut(b);
      SortedUnique(a[1..], b[1..]);
    }
  }

  lemma SameFirst(a: seq<real>, b: seq<real>)
    requires a != [] && b != [] && Sorted(a) && Sorted(b) && multiset(a) == multiset(b)
    ensures a[0] == b[0]
  {
    assert a[0] in multiset(b) && b[0] in multiset(a);
    var i :| 0 <= i < |b| && b[i] == a[0];
    var j :| 0 <= j < |a| && a[j] == b[0];
  }

  lemma HeadOut(s: seq<real>)
    requires s != []
    ensures s == [s[0]] + s[1..] && multiset(s[1..]) == multiset(s) - multiset{s[0]}
  {
    assert s == [s[0]] + s[1..];
  }

  /** The order of the values does not matter. */
  lemma PermutationInvariant(values: seq<real>, other: seq<real>, q: real)
    requires 0.0 <= q <= 1.0 && multiset(values) == multiset(other)
    ensures Percentile(values, q) == Percentile(other, q)
  {
    SortSorted(values);
    SortSorted(other);
    SortedUnique(Sort(values), Sort(other));
    SortLength(values);
    SortLength(other);
  }

  // ---------------------------------------------------------------- between the neighbours

  // Interpolation as a step up from the low end.
  lemma FromLow(a: real, b: real, t: real)
    ensures a * (1.0 - t) + b * t == a + (b - a) * t
  {
    assert a * (1.0 - t) == a - a * t;
    assert (b - a) * t == b * t - a * t;
  }

  lemma Between(a: real, b: real, t: real)
    requires a <= b && 0.0 <= t <= 1.0
    ensures a <= a * (1.0 - t) + b * t <= b
  {
    FromLow(a, b, t);
    Scale(b - a, 0.0, t);
    Scale(b - a, t, 1.0);
    var d := b - a;
    assert d * 0.0 == 0.0 && d * 1.0 == d;
  }

  // A reading lies between the data on its two sides.
  lemma AtBetween(data: seq<real>, index: real)
    requires data != [] && Sorted(data) && 0.0 <= index <= (|data| - 1) as real
    ensures index.Floor <= |data| - 1
    ensures data[index.Floor] <= At(data, index)
    ensures At(data, index) <= data[if index.Floor + 1 < |data| then index.Floor + 1 else |data| - 1]
  {
    var low := index.Floor;
    if low + 1 <= |data| - 1 {
      Between(data[low], data[low + 1], index - low as real);
    }
  }

  lemma AtEnds(data: seq<real>)
    requires data != []
    ensures At(data, 0.0) == data[0] && At(data, (|data| - 1) as real) == data[|data| - 1]
  {
  }

  lemma SegmentMonotone(a: real, b: real, t: real, u: real)
    requires a <= b && t <= u
    ensures a * (1.0 - t) + b * t <= a * (1.0 - u) + b * u
  {
    FromLow(a, b, t);
    FromLow(a, b, u);
    Scale(b - a, t, u);
  }

  lemma AtMonotone(data: seq<real>, x: real, y: real)
    requires data != [] && Sorted(data) && 0.0 <= x <= y <= (|data| - 1) as real
    ensures At(data, x) <= At(data, y)
  {
    AtBetween(data, x);
    AtBetween(data, y);
    var low := x.Floor;
    if low == y.Floor && low < |data| - 1 {
      SegmentMonotone(data[low], data[low + 1], x - low as real, y - low as real);
    }
  }

  /** The percentile grows with its level, across the points where the interpolation changes its
      segment; so p50 <= p95 <= p99. */
  lemma MonotoneInLevel(values: seq<real>, q: real, r: real)
    requires 0.0 <= q <= r <= 1.0
    ensures Percentile(values, q) <= Percentile(values, r)
    ensures values == [] ==> Percentile(values, q) == 0.0
  {
    if values != [] {
      SortSorted(values);
      SortLength(values);
      IndexMonotone(|values|, q, r);
      AtMonotone(Sort(values), Index(|values|, q), Index(|values|, r));
    }
  }

  /** The percentile lies between the least and the greatest value, which are the percentiles at
      levels 0 and 1. */
  lemma WithinValues(values: seq<real>, q: real)
    requires values != [] && 0.0 <= q <= 1.0
    ensures exists low, high :: low in values && high in values
              && (forall v :: v in values ==> low <= v <= high)
              && Percentile(values, 0.0) == low && Percentile(values, 1.0) == high
              && low <= Percentile(values, q) <= high
  {
    SortSorted(values);
    SortLength(values);
    var data := Sort(values);
    var low, high := data[0], data[|data| - 1];
    assert low in multiset(data) && high in multiset(data);
    forall v | v in values ensures low <= v <= high {
      assert v in multiset(values);
      assert v in data;
    }
    IndexEnds(|values|);
    AtEnds(data);
    MonotoneInLevel(values, 0.0, q);
    MonotoneInLevel(values, q, 1.0);
    assert Percentile(values, 0.0) == low && Percentile(values, 1.0) == high;
    assert low in values && high in values;
  }

  // ---------------------------------------------------------------- the interpolation itself

  /** Between neighbouring ranks the percentile is the straight line through their values: at the
      level that lies a fraction t of the way from the k-th of n sorted values to the next, it is
      that fraction of the way from the one value to the other. */
  lemma {:induction false} LinearBetweenRanks(values: seq<real>, data: seq<real>, k: nat, t: real, q: real)
    requires Sorted(data) && multiset(data) == multiset(values)
    requires k + 1 < |data| && 0.0 <= t <= 1.0 && 0.0 <= q <= 1.0
    requires q * (|data| - 1) as real == k as real + t
    ensures Percentile(values, q) == data[k] + t * (data[k + 1] - data[k])
  {
    OnSegment(data, k, t);
    PercentileReads(values, data, q, k as real + t, data[k] + t * (data[k + 1] - data[k]));
  }

  // The percentile is what the sorted values read at the index of its level.
  lemma PercentileReads(values: seq<real>, data: seq<real>, q: real, index: real, reading: real)
    requires Sorted(data) && multiset(data) == multiset(values) && data != []
    requires 0.0 <= q <= 1.0 && q * (|data| - 1) as real == index
    requires 0.0 <= index <= (|data| - 1) as real && At(data, index) == reading
    ensures Percentile(values, q) == reading
  {
    SortedValues(values, data);
    IndexAt(|data|, q, index);
  }

  lemma IndexAt(n: nat, q: real, index: real)
    requires n >= 1 && 0.0 <= q <= 1.0 && q * (n - 1) as real == index
    ensures Index(n, q) == index
  {
  }

  lemma OnSegment(data: seq<real>, k: nat, t: real)
    requires k + 1 < |data| && 0.0 <= t <= 1.0
    ensures At(data, k as real + t) == data[k] + t * (data[k + 1] - data[k])
  {
    if t == 1.0 {
      AtRank(data, k + 1);
    } else {
      assert (k as real + t).Floor == k;
      FromLow(data[k], data[k + 1], t);
    }
  }

  lemma SortedValues(values: seq<real>, data: seq<real>)
    requires Sorted(data) && multiset(data) == multiset(values)
    ensures Sort(values) == data && |values| == |data|
  {
    SortSorted(values);
    SortedUnique(Sort(values), data);
    SortLength(values);
  }

  lemma AtRank(data: seq<real>, k: nat)
    requires k < |data|
    ensures At(data, k as real) == data[k]
  {
  }

  /** At the level of the k-th of n sorted values the percentile is that value. */
  lemma {:induction false} ExactAtRanks(values: seq<real>, data: seq<real>, k: nat, q: real)
    requires Sorted(data) && multiset(data) == multiset(values)
    requires k < |data| && 0.0 <= q <= 1.0 && q * (|data| - 1) as real == k as real
    ensures Percentile(values, q) == data[k]
  {
    AtRank(data, k);
    PercentileReads(values, data, q, k as real, data[k]);
  }

  // ---------------------------------------------------------------- in the data

  ghost predicate Below(a: seq<real>, b: seq<real>) {
    |a| == |b| && forall i :: 0 <= i < |a| ==> a[i] <= b[i]
  }

  lemma {:induction false} InsertMonotone(x: real, y: real, a: seq<real>, b: seq<real>)
    requires x <= y && Sorted(a) && Sorted(b) && Below(a, b)
    ensures Below(Insert(x, a), Insert(y, b))
    decreases |a|
  {
    if a != [] {
      var a', b' := a[1..], b[1..];
      assert a == [a[0]] + a' && b == [b[0]] + b';
      if x <= a[0] {
        if y > b[0] {
          InsertMonotone(a[0], y, a', b');
          InsertInFront(a);
          assert Insert(y, b) == [b[0]] + Insert(y, b');
          assert Insert(x, a) == [x] + a;
        }
      } else if y <= b[0] {
        InsertMonotone(x, b[0], a', b');
        InsertInFront(b);
        assert Insert(x, a) == [a[0]] + Insert(x, a');
        assert Insert(y, b) == [y] + b;
      } else {
        InsertMonotone(x, y, a', b');
      }
    }
  }

  lemma InsertInFront(s: seq<real>)
    requires s != [] && Sorted(s)
    ensures Insert(s[0], s[1..]) == s
  {
    assert s == [s[0]] + s[1..];
  }

  lemma {:induction false} SortMonotone(a: seq<real>, b: seq<real>)
    requires Below(a, b)
    ensures Below(Sort(a), Sort(b))
  {
    if a != [] {
      SortMonotone(a[1..], b[1..]);
      SortSorted(a[1..]);
      SortSorted(b[1..]);
      InsertMonotone(a[0], b[0], Sort(a[1..]), Sort(b[1..]));
    }
  }

  lemma MixMonotone(a: real, b: real, c: real, d: real, t: real)
    requires a <= b && c <= d && 0.0 <= t <= 1.0
    ensures a * (1.0 - t) + c * t <= b * (1.0 - t) + d * t
  {
    var u := 1.0 - t;
    assert (b - a) * u >= 0.0 && (d - c) * t >= 0.0;
    assert b * u == a * u + (b - a) * u;
    assert d * t == c * t + (d - c) * t;
  }

  lemma AtMonotoneInData(a: seq<real>, b: seq<real>, index: real)
    requires a != [] && Below(a, b) && 0.0 <= index <= (|a| - 1) as real
    ensures At(a, index) <= At(b, index)
  {
    var low := index.Floor;
    if low < |a| - 1 {
      var t := index - low as real;
      MixMonotone(a[low], b[low], a[low + 1], b[low + 1], t);
      assert At(a, index) == a[low] * (1.0 - t) + a[low + 1] * t;
      assert At(b, index) == b[low] * (1.0 - t) + b[low + 1] * t;
    } else {
      assert At(a, index) == a[low] && At(b, index) == b[low];
    }
  }

  /** Raising values can only raise a percentile. */
  lemma MonotoneInData(values: seq<real>, raised: seq<real>, q: real)
    requires 0.0 <= q <= 1.0 && Below(values, raised)
    ensures Percentile(values, q) <= Percentile(raised, q)
  {
    if values != [] {
      SortMonotone(values, raised);
      SortLength(values);
      SortLength(raised);
      AtMonotoneInData(Sort(values), Sort(raised), Index(|values|, q));
    }
  }
}
