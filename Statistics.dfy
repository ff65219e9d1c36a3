/**
 * The median of a non-empty bag of numbers, as a monthly resample computes
 * it: the middle value once sorted, or the mean of the two middle values
 * when there is an even number of them.
 */
module Statistics {
  import opened Results

  predicate SortedReals(s: seq<real>) {
    forall i, j :: 0 <= i < j < |s| ==> s[i] <= s[j]
  }

  function InsertReal(x: real, s: seq<real>): (r: seq<real>)
    ensures multiset(r) == multiset(s) + multiset{x}
  {
    if s == [] then [x]
    else if x <= s[0] then [x] + s
    else
      assert s == [s[0]] + s[1..];
      [s[0]] + InsertReal(x, s[1..])
  }

  /** Inserting a value that is at least `lo` into values at least `lo` keeps them all at least `lo`. */
  lemma {:induction false} InsertRealAbove(x: real, s: seq<real>, lo: real)
    requires lo <= x && forall i :: 0 <= i < |s| ==> lo <= s[i]
    ensures forall k :: 0 <= k < |InsertReal(x, s)| ==> lo <= InsertReal(x, s)[k]
  {
    if s != [] && x > s[0] {
      InsertRealAbove(x, s[1..], lo);
    }
  }

  lemma {:induction false} InsertRealSorted(x: real, s: seq<real>)
    requires SortedReals(s)
    ensures SortedReals(InsertReal(x, s))
  {
    var r := InsertReal(x, s);
    if s == [] {
      assert r == [x];
    } else if x <= s[0] {
      assert r == [x] + s;
      forall i, j | 0 <= i < j < |r| ensures r[i] <= r[j] {
        assert r[j] == s[j - 1];
        if i > 0 {
          assert r[i] == s[i - 1];
        }
      }
    } else {
      var t := InsertReal(x, s[1..]);
      assert SortedReals(s[1..]) by {
        forall i, j | 0 <= i < j < |s[1..]| ensures s[1..][i] <= s[1..][j] {
          assert s[1..][i] == s[i + 1] && s[1..][j] == s[j + 1];
        }
      }
      InsertRealSorted(x, s[1..]);
      InsertRealAbove(x, s[1..], s[0]);
      assert r == [s[0]] + t;
      forall i, j | 0 <= i < j < |r| ensures r[i] <= r[j] {
        assert r[j] == t[j - 1];
        if i > 0 {
          assert r[i] == t[i - 1];
        }
      }
    }
  }

  function SortReals(s: seq<real>): (r: seq<real>)
    ensures SortedReals(r) && multiset(r) == multiset(s)
  {
    if s == [] then []
    else
      assert s == [s[0]] + s[1..];
      var t := SortReals(s[1..]);
      InsertRealSorted(s[0], t);
      InsertReal(s[0], t)
  }

  /** How many of the values are at most `m`, and how many at least `m`. */
  function CountAtMost(s: seq<real>, m: real): nat {
    if s == [] then 0 else (if s[0] <= m then 1 else 0) + CountAtMost(s[1..], m)
  }

  function CountAtLeast(s: seq<real>, m: real): nat {
    if s == [] then 0 else (if s[0] >= m then 1 else 0) + CountAtLeast(s[1..], m)
  }

  lemma {:induction false} CountAppend(a: seq<real>, b: seq<real>, m: real)
    ensures CountAtMost(a + b, m) == CountAtMost(a, m) + CountAtMost(b, m)
    ensures CountAtLeast(a + b, m) == CountAtLeast(a, m) + CountAtLeast(b, m)
  {
    if a != [] {
      assert (a + b)[1..] == a[1..] + b;
      CountAppend(a[1..], b, m);
    } else {
      assert a + b == b;
    }
  }

  /** Taking out the value at position `j`. */
  lemma MultisetRemove(b: seq<real>, j: int)
    requires 0 <= j < |b|
    ensures multiset(b[..j] + b[j + 1..]) == multiset(b) - multiset{b[j]}
  {
    assert b == b[..j] + [b[j]] + b[j + 1..];
  }

  lemma CountRemove(b: seq<real>, j: int, m: real)
    requires 0 <= j < |b|
    ensures CountAtMost(b, m) == CountAtMost([b[j]], m) + CountAtMost(b[..j] + b[j + 1..], m)
    ensures CountAtLeast(b, m) == CountAtLeast([b[j]], m) + CountAtLeast(b[..j] + b[j + 1..], m)
  {
    assert b == b[..j] + ([b[j]] + b[j + 1..]);
    CountAppend(b[..j], [b[j]] + b[j + 1..], m);
    CountAppend([b[j]], b[j + 1..], m);
    CountAppend(b[..j], b[j + 1..], m);
  }

  /** Counting does not depend on the order of the values. */
  lemma {:induction false} CountPermutation(a: seq<real>, b: seq<real>, m: real)
    requires multiset(a) == multiset(b)
    ensures CountAtMost(a, m) == CountAtMost(b, m)
    ensures CountAtLeast(a, m) == CountAtLeast(b, m)
    decreases |a|
  {
    if a == [] {
      assert |b| == |multiset(b)| == 0;
    } else {
      var x := a[0];
      assert x in multiset(b);
      var j :| 0 <= j < |b| && b[j] == x;
      var rest := b[..j] + b[j + 1..];
      MultisetRemove(b, j);
      assert a == [x] + a[1..];
      assert multiset(a[1..]) == multiset(rest);
      CountPermutation(a[1..], rest, m);
      CountRemove(b, j, m);
      CountAppend([x], a[1..], m);
    }
  }

  /** When the first `k` values are at most `m`, at least `k` values are counted. */
  lemma {:induction false} CountAtMostPrefix(t: seq<real>, k: int, m: real)
    requires 0 <= k <= |t| && forall i :: 0 <= i < k ==> t[i] <= m
    ensures CountAtMost(t, m) >= k
  {
    if k > 0 {
      CountAtMostPrefix(t[1..], k - 1, m);
    }
  }

  /** When the values from position `h` on are at least `m`, at least `|t| - h` values are counted. */
  lemma {:induction false} CountAtLeastSuffix(t: seq<real>, h: int, m: real)
    requires 0 <= h <= |t| && forall i :: h <= i < |t| ==> t[i] >= m
    ensures CountAtLeast(t, m) >= |t| - h
  {
    if t != [] {
      CountAtLeastSuffix(t[1..], if h > 0 then h - 1 else 0, m);
    }
  }

  /** The middle of a sorted, non-empty sequence. */
  function Middle(t: seq<real>): real
    requires |t| > 0
  {
    var n := |t|;
    if n % 2 == 1 then t[n / 2] else (t[n / 2 - 1] + t[n / 2]) / 2.0
  }

  /** In sorted values, the middle is bracketed by the lower and upper middle elements and halves the values. */
  lemma MiddleCounts(t: seq<real>)
    requires |t| > 0 && SortedReals(t)
    ensures t[(|t| - 1) / 2] <= Middle(t) <= t[|t| / 2]
    ensures 2 * CountAtMost(t, Middle(t)) >= |t| && 2 * CountAtLeast(t, Middle(t)) >= |t|
  {
    var n := |t|;
    var m := Middle(t);
    var lo := (n - 1) / 2;
    var hi := n / 2;
    assert t[lo] <= t[hi];
    assert t[lo] <= m <= t[hi];
    assert forall i :: 0 <= i <= lo ==> t[i] <= m by {
      forall i | 0 <= i <= lo ensures t[i] <= m {
        assert i < lo ==> t[i] <= t[lo];
      }
    }
    assert forall i :: hi <= i < n ==> t[i] >= m by {
      forall i | hi <= i < n ensures t[i] >= m {
        assert i > hi ==> t[hi] <= t[i];
      }
    }
    CountAtMostPrefix(t, lo + 1, m);
    CountAtLeastSuffix(t, hi, m);
  }

  /**
   * median(): at least half of the values are at most the median and at
   * least half are at least it; it lies between the smallest and the
   * largest value, and is one of the values when their number is odd.
   */
  function Median(s: seq<real>): (m: real)
    requires |s| > 0
    ensures 2 * CountAtMost(s, m) >= |s| && 2 * CountAtLeast(s, m) >= |s|
    ensures exists i :: 0 <= i < |s| && s[i] <= m
    ensures exists j :: 0 <= j < |s| && m <= s[j]
    ensures |s| % 2 == 1 ==> m in s
  {
    var t := SortReals(s);
    assert |t| == |multiset(t)| == |multiset(s)| == |s|;
    var m := Middle(t);
    MiddleCounts(t);
    CountPermutation(t, s, m);
    assert t[(|t| - 1) / 2] in multiset(s) && t[|t| / 2] in multiset(s);
    m
  }

  /** The median of values all equal to `c` is `c`. */
  lemma MedianConstant(s: seq<real>, c: real)
    requires |s| > 0 && forall i :: 0 <= i < |s| ==> s[i] == c
    ensures Median(s) == c
  {
    var m := Median(s);
    var i :| 0 <= i < |s| && s[i] <= m;
    var j :| 0 <= j < |s| && m <= s[j];
  }

  /** The median of a month: none when the month holds no value (all NaN). */
  function MedianOf(b: seq<real>): (r: Option<real>)
    ensures r.Some? <==> |b| > 0
    ensures r.Some? ==> r.value == Median(b)
  {
    if b == [] then None else Some(Median(b))
  }
}
