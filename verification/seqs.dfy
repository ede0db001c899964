/** Sequence vocabulary shared by the splitter and the merger: JavaScript's
    clamping `slice`, integer runs, flattening, fixed-size items of a flat
    array, repeats and strictly increasing sequences. */
module Seqs {

  /** JavaScript's `Array.prototype.slice(b, e)` for non-negative bounds:
      both bounds are clamped to the length, so the slice may come out short. */
  function JsSlice<T>(s: seq<T>, b: nat, e: nat): seq<T> {
    var lo := if b < |s| then b else |s|;
    var hi := if e < |s| then e else |s|;
    if lo <= hi then s[lo..hi] else []
  }

  /** What the clamping leaves: a window of `s` that starts at `b`, never
      longer than `e - b` nor than `s`, and exactly `e - b` long when both
      bounds lie inside `s`. */
  lemma JsSliceWindow<T>(s: seq<T>, b: nat, e: nat)
    ensures |JsSlice(s, b, e)| <= |s|
    ensures b <= e ==> |JsSlice(s, b, e)| <= e - b
    ensures b <= e <= |s| ==> |JsSlice(s, b, e)| == e - b
    ensures forall i :: 0 <= i < |JsSlice(s, b, e)| ==> b + i < |s| && JsSlice(s, b, e)[i] == s[b + i]
  {
  }

  /** `getSortedIntegers(count, start)`: the run `start, start + 1, ..., start + count - 1`. */
  function SortedIntegers(count: nat, start: nat): seq<nat> {
    seq(count, i requires 0 <= i < count => start + i)
  }

  /** The run has `count` values, strictly increasing, all within
      `start .. start + count - 1`: so it is exactly that range, in order. */
  lemma SortedIntegersRun(count: nat, start: nat)
    ensures |SortedIntegers(count, start)| == count && StrictlyIncreasing(SortedIntegers(count, start))
    ensures forall i :: 0 <= i < count ==> start <= SortedIntegers(count, start)[i] < start + count
  {
  }

  /** Item `i` of a flat array whose items are `k` entries wide, taken the way
      the source takes it: `array.slice(i * k, i * k + k)`. */
  function ItemOf<T>(s: seq<T>, k: nat, i: nat): seq<T> {
    JsSlice(s, i * k, i * k + k)
  }

  /** In-order concatenation of a sequence of sequences. */
  function Flatten<T>(ss: seq<seq<T>>): seq<T> {
    if |ss| == 0 then [] else ss[0] + Flatten(ss[1..])
  }

  function Sum(xs: seq<nat>): nat {
    if |xs| == 0 then 0 else xs[0] + Sum(xs[1..])
  }

  /** Largest entry of a non-empty sequence (`Math.max(...xs)`). */
  function Max(xs: seq<nat>): nat
    requires |xs| > 0
  {
    if |xs| == 1 then xs[0]
    else
      var m := Max(xs[1..]);
      if xs[0] < m then m else xs[0]
  }

  /** The largest entry is an entry, and no entry exceeds it. */
  lemma {:induction false} MaxIsLargest(xs: seq<nat>)
    requires |xs| > 0
    ensures Max(xs) in xs
    ensures forall i :: 0 <= i < |xs| ==> xs[i] <= Max(xs)
  {
    if |xs| > 1 {
      MaxIsLargest(xs[1..]);
      assert forall i :: 1 <= i < |xs| ==> xs[i] == xs[1..][i - 1];
    }
  }

  /** The distinct values of `s` (`new Set(s)`). */
  function Elements<T>(s: seq<T>): set<T> {
    set x | x in s
  }

  predicate HasRepeat<T(==)>(s: seq<T>) {
    exists i, j :: 0 <= i < j < |s| && s[i] == s[j]
  }

  predicate StrictlyIncreasing(s: seq<nat>) {
    forall i, j :: 0 <= i < j < |s| ==> s[i] < s[j]
  }

  // ---------------------------------------------------------------------
  // Arithmetic steps used when moving between items and flat positions.

  lemma MulStep(i: nat, k: nat)
    requires i > 0
    ensures i * k == (i - 1) * k + k
  {
  }

  lemma MulBound(i: nat, n: nat, k: nat)
    requires i < n
    ensures i * k + k <= n * k
  {
    assert (i + 1) * k <= n * k;
  }

  lemma MulMono(a: nat, b: nat, k: nat)
    requires a <= b
    ensures a * k <= b * k
  {
  }

  lemma MulAdd(a: nat, b: nat, k: nat)
    ensures (a + b) * k == a * k + b * k
  {
  }

  /** Item `i` of the slice holding items `start .. start + count - 1` is
      item `start + i` of the whole. */
  lemma ItemOfSlice<T>(s: seq<T>, k: nat, start: nat, count: nat, i: nat)
    requires (start + count) * k <= |s| && i < count
    ensures start * k <= (start + count) * k
    ensures ItemOf(s[start * k .. (start + count) * k], k, i) == ItemOf(s, k, start + i)
  {
    MulAdd(start, count, k);
    MulAdd(start, i, k);
    MulBound(i, count, k);
    SliceOfSlice(s, start * k, count * k, i * k, k);
  }

  lemma SliceOfSlice<T>(s: seq<T>, lo: nat, width: nat, at: nat, k: nat)
    requires lo + width <= |s| && at + k <= width
    ensures JsSlice(s[lo .. lo + width], at, at + k) == JsSlice(s, lo + at, lo + at + k)
  {
    var t := s[lo .. lo + width];
    var u, v := t[at .. at + k], s[lo + at .. lo + at + k];
    assert forall q :: 0 <= q < k ==> u[q] == v[q];
    assert u == v;
  }

  /** Appending one `k`-wide item after `n` items keeps the first `n` items
      and makes the new one item `n`. */
  lemma ItemOfAppend<T>(front: seq<T>, item: seq<T>, k: nat, n: nat)
    requires |front| == n * k && |item| == k
    ensures |front + item| == (n + 1) * k
    ensures forall i :: 0 <= i < n ==> ItemOf(front + item, k, i) == ItemOf(front, k, i)
    ensures ItemOf(front + item, k, n) == item
  {
    forall i | 0 <= i < n
      ensures ItemOf(front + item, k, i) == ItemOf(front, k, i)
    {
      MulBound(i, n, k);
      assert (front + item)[i * k .. i * k + k] == front[i * k .. i * k + k];
    }
    assert (front + item)[n * k .. n * k + k] == item;
  }

  /** Two flat arrays of `n` items `k` wide with the same items are equal. */
  lemma {:induction false} ItemsDetermine<T>(s: seq<T>, t: seq<T>, k: nat, n: nat)
    requires |s| == n * k && |t| == n * k
    requires forall i :: 0 <= i < n ==> ItemOf(s, k, i) == ItemOf(t, k, i)
    ensures s == t
  {
    if n > 0 {
      MulStep(n, k);
      var m := (n - 1) * k;
      var fs, ft := s[..m], t[..m];
      var ls, lt := s[m..], t[m..];
      assert s == fs + ls && t == ft + lt;
      ItemOfAppend(fs, ls, k, n - 1);
      ItemOfAppend(ft, lt, k, n - 1);
      forall i | 0 <= i < n - 1
        ensures ItemOf(fs, k, i) == ItemOf(ft, k, i)
      {
        assert ItemOf(s, k, i) == ItemOf(t, k, i);
      }
      ItemsDetermine(fs, ft, k, n - 1);
      assert ls == ItemOf(s, k, n - 1) == ItemOf(t, k, n - 1) == lt;
    }
  }

  /** The first position of `x` in `s` (`s.findIndex(y => y === x)`), or -1. */
  function FindIndex<T(==)>(s: seq<T>, x: T): (r: int)
    ensures -1 <= r < |s|
    ensures r == -1 <==> x !in s
    ensures 0 <= r ==> s[r] == x && forall k :: 0 <= k < r ==> s[k] != x
  {
    if |s| == 0 then -1
    else if s[0] == x then 0
    else
      var r := FindIndex(s[1..], x);
      assert forall k :: 1 <= k < |s| ==> s[k] == s[1..][k - 1];
      if r < 0 then -1 else r + 1
  }

  /** Appending never moves the first occurrence of a value already present. */
  lemma FindIndexAppend<T>(s: seq<T>, x: T, y: T)
    requires y in s
    ensures FindIndex(s + [x], y) == FindIndex(s, y)
  {
    var r := FindIndex(s, y);
    var r' := FindIndex(s + [x], y);
    assert (s + [x])[r] == y;
    assert forall k :: 0 <= k < |s| ==> (s + [x])[k] == s[k];
  }

  /** A value appended after a sequence that lacks it is first found at the end. */
  lemma FindIndexAppendNew<T>(s: seq<T>, x: T)
    requires x !in s
    ensures FindIndex(s + [x], x) == |s|
  {
    assert (s + [x])[|s|] == x;
    assert forall k :: 0 <= k < |s| ==> (s + [x])[k] == s[k];
  }

  /** `Array.from(new Set(s))`: the distinct values of `s` in order of first appearance. */
  function Distinct<T(==)>(s: seq<T>): (r: seq<T>)
    ensures !HasRepeat(r)
    ensures Elements(r) == Elements(s)
    ensures forall i, j :: 0 <= i < j < |r| ==> FindIndex(s, r[i]) < FindIndex(s, r[j])
    decreases |s|
  {
    if |s| == 0 then []
    else
      var p := s[..|s| - 1];
      var x := s[|s| - 1];
      var d := Distinct(p);
      assert s == p + [x];
      FindIndexKept(p, x, d);
      if x in d then d
      else DistinctAdd(p, x, d); d + [x]
  }

  /** Appending a value leaves the first position of every value of `p` unchanged. */
  lemma FindIndexKept<T>(p: seq<T>, x: T, d: seq<T>)
    requires Elements(d) == Elements(p)
    ensures Elements(p + [x]) == Elements(p) + {x}
    ensures forall i :: 0 <= i < |d| ==> FindIndex(p + [x], d[i]) == FindIndex(p, d[i])
  {
    assert forall i :: 0 <= i < |d| ==> d[i] in Elements(p);
    forall i | 0 <= i < |d|
      ensures FindIndex(p + [x], d[i]) == FindIndex(p, d[i])
    {
      FindIndexAppend(p, x, d[i]);
    }
  }

  /** A value new to `p` joins its distinct values at the end, after all of them. */
  lemma DistinctAdd<T>(p: seq<T>, x: T, d: seq<T>)
    requires !HasRepeat(d) && Elements(d) == Elements(p) && x !in d
    ensures !HasRepeat(d + [x])
    ensures FindIndex(p + [x], x) == |p|
  {
    var r := d + [x];
    assert x !in Elements(p);
    FindIndexAppendNew(p, x);
    forall i, j | 0 <= i < j < |r|
      ensures r[i] != r[j]
    {
      assert r[i] == d[i];
      if j < |d| {
        assert r[j] == d[j];
      }
    }
  }

  // ---------------------------------------------------------------------
  // Flattening and summing.

  /** Adding one more term at the end of a sum. */
  lemma {:induction false} SumAppend(xs: seq<nat>, x: nat)
    ensures Sum(xs + [x]) == Sum(xs) + x
  {
    if |xs| > 0 {
      assert (xs + [x])[1..] == xs[1..] + [x];
      SumAppend(xs[1..], x);
    }
  }

  lemma {:induction false} FlattenConcat<T>(a: seq<seq<T>>, b: seq<seq<T>>)
    ensures Flatten(a + b) == Flatten(a) + Flatten(b)
  {
    if |a| == 0 {
      assert a + b == b;
    } else {
      assert (a + b)[0] == a[0];
      assert (a + b)[1..] == a[1..] + b;
      FlattenConcat(a[1..], b);
    }
  }

  lemma FlattenAppend<T>(ss: seq<seq<T>>, x: seq<T>)
    ensures Flatten(ss + [x]) == Flatten(ss) + x
  {
    FlattenConcat(ss, [x]);
    assert Flatten([x]) == x + Flatten([x][1..]);
    assert [x][1..] == [];
  }

  /** Entry `x` of block `j` sits in the flattening right after the first `j` blocks. */
  lemma {:induction false} FlattenAt<T>(ss: seq<seq<T>>, j: nat, x: nat)
    requires j < |ss| && x < |ss[j]|
    ensures |Flatten(ss[..j])| + x < |Flatten(ss)|
    ensures Flatten(ss)[|Flatten(ss[..j])| + x] == ss[j][x]
  {
    if j == 0 {
      assert ss[..0] == [];
    } else {
      assert ss[..j][0] == ss[0];
      assert ss[..j][1..] == ss[1..][..j - 1];
      FlattenAt(ss[1..], j - 1, x);
    }
  }

  /** The length of a flattening is the sum of the block lengths. */
  lemma {:induction false} FlattenLength<T>(ss: seq<seq<T>>, lens: seq<nat>)
    requires |lens| == |ss|
    requires forall i :: 0 <= i < |ss| ==> |ss[i]| == lens[i]
    ensures |Flatten(ss)| == Sum(lens)
  {
    if |ss| > 0 {
      FlattenLength(ss[1..], lens[1..]);
    }
  }

  /** When every block is `k` long, block `i` is item `i` of the flattening. */
  lemma {:induction false} FlattenUniform<T>(ss: seq<seq<T>>, k: nat)
    requires forall i :: 0 <= i < |ss| ==> |ss[i]| == k
    ensures |Flatten(ss)| == |ss| * k
    ensures forall i :: 0 <= i < |ss| ==> ItemOf(Flatten(ss), k, i) == ss[i]
  {
    if |ss| > 0 {
      var rest := Flatten(ss[1..]);
      FlattenUniform(ss[1..], k);
      MulStep(|ss|, k);
      forall i | 0 <= i < |ss|
        ensures ItemOf(Flatten(ss), k, i) == ss[i]
      {
        MulBound(i, |ss|, k);
        if i == 0 {
          assert Flatten(ss)[0..k] == ss[0];
        } else {
          MulStep(i, k);
          MulBound(i - 1, |ss| - 1, k);
          assert ss[1..][i - 1] == ss[i];
          assert ItemOf(rest, k, i - 1) == rest[(i - 1) * k .. (i - 1) * k + k];
          assert Flatten(ss)[i * k .. i * k + k] == rest[(i - 1) * k .. (i - 1) * k + k];
        }
      }
    }
  }

  // ---------------------------------------------------------------------
  // Repeats and distinct values.

  /** `new Set(s).size !== s.length` is exactly "some value of `s` repeats". */
  lemma {:induction false} RepeatIffFewerElements<T>(s: seq<T>)
    ensures |Elements(s)| <= |s|
    ensures HasRepeat(s) <==> |Elements(s)| < |s|
  {
    if |s| == 0 {
      assert Elements(s) == {};
    } else {
      var p := s[..|s| - 1];
      var x := s[|s| - 1];
      assert s == p + [x];
      RepeatIffFewerElements(p);
      assert Elements(s) == Elements(p) + {x};
      if x in p {
        var i :| 0 <= i < |p| && p[i] == x;
        assert s[i] == s[|s| - 1];
        assert Elements(s) == Elements(p);
      } else {
        assert |Elements(s)| == |Elements(p)| + 1;
        if HasRepeat(s) {
          var i, j :| 0 <= i < j < |s| && s[i] == s[j];
          assert j < |s| - 1 by {
            assert s[i] == p[i];
          }
          assert p[i] == p[j];
        }
        if HasRepeat(p) {
          var i, j :| 0 <= i < j < |p| && p[i] == p[j];
          assert s[i] == s[j];
        }
      }
    }
  }

  /** Two strictly increasing sequences with the same values are equal. */
  lemma {:induction false} StrictlyIncreasingUnique(a: seq<nat>, b: seq<nat>)
    requires StrictlyIncreasing(a) && StrictlyIncreasing(b)
    requires Elements(a) == Elements(b)
    ensures a == b
  {
    if |a| == 0 {
      RepeatIffFewerElements(b);
      assert !HasRepeat(b);
    } else {
      assert a[0] in Elements(b);
      assert |b| > 0;
      assert b[0] in Elements(a);
      var i :| 0 <= i < |b| && b[i] == a[0];
      var j :| 0 <= j < |a| && a[j] == b[0];
      assert a[0] == b[0];
      forall y | y in Elements(a[1..])
        ensures y in Elements(b[1..])
      {
        var m :| 0 <= m < |a[1..]| && a[1..][m] == y;
        assert y == a[m + 1] && y > a[0];
        assert y in Elements(b);
        var n :| 0 <= n < |b| && b[n] == y;
        assert n != 0;
        assert b[1..][n - 1] == y;
      }
      forall y | y in Elements(b[1..])
        ensures y in Elements(a[1..])
      {
        var m :| 0 <= m < |b[1..]| && b[1..][m] == y;
        assert y == b[m + 1] && y > b[0];
        assert y in Elements(a);
        var n :| 0 <= n < |a| && a[n] == y;
        assert n != 0;
        assert a[1..][n - 1] == y;
      }
      StrictlyIncreasingUnique(a[1..], b[1..]);
    }
  }
}
