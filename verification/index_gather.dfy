/** The gather/remap step at the heart of index-based extraction: the sorted
    distinct requested vertices, the position of each request among them, and
    the copy of the requested items into a fresh zero-initialised buffer. */
module IndexGather {
  import opened Seqs
  import opened Buffers

  /** Insert `x` into a strictly increasing sequence, keeping it strictly increasing. */
  function Insert(s: seq<nat>, x: nat): (r: seq<nat>)
    requires StrictlyIncreasing(s)
    ensures StrictlyIncreasing(r)
    ensures Elements(r) == Elements(s) + {x}
  {
    if |s| == 0 then [x]
    else if x < s[0] then InsertFront(s, x); [x] + s
    else if x == s[0] then s
    else
      var rest := Insert(s[1..], x);
      InsertStep(s, x, rest);
      [s[0]] + rest
  }

  /** A value below the head of a strictly increasing sequence goes in front. */
  lemma InsertFront(s: seq<nat>, x: nat)
    requires StrictlyIncreasing(s) && |s| > 0 && x < s[0]
    ensures StrictlyIncreasing([x] + s)
    ensures Elements([x] + s) == Elements(s) + {x}
  {
    assert s == [s[0]] + s[1..];
    ConsIncreasing(s[0], s[1..]);
    ConsIncreasing(x, s);
  }

  /** A value above the head goes into the tail, and the head stays in front. */
  lemma InsertStep(s: seq<nat>, x: nat, rest: seq<nat>)
    requires StrictlyIncreasing(s) && |s| > 0 && s[0] < x
    requires StrictlyIncreasing(rest) && Elements(rest) == Elements(s[1..]) + {x}
    ensures StrictlyIncreasing([s[0]] + rest)
    ensures Elements([s[0]] + rest) == Elements(s) + {x}
  {
    assert s == [s[0]] + s[1..];
    ConsIncreasing(s[0], s[1..]);
    ConsIncreasing(s[0], rest);
  }

  /** A head below every value of a strictly increasing tail keeps it strictly increasing. */
  lemma ConsIncreasing(h: nat, t: seq<nat>)
    ensures Elements([h] + t) == {h} + Elements(t)
    ensures StrictlyIncreasing([h] + t) <==> StrictlyIncreasing(t) && forall y :: y in Elements(t) ==> h < y
  {
    var s := [h] + t;
    assert forall j :: 0 <= j < |t| ==> s[j + 1] == t[j];
    if StrictlyIncreasing(t) && forall y :: y in Elements(t) ==> h < y {
      ConsIncreasingIf(h, t);
    }
    if StrictlyIncreasing(s) {
      forall y | y in Elements(t)
        ensures h < y
      {
        var j :| 0 <= j < |t| && t[j] == y;
        assert s[0] < s[j + 1];
      }
    }
    assert Elements(s) == {h} + Elements(t);
  }

  lemma ConsIncreasingIf(h: nat, t: seq<nat>)
    requires StrictlyIncreasing(t) && forall y :: y in Elements(t) ==> h < y
    ensures StrictlyIncreasing([h] + t)
  {
    var s := [h] + t;
    forall i, j | 0 <= i < j < |s|
      ensures s[i] < s[j]
    {
      assert s[j] == t[j - 1] && t[j - 1] in Elements(t);
    }
  }

  /** Insert every value of `s`, one after the other, into an empty sorted sequence. */
  function InsertAll(s: seq<nat>): (r: seq<nat>)
    ensures StrictlyIncreasing(r)
    ensures Elements(r) == Elements(s)
  {
    if |s| == 0 then []
    else
      var p := s[..|s| - 1];
      assert s == p + [s[|s| - 1]];
      assert Elements(s) == Elements(p) + {s[|s| - 1]};
      Insert(InsertAll(p), s[|s| - 1])
  }

  /** `Array.from(new Set(s)).sort((a, b) => a - b)`: the distinct requested
      values in ascending order. */
  function SortedUnique(s: seq<nat>): (r: seq<nat>)
    ensures StrictlyIncreasing(r)
    ensures Elements(r) == Elements(s)
    ensures |r| == |Elements(s)| <= |s|
    ensures |r| < |s| <==> HasRepeat(s)
  {
    var r := InsertAll(s);
    RepeatIffFewerElements(r);
    RepeatIffFewerElements(s);
    r
  }

  /** `index.map(i => uniqueIndex.findIndex(j => i === j))`: each request's
      position among the distinct values. */
  function Remap(u: seq<nat>, request: seq<nat>): (r: seq<nat>)
    requires forall k :: 0 <= k < |request| ==> request[k] in u
    ensures |r| == |request|
    ensures forall k :: 0 <= k < |r| ==> r[k] < |u| && u[r[k]] == request[k]
  {
    seq(|request|, k requires 0 <= k < |request| => FindIndex(u, request[k]) as nat)
  }

  /** The copy loop of index-based extraction for one attribute: a zero-filled
      buffer of `|u| * itemSize` entries whose item `i` receives
      `array.slice(u[i] * itemSize, u[i] * itemSize + itemSize)`. */
  function GatherData(a: Attribute, u: seq<nat>): (r: seq<real>)
    ensures |r| == |u| * a.itemSize
    ensures forall i :: 0 <= i < |u| ==> ItemOf(r, a.itemSize, i) == PaddedItem(a, u[i])
    decreases |u|
  {
    if |u| == 0 then []
    else
      var n := |u| - 1;
      var front := GatherData(a, u[..n]);
      var item := PaddedItem(a, u[n]);
      ItemOfAppend(front, item, a.itemSize, n);
      assert forall i :: 0 <= i < n ==> u[..n][i] == u[i];
      front + item
  }

  /** One attribute gathered at the distinct requested vertices. */
  function Gather(a: Attribute, u: seq<nat>): (r: Attribute)
    ensures r.itemSize == a.itemSize
    ensures |r.data| == |u| * a.itemSize
    ensures forall i :: 0 <= i < |u| && ItemInRange(a, u[i]) ==> Item(r, i) == Item(a, u[i])
  {
    var r := Attribute(GatherData(a, u), a.itemSize);
    assert forall i :: 0 <= i < |u| ==> Item(r, i) == PaddedItem(a, u[i]);
    r
  }
}
