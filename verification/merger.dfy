/** The merge engine: the consistency guard, the decision whether indices
    matter, the expansion of an input through its own index, and the left
    fold that concatenates attribute arrays, offsets index entries by a
    running next index, moves groups behind what was merged before and
    shifts their material slots by a running next material index. */
module Merger {
  import opened Options
  import opened Seqs
  import opened Buffers

  // ---------------------------------------------------------------------
  // The consistency guard (`areConsistent`).

  /** The three channels of `x` have the item sizes of those of `y`. */
  predicate SameItemSizes(x: Channels<AttributeFull>, y: Channels<AttributeFull>) {
    x.normal.itemSize == y.normal.itemSize &&
    x.position.itemSize == y.position.itemSize &&
    x.uv.itemSize == y.uv.itemSize
  }

  /** `position` and `uv` report as many items as `normal`. */
  predicate CountsAgree(x: Channels<AttributeFull>) {
    x.normal.count == x.position.count && x.normal.count == x.uv.count
  }

  /** Every input of `rest` has the item sizes of `first`. */
  function ItemSizesLike(first: Channels<AttributeFull>, rest: seq<Channels<AttributeFull>>): (r: bool)
    ensures r <==> forall i, p :: 0 <= i < |rest| ==> rest[i].Get(p).itemSize == first.Get(p).itemSize
  {
    if |rest| == 0 then true
    else
      var tail := ItemSizesLike(first, rest[1..]);
      assert forall i :: 1 <= i < |rest| ==> rest[1..][i - 1] == rest[i];
      assert SameItemSizes(rest[0], first) <==> forall p :: rest[0].Get(p).itemSize == first.Get(p).itemSize by {
        assert rest[0].Get(Normal) == rest[0].normal && first.Get(Normal) == first.normal;
        assert rest[0].Get(Position) == rest[0].position && first.Get(Position) == first.position;
        assert rest[0].Get(Uv) == rest[0].uv && first.Get(Uv) == first.uv;
      }
      SameItemSizes(rest[0], first) && tail
  }

  /** Every input's channel counts agree. */
  function AllCountsAgree(fs: seq<Channels<AttributeFull>>): (r: bool)
    ensures r <==> forall i :: 0 <= i < |fs| ==> CountsAgree(fs[i])
  {
    if |fs| == 0 then true
    else
      var tail := AllCountsAgree(fs[1..]);
      assert forall i :: 1 <= i < |fs| ==> fs[1..][i - 1] == fs[i];
      CountsAgree(fs[0]) && tail
  }

  /** `areConsistent`: every channel has the first input's item size, and in
      every input `position` and `uv` report as many items as `normal`. */
  function AreConsistent(fs: seq<Channels<AttributeFull>>): (r: bool)
    ensures r <==>
      (forall i, p :: 0 <= i < |fs| ==> fs[i].Get(p).itemSize == fs[0].Get(p).itemSize) &&
      (forall i :: 0 <= i < |fs| ==> CountsAgree(fs[i]))
  {
    if |fs| == 0 then true
    else
      assert forall i :: 1 <= i < |fs| ==> fs[1..][i - 1] == fs[i];
      ItemSizesLike(fs[0], fs[1..]) && AllCountsAgree(fs)
  }

  /** The channels of every input. */
  function ChannelsOf(gs: seq<AttributesFull>): seq<Channels<AttributeFull>> {
    seq(|gs|, i requires 0 <= i < |gs| => gs[i].attributes)
  }

  // ---------------------------------------------------------------------
  // Whether indices matter (`indexMatters`).

  /** Some present index has fewer distinct values than entries
      (`new Set(index).size !== index.length`). */
  function SomeIndexRepeats(inputs: seq<AttributesFull>): (r: bool)
    ensures r <==> exists i :: 0 <= i < |inputs| && inputs[i].index.Some? && HasRepeat(inputs[i].index.value)
  {
    if |inputs| == 0 then false
    else
      var tail := SomeIndexRepeats(inputs[1..]);
      assert forall i :: 1 <= i < |inputs| ==> inputs[1..][i - 1] == inputs[i];
      match inputs[0].index
      case None => tail
      case Some(ix) =>
        RepeatIffFewerElements(ix);
        |Elements(ix)| != |ix| || tail
  }

  /** Indices are kept only when asked for and some input index repeats a vertex. */
  function IndexMatters(inputs: seq<AttributesFull>, useIndex: bool): (r: bool)
    ensures r <==> useIndex && exists i :: 0 <= i < |inputs| && inputs[i].index.Some? && HasRepeat(inputs[i].index.value)
  {
    useIndex && SomeIndexRepeats(inputs)
  }

  // ---------------------------------------------------------------------
  // Expansion through an index (`spreadIndex`).

  /** Every requested item lies inside the attribute. */
  predicate ItemsInRange(a: Attribute, index: seq<nat>) {
    forall m :: 0 <= m < |index| ==> ItemInRange(a, index[m])
  }

  /** `spreadIndex`: the items at the index entries, in index order, each
      taken with `array.slice` (no padding for an item past the end). */
  function SpreadIndex(a: Attribute, index: seq<nat>): (r: seq<real>)
    ensures |r| <= |index| * a.itemSize
    ensures ItemsInRange(a, index) ==> |r| == |index| * a.itemSize
    decreases |index|
  {
    if |index| == 0 then []
    else
      var n := |index| - 1;
      ItemLength(a, index[n]);
      MulStep(|index|, a.itemSize);
      assert ItemsInRange(a, index) ==> ItemsInRange(a, index[..n]) by {
        assert forall m :: 0 <= m < n ==> index[..n][m] == index[m];
      }
      SpreadIndex(a, index[..n]) + Item(a, index[n])
  }

  /** The expansion holds at most `itemSize` values per index entry; when
      every entry addresses an item inside the attribute it holds exactly
      that many, and its item `m` is the attribute's item `index[m]`. */
  lemma {:induction false} SpreadIndexItems(a: Attribute, index: seq<nat>)
    ensures |SpreadIndex(a, index)| <= |index| * a.itemSize
    ensures ItemsInRange(a, index) ==>
              |SpreadIndex(a, index)| == |index| * a.itemSize &&
              forall m :: 0 <= m < |index| ==> ItemOf(SpreadIndex(a, index), a.itemSize, m) == Item(a, index[m])
    decreases |index|
  {
    if |index| > 0 && ItemsInRange(a, index) {
      var n := |index| - 1;
      var k := a.itemSize;
      var front := SpreadIndex(a, index[..n]);
      var item := Item(a, index[n]);
      assert SpreadIndex(a, index) == front + item;
      assert ItemsInRange(a, index[..n]) by {
        assert forall m :: 0 <= m < n ==> index[..n][m] == index[m];
      }
      SpreadIndexItems(a, index[..n]);
      ItemLength(a, index[n]);
      ItemOfAppend(front, item, k, n);
      forall m | 0 <= m < |index|
        ensures ItemOf(front + item, k, m) == Item(a, index[m])
      {
        if m < n {
          assert index[..n][m] == index[m];
        }
      }
    }
  }

  /** An item holds at most `itemSize` values, exactly that many when it
      lies inside the attribute. */
  lemma ItemLength(a: Attribute, j: nat)
    ensures |Item(a, j)| <= a.itemSize
    ensures ItemInRange(a, j) ==> |Item(a, j)| == a.itemSize
  {
    MulStep(j + 1, a.itemSize);
  }

  // ---------------------------------------------------------------------
  // The fold (`mergeAttribtues`).
  //
  // A step of the reduce rebuilds each attribute channel from that channel
  // alone; the index and the next free index from themselves and the running
  // `normal` count; and the groups and the next material slot from themselves
  // and `accCount`, which reads the index or the `normal` count. The model
  // runs these parts as separate folds over the same inputs: one per channel,
  // as the inner reduce over the properties does; one for the index, which
  // carries the running `normal` count; and one for the groups, which reads
  // `accCount` off the index fold at the same step.

  /** How many vertices an input addresses: its index length when it has an
      index, else its `normal` count. */
  function Corners(x: AttributesFull): nat {
    match x.index
    case Some(ix) => |ix|
    case None => x.attributes.normal.count
  }

  /** `localCount`: the index length of an input expanded through its index,
      else its `normal` count. */
  function LocalCount(x: AttributesFull, indexMatters: bool): nat {
    if !indexMatters && x.index.Some? then |x.index.value| else x.attributes.normal.count
  }

  /** What an input appends to channel `p`: the channel expanded through the
      input's index when indices do not matter and it has one, else the
      channel as it is. */
  function LocalData(x: AttributesFull, p: Property, indexMatters: bool): seq<real> {
    if !indexMatters && x.index.Some? then SpreadIndex(Strip(x.attributes.Get(p)), x.index.value)
    else x.attributes.Get(p).data
  }

  /** An attribute with no items and the item size of `a`. */
  function Emptied(a: AttributeFull): AttributeFull {
    AttributeFull([], a.itemSize, 0)
  }

  /** A channel after one more input was appended to it. */
  function Append(acc: AttributeFull, x: AttributesFull, p: Property, indexMatters: bool): AttributeFull {
    AttributeFull(acc.data + LocalData(x, p, indexMatters), acc.itemSize, acc.count + LocalCount(x, indexMatters))
  }

  /** Channel `p` after the first `n` inputs, starting empty with the first
      input's item size. */
  function ChannelN(inputs: seq<AttributesFull>, n: nat, p: Property, indexMatters: bool): AttributeFull
    requires 0 < |inputs| && n <= |inputs|
    decreases n
  {
    if n == 0 then Emptied(inputs[0].attributes.Get(p))
    else Append(ChannelN(inputs, n - 1, p, indexMatters), inputs[n - 1], p, indexMatters)
  }

  /** The index part of the fold's state: the running `normal` count, and
      the merged index and next free index (only when indices matter). */
  datatype IndexState = IndexState(count: nat, index: Option<seq<nat>>, nextIndex: Option<nat>)

  /** The group part of the fold's state: the next free material slot (only
      when groups are built) and the merged groups. */
  datatype GroupState = GroupState(nextMaterialIndex: Option<nat>, groups: seq<Group>)

  /** `accCount`: the index length when there is an index, else the `normal` count. */
  function AccCount(s: IndexState): nat {
    match s.index
    case Some(ix) => |ix|
    case None => s.count
  }

  /** How many groups an input contributes: its own, or one covering it all. */
  function GroupCount(x: AttributesFull): nat {
    if |x.groups| > 0 then |x.groups| else 1
  }

  /** A group moved by `offset`, its material index raised by `slot` when
      defined and set to 0 when undefined. */
  function Moved(g: Group, offset: nat, slot: nat): Group {
    Group(g.start + offset, g.count, Some(match g.materialIndex case None => 0 case Some(m) => m + slot))
  }

  function MoveGroups(gs: seq<Group>, offset: nat, slot: nat): seq<Group> {
    if |gs| == 0 then [] else [Moved(gs[0], offset, slot)] + MoveGroups(gs[1..], offset, slot)
  }

  /** `localGroups`: an input's groups moved, or for a groupless input one
      group over all it addresses, at `slot`. */
  function Relocate(x: AttributesFull, offset: nat, slot: nat): seq<Group> {
    if |x.groups| > 0 then MoveGroups(x.groups, offset, slot)
    else [Group(offset, Corners(x), Some(slot))]
  }

  /** The material index of every group, an undefined one read as 0. */
  function SlotsOf(gs: seq<Group>): seq<nat> {
    if |gs| == 0 then [] else [gs[0].materialIndex.GetOr(0)] + SlotsOf(gs[1..])
  }

  /** The largest material index of some groups, an undefined one read as 0. */
  function HighestSlot(groups: seq<Group>): nat
    requires |groups| > 0
  {
    Max(SlotsOf(groups))
  }

  /** Every entry of `ix` raised by `base`. */
  function Shift(ix: seq<nat>, base: nat): seq<nat> {
    if |ix| == 0 then [] else [ix[0] + base] + Shift(ix[1..], base)
  }

  /** `localIndex` when indices matter: the input's index raised by the next
      free index, or for an unindexed input the run of its vertices from there. */
  function LocalIndex(x: AttributesFull, base: nat): seq<nat> {
    match x.index
    case Some(ix) => Shift(ix, base)
    case None => SortedIntegers(x.attributes.normal.count, base)
  }

  /** The next free index after an input: one past the largest raised index
      entry, or past the run of an unindexed input. */
  function NextIndexAfter(x: AttributesFull, base: nat): nat
    requires x.index.Some? ==> |x.index.value| > 0
  {
    match x.index
    case Some(ix) => Max(Shift(ix, base)) + 1
    case None => base + x.attributes.normal.count
  }

  /** When indices matter, no input index is empty (the largest entry of an
      empty index is not a number). */
  predicate IndexesUsable(inputs: seq<AttributesFull>, indexMatters: bool) {
    indexMatters ==> forall i :: 0 <= i < |inputs| && inputs[i].index.Some? ==> |inputs[i].index.value| > 0
  }

  /** The index part of one step of the reduce. */
  function AdvanceIndex(s: IndexState, x: AttributesFull, indexMatters: bool): IndexState
    requires indexMatters && x.index.Some? ==> |x.index.value| > 0
  {
    var base := s.nextIndex.GetOr(0);
    IndexState(
      s.count + LocalCount(x, indexMatters),
      if indexMatters then Some(s.index.GetOr([]) + LocalIndex(x, base)) else None,
      if indexMatters then Some(NextIndexAfter(x, base)) else None)
  }

  /** The index part after the first `n` inputs. */
  function IndexN(inputs: seq<AttributesFull>, n: nat, indexMatters: bool): IndexState
    requires n <= |inputs|
    requires IndexesUsable(inputs, indexMatters)
    decreases n
  {
    if n == 0 then IndexState(0, if indexMatters then Some([]) else None, if indexMatters then Some(0) else None)
    else AdvanceIndex(IndexN(inputs, n - 1, indexMatters), inputs[n - 1], indexMatters)
  }

  /** The group part of one step of the reduce, with groups moved by `accCount`. */
  function AdvanceGroups(s: GroupState, x: AttributesFull, useGroups: bool, accCount: nat): GroupState {
    if useGroups then
      var localGroups := Relocate(x, accCount, s.nextMaterialIndex.GetOr(0));
      GroupState(Some(HighestSlot(localGroups) + 1), s.groups + localGroups)
    else GroupState(None, s.groups)
  }

  /** The group part after the first `n` inputs. */
  function GroupsN(inputs: seq<AttributesFull>, n: nat, useGroups: bool, indexMatters: bool): GroupState
    requires n <= |inputs|
    requires IndexesUsable(inputs, indexMatters)
    decreases n
  {
    if n == 0 then GroupState(if useGroups then Some(0) else None, [])
    else AdvanceGroups(GroupsN(inputs, n - 1, useGroups, indexMatters), inputs[n - 1], useGroups,
                       AccCount(IndexN(inputs, n - 1, indexMatters)))
  }

  /** The fold's result: attributes with counts, index, next free index,
      next free material slot and groups. */
  datatype Accumulator = Accumulator(
    attributes: Channels<AttributeFull>,
    index: Option<seq<nat>>,
    nextIndex: Option<nat>,
    nextMaterialIndex: Option<nat>,
    groups: seq<Group>)

  /** `mergeAttribtues`: every part of the fold over all inputs. */
  function MergeAttributes(inputs: seq<AttributesFull>, useGroups: bool, useIndex: bool): (r: Accumulator)
    requires |inputs| > 0
    requires IndexesUsable(inputs, IndexMatters(inputs, useIndex))
    ensures r.index.Some? <==> IndexMatters(inputs, useIndex)
    ensures r.nextMaterialIndex.Some? <==> useGroups
    ensures !useGroups ==> r.groups == []
    ensures forall p :: r.attributes.Get(p).itemSize == inputs[0].attributes.Get(p).itemSize
    ensures forall p :: r.attributes.Get(p).count == Sum(LocalCounts(inputs, IndexMatters(inputs, useIndex)))
  {
    var indexMatters := IndexMatters(inputs, useIndex);
    var n := |inputs|;
    IndexPresent(inputs, n, indexMatters);
    ChannelsAgree(inputs, indexMatters);
    GroupsPresent(inputs, n, useGroups, indexMatters);
    var ix := IndexN(inputs, n, indexMatters);
    var gs := GroupsN(inputs, n, useGroups, indexMatters);
    Accumulator(
      Channels(ChannelN(inputs, n, Normal, indexMatters), ChannelN(inputs, n, Position, indexMatters), ChannelN(inputs, n, Uv, indexMatters)),
      ix.index, ix.nextIndex, gs.nextMaterialIndex, gs.groups)
  }

  /** The index part carries an index exactly when indices matter. */
  lemma IndexPresent(inputs: seq<AttributesFull>, n: nat, indexMatters: bool)
    requires n <= |inputs|
    requires IndexesUsable(inputs, indexMatters)
    ensures IndexN(inputs, n, indexMatters).index.Some? <==> indexMatters
  {
    IndexCounts(inputs, n, indexMatters);
  }

  /** After all inputs every channel has the first input's item size, and
      all channels count the sum of the inputs' local counts. */
  lemma ChannelsAgree(inputs: seq<AttributesFull>, indexMatters: bool)
    requires |inputs| > 0
    ensures var n := |inputs|;
            var c := Channels(ChannelN(inputs, n, Normal, indexMatters), ChannelN(inputs, n, Position, indexMatters), ChannelN(inputs, n, Uv, indexMatters));
            forall p :: c.Get(p).itemSize == inputs[0].attributes.Get(p).itemSize &&
                        c.Get(p).count == Sum(LocalCounts(inputs, indexMatters))
  {
    var n := |inputs|;
    assert inputs[..n] == inputs;
    ChannelClosedForm(inputs, n, Normal, indexMatters);
    ChannelClosedForm(inputs, n, Position, indexMatters);
    ChannelClosedForm(inputs, n, Uv, indexMatters);
  }

  /** The group part carries a next material slot exactly when groups are
      asked for, and no groups when they are not. */
  lemma GroupsPresent(inputs: seq<AttributesFull>, n: nat, useGroups: bool, indexMatters: bool)
    requires n <= |inputs|
    requires IndexesUsable(inputs, indexMatters)
    ensures var s := GroupsN(inputs, n, useGroups, indexMatters);
            (s.nextMaterialIndex.Some? <==> useGroups) && (!useGroups ==> s.groups == [])
  {
    if useGroups {
      GroupTotal(inputs, n, indexMatters);
    } else {
      NoGroups(inputs, n, indexMatters);
    }
  }

  /** `assemble`: the accumulator as a geometry (the counts are dropped). */
  function Build(acc: Accumulator): (r: Geometry)
    ensures r.index == acc.index && r.groups == acc.groups
    ensures forall p :: r.attributes.Get(p).data == acc.attributes.Get(p).data &&
                        r.attributes.Get(p).itemSize == acc.attributes.Get(p).itemSize
  {
    Geometry(
      Channels(Strip(acc.attributes.normal), Strip(acc.attributes.position), Strip(acc.attributes.uv)),
      acc.index, acc.groups)
  }

  /** `merge`: nothing for no input or for inconsistent inputs, else the
      assembled fold. */
  function Merge(gs: seq<AttributesFull>, useGroups: bool, useIndex: bool): (r: Option<Geometry>)
    requires IndexesUsable(gs, IndexMatters(gs, useIndex))
    ensures r.None? <==>
      |gs| == 0 ||
      (exists i, p :: 0 <= i < |gs| && gs[i].attributes.Get(p).itemSize != gs[0].attributes.Get(p).itemSize) ||
      (exists i :: 0 <= i < |gs| && !CountsAgree(gs[i].attributes))
  {
    if |gs| == 0 then None
    else
      var fs := ChannelsOf(gs);
      assert forall i :: 0 <= i < |gs| ==> fs[i] == gs[i].attributes;
      if !AreConsistent(fs) then None
      else Some(Build(MergeAttributes(gs, useGroups, useIndex)))
  }

  // ---------------------------------------------------------------------
  // The step's building blocks, entry by entry.

  lemma {:induction false} MoveGroupsShape(gs: seq<Group>, offset: nat, slot: nat)
    ensures |MoveGroups(gs, offset, slot)| == |gs|
    ensures forall i :: 0 <= i < |gs| ==> MoveGroups(gs, offset, slot)[i] == Moved(gs[i], offset, slot)
  {
    if |gs| > 0 {
      MoveGroupsShape(gs[1..], offset, slot);
      assert forall i :: 1 <= i < |gs| ==> gs[1..][i - 1] == gs[i];
    }
  }

  /** An input contributes its own groups, each moved, or one group over all
      it addresses. */
  lemma RelocateShape(x: AttributesFull, offset: nat, slot: nat)
    ensures |Relocate(x, offset, slot)| == GroupCount(x)
    ensures forall i :: 0 <= i < GroupCount(x) ==>
              Relocate(x, offset, slot)[i] ==
                if |x.groups| > 0 then Moved(x.groups[i], offset, slot) else Group(offset, Corners(x), Some(slot))
  {
    MoveGroupsShape(x.groups, offset, slot);
  }

  lemma {:induction false} SlotsOfShape(gs: seq<Group>)
    ensures |SlotsOf(gs)| == |gs|
    ensures forall i :: 0 <= i < |gs| ==> SlotsOf(gs)[i] == gs[i].materialIndex.GetOr(0)
  {
    if |gs| > 0 {
      SlotsOfShape(gs[1..]);
      assert forall i :: 1 <= i < |gs| ==> gs[1..][i - 1] == gs[i];
    }
  }

  lemma {:induction false} ShiftShape(ix: seq<nat>, base: nat)
    ensures |Shift(ix, base)| == |ix|
    ensures forall i :: 0 <= i < |ix| ==> Shift(ix, base)[i] == ix[i] + base
  {
    if |ix| > 0 {
      ShiftShape(ix[1..], base);
      assert forall i :: 1 <= i < |ix| ==> ix[1..][i - 1] == ix[i];
    }
  }

  /** Raising every entry raises the largest one by as much. */
  lemma MaxShift(xs: seq<nat>, c: nat)
    requires |xs| > 0
    ensures |Shift(xs, c)| > 0 && Max(Shift(xs, c)) == Max(xs) + c
  {
    var ys := Shift(xs, c);
    ShiftShape(xs, c);
    MaxIsLargest(xs);
    MaxIsLargest(ys);
    var i :| 0 <= i < |ys| && ys[i] == Max(ys);
    var j :| 0 <= j < |xs| && xs[j] == Max(xs);
    assert ys[i] <= Max(xs) + c;
    assert ys[j] <= Max(ys);
  }

  // ---------------------------------------------------------------------
  // The channels in closed form.

  /** The per-input contributions the closed forms add up. */
  function DataPieces(xs: seq<AttributesFull>, p: Property, indexMatters: bool): seq<seq<real>> {
    seq(|xs|, i requires 0 <= i < |xs| => LocalData(xs[i], p, indexMatters))
  }

  function LocalCounts(xs: seq<AttributesFull>, indexMatters: bool): seq<nat> {
    seq(|xs|, i requires 0 <= i < |xs| => LocalCount(xs[i], indexMatters))
  }

  function CornerCounts(xs: seq<AttributesFull>): seq<nat> {
    seq(|xs|, i requires 0 <= i < |xs| => Corners(xs[i]))
  }

  function GroupCounts(xs: seq<AttributesFull>): seq<nat> {
    seq(|xs|, i requires 0 <= i < |xs| => GroupCount(xs[i]))
  }

  /** The first `n` entries are the first `n - 1` followed by entry `n - 1`. */
  lemma PrefixStep<T>(s: seq<T>, n: nat)
    requires 0 < n <= |s|
    ensures s[..n] == s[..n - 1] + [s[n - 1]]
  {
  }

  lemma DataPiecesStep(xs: seq<AttributesFull>, x: AttributesFull, p: Property, indexMatters: bool)
    ensures DataPieces(xs + [x], p, indexMatters) == DataPieces(xs, p, indexMatters) + [LocalData(x, p, indexMatters)]
  {
  }

  lemma LocalCountsStep(xs: seq<AttributesFull>, x: AttributesFull, indexMatters: bool)
    ensures LocalCounts(xs + [x], indexMatters) == LocalCounts(xs, indexMatters) + [LocalCount(x, indexMatters)]
  {
  }

  lemma CornerCountsStep(xs: seq<AttributesFull>, x: AttributesFull)
    ensures CornerCounts(xs + [x]) == CornerCounts(xs) + [Corners(x)]
  {
  }

  lemma GroupCountsStep(xs: seq<AttributesFull>, x: AttributesFull)
    ensures GroupCounts(xs + [x]) == GroupCounts(xs) + [GroupCount(x)]
  {
  }

  /** Every merged channel keeps the first input's item size, holds the
      in-order concatenation of what each input appends (its own array, or
      the array expanded through its index), and counts the sum of the
      inputs' `localCount`s. */
  lemma {:induction false} ChannelClosedForm(inputs: seq<AttributesFull>, n: nat, p: Property, indexMatters: bool)
    requires 0 < |inputs| && n <= |inputs|
    ensures var a := ChannelN(inputs, n, p, indexMatters);
            a.itemSize == inputs[0].attributes.Get(p).itemSize &&
            a.data == Flatten(DataPieces(inputs[..n], p, indexMatters)) &&
            a.count == Sum(LocalCounts(inputs[..n], indexMatters))
  {
    if n == 0 {
      assert inputs[..0] == [];
    } else {
      ChannelClosedForm(inputs, n - 1, p, indexMatters);
      var xs, x := inputs[..n - 1], inputs[n - 1];
      PrefixStep(inputs, n);
      DataPiecesStep(xs, x, p, indexMatters);
      LocalCountsStep(xs, x, indexMatters);
      FlattenAppend(DataPieces(xs, p, indexMatters), LocalData(x, p, indexMatters));
      SumAppend(LocalCounts(xs, indexMatters), LocalCount(x, indexMatters));
    }
  }

  // ---------------------------------------------------------------------
  // The index part in closed form.

  /** The index part carries an index and a next free index exactly when
      indices matter; its running count is that of every channel, and
      `accCount` is the number of vertices the inputs so far address. */
  lemma {:induction false} IndexCounts(inputs: seq<AttributesFull>, n: nat, indexMatters: bool)
    requires n <= |inputs|
    requires IndexesUsable(inputs, indexMatters)
    ensures var s := IndexN(inputs, n, indexMatters);
            (s.index.Some? <==> indexMatters) &&
            (s.nextIndex.Some? <==> indexMatters) &&
            s.count == Sum(LocalCounts(inputs[..n], indexMatters)) &&
            AccCount(s) == Sum(CornerCounts(inputs[..n]))
  {
    if n == 0 {
      assert inputs[..0] == [];
    } else {
      IndexCounts(inputs, n - 1, indexMatters);
      var xs, x := inputs[..n - 1], inputs[n - 1];
      PrefixStep(inputs, n);
      CornerCountsStep(xs, x);
      LocalCountsStep(xs, x, indexMatters);
      SumAppend(CornerCounts(xs), Corners(x));
      SumAppend(LocalCounts(xs, indexMatters), LocalCount(x, indexMatters));
      if x.index.Some? {
        ShiftShape(x.index.value, IndexN(inputs, n - 1, indexMatters).nextIndex.GetOr(0));
      }
    }
  }

  /** An input's index reaches exactly its last vertex: the largest entry is
      one below its `normal` count. */
  predicate Tight(x: AttributesFull) {
    x.index.Some? ==> |x.index.value| > 0 && Max(x.index.value) + 1 == x.attributes.normal.count
  }

  /** A tight input's local index has one entry per corner, each below the
      base plus its vertex count, and the next free index lands right there. */
  lemma TightLocalIndex(x: AttributesFull, base: nat)
    requires Tight(x)
    ensures |LocalIndex(x, base)| == Corners(x)
    ensures EntriesBelow(LocalIndex(x, base), base + x.attributes.normal.count)
    ensures NextIndexAfter(x, base) == base + x.attributes.normal.count
  {
    if x.index.Some? {
      ShiftShape(x.index.value, base);
      MaxIsLargest(x.index.value);
      MaxShift(x.index.value, base);
    }
  }

  /** When indices matter and every input index is tight, the next free
      index is always the running vertex count, and every merged index
      entry addresses a vertex the channels hold. */
  lemma {:induction false} IndexAligned(inputs: seq<AttributesFull>, n: nat)
    requires n <= |inputs|
    requires forall j :: 0 <= j < |inputs| ==> Tight(inputs[j])
    ensures IndexesUsable(inputs, true)
    ensures var s := IndexN(inputs, n, true);
            s.index.Some? && s.nextIndex == Some(s.count) && EntriesBelow(s.index.value, s.count)
  {
    if n > 0 {
      IndexAligned(inputs, n - 1);
      var s, x := IndexN(inputs, n - 1, true), inputs[n - 1];
      assert IndexN(inputs, n, true) == AdvanceIndex(s, x, true);
      TightLocalIndex(x, s.count);
      EntriesBelowAppend(s.index.value, LocalIndex(x, s.count), s.count, s.count + x.attributes.normal.count);
    }
  }

  /** Every entry is below `bound`. */
  predicate EntriesBelow(ix: seq<nat>, bound: nat) {
    forall q :: 0 <= q < |ix| ==> ix[q] < bound
  }

  lemma EntriesBelowAppend(a: seq<nat>, b: seq<nat>, m: nat, n: nat)
    requires m <= n && EntriesBelow(a, m) && EntriesBelow(b, n)
    ensures EntriesBelow(a + b, n)
  {
    assert forall q :: |a| <= q < |a + b| ==> (a + b)[q] == b[q - |a|];
  }

  /** One step of the index part when indices matter appends the input's
      local index. */
  lemma IndexStep(inputs: seq<AttributesFull>, n: nat)
    requires 0 < n <= |inputs|
    requires IndexesUsable(inputs, true)
    ensures var before, after := IndexN(inputs, n - 1, true), IndexN(inputs, n, true);
            before.index.Some? ==>
              after.index == Some(before.index.value + LocalIndex(inputs[n - 1], before.nextIndex.GetOr(0)))
  {
  }

  /** The local index of every input when indices matter and every input
      index is tight: each raised by the vertices of the inputs before it. */
  function IndexPieces(xs: seq<AttributesFull>): seq<seq<nat>> {
    seq(|xs|, i requires 0 <= i < |xs| => LocalIndex(xs[i], Sum(LocalCounts(xs[..i], true))))
  }

  lemma IndexPiecesStep(xs: seq<AttributesFull>, x: AttributesFull)
    ensures IndexPieces(xs + [x]) == IndexPieces(xs) + [LocalIndex(x, Sum(LocalCounts(xs, true)))]
  {
    assert (xs + [x])[..|xs|] == xs;
    assert forall i :: 0 <= i < |xs| ==> (xs + [x])[..i] == xs[..i];
  }

  /** With tight indices the merged index is the concatenation of every
      input's local index, each raised by the vertices before it. */
  lemma {:induction false} IndexClosedForm(inputs: seq<AttributesFull>, n: nat)
    requires n <= |inputs|
    requires forall k :: 0 <= k < |inputs| ==> Tight(inputs[k])
    ensures IndexesUsable(inputs, true)
    ensures IndexN(inputs, n, true).index == Some(Flatten(IndexPieces(inputs[..n])))
  {
    IndexAligned(inputs, n);
    if n == 0 {
      assert inputs[..0] == [];
    } else {
      IndexClosedForm(inputs, n - 1);
      IndexAligned(inputs, n - 1);
      IndexCounts(inputs, n - 1, true);
      IndexStep(inputs, n);
      var xs, x := inputs[..n - 1], inputs[n - 1];
      PrefixStep(inputs, n);
      IndexPiecesStep(xs, x);
      FlattenAppend(IndexPieces(xs), LocalIndex(x, Sum(LocalCounts(xs, true))));
    }
  }

  /** Tight local indices have one entry per corner. */
  lemma IndexPiecesLengths(xs: seq<AttributesFull>)
    requires forall k :: 0 <= k < |xs| ==> Tight(xs[k])
    ensures forall i :: 0 <= i < |xs| ==> |IndexPieces(xs)[i]| == CornerCounts(xs)[i]
  {
    forall i | 0 <= i < |xs|
      ensures |IndexPieces(xs)[i]| == CornerCounts(xs)[i]
    {
      TightLocalIndex(xs[i], Sum(LocalCounts(xs[..i], true)));
    }
  }

  /** With tight indices, the merged index entry for corner `x` of input `j`
      sits after the corners of the inputs before it and is the input's own
      entry (or `x` itself for an unindexed input) raised by the vertices of
      the inputs before it. */
  lemma IndexAt(inputs: seq<AttributesFull>, n: nat, j: nat, x: nat)
    requires n <= |inputs|
    requires forall k :: 0 <= k < |inputs| ==> Tight(inputs[k])
    requires j < n && x < Corners(inputs[j])
    ensures IndexesUsable(inputs, true)
    ensures var ix := IndexN(inputs, n, true).index;
            var at := Sum(CornerCounts(inputs[..j])) + x;
            ix.Some? && at < |ix.value| &&
            ix.value[at] == (match inputs[j].index case Some(own) => own[x] case None => x) +
                            Sum(LocalCounts(inputs[..j], true))
  {
    var xs := inputs[..n];
    var pieces := IndexPieces(xs);
    var base := Sum(LocalCounts(inputs[..j], true));
    IndexClosedForm(inputs, n);
    IndexPiecesPrefix(inputs, n, j);
    assert pieces[j] == LocalIndex(inputs[j], base) by {
      assert xs[..j] == inputs[..j] && xs[j] == inputs[j];
    }
    LocalIndexAt(inputs[j], base, x);
    FlattenAt(pieces, j, x);
  }

  /** The local index has one entry per corner, entry `x` being the input's
      own entry (or `x` for an unindexed input) raised by `base`. */
  lemma LocalIndexAt(y: AttributesFull, base: nat, x: nat)
    requires x < Corners(y)
    ensures x < |LocalIndex(y, base)|
    ensures LocalIndex(y, base)[x] == (match y.index case Some(own) => own[x] case None => x) + base
  {
    if y.index.Some? {
      ShiftShape(y.index.value, base);
    }
  }

  /** The local indices of the first `j` inputs hold their corners. */
  lemma IndexPiecesPrefix(inputs: seq<AttributesFull>, n: nat, j: nat)
    requires n <= |inputs| && j < n
    requires forall k :: 0 <= k < |inputs| ==> Tight(inputs[k])
    ensures j < |IndexPieces(inputs[..n])|
    ensures |Flatten(IndexPieces(inputs[..n])[..j])| == Sum(CornerCounts(inputs[..j]))
  {
    var xs := inputs[..n];
    var pieces := IndexPieces(xs);
    IndexPiecesLengths(xs);
    assert xs[..j] == inputs[..j];
    assert CornerCounts(xs)[..j] == CornerCounts(inputs[..j]);
    FlattenLength(pieces[..j], CornerCounts(inputs[..j]));
  }

  /** The next free index follows the largest index entry, not the vertex
      count: an indexed input moves it to one past its largest raised
      entry while the vertex count grows by all its vertices. */
  lemma NextIndexFollowsLargestEntry(s: IndexState, x: AttributesFull)
    requires x.index.Some? && |x.index.value| > 0
    ensures var r := AdvanceIndex(s, x, true);
            r.count == s.count + x.attributes.normal.count &&
            r.nextIndex == Some(s.nextIndex.GetOr(0) + Max(x.index.value) + 1)
  {
    MaxShift(x.index.value, s.nextIndex.GetOr(0));
  }

  /** So after an input whose index never reaches its last vertex, the next
      free index falls behind the vertex count, and the next input's entries
      point back into vertices the earlier inputs hold. */
  lemma LooseIndexFallsBehind(s: IndexState, x: AttributesFull)
    requires s.nextIndex == Some(s.count)
    requires x.index.Some? && |x.index.value| > 0
    requires Max(x.index.value) + 1 < x.attributes.normal.count
    ensures var r := AdvanceIndex(s, x, true);
            r.nextIndex.Some? && r.nextIndex.value < r.count
  {
    NextIndexFollowsLargestEntry(s, x);
  }

  // ---------------------------------------------------------------------
  // The merged geometry.

  /** A merged geometry is the assembled fold: each channel the channel
      fold without its count, the index of the index fold and the groups of
      the group fold. */
  lemma MergeParts(gs: seq<AttributesFull>, useGroups: bool, useIndex: bool, p: Property)
    requires IndexesUsable(gs, IndexMatters(gs, useIndex))
    ensures var r := Merge(gs, useGroups, useIndex);
            var im := IndexMatters(gs, useIndex);
            r.Some? ==>
              r.value.attributes.Get(p) == Strip(ChannelN(gs, |gs|, p, im)) &&
              r.value.index == IndexN(gs, |gs|, im).index &&
              r.value.groups == GroupsN(gs, |gs|, useGroups, im).groups
  {
  }

  /** Every channel of a merged geometry has the first input's item size
      and holds, in input order, each input's array, expanded through the
      input's own index when indices do not matter. */
  lemma MergedChannel(gs: seq<AttributesFull>, useGroups: bool, useIndex: bool, p: Property)
    requires IndexesUsable(gs, IndexMatters(gs, useIndex))
    ensures var r := Merge(gs, useGroups, useIndex);
            r.Some? ==>
              r.value.attributes.Get(p) ==
                Attribute(Flatten(DataPieces(gs, p, IndexMatters(gs, useIndex))), gs[0].attributes.Get(p).itemSize)
  {
    MergeParts(gs, useGroups, useIndex, p);
    if |gs| > 0 {
      ChannelClosedForm(gs, |gs|, p, IndexMatters(gs, useIndex));
      assert gs[..|gs|] == gs;
    }
  }

  /** A merged geometry has an index exactly when indices matter; with
      tight input indices it is every input's local index, in input order,
      raised by the vertices of the inputs before it. */
  lemma MergedIndex(gs: seq<AttributesFull>, useGroups: bool, useIndex: bool)
    requires IndexesUsable(gs, IndexMatters(gs, useIndex))
    ensures var r := Merge(gs, useGroups, useIndex);
            r.Some? ==>
              (r.value.index.Some? <==> IndexMatters(gs, useIndex)) &&
              (IndexMatters(gs, useIndex) && (forall k :: 0 <= k < |gs| ==> Tight(gs[k])) ==>
                 r.value.index == Some(Flatten(IndexPieces(gs))))
  {
    var im := IndexMatters(gs, useIndex);
    MergeParts(gs, useGroups, useIndex, Normal);
    IndexCounts(gs, |gs|, im);
    if im && forall k :: 0 <= k < |gs| ==> Tight(gs[k]) {
      IndexClosedForm(gs, |gs|);
      assert gs[..|gs|] == gs;
    }
  }

  // ---------------------------------------------------------------------
  // The group part in closed form.

  /** Without groups requested the merged geometry has no groups and no
      material slot. */
  lemma {:induction false} NoGroups(inputs: seq<AttributesFull>, n: nat, indexMatters: bool)
    requires n <= |inputs|
    requires IndexesUsable(inputs, indexMatters)
    ensures GroupsN(inputs, n, false, indexMatters) == GroupState(None, [])
  {
    if n > 0 {
      NoGroups(inputs, n - 1, indexMatters);
    }
  }

  /** With groups requested there is always a next material slot, and each
      input contributes its own groups or one covering it: the merged groups
      number the sum of those. */
  lemma {:induction false} GroupTotal(inputs: seq<AttributesFull>, n: nat, indexMatters: bool)
    requires n <= |inputs|
    requires IndexesUsable(inputs, indexMatters)
    ensures var s := GroupsN(inputs, n, true, indexMatters);
            s.nextMaterialIndex.Some? && |s.groups| == Sum(GroupCounts(inputs[..n]))
  {
    if n == 0 {
      assert inputs[..0] == [];
    } else {
      GroupTotal(inputs, n - 1, indexMatters);
      var xs, x := inputs[..n - 1], inputs[n - 1];
      PrefixStep(inputs, n);
      GroupCountsStep(xs, x);
      SumAppend(GroupCounts(xs), GroupCount(x));
      var s := GroupsN(inputs, n - 1, true, indexMatters);
      RelocateShape(x, AccCount(IndexN(inputs, n - 1, indexMatters)), s.nextMaterialIndex.GetOr(0));
    }
  }

  /** Later steps only append groups. */
  lemma {:induction false} GroupsGrow(inputs: seq<AttributesFull>, m: nat, n: nat, indexMatters: bool)
    requires m <= n <= |inputs|
    requires IndexesUsable(inputs, indexMatters)
    ensures var before, after := GroupsN(inputs, m, true, indexMatters).groups, GroupsN(inputs, n, true, indexMatters).groups;
            before <= after
  {
    if m < n {
      GroupsGrow(inputs, m, n - 1, indexMatters);
      var s := GroupsN(inputs, n - 1, true, indexMatters);
      var accCount := AccCount(IndexN(inputs, n - 1, indexMatters));
      assert GroupsN(inputs, n, true, indexMatters).groups ==
               s.groups + Relocate(inputs[n - 1], accCount, s.nextMaterialIndex.GetOr(0));
    }
  }

  /** Group `i` of input `j` is the merged group after the groups of the
      inputs before it, moved behind the vertices those inputs address, at
      the material slot the fold had reached; a groupless input's one group
      covers all it addresses. */
  lemma GroupAt(inputs: seq<AttributesFull>, n: nat, indexMatters: bool, j: nat, i: nat)
    requires n <= |inputs|
    requires IndexesUsable(inputs, indexMatters)
    requires j < n && i < GroupCount(inputs[j])
    ensures var groups := GroupsN(inputs, n, true, indexMatters).groups;
            var at := Sum(GroupCounts(inputs[..j])) + i;
            var offset := Sum(CornerCounts(inputs[..j]));
            var slot := GroupsN(inputs, j, true, indexMatters).nextMaterialIndex.GetOr(0);
            at < |groups| &&
            groups[at] == if |inputs[j].groups| > 0 then Moved(inputs[j].groups[i], offset, slot)
                          else Group(offset, Corners(inputs[j]), Some(slot))
  {
    var s := GroupsN(inputs, j, true, indexMatters);
    GroupTotal(inputs, j, indexMatters);
    IndexCounts(inputs, j, indexMatters);
    RelocateShape(inputs[j], AccCount(IndexN(inputs, j, indexMatters)), s.nextMaterialIndex.GetOr(0));
    GroupsGrow(inputs, j + 1, n, indexMatters);
  }

  /** A merged geometry has no groups unless they were asked for, and then
      one per input group, or one for a groupless input. */
  lemma MergedGroups(gs: seq<AttributesFull>, useGroups: bool, useIndex: bool)
    requires IndexesUsable(gs, IndexMatters(gs, useIndex))
    ensures var r := Merge(gs, useGroups, useIndex);
            r.Some? ==>
              (!useGroups ==> r.value.groups == []) &&
              (useGroups ==> |r.value.groups| == Sum(GroupCounts(gs)))
  {
    var im := IndexMatters(gs, useIndex);
    MergeParts(gs, useGroups, useIndex, Normal);
    if useGroups {
      GroupTotal(gs, |gs|, im);
      assert gs[..|gs|] == gs;
    } else {
      NoGroups(gs, |gs|, im);
    }
  }

  // ---------------------------------------------------------------------
  // Material slots.

  /** Every group of every input names its material index. */
  predicate AllDefined(inputs: seq<AttributesFull>) {
    forall j, q :: 0 <= j < |inputs| && 0 <= q < |inputs[j].groups| ==> inputs[j].groups[q].materialIndex.Some?
  }

  /** The material slots an input uses: one past its highest material index
      (an undefined one read as 0), or one for a groupless input. */
  function Slots(x: AttributesFull): nat {
    if |x.groups| > 0 then HighestSlot(x.groups) + 1 else 1
  }

  /** The material slot of an input's group `i` within the input: its
      material index (an undefined one read as 0), or 0 for the one group of
      a groupless input. */
  function OwnSlot(x: AttributesFull, i: nat): nat
    requires i < GroupCount(x)
  {
    if |x.groups| > 0 then x.groups[i].materialIndex.GetOr(0) else 0
  }

  function SlotCounts(xs: seq<AttributesFull>): seq<nat> {
    seq(|xs|, i requires 0 <= i < |xs| => Slots(xs[i]))
  }

  lemma SlotCountsStep(xs: seq<AttributesFull>, x: AttributesFull)
    ensures SlotCounts(xs + [x]) == SlotCounts(xs) + [Slots(x)]
  {
  }

  /** Relocating an input whose groups all name a material index at `slot`
      leaves the next free slot `Slots(x)` further on. */
  lemma RelocatedSlots(x: AttributesFull, offset: nat, slot: nat)
    requires forall q :: 0 <= q < |x.groups| ==> x.groups[q].materialIndex.Some?
    ensures HighestSlot(Relocate(x, offset, slot)) + 1 == slot + Slots(x)
  {
    RelocateShape(x, offset, slot);
    var moved := Relocate(x, offset, slot);
    SlotsOfShape(moved);
    if |x.groups| > 0 {
      SlotsOfShape(x.groups);
      ShiftShape(SlotsOf(x.groups), slot);
      assert SlotsOf(moved) == Shift(SlotsOf(x.groups), slot);
      MaxShift(SlotsOf(x.groups), slot);
    } else {
      assert SlotsOf(moved) == [slot];
    }
  }

  /** When every group names its material index, the next free material
      slot after `n` inputs is the number of slots those inputs use. */
  lemma {:induction false} GroupSlots(inputs: seq<AttributesFull>, n: nat, indexMatters: bool)
    requires n <= |inputs|
    requires IndexesUsable(inputs, indexMatters)
    requires AllDefined(inputs)
    ensures GroupsN(inputs, n, true, indexMatters).nextMaterialIndex == Some(Sum(SlotCounts(inputs[..n])))
  {
    if n == 0 {
      assert inputs[..0] == [];
    } else {
      GroupSlots(inputs, n - 1, indexMatters);
      var xs, x := inputs[..n - 1], inputs[n - 1];
      PrefixStep(inputs, n);
      SlotCountsStep(xs, x);
      SumAppend(SlotCounts(xs), Slots(x));
      var s := GroupsN(inputs, n - 1, true, indexMatters);
      RelocatedSlots(x, AccCount(IndexN(inputs, n - 1, indexMatters)), s.nextMaterialIndex.GetOr(0));
    }
  }

  /** A group with an undefined material index is moved to slot 0 of the
      merged geometry, not to its input's first slot, and when every group
      of an input is like that, the next input's slots restart at 1. */
  lemma UndefinedMaterialIndexRestartsSlots(s: GroupState, x: AttributesFull, accCount: nat)
    requires |x.groups| > 0
    requires forall q :: 0 <= q < |x.groups| ==> x.groups[q].materialIndex.None?
    ensures var r := AdvanceGroups(s, x, true, accCount);
            r.nextMaterialIndex == Some(1) && |r.groups| == |s.groups| + |x.groups| &&
            r.groups[..|s.groups|] == s.groups &&
            forall g :: g in r.groups[|s.groups|..] ==> g.materialIndex == Some(0)
  {
    var moved := Relocate(x, accCount, s.nextMaterialIndex.GetOr(0));
    RelocateShape(x, accCount, s.nextMaterialIndex.GetOr(0));
    SlotsOfShape(moved);
    MaxIsLargest(SlotsOf(moved));
  }

  // ---------------------------------------------------------------------
  // Materials (`sortMaterials`).

  /** `mesh.material[k] || first` for a material list (past its end there is
      no material and the mesh's first material stands in); a single
      material stands in every slot. */
  function SlotMaterial<M>(material: MaterialSpec<M>, k: nat, first: M): M {
    match material
    case Several(ms) => if k < |ms| then ms[k] else first
    case Single(m) => m
  }

  /** The padding loop: push the material of the next slot while fewer than
      `target` slots are filled. */
  function PadMaterials<M>(pending: seq<M>, target: nat, material: MaterialSpec<M>, first: M): seq<M>
    decreases target - |pending|
  {
    if |pending| >= target then pending
    else PadMaterials(pending + [SlotMaterial(material, |pending|, first)], target, material, first)
  }

  /** `pendingMaterials`: a material for every slot up to the mesh's highest
      material index, or just its first material for a groupless mesh. */
  function PendingMaterials<M>(mesh: Mesh<M>, first: M): seq<M> {
    if |mesh.geometry.groups| > 0 then PadMaterials([], HighestSlot(mesh.geometry.groups) + 1, mesh.material, first)
    else [first]
  }

  /** `sortMaterials`: every mesh's pending materials, in order. The mesh's
      first material (`getFirstMaterial`) is a parameter. */
  function SortMaterials<M>(meshes: seq<Mesh<M>>, first: Mesh<M> -> M): seq<M> {
    if |meshes| == 0 then []
    else
      var last := meshes[|meshes| - 1];
      SortMaterials(meshes[..|meshes| - 1], first) + PendingMaterials(last, first(last))
  }

  /** The sorted materials hold one material per slot the meshes use. */
  lemma {:induction false} SortMaterialsCount<M>(meshes: seq<Mesh<M>>, first: Mesh<M> -> M)
    ensures |SortMaterials(meshes, first)| == Sum(SlotCounts(Geometries(meshes)))
  {
    if |meshes| > 0 {
      var n := |meshes| - 1;
      var last := meshes[n];
      SortMaterialsCount(meshes[..n], first);
      PendingMaterialsSlots(last, first(last));
      assert Geometries(meshes) == Geometries(meshes[..n]) + [last.geometry];
      SlotCountsStep(Geometries(meshes[..n]), last.geometry);
      SumAppend(SlotCounts(Geometries(meshes[..n])), Slots(last.geometry));
    }
  }

  /** The geometry of every mesh. */
  function Geometries<M>(meshes: seq<Mesh<M>>): seq<AttributesFull> {
    seq(|meshes|, i requires 0 <= i < |meshes| => meshes[i].geometry)
  }

  /** The padding loop fills slot `k` with the slot's material, for every
      slot below `target`, and keeps what was already there. */
  lemma {:induction false} PadMaterialsFills<M>(pending: seq<M>, target: nat, material: MaterialSpec<M>, first: M)
    requires forall k :: 0 <= k < |pending| ==> pending[k] == SlotMaterial(material, k, first)
    ensures var r := PadMaterials(pending, target, material, first);
            |r| == if |pending| >= target then |pending| else target
    ensures var r := PadMaterials(pending, target, material, first);
            forall k :: 0 <= k < |r| ==> r[k] == SlotMaterial(material, k, first)
    decreases target - |pending|
  {
    if |pending| < target {
      PadMaterialsFills(pending + [SlotMaterial(material, |pending|, first)], target, material, first);
    }
  }

  /** A mesh contributes one material per slot it uses: the material of
      that slot, or its first material when it has no groups. */
  lemma PendingMaterialsSlots<M>(mesh: Mesh<M>, first: M)
    ensures |PendingMaterials(mesh, first)| == Slots(mesh.geometry)
    ensures forall k :: 0 <= k < Slots(mesh.geometry) ==>
              PendingMaterials(mesh, first)[k] ==
                if |mesh.geometry.groups| > 0 then SlotMaterial(mesh.material, k, first) else first
  {
    if |mesh.geometry.groups| > 0 {
      PadMaterialsFills([], HighestSlot(mesh.geometry.groups) + 1, mesh.material, first);
    }
  }

  /** The material a mesh draws slot `k` with: the slot's material, or its
      first material when it has no groups. */
  function OwnMaterial<M>(mesh: Mesh<M>, k: nat, first: M): M {
    if |mesh.geometry.groups| > 0 then SlotMaterial(mesh.material, k, first) else first
  }

  /** The pending materials of every mesh. */
  function MaterialPieces<M>(meshes: seq<Mesh<M>>, first: Mesh<M> -> M): seq<seq<M>> {
    seq(|meshes|, i requires 0 <= i < |meshes| => PendingMaterials(meshes[i], first(meshes[i])))
  }

  /** The fold concatenates the meshes' pending materials. */
  lemma {:induction false} SortMaterialsFlat<M>(meshes: seq<Mesh<M>>, first: Mesh<M> -> M)
    ensures SortMaterials(meshes, first) == Flatten(MaterialPieces(meshes, first))
  {
    if |meshes| > 0 {
      var n := |meshes| - 1;
      SortMaterialsFlat(meshes[..n], first);
      assert MaterialPieces(meshes, first) == MaterialPieces(meshes[..n], first) + [PendingMaterials(meshes[n], first(meshes[n]))];
      FlattenAppend(MaterialPieces(meshes[..n], first), PendingMaterials(meshes[n], first(meshes[n])));
    }
  }

  /** The materials of mesh `j` start after the slots of the meshes before
      it: slot `k` of mesh `j` is entry `Sum(slots before) + k`, and there
      are as many entries as the meshes use slots. */
  lemma {:induction false} SortMaterialsAt<M>(meshes: seq<Mesh<M>>, first: Mesh<M> -> M, j: nat, k: nat)
    requires j < |meshes| && k < Slots(meshes[j].geometry)
    ensures var r := SortMaterials(meshes, first);
            var at := Sum(SlotCounts(Geometries(meshes)[..j])) + k;
            |r| == Sum(SlotCounts(Geometries(meshes))) && at < |r| &&
            r[at] == OwnMaterial(meshes[j], k, first(meshes[j]))
  {
    var pieces := MaterialPieces(meshes, first);
    SortMaterialsFlat(meshes, first);
    forall i | 0 <= i < |meshes|
      ensures |pieces[i]| == SlotCounts(Geometries(meshes))[i]
    {
      PendingMaterialsSlots(meshes[i], first(meshes[i]));
    }
    FlattenLength(pieces, SlotCounts(Geometries(meshes)));
    FlattenLength(pieces[..j], SlotCounts(Geometries(meshes)[..j]));
    PendingMaterialsSlots(meshes[j], first(meshes[j]));
    FlattenAt(pieces, j, k);
  }

  // ---------------------------------------------------------------------
  // Whole meshes (`mergeMeshes`).

  /** The merged mesh: the merged geometry and the material it draws with. */
  datatype MergedMesh<M> = MergedMesh(geometry: Geometry, material: MaterialSpec<M>)

  /** `mergeMeshes` for plain meshes: nothing for no mesh or when the
      geometries do not merge; else the merged geometry, drawn with the
      sorted materials when groups are built and with the first mesh's
      first material otherwise. */
  function MergeMeshes<M>(meshes: seq<Mesh<M>>, useGroups: bool, useIndex: bool, first: Mesh<M> -> M): (r: Option<MergedMesh<M>>)
    requires IndexesUsable(Geometries(meshes), IndexMatters(Geometries(meshes), useIndex))
    ensures r.None? <==> |meshes| == 0 || Merge(Geometries(meshes), useGroups, useIndex).None?
    ensures r.Some? && !useGroups ==> r.value.material == Single(first(meshes[0]))
    ensures r.Some? && useGroups ==>
              r.value.material.Several? && |r.value.material.materials| == Sum(SlotCounts(Geometries(meshes)))
  {
    if |meshes| == 0 then None
    else
      match Merge(Geometries(meshes), useGroups, useIndex)
      case None => None
      case Some(g) =>
        if useGroups then
          SortMaterialsAt(meshes, first, 0, 0);
          Some(MergedMesh(g, Several(SortMaterials(meshes, first))))
        else Some(MergedMesh(g, Single(first(meshes[0]))))
  }

  /** The point of sorting the materials: when every group names its
      material index, each merged group draws with the material its own
      group drew with in its mesh (a groupless mesh's one group with that
      mesh's first material). */
  lemma {:induction false} MaterialsLineUp<M>(meshes: seq<Mesh<M>>, useIndex: bool, first: Mesh<M> -> M, j: nat, i: nat)
    requires IndexesUsable(Geometries(meshes), IndexMatters(Geometries(meshes), useIndex))
    requires AllDefined(Geometries(meshes))
    requires j < |meshes| && i < GroupCount(meshes[j].geometry)
    ensures var r := MergeMeshes(meshes, true, useIndex, first);
            var x := Geometries(meshes)[j];
            var at := Sum(GroupCounts(Geometries(meshes)[..j])) + i;
            r.Some? ==>
              at < |r.value.geometry.groups| && r.value.material.Several? &&
              var g := r.value.geometry.groups[at];
              var mats := r.value.material.materials;
              g.materialIndex.Some? && g.materialIndex.value < |mats| &&
              mats[g.materialIndex.value] ==
                OwnMaterial(meshes[j], OwnSlot(x, i), first(meshes[j]))
  {
    var gs := Geometries(meshes);
    MergeMeshesParts(meshes, true, useIndex, first);
    GroupMaterial(meshes, IndexMatters(gs, useIndex), first, j, i);
  }

  /** The group fold and the sorted materials agree: group `i` of mesh `j`
      names the entry of the sorted materials that holds its own material. */
  lemma GroupMaterial<M>(meshes: seq<Mesh<M>>, indexMatters: bool, first: Mesh<M> -> M, j: nat, i: nat)
    requires IndexesUsable(Geometries(meshes), indexMatters)
    requires AllDefined(Geometries(meshes))
    requires j < |meshes| && i < GroupCount(meshes[j].geometry)
    ensures var gs := Geometries(meshes);
            var groups := GroupsN(gs, |gs|, true, indexMatters).groups;
            var mats := SortMaterials(meshes, first);
            var x := gs[j];
            var at := Sum(GroupCounts(gs[..j])) + i;
            at < |groups| && groups[at].materialIndex.Some? && groups[at].materialIndex.value < |mats| &&
            mats[groups[at].materialIndex.value] ==
              OwnMaterial(meshes[j], OwnSlot(x, i), first(meshes[j]))
  {
    var gs := Geometries(meshes);
    var x := gs[j];
    GroupSlotAt(gs, |gs|, indexMatters, j, i);
    SortMaterialsAt(meshes, first, j, OwnSlot(x, i));
  }

  /** With groups built, a merged mesh's groups are those of the group fold
      and its materials are the sorted materials. */
  lemma {:induction false} MergeMeshesParts<M>(meshes: seq<Mesh<M>>, useGroups: bool, useIndex: bool, first: Mesh<M> -> M)
    requires IndexesUsable(Geometries(meshes), IndexMatters(Geometries(meshes), useIndex))
    ensures var r := MergeMeshes(meshes, useGroups, useIndex, first);
            var gs := Geometries(meshes);
            r.Some? ==>
              r.value.geometry.groups == GroupsN(gs, |gs|, useGroups, IndexMatters(gs, useIndex)).groups &&
              (useGroups ==> r.value.material == Several(SortMaterials(meshes, first)))
  {
  }

  /** When every group names its material index, group `i` of input `j`
      lands on the slot after all slots of the inputs before it plus its own
      material index (0 for a groupless input's one group), which is one of
      the input's slots. */
  lemma GroupSlotAt(inputs: seq<AttributesFull>, n: nat, indexMatters: bool, j: nat, i: nat)
    requires n <= |inputs|
    requires IndexesUsable(inputs, indexMatters)
    requires AllDefined(inputs)
    requires j < n && i < GroupCount(inputs[j])
    ensures var groups := GroupsN(inputs, n, true, indexMatters).groups;
            var at := Sum(GroupCounts(inputs[..j])) + i;
            var x := inputs[j];
            at < |groups| && OwnSlot(x, i) < Slots(x) &&
            groups[at].materialIndex == Some(Sum(SlotCounts(inputs[..j])) + OwnSlot(x, i))
  {
    var x := inputs[j];
    GroupAt(inputs, n, indexMatters, j, i);
    GroupSlots(inputs, j, indexMatters);
    var groups := GroupsN(inputs, n, true, indexMatters).groups;
    var at := Sum(GroupCounts(inputs[..j])) + i;
    var slot := GroupsN(inputs, j, true, indexMatters).nextMaterialIndex.GetOr(0);
    assert slot == Sum(SlotCounts(inputs[..j]));
    if |x.groups| > 0 {
      OwnSlotBelow(x, i);
      assert groups[at] == Moved(x.groups[i], Sum(CornerCounts(inputs[..j])), slot);
    } else {
      assert groups[at].materialIndex == Some(slot);
    }
  }

  /** A group's own material index is one of its input's slots. */
  lemma OwnSlotBelow(x: AttributesFull, i: nat)
    requires i < |x.groups| && x.groups[i].materialIndex.Some?
    ensures x.groups[i].materialIndex.value < Slots(x)
  {
    SlotsOfShape(x.groups);
    MaxIsLargest(SlotsOf(x.groups));
    assert SlotsOf(x.groups)[i] == x.groups[i].materialIndex.value;
  }
}
