/** The splitter: cuts one geometry into several, one per draw group, one per
    union of chosen groups, or one per distinct material index. A group of an
    unindexed geometry is a plain slice; everything else goes through
    index-based extraction. */
module Splitter {
  import opened Options
  import opened Seqs
  import opened Buffers
  import opened IndexGather

  /** Every channel gathered at the same distinct vertices. */
  function GatherAll(attrs: Channels<Attribute>, u: seq<nat>): (r: Channels<Attribute>)
    ensures forall p :: r.Get(p) == Gather(attrs.Get(p), u)
  {
    Channels(Gather(attrs.normal, u), Gather(attrs.position, u), Gather(attrs.uv, u))
  }

  /** Index-based extraction (`assembleByIndex`): the attributes are gathered
      at the distinct requested vertices in ascending order; an index mapping
      each request to its position among them is emitted only when some
      vertex is requested twice. */
  function AssembleByIndex(attrs: Channels<Attribute>, request: seq<nat>): (g: Geometry)
    ensures g.groups == []
    ensures g.index.Some? <==> HasRepeat(request)
  {
    var u := SortedUnique(request);
    assert forall k :: 0 <= k < |request| ==> request[k] in Elements(request);
    var index := if |u| != |request| then Some(Remap(u, request)) else None;
    Geometry(GatherAll(attrs, u), index, [])
  }

  /** With a repeat, the emitted index has one entry per request, each entry
      points into the distinct values, and it points at the requested vertex. */
  lemma AssembleByIndexRemaps(attrs: Channels<Attribute>, request: seq<nat>)
    requires HasRepeat(request)
    ensures var g := AssembleByIndex(attrs, request);
            var u := SortedUnique(request);
            g.index.Some? && |g.index.value| == |request| &&
            forall k :: 0 <= k < |request| ==> g.index.value[k] < |u| && u[g.index.value[k]] == request[k]
  {
  }

  /** Every channel of the extraction holds one item per distinct requested
      vertex, in ascending vertex order, each a copy of that source item. */
  lemma AssembleByIndexGathers(attrs: Channels<Attribute>, request: seq<nat>, p: Property)
    ensures var out := AssembleByIndex(attrs, request).attributes.Get(p);
            var u := SortedUnique(request);
            out.itemSize == attrs.Get(p).itemSize &&
            |out.data| == |Elements(request)| * attrs.Get(p).itemSize &&
            StrictlyIncreasing(u) && Elements(u) == Elements(request) &&
            forall i :: 0 <= i < |u| && ItemInRange(attrs.Get(p), u[i]) ==> Item(out, i) == Item(attrs.Get(p), u[i])
  {
  }

  /** What corner `k` of the extraction shows. With a repeat, the corner goes
      through the emitted index and shows the requested vertex `request[k]`.
      Without one there is no index and corner `k` shows the `k`-th smallest
      requested vertex: the corners come out in ascending vertex order, not in
      request order. */
  lemma AssembleByIndexCorners(attrs: Channels<Attribute>, request: seq<nat>, p: Property, k: nat)
    requires k < |request|
    requires forall j :: 0 <= j < |request| ==> ItemInRange(attrs.Get(p), request[j])
    ensures var g := AssembleByIndex(attrs, request);
            var out := g.attributes.Get(p);
            (g.index.Some? ==> k < |g.index.value| && Item(out, g.index.value[k]) == Item(attrs.Get(p), request[k])) &&
            (g.index.None? ==> k < |SortedUnique(request)| && Item(out, k) == Item(attrs.Get(p), SortedUnique(request)[k]))
  {
    var g := AssembleByIndex(attrs, request);
    var u := SortedUnique(request);
    var a := attrs.Get(p);
    assert g.attributes.Get(p) == Gather(a, u);
    if g.index.Some? {
      AssembleByIndexRemaps(attrs, request);
      var m := g.index.value[k];
      assert u[m] == request[k];
    } else {
      assert u[k] in Elements(request);
      var j :| 0 <= j < |request| && request[j] == u[k];
    }
  }

  /** A request of distinct vertices given out of order comes back in ascending
      order and without an index: requesting vertex 1 then vertex 0 of a
      one-wide attribute `[x, y]` yields `[x, y]`, not `[y, x]`. An
      illustration of the reordering; `AssembleByIndexCorners` states the
      general property. */
  lemma DistinctRequestComesOutAscending(x: real, y: real)
    ensures var a := Attribute([x, y], 1);
            var g := AssembleByIndex(Channels(a, a, a), [1, 0]);
            g.index.None? && g.attributes.normal.data == [x, y]
  {
    var request: seq<nat> := [1, 0];
    var u := SortedUnique(request);
    SortedUniqueOneZero();
    var a := Attribute([x, y], 1);
    var out := Gather(a, u);
    assert Item(out, 0) == [x] && Item(out, 1) == [y];
    assert out.data == [x, y] by {
      assert out.data[0..1] == [x];
      assert out.data[1..2] == [y];
    }
  }

  lemma SortedUniqueOneZero()
    ensures SortedUnique([1, 0]) == [0, 1]
  {
    var request: seq<nat> := [1, 0];
    var u := SortedUnique(request);
    var v: seq<nat> := [0, 1];
    assert Elements(request) == Elements(v) by {
      assert request[0] == v[1] && request[1] == v[0];
    }
    StrictlyIncreasingUnique(u, v);
  }

  /** The items `start .. start + count - 1` of one attribute of an unindexed geometry. */
  function FlatRange(a: Attribute, group: Group): Attribute {
    Attribute(JsSlice(a.data, group.start * a.itemSize, (group.start + group.count) * a.itemSize), a.itemSize)
  }

  /** A flat range keeps the item size and holds at most the group's
      `count` items, exactly that many when the group lies inside the
      attribute. */
  lemma FlatRangeShape(a: Attribute, group: Group)
    ensures FlatRange(a, group).itemSize == a.itemSize
    ensures |FlatRange(a, group).data| <= group.count * a.itemSize
    ensures (group.start + group.count) * a.itemSize <= |a.data| ==>
              |FlatRange(a, group).data| == group.count * a.itemSize
  {
    MulAdd(group.start, group.count, a.itemSize);
  }

  /** Within the attribute, the flat range holds exactly the group's `count`
      items, item `i` being source item `start + i`. */
  lemma FlatRangeItems(a: Attribute, group: Group)
    requires (group.start + group.count) * a.itemSize <= |a.data|
    ensures |FlatRange(a, group).data| == group.count * a.itemSize
    ensures forall i :: 0 <= i < group.count ==> Item(FlatRange(a, group), i) == Item(a, group.start + i)
  {
    var k := a.itemSize;
    FlatRangeAt(a, group);
    FlatRangeShape(a, group);
    forall i | 0 <= i < group.count
      ensures Item(FlatRange(a, group), i) == Item(a, group.start + i)
    {
      ItemOfSlice(a.data, k, group.start, group.count, i);
    }
  }

  /** Every channel cut to the same flat range. */
  function FlatAll(attrs: Channels<Attribute>, group: Group): (r: Channels<Attribute>)
    ensures forall p :: r.Get(p) == FlatRange(attrs.Get(p), group)
  {
    Channels(FlatRange(attrs.normal, group), FlatRange(attrs.position, group), FlatRange(attrs.uv, group))
  }

  /** Extraction of one group (`assemble`): the group's slice of the index
      through index-based extraction, or the group's items of every channel. */
  function Assemble(group: Group, attrs: Channels<Attribute>, index: Option<seq<nat>>): (r: Geometry)
    ensures r.groups == []
    ensures r.index.Some? <==> index.Some? && HasRepeat(JsSlice(index.value, group.start, group.start + group.count))
    ensures forall p :: r.attributes.Get(p).itemSize == attrs.Get(p).itemSize
  {
    match index
    case Some(ix) => AssembleByIndex(attrs, JsSlice(ix, group.start, group.start + group.count))
    case None =>
      Geometry(FlatAll(attrs, group), None, [])
  }

  /** `split`: one geometry per group, in group order. */
  function Split(g: AttributesFull): (r: seq<Geometry>)
    ensures |r| == |g.groups|
    ensures forall i :: 0 <= i < |r| ==> r[i] == Assemble(g.groups[i], AttributesOf(g), g.index)
  {
    seq(|g.groups|, i requires 0 <= i < |g.groups| => Assemble(g.groups[i], AttributesOf(g), g.index))
  }

  /** The argument of `splitByGroups`: one group number, or a list of them. */
  datatype GroupSelection = OneGroup(group: nat) | GroupList(groups: seq<nat>)

  /** Every chosen group exists (otherwise the source reads `start` of `undefined`). */
  predicate ValidSelection(groups: seq<Group>, sel: GroupSelection) {
    match sel
    case OneGroup(n) => n < |groups|
    case GroupList(ns) => forall j :: 0 <= j < |ns| ==> ns[j] < |groups|
  }

  /** The vertices one group requests: its slice of the index, or its run of vertices. */
  function RangeRequest(group: Group, index: Option<seq<nat>>): seq<nat> {
    match index
    case Some(ix) => JsSlice(ix, group.start, group.start + group.count)
    case None => SortedIntegers(group.count, group.start)
  }

  /** The reduce of `splitByGroups`: the chosen groups' requests concatenated in the order given. */
  function GroupRequest(groups: seq<Group>, index: Option<seq<nat>>, chosen: seq<nat>): seq<nat>
    requires forall j :: 0 <= j < |chosen| ==> chosen[j] < |groups|
  {
    Flatten(seq(|chosen|, j requires 0 <= j < |chosen| => RangeRequest(groups[chosen[j]], index)))
  }

  /** `splitByGroups`: one group through `assemble`, a list of groups through
      index-based extraction of their concatenated requests. */
  function SplitByGroups(g: AttributesFull, sel: GroupSelection): (r: Geometry)
    requires ValidSelection(g.groups, sel)
    ensures r.groups == []
    ensures forall p :: r.attributes.Get(p).itemSize == g.attributes.Get(p).itemSize
    ensures sel.GroupList? ==> (r.index.Some? <==> HasRepeat(GroupRequest(g.groups, g.index, sel.groups)))
    ensures sel.OneGroup? && g.index.None? ==> r.index.None?
  {
    match sel
    case OneGroup(n) => Assemble(g.groups[n], AttributesOf(g), g.index)
    case GroupList(ns) => AssembleByIndex(AttributesOf(g), GroupRequest(g.groups, g.index, ns))
  }

  /** The material index of every group, in group order. */
  function MaterialIndexesOf(groups: seq<Group>): (r: seq<Option<nat>>)
    ensures |r| == |groups|
    ensures forall i :: 0 <= i < |groups| ==> r[i] == groups[i].materialIndex
  {
    seq(|groups|, i requires 0 <= i < |groups| => groups[i].materialIndex)
  }

  /** The reduce of `splitByMaterialIndex`: the positions of the groups whose
      material index is `m` (undefined matching undefined), ascending. */
  function GroupsWith(groups: seq<Group>, m: Option<nat>): (r: seq<nat>)
    ensures StrictlyIncreasing(r)
    ensures forall q: nat :: q in r <==> q < |groups| && groups[q].materialIndex == m
    decreases |groups|
  {
    if |groups| == 0 then []
    else
      var n := |groups| - 1;
      var front := GroupsWith(groups[..n], m);
      assert forall q: nat :: q < n ==> groups[..n][q] == groups[q];
      if groups[n].materialIndex == m then
        assert forall i :: 0 <= i < |front| ==> front[i] in front;
        front + [n]
      else front
  }

  /** `splitByMaterialIndex`: one geometry per distinct material index, in order
      of first appearance, each extracted from every group carrying it. */
  function SplitByMaterialIndex(g: AttributesFull): (r: seq<Geometry>)
    ensures |r| == |Elements(MaterialIndexesOf(g.groups))|
  {
    var values := Distinct(MaterialIndexesOf(g.groups));
    RepeatIffFewerElements(values);
    assert forall i :: 0 <= i < |values| ==> ValidSelection(g.groups, GroupList(GroupsWith(g.groups, values[i]))) by {
      forall i | 0 <= i < |values|
        ensures ValidSelection(g.groups, GroupList(GroupsWith(g.groups, values[i])))
      {
        var ns := GroupsWith(g.groups, values[i]);
        assert forall j :: 0 <= j < |ns| ==> ns[j] in ns;
      }
    }
    seq(|values|, i requires 0 <= i < |values| =>
      SplitByGroups(g, GroupList(GroupsWith(g.groups, values[i]))))
  }

  /** A piece of a split mesh: its geometry and its single material, `None`
      when the lookup in the material array finds nothing (`undefined`). */
  datatype MeshPart<M> = MeshPart(geometry: Geometry, material: Option<M>)

  /** The material `splitMesh` gives the piece cut from `group`: a single
      material is kept; from a material array the entry at the group's
      material index, or entry 0 when the index is undefined. */
  function PartMaterial<M>(material: MaterialSpec<M>, group: Group): Option<M> {
    match material
    case Single(m) => Some(m)
    case Several(ms) =>
      var slot := group.materialIndex.GetOr(0);
      if slot < |ms| then Some(ms[slot]) else None
  }

  /** `splitMesh` without the baking of ancestral transforms and the centering:
      one piece per group, in group order, each with its group's material. */
  function SplitMesh<M>(mesh: Mesh<M>): (r: seq<MeshPart<M>>)
    ensures |r| == |mesh.geometry.groups|
    ensures forall i :: 0 <= i < |r| ==> r[i].geometry == Split(mesh.geometry)[i]
    ensures forall i :: 0 <= i < |r| && mesh.material.Several? ==>
              var ms := mesh.material.materials;
              var mi := mesh.geometry.groups[i].materialIndex;
              (mi.None? && |ms| > 0 ==> r[i].material == Some(ms[0])) &&
              (mi.Some? && mi.value < |ms| ==> r[i].material == Some(ms[mi.value]))
    ensures forall i :: 0 <= i < |r| && mesh.material.Single? ==> r[i].material == Some(mesh.material.material)
  {
    var pieces := Split(mesh.geometry);
    seq(|pieces|, i requires 0 <= i < |pieces| =>
      MeshPart(pieces[i], PartMaterial(mesh.material, mesh.geometry.groups[i])))
  }

  // ---------------------------------------------------------------------
  // Properties of splitting.

  /** Sum of the groups' counts. */
  function CountSum(groups: seq<Group>): nat {
    if |groups| == 0 then 0 else groups[0].count + CountSum(groups[1..])
  }

  /** The groups cover the vertices from `from` on back to back, in order. */
  predicate TilesFrom(groups: seq<Group>, from: nat)
    decreases |groups|
  {
    |groups| == 0 || (groups[0].start == from && TilesFrom(groups[1..], from + groups[0].count))
  }

  function FlatPieces(a: Attribute, groups: seq<Group>): seq<seq<real>> {
    seq(|groups|, i requires 0 <= i < |groups| => FlatRange(a, groups[i]).data)
  }

  /** Back-to-back flat ranges concatenate to the whole span they cover. */
  lemma {:induction false} FlatPiecesTile(a: Attribute, groups: seq<Group>, from: nat)
    requires TilesFrom(groups, from)
    requires (from + CountSum(groups)) * a.itemSize <= |a.data|
    ensures from * a.itemSize <= (from + CountSum(groups)) * a.itemSize
    ensures Flatten(FlatPieces(a, groups)) == a.data[from * a.itemSize .. (from + CountSum(groups)) * a.itemSize]
  {
    var k := a.itemSize;
    MulMono(from, from + CountSum(groups), k);
    if |groups| > 0 {
      var g := groups[0];
      var next := from + g.count;
      assert FlatPieces(a, groups)[1..] == FlatPieces(a, groups[1..]);
      MulMono(next, from + CountSum(groups), k);
      FlatPiecesTile(a, groups[1..], next);
      FlatRangeAt(a, g);
      assert from + CountSum(groups) == next + CountSum(groups[1..]);
      var lo, mid, hi := from * k, next * k, (from + CountSum(groups)) * k;
      assert Flatten(FlatPieces(a, groups)) == a.data[lo .. mid] + a.data[mid .. hi];
      assert a.data[lo .. mid] + a.data[mid .. hi] == a.data[lo .. hi];
    }
  }

  /** A flat range inside the attribute is the slice of its items. */
  lemma FlatRangeAt(a: Attribute, g: Group)
    requires (g.start + g.count) * a.itemSize <= |a.data|
    ensures g.start * a.itemSize <= (g.start + g.count) * a.itemSize
    ensures FlatRange(a, g).data == a.data[g.start * a.itemSize .. (g.start + g.count) * a.itemSize]
  {
    MulAdd(g.start, g.count, a.itemSize);
  }

  /** Channel `p` of every piece. */
  function ChannelData(pieces: seq<Geometry>, p: Property): seq<seq<real>> {
    seq(|pieces|, i requires 0 <= i < |pieces| => pieces[i].attributes.Get(p).data)
  }

  /** On an unindexed geometry whose groups cover its first `N` vertices back to
      back, the pieces of `split` concatenate, channel by channel, to exactly
      those vertices: nothing is lost, duplicated or reordered. */
  lemma SplitTilesFlatGeometry(g: AttributesFull, p: Property)
    requires g.index.None?
    requires TilesFrom(g.groups, 0)
    requires CountSum(g.groups) * g.attributes.Get(p).itemSize <= |g.attributes.Get(p).data|
    ensures Flatten(ChannelData(Split(g), p)) ==
              g.attributes.Get(p).data[..CountSum(g.groups) * g.attributes.Get(p).itemSize]
  {
    var a := AttributesOf(g).Get(p);
    var pieces := Split(g);
    forall i | 0 <= i < |pieces|
      ensures ChannelData(pieces, p)[i] == FlatPieces(a, g.groups)[i]
    {
      assert pieces[i] == Geometry(FlatAll(AttributesOf(g), g.groups[i]), None, []);
    }
    assert ChannelData(pieces, p) == FlatPieces(a, g.groups);
    FlatPiecesTile(a, g.groups, 0);
  }

  /** The counts of the chosen groups, in the order chosen. */
  function ChosenCounts(groups: seq<Group>, chosen: seq<nat>): seq<nat>
    requires forall j :: 0 <= j < |chosen| ==> chosen[j] < |groups|
  {
    seq(|chosen|, j requires 0 <= j < |chosen| => groups[chosen[j]].count)
  }

  /** Every chosen group's slice lies inside the index, when there is one. */
  predicate RequestsInRange(groups: seq<Group>, index: Option<seq<nat>>, chosen: seq<nat>)
    requires forall j :: 0 <= j < |chosen| ==> chosen[j] < |groups|
  {
    index.Some? ==> forall j :: 0 <= j < |chosen| ==> groups[chosen[j]].start + groups[chosen[j]].count <= |index.value|
  }

  /** The request `splitByGroups` builds from a list of groups is their
      requests back to back in the order given: entry `x` of the `j`-th chosen
      group sits after the counts of the groups chosen before it, and is that
      group's index entry `start + x` (indexed) or vertex `start + x` (unindexed). */
  lemma GroupRequestLayout(groups: seq<Group>, index: Option<seq<nat>>, chosen: seq<nat>, j: nat, x: nat)
    requires forall i :: 0 <= i < |chosen| ==> chosen[i] < |groups|
    requires RequestsInRange(groups, index, chosen)
    requires j < |chosen| && x < groups[chosen[j]].count
    ensures var r := GroupRequest(groups, index, chosen);
            var g := groups[chosen[j]];
            var at := Sum(ChosenCounts(groups, chosen[..j])) + x;
            |r| == Sum(ChosenCounts(groups, chosen)) && at < |r| &&
            r[at] == (if index.Some? then index.value[g.start + x] else g.start + x)
  {
    var pieces := seq(|chosen|, i requires 0 <= i < |chosen| => RangeRequest(groups[chosen[i]], index));
    var counts := ChosenCounts(groups, chosen);
    assert forall i :: 0 <= i < |chosen| ==> |pieces[i]| == counts[i];
    FlattenLength(pieces, counts);
    FlattenAt(pieces, j, x);
    assert counts[..j] == ChosenCounts(groups, chosen[..j]);
    FlattenLength(pieces[..j], counts[..j]);
  }

  /** A run of vertices is already its own sorted set of distinct values. */
  lemma RunIsSortedUnique(count: nat, start: nat)
    ensures SortedUnique(SortedIntegers(count, start)) == SortedIntegers(count, start)
  {
    var run := SortedIntegers(count, start);
    SortedIntegersRun(count, start);
    StrictlyIncreasingUnique(SortedUnique(run), run);
  }

  lemma ItemOfGroupInRange(a: Attribute, group: Group, i: nat)
    requires (group.start + group.count) * a.itemSize <= |a.data|
    requires i < group.count
    ensures ItemInRange(a, group.start + i)
  {
    MulMono(group.start + i + 1, group.start + group.count, a.itemSize);
  }

  lemma GatherRunItem(a: Attribute, group: Group, i: nat)
    requires (group.start + group.count) * a.itemSize <= |a.data|
    requires i < group.count
    ensures Item(Gather(a, SortedIntegers(group.count, group.start)), i) == Item(a, group.start + i)
  {
    var u := SortedIntegers(group.count, group.start);
    ItemOfGroupInRange(a, group, i);
    assert u[i] == group.start + i;
  }

  /** Gathering the run of a group's vertices reproduces its flat range when
      the group lies inside the attribute. */
  lemma GatherRunIsFlatRange(a: Attribute, group: Group)
    requires (group.start + group.count) * a.itemSize <= |a.data|
    ensures Gather(a, SortedUnique(SortedIntegers(group.count, group.start))) == FlatRange(a, group)
  {
    var k := a.itemSize;
    var u := SortedIntegers(group.count, group.start);
    RunIsSortedUnique(group.count, group.start);
    var gathered := Gather(a, u);
    var flat := FlatRange(a, group);
    FlatRangeItems(a, group);
    forall i | 0 <= i < group.count
      ensures Item(gathered, i) == Item(flat, i)
    {
      GatherRunItem(a, group, i);
    }
    AttributesDetermined(gathered, flat, group.count);
  }

  /** Choosing one group as a one-element list gives the same geometry as
      choosing it by number, provided an unindexed group lies inside every
      channel (an indexed group takes the same request on both paths). */
  lemma SingleGroupPathsAgree(g: AttributesFull, n: nat)
    requires n < |g.groups|
    requires g.index.None? ==> forall p :: (g.groups[n].start + g.groups[n].count) * g.attributes.Get(p).itemSize <= |g.attributes.Get(p).data|
    ensures SplitByGroups(g, GroupList([n])) == SplitByGroups(g, OneGroup(n))
  {
    var group := g.groups[n];
    var attrs := AttributesOf(g);
    SingleGroupRequest(g.groups, g.index, n);
    if g.index.None? {
      forall p
        ensures (group.start + group.count) * attrs.Get(p).itemSize <= |attrs.Get(p).data|
      {
        assert attrs.Get(p) == Strip(g.attributes.Get(p));
      }
      RunAssemblesFlat(attrs, group);
    }
  }

  /** Index-based extraction of a group's run of vertices is the group's
      flat range of every channel, without an index. */
  lemma RunAssemblesFlat(attrs: Channels<Attribute>, group: Group)
    requires forall p :: (group.start + group.count) * attrs.Get(p).itemSize <= |attrs.Get(p).data|
    ensures AssembleByIndex(attrs, SortedIntegers(group.count, group.start)) == Geometry(FlatAll(attrs, group), None, [])
  {
    RunIsSortedUnique(group.count, group.start);
    GatherAllRunIsFlatAll(attrs, group);
  }

  /** A list of one group requests exactly that group's range. */
  lemma SingleGroupRequest(groups: seq<Group>, index: Option<seq<nat>>, n: nat)
    requires n < |groups|
    ensures GroupRequest(groups, index, [n]) == RangeRequest(groups[n], index)
  {
    var pieces := seq(1, i requires 0 <= i < 1 => RangeRequest(groups[[n][i]], index));
    assert pieces == [RangeRequest(groups[n], index)];
    assert Flatten(pieces) == pieces[0] + Flatten(pieces[1..]);
  }

  /** Every channel gathered at a group's run equals every channel cut to the group. */
  lemma GatherAllRunIsFlatAll(attrs: Channels<Attribute>, group: Group)
    requires forall p :: (group.start + group.count) * attrs.Get(p).itemSize <= |attrs.Get(p).data|
    ensures GatherAll(attrs, SortedUnique(SortedIntegers(group.count, group.start))) == FlatAll(attrs, group)
  {
    var u := SortedUnique(SortedIntegers(group.count, group.start));
    var x, y := GatherAll(attrs, u), FlatAll(attrs, group);
    forall p
      ensures x.Get(p) == y.Get(p)
    {
      GatherRunIsFlatRange(attrs.Get(p), group);
    }
    assert x.Get(Normal) == y.Get(Normal) && x.Get(Position) == y.Get(Position) && x.Get(Uv) == y.Get(Uv);
  }

  /** `splitByMaterialIndex` partitions the groups: every group's material
      index is one of the distinct values, a group is in the list of a value
      exactly when it carries that value (so in exactly one list), and the
      distinct values are listed in order of first appearance. */
  lemma MaterialSplitPartitions(groups: seq<Group>)
    ensures var mats := MaterialIndexesOf(groups);
            var values := Distinct(mats);
            (forall q: nat :: q < |groups| ==> groups[q].materialIndex in values) &&
            (forall q: nat, i :: 0 <= i < |values| ==>
               (q in GroupsWith(groups, values[i]) <==> q < |groups| && groups[q].materialIndex == values[i])) &&
            (forall q: nat, i, i' :: (0 <= i < |values| && 0 <= i' < |values| &&
               q in GroupsWith(groups, values[i]) && q in GroupsWith(groups, values[i'])) ==> i == i') &&
            (forall i, i' :: 0 <= i < i' < |values| ==> FindIndex(mats, values[i]) < FindIndex(mats, values[i']))
  {
    var mats := MaterialIndexesOf(groups);
    var values := Distinct(mats);
    forall q: nat | q < |groups|
      ensures groups[q].materialIndex in values
    {
      assert mats[q] in Elements(values);
    }
  }
}
