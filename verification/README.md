# three-merge-split geometry engine, modelled in Dafny

This project models the buffer-level core of a small three.js toolkit that
cuts one mesh into several and merges several meshes into one. The model
covers these parts:

- **Splitter** (`src/Splitter/index.ts` and its static twin
  `src/utils/Splitter/index.ts`):
  - `split`: one geometry per draw group;
  - `splitByGroups`: one group by number, or the union of a list of groups;
  - `splitByMaterialIndex`: one geometry per distinct material index;
  - `assemble`: one group, as a flat slice or through the index;
  - `assembleByIndex`: the gather/remap step. The distinct requested vertices
    are sorted, the items are gathered in that order, and a remapped index is
    emitted only when some vertex is requested twice;
  - the choice of material in `splitMesh`.
- **Merger** (`src/Merger/index.ts`):
  - `merge` and its guard `areConsistent`;
  - the decision whether indices matter;
  - `spreadIndex`;
  - the left fold `mergeAttribtues`;
  - `sortMaterials`;
  - the material and group bookkeeping of `mergeMeshes`.
- **Ancestor walk** (`src/utils/ThreeUtils/index.ts`): the non-identity local
  matrices met while climbing from an object to the ancestor with a given id.

Modules:

| file | module | contents |
|---|---|---|
| `options.dfy` | `Options` | `Option`, for JavaScript's `null`/`undefined` |
| `seqs.dfy` | `Seqs` | `Array.prototype.slice` with its clamping (`JsSlice`), the run `getSortedIntegers`, items of a flat array, and lemmas on flattening, sums and sorted sequences |
| `buffers.dfy` | `Buffers` | the data model of `src/types/index.ts`: channels `normal`/`position`/`uv`, attributes, groups, geometries, meshes |
| `index_gather.dfy` | `IndexGather` | the sorted distinct values, the remap of requests, and the zero-filled gather |
| `splitter.dfy` | `Splitter` | both splitter classes: one model, because their algorithms are the same |
| `merger.dfy` | `Merger` | the merger |
| `ancestry.dfy` | `Ancestry` | the ancestor walk |

How the model represents the source:

- **Values.** Attribute values are `real` and are only copied. Group starts, counts and index entries are `nat`.
- **Undefined material index.** An undefined `materialIndex` is `None`. The source reads it as 0 in some places (`|| 0`) and keeps it as a value of its own in others (`new Set`). The model follows each place.
- **Crashes become preconditions.** Where the source would crash (for example, reading `groups[n]` for a group that does not exist), the model has a precondition instead.
- **The fold is split into three folds.** The source fold carries one accumulator. Its parts depend on each other in one direction only, so the model runs them as three folds over the same inputs:
  - the channels, which depend on nothing else;
  - the index, which carries the running `normal` count;
  - the groups, which read `accCount` off the index fold at the same step.

  `MergeAttributes` puts the three back together. The fold cannot compute a different result this way: each part of a step reads exactly the values the source reads.
- **Missing material.** `getFirstMaterial` lives in a module that is not part of this model. It is the parameter `first: Mesh<M> -> M`.
- **Matrices.** Matrices are values of a type parameter `M` that supports equality. `isIdentity` compares with an `identity` value, as `Matrix4.equals` does.
- **Scene hierarchy.** The hierarchy is the finite list of nodes from the object up to the root.

Two behaviours of the fold are modelled as written, and lemmas pin them down:

- **An undefined material index restarts the slots.** A group with an undefined `materialIndex` goes to slot 0 of the merged geometry, not to its input's first slot. The next free slot is then 1 past the largest slot of that input, so later inputs reuse slots that earlier inputs' materials occupy.
  - `Merger.UndefinedMaterialIndexRestartsSlots` states this.
  - `sortMaterials` still gives every mesh its own slots.
  - So merged groups draw with their own materials only when every group names its material index. `Merger.MaterialsLineUp` proves this under that condition.
- **An indexed input moves the next free index past its largest entry.** The step is to one past the input's largest shifted entry, not past its vertex count.
  - Entries stay aligned with the concatenated attributes only when each indexed input's largest entry is its vertex count minus one (`Merger.Tight`).
  - `Merger.LooseIndexFallsBehind` shows that the next free index falls behind the vertex count otherwise.
  - The closed forms of the merged index assume tight inputs.

Two more points of the code that the model follows:

- **Padding of `sortMaterials`.** `sortMaterials` pads a mesh's material array with `getFirstMaterial(mesh)`, not with its last entry (`src/Merger/index.ts:353-354`). `Merger.SlotMaterial` does the same.
- **Material slot numbering.** The slot lists line up with the fold's group numbering only when every group's material index is defined (see `Merger.UndefinedMaterialIndexRestartsSlots`).

## Model

The static splitter in `src/utils/Splitter/index.ts` runs the same
algorithms as the class in `src/Splitter/index.ts`, so each `Splitter` row
below covers both. The static twin's spans are:

- `split`: lines 25-30;
- `splitByMaterialIndex`: lines 32-44;
- `splitByGroups`: lines 47-86, with the single-number branch at lines 55-56 and its runs written inline at lines 78-81;
- the flat slice: lines 119-136;
- the remap: lines 143-150;
- the gather: lines 152-170.

| member | source | states |
|---|---|---|
| Seqs.JsSliceWindow | src/Splitter/index.ts:175-178 | `array.slice` with its clamping (`Seqs.JsSlice`) gives a window of the array starting at the begin bound, never longer than the distance between the bounds nor than the array, and exactly that long when both bounds lie inside |
| Seqs.SortedIntegersRun | src/Splitter/index.ts:134-137 | `getSortedIntegers(count, start)` (`Seqs.SortedIntegers`) has `count` values, strictly increasing, all within `start .. start + count - 1`, so exactly that run (written inline at `src/utils/Splitter/index.ts:78-81`) |
| Seqs.FindIndex | src/Splitter/index.ts:194-195 | `findIndex`: -1 exactly when the value is absent, else the first position holding it |
| Seqs.Distinct | src/Splitter/index.ts:90-92 | `Array.from(new Set(xs))`: each value once, in order of first appearance, and nothing else |
| Seqs.RepeatIffFewerElements | src/Splitter/index.ts:191-193 | a request has a repeated vertex exactly when its set of distinct values is smaller than the request |
| Seqs.StrictlyIncreasingUnique | src/Splitter/index.ts:191 | two ascending sequences of distinct values with the same values are equal, so the sorted set is unique |
| Seqs.ItemOfSlice | src/Splitter/index.ts:174-179 | for a slice of items `start .. start + count - 1` inside the array, item `i` of the slice is item `start + i` of the whole array |
| Buffers.PaddedItem | src/Splitter/index.ts:203-212 | a gathered item fills exactly `itemSize` slots of the zero-initialised `Float32Array`; an item inside the array is copied unchanged |
| IndexGather.SortedUnique | src/Splitter/index.ts:191 | the distinct requested vertices, strictly ascending, with exactly the request's values; fewer than the requests iff some vertex repeats |
| IndexGather.Remap | src/Splitter/index.ts:194-196 | one entry per request, each a position among the distinct values holding the requested vertex |
| IndexGather.GatherData | src/Splitter/index.ts:203-213 | `|u| * itemSize` values; item `i` is the source item at `u[i]`, zero-filled when it runs past the array |
| IndexGather.Gather | src/Splitter/index.ts:200-218 | same item size, `|u|` items, each the source item at `u[i]` when it lies inside the array |
| Splitter.AssembleByIndex | src/Splitter/index.ts:189-221 | the extraction has no groups and has an index exactly when the request repeats a vertex |
| Splitter.AssembleByIndexRemaps | src/Splitter/index.ts:193-197 | with a repeat, the index has one entry per request, each below the number of distinct vertices, and it leads back to the requested vertex |
| Splitter.AssembleByIndexGathers | src/Splitter/index.ts:200-213 | every channel holds one item per distinct requested vertex, in strictly ascending vertex order, each a copy of that source item |
| Splitter.AssembleByIndexCorners | src/Splitter/index.ts:191-213 | for a request of vertices inside the arrays, corner `k` shows the requested vertex through the index when there is a repeat, and the `k`-th smallest requested vertex when there is none |
| Splitter.DistinctRequestComesOutAscending | src/Splitter/index.ts:191-193 | requesting vertex 1 then vertex 0 gives no index and the items in the order `[vertex 0, vertex 1]` |
| Splitter.FlatRangeShape | src/Splitter/index.ts:174-179 | a flat slice keeps the item size and holds at most `count` items, exactly `count` inside the array |
| Splitter.FlatRangeItems | src/Splitter/index.ts:169-184 | inside the array, the flat slice holds exactly the group's `count` items, item `i` being source item `start + i` |
| Splitter.Assemble | src/Splitter/index.ts:158-187 | `assemble`: no groups, every item size kept, and an index exactly when the geometry is indexed and the group's slice of the index repeats a vertex (its items: `Splitter.FlatRangeItems`, `Splitter.AssembleByIndexCorners`) |
| Splitter.Split | src/Splitter/index.ts:81-86 | one geometry per group, in group order, each the extraction of that group |
| Splitter.SplitTilesFlatGeometry | src/Splitter/index.ts:158-187 | on an unindexed geometry whose groups cover the first vertices back to back, the pieces concatenate, channel by channel, to exactly those vertices |
| Splitter.FlatPiecesTile | src/Splitter/index.ts:174-179 | back-to-back flat ranges inside the array concatenate to the span they cover |
| Splitter.SplitByGroups | src/Splitter/index.ts:103-142 | `splitByGroups`: no groups, every item size kept; for a list of groups, an index exactly when the concatenated request repeats a vertex; one group of an unindexed geometry gives no index (the request: `Splitter.GroupRequestLayout`; the two paths agree: `Splitter.SingleGroupPathsAgree`) |
| Splitter.GroupRequestLayout | src/Splitter/index.ts:114-141 | for chosen groups that exist and whose slices lie inside the index, the request for a list of groups is the groups' slices of the index (or runs of vertices) back to back, in the order given, entry by entry |
| Splitter.SingleGroupPathsAgree | src/Splitter/index.ts:111-141 | choosing one group as a one-element list gives the same geometry as choosing it by number, for a group inside the arrays |
| Splitter.RunAssemblesFlat | src/Splitter/index.ts:129-141 | for a group inside the arrays, extracting its run of vertices through the index path gives its flat range, without an index |
| Splitter.GatherRunIsFlatRange | src/Splitter/index.ts:200-213 | for a group inside the array, gathering its run reproduces its flat slice |
| Splitter.GroupsWith | src/Splitter/index.ts:94-98 | the positions of the groups carrying a material index, ascending, and exactly those |
| Splitter.SplitByMaterialIndex | src/Splitter/index.ts:88-101 | one geometry per distinct material index, undefined counting as a value |
| Splitter.MaterialSplitPartitions | src/Splitter/index.ts:88-101 | every group's material index is listed, a group is in a value's list iff it carries that value, so it is in exactly one list, and values appear in order of first appearance |
| Splitter.SplitMesh | src/Splitter/index.ts:60-71 | one piece per group; with a material array, piece `i` gets the entry at its group's material index, or entry 0 when undefined; a single material is kept |
| Merger.ItemSizesLike | src/Merger/index.ts:287-298 | true iff every later input's channels have the first input's item sizes |
| Merger.AllCountsAgree | src/Merger/index.ts:300-309 | true iff in every input `position` and `uv` count as many items as `normal` |
| Merger.AreConsistent | src/Merger/index.ts:284-312 | true iff every channel has the first input's item size and every input's counts agree |
| Merger.SomeIndexRepeats | src/Merger/index.ts:153-155 | true iff some present input index has a repeated entry |
| Merger.IndexMatters | src/Merger/index.ts:152-156 | indices matter iff they are asked for and some input index repeats a vertex |
| Merger.SpreadIndex | src/Merger/index.ts:330-337 | `spreadIndex`: at most `itemSize` values per index entry, exactly that many when every entry lies inside the array (its items: `Merger.SpreadIndexItems`) |
| Merger.SpreadIndexItems | src/Merger/index.ts:330-337 | the expansion has at most `itemSize` values per entry; with every entry inside the array, exactly `|index| * itemSize`, item `m` being the source item at `index[m]` |
| Merger.ItemLength | src/Merger/index.ts:333-334 | a sliced item holds at most `itemSize` values, exactly that many inside the array |
| Merger.Merge | src/Merger/index.ts:131-143 | no result iff there is no input, some channel's item size differs from the first input's, or some input's counts disagree (what a result holds: `Merger.MergedChannel`, `Merger.MergedIndex`, `Merger.MergedGroups`) |
| Merger.MergeAttributes | src/Merger/index.ts:147-265 | `mergeAttribtues`: the result carries an index exactly when indices matter, a next material slot exactly when groups are asked for and no groups otherwise; every channel has the first input's item size and all channels count the same, the sum of the inputs' local counts |
| Merger.MergedChannel | src/Merger/index.ts:218-246 | every merged channel has the first input's item size and is, in input order, each input's array, expanded through its own index when indices do not matter |
| Merger.MergedIndex | src/Merger/index.ts:195-216 | the merged geometry has an index iff indices matter; with tight indices it is each input's local index, raised by the vertices before it, in input order |
| Merger.MergedGroups | src/Merger/index.ts:160-193 | no groups without `useGroups`; with it, one per input group, or one for a groupless input |
| Merger.ChannelClosedForm | src/Merger/index.ts:218-246 | after `n` inputs a channel has the first input's item size, the concatenation of what each input appends, and the sum of the inputs' `localCount`s as its count |
| Merger.IndexCounts | src/Merger/index.ts:195-216 | the index and next free index exist iff indices matter; the running count is the channels' count; `accCount` is the number of corners the inputs address |
| Merger.TightLocalIndex | src/Merger/index.ts:202-212 | a tight input's local index has one entry per corner, each below the vertices so far, and the next free index lands on the vertex count |
| Merger.IndexAligned | src/Merger/index.ts:199-216 | with tight indices the next free index always equals the running vertex count, and every merged entry addresses a vertex the channels hold |
| Merger.IndexClosedForm | src/Merger/index.ts:199-216 | with tight indices the merged index is every input's local index, each raised by the vertices of the inputs before it |
| Merger.IndexAt | src/Merger/index.ts:202-212 | with tight indices, entry `x` of input `j` sits after the corners of earlier inputs and is the input's own entry, or `x` for an unindexed input, plus the vertices of earlier inputs |
| Merger.NextIndexFollowsLargestEntry | src/Merger/index.ts:204-205 | an indexed input raises the vertex count by all its vertices but moves the next free index to one past its largest shifted entry |
| Merger.LooseIndexFallsBehind | src/Merger/index.ts:204-205 | after an input whose index never reaches its last vertex, the next free index is below the vertex count |
| Merger.NoGroups | src/Merger/index.ts:160-162 | without groups requested there are no groups and no next material slot |
| Merger.GroupTotal | src/Merger/index.ts:167-187 | with groups there is always a next material slot, and the groups number the sum of each input's own group count, or 1 for a groupless input |
| Merger.GroupsGrow | src/Merger/index.ts:244 | later steps only append groups |
| Merger.GroupAt | src/Merger/index.ts:163-187 | group `i` of input `j` lands after earlier inputs' groups, with its start moved by the corners they address, and its material index raised by the slot reached or set to 0 when undefined; a groupless input's group covers all its corners |
| Merger.RelocateShape | src/Merger/index.ts:167-187 | an input contributes its own groups, each moved, or one group over all it addresses |
| Merger.RelocatedSlots | src/Merger/index.ts:189-192 | with every material index defined, one input's groups leave the next free slot its slot count further on |
| Merger.GroupSlots | src/Merger/index.ts:189-192 | with every material index defined, the next free slot after `n` inputs is the total of their slot counts |
| Merger.UndefinedMaterialIndexRestartsSlots | src/Merger/index.ts:172-175 | an input whose groups all lack a material index puts them on slot 0 and resets the next free slot to 1, whatever slot was reached |
| Merger.GroupSlotAt | src/Merger/index.ts:168-192 | with every material index defined, group `i` of input `j` lands on the slots of earlier inputs plus its own material index, one of its input's slots |
| Merger.OwnSlotBelow | src/Merger/index.ts:344-348 | a group's own material index is below its input's slot count |
| Merger.PadMaterialsFills | src/Merger/index.ts:350-358 | the padding loop fills slot `k` with the mesh's material for that slot (array entry, else the first material; or the single material) up to the target |
| Merger.PendingMaterialsSlots | src/Merger/index.ts:343-361 | a mesh contributes one material per slot it uses: highest material index + 1 for a grouped mesh, 1 for a groupless one |
| Merger.SortMaterialsCount | src/Merger/index.ts:339-364 | `sortMaterials` (`Merger.SortMaterials`) holds one material per slot the meshes use (which material sits where: `Merger.SortMaterialsAt`) |
| Merger.SortMaterialsFlat | src/Merger/index.ts:339-364 | the sorted materials are the meshes' pending materials concatenated in order |
| Merger.SortMaterialsAt | src/Merger/index.ts:339-364 | slot `k` of mesh `j` is entry `slots of earlier meshes + k`, and there are as many entries as the meshes' slots |
| Merger.MergeMeshes | src/Merger/index.ts:67-114 | no result iff no mesh or the geometries do not merge; the first mesh's first material without groups; with groups one material per slot |
| Merger.GroupMaterial | src/Merger/index.ts:339-364 | with every material index defined, group `i` of mesh `j` names the entry of the sorted materials holding its own material |
| Merger.MaterialsLineUp | src/Merger/index.ts:109-111 | with every material index defined, each merged group draws with the material its group drew with in its own mesh |
| Ancestry.WalkShape | src/utils/ThreeUtils/index.ts:40-54 | the recursive walk (`Ancestry.Walk`) returns nothing, or what was gathered followed by more; it adds no identity matrix and at most one matrix per node |
| Ancestry.AncestralTransformations | src/utils/ThreeUtils/index.ts:31-36 | no identity matrix is returned, and at most one matrix per node of the chain (the exact list: `Ancestry.AncestralTransformationsAreFiltered`) |
| Ancestry.FindNode | src/utils/ThreeUtils/index.ts:47 | a found position lies inside the chain |
| Ancestry.FindNodeFirst | src/utils/ThreeUtils/index.ts:47 | the node found has the wanted id and no earlier node has it; nothing is found iff no node has it |
| Ancestry.MatricesElements | src/utils/ThreeUtils/index.ts:46 | a matrix is kept iff it is not the identity and some node carries it; no more matrices than nodes |
| Ancestry.WalkFound | src/utils/ThreeUtils/index.ts:40-54 | when the id is found, the walk returns what was gathered followed by the non-identity matrices up to and including the first match |
| Ancestry.WalkNotFound | src/utils/ThreeUtils/index.ts:48 | when no node has the id, the walk returns nothing, whatever was gathered |
| Ancestry.AncestralTransformationsAreFiltered | src/utils/ThreeUtils/index.ts:31-54 | the result is the non-identity matrices from the object up to the first match, nearest first, or empty without a match |
| Ancestry.AncestralTransformationsContents | src/utils/ThreeUtils/index.ts:44-58 | no identity matrix is returned; a matrix is returned iff it is a non-identity matrix of a node up to the match; at most that many; none without a match |

## Left out

- `applyTransforms`, `updateMatrix` and matrix products: floating-point numerics in a module that is not part of this model. This leaves out the ancestor-id branch of `mergeMeshes` (`src/Merger/index.ts:88-106`) and the baking of transforms in `splitMesh`. The model takes each node's matrix as given.
- `centerGeometryAndShiftMesh`: bounding boxes and vector arithmetic in floating point.
- The `Float32Array` narrowing of attribute values, three.js object construction and `clone()`. The model uses plain records, and the values are copied unchanged.
- Merger.Build: the merger's `assemble` (`src/Merger/index.ts:314-328`) only builds the three.js geometry from the accumulator. It has no row of its own; what the built geometry holds is stated by `Merger.MergedChannel`, `Merger.MergedIndex` and `Merger.MergedGroups`.
- The `isMesh` test of `mergeMeshes`: the model takes plain meshes.
- `src/utils/Merger/index.ts`, `src/utils/CanvasManager` and `src/App.tsx`: a wrapper over a library merge, the render loop and the UI.
- `getFirstMaterial`: not part of this model. It is the parameter `first`.
- Merger.Merge, Merger.MergeAttributes, Merger.MergeMeshes: an indexed input with an empty index, while indices matter, makes the source take the largest of no entries (`-Infinity`). The precondition `IndexesUsable`, which all three carry, excludes this case.
- Splitter.SplitByGroups: a group number with no group makes the source read a field of `undefined`. The precondition `ValidSelection` excludes this case.
- Merger.SpreadIndexItems: the items are stated only when every index entry lies inside the array. Outside it, only the length bound is stated.
- Splitter.AssembleByIndexGathers: the copy is stated only for vertices inside the array. `IndexGather.GatherData` states the zero fill beyond it.
- Merger.IndexClosedForm, Merger.IndexAt: stated only for tight input indices. Without them the entries are shifted by the next free index, which `Merger.NextIndexFollowsLargestEntry` and `Merger.LooseIndexFallsBehind` describe step by step.
- Merger.MaterialsLineUp: stated only when every group names its material index. Otherwise the numbering does not line up (see `Merger.UndefinedMaterialIndexRestartsSlots`).
- Ancestry.AncestralTransformations: the source returns the meshes' own matrix objects, not clones (`src/utils/ThreeUtils/index.ts:27-28`). The model returns matrix values, so sharing with the meshes is not modelled.
- `Math.max(...xs)` over very long arrays, which can exceed the engine's argument limit, and 53-bit integer limits: the model's integers are unbounded.
