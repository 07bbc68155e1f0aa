# Pipeline layout merging in bevy_render

A Dafny model of `crates/bevy_render/src/pipeline/pipeline_layout.rs` from bevy's renderer:

- `PipelineLayout::from_shader_layouts` merges the reflected layouts of a pipeline's shader
  stages into one `PipelineLayout`. Bind groups with the same index are merged binding by
  binding. A later binding must equal the first binding the merged group already holds in the
  same slot, otherwise the merge panics. A binding for a free slot is appended. The first stage whose group has an index
  contributes that group verbatim. That first group is stored without any check, so a slot it
  repeats within itself is kept twice. Later groups are checked only against the first binding
  in each slot. The merged groups are drained from a `HashMap` and sorted by index. The vertex
  buffer descriptors are copied from the first stage.
- `PipelineLayout::sync_vertex_buffer_descriptors` walks the layout's vertex buffer descriptors
  in order. It synchronises each one with the registry's descriptor of the same name, and
  panics at the first name the registry lacks. Descriptors synchronised before the panic stay
  synchronised.
- `UniformPropertyType::get_size` computes the unpadded byte size of a uniform type.

The modules follow the structure of the code:

- `Wrappers` holds `Option`, `Result` and `Outcome`.
- `Descriptors` holds the external layout types as far as this file uses them: a binding has a
  slot (`index`) and an opaque payload `P` compared by equality. A vertex buffer descriptor has
  a name and opaque attribute data `A`.
- `MergeSpec` is the reference definition of the merge loops: folds over the bind groups of all
  stages in visiting order, with their properties.
- `Ordering` holds the sorted drain of the accumulator and the in-place sort on an array.
- `LayoutMerger` holds the loops of `from_shader_layouts`, proved against `MergeSpec` and
  `Ordering`, and the properties of the merged result stated over the input stages.
- `Pipeline` holds the `PipelineLayout` class, with its constructor, `FromShaderLayouts` and
  the in-place `SyncVertexBufferDescriptors`.
- `UniformSize` holds `get_size`, with its `u64` arithmetic written out.
- `MergeExamples` holds worked merges of small layouts.

A panic becomes an error value: `LayoutError` for `from_shader_layouts` and `SyncError` for the
sync. The `HashMap`'s iteration order during the drain is left open: the model picks entries in
an arbitrary order, and the proof shows the sorted result does not depend on that order.

## Model

| member | source | states |
|---|---|---|
| `MergeSpec.FindBinding` | crates/bevy_render/src/pipeline/pipeline_layout.rs:20-23 | The result is the first binding in the group whose slot matches, and it is `None` exactly when no binding occupies that slot |
| `MergeSpec.MergeBinding` | crates/bevy_render/src/pipeline/pipeline_layout.rs:19-31 | Merging one binding fails exactly when the first binding already in its slot differs from it, and the error names the group and both bindings. A taken slot with an equal binding leaves the group unchanged. A free slot gets the binding appended. On success the group keeps its index and its old bindings as a prefix, and the slot resolves to the binding |
| `MergeSpec.MergeBindings` | crates/bevy_render/src/pipeline/pipeline_layout.rs:19-31 | Merging a stage's bindings into a group keeps the group's index and keeps its earlier bindings as a prefix |
| `MergeSpec.MergeGroups` | crates/bevy_render/src/pipeline/pipeline_layout.rs:15-38 | Handling the groups in visiting order ends, on success, with the starting keys plus every index met. An index not met keeps its group |
| `MergeSpec.MergeGroupsAppend` | crates/bevy_render/src/pipeline/pipeline_layout.rs:15-38 | Merging the groups of several stages is merging the first stage's groups and then the rest into that result, stopping at the first mismatch |
| `MergeSpec.MergeGroup` | crates/bevy_render/src/pipeline/pipeline_layout.rs:17-36 | Handling one group adds its index to the accumulator's keys, leaves every other index untouched, and keeps each group stored under its own index |
| `MergeSpec.FindBindingAppend` | crates/bevy_render/src/pipeline/pipeline_layout.rs:20-23 | Searching a concatenation finds the slot in the front part first |
| `MergeSpec.FindBindingInPrefix` | crates/bevy_render/src/pipeline/pipeline_layout.rs:29 | Appending bindings never changes what an already occupied slot resolves to |
| `MergeSpec.MergeBindingsUnion` | crates/bevy_render/src/pipeline/pipeline_layout.rs:19-31 | A merged group holds exactly its previous bindings together with the merged-in ones |
| `MergeSpec.MergeBindingsAgree` | crates/bevy_render/src/pipeline/pipeline_layout.rs:25-29 | After a successful merge, the slot of every merged-in binding resolves to that same binding |
| `MergeSpec.MergeBindingsSlotsDistinct` | crates/bevy_render/src/pipeline/pipeline_layout.rs:28-29 | Merging never gives a slot a second binding |
| `MergeSpec.MergeBindingsError` | crates/bevy_render/src/pipeline/pipeline_layout.rs:25-27 | A mismatch names the group, a merged-in binding, and a different binding for the same slot |
| `MergeSpec.MergeGroupsKeys` | crates/bevy_render/src/pipeline/pipeline_layout.rs:13-38 | The accumulator ends with one entry per bind-group index met, each group stored under its own index |
| `MergeSpec.MergeGroupsPrefix` | crates/bevy_render/src/pipeline/pipeline_layout.rs:33-35 | The first group of each index is inserted as is, and its bindings stay a prefix of the final group's bindings |
| `MergeSpec.MergeGroupsUnion` | crates/bevy_render/src/pipeline/pipeline_layout.rs:15-38 | The final group for an index holds exactly its starting bindings and every binding declared for that index |
| `MergeSpec.MergeGroupsSlotsDistinct` | crates/bevy_render/src/pipeline/pipeline_layout.rs:19-31 | If no input group repeats a slot, no merged group does |
| `MergeSpec.MergeGroupsAgree` | crates/bevy_render/src/pipeline/pipeline_layout.rs:17-31 | Every binding a later group declares for a known index is what its slot resolves to in the merged group |
| `MergeSpec.MergeGroupsError` | crates/bevy_render/src/pipeline/pipeline_layout.rs:25-27 | A failed merge reports a declared binding and a different binding for the same slot of that group |
| `MergeSpec.FirstInSlotAgrees` | crates/bevy_render/src/pipeline/pipeline_layout.rs:17-35 | A binding that is the first of its group in its slot is what that slot resolves to after a successful merge |
| `MergeSpec.ConflictRejected` | crates/bevy_render/src/pipeline/pipeline_layout.rs:25-26 | The merge fails when a later group with the same index declares a slot differently from the first binding in that slot of an earlier group |
| `Ordering.MinIndex` | crates/bevy_render/src/pipeline/pipeline_layout.rs:51 | Returns the smallest index of a non-empty set of indices |
| `Ordering.SortedValues` | crates/bevy_render/src/pipeline/pipeline_layout.rs:44-51 | The drained and sorted groups number exactly as many as the accumulator's indices |
| `Ordering.SortedValuesDrawn` | crates/bevy_render/src/pipeline/pipeline_layout.rs:44-47 | Every drained group is an accumulated group, stored under its own index |
| `Ordering.SortedValuesCovers` | crates/bevy_render/src/pipeline/pipeline_layout.rs:44-47 | Every accumulated group is drained |
| `Ordering.SortedValuesIndices` | crates/bevy_render/src/pipeline/pipeline_layout.rs:44-51 | The indices of the drained and sorted groups are exactly the accumulator's indices |
| `Ordering.SortedValuesAscending` | crates/bevy_render/src/pipeline/pipeline_layout.rs:51 | The sorted groups are strictly ascending by index |
| `Ordering.SortedValuesFacts` | crates/bevy_render/src/pipeline/pipeline_layout.rs:44-51 | The sorted groups are strictly ascending and are exactly the accumulated groups |
| `Ordering.SortedValuesUnique` | crates/bevy_render/src/pipeline/pipeline_layout.rs:44-51 | Any ascending arrangement of the accumulated groups that holds each group once is the sorted one, so the map's drain order cannot show in the result |
| `Ordering.SwapAdjacent` | crates/bevy_render/src/pipeline/pipeline_layout.rs:51 | Exchanging two neighbouring groups keeps the multiset of groups |
| `Ordering.SortByIndex` | crates/bevy_render/src/pipeline/pipeline_layout.rs:51 | Sorting in place leaves the array ascending by index and a permutation of its old contents |
| `LayoutMerger.MergedBindGroups` | crates/bevy_render/src/pipeline/pipeline_layout.rs:12-51 | The merged bind groups number exactly as many as the distinct indices the stages declare |
| `LayoutMerger.AccumulateBindGroups` | crates/bevy_render/src/pipeline/pipeline_layout.rs:13-38 | The nested loops compute exactly the reference merge of all stages' groups in visiting order, including its first mismatch |
| `LayoutMerger.AccumulateStage` | crates/bevy_render/src/pipeline/pipeline_layout.rs:16-37 | The loop over one stage's groups computes exactly the reference merge of those groups into the accumulator, including its first mismatch |
| `LayoutMerger.MergeShaderBindings` | crates/bevy_render/src/pipeline/pipeline_layout.rs:19-31 | The binding loop computes exactly the reference merge of a stage's bindings into the accumulated group |
| `LayoutMerger.CollectSorted` | crates/bevy_render/src/pipeline/pipeline_layout.rs:44-51 | Draining the map in arbitrary order and then sorting gives exactly the groups in ascending index order |
| `LayoutMerger.FlattenMembers` | crates/bevy_render/src/pipeline/pipeline_layout.rs:15-16 | The loops visit exactly the groups that some stage declares |
| `LayoutMerger.StageIndicesAreVisited` | crates/bevy_render/src/pipeline/pipeline_layout.rs:15-16 | The indices visited are exactly the indices the stages declare |
| `LayoutMerger.FirstWithIndexFacts` | crates/bevy_render/src/pipeline/pipeline_layout.rs:33-35 | A first group with an index exists exactly when the index is declared, and it carries that index |
| `LayoutMerger.MergedAscending` | crates/bevy_render/src/pipeline/pipeline_layout.rs:51 | The merged groups are strictly ascending by index, so no index occurs twice |
| `LayoutMerger.MergedIndices` | crates/bevy_render/src/pipeline/pipeline_layout.rs:13-51 | The indices of the merged groups are exactly the union of the indices the stages declare |
| `LayoutMerger.MergedKeepsFirstGroup` | crates/bevy_render/src/pipeline/pipeline_layout.rs:33-35 | Each merged group begins with the bindings of the first group declared with its index, verbatim |
| `LayoutMerger.MergedUnion` | crates/bevy_render/src/pipeline/pipeline_layout.rs:19-35 | Each merged group holds exactly the bindings the stages declare for its index |
| `LayoutMerger.MergedSlotsDistinct` | crates/bevy_render/src/pipeline/pipeline_layout.rs:20-29 | If no stage repeats a slot within a group, no merged group holds a slot twice |
| `LayoutMerger.MergedError` | crates/bevy_render/src/pipeline/pipeline_layout.rs:25-27 | A failed merge reports two different bindings that the stages declare for the same slot of the same group |
| `LayoutMerger.MergedConflictRejected` | crates/bevy_render/src/pipeline/pipeline_layout.rs:25-26 | The merge of the stages fails when a later group with the same index declares a slot differently from the first binding in that slot of an earlier group |
| `MergeExamples.VisitOrder` | crates/bevy_render/src/pipeline/pipeline_layout.rs:15-16 | The groups are visited stage by stage, each stage's groups in order |
| `MergeExamples.ExtendShared` | crates/bevy_render/src/pipeline/pipeline_layout.rs:19-31 | A later stage's copy of a group leaves an equal shared binding alone and appends its new one |
| `MergeExamples.AccumulateExample` | crates/bevy_render/src/pipeline/pipeline_layout.rs:13-38 | A concrete accumulation over two stages and three groups |
| `MergeExamples.SortExample` | crates/bevy_render/src/pipeline/pipeline_layout.rs:44-51 | A concrete drain of the accumulator in index order |
| `MergeExamples.SharedBindingMergedOnce` | crates/bevy_render/src/pipeline/pipeline_layout.rs:12-51 | A binding shared by two stages appears once, a new binding is appended, and the groups come out ordered by index |
| `MergeExamples.MismatchRejected` | crates/bevy_render/src/pipeline/pipeline_layout.rs:25-26 | Two stages that disagree on one binding cannot be merged |
| `MergeExamples.RepeatedSlotInFirstGroupAccepted` | crates/bevy_render/src/pipeline/pipeline_layout.rs:20-34 | A first group that repeats a slot is stored unchecked, and a later stage that agrees with the first binding in that slot merges without a mismatch |
| `Pipeline.SyncWith` | crates/bevy_render/src/pipeline/pipeline_layout.rs:67 | Synchronising a descriptor with the registry's one keeps its name |
| `Pipeline.FirstUnsupported` | crates/bevy_render/src/pipeline/pipeline_layout.rs:63-73 | Gives the position of the first descriptor whose name the registry lacks, with every earlier name registered. It is `None` exactly when every name is registered |
| `Pipeline.SyncedUpTo` | crates/bevy_render/src/pipeline/pipeline_layout.rs:63-67 | A partly synchronised list keeps the length and every name of the original |
| `Pipeline.SyncedCount` | crates/bevy_render/src/pipeline/pipeline_layout.rs:63-73 | Synchronisation reaches the end exactly when no name is missing, and it only passes registered names |
| `Pipeline.PipelineLayout.constructor` | crates/bevy_render/src/pipeline/pipeline_layout.rs:53-56 | The layout holds the given bind groups and vertex buffer descriptors |
| `Pipeline.PipelineLayout.FromShaderLayouts` | crates/bevy_render/src/pipeline/pipeline_layout.rs:12-57 | Succeeds exactly when there is a stage and the bind groups merge. A mismatch is reported as such, and an empty stage list fails after the merge. On success the new layout holds the merged groups sorted by index and the first stage's vertex buffer descriptors |
| `Pipeline.PipelineLayout.SyncVertexBufferDescriptors` | crates/bevy_render/src/pipeline/pipeline_layout.rs:59-75 | Passes exactly when every name is registered, and otherwise fails naming the first missing one. The descriptors up to that point are synchronised and kept, the rest are untouched, the length and names are kept, and the bind groups are unchanged |
| `UniformSize.Size` | crates/bevy_render/src/pipeline/pipeline_layout.rs:99-116 | The exact size following the table, struct sums and array products, which is always a multiple of four bytes |
| `UniformSize.FieldsSize` | crates/bevy_render/src/pipeline/pipeline_layout.rs:110-113 | The fields of a struct together take a multiple of four bytes |
| `UniformSize.WrappingAdd` | crates/bevy_render/src/pipeline/pipeline_layout.rs:113 | `u64` addition is exact while the sum fits, and otherwise gives the sum less 2^64 |
| `UniformSize.WrappingMul` | crates/bevy_render/src/pipeline/pipeline_layout.rs:114 | `u64` multiplication is exact while the product fits, and otherwise gives a value congruent to the product modulo 2^64 |
| `UniformSize.GetSize` | crates/bevy_render/src/pipeline/pipeline_layout.rs:99-116 | The size computed in `u64` arithmetic equals the exact size, following the per-type table, struct sums and array products, reduced modulo 2^64 |
| `UniformSize.FoldSizes` | crates/bevy_render/src/pipeline/pipeline_layout.rs:110-113 | The wrapping fold over the field sizes equals the starting total plus the exact field sizes, modulo 2^64 |
| `UniformSize.GetSizeExact` | crates/bevy_render/src/pipeline/pipeline_layout.rs:100-116 | When the exact size fits in a `u64`, `get_size` returns it |
| `UniformSize.StructConcat` | crates/bevy_render/src/pipeline/pipeline_layout.rs:110-113 | A struct whose fields are those of two structs is as large as both together |
| `UniformSize.ArrayConcat` | crates/bevy_render/src/pipeline/pipeline_layout.rs:114 | An array of `n + m` elements is as large as an array of `n` plus one of `m` |
| `UniformSize.FloatAndVec3Example` | crates/bevy_render/src/pipeline/pipeline_layout.rs:103-113 | A float followed by a vec3 takes 16 bytes |
| `UniformSize.Mat4ArrayExample` | crates/bevy_render/src/pipeline/pipeline_layout.rs:109-114 | Three mat4s take 192 bytes |
| `UniformSize.NestedExample` | crates/bevy_render/src/pipeline/pipeline_layout.rs:102-114 | An array of two vec2s followed by an int takes 20 bytes |
| `UniformSize.EmptyExamples` | crates/bevy_render/src/pipeline/pipeline_layout.rs:110-114 | An empty struct and an array of length zero take no space |

## Left out

- The internals of `BindGroupDescriptor`'s bindings, `VertexBufferDescriptor`'s attributes, `ShaderLayout` and `VertexBufferDescriptors` are defined elsewhere in bevy_render. They are not part of this model. Binding payloads and attribute data are opaque type parameters, and bindings are compared by equality as the derived `PartialEq` does.
- `VertexBufferDescriptor::sync_with_descriptor` is not part of this model. It is a function parameter that computes the new attribute data, and the descriptor's name is kept. The parameter is a total function, so the model assumes the call always returns and never panics itself.
- Panic messages and their formatting are not modelled. A panic is an error value, and the process does not abort.
- The iteration order of `HashMap::drain` is unspecified. The model draws entries in an arbitrary order and proves the result independent of it.
- `UniformSize.GetSize`: the source uses plain `u64` `+` and `*`. These wrap in release builds, and the model follows that. The overflow panic of debug builds is not modelled.
- Bind-group and binding indices are `u32` in the source and unbounded naturals here. No arithmetic is done on them, so the width does not matter.
- Shader reflection, GPU resources and the rest of the renderer are outside this file.
