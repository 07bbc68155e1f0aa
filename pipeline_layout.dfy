/**
 * `PipelineLayout`: the merged bind groups of a pipeline and the vertex buffer layouts of
 * its first stage, with the operation that reconciles those layouts in place against the
 * render graph's registry.
 */
module Pipeline {
  import opened Wrappers
  import opened Descriptors
  import opened MergeSpec
  import opened Ordering
  import opened LayoutMerger

  /**
   * The panics of `from_shader_layouts`: a binding that does not match across stages, and
   * indexing the first stage of an empty list of stages.
   */
  datatype LayoutError<P> = BindGroupMismatch(mismatch: MergeError<P>) | NoShaderStages

  /** The panic raised when a vertex buffer of the layout is not in the registry. */
  datatype SyncError = UnsupportedVertexBuffer(name: string)

  /**
   * `VertexBufferDescriptor::sync_with_descriptor`, whose body is not part of this model:
   * given a descriptor and the registry's descriptor of the same name, it yields the new
   * attribute data. The name is kept.
   */
  type SyncRule<!A> = (VertexBufferDescriptor<A>, VertexBufferDescriptor<A>) -> A

  function SyncWith<A>(descriptor: VertexBufferDescriptor<A>, canonical: VertexBufferDescriptor<A>, sync: SyncRule<A>): (r: VertexBufferDescriptor<A>)
    ensures r.name == descriptor.name
  {
    descriptor.(layout := sync(descriptor, canonical))
  }

  /** The position of the first descriptor whose name the registry does not know, if any. */
  function FirstUnsupported<A>(descriptors: seq<VertexBufferDescriptor<A>>, registry: VertexBufferDescriptors<A>): (r: Option<nat>)
    ensures r.None? <==> forall i :: 0 <= i < |descriptors| ==> descriptors[i].name in registry
    ensures r.Some? ==> r.value < |descriptors| && descriptors[r.value].name !in registry &&
                        forall i :: 0 <= i < r.value ==> descriptors[i].name in registry
    decreases |descriptors|
  {
    if descriptors == [] then None
    else if descriptors[0].name !in registry then Some(0)
    else
      match FirstUnsupported(descriptors[1..], registry)
      case None => None
      case Some(i) => Some(i + 1)
  }

  /** `descriptors` with the first `count` synchronised against the registry and the rest as they were. */
  ghost function SyncedUpTo<A>(descriptors: seq<VertexBufferDescriptor<A>>, count: nat,
                               registry: VertexBufferDescriptors<A>, sync: SyncRule<A>): (r: seq<VertexBufferDescriptor<A>>)
    requires count <= |descriptors|
    requires forall i :: 0 <= i < count ==> descriptors[i].name in registry
    ensures |r| == |descriptors|
    ensures forall i :: 0 <= i < |r| ==> r[i].name == descriptors[i].name
  {
    seq(|descriptors|, i requires 0 <= i < |descriptors| =>
      if i < count then SyncWith(descriptors[i], registry[descriptors[i].name], sync) else descriptors[i])
  }

  /** How far synchronisation gets: to the end, or to the first descriptor the registry lacks. */
  function SyncedCount<A>(descriptors: seq<VertexBufferDescriptor<A>>, registry: VertexBufferDescriptors<A>): (n: nat)
    ensures n <= |descriptors| && forall i :: 0 <= i < n ==> descriptors[i].name in registry
    ensures n == |descriptors| <==> FirstUnsupported(descriptors, registry).None?
  {
    match FirstUnsupported(descriptors, registry)
    case None => |descriptors|
    case Some(i) => i
  }

  class PipelineLayout<P(==), A> {
    var bindGroups: seq<BindGroupDescriptor<P>>
    var vertexBufferDescriptors: seq<VertexBufferDescriptor<A>>

    constructor (bindGroups: seq<BindGroupDescriptor<P>>, vertexBufferDescriptors: seq<VertexBufferDescriptor<A>>)
      ensures this.bindGroups == bindGroups && this.vertexBufferDescriptors == vertexBufferDescriptors
    {
      this.bindGroups := bindGroups;
      this.vertexBufferDescriptors := vertexBufferDescriptors;
    }

    /**
     * Merges the layouts of all shader stages: the bind groups of every stage, checked
     * against each other and sorted by index, and the vertex buffers of the first stage.
     */
    static method FromShaderLayouts(stages: seq<ShaderLayout<P, A>>) returns (r: Result<PipelineLayout<P, A>, LayoutError<P>>)
      ensures r.Ok? <==> |stages| > 0 && MergedBindGroups(stages).Ok?
      ensures r.Err? ==> r.error == if MergedBindGroups(stages).Err? then BindGroupMismatch(MergedBindGroups(stages).error)
                                    else NoShaderStages
      ensures r.Ok? ==> fresh(r.value) &&
                        r.value.bindGroups == MergedBindGroups(stages).value &&
                        r.value.vertexBufferDescriptors == stages[0].vertexBufferDescriptors
    {
      var accumulated := AccumulateBindGroups(stages);
      if accumulated.Err? {
        return Err(BindGroupMismatch(accumulated.error));
      }
      if |stages| == 0 {
        return Err(NoShaderStages);
      }
      var bindGroups := accumulated.value;
      MergeGroupsKeys(map[], Flatten(stages));

      var vertexBufferDescriptors := [];
      var i := 0;
      while i < |stages[0].vertexBufferDescriptors|
        invariant 0 <= i <= |stages[0].vertexBufferDescriptors|
        invariant vertexBufferDescriptors == stages[0].vertexBufferDescriptors[..i]
      {
        vertexBufferDescriptors := vertexBufferDescriptors + [stages[0].vertexBufferDescriptors[i]];
        i := i + 1;
      }

      var bindGroupsResult := CollectSorted(bindGroups);
      var layout := new PipelineLayout(bindGroupsResult, vertexBufferDescriptors);
      r := Ok(layout);
    }

    /**
     * Synchronises every vertex buffer descriptor, in order, with the registry's descriptor
     * of the same name. A name the registry lacks stops the pass with an error; the
     * descriptors before it stay synchronised.
     */
    method SyncVertexBufferDescriptors(registry: VertexBufferDescriptors<A>, sync: SyncRule<A>) returns (r: Outcome<SyncError>)
      modifies this
      ensures bindGroups == old(bindGroups)
      ensures r == match FirstUnsupported(old(vertexBufferDescriptors), registry)
                   case None => Pass
                   case Some(i) => Fail(UnsupportedVertexBuffer(old(vertexBufferDescriptors)[i].name))
      ensures vertexBufferDescriptors ==
              SyncedUpTo(old(vertexBufferDescriptors), SyncedCount(old(vertexBufferDescriptors), registry), registry, sync)
    {
      ghost var original := vertexBufferDescriptors;
      var i := 0;
      while i < |vertexBufferDescriptors|
        invariant 0 <= i <= |original| == |vertexBufferDescriptors|
        invariant bindGroups == old(bindGroups)
        invariant forall j :: 0 <= j < i ==> original[j].name in registry
        invariant vertexBufferDescriptors == SyncedUpTo(original, i, registry, sync)
      {
        var descriptor := vertexBufferDescriptors[i];
        if descriptor.name in registry {
          vertexBufferDescriptors := vertexBufferDescriptors[i := SyncWith(descriptor, registry[descriptor.name], sync)];
          assert vertexBufferDescriptors == SyncedUpTo(original, i + 1, registry, sync);
        } else {
          r := Fail(UnsupportedVertexBuffer(descriptor.name));
          return;
        }
        i := i + 1;
      }
      r := Pass;
    }
  }
}
