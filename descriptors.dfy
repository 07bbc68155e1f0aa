/**
 * The descriptor types the pipeline layout is built from. Their definitions live outside
 * the pipeline-layout file; only what that file inspects is modelled: the slot `index` of a
 * binding and of a bind group, the `name` of a vertex buffer, and structural equality.
 * Everything else is an opaque payload: `P` for the contents of a binding (resource kind,
 * uniform layout, ...) and `A` for a vertex buffer's stride, step mode and attributes.
 */
module Descriptors {

  /** One resource slot of a bind group. */
  datatype Binding<P> = Binding(index: nat, payload: P)

  /** A bind group: its slot and its bindings, in declaration order. */
  datatype BindGroupDescriptor<P> = BindGroupDescriptor(index: nat, bindings: seq<Binding<P>>)

  /** A vertex buffer layout, identified by name. */
  datatype VertexBufferDescriptor<A> = VertexBufferDescriptor(name: string, layout: A)

  /** What reflection of one shader stage yields. */
  datatype ShaderLayout<P, A> = ShaderLayout(
    bindGroups: seq<BindGroupDescriptor<P>>,
    vertexBufferDescriptors: seq<VertexBufferDescriptor<A>>)

  /** The render graph's registry of canonical vertex buffer layouts, keyed by name. */
  type VertexBufferDescriptors<A> = map<string, VertexBufferDescriptor<A>>
}
