/**
 * The bind-group half of `PipelineLayout::from_shader_layouts`: the nested loops that fill
 * the index-keyed accumulator, the drain of that map and the sort by index, each proved
 * against the reference definition in MergeSpec and Ordering, and the properties of the
 * merged result stated over the input stages.
 */
module LayoutMerger {
  import opened Wrappers
  import opened Descriptors
  import opened MergeSpec
  import opened Ordering

  /** The merged bind groups of a pipeline, one per bind-group index declared, or the first mismatch met. */
  ghost function MergedBindGroups<P, A>(stages: seq<ShaderLayout<P, A>>): (r: Result<seq<BindGroupDescriptor<P>>, MergeError<P>>)
    ensures r.Ok? ==> |r.value| == |StageIndices(stages)|
  {
    match MergeGroups(map[], Flatten(stages))
    case Err(e) => Err(e)
    case Ok(acc) =>
      StageIndicesAreVisited(stages);
      assert acc.Keys == StageIndices(stages);
      Ok(SortedValues(acc))
  }

  /** The bind-group indices that any stage declares. */
  ghost function StageIndices<P, A>(stages: seq<ShaderLayout<P, A>>): set<nat>
  {
    set s, g | 0 <= s < |stages| && g in stages[s].bindGroups :: g.index
  }

  // ---------------------------------------------------------------------------------------
  // The loops
  // ---------------------------------------------------------------------------------------

  /**
   * The nested loops of `from_shader_layouts`: visits every bind group of every stage and
   * builds the accumulator, stopping at the first binding that does not match across stages.
   */
  method AccumulateBindGroups<P(==), A>(stages: seq<ShaderLayout<P, A>>) returns (r: Result<Accumulator<P>, MergeError<P>>)
    ensures r == MergeGroups(map[], Flatten(stages))
  {
    var bindGroups: Accumulator<P> := map[];
    var s := 0;
    while s < |stages|
      invariant 0 <= s <= |stages|
      invariant MergeGroups(map[], Flatten(stages)) == MergeGroups(bindGroups, Flatten(stages[s..]))
    {
      assert stages[s..][1..] == stages[s + 1..];
      assert Flatten(stages[s..]) == stages[s].bindGroups + Flatten(stages[s + 1..]);
      MergeGroupsAppend(bindGroups, stages[s].bindGroups, Flatten(stages[s + 1..]));
      var merged := AccumulateStage(bindGroups, stages[s].bindGroups);
      if merged.Err? {
        return Err(merged.error);
      }
      bindGroups := merged.value;
      s := s + 1;
    }
    r := Ok(bindGroups);
  }

  /**
   * The loop over one stage's bind groups in `from_shader_layouts`: a new index stores a copy
   * of the group, a known index has the group's bindings merged into the accumulated one.
   */
  method AccumulateStage<P(==)>(bindGroups: Accumulator<P>, shaderGroups: seq<BindGroupDescriptor<P>>)
    returns (r: Result<Accumulator<P>, MergeError<P>>)
    ensures r == MergeGroups(bindGroups, shaderGroups)
  {
    var current: Accumulator<P> := bindGroups;
    var j := 0;
    while j < |shaderGroups|
      invariant 0 <= j <= |shaderGroups|
      invariant MergeGroups(bindGroups, shaderGroups) == MergeGroups(current, shaderGroups[j..])
    {
      var shaderGroup := shaderGroups[j];
      assert shaderGroups[j..][1..] == shaderGroups[j + 1..];
      if shaderGroup.index in current {
        var merged := MergeShaderBindings(current[shaderGroup.index], shaderGroup.bindings);
        if merged.Err? {
          return Err(merged.error);
        }
        current := current[shaderGroup.index := merged.value];
      } else {
        current := current[shaderGroup.index := shaderGroup];
      }
      j := j + 1;
    }
    r := Ok(current);
  }

  /**
   * The innermost loop of `from_shader_layouts`: checks the bindings of a stage's group
   * against the group accumulated under the same index, appending those whose slot is free.
   */
  method MergeShaderBindings<P(==)>(bindGroup: BindGroupDescriptor<P>, shaderBindings: seq<Binding<P>>)
    returns (r: Result<BindGroupDescriptor<P>, MergeError<P>>)
    ensures r == MergeBindings(bindGroup, shaderBindings)
  {
    var current := bindGroup;
    var k := 0;
    while k < |shaderBindings|
      invariant 0 <= k <= |shaderBindings|
      invariant MergeBindings(bindGroup, shaderBindings) == MergeBindings(current, shaderBindings[k..])
    {
      var shaderBinding := shaderBindings[k];
      assert shaderBindings[k..][1..] == shaderBindings[k + 1..];
      var found := FindBinding(current.bindings, shaderBinding.index);
      if found.Some? {
        if found.value != shaderBinding {
          return Err(BindingMismatch(current.index, found.value, shaderBinding));
        }
      } else {
        current := current.(bindings := current.bindings + [shaderBinding]);
      }
      k := k + 1;
    }
    r := Ok(current);
  }

  /**
   * The `drain` and `sort_by` of `from_shader_layouts`: drains the accumulator in whatever
   * order the map yields its entries, then sorts the drained groups by index.
   */
  method CollectSorted<P>(bindGroups: Accumulator<P>) returns (result: seq<BindGroupDescriptor<P>>)
    requires KeyedByIndex(bindGroups)
    ensures result == SortedValues(bindGroups)
  {
    var drained: seq<BindGroupDescriptor<P>> := [];
    var keys := bindGroups.Keys;
    while keys != {}
      invariant keys <= bindGroups.Keys
      invariant forall g :: g in drained ==> g.index in bindGroups && bindGroups[g.index] == g && g.index !in keys
      invariant forall k :: k in bindGroups && k !in keys ==> bindGroups[k] in drained
      invariant Once(drained)
      decreases keys
    {
      var k :| k in keys;
      assert bindGroups[k] !in drained;
      drained := drained + [bindGroups[k]];
      keys := keys - {k};
    }
    var a := new BindGroupDescriptor<P>[|drained|](i requires 0 <= i < |drained| => drained[i]);
    assert a[..] == drained;
    SortByIndex(a);
    result := a[..];
    assert forall g :: g in result <==> g in drained by {
      forall g ensures g in result <==> g in drained {
        assert g in result <==> g in multiset(result);
        assert g in drained <==> g in multiset(drained);
      }
    }
    SortedValuesUnique(bindGroups, result);
  }

  // ---------------------------------------------------------------------------------------
  // Properties of the merged bind groups
  // ---------------------------------------------------------------------------------------

  /** The groups visited are exactly the groups some stage declares. */
  lemma {:induction false} FlattenMembers<P, A>(stages: seq<ShaderLayout<P, A>>, g: BindGroupDescriptor<P>)
    ensures g in Flatten(stages) <==> exists s :: 0 <= s < |stages| && g in stages[s].bindGroups
    decreases |stages|
  {
    if stages != [] {
      FlattenMembers(stages[1..], g);
      if g in Flatten(stages[1..]) {
        var s :| 0 <= s < |stages| - 1 && g in stages[1..][s].bindGroups;
        assert g in stages[s + 1].bindGroups;
      }
      forall s | 0 < s < |stages| && g in stages[s].bindGroups ensures g in Flatten(stages[1..]) {
        assert stages[1..][s - 1] == stages[s];
      }
    }
  }

  lemma StageIndicesAreVisited<P, A>(stages: seq<ShaderLayout<P, A>>)
    ensures Indices(Flatten(stages)) == StageIndices(stages)
  {
    var flat := Flatten(stages);
    forall k ensures k in Indices(flat) <==> k in StageIndices(stages) {
      IndicesMembers(flat, k);
      if k in Indices(flat) {
        var j :| 0 <= j < |flat| && flat[j].index == k;
        FlattenMembers(stages, flat[j]);
      }
      if k in StageIndices(stages) {
        var s, g :| 0 <= s < |stages| && g in stages[s].bindGroups && g.index == k;
        FlattenMembers(stages, g);
        var j :| 0 <= j < |flat| && flat[j] == g;
      }
    }
  }

  /** The first group declared with an index occurs, and has that index, exactly when the index occurs. */
  lemma {:induction false} FirstWithIndexFacts<P>(groups: seq<BindGroupDescriptor<P>>, k: nat)
    ensures FirstWithIndex(groups, k).Some? <==> k in Indices(groups)
    ensures FirstWithIndex(groups, k).Some? ==>
              FirstWithIndex(groups, k).value.index == k && FirstWithIndex(groups, k).value in groups
    decreases |groups|
  {
    if groups != [] {
      FirstWithIndexFacts(groups[1..], k);
    }
  }

  /** The merged groups are sorted strictly ascending by index: no index occurs twice. */
  lemma MergedAscending<P, A>(stages: seq<ShaderLayout<P, A>>)
    ensures MergedBindGroups(stages).Ok? ==> StrictlyAscending(MergedBindGroups(stages).value)
  {
    MergeGroupsKeys(map[], Flatten(stages));
    var m := MergeGroups(map[], Flatten(stages));
    if m.Ok? {
      SortedValuesFacts(m.value);
    }
  }

  /** The merged groups carry exactly the bind-group indices that the stages declare. */
  lemma MergedIndices<P, A>(stages: seq<ShaderLayout<P, A>>)
    ensures MergedBindGroups(stages).Ok? ==> Indices(MergedBindGroups(stages).value) == StageIndices(stages)
  {
    var m := MergeGroups(map[], Flatten(stages));
    if m.Ok? {
      MergeGroupsKeys(map[], Flatten(stages));
      StageIndicesAreVisited(stages);
      SortedValuesIndices(m.value);
    }
  }

  /**
   * Each merged group is the first group declared with its index, kept verbatim, followed
   * only by bindings appended from later stages.
   */
  lemma MergedKeepsFirstGroup<P, A>(stages: seq<ShaderLayout<P, A>>)
    ensures MergedBindGroups(stages).Ok? ==>
              forall g :: g in MergedBindGroups(stages).value ==>
                FirstWithIndex(Flatten(stages), g.index).Some? &&
                FirstWithIndex(Flatten(stages), g.index).value.index == g.index &&
                FirstWithIndex(Flatten(stages), g.index).value.bindings <= g.bindings
  {
    var flat := Flatten(stages);
    MergeGroupsKeys(map[], flat);
    MergeGroupsPrefix(map[], flat);
    var m := MergeGroups(map[], flat);
    if m.Ok? {
      SortedValuesFacts(m.value);
      forall g | g in SortedValues(m.value)
        ensures FirstWithIndex(flat, g.index).Some? && FirstWithIndex(flat, g.index).value.index == g.index &&
                FirstWithIndex(flat, g.index).value.bindings <= g.bindings
      {
        FirstWithIndexFacts(flat, g.index);
        assert Seed(map[], flat, g.index) == FirstWithIndex(flat, g.index);
      }
    }
  }

  /** Each merged group holds exactly the bindings that the stages declare for its index. */
  lemma MergedUnion<P, A>(stages: seq<ShaderLayout<P, A>>)
    ensures MergedBindGroups(stages).Ok? ==>
              forall g :: g in MergedBindGroups(stages).value ==> Elems(g.bindings) == Declared(Flatten(stages), g.index)
  {
    var flat := Flatten(stages);
    var m := MergeGroups(map[], flat);
    if m.Ok? {
      var acc := m.value;
      MergeGroupsKeys(map[], flat);
      MergeGroupsUnion(map[], flat);
      SortedValuesFacts(acc);
      forall g | g in SortedValues(acc) ensures Elems(g.bindings) == Declared(flat, g.index) {
        assert g.index in acc && acc[g.index] == g;
      }
    }
  }

  /** When no stage declares a slot twice within one group, no merged group holds a slot twice. */
  lemma MergedSlotsDistinct<P, A>(stages: seq<ShaderLayout<P, A>>)
    requires forall s, g :: 0 <= s < |stages| && g in stages[s].bindGroups ==> SlotsDistinct(g.bindings)
    ensures MergedBindGroups(stages).Ok? ==>
              forall g :: g in MergedBindGroups(stages).value ==> SlotsDistinct(g.bindings)
  {
    var flat := Flatten(stages);
    forall j | 0 <= j < |flat| ensures SlotsDistinct(flat[j].bindings) {
      FlattenMembers(stages, flat[j]);
    }
    MergeGroupsKeys(map[], flat);
    MergeGroupsSlotsDistinct(map[], flat);
    var m := MergeGroups(map[], flat);
    if m.Ok? {
      SortedValuesFacts(m.value);
    }
  }

  /**
   * A failed merge reports a binding some stage declares for the group, and a different
   * binding declared for the same slot of the same group.
   */
  lemma MergedError<P, A>(stages: seq<ShaderLayout<P, A>>)
    ensures MergedBindGroups(stages).Err? ==>
              var e := MergedBindGroups(stages).error;
              && e.existing.index == e.offending.index
              && e.existing != e.offending
              && e.offending in Declared(Flatten(stages), e.group)
              && e.existing in Declared(Flatten(stages), e.group)
  {
    MergeGroupsError(map[], Flatten(stages));
  }

  /**
   * Two stages that declare one slot of one bind group differently make the merge fail
   * (`first` being the first binding of its group in that slot).
   */
  lemma MergedConflictRejected<P, A>(stages: seq<ShaderLayout<P, A>>, i: nat, j: nat, first: Binding<P>, second: Binding<P>)
    requires i < j < |Flatten(stages)| && Flatten(stages)[i].index == Flatten(stages)[j].index
    requires FindBinding(Flatten(stages)[i].bindings, first.index) == Some(first)
    requires second in Flatten(stages)[j].bindings && second.index == first.index
    requires first != second
    ensures MergedBindGroups(stages).Err?
  {
    ConflictRejected(Flatten(stages), i, j, first, second);
  }
}
