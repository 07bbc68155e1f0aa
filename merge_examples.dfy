/**
 * Worked merges over small layouts, with integers standing for the binding payloads.
 */
module MergeExamples {
  import opened Wrappers
  import opened Descriptors
  import opened MergeSpec
  import opened Ordering
  import opened LayoutMerger

  function Stage(groups: seq<BindGroupDescriptor<int>>): ShaderLayout<int, int>
  {
    ShaderLayout(groups, [])
  }

  const Shared := BindGroupDescriptor(0, [Binding(1, 10)])
  const Lights := BindGroupDescriptor(1, [Binding(0, 30)])
  const Extended := BindGroupDescriptor(0, [Binding(1, 10), Binding(2, 20)])

  /** The vertex stage declares group 0; the fragment stage declares group 1, then group 0 with one more binding. */
  const VertexThenFragment := [Stage([Shared]), Stage([Lights, Extended])]

  lemma VisitOrder()
    ensures Flatten(VertexThenFragment) == [Shared, Lights, Extended]
  {
    var stages := VertexThenFragment;
    assert Flatten(stages[1..]) == [Lights, Extended] + Flatten(stages[1..][1..]);
  }

  /** The fragment stage's copy of group 0 adds binding 2 and leaves the shared binding 1 alone. */
  lemma ExtendShared()
    ensures MergeBindings(Shared, Extended.bindings) == Ok(Extended)
  {
    assert MergeBinding(Shared, Binding(1, 10)) == Ok(Shared);
    assert MergeBinding(Shared, Binding(2, 20)) == Ok(Extended) by {
      assert FindBinding(Shared.bindings, 2) == None;
      assert Shared.bindings + [Binding(2, 20)] == Extended.bindings;
    }
    assert Extended.bindings[1..] == [Binding(2, 20)];
    assert MergeBindings(Extended, []) == Ok(Extended);
  }

  lemma AccumulateExample()
    ensures MergeGroups(map[], [Shared, Lights, Extended]) == Ok(map[0 := Extended, 1 := Lights])
  {
    var acc1 := map[0 := Shared];
    var acc2 := map[0 := Shared, 1 := Lights];
    var acc3 := map[0 := Extended, 1 := Lights];
    ExtendShared();
    assert MergeGroup(map[], Shared) == Ok(acc1);
    assert MergeGroup(acc1, Lights) == Ok(acc2);
    assert MergeGroup(acc2, Extended) == Ok(acc3) by {
      assert acc2[0 := Extended] == acc3;
    }
    assert [Shared, Lights, Extended][1..] == [Lights, Extended];
    assert [Lights, Extended][1..] == [Extended];
    assert MergeGroups(acc3, []) == Ok(acc3);
    assert MergeGroups(acc2, [Extended]) == Ok(acc3);
    assert MergeGroups(acc1, [Lights, Extended]) == Ok(acc3);
  }

  lemma SortExample()
    ensures SortedValues(map[0 := Extended, 1 := Lights]) == [Extended, Lights]
  {
    var acc := map[0 := Extended, 1 := Lights];
    var rest := map[1 := Lights];
    assert acc.Keys == {0, 1};
    assert MinIndex(acc.Keys) == 0;
    assert acc - {0} == rest;
    assert rest.Keys == {1};
    assert MinIndex(rest.Keys) == 1;
    assert rest - {1} == map[];
    assert SortedValues(rest) == [Lights] + SortedValues(map[]);
    assert SortedValues(acc) == [Extended] + SortedValues(rest);
  }

  /**
   * A vertex and a fragment stage that both declare binding 1 of group 0 identically: the
   * shared binding appears once, the fragment stage's binding 2 is appended, and the groups
   * come out ordered by index.
   */
  lemma SharedBindingMergedOnce()
    ensures MergedBindGroups(VertexThenFragment) == Ok([Extended, Lights])
  {
    VisitOrder();
    AccumulateExample();
    SortExample();
  }

  /** Two stages that disagree on binding 1 of group 0 cannot be merged. */
  lemma MismatchRejected()
    ensures MergedBindGroups([
              Stage([BindGroupDescriptor(0, [Binding(1, 10)])]),
              Stage([BindGroupDescriptor(0, [Binding(1, 11)])])
            ]).Err?
  {
    var stages := [Stage([BindGroupDescriptor(0, [Binding(1, 10)])]), Stage([BindGroupDescriptor(0, [Binding(1, 11)])])];
    assert Flatten(stages) == [BindGroupDescriptor(0, [Binding(1, 10)]), BindGroupDescriptor(0, [Binding(1, 11)])] by {
      assert Flatten(stages[1..]) == stages[1].bindGroups + Flatten(stages[1..][1..]);
    }
    MergedConflictRejected(stages, 0, 1, Binding(1, 10), Binding(1, 11));
  }

  /** A group that declares binding 1 twice, with different payloads. */
  const Repeated := BindGroupDescriptor(0, [Binding(1, 10), Binding(1, 11)])

  /**
   * A group met for the first time is stored without looking at its bindings, and a later
   * stage is checked only against the first binding in each slot: a layout whose first
   * stage repeats a slot, followed by a stage that agrees with the first binding there,
   * merges without a mismatch and keeps both bindings.
   */
  lemma RepeatedSlotInFirstGroupAccepted()
    ensures MergedBindGroups([Stage([Repeated]), Stage([Shared])]) == Ok([Repeated])
  {
    var stages := [Stage([Repeated]), Stage([Shared])];
    assert Flatten(stages) == [Repeated, Shared] by {
      assert Flatten(stages[1..]) == [Shared] + Flatten(stages[1..][1..]);
    }
    var acc := map[0 := Repeated];
    assert FindBinding(Repeated.bindings, 1) == Some(Binding(1, 10));
    assert MergeBinding(Repeated, Binding(1, 10)) == Ok(Repeated);
    assert MergeBindings(Repeated, Shared.bindings) == Ok(Repeated) by {
      assert Shared.bindings[1..] == [];
      assert MergeBindings(Repeated, []) == Ok(Repeated);
    }
    assert MergeGroup(map[], Repeated) == Ok(acc);
    assert MergeGroup(acc, Shared) == Ok(acc) by {
      assert acc[0 := Repeated] == acc;
    }
    assert [Repeated, Shared][1..] == [Shared];
    assert MergeGroups(acc, []) == Ok(acc);
    assert MergeGroups(acc, [Shared]) == Ok(acc);
    assert MergeGroups(map[], [Repeated, Shared]) == Ok(acc);
    assert acc.Keys == {0};
    assert MinIndex(acc.Keys) == 0;
    assert acc - {0} == map[];
    assert SortedValues(acc) == [Repeated] + SortedValues(map[]);
    assert SortedValues(acc) == [Repeated];
  }
}
