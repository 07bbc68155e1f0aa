/**
 * Reference definition of how `PipelineLayout::from_shader_layouts` merges the bind groups
 * of several shader stages, and what that merge guarantees.
 *
 * The accumulator is the `HashMap` from bind-group index to the group merged so far. Each
 * fold below processes its sequence front to back, stops at the first error and otherwise
 * carries the accumulator on, exactly as the nested `for` loops do.
 */
module MergeSpec {
  import opened Wrappers
  import opened Descriptors

  /** The panic raised when two stages declare one binding slot differently. */
  datatype MergeError<P> = BindingMismatch(group: nat, existing: Binding<P>, offending: Binding<P>)

  /** The map from bind-group index to the group accumulated for that index. */
  type Accumulator<P> = map<nat, BindGroupDescriptor<P>>

  /** Every accumulated group is stored under its own index. */
  ghost predicate KeyedByIndex<P>(acc: Accumulator<P>)
  {
    forall k :: k in acc ==> acc[k].index == k
  }

  ghost function Elems<T>(s: seq<T>): set<T>
  {
    set x | x in s
  }

  lemma ElemsCons<T>(s: seq<T>)
    requires s != []
    ensures Elems(s) == {s[0]} + Elems(s[1..])
  {
    assert s == [s[0]] + s[1..];
  }

  /** No two bindings of the sequence share a slot. */
  ghost predicate SlotsDistinct<P>(bs: seq<Binding<P>>)
  {
    forall i, j :: 0 <= i < j < |bs| ==> bs[i].index != bs[j].index
  }

  /** The bind-group indices occurring in `groups`. */
  ghost function Indices<P>(groups: seq<BindGroupDescriptor<P>>): set<nat>
  {
    if groups == [] then {} else {groups[0].index} + Indices(groups[1..])
  }

  /** All bindings declared by the groups of `groups` that have index `k`. */
  ghost function Declared<P>(groups: seq<BindGroupDescriptor<P>>, k: nat): set<Binding<P>>
  {
    if groups == [] then {}
    else (if groups[0].index == k then Elems(groups[0].bindings) else {}) + Declared(groups[1..], k)
  }

  /** The first group of `groups` that has index `k`, the one the merge stores verbatim. */
  ghost function FirstWithIndex<P>(groups: seq<BindGroupDescriptor<P>>, k: nat): Option<BindGroupDescriptor<P>>
  {
    if groups == [] then None
    else if groups[0].index == k then Some(groups[0])
    else FirstWithIndex(groups[1..], k)
  }

  /** The bind groups of all stages, in the order the nested loops visit them. */
  ghost function Flatten<P, A>(stages: seq<ShaderLayout<P, A>>): seq<BindGroupDescriptor<P>>
  {
    if stages == [] then [] else stages[0].bindGroups + Flatten(stages[1..])
  }

  /**
   * `bindings.iter().find(|b| b.index == slot)`: the first binding that occupies `slot`.
   */
  function FindBinding<P>(bindings: seq<Binding<P>>, slot: nat): (r: Option<Binding<P>>)
    ensures r.None? <==> forall b :: b in bindings ==> b.index != slot
    ensures r.Some? ==> exists i :: 0 <= i < |bindings| && bindings[i] == r.value && r.value.index == slot &&
                                    forall j :: 0 <= j < i ==> bindings[j].index != slot
  {
    if bindings == [] then None
    else if bindings[0].index == slot then Some(bindings[0])
    else
      var r := FindBinding(bindings[1..], slot);
      assert r.Some? ==> exists i :: 0 <= i < |bindings| - 1 && bindings[1..][i] == r.value && r.value.index == slot &&
                                     forall j :: 0 <= j < i ==> bindings[1..][j].index != slot;
      r
  }

  /**
   * Folds one binding of a later stage into the group accumulated so far: a free slot takes
   * the binding at the end, a slot already holding an equal binding is left alone, and a
   * slot holding a different binding is a mismatch.
   */
  ghost function MergeBinding<P>(group: BindGroupDescriptor<P>, binding: Binding<P>): (r: Result<BindGroupDescriptor<P>, MergeError<P>>)
    ensures r.Ok? ==> r.value.index == group.index && group.bindings <= r.value.bindings
    ensures r.Ok? ==> FindBinding(r.value.bindings, binding.index) == Some(binding)
    ensures r.Ok? ==> Elems(r.value.bindings) == Elems(group.bindings) + {binding}
    ensures r.Ok? && (exists b :: b in group.bindings && b.index == binding.index) ==> r.value == group
    ensures r.Ok? && (forall b :: b in group.bindings ==> b.index != binding.index) ==>
              r.value.bindings == group.bindings + [binding]
    ensures r.Err? <==> FindBinding(group.bindings, binding.index).Some? &&
                        FindBinding(group.bindings, binding.index).value != binding
    ensures r.Err? ==> r.error == BindingMismatch(group.index, FindBinding(group.bindings, binding.index).value, binding)
  {
    match FindBinding(group.bindings, binding.index)
    case Some(existing) =>
      if existing != binding then Err(BindingMismatch(group.index, existing, binding)) else Ok(group)
    case None =>
      var merged := group.(bindings := group.bindings + [binding]);
      FindBindingAppend(group.bindings, [binding], binding.index);
      Ok(merged)
  }

  /** Folds all bindings of a later stage's group into the accumulated group, in order. */
  ghost function MergeBindings<P>(group: BindGroupDescriptor<P>, bindings: seq<Binding<P>>): (r: Result<BindGroupDescriptor<P>, MergeError<P>>)
    ensures r.Ok? ==> r.value.index == group.index && group.bindings <= r.value.bindings
    decreases |bindings|
  {
    if bindings == [] then Ok(group)
    else
      match MergeBinding(group, bindings[0])
      case Err(e) => Err(e)
      case Ok(next) => MergeBindings(next, bindings[1..])
  }

  /**
   * Handles one bind group of a stage: a new index stores a copy of the group, a known index
   * merges the group's bindings into the accumulated one.
   */
  ghost function MergeGroup<P>(acc: Accumulator<P>, group: BindGroupDescriptor<P>): (r: Result<Accumulator<P>, MergeError<P>>)
    ensures r.Ok? ==> r.value.Keys == acc.Keys + {group.index}
    ensures r.Ok? ==> forall k :: k in acc && k != group.index ==> r.value[k] == acc[k]
    ensures r.Ok? && KeyedByIndex(acc) ==> KeyedByIndex(r.value)
  {
    if group.index in acc then
      match MergeBindings(acc[group.index], group.bindings)
      case Err(e) => Err(e)
      case Ok(merged) => Ok(acc[group.index := merged])
    else
      Ok(acc[group.index := group])
  }

  /** Handles the bind groups `groups` in order, starting from the accumulator `acc`. */
  ghost function MergeGroups<P>(acc: Accumulator<P>, groups: seq<BindGroupDescriptor<P>>): (r: Result<Accumulator<P>, MergeError<P>>)
    ensures r.Ok? ==> r.value.Keys == acc.Keys + Indices(groups)
    ensures r.Ok? ==> forall k :: k in acc && k !in Indices(groups) ==> r.value[k] == acc[k]
    decreases |groups|
  {
    if groups == [] then Ok(acc)
    else
      match MergeGroup(acc, groups[0])
      case Err(e) => Err(e)
      case Ok(next) => MergeGroups(next, groups[1..])
  }

  /** Merging a concatenation merges the front part, then the back part into its result. */
  lemma {:induction false} MergeGroupsAppend<P>(acc: Accumulator<P>, front: seq<BindGroupDescriptor<P>>, back: seq<BindGroupDescriptor<P>>)
    ensures MergeGroups(acc, front + back) ==
            match MergeGroups(acc, front)
            case Err(e) => Err(e)
            case Ok(next) => MergeGroups(next, back)
    decreases |front|
  {
    if front == [] {
      assert front + back == back;
    } else {
      assert (front + back)[0] == front[0];
      assert (front + back)[1..] == front[1..] + back;
      match MergeGroup(acc, front[0])
      case Err(_) =>
      case Ok(next) => MergeGroupsAppend(next, front[1..], back);
    }
  }

  // ---------------------------------------------------------------------------------------
  // Lemmas about finding a slot
  // ---------------------------------------------------------------------------------------

  /** Searching a concatenation finds a slot in the first part before looking at the second. */
  lemma {:induction false} FindBindingAppend<P>(front: seq<Binding<P>>, back: seq<Binding<P>>, slot: nat)
    ensures FindBinding(front + back, slot) ==
            if FindBinding(front, slot).Some? then FindBinding(front, slot) else FindBinding(back, slot)
    decreases |front|
  {
    if front == [] {
      assert front + back == back;
    } else {
      assert (front + back)[1..] == front[1..] + back;
      FindBindingAppend(front[1..], back, slot);
    }
  }

  /** Appending bindings never changes which binding a slot that is already taken resolves to. */
  lemma FindBindingInPrefix<P>(prefix: seq<Binding<P>>, whole: seq<Binding<P>>, slot: nat)
    requires prefix <= whole
    requires FindBinding(prefix, slot).Some?
    ensures FindBinding(whole, slot) == FindBinding(prefix, slot)
  {
    assert whole == prefix + whole[|prefix|..];
    FindBindingAppend(prefix, whole[|prefix|..], slot);
  }

  // ---------------------------------------------------------------------------------------
  // Lemmas about merging the bindings of one group
  // ---------------------------------------------------------------------------------------

  /** The merged group holds exactly the accumulated bindings and the merged-in ones. */
  lemma {:induction false} MergeBindingsUnion<P>(group: BindGroupDescriptor<P>, bindings: seq<Binding<P>>)
    ensures MergeBindings(group, bindings).Ok? ==>
              Elems(MergeBindings(group, bindings).value.bindings) == Elems(group.bindings) + Elems(bindings)
    decreases |bindings|
  {
    if bindings != [] {
      var step := MergeBinding(group, bindings[0]);
      if step.Ok? {
        MergeBindingsUnion(step.value, bindings[1..]);
        ElemsCons(bindings);
      }
    }
  }

  /** After a successful merge, the slot of every merged-in binding resolves to that very binding. */
  lemma {:induction false} MergeBindingsAgree<P>(group: BindGroupDescriptor<P>, bindings: seq<Binding<P>>)
    ensures MergeBindings(group, bindings).Ok? ==>
              forall b :: b in bindings ==> FindBinding(MergeBindings(group, bindings).value.bindings, b.index) == Some(b)
    decreases |bindings|
  {
    if bindings != [] {
      var step := MergeBinding(group, bindings[0]);
      if step.Ok? {
        MergeBindingsAgree(step.value, bindings[1..]);
        var r := MergeBindings(step.value, bindings[1..]);
        if r.Ok? {
          FindBindingInPrefix(step.value.bindings, r.value.bindings, bindings[0].index);
        }
      }
    }
  }

  /** Merging never gives a slot a second binding: distinct slots stay distinct. */
  lemma {:induction false} MergeBindingsSlotsDistinct<P>(group: BindGroupDescriptor<P>, bindings: seq<Binding<P>>)
    requires SlotsDistinct(group.bindings)
    ensures MergeBindings(group, bindings).Ok? ==> SlotsDistinct(MergeBindings(group, bindings).value.bindings)
    decreases |bindings|
  {
    if bindings != [] {
      var step := MergeBinding(group, bindings[0]);
      if step.Ok? {
        MergeBindingsSlotsDistinct(step.value, bindings[1..]);
      }
    }
  }

  /** A mismatch names the group, a merged-in binding and a different binding already in its slot. */
  lemma {:induction false} MergeBindingsError<P>(group: BindGroupDescriptor<P>, bindings: seq<Binding<P>>)
    ensures MergeBindings(group, bindings).Err? ==>
              var e := MergeBindings(group, bindings).error;
              && e.group == group.index
              && e.offending in bindings
              && e.existing.index == e.offending.index
              && e.existing != e.offending
              && e.existing in Elems(group.bindings) + Elems(bindings)
    decreases |bindings|
  {
    if bindings != [] {
      var step := MergeBinding(group, bindings[0]);
      if step.Ok? {
        MergeBindingsError(step.value, bindings[1..]);
        ElemsCons(bindings);
      }
    }
  }

  // ---------------------------------------------------------------------------------------
  // Lemmas about the accumulator
  // ---------------------------------------------------------------------------------------

  /** `k` occurs in `groups` exactly when some position of `groups` holds a group with index `k`. */
  lemma {:induction false} IndicesMembers<P>(groups: seq<BindGroupDescriptor<P>>, k: nat)
    ensures k in Indices(groups) <==> exists j :: 0 <= j < |groups| && groups[j].index == k
    decreases |groups|
  {
    if groups != [] {
      IndicesMembers(groups[1..], k);
      if k in Indices(groups[1..]) {
        var j :| 0 <= j < |groups| - 1 && groups[1..][j].index == k;
        assert groups[j + 1].index == k;
      }
      forall j | 0 <= j < |groups| && groups[j].index == k && j > 0
        ensures k in Indices(groups[1..])
      {
        assert groups[1..][j - 1].index == k;
      }
    }
  }

  /** The merge stores one group per index met, each under its own index. */
  lemma {:induction false} MergeGroupsKeys<P>(acc: Accumulator<P>, groups: seq<BindGroupDescriptor<P>>)
    requires KeyedByIndex(acc)
    ensures MergeGroups(acc, groups).Ok? ==>
              KeyedByIndex(MergeGroups(acc, groups).value) &&
              MergeGroups(acc, groups).value.Keys == acc.Keys + Indices(groups)
    decreases |groups|
  {
    if groups != [] {
      var step := MergeGroup(acc, groups[0]);
      if step.Ok? {
        MergeGroupsKeys(step.value, groups[1..]);
      }
    }
  }

  /** The group an index starts from: the accumulated one, or else the first one declared. */
  ghost function Seed<P>(acc: Accumulator<P>, groups: seq<BindGroupDescriptor<P>>, k: nat): Option<BindGroupDescriptor<P>>
  {
    if k in acc then Some(acc[k]) else FirstWithIndex(groups, k)
  }

  /**
   * Later groups only append: the bindings of the group an index starts from are a prefix of
   * the bindings the merge ends with for that index.
   */
  lemma {:induction false} MergeGroupsPrefix<P>(acc: Accumulator<P>, groups: seq<BindGroupDescriptor<P>>)
    ensures MergeGroups(acc, groups).Ok? ==>
              forall k :: Seed(acc, groups, k).Some? ==>
                k in MergeGroups(acc, groups).value &&
                Seed(acc, groups, k).value.bindings <= MergeGroups(acc, groups).value[k].bindings
    decreases |groups|
  {
    if groups != [] {
      var step := MergeGroup(acc, groups[0]);
      if step.Ok? {
        MergeGroupsPrefix(step.value, groups[1..]);
        var m := MergeGroups(acc, groups);
        if m.Ok? {
          forall k | Seed(acc, groups, k).Some?
            ensures k in m.value && Seed(acc, groups, k).value.bindings <= m.value[k].bindings
          {
            var g := groups[0];
            if k in acc && k == g.index {
              PrefixTransitive(acc[k].bindings, step.value[k].bindings, m.value[k].bindings);
            } else if k == g.index {
              assert Seed(acc, groups, k) == Some(step.value[k]);
            } else {
              assert Seed(acc, groups, k) == Seed(step.value, groups[1..], k);
            }
          }
        }
      }
    }
  }

  /** The merged group for an index holds exactly the bindings it started with and all declared for it. */
  lemma {:induction false} MergeGroupsUnion<P>(acc: Accumulator<P>, groups: seq<BindGroupDescriptor<P>>)
    ensures MergeGroups(acc, groups).Ok? ==>
              forall k :: k in MergeGroups(acc, groups).value ==>
                Elems(MergeGroups(acc, groups).value[k].bindings) ==
                (if k in acc then Elems(acc[k].bindings) else {}) + Declared(groups, k)
    decreases |groups|
  {
    if groups != [] {
      var step := MergeGroup(acc, groups[0]);
      if step.Ok? {
        MergeGroupsUnion(step.value, groups[1..]);
        if groups[0].index in acc {
          MergeBindingsUnion(acc[groups[0].index], groups[0].bindings);
        }
      }
    }
  }

  /** Merged groups keep distinct slots when all the groups merged have distinct slots. */
  lemma {:induction false} MergeGroupsSlotsDistinct<P>(acc: Accumulator<P>, groups: seq<BindGroupDescriptor<P>>)
    requires forall k :: k in acc ==> SlotsDistinct(acc[k].bindings)
    requires forall j :: 0 <= j < |groups| ==> SlotsDistinct(groups[j].bindings)
    ensures MergeGroups(acc, groups).Ok? ==>
              forall k :: k in MergeGroups(acc, groups).value ==> SlotsDistinct(MergeGroups(acc, groups).value[k].bindings)
    decreases |groups|
  {
    if groups != [] {
      var step := MergeGroup(acc, groups[0]);
      if step.Ok? {
        if groups[0].index in acc {
          MergeBindingsSlotsDistinct(acc[groups[0].index], groups[0].bindings);
        }
        assert forall j :: 0 <= j < |groups| - 1 ==> groups[1..][j] == groups[j + 1];
        MergeGroupsSlotsDistinct(step.value, groups[1..]);
      }
    }
  }

  /**
   * The consistency the merge enforces: once an index is known, every binding a later group
   * declares for it is the binding its slot resolves to in the merged group.
   */
  lemma {:induction false} MergeGroupsAgree<P>(acc: Accumulator<P>, groups: seq<BindGroupDescriptor<P>>, j: nat, b: Binding<P>)
    requires j < |groups| && b in groups[j].bindings
    requires groups[j].index in acc || groups[j].index in Indices(groups[..j])
    ensures MergeGroups(acc, groups).Ok? ==>
              groups[j].index in MergeGroups(acc, groups).value &&
              FindBinding(MergeGroups(acc, groups).value[groups[j].index].bindings, b.index) == Some(b)
    decreases |groups|
  {
    var step := MergeGroup(acc, groups[0]);
    var m := MergeGroups(acc, groups);
    if step.Ok? && m.Ok? {
      var k := groups[j].index;
      var rest := groups[1..];
      if j == 0 {
        MergeBindingsAgree(acc[k], groups[0].bindings);
        MergeGroupsPrefix(step.value, rest);
        assert Seed(step.value, rest, k) == Some(step.value[k]);
        FindBindingInPrefix(step.value[k].bindings, m.value[k].bindings, b.index);
      } else {
        assert groups[..j] == [groups[0]] + rest[..j - 1];
        assert Indices(groups[..j]) == {groups[0].index} + Indices(rest[..j - 1]);
        assert rest[j - 1] == groups[j];
        MergeGroupsAgree(step.value, rest, j - 1, b);
      }
    }
  }

  /** A mismatch reports a declared binding and a different binding for the same slot of that group. */
  lemma {:induction false} MergeGroupsError<P>(acc: Accumulator<P>, groups: seq<BindGroupDescriptor<P>>)
    requires KeyedByIndex(acc)
    ensures MergeGroups(acc, groups).Err? ==>
              var e := MergeGroups(acc, groups).error;
              && e.existing.index == e.offending.index
              && e.existing != e.offending
              && e.offending in Declared(groups, e.group)
              && e.existing in (if e.group in acc then Elems(acc[e.group].bindings) else {}) + Declared(groups, e.group)
    decreases |groups|
  {
    if groups != [] {
      var k := groups[0].index;
      var step := MergeGroup(acc, groups[0]);
      if step.Err? {
        MergeBindingsError(acc[k], groups[0].bindings);
      } else {
        MergeGroupsError(step.value, groups[1..]);
        if k in acc {
          MergeBindingsUnion(acc[k], groups[0].bindings);
        }
      }
    }
  }

  /** The first group declared with index `k` is the group at the first position with that index. */
  lemma {:induction false} FirstWithIndexAt<P>(groups: seq<BindGroupDescriptor<P>>, i: nat)
    requires i < |groups|
    requires groups[i].index !in Indices(groups[..i])
    ensures FirstWithIndex(groups, groups[i].index) == Some(groups[i])
    decreases i
  {
    if i > 0 {
      assert groups[..i] == [groups[0]] + groups[1..][..i - 1];
      assert Indices(groups[..i]) == {groups[0].index} + Indices(groups[1..][..i - 1]);
      assert groups[1..][i - 1] == groups[i];
      FirstWithIndexAt(groups[1..], i - 1);
    }
  }

  /**
   * The slot of a binding that is the first of its group in that slot resolves, after a
   * successful merge, to that binding: the group is either the first one for its index, which
   * the merge keeps as a prefix, or a later one, whose bindings the merge checks.
   */
  lemma FirstInSlotAgrees<P>(groups: seq<BindGroupDescriptor<P>>, i: nat, first: Binding<P>)
    requires i < |groups|
    requires FindBinding(groups[i].bindings, first.index) == Some(first)
    ensures MergeGroups(map[], groups).Ok? ==>
              groups[i].index in MergeGroups(map[], groups).value &&
              FindBinding(MergeGroups(map[], groups).value[groups[i].index].bindings, first.index) == Some(first)
  {
    var m := MergeGroups(map[], groups);
    if m.Ok? {
      var k := groups[i].index;
      if k in Indices(groups[..i]) {
        MergeGroupsAgree(map[], groups, i, first);
      } else {
        FirstWithIndexAt(groups, i);
        MergeGroupsPrefix(map[], groups);
        FindBindingInPrefix(groups[i].bindings, m.value[k].bindings, first.index);
      }
    }
  }

  /**
   * Two declarations of one slot of one bind group that differ make the merge fail, whichever
   * of the two comes first (the earlier one being the first binding of its group in that slot).
   */
  lemma ConflictRejected<P>(groups: seq<BindGroupDescriptor<P>>, i: nat, j: nat, first: Binding<P>, second: Binding<P>)
    requires i < j < |groups| && groups[i].index == groups[j].index
    requires FindBinding(groups[i].bindings, first.index) == Some(first)
    requires second in groups[j].bindings && second.index == first.index
    requires first != second
    ensures MergeGroups(map[], groups).Err?
  {
    FirstInSlotAgrees(groups, i, first);
    IndicesMembers(groups[..j], groups[j].index);
    assert groups[..j][i] == groups[i];
    MergeGroupsAgree(map[], groups, j, second);
  }

  lemma PrefixTransitive<T>(a: seq<T>, b: seq<T>, c: seq<T>)
    requires a <= b && b <= c
    ensures a <= c
  {
    assert c[..|b|][..|a|] == c[..|a|];
  }
}
