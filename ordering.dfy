/**
 * Ordering of the merged bind groups: the drained accumulator is sorted ascending by
 * bind-group index (`bind_groups_result.sort_by(...)`), which makes the result independent
 * of the map's iteration order.
 */
module Ordering {
  import opened Descriptors
  import opened MergeSpec

  ghost predicate Ascending<P>(groups: seq<BindGroupDescriptor<P>>)
  {
    forall i, j :: 0 <= i < j < |groups| ==> groups[i].index <= groups[j].index
  }

  ghost predicate StrictlyAscending<P>(groups: seq<BindGroupDescriptor<P>>)
  {
    forall i, j :: 0 <= i < j < |groups| ==> groups[i].index < groups[j].index
  }

  lemma {:induction false} MinExists(keys: set<nat>)
    requires keys != {}
    ensures exists k :: k in keys && forall j :: j in keys ==> k <= j
    decreases keys
  {
    var x :| x in keys;
    var rest := keys - {x};
    var least := x;
    if rest != {} {
      MinExists(rest);
      var y :| y in rest && forall j :: j in rest ==> y <= j;
      least := if x < y then x else y;
    }
    forall j | j in keys ensures least <= j {
      if j != x {
        assert j in rest;
      }
    }
    assert least in keys;
  }

  /** The smallest index of a non-empty set of indices. */
  ghost function MinIndex(keys: set<nat>): (k: nat)
    requires keys != {}
    ensures k in keys && forall j :: j in keys ==> k <= j
  {
    MinExists(keys);
    var k :| k in keys && forall j :: j in keys ==> k <= j;
    k
  }

  /** The groups of the accumulator, smallest index first. */
  ghost function SortedValues<P>(acc: Accumulator<P>): (r: seq<BindGroupDescriptor<P>>)
    ensures |r| == |acc.Keys|
    decreases acc.Keys
  {
    if acc == map[] then []
    else
      var k := MinIndex(acc.Keys);
      assert (acc - {k}).Keys == acc.Keys - {k};
      [acc[k]] + SortedValues(acc - {k})
  }

  /** Every sorted group is a group of the accumulator, stored under its own index. */
  lemma {:induction false} SortedValuesDrawn<P>(acc: Accumulator<P>)
    requires KeyedByIndex(acc)
    ensures forall g :: g in SortedValues(acc) ==> g.index in acc && acc[g.index] == g
    decreases acc.Keys
  {
    if acc != map[] {
      var k := MinIndex(acc.Keys);
      SortedValuesDrawn(acc - {k});
      assert SortedValues(acc) == [acc[k]] + SortedValues(acc - {k});
    }
  }

  /** Every group of the accumulator is among the sorted groups. */
  lemma {:induction false} SortedValuesCovers<P>(acc: Accumulator<P>)
    ensures forall k :: k in acc ==> acc[k] in SortedValues(acc)
    decreases acc.Keys
  {
    if acc != map[] {
      var k := MinIndex(acc.Keys);
      var rest := acc - {k};
      SortedValuesCovers(rest);
      assert SortedValues(acc) == [acc[k]] + SortedValues(rest);
      forall j | j in acc ensures acc[j] in SortedValues(acc) {
        if j != k {
          assert j in rest;
        }
      }
    }
  }

  /** The sorted groups are strictly ascending by index. */
  lemma {:induction false} SortedValuesAscending<P>(acc: Accumulator<P>)
    requires KeyedByIndex(acc)
    ensures StrictlyAscending(SortedValues(acc))
    decreases acc.Keys
  {
    if acc != map[] {
      var k := MinIndex(acc.Keys);
      var rest := acc - {k};
      var tail := SortedValues(rest);
      SortedValuesAscending(rest);
      SortedValuesDrawn(rest);
      var s := SortedValues(acc);
      assert s == [acc[k]] + tail;
      forall i, j | 0 <= i < j < |s| ensures s[i].index < s[j].index {
        assert s[j] == tail[j - 1] && s[j] in tail;
        if i > 0 {
          assert s[i] == tail[i - 1];
        }
      }
    }
  }

  /** The sorted groups are strictly ascending by index and are exactly the accumulated groups. */
  lemma SortedValuesFacts<P>(acc: Accumulator<P>)
    requires KeyedByIndex(acc)
    ensures StrictlyAscending(SortedValues(acc))
    ensures forall g :: g in SortedValues(acc) ==> g.index in acc && acc[g.index] == g
    ensures forall k :: k in acc ==> acc[k] in SortedValues(acc)
  {
    SortedValuesAscending(acc);
    SortedValuesDrawn(acc);
    SortedValuesCovers(acc);
  }

  /** The indices of the sorted groups are exactly the accumulator's indices. */
  lemma SortedValuesIndices<P>(acc: Accumulator<P>)
    requires KeyedByIndex(acc)
    ensures Indices(SortedValues(acc)) == acc.Keys
  {
    var result := SortedValues(acc);
    SortedValuesDrawn(acc);
    SortedValuesCovers(acc);
    forall k ensures k in Indices(result) <==> k in acc {
      IndicesMembers(result, k);
      if k in acc {
        var j :| 0 <= j < |result| && result[j] == acc[k];
      }
    }
  }

  /** The groups of `s` are groups of `acc`, each stored under its own index. */
  ghost predicate DrawnFrom<P>(acc: Accumulator<P>, s: seq<BindGroupDescriptor<P>>)
  {
    forall g :: g in s ==> g.index in acc && acc[g.index] == g
  }

  /** Every group of `acc` occurs in `s`. */
  ghost predicate Covers<P>(acc: Accumulator<P>, s: seq<BindGroupDescriptor<P>>)
  {
    forall k :: k in acc ==> acc[k] in s
  }

  /** No group occurs twice in `s`. */
  ghost predicate Once<P>(s: seq<BindGroupDescriptor<P>>)
  {
    forall g :: g in s ==> multiset(s)[g] <= 1
  }

  /** An ascending arrangement of the groups of a non-empty accumulator starts with the smallest index. */
  lemma ArrangementHead<P>(acc: Accumulator<P>, s: seq<BindGroupDescriptor<P>>)
    requires acc != map[] && KeyedByIndex(acc)
    requires Ascending(s) && DrawnFrom(acc, s) && Covers(acc, s)
    ensures s != [] && s[0].index == MinIndex(acc.Keys) && s[0] == acc[MinIndex(acc.Keys)]
  {
    var k := MinIndex(acc.Keys);
    assert acc[k] in s;
    var p :| 0 <= p < |s| && s[p] == acc[k];
    assert s[0] in s;
    assert s[0].index <= s[p].index;
  }

  /** Removing the head of such an arrangement arranges the rest of the accumulator. */
  lemma ArrangementTail<P>(acc: Accumulator<P>, s: seq<BindGroupDescriptor<P>>)
    requires KeyedByIndex(acc)
    requires s != [] && s[0].index in acc && acc[s[0].index] == s[0]
    requires DrawnFrom(acc, s) && Covers(acc, s) && Once(s)
    ensures DrawnFrom(acc - {s[0].index}, s[1..]) && Covers(acc - {s[0].index}, s[1..]) && Once(s[1..])
  {
    var k := s[0].index;
    var t := s[1..];
    assert s == [s[0]] + t;
    assert multiset(s) == multiset{s[0]} + multiset(t);
    assert multiset(s)[s[0]] == 1 + multiset(t)[s[0]];
    assert s[0] in s && multiset(s)[s[0]] <= 1;
    forall g | g in t ensures g.index in acc - {k} && (acc - {k})[g.index] == g {
      assert g in s;
    }
    forall j | j in acc - {k} ensures (acc - {k})[j] in t {
      assert acc[j] in s && acc[j] != s[0];
    }
    forall g | g in t ensures multiset(t)[g] <= 1 {
      assert g in s;
      assert multiset(s)[g] == multiset{s[0]}[g] + multiset(t)[g];
    }
  }

  lemma AscendingTail<P>(s: seq<BindGroupDescriptor<P>>)
    requires s != [] && Ascending(s)
    ensures Ascending(s[1..])
  {
    forall i, j | 0 <= i < j < |s| - 1 ensures s[1..][i].index <= s[1..][j].index {
      assert s[1..][i] == s[i + 1] && s[1..][j] == s[j + 1];
    }
  }

  /**
   * Any arrangement of the accumulated groups, each exactly once, that is ascending by index
   * is the sorted one: sorting the drained map leaves no freedom.
   */
  lemma {:induction false} SortedValuesUnique<P>(acc: Accumulator<P>, s: seq<BindGroupDescriptor<P>>)
    requires KeyedByIndex(acc)
    requires Ascending(s) && DrawnFrom(acc, s) && Covers(acc, s) && Once(s)
    ensures s == SortedValues(acc)
    decreases |s|
  {
    if s == [] {
      assert acc.Keys == {};
      assert acc == map[];
    } else {
      ArrangementStep(acc, s);
      SortedValuesUnique(acc - {s[0].index}, s[1..]);
      assert s == [s[0]] + s[1..];
    }
  }

  /** The head of an ascending arrangement is the smallest group, and its tail arranges the rest. */
  lemma ArrangementStep<P>(acc: Accumulator<P>, s: seq<BindGroupDescriptor<P>>)
    requires KeyedByIndex(acc) && s != []
    requires Ascending(s) && DrawnFrom(acc, s) && Covers(acc, s) && Once(s)
    ensures acc != map[] && s[0] == acc[s[0].index]
    ensures SortedValues(acc) == [s[0]] + SortedValues(acc - {s[0].index})
    ensures KeyedByIndex(acc - {s[0].index})
    ensures Ascending(s[1..]) && DrawnFrom(acc - {s[0].index}, s[1..]) && Covers(acc - {s[0].index}, s[1..]) && Once(s[1..])
  {
    assert s[0] in s;
    ArrangementHead(acc, s);
    ArrangementTail(acc, s);
    AscendingTail(s);
  }

  /** Exchanges the groups at positions `j - 1` and `j`. */
  method SwapAdjacent<P>(a: array<BindGroupDescriptor<P>>, j: nat)
    requires 0 < j < a.Length
    modifies a
    ensures a[..] == old(a[..])[j - 1 := old(a[j])][j := old(a[j - 1])]
    ensures multiset(a[..]) == multiset(old(a[..]))
  {
    a[j - 1], a[j] := a[j], a[j - 1];
  }

  /** `sort_by` on the index: sorts the groups in place, ascending by index. */
  method SortByIndex<P>(a: array<BindGroupDescriptor<P>>)
    modifies a
    ensures Ascending(a[..])
    ensures multiset(a[..]) == multiset(old(a[..]))
  {
    var i := 0;
    while i < a.Length
      invariant 0 <= i <= a.Length
      invariant forall p, q :: 0 <= p < q < i ==> a[p].index <= a[q].index
      invariant multiset(a[..]) == multiset(old(a[..]))
    {
      var j := i;
      while j > 0 && a[j - 1].index > a[j].index
        invariant 0 <= j <= i
        invariant forall p, q :: 0 <= p < q <= i && p != j && q != j ==> a[p].index <= a[q].index
        invariant forall q :: j < q <= i ==> a[j].index < a[q].index
        invariant multiset(a[..]) == multiset(old(a[..]))
      {
        SwapAdjacent(a, j);
        j := j - 1;
      }
      i := i + 1;
    }
  }
}
