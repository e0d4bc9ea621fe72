/**
 * Group bookkeeping over the document: the first-seen GroupSortKey of each
 * group (_get_or_assign_initial_group_sort_key) and the list of group names
 * (get_groups).
 */
module GroupKeys {
  import opened Outcomes
  import opened Text
  import opened Sorting
  import opened Store

  /** The record has a GroupSortKey and belongs to group g. */
  predicate KeyedIn(r: Record, g: string) {
    r.groupSortKey.Some? && GroupOf(r) == g
  }

  /**
   * The dictionary the bootstrap builds: for every group, the GroupSortKey of
   * the first record of ids (in order) that belongs to it and has one. A
   * later record of the same group with a different key is only reported.
   */
  function FirstKeys(recs: map<Id, Record>, ids: seq<Id>): map<string, int>
    requires forall id :: id in ids ==> id in recs
  {
    if ids == [] then map[]
    else
      var m := FirstKeys(recs, ids[..|ids| - 1]);
      var r := recs[ids[|ids| - 1]];
      if r.groupSortKey.Some? && GroupOf(r) !in m then m[GroupOf(r) := r.groupSortKey.value] else m
  }

  /** The groups of FirstKeys in the order the dictionary received them. */
  function SeenGroups(recs: map<Id, Record>, ids: seq<Id>): (r: seq<string>)
    requires forall id :: id in ids ==> id in recs
    ensures forall g :: g in r <==> g in FirstKeys(recs, ids)
    ensures Distinct(r)
  {
    if ids == [] then []
    else
      var m := FirstKeys(recs, ids[..|ids| - 1]);
      var seen := SeenGroups(recs, ids[..|ids| - 1]);
      var r := recs[ids[|ids| - 1]];
      if r.groupSortKey.Some? && GroupOf(r) !in m then seen + [GroupOf(r)] else seen
  }

  /** max() over the dictionary's values, visited in the order of names. */
  function MaxKey(m: map<string, int>, names: seq<string>): (mx: int)
    requires names != [] && forall g :: g in names ==> g in m
    ensures mx in m.Values
    ensures forall g :: g in names ==> m[g] <= mx
  {
    var last := names[|names| - 1];
    if |names| == 1 then m[last]
    else
      var rest := MaxKey(m, names[..|names| - 1]);
      assert forall g :: g in names ==> g in names[..|names| - 1] || g == last;
      if m[last] > rest then m[last] else rest
  }

  /**
   * The key _get_or_assign_initial_group_sort_key returns for group g: the
   * group's first-seen key, or one more than the largest first-seen key,
   * or 0 when no variable has a key yet.
   */
  function InitialGroupKey(st: Store, g: string): int
    requires st.WellFormed()
  {
    var m := FirstKeys(st.recs, st.order);
    var seen := SeenGroups(st.recs, st.order);
    if g in m then m[g]
    else if seen == [] then 0
    else MaxKey(m, seen) + 1
  }

  lemma {:induction false} FirstKeysSpec(recs: map<Id, Record>, ids: seq<Id>, g: string)
    requires forall id :: id in ids ==> id in recs
    ensures g in FirstKeys(recs, ids) <==> exists k :: 0 <= k < |ids| && KeyedIn(recs[ids[k]], g)
    ensures forall k :: 0 <= k < |ids| && KeyedIn(recs[ids[k]], g) &&
                        (forall j :: 0 <= j < k ==> !KeyedIn(recs[ids[j]], g)) ==>
                        FirstKeys(recs, ids)[g] == recs[ids[k]].groupSortKey.value
  {
    if ids != [] {
      var init := ids[..|ids| - 1];
      FirstKeysSpec(recs, init, g);
      assert forall k :: 0 <= k < |init| ==> init[k] == ids[k];
    }
  }

  /** An existing group gets back the key of its first member that has one. */
  lemma InitialKeyOfExistingGroup(st: Store, g: string, k: nat)
    requires st.WellFormed() && k < |st.order|
    requires KeyedIn(st.recs[st.order[k]], g)
    requires forall j :: 0 <= j < k ==> !KeyedIn(st.recs[st.order[j]], g)
    ensures InitialGroupKey(st, g) == st.recs[st.order[k]].groupSortKey.value
  {
    FirstKeysSpec(st.recs, st.order, g);
  }

  /**
   * A group no keyed variable belongs to gets a key above the first-seen key
   * of every group: one more than the largest of them, or 0 when no variable
   * has a key at all.
   */
  lemma InitialKeyOfNewGroup(st: Store, g: string)
    requires st.WellFormed()
    requires forall id :: id in st.recs ==> !KeyedIn(st.recs[id], g)
    ensures (forall id :: id in st.recs ==> st.recs[id].groupSortKey.None?) ==> InitialGroupKey(st, g) == 0
    ensures forall h :: h in FirstKeys(st.recs, st.order) ==> FirstKeys(st.recs, st.order)[h] < InitialGroupKey(st, g)
    ensures FirstKeys(st.recs, st.order) != map[] ==> InitialGroupKey(st, g) - 1 in FirstKeys(st.recs, st.order).Values
  {
    FirstKeysSpec(st.recs, st.order, g);
    var m := FirstKeys(st.recs, st.order);
    if forall id :: id in st.recs ==> st.recs[id].groupSortKey.None? {
      forall h ensures h !in m {
        FirstKeysSpec(st.recs, st.order, h);
      }
    }
  }

  /**
   * _get_or_assign_initial_group_sort_key: scan the variables in document
   * order building the first-seen key of every group, then answer for
   * `group`.
   */
  method GetOrAssignInitialGroupSortKey(doc: Document, group: string) returns (key: int)
    requires doc.State().WellFormed()
    ensures key == InitialGroupKey(doc.State(), group)
  {
    var processed: map<string, int> := map[];
    var seen: seq<string> := [];
    var i := 0;
    while i < |doc.order|
      invariant 0 <= i <= |doc.order|
      invariant processed == FirstKeys(doc.recs, doc.order[..i])
      invariant seen == SeenGroups(doc.recs, doc.order[..i])
    {
      ghost var ids := doc.order[..i + 1];
      assert ids[..|ids| - 1] == doc.order[..i] && ids[|ids| - 1] == doc.order[i];
      var r := doc.recs[doc.order[i]];
      if r.groupSortKey.Some? {
        var g := GroupOf(r);
        if g !in processed {
          processed := processed[g := r.groupSortKey.value];
          seen := seen + [g];
        }
        // otherwise an inconsistent key is only reported, the first one stays
      }
      i := i + 1;
    }
    assert doc.order[..i] == doc.order;
    if group in processed {
      return processed[group];
    }
    var currentMax := -1;
    if processed != map[] {
      currentMax := MaxOfValues(processed, seen);
    }
    key := currentMax + 1;
  }

  /** One more name visited: max() compares its value with the maximum so far. */
  lemma MaxKeyNext(m: map<string, int>, names: seq<string>, j: nat)
    requires 0 < j < |names| && forall g :: g in names ==> g in m
    ensures MaxKey(m, names[..j + 1]) ==
              if m[names[j]] > MaxKey(m, names[..j]) then m[names[j]] else MaxKey(m, names[..j])
  {
    assert names[..j + 1][..j] == names[..j];
  }

  /** max(processed_groups_keys.values()), visiting the keys in insertion order. */
  method MaxOfValues(processed: map<string, int>, seen: seq<string>) returns (mx: int)
    requires processed != map[]
    requires forall g :: g in seen <==> g in processed
    ensures seen != [] && mx == MaxKey(processed, seen)
  {
    assert seen != [] by {
      var g :| g in processed;
      assert g in seen;
    }
    mx := processed[seen[0]];
    var j := 1;
    while j < |seen|
      invariant 1 <= j <= |seen|
      invariant mx == MaxKey(processed, seen[..j])
    {
      MaxKeyNext(processed, seen, j);
      if processed[seen[j]] > mx {
        mx := processed[seen[j]];
      }
      j := j + 1;
    }
    assert seen[..j] == seen;
  }

  /** The distinct groups of the records of ids, in order of first appearance. */
  function DistinctGroups(recs: map<Id, Record>, ids: seq<Id>): (r: seq<string>)
    requires forall id :: id in ids ==> id in recs
    ensures Distinct(r)
    ensures forall g :: g in r <==> exists id :: id in ids && recs[id].group == g
  {
    if ids == [] then []
    else
      var rest := DistinctGroups(recs, ids[..|ids| - 1]);
      var last := ids[|ids| - 1];
      assert forall id :: id in ids <==> id in ids[..|ids| - 1] || id == last;
      if recs[last].group in rest then rest else rest + [recs[last].group]
  }

  function NameItems(names: seq<string>): (r: seq<Item<()>>)
    ensures |r| == |names|
    ensures forall k :: 0 <= k < |r| ==> r[k] == Item(0, names[k], ())
  {
    seq(|names|, k requires 0 <= k < |names| => Item(0, names[k], ()))
  }

  /** Sorting distinct names as items of equal key lists them in strictly increasing order. */
  lemma SortNames(names: seq<string>)
    requires Distinct(names)
    ensures forall i, j :: 0 <= i < j < |Names(Sort(NameItems(names)))| ==>
              LexLess(Names(Sort(NameItems(names)))[i], Names(Sort(NameItems(names)))[j])
    ensures forall g :: g in Names(Sort(NameItems(names))) <==> g in names
  {
    SortNamesOrdered(names);
    SortNamesMembers(names);
  }

  /** The order half of SortNames: every key is 0 and the names are distinct, so the names decide. */
  lemma SortNamesOrdered(names: seq<string>)
    requires Distinct(names)
    ensures forall i, j :: 0 <= i < j < |Names(Sort(NameItems(names)))| ==>
              LexLess(Names(Sort(NameItems(names)))[i], Names(Sort(NameItems(names)))[j])
  {
    var items := NameItems(names);
    var sorted := Sort(items);
    assert DistinctRanks(items);
    PermutationKeepsDistinctRanks(items, sorted);
    SortedDistinctIsStrict(sorted);
    forall k | 0 <= k < |sorted| ensures sorted[k].key == 0 {
      assert sorted[k] in multiset(items);
    }
  }

  /** The membership half of SortNames: sorting keeps exactly the names it was given. */
  lemma SortNamesMembers(names: seq<string>)
    ensures forall g :: g in Names(Sort(NameItems(names))) <==> g in names
  {
    var items := NameItems(names);
    var sorted := Sort(items);
    forall g ensures g in Names(sorted) <==> g in names {
      if g in names {
        var k :| 0 <= k < |names| && names[k] == g;
        assert items[k] in multiset(sorted);
        var s :| 0 <= s < |sorted| && sorted[s] == items[k];
        assert Names(sorted)[s] == g;
      }
      if g in Names(sorted) {
        var s :| 0 <= s < |sorted| && Names(sorted)[s] == g;
        assert sorted[s] in multiset(items);
        var k :| 0 <= k < |items| && items[k] == sorted[s];
        assert names[k] == g;
      }
    }
  }

  /**
   * get_groups: every group a variable is stored in, with "Default" always
   * among them, sorted and without repetition.
   */
  function GetGroups(st: Store): (r: seq<string>)
    requires st.WellFormed()
    ensures forall i, j :: 0 <= i < j < |r| ==> LexLess(r[i], r[j])
    ensures forall g :: g in r <==> g == DefaultGroup || exists id :: id in st.recs && st.recs[id].group == g
  {
    var found := DistinctGroups(st.recs, st.order);
    var groups := if DefaultGroup in found then found else found + [DefaultGroup];
    assert Distinct(groups);
    SortNames(groups);
    Names(Sort(NameItems(groups)))
  }
}
