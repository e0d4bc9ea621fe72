/**
 * The ordering of groups (reorder_group): collect one GroupSortKey per
 * group, repairing variables that have none; rank the groups by
 * (key, name); move one group by a clamped delta; then give every variable
 * the index of its group in the new ranking.
 */
module GroupOrder {
  import opened Outcomes
  import opened Text
  import opened Sorting
  import opened Store
  import opened GroupKeys
  import opened Ordering

  /** The state of the collection loop: the records, groups_data, and its keys in insertion order. */
  datatype Collected = Collected(recs: map<Id, Record>, keys: map<string, int>, names: seq<string>)

  /**
   * One turn of the collection loop. A variable with a key contributes it
   * when its group has none yet. A variable without one is repaired: the
   * property is added (holding 0), the bootstrap key is computed on the
   * document as it then is, stored, and recorded for the group, replacing
   * whatever the group had.
   */
  function CollectStep(st: Store, c: Collected, id: Id): (d: Collected)
    requires st.WellFormed() && c.recs.Keys == st.recs.Keys && id in st.recs
    ensures d.recs.Keys == st.recs.Keys
    ensures d.recs == c.recs[id := c.recs[id].(groupSortKey := d.recs[id].groupSortKey)]
    ensures d.recs[id].groupSortKey.Some?
    ensures c.recs[id].groupSortKey.Some? ==> d.recs == c.recs
    ensures d.keys.Keys == c.keys.Keys + {GroupOf(c.recs[id])}
    ensures d.names == if GroupOf(c.recs[id]) in c.keys then c.names else c.names + [GroupOf(c.recs[id])]
  {
    var r := c.recs[id];
    var g := GroupOf(r);
    match r.groupSortKey
    case Some(k) => if g in c.keys then c else Collected(c.recs, c.keys[g := k], c.names + [g])
    case None =>
      var fix := RepairKey(st, c.recs, id);
      Collected(c.recs[id := r.(groupSortKey := Some(fix))], c.keys[g := fix],
                if g in c.keys then c.names else c.names + [g])
  }

  /**
   * The key a variable without one receives: the bootstrap key of its group,
   * computed once the property has been added with its default 0.
   */
  function RepairKey(st: Store, recs: map<Id, Record>, id: Id): int
    requires st.WellFormed() && recs.Keys == st.recs.Keys && id in st.recs
  {
    var probe := Store(recs[id := recs[id].(groupSortKey := Some(0))], st.order, st.nextId);
    assert probe.recs.Keys == st.recs.Keys;
    InitialGroupKey(probe, GroupOf(recs[id]))
  }

  /** Variable `i` holds a key, and its group one in groups_data. */
  predicate Keyed(c: Collected, i: Id) {
    i in c.recs && c.recs[i].groupSortKey.Some? && GroupOf(c.recs[i]) in c.keys
  }

  /** groups_data and its insertion order hold the same groups, each once. */
  ghost predicate NamesAgree(c: Collected) {
    (forall g :: g in c.keys <==> g in c.names) && Distinct(c.names)
  }

  /** The records differ from those of the document in GroupSortKey at most. */
  ghost predicate OnlyKeysChanged(st: Store, c: Collected) {
    c.recs.Keys == st.recs.Keys &&
    forall i :: i in st.recs ==> c.recs[i] == st.recs[i].(groupSortKey := c.recs[i].groupSortKey)
  }

  /**
   * What the collection loop has established after visiting the first
   * `upto` variables: the visited ones are keyed, the others untouched, the
   * groups recorded are those of visited variables, and a variable that
   * had a key keeps it.
   */
  ghost predicate Invariant(st: Store, c: Collected, upto: nat)
    requires upto <= |st.order| && forall id :: id in st.order ==> id in st.recs
  {
    OnlyKeysChanged(st, c) && NamesAgree(c) &&
    (forall k :: upto <= k < |st.order| ==> c.recs[st.order[k]] == st.recs[st.order[k]]) &&
    (forall k {:trigger Keyed(c, st.order[k])} :: 0 <= k < upto ==> Keyed(c, st.order[k])) &&
    c.keys.Keys <= VisitedGroups(st, upto) &&
    (forall i :: i in st.recs && st.recs[i].groupSortKey.Some? ==> c.recs[i] == st.recs[i])
  }

  /** The collection loop after the first `upto` variables in document order. */
  function Collect(st: Store, upto: nat): (c: Collected)
    requires st.WellFormed() && upto <= |st.order|
    ensures Invariant(st, c, upto)
  {
    if upto == 0 then Collected(st.recs, map[], [])
    else
      var n := upto - 1;
      var c := Collect(st, n);
      StepInvariant(st, c, n);
      CollectStep(st, c, st.order[n])
  }

  /** One turn of the loop keeps the invariant. */
  lemma StepInvariant(st: Store, c: Collected, n: nat)
    requires st.WellFormed() && n < |st.order| && Invariant(st, c, n)
    ensures Invariant(st, CollectStep(st, c, st.order[n]), n + 1)
  {
    var id := st.order[n];
    var d := CollectStep(st, c, id);
    StepNames(st, c, id);
    StepOnlyKeys(st, c, id);
    StepUntouched(st, c, n);
    StepKeyedAll(st, c, n);
    StepGroupsSeen(st, c, n);
    StepKeepsKeys(st, c, n);
  }

  lemma StepKeepsKeys(st: Store, c: Collected, n: nat)
    requires st.WellFormed() && n < |st.order| && c.recs.Keys == st.recs.Keys
    requires c.recs[st.order[n]] == st.recs[st.order[n]]
    requires forall i :: i in st.recs && st.recs[i].groupSortKey.Some? ==> c.recs[i] == st.recs[i]
    ensures forall i :: i in st.recs && st.recs[i].groupSortKey.Some? ==> CollectStep(st, c, st.order[n]).recs[i] == st.recs[i]
  {
    var id := st.order[n];
    var d := CollectStep(st, c, id);
    forall i | i in st.recs && st.recs[i].groupSortKey.Some? ensures d.recs[i] == st.recs[i] {
      if i == id {
        assert d.recs == c.recs;
      } else {
        assert d.recs[i] == c.recs[i];
      }
    }
  }

  lemma StepNames(st: Store, c: Collected, id: Id)
    requires st.WellFormed() && c.recs.Keys == st.recs.Keys && id in st.recs && NamesAgree(c)
    ensures NamesAgree(CollectStep(st, c, id))
  {
    var g := GroupOf(c.recs[id]);
    if g !in c.keys {
      DistinctSnoc(c.names, g);
    }
  }

  lemma StepOnlyKeys(st: Store, c: Collected, id: Id)
    requires st.WellFormed() && id in st.recs && OnlyKeysChanged(st, c)
    ensures OnlyKeysChanged(st, CollectStep(st, c, id))
  {
    var d := CollectStep(st, c, id);
    forall i | i in st.recs ensures d.recs[i] == st.recs[i].(groupSortKey := d.recs[i].groupSortKey) {
      assert c.recs[i] == st.recs[i].(groupSortKey := c.recs[i].groupSortKey);
    }
  }

  lemma StepUntouched(st: Store, c: Collected, n: nat)
    requires st.WellFormed() && n < |st.order| && c.recs.Keys == st.recs.Keys
    requires forall k :: n <= k < |st.order| ==> c.recs[st.order[k]] == st.recs[st.order[k]]
    ensures forall k :: n + 1 <= k < |st.order| ==> CollectStep(st, c, st.order[n]).recs[st.order[k]] == st.recs[st.order[k]]
  {
    var d := CollectStep(st, c, st.order[n]);
    forall k | n + 1 <= k < |st.order| ensures d.recs[st.order[k]] == st.recs[st.order[k]] {
      assert st.order[k] != st.order[n];
    }
  }

  /** A turn of the loop keys the variable it visits and keeps every other variable keyed. */
  lemma StepKeys(st: Store, c: Collected, id: Id, i: Id)
    requires st.WellFormed() && c.recs.Keys == st.recs.Keys && id in st.recs
    requires i == id || Keyed(c, i)
    ensures Keyed(CollectStep(st, c, id), i)
  {
    var d := CollectStep(st, c, id);
    if i != id {
      assert d.recs[i] == c.recs[i];
    } else {
      assert GroupOf(d.recs[id]) == GroupOf(c.recs[id]);
    }
  }

  lemma StepKeyedAll(st: Store, c: Collected, n: nat)
    requires st.WellFormed() && n < |st.order| && c.recs.Keys == st.recs.Keys
    requires forall k :: 0 <= k < n ==> Keyed(c, st.order[k])
    ensures forall k :: 0 <= k < n + 1 ==> Keyed(CollectStep(st, c, st.order[n]), st.order[k])
  {
    forall k | 0 <= k < n + 1 ensures Keyed(CollectStep(st, c, st.order[n]), st.order[k]) {
      StepKeys(st, c, st.order[n], st.order[k]);
    }
  }

  lemma StepGroupsSeen(st: Store, c: Collected, n: nat)
    requires st.WellFormed() && n < |st.order| && OnlyKeysChanged(st, c)
    requires c.keys.Keys <= VisitedGroups(st, n)
    ensures CollectStep(st, c, st.order[n]).keys.Keys <= VisitedGroups(st, n + 1)
  {
    var id := st.order[n];
    assert c.recs[id] == st.recs[id].(groupSortKey := c.recs[id].groupSortKey);
  }

  /** The groups of the first `upto` variables in document order. */
  function VisitedGroups(st: Store, upto: nat): set<string>
    requires upto <= |st.order| && forall id :: id in st.order ==> id in st.recs
  {
    if upto == 0 then {}
    else
      var n := upto - 1;
      VisitedGroups(st, n) + {GroupOf(st.recs[st.order[n]])}
  }

  lemma {:induction false} VisitedGroupsSpec(st: Store, upto: nat, g: string)
    requires upto <= |st.order| && forall id :: id in st.order ==> id in st.recs
    ensures g in VisitedGroups(st, upto) <==> exists k :: 0 <= k < upto && GroupOf(st.recs[st.order[k]]) == g
  {
    if upto > 0 {
      var n := upto - 1;
      VisitedGroupsSpec(st, n, g);
      if GroupOf(st.recs[st.order[n]]) == g {
        assert 0 <= n < upto && GroupOf(st.recs[st.order[n]]) == g;
      }
    }
  }

  /** The groups of groups_data as the items sorted() compares: (key, name). */
  function GroupItems(keys: map<string, int>, names: seq<string>): (r: seq<Item<string>>)
    requires forall g :: g in names ==> g in keys
    ensures |r| == |names|
    ensures forall k :: 0 <= k < |names| ==> r[k] == Item(keys[names[k]], names[k], names[k])
  {
    seq(|names|, k requires 0 <= k < |names| => Item(keys[names[k]], names[k], names[k]))
  }

  /** sorted_groups: the group names in (key, name) order. */
  function Ranking(c: Collected): seq<string>
    requires forall g :: g in c.keys <==> g in c.names
  {
    Payloads(Sort(GroupItems(c.keys, c.names)))
  }

  /** The ranking lists each collected group once, strictly by (key, name). */
  lemma RankingSpec(c: Collected)
    requires forall g :: g in c.keys <==> g in c.names
    requires Distinct(c.names)
    ensures forall g :: g in Ranking(c) <==> g in c.keys
    ensures Distinct(Ranking(c))
    ensures forall i, j :: 0 <= i < j < |Ranking(c)| ==>
              Before(Item(c.keys[Ranking(c)[i]], Ranking(c)[i], ()), Item(c.keys[Ranking(c)[j]], Ranking(c)[j], ()))
  {
    var items := GroupItems(c.keys, c.names);
    var sorted := Sort(items);
    assert Payloads(items) == c.names;
    PermutationPayloads(items, sorted);
    PermutationKeepsDistinctPayloads(items, sorted);
    forall k | 0 <= k < |sorted| ensures sorted[k] == Item(c.keys[sorted[k].payload], sorted[k].payload, sorted[k].payload) {
      assert sorted[k] in multiset(items);
    }
    assert DistinctRanks(items);
    PermutationKeepsDistinctRanks(items, sorted);
    SortedDistinctIsStrict(sorted);
  }

  /** The new index of the moved group: ±inf go to the ends, and the sum is clamped to 0..m-1. */
  function Target(cur: nat, m: nat, delta: Delta): (t: nat)
    requires cur < m
    ensures t < m
  {
    var raw := match delta
               case ToTop => 0
               case ToBottom => m - 1
               case Rel(d) => cur + d;
    if raw < 0 then 0 else if raw > m - 1 then m - 1 else raw
  }

  /** The records with every GroupSortKey set to the index of the group in `ranking`. */
  function AssignGroupKeys(recs: map<Id, Record>, ranking: seq<string>): map<Id, Record> {
    map i | i in recs :: recs[i].(groupSortKey := Some(IndexOf(ranking, GroupOf(recs[i]))))
  }

  /** Numbering by a ranking touches only GroupSortKey. */
  lemma AssignGroupKeysKeep(recs: map<Id, Record>, ranking: seq<string>)
    ensures AssignGroupKeys(recs, ranking).Keys == recs.Keys
    ensures forall i :: i in recs ==>
              AssignGroupKeys(recs, ranking)[i] == recs[i].(groupSortKey := AssignGroupKeys(recs, ranking)[i].groupSortKey)
  {
  }

  /** Some stored key differs from the index of its group in `ranking`. */
  predicate KeysDiffer(recs: map<Id, Record>, ranking: seq<string>) {
    exists i :: i in recs && recs[i].groupSortKey != Some(IndexOf(ranking, GroupOf(recs[i])))
  }

  /** The document once the collection loop has run: every variable keyed, nothing else changed. */
  function Repaired(st: Store): Store
    requires st.WellFormed()
  {
    Store(Collect(st, |st.order|).recs, st.order, st.nextId)
  }

  /** sorted_groups as the collection loop leaves it. */
  function GroupRanking(st: Store): seq<string>
    requires st.WellFormed()
  {
    Ranking(Collect(st, |st.order|))
  }

  /** reorder_group: the store it leaves and the value it returns. */
  datatype Outcome = Outcome(store: Store, changed: bool)

  function ReorderGroupSpec(st: Store, name: string, delta: Delta): Outcome
    requires st.WellFormed()
  {
    var c := Collect(st, |st.order|);
    if c.keys == map[] then Outcome(Repaired(st), false)
    else
      var ranking := GroupRanking(st);
      var cur := IndexOf(ranking, name);
      if cur == -1 then Outcome(Repaired(st), false)
      else
        var t := Target(cur, |ranking|, delta);
        if t == cur then Outcome(Repaired(st), false)
        else
          var moved := Move(ranking, cur, t);
          Outcome(Store(AssignGroupKeys(c.recs, moved), st.order, st.nextId), KeysDiffer(c.recs, moved))
  }

  /** Once the loop has run, every variable is keyed, with its group in groups_data. */
  lemma CollectKeysAll(st: Store)
    requires st.WellFormed()
    ensures forall i {:trigger Keyed(Collect(st, |st.order|), i)} :: i in st.recs ==> Keyed(Collect(st, |st.order|), i)
    ensures forall i :: i in st.recs ==> GroupOf(Collect(st, |st.order|).recs[i]) == GroupOf(st.recs[i])
  {
    var c := Collect(st, |st.order|);
    forall i | i in st.recs ensures Keyed(c, i) && GroupOf(c.recs[i]) == GroupOf(st.recs[i]) {
      assert i in st.order;
      var k :| 0 <= k < |st.order| && st.order[k] == i;
      assert Keyed(c, st.order[k]);
      assert c.recs[i] == st.recs[i].(groupSortKey := c.recs[i].groupSortKey);
    }
  }

  /** groups_data ends up holding exactly the groups of the document. */
  lemma CollectCovers(st: Store)
    requires st.WellFormed()
    ensures forall g :: g in Collect(st, |st.order|).keys <==> exists i :: i in st.recs && GroupOf(st.recs[i]) == g
  {
    forall g | g in Collect(st, |st.order|).keys ensures exists i :: i in st.recs && GroupOf(st.recs[i]) == g {
      CollectedGroupOccurs(st, g);
    }
    CollectKeysAll(st);
    forall i | i in st.recs ensures GroupOf(st.recs[i]) in Collect(st, |st.order|).keys {
      assert Keyed(Collect(st, |st.order|), i);
    }
  }

  /** A group of groups_data is the group of some variable. */
  lemma CollectedGroupOccurs(st: Store, g: string)
    requires st.WellFormed() && g in Collect(st, |st.order|).keys
    ensures exists i :: i in st.recs && GroupOf(st.recs[i]) == g
  {
    assert g in VisitedGroups(st, |st.order|) by {
      var c := Collect(st, |st.order|);
      assert c.keys.Keys <= VisitedGroups(st, |st.order|);
    }
    VisitedGroupOccurs(st, g);
  }

  /** A visited group is the group of some variable. */
  lemma VisitedGroupOccurs(st: Store, g: string)
    requires forall id :: id in st.order ==> id in st.recs
    requires g in VisitedGroups(st, |st.order|)
    ensures exists i :: i in st.recs && GroupOf(st.recs[i]) == g
  {
    VisitedGroupsSpec(st, |st.order|, g);
    var k :| 0 <= k < |st.order| && GroupOf(st.recs[st.order[k]]) == g;
    assert st.order[k] in st.recs;
  }

  /**
   * `st'` is `st` with GroupSortKey set on every variable and nothing else
   * changed.
   */
  ghost predicate Rekeyed(st: Store, st': Store) {
    st'.order == st.order && st'.nextId == st.nextId && st'.recs.Keys == st.recs.Keys &&
    forall i :: i in st.recs ==>
      st'.recs[i] == st.recs[i].(groupSortKey := st'.recs[i].groupSortKey) && st'.recs[i].groupSortKey.Some?
  }

  /**
   * The collection loop repairs without disturbing: only GroupSortKey
   * changes, every variable ends up with one, a variable that had one keeps
   * it, and the document stays well formed and valid.
   */
  lemma RepairedSpec(st: Store)
    requires st.WellFormed()
    ensures Rekeyed(st, Repaired(st))
    ensures forall i :: i in st.recs && st.recs[i].groupSortKey.Some? ==> Repaired(st).recs[i] == st.recs[i]
    ensures Repaired(st).WellFormed()
    ensures st.Valid() ==> Repaired(st).Valid()
  {
    CollectKeysAll(st);
    var c := Collect(st, |st.order|);
    forall i | i in st.recs ensures c.recs[i].groupSortKey.Some? {
      assert Keyed(c, i);
    }
    KeysOnlyPreserveValid(st, Repaired(st));
  }

  /** Two stores that differ only in GroupSortKey are equally well formed and valid. */
  lemma KeysOnlyPreserveValid(st: Store, st': Store)
    requires st.WellFormed()
    requires st'.order == st.order && st'.nextId == st.nextId && st'.recs.Keys == st.recs.Keys
    requires forall i :: i in st.recs ==> st'.recs[i] == st.recs[i].(groupSortKey := st'.recs[i].groupSortKey)
    ensures st'.WellFormed()
    ensures st.Valid() ==> st'.Valid()
  {
    if st.Valid() {
      SameLabelsValid(st, st'.recs);
      assert st' == Store(st'.recs, st.order, st.nextId);
    }
  }

  /** sorted_groups holds exactly the groups of the document. */
  lemma GroupRankingMembers(st: Store)
    requires st.WellFormed()
    ensures forall g :: g in GroupRanking(st) <==> exists i :: i in st.recs && GroupOf(st.recs[i]) == g
  {
    RankingSpec(Collect(st, |st.order|));
    CollectCovers(st);
  }

  /** sorted_groups lists each group of groups_data once, strictly by (key, name). */
  lemma GroupRankingSpec(st: Store)
    requires st.WellFormed()
    ensures forall g :: g in GroupRanking(st) <==> g in Collect(st, |st.order|).keys
    ensures Distinct(GroupRanking(st))
    ensures forall i, j :: 0 <= i < j < |GroupRanking(st)| ==>
              var keys := Collect(st, |st.order|).keys;
              Before(Item(keys[GroupRanking(st)[i]], GroupRanking(st)[i], ()), Item(keys[GroupRanking(st)[j]], GroupRanking(st)[j], ()))
  {
    RankingSpec(Collect(st, |st.order|));
  }

  /** Pop and insert keep the groups of a ranking, each once. */
  lemma MoveMembers(ranking: seq<string>, p: nat, t: nat)
    requires Distinct(ranking) && p < |ranking| && t < |ranking|
    ensures Distinct(Move(ranking, p, t))
    ensures forall g :: g in Move(ranking, p, t) <==> g in ranking
  {
    var moved := Move(ranking, p, t);
    PermutationKeepsDistinct(ranking, moved);
    forall g ensures g in moved <==> g in ranking {
      assert g in moved <==> g in multiset(moved);
      assert g in ranking <==> g in multiset(ranking);
    }
  }

  /** Pop and insert of a group in a ranking without duplicates. */
  lemma MoveRanking(ranking: seq<string>, p: nat, t: nat)
    requires Distinct(ranking) && p < |ranking| && t < |ranking|
    ensures Distinct(Move(ranking, p, t))
    ensures forall g :: g in Move(ranking, p, t) <==> g in ranking
    ensures IndexOf(Move(ranking, p, t), ranking[p]) == t
    ensures forall g, h :: g in ranking && h in ranking && g != ranking[p] && h != ranking[p] ==>
              (IndexOf(Move(ranking, p, t), g) < IndexOf(Move(ranking, p, t), h) <==> IndexOf(ranking, g) < IndexOf(ranking, h))
  {
    var moved := Move(ranking, p, t);
    MoveMembers(ranking, p, t);
    IndexOfDistinct(moved, t);
    forall g, h | g in ranking && h in ranking && g != ranking[p] && h != ranking[p]
      ensures IndexOf(moved, g) < IndexOf(moved, h) <==> IndexOf(ranking, g) < IndexOf(ranking, h)
    {
      var a, b := IndexOf(ranking, g), IndexOf(ranking, h);
      MovedPosition(ranking, p, t, a);
      MovedPosition(ranking, p, t, b);
      if a < b {
        MovedIndexMonotone(p, t, a, b);
      } else if b < a {
        MovedIndexMonotone(p, t, b, a);
      }
    }
  }

  /** Where the group at position k of a ranking without duplicates ends up. */
  lemma MovedPosition(ranking: seq<string>, p: nat, t: nat, k: nat)
    requires Distinct(ranking) && p < |ranking| && t < |ranking| && k < |ranking|
    ensures IndexOf(Move(ranking, p, t), ranking[k]) == MovedIndex(p, t, k)
  {
    var moved := Move(ranking, p, t);
    PermutationKeepsDistinct(ranking, moved);
    MoveAt(ranking, p, t, k);
    IndexOfDistinct(moved, MovedIndex(p, t, k));
  }

  /** Giving every variable the position of its group changes something exactly when some key differs. */
  lemma AssignChanges(recs: map<Id, Record>, ranking: seq<string>)
    ensures AssignGroupKeys(recs, ranking) != recs <==> KeysDiffer(recs, ranking)
  {
    var updated := AssignGroupKeys(recs, ranking);
    if KeysDiffer(recs, ranking) {
      var i :| i in recs && recs[i].groupSortKey != Some(IndexOf(ranking, GroupOf(recs[i])));
      assert updated[i] != recs[i];
    } else {
      forall i | i in recs ensures updated[i] == recs[i] {
        assert recs[i].groupSortKey == Some(IndexOf(ranking, GroupOf(recs[i])));
      }
      assert updated == recs;
    }
  }

  /** Giving every variable the position of its group in a ranking rekeys a repaired document. */
  lemma AssignFrame(st: Store, ranking: seq<string>)
    requires st.WellFormed()
    ensures Rekeyed(st, Store(AssignGroupKeys(Repaired(st).recs, ranking), st.order, st.nextId))
    ensures Store(AssignGroupKeys(Repaired(st).recs, ranking), st.order, st.nextId).WellFormed()
    ensures st.Valid() ==> Store(AssignGroupKeys(Repaired(st).recs, ranking), st.order, st.nextId).Valid()
  {
    var rp := Repaired(st);
    var out := Store(AssignGroupKeys(rp.recs, ranking), st.order, st.nextId);
    RepairedSpec(st);
    AssignGroupKeysKeep(rp.recs, ranking);
    forall i | i in st.recs ensures out.recs[i] == st.recs[i].(groupSortKey := out.recs[i].groupSortKey) {
      assert rp.recs[i] == st.recs[i].(groupSortKey := rp.recs[i].groupSortKey);
    }
    KeysOnlyPreserveValid(st, out);
  }

  /**
   * reorder_group changes only GroupSortKey, leaves every variable with one,
   * and keeps the document well formed and valid.
   */
  lemma ReorderGroupFrame(st: Store, name: string, delta: Delta)
    requires st.WellFormed()
    ensures Rekeyed(st, ReorderGroupSpec(st, name, delta).store)
    ensures ReorderGroupSpec(st, name, delta).store.WellFormed()
    ensures st.Valid() ==> ReorderGroupSpec(st, name, delta).store.Valid()
  {
    RepairedSpec(st);
    var c := Collect(st, |st.order|);
    if c.keys != map[] {
      var ranking := GroupRanking(st);
      var cur := IndexOf(ranking, name);
      if cur != -1 {
        var t := Target(cur, |ranking|, delta);
        if t != cur {
          AssignFrame(st, Move(ranking, cur, t));
        }
      }
    }
  }

  /** reorder_group reports a change exactly when it rewrote a key the collection loop had left. */
  lemma ReorderGroupReportsChange(st: Store, name: string, delta: Delta)
    requires st.WellFormed()
    ensures ReorderGroupSpec(st, name, delta).changed <==> ReorderGroupSpec(st, name, delta).store != Repaired(st)
  {
    var c := Collect(st, |st.order|);
    if c.keys != map[] {
      var ranking := GroupRanking(st);
      var cur := IndexOf(ranking, name);
      if cur != -1 {
        var t := Target(cur, |ranking|, delta);
        if t != cur {
          AssignChanges(c.recs, Move(ranking, cur, t));
        }
      }
    }
  }

  /** reorder_group leaves everything as the collection loop left it when the group is unknown or would not move. */
  lemma ReorderGroupNoMove(st: Store, name: string, delta: Delta)
    requires st.WellFormed()
    ensures (forall i :: i in st.recs ==> GroupOf(st.recs[i]) != name) ==>
              ReorderGroupSpec(st, name, delta) == Outcome(Repaired(st), false)
    ensures name in GroupRanking(st) &&
            Target(IndexOf(GroupRanking(st), name), |GroupRanking(st)|, delta) == IndexOf(GroupRanking(st), name) ==>
              ReorderGroupSpec(st, name, delta) == Outcome(Repaired(st), false)
  {
    GroupRankingMembers(st);
  }

  /** The position of the moved group once reorder_group has run. */
  function Destination(st: Store, name: string, delta: Delta): (t: nat)
    requires st.WellFormed() && name in GroupRanking(st)
    ensures t < |GroupRanking(st)|
  {
    Target(IndexOf(GroupRanking(st), name), |GroupRanking(st)|, delta)
  }

  /** When the group moves, reorder_group gives every variable the position of its group in the moved ranking. */
  lemma ReorderGroupMovedStore(st: Store, name: string, delta: Delta)
    requires st.WellFormed() && name in GroupRanking(st)
    requires Destination(st, name, delta) != IndexOf(GroupRanking(st), name)
    ensures ReorderGroupSpec(st, name, delta).store.recs ==
            AssignGroupKeys(Repaired(st).recs, Move(GroupRanking(st), IndexOf(GroupRanking(st), name), Destination(st, name, delta)))
  {
  }

  /** The variables of the repaired document carry the groups of the original and appear in the ranking. */
  lemma RepairedGroups(st: Store)
    requires st.WellFormed()
    ensures Repaired(st).recs.Keys == st.recs.Keys
    ensures forall i :: i in st.recs ==> GroupOf(Repaired(st).recs[i]) == GroupOf(st.recs[i]) && GroupOf(st.recs[i]) in GroupRanking(st)
  {
    CollectKeysAll(st);
    GroupRankingSpec(st);
    var c := Collect(st, |st.order|);
    forall i | i in st.recs ensures GroupOf(st.recs[i]) in c.keys {
      assert Keyed(c, i);
    }
  }

  /** What the numbering lemmas below assume of the records and of the ranking. */
  ghost predicate RankedRecords(st: Store, recs: map<Id, Record>, ranking: seq<string>, p: nat, t: nat) {
    Distinct(ranking) && p < |ranking| && t < |ranking| && recs.Keys == st.recs.Keys &&
    forall i :: i in st.recs ==> GroupOf(recs[i]) == GroupOf(st.recs[i]) && GroupOf(st.recs[i]) in ranking
  }

  /** Numbering by a moved ranking: every key lies below the number of groups. */
  lemma MovedKeysBounded(st: Store, recs: map<Id, Record>, ranking: seq<string>, p: nat, t: nat, out: map<Id, Record>)
    requires RankedRecords(st, recs, ranking, p, t) && out == AssignGroupKeys(recs, Move(ranking, p, t))
    ensures forall i :: i in st.recs ==>
              out[i].groupSortKey.Some? &&
              0 <= out[i].groupSortKey.value < |ranking|
  {
    MoveRanking(ranking, p, t);
  }

  /** Numbering by a moved ranking: two records share a key exactly when they share a group. */
  lemma MovedKeysShared(st: Store, recs: map<Id, Record>, ranking: seq<string>, p: nat, t: nat, out: map<Id, Record>)
    requires RankedRecords(st, recs, ranking, p, t) && out == AssignGroupKeys(recs, Move(ranking, p, t))
    ensures forall i, j :: i in st.recs && j in st.recs ==>
              ((out[i].groupSortKey ==
                out[j].groupSortKey) <==> (GroupOf(st.recs[i]) == GroupOf(st.recs[j])))
  {
    MoveRanking(ranking, p, t);
  }

  /** Numbering by a moved ranking: the group taken from p lands at t. */
  lemma MovedGroupLands(st: Store, recs: map<Id, Record>, ranking: seq<string>, p: nat, t: nat, out: map<Id, Record>)
    requires RankedRecords(st, recs, ranking, p, t) && out == AssignGroupKeys(recs, Move(ranking, p, t))
    ensures forall i :: i in st.recs && GroupOf(st.recs[i]) == ranking[p] ==>
              out[i].groupSortKey == Some(t)
  {
    MoveRanking(ranking, p, t);
  }

  /** Numbering by a moved ranking: the groups not moved keep their relative order. */
  /**
   * In out, any two variables outside group name carry group sort keys
   * ordered as their groups are in the ranking.
   */
  ghost predicate OthersKeepOrder(st: Store, out: map<Id, Record>, ranking: seq<string>, name: string) {
    forall i, j :: i in st.recs && j in st.recs && GroupOf(st.recs[i]) != name && GroupOf(st.recs[j]) != name ==>
      i in out && j in out && out[i].groupSortKey.Some? && out[j].groupSortKey.Some? &&
      (out[i].groupSortKey.value < out[j].groupSortKey.value <==>
       IndexOf(ranking, GroupOf(st.recs[i])) < IndexOf(ranking, GroupOf(st.recs[j])))
  }

  lemma MovedOthersKeepOrder(st: Store, recs: map<Id, Record>, ranking: seq<string>, p: nat, t: nat, out: map<Id, Record>)
    requires RankedRecords(st, recs, ranking, p, t) && out == AssignGroupKeys(recs, Move(ranking, p, t))
    ensures p < |ranking| && OthersKeepOrder(st, out, ranking, ranking[p])
  {
    MoveRanking(ranking, p, t);
  }

  /** Position k is the group sort key of some variable of the document in out. */
  ghost predicate PositionCovered(st: Store, out: map<Id, Record>, k: int) {
    exists i :: i in st.recs && i in out && out[i].groupSortKey == Some(k)
  }

  /** Every position below n is the group sort key of some variable of the document in out. */
  ghost predicate PositionsCovered(st: Store, out: map<Id, Record>, n: nat) {
    forall k :: 0 <= k < n ==> PositionCovered(st, out, k)
  }

  /** Every position of a moved ranking of the document's groups is the key of some record. */
  lemma MovedPositionsUsed(st: Store, recs: map<Id, Record>, ranking: seq<string>, p: nat, t: nat, out: map<Id, Record>)
    requires RankedRecords(st, recs, ranking, p, t) && out == AssignGroupKeys(recs, Move(ranking, p, t))
    requires forall g :: g in ranking ==> exists i :: i in st.recs && GroupOf(st.recs[i]) == g
    ensures PositionsCovered(st, out, |ranking|)
  {
    var moved := Move(ranking, p, t);
    MoveMembers(ranking, p, t);
    forall k | 0 <= k < |ranking| ensures PositionCovered(st, out, k) {
      assert moved[k] in ranking;
      var i :| i in st.recs && GroupOf(st.recs[i]) == moved[k];
      IndexOfDistinct(moved, k);
      assert i in out && out[i].groupSortKey == Some(k);
    }
  }

  /** The repaired records, ranked by GroupRanking, satisfy what the numbering lemmas assume. */
  lemma RepairedRanked(st: Store, name: string, delta: Delta)
    requires st.WellFormed() && name in GroupRanking(st)
    ensures RankedRecords(st, Repaired(st).recs, GroupRanking(st), IndexOf(GroupRanking(st), name), Destination(st, name, delta))
  {
    RepairedGroups(st);
    GroupRankingSpec(st);
  }

  /** Each group of the ranking is the group of some variable. */
  lemma RankedGroupsOccur(st: Store)
    requires st.WellFormed()
    ensures forall g :: g in GroupRanking(st) ==> exists i :: i in st.recs && GroupOf(st.recs[i]) == g
  {
    GroupRankingMembers(st);
  }

  /** When the group moves, every key lies below the number of groups. */
  lemma ReorderGroupKeysBounded(st: Store, name: string, delta: Delta)
    requires st.WellFormed() && name in GroupRanking(st)
    requires Destination(st, name, delta) != IndexOf(GroupRanking(st), name)
    ensures forall i :: i in st.recs ==>
              ReorderGroupSpec(st, name, delta).store.recs[i].groupSortKey.Some? &&
              0 <= ReorderGroupSpec(st, name, delta).store.recs[i].groupSortKey.value < |GroupRanking(st)|
  {
    ReorderGroupMovedStore(st, name, delta);
    RepairedRanked(st, name, delta);
    MovedKeysBounded(st, Repaired(st).recs, GroupRanking(st), IndexOf(GroupRanking(st), name), Destination(st, name, delta),
      ReorderGroupSpec(st, name, delta).store.recs);
  }

  /** When the group moves, two variables share a key exactly when they share a group. */
  lemma ReorderGroupSharedKeys(st: Store, name: string, delta: Delta)
    requires st.WellFormed() && name in GroupRanking(st)
    requires Destination(st, name, delta) != IndexOf(GroupRanking(st), name)
    ensures forall i, j :: i in st.recs && j in st.recs ==>
              ((ReorderGroupSpec(st, name, delta).store.recs[i].groupSortKey ==
                ReorderGroupSpec(st, name, delta).store.recs[j].groupSortKey) <==> (GroupOf(st.recs[i]) == GroupOf(st.recs[j])))
  {
    ReorderGroupMovedStore(st, name, delta);
    RepairedRanked(st, name, delta);
    MovedKeysShared(st, Repaired(st).recs, GroupRanking(st), IndexOf(GroupRanking(st), name), Destination(st, name, delta),
      ReorderGroupSpec(st, name, delta).store.recs);
  }

  /** When the group moves, every position below the number of groups is some variable's key. */
  lemma ReorderGroupPositionsUsed(st: Store, name: string, delta: Delta)
    requires st.WellFormed() && name in GroupRanking(st)
    requires Destination(st, name, delta) != IndexOf(GroupRanking(st), name)
    ensures PositionsCovered(st, ReorderGroupSpec(st, name, delta).store.recs, |GroupRanking(st)|)
  {
    ReorderGroupMovedStore(st, name, delta);
    RepairedRanked(st, name, delta);
    RankedGroupsOccur(st);
    MovedPositionsUsed(st, Repaired(st).recs, GroupRanking(st), IndexOf(GroupRanking(st), name), Destination(st, name, delta),
      ReorderGroupSpec(st, name, delta).store.recs);
  }

  /** When the group moves, its variables take the destination position. */
  lemma ReorderGroupLands(st: Store, name: string, delta: Delta)
    requires st.WellFormed() && name in GroupRanking(st)
    requires Destination(st, name, delta) != IndexOf(GroupRanking(st), name)
    ensures forall i :: i in st.recs && GroupOf(st.recs[i]) == name ==>
              ReorderGroupSpec(st, name, delta).store.recs[i].groupSortKey == Some(Destination(st, name, delta))
  {
    ReorderGroupMovedStore(st, name, delta);
    RepairedRanked(st, name, delta);
    MovedGroupLands(st, Repaired(st).recs, GroupRanking(st), IndexOf(GroupRanking(st), name), Destination(st, name, delta),
      ReorderGroupSpec(st, name, delta).store.recs);
  }

  /** When the group moves, every other group keeps its place relative to the others. */
  lemma ReorderGroupOthersKeepOrder(st: Store, name: string, delta: Delta)
    requires st.WellFormed() && name in GroupRanking(st)
    requires Destination(st, name, delta) != IndexOf(GroupRanking(st), name)
    ensures OthersKeepOrder(st, ReorderGroupSpec(st, name, delta).store.recs, GroupRanking(st), name)
  {
    var ranking := GroupRanking(st);
    var p := IndexOf(ranking, name);
    var t := Destination(st, name, delta);
    var out := ReorderGroupSpec(st, name, delta).store.recs;
    assert out == AssignGroupKeys(Repaired(st).recs, Move(ranking, p, t)) by {
      ReorderGroupMovedStore(st, name, delta);
    }
    assert RankedRecords(st, Repaired(st).recs, ranking, p, t) by {
      RepairedRanked(st, name, delta);
    }
    assert ranking[p] == name;
    MovedOthersKeepOrder(st, Repaired(st).recs, ranking, p, t, out);
  }
}
