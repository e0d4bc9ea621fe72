/**
 * reorder_group on the document, step by step: the collection loop that
 * builds groups_data (repairing variables without a GroupSortKey), the
 * search for the group to move, and the nested loop that writes the new
 * group positions. Each step is proved against the functions of GroupOrder,
 * so the whole operation meets ReorderGroupSpec.
 */
module GroupReorder {
  import opened Outcomes
  import opened Sorting
  import opened Store
  import opened GroupKeys
  import opened GroupOrder
  import opened Ordering

  /** The records and the changes_made flag of the final loop. */
  datatype Pass = Pass(recs: map<Id, Record>, changed: bool)

  /** The key a variable holds once its GroupSortKey property exists (a fresh property holds 0). */
  function Held(r: Record): int {
    if r.groupSortKey.Some? then r.groupSortKey.value else 0
  }

  /**
   * The inner loop of the final pass over the first `k` variables of `ids`:
   * a variable of group `g` whose key differs from `key` is given `key`
   * and the change is recorded; a missing property is added first.
   */
  function Relabel(p: Pass, ids: seq<Id>, g: string, key: int, k: nat): (q: Pass)
    requires k <= |ids| && forall x :: x in ids ==> x in p.recs
    ensures q.recs.Keys == p.recs.Keys
  {
    if k == 0 then p
    else
      var n := k - 1;
      var q := Relabel(p, ids, g, key, n);
      var id := ids[n];
      var r := q.recs[id];
      if GroupOf(r) != g then q
      else
        var r1 := if r.groupSortKey.None? then r.(groupSortKey := Some(0)) else r;
        var recs1 := if r.groupSortKey.None? then q.recs[id := r1] else q.recs;
        if r1.groupSortKey != Some(key) then Pass(recs1[id := r1.(groupSortKey := Some(key))], true)
        else Pass(recs1, q.changed)
  }

  /** The outer loop of the final pass: the groups of `moved` up to `j`, each given its index. */
  function Renumber(p: Pass, ids: seq<Id>, moved: seq<string>, j: nat): (q: Pass)
    requires j <= |moved| && forall x :: x in ids ==> x in p.recs
    ensures q.recs.Keys == p.recs.Keys
  {
    if j == 0 then p
    else
      var n := j - 1;
      Relabel(Renumber(p, ids, moved, n), ids, moved[n], n, |ids|)
  }

  /** Variable `id` belongs to group `g` and holds a key other than `key`. */
  predicate Stale(recs: map<Id, Record>, id: Id, g: string, key: int) {
    id in recs && GroupOf(recs[id]) == g && Held(recs[id]) != key
  }

  /** Variable `id` belongs to one of the first `j` groups of `moved` and holds a key other than its index. */
  predicate Misplaced(recs: map<Id, Record>, id: Id, moved: seq<string>, j: nat) {
    id in recs && 0 <= IndexOf(moved, GroupOf(recs[id])) < j && Held(recs[id]) != IndexOf(moved, GroupOf(recs[id]))
  }

  /** After the inner loop, the variables of group `g` it visited hold `key`; all others are as before. */
  lemma {:induction false} RelabelAt(p: Pass, ids: seq<Id>, g: string, key: int, k: nat, i: Id)
    requires k <= |ids| && (forall x :: x in ids ==> x in p.recs) && i in p.recs
    ensures Relabel(p, ids, g, key, k).recs[i] ==
            if i in ids[..k] && GroupOf(p.recs[i]) == g then p.recs[i].(groupSortKey := Some(key)) else p.recs[i]
  {
    if k > 0 {
      var n := k - 1;
      RelabelAt(p, ids, g, key, n, i);
      RelabelStep(p, ids, g, key, k);
      assert ids[..k] == ids[..n] + [ids[n]];
      if ids[n] != i {
        RelabelAt(p, ids, g, key, n, ids[n]);
      }
    }
  }

  /** One turn of the inner loop: a variable of group `g` ends up holding `key`, whether or not it had a key. */
  lemma RelabelStep(p: Pass, ids: seq<Id>, g: string, key: int, k: nat)
    requires 0 < k <= |ids| && forall x :: x in ids ==> x in p.recs
    ensures var q := Relabel(p, ids, g, key, k - 1);
            var id := ids[k - 1];
            Relabel(p, ids, g, key, k).recs ==
              if GroupOf(q.recs[id]) != g then q.recs else q.recs[id := q.recs[id].(groupSortKey := Some(key))]
  {
    var q := Relabel(p, ids, g, key, k - 1);
    var id := ids[k - 1];
    var r := q.recs[id];
    if GroupOf(r) == g {
      if r.groupSortKey.None? {
        RepairWrites(q.recs, id, r, key);
      } else if r.groupSortKey == Some(key) {
        assert q.recs[id := r.(groupSortKey := Some(key))] == q.recs;
      }
    }
  }

  /** The inner loop records a change exactly when some visited variable of group `g` held another key. */
  lemma {:induction false} RelabelChanged(p: Pass, ids: seq<Id>, g: string, key: int, k: nat)
    requires Distinct(ids) && k <= |ids| && forall x :: x in ids ==> x in p.recs
    ensures Relabel(p, ids, g, key, k).changed <==> p.changed || exists m :: 0 <= m < k && Stale(p.recs, ids[m], g, key)
  {
    if k > 0 {
      var n := k - 1;
      RelabelChanged(p, ids, g, key, n);
      var id := ids[n];
      RelabelAt(p, ids, g, key, n, id);
      assert forall m :: 0 <= m < n ==> ids[..n][m] != id;
      if Stale(p.recs, id, g, key) {
        assert 0 <= n < k && Stale(p.recs, ids[n], g, key);
      }
    }
  }

  /**
   * After the first `j` turns of the outer loop, every variable whose group
   * is among the first `j` of `moved` holds the index of its group; the
   * others are untouched.
   */
  lemma {:induction false} RenumberAt(r0: map<Id, Record>, b: bool, ids: seq<Id>, moved: seq<string>, j: nat, i: Id)
    requires Distinct(moved) && j <= |moved| && (forall x :: x in ids ==> x in r0) && i in r0
    ensures Renumber(Pass(r0, b), ids, moved, j).recs[i] ==
            var x := IndexOf(moved, GroupOf(r0[i]));
            if i in ids && 0 <= x < j then r0[i].(groupSortKey := Some(x)) else r0[i]
  {
    if j > 0 {
      var n := j - 1;
      RenumberAt(r0, b, ids, moved, n, i);
      RelabelAt(Renumber(Pass(r0, b), ids, moved, n), ids, moved[n], n, |ids|, i);
      assert ids[..|ids|] == ids;
      if GroupOf(r0[i]) == moved[n] {
        IndexOfDistinct(moved, n);
      }
    }
  }

  /** The outer loop records a change exactly when some variable of a visited group held a key other than its index. */
  lemma {:induction false} RenumberChanged(r0: map<Id, Record>, ids: seq<Id>, moved: seq<string>, j: nat)
    requires Distinct(ids) && Distinct(moved) && j <= |moved| && forall x :: x in ids ==> x in r0
    ensures Renumber(Pass(r0, false), ids, moved, j).changed <==> exists m :: 0 <= m < |ids| && Misplaced(r0, ids[m], moved, j)
  {
    if j > 0 {
      var n := j - 1;
      var q := Renumber(Pass(r0, false), ids, moved, n);
      RenumberChanged(r0, ids, moved, n);
      RelabelChanged(q, ids, moved[n], n, |ids|);
      forall m | 0 <= m < |ids|
        ensures Misplaced(r0, ids[m], moved, j) <==> Misplaced(r0, ids[m], moved, n) || Stale(q.recs, ids[m], moved[n], n)
      {
        var id := ids[m];
        RenumberAt(r0, false, ids, moved, n, id);
        if GroupOf(r0[id]) == moved[n] {
          IndexOfDistinct(moved, n);
        }
      }
    }
  }

  /**
   * Once every group of a ranking has had its turn, the final pass has given
   * every variable the index of its group, and has recorded a change exactly
   * when some key differed.
   */
  lemma RenumberComplete(r0: map<Id, Record>, ids: seq<Id>, moved: seq<string>)
    requires Distinct(ids) && Distinct(moved) && forall x :: x in ids ==> x in r0
    requires forall i :: i in r0 ==> i in ids && GroupOf(r0[i]) in moved && r0[i].groupSortKey.Some?
    ensures Renumber(Pass(r0, false), ids, moved, |moved|) == Pass(AssignGroupKeys(r0, moved), KeysDiffer(r0, moved))
  {
    var q := Renumber(Pass(r0, false), ids, moved, |moved|);
    forall i | i in r0 ensures q.recs[i] == AssignGroupKeys(r0, moved)[i] {
      RenumberAt(r0, false, ids, moved, |moved|, i);
    }
    assert q.recs == AssignGroupKeys(r0, moved);
    RenumberChanged(r0, ids, moved, |moved|);
    if KeysDiffer(r0, moved) {
      var i :| i in r0 && r0[i].groupSortKey != Some(IndexOf(moved, GroupOf(r0[i])));
      var m :| 0 <= m < |ids| && ids[m] == i;
      assert Misplaced(r0, ids[m], moved, |moved|);
    }
  }

  /** The final pass over a moved ranking leaves the records and the flag ReorderGroupSpec states. */
  lemma RenumberMeetsSpec(st: Store, cur: nat, t: nat)
    requires st.WellFormed() && cur < |GroupRanking(st)| && t < |GroupRanking(st)|
    ensures forall x :: x in st.order ==> x in Collect(st, |st.order|).recs
    ensures var c := Collect(st, |st.order|);
            var moved := Move(GroupRanking(st), cur, t);
            Renumber(Pass(c.recs, false), st.order, moved, |moved|) == Pass(AssignGroupKeys(c.recs, moved), KeysDiffer(c.recs, moved))
  {
    var c := Collect(st, |st.order|);
    var ranking := GroupRanking(st);
    var moved := Move(ranking, cur, t);
    GroupRankingSpec(st);
    MoveMembers(ranking, cur, t);
    CollectKeysAll(st);
    forall i | i in c.recs ensures i in st.order && GroupOf(c.recs[i]) in moved && c.recs[i].groupSortKey.Some? {
      assert Keyed(c, i);
    }
    RenumberComplete(c.recs, st.order, moved);
  }

  /** Records with the same variables as a well-formed store form one too. */
  lemma SameKeysWellFormed(st: Store, recs: map<Id, Record>)
    requires st.WellFormed() && recs.Keys == st.recs.Keys
    ensures Store(recs, st.order, st.nextId).WellFormed()
  {
  }

  lemma RepairWrites(recs: map<Id, Record>, id: Id, r: Record, fix: int)
    ensures recs[id := r.(groupSortKey := Some(0))][id := r.(groupSortKey := Some(0)).(groupSortKey := Some(fix))] ==
            recs[id := r.(groupSortKey := Some(fix))]
  {
    assert recs[id := r.(groupSortKey := Some(0))][id := r.(groupSortKey := Some(fix))] == recs[id := r.(groupSortKey := Some(fix))];
  }

  /**
   * One turn of the collection loop, on the variable `id`: a variable with a
   * key contributes it when its group has none yet; a variable without one
   * gets the property (holding 0), then the bootstrap key of its group.
   */
  method CollectOne(doc: Document, ghost st: Store, keys: map<string, int>, names: seq<string>, id: Id)
    returns (keys': map<string, int>, names': seq<string>)
    requires st.WellFormed() && id in st.recs
    requires doc.recs.Keys == st.recs.Keys && doc.order == st.order && doc.nextId == st.nextId
    modifies doc
    ensures doc.order == st.order && doc.nextId == st.nextId
    ensures Collected(doc.recs, keys', names') == CollectStep(st, Collected(old(doc.recs), keys, names), id)
  {
    keys', names' := keys, names;
    var r := doc.recs[id];
    var g := GroupOf(r);
    match r.groupSortKey
    case Some(x) =>
      // a group seen before keeps its first key; a differing one is only reported
      if g !in keys {
        keys' := keys[g := x];
        names' := names + [g];
      }
    case None =>
      ghost var before := doc.recs;
      doc.recs := doc.recs[id := r.(groupSortKey := Some(0))];
      SameKeysWellFormed(st, doc.recs);
      var fix := GetOrAssignInitialGroupSortKey(doc, g);
      doc.recs := doc.recs[id := doc.recs[id].(groupSortKey := Some(fix))];
      RepairWrites(before, id, r, fix);
      if g !in keys {
        names' := names + [g];
      }
      keys' := keys[g := fix];
  }

  /**
   * The collection loop: groups_data and its insertion order, with every
   * variable that had no GroupSortKey given the bootstrap key of its group.
   */
  method CollectGroups(doc: Document) returns (keys: map<string, int>, names: seq<string>)
    requires doc.State().WellFormed()
    modifies doc
    ensures doc.order == old(doc.order) && doc.nextId == old(doc.nextId)
    ensures Collected(doc.recs, keys, names) == Collect(old(doc.State()), |old(doc.order)|)
  {
    ghost var st := doc.State();
    keys, names := map[], [];
    var k := 0;
    while k < |doc.order|
      invariant 0 <= k <= |doc.order|
      invariant doc.order == st.order && doc.nextId == st.nextId
      invariant Collected(doc.recs, keys, names) == Collect(st, k)
    {
      keys, names := CollectOne(doc, st, keys, names, doc.order[k]);
      k := k + 1;
    }
  }

  /** The search for the group to move in sorted_groups. */
  method FindGroup(ranking: seq<string>, name: string) returns (cur: int)
    ensures cur == IndexOf(ranking, name)
  {
    cur := -1;
    var idx := 0;
    while idx < |ranking|
      invariant 0 <= idx <= |ranking|
      invariant forall k :: 0 <= k < idx ==> ranking[k] != name
    {
      if ranking[idx] == name {
        cur := idx;
        return;
      }
      idx := idx + 1;
    }
  }

  /** One turn of the outer loop: every variable of group `g` gets `key`. */
  method RelabelGroup(doc: Document, g: string, key: int, changedBefore: bool) returns (changed: bool)
    requires forall x :: x in doc.order ==> x in doc.recs
    modifies doc
    ensures doc.order == old(doc.order) && doc.nextId == old(doc.nextId)
    ensures Pass(doc.recs, changed) == Relabel(Pass(old(doc.recs), changedBefore), doc.order, g, key, |doc.order|)
  {
    ghost var r0 := doc.recs;
    changed := changedBefore;
    var k := 0;
    while k < |doc.order|
      invariant 0 <= k <= |doc.order|
      invariant doc.order == old(doc.order) && doc.nextId == old(doc.nextId)
      invariant Pass(doc.recs, changed) == Relabel(Pass(r0, changedBefore), doc.order, g, key, k)
    {
      var id := doc.order[k];
      var r := doc.recs[id];
      if GroupOf(r) == g {
        if r.groupSortKey.None? {
          // cannot happen after the collection loop; the property is added again, holding 0
          r := r.(groupSortKey := Some(0));
          doc.recs := doc.recs[id := r];
        }
        if r.groupSortKey != Some(key) {
          doc.recs := doc.recs[id := r.(groupSortKey := Some(key))];
          changed := true;
        }
      }
      k := k + 1;
    }
  }

  /** The final pass: each group of `moved` in turn, its index written to all of its variables. */
  method AssignKeys(doc: Document, moved: seq<string>) returns (changed: bool)
    requires forall x :: x in doc.order ==> x in doc.recs
    modifies doc
    ensures doc.order == old(doc.order) && doc.nextId == old(doc.nextId)
    ensures Pass(doc.recs, changed) == Renumber(Pass(old(doc.recs), false), doc.order, moved, |moved|)
  {
    ghost var r0 := doc.recs;
    changed := false;
    var j := 0;
    while j < |moved|
      invariant 0 <= j <= |moved|
      invariant doc.order == old(doc.order) && doc.nextId == old(doc.nextId)
      invariant Pass(doc.recs, changed) == Renumber(Pass(r0, false), doc.order, moved, j)
    {
      changed := RelabelGroup(doc, moved[j], j, changed);
      j := j + 1;
    }
  }

  /**
   * reorder_group: collect and repair the group keys, rank the groups, move
   * the named one by `delta`, and renumber every variable; the result says
   * whether any key was rewritten by the final pass.
   */
  method ReorderGroup(doc: Document, name: string, delta: Delta) returns (changed: bool)
    requires doc.State().WellFormed()
    modifies doc
    ensures doc.State() == ReorderGroupSpec(old(doc.State()), name, delta).store
    ensures changed == ReorderGroupSpec(old(doc.State()), name, delta).changed
  {
    ghost var st := doc.State();
    var keys, names := CollectGroups(doc);
    if keys == map[] {
      return false;
    }
    var ranking := Payloads(Sort(GroupItems(keys, names)));
    var cur := FindGroup(ranking, name);
    if cur == -1 {
      return false;
    }
    var t := Target(cur, |ranking|, delta);
    if t == cur {
      return false;
    }
    var moved := Move(ranking, cur, t);
    RenumberMeetsSpec(st, cur, t);
    changed := AssignKeys(doc, moved);
  }
}
