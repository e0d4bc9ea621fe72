/**
 * The ordering of variables within their group (Variable.reorder): the
 * members of the group are renumbered 0..n-1 in (SortKey, name) order, then
 * the moved variable is taken out and put back at the first position at or
 * after its old position plus the requested delta.
 */
module Ordering {
  import opened Text
  import opened Sorting
  import opened Store

  /** The signed move of reorder: a whole number of rows, or float('-inf') / float('inf'). */
  datatype Delta = Rel(d: int) | ToTop | ToBottom

  /** `pos >= seek`, where seek is the old position p plus the delta. */
  predicate Reached(pos: int, p: int, delta: Delta) {
    match delta
    case ToTop => true
    case ToBottom => false
    case Rel(d) => pos >= p + d
  }

  /**
   * The insertion point `ins` after the loop over the other members has
   * visited positions 0..bound-1: the first of them reached, or -1.
   */
  function FirstReached(bound: nat, p: int, delta: Delta): (ins: int)
    ensures -1 <= ins < bound
  {
    if bound == 0 then -1
    else
      var prev := FirstReached(bound - 1, p, delta);
      if prev == -1 && Reached(bound - 1, p, delta) then bound - 1 else prev
  }

  /** The insertion point is the first position at or after p + delta, if any. */
  lemma {:induction false} FirstReachedSpec(bound: nat, p: int, delta: Delta)
    ensures FirstReached(bound, p, delta) == -1 <==> forall pos :: 0 <= pos < bound ==> !Reached(pos, p, delta)
    ensures FirstReached(bound, p, delta) >= 0 ==>
              Reached(FirstReached(bound, p, delta), p, delta) &&
              forall pos :: 0 <= pos < FirstReached(bound, p, delta) ==> !Reached(pos, p, delta)
  {
    if bound > 0 {
      FirstReachedSpec(bound - 1, p, delta);
    }
  }

  /** Once found, the insertion point stays put; before that, the prefix has none. */
  lemma {:induction false} FirstReachedPrefix(b: nat, bound: nat, p: int, delta: Delta)
    requires b <= bound
    ensures FirstReached(b, p, delta) != -1 <==>
              FirstReached(bound, p, delta) != -1 && FirstReached(bound, p, delta) < b
    ensures FirstReached(b, p, delta) != -1 ==> FirstReached(b, p, delta) == FirstReached(bound, p, delta)
  {
    if b < bound {
      FirstReachedPrefix(b, bound - 1, p, delta);
    }
  }

  /**
   * The key of the member at position k of the sorted group once reorder is
   * done, n members, the moved one at position p, insertion point ins: the
   * moved member takes ins, or n when there is none; the others take their
   * position among the others, shifted up by one from ins on.
   */
  function NewKey(n: nat, p: nat, ins: int, k: nat): int {
    if k == p then (if ins > -1 then ins else n)
    else
      var j := if k < p then k else k - 1;
      if ins != -1 && j >= ins then j + 1 else j
  }

  /**
   * The key the second loop of reorder writes for the other member at
   * position j among the others: j, plus one once the insertion point has
   * been found among positions 0..j.
   */
  function ShiftedKey(j: nat, p: int, delta: Delta): int {
    j + (if FirstReached(j + 1, p, delta) == -1 then 0 else 1)
  }

  /** The key written for the member at position k of the group is the one NewKey assigns it. */
  lemma RenumberedKey(n: nat, p: nat, k: nat, delta: Delta)
    requires p < n && k < n && k != p
    ensures ShiftedKey(if k < p then k else k - 1, p, delta) == NewKey(n, p, FirstReached(n - 1, p, delta), k)
  {
    var j := if k < p then k else k - 1;
    FirstReachedPrefix(j + 1, n - 1, p, delta);
  }

  /** The SortKeys the first loop of reorder has written after k steps: q for ms[q], q < k. */
  function Numbered(ms: seq<Id>, k: nat): map<Id, int>
    requires k <= |ms|
  {
    if k == 0 then map[] else Numbered(ms, k - 1)[ms[k - 1] := k - 1]
  }

  lemma {:induction false} NumberedAt(ms: seq<Id>, k: nat, q: nat)
    requires Distinct(ms) && q < k <= |ms|
    ensures ms[q] in Numbered(ms, k) && Numbered(ms, k)[ms[q]] == q
  {
    if q < k - 1 {
      NumberedAt(ms, k - 1, q);
    }
  }

  lemma {:induction false} NumberedDomain(ms: seq<Id>, k: nat)
    requires k <= |ms|
    ensures forall i :: i in Numbered(ms, k) ==> i in ms
  {
    if k > 0 {
      NumberedDomain(ms, k - 1);
    }
  }

  /**
   * The SortKeys once the second loop of reorder has visited the first pos
   * of the other members: ShiftedKey(q) for others[q], q < pos, and base for
   * the rest.
   */
  function Shifted(base: map<Id, int>, others: seq<Id>, pos: nat, p: int, delta: Delta): map<Id, int>
    requires pos <= |others|
  {
    if pos == 0 then base
    else Shifted(base, others, pos - 1, p, delta)[others[pos - 1] := ShiftedKey(pos - 1, p, delta)]
  }

  lemma {:induction false} ShiftedAt(base: map<Id, int>, others: seq<Id>, pos: nat, p: int, delta: Delta, j: nat)
    requires Distinct(others) && j < pos <= |others|
    ensures others[j] in Shifted(base, others, pos, p, delta)
    ensures Shifted(base, others, pos, p, delta)[others[j]] == ShiftedKey(j, p, delta)
  {
    if j < pos - 1 {
      ShiftedAt(base, others, pos - 1, p, delta, j);
    }
  }

  lemma {:induction false} ShiftedDomain(base: map<Id, int>, others: seq<Id>, pos: nat, p: int, delta: Delta)
    requires pos <= |others|
    ensures forall i :: i in Shifted(base, others, pos, p, delta) ==> i in base || i in others
  {
    if pos > 0 {
      ShiftedDomain(base, others, pos - 1, p, delta);
    }
  }

  /**
   * The SortKeys the loops of reorder write, in order: every member its
   * position, then the others their shifted position, then the moved
   * member the insertion point, or n when there is none.
   */
  function LoopKeys(ms: seq<Id>, id: Id, delta: Delta): map<Id, int>
    requires id in ms
  {
    var p := IndexOf(ms, id);
    var others := ms[..p] + ms[p + 1..];
    var ins := FirstReached(|others|, p, delta);
    Shifted(Numbered(ms, |ms|), others, |others|, p, delta)[id := if ins > -1 then ins else |ms|]
  }

  /** The key the loops of reorder write for the member at position q of the sorted group. */
  lemma LoopKeysAt(ms: seq<Id>, id: Id, delta: Delta, q: nat)
    requires Distinct(ms) && id in ms && q < |ms|
    ensures ms[q] in LoopKeys(ms, id, delta)
    ensures LoopKeys(ms, id, delta)[ms[q]] == NewKey(|ms|, IndexOf(ms, id), FirstReached(|ms| - 1, IndexOf(ms, id), delta), q)
  {
    var n := |ms|;
    var p := IndexOf(ms, id);
    if q != p {
      var others := ms[..p] + ms[p + 1..];
      var j := if q < p then q else q - 1;
      OthersDistinct(ms, p);
      ShiftedAt(Numbered(ms, n), others, |others|, p, delta, j);
      assert others[j] == ms[q];
      RenumberedKey(n, p, q, delta);
    }
  }

  /** The keys the loops of reorder write are the keys reorder is specified to give. */
  lemma LoopKeysAreKeysFor(ms: seq<Id>, id: Id, delta: Delta)
    requires Distinct(ms) && id in ms
    ensures LoopKeys(ms, id, delta) == KeysFor(ms, id, delta)
  {
    var n := |ms|;
    var p := IndexOf(ms, id);
    var others := ms[..p] + ms[p + 1..];
    var keys := LoopKeys(ms, id, delta);
    NumberedDomain(ms, n);
    ShiftedDomain(Numbered(ms, n), others, |others|, p, delta);
    forall i | i in keys ensures i in ms {
      if i != id && i in others {
        assert i in ms[..p] || i in ms[p + 1..];
      }
    }
    forall i | i in ms ensures i in keys && keys[i] == KeysFor(ms, id, delta)[i] {
      LoopKeysAt(ms, id, delta, IndexOf(ms, i));
    }
  }

  /** Taking one element out of a sequence without repeats leaves one without repeats. */
  lemma OthersDistinct(ms: seq<Id>, p: nat)
    requires Distinct(ms) && p < |ms|
    ensures Distinct(ms[..p] + ms[p + 1..])
  {
    var others := ms[..p] + ms[p + 1..];
    forall a, b | 0 <= a < b < |others| ensures others[a] != others[b] {
      assert others[a] == ms[if a < p then a else a + 1];
      assert others[b] == ms[if b < p then b else b + 1];
    }
  }

  /** The keys reorder gives the members of a group are pairwise distinct. */
  lemma NewKeyInjective(n: nat, p: nat, ins: int, k1: nat, k2: nat)
    requires p < n && k1 < n && k2 < n && k1 != k2
    requires -1 <= ins < n - 1
    ensures NewKey(n, p, ins, k1) != NewKey(n, p, ins, k2)
  {
  }

  /** The members other than the moved one keep their relative order. */
  lemma NewKeyMonotone(n: nat, p: nat, ins: int, k1: nat, k2: nat)
    requires k1 < k2 && k1 != p && k2 != p
    ensures NewKey(n, p, ins, k1) < NewKey(n, p, ins, k2)
  {
  }

  /** The ids of ids, in order, whose records belong to group g. */
  function MemberIds(recs: map<Id, Record>, ids: seq<Id>, g: string): (r: seq<Id>)
    requires forall id :: id in ids ==> id in recs
    ensures forall id :: id in r <==> id in ids && GroupOf(recs[id]) == g
    ensures Distinct(ids) ==> Distinct(r)
  {
    if ids == [] then []
    else
      var rest := MemberIds(recs, ids[1..], g);
      assert Distinct(ids) ==> ids[0] !in ids[1..];
      if GroupOf(recs[ids[0]]) == g then [ids[0]] + rest else rest
  }

  /** The member ids as the items sorted() compares: (SortKey, name). */
  function MemberItems(recs: map<Id, Record>, ms: seq<Id>): (r: seq<Item<Id>>)
    requires forall id :: id in ms ==> id in recs
    ensures |r| == |ms|
    ensures forall k :: 0 <= k < |ms| ==> r[k] == Item(recs[ms[k]].sortKey, recs[ms[k]].name, ms[k])
  {
    seq(|ms|, k requires 0 <= k < |ms| => Item(recs[ms[k]].sortKey, recs[ms[k]].name, ms[k]))
  }

  /** The item a member is sorted by. */
  function ItemOf(st: Store, id: Id): Item<Id>
    requires id in st.recs
  {
    Item(st.recs[id].sortKey, st.recs[id].name, id)
  }

  /** sorted(v for v in get_vars() if v.group == group), as ids. */
  function GroupOrder(st: Store, g: string): seq<Id>
    requires st.WellFormed()
  {
    Payloads(Sort(MemberItems(st.recs, MemberIds(st.recs, st.order, g))))
  }

  /** The sorted group holds every member once and no one else. */
  lemma GroupOrderMembers(st: Store, g: string)
    requires st.WellFormed()
    ensures forall id :: id in GroupOrder(st, g) <==> id in st.recs && GroupOf(st.recs[id]) == g
    ensures Distinct(GroupOrder(st, g))
  {
    GroupOrderSpec(st, g);
  }

  /**
   * The sorted group holds every member once and no one else, and no member
   * comes after one that sorts after it.
   */
  lemma GroupOrderSpec(st: Store, g: string)
    requires st.WellFormed()
    ensures forall id :: id in GroupOrder(st, g) <==> id in st.recs && GroupOf(st.recs[id]) == g
    ensures Distinct(GroupOrder(st, g))
    ensures forall k1, k2 :: 0 <= k1 < k2 < |GroupOrder(st, g)| ==>
              !Before(ItemOf(st, GroupOrder(st, g)[k2]), ItemOf(st, GroupOrder(st, g)[k1]))
  {
    var ms := MemberIds(st.recs, st.order, g);
    var items := MemberItems(st.recs, ms);
    var sorted := Sort(items);
    assert Payloads(items) == ms;
    PermutationKeepsDistinctPayloads(items, sorted);
    PermutationPayloads(items, sorted);
    SortedItemsAreMembers(st, ms);
  }

  lemma SortedItemsAreMembers(st: Store, ms: seq<Id>)
    requires forall id :: id in ms ==> id in st.recs
    ensures forall k :: 0 <= k < |Sort(MemberItems(st.recs, ms))| ==>
              Sort(MemberItems(st.recs, ms))[k].payload in st.recs &&
              Sort(MemberItems(st.recs, ms))[k] == ItemOf(st, Sort(MemberItems(st.recs, ms))[k].payload)
  {
    var items := MemberItems(st.recs, ms);
    var sorted := Sort(items);
    forall k | 0 <= k < |sorted| ensures sorted[k].payload in st.recs && sorted[k] == ItemOf(st, sorted[k].payload) {
      assert sorted[k] in multiset(items);
    }
  }

  /**
   * The new SortKeys of the members ms (in sorted order) when the member id
   * is moved by delta.
   */
  function KeysFor(ms: seq<Id>, id: Id, delta: Delta): map<Id, int>
    requires id in ms
  {
    var n := |ms|;
    var p := IndexOf(ms, id);
    var ins := FirstReached(n - 1, p, delta);
    map i | i in ms :: NewKey(n, p, ins, IndexOf(ms, i))
  }

  lemma KeysForDistinct(ms: seq<Id>, id: Id, delta: Delta)
    requires Distinct(ms) && id in ms
    ensures forall a, b :: a in KeysFor(ms, id, delta) && b in KeysFor(ms, id, delta) && a != b ==>
              KeysFor(ms, id, delta)[a] != KeysFor(ms, id, delta)[b]
  {
    var n := |ms|;
    var p := IndexOf(ms, id);
    var ins := FirstReached(n - 1, p, delta);
    var keys := KeysFor(ms, id, delta);
    forall a, b | a in keys && b in keys && a != b ensures keys[a] != keys[b] {
      NewKeyInjective(n, p, ins, IndexOf(ms, a), IndexOf(ms, b));
    }
  }

  lemma KeysForAt(ms: seq<Id>, id: Id, delta: Delta, i: Id)
    requires id in ms && i in ms
    ensures i in KeysFor(ms, id, delta)
    ensures KeysFor(ms, id, delta)[i] ==
              NewKey(|ms|, IndexOf(ms, id), FirstReached(|ms| - 1, IndexOf(ms, id), delta), IndexOf(ms, i))
  {
  }

  lemma KeysForMoved(ms: seq<Id>, id: Id, delta: Delta)
    requires id in ms
    ensures var p := IndexOf(ms, id);
            var k := KeysFor(ms, id, delta)[id];
            0 <= p < |ms| && ms[p] == id &&
            ((k == |ms| && forall pos :: 0 <= pos < |ms| - 1 ==> !Reached(pos, p, delta)) ||
             (0 <= k < |ms| - 1 && Reached(k, p, delta) && forall pos :: 0 <= pos < k ==> !Reached(pos, p, delta)))
  {
    var n := |ms|;
    var p := IndexOf(ms, id);
    var ins := FirstReached(n - 1, p, delta);
    KeysForAt(ms, id, delta, id);
    var k := KeysFor(ms, id, delta)[id];
    FirstReachedSpec(n - 1, p, delta);
    if ins == -1 {
      assert k == n;
    } else {
      assert 0 <= k < n - 1 && Reached(k, p, delta);
    }
  }

  lemma KeysForMonotone(ms: seq<Id>, id: Id, delta: Delta, ka: nat, kb: nat)
    requires Distinct(ms) && id in ms
    requires ka < kb < |ms| && ms[ka] != id && ms[kb] != id
    ensures ms[ka] in KeysFor(ms, id, delta) && ms[kb] in KeysFor(ms, id, delta)
    ensures KeysFor(ms, id, delta)[ms[ka]] < KeysFor(ms, id, delta)[ms[kb]]
    ensures 0 <= KeysFor(ms, id, delta)[ms[ka]] < |ms|
  {
    var n := |ms|;
    var p := IndexOf(ms, id);
    IndexOfDistinct(ms, ka);
    IndexOfDistinct(ms, kb);
    NewKeyMonotone(n, p, FirstReached(n - 1, p, delta), ka, kb);
  }

  /** The new SortKey of each member of the moved variable's group. */
  function ReorderKeys(st: Store, id: Id, delta: Delta): map<Id, int>
    requires st.WellFormed() && id in st.recs
  {
    var ms := GroupOrder(st, GroupOf(st.recs[id]));
    if id in ms then KeysFor(ms, id, delta) else map[]
  }

  /** The store with the SortKey of each variable in `keys` replaced. */
  function WithSortKeys(st: Store, keys: map<Id, int>): Store {
    Store(map i | i in st.recs :: if i in keys then st.recs[i].(sortKey := keys[i]) else st.recs[i],
          st.order, st.nextId)
  }

  /** Rewriting no SortKey leaves the store as it is. */
  lemma WithNoSortKeys(st: Store)
    ensures WithSortKeys(st, map[]) == st
  {
    assert WithSortKeys(st, map[]).recs == st.recs;
  }

  /** Writing one more SortKey is rewriting with one more entry in the key map. */
  lemma WithSortKeysSet(st: Store, keys: map<Id, int>, x: Id, v: int)
    requires x in st.recs
    ensures WithSortKeys(st, keys[x := v]).recs ==
            WithSortKeys(st, keys).recs[x := WithSortKeys(st, keys).recs[x].(sortKey := v)]
  {
  }

  /** Rewriting SortKeys changes nothing else and keeps a store valid. */
  lemma WithSortKeysFrame(st: Store, keys: map<Id, int>)
    requires st.Valid()
    ensures var r := WithSortKeys(st, keys);
            r.order == st.order && r.nextId == st.nextId && r.recs.Keys == st.recs.Keys && r.Valid()
    ensures forall i :: i in st.recs ==>
              WithSortKeys(st, keys).recs[i] == st.recs[i].(sortKey := WithSortKeys(st, keys).recs[i].sortKey)
    ensures forall i :: i in st.recs && i !in keys ==> WithSortKeys(st, keys).recs[i] == st.recs[i]
    ensures forall i :: i in st.recs && i in keys ==> WithSortKeys(st, keys).recs[i].sortKey == keys[i]
  {
    var r := WithSortKeys(st, keys);
    assert r.recs.Keys == st.recs.Keys;
    SameLabelsValid(st, r.recs);
  }

  /** Variable.reorder on the variable `id`: only the SortKeys of its group change. */
  function ReorderSpec(st: Store, id: Id, delta: Delta): Store
    requires st.WellFormed() && id in st.recs
  {
    WithSortKeys(st, ReorderKeys(st, id, delta))
  }

  /** Writing the keys of the loops of reorder is reorder as specified. */
  lemma LoopKeysMeetReorderSpec(st: Store, id: Id, delta: Delta)
    requires st.WellFormed() && id in st.recs
    ensures id in GroupOrder(st, GroupOf(st.recs[id]))
    ensures WithSortKeys(st, LoopKeys(GroupOrder(st, GroupOf(st.recs[id])), id, delta)) == ReorderSpec(st, id, delta)
  {
    var ms := GroupOrder(st, GroupOf(st.recs[id]));
    GroupOrderMembers(st, GroupOf(st.recs[id]));
    LoopKeysAreKeysFor(ms, id, delta);
  }

  /** The members reorder renumbers are exactly the variables of the moved variable's group. */
  lemma ReorderKeysAreTheGroup(st: Store, id: Id, delta: Delta)
    requires st.WellFormed() && id in st.recs
    ensures forall i :: i in ReorderKeys(st, id, delta) <==> i in st.recs && GroupOf(st.recs[i]) == GroupOf(st.recs[id])
  {
    var ms := GroupOrder(st, GroupOf(st.recs[id]));
    GroupOrderSpec(st, GroupOf(st.recs[id]));
    assert ReorderKeys(st, id, delta) == KeysFor(ms, id, delta);
  }

  /**
   * Reorder changes the SortKey of the variables of the moved variable's
   * group and nothing else, and keeps the store valid.
   */
  lemma ReorderFrame(st: Store, id: Id, delta: Delta)
    requires st.Valid() && id in st.recs
    ensures var r := ReorderSpec(st, id, delta);
            r.order == st.order && r.nextId == st.nextId && r.recs.Keys == st.recs.Keys && r.Valid()
    ensures forall i :: i in st.recs ==>
              ReorderSpec(st, id, delta).recs[i] == st.recs[i].(sortKey := ReorderSpec(st, id, delta).recs[i].sortKey)
    ensures forall i :: i in st.recs && GroupOf(st.recs[i]) != GroupOf(st.recs[id]) ==>
              ReorderSpec(st, id, delta).recs[i] == st.recs[i]
  {
    ReorderKeysAreTheGroup(st, id, delta);
    WithSortKeysFrame(st, ReorderKeys(st, id, delta));
  }

  /** After reorder the members of the group have pairwise distinct SortKeys. */
  lemma ReorderKeysDistinct(st: Store, id: Id, delta: Delta)
    requires st.WellFormed() && id in st.recs
    ensures forall a, b :: a in ReorderKeys(st, id, delta) && b in ReorderKeys(st, id, delta) && a != b ==>
              ReorderKeys(st, id, delta)[a] != ReorderKeys(st, id, delta)[b]
  {
    var ms := GroupOrder(st, GroupOf(st.recs[id]));
    GroupOrderSpec(st, GroupOf(st.recs[id]));
    KeysForDistinct(ms, id, delta);
  }

  /**
   * The moved variable lands at the first position among the others that is
   * at or after its old position plus delta, or after all of them (key n)
   * when there is none.
   */
  lemma ReorderMovedKey(st: Store, id: Id, delta: Delta)
    requires st.WellFormed() && id in st.recs
    ensures id in ReorderKeys(st, id, delta)
    ensures var ms := GroupOrder(st, GroupOf(st.recs[id]));
            var p := IndexOf(ms, id);
            var k := ReorderKeys(st, id, delta)[id];
            0 <= p < |ms| && ms[p] == id &&
            ((k == |ms| && forall pos :: 0 <= pos < |ms| - 1 ==> !Reached(pos, p, delta)) ||
             (0 <= k < |ms| - 1 && Reached(k, p, delta) && forall pos :: 0 <= pos < k ==> !Reached(pos, p, delta)))
  {
    var ms := GroupOrder(st, GroupOf(st.recs[id]));
    GroupOrderSpec(st, GroupOf(st.recs[id]));
    KeysForMoved(ms, id, delta);
  }

  /**
   * The other members keep their relative (SortKey, name) order and take
   * keys in 0..n-1.
   */
  lemma ReorderOthersKeepOrder(st: Store, id: Id, delta: Delta, a: Id, b: Id)
    requires st.WellFormed() && id in st.recs
    requires a in st.recs && b in st.recs && a != id && b != id
    requires GroupOf(st.recs[a]) == GroupOf(st.recs[id]) && GroupOf(st.recs[b]) == GroupOf(st.recs[id])
    requires Before(ItemOf(st, a), ItemOf(st, b))
    ensures a in ReorderKeys(st, id, delta) && b in ReorderKeys(st, id, delta)
    ensures ReorderKeys(st, id, delta)[a] < ReorderKeys(st, id, delta)[b]
    ensures 0 <= ReorderKeys(st, id, delta)[a] < |GroupOrder(st, GroupOf(st.recs[id]))|
  {
    var ms := GroupOrder(st, GroupOf(st.recs[id]));
    GroupOrderSpec(st, GroupOf(st.recs[id]));
    var ka := IndexOf(ms, a);
    var kb := IndexOf(ms, b);
    BeforeIrreflexive(ItemOf(st, a));
    assert ka != kb;
    assert ka < kb;
    KeysForMonotone(ms, id, delta, ka, kb);
  }
}
