/**
 * Sorting by (key, name), the order in which the registry lists variables
 * within a group and groups among themselves, and the list operations the
 * ordering engine performs on the sorted lists (Python's sorted(), pop and
 * insert).
 */
module Sorting {
  import opened Text

  /** An element ranked by an integer key, ties broken by a name. */
  datatype Item<T> = Item(key: int, name: string, payload: T)

  /** Python's comparison of the tuples (key, name). */
  predicate Before<T>(a: Item<T>, b: Item<T>) {
    a.key < b.key || (a.key == b.key && LexLess(a.name, b.name))
  }

  lemma BeforeTransitive<T>(a: Item<T>, b: Item<T>, c: Item<T>)
    requires Before(a, b) && Before(b, c)
    ensures Before(a, c)
  {
    if a.key == b.key == c.key {
      LexLessTransitive(a.name, b.name, c.name);
    }
  }

  lemma BeforeIrreflexive<T>(a: Item<T>)
    ensures !Before(a, a)
  {
    LexLessIrreflexive(a.name);
  }

  lemma BeforeAsymmetric<T>(a: Item<T>, b: Item<T>)
    requires Before(a, b)
    ensures !Before(b, a)
  {
    if a.key == b.key {
      LexLessAsymmetric(a.name, b.name);
    }
  }

  lemma BeforeTotal<T>(a: Item<T>, b: Item<T>)
    requires a.key != b.key || a.name != b.name
    ensures Before(a, b) || Before(b, a)
  {
    if a.key == b.key {
      LexLessTotal(a.name, b.name);
    }
  }

  /** No element is placed after one that it comes before. */
  predicate Sorted<T>(s: seq<Item<T>>) {
    forall i, j :: 0 <= i < j < |s| ==> !Before(s[j], s[i])
  }

  /** Every element comes strictly before the ones placed after it. */
  predicate StrictlySorted<T>(s: seq<Item<T>>) {
    forall i, j :: 0 <= i < j < |s| ==> Before(s[i], s[j])
  }

  /** No two elements share both key and name. */
  predicate DistinctRanks<T>(s: seq<Item<T>>) {
    forall i, j :: 0 <= i < j < |s| ==> s[i].key != s[j].key || s[i].name != s[j].name
  }

  function Insert<T>(x: Item<T>, s: seq<Item<T>>): (r: seq<Item<T>>)
    ensures multiset(r) == multiset(s) + multiset{x}
  {
    if s == [] then [x]
    else if Before(x, s[0]) then [x] + s
    else
      assert s == [s[0]] + s[1..];
      [s[0]] + Insert(x, s[1..])
  }

  lemma {:induction false} InsertSorted<T>(x: Item<T>, s: seq<Item<T>>)
    requires Sorted(s)
    ensures Sorted(Insert(x, s))
  {
    if s == [] {
    } else if Before(x, s[0]) {
      forall j | 0 <= j < |s| ensures !Before(s[j], x) {
        if j == 0 {
          BeforeAsymmetric(x, s[0]);
        } else if Before(s[j], x) {
          BeforeTransitive(s[j], x, s[0]);
        }
      }
    } else {
      var t := Insert(x, s[1..]);
      InsertSorted(x, s[1..]);
      assert s == [s[0]] + s[1..];
      forall j | 0 <= j < |t| ensures !Before(t[j], s[0]) {
        assert t[j] in multiset(t);
        if t[j] != x {
          assert t[j] in multiset(s[1..]);
          var k :| 0 <= k < |s[1..]| && s[1..][k] == t[j];
          assert s[k + 1] == t[j];
        }
      }
    }
  }

  /** Python's sorted() on (key, name). */
  function Sort<T>(s: seq<Item<T>>): (r: seq<Item<T>>)
    ensures Sorted(r)
    ensures multiset(r) == multiset(s)
    ensures |r| == |s|
  {
    if s == [] then []
    else
      var init := s[..|s| - 1];
      assert s == init + [s[|s| - 1]];
      var r := Insert(s[|s| - 1], Sort(init));
      assert |r| == |multiset(r)| == |multiset(s)| == |s|;
      assert Sorted(r) by { InsertSorted(s[|s| - 1], Sort(init)); }
      r
  }

  /** A sorted list whose elements have pairwise distinct ranks is strictly increasing. */
  lemma SortedDistinctIsStrict<T>(s: seq<Item<T>>)
    requires Sorted(s) && DistinctRanks(s)
    ensures StrictlySorted(s)
  {
    forall i, j | 0 <= i < j < |s| ensures Before(s[i], s[j]) {
      BeforeTotal(s[i], s[j]);
    }
  }

  lemma OccursTwice<T>(t: seq<T>, i: nat, j: nat)
    requires i < j < |t| && t[i] == t[j]
    ensures multiset(t)[t[i]] >= 2
  {
    assert t == t[..i] + [t[i]] + t[i + 1..j] + [t[j]] + t[j + 1..];
  }

  lemma OccursOnce<T>(s: seq<Item<T>>, a: nat)
    requires DistinctRanks(s) && a < |s|
    ensures multiset(s)[s[a]] == 1
  {
    assert s == s[..a] + [s[a]] + s[a + 1..];
  }

  /** Ranks stay pairwise distinct under a permutation. */
  lemma PermutationKeepsDistinctRanks<T>(s: seq<Item<T>>, t: seq<Item<T>>)
    requires multiset(s) == multiset(t) && DistinctRanks(s)
    ensures DistinctRanks(t)
  {
    forall i, j | 0 <= i < j < |t| ensures t[i].key != t[j].key || t[i].name != t[j].name {
      assert t[i] in multiset(s) && t[j] in multiset(s);
      var a :| 0 <= a < |s| && s[a] == t[i];
      var b :| 0 <= b < |s| && s[b] == t[j];
      if a == b {
        OccursTwice(t, i, j);
        OccursOnce(s, a);
        assert false;
      }
    }
  }

  function Names<T>(s: seq<Item<T>>): (r: seq<string>)
    ensures |r| == |s| && forall k :: 0 <= k < |s| ==> r[k] == s[k].name
  {
    seq(|s|, k requires 0 <= k < |s| => s[k].name)
  }

  function Payloads<T>(s: seq<Item<T>>): (r: seq<T>)
    ensures |r| == |s| && forall k :: 0 <= k < |s| ==> r[k] == s[k].payload
  {
    seq(|s|, k requires 0 <= k < |s| => s[k].payload)
  }

  predicate Distinct<T(==)>(s: seq<T>) {
    forall i, j :: 0 <= i < j < |s| ==> s[i] != s[j]
  }

  /** Under a permutation, elements whose payloads were pairwise distinct still are. */
  lemma PermutationKeepsDistinctPayloads<T>(s: seq<Item<T>>, t: seq<Item<T>>)
    requires multiset(s) == multiset(t) && Distinct(Payloads(s))
    ensures Distinct(Payloads(t))
  {
    forall i, j | 0 <= i < j < |t| ensures t[i].payload != t[j].payload {
      assert t[i] in multiset(s) && t[j] in multiset(s);
      var a :| 0 <= a < |s| && s[a] == t[i];
      var b :| 0 <= b < |s| && s[b] == t[j];
      if t[i].payload == t[j].payload {
        assert Payloads(s)[a] == Payloads(s)[b];
        assert a == b;
        OccursTwice(t, i, j);
        OccursOnceByPayload(s, a);
        assert false;
      }
    }
  }

  lemma OccursOnceByPayload<T>(s: seq<Item<T>>, a: nat)
    requires Distinct(Payloads(s)) && a < |s|
    ensures multiset(s)[s[a]] == 1
  {
    assert s == s[..a] + [s[a]] + s[a + 1..];
    assert s[a] !in s[..a] && s[a] !in s[a + 1..] by {
      forall k | 0 <= k < |s| && k != a ensures s[k] != s[a] {
        assert Payloads(s)[k] != Payloads(s)[a];
      }
    }
  }

  /** A permutation carries the same payloads. */
  lemma PermutationPayloads<T>(s: seq<Item<T>>, t: seq<Item<T>>)
    requires multiset(s) == multiset(t)
    ensures forall x :: x in Payloads(t) <==> x in Payloads(s)
  {
    forall x ensures x in Payloads(t) ==> x in Payloads(s) {
      if x in Payloads(t) {
        var k :| 0 <= k < |t| && Payloads(t)[k] == x;
        assert t[k] in multiset(s);
        var a :| 0 <= a < |s| && s[a] == t[k];
        assert Payloads(s)[a] == x;
      }
    }
    forall x ensures x in Payloads(s) ==> x in Payloads(t) {
      if x in Payloads(s) {
        var k :| 0 <= k < |s| && Payloads(s)[k] == x;
        assert s[k] in multiset(t);
        var a :| 0 <= a < |t| && t[a] == s[k];
        assert Payloads(t)[a] == x;
      }
    }
  }

  lemma OccursOnceDistinct<T>(s: seq<T>, a: nat)
    requires Distinct(s) && a < |s|
    ensures multiset(s)[s[a]] == 1
  {
    assert s == s[..a] + [s[a]] + s[a + 1..];
    assert s[a] !in s[..a] && s[a] !in s[a + 1..] by {
      forall k | 0 <= k < |s| && k != a ensures s[k] != s[a] {
        if k < a {
          assert s[k] != s[a];
        }
      }
    }
  }

  /** A permutation of a sequence without duplicates has none either. */
  lemma PermutationKeepsDistinct<T>(s: seq<T>, t: seq<T>)
    requires multiset(s) == multiset(t) && Distinct(s)
    ensures Distinct(t)
  {
    forall i, j | 0 <= i < j < |t| ensures t[i] != t[j] {
      if t[i] == t[j] {
        assert t[i] in multiset(s);
        var a :| 0 <= a < |s| && s[a] == t[i];
        OccursTwice(t, i, j);
        OccursOnceDistinct(s, a);
        assert false;
      }
    }
  }

  lemma DistinctSnoc<T>(s: seq<T>, x: T)
    requires Distinct(s) && x !in s
    ensures Distinct(s + [x])
  {
  }

  /** The position of x in s, or -1 when s does not hold it. */
  function IndexOf<T(==)>(s: seq<T>, x: T): (i: int)
    ensures -1 <= i < |s|
    ensures i >= 0 ==> s[i] == x && forall k :: 0 <= k < i ==> s[k] != x
    ensures i == -1 <==> x !in s
  {
    if s == [] then -1
    else if s[0] == x then 0
    else var i := IndexOf(s[1..], x); if i == -1 then -1 else i + 1
  }

  lemma IndexOfDistinct<T>(s: seq<T>, k: nat)
    requires Distinct(s) && k < |s|
    ensures IndexOf(s, s[k]) == k
  {
  }

  /** Pop the element at `from`, then insert it at `to`, as list.pop and list.insert do. */
  function Move<T>(s: seq<T>, from: nat, to: nat): (r: seq<T>)
    requires from < |s| && to < |s|
    ensures |r| == |s|
    ensures r[to] == s[from]
    ensures multiset(r) == multiset(s)
  {
    var rest := s[..from] + s[from + 1..];
    assert s == s[..from] + [s[from]] + s[from + 1..];
    assert multiset(s) == multiset(rest) + multiset{s[from]};
    assert rest == rest[..to] + rest[to..];
    var r := rest[..to] + [s[from]] + rest[to..];
    assert multiset(r) == multiset(rest[..to]) + multiset{s[from]} + multiset(rest[to..]);
    r
  }

  /**
   * Where the element at position k of s ends up after Move(s, from, to):
   * the elements between the two positions shift by one towards `from`.
   */
  function MovedIndex(from: nat, to: nat, k: nat): nat {
    if k == from then to
    else
      var j := if k < from then k else k - 1;  // position once popped
      if j < to then j else j + 1             // position once re-inserted
  }

  lemma MoveAt<T>(s: seq<T>, from: nat, to: nat, k: nat)
    requires from < |s| && to < |s| && k < |s|
    ensures MovedIndex(from, to, k) < |s|
    ensures Move(s, from, to)[MovedIndex(from, to, k)] == s[k]
  {
  }

  /** Move keeps the relative order of every element other than the moved one. */
  lemma MovedIndexMonotone(from: nat, to: nat, k1: nat, k2: nat)
    requires k1 < k2 && k1 != from && k2 != from
    ensures MovedIndex(from, to, k1) < MovedIndex(from, to, k2)
  {
  }

  lemma MovedIndexInjective(from: nat, to: nat, k1: nat, k2: nat)
    requires k1 != k2
    ensures MovedIndex(from, to, k1) != MovedIndex(from, to, k2)
  {
  }
}
