/**
 * The document store the registry works on. Each variable is a host object
 * (an App::VarSet) whose properties are gathered here into one Record; the
 * document maps internal ids to records and lists the ids in document order,
 * the order in which the host's findObjects() reports them.
 */
module Store {
  import opened Outcomes
  import opened Text

  /** The internal name of a variable's object (XVar_<n>). */
  type Id = nat

  /** A host property type such as "App::PropertyLength" or "App::PropertyIntegerList". */
  type TypeTag = string

  const Enumeration: TypeTag := "App::PropertyEnumeration"
  const DefaultGroup: string := "Default"

  /**
   * A property value. Integers, strings, booleans and lists are modelled;
   * floats, quantities and other host-native values are opaque, each with
   * its Python truth value.
   */
  datatype Value =
    | NoValue
    | Int(i: int)
    | Str(s: string)
    | Bool(b: bool)
    | Opaque(kind: string, repr: string, truthy: bool)
    | List(items: seq<Value>)

  /** Python's bool() of a value. */
  predicate Truthy(v: Value) {
    match v
    case NoValue => false
    case Int(i) => i != 0
    case Str(s) => s != []
    case Bool(b) => b
    case Opaque(_, _, t) => t
    case List(items) => items != []
  }

  /** The editor-mode bits of the Value property: 1 is ReadOnly, 2 is Hidden. */
  type Mask = bv2

  const ReadOnlyBit: Mask := 1
  const HiddenBit: Mask := 2

  /** One variable: the properties of its VarSet object. */
  datatype Record = Record(
    name: string,                   // Label: the user-facing name
    typ: TypeTag,                   // type of the Value property
    value: Value,                   // Value
    description: string,            // Description (mirrored into Label2 and the property documentation)
    group: string,                  // VarGroup
    sortKey: int,                   // SortKey: row position within the group
    groupSortKey: Option<int>,      // GroupSortKey: position of the group; absent until assigned
    hidden: bool,                   // Hidden
    mode: Mask,                     // editor mode of Value
    expression: Option<string>,     // expression bound to Value
    options: seq<string>)           // enumeration options of Value

  /** The `group` property: the stored group, or "Default" when it is empty. */
  function GroupOf(r: Record): (g: string)
    ensures g != []
  {
    if r.group == [] then DefaultGroup else r.group
  }

  /** A record as create_var and the group setter leave it: a valid label, a title-cased group. */
  predicate RecordOk(r: Record) {
    IsIdentifier(r.name) && r.group != [] && Title(r.group) == r.group
  }

  datatype Store = Store(recs: map<Id, Record>, order: seq<Id>, nextId: nat) {

    /** Document order lists every record once, and ids below nextId are the only ones used. */
    ghost predicate WellFormed() {
      (forall i, j :: 0 <= i < j < |order| ==> order[i] != order[j]) &&
      (forall id :: id in recs <==> id in order) &&
      (forall id :: id in recs ==> id < nextId)
    }

    /** Labels are distinct ignoring case, the invariant create_var and rename keep. */
    ghost predicate UniqueLabels() {
      forall a, b :: a in recs && b in recs && a != b ==> Lower(recs[a].name) != Lower(recs[b].name)
    }

    ghost predicate Valid() {
      WellFormed() && UniqueLabels() && forall id :: id in recs ==> RecordOk(recs[id])
    }
  }

  /** The host document, updated in place by the registry. */
  class Document {
    var recs: map<Id, Record>
    var order: seq<Id>
    var nextId: nat

    function State(): Store
      reads this
    {
      Store(recs, order, nextId)
    }

    ghost predicate Valid()
      reads this
    {
      State().Valid()
    }

    constructor ()
      ensures State() == Store(map[], [], 0)
      ensures Valid()
    {
      recs, order, nextId := map[], [], 0;
    }
  }

  /** The first of ids, in order, whose record has exactly this label. */
  function FindLabel(recs: map<Id, Record>, ids: seq<Id>, name: string): (r: Option<Id>)
    requires forall id :: id in ids ==> id in recs
    ensures r.Some? ==> r.value in ids && recs[r.value].name == name
    ensures r.None? <==> forall id :: id in ids ==> recs[id].name != name
  {
    if ids == [] then None
    else if recs[ids[0]].name == name then Some(ids[0])
    else FindLabel(recs, ids[1..], name)
  }

  /** Rewriting fields other than the label and the group keeps a store valid. */
  lemma SameLabelsValid(st: Store, recs: map<Id, Record>)
    requires st.Valid() && recs.Keys == st.recs.Keys
    requires forall i :: i in recs ==> recs[i].name == st.recs[i].name && recs[i].group == st.recs[i].group
    ensures Store(recs, st.order, st.nextId).Valid()
  {
    var r := Store(recs, st.order, st.nextId);
    assert r.UniqueLabels() by {
      forall a, b | a in recs && b in recs && a != b ensures Lower(recs[a].name) != Lower(recs[b].name) {
        assert recs[a].name == st.recs[a].name && recs[b].name == st.recs[b].name;
      }
    }
    forall i | i in recs ensures RecordOk(recs[i]) {
      assert RecordOk(st.recs[i]);
    }
  }

  /** get_varset: the variable whose label is exactly `name`. */
  function FindByLabel(st: Store, name: string): (r: Option<Id>)
    requires st.WellFormed()
    ensures r.Some? ==> r.value in st.recs && st.recs[r.value].name == name
    ensures r.None? <==> forall id :: id in st.recs ==> st.recs[id].name != name
  {
    FindLabel(st.recs, st.order, name)
  }

  /** In a valid store a label resolves to the one variable that carries it. */
  lemma FindByLabelUnique(st: Store, id: Id)
    requires st.Valid() && id in st.recs
    ensures FindByLabel(st, st.recs[id].name) == Some(id)
  {
  }

  function FindLabelIgnoringCase(recs: map<Id, Record>, ids: seq<Id>, lowered: string): (r: Option<string>)
    requires forall id :: id in ids ==> id in recs
    ensures r.Some? ==> exists id :: id in ids && recs[id].name == r.value && Lower(r.value) == lowered
    ensures r.None? <==> forall id :: id in ids ==> Lower(recs[id].name) != lowered
  {
    if ids == [] then None
    else if Lower(recs[ids[0]].name) == lowered then Some(recs[ids[0]].name)
    else FindLabelIgnoringCase(recs, ids[1..], lowered)
  }

  /**
   * existing_var_name: the label of a variable whose label equals `name`
   * ignoring case, if there is one.
   */
  function ExistingVarName(st: Store, name: string): (r: Option<string>)
    requires st.WellFormed()
    ensures r.Some? ==> exists id :: id in st.recs && st.recs[id].name == r.value && Lower(r.value) == Lower(name)
    ensures r.None? <==> forall id :: id in st.recs ==> Lower(st.recs[id].name) != Lower(name)
  {
    FindLabelIgnoringCase(st.recs, st.order, Lower(name))
  }
}
