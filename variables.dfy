/**
 * The registry as the program runs it: a Variable handle on the document
 * whose methods update the document's records in place, and the module
 * functions create_var and set_var_type. Each method is proved to leave the
 * document as the corresponding specification function of Registry says.
 */
module Variables {
  import opened Outcomes
  import opened Text
  import opened Store
  import opened Conversion
  import opened EditorModes
  import opened GroupKeys
  import opened Registry
  import opened Ordering
  import opened Sorting

  /**
   * create_var: the checks, then the new VarSet with its properties, the
   * value (when there is no expression), and the GroupSortKey, which is
   * added holding 0 before the bootstrap is asked for the key of the raw
   * `group` argument.
   */
  method CreateVar(host: Host, doc: Document, a: CreateArgs) returns (r: Result<bool>)
    requires doc.State().WellFormed()
    modifies doc
    ensures var s := CreateSpec(host, old(doc.State()), a);
            r == s.result && doc.State() == s.store
  {
    var sanitized := Sanitize(a.name);
    if sanitized.Err? {
      CreateRejectsInvalidName(host, doc.State(), a);
      return Err(sanitized.error);
    }
    var n := sanitized.value;
    if ExistingVarName(doc.State(), n).Some? {
      CreateRefusesExisting(host, doc.State(), a);
      return Ok(false);
    }
    if a.typ == Enumeration && a.options.None? {
      CreateRefusesArguments(host, doc.State(), a);
      return Err(InvalidArgument);
    } else if a.typ != Enumeration && a.options.Some? {
      CreateRefusesArguments(host, doc.State(), a);
      return Err(InvalidArgument);
    }
    if a.typ !in host.propertyTypes {
      // addProperty refuses a type the VarSet does not support
      CreateRefusesArguments(host, doc.State(), a);
      return Err(InvalidArgument);
    }
    r := AddVariable(host, doc, a, n);
  }

  /** The second half of create_var, once every check has passed: the VarSet, its value and its group key. */
  method AddVariable(host: Host, doc: Document, a: CreateArgs, n: string) returns (r: Result<bool>)
    requires doc.State().WellFormed() && Sanitize(a.name) == Ok(n) && ExistingVarName(doc.State(), n).None?
    requires OptionsAgree(a) && a.typ in host.propertyTypes
    modifies doc
    ensures var s := CreateSpec(host, old(doc.State()), a);
            r == s.result && doc.State() == s.store
  {
    ghost var st := doc.State();
    var id := doc.nextId;
    var rec := Fresh(host, a, n);
    doc.recs := doc.recs[id := rec];
    doc.order := doc.order + [id];
    doc.nextId := doc.nextId + 1;
    assert doc.State() == Added(st, rec);
    if !HasExpression(a.expression) && a.value.Some? {
      var accepted := host.assign(rec.typ, a.value.value);
      if accepted.None? {
        CreateRefusesValue(host, st, a);
        return Err(InvalidValue);
      }
      UpdateAdded(st, rec, rec.(value := accepted.value));
      rec := rec.(value := accepted.value);
      doc.recs := doc.recs[id := rec];
    }
    assert Some(rec) == WithValue(host, a, Fresh(host, a, n));
    UpdateAdded(st, rec, rec.(groupSortKey := Some(0)));
    doc.recs := doc.recs[id := rec.(groupSortKey := Some(0))];
    var key := GetOrAssignInitialGroupSortKey(doc, a.group);
    UpdateAdded(st, rec.(groupSortKey := Some(0)), rec.(groupSortKey := Some(key)));
    doc.recs := doc.recs[id := rec.(groupSortKey := Some(key))];
    CreateStoresCreated(host, st, a);
    r := Ok(true);
  }

  /**
   * The value set_var_type carries into the re-added Value property, by the
   * first rule that applies: Some when a value is assigned, None when the
   * property keeps its default; `raised` when an assignment outside the
   * exception guard fails.
   */
  method CarryOver(host: Host, oldType: TypeTag, newType: TypeTag, v: Value,
                   converter: Option<Value -> Option<Value>>) returns (carried: Option<Value>, raised: bool)
    ensures raised ==> carried.None?
    ensures Migrate(host, oldType, newType, v, converter) ==
            Migration(if carried.Some? then carried.value else host.defaultOf(newType), raised)
  {
    carried, raised := None, false;
    match RuleFor(oldType, newType, converter.Some?)
    case Custom =>
      if Truthy(v) {
        var converted := converter.value(v);
        if converted.Some? {
          carried := host.assign(newType, converted.value);
        }
      }
    case ListToItem =>
      if v.List? && v.items != [] {
        carried := host.assign(newType, v.items[0]);
        raised := carried.None?;
      }
    case ItemToList =>
      if Truthy(v) {
        carried := host.assign(newType, List([v]));
        raised := carried.None?;
      }
    case ListToList =>
      if v.List? {
        var items := ConvertListType(host, v.items, newType);
        if items.Some? {
          carried := host.assign(newType, List(items.value));
        }
      }
    case Raw =>
      if Truthy(v) {
        var cast := host.cast(newType, v);
        if cast.Some? {
          carried := host.assign(newType, cast.value);
        }
      }
  }

  /**
   * The Value property of variable `id` removed and added again with the
   * new type, which resets it to the type's default and drops its editor
   * mode, options and expression, then the old value carried over.
   */
  method Retype(host: Host, doc: Document, id: Id, newType: TypeTag,
                converter: Option<Value -> Option<Value>>) returns (r: Result<bool>)
    requires doc.State().WellFormed() && id in doc.recs
    modifies doc
    ensures var rec := old(doc.recs[id]);
            var m := Migrate(host, rec.typ, newType, rec.value, converter);
            doc.State() == Update(old(doc.State()), id, rec.(typ := newType, value := m.value, mode := 0, options := [], expression := None)) &&
            r == if m.raised then Err(InvalidValue) else Ok(true)
  {
    ghost var st := doc.State();
    var rec := doc.recs[id];
    var reset := rec.(typ := newType, value := host.defaultOf(newType), mode := 0, options := [], expression := None);
    doc.recs := doc.recs[id := reset];
    var carried, raised := CarryOver(host, rec.typ, newType, rec.value, converter);
    if carried.Some? {
      UpdateTwice(st, id, reset, reset.(value := carried.value));
      doc.recs := doc.recs[id := reset.(value := carried.value)];
    }
    r := if raised then Err(InvalidValue) else Ok(true);
  }

  /**
   * set_var_type: False when no variable carries the label, an error for a
   * type the VarSet does not support, False when the type is already the
   * new one; otherwise the variable is retyped.
   */
  method SetVarType(host: Host, doc: Document, name: string, newType: TypeTag,
                    converter: Option<Value -> Option<Value>>) returns (r: Result<bool>)
    requires doc.State().WellFormed()
    modifies doc
    ensures var s := SetVarTypeSpec(host, old(doc.State()), name, newType, converter);
            r == s.result && doc.State() == s.store
  {
    var found := FindByLabel(doc.State(), name);
    if found.None? {
      return Ok(false);
    }
    if newType !in host.propertyTypes {
      return Err(InvalidArgument);
    }
    if doc.recs[found.value].typ == newType {
      return Ok(false);
    }
    r := Retype(host, doc, found.value, newType, converter);
  }

  /**
   * _set_sort_key on a member of the group reorder walks: the document stays
   * the store st with the SortKeys of a key map rewritten, one entry more.
   */
  method SetKey(doc: Document, ghost st: Store, ghost keys: map<Id, int>, x: Id, v: int)
    requires x in st.recs && doc.recs == WithSortKeys(st, keys).recs
    modifies doc
    ensures doc.recs == WithSortKeys(st, keys[x := v]).recs
    ensures doc.order == old(doc.order) && doc.nextId == old(doc.nextId)
  {
    WithSortKeysSet(st, keys, x, v);
    doc.recs := doc.recs[x := doc.recs[x].(sortKey := v)];
  }

  /** The first loop of reorder: each member of the sorted group gets its position as SortKey. */
  method NumberAll(doc: Document, ghost st: Store, ms: seq<Id>)
    requires forall i :: i in ms ==> i in st.recs
    requires doc.recs == WithSortKeys(st, map[]).recs
    modifies doc
    ensures doc.recs == WithSortKeys(st, Numbered(ms, |ms|)).recs
    ensures doc.order == old(doc.order) && doc.nextId == old(doc.nextId)
  {
    var k := 0;
    while k < |ms|
      invariant 0 <= k <= |ms|
      invariant doc.order == old(doc.order) && doc.nextId == old(doc.nextId)
      invariant doc.recs == WithSortKeys(st, Numbered(ms, k)).recs
    {
      SetKey(doc, st, Numbered(ms, k), ms[k], k);
      k := k + 1;
    }
  }

  /**
   * The second loop of reorder: the other members, in order, get their
   * position among the others as SortKey, plus one from the first position
   * at or after seekBase + delta on; that position is returned, or -1.
   */
  method ShiftOthers(doc: Document, ghost st: Store, ghost base: map<Id, int>, others: seq<Id>,
                     seekBase: int, delta: Delta) returns (ins: int)
    requires forall i :: i in others ==> i in st.recs
    requires doc.recs == WithSortKeys(st, base).recs
    modifies doc
    ensures ins == FirstReached(|others|, seekBase, delta)
    ensures doc.recs == WithSortKeys(st, Shifted(base, others, |others|, seekBase, delta)).recs
    ensures doc.order == old(doc.order) && doc.nextId == old(doc.nextId)
  {
    var offset, pos := 0, 0;
    ins := -1;
    while pos < |others|
      invariant 0 <= pos <= |others|
      invariant ins == FirstReached(pos, seekBase, delta)
      invariant offset == if ins == -1 then 0 else 1
      invariant doc.order == old(doc.order) && doc.nextId == old(doc.nextId)
      invariant doc.recs == WithSortKeys(st, Shifted(base, others, pos, seekBase, delta)).recs
    {
      if Reached(pos, seekBase, delta) && offset == 0 {
        ins := pos;
        offset := 1;
      }
      assert ins == FirstReached(pos + 1, seekBase, delta);
      assert pos + offset == ShiftedKey(pos, seekBase, delta);
      SetKey(doc, st, Shifted(base, others, pos, seekBase, delta), others[pos], pos + offset);
      pos := pos + 1;
    }
  }

  /**
   * The second and third loops of reorder, starting from a numbered group:
   * the other members close the gap and make room, and the moved member
   * takes the slot it reached.
   */
  method MoveWithin(doc: Document, ghost st: Store, ms: seq<Id>, id: Id, delta: Delta)
    requires Distinct(ms) && id in ms
    requires forall i :: i in ms ==> i in st.recs
    requires doc.recs == WithSortKeys(st, Numbered(ms, |ms|)).recs
    modifies doc
    ensures doc.recs == WithSortKeys(st, LoopKeys(ms, id, delta)).recs
    ensures doc.order == old(doc.order) && doc.nextId == old(doc.nextId)
  {
    var p := IndexOf(ms, id);
    NumberedAt(ms, |ms|, p);
    var seekBase := doc.recs[id].sortKey;
    var others := ms[..p] + ms[p + 1..];
    assert forall i :: i in others ==> i in ms;
    var ins := ShiftOthers(doc, st, Numbered(ms, |ms|), others, seekBase, delta);
    var last := if ins > -1 then ins else |ms|;
    SetKey(doc, st, Shifted(Numbered(ms, |ms|), others, |others|, p, delta), id, last);
  }

  /**
   * reorder on the variable `id`: the members of its group are numbered
   * 0..n-1 in sorted order; then the others are renumbered in turn, leaving
   * a gap at the first position at or after its position plus delta, and it
   * takes the gap, or n when there is none.
   */
  method ReorderMember(doc: Document, id: Id, delta: Delta)
    requires doc.State().WellFormed() && id in doc.recs
    modifies doc
    ensures doc.State() == ReorderSpec(old(doc.State()), id, delta)
  {
    ghost var st := doc.State();
    var ms := GroupOrder(doc.State(), GroupOf(doc.recs[id]));
    GroupOrderMembers(st, GroupOf(st.recs[id]));
    WithNoSortKeys(st);
    NumberAll(doc, st, ms);
    MoveWithin(doc, st, ms, id, delta);
    LoopKeysMeetReorderSpec(st, id, delta);
  }

  /**
   * A handle on a variable: the document and the (sanitised) label it was
   * opened with. Every access looks the label up again.
   */
  class Variable {
    const doc: Document
    var name: string

    constructor (doc: Document, name: string)
      requires Sanitize(name) == Ok(name)
      ensures this.doc == doc && this.name == name
    {
      this.doc := doc;
      this.name := name;
    }

    /** exists(): the label resolves to a variable. */
    method Exists() returns (b: bool)
      requires doc.State().WellFormed()
      ensures b <==> FindByLabel(doc.State(), name).Some?
    {
      b := FindByLabel(doc.State(), name).Some?;
    }

    /** var_type: the type of the Value property of the variable the label resolves to. */
    method VarType() returns (t: Result<TypeTag>)
      requires doc.State().WellFormed()
      ensures t.Ok? <==> FindByLabel(doc.State(), name).Some?
      ensures t.Ok? ==> t.value == doc.recs[FindByLabel(doc.State(), name).value].typ
      ensures t.Err? ==> t.error == NotFound
    {
      var found := FindByLabel(doc.State(), name);
      if found.None? {
        return Err(NotFound);
      }
      t := Ok(doc.recs[found.value].typ);
    }

    /**
     * create_if_not_exists(): create_var under the handle's label; what
     * create_var answers is dropped, what it raises is passed on.
     */
    method CreateIfNotExists(host: Host, typ: TypeTag, default: Option<Value>, options: Option<seq<string>>,
                             description: string, expression: Option<string>, group: string) returns (r: Result<()>)
      requires doc.State().WellFormed()
      modifies doc
      ensures var s := CreateSpec(host, old(doc.State()), CreateArgs(name, typ, default, options, description, expression, group));
              doc.State() == s.store && (r.Err? <==> s.result.Err?) && (r.Err? ==> r.error == s.result.error)
    {
      var created := CreateVar(host, doc, CreateArgs(name, typ, default, options, description, expression, group));
      r := if created.Err? then Err(created.error) else Ok(());
    }

    /** delete(): removes the variable, or answers False when the label resolves to none. */
    method Delete() returns (b: bool)
      requires doc.State().WellFormed()
      modifies doc
      ensures var s := DeleteSpec(old(doc.State()), name);
              b == s.result.value && doc.State() == s.store
    {
      var found := FindByLabel(doc.State(), name);
      if found.None? {
        return false;
      }
      doc.recs := doc.recs - {found.value};
      doc.order := Without(doc.order, found.value);
      b := true;
    }

    /**
     * rename(): the handle follows the new label when the rename succeeds;
     * the description changes only when a non-empty one is given.
     */
    method Rename(newName: string, description: Option<string>) returns (r: Result<bool>)
      requires doc.State().WellFormed()
      modifies doc, this
      ensures var s := RenameSpec(old(doc.State()), old(name), newName, description);
              r == s.result && doc.State() == s.store
      ensures name == if r == Ok(true) then Strip(newName) else old(name)
    {
      ghost var st := doc.State();
      ghost var handle := name;
      var found := FindByLabel(doc.State(), name);
      if found.None? {
        return Err(NotFound);
      }
      var id := found.value;
      var sanitized := Sanitize(newName);
      if sanitized.Err? {
        return Err(sanitized.error);
      }
      var n := sanitized.value;
      var actual := ExistingVarName(doc.State(), n);
      if actual.Some? && Lower(actual.value) != Lower(name) {
        return Ok(false);
      }
      var rec := doc.recs[id].(name := n);
      name := n;
      if description.Some? && description.value != [] {
        rec := rec.(description := description.value);
      }
      doc.recs := doc.recs[id := rec];
      r := Ok(true);
      assert doc.State() == Update(st, id, rec);
      RenameApplies(st, handle, newName, description, id);
    }

    /** The group getter. */
    method Group() returns (g: Result<string>)
      requires doc.State().WellFormed()
      ensures g == GetGroup(doc.State(), name)
      ensures g.Ok? ==> g.value != []
    {
      var found := FindByLabel(doc.State(), name);
      if found.None? {
        return Err(NotFound);
      }
      var stored := doc.recs[found.value].group;
      g := Ok(if stored == [] then DefaultGroup else stored);
    }

    /** The group setter. */
    method SetGroup(group: string) returns (r: Result<()>)
      requires doc.State().WellFormed()
      modifies doc
      ensures var s := SetGroupSpec(old(doc.State()), name, group);
              r == s.result && doc.State() == s.store
    {
      var found := FindByLabel(doc.State(), name);
      if found.None? {
        return Err(NotFound);
      }
      doc.recs := doc.recs[found.value := doc.recs[found.value].(group := StoredGroup(group))];
      r := Ok(());
    }

    /** The hidden setter. */
    method SetHidden(hidden: bool) returns (r: Result<()>)
      requires doc.State().WellFormed()
      modifies doc
      ensures var s := SetHiddenSpec(old(doc.State()), name, hidden);
              r == s.result && doc.State() == s.store
    {
      var found := FindByLabel(doc.State(), name);
      if found.None? {
        return Err(NotFound);
      }
      doc.recs := doc.recs[found.value := doc.recs[found.value].(hidden := hidden)];
      r := Ok(());
    }

    /** _set_sort_key. */
    method SetSortKey(key: int) returns (r: Result<()>)
      requires doc.State().WellFormed()
      modifies doc
      ensures var s := SetSortKeySpec(old(doc.State()), name, key);
              r == s.result && doc.State() == s.store
    {
      var found := FindByLabel(doc.State(), name);
      if found.None? {
        return Err(NotFound);
      }
      doc.recs := doc.recs[found.value := doc.recs[found.value].(sortKey := key)];
      r := Ok(());
    }

    /** The description setter. */
    method SetDescription(description: string) returns (r: Result<()>)
      requires doc.State().WellFormed()
      modifies doc
      ensures var s := SetDescriptionSpec(old(doc.State()), name, description);
              r == s.result && doc.State() == s.store
    {
      var found := FindByLabel(doc.State(), name);
      if found.None? {
        return Err(NotFound);
      }
      doc.recs := doc.recs[found.value := doc.recs[found.value].(description := description)];
      r := Ok(());
    }

    /** The value setter. */
    method SetValue(host: Host, v: Value) returns (r: Result<()>)
      requires doc.State().WellFormed()
      modifies doc
      ensures var s := SetValueSpec(host, old(doc.State()), name, v);
              r == s.result && doc.State() == s.store
    {
      var found := FindByLabel(doc.State(), name);
      if found.None? {
        return Err(NotFound);
      }
      var accepted := host.assign(doc.recs[found.value].typ, v);
      if accepted.None? {
        return Err(InvalidValue);
      }
      doc.recs := doc.recs[found.value := doc.recs[found.value].(value := accepted.value)];
      r := Ok(());
    }

    /**
     * The editor_mode setter: the operations of the current mode names,
     * then those of the requests, folded into a mask starting from 0.
     */
    method SetEditorMode(requests: seq<string>) returns (r: Result<()>)
      requires doc.State().WellFormed()
      modifies doc
      ensures var s := SetEditorModeSpec(old(doc.State()), name, requests);
              r == s.result && doc.State() == s.store
    {
      var found := FindByLabel(doc.State(), name);
      if found.None? {
        return Err(NotFound);
      }
      var mode := NewMode(doc.recs[found.value].mode, requests);
      doc.recs := doc.recs[found.value := doc.recs[found.value].(mode := mode)];
      r := Ok(());
    }

    /** The read_only setter. */
    method SetReadOnly(ro: bool) returns (r: Result<()>)
      requires doc.State().WellFormed()
      modifies doc
      ensures var s := SetReadOnlySpec(old(doc.State()), name, ro);
              r == s.result && doc.State() == s.store
    {
      r := SetEditorMode([ReadOnlyRequest(ro)]);
    }

    /** The read_only getter. */
    method IsReadOnly() returns (r: Result<bool>)
      requires doc.State().WellFormed()
      ensures r.Ok? <==> FindByLabel(doc.State(), name).Some?
      ensures r.Ok? ==> r.value == ReadOnly(doc.recs[FindByLabel(doc.State(), name).value])
    {
      var found := FindByLabel(doc.State(), name);
      if found.None? {
        return Err(NotFound);
      }
      r := Ok("ReadOnly" in ModeNames(doc.recs[found.value].mode));
    }

    /** sort_key: (group, SortKey, label). */
    method SortKey() returns (t: Result<SortTuple>)
      requires doc.State().WellFormed()
      ensures t.Ok? <==> FindByLabel(doc.State(), name).Some?
      ensures t.Ok? ==> var rec := doc.recs[FindByLabel(doc.State(), name).value];
                        t.value.group == GroupOf(rec) && t.value.key == rec.sortKey && t.value.name == name
    {
      var found := FindByLabel(doc.State(), name);
      if found.None? {
        return Err(NotFound);
      }
      var g := Group();
      var rec := doc.recs[found.value];
      t := Ok(SortTuple(g.value, rec.sortKey, name));
    }

    /** __lt__: the comparison of the two sort_key tuples. */
    method LessThan(other: Variable) returns (r: Result<bool>)
      requires doc.State().WellFormed() && other.doc.State().WellFormed()
      ensures r.Ok? <==> FindByLabel(doc.State(), name).Some? && FindByLabel(other.doc.State(), other.name).Some?
      ensures r.Ok? ==> r.value == Less(doc.recs[FindByLabel(doc.State(), name).value],
                                        other.doc.recs[FindByLabel(other.doc.State(), other.name).value])
    {
      var a := SortKey();
      if a.Err? {
        return Err(a.error);
      }
      var b := other.SortKey();
      if b.Err? {
        return Err(b.error);
      }
      var x, y := a.value, b.value;
      r := Ok(LexLess(x.group, y.group) || (x.group == y.group && (x.key < y.key || (x.key == y.key && LexLess(x.name, y.name)))));
    }

    /**
     * reorder(delta): the members of the group are numbered 0..n-1 in sorted
     * order; then the others are renumbered in turn, leaving a gap at the
     * first position at or after this variable's position plus delta, and
     * this variable takes the gap, or n when there is none.
     */
    method Reorder(delta: Delta) returns (r: Result<()>)
      requires doc.State().WellFormed()
      modifies doc
      ensures r.Err? <==> FindByLabel(old(doc.State()), name).None?
      ensures r.Err? ==> r.error == NotFound && doc.State() == old(doc.State())
      ensures r.Ok? ==> doc.State() == ReorderSpec(old(doc.State()), FindByLabel(old(doc.State()), name).value, delta)
    {
      var found := FindByLabel(doc.State(), name);
      if found.None? {
        return Err(NotFound);
      }
      ReorderMember(doc, found.value, delta);
      r := Ok(());
    }

    /** change_var_type: set_var_type on this variable's label. */
    method ChangeVarType(host: Host, newType: TypeTag, converter: Option<Value -> Option<Value>>) returns (r: Result<bool>)
      requires doc.State().WellFormed()
      modifies doc
      ensures var s := SetVarTypeSpec(host, old(doc.State()), name, newType, converter);
              r == s.result && doc.State() == s.store
    {
      r := SetVarType(host, doc, name, newType, converter);
    }
  }

  /** Variable(doc, name): the name is sanitised first, which may raise. */
  method Open(doc: Document, name: string) returns (r: Result<Variable>)
    ensures r.Err? <==> Sanitize(name).Err?
    ensures r.Err? ==> r.error == InvalidName
    ensures r.Ok? ==> fresh(r.value) && r.value.doc == doc && r.value.name == Strip(name)
  {
    var sanitized := Sanitize(name);
    if sanitized.Err? {
      return Err(sanitized.error);
    }
    SanitizeIdempotent(name);
    var v := new Variable(doc, sanitized.value);
    r := Ok(v);
  }
}
