/**
 * The operations of the variable registry on the document store, as
 * functions from the store before to the result and the store after:
 * create_var, Variable.rename, the property setters, delete and exists,
 * set_var_type, and the order of Variable.__lt__.
 */
module Registry {
  import opened Outcomes
  import opened Text
  import opened Sorting
  import opened Store
  import opened GroupKeys
  import opened Conversion
  import opened EditorModes

  /** What an operation returns (or raises) and the store it leaves behind. */
  datatype Step<+T> = Step(result: Result<T>, store: Store)

  /** The store with the record of `id` replaced. */
  function Update(st: Store, id: Id, r: Record): (s: Store)
    requires id in st.recs
    ensures s.order == st.order && s.nextId == st.nextId && s.recs.Keys == st.recs.Keys
    ensures st.WellFormed() ==> s.WellFormed()
  {
    Store(st.recs[id := r], st.order, st.nextId)
  }

  /** Two updates of the same record leave only the second. */
  lemma UpdateTwice(st: Store, id: Id, r: Record, r': Record)
    requires id in st.recs
    ensures Update(Update(st, id, r), id, r') == Update(st, id, r')
  {
    assert st.recs[id := r][id := r'] == st.recs[id := r'];
  }

  /** The store with a new record under a fresh id, appended to document order. */
  function Added(st: Store, r: Record): (s: Store)
    ensures s.recs.Keys == st.recs.Keys + {st.nextId} && s.order == st.order + [st.nextId]
    ensures st.WellFormed() ==> s.WellFormed() && st.nextId !in st.recs
  {
    Store(st.recs[st.nextId := r], st.order + [st.nextId], st.nextId + 1)
  }

  /** Updating the record just added is adding the updated record. */
  lemma UpdateAdded(st: Store, r: Record, r': Record)
    ensures st.nextId in Added(st, r).recs
    ensures Update(Added(st, r), st.nextId, r') == Added(st, r')
  {
    assert st.recs[st.nextId := r][st.nextId := r'] == st.recs[st.nextId := r'];
  }

  lemma {:induction false} FindLabelSameNames(recs: map<Id, Record>, recs': map<Id, Record>, ids: seq<Id>, name: string)
    requires forall id :: id in ids ==> id in recs && id in recs' && recs[id].name == recs'[id].name
    ensures FindLabel(recs, ids, name) == FindLabel(recs', ids, name)
  {
    if ids != [] {
      FindLabelSameNames(recs, recs', ids[1..], name);
    }
  }

  /** Replacing a record by one with the same label changes no lookup by label. */
  lemma UpdateKeepsLookup(st: Store, id: Id, r: Record, name: string)
    requires st.WellFormed() && id in st.recs && r.name == st.recs[id].name
    ensures FindByLabel(Update(st, id, r), name) == FindByLabel(st, name)
  {
    FindLabelSameNames(st.recs, Update(st, id, r).recs, st.order, name);
  }

  /** A record replaced by one with a label equal to no other ignoring case keeps a store valid. */
  lemma UpdateValid(st: Store, id: Id, r: Record)
    requires st.Valid() && id in st.recs && RecordOk(r)
    requires forall j :: j in st.recs && j != id ==> Lower(st.recs[j].name) != Lower(r.name)
    ensures Update(st, id, r).Valid()
  {
    var s := Update(st, id, r);
    assert s.UniqueLabels() by {
      forall a, b | a in s.recs && b in s.recs && a != b ensures Lower(s.recs[a].name) != Lower(s.recs[b].name) {
        if a != id && b != id {
          assert s.recs[a] == st.recs[a] && s.recs[b] == st.recs[b];
        }
      }
    }
    assert forall i :: i in s.recs ==> RecordOk(s.recs[i]) by {
      forall i | i in s.recs ensures RecordOk(s.recs[i]) {
        if i != id {
          assert s.recs[i] == st.recs[i];
        }
      }
    }
  }

  /** A new record with a label equal to no other ignoring case keeps a store valid. */
  lemma AddedValid(st: Store, r: Record)
    requires st.Valid() && RecordOk(r)
    requires forall j :: j in st.recs ==> Lower(st.recs[j].name) != Lower(r.name)
    ensures Added(st, r).Valid()
  {
  }

  // ---------------------------------------------------------------- create_var

  /** The keyword arguments of create_var; None stands for Python's None. */
  datatype CreateArgs = CreateArgs(
    name: string,
    typ: TypeTag,
    value: Option<Value>,
    options: Option<seq<string>>,
    description: string,
    expression: Option<string>,
    group: string)

  /** The group create_var and the group setter store: title-cased, "Default" when empty. */
  function StoredGroup(group: string): (g: string)
    ensures g != [] && Title(g) == g
    ensures group != [] ==> g == Title(group)
  {
    var raw := if group == [] then DefaultGroup else group;
    TitleIdempotent(raw);
    Title(raw)
  }

  /** Python's truth value of an optional string: present and not empty. */
  predicate NonEmpty(s: Option<string>) {
    s.Some? && s.value != []
  }

  /** An expression is bound only when one is given and it is not empty. */
  predicate HasExpression(e: Option<string>) {
    NonEmpty(e)
  }

  /** Options are given exactly when the type is an enumeration. */
  predicate OptionsAgree(a: CreateArgs) {
    (a.typ == Enumeration) == a.options.Some?
  }

  /** create_var assigns the value: one is given and there is no expression to bind. */
  predicate Assigns(a: CreateArgs) {
    !HasExpression(a.expression) && a.value.Some?
  }

  /**
   * The record create_var builds before the value and the group key: label,
   * type, default value, description, stored group, SortKey 0, Hidden False,
   * no editor-mode bits, the expression when there is one, and the options.
   */
  function Fresh(host: Host, a: CreateArgs, n: string): (r: Record)
    ensures r.name == n && r.typ == a.typ && r.group == StoredGroup(a.group) && r.description == a.description
    ensures r.sortKey == 0 && !r.hidden && r.groupSortKey.None? && r.mode == 0
    ensures r.value == host.defaultOf(a.typ)
    ensures r.expression == if HasExpression(a.expression) then a.expression else None
  {
    Record(n, a.typ, host.defaultOf(a.typ), a.description, StoredGroup(a.group), 0, None, false, 0,
           if HasExpression(a.expression) then a.expression else None,
           if a.options.Some? then a.options.value else [])
  }

  /**
   * The record once create_var has applied the value: unchanged when it
   * does not assign, None when the host refuses the value.
   */
  function WithValue(host: Host, a: CreateArgs, r: Record): (o: Option<Record>)
    ensures o.None? <==> Assigns(a) && host.assign(r.typ, a.value.value).None?
    ensures o.Some? ==> o.value == r.(value := o.value.value)
    ensures o.Some? && Assigns(a) ==> Some(o.value.value) == host.assign(r.typ, a.value.value)
    ensures o.Some? && !Assigns(a) ==> o.value == r
  {
    if !Assigns(a) then Some(r)
    else
      match host.assign(r.typ, a.value.value)
      case None => None
      case Some(x) => Some(r.(value := x))
  }

  /**
   * The GroupSortKey create_var stores, as written: the bootstrap runs once
   * the new variable is in the document with GroupSortKey already added
   * (holding 0), and it is asked about the raw `group` argument.
   */
  function CreatedKey(st: Store, r: Record, group: string): int
    requires st.WellFormed()
  {
    InitialGroupKey(Added(st, r.(groupSortKey := Some(0))), group)
  }

  /**
   * create_var. An invalid name raises; a label equal ignoring case to an
   * existing one gives False; options must be given exactly for
   * enumerations; a type the host cannot add raises. Otherwise the variable
   * is added, its value assigned when there is no expression (a refused
   * value raises, leaving the variable without a group key), and its
   * GroupSortKey bootstrapped.
   */
  function CreateSpec(host: Host, st: Store, a: CreateArgs): (s: Step<bool>)
    requires st.WellFormed()
    ensures s.store.WellFormed()
    ensures s.result.Ok? && s.result.value ==> s.store.recs.Keys == st.recs.Keys + {st.nextId}
    ensures (s.result.Ok? && !s.result.value) || s.result == Err(InvalidName) ==> s.store == st
  {
    match Sanitize(a.name)
    case Err(e) => Step(Err(e), st)
    case Ok(n) =>
      if ExistingVarName(st, n).Some? then Step(Ok(false), st)
      else if !OptionsAgree(a) || a.typ !in host.propertyTypes then Step(Err(InvalidArgument), st)
      else
        var r := Fresh(host, a, n);
        match WithValue(host, a, r)
        case None => Step(Err(InvalidValue), Added(st, r))
        case Some(r') => Step(Ok(true), Added(st, r'.(groupSortKey := Some(CreatedKey(st, r', a.group)))))
  }

  /** The record a successful create_var adds, before its group key. */
  function Created(host: Host, a: CreateArgs): (r: Record)
    requires Sanitize(a.name).Ok? && WithValue(host, a, Fresh(host, a, Sanitize(a.name).value)).Some?
  {
    WithValue(host, a, Fresh(host, a, Sanitize(a.name).value)).value
  }

  /** A successful create_var adds the record Created describes, with its bootstrapped key. */
  lemma CreateSucceeds(host: Host, st: Store, a: CreateArgs)
    requires st.WellFormed() && CreateSpec(host, st, a).result == Ok(true)
    ensures Sanitize(a.name).Ok? && WithValue(host, a, Fresh(host, a, Sanitize(a.name).value)).Some?
    ensures ExistingVarName(st, Sanitize(a.name).value).None?
    ensures CreateSpec(host, st, a).store ==
              Added(st, Created(host, a).(groupSortKey := Some(CreatedKey(st, Created(host, a), a.group))))
  {
    assert Sanitize(a.name).Ok?;
    CreateStoresCreated(host, st, a);
  }

  /** When every check passes, create_var adds the created record with its group key. */
  lemma CreateStoresCreated(host: Host, st: Store, a: CreateArgs)
    requires st.WellFormed() && Sanitize(a.name).Ok? && ExistingVarName(st, Sanitize(a.name).value).None?
    requires OptionsAgree(a) && a.typ in host.propertyTypes && WithValue(host, a, Fresh(host, a, Sanitize(a.name).value)).Some?
    ensures CreateSpec(host, st, a) ==
              Step(Ok(true), Added(st, Created(host, a).(groupSortKey := Some(CreatedKey(st, Created(host, a), a.group)))))
  {
  }

  /** A value the host refuses raises once the variable has been added, before it gets a group key. */
  lemma CreateRefusesValue(host: Host, st: Store, a: CreateArgs)
    requires st.WellFormed() && Sanitize(a.name).Ok? && ExistingVarName(st, Sanitize(a.name).value).None?
    requires OptionsAgree(a) && a.typ in host.propertyTypes && WithValue(host, a, Fresh(host, a, Sanitize(a.name).value)).None?
    ensures CreateSpec(host, st, a) == Step(Err(InvalidValue), Added(st, Fresh(host, a, Sanitize(a.name).value)))
  {
  }

  /** A label some variable already has, ignoring case, gives False and changes nothing. */
  lemma CreateRefusesExisting(host: Host, st: Store, a: CreateArgs)
    requires st.WellFormed() && Sanitize(a.name).Ok? && ExistingVarName(st, Sanitize(a.name).value).Some?
    ensures CreateSpec(host, st, a) == Step(Ok(false), st)
  {
  }

  /** Options that disagree with the type, or a type the host cannot add, raise and change nothing. */
  lemma CreateRefusesArguments(host: Host, st: Store, a: CreateArgs)
    requires st.WellFormed() && Sanitize(a.name).Ok? && ExistingVarName(st, Sanitize(a.name).value).None?
    requires !OptionsAgree(a) || a.typ !in host.propertyTypes
    ensures CreateSpec(host, st, a) == Step(Err(InvalidArgument), st)
  {
  }

  /** An invalid name is refused before anything else is looked at. */
  lemma CreateRejectsInvalidName(host: Host, st: Store, a: CreateArgs)
    requires st.WellFormed() && !IsIdentifier(Strip(a.name))
    ensures CreateSpec(host, st, a) == Step(Err(InvalidName), st)
  {
  }

  /**
   * A label taken ignoring case gives False and changes nothing, whatever the
   * type and options.
   */
  lemma CreateRefusesTakenName(host: Host, st: Store, a: CreateArgs, id: Id)
    requires st.WellFormed() && IsIdentifier(Strip(a.name))
    requires id in st.recs && Lower(st.recs[id].name) == Lower(Strip(a.name))
    ensures CreateSpec(host, st, a) == Step(Ok(false), st)
  {
  }

  /** Only after the name checks: options must be given for an enumeration and only for one. */
  lemma CreateChecksOptions(host: Host, st: Store, a: CreateArgs)
    requires st.WellFormed() && IsIdentifier(Strip(a.name))
    requires forall id :: id in st.recs ==> Lower(st.recs[id].name) != Lower(Strip(a.name))
    ensures (a.typ == Enumeration) != a.options.Some? ==> CreateSpec(host, st, a) == Step(Err(InvalidArgument), st)
  {
  }

  /**
   * A created variable: it is the only new record, it resolves by its
   * stripped label, and it holds the stored group, SortKey 0, Hidden False,
   * a GroupSortKey, and the assigned value when no expression was given.
   */
  lemma CreateAdds(host: Host, st: Store, a: CreateArgs)
    requires st.WellFormed()
    requires CreateSpec(host, st, a).result == Ok(true)
    ensures var s := CreateSpec(host, st, a).store;
            var r := s.recs[st.nextId];
            s.order == st.order + [st.nextId] && s.nextId == st.nextId + 1 &&
            (forall i :: i in st.recs ==> s.recs[i] == st.recs[i]) &&
            r.name == Strip(a.name) && r.typ == a.typ && r.description == a.description &&
            r.group == StoredGroup(a.group) && r.sortKey == 0 && !r.hidden && r.groupSortKey.Some? &&
            (Assigns(a) ==> Some(r.value) == host.assign(a.typ, a.value.value)) &&
            (HasExpression(a.expression) ==> r.expression == a.expression && r.value == host.defaultOf(a.typ))
  {
    CreateSucceeds(host, st, a);
  }

  /** The created variable is the one its stripped label resolves to. */
  lemma CreateResolves(host: Host, st: Store, a: CreateArgs)
    requires st.WellFormed()
    requires CreateSpec(host, st, a).result == Ok(true)
    ensures FindByLabel(CreateSpec(host, st, a).store, Strip(a.name)) == Some(st.nextId)
  {
    CreateSucceeds(host, st, a);
    var n := Strip(a.name);
    var s := CreateSpec(host, st, a).store;
    assert s.recs[st.nextId].name == n;
    forall i | i in st.recs ensures s.recs[i].name != n {
      assert Lower(st.recs[i].name) != Lower(n);
    }
  }

  /** create_var keeps the store valid whatever it does, error or not. */
  lemma CreatePreservesValid(host: Host, st: Store, a: CreateArgs)
    requires st.Valid()
    ensures CreateSpec(host, st, a).store.Valid()
  {
    var s := CreateSpec(host, st, a);
    CreateShape(host, st, a);
    if s.store != st {
      var r := s.store.recs[st.nextId];
      assert RecordOk(r);
      AddedValid(st, r);
    }
  }

  /** create_var leaves the store alone or adds one record, named by the sanitised label and stored in a titled group. */
  lemma CreateShape(host: Host, st: Store, a: CreateArgs)
    requires st.WellFormed()
    ensures var s := CreateSpec(host, st, a);
            s.store == st ||
            (Sanitize(a.name).Ok? && ExistingVarName(st, Sanitize(a.name).value).None? &&
             st.nextId in s.store.recs && s.store == Added(st, s.store.recs[st.nextId]) &&
             s.store.recs[st.nextId].name == Sanitize(a.name).value && s.store.recs[st.nextId].group == StoredGroup(a.group))
  {
    match Sanitize(a.name)
    case Err(_) =>
      CreateRejectsInvalidName(host, st, a);
    case Ok(n) =>
      if ExistingVarName(st, n).Some? {
        CreateRefusesExisting(host, st, a);
      } else if !OptionsAgree(a) || a.typ !in host.propertyTypes {
        CreateRefusesArguments(host, st, a);
      } else if WithValue(host, a, Fresh(host, a, n)).None? {
        CreateRefusesValue(host, st, a);
      } else {
        CreateStoresCreated(host, st, a);
      }
  }

  /**
   * As written, the bootstrap finds the new variable itself, holding the 0
   * its freshly added property starts with: in a group no other variable
   * has a key for, that 0 is the answer.
   */
  lemma CreatedKeyInNewGroup(st: Store, r: Record)
    requires st.WellFormed()
    requires forall id :: id in st.recs ==> !KeyedIn(st.recs[id], GroupOf(r))
    ensures CreatedKey(st, r, GroupOf(r)) == 0
  {
    var probe := Added(st, r.(groupSortKey := Some(0)));
    var k := |st.order|;
    assert probe.order[k] == st.nextId;
    forall j | 0 <= j < k ensures !KeyedIn(probe.recs[probe.order[j]], GroupOf(r)) {
      assert probe.order[j] == st.order[j] && st.order[j] in st.recs;
    }
    InitialKeyOfExistingGroup(probe, GroupOf(r), k);
  }

  /**
   * As written, a variable created in a new group whose name is already
   * title-cased receives 0 as its group key, whatever keys the other groups
   * hold.
   */
  lemma CreateNewGroupKeyIsZero(host: Host, st: Store, a: CreateArgs)
    requires st.WellFormed() && CreateSpec(host, st, a).result == Ok(true)
    requires a.group == StoredGroup(a.group)
    requires forall id :: id in st.recs ==> !KeyedIn(st.recs[id], a.group)
    ensures CreateSpec(host, st, a).store.recs[st.nextId].groupSortKey == Some(0)
  {
    CreateSucceeds(host, st, a);
    CreatedKeyInNewGroup(st, Created(host, a));
  }

  /**
   * As written, a raw group no variable is stored under is never found by
   * the bootstrap, so the key lies above every first-seen key.
   */
  lemma CreatedKeyForRawGroup(st: Store, r: Record, group: string, k: nat)
    requires st.Valid() && group != StoredGroup(group) && GroupOf(r) == StoredGroup(group)
    requires k < |st.order| && st.recs[st.order[k]].groupSortKey.Some?
    requires forall j :: 0 <= j < k ==> !KeyedIn(st.recs[st.order[j]], GroupOf(st.recs[st.order[k]]))
    ensures CreatedKey(st, r, group) > st.recs[st.order[k]].groupSortKey.value
  {
    var probe := Added(st, r.(groupSortKey := Some(0)));
    forall id | id in probe.recs ensures !KeyedIn(probe.recs[id], group) {
      if id in st.recs {
        assert RecordOk(st.recs[id]);
      } else {
        assert probe.recs[id].group == r.group;
      }
    }
    InitialKeyOfNewGroup(probe, group);
    var g := GroupOf(st.recs[st.order[k]]);
    forall j | 0 <= j < k ensures !KeyedIn(probe.recs[probe.order[j]], g) {
      assert probe.order[j] == st.order[j] && st.order[j] in st.recs;
    }
    assert probe.order[k] == st.order[k] && KeyedIn(probe.recs[probe.order[k]], g);
    FirstKeysSpec(probe.recs, probe.order, g);
  }

  /**
   * As written, a group argument that is not already in stored form (lower
   * case, or empty for "Default") is never found by the bootstrap, so the
   * new variable gets a key above that of every keyed variable, including
   * the members of its own stored group.
   */
  lemma CreateRawGroupMissesKey(host: Host, st: Store, a: CreateArgs, k: nat)
    requires st.Valid() && CreateSpec(host, st, a).result == Ok(true)
    requires a.group != StoredGroup(a.group)
    requires k < |st.order| && KeyedIn(st.recs[st.order[k]], StoredGroup(a.group))
    requires forall j :: 0 <= j < k ==> !KeyedIn(st.recs[st.order[j]], StoredGroup(a.group))
    ensures CreateSpec(host, st, a).store.recs[st.nextId].groupSortKey.Some?
    ensures CreateSpec(host, st, a).store.recs[st.nextId].groupSortKey.value > st.recs[st.order[k]].groupSortKey.value
  {
    CreateSucceeds(host, st, a);
    CreatedKeyForRawGroup(st, Created(host, a), a.group, k);
  }

  /**
   * The key create_var evidently intends: the bootstrap key of the stored
   * group, computed on the document as it was before the new variable.
   */
  function IntendedGroupKey(st: Store, group: string): int
    requires st.WellFormed()
  {
    InitialGroupKey(st, StoredGroup(group))
  }

  /**
   * The intended key joins the new variable to its group: the key of the
   * group's first keyed member when the group has one; otherwise a key above
   * every group's, or 0 in a document without keys.
   */
  lemma IntendedGroupKeySpec(st: Store, group: string)
    requires st.WellFormed()
    ensures forall k :: 0 <= k < |st.order| && KeyedIn(st.recs[st.order[k]], StoredGroup(group)) &&
                        (forall j :: 0 <= j < k ==> !KeyedIn(st.recs[st.order[j]], StoredGroup(group))) ==>
                        IntendedGroupKey(st, group) == st.recs[st.order[k]].groupSortKey.value
    ensures (forall id :: id in st.recs ==> !KeyedIn(st.recs[id], StoredGroup(group))) ==>
              forall h :: h in FirstKeys(st.recs, st.order) ==> FirstKeys(st.recs, st.order)[h] < IntendedGroupKey(st, group)
    ensures (forall id :: id in st.recs ==> st.recs[id].groupSortKey.None?) ==> IntendedGroupKey(st, group) == 0
  {
    var g := StoredGroup(group);
    forall k | 0 <= k < |st.order| && KeyedIn(st.recs[st.order[k]], g) &&
               (forall j :: 0 <= j < k ==> !KeyedIn(st.recs[st.order[j]], g))
      ensures IntendedGroupKey(st, group) == st.recs[st.order[k]].groupSortKey.value
    {
      InitialKeyOfExistingGroup(st, g, k);
    }
    if forall id :: id in st.recs ==> !KeyedIn(st.recs[id], g) {
      InitialKeyOfNewGroup(st, g);
    }
    if forall id :: id in st.recs ==> st.recs[id].groupSortKey.None? {
      InitialKeyOfNewGroup(st, g);
    }
  }

  // ----------------------------------------------------------------- rename

  /**
   * Variable.rename on the variable the handle `handle` resolves to: the
   * handle must resolve; the new name is sanitised; a label equal to it
   * ignoring case that is not the handle's own name refuses the rename;
   * otherwise the label changes, and so does the description when a
   * non-empty one is given.
   */
  function RenameSpec(st: Store, handle: string, newName: string, description: Option<string>): (s: Step<bool>)
    requires st.WellFormed()
    ensures s.store.WellFormed()
    ensures s.result.Ok? && s.result.value ==> Sanitize(newName).Ok? && FindByLabel(st, handle).Some?
    ensures !(s.result.Ok? && s.result.value) ==> s.store == st
  {
    match FindByLabel(st, handle)
    case None => Step(Err(NotFound), st)
    case Some(id) =>
      match Sanitize(newName)
      case Err(e) => Step(Err(e), st)
      case Ok(n) =>
        var actual := ExistingVarName(st, n);
        if actual.Some? && Lower(actual.value) != Lower(handle) then Step(Ok(false), st)
        else
          var r := st.recs[id];
          var d := if NonEmpty(description) then description.value else r.description;
          Step(Ok(true), Update(st, id, r.(name := n, description := d)))
  }

  /** The rename that goes through: the variable takes the stripped name, and the description when one is given. */
  lemma RenameApplies(st: Store, handle: string, newName: string, description: Option<string>, id: Id)
    requires st.WellFormed() && FindByLabel(st, handle) == Some(id) && Sanitize(newName).Ok?
    requires var a := ExistingVarName(st, Strip(newName)); !(a.Some? && Lower(a.value) != Lower(handle))
    ensures id in st.recs
    ensures var r := st.recs[id];
            var d := if NonEmpty(description) then description.value else r.description;
            RenameSpec(st, handle, newName, description) == Step(Ok(true), Update(st, id, r.(name := Strip(newName), description := d)))
  {
  }

  /**
   * In a valid store a rename is refused exactly when another variable
   * carries the new name ignoring case; a case variant of the variable's own
   * name is accepted.
   */
  lemma RenameRefusedIffTaken(st: Store, id: Id, newName: string)
    requires st.Valid() && id in st.recs && IsIdentifier(Strip(newName))
    ensures var s := RenameSpec(st, st.recs[id].name, newName, None);
            s.result == Ok(false) <==>
              exists j :: j in st.recs && j != id && Lower(st.recs[j].name) == Lower(Strip(newName))
    ensures var s := RenameSpec(st, st.recs[id].name, newName, None);
            s.result.Ok?
  {
    FindByLabelUnique(st, id);
    var n := Strip(newName);
    var actual := ExistingVarName(st, n);
    if actual.Some? {
      var j :| j in st.recs && st.recs[j].name == actual.value && Lower(actual.value) == Lower(n);
      if j == id {
        assert Lower(actual.value) == Lower(st.recs[id].name);
      } else {
        assert Lower(actual.value) != Lower(st.recs[id].name);
      }
    }
  }

  /**
   * A rename that succeeds changes the label of the variable, and its
   * description only when a non-empty one is given; the renamed variable is
   * found by its new label.
   */
  lemma RenameEffect(st: Store, id: Id, newName: string, description: Option<string>)
    requires st.Valid() && id in st.recs
    requires RenameSpec(st, st.recs[id].name, newName, description).result == Ok(true)
    ensures var s := RenameSpec(st, st.recs[id].name, newName, description).store;
            s.recs == st.recs[id := s.recs[id]] && s.order == st.order && s.nextId == st.nextId &&
            s.recs[id] == st.recs[id].(name := Strip(newName), description := s.recs[id].description) &&
            (NonEmpty(description) ==> s.recs[id].description == description.value) &&
            (!NonEmpty(description) ==> s.recs[id].description == st.recs[id].description)
    ensures RenameSpec(st, st.recs[id].name, newName, description).store.Valid()
    ensures FindByLabel(RenameSpec(st, st.recs[id].name, newName, description).store, Strip(newName)) == Some(id)
  {
    FindByLabelUnique(st, id);
    var n := Strip(newName);
    var s := RenameSpec(st, st.recs[id].name, newName, description).store;
    var actual := ExistingVarName(st, n);
    if actual.Some? {
      assert Lower(n) == Lower(st.recs[id].name);
    }
    assert forall j :: j in st.recs && j != id ==> Lower(st.recs[j].name) != Lower(n);
    UpdateValid(st, id, s.recs[id]);
    FindByLabelUnique(s, id);
  }

  /** A rename that is refused or raises changes nothing. */
  lemma RenameFailureChangesNothing(st: Store, handle: string, newName: string, description: Option<string>)
    requires st.WellFormed() && RenameSpec(st, handle, newName, description).result != Ok(true)
    ensures RenameSpec(st, handle, newName, description).store == st
    ensures FindByLabel(st, handle).None? ==> RenameSpec(st, handle, newName, description).result == Err(NotFound)
  {
  }

  // -------------------------------------------------------- property setters

  /** The group setter: the group stored title-cased, "Default" when empty. */
  function SetGroupSpec(st: Store, handle: string, group: string): (s: Step<()>)
    requires st.WellFormed()
    ensures s.store.WellFormed()
    ensures s.result.Err? <==> FindByLabel(st, handle).None?
    ensures s.result.Err? ==> s.store == st
  {
    match FindByLabel(st, handle)
    case None => Step(Err(NotFound), st)
    case Some(id) => Step(Ok(()), Update(st, id, st.recs[id].(group := StoredGroup(group))))
  }

  /** The group getter: the stored group, or "Default" when it is empty. */
  function GetGroup(st: Store, handle: string): (g: Result<string>)
    requires st.WellFormed()
    ensures g.Ok? <==> FindByLabel(st, handle).Some?
    ensures g.Ok? ==> g.value != []
  {
    match FindByLabel(st, handle)
    case None => Err(NotFound)
    case Some(id) => Ok(GroupOf(st.recs[id]))
  }

  /**
   * The group setter and getter: after setting, the getter answers the
   * stored form of the group, nothing but the group has changed and the
   * store stays valid.
   */
  lemma GroupSetGet(st: Store, id: Id, group: string)
    requires st.Valid() && id in st.recs
    ensures var s := SetGroupSpec(st, st.recs[id].name, group).store;
            s.Valid() && s.recs == st.recs[id := st.recs[id].(group := StoredGroup(group))] &&
            GetGroup(s, st.recs[id].name) == Ok(StoredGroup(group))
  {
    FindByLabelUnique(st, id);
    var r := st.recs[id].(group := StoredGroup(group));
    var s := SetGroupSpec(st, st.recs[id].name, group).store;
    assert s == Update(st, id, r);
    UpdateValid(st, id, r);
    FindByLabelUnique(s, id);
  }

  /** Setting the group the getter reports changes nothing. */
  lemma GroupGetSet(st: Store, id: Id)
    requires st.Valid() && id in st.recs
    ensures SetGroupSpec(st, st.recs[id].name, GetGroup(st, st.recs[id].name).value).store == st
  {
    FindByLabelUnique(st, id);
    var r := st.recs[id];
    assert RecordOk(r);
    assert GetGroup(st, r.name) == Ok(r.group);
    assert r.(group := StoredGroup(r.group)) == r;
    assert st.recs[id := r] == st.recs;
  }

  /** Setting the group twice is setting it once: the stored form is a fixed point. */
  lemma GroupSetIdempotent(st: Store, handle: string, group: string)
    requires st.WellFormed()
    ensures var s := SetGroupSpec(st, handle, group).store;
            SetGroupSpec(s, handle, group).store == s
  {
    if FindByLabel(st, handle).Some? {
      var id := FindByLabel(st, handle).value;
      var r := st.recs[id].(group := StoredGroup(group));
      var s := Update(st, id, r);
      UpdateKeepsLookup(st, id, r, handle);
      assert r.(group := StoredGroup(group)) == r;
      assert s.recs[id := r] == s.recs;
    }
  }

  /** The hidden setter. */
  function SetHiddenSpec(st: Store, handle: string, hidden: bool): (s: Step<()>)
    requires st.WellFormed()
    ensures s.store.WellFormed()
    ensures s.result.Err? <==> FindByLabel(st, handle).None?
    ensures s.result.Err? ==> s.store == st
  {
    match FindByLabel(st, handle)
    case None => Step(Err(NotFound), st)
    case Some(id) => Step(Ok(()), Update(st, id, st.recs[id].(hidden := hidden)))
  }

  /** _set_sort_key. */
  function SetSortKeySpec(st: Store, handle: string, key: int): (s: Step<()>)
    requires st.WellFormed()
    ensures s.store.WellFormed()
    ensures s.result.Err? <==> FindByLabel(st, handle).None?
    ensures s.result.Err? ==> s.store == st
  {
    match FindByLabel(st, handle)
    case None => Step(Err(NotFound), st)
    case Some(id) => Step(Ok(()), Update(st, id, st.recs[id].(sortKey := key)))
  }

  /** The description setter (documentation of Value, Description and Label2 alike). */
  function SetDescriptionSpec(st: Store, handle: string, description: string): (s: Step<()>)
    requires st.WellFormed()
    ensures s.store.WellFormed()
    ensures s.result.Err? <==> FindByLabel(st, handle).None?
    ensures s.result.Err? ==> s.store == st
  {
    match FindByLabel(st, handle)
    case None => Step(Err(NotFound), st)
    case Some(id) => Step(Ok(()), Update(st, id, st.recs[id].(description := description)))
  }

  /** The value setter: the host may refuse the value, which raises and changes nothing. */
  function SetValueSpec(host: Host, st: Store, handle: string, v: Value): (s: Step<()>)
    requires st.WellFormed()
    ensures s.store.WellFormed()
    ensures s.result.Err? ==> s.store == st
    ensures s.result == Err(NotFound) <==> FindByLabel(st, handle).None?
  {
    match FindByLabel(st, handle)
    case None => Step(Err(NotFound), st)
    case Some(id) =>
      match host.assign(st.recs[id].typ, v)
      case None => Step(Err(InvalidValue), st)
      case Some(x) => Step(Ok(()), Update(st, id, st.recs[id].(value := x)))
  }

  /** The editor_mode setter: the current names and the requests folded into a new mask. */
  function SetEditorModeSpec(st: Store, handle: string, requests: seq<string>): (s: Step<()>)
    requires st.WellFormed()
    ensures s.store.WellFormed()
    ensures s.result.Err? <==> FindByLabel(st, handle).None?
    ensures s.result.Err? ==> s.store == st
  {
    match FindByLabel(st, handle)
    case None => Step(Err(NotFound), st)
    case Some(id) => Step(Ok(()), Update(st, id, st.recs[id].(mode := SetterMode(st.recs[id].mode, requests))))
  }

  /** The read_only setter: a request for "ReadOnly" or "-ReadOnly". */
  function SetReadOnlySpec(st: Store, handle: string, ro: bool): (s: Step<()>)
    requires st.WellFormed()
  {
    SetEditorModeSpec(st, handle, [ReadOnlyRequest(ro)])
  }

  /** The read_only getter: "ReadOnly" among the editor-mode names. */
  function ReadOnly(r: Record): (ro: bool)
    ensures ro <==> (r.mode & ReadOnlyBit) != 0
  {
    "ReadOnly" in ModeNames(r.mode)
  }

  /**
   * Setting a flag or a field through a handle that resolves changes that
   * field of that variable only, leaves the store valid, and the getter
   * then answers what was set.
   */
  lemma FieldSettersSetOneField(st: Store, id: Id, hidden: bool, key: int, description: string)
    requires st.Valid() && id in st.recs
    ensures var s := SetHiddenSpec(st, st.recs[id].name, hidden).store;
            s.Valid() && s.recs == st.recs[id := st.recs[id].(hidden := hidden)]
    ensures var s := SetSortKeySpec(st, st.recs[id].name, key).store;
            s.Valid() && s.recs == st.recs[id := st.recs[id].(sortKey := key)]
    ensures var s := SetDescriptionSpec(st, st.recs[id].name, description).store;
            s.Valid() && s.recs == st.recs[id := st.recs[id].(description := description)]
  {
    FindByLabelUnique(st, id);
    UpdateValid(st, id, st.recs[id].(hidden := hidden));
    UpdateValid(st, id, st.recs[id].(sortKey := key));
    UpdateValid(st, id, st.recs[id].(description := description));
  }

  /**
   * The read_only setter and getter: after setting, the getter answers what
   * was set, the Hidden bit is as it was, and only the mode changed.
   */
  lemma ReadOnlySetGet(st: Store, id: Id, ro: bool)
    requires st.Valid() && id in st.recs
    ensures var s := SetReadOnlySpec(st, st.recs[id].name, ro).store;
            s.Valid() && s.recs == st.recs[id := st.recs[id].(mode := s.recs[id].mode)] &&
            ReadOnly(s.recs[id]) == ro &&
            (s.recs[id].mode & HiddenBit) == (st.recs[id].mode & HiddenBit)
  {
    FindByLabelUnique(st, id);
    var m := SetterMode(st.recs[id].mode, [ReadOnlyRequest(ro)]);
    UpdateValid(st, id, st.recs[id].(mode := m));
    ReadOnlySetter(st.recs[id].mode, ro);
  }

  /**
   * The value setter stores what the host makes of the value, or raises and
   * changes nothing when the host refuses it.
   */
  lemma ValueSetGet(host: Host, st: Store, id: Id, v: Value)
    requires st.Valid() && id in st.recs
    ensures var s := SetValueSpec(host, st, st.recs[id].name, v);
            s.store.Valid() &&
            (host.assign(st.recs[id].typ, v).None? ==> s == Step(Err(InvalidValue), st)) &&
            (host.assign(st.recs[id].typ, v).Some? ==>
               s.result.Ok? && s.store.recs == st.recs[id := st.recs[id].(value := host.assign(st.recs[id].typ, v).value)])
  {
    FindByLabelUnique(st, id);
    if host.assign(st.recs[id].typ, v).Some? {
      UpdateValid(st, id, st.recs[id].(value := host.assign(st.recs[id].typ, v).value));
    }
  }

  // ----------------------------------------------------------- delete, exists

  /** exists(): the handle resolves to a variable. */
  predicate Exists(st: Store, handle: string)
    requires st.WellFormed()
  {
    FindByLabel(st, handle).Some?
  }

  /** The ids of s other than x, in order. */
  function Without(s: seq<Id>, x: Id): (r: seq<Id>)
    ensures forall y :: y in r <==> y in s && y != x
    ensures Distinct(s) ==> Distinct(r)
  {
    if s == [] then []
    else
      var rest := Without(s[1..], x);
      assert Distinct(s) ==> s[0] !in s[1..];
      if s[0] == x then rest else [s[0]] + rest
  }

  /** delete(): True and the variable removed, or False when the handle resolves to none. */
  function DeleteSpec(st: Store, handle: string): (s: Step<bool>)
    requires st.WellFormed()
    ensures s.store.WellFormed()
    ensures s.result.Ok?
    ensures s.result.value <==> Exists(st, handle)
  {
    match FindByLabel(st, handle)
    case None => Step(Ok(false), st)
    case Some(id) => Step(Ok(true), Store(st.recs - {id}, Without(st.order, id), st.nextId))
  }

  /**
   * After a delete the handle no longer resolves, every other variable is as
   * it was, and the store stays valid.
   */
  lemma DeleteRemoves(st: Store, handle: string)
    requires st.Valid()
    ensures var s := DeleteSpec(st, handle).store;
            s.Valid() && !Exists(s, handle)
    ensures var s := DeleteSpec(st, handle).store;
            match FindByLabel(st, handle)
            case None => s == st
            case Some(id) => st.recs[id].name == handle && s.recs == st.recs - {id}
  {
    if FindByLabel(st, handle).Some? {
      var id := FindByLabel(st, handle).value;
      DeleteValid(st, id);
      var s := DeleteSpec(st, handle).store;
      forall i | i in s.recs ensures s.recs[i].name != handle {
        assert Lower(st.recs[i].name) != Lower(st.recs[id].name);
      }
    }
  }

  /** Removing a record and its id from document order keeps a store valid. */
  lemma DeleteValid(st: Store, id: Id)
    requires st.Valid() && id in st.recs
    ensures Store(st.recs - {id}, Without(st.order, id), st.nextId).Valid()
  {
    var s := Store(st.recs - {id}, Without(st.order, id), st.nextId);
    assert Distinct(st.order) by {
      forall i, j | 0 <= i < j < |st.order| ensures st.order[i] != st.order[j] { }
    }
    assert Distinct(s.order);
    assert s.WellFormed();
    assert s.UniqueLabels();
  }

  // --------------------------------------------------------- sort_key, __lt__

  /** sort_key: the tuple (group, SortKey, label). */
  datatype SortTuple = SortTuple(group: string, key: int, name: string)

  function SortKeyOf(r: Record): (t: SortTuple)
    ensures t.group == GroupOf(r) && t.key == r.sortKey && t.name == r.name
  {
    SortTuple(GroupOf(r), r.sortKey, r.name)
  }

  /** __lt__: Python's comparison of the sort_key tuples. */
  predicate Less(a: Record, b: Record) {
    var x := SortKeyOf(a);
    var y := SortKeyOf(b);
    LexLess(x.group, y.group) || (x.group == y.group && (x.key < y.key || (x.key == y.key && LexLess(x.name, y.name))))
  }

  /**
   * __lt__ is a strict total order on variables with distinct labels, and
   * within one group it is the (SortKey, name) order the ordering engine
   * sorts a group's members by.
   */
  lemma LessIsStrictOrder(a: Record, b: Record, c: Record)
    ensures !Less(a, a)
    ensures Less(a, b) ==> !Less(b, a)
    ensures Less(a, b) && Less(b, c) ==> Less(a, c)
    ensures a.name != b.name ==> Less(a, b) || Less(b, a)
    ensures GroupOf(a) == GroupOf(b) ==>
              (Less(a, b) <==> Before(Item(a.sortKey, a.name, ()), Item(b.sortKey, b.name, ())))
  {
    LexLessIrreflexive(GroupOf(a));
    LexLessIrreflexive(a.name);
    if Less(a, b) {
      if LexLess(GroupOf(a), GroupOf(b)) {
        LexLessAsymmetric(GroupOf(a), GroupOf(b));
      } else if a.sortKey == b.sortKey {
        LexLessAsymmetric(a.name, b.name);
      }
    }
    if Less(a, b) && Less(b, c) {
      if LexLess(GroupOf(a), GroupOf(b)) && LexLess(GroupOf(b), GroupOf(c)) {
        LexLessTransitive(GroupOf(a), GroupOf(b), GroupOf(c));
      } else if GroupOf(a) == GroupOf(b) == GroupOf(c) && a.sortKey == b.sortKey == c.sortKey {
        LexLessTransitive(a.name, b.name, c.name);
      }
    }
    if a.name != b.name {
      if GroupOf(a) != GroupOf(b) {
        LexLessTotal(GroupOf(a), GroupOf(b));
      } else {
        LexLessTotal(a.name, b.name);
      }
    }
  }

  // ------------------------------------------------------------- set_var_type

  /**
   * set_var_type on the variable labelled `name`: False when there is none;
   * a type the host does not support raises; False when the type is
   * unchanged. Otherwise Value is removed and re-added with the new type
   * (losing its editor mode, options and expression) and the old value
   * migrated; an unguarded assignment that fails raises after the type has
   * changed.
   */
  function SetVarTypeSpec(host: Host, st: Store, name: string, newType: TypeTag,
                          converter: Option<Value -> Option<Value>>): (s: Step<bool>)
    requires st.WellFormed()
    ensures s.store.WellFormed()
    ensures s.result == Ok(false) || s.result == Err(InvalidArgument) ==> s.store == st
  {
    match FindByLabel(st, name)
    case None => Step(Ok(false), st)
    case Some(id) =>
      var r := st.recs[id];
      if newType !in host.propertyTypes then Step(Err(InvalidArgument), st)
      else if r.typ == newType then Step(Ok(false), st)
      else
        var m := Migrate(host, r.typ, newType, r.value, converter);
        var s := Update(st, id, r.(typ := newType, value := m.value, mode := 0, options := [], expression := None));
        if m.raised then Step(Err(InvalidValue), s) else Step(Ok(true), s)
  }

  /**
   * The type of a variable changes exactly when it exists, the host supports
   * the new type and it differs from the old; then the variable holds the
   * migrated value, and nothing else in the store changes.
   */
  lemma SetVarTypeEffect(host: Host, st: Store, id: Id, newType: TypeTag, converter: Option<Value -> Option<Value>>)
    requires st.Valid() && id in st.recs
    ensures var s := SetVarTypeSpec(host, st, st.recs[id].name, newType, converter);
            var r := st.recs[id];
            s.store.Valid() &&
            (newType !in host.propertyTypes ==> s == Step(Err(InvalidArgument), st)) &&
            (newType in host.propertyTypes && r.typ == newType ==> s == Step(Ok(false), st)) &&
            (newType in host.propertyTypes && r.typ != newType ==>
               s.store.recs == st.recs[id := r.(typ := newType, value := s.store.recs[id].value, mode := 0, options := [], expression := None)] &&
               s.store.recs[id].value == Migrate(host, r.typ, newType, r.value, converter).value &&
               (s.result.Err? <==> Migrate(host, r.typ, newType, r.value, converter).raised))
  {
    FindByLabelUnique(st, id);
    var r := st.recs[id];
    if newType in host.propertyTypes && r.typ != newType {
      var m := Migrate(host, r.typ, newType, r.value, converter);
      UpdateValid(st, id, r.(typ := newType, value := m.value, mode := 0, options := [], expression := None));
    }
  }

  /** A label that resolves to no variable gives False and changes nothing. */
  lemma SetVarTypeMissing(host: Host, st: Store, name: string, newType: TypeTag, converter: Option<Value -> Option<Value>>)
    requires st.WellFormed() && forall id :: id in st.recs ==> st.recs[id].name != name
    ensures SetVarTypeSpec(host, st, name, newType, converter) == Step(Ok(false), st)
  {
  }

  /** Turning a variable with a truthy value into its list type wraps the value. */
  lemma SetVarTypeToList(host: Host, st: Store, id: Id, t: TypeTag, v: Value)
    requires st.WellFormed() && id in st.recs && FindByLabel(st, st.recs[id].name) == Some(id)
    requires st.recs[id].typ == t && st.recs[id].value == v && Truthy(v)
    requires t + "List" in host.propertyTypes && host.assign(t + "List", List([v])) == Some(List([v]))
    ensures SetVarTypeSpec(host, st, st.recs[id].name, t + "List", None) ==
            Step(Ok(true), Update(st, id, st.recs[id].(typ := t + "List", value := List([v]), mode := 0, options := [], expression := None)))
  {
    assert t != t + "List" by {
      assert |t + "List"| == |t| + 4;
    }
    ItemToListWraps(host, t, v);
  }

  /** Turning a variable holding a one-element list into the element type keeps the element. */
  lemma SetVarTypeFromList(host: Host, st: Store, id: Id, t: TypeTag, v: Value)
    requires st.WellFormed() && id in st.recs && FindByLabel(st, st.recs[id].name) == Some(id)
    requires st.recs[id].typ == t + "List" && st.recs[id].value == List([v])
    requires t in host.propertyTypes && host.assign(t, v) == Some(v)
    ensures SetVarTypeSpec(host, st, st.recs[id].name, t, None) ==
            Step(Ok(true), Update(st, id, st.recs[id].(typ := t, value := v, mode := 0, options := [], expression := None)))
  {
    assert t != t + "List" by {
      assert |t + "List"| == |t| + 4;
    }
    ListToItemKeepsFirst(host, t, [v]);
  }

  /**
   * A truthy value the host stores unchanged survives turning its variable
   * into a list variable and back.
   */
  lemma SetVarTypeRoundTrip(host: Host, st: Store, id: Id)
    requires st.WellFormed() && id in st.recs && FindByLabel(st, st.recs[id].name) == Some(id)
    requires var r := st.recs[id];
             Truthy(r.value) && r.typ in host.propertyTypes && r.typ + "List" in host.propertyTypes &&
             host.assign(r.typ + "List", List([r.value])) == Some(List([r.value])) &&
             host.assign(r.typ, r.value) == Some(r.value)
    ensures var r := st.recs[id];
            var there := SetVarTypeSpec(host, st, r.name, r.typ + "List", None);
            var back := SetVarTypeSpec(host, there.store, r.name, r.typ, None);
            there.result == Ok(true) && back.result == Ok(true) &&
            back.store == Update(st, id, r.(mode := 0, options := [], expression := None))
  {
    var r := st.recs[id];
    var r1 := r.(typ := r.typ + "List", value := List([r.value]), mode := 0, options := [], expression := None);
    SetVarTypeToList(host, st, id, r.typ, r.value);
    UpdateKeepsLookup(st, id, r1, r.name);
    SetVarTypeFromList(host, Update(st, id, r1), id, r.typ, r.value);
    var r2 := r1.(typ := r.typ, value := r.value, mode := 0, options := [], expression := None);
    assert r2 == r.(mode := 0, options := [], expression := None);
    UpdateTwice(st, id, r1, r2);
  }
}
