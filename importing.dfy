/**
 * import_variables over an in-memory list of records: per record, skip it
 * (unsupported type, or a variable of that label with another type),
 * create it when missing, then apply the value (only without an
 * expression), read_only, hidden and the sort key. The console messages
 * become notices; an exception ends the import.
 */
module Importing {
  import opened Outcomes
  import opened Text
  import opened Store
  import opened Conversion
  import opened EditorModes
  import opened Registry
  import opened Variables

  /** One record of a variables file. */
  datatype VarInfo = VarInfo(
    typ: TypeTag,
    name: string,
    value: Option<Value>,
    description: string,
    group: string,
    expression: Option<string>,
    options: Option<seq<string>>,
    readOnly: bool,
    hidden: bool,
    sortKey: int)

  /** The error messages import_variables prints and carries on after. */
  datatype Notice =
    | NotSupported(name: string)   // "... is not supported. (Not imported)"
    | TypeDiffers(name: string)    // "... already exists with a different type. (Not imported)"
    | ValueIgnored(name: string)   // "... value (...) is not valid. (Ignored)"
    | Failed(name: string, error: Error)  // a record that raised, reported by the continuing import

  /** What importing one record, or a list of them, does: an exception or not, the store, the messages. */
  datatype Imported = Imported(result: Result<()>, store: Store, notices: seq<Notice>)

  /** What import_variables returns, the store it leaves and the messages it printed. */
  datatype Report = Report(result: Result<bool>, store: Store, notices: seq<Notice>)

  /** The record carries a value to assign: one is given and there is no expression. */
  predicate GivesValue(v: VarInfo) {
    v.value.Some? && !HasExpression(v.expression)
  }

  /** The value a variable ends up with once the record has been applied to it. */
  function ImportedValue(host: Host, r: Record, v: VarInfo): Value {
    if GivesValue(v) && host.assign(r.typ, v.value.value).Some? then host.assign(r.typ, v.value.value).value else r.value
  }

  /** The host refuses the record's value for the variable. */
  predicate ValueRefused(host: Host, r: Record, v: VarInfo) {
    GivesValue(v) && host.assign(r.typ, v.value.value).None?
  }

  /** The arguments create_if_not_exists passes on to create_var: no value, the record's other fields. */
  function CreateArgsOf(n: string, v: VarInfo): CreateArgs {
    CreateArgs(n, v.typ, None, v.options, v.description, v.expression, v.group)
  }

  /** The value assignment of a record, through the handle `n`: only when it gives a value and no expression. */
  function ApplyValue(host: Host, st: Store, n: string, v: VarInfo): (s: Step<()>)
    requires st.WellFormed()
    ensures s.store.WellFormed()
  {
    if GivesValue(v) then SetValueSpec(host, st, n, v.value.value) else Step(Ok(()), st)
  }

  /** read_only, hidden and the sort key of a record, through the handle `n`; the first that raises ends it. */
  function ApplyFlags(st: Store, n: string, v: VarInfo): (s: Step<()>)
    requires st.WellFormed()
    ensures s.store.WellFormed()
  {
    var s2 := SetReadOnlySpec(st, n, v.readOnly);
    if s2.result.Err? then s2
    else
      var s3 := SetHiddenSpec(s2.store, n, v.hidden);
      if s3.result.Err? then s3
      else SetSortKeySpec(s3.store, n, v.sortKey)
  }

  /**
   * The second half of a record's import, through the handle `n`: the value
   * (a refusal is reported and absorbed), then read_only, hidden and the
   * sort key, each of which raises when the handle resolves to nothing.
   */
  function ApplyFields(host: Host, st: Store, n: string, v: VarInfo): (o: Imported)
    requires st.WellFormed()
    ensures o.store.WellFormed()
  {
    var s1 := ApplyValue(host, st, n, v);
    var f := ApplyFlags(s1.store, n, v);
    Imported(f.result, f.store, if s1.result.Err? then [ValueIgnored(v.name)] else [])
  }

  /** The body of the loop of import_variables, for one record. */
  function ImportOne(host: Host, st: Store, v: VarInfo): (o: Imported)
    requires st.WellFormed()
    ensures o.store.WellFormed()
  {
    if v.typ !in host.importTypes then Imported(Ok(()), st, [NotSupported(v.name)])
    else
      match Sanitize(v.name)
      case Err(e) => Imported(Err(e), st, [])
      case Ok(n) =>
        match FindByLabel(st, n)
        case Some(id) =>
          if st.recs[id].typ != v.typ then Imported(Ok(()), st, [TypeDiffers(v.name)])
          else ApplyFields(host, st, n, v)
        case None =>
          var c := CreateSpec(host, st, CreateArgsOf(n, v));
          if c.result.Err? then Imported(Err(c.result.error), c.store, [])
          else ApplyFields(host, c.store, n, v)
  }

  /** The loop of import_variables over a list of records; an exception ends it. */
  function ImportAll(host: Host, st: Store, vars: seq<VarInfo>): (o: Imported)
    requires st.WellFormed()
    ensures o.store.WellFormed()
  {
    if vars == [] then Imported(Ok(()), st, [])
    else Continued(host, ImportAll(host, st, vars[..|vars| - 1]), vars[|vars| - 1])
  }

  /** One more record after the import so far: nothing once an exception has ended it. */
  function Continued(host: Host, prev: Imported, v: VarInfo): (o: Imported)
    requires prev.store.WellFormed()
    ensures o.store.WellFormed()
  {
    if prev.result.Err? then prev
    else
      var o := ImportOne(host, prev.store, v);
      Imported(o.result, o.store, prev.notices + o.notices)
  }

  /** After an exception, a record changes nothing. */
  lemma ContinuedAfterErr(host: Host, prev: Imported, v: VarInfo)
    requires prev.store.WellFormed() && prev.result.Err?
    ensures Continued(host, prev, v) == prev
  {
  }

  /** import_variables: False for an empty path, otherwise the loop, then True. */
  function ImportVariablesSpec(host: Host, st: Store, path: string, vars: seq<VarInfo>): (r: Report)
    requires st.WellFormed()
    ensures path == [] ==> r == Report(Ok(false), st, [])
    ensures r.result.Ok? && path != [] ==> r.result.value
  {
    if path == [] then Report(Ok(false), st, [])
    else
      var o := ImportAll(host, st, vars);
      Report(if o.result.Err? then Err(o.result.error) else Ok(true), o.store, o.notices)
  }

  /**
   * `st'` is `st` once a record has been applied to variable `id`: the value
   * as the record gives it, read_only, hidden and the sort key as the
   * record says, the Hidden bit of the editor mode kept, and nothing else
   * changed.
   */
  ghost predicate Applied(host: Host, st: Store, st': Store, id: Id, v: VarInfo)
    requires id in st.recs
  {
    st'.Valid() && st'.order == st.order && st'.nextId == st.nextId && st'.recs.Keys == st.recs.Keys &&
    (forall i :: i in st.recs && i != id ==> st'.recs[i] == st.recs[i]) &&
    var r := st'.recs[id];
    r == st.recs[id].(value := r.value, mode := r.mode, hidden := v.hidden, sortKey := v.sortKey) &&
    r.value == ImportedValue(host, st.recs[id], v) &&
    ReadOnly(r) == v.readOnly && (r.mode & HiddenBit) == (st.recs[id].mode & HiddenBit)
  }

  /**
   * Applying a record to a variable of a valid store: no exception, the
   * fields set as Applied says, and a message exactly when the host refused
   * the value.
   */
  lemma ApplyFieldsSpec(host: Host, st: Store, id: Id, v: VarInfo)
    requires st.Valid() && id in st.recs
    ensures var o := ApplyFields(host, st, st.recs[id].name, v);
            o.result == Ok(()) && Applied(host, st, o.store, id, v) &&
            o.notices == if ValueRefused(host, st.recs[id], v) then [ValueIgnored(v.name)] else []
  {
    FindByLabelUnique(st, id);
    ApplyFieldsOn(host, st, st.recs[id].name, v, id);
    AppliedRecordMeetsApplied(host, st, id, v);
  }

  /** The record as the import leaves it: the value, the read_only request, hidden and the sort key applied. */
  function AppliedRecord(host: Host, r: Record, v: VarInfo): Record {
    r.(value := ImportedValue(host, r, v), mode := SetterMode(r.mode, [ReadOnlyRequest(v.readOnly)]),
       hidden := v.hidden, sortKey := v.sortKey)
  }

  /** Through a handle that resolves to a variable, the record is applied to it in one update. */
  lemma ApplyFieldsOn(host: Host, st: Store, n: string, v: VarInfo, id: Id)
    requires st.WellFormed() && FindByLabel(st, n) == Some(id)
    ensures ApplyFields(host, st, n, v) ==
            Imported(Ok(()), Update(st, id, AppliedRecord(host, st.recs[id], v)),
                     if ValueRefused(host, st.recs[id], v) then [ValueIgnored(v.name)] else [])
  {
    var r1 := st.recs[id].(value := ImportedValue(host, st.recs[id], v));
    ValueStep(host, st, n, v, id);
    UpdateKeepsLookup(st, id, r1, n);
    FlagsStep(Update(st, id, r1), n, v, id);
    UpdateTwice(st, id, r1, AppliedRecord(host, st.recs[id], v));
  }

  /** Updating a variable of a valid store to its applied record meets Applied. */
  lemma AppliedRecordMeetsApplied(host: Host, st: Store, id: Id, v: VarInfo)
    requires st.Valid() && id in st.recs
    ensures Applied(host, st, Update(st, id, AppliedRecord(host, st.recs[id], v)), id, v)
  {
    var r := AppliedRecord(host, st.recs[id], v);
    ReadOnlySetter(st.recs[id].mode, v.readOnly);
    assert RecordOk(st.recs[id]);
    UpdateValid(st, id, r);
  }

  /** Writing back a variable's own record changes nothing. */
  lemma UpdateSame(st: Store, id: Id)
    requires id in st.recs
    ensures Update(st, id, st.recs[id]) == st
  {
    assert st.recs[id := st.recs[id]] == st.recs;
  }

  /** The value step on a variable the handle resolves to: the value the host makes of it, or a refusal that changes nothing. */
  lemma ValueStep(host: Host, st: Store, n: string, v: VarInfo, id: Id)
    requires st.WellFormed() && FindByLabel(st, n) == Some(id)
    ensures ApplyValue(host, st, n, v) ==
            Step(if ValueRefused(host, st.recs[id], v) then Err(InvalidValue) else Ok(()),
                 Update(st, id, st.recs[id].(value := ImportedValue(host, st.recs[id], v))))
  {
    if !GivesValue(v) || ValueRefused(host, st.recs[id], v) {
      UpdateSame(st, id);
    }
  }

  /** The flag steps on a variable the handle resolves to: the new mode, Hidden and SortKey, and no exception. */
  lemma FlagsStep(st: Store, n: string, v: VarInfo, id: Id)
    requires st.WellFormed() && FindByLabel(st, n) == Some(id)
    ensures ApplyFlags(st, n, v) ==
            Step(Ok(()), Update(st, id, st.recs[id].(mode := SetterMode(st.recs[id].mode, [ReadOnlyRequest(v.readOnly)]),
                                                   hidden := v.hidden, sortKey := v.sortKey)))
  {
    var r2 := st.recs[id].(mode := SetterMode(st.recs[id].mode, [ReadOnlyRequest(v.readOnly)]));
    var st2 := Update(st, id, r2);
    UpdateKeepsLookup(st, id, r2, n);
    var r3 := r2.(hidden := v.hidden);
    var st3 := Update(st2, id, r3);
    UpdateKeepsLookup(st2, id, r3, n);
    UpdateTwice(st, id, r2, r3);
    var r4 := r3.(sortKey := v.sortKey);
    UpdateTwice(st, id, r3, r4);
  }

  /** Through a handle that resolves to nothing, the value is reported refused and read_only raises. */
  lemma ApplyFieldsMissing(host: Host, st: Store, n: string, v: VarInfo)
    requires st.WellFormed() && FindByLabel(st, n).None?
    ensures ApplyFields(host, st, n, v) == Imported(Err(NotFound), st, if GivesValue(v) then [ValueIgnored(v.name)] else [])
  {
  }

  /** A record of a type the host does not support is reported and changes nothing. */
  lemma ImportSkipsUnsupported(host: Host, st: Store, v: VarInfo)
    requires st.WellFormed() && v.typ !in host.importTypes
    ensures ImportOne(host, st, v) == Imported(Ok(()), st, [NotSupported(v.name)])
  {
  }

  /** A record naming a variable of another type is reported and changes nothing: import never retypes. */
  lemma ImportSkipsOtherType(host: Host, st: Store, v: VarInfo, id: Id)
    requires st.Valid() && id in st.recs && v.typ in host.importTypes
    requires Sanitize(v.name) == Ok(st.recs[id].name) && st.recs[id].typ != v.typ
    ensures ImportOne(host, st, v) == Imported(Ok(()), st, [TypeDiffers(v.name)])
  {
    FindByLabelUnique(st, id);
  }

  /** A record naming a variable of its type updates that variable as Applied says. */
  lemma ImportUpdatesExisting(host: Host, st: Store, v: VarInfo, id: Id)
    requires st.Valid() && id in st.recs && v.typ in host.importTypes
    requires Sanitize(v.name) == Ok(st.recs[id].name) && st.recs[id].typ == v.typ
    ensures var o := ImportOne(host, st, v);
            o.result == Ok(()) && Applied(host, st, o.store, id, v) &&
            o.notices == if ValueRefused(host, st.recs[id], v) then [ValueIgnored(v.name)] else []
  {
    FindByLabelUnique(st, id);
    ApplyFieldsSpec(host, st, id, v);
  }

  /**
   * A record whose label no variable has, even ignoring case, is created
   * with its type, group, description, options and expression, and then
   * gets its value (only without an expression), read_only, hidden and sort
   * key; the other variables are untouched.
   */
  lemma ImportCreatesMissing(host: Host, st: Store, v: VarInfo)
    requires st.Valid() && v.typ in host.importTypes && v.typ in host.propertyTypes
    requires Sanitize(v.name).Ok? && ExistingVarName(st, Strip(v.name)).None?
    requires (v.typ == Enumeration) == v.options.Some?
    ensures var o := ImportOne(host, st, v);
            o.result == Ok(()) && o.store.Valid() &&
            o.store.order == st.order + [st.nextId] && o.store.recs.Keys == st.recs.Keys + {st.nextId} &&
            (forall i :: i in st.recs ==> o.store.recs[i] == st.recs[i])
    ensures var r := ImportOne(host, st, v).store.recs[st.nextId];
            r.name == Strip(v.name) && r.typ == v.typ && r.group == StoredGroup(v.group) &&
            r.description == v.description && r.options == (if v.options.Some? then v.options.value else []) &&
            r.expression == (if HasExpression(v.expression) then v.expression else None)
    ensures var r := ImportOne(host, st, v).store.recs[st.nextId];
            var f := Fresh(host, CreateArgsOf(Strip(v.name), v), Strip(v.name));
            r.value == ImportedValue(host, f, v) && ReadOnly(r) == v.readOnly && r.hidden == v.hidden && r.sortKey == v.sortKey &&
            ImportOne(host, st, v).notices == if ValueRefused(host, f, v) then [ValueIgnored(v.name)] else []
  {
    var n := Strip(v.name);
    var c := CreateSpec(host, st, CreateArgsOf(n, v));
    CreateForImport(host, st, v);
    AppliedToCreated(host, c.store, st.nextId, Fresh(host, CreateArgsOf(n, v), n), v);
  }

  /** ApplyFields on the store create_var left, whose new variable `id` is `f` with a group key. */
  lemma AppliedToCreated(host: Host, cs: Store, id: Id, f: Record, v: VarInfo)
    requires cs.Valid() && id in cs.recs && cs.recs[id] == f.(groupSortKey := cs.recs[id].groupSortKey)
    ensures var o := ApplyFields(host, cs, f.name, v);
            o.result == Ok(()) && Applied(host, cs, o.store, id, v) &&
            o.store.recs[id].value == ImportedValue(host, f, v) &&
            o.notices == if ValueRefused(host, f, v) then [ValueIgnored(v.name)] else []
  {
    ApplyFieldsSpec(host, cs, id, v);
    var made := cs.recs[id];
    assert made.typ == f.typ && made.value == f.value;
    assert ImportedValue(host, made, v) == ImportedValue(host, f, v);
    assert ValueRefused(host, made, v) == ValueRefused(host, f, v);
  }

  /** The creation half of importing a missing record: create_var adds it, and the rest is ApplyFields on the new store. */
  lemma CreateForImport(host: Host, st: Store, v: VarInfo)
    requires st.Valid() && v.typ in host.importTypes && v.typ in host.propertyTypes
    requires Sanitize(v.name).Ok? && ExistingVarName(st, Strip(v.name)).None?
    requires (v.typ == Enumeration) == v.options.Some?
    ensures var n := Strip(v.name);
            var c := CreateSpec(host, st, CreateArgsOf(n, v));
            c.result == Ok(true) && c.store.Valid() &&
            c.store.order == st.order + [st.nextId] && c.store.recs.Keys == st.recs.Keys + {st.nextId} &&
            (forall i :: i in st.recs ==> c.store.recs[i] == st.recs[i]) &&
            c.store.recs[st.nextId] == Fresh(host, CreateArgsOf(n, v), n).(groupSortKey := c.store.recs[st.nextId].groupSortKey) &&
            ImportOne(host, st, v) == ApplyFields(host, c.store, n, v)
  {
    var n := Strip(v.name);
    var a := CreateArgsOf(n, v);
    SanitizeIdempotent(v.name);
    assert FindByLabel(st, n).None?;
    CreateAdds(host, st, a);
    CreatePreservesValid(host, st, a);
    CreateSucceeds(host, st, a);
  }

  /** Importing one record keeps a valid store valid, whatever happens to the record. */
  lemma ImportOnePreservesValid(host: Host, st: Store, v: VarInfo)
    requires st.Valid()
    ensures ImportOne(host, st, v).store.Valid()
  {
    if v.typ in host.importTypes && Sanitize(v.name).Ok? {
      var n := Sanitize(v.name).value;
      match FindByLabel(st, n)
      case Some(id) =>
        if st.recs[id].typ == v.typ {
          ImportUpdatesExisting(host, st, v, id);
        } else {
          ImportSkipsOtherType(host, st, v, id);
        }
      case None =>
        var a := CreateArgsOf(n, v);
        var c := CreateSpec(host, st, a);
        ImportOneNewLabel(host, st, v);
        CreatePreservesValid(host, st, a);
        if c.result == Ok(true) {
          CreateAdds(host, st, a);
          SanitizeIdempotent(v.name);
          ApplyFieldsSpec(host, c.store, st.nextId, v);
        } else if c.result == Ok(false) {
          ApplyFieldsMissing(host, c.store, n, v);
        }
    }
  }

  /** A supported record whose label resolves to nothing goes through create_var, then ApplyFields unless it raised. */
  lemma ImportOneNewLabel(host: Host, st: Store, v: VarInfo)
    requires st.WellFormed() && v.typ in host.importTypes && Sanitize(v.name).Ok?
    requires FindByLabel(st, Sanitize(v.name).value).None?
    ensures var n := Sanitize(v.name).value;
            var c := CreateSpec(host, st, CreateArgsOf(n, v));
            ImportOne(host, st, v) ==
              if c.result.Err? then Imported(Err(c.result.error), c.store, []) else ApplyFields(host, c.store, n, v)
  {
  }

  /** The import keeps a valid store valid, however far it gets. */
  lemma {:induction false} ImportAllPreservesValid(host: Host, st: Store, vars: seq<VarInfo>)
    requires st.Valid()
    ensures ImportAll(host, st, vars).store.Valid()
  {
    if vars != [] {
      var prev := ImportAll(host, st, vars[..|vars| - 1]);
      ImportAllPreservesValid(host, st, vars[..|vars| - 1]);
      if prev.result.Ok? {
        ImportOnePreservesValid(host, prev.store, vars[|vars| - 1]);
      }
    }
  }

  /** Once a prefix of the records has raised, the rest of the list is never looked at. */
  lemma {:induction false} ImportAllStops(host: Host, st: Store, vars: seq<VarInfo>, k: nat)
    requires st.WellFormed() && k <= |vars| && ImportAll(host, st, vars[..k]).result.Err?
    ensures ImportAll(host, st, vars) == ImportAll(host, st, vars[..k])
  {
    if k < |vars| {
      var init := vars[..|vars| - 1];
      assert init[..k] == vars[..k];
      ImportAllStops(host, st, init, k);
      assert ImportAll(host, st, vars) == Continued(host, ImportAll(host, st, init), vars[|vars| - 1]);
      ContinuedAfterErr(host, ImportAll(host, st, init), vars[|vars| - 1]);
    } else {
      assert vars[..k] == vars;
    }
  }

  /** The import of one more record, after a prefix that did not raise. */
  lemma ImportAllNext(host: Host, st: Store, vars: seq<VarInfo>, i: nat)
    requires st.WellFormed() && i < |vars| && ImportAll(host, st, vars[..i]).result.Ok?
    ensures var prev := ImportAll(host, st, vars[..i]);
            var o := ImportOne(host, prev.store, vars[i]);
            ImportAll(host, st, vars[..i + 1]) == Imported(o.result, o.store, prev.notices + o.notices)
  {
    assert vars[..i + 1][..i] == vars[..i];
  }

  /**
   * As written, a record whose label matches an existing variable only up
   * to case is neither skipped nor applied: exists() misses the variable,
   * create_var declines it, the value is reported refused, and the
   * read_only setter raises, ending the import.
   */
  lemma ImportCaseVariantRaises(host: Host, st: Store, v: VarInfo, id: Id)
    requires st.Valid() && id in st.recs && v.typ in host.importTypes && Sanitize(v.name).Ok?
    requires Lower(st.recs[id].name) == Lower(Strip(v.name)) && st.recs[id].name != Strip(v.name)
    ensures ImportOne(host, st, v) == Imported(Err(NotFound), st, if GivesValue(v) then [ValueIgnored(v.name)] else [])
  {
    var n := Strip(v.name);
    SanitizeIdempotent(v.name);
    CaseVariantUnresolved(st, n, id);
    ImportOneNewLabel(host, st, v);
    CreateRefusesTakenName(host, st, CreateArgsOf(n, v), id);
    ApplyFieldsMissing(host, st, n, v);
  }

  /** In a valid store, a label that differs from a variable's only in case resolves to nothing. */
  lemma CaseVariantUnresolved(st: Store, n: string, id: Id)
    requires st.Valid() && id in st.recs
    requires Lower(st.recs[id].name) == Lower(n) && st.recs[id].name != n
    ensures FindByLabel(st, n).None?
  {
    forall i | i in st.recs ensures st.recs[i].name != n {
      if i != id {
        assert Lower(st.recs[i].name) != Lower(st.recs[id].name);
      }
    }
  }

  /** A supported record whose label is a case variant of an existing one raises before any record after it is looked at. */
  lemma ImportAbortsAfterCaseVariant(host: Host, st: Store, v: VarInfo, id: Id, rest: seq<VarInfo>)
    requires st.Valid() && id in st.recs && v.typ in host.importTypes && Sanitize(v.name).Ok?
    requires Lower(st.recs[id].name) == Lower(Strip(v.name)) && st.recs[id].name != Strip(v.name)
    ensures ImportAll(host, st, [v] + rest) == Imported(Err(NotFound), st, if GivesValue(v) then [ValueIgnored(v.name)] else [])
  {
    var vars := [v] + rest;
    ImportCaseVariantRaises(host, st, v, id);
    assert vars[..0] == [];
    ImportAllNext(host, st, vars, 0);
    assert vars[..1] == [v];
    ImportAllStops(host, st, vars, 1);
  }

  /**
   * The import as the records' independence asks for it: a record that
   * raises is reported and the loop carries on with the next one.
   */
  function ImportAllContinuing(host: Host, st: Store, vars: seq<VarInfo>): (o: Imported)
    requires st.WellFormed()
    ensures o.result == Ok(()) && o.store.WellFormed()
  {
    if vars == [] then Imported(Ok(()), st, [])
    else
      var prev := ImportAllContinuing(host, st, vars[..|vars| - 1]);
      var v := vars[|vars| - 1];
      Absorbed(prev, v, ImportOne(host, prev.store, v))
  }

  /** The import so far followed by record `v`'s own outcome `o`, an exception becoming a Failed notice. */
  function Absorbed(prev: Imported, v: VarInfo, o: Imported): (a: Imported)
    ensures a.result == Ok(()) && a.store == o.store
  {
    Imported(Ok(()), o.store, prev.notices + o.notices + if o.result.Err? then [Failed(v.name, o.result.error)] else [])
  }

  /** A record's step depends on the messages so far only by appending to them. */
  lemma AbsorbedNotices(s: Store, a: seq<Notice>, b: seq<Notice>, v: VarInfo, o: Imported)
    ensures var x := Absorbed(Imported(Ok(()), s, b), v, o);
            Absorbed(Imported(Ok(()), s, a + b), v, o) == Imported(Ok(()), o.store, a + x.notices)
  {
    var tail := if o.result.Err? then [Failed(v.name, o.result.error)] else [];
    assert (a + b) + o.notices + tail == a + (b + o.notices + tail);
  }

  /** Records are imported one after the other whatever the earlier ones did: the import of xs + ys is that of ys after that of xs. */
  lemma {:induction false} ImportAllContinuingSplit(host: Host, st: Store, xs: seq<VarInfo>, ys: seq<VarInfo>)
    requires st.WellFormed()
    ensures var p := ImportAllContinuing(host, st, xs);
            var q := ImportAllContinuing(host, p.store, ys);
            ImportAllContinuing(host, st, xs + ys) == Imported(Ok(()), q.store, p.notices + q.notices)
  {
    var p := ImportAllContinuing(host, st, xs);
    if ys == [] {
      assert xs + ys == xs;
      assert p.notices + [] == p.notices;
    } else {
      var ys' := ys[..|ys| - 1];
      var y := ys[|ys| - 1];
      var q' := ImportAllContinuing(host, p.store, ys');
      var whole := ImportAllContinuing(host, st, xs + ys');
      assert whole == Imported(Ok(()), q'.store, p.notices + q'.notices) by {
        ImportAllContinuingSplit(host, st, xs, ys');
      }
      assert ImportAllContinuing(host, st, xs + ys) == Absorbed(whole, y, ImportOne(host, whole.store, y)) by {
        assert (xs + ys)[..|xs + ys| - 1] == xs + ys';
        assert (xs + ys)[|xs + ys| - 1] == y;
      }
      assert ImportAllContinuing(host, p.store, ys) == Absorbed(q', y, ImportOne(host, q'.store, y));
      AbsorbedNotices(q'.store, p.notices, q'.notices, y, ImportOne(host, q'.store, y));
    }
  }

  /** Where nothing raises, the continuing import does exactly what import_variables does. */
  lemma {:induction false} ImportAllContinuingAgrees(host: Host, st: Store, vars: seq<VarInfo>)
    requires st.WellFormed() && ImportAll(host, st, vars).result.Ok?
    ensures ImportAllContinuing(host, st, vars) == ImportAll(host, st, vars)
  {
    if vars != [] {
      var init := vars[..|vars| - 1];
      ImportAllContinuingAgrees(host, st, init);
      UnitOk(ImportAll(host, st, vars).result);
    }
  }

  /** The continuing import keeps a valid store valid. */
  lemma {:induction false} ImportAllContinuingPreservesValid(host: Host, st: Store, vars: seq<VarInfo>)
    requires st.Valid()
    ensures ImportAllContinuing(host, st, vars).store.Valid()
  {
    if vars != [] {
      ImportAllContinuingPreservesValid(host, st, vars[..|vars| - 1]);
      ImportOnePreservesValid(host, ImportAllContinuing(host, st, vars[..|vars| - 1]).store, vars[|vars| - 1]);
    }
  }

  /** With the continuing import, a record that raises is reported and the records after it are imported from the store it left. */
  lemma ImportContinuesAfterFailure(host: Host, st: Store, v: VarInfo, rest: seq<VarInfo>)
    requires st.WellFormed() && ImportOne(host, st, v).result.Err?
    ensures var o := ImportOne(host, st, v);
            var q := ImportAllContinuing(host, o.store, rest);
            ImportAllContinuing(host, st, [v] + rest) ==
              Imported(Ok(()), q.store, o.notices + [Failed(v.name, o.result.error)] + q.notices)
  {
    var o := ImportOne(host, st, v);
    assert ImportAllContinuing(host, st, [v]) == Imported(Ok(()), o.store, o.notices + [Failed(v.name, o.result.error)]) by {
      assert [v][..0] == [];
      assert [] + o.notices == o.notices;
    }
    ImportAllContinuingSplit(host, st, [v], rest);
  }

  /** With the continuing import, a case-variant record is reported and every record after it is imported as if it were absent. */
  lemma ImportContinuesAfterCaseVariant(host: Host, st: Store, v: VarInfo, id: Id, rest: seq<VarInfo>)
    requires st.Valid() && id in st.recs && v.typ in host.importTypes && Sanitize(v.name).Ok?
    requires Lower(st.recs[id].name) == Lower(Strip(v.name)) && st.recs[id].name != Strip(v.name)
    ensures var q := ImportAllContinuing(host, st, rest);
            ImportAllContinuing(host, st, [v] + rest) ==
              Imported(Ok(()), q.store, (if GivesValue(v) then [ValueIgnored(v.name)] else []) + [Failed(v.name, NotFound)] + q.notices)
  {
    ImportCaseVariantRaises(host, st, v, id);
    ImportContinuesAfterFailure(host, st, v, rest);
  }

  /** The body of the loop of import_variables, on the document. */
  method ImportRecord(host: Host, doc: Document, v: VarInfo) returns (r: Result<()>, notices: seq<Notice>)
    requires doc.State().WellFormed()
    modifies doc
    ensures Imported(r, doc.State(), notices) == ImportOne(host, old(doc.State()), v)
  {
    notices := [];
    if v.typ !in host.importTypes {
      return Ok(()), [NotSupported(v.name)];
    }
    var handle := Open(doc, v.name);
    if handle.Err? {
      return Err(handle.error), [];
    }
    var docVar := handle.value;
    var present := docVar.Exists();
    if present {
      var t := docVar.VarType();
      if t != Ok(v.typ) {
        return Ok(()), [TypeDiffers(v.name)];
      }
    } else {
      var created := docVar.CreateIfNotExists(host, v.typ, None, v.options, v.description, v.expression, v.group);
      if created.Err? {
        return Err(created.error), [];
      }
    }
    r, notices := ApplyRecord(host, doc, docVar, v);
  }

  /** The value, read_only, hidden and the sort key, through the handle. */
  method ApplyRecord(host: Host, doc: Document, docVar: Variable, v: VarInfo) returns (r: Result<()>, notices: seq<Notice>)
    requires doc.State().WellFormed() && docVar.doc == doc
    modifies doc
    ensures Imported(r, doc.State(), notices) == ApplyFields(host, old(doc.State()), docVar.name, v)
  {
    notices := [];
    if GivesValue(v) {
      var stored := docVar.SetValue(host, v.value.value);
      if stored.Err? {
        notices := [ValueIgnored(v.name)];
      }
    }
    r := docVar.SetReadOnly(v.readOnly);
    if r.Err? {
      return;
    }
    r := docVar.SetHidden(v.hidden);
    if r.Err? {
      return;
    }
    r := docVar.SetSortKey(v.sortKey);
  }

  /** A result that carries no value and is not an error is Ok(()). */
  lemma UnitOk(r: Result<()>)
    requires r.Ok?
    ensures r == Ok(())
  {
    match r.value { case () => }
  }

  /** import_variables over records already read from `path`. */
  method ImportVariables(host: Host, doc: Document, path: string, vars: seq<VarInfo>) returns (r: Result<bool>, notices: seq<Notice>)
    requires doc.State().WellFormed()
    modifies doc
    ensures Report(r, doc.State(), notices) == ImportVariablesSpec(host, old(doc.State()), path, vars)
  {
    if path == [] {
      return Ok(false), [];
    }
    var res;
    res, notices := ImportRecords(host, doc, vars);
    r := if res.Err? then Err(res.error) else Ok(true);
  }

  /** The loop of import_variables: record by record until one raises. */
  method ImportRecords(host: Host, doc: Document, vars: seq<VarInfo>) returns (r: Result<()>, notices: seq<Notice>)
    requires doc.State().WellFormed()
    modifies doc
    ensures Imported(r, doc.State(), notices) == ImportAll(host, old(doc.State()), vars)
  {
    ghost var st := doc.State();
    notices := [];
    var i := 0;
    while i < |vars|
      invariant 0 <= i <= |vars|
      invariant doc.State().WellFormed()
      invariant ImportAll(host, st, vars[..i]) == Imported(Ok(()), doc.State(), notices)
    {
      ghost var before := doc.State();
      ImportAllNext(host, st, vars, i);
      var res, more := ImportRecord(host, doc, vars[i]);
      ghost var o := ImportOne(host, before, vars[i]);
      assert res == o.result && doc.State() == o.store && more == o.notices;
      notices := notices + more;
      assert ImportAll(host, st, vars[..i + 1]) == Imported(res, doc.State(), notices);
      if res.Err? {
        ImportAllStops(host, st, vars, i + 1);
        return res, notices;
      }
      UnitOk(res);
      i := i + 1;
    }
    assert vars[..i] == vars;
    r := Ok(());
  }
}
