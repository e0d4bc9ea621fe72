/**
 * Value migration when a variable changes type (set_var_type) and the
 * element casts of convert_list_type. The host's behaviour (which property
 * types exist, what a fresh property holds, what an assignment stores and
 * what a cast yields) is a parameter: a `Host` of partial functions, None
 * standing for an exception.
 */
module Conversion {
  import opened Outcomes
  import opened Store

  /** The capabilities of the host application the registry calls into. */
  datatype Host = Host(
    propertyTypes: set<TypeTag>,                  // what a VarSet supports (supportedProperties)
    importTypes: set<TypeTag>,                    // get_supported_property_types()
    defaultOf: TypeTag -> Value,                  // the value of a freshly added Value property
    assign: (TypeTag, Value) -> Option<Value>,    // what `varset.Value = v` stores; None: it raises
    cast: (TypeTag, Value) -> Option<Value>,      // type(varset.Value)(v) for a property of that type
    castItem: (TypeTag, Value) -> Option<Value>)  // str(item), int(item) or float(item) for a list type

  const StringList: TypeTag := "App::PropertyStringList"
  const IntegerList: TypeTag := "App::PropertyIntegerList"
  const FloatList: TypeTag := "App::PropertyFloatList"

  predicate EndsWith(s: string, suffix: string) {
    |suffix| <= |s| && s[|s| - |suffix|..] == suffix
  }

  /** The list types convert_list_type knows an element cast for. */
  predicate KnownListType(t: TypeTag) {
    t == StringList || t == IntegerList || t == FloatList
  }

  /** Casts every element in turn; the first failing cast aborts the comprehension. */
  function CastAll(host: Host, newType: TypeTag, data: seq<Value>): (r: Option<seq<Value>>)
    ensures r.Some? <==> forall k :: 0 <= k < |data| ==> host.castItem(newType, data[k]).Some?
    ensures r.Some? ==> |r.value| == |data|
    ensures r.Some? ==> forall k :: 0 <= k < |data| ==> r.value[k] == host.castItem(newType, data[k]).value
  {
    if data == [] then Some([])
    else
      match host.castItem(newType, data[0])
      case None => None
      case Some(x) =>
        match CastAll(host, newType, data[1..])
        case None => None
        case Some(rest) => Some([x] + rest)
  }

  /**
   * convert_list_type: an empty list or an unknown target type gives the
   * empty list; otherwise every element is cast, and None stands for the
   * exception of a cast that fails.
   */
  function ConvertListType(host: Host, data: seq<Value>, newType: TypeTag): Option<seq<Value>>
  {
    if data == [] then Some([])
    else if KnownListType(newType) then CastAll(host, newType, data)
    else Some([])
  }

  lemma ConvertListTypeSpec(host: Host, data: seq<Value>, newType: TypeTag)
    ensures data == [] || !KnownListType(newType) ==> ConvertListType(host, data, newType) == Some([])
    ensures data != [] && KnownListType(newType) ==>
              (ConvertListType(host, data, newType).Some? <==>
                 forall k :: 0 <= k < |data| ==> host.castItem(newType, data[k]).Some?)
    ensures data != [] && KnownListType(newType) && ConvertListType(host, data, newType).Some? ==>
              |ConvertListType(host, data, newType).value| == |data|
  {
  }

  /** The value set_var_type leaves in the new Value property, and whether an exception escaped. */
  datatype Migration = Migration(value: Value, raised: bool)

  /** Assigns v to a fresh property of type t inside contextlib.suppress: a failure keeps the default. */
  function Suppressed(host: Host, t: TypeTag, v: Value): Value {
    match host.assign(t, v)
    case None => host.defaultOf(t)
    case Some(x) => x
  }

  /** Assigns v to a fresh property of type t with no guard: a failure propagates. */
  function Unguarded(host: Host, t: TypeTag, v: Value): Migration {
    match host.assign(t, v)
    case None => Migration(host.defaultOf(t), true)
    case Some(x) => Migration(x, false)
  }

  /** The conversion rule set_var_type applies, in priority order. */
  datatype Rule = Custom | ListToItem | ItemToList | ListToList | Raw

  function RuleFor(oldType: TypeTag, newType: TypeTag, hasConverter: bool): (r: Rule)
    ensures r == Custom <==> hasConverter
    ensures r == ListToItem <==> !hasConverter && oldType == newType + "List"
    ensures r == ItemToList <==> !hasConverter && oldType != newType + "List" && newType == oldType + "List"
    ensures r == ListToList <==> !hasConverter && oldType != newType + "List" && newType != oldType + "List" &&
                                 EndsWith(oldType, "List") && EndsWith(newType, "List")
  {
    if hasConverter then Custom
    else if oldType == newType + "List" then ListToItem
    else if newType == oldType + "List" then ItemToList
    else if EndsWith(oldType, "List") && EndsWith(newType, "List") then ListToList
    else Raw
  }

  /**
   * The value migration of set_var_type from oldType to newType, the Value
   * property having been removed and re-added with its default.
   */
  function Migrate(host: Host, oldType: TypeTag, newType: TypeTag, v: Value,
                   converter: Option<Value -> Option<Value>>): Migration
  {
    var d := host.defaultOf(newType);
    match RuleFor(oldType, newType, converter.Some?)
    case Custom =>
      if !Truthy(v) then Migration(d, false)
      else
        (match converter.value(v)
         case None => Migration(d, false)
         case Some(w) => Migration(Suppressed(host, newType, w), false))
    case ListToItem =>
      if v.List? && v.items != [] then Unguarded(host, newType, v.items[0]) else Migration(d, false)
    case ItemToList =>
      if Truthy(v) then Unguarded(host, newType, List([v])) else Migration(d, false)
    case ListToList =>
      if !v.List? then Migration(d, false)
      else
        (match ConvertListType(host, v.items, newType)
         case None => Migration(d, false)
         case Some(items) => Migration(Suppressed(host, newType, List(items)), false))
    case Raw =>
      if !Truthy(v) then Migration(d, false)
      else
        match host.cast(newType, v)
        case None => Migration(d, false)
        case Some(w) => Migration(Suppressed(host, newType, w), false)
  }

  /**
   * Only the list-to-element and element-to-list rules assign outside the
   * exception guard; whenever anything fails the new property keeps its
   * default value.
   */
  lemma MigrateFailureKeepsDefault(host: Host, oldType: TypeTag, newType: TypeTag, v: Value,
                                   converter: Option<Value -> Option<Value>>)
    ensures Migrate(host, oldType, newType, v, converter).raised ==>
              RuleFor(oldType, newType, converter.Some?) in {ListToItem, ItemToList} &&
              Migrate(host, oldType, newType, v, converter).value == host.defaultOf(newType)
    ensures !Truthy(v) && !v.List? ==> Migrate(host, oldType, newType, v, converter) == Migration(host.defaultOf(newType), false)
  {
  }

  /** A list keeps its first element when it becomes a single value. */
  lemma ListToItemKeepsFirst(host: Host, t: TypeTag, items: seq<Value>)
    requires items != [] && host.assign(t, items[0]) == Some(items[0])
    ensures Migrate(host, t + "List", t, List(items), None) == Migration(items[0], false)
  {
    assert RuleFor(t + "List", t, false) == ListToItem;
  }

  /** A truthy value becomes the one element of a list. */
  lemma ItemToListWraps(host: Host, t: TypeTag, v: Value)
    requires Truthy(v) && host.assign(t + "List", List([v])) == Some(List([v]))
    ensures Migrate(host, t, t + "List", v, None) == Migration(List([v]), false)
  {
    assert t != t + "List" + "List";
    assert RuleFor(t, t + "List", false) == ItemToList;
  }

  /**
   * Element to list and back: a truthy value the host stores unchanged
   * survives the round trip through its list type.
   */
  lemma ItemListRoundTrip(host: Host, t: TypeTag, v: Value)
    requires Truthy(v)
    requires host.assign(t + "List", List([v])) == Some(List([v]))
    requires host.assign(t, v) == Some(v)
    ensures var there := Migrate(host, t, t + "List", v, None);
            !there.raised && Migrate(host, t + "List", t, there.value, None) == Migration(v, false)
  {
    ItemToListWraps(host, t, v);
    ListToItemKeepsFirst(host, t, [v]);
  }

  /** A custom converter takes precedence over every built-in rule. */
  lemma ConverterFirst(host: Host, oldType: TypeTag, newType: TypeTag, v: Value, f: Value -> Option<Value>)
    requires Truthy(v) && f(v).Some? && host.assign(newType, f(v).value).Some?
    ensures Migrate(host, oldType, newType, v, Some(f)) == Migration(host.assign(newType, f(v).value).value, false)
  {
  }
}
