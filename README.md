# Variable registry of the Vars workbench, in Dafny

This project models the variable registry of the FreeCAD *Vars* workbench
(`freecad/vars/core/variables.py`) and proves properties of that model.

In the workbench, a document holds variables. Each variable is an
`App::VarSet` object with these properties:

- a label (its name);
- a typed `Value`;
- a description;
- a group (`VarGroup`);
- a row position within its group (`SortKey`);
- a position of its group (`GroupSortKey`);
- a `Hidden` flag;
- the editor-mode bits of `Value`;
- an optional expression;
- enumeration options.

The model replaces the document by a store: a map from internal id to
`Record`, plus the ids in document order. On that store it models:

- **Name rules** (`Text`, `Store`). A name is stripped and must be an
  identifier; identifiers and case mapping are modelled for ASCII only (see
  Left out). Labels are unique ignoring case. A `Variable` handle resolves
  its label exactly, on every access.
- **Creation** (`Registry.CreateSpec`, `Variables.CreateVar`). This covers
  validation, the record `create_var` builds, and the bootstrap of
  `GroupSortKey` (`GroupKeys`), as written.
- **Ordering within a group** (`Ordering`, `Variables.ReorderMember`). This
  is `Variable.reorder`: the group is renumbered in (SortKey, name) order,
  then the moved variable is re-inserted at the first position at or after
  its position plus the delta.
- **Ordering of groups** (`GroupOrder`, `GroupReorder.ReorderGroup`). This is
  `reorder_group`, in its steps:
  1. collect one key per group, repairing variables that lack one;
  2. rank the groups;
  3. clamp the target;
  4. pop and insert the moved group;
  5. renumber, reporting whether any key changed.
- **Type migration** (`Conversion`, `Registry.SetVarTypeSpec`,
  `Variables.SetVarType`). This is the rule priority of `set_var_type` and
  `convert_list_type`.
- **Editor mode** (`EditorModes`). The `editor_mode` setter folds `|`/`&`
  operations over a two-bit mask; `read_only` sits on top of it.
- **Import** (`Importing`). This is the per-record decision of
  `import_variables` (skip, create or update), over an in-memory list of
  records.
- **Accessors** (`Variables.Variable`). These are the group, hidden, sort
  key, description, value, exists, delete, rename and `__lt__`.

Pure parts of the source are datatypes, functions and lemmas. Parts that
update the document are methods of the `Store.Document` class and the
`Variables.Variable` handle class. Each method is proved equal to its
specification function, and the properties are proved about that function.

The host application is a parameter `Conversion.Host`, made of partial
functions, where `None` stands for an exception. It provides:

- the supported property types;
- the default value of a fresh property;
- value assignment;
- scalar and element casts.

Python exceptions become `Outcomes.Result` errors:

- `InvalidName` for the `ValueError` of `sanitize_var_name`;
- `InvalidArgument` for bad options or an unsupported type;
- `NotFound` for a handle that resolves to nothing;
- `InvalidValue` for a refused assignment.

Where the code's behaviour differs from what its comments and docstrings
suggest, the model follows the code:

- `Variable.reorder` moving a variable past the end gives it the key n, not
  n-1. Keys within the group are distinct, but not contiguous.
- In `convert_list_type`, one element that fails to cast makes the whole
  assignment fail. The suppressed exception leaves the new property at its
  default; the failing elements are not just dropped.
- `import_variables` ends at the first exception raised by a record (see
  Findings).

## Model

| member | source | states |
|---|---|---|
| Text.Strip | freecad/vars/core/variables.py:364 | the result has no whitespace at either end, is a slice of the input, and everything cut off on both sides is whitespace |
| Text.Sanitize | freecad/vars/core/variables.py:357-368 | Ok exactly when the stripped name is a (non-empty) identifier, and then its value is the stripped name; otherwise the InvalidName error |
| Text.SanitizePadded | freecad/vars/core/variables.py:364-368 | an identifier surrounded by whitespace sanitises to the identifier itself |
| Text.SanitizeIdempotent | freecad/vars/core/variables.py:357-368 | sanitising an accepted name again gives the same result |
| Text.TitleIdempotent | freecad/vars/core/variables.py:140 | title-casing a title-cased group changes nothing |
| Text.LowerTitle | freecad/vars/core/variables.py:140 | title-casing does not change a string's lower-case form |
| Store.FindByLabel | freecad/vars/core/variables.py:243-261 | get_varset: Some(id) only for a variable whose label is exactly the name; None exactly when no variable carries the label |
| Store.FindByLabelUnique | freecad/vars/core/variables.py:243-261 | in a valid store, each variable's own label resolves to that variable |
| Store.ExistingVarName | freecad/vars/core/variables.py:945-958 | answers a label equal to the name ignoring case; None exactly when every label differs from it ignoring case |
| Sorting.Sort | freecad/vars/core/variables.py:1012-1015 | sorted() on (key, name): the result is sorted and a permutation of the input |
| Sorting.IndexOf | freecad/vars/core/variables.py:1019-1023 | the index of the first occurrence, and -1 exactly when the element is absent |
| Sorting.Move | freecad/vars/core/variables.py:1046-1047 | pop then insert: the moved element sits at the target, and the result is a permutation of the list |
| Sorting.MoveAt | freecad/vars/core/variables.py:1046-1047 | after pop and insert, element k sits at MovedIndex(from, to, k) |
| EditorModes.ModeNames | freecad/vars/core/variables.py:803-805 | the editor_mode getter lists "ReadOnly" exactly when bit 1 is set and "Hidden" exactly when bit 2 is set |
| EditorModes.NewMode | freecad/vars/core/variables.py:816-823 | the setter's loop folds the current names' operations and then the requests' operations from 0, giving SetterMode |
| EditorModes.ModeNamesRebuildMask | freecad/vars/core/variables.py:818-822 | folding the operations of the current names from 0 rebuilds the current mask |
| EditorModes.SetterModeSpec | freecad/vars/core/variables.py:807-823 | the mask the setter stores is the current mask with each request applied in turn |
| EditorModes.ReadOnlySetter | freecad/vars/core/variables.py:825-831 | after the read_only setter, bit 1 is set exactly when ro is true, and the Hidden bit is as before |
| EditorModes.HiddenRequests | freecad/vars/core/variables.py:810-815 | "Hidden" and "-Hidden" set or clear bit 2 and leave bit 1 as it was |
| EditorModes.UnknownRequestsChangeNothing | freecad/vars/core/variables.py:819 | requests that name no mode (or-ing 0) leave the mask unchanged |
| Conversion.CastAll | freecad/vars/core/variables.py:491-496 | a list comprehension of casts: it succeeds exactly when every element casts, and then it holds each element's cast in order |
| Conversion.ConvertListTypeSpec | freecad/vars/core/variables.py:481-497 | [] for empty data or an unknown target list type; otherwise it succeeds exactly when every element casts, giving a list of the same length |
| Conversion.RuleFor | freecad/vars/core/variables.py:429-476 | the priority of set_var_type: converter first, then list to element, element to list, list to list, else raw; each rule holds exactly under its guard |
| Conversion.MigrateFailureKeepsDefault | freecad/vars/core/variables.py:429-476 | a migration raises only in the unguarded list-to-element and element-to-list rules, and then leaves the default; a falsy non-list value always leaves the default with no exception |
| Conversion.ListToItemKeepsFirst | freecad/vars/core/variables.py:439-446 | list to element keeps the first element of a non-empty list |
| Conversion.ItemToListWraps | freecad/vars/core/variables.py:448-455 | element to list wraps a truthy value in a one-element list |
| Conversion.ItemListRoundTrip | freecad/vars/core/variables.py:439-455 | element to list and back returns the original value |
| Conversion.ConverterFirst | freecad/vars/core/variables.py:429-437 | with a converter, its result is assigned whatever the types are |
| GroupKeys.FirstKeysSpec | freecad/vars/core/variables.py:54-63 | a group is recorded exactly when some variable, in document order, holds a GroupSortKey and belongs to it |
| GroupKeys.MaxKey | freecad/vars/core/variables.py:72-74 | max(): a recorded value that bounds every recorded value |
| GroupKeys.InitialKeyOfExistingGroup | freecad/vars/core/variables.py:65-69 | for a group that has a keyed variable, the bootstrap returns the first key met in document order |
| GroupKeys.InitialKeyOfNewGroup | freecad/vars/core/variables.py:71-78 | for a group without a key: one more than the largest key (above every group's key), or 0 when no variable has a key |
| GroupKeys.GetOrAssignInitialGroupSortKey | freecad/vars/core/variables.py:44-78 | the loop over the variables and the max computation return the bootstrap key InitialGroupKey |
| GroupKeys.MaxOfValues | freecad/vars/core/variables.py:72-74 | the loop computing max over the recorded keys returns MaxKey |
| GroupKeys.DistinctGroups | freecad/vars/core/variables.py:400 | the set of stored groups: no repeats, and exactly the groups of the variables |
| GroupKeys.SortNames | freecad/vars/core/variables.py:402 | sorting distinct names gives a strictly increasing list of the same names |
| GroupKeys.GetGroups | freecad/vars/core/variables.py:392-402 | strictly ascending, and holds exactly "Default" and every stored VarGroup |
| Registry.StoredGroup | freecad/vars/core/variables.py:140 | the stored group is non-empty and title-cased: the title-cased argument, or "Default" for an empty one |
| Registry.Fresh | freecad/vars/core/variables.py:113-158 | the record create_var adds: label, type, description, title-cased group, SortKey 0, Hidden False, no GroupSortKey yet, no mode bits, the default value, the expression when one is given |
| Registry.WithValue | freecad/vars/core/variables.py:160-164 | the value is assigned only when there is no expression and a value is given; it fails exactly when the host refuses that value |
| Registry.CreateSpec | freecad/vars/core/variables.py:81-196 | True adds exactly one id; False and an invalid name leave the store unchanged; the store stays well formed |
| Registry.CreateRejectsInvalidName | freecad/vars/core/variables.py:99 | a name that is not an identifier once stripped raises, creating nothing |
| Registry.CreateRefusesTakenName | freecad/vars/core/variables.py:102-103 | a name equal ignoring case to an existing label gives False, creating nothing, before options are checked |
| Registry.CreateRefusesExisting | freecad/vars/core/variables.py:102-103 | when existing_var_name finds a label, create_var answers False with the store unchanged |
| Registry.CreateChecksOptions | freecad/vars/core/variables.py:105-111 | for a free name, options missing for an enumeration or present for another type raise, creating nothing |
| Registry.CreateRefusesArguments | freecad/vars/core/variables.py:105-122 | for a free name, disagreeing options or a type the host cannot add raise with the store unchanged |
| Registry.CreateRefusesValue | freecad/vars/core/variables.py:160-164 | a refused value raises after the variable was added, leaving it without a GroupSortKey |
| Registry.CreateStoresCreated | freecad/vars/core/variables.py:113-196 | on the success path, the store gains the fresh record with its value and bootstrapped key, and the result is True |
| Registry.CreateSucceeds | freecad/vars/core/variables.py:99-196 | True implies a valid name, no label equal ignoring case, and the record added as CreateStoresCreated says |
| Registry.CreateAdds | freecad/vars/core/variables.py:113-180 | after True: one new id at the end of document order, the others untouched, and the new record has the stripped name, the type, the description, the title-cased group, SortKey 0, Hidden False and a GroupSortKey, with the value assigned or the expression kept |
| Registry.CreateResolves | freecad/vars/core/variables.py:114 | after True, the stripped name resolves to the new variable |
| Registry.CreateShape | freecad/vars/core/variables.py:81-196 | create_var either leaves the store as it was or adds one record, labelled with the sanitised name and in the stored group |
| Registry.CreatePreservesValid | freecad/vars/core/variables.py:81-196 | create_var keeps labels unique ignoring case, and every record valid |
| Registry.CreatedKeyInNewGroup | freecad/vars/core/variables.py:170-180 | as written, when no variable of the new record's group has a key, the bootstrap sees the new record's own default 0 and returns 0 |
| Registry.CreateNewGroupKeyIsZero | freecad/vars/core/variables.py:170-180 | as written, creating a variable in a title-cased group with no keyed member gives it GroupSortKey 0, whatever keys other groups hold |
| Registry.CreatedKeyForRawGroup | freecad/vars/core/variables.py:179 | as written, when the raw group argument differs from its stored form, the bootstrap misses the stored group's key and returns a larger one |
| Registry.CreateRawGroupMissesKey | freecad/vars/core/variables.py:179 | as written, a variable created with a group argument that is not title-cased gets a key above that of its group's first keyed member |
| Registry.IntendedGroupKeySpec | freecad/vars/core/variables.py:170-180 | the intended bootstrap, on the stored group before the variable is added: the group's first key when it has one, otherwise a key above every group's key, or 0 with no keys |
| Registry.RenameSpec | freecad/vars/core/variables.py:682-699 | rename answers True only for a resolving handle and a valid name; any other outcome leaves the store unchanged |
| Registry.RenameApplies | freecad/vars/core/variables.py:684-699 | when no other label takes the name, the variable gets the stripped name, and the description only when a non-empty one is given |
| Registry.RenameRefusedIffTaken | freecad/vars/core/variables.py:684-688 | rename gives False exactly when another variable's label equals the new name ignoring case; a case variant of its own name is accepted |
| Registry.RenameEffect | freecad/vars/core/variables.py:690-697 | a successful rename changes only that variable's label (and its description when one is given), keeps the store valid, and the new name resolves to it |
| Registry.RenameFailureChangesNothing | freecad/vars/core/variables.py:683-688 | a rename that does not answer True changes nothing; an unresolved handle raises NotFound |
| Registry.SetGroupSpec | freecad/vars/core/variables.py:777-779 | the group setter raises exactly when the handle does not resolve, and then changes nothing |
| Registry.GetGroup | freecad/vars/core/variables.py:773-775 | the group getter answers exactly for a resolving handle, and never answers an empty group |
| Registry.GroupSetGet | freecad/vars/core/variables.py:773-779 | after setting a group, the getter answers its title-cased form; only that field changed; the store stays valid |
| Registry.GroupGetSet | freecad/vars/core/variables.py:773-779 | setting the group the getter answers changes nothing in a valid store |
| Registry.GroupSetIdempotent | freecad/vars/core/variables.py:777-779 | setting the same group twice equals setting it once |
| Registry.SetHiddenSpec | freecad/vars/core/variables.py:840-851 | the hidden setter raises exactly when the handle does not resolve, and then changes nothing |
| Registry.SetSortKeySpec | freecad/vars/core/variables.py:860-870 | _set_sort_key raises exactly when the handle does not resolve, and then changes nothing |
| Registry.SetDescriptionSpec | freecad/vars/core/variables.py:764-771 | the description setter raises exactly when the handle does not resolve, and then changes nothing |
| Registry.SetValueSpec | freecad/vars/core/variables.py:668-680 | the value setter raises NotFound exactly when the handle does not resolve; any exception leaves the store unchanged |
| Registry.SetEditorModeSpec | freecad/vars/core/variables.py:807-823 | the editor_mode setter raises exactly when the handle does not resolve, and then changes nothing |
| Registry.ReadOnly | freecad/vars/core/variables.py:825-827 | the read_only getter is true exactly when bit 1 is set |
| Registry.FieldSettersSetOneField | freecad/vars/core/variables.py:764-870 | the hidden, _set_sort_key and description setters each change exactly their one field of that variable, and keep the store valid |
| Registry.ReadOnlySetGet | freecad/vars/core/variables.py:825-831 | after setting read_only, the getter answers it, the Hidden bit is kept, and only the mode changed |
| Registry.ValueSetGet | freecad/vars/core/variables.py:668-680 | a value the host refuses raises with the store unchanged; otherwise only that variable's value changes, to what the host stored |
| Registry.DeleteSpec | freecad/vars/core/variables.py:738-744 | delete never raises to the caller, and answers True exactly when the variable exists |
| Registry.DeleteRemoves | freecad/vars/core/variables.py:732-744 | after delete, exists() is false; exactly that variable is removed (or nothing, when none resolved); the store stays valid |
| Registry.SortKeyOf | freecad/vars/core/variables.py:853-858 | sort_key is the tuple (group, SortKey, label) |
| Registry.LessIsStrictOrder | freecad/vars/core/variables.py:911-912 | `__lt__` is irreflexive, asymmetric and transitive, total on distinct labels, and within a group it is the (SortKey, name) order |
| Registry.SetVarTypeSpec | freecad/vars/core/variables.py:405-478 | False and the unsupported-type error leave the store unchanged; the store stays well formed |
| Registry.SetVarTypeEffect | freecad/vars/core/variables.py:419-476 | an unsupported type raises; the same type gives False; otherwise only that variable changes: the new type, the migrated value, mode, options and expression reset, raising exactly when the migration raised |
| Registry.SetVarTypeMissing | freecad/vars/core/variables.py:419-478 | a name that resolves to no variable gives False with the store unchanged |
| Registry.SetVarTypeToList | freecad/vars/core/variables.py:448-455 | T to TList wraps a truthy value in a one-element list, and drops the mode, options and expression of the old Value |
| Registry.SetVarTypeFromList | freecad/vars/core/variables.py:439-446 | TList to T keeps the first element, and drops the mode, options and expression of the old Value |
| Registry.SetVarTypeRoundTrip | freecad/vars/core/variables.py:439-455 | T to TList and back restores the variable, apart from its reset editor mode, options and expression |
| Ordering.FirstReachedSpec | freecad/vars/core/variables.py:902-907 | ins stays -1 exactly when no position reaches the seek point; otherwise it is the first position that does |
| Ordering.GroupOrderSpec | freecad/vars/core/variables.py:896-897 | sorted(get_vars() in the group): exactly the group's members, each once, in (SortKey, name) order |
| Ordering.ReorderKeysAreTheGroup | freecad/vars/core/variables.py:896-909 | reorder writes a SortKey for exactly the members of the variable's group |
| Ordering.LoopKeysAt | freecad/vars/core/variables.py:898-909 | the three loops give the member at sorted position q the key NewKey(n, p, ins, q) |
| Ordering.KeysForDistinct | freecad/vars/core/variables.py:898-909 | the keys written for a group's members are pairwise distinct |
| Ordering.KeysForMoved | freecad/vars/core/variables.py:901-909 | the moved variable takes the first position at or after its position plus delta, or n when there is none |
| Ordering.KeysForMonotone | freecad/vars/core/variables.py:904-908 | the other members keep their relative order, with keys below n |
| Ordering.LoopKeysMeetReorderSpec | freecad/vars/core/variables.py:898-909 | rewriting the SortKeys the loops compute gives the ReorderSpec store |
| Ordering.ReorderFrame | freecad/vars/core/variables.py:895-909 | reorder changes only SortKeys, only within the variable's group, and keeps the store valid |
| Ordering.ReorderKeysDistinct | freecad/vars/core/variables.py:895-909 | after reorder, the SortKeys within the group are pairwise distinct |
| Ordering.ReorderMovedKey | freecad/vars/core/variables.py:901-909 | after reorder, the moved variable's key is the first position reached, or n |
| Ordering.ReorderOthersKeepOrder | freecad/vars/core/variables.py:904-908 | after reorder, two other members of the group keep their (SortKey, name) order, with keys in 0..n-1 |
| Variables.SetKey | freecad/vars/core/variables.py:860-870 | writing one SortKey in place is rewriting the store with one more entry in the key map |
| Variables.NumberAll | freecad/vars/core/variables.py:898-899 | the first loop of reorder gives each member its sorted position |
| Variables.ShiftOthers | freecad/vars/core/variables.py:901-908 | the second loop returns the first position reached (or -1), and writes each other member its position, shifted by one from there on |
| Variables.MoveWithin | freecad/vars/core/variables.py:901-909 | the second and third loops write the keys LoopKeys describes |
| Variables.ReorderMember | freecad/vars/core/variables.py:895-909 | Variable.reorder leaves the store ReorderSpec describes |
| Variables.CreateVar | freecad/vars/core/variables.py:81-196 | create_var returns and leaves exactly what CreateSpec says |
| Variables.AddVariable | freecad/vars/core/variables.py:113-196 | the part of create_var after the checks: adds the record, assigns the value, bootstraps the key, as CreateSpec says |
| Variables.CarryOver | freecad/vars/core/variables.py:429-476 | the value each rule of set_var_type carries over (or the default), and whether it raised, is Migrate's |
| Variables.Retype | freecad/vars/core/variables.py:430-476 | removing and re-adding Value with the new type leaves the variable with the migrated value and no mode, options or expression; the result is True, or the exception of the assignment |
| Variables.SetVarType | freecad/vars/core/variables.py:405-478 | set_var_type returns and leaves exactly what SetVarTypeSpec says |
| Variables.Open | freecad/vars/core/variables.py:606-621 | Variable(doc, name): it raises exactly when the name is invalid, and otherwise holds the stripped name |
| Variables.Variable.Exists | freecad/vars/core/variables.py:732-736 | true exactly when the handle's label resolves |
| Variables.Variable.VarType | freecad/vars/core/variables.py:781-783 | the type of the resolved variable; NotFound exactly when the label resolves to none |
| Variables.Variable.CreateIfNotExists | freecad/vars/core/variables.py:623-658 | create_var under the handle's name, with `default` as the value; it leaves the CreateSpec store and raises what create_var raises |
| Variables.Variable.Delete | freecad/vars/core/variables.py:738-744 | delete returns and leaves what DeleteSpec says |
| Variables.Variable.Rename | freecad/vars/core/variables.py:682-699 | rename returns and leaves what RenameSpec says; the handle takes the stripped name exactly on True |
| Variables.Variable.Group | freecad/vars/core/variables.py:773-775 | the group getter answers GetGroup, never empty |
| Variables.Variable.SetGroup | freecad/vars/core/variables.py:777-779 | the group setter leaves what SetGroupSpec says |
| Variables.Variable.SetHidden | freecad/vars/core/variables.py:840-851 | the hidden setter leaves what SetHiddenSpec says |
| Variables.Variable.SetSortKey | freecad/vars/core/variables.py:860-870 | _set_sort_key leaves what SetSortKeySpec says |
| Variables.Variable.SetDescription | freecad/vars/core/variables.py:764-771 | the description setter leaves what SetDescriptionSpec says |
| Variables.Variable.SetValue | freecad/vars/core/variables.py:668-680 | the value setter leaves what SetValueSpec says |
| Variables.Variable.SetEditorMode | freecad/vars/core/variables.py:807-823 | the editor_mode setter leaves what SetEditorModeSpec says |
| Variables.Variable.SetReadOnly | freecad/vars/core/variables.py:829-831 | the read_only setter leaves what SetReadOnlySpec says |
| Variables.Variable.IsReadOnly | freecad/vars/core/variables.py:825-827 | the read_only getter: bit 1 of the resolved variable's mode; NotFound when the label resolves to none |
| Variables.Variable.SortKey | freecad/vars/core/variables.py:853-858 | the (group, SortKey, label) tuple of the resolved variable |
| Variables.Variable.LessThan | freecad/vars/core/variables.py:911-912 | `__lt__` compares the two sort_key tuples (Less) when both handles resolve |
| Variables.Variable.Reorder | freecad/vars/core/variables.py:895-909 | NotFound, changing nothing, exactly when the handle does not resolve; otherwise the ReorderSpec store |
| Variables.Variable.ChangeVarType | freecad/vars/core/variables.py:932-942 | change_var_type is set_var_type on the handle's name |
| GroupOrder.CollectStep | freecad/vars/core/variables.py:973-1002 | one variable of the collection loop: only its GroupSortKey may change (repaired when missing, kept when present); its group is recorded, in first-seen order |
| GroupOrder.Collect | freecad/vars/core/variables.py:971-1005 | after the first variables: they are keyed, the rest untouched, keyed variables unchanged, and only groups of visited variables recorded |
| GroupOrder.CollectKeysAll | freecad/vars/core/variables.py:971-1005 | after the loop, every variable has a key, its group is recorded, and its group is unchanged |
| GroupOrder.CollectCovers | freecad/vars/core/variables.py:971-1005 | groups_data holds exactly the groups of the variables |
| GroupOrder.RankingSpec | freecad/vars/core/variables.py:1012-1015 | sorted_groups holds the recorded groups, each once, in strictly ascending (key, name) order |
| GroupOrder.GroupRankingMembers | freecad/vars/core/variables.py:1012-1015 | the ranking holds exactly the groups of the document's variables |
| GroupOrder.GroupRankingSpec | freecad/vars/core/variables.py:1012-1015 | the ranking holds exactly the collected groups, each once, strictly ascending by (key, name) |
| GroupOrder.Target | freecad/vars/core/variables.py:1030-1038 | the new index lies in 0..m-1 |
| GroupOrder.Destination | freecad/vars/core/variables.py:1029-1038 | the clamped target of a ranked group is a valid index |
| GroupOrder.MoveRanking | freecad/vars/core/variables.py:1046-1047 | pop and insert keep the groups distinct and the same set; the moved group lands at the target; other groups keep their relative order |
| GroupOrder.AssignChanges | freecad/vars/core/variables.py:1052-1076 | renumbering changes the records exactly when some stored key differs from its group's index |
| GroupOrder.RepairedSpec | freecad/vars/core/variables.py:971-1005 | the collection loop changes only GroupSortKeys, keys every variable, keeps existing keys, and keeps the store valid |
| GroupOrder.ReorderGroupFrame | freecad/vars/core/variables.py:961-1084 | reorder_group changes only GroupSortKeys, leaves every variable keyed, and keeps the store valid |
| GroupOrder.ReorderGroupReportsChange | freecad/vars/core/variables.py:1052-1084 | the result is True exactly when the final pass changed a key, compared with the store after the collection loop |
| GroupOrder.ReorderGroupNoMove | freecad/vars/core/variables.py:1007-1043 | an unknown group, or a target equal to the current index, gives False with only the collection loop's repairs |
| GroupOrder.ReorderGroupKeysBounded | freecad/vars/core/variables.py:1050-1076 | after a move, every key lies in 0..m-1 |
| GroupOrder.ReorderGroupSharedKeys | freecad/vars/core/variables.py:1050-1076 | after a move, two variables share a key exactly when they share a group |
| GroupOrder.ReorderGroupPositionsUsed | freecad/vars/core/variables.py:1050-1076 | after a move, every position 0..m-1 is some variable's key (keys are contiguous) |
| GroupOrder.ReorderGroupLands | freecad/vars/core/variables.py:1045-1076 | after a move, the moved group's variables carry the clamped target index |
| GroupOrder.ReorderGroupOthersKeepOrder | freecad/vars/core/variables.py:1045-1076 | after a move, variables of the other groups are keyed in the groups' previous ranking order |
| GroupReorder.RelabelChanged | freecad/vars/core/variables.py:1071-1076 | the inner loop sets changes_made exactly when a variable of the group held another key |
| GroupReorder.RenumberChanged | freecad/vars/core/variables.py:1052-1076 | the nested loop sets changes_made exactly when some variable's key differs from its group's new index |
| GroupReorder.RenumberComplete | freecad/vars/core/variables.py:1052-1076 | the nested loop assigns each variable its group's index, and reports whether a key differed |
| GroupReorder.RenumberMeetsSpec | freecad/vars/core/variables.py:1052-1076 | the nested loop over the moved ranking assigns every variable its group's new index and reports exactly whether a key differed |
| GroupReorder.CollectOne | freecad/vars/core/variables.py:973-1002 | one pass of the collection loop, in place, is CollectStep |
| GroupReorder.CollectGroups | freecad/vars/core/variables.py:971-1005 | the collection loop, in place, is Collect |
| GroupReorder.FindGroup | freecad/vars/core/variables.py:1019-1023 | the search returns the first index of the group, or -1 |
| GroupReorder.RelabelGroup | freecad/vars/core/variables.py:1054-1076 | the inner loop, in place, is Relabel |
| GroupReorder.AssignKeys | freecad/vars/core/variables.py:1052-1076 | the nested loop, in place, is Renumber |
| GroupReorder.ReorderGroup | freecad/vars/core/variables.py:961-1084 | reorder_group returns and leaves exactly what ReorderGroupSpec says |
| Importing.ImportVariablesSpec | freecad/vars/core/variables.py:550-594 | an empty path gives False, changing nothing; otherwise a finished import answers True |
| Importing.ApplyFieldsSpec | freecad/vars/core/variables.py:582-592 | applying a record to a variable: no exception, the value when given without an expression, read_only, hidden and sort key set, and a message exactly when the value was refused |
| Importing.ImportSkipsUnsupported | freecad/vars/core/variables.py:560-564 | a record of an unsupported type is reported and skipped |
| Importing.ImportSkipsOtherType | freecad/vars/core/variables.py:566-572 | a record whose label exists with another type is reported and skipped |
| Importing.ImportUpdatesExisting | freecad/vars/core/variables.py:566-592 | a record whose label exists with its type updates that variable, as ApplyFieldsSpec says |
| Importing.ImportCreatesMissing | freecad/vars/core/variables.py:573-592 | a record with a free name creates the variable from its fields, then applies value, read_only, hidden and sort key, leaving the other variables untouched |
| Importing.ImportOnePreservesValid | freecad/vars/core/variables.py:559-592 | importing one record keeps the store valid |
| Importing.ImportAllPreservesValid | freecad/vars/core/variables.py:559-593 | importing a list of records keeps the store valid |
| Importing.ImportAllStops | freecad/vars/core/variables.py:559-593 | once a record raises, the later records change nothing |
| Importing.ImportCaseVariantRaises | freecad/vars/core/variables.py:566-590 | a record whose label matches an existing one only ignoring case raises NotFound, changing nothing |
| Importing.ImportAbortsAfterCaseVariant | freecad/vars/core/variables.py:559-593 | as written, such a record ends the whole import: the records after it are not imported |
| Importing.ImportAllContinuing | freecad/vars/core/variables.py:559-593 | the import that reports a failing record and carries on: it never raises |
| Importing.ImportAllContinuingAgrees | freecad/vars/core/variables.py:559-593 | when no record raises, the continuing import is the import as written |
| Importing.ImportAllContinuingPreservesValid | freecad/vars/core/variables.py:559-593 | the continuing import keeps the store valid |
| Importing.ImportAllContinuingSplit | freecad/vars/core/variables.py:559-593 | importing xs + ys continues from the store that importing xs leaves, and concatenates the messages |
| Importing.ImportContinuesAfterFailure | freecad/vars/core/variables.py:559-593 | after a record that raises, the continuing import reports it and imports the rest from the store it left |
| Importing.ImportContinuesAfterCaseVariant | freecad/vars/core/variables.py:559-593 | a case-variant record is reported as NotFound, and the rest is imported from the unchanged store |
| Importing.ImportRecord | freecad/vars/core/variables.py:559-592 | the loop body, on the document in place, is ImportOne |
| Importing.ApplyRecord | freecad/vars/core/variables.py:582-592 | value, read_only, hidden and sort key through the handle, in place, is ApplyFields |
| Importing.ImportRecords | freecad/vars/core/variables.py:559-593 | the loop over the records, in place, is ImportAll: it stops at the first exception |
| Importing.ImportVariables | freecad/vars/core/variables.py:539-594 | import_variables returns, leaves and reports exactly what ImportVariablesSpec says |

## Left out

- One document. Defaulting to the active document, and the checks for a missing document, are not modelled. `Variable.reorder` calls `get_vars()` on the active document; the model uses the handle's own document.
- The `XVarGroup` folder (`get_vars_group`) and the `is_var` filter are not modelled: every record of the store is a variable.
- `get_unique_name` is replaced by a counter, `nextId`.
- Host calls become operations on the store: `addObject`, `addProperty`, `removeProperty`, `removeObject`, `recompute`, `setDocumentationOfProperty` and the `Label2` mirror of the description.
- Expressions are kept as a field. The expression engine is not modelled: a variable with an expression keeps its default value.
- `preferences.hide_varsets` and `ViewObject.ShowInTree` are not modelled.
- File I/O is not modelled. `load_variables_from_file` becomes the `vars` parameter of import.
- `get_supported_property_types` and `supportedProperties` become the two type sets of `Host`.
- Console messages of import become `Notice` values. Debug prints are dropped.
- Floats, `App.Units.Quantity` and host-native values are opaque `Value`s. The value setter's Quantity conversion, `float(...)`, and `type(varset.Value)(value)` are the partial functions `assign`, `cast` and `castItem` of `Host`.
- A delta is an integer number of rows or ±inf (`Delta`). Fractional deltas are not modelled. `reorder_group` truncates with `int(delta)`, which an integer makes exact.
- The `_obj` cache of `Variable` is not modelled: every access looks the label up again. A source handle keeps the object it found first, so the two differ when the label changes, or the variable is removed (and perhaps re-created under the same label), other than through this handle.
- `isRestoring()` is taken to be false, so `reorder_group` always repairs a variable without a `GroupSortKey`. The branch that then gives up is unreachable in the model.
- Adding a missing `Hidden` or `SortKey` property in their setters is not modelled. Every record holds both fields.
- The `group_sort_key` getter, with its own repair, is not modelled. It is not among the operations modelled here.
- Not modelled, being thin wrappers over the modelled `Variable` operations: `rename_var`, `delete_var`, `get_var`, `set_var`, the `set_/get_var_description`, `options`, `expression` and `group` functions.
- `export_variables` is not modelled.
- Not modelled: the `options` and `expression` properties, the `description`, `value`, `internal_name` and `document` getters, `dependencies`, `references`, `__repr__` and `__eq__`.
- The `hidden` setter is defined twice in the class. It is modelled once.
- The `editor_mode` setter takes a string or a list. The model takes the list; a single string is a one-element list.
- Text.Sanitize: identifiers are ASCII only (a letter or `_`, then letters, digits or `_`). Python's `str.isidentifier()` also accepts Unicode identifiers such as "café", which the model refuses as InvalidName. Unicode identifier classes are not modelled.
- Store.ExistingVarName: names are compared with an ASCII-only `Lower`. Python's `str.lower()` also folds non-ASCII letters ("Ä" and "ä"), so the source finds clashes the model misses, and create and rename accept labels the source refuses.
- Registry.StoredGroup: title-casing is ASCII only; a non-ASCII letter counts as a non-letter. Python's `str.title()` gives "Über" for "über", the model "üBer".
- `create_var` also accepts a callable for `options` and calls it to get the list. The model takes only the list itself.
- Registry.CreateSpec: a type the host cannot add raises with the store unchanged. In the source, `addObject` has already added an empty VarSet by then, and that leftover object is not modelled.
- Registry.SetVarTypeSpec: the documentation text passed to `addProperty` is not modelled. The description field is kept as is.

## Findings

The model keeps each behaviour as written: `CreateVar`, `ImportVariables` and
the functions they are proved against follow the code. The corrected
definitions stand beside them, each with its intended property proved.

| source | as written | input that shows it | evidently intended | confidence | as-written member | corrected member |
|---|---|---|---|---|---|---|
| freecad/vars/core/variables.py:179 | The bootstrap is asked about the raw `group` argument. The variable is stored under `(group or "Default").title()`. | A document where variables of group "Metrics" have GroupSortKey 0; then `create_var(name="x", group="metrics")`. The new variable in "Metrics" gets a key above every existing key, not 0. | The key of the stored group, so that a group's members share one key. | not executed | Registry.CreateRawGroupMissesKey | Registry.IntendedGroupKeySpec |
| freecad/vars/core/variables.py:170-180 | The bootstrap runs after the new VarSet, with its `GroupSortKey` property just added (holding 0), is already in the document. So a new group finds the new variable itself, with key 0. | A document with a variable of group "A" with GroupSortKey 0; then `create_var(name="x", group="B")`. Group "B" gets key 0 and ties with "A". | One more than the largest key for a new group, as the bootstrap's own comment says. | not executed; assumes `get_unique_name` yields an `XVar_` name | Registry.CreateNewGroupKeyIsZero | Registry.IntendedGroupKeySpec |
| freecad/vars/core/variables.py:566-592 | A record whose label equals an existing label only up to case is not found by `Variable(doc, name)`, so `create_if_not_exists` refuses the name (False), and the `read_only` setter raises ValueError. That ends the whole import. | A document with variable "Width"; import records [{name: "width"}, {name: "Depth"}]. "Depth" is never imported. | The record is reported and the import continues with the next one, like every other per-record failure. | not executed | Importing.ImportAbortsAfterCaseVariant | Importing.ImportContinuesAfterCaseVariant |
