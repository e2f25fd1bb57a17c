# Improved Input Config: keybind registry and binding persistence

This project models the core of the Rain World mod *Improved Input Config* and proves properties about it in Dafny. The core has five parts.

**The keybind registry** (`PlayerKeybinds`, `Registration`)
- An append-only catalog of keybinds.
- The ten built-in keybinds come first; registered modded keybinds follow.
- Each registered keybind gets the next action id, counting up from 35.
- Registration validates the id, the mod name and the display name.
- Keybinds can be looked up by id, or by (action id, axis direction).
- The conflict check compares the bindings of two (player, keybind) pairs. A visible-conflict wrapper applies each keybind's HideConflict predicate.

**The controller-map record codec** (`ControllerRecords`)
- Each Rewired controller map is saved as a `|`-separated record, tagged with version `1.5`.
- Layout: the version, the unbound count, the bound count, the unbound ids, then one (id, elementId, elementType, axisRange) tuple per bound keybind.
- The record is stored in the player preferences under an `iic|` key.
- On load, tuples of registered keybinds rebind the map. Tuples of keybinds not yet registered are kept as pending.

**The mouse overlay codec** (`MouseOverlay`)
- The mouse bindings of modded keybinds cannot be stored in the host's text. The mod appends them to the control setup's text as one extra attribute: `iic:mousemaps<ctrlB>1.5<ctrlB>id|button<ctrlB>...`.
- On load, that attribute is taken back out of the attributes the host did not recognise.

**Reconciliation** (`LateLoad`, `SaveAndLoadHooks`)
- Saved entries of keybinds that are not registered yet are kept per controller map and per control setup.
- When such a keybind registers after the options have loaded, its pending entries are applied and removed.

**The serialisation filter** (`SerializeFilter`)
- Modded element maps (action id above 34) are removed from the host's own serialised map lists.

## How the model is built

- **Host objects.** Rewired's controller maps, Rain World's control setups and the preference store are small classes (`Host.ControllerMap`, `Host.ControlSetup`, `Host.PlayerPrefs`). Their fields are updated in place.
- **Host queries.**
  - The host's element-map queries are modelled as functions on the map's element list: `FirstWithAction` is GetFirstElementMapWithAction, `WithoutAction` is DeleteElementMapsWithAction.
  - `UsingGamepad`, `GetActionElement` and `CheckForAssignmentConflict` are uninterpreted parameters (`HostQueries`).
  - The preference key of a controller map is a parameter (`hostKey`).
- **Mod state.**
  - The static state of the hooks is the class `SaveAndLoadHooks.Hooks`: `allControllerMapData`, `unknownMouseButtonMappings`, `hasLoadedOptions`.
  - The static catalog is the class `PlayerKeybinds.Registry`.
- **Exceptions.** Exceptions in the source become explicit outcomes:
  - a failed `int.Parse` or an out-of-range index ends the load loop, keeping what was done (the hook catches it);
  - a failure during the late load ends it and is reported to the registration (`Registration.Outcome.LateLoadThrew`);
  - `Validate`'s exceptions are `RegistrationError` values.
- **32-bit arithmetic.** The load loop's `int` arithmetic wraps at 32 bits (`Text.Wrap32`), as in .NET, and `int.Parse` accepts only 32-bit values.
- **Behaviour kept as written.**
  - The load path skips the saved unbound ids. They are not kept as pending.
  - The mouse gate for the second player in `ConflictsWith` reads the first player's setup, so the relation is not symmetric (`ConflictsWithNotSymmetric`).
  - `Validate` does not reject ids containing `<ctrlA>` or `<ctrlB>`, although such ids break the overlay (`CtrlBIdAccepted`, `CtrlBIdBreaksOverlay`).

## Model

| member | source | states |
|---|---|---|
| Text.Split | src/SaveAndLoadHooks.cs:191 | `string.Split` with a delimiter always gives at least one piece |
| Text.FindFrom | src/SaveAndLoadHooks.cs:191 | the first occurrence of the delimiter at or after a position, or none |
| Text.SplitJoin | src/SaveAndLoadHooks.cs:165-191 | splitting a join gives back the pieces when no piece contains the delimiter |
| Text.SplitPiecesFree | src/SaveAndLoadHooks.cs:191 | no piece of a split contains the delimiter |
| Text.Wrap32 | src/SaveAndLoadHooks.cs:201-212 | 32-bit two's-complement wrap: the result is an int32 and equals the input when the input already is one |
| Text.Wrap32Congruent | src/SaveAndLoadHooks.cs:201-212 | a wrapped value differs from the input by a multiple of 2^32 |
| Text.Wrap32Over | src/SaveAndLoadHooks.cs:212 | a sum that overflows by less than 2^32 wraps to the sum minus 2^32 |
| Text.ParseInt | src/SaveAndLoadHooks.cs:202 | `int.Parse` succeeds only with a 32-bit value |
| Text.NatToStringDigits | src/SaveAndLoadHooks.cs:137 | the decimal text of a natural number is all digits and has that value |
| Text.IntToStringChars | src/SaveAndLoadHooks.cs:137 | `int.ToString` gives a non-empty text of digits and '-' |
| Text.ParseIntToString | src/SaveAndLoadHooks.cs:137 | `int.Parse(n.ToString()) == n` for every int32 n |
| Text.IntToStringAvoids | src/SaveAndLoadHooks.cs:156-157 | a number's text contains no delimiter that starts with neither a digit nor '-' |
| Host.ParseElementType | src/SaveAndLoadHooks.cs:432 | `Enum.TryParse` of an element type, restricted to member names: succeeds exactly on the names `ToString` writes, and inverts it |
| Host.ParseAxisRange | src/SaveAndLoadHooks.cs:432 | `Enum.TryParse` of an axis range, restricted to member names: succeeds exactly on the names `ToString` writes, and inverts it |
| Host.FirstWithActionMembers | src/SaveAndLoadHooks.cs:128 | GetFirstElementMapWithAction is null iff no element map has the action, and otherwise is the first one that does |
| Host.WithoutActionMembers | src/SaveAndLoadHooks.cs:435 | DeleteElementMapsWithAction keeps exactly the element maps of other actions |
| Host.WithoutActionAppend | src/SaveAndLoadHooks.cs:435 | deleting an action's maps distributes over concatenation |
| Host.WithoutActionAbsent | src/SaveAndLoadHooks.cs:435 | deleting an action that has no maps changes nothing |
| Host.FirstWithActionAppend | src/SaveAndLoadHooks.cs:128 | the first map of an action in a concatenation is the first in the front part if there is one, else the first in the back part |
| PlayerKeybinds.Validate | src/PlayerKeybind.cs:129-148 | passes iff the id is not blank and contains none of `<optA>`, `<optB>`, `\|`, the mod and name are not blank, and the id is not taken; the error is InvalidId exactly when the id check fails, and DuplicateId exactly when only the id is taken |
| PlayerKeybinds.GetMembers | src/PlayerKeybind.cs:34 | `Get(id)` is null iff no keybind has the id, and otherwise is the first keybind with it |
| PlayerKeybinds.GetAppend | src/PlayerKeybind.cs:34 | after an append, `Get` finds the earlier keybind first, else the appended one if the id matches |
| PlayerKeybinds.GetInWellFormed | src/PlayerKeybind.cs:34 | in the catalog, `Get` of any keybind's id returns that keybind |
| PlayerKeybinds.GetDistinct | src/PlayerKeybind.cs:34 | with distinct ids, `Get` of an entry's id returns that entry |
| PlayerKeybinds.FindByActionMembers | src/PlayerKeybind.cs:36-45 | `Get(actionId, axisPositive)` is null for action -1, null iff no keybind's game or UI action matches with that direction, and otherwise the first match |
| PlayerKeybinds.GetByAction | src/PlayerKeybind.cs:36-45 | the lookup loop returns exactly `FindByAction` |
| PlayerKeybinds.ActionPairsUnique | src/PlayerKeybind.cs:36-45 | in the catalog no two keybinds match the same (action, direction) |
| PlayerKeybinds.FindByActionUnique | src/PlayerKeybind.cs:36-45 | any keybind matching an (action, direction) is the one the lookup returns |
| PlayerKeybinds.ModdedIffRegistered | src/PlayerKeybind.cs:205-208 | in the catalog a keybind is modded iff its index is 10 or more |
| PlayerKeybinds.RegisteredEntry | src/PlayerKeybind.cs:47-49 | the i-th registered keybind is found by its id, is modded, has a valid id and has action id 35 + (i - 10) |
| PlayerKeybinds.GuiKeybinds | src/PlayerKeybind.cs:23-28 | the keybinds shown in the GUI are exactly those with HideConfig off, in catalog order |
| PlayerKeybinds.Registry.constructor | src/PlayerKeybind.cs:47-74 | the catalog starts as the ten built-ins with default settings and the counter at 35 |
| PlayerKeybinds.Registry.Create | src/PlayerKeybind.cs:150-167 | on a validation failure the error is Validate's and nothing changes; otherwise exactly one keybind is appended at the next index with the counter's action id, UI action -1 and the presets given, the counter increases by one, and `Get(id)` finds it |
| PlayerKeybinds.Registry.SetHideConfig | src/PlayerKeybind.cs:199 | only that keybind's HideConfig changes |
| PlayerKeybinds.Registry.SetHideConflict | src/PlayerKeybind.cs:202 | only that keybind's HideConflict changes |
| PlayerKeybinds.BuiltInIdsPassChecks | src/PlayerKeybind.cs:54-74 | every built-in id passes the id check |
| PlayerKeybinds.BuiltInIdsDistinct | src/PlayerKeybind.cs:54-74 | the built-in ids are distinct |
| PlayerKeybinds.BuiltInIdsValid | src/PlayerKeybind.cs:54-74 | the built-ins form a well-formed catalog |
| PlayerKeybinds.ConflictsWith | src/PlayerKeybind.cs:255-287 | false for the same keybind and player, for different control preferences, for two gamepads with different numbers, and when either side has neither an element map nor a mouse button; in all other cases, true iff the mouse buttons match (and are not -1) or the host reports an assignment conflict, both directions stated |
| PlayerKeybinds.VisiblyConflictsWith | src/PlayerKeybind.cs:289-292 | true iff the keybinds conflict and neither HideConflict predicate hides the other keybind (a null predicate hides nothing) |
| PlayerKeybinds.ConflictsWithNotSymmetric | src/PlayerKeybind.cs:278-281 | a keyboard player and a gamepad player with the same mouse button conflict one way but not the other |
| Registration.Register | src/PlayerKeybind.cs:105-111 | rejected iff Validate fails, and then the error is Validate's and the catalog, the settings, the counter, the hooks' state, the records and the setups are unchanged; otherwise the new keybind (next index, the counter's action id, UI action -1, not inverted, the three given presets) is appended with default settings, the counter goes up by one and `Get` finds it; the record table and the loaded flag are kept, no other action's element maps and no other mouse key or setup attribute change, invalid players' records keep their pending lists, and nothing changes before the options have loaded; after they have loaded and without an exception, every valid player's record loses exactly the keybind's unbound ids and pending tuples, each setup's unknown mouse entries either stay or lose exactly the keybind's, and none of its entries is left for a keyboard map's setup; a valid player's record whose map no other record shares binds the new action as the earliest of its old pending tuples said (`BindingAfter`), and a valid keyboard record's setup holds, under the keybind's mouse key, the button of the earliest of its old unknown entries (`MouseAfter`) |
| Registration.RegisterSharedPreset | src/PlayerKeybind.cs:86-92 | rejected iff Validate fails, and then the error is Validate's and the catalog, the settings, the counter, the hooks' state, the records and the setups are unchanged; otherwise the new keybind (next index, the counter's action id, UI action -1, not inverted, the Xbox preset equal to the gamepad preset) is appended with default settings, the counter goes up by one and `Get` finds it; the record table and the loaded flag are kept, no other action's element maps and no other mouse key or setup attribute change, invalid players' records keep their pending lists, and nothing changes before the options have loaded; after they have loaded and without an exception, every valid player's record loses exactly the keybind's unbound ids and pending tuples, each setup's unknown mouse entries either stay or lose exactly the keybind's, and none of its entries is left for a keyboard map's setup; a valid player's record whose map no other record shares binds the new action as the earliest of its old pending tuples said (`BindingAfter`), and a valid keyboard record's setup holds, under the keybind's mouse key, the button of the earliest of its old unknown entries (`MouseAfter`) |
| Registration.RegisterWithoutPresets | src/PlayerKeybind.cs:121-127 | rejected iff Validate fails, and then the error is Validate's and the catalog, the settings, the counter, the hooks' state, the records and the setups are unchanged; otherwise the new keybind (next index, the counter's action id, UI action -1, not inverted, all three presets KeyCode.None) is appended with default settings, the counter goes up by one and `Get` finds it; the record table and the loaded flag are kept, no other action's element maps and no other mouse key or setup attribute change, invalid players' records keep their pending lists, and nothing changes before the options have loaded; after they have loaded and without an exception, every valid player's record loses exactly the keybind's unbound ids and pending tuples, each setup's unknown mouse entries either stay or lose exactly the keybind's, and none of its entries is left for a keyboard map's setup; a valid player's record whose map no other record shares binds the new action as the earliest of its old pending tuples said (`BindingAfter`), and a valid keyboard record's setup holds, under the keybind's mouse key, the button of the earliest of its old unknown entries (`MouseAfter`) |
| SerializeFilter.LiveCount | src/SaveAndLoadHooks.cs:44-57 | the number of non-null element maps is at most their count |
| SerializeFilter.LiveMaps | src/SaveAndLoadHooks.cs:44-57 | the serialised entries correspond one to one, in order, to the non-null element maps |
| SerializeFilter.KeptEntriesAreVanillaMaps | src/SaveAndLoadHooks.cs:44-57 | the filter keeps exactly the serialised entries of the vanilla element maps |
| SerializeFilter.RemoveModdedEntries | src/SaveAndLoadHooks.cs:40-78 | the offset-tracking loop leaves exactly the serialised entries of the non-null maps with action id at most 34, in order; the button-map and axis-map hooks are the same loop |
| ControllerRecords.StorageKey | src/SaveAndLoadHooks.cs:145 | the record key is `iic\|` followed by the host's key |
| ControllerRecords.Flatten | src/SaveAndLoadHooks.cs:161-162 | each bound tuple contributes four fields |
| ControllerRecords.FlattenAppend | src/SaveAndLoadHooks.cs:161-162 | flattening distributes over concatenation |
| ControllerRecords.RecordFields | src/SaveAndLoadHooks.cs:154-162 | a record has 3 + unbound + 4 × bound fields |
| ControllerRecords.LiveEntries | src/SaveAndLoadHooks.cs:126-142 | every modded keybind is classified as either unbound or bound |
| ControllerRecords.LiveEntriesMembers | src/SaveAndLoadHooks.cs:126-142 | an id is unbound iff its keybind's action has no element map; a tuple is bound iff it carries a keybind's id and the fields of that action's first element map |
| ControllerRecords.ReadHeader | src/SaveAndLoadHooks.cs:191-212 | a wrong version is reported iff field 0 is not `1.5`; otherwise the tuple offset 3 + numUnbound and the limit offset + 4 × numBound are computed in 32-bit arithmetic |
| ControllerRecords.AddControllerMapping | src/SaveAndLoadHooks.cs:426-437 | fails iff the element id does not parse |
| ControllerRecords.AddControllerMappingBinds | src/SaveAndLoadHooks.cs:426-437 | other actions' maps are untouched; with an unknown element type or axis range the map is unchanged; otherwise the action has exactly one element map, the one from the tuple |
| ControllerRecords.ReadRecord | src/SaveAndLoadHooks.cs:187-222 | every tuple kept as pending belongs to an unregistered id |
| ControllerRecords.ReadRecordWithHeader | src/SaveAndLoadHooks.cs:191-222 | with a good header, loading is the tuple loop from the offset to the limit |
| ControllerRecords.LoadFromPending | src/SaveAndLoadHooks.cs:212-219 | the tuple loop only ever keeps unregistered ids as pending |
| ControllerRecords.NextIndex | src/SaveAndLoadHooks.cs:212 | `i += 4` in 32-bit arithmetic either moves forward or wraps negative |
| ControllerRecords.LoadFromAdvance | src/SaveAndLoadHooks.cs:212-221 | one loop iteration applies the tuple at i and continues at i + 4 |
| ControllerRecords.LoadFromOutOfRange | src/SaveAndLoadHooks.cs:212-231 | an index outside the fields throws, and the hook keeps what was loaded |
| ControllerRecords.LoadAllAppend | src/SaveAndLoadHooks.cs:212-222 | loading two lists of tuples is loading one after the other |
| ControllerRecords.LoadFromFlattened | src/SaveAndLoadHooks.cs:212-222 | the loop over flattened fields loads exactly those tuples in order |
| ControllerRecords.LoadAllUnregistered | src/SaveAndLoadHooks.cs:214-218 | tuples of unregistered ids are appended to the pending list in order and change nothing else |
| ControllerRecords.LoadAllLive | src/SaveAndLoadHooks.cs:128-140 | loading the tuples saved for registered keybinds rebuilds the first element map of each one's action |
| ControllerRecords.FirstMapsFind | src/SaveAndLoadHooks.cs:128 | the rebuilt maps give each modded action the same first element map as the saved map |
| ControllerRecords.RecordSplits | src/SaveAndLoadHooks.cs:165-191 | splitting an encoded record at `\|` gives back its fields when no id or field contains `\|` |
| ControllerRecords.RecordHeader | src/SaveAndLoadHooks.cs:155-157 | the header of an encoded record reads back as the offset and limit of its tuples |
| ControllerRecords.ModdedPartRegistered | src/PlayerKeybind.cs:150-153 | every catalog entry from index 10 on is registered, modded and valid, and their actions are distinct |
| ControllerRecords.LiveEntriesClean | src/SaveAndLoadHooks.cs:126-142 | ids that pass Validate and numeric or enum fields never contain `\|` |
| ControllerRecords.MappingOfClean | src/SaveAndLoadHooks.cs:135-139 | a tuple built from an element map has no field containing `\|` when its id has none |
| ControllerRecords.LoadRecordTuples | src/SaveAndLoadHooks.cs:212-222 | the loop over an encoded record's fields loads exactly its bound tuples |
| ControllerRecords.ReadEncoded | src/SaveAndLoadHooks.cs:154-222 | reading back an encoded record loads exactly its bound tuples, in order |
| ControllerRecords.SaveThenLoad | src/SaveAndLoadHooks.cs:121-222 | saving a map and loading it into a vanilla-only map restores the first element map of every modded keybind, and gives back the pending tuples in the same order |
| ControllerRecords.RestoredBindings | src/SaveAndLoadHooks.cs:128-140 | after the round trip each modded keybind's action has the same first element map as before the save |
| MouseOverlay.WriteMouseButtonMapping | src/SaveAndLoadHooks.cs:266-281 | throws iff the key has no `,` or its action does not parse; otherwise it either appends to the text or adds a modded entry, never both |
| MouseOverlay.WriteMouseMappings | src/SaveAndLoadHooks.cs:266-281 | writing a list of mappings only appends modded entries |
| MouseOverlay.WrittenEntriesModded | src/SaveAndLoadHooks.cs:272-278 | every collected entry is `id\|button` of a modded keybind with a bound button |
| MouseOverlay.WriteOneModded | src/SaveAndLoadHooks.cs:272-278 | one mapping adds at most one entry, and only the entry of a modded catalog keybind whose button is not -1 |
| MouseOverlay.WriteModdedMapping | src/SaveAndLoadHooks.cs:266-281 | a registered keybind's mapping under its own key adds the entry `id\|button`, or nothing when the button is -1 |
| MouseOverlay.MouseKeySplits | src/SaveAndLoadHooks.cs:441 | a mapping key splits at `,` into the action and the direction |
| MouseOverlay.OverlayToken | src/SaveAndLoadHooks.cs:294 | the appended attribute starts with `iic:mousemaps` |
| MouseOverlay.ParseOverlay | src/SaveAndLoadHooks.cs:327-334 | accepted iff the second field is version `1.5`; the entries contain no field separator |
| MouseOverlay.OverlayRoundTrip | src/SaveAndLoadHooks.cs:294-334 | parsing the appended attribute gives back the entries when none contains `<ctrlB>` |
| MouseOverlay.AddMouseMapping | src/SaveAndLoadHooks.cs:439-443 | throws iff the button does not parse; otherwise sets only the key `action,1/0` to the button |
| MouseOverlay.ApplyUnknownEntries | src/SaveAndLoadHooks.cs:334-347 | entries of unregistered ids are collected as unknown, in order |
| MouseOverlay.ApplyWrittenEntry | src/SaveAndLoadHooks.cs:337-342 | a written entry of a registered keybind sets that keybind's mouse mapping to the button |
| MouseOverlay.WrittenEntries | src/SaveAndLoadHooks.cs:275-278 | the entries written for a list of keybinds and buttons, one `id\|button` each |
| MouseOverlay.ApplyWrittenEntries | src/SaveAndLoadHooks.cs:334-347 | applying written entries rebinds each keybind's mouse mapping |
| MouseOverlay.ApplyEntriesAppend | src/SaveAndLoadHooks.cs:334-347 | applying two lists of entries is applying one after the other |
| MouseOverlay.MouseSaveThenLoad | src/SaveAndLoadHooks.cs:266-351 | saving the modded and unknown entries and loading them back rebinds the mouse mappings and gives back the unknown entries in order |
| MouseOverlay.WriteRegisteredMappings | src/SaveAndLoadHooks.cs:266-281 | writing the mouse mappings of registered modded keybinds with bound buttons leaves the host's text alone and collects exactly their `id\|button` entries, in order |
| MouseOverlay.MouseMappingsRoundTrip | src/SaveAndLoadHooks.cs:266-351 | the writer's collected entries, followed by the unknowns, survive the overlay attribute and load back into the same mouse keys and buttons, with the unknowns kept in order |
| MouseOverlay.EntryAvoidsFieldSeparator | src/SaveAndLoadHooks.cs:278 | an entry contains no `<ctrlB>` when its id contains none |
| MouseOverlay.OtherAttrsMembers | src/SaveAndLoadHooks.cs:311-317 | the kept attributes are exactly those not starting with `iic:mousemaps` |
| MouseOverlay.LastOverlayAttrIsLast | src/SaveAndLoadHooks.cs:311-317 | the attribute parsed is the last overlay attribute, and none is parsed iff there is none |
| MouseOverlay.TakeOverlayAttr | src/SaveAndLoadHooks.cs:308-319 | the backward removal loop keeps the other attributes in order and returns the last overlay attribute |
| MouseOverlay.CtrlBIdAccepted | src/PlayerKeybind.cs:129-140 | Validate accepts an id containing `<ctrlB>` |
| MouseOverlay.CtrlBIdBreaksOverlay | src/SaveAndLoadHooks.cs:327-334 | such an id's entry does not survive the overlay round trip |
| LateLoad.DropId | src/SaveAndLoadHooks.cs:386-391 | removing an id's unbound entries keeps exactly the other ids |
| LateLoad.WalkFailedPrefix | src/SaveAndLoadHooks.cs:392-415 | once a backward removal loop throws, the entries before that point are all kept |
| LateLoad.OtherBound | src/SaveAndLoadHooks.cs:392-399 | the pending tuples of other ids |
| LateLoad.ConsumeBoundKept | src/SaveAndLoadHooks.cs:392-399 | without an exception, exactly the other ids' tuples stay pending; after one, some tuple is still pending |
| LateLoad.ConsumeBoundFails | src/SaveAndLoadHooks.cs:397 | a tuple of the keybind whose element id does not parse makes the loop throw |
| LateLoad.ConsumeBoundNone | src/SaveAndLoadHooks.cs:392-399 | with no tuple of the keybind nothing changes |
| LateLoad.SavedBinding | src/SaveAndLoadHooks.cs:392-399 | a binding comes only from one of the keybind's own pending tuples, and it always targets the keybind's action |
| LateLoad.ConsumeBoundFirstWins | src/SaveAndLoadHooks.cs:392-399 | without an exception, the action's first element map afterwards is the one the earliest of the keybind's pending tuples gives, or the first one it had when no tuple of the keybind parses (`BindingAfter`): the walk runs backwards, so the earliest tuple is applied last |
| LateLoad.ConsumeBoundFailedPrefix | src/SaveAndLoadHooks.cs:392-399 | a throw keeps every tuple before it |
| LateLoad.OtherEntries | src/SaveAndLoadHooks.cs:406-415 | the unknown mouse entries of other ids |
| LateLoad.ConsumeMouseKept | src/SaveAndLoadHooks.cs:406-415 | without an exception, exactly the other ids' mouse entries stay unknown |
| LateLoad.ConsumeMouseKeptSome | src/SaveAndLoadHooks.cs:406-415 | the loop keeps only entries it was given |
| LateLoad.ConsumeMouseEntry | src/SaveAndLoadHooks.cs:406-415 | the keybind's own written entry is applied and removed |
| LateLoad.ConsumeMouseFailedPrefix | src/SaveAndLoadHooks.cs:406-415 | a throw keeps every entry before it |
| LateLoad.SavedButton | src/SaveAndLoadHooks.cs:406-415 | a button comes only from one of the keybind's own unknown entries |
| LateLoad.ConsumeMouseFirstWins | src/SaveAndLoadHooks.cs:406-415 | without an exception, the setup's mouse keys afterwards are the old ones with the keybind's key set to the button of the earliest of its entries, or unchanged when it has none (`MouseAfter`) |
| LateLoad.MouseStepAfter | src/SaveAndLoadHooks.cs:408-414 | one more iteration of the backward mouse walk extends `MouseAfter` to one more entry |
| LateLoad.DropIdAbsent | src/SaveAndLoadHooks.cs:386-391 | removing an id that has no unbound entry changes nothing, so a second removal is a no-op |
| LateLoad.OtherBoundAbsent | src/SaveAndLoadHooks.cs:392-399 | dropping the tuples of an id with no pending tuple changes nothing |
| LateLoad.OtherEntriesAbsent | src/SaveAndLoadHooks.cs:406-415 | dropping the mouse entries of an id with no unknown entry changes nothing |
| LateLoad.ConsumeBoundOthers | src/SaveAndLoadHooks.cs:392-399 | the tuple walk, finished or not, leaves the element maps of every other action as they were |
| LateLoad.ConsumeMouseOthers | src/SaveAndLoadHooks.cs:406-415 | the mouse walk, finished or not, changes no mouse key other than the keybind's own |
| SaveAndLoadHooks.CmData.constructor | src/SaveAndLoadHooks.cs:101-106 | a new record holds the map and empty pending lists |
| SaveAndLoadHooks.AddControllerMappingTo | src/SaveAndLoadHooks.cs:426-437 | the in-place update makes the map `AddControllerMapping`'s result, or throws iff that fails |
| SaveAndLoadHooks.AddMouseMappingTo | src/SaveAndLoadHooks.cs:439-443 | the in-place update of the setup's mouse mappings is `AddMouseMapping`'s result |
| SaveAndLoadHooks.LoadTuple | src/SaveAndLoadHooks.cs:214-221 | one tuple either becomes pending or is applied to the map |
| SaveAndLoadHooks.LoadTuples | src/SaveAndLoadHooks.cs:212-222 | the tuple loop leaves the map and the pending list as `LoadFrom` describes |
| SaveAndLoadHooks.DropUnbound | src/SaveAndLoadHooks.cs:386-391 | the backward loop removes exactly the keybind's unbound ids |
| SaveAndLoadHooks.BoundStepOn | src/SaveAndLoadHooks.cs:393-399 | one iteration over a pending tuple, in place |
| SaveAndLoadHooks.ConsumeBoundOf | src/SaveAndLoadHooks.cs:392-399 | the backward loop applies and removes the keybind's pending tuples as `ConsumeBound` describes |
| SaveAndLoadHooks.MouseStepOn | src/SaveAndLoadHooks.cs:408-414 | one iteration over an unknown mouse entry, in place |
| SaveAndLoadHooks.ConsumeMouseOf | src/SaveAndLoadHooks.cs:406-415 | the backward loop applies and removes the keybind's unknown mouse entries as `ConsumeMouse` describes |
| SaveAndLoadHooks.CollectLive | src/SaveAndLoadHooks.cs:125-142 | the counting loop over catalog indices 10 and up produces `LiveEntries` |
| SaveAndLoadHooks.Hooks.constructor | src/SaveAndLoadHooks.cs:112 | no records, no unknown mouse entries, options not loaded |
| SaveAndLoadHooks.Hooks.Pending | src/SaveAndLoadHooks.cs:146-151 | a key without a record has no pending entries |
| SaveAndLoadHooks.Hooks.OptionsLoaded | src/SaveAndLoadHooks.cs:360-365 | loading the options sets the flag and changes nothing else |
| SaveAndLoadHooks.Hooks.SaveControllerMap | src/SaveAndLoadHooks.cs:115-169 | nothing is written when the store is disabled, the category is not 0, or the map is a mouse map; otherwise the key holds the encoding of the live entries followed by the pending ones |
| SaveAndLoadHooks.Hooks.LoadControllerMap | src/SaveAndLoadHooks.cs:172-233 | unless skipped, a fresh empty record replaces the key's record; a stored value of another version is deleted; otherwise the map and the pending tuples are what `ReadRecord` loads |
| SaveAndLoadHooks.Hooks.ControlSetupToString | src/SaveAndLoadHooks.cs:283-299 | the host's text, followed by one overlay attribute holding the modded and then the unknown entries when there are any; the attribute parses back to those entries |
| SaveAndLoadHooks.Hooks.ControlSetupFromString | src/SaveAndLoadHooks.cs:301-358 | all overlay attributes are removed (an empty list becomes null); the last one's entries are applied; if it does not throw, the setup's unknown entries are replaced, or removed when there are none; a wrong version changes nothing else |
| SaveAndLoadHooks.Hooks.LateLoadRecord | src/SaveAndLoadHooks.cs:374-416 | a record of an invalid player is untouched; otherwise the keybind's unbound ids are dropped, its tuples applied and dropped, and on a keyboard map its unknown mouse entries applied and dropped |
| SaveAndLoadHooks.Hooks.ClearRecord | src/SaveAndLoadHooks.cs:376-416 | one pass of the late load's loop on a record: an invalid player's record keeps its pending lists; without an exception a valid player's record loses exactly the keybind's unbound ids and pending tuples, and its setup's unknown mouse entries lose exactly the keybind's on a keyboard map (`ClearedUnknowns`); in every case other actions' element maps, other mouse keys, the setups' attributes, the record table and the flag are kept, and unknown mouse lists only lose entries; the map is what the tuple walk leaves and, without an exception, binds the keybind's action as the earliest old pending tuple said (`BindingAfter`); every setup's `MouseAfter` of its unknown entries is kept; only the player's own setup may change, and every other record and map of the table is untouched (all in `RecordCleared`) |
| SaveAndLoadHooks.Hooks.ClearStep | src/SaveAndLoadHooks.cs:374-416 | one iteration of the loop over the records keeps what holds since the loop began (each record as it was, or without the keybind's entries; each unshared record's `BindingAfter` and each setup's `MouseAfter` as at the start) and adds the record it visits to those cleared |
| SaveAndLoadHooks.Hooks.StepKept | src/SaveAndLoadHooks.cs:374-416 | what ClearRecord promises of the visited record keeps every fact tracked since the loop began |
| SaveAndLoadHooks.Hooks.BindingsKept | src/SaveAndLoadHooks.cs:392-415 | clearing one record keeps each unshared record's `BindingAfter` and each setup's `MouseAfter` as at the start of the loop |
| SaveAndLoadHooks.Hooks.ClearRecords | src/SaveAndLoadHooks.cs:374-416 | the loop over the records, which stops at the first exception, leaves each record as it was or without the keybind's entries, and, without an exception, every valid player's record cleared, each unshared record's `BindingAfter` and each setup's `MouseAfter` as before the loop |
| SaveAndLoadHooks.Hooks.LoopFinished | src/SaveAndLoadHooks.cs:374-416 | what the finished loop means for the state before it: exactly the keybind's pending entries are gone from valid players' records, the rest is as it was |
| SaveAndLoadHooks.Hooks.MapBindingsFinished | src/SaveAndLoadHooks.cs:392-399 | after the loop, without an exception, a valid player's unshared record binds the keybind's action as the earliest of its old pending tuples said |
| SaveAndLoadHooks.Hooks.MouseBindingsFinished | src/SaveAndLoadHooks.cs:404-415 | after the loop, without an exception, a valid keyboard record's setup holds under the keybind's mouse key the button of the earliest of its old unknown entries, and its other keys as before |
| SaveAndLoadHooks.Hooks.LateLoadKeybindData | src/SaveAndLoadHooks.cs:367-424 | does nothing before the options load or for a vanilla keybind; invalid players' records keep their pending lists; other actions' element maps, other mouse keys and the setups' attributes never change; otherwise, without an exception, every valid player's record loses exactly the keybind's unbound ids and pending tuples, each setup's unknown mouse entries stay or lose exactly the keybind's, and no unknown keyboard mouse entry of the keybind remains; a valid player's record whose map no other record shares binds the keybind's action as the earliest of its old pending tuples said (`BindingAfter`), and a valid keyboard record's setup holds, under the keybind's mouse key, the button of the earliest of its old unknown entries (`MouseAfter`) |
| SaveAndLoadHooks.Hooks.ClearUnloadedKeys | src/SaveAndLoadHooks.cs:445-453 | a keyboard setup's unknown mouse entries are forgotten, a gamepad setup's kept; the record under the setup's key is removed |

## Left out

- InitHooks and the IL rewrite of the mouse writer (src/SaveAndLoadHooks.cs:19-37, 235-261) are runtime patching. The hooked methods are plain calls. The text the host's ToString writes is an input (`Written`).
- RewiredUserDataStore_AllActionIds_Hook (src/SaveAndLoadHooks.cs:81-95) is a cache over the host's list of vanilla actions.
- Logging (`Plugin.Logger`, `Debug.Log`, `Debug.LogException`) has no effect on state.
- Bound, Unbound, CurrentBindingName, CheckRawPressed and the Keyboard, Gamepad and CurrentBinding accessors (src/PlayerKeybind.cs:211-342) poll live input or format display text from host state.
- Assigning default presets is an empty TODO in the source (src/SaveAndLoadHooks.cs:419-422). Presets are stored in the keybind and never applied.
- Description, MapSuppressed and SleepSuppressed (src/PlayerKeybind.cs:192-197) are plain properties the core never reads.
- The read-only view `Keybinds()` returns the catalog unchanged.
- How the host formats its own attributes, and how it splits a saved setup into attributes, are host code. The unrecognised attributes are an input.
- Dictionary enumeration order is the `order` parameter of the late load. The order of a setup's mouse mappings is the order of the `pairs` argument.
- GetControllerMapPlayerPrefsKey is host code: the key is the `hostKey` parameter.
- The host queries UsingGamepad, GetActionElement and CheckForAssignmentConflict are uninterpreted parameters.
- The HideConflict predicates are a sequence of settings kept beside the catalog. A keybind datatype cannot contain a function of keybinds.
- PlayerKeybinds.Registry.Create: the action-id counter does not wrap at 2^31. That would take more than two billion registrations.
- SerializeFilter.RemoveModdedEntries: the entries are removed from a copy of the serialised list, not from the host's list in place.
- MouseOverlay.MouseSaveThenLoad: assumes ids without `<ctrlB>`, which Validate does not enforce. `CtrlBIdBreaksOverlay` shows the failing case.
- ControllerRecords.SaveThenLoad: the saved unbound ids are not restored, because the load path skips them.
- PlayerKeybinds.ConflictsWith: symmetry is not stated, because the source does not have it (`ConflictsWithNotSymmetric`).
- PlayerKeybinds.ConflictsWith: a player number outside the setup array, or an otherPlayerNumber below -1, makes the source index out of range and throw (src/PlayerKeybind.cs:263-267). The model requires valid player numbers and does not model that exception.
- PlayerKeybinds.VisiblyConflictsWith: the same out-of-range exception is not modelled, for the same reason.
- Host.ParseElementType: .NET's `Enum.TryParse` also accepts numeric text (even for values no member has), surrounding white space and comma-separated lists of names. Only member names are modelled, and those are all the save path writes.
- Host.ParseAxisRange: narrowed in the same way as ParseElementType.
- SaveAndLoadHooks.Hooks.LateLoadKeybindData: the binding the keybind's action ends up with is stated for records whose controller map no other record shares. When two records hold the same map, the later record's tuples are applied over the earlier one's; for those maps only the other actions are promised to stay.
- Registration.Register: the resulting binding is stated for unshared maps only, as for LateLoadKeybindData.
- Registration.RegisterSharedPreset: the resulting binding is stated for unshared maps only, as for LateLoadKeybindData.
- Registration.RegisterWithoutPresets: the resulting binding is stated for unshared maps only, as for LateLoadKeybindData.
- MouseOverlay.MouseMappingsRoundTrip: covers setups whose mouse mappings all belong to registered modded keybinds with a bound button. Vanilla mappings go into the host's own text, which is host code.
