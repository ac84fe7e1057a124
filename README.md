# Field-state engine of Hi-StandardForm, in Dafny

This project models the field-state engine of `src/composables/FieldData.ts`:
the module-level `fieldData` store and `activeField` pointer, and the
operations on them:

- `executeHook`, `getFieldDataAttr` and `setFieldDataAttr`;
- `updateButtonStates`;
- `buildAndSetFieldData`, including the navigation-button merge;
- `updateActiveFieldListOptions`;
- the hook-driven operations `setValue`, `computeFieldData`,
  `clearFieldData`, `onFieldCondition` and `setActiveField`.

The model follows the code as written, quirks included.

Layout, one module per file:

- `values.dfy` (`Values`): JavaScript values as the engine sees them, with
  truthiness, `||` and hand-written `isEmpty`. `isEqual` is Dafny's
  structural `==` on these values.
- `field_interfaces.dfy` (`FieldInterfaces`): the declarations of
  `src/router/FieldInterfaces.ts` as datatypes.
  - A definition carries its set of own keys, because the `in` gates of
    the code test it.
  - Author-supplied callbacks are represented by an id, and one total
    function `Invoke` says what each callback returns for a given snapshot
    of the field's entry and of the store.
- `nav_buttons.dfy` (`NavButtons`): the button merge of lines 158-191, as
  pure functions with their properties.
- `field_store.dfy` (`FieldStore`): the store and the pure operations on
  it.
  - A key holds either a reference to a record object or a raw value.
    Whole-entry overwrites are representable, and the id and proxyID of a
    field share one record object.
  - Also here: snapshots, `executeHook`, `getFieldDataAttr`, the
    assignments of `setFieldDataAttr`, the nested loops of
    `updateButtonStates` as recursive functions, and the state the build
    loop leaves.
- `pipelines.dfy` (`Pipelines`): every operation as a function from a
  `World` to its successor and the settled outcome of its promise.
  - A `World` is the store, the pointer and a trace of hook calls, writes,
    button refreshes and pointer assignments.
  - Each `await` is one step.
  - Every state change goes through `Do`, which applies one logged step.
- `pipeline_laws.dfy` (`PipelineLaws`): what the operations promise.
  - The order of their calls and writes.
  - Their gates and outcomes.
  - The frame property `Follows`: the final state is exactly the replay of
    the logged steps, so nothing changes that the trace does not show.
- `field_data.dfy` (`FieldData`): the composable as a class.
  - `fieldData`, the record objects and `activeField` are fields that the
    methods update in place.
  - `DeleteAllKeys` is the key-deletion loop, `ButtonProps` the push loop
    and `RefreshRecord`/`RefreshButton` the nested refresh loops.
  - Each method is proved to leave exactly the state, and return exactly
    the outcome, of its `Pipelines` or `FieldStore` counterpart.

Consequences of the code as written, proved in the model:

- `setFieldDataAttr` replaces the WHOLE entry under the field's id (and the
  proxyID) with the bare value (`WriteDropsRecord`). After that, every read
  there is `undefined` or throws.
- Its gate `attr in field` tests the keys of the DEFINITION.
  - `init`, `errors`, `formValue`, `listOptions`, `isAvailable`, `isDirty`
    and `intLastTimeLoaded` are not definition keys, so those writes are
    normally no-ops (`WriteGate`).
  - In particular `init` normally never becomes true, and the default-value
    sequence reruns on every activation (`SeedGate`).
- `isDirty` is written as `isEqual(val, old formValue)`, which is true when
  the value is UNCHANGED (`SetValueSteps`).
- For a definition with a `helpText` key, an activation whose seeded
  `setValue` reaches its help-text hook always rejects
  (`HelpTextKeyBreaksSeeding`). That write replaced the record, and the
  'default' button refresh that follows throws.

Behaviour of the code that its names suggest otherwise, kept as written:

- Reading an unknown id throws rather than yielding an empty value (lines
  68 and 70). This is the `Fails` read and a `Rejected` outcome.
- A write replaces the entry rather than one attribute (lines 122 and 124).
- The write gate is the definition's key set, not the id being known
  (line 120).
- `isDirty` is equality rather than inequality (line 218).
- A button predicate missing for the event makes the refresh throw rather
  than being skipped (line 90).
- `dynamicHelpText` and `updateHelpTextOnValue` always write, falling back
  to the static help text (lines 230 and 323).
- `onValueUpdate` writes only a truthy result (line 227).
- The proxy is shared through one record object at build time (lines
  193-196). Writes afterwards duplicate the raw value under both keys
  (lines 121-124).

## Model

| member | source | states |
|---|---|---|
| Values.OrTruthy | src/composables/FieldData.ts:220 | `a \|\| b` is truthy exactly when an operand is, and is one of its operands |
| Values.OrNull | src/composables/FieldData.ts:256 | `v \|\| null` is never `undefined`, and is `null` exactly for falsy `v` |
| Values.NonEmptyIsTruthy | src/composables/FieldData.ts:249-253 | a value that is not empty in lodash's sense is truthy |
| Values.Truthy | src/composables/FieldData.ts:227 | JavaScript truthiness: `undefined`, `null`, `false`, `0` and `''` are falsy, everything else truthy; used through `OrTruthy`, `OrNull`, `VetoValues` |
| Values.IsEmpty | src/composables/FieldData.ts:244-250 | lodash `isEmpty` on the model's values; `NonEmptyIsTruthy` relates it to truthiness |
| NavButtons.Shown | src/composables/FieldData.ts:163-167 | the hide filter never lengthens the default list |
| NavButtons.Candidates | src/composables/FieldData.ts:162-172 | the buttons written into `allButtons`, defaults first; `LastIndexOfAppend` and `MergedDropsHidden` state what they contain |
| NavButtons.ShownMembers | src/composables/FieldData.ts:163-167 | a button survives the hide filter iff it is a default button whose name is not in `navButtons.hide` |
| NavButtons.LastIndexOf | src/composables/FieldData.ts:170-174 | the reference position of the last button with an index: -1 or a position in the list |
| NavButtons.LastIndexOfSpec | src/composables/FieldData.ts:170-174 | the position found holds that index and no later button does; -1 means no button does |
| NavButtons.IndexTable | src/composables/FieldData.ts:170-174 | `allButtons`, keyed by index; `IndexTableSpec` states it maps each index to the last button with it |
| NavButtons.IndexTableSpec | src/composables/FieldData.ts:170-174 | `allButtons` holds exactly the indices that occur, each mapped to the LAST button written with it |
| NavButtons.InsertKeyMembers | src/composables/FieldData.ts:177-178 | inserting a key into the sorted key list adds exactly that key |
| NavButtons.InsertKeyAscending | src/composables/FieldData.ts:177-178 | inserting a key keeps the key list strictly ascending |
| NavButtons.SortedIndicesSpec | src/composables/FieldData.ts:177-178 | the sort order is strictly ascending and lists exactly the indices that occur |
| NavButtons.MergedButtons | src/composables/FieldData.ts:169-178 | the buttons in display order; `MergedStrictlyAscending` and `MergedLastWins` state their order and contents |
| NavButtons.TableKeysAreIndices | src/composables/FieldData.ts:170-174 | every table entry is a candidate button stored under its own index, and every candidate's index is a key |
| NavButtons.MergedStrictlyAscending | src/composables/FieldData.ts:177-178 | the merged buttons are in strictly ascending index order, so there is one button per index |
| NavButtons.MergedLastWins | src/composables/FieldData.ts:169-178 | an index appears in the merge iff some candidate carries it, and the button there is the last candidate with it |
| NavButtons.MergedDropsHidden | src/composables/FieldData.ts:162-175 | every merged button is a custom button or a default button whose name is not hidden |
| NavButtons.LastIndexOfAppend | src/composables/FieldData.ts:170 | last positions in `[...defaultBtns, ...customBtns]` are those in the custom part when the index occurs there, else those in the defaults |
| NavButtons.CustomReplacesDefault | src/composables/FieldData.ts:169-172 | at a custom button's index the merge holds the last custom button with that index, replacing any default |
| NavButtons.InitialProps | src/composables/FieldData.ts:179-190 | the resolved state pushed for one definition; `NavButtonPropsShape` states its fields |
| NavButtons.NavButtonProps | src/composables/FieldData.ts:177-191 | the initial button states of a field; `NavButtonPropsShape` states their number, order and fields |
| NavButtons.NavButtonPropsShape | src/composables/FieldData.ts:177-191 | one state per merged button, ascending by index: colour 'primary' whatever is declared, enabled, visible, slot/size/cssClass or 'start'/'large'/'', btnRef the definition |
| FieldStore.ExecuteHook | src/composables/FieldData.ts:42-47 | a definition without the hook key or without a function there yields `undefined` and cannot throw; only a callback that is actually run can throw |
| FieldStore.Snapshot | src/composables/FieldData.ts:44 | the own entry a hook is shown, as it is at the call; `HookSeesCopies` states a hook depends only on it and `StoreSnapshot` |
| FieldStore.StoreSnapshot | src/composables/FieldData.ts:45 | the whole store a hook is shown, as it is at the call |
| FieldStore.HookIgnoresProxy | src/composables/FieldData.ts:42-47 | a hook's outcome does not depend on the definition's proxyID: it is given the OWN slot, never the proxy's |
| FieldStore.HookSeesCopies | src/composables/FieldData.ts:43-46 | two stores that look the same through the entry and store a hook is shown give the same hook outcome |
| FieldStore.ReadSlot | src/composables/FieldData.ts:68-70 | a read fails exactly on an unknown key or a nullish raw entry; any other raw entry reads `undefined`; only a record yields buttons |
| FieldStore.GetFieldDataAttr | src/composables/FieldData.ts:66-72 | the read throws exactly when the key read (the proxyID when `useProxy` holds and it is truthy, the own id otherwise) is unknown or holds a nullish raw value; only `navButtonProps` yields buttons |
| FieldStore.ReadWithoutProxy | src/composables/FieldData.ts:66-72 | without a truthy proxyID (none, or the empty string) `useProxy` makes no difference and the own slot is read |
| FieldStore.SetFieldDataAttr | src/composables/FieldData.ts:120-128 | the keys assigned are none unless `attr` is a definition key; then the own id (and the proxyID if truthy and propagating), each holding the bare value; other keys unchanged |
| FieldStore.WriteGate | src/composables/FieldData.ts:120-128 | a write whose attribute is not a key of the definition leaves the store unchanged |
| FieldStore.WriteKeepsValid | src/composables/FieldData.ts:120-124 | a write leaves every record reference valid |
| FieldStore.ProxyWriteAgrees | src/composables/FieldData.ts:121-124 | after a propagated write through a proxied field, its own slot and the proxy slot read the same for every attribute |
| FieldStore.WriteDropsRecord | src/composables/FieldData.ts:122-124 | after a gated write, any attribute read at the own id is `undefined`, or throws for a nullish value: the record is gone |
| FieldStore.ButtonRefreshedTransitive | src/composables/FieldData.ts:84-96 | the allowed change of a button by a refresh composes |
| FieldStore.StoreRefreshedTransitive | src/composables/FieldData.ts:84-96 | the allowed change of the store by a refresh composes |
| FieldStore.RefreshEntries | src/composables/FieldData.ts:87-94 | the inner loop keeps the keys, the number of records and the number of buttons |
| FieldStore.RefreshEntriesSpec | src/composables/FieldData.ts:87-94 | the inner loop changes only record `slot`, and only the attributes the button's state table declares |
| FieldStore.RefreshEntriesKeeps | src/composables/FieldData.ts:87-94 | the inner loop for button `k` leaves every other button unchanged, and on button `k` every attribute no remaining entry names |
| FieldStore.RefreshEntriesWrites | src/composables/FieldData.ts:87-94 | an entry no later entry shadows is passed only if its predicate for the event exists and returned; once it returned `v`, called on the record and store as they then are, the attribute ends up `v` even if a later entry throws |
| FieldStore.RefreshFrom | src/composables/FieldData.ts:84-96 | the outer loop keeps the keys and the number of records |
| FieldStore.RefreshFromSpec | src/composables/FieldData.ts:84-96 | the outer loop changes only the own record: name, index, slot, size, cssClass, btnRef and undeclared attributes stay, stateless buttons stay whole |
| FieldStore.RefreshFromKeepsEarlier | src/composables/FieldData.ts:84-96 | the outer loop from button `k` leaves the buttons before `k` unchanged |
| FieldStore.RefreshFromWrites | src/composables/FieldData.ts:84-96 | with no `state` table on the buttons before `b`, button `b` ends up as its own inner loop leaves it, and the outer loop passes it only if that loop did |
| FieldStore.UpdateButtonStates | src/composables/FieldData.ts:82-97 | keys unchanged; when the own slot has no button list it throws and changes nothing |
| FieldStore.UpdateButtonStatesSpec | src/composables/FieldData.ts:82-97 | when the own slot holds buttons, only its record changes, as a refresh allows |
| FieldStore.UpdateButtonStatesWrites | src/composables/FieldData.ts:82-97 | on the first button with a `state` table, the first entry's attribute, when no later entry names it, is set to what that entry's predicate returned when called with the own slot and the store as they were before the refresh; the refresh succeeds only if that predicate exists and returned |
| FieldStore.MissingHandlerEntriesThrow | src/composables/FieldData.ts:90 | a state entry without a predicate for the event makes the inner loop throw |
| FieldStore.MissingHandlerFromThrows | src/composables/FieldData.ts:84-96 | such an entry on any later button makes the outer loop throw |
| FieldStore.MissingHandlerThrows | src/composables/FieldData.ts:82-97 | `updateButtonStates` throws when any button of the field has a state entry without a predicate for the event |
| FieldStore.StatelessButtonsUnchanged | src/composables/FieldData.ts:85 | a record whose buttons have no `state` table is refreshed to itself |
| FieldStore.AllKeysMembers | src/composables/FieldData.ts:193-196 | a key is occupied by the built list iff some field's id or truthy proxyID is that key |
| FieldStore.BuiltEntriesShape | src/composables/FieldData.ts:193-196 | the bound keys are exactly the fields' ids and proxyIDs, each referring to the record of the LAST field occupying it |
| FieldStore.BuiltRecordAt | src/composables/FieldData.ts:145-157 | built record `i` is the initial record of field `i` |
| FieldStore.InitialData | src/composables/FieldData.ts:145-157 | the record pushed for field `i`; `BuiltFieldReadsInitial` states its values |
| FieldStore.BuiltPush | src/composables/FieldData.ts:144-197 | one iteration pushes one record and binds the proxyID, then the id, to it |
| FieldStore.BuiltStoreIsBuilt | src/composables/FieldData.ts:138-197 | the built store is valid: one record per field in order, keys exactly ids and proxyIDs, each bound to the last field declaring it |
| FieldStore.BuiltSlot | src/composables/FieldData.ts:193-196 | after a build a key refers to the record of the last field occupying it |
| FieldStore.BuiltOwnRecord | src/composables/FieldData.ts:193-196 | a field that is the last with its id finds its own initial record under that id |
| FieldStore.BuiltFieldReadsInitial | src/composables/FieldData.ts:145-157 | that record has index = list position, init false, helpText '', not required, no errors, available, null computedValue/formValue/defaultValue, no options |
| FieldStore.BuiltFieldReadsButtons | src/composables/FieldData.ts:177-196 | that field reads the merged button states at its own id |
| FieldStore.BuiltProxySharesRecord | src/composables/FieldData.ts:193-196 | a field last to declare both its id and proxyID has both keys on one record, so proxy and own reads agree |
| Pipelines.HookStep | src/composables/FieldData.ts:43-46 | a hook call changes neither the store nor the pointer, because a callback is modelled as a function of the entry and store it is shown (the source's copies are shallow; see Left out) |
| Pipelines.WriteStep | src/composables/FieldData.ts:104-129 | a write changes neither the pointer nor the record objects |
| Pipelines.RefreshStep | src/composables/FieldData.ts:82-97 | a refresh changes neither the pointer nor any key |
| Pipelines.Vetoes | src/composables/FieldData.ts:216 | the `valueOk != undefined && !valueOk` test; `VetoValues` states exactly which values veto |
| Pipelines.DefaultArgument | src/composables/FieldData.ts:311-315 | the argument passed on to `setValue`; `DefaultArgumentShape` states it |
| Pipelines.SetValue | src/composables/FieldData.ts:205-231 | extends the trace, keeps the store valid and the pointer; with no active field it does nothing and resolves |
| Pipelines.StoreValue | src/composables/FieldData.ts:218-230 | extends the trace, keeps the store valid and the pointer |
| Pipelines.FollowUp | src/composables/FieldData.ts:225-230 | extends the trace, keeps the store valid and the pointer |
| Pipelines.ComputeFieldData | src/composables/FieldData.ts:238-258 | extends the trace, keeps the store valid and the pointer |
| Pipelines.ClearFieldData | src/composables/FieldData.ts:260-267 | extends the trace, keeps the store valid and the pointer; with no active field nothing at all happens |
| Pipelines.OnFieldCondition | src/composables/FieldData.ts:274-291 | always resolves (the try/catch swallows every throw); extends the trace, keeps the pointer |
| Pipelines.Seed | src/composables/FieldData.ts:309-315 | extends the trace, keeps the store valid and the pointer |
| Pipelines.SetActiveField | src/composables/FieldData.ts:297-330 | extends the trace and keeps the store valid |
| Pipelines.Arrive | src/composables/FieldData.ts:306-316 | extends the trace, keeps the store valid and the pointer |
| Pipelines.Settle | src/composables/FieldData.ts:319-329 | extends the trace, keeps the store valid and the pointer |
| Pipelines.OptionList | src/composables/FieldData.ts:131-133 | the stored list is the given options, in order |
| Pipelines.UpdateActiveFieldListOptions | src/composables/FieldData.ts:131-133 | extends the trace, keeps the store valid and the pointer |
| PipelineLaws.FollowUpFollows | src/composables/FieldData.ts:225-230 | the list and help-text step ends in the replay of its logged steps |
| PipelineLaws.StoreValueFollows | src/composables/FieldData.ts:218-230 | the store-value part ends in the replay of its logged steps |
| PipelineLaws.SetValueFollows | src/composables/FieldData.ts:205-231 | `setValue` changes nothing but what its logged writes and refresh change |
| PipelineLaws.ComputeFieldDataFollows | src/composables/FieldData.ts:238-258 | `computeFieldData` changes nothing but what its logged writes change |
| PipelineLaws.ClearFieldDataFollows | src/composables/FieldData.ts:260-267 | `clearFieldData` changes nothing but what its logged writes change |
| PipelineLaws.OnFieldConditionFollows | src/composables/FieldData.ts:274-291 | `onFieldCondition` changes nothing but what its logged writes change |
| PipelineLaws.SettleFollows | src/composables/FieldData.ts:319-329 | the end of `setActiveField` ends in the replay of its logged steps |
| PipelineLaws.SeedFollows | src/composables/FieldData.ts:309-315 | the seeding of the default value ends in the replay of its logged steps |
| PipelineLaws.ArriveFollows | src/composables/FieldData.ts:306-329 | the part after the pointer assignment ends in the replay of its logged steps |
| PipelineLaws.SetActiveFieldFollows | src/composables/FieldData.ts:297-330 | `setActiveField` changes nothing but what its logged steps change, the pointer assignment among them |
| PipelineLaws.SetValueBegins | src/composables/FieldData.ts:206-214 | no active field: nothing happens; otherwise the first steps are the null `errors` write and then `onValue` |
| PipelineLaws.VetoValues | src/composables/FieldData.ts:216 | exactly `false`, `0` and `''` veto; `null` and `undefined` do not |
| PipelineLaws.DefaultArgumentShape | src/composables/FieldData.ts:311-315 | a string default becomes the Option with that label and value, anything else is passed as is; even `''` becomes a truthy Option |
| PipelineLaws.SetValueVeto | src/composables/FieldData.ts:212-216 | `onValue` returning a defined falsy value iff the run resolves after just those two steps, with the store as the errors write left it |
| PipelineLaws.SetValuePassesOn | src/composables/FieldData.ts:212-216 | past the veto, `setValue` is the store-value part started after the errors write and the `onValue` call |
| PipelineLaws.FollowUpResolved | src/composables/FieldData.ts:225-230 | a resolved follow-up ran `onValueUpdate` on the store as it was, wrote its result to `listOptions` (no proxy) only when truthy, ran `updateHelpTextOnValue` on the store after that write, and wrote `help \|\| helpText`; both results named exactly |
| PipelineLaws.SetValueSteps | src/composables/FieldData.ts:212-230 | past the veto the steps are errors, onValue, isDirty := `val` EQUALS the formValue read after the errors write, formValue := `val \|\| null`, 'onValue' refresh, then the follow-up, with every hook result named as the hook's outcome on the store at that step |
| PipelineLaws.StoreValueSteps | src/composables/FieldData.ts:218-230 | a resolved store-value part wrote isDirty and formValue, refreshed, and ran the follow-up on the refreshed store, each hook result named exactly |
| PipelineLaws.ComputeRequiredEmpty | src/composables/FieldData.ts:240-247 | truthy `isRequired` with an empty formValue iff false without `validation`; then only isRequired and the ["Field can't be empty"] errors were written, unpropagated |
| PipelineLaws.ComputeOutcomes | src/composables/FieldData.ts:238-257 | false never calls `computedValue`; true holds exactly when the gates pass (the form value is readable, `isRequired` does not flag it, and, on the store after the isRequired write, validation returns empty and `computedValue` returns); then `required \|\| false` is stored truthy iff the hook result is, and `computedValue \|\| null` (never undefined) is written last, final store and trace given exactly |
| PipelineLaws.ComputeResolvedSteps | src/composables/FieldData.ts:241-257 | a `computeFieldData` that resolved true is described exactly by those steps and values |
| PipelineLaws.ComputeGatesResolve | src/composables/FieldData.ts:240-257 | conversely, when the form value is readable, `isRequired` does not flag it, validation returns empty and `computedValue` returns, the call resolves true with those steps and that final store |
| PipelineLaws.ComputeValidationFails | src/composables/FieldData.ts:249-253 | a non-empty (hence truthy) `validation` result is written to `errors` with propagation and the result is false |
| PipelineLaws.ClearSteps | src/composables/FieldData.ts:262-266 | null is written to errors, formValue and computedValue, in that order, with propagation |
| PipelineLaws.ClearEffect | src/composables/FieldData.ts:260-267 | the keys of the three writes hold bare null, every other key is untouched; no active field leaves the store as it was |
| PipelineLaws.ClearIdempotent | src/composables/FieldData.ts:260-267 | clearing twice leaves the store as clearing once |
| PipelineLaws.ConditionTrue | src/composables/FieldData.ts:276-280 | true iff `condition` yields undefined or truthy; then only `isAvailable` := true was written |
| PipelineLaws.ConditionFalse | src/composables/FieldData.ts:281-287 | otherwise onConditionFalse, defaultOutput and defaultComputedOutput run in order, then formValue, computedValue (null if falsy) and isAvailable := false are written, and the result is false |
| PipelineLaws.ConditionThrowWritesNothing | src/composables/FieldData.ts:275-290 | a throw in any hook gives false and leaves the store untouched |
| PipelineLaws.SetActiveFieldBegins | src/composables/FieldData.ts:298-306 | a throwing `unload` rejects before the pointer moves; otherwise the pointer is the new field and the run begins unload (only if a field was active), assignment, onload |
| PipelineLaws.SeedGate | src/composables/FieldData.ts:306-319 | the seeding runs exactly when `init` reads falsy, writing init := true (a no-op without an `init` key) then calling defaultValue; otherwise the run goes straight to the refresh |
| PipelineLaws.FollowUpOverwrites | src/composables/FieldData.ts:230 | a resolved follow-up leaves a raw value under the own id of a field with a `helpText` key |
| PipelineLaws.StoreValueOverwrites | src/composables/FieldData.ts:218-230 | so does a resolved store-value part |
| PipelineLaws.SetValueOverwritesOwnSlot | src/composables/FieldData.ts:229-230 | a resolved `setValue` that ran its help-text hook replaced the own entry by a raw value |
| PipelineLaws.RefreshOfRawThrows | src/composables/FieldData.ts:319 | with a raw own entry the 'default' refresh throws (no `navButtonProps` to iterate) and the rest of `setActiveField` is skipped |
| PipelineLaws.SeedHelpText | src/composables/FieldData.ts:308-319 | a seeding whose `setValue` reached its help-text hook makes the activation reject |
| PipelineLaws.ArriveHelpText | src/composables/FieldData.ts:306-319 | the same after `onload` |
| PipelineLaws.HelpTextKeyBreaksSeeding | src/composables/FieldData.ts:297-330 | for a definition with a `helpText` key, an activation in which the seeded `setValue` ran its help-text hook always rejects |
| PipelineLaws.SettleCalls | src/composables/FieldData.ts:319-329 | the end of `setActiveField` never calls `updateHelpTextOnValue` |
| PipelineLaws.SettleSteps | src/composables/FieldData.ts:319-329 | when it resolves: the 'default' refresh succeeded, `dynamicHelpText` ran on the refreshed store, helpText := result or static text, `options` ran after that write, listOptions := result or [], intLastTimeLoaded := now; final store and trace given exactly |
| PipelineLaws.ListOptionsWrite | src/composables/FieldData.ts:131-133 | without a `listOptions` key on the active definition nothing changes; otherwise the own and proxy keys hold the bare list |
| FieldData.FieldDataComposable.constructor | src/composables/FieldData.ts:11-12 | an empty store and the pointer at `{}` |
| FieldData.FieldDataComposable.ExecuteHook | src/composables/FieldData.ts:20-48 | result and new state are those of `Pipelines.HookStep` |
| FieldData.FieldDataComposable.SetFieldDataAttr | src/composables/FieldData.ts:104-129 | new state is that of `Pipelines.WriteStep` |
| FieldData.FieldDataComposable.UpdateButtonStates | src/composables/FieldData.ts:82-97 | result and new state are those of `Pipelines.RefreshStep` |
| FieldData.FieldDataComposable.RefreshRecord | src/composables/FieldData.ts:84-96 | the button loop leaves the store `FieldStore.RefreshFrom` describes |
| FieldData.FieldDataComposable.RefreshButton | src/composables/FieldData.ts:87-94 | the state-table loop leaves the store `FieldStore.RefreshEntries` describes |
| FieldData.FieldDataComposable.ButtonProps | src/composables/FieldData.ts:177-191 | the push loop builds exactly `NavButtons.NavButtonProps` |
| FieldData.FieldDataComposable.DeleteAllKeys | src/composables/FieldData.ts:139-141 | the deletion loop empties the store |
| FieldData.FieldDataComposable.BuildAndSetFieldData | src/composables/FieldData.ts:135-198 | the store becomes `FieldStore.BuiltStore` (see `BuiltStoreIsBuilt`); pointer and trace unchanged |
| FieldData.FieldDataComposable.AddField | src/composables/FieldData.ts:144-197 | one record pushed and bound under the proxyID, then the id |
| FieldData.FieldDataComposable.SetValue | src/composables/FieldData.ts:205-231 | outcome and new state are those of `Pipelines.SetValue` |
| FieldData.FieldDataComposable.StoreValue | src/composables/FieldData.ts:218-230 | outcome and new state are those of `Pipelines.StoreValue` |
| FieldData.FieldDataComposable.FollowUp | src/composables/FieldData.ts:225-230 | outcome and new state are those of `Pipelines.FollowUp` |
| FieldData.FieldDataComposable.ComputeFieldData | src/composables/FieldData.ts:238-258 | outcome and new state are those of `Pipelines.ComputeFieldData` |
| FieldData.FieldDataComposable.ClearFieldData | src/composables/FieldData.ts:260-267 | new state is that of `Pipelines.ClearFieldData` |
| FieldData.FieldDataComposable.OnFieldCondition | src/composables/FieldData.ts:274-291 | outcome and new state are those of `Pipelines.OnFieldCondition` |
| FieldData.FieldDataComposable.SetActiveField | src/composables/FieldData.ts:297-330 | outcome and new state are those of `Pipelines.SetActiveField` |
| FieldData.FieldDataComposable.Arrive | src/composables/FieldData.ts:306-316 | outcome and new state are those of `Pipelines.Arrive` |
| FieldData.FieldDataComposable.Seed | src/composables/FieldData.ts:309-315 | outcome and new state are those of `Pipelines.Seed` |
| FieldData.FieldDataComposable.Settle | src/composables/FieldData.ts:319-329 | outcome and new state are those of `Pipelines.Settle` |
| FieldData.FieldDataComposable.UpdateActiveFieldListOptions | src/composables/FieldData.ts:131-133 | new state is that of `Pipelines.UpdateActiveFieldListOptions` |

## Left out

- Vue reactivity (`reactive`, and re-binding the exported `activeField`):
  UI plumbing. Store and pointer are plain fields.
- `console.warn` (lines 127 and 209) is a no-op.
- `new Date().getTime()` is the parameter `now` of `setActiveField`.
- lodash `isEmpty` and `isEqual` are foreign code.
  - `isEmpty` is defined on the model's values: nullish, booleans and
    numbers are empty; strings and arrays are empty when they have no
    elements; an Option object never is.
  - `isEqual` is structural equality of values.
- Promise scheduling is not modelled.
  - Each `await` is one sequential step, and a rejected or throwing
    callback is a `Threw` result.
  - Overlapping top-level calls (a second `setActiveField` before the
    first settles) are a concurrency matter.
  - Promise-valued button predicates, which line 90 does not await, are
    out of scope.
- Callback bodies are opaque: one total function of the callback, the
  entry snapshot and the store snapshot.
  - A callback therefore cannot change the store or call back into the
    engine.
  - The spread copies of lines 44-45 are shallow: the records inside the
    store copy, and the `navButtonProps`, `errors` and `listOptions`
    arrays inside the entry copy, are the live objects. A callback that
    mutates them changes the store; that is not modelled, and every lemma
    saying that a hook call leaves the store unchanged rests on it.
  - Callbacks are referred to by an id, because a function carried inside
    a button definition cannot be typed in Dafny. The button's predicates
    receive the store, which holds that button.
- Non-integer numbers: numbers are integers (indices, timestamps).
- Hooks and handlers no engine operation calls: `exitsForm`, `beforeNext`,
  `appearInSummary`, `summaryMapValue` and the button `clickHandler`.
  They are present only as hook names or definition keys.
- A button `state` key present but holding `null` is treated as absent. The
  code's `|| {}` gives the same empty loop.
- The keys of a button's `state` table are limited to `color`, `disabled`
  and `visible`, the attributes its declared type allows.
- Object keys ordering: `allButtons` is keyed by the numeric index and
  sorted by index afterwards. The model keys it by the integer index and
  reads it back in ascending order.
- Reads of a raw entry holding an Option or other object read `undefined`
  for every engine attribute. An author value that happens to carry a key
  such as `formValue` is not modelled.
- Numeric ids: the declared type of `id` and `proxyID` is
  `string | number`. Ids are modelled as the strings they become as keys,
  so a numeric id is its decimal string. A numeric proxyID `0`, which is
  falsy and so never used as a proxy, is therefore not modelled; the falsy
  empty-string proxyID is.
- FieldStore.RefreshEntriesSpec: states the frame of the inner loop only;
  the values written are stated by `RefreshEntriesWrites` and
  `RefreshEntriesKeeps`.
- FieldStore.RefreshFromSpec: states the frame of the outer loop only; the
  values written are stated by `RefreshFromWrites` and
  `RefreshFromKeepsEarlier`.
- FieldStore.UpdateButtonStatesSpec: states the frame only; the values
  written are stated by `UpdateButtonStatesWrites`, for the first button
  with a `state` table. For a later button the predicate sees the store as
  the earlier buttons left it, which `RefreshFromWrites` states only when
  the buttons before it have no table.
- `Pipelines.SetValue`, `Pipelines.StoreValue`, `Pipelines.FollowUp`,
  `Pipelines.ComputeFieldData`, `Pipelines.Seed`, `Pipelines.Arrive`,
  `Pipelines.Settle` and `Pipelines.SetActiveField`: their own contracts
  state only trace growth, validity and the pointer. What they do is stated
  by the `PipelineLaws` lemmas beside them.
