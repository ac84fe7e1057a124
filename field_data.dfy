/** The composable of src/composables/FieldData.ts as an object: the
    module-level `fieldData` dictionary and `activeField` pointer are its
    fields and the exported functions are its methods.  Every method changes
    the fields in place and is proved to do exactly what the corresponding
    function of the `Pipelines` and `FieldStore` modules describes; the
    properties of those functions are proved in `PipelineLaws`,
    `FieldStore` and `NavButtons`.

    The ghost `trace` logs each hook call, write, refresh and pointer
    assignment as it happens. */
module FieldData {
  import opened Values
  import opened FieldInterfaces
  import opened FieldStore
  import opened Pipelines
  import NavButtons

  class FieldDataComposable {
    /** `fieldData`: what each key holds. */
    var fieldData: map<Id, Entry>
    /** The record objects the keys refer to. */
    var records: seq<FieldDataInterface>
    /** `activeField`. */
    var activeField: FieldInterface
    /** What the author-supplied callbacks do. */
    const invoke: Invoke
    ghost var trace: seq<Step>

    ghost predicate Valid()
      reads this
    {
      Store(fieldData, records).Valid()
    }

    /** The state as the `Pipelines` functions see it. */
    ghost function St(): World
      reads this
    {
      World(Store(fieldData, records), activeField, trace)
    }

    /** The module's initial state: an empty store and the pointer at `{}`. */
    constructor (invoke: Invoke)
      ensures Valid() && this.invoke == invoke
      ensures St() == World(Store(map[], []), EmptyField, [])
    {
      fieldData := map[];
      records := [];
      activeField := EmptyField;
      this.invoke := invoke;
      trace := [];
    }

    /** `executeHook(field, hook)` (lines 20-48). */
    method ExecuteHook(field: FieldInterface, hook: HookName) returns (r: HookResult)
      requires Valid()
      modifies this
      ensures Valid()
      ensures (St(), r) == HookStep(invoke, old(St()), field, hook)
    {
      if HookKey(hook) in field.keys && hook in field.hooks {
        var st := Store(fieldData, records);
        r := invoke(field.hooks[hook], Snapshot(st, field.id), StoreSnapshot(st));
      } else {
        r := Ret(Undefined);
      }
      trace := trace + [Called(field, hook)];
    }

    /** `setFieldDataAttr(field, data, attr, canUpdateParentProxy)`
        (lines 104-129); the warning of the else branch is not modelled. */
    method SetFieldDataAttr(field: FieldInterface, data: Value, attr: WritableAttr, canUpdateParentProxy: bool)
      requires Valid()
      modifies this
      ensures Valid()
      ensures St() == WriteStep(invoke, old(St()), field, data, attr, canUpdateParentProxy)
    {
      if AttrKey(attr) in field.keys {
        if ProxyOf(field).Just? && canUpdateParentProxy {
          fieldData := fieldData[ProxyOf(field).value := Raw(data)];
        }
        fieldData := fieldData[field.id := Raw(data)];
      }
      trace := trace + [Wrote(field, attr, data, canUpdateParentProxy)];
    }

    /** `updateButtonStates(field, event)` (lines 82-97); `ok` is false when
        it throws. */
    method UpdateButtonStates(field: FieldInterface, event: Event) returns (ok: bool)
      requires Valid()
      modifies this
      ensures Valid()
      ensures (St(), ok) == RefreshStep(invoke, old(St()), field, event)
    {
      trace := trace + [Refreshed(field, event)];
      var buttons := GetFieldDataAttr(Store(fieldData, records), field, NavButtonProps, false);
      if !buttons.Buttons? {
        return false;
      }
      ok := RefreshRecord(fieldData[field.id].slot, event);
    }

    /** The outer loop of `updateButtonStates` (lines 84-96) over the buttons
        of record `slot`. */
    method RefreshRecord(slot: nat, event: Event) returns (ok: bool)
      requires Valid() && slot < |records|
      modifies this`records
      ensures Valid()
      ensures (Store(fieldData, records), ok) == RefreshFrom(invoke, old(Store(fieldData, records)), slot, 0, event)
    {
      ghost var start := Store(fieldData, records);
      var count := |records[slot].navButtonProps|;
      var k := 0;
      while k < count
        invariant Valid() && slot < |records|
        invariant count == |records[slot].navButtonProps| && k <= count
        invariant RefreshFrom(invoke, Store(fieldData, records), slot, k, event) == RefreshFrom(invoke, start, slot, 0, event)
        decreases count - k
      {
        var state := records[slot].navButtonProps[k].btnRef.state;
        if state.Just? {
          ok := RefreshButton(slot, k, state.value, event);
          if !ok {
            return;
          }
        }
        k := k + 1;
      }
      ok := true;
    }

    /** The inner loop of `updateButtonStates` (lines 87-94) over the
        `state` table of button `k` of record `slot`. */
    method RefreshButton(slot: nat, k: nat, entries: seq<StateEntry>, event: Event) returns (ok: bool)
      requires Valid() && slot < |records| && k < |records[slot].navButtonProps|
      requires records[slot].navButtonProps[k].btnRef.state == Just(entries)
      modifies this`records
      ensures Valid()
      ensures (Store(fieldData, records), ok)
        == RefreshEntries(invoke, old(Store(fieldData, records)), slot, k, entries, 0, event)
    {
      ghost var before := Store(fieldData, records);
      var j := 0;
      while j < |entries|
        invariant Valid() && slot < |records| && k < |records[slot].navButtonProps|
        invariant records[slot].navButtonProps[k].btnRef.state == Just(entries) && j <= |entries|
        invariant RefreshEntries(invoke, Store(fieldData, records), slot, k, entries, j, event)
          == RefreshEntries(invoke, before, slot, k, entries, 0, event)
        decreases |entries| - j
      {
        var e := entries[j];
        if event !in e.handlers {
          return false;
        }
        var result := invoke(e.handlers[event], Just(RecSnap(records[slot])), StoreSnapshot(Store(fieldData, records)));
        if result.Threw? {
          return false;
        }
        records := records[slot := WithButtonAttr(records[slot], k, e.attr, result.v)];
        j := j + 1;
      }
      ok := true;
    }

    /** The resolved buttons of a field, pushed one by one (lines 177-191). */
    static method ButtonProps(footer: seq<FieldNavButton>, field: FieldInterface) returns (props: seq<FieldDataButtonProps>)
      ensures props == NavButtons.NavButtonProps(footer, field)
    {
      var sorted := NavButtons.MergedButtons(footer, field);
      props := [];
      var b := 0;
      while b < |sorted|
        invariant 0 <= b <= |sorted| && |props| == b
        invariant forall j :: 0 <= j < b ==> props[j] == NavButtons.InitialProps(sorted[j])
      {
        props := props + [NavButtons.InitialProps(sorted[b])];
        b := b + 1;
      }
    }

    /** Lines 139-141: every key of the store is deleted, one at a time. */
    method DeleteAllKeys()
      modifies this`fieldData
      ensures fieldData == map[]
    {
      var keys := fieldData.Keys;
      while keys != {}
        invariant fieldData.Keys == keys
        decreases keys
      {
        var key :| key in keys;
        fieldData := fieldData - {key};
        keys := keys - {key};
      }
    }

    /** `buildAndSetFieldData(fields, footerButtons)` (lines 135-198): every
        key is deleted, then each field gets a fresh record, bound under its
        proxyID (when truthy) and then under its id. */
    method BuildAndSetFieldData(fields: seq<FieldInterface>, footer: seq<FieldNavButton>)
      modifies this
      ensures Store(fieldData, records) == BuiltStore(fields, footer)
      ensures Valid()
      ensures activeField == old(activeField) && trace == old(trace)
    {
      DeleteAllKeys();
      records := [];
      var i := 0;
      while i < |fields|
        invariant 0 <= i <= |fields| && |records| == i
        invariant fieldData == BuiltEntries(fields[..i])
        invariant records == BuiltRecords(fields[..i], footer)
        invariant activeField == old(activeField) && trace == old(trace)
      {
        AddField(i, fields[i], footer);
        BuiltPush(fields, footer, i);
        i := i + 1;
      }
      assert fields[..i] == fields;
      BuiltStoreIsBuilt(fields, footer);
    }

    /** One iteration of the loop of lines 145-197: the record of field `i`
        is built and bound under its proxyID, when truthy, and then its id. */
    method AddField(i: nat, field: FieldInterface, footer: seq<FieldNavButton>)
      requires |records| == i
      modifies this`records, this`fieldData
      ensures records == old(records) + [InitialData(i, field, footer)]
      ensures fieldData == Bind(old(fieldData), field, i)
    {
      var props := ButtonProps(footer, field);
      var initialData := FieldDataInterface(
        index := i,
        init := Bool(false),
        helpText := Str(""),
        isRequired := Bool(false),
        errors := Arr([]),
        isAvailable := Bool(true),
        computedValue := Null,
        listOptions := Arr([]),
        formValue := Null,
        defaultValue := Null,
        isDirty := Undefined,
        intLastTimeLoaded := Undefined,
        navButtonProps := props);
      records := records + [initialData];
      if ProxyOf(field).Just? {
        fieldData := fieldData[ProxyOf(field).value := Rec(i)];
      }
      fieldData := fieldData[field.id := Rec(i)];
    }

    /** `setValue(val)` (lines 205-231). */
    method SetValue(val: Value) returns (outcome: Outcome<()>)
      requires Valid()
      modifies this
      ensures Valid()
      ensures (St(), outcome) == Pipelines.SetValue(invoke, old(St()), val)
    {
      var field := activeField;
      if IsEmptyField(field) {
        return Resolved(());
      }
      SetFieldDataAttr(field, Null, Errors, true);
      var valueOk := ExecuteHook(field, HookName.OnValue);
      if valueOk.Threw? {
        return Rejected;
      }
      if Vetoes(valueOk.v) {
        return Resolved(());
      }
      outcome := StoreValue(field, val);
    }

    /** Lines 218-230 of `setValue`. */
    method StoreValue(field: FieldInterface, val: Value) returns (outcome: Outcome<()>)
      requires Valid()
      modifies this
      ensures Valid()
      ensures (St(), outcome) == Pipelines.StoreValue(invoke, old(St()), field, val)
    {
      var prev := GetFieldDataAttr(Store(fieldData, records), field, FormValue, true);
      if !prev.Val? {
        return Rejected;
      }
      SetFieldDataAttr(field, Bool(val == prev.v), IsDirty, true);
      SetFieldDataAttr(field, Or(val, Null), FormValue, true);
      var refreshed := UpdateButtonStates(field, Event.OnValue);
      if !refreshed {
        return Rejected;
      }
      outcome := FollowUp(field);
    }

    /** Lines 225-230 of `setValue`. */
    method FollowUp(field: FieldInterface) returns (outcome: Outcome<()>)
      requires Valid()
      modifies this
      ensures Valid()
      ensures (St(), outcome) == Pipelines.FollowUp(invoke, old(St()), field)
    {
      var listUpdate := ExecuteHook(field, OnValueUpdate);
      if listUpdate.Threw? {
        return Rejected;
      }
      if Truthy(listUpdate.v) {
        SetFieldDataAttr(field, listUpdate.v, ListOptions, false);
      }
      var helpText := ExecuteHook(field, UpdateHelpTextOnValue);
      if helpText.Threw? {
        return Rejected;
      }
      SetFieldDataAttr(field, Or(helpText.v, field.helpText), HelpText, true);
      outcome := Resolved(());
    }

    /** `computeFieldData()` (lines 238-258). */
    method ComputeFieldData() returns (outcome: Outcome<bool>)
      requires Valid()
      modifies this
      ensures Valid()
      ensures (St(), outcome) == Pipelines.ComputeFieldData(invoke, old(St()))
    {
      var field := activeField;
      var val := GetFieldDataAttr(Store(fieldData, records), field, FormValue, true);
      if !val.Val? {
        return Rejected;
      }
      var required := ExecuteHook(field, HookName.IsRequired);
      if required.Threw? {
        return Rejected;
      }
      SetFieldDataAttr(field, Or(required.v, Bool(false)), Attr.IsRequired, false);
      if Truthy(required.v) && IsEmpty(val.v) {
        SetFieldDataAttr(field, Arr([Str(EmptyFieldError)]), Errors, false);
        return Resolved(false);
      }
      var errors := ExecuteHook(field, Validation);
      if errors.Threw? {
        return Rejected;
      }
      if !IsEmpty(errors.v) {
        SetFieldDataAttr(field, errors.v, Errors, true);
        return Resolved(false);
      }
      var computedValue := ExecuteHook(field, HookName.ComputedValue);
      if computedValue.Threw? {
        return Rejected;
      }
      SetFieldDataAttr(field, Or(computedValue.v, Null), Attr.ComputedValue, true);
      outcome := Resolved(true);
    }

    /** `clearFieldData()` (lines 260-267). */
    method ClearFieldData()
      requires Valid()
      modifies this
      ensures Valid()
      ensures St() == Pipelines.ClearFieldData(invoke, old(St()))
    {
      var field := activeField;
      if !IsEmptyField(field) {
        SetFieldDataAttr(field, Null, Errors, true);
        SetFieldDataAttr(field, Null, FormValue, true);
        SetFieldDataAttr(field, Null, Attr.ComputedValue, true);
      }
    }

    /** `onFieldCondition(field)` (lines 274-291). */
    method OnFieldCondition(field: FieldInterface) returns (outcome: Outcome<bool>)
      requires Valid()
      modifies this
      ensures Valid()
      ensures (St(), outcome) == Pipelines.OnFieldCondition(invoke, old(St()), field)
    {
      var isAvailable := ExecuteHook(field, Condition);
      if isAvailable.Threw? {
        return Resolved(false);
      }
      if isAvailable.v == Undefined || Truthy(isAvailable.v) {
        SetFieldDataAttr(field, Bool(true), IsAvailable, true);
        return Resolved(true);
      }
      var onFalse := ExecuteHook(field, OnConditionFalse);
      if onFalse.Threw? {
        return Resolved(false);
      }
      var defaultValue := ExecuteHook(field, DefaultOutput);
      if defaultValue.Threw? {
        return Resolved(false);
      }
      var defaultComputedOutput := ExecuteHook(field, DefaultComputedOutput);
      if defaultComputedOutput.Threw? {
        return Resolved(false);
      }
      SetFieldDataAttr(field, Or(defaultValue.v, Null), FormValue, true);
      SetFieldDataAttr(field, Or(defaultComputedOutput.v, Null), Attr.ComputedValue, true);
      SetFieldDataAttr(field, Bool(false), IsAvailable, true);
      outcome := Resolved(false);
    }

    /** `setActiveField(newField)` (lines 297-330); `now` is the value of
        `new Date().getTime()`. */
    method SetActiveField(newField: FieldInterface, now: int) returns (outcome: Outcome<()>)
      requires Valid()
      modifies this
      ensures Valid()
      ensures (St(), outcome) == Pipelines.SetActiveField(invoke, old(St()), newField, now)
    {
      var curField := activeField;
      if !IsEmptyField(curField) {
        var unloaded := ExecuteHook(curField, Unload);
        if unloaded.Threw? {
          return Rejected;
        }
      }
      activeField := newField;
      trace := trace + [Pointed(newField)];
      outcome := Arrive(now);
    }

    /** Lines 306-316 of `setActiveField`: `onload` and the seeding of the
        default value. */
    method Arrive(now: int) returns (outcome: Outcome<()>)
      requires Valid()
      modifies this
      ensures Valid()
      ensures (St(), outcome) == Pipelines.Arrive(invoke, old(St()), now)
    {
      var field := activeField;
      var loaded := ExecuteHook(field, Onload);
      if loaded.Threw? {
        return Rejected;
      }
      var init := GetFieldDataAttr(Store(fieldData, records), field, Init, true);
      if init.Fails? {
        return Rejected;
      }
      if !ReadTruthy(init) {
        var seeded := Seed(field);
        if seeded.Rejected? {
          return Rejected;
        }
      }
      outcome := Settle(now);
    }

    /** Lines 312-315 of `setActiveField`: mark the field initialised and
        set its default value. */
    method Seed(field: FieldInterface) returns (outcome: Outcome<()>)
      requires Valid() && activeField == field
      modifies this
      ensures Valid()
      ensures (St(), outcome) == Pipelines.Seed(invoke, old(St()), field)
    {
      SetFieldDataAttr(field, Bool(true), Init, true);
      var val := ExecuteHook(field, DefaultValue);
      if val.Threw? {
        return Rejected;
      }
      outcome := SetValue(DefaultArgument(val.v));
    }

    /** Lines 319-329 of `setActiveField`. */
    method Settle(now: int) returns (outcome: Outcome<()>)
      requires Valid()
      modifies this
      ensures Valid()
      ensures (St(), outcome) == Pipelines.Settle(invoke, old(St()), now)
    {
      var field := activeField;
      var refreshed := UpdateButtonStates(field, Event.Default);
      if !refreshed {
        return Rejected;
      }
      var helpText := ExecuteHook(field, DynamicHelpText);
      if helpText.Threw? {
        return Rejected;
      }
      SetFieldDataAttr(field, Or(helpText.v, field.helpText), HelpText, true);
      var options := ExecuteHook(field, Options);
      if options.Threw? {
        return Rejected;
      }
      SetFieldDataAttr(field, Or(options.v, Arr([])), ListOptions, true);
      SetFieldDataAttr(activeField, Num(now), IntLastTimeLoaded, true);
      outcome := Resolved(());
    }

    /** `updateActiveFieldListOptions(options)` (lines 131-133). */
    method UpdateActiveFieldListOptions(options: seq<Option>)
      requires Valid()
      modifies this
      ensures Valid()
      ensures St() == Pipelines.UpdateActiveFieldListOptions(invoke, old(St()), options)
    {
      SetFieldDataAttr(activeField, OptionList(options), ListOptions, true);
    }
  }
}
