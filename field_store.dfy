/** The module-level `fieldData` object of src/composables/FieldData.ts and the
    pure operations on it: snapshots, `executeHook`, `getFieldDataAttr`, the
    write performed by `setFieldDataAttr`, the nested loops of
    `updateButtonStates` as a recursive function, and the state that
    `buildAndSetFieldData` leaves behind. */
module FieldStore {
  import opened Values
  import opened FieldInterfaces
  import NavButtons

  /** What one key of `fieldData` holds: a reference to one of the record
      objects built by `buildAndSetFieldData` (a field's id and the proxyID it
      declares refer to the same object), or a raw value that
      `setFieldDataAttr` assigned over the whole entry. */
  datatype Entry = Rec(slot: nat) | Raw(data: Value)

  /** An entry with its record resolved: what a hook sees under a key. */
  datatype Snap = RecSnap(record: FieldDataInterface) | RawSnap(data: Value)

  /** `fieldData`: the keys and the record objects they refer to. */
  datatype Store = Store(entries: map<Id, Entry>, records: seq<FieldDataInterface>) {
    /** Every reference points at a record. */
    ghost predicate Valid() {
      forall k :: k in entries && entries[k].Rec? ==> entries[k].slot < |records|
    }
  }

  /** The settled outcome of one callback: a value, or an exception (a
      synchronous throw or a rejected promise). */
  datatype HookResult = Ret(v: Value) | Threw

  /** What the author-supplied callbacks do: the callback, the field's own
      entry (`Nothing` when the key is unknown) and the whole store, as they
      are at the call, determine the outcome.  The code passes shallow
      spread copies, whose records are the live objects; a callback is
      modelled as reading them only. */
  type Invoke = (CallbackId, Maybe<Snap>, map<Id, Snap>) -> HookResult

  function SnapOf(st: Store, e: Entry): Snap
    requires e.Rec? ==> e.slot < |st.records|
  {
    match e
    case Rec(i) => RecSnap(st.records[i])
    case Raw(v) => RawSnap(v)
  }

  /** `{...fieldData[key]}`. */
  function Snapshot(st: Store, key: Id): Maybe<Snap>
    requires st.Valid()
  {
    if key in st.entries then Just(SnapOf(st, st.entries[key])) else Nothing
  }

  /** `{...fieldData}`. */
  function StoreSnapshot(st: Store): map<Id, Snap>
    requires st.Valid()
  {
    map k | k in st.entries :: SnapOf(st, st.entries[k])
  }

  /** `executeHook`: the callback runs only when the definition has the hook
      key and a function under it; it is given the field's OWN slot (never
      the proxy's) and the whole store.  Otherwise the result is
      `undefined`, and nothing can throw. */
  function ExecuteHook(inv: Invoke, st: Store, field: FieldInterface, hook: HookName): (r: HookResult)
    requires st.Valid()
    ensures !(HookKey(hook) in field.keys && hook in field.hooks) ==> r == Ret(Undefined)
    ensures r.Threw? ==> HookKey(hook) in field.keys && hook in field.hooks
  {
    if HookKey(hook) in field.keys && hook in field.hooks then
      inv(field.hooks[hook], Snapshot(st, field.id), StoreSnapshot(st))
    else
      Ret(Undefined)
  }

  /** A hook never sees the proxy slot: the outcome does not depend on the
      definition's proxyID. */
  lemma HookIgnoresProxy(inv: Invoke, st: Store, field: FieldInterface, hook: HookName, proxy: Maybe<Id>)
    requires st.Valid()
    ensures ExecuteHook(inv, st, field, hook) == ExecuteHook(inv, st, field.(proxyID := proxy), hook)
  {
  }

  /** A hook sees only the values of its two arguments: two stores whose own
      slot and whole contents look the same to it yield the same outcome,
      however their records are laid out. */
  lemma HookSeesCopies(inv: Invoke, st: Store, st': Store, field: FieldInterface, hook: HookName)
    requires st.Valid() && st'.Valid()
    requires Snapshot(st, field.id) == Snapshot(st', field.id) && StoreSnapshot(st) == StoreSnapshot(st')
    ensures ExecuteHook(inv, st, field, hook) == ExecuteHook(inv, st', field, hook)
  {
  }

  // ---------------------------------------------------------------------
  // Reading

  /** The attribute names `getFieldDataAttr` and `setFieldDataAttr` accept. */
  datatype Attr =
    | Index | ComputedValue | HelpText | Init | IsRequired | IsAvailable
    | ListOptions | Errors | IntLastTimeLoaded | FormValue | NavButtonProps | IsDirty

  /** The attributes `setFieldDataAttr` accepts. */
  type WritableAttr = a: Attr | a != Index && a != NavButtonProps witness Errors

  function AttrKey(a: Attr): string {
    match a
    case Index => "index"
    case ComputedValue => "computedValue"
    case HelpText => "helpText"
    case Init => "init"
    case IsRequired => "isRequired"
    case IsAvailable => "isAvailable"
    case ListOptions => "listOptions"
    case Errors => "errors"
    case IntLastTimeLoaded => "intLastTimeLoaded"
    case FormValue => "formValue"
    case NavButtonProps => "navButtonProps"
    case IsDirty => "isDirty"
  }

  /** What a property read yields: a value, the button list, or a TypeError
      (reading a property of `undefined` or `null`). */
  datatype Read = Val(v: Value) | Buttons(buttons: seq<FieldDataButtonProps>) | Fails

  function AttrOf(d: FieldDataInterface, a: Attr): Read {
    match a
    case Index => Val(Num(d.index))
    case ComputedValue => Val(d.computedValue)
    case HelpText => Val(d.helpText)
    case Init => Val(d.init)
    case IsRequired => Val(d.isRequired)
    case IsAvailable => Val(d.isAvailable)
    case ListOptions => Val(d.listOptions)
    case Errors => Val(d.errors)
    case IntLastTimeLoaded => Val(d.intLastTimeLoaded)
    case FormValue => Val(d.formValue)
    case NavButtonProps => Buttons(d.navButtonProps)
    case IsDirty => Val(d.isDirty)
  }

  /** `fieldData[key][attr]`: an unknown key or a nullish raw entry throws;
      any other raw value (a string, an array, an Option) has none of the
      attribute names as a property, so the read yields `undefined`. */
  function ReadSlot(st: Store, key: Id, attr: Attr): (r: Read)
    requires st.Valid()
    ensures r.Fails? <==> key !in st.entries || (st.entries[key].Raw? && Nullish(st.entries[key].data))
    ensures r.Buttons? ==> attr == NavButtonProps && key in st.entries && st.entries[key].Rec?
    ensures key in st.entries && st.entries[key].Raw? && !Nullish(st.entries[key].data) ==> r == Val(Undefined)
  {
    if key !in st.entries then Fails
    else match st.entries[key]
      case Rec(i) => AttrOf(st.records[i], attr)
      case Raw(v) => if Nullish(v) then Fails else Val(Undefined)
  }

  /** The key `getFieldDataAttr` reads. */
  function ReadKey(field: FieldInterface, useProxy: bool): Id {
    if useProxy && ProxyOf(field).Just? then ProxyOf(field).value else field.id
  }

  /** `getFieldDataAttr`: the proxy slot when `useProxy` is set and the field
      has a (truthy) proxyID, the own slot otherwise. */
  function GetFieldDataAttr(st: Store, field: FieldInterface, attr: Attr, useProxy: bool): (r: Read)
    requires st.Valid()
    ensures !r.Buttons? || attr == NavButtonProps
    ensures var key := ReadKey(field, useProxy);
      r.Fails? <==> key !in st.entries || (st.entries[key].Raw? && Nullish(st.entries[key].data))
  {
    ReadSlot(st, ReadKey(field, useProxy), attr)
  }

  /** Without a truthy proxyID (none, or the empty string) `useProxy` makes
      no difference. */
  lemma ReadWithoutProxy(st: Store, field: FieldInterface, attr: Attr)
    requires st.Valid() && ProxyOf(field).Nothing?
    ensures GetFieldDataAttr(st, field, attr, true) == GetFieldDataAttr(st, field, attr, false)
    ensures field.proxyID == Just("") ==> GetFieldDataAttr(st, field, attr, true) == ReadSlot(st, field.id, attr)
  {
  }

  // ---------------------------------------------------------------------
  // Writing

  /** The keys `setFieldDataAttr` assigns: none unless the attribute name is
      a key of the DEFINITION; then the own id, and the proxyID too when it
      is truthy and `canUpdateParentProxy` holds. */
  function WriteSet(field: FieldInterface, attr: Attr, canUpdateParentProxy: bool): set<Id> {
    if AttrKey(attr) !in field.keys then {}
    else if ProxyOf(field).Just? && canUpdateParentProxy then {field.id, ProxyOf(field).value}
    else {field.id}
  }

  /** The assignments of `setFieldDataAttr`: each written key gets the WHOLE
      entry replaced by the raw value; no other key changes. */
  function SetFieldDataAttr(entries: map<Id, Entry>, field: FieldInterface, data: Value, attr: Attr, canUpdateParentProxy: bool)
    : (r: map<Id, Entry>)
    ensures r.Keys == entries.Keys + WriteSet(field, attr, canUpdateParentProxy)
    ensures forall k :: k in WriteSet(field, attr, canUpdateParentProxy) ==> r[k] == Raw(data)
    ensures forall k :: k in entries && k !in WriteSet(field, attr, canUpdateParentProxy) ==> r[k] == entries[k]
  {
    if AttrKey(attr) in field.keys then
      var withProxy :=
        if ProxyOf(field).Just? && canUpdateParentProxy then entries[ProxyOf(field).value := Raw(data)]
        else entries;
      withProxy[field.id := Raw(data)]
    else
      entries
  }

  /** The gate: a write whose attribute name is not a key of the definition
      (`init`, `errors`, `formValue`, ... on an ordinary definition) leaves
      the store as it was. */
  lemma WriteGate(st: Store, field: FieldInterface, data: Value, attr: Attr, canUpdateParentProxy: bool)
    requires AttrKey(attr) !in field.keys
    ensures SetFieldDataAttr(st.entries, field, data, attr, canUpdateParentProxy) == st.entries
  {
  }

  /** A write keeps every reference valid. */
  lemma WriteKeepsValid(st: Store, field: FieldInterface, data: Value, attr: Attr, canUpdateParentProxy: bool)
    requires st.Valid()
    ensures st.(entries := SetFieldDataAttr(st.entries, field, data, attr, canUpdateParentProxy)).Valid()
  {
  }

  /** After a propagated write through a field with a proxyID, the own slot
      and the proxy slot read the same, whatever the attribute. */
  lemma {:induction false} ProxyWriteAgrees(st: Store, field: FieldInterface, data: Value, attr: Attr, other: Attr)
    requires st.Valid()
    requires AttrKey(attr) in field.keys && ProxyOf(field).Just?
    ensures var st' := st.(entries := SetFieldDataAttr(st.entries, field, data, attr, true));
      st'.Valid() && ReadSlot(st', field.id, other) == ReadSlot(st', ProxyOf(field).value, other)
  {
    var st' := st.(entries := SetFieldDataAttr(st.entries, field, data, attr, true));
    assert st'.entries[field.id] == Raw(data) == st'.entries[ProxyOf(field).value];
  }

  /** The whole-entry overwrite loses the record: after a write under the own
      id, reading ANY attribute there yields `undefined`, or throws when the
      written value is nullish; in particular the written attribute does not
      read back as the written value unless that value is `undefined`. */
  lemma {:induction false} WriteDropsRecord(st: Store, field: FieldInterface, data: Value, attr: Attr, other: Attr, canUpdateParentProxy: bool)
    requires st.Valid()
    requires AttrKey(attr) in field.keys
    ensures var st' := st.(entries := SetFieldDataAttr(st.entries, field, data, attr, canUpdateParentProxy));
      st'.Valid() &&
      ReadSlot(st', field.id, other) == (if Nullish(data) then Fails else Val(Undefined))
  {
    var st' := st.(entries := SetFieldDataAttr(st.entries, field, data, attr, canUpdateParentProxy));
    assert st'.entries[field.id] == Raw(data);
  }

  // ---------------------------------------------------------------------
  // Button refresh (lines 82-97)

  function ButtonAttrOf(p: FieldDataButtonProps, a: ButtonAttr): Value {
    match a
    case Color => p.color
    case Disabled => p.disabled
    case Visible => p.visible
  }

  /** `btn[p] = value` on button `k` of a record. */
  function WithButtonAttr(d: FieldDataInterface, k: nat, a: ButtonAttr, v: Value): FieldDataInterface
    requires k < |d.navButtonProps|
  {
    var p := d.navButtonProps[k];
    var p' := match a
      case Color => p.(color := v)
      case Disabled => p.(disabled := v)
      case Visible => p.(visible := v);
    d.(navButtonProps := d.navButtonProps[k := p'])
  }

  /** The attributes a button's `state` table names. */
  function DeclaredAttrs(b: FieldNavButton): set<ButtonAttr> {
    if b.state.Nothing? then {} else set e | e in b.state.value :: e.attr
  }

  /** How a refresh may change one resolved button: name, index, slot, size,
      cssClass and btnRef stay; a button without a `state` table stays as a
      whole; an attribute its table does not name stays. */
  predicate ButtonRefreshed(p: FieldDataButtonProps, p': FieldDataButtonProps) {
    && p'.name == p.name && p'.index == p.index
    && p'.slot == p.slot && p'.size == p.size && p'.cssClass == p.cssClass
    && p'.btnRef == p.btnRef
    && (p.btnRef.state.Nothing? ==> p' == p)
    && (forall a: ButtonAttr :: a !in DeclaredAttrs(p.btnRef) ==> ButtonAttrOf(p', a) == ButtonAttrOf(p, a))
  }

  /** How a refresh may change the record it works on: only buttons change,
      each as `ButtonRefreshed` allows. */
  predicate RecordRefreshed(d: FieldDataInterface, d': FieldDataInterface) {
    && d' == d.(navButtonProps := d'.navButtonProps)
    && |d'.navButtonProps| == |d.navButtonProps|
    && forall b :: 0 <= b < |d.navButtonProps| ==> ButtonRefreshed(d.navButtonProps[b], d'.navButtonProps[b])
  }

  /** How a refresh may change the store: no key changes, no record other
      than `slot` changes, and that one changes as `RecordRefreshed` allows. */
  ghost predicate StoreRefreshed(st: Store, st': Store, slot: nat)
    requires slot < |st.records|
  {
    && st'.entries == st.entries
    && |st'.records| == |st.records|
    && (forall i :: 0 <= i < |st.records| && i != slot ==> st'.records[i] == st.records[i])
    && RecordRefreshed(st.records[slot], st'.records[slot])
  }

  lemma ButtonRefreshedTransitive(p: FieldDataButtonProps, p': FieldDataButtonProps, p'': FieldDataButtonProps)
    requires ButtonRefreshed(p, p') && ButtonRefreshed(p', p'')
    ensures ButtonRefreshed(p, p'')
  {
  }

  lemma {:induction false} StoreRefreshedTransitive(st: Store, st': Store, st'': Store, slot: nat)
    requires slot < |st.records|
    requires StoreRefreshed(st, st', slot) && StoreRefreshed(st', st'', slot)
    ensures StoreRefreshed(st, st'', slot)
  {
    var d, d', d'' := st.records[slot], st'.records[slot], st''.records[slot];
    forall b | 0 <= b < |d.navButtonProps|
      ensures ButtonRefreshed(d.navButtonProps[b], d''.navButtonProps[b])
    {
      ButtonRefreshedTransitive(d.navButtonProps[b], d'.navButtonProps[b], d''.navButtonProps[b]);
    }
  }

  lemma StoreRefreshedReflexive(st: Store, slot: nat)
    requires slot < |st.records|
    ensures StoreRefreshed(st, st, slot)
  {
  }

  /** The inner loop (lines 87-94) over the entries `j..` of button `k`'s
      `state` table: each entry's predicate for `event` is called with the
      record and the store as they are at that moment, and its result
      overwrites the attribute; a missing predicate or a throw stops the
      refresh, keeping what was already written. */
  function RefreshEntries(inv: Invoke, st: Store, slot: nat, k: nat, entries: seq<StateEntry>, j: nat, event: Event)
    : (r: (Store, bool))
    requires st.Valid() && slot < |st.records| && k < |st.records[slot].navButtonProps|
    requires st.records[slot].navButtonProps[k].btnRef.state == Just(entries)
    requires j <= |entries|
    ensures r.0.Valid() && r.0.entries == st.entries && |r.0.records| == |st.records|
    ensures |r.0.records[slot].navButtonProps| == |st.records[slot].navButtonProps|
    decreases |entries| - j
  {
    if j == |entries| then (st, true)
    else
      var e := entries[j];
      if event !in e.handlers then (st, false)
      else
        match inv(e.handlers[event], Just(RecSnap(st.records[slot])), StoreSnapshot(st))
        case Threw => (st, false)
        case Ret(v) =>
          var st1 := st.(records := st.records[slot := WithButtonAttr(st.records[slot], k, e.attr, v)]);
          RefreshEntries(inv, st1, slot, k, entries, j + 1, event)
  }

  /** The inner loop changes only the record at `slot`, and there only the
      attributes the state table declares. */
  lemma {:induction false} RefreshEntriesSpec(inv: Invoke, st: Store, slot: nat, k: nat, entries: seq<StateEntry>, j: nat, event: Event)
    requires st.Valid() && slot < |st.records| && k < |st.records[slot].navButtonProps|
    requires st.records[slot].navButtonProps[k].btnRef.state == Just(entries)
    requires j <= |entries|
    ensures StoreRefreshed(st, RefreshEntries(inv, st, slot, k, entries, j, event).0, slot)
    decreases |entries| - j
  {
    StoreRefreshedReflexive(st, slot);
    if j < |entries| {
      var e := entries[j];
      if event in e.handlers {
        match inv(e.handlers[event], Just(RecSnap(st.records[slot])), StoreSnapshot(st))
        case Threw =>
        case Ret(v) =>
          var st1 := st.(records := st.records[slot := WithButtonAttr(st.records[slot], k, e.attr, v)]);
          assert e.attr in DeclaredAttrs(st.records[slot].navButtonProps[k].btnRef);
          assert StoreRefreshed(st, st1, slot);
          RefreshEntriesSpec(inv, st1, slot, k, entries, j + 1, event);
          StoreRefreshedTransitive(st, st1, RefreshEntries(inv, st1, slot, k, entries, j + 1, event).0, slot);
      }
    }
  }

  /** The inner loop for button `k` leaves every other button of the record
      as it was, and on button `k` an attribute that no entry `j..` names. */
  lemma {:induction false} RefreshEntriesKeeps(inv: Invoke, st: Store, slot: nat, k: nat, entries: seq<StateEntry>, j: nat, event: Event, b: nat, a: ButtonAttr)
    requires st.Valid() && slot < |st.records| && k < |st.records[slot].navButtonProps|
    requires st.records[slot].navButtonProps[k].btnRef.state == Just(entries)
    requires j <= |entries| && b < |st.records[slot].navButtonProps|
    requires b == k ==> forall m :: j <= m < |entries| ==> entries[m].attr != a
    ensures var r := RefreshEntries(inv, st, slot, k, entries, j, event);
      && (b != k ==> r.0.records[slot].navButtonProps[b] == st.records[slot].navButtonProps[b])
      && ButtonAttrOf(r.0.records[slot].navButtonProps[b], a) == ButtonAttrOf(st.records[slot].navButtonProps[b], a)
    decreases |entries| - j
  {
    if j < |entries| {
      var e := entries[j];
      if event in e.handlers {
        match inv(e.handlers[event], Just(RecSnap(st.records[slot])), StoreSnapshot(st))
        case Threw =>
        case Ret(v) =>
          var st1 := st.(records := st.records[slot := WithButtonAttr(st.records[slot], k, e.attr, v)]);
          assert b != k ==> st1.records[slot].navButtonProps[b] == st.records[slot].navButtonProps[b];
          assert ButtonAttrOf(st1.records[slot].navButtonProps[b], a) == ButtonAttrOf(st.records[slot].navButtonProps[b], a);
          RefreshEntriesKeeps(inv, st1, slot, k, entries, j + 1, event, b, a);
      }
    }
  }

  /** What entry `j` writes, when no later entry names the same attribute:
      the refresh gets past it only if it has a predicate for `event` that
      returned, and once that predicate returned `v` (called with the record
      and the store as they are when entry `j` is reached), attribute
      `entries[j].attr` of button `k` ends up `v`, even if a later entry
      throws. */
  lemma {:induction false} RefreshEntriesWrites(inv: Invoke, st: Store, slot: nat, k: nat, entries: seq<StateEntry>, j: nat, event: Event)
    requires st.Valid() && slot < |st.records| && k < |st.records[slot].navButtonProps|
    requires st.records[slot].navButtonProps[k].btnRef.state == Just(entries)
    requires j < |entries|
    requires forall m :: j < m < |entries| ==> entries[m].attr != entries[j].attr
    ensures var r := RefreshEntries(inv, st, slot, k, entries, j, event);
      && (r.1 ==> event in entries[j].handlers)
      && (event in entries[j].handlers ==>
            var h := inv(entries[j].handlers[event], Just(RecSnap(st.records[slot])), StoreSnapshot(st));
            && (r.1 ==> h.Ret?)
            && (h.Ret? ==> ButtonAttrOf(r.0.records[slot].navButtonProps[k], entries[j].attr) == h.v))
  {
    var e := entries[j];
    if event in e.handlers {
      match inv(e.handlers[event], Just(RecSnap(st.records[slot])), StoreSnapshot(st))
      case Threw =>
      case Ret(v) =>
        var st1 := st.(records := st.records[slot := WithButtonAttr(st.records[slot], k, e.attr, v)]);
        assert ButtonAttrOf(st1.records[slot].navButtonProps[k], e.attr) == v;
        RefreshEntriesKeeps(inv, st1, slot, k, entries, j + 1, event, k, e.attr);
    }
  }

  /** The outer loop (lines 84-96) over buttons `k..` of the record. */
  function RefreshFrom(inv: Invoke, st: Store, slot: nat, k: nat, event: Event): (r: (Store, bool))
    requires st.Valid() && slot < |st.records| && k <= |st.records[slot].navButtonProps|
    ensures r.0.Valid() && r.0.entries == st.entries && |r.0.records| == |st.records|
    ensures |r.0.records[slot].navButtonProps| == |st.records[slot].navButtonProps|
    decreases |st.records[slot].navButtonProps| - k
  {
    if k == |st.records[slot].navButtonProps| then (st, true)
    else
      match st.records[slot].navButtonProps[k].btnRef.state
      case Nothing =>
        RefreshFrom(inv, st, slot, k + 1, event)
      case Just(entries) =>
        var r1 := RefreshEntries(inv, st, slot, k, entries, 0, event);
        if !r1.1 then r1
        else RefreshFrom(inv, r1.0, slot, k + 1, event)
  }

  /** The outer loop changes only the record at `slot`, as `RecordRefreshed`
      allows. */
  lemma {:induction false} RefreshFromSpec(inv: Invoke, st: Store, slot: nat, k: nat, event: Event)
    requires st.Valid() && slot < |st.records| && k <= |st.records[slot].navButtonProps|
    ensures StoreRefreshed(st, RefreshFrom(inv, st, slot, k, event).0, slot)
    decreases |st.records[slot].navButtonProps| - k
  {
    StoreRefreshedReflexive(st, slot);
    if k < |st.records[slot].navButtonProps| {
      match st.records[slot].navButtonProps[k].btnRef.state
      case Nothing =>
        RefreshFromSpec(inv, st, slot, k + 1, event);
      case Just(entries) =>
        var r1 := RefreshEntries(inv, st, slot, k, entries, 0, event);
        RefreshEntriesSpec(inv, st, slot, k, entries, 0, event);
        if r1.1 {
          RefreshFromSpec(inv, r1.0, slot, k + 1, event);
          StoreRefreshedTransitive(st, r1.0, RefreshFrom(inv, r1.0, slot, k + 1, event).0, slot);
        }
    }
  }

  /** The outer loop from button `k` on leaves the buttons before `k` as
      they were. */
  lemma {:induction false} RefreshFromKeepsEarlier(inv: Invoke, st: Store, slot: nat, k: nat, event: Event, b: nat)
    requires st.Valid() && slot < |st.records| && b < k <= |st.records[slot].navButtonProps|
    ensures RefreshFrom(inv, st, slot, k, event).0.records[slot].navButtonProps[b] == st.records[slot].navButtonProps[b]
    decreases |st.records[slot].navButtonProps| - k
  {
    if k < |st.records[slot].navButtonProps| {
      match st.records[slot].navButtonProps[k].btnRef.state
      case Nothing =>
        RefreshFromKeepsEarlier(inv, st, slot, k + 1, event, b);
      case Just(entries) =>
        var r1 := RefreshEntries(inv, st, slot, k, entries, 0, event);
        RefreshEntriesKeeps(inv, st, slot, k, entries, 0, event, b, Color);
        if r1.1 {
          RefreshFromKeepsEarlier(inv, r1.0, slot, k + 1, event, b);
        }
    }
  }

  /** When buttons `k..b-1` have no `state` table, button `b` ends up exactly
      as its own inner loop, started on `st`, leaves it, and the outer loop
      gets past it only if that inner loop did. */
  lemma {:induction false} RefreshFromWrites(inv: Invoke, st: Store, slot: nat, k: nat, event: Event, b: nat, entries: seq<StateEntry>)
    requires st.Valid() && slot < |st.records| && k <= b < |st.records[slot].navButtonProps|
    requires forall c :: k <= c < b ==> st.records[slot].navButtonProps[c].btnRef.state.Nothing?
    requires st.records[slot].navButtonProps[b].btnRef.state == Just(entries)
    ensures var r := RefreshFrom(inv, st, slot, k, event);
      var e := RefreshEntries(inv, st, slot, b, entries, 0, event);
      && (r.1 ==> e.1)
      && r.0.records[slot].navButtonProps[b] == e.0.records[slot].navButtonProps[b]
    decreases b - k
  {
    if k < b {
      RefreshFromWrites(inv, st, slot, k + 1, event, b, entries);
    } else {
      var r1 := RefreshEntries(inv, st, slot, k, entries, 0, event);
      if r1.1 {
        RefreshFromKeepsEarlier(inv, r1.0, slot, k + 1, event, b);
      }
    }
  }

  /** `updateButtonStates`: the buttons are read from the OWN slot
      (`useProxy = false`); a slot that is not a record has no
      `navButtonProps`, so `forEach` on `undefined` throws. */
  function UpdateButtonStates(inv: Invoke, st: Store, field: FieldInterface, event: Event): (r: (Store, bool))
    requires st.Valid()
    ensures r.0.Valid() && r.0.entries == st.entries && |r.0.records| == |st.records|
    ensures !GetFieldDataAttr(st, field, NavButtonProps, false).Buttons? ==> r == (st, false)
  {
    if GetFieldDataAttr(st, field, NavButtonProps, false).Buttons? then
      RefreshFrom(inv, st, st.entries[field.id].slot, 0, event)
    else
      (st, false)
  }

  /** A refresh that finds buttons changes only the field's own record, as
      `RecordRefreshed` allows. */
  lemma UpdateButtonStatesSpec(inv: Invoke, st: Store, field: FieldInterface, event: Event)
    requires st.Valid() && GetFieldDataAttr(st, field, NavButtonProps, false).Buttons?
    ensures StoreRefreshed(st, UpdateButtonStates(inv, st, field, event).0, st.entries[field.id].slot)
  {
    RefreshFromSpec(inv, st, st.entries[field.id].slot, 0, event);
  }

  /** The value a refresh writes first: on the first button of the field's
      record that has a `state` table, the attribute of the first entry (when
      no later entry names it) ends up as what that entry's predicate for
      `event` returned, called with copies of the field's own slot and of the
      store as they were before the refresh; and the refresh succeeds only if
      that predicate exists and returned. */
  lemma {:induction false} UpdateButtonStatesWrites(inv: Invoke, st: Store, field: FieldInterface, event: Event, b: nat)
    requires st.Valid() && GetFieldDataAttr(st, field, NavButtonProps, false).Buttons?
    requires var d := st.records[st.entries[field.id].slot];
      && b < |d.navButtonProps|
      && (forall c :: 0 <= c < b ==> d.navButtonProps[c].btnRef.state.Nothing?)
      && d.navButtonProps[b].btnRef.state.Just? && |d.navButtonProps[b].btnRef.state.value| > 0
      && var entries := d.navButtonProps[b].btnRef.state.value;
         forall m :: 0 < m < |entries| ==> entries[m].attr != entries[0].attr
    ensures var slot := st.entries[field.id].slot;
      var entries := st.records[slot].navButtonProps[b].btnRef.state.value;
      var r := UpdateButtonStates(inv, st, field, event);
      && |r.0.records[slot].navButtonProps| == |st.records[slot].navButtonProps|
      && (r.1 ==> event in entries[0].handlers)
      && (event in entries[0].handlers ==>
            var h := inv(entries[0].handlers[event], Snapshot(st, field.id), StoreSnapshot(st));
            && (r.1 ==> h.Ret?)
            && (h.Ret? ==> ButtonAttrOf(r.0.records[slot].navButtonProps[b], entries[0].attr) == h.v))
  {
    var slot := st.entries[field.id].slot;
    var entries := st.records[slot].navButtonProps[b].btnRef.state.value;
    RefreshFromWrites(inv, st, slot, 0, event, b, entries);
    RefreshEntriesWrites(inv, st, slot, b, entries, 0, event);
  }

  /** A state table with an entry that registers no predicate for `event`
      makes the refresh throw (`state[event]` is called unconditionally). */
  lemma {:induction false} MissingHandlerEntriesThrow(inv: Invoke, st: Store, slot: nat, k: nat, entries: seq<StateEntry>, j: nat, event: Event, m: nat)
    requires st.Valid() && slot < |st.records| && k < |st.records[slot].navButtonProps|
    requires st.records[slot].navButtonProps[k].btnRef.state == Just(entries)
    requires j <= m < |entries| && event !in entries[m].handlers
    ensures !RefreshEntries(inv, st, slot, k, entries, j, event).1
    decreases m - j
  {
    if j < m {
      var e := entries[j];
      if event in e.handlers {
        match inv(e.handlers[event], Just(RecSnap(st.records[slot])), StoreSnapshot(st))
        case Threw =>
        case Ret(v) =>
          var st1 := st.(records := st.records[slot := WithButtonAttr(st.records[slot], k, e.attr, v)]);
          MissingHandlerEntriesThrow(inv, st1, slot, k, entries, j + 1, event, m);
      }
    }
  }

  lemma {:induction false} MissingHandlerFromThrows(inv: Invoke, st: Store, slot: nat, k: nat, event: Event, b: nat, m: nat)
    requires st.Valid() && slot < |st.records| && k <= b < |st.records[slot].navButtonProps|
    requires st.records[slot].navButtonProps[b].btnRef.state.Just?
    requires m < |st.records[slot].navButtonProps[b].btnRef.state.value|
    requires event !in st.records[slot].navButtonProps[b].btnRef.state.value[m].handlers
    ensures !RefreshFrom(inv, st, slot, k, event).1
    decreases b - k
  {
    var btn := st.records[slot].navButtonProps[k];
    match btn.btnRef.state
    case Nothing =>
      MissingHandlerFromThrows(inv, st, slot, k + 1, event, b, m);
    case Just(entries) =>
      if k == b {
        MissingHandlerEntriesThrow(inv, st, slot, k, entries, 0, event, m);
      } else {
        var r1 := RefreshEntries(inv, st, slot, k, entries, 0, event);
        if r1.1 {
          RefreshEntriesSpec(inv, st, slot, k, entries, 0, event);
          assert ButtonRefreshed(st.records[slot].navButtonProps[b], r1.0.records[slot].navButtonProps[b]);
          MissingHandlerFromThrows(inv, r1.0, slot, k + 1, event, b, m);
        }
      }
  }

  /** If any button of the field's record has a `state` entry without a
      predicate for `event`, `updateButtonStates` throws. */
  lemma {:induction false} MissingHandlerThrows(inv: Invoke, st: Store, field: FieldInterface, event: Event, b: nat, m: nat)
    requires st.Valid() && field.id in st.entries && st.entries[field.id].Rec?
    requires var d := st.records[st.entries[field.id].slot];
      b < |d.navButtonProps| && d.navButtonProps[b].btnRef.state.Just? &&
      m < |d.navButtonProps[b].btnRef.state.value| &&
      event !in d.navButtonProps[b].btnRef.state.value[m].handlers
    ensures !UpdateButtonStates(inv, st, field, event).1
  {
    MissingHandlerFromThrows(inv, st, st.entries[field.id].slot, 0, event, b, m);
  }

  /** A record whose buttons have no `state` table refreshes to itself. */
  lemma {:induction false} StatelessButtonsUnchanged(inv: Invoke, st: Store, slot: nat, k: nat, event: Event)
    requires st.Valid() && slot < |st.records| && k <= |st.records[slot].navButtonProps|
    requires forall b :: 0 <= b < |st.records[slot].navButtonProps| ==> st.records[slot].navButtonProps[b].btnRef.state.Nothing?
    ensures RefreshFrom(inv, st, slot, k, event) == (st, true)
    decreases |st.records[slot].navButtonProps| - k
  {
    if k < |st.records[slot].navButtonProps| {
      StatelessButtonsUnchanged(inv, st, slot, k + 1, event);
    }
  }

  // ---------------------------------------------------------------------
  // The state buildAndSetFieldData leaves (lines 138-197)

  /** The keys a field occupies: its id, and its proxyID when truthy. */
  function FieldKeys(f: FieldInterface): set<Id> {
    if ProxyOf(f).Just? then {f.id, ProxyOf(f).value} else {f.id}
  }

  /** All keys a list of fields occupies. */
  function AllKeys(fields: seq<FieldInterface>): set<Id>
    decreases |fields|
  {
    if fields == [] then {} else AllKeys(fields[..|fields| - 1]) + FieldKeys(fields[|fields| - 1])
  }

  /** Field `i` is the last one in the list to occupy key `k`. */
  predicate LastDeclarer(fields: seq<FieldInterface>, k: Id, i: int) {
    0 <= i < |fields| && k in FieldKeys(fields[i]) &&
    forall j :: i < j < |fields| ==> k !in FieldKeys(fields[j])
  }

  /** The record built for field `index`. */
  function InitialData(index: int, field: FieldInterface, footer: seq<FieldNavButton>): FieldDataInterface {
    FieldDataInterface(
      index := index,
      init := Bool(false),
      helpText := Str(""),
      isRequired := Bool(false),
      errors := Arr([]),
      isAvailable := Bool(true),
      computedValue := Null,
      listOptions := Arr([]),
      formValue := Null,
      defaultValue := Null,
      isDirty := Undefined,
      intLastTimeLoaded := Undefined,
      navButtonProps := NavButtons.NavButtonProps(footer, field))
  }

  /** The store `buildAndSetFieldData(fields, footer)` leaves: one record per
      listed field, in list order; the keys are exactly the fields' ids and
      proxyIDs; every key refers to the record of the last field occupying
      it. */
  ghost predicate IsBuiltFrom(st: Store, fields: seq<FieldInterface>, footer: seq<FieldNavButton>) {
    && |st.records| == |fields|
    && (forall i {:trigger st.records[i]} :: 0 <= i < |fields| ==> st.records[i] == InitialData(i, fields[i], footer))
    && st.entries.Keys == AllKeys(fields)
    && (forall k :: k in st.entries ==> st.entries[k].Rec? && LastDeclarer(fields, k, st.entries[k].slot))
  }

  /** A key is occupied by some listed field exactly when it is in AllKeys. */
  lemma {:induction false} AllKeysMembers(fields: seq<FieldInterface>, k: Id)
    ensures k in AllKeys(fields) <==> exists i :: 0 <= i < |fields| && k in FieldKeys(fields[i])
    decreases |fields|
  {
    if fields != [] {
      var n := |fields| - 1;
      AllKeysMembers(fields[..n], k);
      if k in AllKeys(fields[..n]) {
        var i :| 0 <= i < n && k in FieldKeys(fields[..n][i]);
        assert fields[i] == fields[..n][i];
      }
      if exists i :: 0 <= i < |fields| && k in FieldKeys(fields[i]) {
        var i :| 0 <= i < |fields| && k in FieldKeys(fields[i]);
        if i < n {
          assert fields[..n][i] == fields[i];
        }
      }
    }
  }
  /** Two fields that are both the last to occupy a key are the same field. */
  lemma LastDeclarerUnique(fields: seq<FieldInterface>, k: Id, i: int, j: int)
    requires LastDeclarer(fields, k, i) && LastDeclarer(fields, k, j)
    ensures i == j
  {
  }

  /** One field bound by the build loop: record `i` under its proxyID (when
      truthy) and then under its id. */
  function Bind(entries: map<Id, Entry>, f: FieldInterface, i: nat): map<Id, Entry> {
    (if ProxyOf(f).Just? then entries[ProxyOf(f).value := Rec(i)] else entries)[f.id := Rec(i)]
  }

  /** The keys the build loop has bound after the listed fields, starting
      from an empty store. */
  function BuiltEntries(fields: seq<FieldInterface>): map<Id, Entry>
    decreases |fields|
  {
    if fields == [] then map[]
    else Bind(BuiltEntries(fields[..|fields| - 1]), fields[|fields| - 1], |fields| - 1)
  }

  /** The bound keys are exactly the fields' ids and proxyIDs, and each
      refers to the record of the last field occupying it. */
  lemma {:induction false} BuiltEntriesShape(fields: seq<FieldInterface>)
    ensures BuiltEntries(fields).Keys == AllKeys(fields)
    ensures forall k :: k in BuiltEntries(fields) ==>
      BuiltEntries(fields)[k].Rec? && LastDeclarer(fields, k, BuiltEntries(fields)[k].slot)
    decreases |fields|
  {
    if fields != [] {
      var n := |fields| - 1;
      var pre := fields[..n];
      var f := fields[n];
      BuiltEntriesShape(pre);
      var before := BuiltEntries(pre);
      var after := BuiltEntries(fields);
      assert after == Bind(before, f, n);
      forall k | k in after
        ensures after[k].Rec? && LastDeclarer(fields, k, after[k].slot)
      {
        if k !in FieldKeys(f) {
          var s := before[k].slot;
          assert LastDeclarer(pre, k, s);
          forall j | s < j < |fields|
            ensures k !in FieldKeys(fields[j])
          {
            if j < n {
              assert fields[j] == pre[j];
            }
          }
          assert fields[s] == pre[s];
        }
      }
    }
  }

  /** `make(i, fields[i])` for every position, in order: what a loop that
      pushes one value per field produces. */
  function Indexed<T>(fields: seq<FieldInterface>, make: (nat, FieldInterface) -> T): (r: seq<T>)
    ensures |r| == |fields|
    decreases |fields|
  {
    if fields == [] then []
    else Indexed(fields[..|fields| - 1], make) + [make(|fields| - 1, fields[|fields| - 1])]
  }

  lemma {:induction false} IndexedAt<T>(fields: seq<FieldInterface>, make: (nat, FieldInterface) -> T, i: nat)
    requires i < |fields|
    ensures Indexed(fields, make)[i] == make(i, fields[i])
    decreases |fields|
  {
    var n := |fields| - 1;
    if i < n {
      IndexedAt(fields[..n], make, i);
      assert fields[..n][i] == fields[i];
    }
  }

  /** The records the build loop has pushed after the listed fields. */
  function BuiltRecords(fields: seq<FieldInterface>, footer: seq<FieldNavButton>): seq<FieldDataInterface> {
    Indexed(fields, (i: nat, f: FieldInterface) => InitialData(i, f, footer))
  }

  /** The store the build loop leaves. */
  function BuiltStore(fields: seq<FieldInterface>, footer: seq<FieldNavButton>): Store {
    Store(BuiltEntries(fields), BuiltRecords(fields, footer))
  }

  /** Record `i` of the built records is the initial record of field `i`. */
  lemma {:induction false} BuiltRecordAt(fields: seq<FieldInterface>, footer: seq<FieldNavButton>, i: nat)
    requires i < |fields|
    ensures |BuiltRecords(fields, footer)| == |fields|
    ensures BuiltRecords(fields, footer)[i] == InitialData(i, fields[i], footer)
  {
    IndexedAt(fields, (i: nat, f: FieldInterface) => InitialData(i, f, footer), i);
  }

  /** One more iteration of the build loop pushes one record and binds one
      field. */
  lemma {:induction false} BuiltPush(fields: seq<FieldInterface>, footer: seq<FieldNavButton>, i: nat)
    requires i < |fields|
    ensures BuiltRecords(fields[..i + 1], footer) == BuiltRecords(fields[..i], footer) + [InitialData(i, fields[i], footer)]
    ensures BuiltEntries(fields[..i + 1]) == Bind(BuiltEntries(fields[..i]), fields[i], i)
  {
    var pre := fields[..i + 1];
    assert pre[..i] == fields[..i];
    assert pre[i] == fields[i];
  }

  /** The build loop leaves exactly the described built state. */
  lemma {:induction false} BuiltStoreIsBuilt(fields: seq<FieldInterface>, footer: seq<FieldNavButton>)
    ensures BuiltStore(fields, footer).Valid()
    ensures IsBuiltFrom(BuiltStore(fields, footer), fields, footer)
  {
    BuiltEntriesShape(fields);
    var st := BuiltStore(fields, footer);
    forall i | 0 <= i < |fields|
      ensures st.records[i] == InitialData(i, fields[i], footer)
    {
      BuiltRecordAt(fields, footer, i);
    }
  }

  /** Right after a build, a key refers to the record of the last field
      occupying it. */
  lemma {:induction false} BuiltSlot(st: Store, fields: seq<FieldInterface>, footer: seq<FieldNavButton>, k: Id, i: int)
    requires IsBuiltFrom(st, fields, footer)
    requires LastDeclarer(fields, k, i)
    ensures k in st.entries && st.entries[k] == Rec(i)
  {
    AllKeysMembers(fields, k);
    assert k in st.entries;
    LastDeclarerUnique(fields, k, i, st.entries[k].slot);
  }

  /** Right after a build, a listed field that is the last to occupy its own
      id finds its initial record there. */
  lemma {:induction false} BuiltOwnRecord(st: Store, fields: seq<FieldInterface>, footer: seq<FieldNavButton>, i: nat)
    requires IsBuiltFrom(st, fields, footer)
    requires i < |fields| && LastDeclarer(fields, fields[i].id, i)
    ensures fields[i].id in st.entries && st.entries[fields[i].id] == Rec(i)
    ensures i < |st.records| && st.records[i] == InitialData(i, fields[i], footer)
  {
    BuiltSlot(st, fields, footer, fields[i].id, i);
  }

  /** Right after a build, such a field's own key refers to its record, and
      that record holds the initial values: index = its list position, init
      false, help text '', not required, no errors, available, no computed
      value, no options, no form value and no default value. */
  lemma {:induction false} BuiltFieldReadsInitial(st: Store, fields: seq<FieldInterface>, footer: seq<FieldNavButton>, i: nat)
    requires IsBuiltFrom(st, fields, footer)
    requires i < |fields| && LastDeclarer(fields, fields[i].id, i)
    ensures fields[i].id in st.entries && st.entries[fields[i].id] == Rec(i) && i < |st.records|
    ensures var d := st.records[i];
      && d.index == i && d.init == Bool(false) && d.helpText == Str("") && d.isRequired == Bool(false)
      && d.errors == Arr([]) && d.isAvailable == Bool(true) && d.computedValue == Null
      && d.listOptions == Arr([]) && d.formValue == Null && d.defaultValue == Null
  {
    BuiltOwnRecord(st, fields, footer, i);
  }

  /** Right after a build, such a field reads the merged buttons. */
  lemma {:induction false} BuiltFieldReadsButtons(st: Store, fields: seq<FieldInterface>, footer: seq<FieldNavButton>, i: nat)
    requires st.Valid() && IsBuiltFrom(st, fields, footer)
    requires i < |fields| && LastDeclarer(fields, fields[i].id, i)
    ensures ReadSlot(st, fields[i].id, NavButtonProps) == Buttons(NavButtons.NavButtonProps(footer, fields[i]))
  {
    BuiltOwnRecord(st, fields, footer, i);
  }

  /** Right after a build, a field that is the last to occupy both its id and
      its proxyID has both keys referring to its one record, so its proxy
      reads and its own reads agree. */
  lemma {:induction false} BuiltProxySharesRecord(st: Store, fields: seq<FieldInterface>, footer: seq<FieldNavButton>, i: nat, attr: Attr)
    requires st.Valid() && IsBuiltFrom(st, fields, footer)
    requires i < |fields| && ProxyOf(fields[i]).Just?
    requires LastDeclarer(fields, fields[i].id, i) && LastDeclarer(fields, ProxyOf(fields[i]).value, i)
    ensures GetFieldDataAttr(st, fields[i], attr, true) == GetFieldDataAttr(st, fields[i], attr, false)
    ensures ProxyOf(fields[i]).value in st.entries && fields[i].id in st.entries
    ensures st.entries[ProxyOf(fields[i]).value] == st.entries[fields[i].id] == Rec(i)
  {
    BuiltSlot(st, fields, footer, fields[i].id, i);
    BuiltSlot(st, fields, footer, ProxyOf(fields[i]).value, i);
  }
}
