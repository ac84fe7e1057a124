/** The hook-driven operations of src/composables/FieldData.ts (`setValue`,
    `computeFieldData`, `clearFieldData`, `onFieldCondition`,
    `setActiveField`, `updateActiveFieldListOptions`) as functions from the
    engine's state to its next state and the settled outcome of the promise.

    Each `await` is one step.  The state is a `World`: the store, the
    active-field pointer and a trace of every hook call, store write, button
    refresh and pointer assignment, in the order the code performs them.
    Every state change happens through `Do`, which applies one logged step,
    so the store a run ends in is always the replay of the steps it logged
    (`Follows`). */
module Pipelines {
  import opened Values
  import opened FieldInterfaces
  import opened FieldStore

  /** One effect of the engine, as logged. */
  datatype Step =
    | Called(field: FieldInterface, hook: HookName)                        // executeHook(field, hook)
    | Wrote(field: FieldInterface, attr: Attr, data: Value, propagate: bool) // setFieldDataAttr(field, data, attr, propagate)
    | Refreshed(field: FieldInterface, event: Event)                       // updateButtonStates(field, event)
    | Pointed(field: FieldInterface)                                       // activeField = field

  /** The engine's state: `fieldData`, `activeField` and the trace so far. */
  datatype World = World(store: Store, active: FieldInterface, trace: seq<Step>)

  /** How the promise of an async operation settles. */
  datatype Outcome<T> = Resolved(value: T) | Rejected

  /** The error `computeFieldData` records for a required field left empty. */
  const EmptyFieldError: string := "Field can't be empty"

  /** The store after the assignments of one `setFieldDataAttr` call. */
  function AfterWrite(st: Store, field: FieldInterface, data: Value, attr: Attr, propagate: bool): (r: Store)
    ensures st.Valid() ==> r.Valid()
  {
    st.(entries := SetFieldDataAttr(st.entries, field, data, attr, propagate))
  }

  /** Perform one step and log it.  A hook call changes no state: the
      callback is modelled as a function of the values it is shown, so it
      cannot write to the store (the code's spread copies are shallow, and a
      callback mutating a record through them is not modelled). */
  function Do(inv: Invoke, w: World, s: Step): (r: World)
    requires w.store.Valid()
    ensures r.store.Valid()
    ensures r.trace == w.trace + [s]
  {
    var logged := w.(trace := w.trace + [s]);
    match s
    case Called(_, _) => logged
    case Wrote(f, a, v, p) => logged.(store := AfterWrite(w.store, f, v, a, p))
    case Refreshed(f, e) => logged.(store := UpdateButtonStates(inv, w.store, f, e).0)
    case Pointed(f) => logged.(active := f)
  }

  /** The state reached by performing the steps `d` one after another. */
  function Replay(inv: Invoke, w: World, d: seq<Step>): (r: World)
    requires w.store.Valid()
    ensures r.store.Valid()
    ensures r.trace == w.trace + d
    decreases |d|
  {
    if d == [] then w
    else
      var r := Do(inv, Replay(inv, w, d[..|d| - 1]), d[|d| - 1]);
      assert w.trace + d == (w.trace + d[..|d| - 1]) + [d[|d| - 1]];
      r
  }

  /** `w'` extends the trace of `w`, and is exactly the state that performing
      the newly logged steps from `w` produces: nothing changed that the
      trace does not account for. */
  ghost predicate Follows(inv: Invoke, w: World, w': World) {
    w.store.Valid() && w.trace <= w'.trace && w' == Replay(inv, w, w'.trace[|w.trace|..])
  }

  /** The steps logged between `w` and `w'`. */
  function Delta(w: World, w': World): seq<Step>
    requires w.trace <= w'.trace
  {
    w'.trace[|w.trace|..]
  }

  lemma {:induction false} ReplayAppend(inv: Invoke, w: World, d1: seq<Step>, d2: seq<Step>)
    requires w.store.Valid()
    ensures Replay(inv, w, d1 + d2) == Replay(inv, Replay(inv, w, d1), d2)
    decreases |d2|
  {
    if d2 == [] {
      assert d1 + d2 == d1;
    } else {
      var d := d1 + d2;
      assert d[..|d| - 1] == d1 + d2[..|d2| - 1];
      assert d[|d| - 1] == d2[|d2| - 1];
      ReplayAppend(inv, w, d1, d2[..|d2| - 1]);
    }
  }

  lemma {:induction false} FollowsTransitive(inv: Invoke, w1: World, w2: World, w3: World)
    requires Follows(inv, w1, w2) && Follows(inv, w2, w3)
    ensures Follows(inv, w1, w3)
  {
    var d1 := w2.trace[|w1.trace|..];
    var d2 := w3.trace[|w2.trace|..];
    assert w3.trace == w1.trace + (d1 + d2);
    assert w3.trace[|w1.trace|..] == d1 + d2;
    ReplayAppend(inv, w1, d1, d2);
  }

  lemma {:induction false} DoFollows(inv: Invoke, w: World, s: Step)
    requires w.store.Valid()
    ensures Follows(inv, w, Do(inv, w, s))
  {
    var r := Do(inv, w, s);
    assert r.trace[|w.trace|..] == [s];
    assert [s][..0] == [];
  }

  /** Performing one more step keeps `Follows` from any earlier state. */
  lemma {:induction false} StepFollows(inv: Invoke, w0: World, w: World, s: Step)
    requires Follows(inv, w0, w)
    ensures Follows(inv, w0, Do(inv, w, s))
  {
    DoFollows(inv, w, s);
    FollowsTransitive(inv, w0, w, Do(inv, w, s));
  }

  lemma FollowsReflexive(inv: Invoke, w: World)
    requires w.store.Valid()
    ensures Follows(inv, w, w)
  {
    assert w.trace[|w.trace|..] == [];
  }

  // ---------------------------------------------------------------------
  // The three kinds of step an operation performs

  /** `await executeHook(field, hook)`: the hook sees the store as it is. */
  function HookStep(inv: Invoke, w: World, field: FieldInterface, hook: HookName): (r: (World, HookResult))
    requires w.store.Valid()
    ensures r.0.store == w.store && r.0.active == w.active
  {
    (Do(inv, w, Called(field, hook)), ExecuteHook(inv, w.store, field, hook))
  }

  /** `setFieldDataAttr(field, data, attr, propagate)`. */
  function WriteStep(inv: Invoke, w: World, field: FieldInterface, data: Value, attr: WritableAttr, propagate: bool): (r: World)
    requires w.store.Valid()
    ensures r.active == w.active && r.store.records == w.store.records
  {
    Do(inv, w, Wrote(field, attr, data, propagate))
  }

  /** `updateButtonStates(field, event)`; `false` is a throw. */
  function RefreshStep(inv: Invoke, w: World, field: FieldInterface, event: Event): (r: (World, bool))
    requires w.store.Valid()
    ensures r.0.active == w.active && r.0.store.entries == w.store.entries
  {
    (Do(inv, w, Refreshed(field, event)), UpdateButtonStates(inv, w.store, field, event).1)
  }

  // ---------------------------------------------------------------------
  // The operations

  /** A defined falsy `onValue` result: `valueOk != undefined && !valueOk`
      (the loose comparison lets `null` through). */
  predicate Vetoes(v: Value) {
    !Nullish(v) && !Truthy(v)
  }

  /** `setValue(val)` (lines 205-231), on the field active when it starts. */
  function SetValue(inv: Invoke, w: World, val: Value): (r: (World, Outcome<()>))
    requires w.store.Valid()
    ensures w.trace <= r.0.trace
    ensures r.0.store.Valid() && r.0.active == w.active
    ensures IsEmptyField(w.active) ==> r == (w, Resolved(()))
  {
    var f := w.active;
    if IsEmptyField(f) then (w, Resolved(()))
    else
      var w1 := WriteStep(inv, w, f, Null, Errors, true);
      var (w2, ok) := HookStep(inv, w1, f, HookName.OnValue);
      if ok.Threw? then (w2, Rejected)
      else if Vetoes(ok.v) then (w2, Resolved(()))
      else StoreValue(inv, w2, f, val)
  }

  /** Lines 218-230, once `onValue` has let the value through. */
  function StoreValue(inv: Invoke, w: World, f: FieldInterface, val: Value): (r: (World, Outcome<()>))
    requires w.store.Valid()
    ensures w.trace <= r.0.trace
    ensures r.0.store.Valid() && r.0.active == w.active
  {
    var prev := GetFieldDataAttr(w.store, f, FormValue, true);
    if !prev.Val? then (w, Rejected)
    else
      var w1 := WriteStep(inv, w, f, Bool(val == prev.v), IsDirty, true);
      var w2 := WriteStep(inv, w1, f, Or(val, Null), FormValue, true);
      var (w3, refreshed) := RefreshStep(inv, w2, f, Event.OnValue);
      if !refreshed then (w3, Rejected)
      else FollowUp(inv, w3, f)
  }

  /** Lines 225-230: the list-options and help-text hooks. */
  function FollowUp(inv: Invoke, w: World, f: FieldInterface): (r: (World, Outcome<()>))
    requires w.store.Valid()
    ensures w.trace <= r.0.trace
    ensures r.0.store.Valid() && r.0.active == w.active
  {
    var (w1, update) := HookStep(inv, w, f, OnValueUpdate);
    if update.Threw? then (w1, Rejected)
    else
      var w2 := if Truthy(update.v) then WriteStep(inv, w1, f, update.v, ListOptions, false) else w1;
      var (w3, help) := HookStep(inv, w2, f, UpdateHelpTextOnValue);
      if help.Threw? then (w3, Rejected)
      else (WriteStep(inv, w3, f, Or(help.v, f.helpText), HelpText, true), Resolved(()))
  }

  /** `computeFieldData()` (lines 238-258): whether the active field may be
      left. */
  function ComputeFieldData(inv: Invoke, w: World): (r: (World, Outcome<bool>))
    requires w.store.Valid()
    ensures w.trace <= r.0.trace
    ensures r.0.store.Valid() && r.0.active == w.active
  {
    var f := w.active;
    var got := GetFieldDataAttr(w.store, f, FormValue, true);
    if !got.Val? then (w, Rejected)
    else
      var (w1, required) := HookStep(inv, w, f, HookName.IsRequired);
      if required.Threw? then (w1, Rejected)
      else
        var w2 := WriteStep(inv, w1, f, Or(required.v, Bool(false)), Attr.IsRequired, false);
        if Truthy(required.v) && IsEmpty(got.v) then
          (WriteStep(inv, w2, f, Arr([Str(EmptyFieldError)]), Errors, false), Resolved(false))
        else
          var (w3, errors) := HookStep(inv, w2, f, Validation);
          if errors.Threw? then (w3, Rejected)
          else if !IsEmpty(errors.v) then (WriteStep(inv, w3, f, errors.v, Errors, true), Resolved(false))
          else
            var (w4, computed) := HookStep(inv, w3, f, HookName.ComputedValue);
            if computed.Threw? then (w4, Rejected)
            else (WriteStep(inv, w4, f, Or(computed.v, Null), Attr.ComputedValue, true), Resolved(true))
  }

  /** `clearFieldData()` (lines 260-267). */
  function ClearFieldData(inv: Invoke, w: World): (r: World)
    requires w.store.Valid()
    ensures w.trace <= r.trace
    ensures r.store.Valid() && r.active == w.active
    ensures IsEmptyField(w.active) ==> r == w
  {
    var f := w.active;
    if IsEmptyField(f) then w
    else
      var w1 := WriteStep(inv, w, f, Null, Errors, true);
      var w2 := WriteStep(inv, w1, f, Null, FormValue, true);
      WriteStep(inv, w2, f, Null, Attr.ComputedValue, true)
  }

  /** `onFieldCondition(field)` (lines 274-291): whether the field is
      available.  The try/catch turns every throw into `false`, so the
      promise always resolves. */
  function OnFieldCondition(inv: Invoke, w: World, field: FieldInterface): (r: (World, Outcome<bool>))
    requires w.store.Valid()
    ensures w.trace <= r.0.trace
    ensures r.0.store.Valid() && r.0.active == w.active
    ensures r.1.Resolved?
  {
    var (w1, available) := HookStep(inv, w, field, Condition);
    if available.Threw? then (w1, Resolved(false))
    else if available.v == Undefined || Truthy(available.v) then
      (WriteStep(inv, w1, field, Bool(true), IsAvailable, true), Resolved(true))
    else
      var (w2, onFalse) := HookStep(inv, w1, field, OnConditionFalse);
      if onFalse.Threw? then (w2, Resolved(false))
      else
        var (w3, output) := HookStep(inv, w2, field, DefaultOutput);
        if output.Threw? then (w3, Resolved(false))
        else
          var (w4, computed) := HookStep(inv, w3, field, DefaultComputedOutput);
          if computed.Threw? then (w4, Resolved(false))
          else
            var w5 := WriteStep(inv, w4, field, Or(output.v, Null), FormValue, true);
            var w6 := WriteStep(inv, w5, field, Or(computed.v, Null), Attr.ComputedValue, true);
            (WriteStep(inv, w6, field, Bool(false), IsAvailable, true), Resolved(false))
  }

  /** `if (read)` on the result of a read that did not throw. */
  predicate ReadTruthy(r: Read) {
    match r
    case Val(v) => Truthy(v)
    case Buttons(_) => true
    case Fails => false
  }

  /** The argument `setActiveField` passes to `setValue`: a string `s`
      becomes the Option `{label: s, value: s}`, anything else goes as it
      is. */
  function DefaultArgument(v: Value): Value {
    if v.Str? then Opt(Option(SStr(v.s), SStr(v.s), Nothing, Nothing)) else v
  }

  /** Lines 309-315: record `init`, fetch the default value and set it. */
  function Seed(inv: Invoke, w: World, field: FieldInterface): (r: (World, Outcome<()>))
    requires w.store.Valid()
    ensures w.trace <= r.0.trace
    ensures r.0.store.Valid() && r.0.active == w.active
  {
    var w1 := WriteStep(inv, w, field, Bool(true), Init, true);
    var (w2, value) := HookStep(inv, w1, field, DefaultValue);
    if value.Threw? then (w2, Rejected)
    else SetValue(inv, w2, DefaultArgument(value.v))
  }

  /** `setActiveField(newField)` (lines 297-330); `now` stands for
      `new Date().getTime()`. */
  function SetActiveField(inv: Invoke, w: World, newField: FieldInterface, now: int): (r: (World, Outcome<()>))
    requires w.store.Valid()
    ensures w.trace <= r.0.trace
    ensures r.0.store.Valid()
  {
    var cur := w.active;
    var (w1, unloaded) := if !IsEmptyField(cur) then HookStep(inv, w, cur, Unload) else (w, Ret(Undefined));
    if unloaded.Threw? then (w1, Rejected)
    else Arrive(inv, Do(inv, w1, Pointed(newField)), now)
  }

  /** Lines 306-316, once the pointer is set: `onload`, and the seeding of the
      default value when `init` reads falsy. */
  function Arrive(inv: Invoke, w: World, now: int): (r: (World, Outcome<()>))
    requires w.store.Valid()
    ensures w.trace <= r.0.trace
    ensures r.0.store.Valid() && r.0.active == w.active
  {
    var f := w.active;
    var (w1, loaded) := HookStep(inv, w, f, Onload);
    if loaded.Threw? then (w1, Rejected)
    else
      var init := GetFieldDataAttr(w1.store, f, Init, true);
      if init.Fails? then (w1, Rejected)
      else
        var (w2, seeded) := if !ReadTruthy(init) then Seed(inv, w1, f) else (w1, Resolved(()));
        if seeded.Rejected? then (w2, Rejected)
        else Settle(inv, w2, now)
  }

  /** Lines 319-329: the 'default' button refresh, the dynamic help text, the
      options and the load time. */
  function Settle(inv: Invoke, w: World, now: int): (r: (World, Outcome<()>))
    requires w.store.Valid()
    ensures w.trace <= r.0.trace
    ensures r.0.store.Valid() && r.0.active == w.active
  {
    var f := w.active;
    var (w1, refreshed) := RefreshStep(inv, w, f, Event.Default);
    if !refreshed then (w1, Rejected)
    else
      var (w2, help) := HookStep(inv, w1, f, DynamicHelpText);
      if help.Threw? then (w2, Rejected)
      else
        var w3 := WriteStep(inv, w2, f, Or(help.v, f.helpText), HelpText, true);
        var (w4, options) := HookStep(inv, w3, f, Options);
        if options.Threw? then (w4, Rejected)
        else
          var w5 := WriteStep(inv, w4, f, Or(options.v, Arr([])), ListOptions, true);
          (WriteStep(inv, w5, w5.active, Num(now), IntLastTimeLoaded, true), Resolved(()))
  }

  /** An Option list as a value. */
  function OptionList(options: seq<Option>): (r: Value)
    ensures r.Arr? && |r.items| == |options|
    ensures forall i :: 0 <= i < |options| ==> r.items[i] == Opt(options[i])
  {
    Arr(seq(|options|, i requires 0 <= i < |options| => Opt(options[i])))
  }

  /** `updateActiveFieldListOptions(options)` (lines 131-133). */
  function UpdateActiveFieldListOptions(inv: Invoke, w: World, options: seq<Option>): (r: World)
    requires w.store.Valid()
    ensures w.trace <= r.trace
    ensures r.store.Valid() && r.active == w.active
  {
    WriteStep(inv, w, w.active, OptionList(options), ListOptions, true)
  }
}
