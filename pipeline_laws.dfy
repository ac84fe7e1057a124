/** What the hook-driven operations promise: the order of their hook calls
    and writes, their veto and short-circuit gates, their outcomes, and the
    frame property that every state change is one of the logged steps. */
module PipelineLaws {
  import opened Values
  import opened FieldInterfaces
  import opened FieldStore
  import opened Pipelines

  // ---------------------------------------------------------------------
  // Frame: each operation ends in the replay of the steps it logged

  lemma {:induction false} FollowUpFollows(inv: Invoke, w0: World, w: World, f: FieldInterface)
    requires Follows(inv, w0, w)
    ensures Follows(inv, w0, FollowUp(inv, w, f).0)
  {
    var (w1, update) := HookStep(inv, w, f, OnValueUpdate);
    StepFollows(inv, w0, w, Called(f, OnValueUpdate));
    if update.Ret? {
      var w2 := if Truthy(update.v) then WriteStep(inv, w1, f, update.v, ListOptions, false) else w1;
      if Truthy(update.v) {
        StepFollows(inv, w0, w1, Wrote(f, ListOptions, update.v, false));
      }
      var (w3, help) := HookStep(inv, w2, f, UpdateHelpTextOnValue);
      StepFollows(inv, w0, w2, Called(f, UpdateHelpTextOnValue));
      if help.Ret? {
        StepFollows(inv, w0, w3, Wrote(f, HelpText, Or(help.v, f.helpText), true));
      }
    }
  }

  lemma {:induction false} StoreValueFollows(inv: Invoke, w0: World, w: World, f: FieldInterface, val: Value)
    requires Follows(inv, w0, w)
    ensures Follows(inv, w0, StoreValue(inv, w, f, val).0)
  {
    var prev := GetFieldDataAttr(w.store, f, FormValue, true);
    if prev.Val? {
      var w1 := WriteStep(inv, w, f, Bool(val == prev.v), IsDirty, true);
      StepFollows(inv, w0, w, Wrote(f, IsDirty, Bool(val == prev.v), true));
      var w2 := WriteStep(inv, w1, f, Or(val, Null), FormValue, true);
      StepFollows(inv, w0, w1, Wrote(f, FormValue, Or(val, Null), true));
      var (w3, refreshed) := RefreshStep(inv, w2, f, Event.OnValue);
      StepFollows(inv, w0, w2, Refreshed(f, Event.OnValue));
      if refreshed {
        FollowUpFollows(inv, w0, w3, f);
      }
    }
  }

  /** `setValue` changes nothing but what its logged writes and button
      refresh change. */
  lemma {:induction false} SetValueFollows(inv: Invoke, w: World, val: Value)
    requires w.store.Valid()
    ensures Follows(inv, w, SetValue(inv, w, val).0)
  {
    FollowsReflexive(inv, w);
    var f := w.active;
    if !IsEmptyField(f) {
      var w1 := WriteStep(inv, w, f, Null, Errors, true);
      StepFollows(inv, w, w, Wrote(f, Errors, Null, true));
      var (w2, ok) := HookStep(inv, w1, f, HookName.OnValue);
      StepFollows(inv, w, w1, Called(f, HookName.OnValue));
      if ok.Ret? && !Vetoes(ok.v) {
        StoreValueFollows(inv, w, w2, f, val);
      }
    }
  }

  /** `computeFieldData` changes nothing but what its logged writes change. */
  lemma {:induction false} ComputeFieldDataFollows(inv: Invoke, w: World)
    requires w.store.Valid()
    ensures Follows(inv, w, ComputeFieldData(inv, w).0)
  {
    FollowsReflexive(inv, w);
    var f := w.active;
    var got := GetFieldDataAttr(w.store, f, FormValue, true);
    if got.Val? {
      var (w1, required) := HookStep(inv, w, f, HookName.IsRequired);
      StepFollows(inv, w, w, Called(f, HookName.IsRequired));
      if required.Ret? {
        var w2 := WriteStep(inv, w1, f, Or(required.v, Bool(false)), Attr.IsRequired, false);
        StepFollows(inv, w, w1, Wrote(f, Attr.IsRequired, Or(required.v, Bool(false)), false));
        if Truthy(required.v) && IsEmpty(got.v) {
          StepFollows(inv, w, w2, Wrote(f, Errors, Arr([Str(EmptyFieldError)]), false));
        } else {
          var (w3, errors) := HookStep(inv, w2, f, Validation);
          StepFollows(inv, w, w2, Called(f, Validation));
          if errors.Ret? {
            if !IsEmpty(errors.v) {
              StepFollows(inv, w, w3, Wrote(f, Errors, errors.v, true));
            } else {
              var (w4, computed) := HookStep(inv, w3, f, HookName.ComputedValue);
              StepFollows(inv, w, w3, Called(f, HookName.ComputedValue));
              if computed.Ret? {
                StepFollows(inv, w, w4, Wrote(f, Attr.ComputedValue, Or(computed.v, Null), true));
              }
            }
          }
        }
      }
    }
  }

  /** `clearFieldData` changes nothing but what its three logged writes
      change. */
  lemma {:induction false} ClearFieldDataFollows(inv: Invoke, w: World)
    requires w.store.Valid()
    ensures Follows(inv, w, ClearFieldData(inv, w))
  {
    FollowsReflexive(inv, w);
    var f := w.active;
    if !IsEmptyField(f) {
      var w1 := WriteStep(inv, w, f, Null, Errors, true);
      StepFollows(inv, w, w, Wrote(f, Errors, Null, true));
      var w2 := WriteStep(inv, w1, f, Null, FormValue, true);
      StepFollows(inv, w, w1, Wrote(f, FormValue, Null, true));
      StepFollows(inv, w, w2, Wrote(f, Attr.ComputedValue, Null, true));
    }
  }

  /** `onFieldCondition` changes nothing but what its logged writes change. */
  lemma {:induction false} OnFieldConditionFollows(inv: Invoke, w: World, field: FieldInterface)
    requires w.store.Valid()
    ensures Follows(inv, w, OnFieldCondition(inv, w, field).0)
  {
    FollowsReflexive(inv, w);
    var (w1, available) := HookStep(inv, w, field, Condition);
    StepFollows(inv, w, w, Called(field, Condition));
    if available.Ret? {
      if available.v == Undefined || Truthy(available.v) {
        StepFollows(inv, w, w1, Wrote(field, IsAvailable, Bool(true), true));
      } else {
        var (w2, onFalse) := HookStep(inv, w1, field, OnConditionFalse);
        StepFollows(inv, w, w1, Called(field, OnConditionFalse));
        if onFalse.Ret? {
          var (w3, output) := HookStep(inv, w2, field, DefaultOutput);
          StepFollows(inv, w, w2, Called(field, DefaultOutput));
          if output.Ret? {
            var (w4, computed) := HookStep(inv, w3, field, DefaultComputedOutput);
            StepFollows(inv, w, w3, Called(field, DefaultComputedOutput));
            if computed.Ret? {
              var w5 := WriteStep(inv, w4, field, Or(output.v, Null), FormValue, true);
              StepFollows(inv, w, w4, Wrote(field, FormValue, Or(output.v, Null), true));
              var w6 := WriteStep(inv, w5, field, Or(computed.v, Null), Attr.ComputedValue, true);
              StepFollows(inv, w, w5, Wrote(field, Attr.ComputedValue, Or(computed.v, Null), true));
              StepFollows(inv, w, w6, Wrote(field, IsAvailable, Bool(false), true));
            }
          }
        }
      }
    }
  }

  lemma {:induction false} SettleFollows(inv: Invoke, w0: World, w: World, now: int)
    requires Follows(inv, w0, w)
    ensures Follows(inv, w0, Settle(inv, w, now).0)
  {
    var f := w.active;
    var (w1, refreshed) := RefreshStep(inv, w, f, Event.Default);
    StepFollows(inv, w0, w, Refreshed(f, Event.Default));
    if refreshed {
      var (w2, help) := HookStep(inv, w1, f, DynamicHelpText);
      StepFollows(inv, w0, w1, Called(f, DynamicHelpText));
      if help.Ret? {
        var w3 := WriteStep(inv, w2, f, Or(help.v, f.helpText), HelpText, true);
        StepFollows(inv, w0, w2, Wrote(f, HelpText, Or(help.v, f.helpText), true));
        var (w4, options) := HookStep(inv, w3, f, Options);
        StepFollows(inv, w0, w3, Called(f, Options));
        if options.Ret? {
          var w5 := WriteStep(inv, w4, f, Or(options.v, Arr([])), ListOptions, true);
          StepFollows(inv, w0, w4, Wrote(f, ListOptions, Or(options.v, Arr([])), true));
          StepFollows(inv, w0, w5, Wrote(w5.active, IntLastTimeLoaded, Num(now), true));
        }
      }
    }
  }

  /** The seeding of the default value ends in the replay of its logged
      steps. */
  lemma {:induction false} SeedFollows(inv: Invoke, w0: World, w: World, field: FieldInterface)
    requires Follows(inv, w0, w)
    ensures Follows(inv, w0, Seed(inv, w, field).0)
  {
    var w1 := WriteStep(inv, w, field, Bool(true), Init, true);
    StepFollows(inv, w0, w, Wrote(field, Init, Bool(true), true));
    var (w2, value) := HookStep(inv, w1, field, DefaultValue);
    StepFollows(inv, w0, w1, Called(field, DefaultValue));
    if value.Ret? {
      SetValueFollows(inv, w2, DefaultArgument(value.v));
      FollowsTransitive(inv, w0, w2, SetValue(inv, w2, DefaultArgument(value.v)).0);
    }
  }

  lemma {:induction false} ArriveFollows(inv: Invoke, w0: World, w: World, now: int)
    requires Follows(inv, w0, w)
    ensures Follows(inv, w0, Arrive(inv, w, now).0)
  {
    var f := w.active;
    var (w1, loaded) := HookStep(inv, w, f, Onload);
    StepFollows(inv, w0, w, Called(f, Onload));
    if loaded.Ret? {
      var init := GetFieldDataAttr(w1.store, f, Init, true);
      if !init.Fails? {
        if !ReadTruthy(init) {
          var seeded := Seed(inv, w1, f);
          SeedFollows(inv, w0, w1, f);
          if seeded.1.Resolved? {
            SettleFollows(inv, w0, seeded.0, now);
          }
        } else {
          SettleFollows(inv, w0, w1, now);
        }
      }
    }
  }

  /** `setActiveField` changes nothing but what its logged steps change (the
      pointer assignment among them). */
  lemma {:induction false} SetActiveFieldFollows(inv: Invoke, w: World, newField: FieldInterface, now: int)
    requires w.store.Valid()
    ensures Follows(inv, w, SetActiveField(inv, w, newField, now).0)
  {
    FollowsReflexive(inv, w);
    var cur := w.active;
    var (w1, unloaded) := if !IsEmptyField(cur) then HookStep(inv, w, cur, Unload) else (w, Ret(Undefined));
    if !IsEmptyField(cur) {
      StepFollows(inv, w, w, Called(cur, Unload));
    }
    if unloaded.Ret? {
      StepFollows(inv, w, w1, Pointed(newField));
      ArriveFollows(inv, w, Do(inv, w1, Pointed(newField)), now);
    }
  }

  // ---------------------------------------------------------------------
  // setValue

  /** With no active field `setValue` does nothing; otherwise it first
      writes null to `errors` and then calls `onValue`, on the store as that
      write left it. */
  lemma {:induction false} SetValueBegins(inv: Invoke, w: World, val: Value)
    requires w.store.Valid()
    ensures var r := SetValue(inv, w, val);
      && (IsEmptyField(w.active) ==> r == (w, Resolved(())))
      && (!IsEmptyField(w.active) ==>
            |Delta(w, r.0)| >= 2 &&
            Delta(w, r.0)[..2] == [Wrote(w.active, Errors, Null, true), Called(w.active, HookName.OnValue)])
  {
    var r := SetValue(inv, w, val);
    var f := w.active;
    if !IsEmptyField(f) {
      var w1 := WriteStep(inv, w, f, Null, Errors, true);
      var (w2, ok) := HookStep(inv, w1, f, HookName.OnValue);
      assert w2.trace == w.trace + [Wrote(f, Errors, Null, true), Called(f, HookName.OnValue)];
      assert w2.trace <= r.0.trace;
      assert Delta(w, r.0)[..2] == r.0.trace[|w.trace|..|w.trace| + 2] == w2.trace[|w.trace|..];
    }
  }

  /** The values that veto: `false`, `0` and the empty string. `null`
      passes the loose `!= undefined` test yet does not veto, and neither
      does `undefined`. */
  lemma VetoValues(v: Value)
    ensures Vetoes(v) <==> v == Bool(false) || v == Num(0) || v == Str("")
  {
  }

  /** The default-value argument: a string becomes an Option whose label and
      value are that string, anything else is passed as it is. Even the
      empty string becomes a (truthy) Option, so `val || null` in `setValue`
      stores it rather than null. */
  lemma DefaultArgumentShape(v: Value)
    ensures v.Str? ==> DefaultArgument(v) == Opt(Option(SStr(v.s), SStr(v.s), Nothing, Nothing))
    ensures !v.Str? ==> DefaultArgument(v) == v
    ensures Truthy(DefaultArgument(v)) <==> Truthy(v) || v == Str("")
  {
  }

  /** The veto: exactly when `onValue` (seeing the store after the errors
      write) returns a defined falsy value, `setValue` resolves with no hook
      call or write after `onValue`, and the store is as the errors write
      left it. */
  lemma {:induction false} SetValueVeto(inv: Invoke, w: World, val: Value)
    requires w.store.Valid() && !IsEmptyField(w.active)
    ensures var f := w.active;
      var st1 := AfterWrite(w.store, f, Null, Errors, true);
      var ok := ExecuteHook(inv, st1, f, HookName.OnValue);
      var r := SetValue(inv, w, val);
      && ((ok.Ret? && Vetoes(ok.v)) <==>
            (r.1.Resolved? && r.0.trace == w.trace + [Wrote(f, Errors, Null, true), Called(f, HookName.OnValue)]))
      && (ok.Ret? && Vetoes(ok.v) ==> r.0.store == st1)
  {
    var f := w.active;
    var r := SetValue(inv, w, val);
    var w1 := WriteStep(inv, w, f, Null, Errors, true);
    var (w2, ok) := HookStep(inv, w1, f, HookName.OnValue);
    if ok.Ret? && !Vetoes(ok.v) {
      StoreValueLonger(inv, w2, f, val);
    }
  }

  /** A `StoreValue` that resolves has logged steps. */
  lemma {:induction false} StoreValueLonger(inv: Invoke, w: World, f: FieldInterface, val: Value)
    requires w.store.Valid()
    ensures StoreValue(inv, w, f, val).1.Resolved? ==> |StoreValue(inv, w, f, val).0.trace| > |w.trace|
  {
    var prev := GetFieldDataAttr(w.store, f, FormValue, true);
    if prev.Val? {
      var w1 := WriteStep(inv, w, f, Bool(val == prev.v), IsDirty, true);
      assert |w1.trace| > |w.trace|;
    }
  }

  /** The steps of `FollowUp` when it resolves, for the hook results `update`
      and `help`. */
  function FollowUpSteps(f: FieldInterface, update: Value, help: Value): seq<Step> {
    [Called(f, OnValueUpdate)]
    + (if Truthy(update) then [Wrote(f, ListOptions, update, false)] else [])
    + [Called(f, UpdateHelpTextOnValue), Wrote(f, HelpText, Or(help, f.helpText), true)]
  }

  /** When `FollowUp` resolves from `w`, both hooks returned, and its steps
      are `onValueUpdate` (called on the store as it is), the `listOptions`
      write of that result when it is truthy, `updateHelpTextOnValue`
      (called on the store that write left) and the `helpText` write of
      that result or the static help text. */
  lemma {:induction false} FollowUpResolved(inv: Invoke, w: World, f: FieldInterface)
    requires w.store.Valid() && FollowUp(inv, w, f).1.Resolved?
    ensures var update := ExecuteHook(inv, w.store, f, OnValueUpdate);
      update.Ret? &&
      var st2 := if Truthy(update.v) then AfterWrite(w.store, f, update.v, ListOptions, false) else w.store;
      var help := ExecuteHook(inv, st2, f, UpdateHelpTextOnValue);
      help.Ret? && FollowUp(inv, w, f).0.trace == w.trace + FollowUpSteps(f, update.v, help.v)
  {
    var (w1, update) := HookStep(inv, w, f, OnValueUpdate);
    var w2 := if Truthy(update.v) then WriteStep(inv, w1, f, update.v, ListOptions, false) else w1;
    var (w3, help) := HookStep(inv, w2, f, UpdateHelpTextOnValue);
    assert FollowUp(inv, w, f).0.trace == w.trace + FollowUpSteps(f, update.v, help.v);
  }

  /** When the store-value part of `setValue` resolves from `w`, it has
      written `isDirty` := whether `val` EQUALS the form value read through
      the proxy (true when unchanged) and `formValue` := `val || null`,
      refreshed the buttons for 'onValue', and run the follow-up of
      `FollowUpResolved` on the store that refresh left. */
  lemma {:induction false} StoreValueSteps(inv: Invoke, w: World, f: FieldInterface, val: Value)
    requires w.store.Valid() && StoreValue(inv, w, f, val).1.Resolved?
    ensures var prev := GetFieldDataAttr(w.store, f, FormValue, true);
      prev.Val? &&
      var st2 := AfterWrite(AfterWrite(w.store, f, Bool(val == prev.v), IsDirty, true), f, Or(val, Null), FormValue, true);
      var st3 := UpdateButtonStates(inv, st2, f, Event.OnValue).0;
      var update := ExecuteHook(inv, st3, f, OnValueUpdate);
      update.Ret? &&
      var st4 := if Truthy(update.v) then AfterWrite(st3, f, update.v, ListOptions, false) else st3;
      var help := ExecuteHook(inv, st4, f, UpdateHelpTextOnValue);
      help.Ret? &&
      StoreValue(inv, w, f, val).0.trace == w.trace +
        [Wrote(f, IsDirty, Bool(val == prev.v), true), Wrote(f, FormValue, Or(val, Null), true),
         Refreshed(f, Event.OnValue)]
        + FollowUpSteps(f, update.v, help.v)
  {
    var prev := GetFieldDataAttr(w.store, f, FormValue, true);
    var w1 := WriteStep(inv, w, f, Bool(val == prev.v), IsDirty, true);
    var w2 := WriteStep(inv, w1, f, Or(val, Null), FormValue, true);
    var (w3, refreshed) := RefreshStep(inv, w2, f, Event.OnValue);
    assert w3.store == UpdateButtonStates(inv, w2.store, f, Event.OnValue).0;
    assert w3.trace == w.trace + [Wrote(f, IsDirty, Bool(val == prev.v), true),
      Wrote(f, FormValue, Or(val, Null), true), Refreshed(f, Event.OnValue)];
    FollowUpResolved(inv, w3, f);
    assert StoreValue(inv, w, f, val) == FollowUp(inv, w3, f);
  }

  /** When it resolves past the veto, `setValue` performs, in order: the
      errors write, `onValue`, and then the steps of `StoreValueSteps` on the
      store the errors write left: `isDirty` := whether `val` EQUALS the old
      form value, `formValue` := `val || null`, the 'onValue' button
      refresh, `onValueUpdate` with a truthy result written to `listOptions`
      without proxy propagation, `updateHelpTextOnValue` and `helpText` :=
      its result or the static help text. */
  lemma {:induction false} SetValueSteps(inv: Invoke, w: World, val: Value)
    requires w.store.Valid() && !IsEmptyField(w.active)
    requires var st1 := AfterWrite(w.store, w.active, Null, Errors, true);
      var ok := ExecuteHook(inv, st1, w.active, HookName.OnValue);
      !(ok.Ret? && Vetoes(ok.v))
    requires SetValue(inv, w, val).1.Resolved?
    ensures var f := w.active;
      var st1 := AfterWrite(w.store, f, Null, Errors, true);
      var prev := GetFieldDataAttr(st1, f, FormValue, true);
      prev.Val? &&
      var st4 := AfterWrite(AfterWrite(st1, f, Bool(val == prev.v), IsDirty, true), f, Or(val, Null), FormValue, true);
      var st5 := UpdateButtonStates(inv, st4, f, Event.OnValue).0;
      var update := ExecuteHook(inv, st5, f, OnValueUpdate);
      update.Ret? &&
      var st6 := if Truthy(update.v) then AfterWrite(st5, f, update.v, ListOptions, false) else st5;
      var help := ExecuteHook(inv, st6, f, UpdateHelpTextOnValue);
      help.Ret? &&
      SetValue(inv, w, val).0.trace == w.trace +
        [Wrote(f, Errors, Null, true), Called(f, HookName.OnValue),
         Wrote(f, IsDirty, Bool(val == prev.v), true), Wrote(f, FormValue, Or(val, Null), true),
         Refreshed(f, Event.OnValue)]
        + FollowUpSteps(f, update.v, help.v)
  {
    var f := w.active;
    var w2 := World(AfterWrite(w.store, f, Null, Errors, true), f,
      w.trace + [Wrote(f, Errors, Null, true), Called(f, HookName.OnValue)]);
    SetValuePassesOn(inv, w, val);
    StoreValueSteps(inv, w2, f, val);
    var prev := GetFieldDataAttr(w2.store, f, FormValue, true);
    assert w2.trace + [Wrote(f, IsDirty, Bool(val == prev.v), true), Wrote(f, FormValue, Or(val, Null), true),
        Refreshed(f, Event.OnValue)]
      == w.trace + [Wrote(f, Errors, Null, true), Called(f, HookName.OnValue),
         Wrote(f, IsDirty, Bool(val == prev.v), true), Wrote(f, FormValue, Or(val, Null), true),
         Refreshed(f, Event.OnValue)];
  }

  /** Past the veto, `setValue` continues as the store-value part from the
      state the errors write and `onValue` left. */
  lemma {:induction false} SetValuePassesOn(inv: Invoke, w: World, val: Value)
    requires w.store.Valid() && !IsEmptyField(w.active)
    requires var st1 := AfterWrite(w.store, w.active, Null, Errors, true);
      var ok := ExecuteHook(inv, st1, w.active, HookName.OnValue);
      ok.Ret? && !Vetoes(ok.v)
    ensures var f := w.active;
      SetValue(inv, w, val) == StoreValue(inv, World(AfterWrite(w.store, f, Null, Errors, true), f,
        w.trace + [Wrote(f, Errors, Null, true), Called(f, HookName.OnValue)]), f, val)
  {
    var f := w.active;
    var w1 := WriteStep(inv, w, f, Null, Errors, true);
    var (w2, ok) := HookStep(inv, w1, f, HookName.OnValue);
    assert w2.trace == w.trace + [Wrote(f, Errors, Null, true), Called(f, HookName.OnValue)];
  }

  // ---------------------------------------------------------------------
  // computeFieldData

  /** The required-but-empty gate: a truthy `isRequired` result with an
      empty form value happens exactly when `computeFieldData` resolves
      false without calling `validation`; then it has written
      `isRequired` and the error list ["Field can't be empty"], both without
      proxy propagation, and called nothing else. */
  lemma {:induction false} ComputeRequiredEmpty(inv: Invoke, w: World)
    requires w.store.Valid()
    ensures var f := w.active;
      var got := GetFieldDataAttr(w.store, f, FormValue, true);
      var required := ExecuteHook(inv, w.store, f, HookName.IsRequired);
      var r := ComputeFieldData(inv, w);
      var gate := got.Val? && required.Ret? && Truthy(required.v) && IsEmpty(got.v);
      && (gate <==> r.1 == Resolved(false) && Called(f, Validation) !in Delta(w, r.0))
      && (gate ==>
            r.0.trace == w.trace +
              [Called(f, HookName.IsRequired), Wrote(f, Attr.IsRequired, Or(required.v, Bool(false)), false),
               Wrote(f, Errors, Arr([Str(EmptyFieldError)]), false)])
  {
    var f := w.active;
    var got := GetFieldDataAttr(w.store, f, FormValue, true);
    var r := ComputeFieldData(inv, w);
    if got.Val? {
      var (w1, required) := HookStep(inv, w, f, HookName.IsRequired);
      if required.Ret? {
        var w2 := WriteStep(inv, w1, f, Or(required.v, Bool(false)), Attr.IsRequired, false);
        if !(Truthy(required.v) && IsEmpty(got.v)) {
          var (w3, errors) := HookStep(inv, w2, f, Validation);
          assert w3.trace == w2.trace + [Called(f, Validation)];
          assert w3.trace <= r.0.trace;
          assert Delta(w, r.0)[|w2.trace| - |w.trace|] == Called(f, Validation);
        }
      }
    }
  }

  /** Resolving false never calls `computedValue`; `computeFieldData`
      resolves true exactly when its gates pass, and then it has done what
      `ComputedResolution` says: `isRequired`, `validation` and
      `computedValue` called in that order and `computedValue` (or null)
      written last with proxy propagation. */
  lemma {:induction false} ComputeOutcomes(inv: Invoke, w: World)
    requires w.store.Valid()
    ensures var f := w.active;
      var r := ComputeFieldData(inv, w);
      && (r.1 == Resolved(false) ==> Called(f, HookName.ComputedValue) !in Delta(w, r.0))
      && (r.1 == Resolved(true) <==> ComputeGatesPass(inv, w))
      && (r.1 == Resolved(true) ==> ComputedResolution(inv, w, r.0))
  {
    var f := w.active;
    var got := GetFieldDataAttr(w.store, f, FormValue, true);
    var r := ComputeFieldData(inv, w);
    if r.1 == Resolved(true) {
      ComputeResolvedSteps(inv, w);
    } else if ComputeGatesPass(inv, w) {
      ComputeGatesResolve(inv, w);
    } else if got.Val? {
      var (w1, required) := HookStep(inv, w, f, HookName.IsRequired);
      if required.Ret? {
        var w2 := WriteStep(inv, w1, f, Or(required.v, Bool(false)), Attr.IsRequired, false);
        if !(Truthy(required.v) && IsEmpty(got.v)) {
          var (w3, errors) := HookStep(inv, w2, f, Validation);
          if errors.Ret? && !IsEmpty(errors.v) {
            assert Delta(w, r.0) == [Called(f, HookName.IsRequired),
              Wrote(f, Attr.IsRequired, Or(required.v, Bool(false)), false),
              Called(f, Validation), Wrote(f, Errors, errors.v, true)];
          }
        } else {
          assert Delta(w, r.0) == [Called(f, HookName.IsRequired),
            Wrote(f, Attr.IsRequired, Or(required.v, Bool(false)), false),
            Wrote(f, Errors, Arr([Str(EmptyFieldError)]), false)];
        }
      }
    }
  }

  /** The gates of `computeFieldData` from `w`: the form value is readable,
      `isRequired` returns without flagging it as missing, and, on the store
      after the `isRequired` write, `validation` returns an empty result and
      `computedValue` returns. */
  ghost predicate ComputeGatesPass(inv: Invoke, w: World)
    requires w.store.Valid()
  {
    var f := w.active;
    var got := GetFieldDataAttr(w.store, f, FormValue, true);
    var required := ExecuteHook(inv, w.store, f, HookName.IsRequired);
    got.Val? && required.Ret? && !(Truthy(required.v) && IsEmpty(got.v)) &&
    var st2 := AfterWrite(w.store, f, Or(required.v, Bool(false)), Attr.IsRequired, false);
    var errors := ExecuteHook(inv, st2, f, Validation);
    var computed := ExecuteHook(inv, st2, f, HookName.ComputedValue);
    errors.Ret? && IsEmpty(errors.v) && computed.Ret?
  }

  /** What a `computeFieldData` that resolved true did, from `w` to `w'`:
      its gates passed, the `isRequired` flag stored is truthy exactly when
      the hook's result is, and `computedValue` (or null, never undefined)
      was written last with proxy propagation. */
  ghost predicate ComputedResolution(inv: Invoke, w: World, w': World)
    requires w.store.Valid()
  {
    var f := w.active;
    var required := ExecuteHook(inv, w.store, f, HookName.IsRequired);
    ComputeGatesPass(inv, w) &&
    var st2 := AfterWrite(w.store, f, Or(required.v, Bool(false)), Attr.IsRequired, false);
    var computed := ExecuteHook(inv, st2, f, HookName.ComputedValue);
    && (Truthy(Or(required.v, Bool(false))) <==> Truthy(required.v))
    && Or(computed.v, Null) != Undefined
    && w'.store == AfterWrite(st2, f, Or(computed.v, Null), Attr.ComputedValue, true)
    && w'.trace == w.trace +
         [Called(f, HookName.IsRequired), Wrote(f, Attr.IsRequired, Or(required.v, Bool(false)), false),
          Called(f, Validation), Called(f, HookName.ComputedValue),
          Wrote(f, Attr.ComputedValue, Or(computed.v, Null), true)]
  }

  /** A `computeFieldData` that resolved true is described exactly by
      `ComputedResolution`. */
  lemma {:induction false} ComputeResolvedSteps(inv: Invoke, w: World)
    requires w.store.Valid() && ComputeFieldData(inv, w).1 == Resolved(true)
    ensures ComputedResolution(inv, w, ComputeFieldData(inv, w).0)
  {
    var f := w.active;
    var got := GetFieldDataAttr(w.store, f, FormValue, true);
    var (w1, required) := HookStep(inv, w, f, HookName.IsRequired);
    var w2 := WriteStep(inv, w1, f, Or(required.v, Bool(false)), Attr.IsRequired, false);
    var (w3, errors) := HookStep(inv, w2, f, Validation);
    var (w4, computed) := HookStep(inv, w3, f, HookName.ComputedValue);
    OrNull(computed.v);
    OrTruthy(required.v, Bool(false));
    assert ComputeFieldData(inv, w).0.trace == w.trace +
      [Called(f, HookName.IsRequired), Wrote(f, Attr.IsRequired, Or(required.v, Bool(false)), false),
       Called(f, Validation), Called(f, HookName.ComputedValue),
       Wrote(f, Attr.ComputedValue, Or(computed.v, Null), true)];
  }

  /** The converse: when the gates pass, `computeFieldData` resolves true,
      having written `computedValue` as `ComputedResolution` says. */
  lemma {:induction false} ComputeGatesResolve(inv: Invoke, w: World)
    requires w.store.Valid() && ComputeGatesPass(inv, w)
    ensures ComputeFieldData(inv, w).1 == Resolved(true)
    ensures ComputedResolution(inv, w, ComputeFieldData(inv, w).0)
  {
    ComputeResolvedSteps(inv, w);
  }

  /** A non-empty `validation` result, which is then truthy, is written to
      `errors` with proxy propagation and makes `computeFieldData` resolve
      false. */
  lemma {:induction false} ComputeValidationFails(inv: Invoke, w: World)
    requires w.store.Valid()
    requires var f := w.active;
      var got := GetFieldDataAttr(w.store, f, FormValue, true);
      var required := ExecuteHook(inv, w.store, f, HookName.IsRequired);
      got.Val? && required.Ret? && !(Truthy(required.v) && IsEmpty(got.v))
    ensures var f := w.active;
      var required := ExecuteHook(inv, w.store, f, HookName.IsRequired);
      var w2 := World(AfterWrite(w.store, f, Or(required.v, Bool(false)), Attr.IsRequired, false), w.active, []);
      var errors := ExecuteHook(inv, w2.store, f, Validation);
      var r := ComputeFieldData(inv, w);
      errors.Ret? && !IsEmpty(errors.v) ==>
        Truthy(errors.v) && r.1 == Resolved(false) &&
        Delta(w, r.0) == [Called(f, HookName.IsRequired), Wrote(f, Attr.IsRequired, Or(required.v, Bool(false)), false),
                          Called(f, Validation), Wrote(f, Errors, errors.v, true)]
  {
    var required := ExecuteHook(inv, w.store, w.active, HookName.IsRequired);
    var st2 := AfterWrite(w.store, w.active, Or(required.v, Bool(false)), Attr.IsRequired, false);
    var errors := ExecuteHook(inv, st2, w.active, Validation);
    if errors.Ret? {
      NonEmptyIsTruthy(errors.v);
    }
  }

  // ---------------------------------------------------------------------
  // clearFieldData

  /** `clearFieldData` writes null to `errors`, `formValue` and
      `computedValue`, in that order, with proxy propagation. */
  lemma {:induction false} ClearSteps(inv: Invoke, w: World)
    requires w.store.Valid() && !IsEmptyField(w.active)
    ensures ClearFieldData(inv, w).trace == w.trace +
      [Wrote(w.active, Errors, Null, true), Wrote(w.active, FormValue, Null, true),
       Wrote(w.active, Attr.ComputedValue, Null, true)]
  {
  }

  /** The keys `clearFieldData` assigns: those of the three writes. */
  function ClearedKeys(f: FieldInterface): set<Id> {
    WriteSet(f, Errors, true) + WriteSet(f, FormValue, true) + WriteSet(f, Attr.ComputedValue, true)
  }

  /** What `clearFieldData` leaves: each assigned key holds a bare `null`
      (throwing on every later read), every other key is untouched. */
  lemma {:induction false} ClearEffect(inv: Invoke, w: World)
    requires w.store.Valid()
    ensures var r := ClearFieldData(inv, w);
      var cleared := if IsEmptyField(w.active) then {} else ClearedKeys(w.active);
      && r.store.records == w.store.records
      && r.store.entries.Keys == w.store.entries.Keys + cleared
      && (forall k :: k in cleared ==> r.store.entries[k] == Raw(Null))
      && (forall k :: k in w.store.entries && k !in cleared ==> r.store.entries[k] == w.store.entries[k])
  {
  }

  /** Clearing twice leaves the store as clearing once. */
  lemma {:induction false} ClearIdempotent(inv: Invoke, w: World)
    requires w.store.Valid()
    ensures ClearFieldData(inv, ClearFieldData(inv, w)).store == ClearFieldData(inv, w).store
  {
    var once := ClearFieldData(inv, w);
    var twice := ClearFieldData(inv, once);
    ClearEffect(inv, w);
    ClearEffect(inv, once);
    assert twice.store.entries == once.store.entries;
  }

  // ---------------------------------------------------------------------
  // onFieldCondition

  /** `onFieldCondition` resolves true exactly when `condition` returns
      `undefined` or a truthy value; then it has only written `isAvailable`
      := true. */
  lemma {:induction false} ConditionTrue(inv: Invoke, w: World, field: FieldInterface)
    requires w.store.Valid()
    ensures var c := ExecuteHook(inv, w.store, field, Condition);
      var r := OnFieldCondition(inv, w, field);
      && (r.1 == Resolved(true) <==> c.Ret? && (c.v == Undefined || Truthy(c.v)))
      && (r.1 == Resolved(true) ==>
            r.0.trace == w.trace + [Called(field, Condition), Wrote(field, IsAvailable, Bool(true), true)])
  {
  }

  /** Otherwise it calls `onConditionFalse`, `defaultOutput` and
      `defaultComputedOutput` in that order (all seeing the original store),
      writes `formValue` and `computedValue` (null when falsy) and
      `isAvailable` := false, and resolves false. */
  lemma {:induction false} ConditionFalse(inv: Invoke, w: World, field: FieldInterface)
    requires w.store.Valid()
    requires var c := ExecuteHook(inv, w.store, field, Condition);
      c.Ret? && c.v != Undefined && !Truthy(c.v)
    requires ExecuteHook(inv, w.store, field, OnConditionFalse).Ret?
    requires ExecuteHook(inv, w.store, field, DefaultOutput).Ret?
    requires ExecuteHook(inv, w.store, field, DefaultComputedOutput).Ret?
    ensures var output := ExecuteHook(inv, w.store, field, DefaultOutput).v;
      var computed := ExecuteHook(inv, w.store, field, DefaultComputedOutput).v;
      var r := OnFieldCondition(inv, w, field);
      r.1 == Resolved(false) &&
      r.0.trace == w.trace +
        [Called(field, Condition), Called(field, OnConditionFalse), Called(field, DefaultOutput),
         Called(field, DefaultComputedOutput),
         Wrote(field, FormValue, Or(output, Null), true),
         Wrote(field, Attr.ComputedValue, Or(computed, Null), true),
         Wrote(field, IsAvailable, Bool(false), true)]
  {
  }

  /** An exception in any of its hooks makes `onFieldCondition` resolve false
      with the store untouched: the throw happens before any write. */
  lemma {:induction false} ConditionThrowWritesNothing(inv: Invoke, w: World, field: FieldInterface)
    requires w.store.Valid()
    requires var c := ExecuteHook(inv, w.store, field, Condition);
      c.Threw? ||
      (c.v != Undefined && !Truthy(c.v) &&
       (ExecuteHook(inv, w.store, field, OnConditionFalse).Threw? ||
        ExecuteHook(inv, w.store, field, DefaultOutput).Threw? ||
        ExecuteHook(inv, w.store, field, DefaultComputedOutput).Threw?))
    ensures OnFieldCondition(inv, w, field).1 == Resolved(false)
    ensures OnFieldCondition(inv, w, field).0.store == w.store
  {
  }

  // ---------------------------------------------------------------------
  // setActiveField

  /** The steps before the default-value check: `unload` of the previous
      field when one is active, the pointer assignment, `onload`. */
  function Prelude(cur: FieldInterface, newField: FieldInterface): seq<Step> {
    (if IsEmptyField(cur) then [] else [Called(cur, Unload)]) + [Pointed(newField), Called(newField, Onload)]
  }

  /** A throwing `unload` rejects before the pointer moves; otherwise the
      pointer is the new field from then on, whatever happens later, and the
      run begins with the prelude. */
  lemma {:induction false} SetActiveFieldBegins(inv: Invoke, w: World, newField: FieldInterface, now: int)
    requires w.store.Valid()
    ensures var r := SetActiveField(inv, w, newField, now);
      var unloaded := ExecuteHook(inv, w.store, w.active, Unload);
      && (!IsEmptyField(w.active) && unloaded.Threw? ==>
            r == (w.(trace := w.trace + [Called(w.active, Unload)]), Rejected))
      && (IsEmptyField(w.active) || unloaded.Ret? ==>
            r.0.active == newField &&
            |Delta(w, r.0)| >= |Prelude(w.active, newField)| &&
            Delta(w, r.0)[..|Prelude(w.active, newField)|] == Prelude(w.active, newField))
  {
    var r := SetActiveField(inv, w, newField, now);
    var cur := w.active;
    var (w1, unloaded) := if !IsEmptyField(cur) then HookStep(inv, w, cur, Unload) else (w, Ret(Undefined));
    if unloaded.Ret? {
      var w2 := Do(inv, w1, Pointed(newField));
      var (w3, loaded) := HookStep(inv, w2, newField, Onload);
      var p := Prelude(cur, newField);
      assert w3.trace == w.trace + p;
      assert w3.trace <= r.0.trace;
      assert Delta(w, r.0)[..|p|] == w3.trace[|w.trace|..];
    }
  }

  /** The world after the prelude when `unload` and `onload` did not throw. */
  function Arrived(w: World, newField: FieldInterface): World {
    World(w.store, newField, w.trace + Prelude(w.active, newField))
  }

  /** The default-value sequence runs exactly when `init`, read through the
      proxy after `onload`, is falsy: it writes `init` := true (a no-op for a
      definition without an `init` key, so the sequence reruns on every
      activation) and calls `defaultValue` on the store as it was. */
  lemma {:induction false} SeedGate(inv: Invoke, w: World, newField: FieldInterface, now: int)
    requires w.store.Valid()
    requires !IsEmptyField(w.active) ==> ExecuteHook(inv, w.store, w.active, Unload).Ret?
    requires ExecuteHook(inv, w.store, newField, Onload).Ret?
    requires GetFieldDataAttr(w.store, newField, Init, true).Val?
    ensures var init := GetFieldDataAttr(w.store, newField, Init, true).v;
      var a := Arrived(w, newField);
      var r := SetActiveField(inv, w, newField, now);
      && (!Truthy(init) ==>
            r == Settled(inv, Seed(inv, a, newField), now) &&
            Seed(inv, a, newField).0.trace[..|a.trace| + 2] == a.trace + [Wrote(newField, Init, Bool(true), true), Called(newField, DefaultValue)])
      && (Truthy(init) ==> r == Settle(inv, a, now))
      && ("init" !in newField.keys ==> AfterWrite(w.store, newField, Bool(true), Init, true) == w.store)
  {
    var cur := w.active;
    var a := Arrived(w, newField);
    var (w1, unloaded) := if !IsEmptyField(cur) then HookStep(inv, w, cur, Unload) else (w, Ret(Undefined));
    var w2 := Do(inv, w1, Pointed(newField));
    var (w3, loaded) := HookStep(inv, w2, newField, Onload);
    assert w3 == a;
    var init := GetFieldDataAttr(w.store, newField, Init, true).v;
    if !Truthy(init) {
      var w4 := WriteStep(inv, a, newField, Bool(true), Init, true);
      var (w5, value) := HookStep(inv, w4, newField, DefaultValue);
      assert w5.trace == a.trace + [Wrote(newField, Init, Bool(true), true), Called(newField, DefaultValue)];
      assert w5.trace <= Seed(inv, a, newField).0.trace;
    }
  }

  /** What follows the seeding: `Settle` unless the seeding rejected. */
  function Settled(inv: Invoke, seeded: (World, Outcome<()>), now: int): (World, Outcome<()>)
    requires seeded.0.store.Valid()
  {
    if seeded.1.Rejected? then seeded else Settle(inv, seeded.0, now)
  }

  /** Logged steps compose. */
  lemma DeltaOf(w: World, w': World, d: seq<Step>)
    requires w'.trace == w.trace + d
    ensures w.trace <= w'.trace && Delta(w, w') == d
  {
  }

  lemma DeltaSplit(a: World, b: World, c: World)
    requires a.trace <= b.trace <= c.trace
    ensures Delta(a, c) == Delta(a, b) + Delta(b, c)
  {
  }

  /** A resolved `FollowUp` ends with the help-text write. */
  lemma {:induction false} FollowUpOverwrites(inv: Invoke, w: World, f: FieldInterface)
    requires w.store.Valid() && "helpText" in f.keys
    requires FollowUp(inv, w, f).1.Resolved?
    ensures var st := FollowUp(inv, w, f).0.store;
      f.id in st.entries && st.entries[f.id].Raw?
  {
    var (w1, update) := HookStep(inv, w, f, OnValueUpdate);
    var w2 := if Truthy(update.v) then WriteStep(inv, w1, f, update.v, ListOptions, false) else w1;
    var (w3, help) := HookStep(inv, w2, f, UpdateHelpTextOnValue);
    assert FollowUp(inv, w, f).0 == WriteStep(inv, w3, f, Or(help.v, f.helpText), HelpText, true);
  }

  lemma {:induction false} StoreValueOverwrites(inv: Invoke, w: World, f: FieldInterface, val: Value)
    requires w.store.Valid() && "helpText" in f.keys
    requires StoreValue(inv, w, f, val).1.Resolved?
    ensures var st := StoreValue(inv, w, f, val).0.store;
      f.id in st.entries && st.entries[f.id].Raw?
  {
    var prev := GetFieldDataAttr(w.store, f, FormValue, true);
    var w1 := WriteStep(inv, w, f, Bool(val == prev.v), IsDirty, true);
    var w2 := WriteStep(inv, w1, f, Or(val, Null), FormValue, true);
    var (w3, refreshed) := RefreshStep(inv, w2, f, Event.OnValue);
    FollowUpOverwrites(inv, w3, f);
  }

  /** The last write of a `setValue` that ran its help-text hook and resolved
      replaced the field's whole own entry (when the definition has a
      `helpText` key). */
  lemma {:induction false} SetValueOverwritesOwnSlot(inv: Invoke, w: World, val: Value)
    requires w.store.Valid() && "helpText" in w.active.keys
    ensures var r := SetValue(inv, w, val);
      r.1.Resolved? && Called(w.active, UpdateHelpTextOnValue) in Delta(w, r.0) ==>
        w.active.id in r.0.store.entries && r.0.store.entries[w.active.id].Raw?
  {
    var f := w.active;
    var r := SetValue(inv, w, val);
    if r.1.Resolved? && Called(f, UpdateHelpTextOnValue) in Delta(w, r.0) {
      var w1 := WriteStep(inv, w, f, Null, Errors, true);
      var (w2, ok) := HookStep(inv, w1, f, HookName.OnValue);
      if Vetoes(ok.v) {
        assert false;
      }
      StoreValueOverwrites(inv, w2, f, val);
    }
  }

  /** A refresh of a field whose own entry is a raw value throws. */
  lemma RefreshOfRawThrows(inv: Invoke, w: World, now: int)
    requires w.store.Valid()
    requires w.active.id in w.store.entries && w.store.entries[w.active.id].Raw?
    ensures Settle(inv, w, now) == (w.(trace := w.trace + [Refreshed(w.active, Event.Default)]), Rejected)
  {
  }

  /** The seeding followed by `Settle` rejects once the seeded `setValue`
      has called its help-text hook. */
  lemma {:induction false} SeedHelpText(inv: Invoke, w: World, now: int)
    requires w.store.Valid() && "helpText" in w.active.keys
    ensures var r := Settled(inv, Seed(inv, w, w.active), now);
      Called(w.active, UpdateHelpTextOnValue) in Delta(w, r.0) ==> r.1 == Rejected
  {
    var f := w.active;
    var seeded := Seed(inv, w, f);
    var r := Settled(inv, seeded, now);
    if Called(f, UpdateHelpTextOnValue) !in Delta(w, r.0) {
      return;
    }
    var w1 := WriteStep(inv, w, f, Bool(true), Init, true);
    var (w2, value) := HookStep(inv, w1, f, DefaultValue);
    if value.Threw? {
      assert false;
    }
    if seeded.1.Resolved? {
      var sv := SetValue(inv, w2, DefaultArgument(value.v));
      assert seeded == sv;
      SettleCalls(inv, sv.0, now);
      DeltaSplit(w, w2, sv.0);
      DeltaSplit(w, sv.0, r.0);
      assert Delta(w, w2) == [Wrote(f, Init, Bool(true), true), Called(f, DefaultValue)];
      assert Called(f, UpdateHelpTextOnValue) in Delta(w2, sv.0);
      SetValueOverwritesOwnSlot(inv, w2, DefaultArgument(value.v));
      RefreshOfRawThrows(inv, sv.0, now);
    }
  }

  /** `Arrive` for a definition with a `helpText` key rejects once the seeded
      `setValue` has called its help-text hook. */
  lemma {:induction false} ArriveHelpText(inv: Invoke, w: World, now: int)
    requires w.store.Valid() && "helpText" in w.active.keys
    ensures var r := Arrive(inv, w, now);
      Called(w.active, UpdateHelpTextOnValue) in Delta(w, r.0) ==> r.1 == Rejected
  {
    var f := w.active;
    var r := Arrive(inv, w, now);
    if Called(f, UpdateHelpTextOnValue) !in Delta(w, r.0) {
      return;
    }
    var (w1, loaded) := HookStep(inv, w, f, Onload);
    var init := GetFieldDataAttr(w1.store, f, Init, true);
    if loaded.Threw? || init.Fails? {
      assert false;
    }
    if ReadTruthy(init) {
      SettleCalls(inv, w1, now);
      DeltaSplit(w, w1, r.0);
      assert false;
    }
    assert r == Settled(inv, Seed(inv, w1, f), now);
    DeltaSplit(w, w1, r.0);
    SeedHelpText(inv, w1, now);
  }

  /** The help-text quirk: for a definition with a `helpText` key, an
      activation in which the seeded `setValue` ran to its help-text hook
      always rejects, because that write replaced the field's own entry and
      the 'default' button refresh that follows then throws. */
  lemma {:induction false} HelpTextKeyBreaksSeeding(inv: Invoke, w: World, newField: FieldInterface, now: int)
    requires w.store.Valid() && "helpText" in newField.keys
    ensures var r := SetActiveField(inv, w, newField, now);
      Called(newField, UpdateHelpTextOnValue) in Delta(w, r.0) ==> r.1 == Rejected
  {
    var r := SetActiveField(inv, w, newField, now);
    if Called(newField, UpdateHelpTextOnValue) !in Delta(w, r.0) {
      return;
    }
    var cur := w.active;
    var w2: World;
    if IsEmptyField(cur) {
      w2 := Do(inv, w, Pointed(newField));
      DeltaOf(w, w2, [Pointed(newField)]);
    } else {
      var (w1, unloaded) := HookStep(inv, w, cur, Unload);
      if unloaded.Threw? {
        assert false;
      }
      w2 := Do(inv, w1, Pointed(newField));
      DeltaOf(w, w2, [Called(cur, Unload), Pointed(newField)]);
    }
    assert r == Arrive(inv, w2, now);
    DeltaSplit(w, w2, r.0);
    ArriveHelpText(inv, w2, now);
  }

  /** `Settle` calls no `setValue` hook. */
  lemma {:induction false} SettleCalls(inv: Invoke, w: World, now: int)
    requires w.store.Valid()
    ensures Called(w.active, UpdateHelpTextOnValue) !in Delta(w, Settle(inv, w, now).0)
  {
    var f := w.active;
    var r := Settle(inv, w, now);
    var (w1, refreshed) := RefreshStep(inv, w, f, Event.Default);
    if !refreshed {
      DeltaOf(w, r.0, [Refreshed(f, Event.Default)]);
      return;
    }
    var (w2, help) := HookStep(inv, w1, f, DynamicHelpText);
    if help.Threw? {
      DeltaOf(w, r.0, [Refreshed(f, Event.Default), Called(f, DynamicHelpText)]);
      return;
    }
    var w3 := WriteStep(inv, w2, f, Or(help.v, f.helpText), HelpText, true);
    var (w4, options) := HookStep(inv, w3, f, Options);
    var head := [Refreshed(f, Event.Default), Called(f, DynamicHelpText),
      Wrote(f, HelpText, Or(help.v, f.helpText), true), Called(f, Options)];
    assert w4.trace == w.trace + head;
    if options.Threw? {
      DeltaOf(w, r.0, head);
    } else {
      DeltaOf(w, r.0, head + [Wrote(f, ListOptions, Or(options.v, Arr([])), true), Wrote(f, IntLastTimeLoaded, Num(now), true)]);
    }
  }

  /** When `setActiveField` resolves, its last steps are the 'default' button
      refresh, `dynamicHelpText` (called on the refreshed store), the
      `helpText` write (hook result or static text), `options` (called on the
      store that write left), the `listOptions` write (hook result or []) and
      the `intLastTimeLoaded` write of `now`, in that order; the final store
      is what those writes leave. */
  lemma {:induction false} SettleSteps(inv: Invoke, w: World, now: int)
    requires w.store.Valid() && Settle(inv, w, now).1.Resolved?
    ensures var f := w.active;
      var st1 := UpdateButtonStates(inv, w.store, f, Event.Default);
      var help := ExecuteHook(inv, st1.0, f, DynamicHelpText);
      st1.1 && help.Ret? &&
      var st3 := AfterWrite(st1.0, f, Or(help.v, f.helpText), HelpText, true);
      var options := ExecuteHook(inv, st3, f, Options);
      && options.Ret?
      && Settle(inv, w, now).0.store ==
           AfterWrite(AfterWrite(st3, f, Or(options.v, Arr([])), ListOptions, true), f, Num(now), IntLastTimeLoaded, true)
      && Settle(inv, w, now).0.trace == w.trace +
           [Refreshed(f, Event.Default), Called(f, DynamicHelpText), Wrote(f, HelpText, Or(help.v, f.helpText), true),
            Called(f, Options), Wrote(f, ListOptions, Or(options.v, Arr([])), true),
            Wrote(f, IntLastTimeLoaded, Num(now), true)]
  {
    var f := w.active;
    var (w1, refreshed) := RefreshStep(inv, w, f, Event.Default);
    var (w2, help) := HookStep(inv, w1, f, DynamicHelpText);
    var w3 := WriteStep(inv, w2, f, Or(help.v, f.helpText), HelpText, true);
    var (w4, options) := HookStep(inv, w3, f, Options);
    assert Settle(inv, w, now).0.trace == w.trace +
        [Refreshed(f, Event.Default), Called(f, DynamicHelpText), Wrote(f, HelpText, Or(help.v, f.helpText), true),
         Called(f, Options), Wrote(f, ListOptions, Or(options.v, Arr([])), true),
         Wrote(f, IntLastTimeLoaded, Num(now), true)];
  }

  // ---------------------------------------------------------------------
  // updateActiveFieldListOptions

  /** The list-options write goes through the same gate: it changes nothing
      unless the active definition has a `listOptions` key, and otherwise
      puts the bare list into the own slot and the proxy slot. */
  lemma {:induction false} ListOptionsWrite(inv: Invoke, w: World, options: seq<Option>)
    requires w.store.Valid()
    ensures var r := UpdateActiveFieldListOptions(inv, w, options);
      var f := w.active;
      && r.trace == w.trace + [Wrote(f, ListOptions, OptionList(options), true)]
      && ("listOptions" !in f.keys ==> r.store == w.store)
      && ("listOptions" in f.keys ==>
            r.store.entries[f.id] == Raw(OptionList(options)) &&
            (ProxyOf(f).Just? ==> r.store.entries[ProxyOf(f).value] == Raw(OptionList(options))))
  {
  }
}
