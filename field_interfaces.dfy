/** The declarations of src/router/FieldInterfaces.ts, transcribed.  The file
    has no behaviour; these types are what the engine works on.

    Author-supplied functions (field hooks and button-state predicates) are
    represented by a `CallbackId`, the identity of the function object; what
    a callback does is given to the engine separately as one total function of
    type `FieldStore.Invoke`.  A predicate stored inside `FieldNavButton`
    could not be typed otherwise: it takes the store, which holds resolved
    buttons, which refer back to their `FieldNavButton`. */
module FieldInterfaces {
  import opened Values

  /** Field identifiers in the form they take as keys of the store.  The
      declared type also admits numbers, which JavaScript converts to their
      decimal string when used as a key; ids are modelled in that key form,
      so a numeric id is not distinguished from its string. */
  type Id = string

  /** The identity of an author-supplied function. */
  type CallbackId = nat

  /** The two trigger points of the button resolver: 'default' and 'onValue'. */
  datatype Event = Default | OnValue

  /** The keys of a button's `state` table. */
  datatype ButtonAttr = Color | Disabled | Visible

  /** One key of a `state` table with the predicates it registers per event. */
  datatype StateEntry = StateEntry(attr: ButtonAttr, handlers: map<Event, CallbackId>)

  /** `FieldNavButton`.  `state` is `Nothing` when the object has no `state`
      key; its entries keep the object's key order.  The `clickHandler`
      capabilities belong to the navigation layer and are not modelled. */
  datatype FieldNavButton = FieldNavButton(
    index: int,
    name: string,
    color: Maybe<string>,
    state: Maybe<seq<StateEntry>>,
    cssClass: Maybe<string>,
    size: Maybe<string>,
    slot: Maybe<string>)

  /** `FieldDataButtonProps`: the resolved, mutable state of one button.
      `color`, `disabled` and `visible` hold whatever a state predicate
      returned, so they are values rather than strings and booleans. */
  datatype FieldDataButtonProps = FieldDataButtonProps(
    name: string,
    index: int,
    color: Value,
    disabled: Value,
    visible: Value,
    size: string,
    slot: string,
    cssClass: string,
    btnRef: FieldNavButton)

  /** `FieldDataInterface`: the per-field record of the store.  Optional
      attributes that were never set hold `Undefined`. */
  datatype FieldDataInterface = FieldDataInterface(
    index: int,
    init: Value,
    helpText: Value,
    isRequired: Value,
    errors: Value,
    isAvailable: Value,
    computedValue: Value,
    listOptions: Value,
    formValue: Value,
    defaultValue: Value,
    isDirty: Value,
    intLastTimeLoaded: Value,
    navButtonProps: seq<FieldDataButtonProps>)

  /** The hook names `executeHook` accepts. */
  datatype HookName =
    | UpdateHelpTextOnValue | DynamicHelpText | OnConditionFalse | IsRequired
    | ComputedValue | DefaultValue | DefaultOutput | DefaultComputedOutput
    | ExitsForm | Validation | Options | Onload | Unload | OnValue
    | AppearInSummary | Condition | BeforeNext | OnValueUpdate

  /** The property name under which a definition carries a hook. */
  function HookKey(h: HookName): string {
    match h
    case UpdateHelpTextOnValue => "updateHelpTextOnValue"
    case DynamicHelpText => "dynamicHelpText"
    case OnConditionFalse => "onConditionFalse"
    case IsRequired => "isRequired"
    case ComputedValue => "computedValue"
    case DefaultValue => "defaultValue"
    case DefaultOutput => "defaultOutput"
    case DefaultComputedOutput => "defaultComputedOutput"
    case ExitsForm => "exitsForm"
    case Validation => "validation"
    case Options => "options"
    case Onload => "onload"
    case Unload => "unload"
    case OnValue => "onValue"
    case AppearInSummary => "appearInSummary"
    case Condition => "condition"
    case BeforeNext => "beforeNext"
    case OnValueUpdate => "onValueUpdate"
  }

  /** `FieldInterface`, a field definition.
      - `id`: the key of the field's own slot (`"undefined"` when the object
        has no `id`);
      - `proxyID`: the optional key of a shared slot;
      - `helpText`: the static help text (`Undefined` when absent);
      - `keys`: the object's own property names, which the `in` operator
        tests;
      - `hooks`: the properties that hold functions, by hook name;
      - `hiddenButtons` and `customButtons`: `navButtons.hide` and
        `navButtons.custom`, an absent list being the empty one.
      `type`, `requireNext`, `config` and the hooks no engine operation calls
      (`summaryMapValue`, ...) matter only as members of `keys`. */
  datatype FieldInterface = FieldInterface(
    id: Id,
    proxyID: Maybe<Id>,
    helpText: Value,
    keys: set<string>,
    hooks: map<HookName, CallbackId>,
    hiddenButtons: seq<string>,
    customButtons: seq<FieldNavButton>)

  /** The object `{}` the active-field pointer starts out as. */
  const EmptyField: FieldInterface :=
    FieldInterface("undefined", Nothing, Undefined, {}, map[], [], [])

  /** lodash `isEmpty` on a definition: it has no own keys. */
  predicate IsEmptyField(f: FieldInterface) {
    f.keys == {}
  }

  /** The proxy key when `field.proxyID` is truthy (a non-empty string). */
  function ProxyOf(f: FieldInterface): Maybe<Id> {
    if f.proxyID.Just? && f.proxyID.value != "" then f.proxyID else Nothing
  }
}
