/** JavaScript values as the field-state engine sees them, and the three value
    tests it relies on: truthiness (`if (x)`, `x || y`), lodash `isEmpty` and
    lodash `isEqual`.  The form's `Option` record lives here too, because an
    Option's `other` payload is itself an arbitrary value. */
module Values {

  /** An optional property: absent (`undefined`) or present. */
  datatype Maybe<+T> = Nothing | Just(value: T)

  /** `string | number | boolean`, the type of an Option's label and value. */
  datatype Scalar = SStr(s: string) | SNum(n: int) | SBool(b: bool)

  /** FieldInterfaces.ts `Option`: a label/value pair, an optional checked
      flag and an opaque payload.  `label` is a Dafny keyword, so the label
      is called `caption` here. */
  datatype Option = Option(caption: Scalar, value: Scalar, isChecked: Maybe<bool>, other: Maybe<Value>)

  /** The values hooks return and the store holds.  Numbers are integers
      (timestamps, indices); arrays are `Option[]`, `string[]` and the like. */
  datatype Value =
    | Undefined
    | Null
    | Bool(b: bool)
    | Num(n: int)
    | Str(s: string)
    | Arr(items: seq<Value>)
    | Opt(option: Option)

  /** `undefined` or `null`: the two values whose properties cannot be read. */
  predicate Nullish(v: Value) {
    v == Undefined || v == Null
  }

  /** JavaScript truthiness. */
  predicate Truthy(v: Value) {
    match v
    case Undefined => false
    case Null => false
    case Bool(b) => b
    case Num(n) => n != 0
    case Str(s) => s != ""
    case Arr(_) => true
    case Opt(_) => true
  }

  /** `a || b`. */
  function Or(a: Value, b: Value): Value {
    if Truthy(a) then a else b
  }

  /** lodash `isEmpty`: nullish values, booleans and numbers are empty; a
      string or array is empty when it has no elements; an Option object has
      the keys `label` and `value`, so it never is. */
  predicate IsEmpty(v: Value) {
    match v
    case Undefined => true
    case Null => true
    case Bool(_) => true
    case Num(_) => true
    case Str(s) => |s| == 0
    case Arr(items) => |items| == 0
    case Opt(_) => false
  }

  /** `a || b` is truthy exactly when one of its operands is, and it is
      always one of them. */
  lemma OrTruthy(a: Value, b: Value)
    ensures Truthy(Or(a, b)) <==> Truthy(a) || Truthy(b)
    ensures Or(a, b) == a || Or(a, b) == b
  {
  }

  /** `val || null` never yields `undefined`, and yields `null` exactly for
      falsy values. */
  lemma OrNull(v: Value)
    ensures Or(v, Null) != Undefined
    ensures Or(v, Null) == Null <==> !Truthy(v)
  {
  }

  /** A value that is not empty in lodash's sense is truthy. */
  lemma NonEmptyIsTruthy(v: Value)
    ensures !IsEmpty(v) ==> Truthy(v)
  {
  }
}
