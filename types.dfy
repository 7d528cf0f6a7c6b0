/** The data shapes of the form engine (src/type.ts), shared by both generations. */
module Types {

  datatype Option<+T> = None | Some(value: T)

  /** A JavaScript value as far as the engine looks at it. Numbers are integers;
      `Obj` is any object or array, compared by its reference `ref`, whose string
      conversion is `text`. */
  datatype Value =
    | Null
    | Undefined
    | Bool(b: bool)
    | Num(n: int)
    | Str(s: string)
    | Obj(ref: nat, text: string)

  /** Per-field status of the current generation: never validated, or the
      outcome of the last validation. */
  datatype Status = Init | Valid | Invalid

  /** An error map sends failed-validator names to a flag. */
  type Errors = map<string, bool>

  /** What a validator returns: `None` is JavaScript `null` (no failure). */
  type ValidatorResult = Option<Errors>

  /** The form model: field name to arbitrary value. */
  type Model = map<string, Value>

  /** `form.getValue(name)`: a name missing from the value map reads as
      `undefined`. */
  function GetValueOf(value: Model, name: string): Value
  {
    if name in value then value[name] else Undefined
  }

  /** The control handed to a validator as its third argument, seen through
      what validators read from it: its name and its form's value map. */
  datatype ControlRef = ControlRef(name: string, formValue: Model)
  {
    /** `control.form.getValue(key)`: a missing key reads as `undefined`. */
    function FormValue(key: string): Value
    {
      GetValueOf(formValue, key)
    }
  }

  /** The value of a validator prop on a control (`required`, `minLength={5}`,
      `pattern={/^a$/}`, `equalToControl="foo"`, `callback={fn}`). A regular
      expression is its string form `text`, which is `String(re)`: the
      source between slashes followed by the flags (`/^a$/i`), together with
      its matching test, which is left uninterpreted. `Absent` is a prop that
      is `undefined`. */
  datatype Config =
    | Flag(b: bool)
    | Number(n: int)
    | Text(s: string)
    | Pattern(text: string, test: Value -> bool)
    | Callback(fn: (Value, ControlRef) -> bool)
    | Absent
  {
    /** `'function' === typeof prop` */
    predicate IsFunction() { Callback? }
  }

  /** A validator: `(value, config, control) => null | errors`. */
  type Validator = (Value, Config, ControlRef) -> ValidatorResult

  /** A control's props other than `name` and `children`, in key order. */
  type Rules = seq<(string, Config)>

  /** The keys of a props object are distinct, as an object's keys are. */
  predicate UniqueKeys(props: Rules)
  {
    forall i, j :: 0 <= i < j < |props| ==> props[i].0 != props[j].0
  }
}
