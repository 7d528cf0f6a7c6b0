/** The form aggregate of the current generation (src/form.ts) and the
    control component that registers with it (src/control.ts). */
module Forms {
  import opened Types
  import opened Coercions
  import opened Utils
  import opened Validators
  import opened ControlRules

  /** The status a field takes from its errors: invalid exactly when the
      errors are non-null and non-empty. The source writes
      `errors ? INVALID : VALID`, under which the `{}` that every validation
      returns would read as invalid; see `StatusOfAsWritten`. */
  function StatusOf(e: Option<Errors>): (s: Status)
    ensures s != Init
    ensures s == Invalid <==> e.Some? && HasError(e.value)
  {
    if e.Some? && HasError(e.value) then Invalid else Valid
  }

  /** `errors ? INVALID : VALID` as written: any object, `{}` included, is
      truthy. */
  function StatusOfAsWritten(e: Option<Errors>): (s: Status)
    ensures s == Invalid <==> e.Some?
  {
    if e.Some? then Invalid else Valid
  }

  /** `control.runValidation(form.getValue(name))` for the control of field
      `name` whose props are `rules`. */
  function ValidateField(rules: Rules, name: string, value: Model, validators: map<string, Validator>): Errors
  {
    Evaluate(rules, GetValueOf(value, name), validators, ControlRef(name, value))
  }

  /** The status as written makes a field whose every validator passed
      invalid; the corrected reading makes it valid. */
  lemma AsWrittenRejectsPassingField(isEmail: Value -> bool)
    ensures var value := map["foo" := Str("bar")];
      var e := ValidateField([("required", Flag(true))], "foo", value, Builtins(isEmail));
      && e == map[]
      && StatusOfAsWritten(Some(e)) == Invalid
      && StatusOf(Some(e)) == Valid
  {
    var rules: Rules := [("required", Flag(true))];
    var value := map["foo" := Str("bar")];
    assert Outcome(rules[0], Str("bar"), Builtins(isEmail), ControlRef("foo", value)) == None by {
      assert !IsBlank("bar") by { assert !IsWhitespace("bar"[0]); }
    }
    assert rules[..0] == [];
  }

  /** The form-level status (the `status` getter, and the test of
      `handleSubmit`): valid exactly when every field is valid, so an
      empty form is valid and an INIT field makes the form invalid; it is
      never INIT, so the `isInit` getter is always false. */
  function FormStatus(status: map<string, Status>): (s: Status)
    ensures s != Init
    ensures s == Valid <==> forall n :: n in status ==> status[n] == Valid
    ensures status == map[] ==> s == Valid
    ensures (exists n :: n in status && status[n] == Init) ==> s == Invalid
  {
    if exists n :: n in status && status[n] != Valid then Invalid else Valid
  }

  /** The fields `submit` validates: those never validated. */
  function InitFields(status: map<string, Status>): set<string>
  {
    set n | n in status && status[n] == Init
  }

  /** The per-field statuses after `submit`: every INIT field takes the
      status of its validation, every other field keeps its status, so no
      field is INIT afterwards. */
  function SubmittedStatus(status: map<string, Status>, rules: map<string, Rules>, value: Model, validators: map<string, Validator>)
    : (r: map<string, Status>)
    requires InitFields(status) <= rules.Keys
    ensures r.Keys == status.Keys
    ensures forall n :: n in r ==> r[n] != Init
    ensures forall n :: n in status && status[n] != Init ==> r[n] == status[n]
    ensures forall n :: n in status && status[n] == Init ==>
      (r[n] == Invalid <==> HasError(ValidateField(rules[n], n, value, validators)))
  {
    map n | n in status :: if status[n] == Init then StatusOf(Some(ValidateField(rules[n], n, value, validators))) else status[n]
  }

  /** The per-field errors after `submit`: every INIT field gets its
      validation's errors, every other entry is kept. */
  function SubmittedErrors(errors: map<string, Option<Errors>>, status: map<string, Status>, rules: map<string, Rules>,
                           value: Model, validators: map<string, Validator>)
    : (r: map<string, Option<Errors>>)
    requires InitFields(status) <= rules.Keys
    ensures r.Keys == errors.Keys + InitFields(status)
    ensures forall n :: n in errors && n !in InitFields(status) ==> r[n] == errors[n]
    ensures forall n :: n in InitFields(status) ==> r[n] == Some(ValidateField(rules[n], n, value, validators))
  {
    map n | n in errors.Keys + InitFields(status) ::
      if n in InitFields(status) then Some(ValidateField(rules[n], n, value, validators)) else errors[n]
  }

  /** A second `submit` validates nothing: the first left no field INIT. */
  lemma SubmitTwice(status: map<string, Status>, rules: map<string, Rules>, value: Model, validators: map<string, Validator>)
    requires InitFields(status) <= rules.Keys
    ensures var once := SubmittedStatus(status, rules, value, validators);
      InitFields(once) == {} && SubmittedStatus(once, rules, value, validators) == once
  {
    var once := SubmittedStatus(status, rules, value, validators);
    assert forall n :: n !in InitFields(once);
  }

  /** The callback `submit` dispatches, with its arguments. */
  datatype SubmitCall =
    | OnValidSubmit(model: Model)
    | OnInvalidSubmit(errors: map<string, Option<Errors>>, model: Model)

  /** `handleSubmit`: at most one callback, the invalid one (with the errors
      and the value) exactly when some field is not valid, the valid one
      (with the value) otherwise; a callback prop that is not a function is
      not called. */
  function Decide(status: map<string, Status>, errors: map<string, Option<Errors>>, value: Model,
                  hasValidCallback: bool, hasInvalidCallback: bool): (r: Option<SubmitCall>)
    ensures r == Some(OnValidSubmit(value)) <==> hasValidCallback && FormStatus(status) == Valid
    ensures r == Some(OnInvalidSubmit(errors, value)) <==> hasInvalidCallback && FormStatus(status) == Invalid
    ensures r.None? <==> if FormStatus(status) == Valid then !hasValidCallback else !hasInvalidCallback
  {
    if exists n :: n in status && status[n] != Valid then
      if hasInvalidCallback then Some(OnInvalidSubmit(errors, value)) else None
    else
      if hasValidCallback then Some(OnValidSubmit(value)) else None
  }

  /** Submitting a form whose one field is a never-validated `required`
      field without a value reports `{foo: {required: true}}`. */
  lemma SubmitEmptyRequiredField(isEmail: Value -> bool)
    ensures var status := map["foo" := Init];
      var rules := map["foo" := [("required", Flag(true))]];
      var after := SubmittedStatus(status, rules, map[], Builtins(isEmail));
      var errors := SubmittedErrors(map["foo" := None], status, rules, map[], Builtins(isEmail));
      && errors == map["foo" := Some(map["required" := true])]
      && Decide(after, errors, map[], true, true) == Some(OnInvalidSubmit(map["foo" := Some(map["required" := true])], map[]))
  {
    var status := map["foo" := Init];
    var rules := map["foo" := [("required", Flag(true))]];
    var b := Builtins(isEmail);
    EmptyRequiredErrors(isEmail);
    EmptyRequiredStatus(isEmail);
    assert FormStatus(SubmittedStatus(status, rules, map[], b)) == Invalid;
  }

  lemma EmptyRequiredErrors(isEmail: Value -> bool)
    ensures SubmittedErrors(map["foo" := None], map["foo" := Init], map["foo" := [("required", Flag(true))]], map[], Builtins(isEmail))
      == map["foo" := Some(map["required" := true])]
  {
    var status := map["foo" := Init];
    assert InitFields(status) == {"foo"} by {
      assert "foo" in InitFields(status);
    }
    RequiredOnly(isEmail, "foo", map[]);
  }

  lemma EmptyRequiredStatus(isEmail: Value -> bool)
    ensures SubmittedStatus(map["foo" := Init], map["foo" := [("required", Flag(true))]], map[], Builtins(isEmail))["foo"] == Invalid
  {
    RequiredOnly(isEmail, "foo", map[]);
    HasErrorLaws(map[], map[], "required", true);
  }

  /** A field whose only rule is `required` fails with `{required: true}`
      exactly when `required` fails on its value. */
  lemma RequiredOnly(isEmail: Value -> bool, name: string, value: Model)
    ensures ValidateField([("required", Flag(true))], name, value, Builtins(isEmail))
      == if Required(GetValueOf(value, name)).Some? then Fail("required") else map[]
  {
    var rules: Rules := [("required", Flag(true))];
    var v := GetValueOf(value, name);
    var control := ControlRef(name, value);
    assert rules[..0] == [];
    assert Evaluate(rules[..0], v, Builtins(isEmail), control) == map[];
    assert Outcome(rules[0], v, Builtins(isEmail), control) == Required(v);
    if Required(v).Some? {
      assert Evaluate(rules, v, Builtins(isEmail), control) == map[] + Fail("required");
    }
  }

  /** A field with value `"bar"` and only `required` is valid. */
  lemma RequiredFieldWithValue(isEmail: Value -> bool, value: Model)
    ensures StatusOf(Some(ValidateField([("required", Flag(true))], "foo", value["foo" := Str("bar")], Builtins(isEmail)))) == Valid
  {
    var v := value["foo" := Str("bar")];
    assert GetValueOf(v, "foo") == Str("bar");
    assert !IsBlank("bar") by { assert !IsWhitespace("bar"[0]); }
    RequiredOnly(isEmail, "foo", v);
    HasErrorLaws(map[], map[], "required", true);
  }

  /** Once the value of such a field is set to `""` it is invalid with
      `{required: true}`. */
  lemma RequiredFieldCleared(isEmail: Value -> bool, value: Model)
    ensures ValidateField([("required", Flag(true))], "foo", value["foo" := Str("")], Builtins(isEmail)) == map["required" := true]
    ensures StatusOf(Some(ValidateField([("required", Flag(true))], "foo", value["foo" := Str("")], Builtins(isEmail)))) == Invalid
  {
    var v := value["foo" := Str("")];
    assert GetValueOf(v, "foo") == Str("");
    RequiredOnly(isEmail, "foo", v);
    HasErrorLaws(map[], map[], "required", true);
  }

  /** The errors every registered field's validation yields. */
  function Results(rules: map<string, Rules>, value: Model, validators: map<string, Validator>): (r: map<string, Errors>)
    ensures r.Keys == rules.Keys
  {
    map n | n in rules :: ValidateField(rules[n], n, value, validators)
  }

  /** The statuses and errors part-way through `submit`, once the fields in
      `done` have been validated with the given `results`. */
  function PartStatus(status: map<string, Status>, done: set<string>, results: map<string, Errors>): map<string, Status>
    requires done <= results.Keys
  {
    map n | n in status :: if n in done then StatusOf(Some(results[n])) else status[n]
  }

  function PartErrors(errors: map<string, Option<Errors>>, done: set<string>, results: map<string, Errors>)
    : map<string, Option<Errors>>
    requires done <= results.Keys
  {
    map n | n in errors.Keys + done :: if n in done then Some(results[n]) else errors[n]
  }

  lemma PartStatusStep(status: map<string, Status>, done: set<string>, n: string, results: map<string, Errors>)
    requires done + {n} <= results.Keys && n in status
    ensures PartStatus(status, done + {n}, results) == PartStatus(status, done, results)[n := StatusOf(Some(results[n]))]
  {
    var s1, s0 := PartStatus(status, done + {n}, results), PartStatus(status, done, results);
    var s2 := s0[n := StatusOf(Some(results[n]))];
    assert s1.Keys == s2.Keys;
    forall m | m in s1 ensures s1[m] == s2[m] {
      if m != n {
        assert s1[m] == s0[m];
      }
    }
  }

  lemma PartErrorsStep(errors: map<string, Option<Errors>>, done: set<string>, n: string, results: map<string, Errors>)
    requires done + {n} <= results.Keys
    ensures PartErrors(errors, done + {n}, results) == PartErrors(errors, done, results)[n := Some(results[n])]
  {
    var e1, e0 := PartErrors(errors, done + {n}, results), PartErrors(errors, done, results);
    var e2 := e0[n := Some(results[n])];
    assert e1.Keys == e2.Keys;
    forall m | m in e1 ensures e1[m] == e2[m] {
      if m != n {
        assert e1[m] == e0[m];
      }
    }
  }

  lemma PartStart(status: map<string, Status>, errors: map<string, Option<Errors>>, results: map<string, Errors>)
    ensures PartStatus(status, {}, results) == status
    ensures PartErrors(errors, {}, results) == errors
  {
  }

  lemma PartDone(status: map<string, Status>, errors: map<string, Option<Errors>>, rules: map<string, Rules>, value: Model,
                 validators: map<string, Validator>)
    requires InitFields(status) <= rules.Keys
    ensures var results := Results(rules, value, validators);
      && PartStatus(status, InitFields(status), results) == SubmittedStatus(status, rules, value, validators)
      && PartErrors(errors, InitFields(status), results) == SubmittedErrors(errors, status, rules, value, validators)
  {
  }

  /** The first loop of `submit`: the names whose status is INIT. */
  method CollectInit(status: map<string, Status>) returns (needsToValidate: set<string>)
    ensures needsToValidate == InitFields(status)
  {
    needsToValidate := {};
    var rest := status.Keys;
    while rest != {}
      invariant rest <= status.Keys
      invariant needsToValidate == set n | n in status.Keys - rest && status[n] == Init
      decreases rest
    {
      var n :| n in rest;
      if status[n] == Init {
        needsToValidate := needsToValidate + {n};
      }
      rest := rest - {n};
    }
  }

  /** The state update of `submit`: each field of `needsToValidate` is
      validated and gets its errors and the status they imply. */
  method ValidateFields(needsToValidate: set<string>, status: map<string, Status>, errors: map<string, Option<Errors>>,
                        rules: map<string, Rules>, value: Model, validators: map<string, Validator>)
    returns (newStatus: map<string, Status>, newErrors: map<string, Option<Errors>>)
    requires needsToValidate <= rules.Keys && needsToValidate <= status.Keys
    ensures newStatus == PartStatus(status, needsToValidate, Results(rules, value, validators))
    ensures newErrors == PartErrors(errors, needsToValidate, Results(rules, value, validators))
  {
    ghost var results := Results(rules, value, validators);
    newStatus, newErrors := status, errors;
    PartStart(status, errors, results);
    var todo := needsToValidate;
    while todo != {}
      invariant todo <= needsToValidate
      invariant newStatus == PartStatus(status, needsToValidate - todo, results)
      invariant newErrors == PartErrors(errors, needsToValidate - todo, results)
      decreases todo
    {
      var n :| n in todo;
      var e := RunValidation(rules[n], GetValueOf(value, n), validators, ControlRef(n, value));
      assert e == results[n];
      PartStatusStep(status, needsToValidate - todo, n, results);
      PartErrorsStep(errors, needsToValidate - todo, n, results);
      assert needsToValidate - todo + {n} == needsToValidate - (todo - {n});
      newErrors := newErrors[n := Some(e)];
      newStatus := newStatus[n := StatusOf(Some(e))];
      todo := todo - {n};
    }
    assert needsToValidate - todo == needsToValidate;
  }

  /** The state update of `submit` on the status and error maps: collect
      the INIT fields, then validate them. */
  method SubmitUpdate(status: map<string, Status>, errors: map<string, Option<Errors>>, rules: map<string, Rules>,
                      value: Model, validators: map<string, Validator>)
    returns (newStatus: map<string, Status>, newErrors: map<string, Option<Errors>>)
    requires InitFields(status) <= rules.Keys
    ensures newStatus == SubmittedStatus(status, rules, value, validators)
    ensures newErrors == SubmittedErrors(errors, status, rules, value, validators)
  {
    var needsToValidate := CollectInit(status);
    newStatus, newErrors := status, errors;
    if needsToValidate != {} {
      newStatus, newErrors := ValidateFields(needsToValidate, status, errors, rules, value, validators);
    } else {
      PartStart(status, errors, Results(rules, value, validators));
    }
    PartDone(status, errors, rules, value, validators);
  }

  /** After `submit`, errors and statuses still cover the same fields and
      no field is INIT. */
  lemma SubmittedShape(status: map<string, Status>, errors: map<string, Option<Errors>>, rules: map<string, Rules>,
                       value: Model, validators: map<string, Validator>)
    requires InitFields(status) <= rules.Keys && errors.Keys == status.Keys
    ensures SubmittedErrors(errors, status, rules, value, validators).Keys == SubmittedStatus(status, rules, value, validators).Keys
    ensures InitFields(SubmittedStatus(status, rules, value, validators)) == {}
  {
    SubmitTwice(status, rules, value, validators);
  }

  /** The form: the registered controls and the value, errors and status
      maps, each rewritten as a whole by every operation. */
  class Form {
    var controls: map<string, Control>
    var value: Model
    var errors: map<string, Option<Errors>>
    var status: map<string, Status>
    /** Whether the `onValidSubmit` and `onInvalidSubmit` props are functions. */
    const hasValidCallback: bool
    const hasInvalidCallback: bool

    /** Errors and statuses have the same fields; every registered control
        has a status; every INIT field has a registered control. */
    ghost predicate Valid()
      reads this
    {
      && errors.Keys == status.Keys
      && controls.Keys <= status.Keys
      && InitFields(status) <= controls.Keys
    }

    /** The props of every registered control. */
    function RuleTable(): (r: map<string, Rules>)
      reads this, controls.Values
      ensures r.Keys == controls.Keys
    {
      map n | n in controls :: controls[n].rules
    }

    /** A form seeded with `defaultValue`. */
    constructor (defaultValue: Model, hasValidCallback: bool, hasInvalidCallback: bool)
      ensures Valid()
      ensures controls == map[] && value == defaultValue && errors == map[] && status == map[]
      ensures this.hasValidCallback == hasValidCallback && this.hasInvalidCallback == hasInvalidCallback
    {
      controls := map[];
      value := defaultValue;
      errors := map[];
      status := map[];
      this.hasValidCallback := hasValidCallback;
      this.hasInvalidCallback := hasInvalidCallback;
    }

    /** The `status` getter. */
    function OverallStatus(): Status
      reads this
    {
      FormStatus(status)
    }

    predicate IsInit()
      reads this
    {
      OverallStatus() == Init
    }

    predicate IsValid()
      reads this
    {
      OverallStatus() == Status.Valid
    }

    predicate IsInvalid()
      reads this
    {
      OverallStatus() == Invalid
    }

    /** `getValue(name)`: a field missing from the value map reads as
        `undefined`. */
    function GetValue(name: string): (r: Value)
      reads this
      ensures name in value ==> r == value[name]
      ensures name !in value ==> r == Undefined
    {
      GetValueOf(value, name)
    }

    /** `getStatus(name)`: `None` is `undefined`. */
    function GetStatus(name: string): (r: Option<Status>)
      reads this
      ensures r.Some? <==> name in status
      ensures r.Some? ==> r.value == status[name]
    {
      if name in status then Some(status[name]) else None
    }

    /** `getErrors(name)`: the outer `None` is `undefined`, the inner one `null`. */
    function GetErrors(name: string): (r: Option<Option<Errors>>)
      reads this
      ensures r.Some? <==> name in errors
      ensures r.Some? ==> r.value == errors[name]
    {
      if name in errors then Some(errors[name]) else None
    }

    /** `addControl(name, control)`: registers the control; a field the
        value map already holds is validated at once, any other starts INIT
        with null errors. Only the entries of `name` change. */
    method AddControl(name: string, control: Control, reg: Registry)
      requires Valid()
      modifies this
      ensures Valid()
      ensures controls == old(controls)[name := control] && value == old(value)
      ensures name in value ==>
        && errors == old(errors)[name := Some(ValidateField(control.rules, name, value, reg.entries))]
        && status == old(status)[name := StatusOf(errors[name])]
      ensures name !in value ==> errors == old(errors)[name := None] && status == old(status)[name := Init]
    {
      var e: Option<Errors> := None;
      var s := Init;
      if name in value {
        var r := RunValidation(control.rules, GetValue(name), reg.entries, ControlRef(name, value));
        e := Some(r);
        s := StatusOf(e);
      }
      controls := controls[name := control];
      errors := errors[name := e];
      status := status[name := s];
    }

    /** `removeControl(name)`: forgets the control, its errors and its
        status; the value map keeps its entry. */
    method RemoveControl(name: string)
      requires Valid()
      modifies this
      ensures Valid()
      ensures controls == old(controls) - {name}
      ensures errors == old(errors) - {name} && status == old(status) - {name}
      ensures value == old(value)
    {
      controls := controls - {name};
      errors := errors - {name};
      status := status - {name};
    }

    /** `setErrors(name, e)`: stores `e` as given and derives the status
        from it; nothing else changes. */
    method SetErrors(name: string, e: Option<Errors>)
      requires Valid()
      modifies this
      ensures Valid()
      ensures errors == old(errors)[name := e]
      ensures status == old(status)[name := StatusOf(e)]
      ensures status[name] == Invalid <==> e.Some? && HasError(e.value)
      ensures controls == old(controls) && value == old(value)
    {
      errors := errors[name := e];
      status := status[name := StatusOf(e)];
    }

    /** `validateControl(name)`: runs the registered control's validation on
        the field's value and stores the result through `setErrors`. For a
        name with no control the source throws before changing anything;
        here `found` is false and nothing changes. */
    method ValidateControl(name: string, reg: Registry) returns (found: bool)
      requires Valid()
      modifies this
      ensures Valid()
      ensures found == (name in controls)
      ensures controls == old(controls) && value == old(value)
      ensures found ==>
        && errors == old(errors)[name := Some(ValidateField(controls[name].rules, name, value, reg.entries))]
        && status == old(status)[name := StatusOf(errors[name])]
      ensures !found ==> errors == old(errors) && status == old(status)
    {
      found := name in controls;
      if found {
        var e := RunValidation(controls[name].rules, GetValue(name), reg.entries, ControlRef(name, value));
        SetErrors(name, Some(e));
      }
    }

    /** `setValue(name, v)`: stores `v`, then re-validates `name` and no
        other field, even one whose `equalToControl` names it. */
    method SetValue(name: string, v: Value, reg: Registry) returns (found: bool)
      requires Valid()
      modifies this
      ensures Valid()
      ensures value == old(value)[name := v] && GetValue(name) == v
      ensures controls == old(controls)
      ensures found == (name in controls)
      ensures found ==>
        && errors == old(errors)[name := Some(ValidateField(controls[name].rules, name, value, reg.entries))]
        && status == old(status)[name := StatusOf(errors[name])]
      ensures !found ==> errors == old(errors) && status == old(status)
    {
      value := value[name := v];
      found := ValidateControl(name, reg);
    }

    /** `handleSubmit`: which callback fires. */
    function HandleSubmit(): Option<SubmitCall>
      reads this
    {
      Decide(status, errors, value, hasValidCallback, hasInvalidCallback)
    }

    /** `submit()`: validates exactly the INIT fields, in one update, then
        dispatches the one callback the resulting statuses call for. */
    method Submit(reg: Registry) returns (call: Option<SubmitCall>)
      requires Valid()
      modifies this
      ensures Valid()
      ensures controls == old(controls) && value == old(value)
      ensures status == SubmittedStatus(old(status), old(RuleTable()), value, reg.entries)
      ensures errors == SubmittedErrors(old(errors), old(status), old(RuleTable()), value, reg.entries)
      ensures call == Decide(status, errors, value, hasValidCallback, hasInvalidCallback)
    {
      SubmittedShape(status, errors, RuleTable(), value, reg.entries);
      status, errors := SubmitUpdate(status, errors, RuleTable(), value, reg.entries);
      call := Decide(status, errors, value, hasValidCallback, hasInvalidCallback);
    }
  }

  /** A field's control: registers with its form, forwards value changes to
      it, re-validates when its validator props change, and keeps the
      `touched` flag. Value, status and validity are read off the form. */
  class Control {
    const name: string
    const form: Form
    /** The validator props (every prop but `name` and `children`). */
    var rules: Rules
    var touched: bool

    constructor (name: string, form: Form, rules: Rules)
      requires UniqueKeys(rules)
      ensures UniqueKeys(this.rules)
      ensures this.name == name && this.form == form && this.rules == rules && !touched
    {
      this.name := name;
      this.form := form;
      this.rules := rules;
      touched := false;
    }

    /** `value`: the form's value of the field, `''` when that is falsy. */
    function Value(): (v: Value)
      reads form
      ensures Truthy(form.GetValue(name)) ==> v == form.GetValue(name)
      ensures !Truthy(form.GetValue(name)) ==> v == Str("")
    {
      var v := form.GetValue(name);
      if Truthy(v) then v else Str("")
    }

    /** `status`: the form's status of the field, `undefined` when the form
        has none. */
    function FieldStatus(): (r: Option<Status>)
      reads form
      ensures r.Some? <==> name in form.status
      ensures r.Some? ==> r.value == form.status[name]
    {
      form.GetStatus(name)
    }

    /** `errors`: the form's errors of the field, `undefined` when the form
        has none. */
    function FieldErrors(): (r: Option<Option<Errors>>)
      reads form
      ensures r.Some? <==> name in form.errors
      ensures r.Some? ==> r.value == form.errors[name]
    {
      form.GetErrors(name)
    }

    /** `isValid`: the field's status is VALID. */
    predicate IsValid()
      reads form
      ensures IsValid() <==> name in form.status && form.status[name] == Valid
    {
      FieldStatus() == Some(Valid)
    }

    /** `isInvalid`: anything but VALID, so an INIT field and a field the
        form does not know are invalid too. */
    predicate IsInvalid()
      reads form
      ensures IsInvalid() <==> name !in form.status || form.status[name] != Valid
      ensures name in form.status && form.status[name] == Init ==> IsInvalid()
    {
      !IsValid()
    }

    /** `isTouched` */
    predicate IsTouched()
      reads this
      ensures IsTouched() <==> touched
    {
      touched
    }

    /** `isUntouched`: exactly when not touched. */
    predicate IsUntouched()
      reads this
      ensures IsUntouched() <==> !IsTouched()
    {
      !touched
    }

    /** Mounting: `form.addControl(name, this)`. */
    method Mount(reg: Registry)
      requires form.Valid()
      modifies form
      ensures form.Valid()
      ensures form.controls == old(form.controls)[name := this] && form.value == old(form.value)
      ensures name in form.value ==>
        && form.errors == old(form.errors)[name := Some(ValidateField(rules, name, form.value, reg.entries))]
        && form.status == old(form.status)[name := StatusOf(form.errors[name])]
      ensures name !in form.value ==>
        form.errors == old(form.errors)[name := None] && form.status == old(form.status)[name := Init]
    {
      form.AddControl(name, this, reg);
    }

    /** Unmounting: `form.removeControl(name)`. */
    method Unmount()
      requires form.Valid()
      modifies form
      ensures form.Valid()
      ensures form.controls == old(form.controls) - {name}
      ensures form.status == old(form.status) - {name} && form.errors == old(form.errors) - {name}
      ensures form.value == old(form.value)
    {
      form.RemoveControl(name);
    }

    /** `onChange(v)`: one `form.setValue(name, v)`; the control's own state
        does not change. */
    method OnChange(v: Value, reg: Registry)
      requires form.Valid()
      modifies form
      ensures form.Valid()
      ensures form.value == old(form.value)[name := v]
      ensures form.controls == old(form.controls)
      ensures name in form.controls ==>
        && form.errors == old(form.errors)[name := Some(ValidateField(form.controls[name].rules, name, form.value, reg.entries))]
        && form.status == old(form.status)[name := StatusOf(form.errors[name])]
      ensures name !in form.controls ==> form.errors == old(form.errors) && form.status == old(form.status)
    {
      var _ := form.SetValue(name, v, reg);
    }

    /** A prop update (`componentDidUpdate`): the new props replace the old
        ones, and the form re-validates the field exactly when
        `isValidationRulesChanged` holds of the old and the new props. */
    method ReceiveRules(next: Rules, reg: Registry) returns (revalidated: bool)
      requires form.Valid() && UniqueKeys(next)
      modifies this, form
      ensures form.Valid()
      ensures rules == next && touched == old(touched)
      ensures revalidated == RulesChanged(old(rules), next, reg.entries)
      ensures form.controls == old(form.controls) && form.value == old(form.value)
      ensures revalidated && name in form.controls ==>
        && form.errors == old(form.errors)[name := Some(ValidateField(form.controls[name].rules, name, form.value, reg.entries))]
        && form.status == old(form.status)[name := StatusOf(form.errors[name])]
      ensures !(revalidated && name in form.controls) ==> form.status == old(form.status) && form.errors == old(form.errors)
    {
      var previous := rules;
      rules := next;
      revalidated := IsValidationRulesChanged(previous, next, reg.entries);
      if revalidated {
        var _ := form.ValidateControl(name, reg);
      }
    }

    /** `markAsTouched()`: sets the flag, issuing an update only when it was
        clear. */
    method MarkAsTouched() returns (updated: bool)
      modifies this
      ensures touched && updated == !old(touched) && rules == old(rules)
    {
      updated := !touched;
      if updated {
        touched := true;
      }
    }

    /** `markAsUntouched()`: clears the flag, issuing an update only when it
        was set. */
    method MarkAsUntouched() returns (updated: bool)
      modifies this
      ensures !touched && updated == old(touched) && rules == old(rules)
    {
      updated := touched;
      if updated {
        touched := false;
      }
    }
  }
}
