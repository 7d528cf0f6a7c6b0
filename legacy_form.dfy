/** The form of the legacy generation (src/Form.js): a map of registered
    controls, from which the value, status and errors maps and the validity
    getters are derived on every read. */
module LegacyForms {
  import opened Types
  import opened LegacyValidators
  import opened LegacyControls

  /** `isValid`: every control is VALID (so an empty form is valid). */
  predicate AllValid(status: map<string, ControlStatus>)
  {
    forall n :: n in status ==> status[n] == ControlStatus.Valid
  }

  /** `isInit`: some control is INIT. */
  predicate AnyInit(status: map<string, ControlStatus>)
  {
    exists n :: n in status && status[n] == ControlStatus.Init
  }

  /** `isPending`: some control is PENDING. */
  predicate AnyPending(status: map<string, ControlStatus>)
  {
    exists n :: n in status && status[n] == ControlStatus.Pending
  }

  /** `isInvalid`: `isInit || (!isPending && !isValid)`. */
  predicate InvalidOf(status: map<string, ControlStatus>)
  {
    AnyInit(status) || (!AnyPending(status) && !AllValid(status))
  }

  /** How the aggregate getters relate: an empty form is valid and not
      invalid; an INIT control makes the form invalid and not valid;
      without a PENDING control the form is invalid exactly when it is not
      valid; and a form with a PENDING control but no INIT one is neither
      valid nor invalid. */
  lemma StatusLaws(status: map<string, ControlStatus>)
    ensures status == map[] ==> AllValid(status) && !AnyInit(status) && !InvalidOf(status)
    ensures AnyInit(status) ==> InvalidOf(status) && !AllValid(status)
    ensures !AnyPending(status) ==> (InvalidOf(status) <==> !AllValid(status))
    ensures AnyPending(status) && !AnyInit(status) ==> !AllValid(status) && !InvalidOf(status)
  {
    if AnyInit(status) {
      var n :| n in status && status[n] == ControlStatus.Init;
    }
    if AnyPending(status) {
      var n :| n in status && status[n] == ControlStatus.Pending;
    }
  }

  /** The callback `submit` dispatches, with its arguments. */
  datatype LegacySubmitCall =
    | ValidSubmit(model: map<string, Value>)
    | InvalidSubmit(errors: map<string, Option<Errors>>, model: map<string, Value>)

  /** `handleSubmit`: the valid callback (with the value) when the form is
      valid, the invalid one (with the errors and the value) otherwise, each
      only when it is a function; never both. */
  function LegacyDecide(status: map<string, ControlStatus>, errors: map<string, Option<Errors>>, value: map<string, Value>,
                        hasValidCallback: bool, hasInvalidCallback: bool): (r: Option<LegacySubmitCall>)
    ensures r == Some(ValidSubmit(value)) <==> hasValidCallback && AllValid(status)
    ensures r == Some(InvalidSubmit(errors, value)) <==> hasInvalidCallback && !AllValid(status)
    ensures r.None? <==> if AllValid(status) then !hasValidCallback else !hasInvalidCallback
  {
    if AllValid(status) then
      if hasValidCallback then Some(ValidSubmit(value)) else None
    else
      if hasInvalidCallback then Some(InvalidSubmit(errors, value)) else None
  }

  /** A control's state after `submit` went past it without a throw: an
      INIT control has been validated, any other one is as it was. */
  predicate SubmittedFrom(c: LegacyControl, status0: ControlStatus, errors0: Option<Errors>, reg: LegacyRegistry)
    reads c, reg
  {
    if status0 == ControlStatus.Init then c.ValidatedAs(SyncErrors(reg.entries, c.props, c.value), status0, errors0, false)
    else c.status == status0 && c.errors == errors0
  }

  /** The walk of `submit` over the registered controls: every INIT control
      is validated, until a validator throws. */
  method ValidateInitControls(controls: map<string, LegacyControl>, reg: LegacyRegistry) returns (threw: bool)
    modifies controls.Values
    ensures forall c :: c in controls.Values ==> c.value == old(c.value)
    ensures !threw ==> forall c :: c in controls.Values ==> SubmittedFrom(c, old(c.status), old(c.errors), reg) && c.status != ControlStatus.Init
  {
    var rest := controls.Keys;
    ghost var visited: set<LegacyControl> := {};
    while rest != {}
      invariant rest <= controls.Keys
      invariant visited <= controls.Values
      invariant forall n :: n in controls.Keys - rest ==> controls[n] in visited
      invariant forall c :: c in controls.Values ==> c.value == old(c.value)
      invariant forall c :: c in controls.Values && c !in visited ==> c.status == old(c.status) && c.errors == old(c.errors)
      invariant forall c :: c in visited ==> SubmittedFrom(c, old(c.status), old(c.errors), reg) && c.status != ControlStatus.Init
      decreases rest
    {
      var n :| n in rest;
      var c := controls[n];
      if c.IsInit() {
        threw := c.Validate(reg);
        if threw {
          return true;
        }
      }
      visited := visited + {c};
      rest := rest - {n};
    }
    return false;
  }

  /** A form none of whose controls is INIT is not INIT. */
  lemma NoInitLeft(form: LegacyForm)
    requires forall c :: c in form.controls.Values ==> c.status != ControlStatus.Init
    ensures !form.IsInit()
  {
    var s := form.StatusMap();
    forall n | n in s ensures s[n] != ControlStatus.Init {
      assert form.controls[n] in form.controls.Values;
    }
  }

  /** The form component. */
  class LegacyForm {
    var controls: map<string, LegacyControl>
    /** Whether the `onValidSubmit` and `onInvalidSubmit` props are functions. */
    const hasValidCallback: bool
    const hasInvalidCallback: bool

    constructor (hasValidCallback: bool, hasInvalidCallback: bool)
      ensures controls == map[]
      ensures this.hasValidCallback == hasValidCallback && this.hasInvalidCallback == hasInvalidCallback
    {
      controls := map[];
      this.hasValidCallback := hasValidCallback;
      this.hasInvalidCallback := hasInvalidCallback;
    }

    /** `addControl(name, control)` (called when a control mounts): binds
        `name` to `control`, replacing an earlier binding. */
    method AddControl(name: string, control: LegacyControl)
      modifies this
      ensures controls == old(controls)[name := control]
    {
      controls := controls[name := control];
    }

    /** The `value` getter: each registered name with its control's value. */
    function ValueMap(): (r: map<string, Value>)
      reads this, controls.Values
      ensures r.Keys == controls.Keys
    {
      map n | n in controls :: controls[n].value
    }

    /** The `status` getter. */
    function StatusMap(): (r: map<string, ControlStatus>)
      reads this, controls.Values
      ensures r.Keys == controls.Keys
    {
      map n | n in controls :: controls[n].status
    }

    /** The `errors` getter. */
    function ErrorsMap(): (r: map<string, Option<Errors>>)
      reads this, controls.Values
      ensures r.Keys == controls.Keys
    {
      map n | n in controls :: controls[n].errors
    }

    predicate IsValid()
      reads this, controls.Values
    {
      AllValid(StatusMap())
    }

    predicate IsInit()
      reads this, controls.Values
    {
      AnyInit(StatusMap())
    }

    predicate IsPending()
      reads this, controls.Values
    {
      AnyPending(StatusMap())
    }

    predicate IsInvalid()
      reads this, controls.Values
    {
      IsInit() || (!IsPending() && !IsValid())
    }

    /** `handleSubmit()`: which callback fires. */
    function HandleSubmit(): Option<LegacySubmitCall>
      reads this, controls.Values
    {
      LegacyDecide(StatusMap(), ErrorsMap(), ValueMap(), hasValidCallback, hasInvalidCallback)
    }

    /** `submit()`: when some control is INIT, validates every INIT control,
        then dispatches. A validator that throws aborts the walk; which
        controls were validated before it depends on the order of the map,
        and no callback fires. */
    method Submit(reg: LegacyRegistry) returns (call: Option<LegacySubmitCall>, threw: bool)
      modifies controls.Values
      ensures forall c :: c in controls.Values ==> c.value == old(c.value)
      ensures !threw ==> forall c :: c in controls.Values ==> SubmittedFrom(c, old(c.status), old(c.errors), reg)
      ensures !threw ==> !IsInit() && call == HandleSubmit()
      ensures threw ==> call.None?
      ensures !old(IsInit()) ==> !threw && forall c :: c in controls.Values ==> c.status == old(c.status) && c.errors == old(c.errors)
    {
      if !IsInit() {
        call := HandleSubmit();
        threw := false;
        forall c | c in controls.Values ensures c.status != ControlStatus.Init {
          var n :| n in controls && controls[n] == c;
          assert StatusMap()[n] == c.status;
        }
        return;
      }
      threw := ValidateInitControls(controls, reg);
      if threw {
        return None, true;
      }
      call := HandleSubmit();
      threw := false;
      NoInitLeft(this);
    }
  }
}
