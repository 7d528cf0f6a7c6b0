/** The control of the legacy generation (src/Control.js): each control keeps
    its own value, status and errors, and validates itself by folding every
    registered validator its props switch on. */
module LegacyControls {
  import opened Types
  import opened Coercions
  import opened LegacyValidators

  /** A legacy control's status; PENDING stands for a validation in flight. */
  datatype ControlStatus = Init | Valid | Invalid | Pending

  /** `if (this.props[v])`: whether a prop switches its validator on. */
  predicate PropOn(c: Config)
  {
    match c
    case Flag(b) => b
    case Number(n) => n != 0
    case Text(s) => s != ""
    case Pattern(_, _) => true
    case Callback(_) => true
    case Absent => false
  }

  /** A control's props; a missing prop reads as `undefined`. */
  function PropOf(props: map<string, Config>, v: string): Config
  {
    if v in props then props[v] else Absent
  }

  /** What applying one switched-on validator does. */
  datatype Verdict = Pass | Fail | Throw

  /** One validator under prop `c`: a boolean prop calls the validator on
      the value directly (a curried one then returns a function, which is
      truthy, so it passes); any other prop first applies the validator to
      the prop, and calling what a plain predicate returns throws. */
  function Judge(validator: LegacyValidator, c: Config, val: Value): (r: Verdict)
    ensures c.Flag? && validator.Curried? ==> r == Pass
    ensures !c.Flag? && validator.Direct? ==> r == Throw
    ensures r == Throw <==> !c.Flag? && validator.Direct?
    ensures c.Flag? && validator.Direct? ==> (r == Pass <==> validator.test(val))
    ensures !c.Flag? && validator.Curried? ==> (r == Pass <==> validator.make(c)(val))
  {
    match validator
    case Direct(test) => if c.Flag? then (if test(val) then Pass else Fail) else Throw
    case Curried(make) => if c.Flag? then Pass else (if make(c)(val) then Pass else Fail)
  }

  /** The verdict on `val` of the registered validator `v`, when the
      control's props switch it on. */
  function VerdictOf(reg: map<string, LegacyValidator>, props: map<string, Config>, v: string, val: Value): Verdict
    requires v in reg
  {
    if PropOn(PropOf(props, v)) then Judge(reg[v], PropOf(props, v), val) else Pass
  }

  /** The names among `names` whose validator fails. */
  function Failing(reg: map<string, LegacyValidator>, props: map<string, Config>, names: set<string>, val: Value): set<string>
    requires names <= reg.Keys
  {
    set v | v in names && VerdictOf(reg, props, v, val) == Fail
  }

  /** `null` when nothing failed, otherwise `{v: true}` for each failure. */
  function ErrorsFor(failing: set<string>): (e: Option<Errors>)
    ensures e.None? <==> failing == {}
    ensures e.Some? ==> e.value.Keys == failing && forall v :: v in e.value ==> e.value[v]
  {
    if failing == {} then None else Some(map v | v in failing :: true)
  }

  /** What `getValidator()` computes for a value: an exception when some
      switched-on validator throws, otherwise the merged errors. */
  datatype Sync = Threw | Errs(errors: Option<Errors>)

  function SyncErrors(reg: map<string, LegacyValidator>, props: map<string, Config>, val: Value): (r: Sync)
    ensures r.Threw? <==> exists v :: v in reg && VerdictOf(reg, props, v, val) == Throw
    ensures r.Errs? ==> r.errors == ErrorsFor(Failing(reg, props, reg.Keys, val))
  {
    if exists v :: v in reg && VerdictOf(reg, props, v, val) == Throw then Threw
    else Errs(ErrorsFor(Failing(reg, props, reg.Keys, val)))
  }

  /** A validator switched off by its prop never reports an error. */
  lemma SwitchedOffNeverFails(reg: map<string, LegacyValidator>, props: map<string, Config>, v: string, val: Value)
    requires v in reg && !PropOn(PropOf(props, v))
    ensures SyncErrors(reg, props, val).Errs? ==> var e := SyncErrors(reg, props, val).errors; e.None? || v !in e.value
  {
  }

  /** One more name in the fold: the failures grow by that name exactly
      when its validator fails, and the accumulator follows. */
  lemma FailingStep(reg: map<string, LegacyValidator>, props: map<string, Config>, done: set<string>, v: string, val: Value)
    requires done + {v} <= reg.Keys && v !in done
    ensures var f := Failing(reg, props, done, val);
      var e := ErrorsFor(f);
      ErrorsFor(Failing(reg, props, done + {v}, val))
        == if VerdictOf(reg, props, v, val) != Fail then e
           else if e.None? then Some(map[v := true]) else Some(e.value[v := true])
  {
    var f := Failing(reg, props, done, val);
    if VerdictOf(reg, props, v, val) == Fail {
      assert Failing(reg, props, done + {v}, val) == f + {v};
      if f != {} {
        assert (map w | w in f + {v} :: true) == (map w | w in f :: true)[v := true];
      } else {
        var g := Failing(reg, props, done + {v}, val);
        assert g == {v};
        assert ErrorsFor(g).value == map[v := true];
      }
    } else {
      assert Failing(reg, props, done + {v}, val) == f;
    }
  }

  /** `getValidator()(val)`: the fold over the registered names, with the
      accumulator starting at `null`, becoming `{v: true}` at the first
      failure and gaining one key per later failure. */
  method RunSyncValidator(reg: map<string, LegacyValidator>, props: map<string, Config>, val: Value) returns (r: Sync)
    ensures r == SyncErrors(reg, props, val)
  {
    var errors: Option<Errors> := None;
    var rest := reg.Keys;
    while rest != {}
      invariant rest <= reg.Keys
      invariant forall v :: v in reg.Keys - rest ==> VerdictOf(reg, props, v, val) != Throw
      invariant errors == ErrorsFor(Failing(reg, props, reg.Keys - rest, val))
      decreases rest
    {
      var v :| v in rest;
      ghost var done := reg.Keys - rest;
      var c := PropOf(props, v);
      if PropOn(c) {
        var verdict := Judge(reg[v], c, val);
        if verdict == Throw {
          return Threw;
        }
        if verdict == Fail {
          if errors.None? {
            errors := Some(map[v := true]);
          } else {
            errors := Some(errors.value[v := true]);
          }
        }
      }
      FailingStep(reg, props, done, v, val);
      assert reg.Keys - (rest - {v}) == done + {v};
      rest := rest - {v};
    }
    assert reg.Keys - rest == reg.Keys;
    return Errs(errors);
  }

  /** An error object with a key `then` looks like a promise to `validate`. */
  predicate LooksLikePromise(e: Option<Errors>)
  {
    e.Some? && "then" in e.value && e.value["then"]
  }

  /** The control component: its own value, status and errors. */
  class LegacyControl {
    const name: string
    /** The props; `name` and `children` name no validator. */
    const props: map<string, Config>
    var value: Value
    var status: ControlStatus
    var errors: Option<Errors>

    /** A new control holds `''`, is INIT and has null errors. */
    constructor (name: string, props: map<string, Config>)
      ensures this.name == name && this.props == props
      ensures value == Str("") && status == ControlStatus.Init && errors == None
    {
      this.name := name;
      this.props := props;
      value := Str("");
      status := ControlStatus.Init;
      errors := None;
    }

    /** `setStatus(status)` */
    method SetStatus(s: ControlStatus)
      modifies this
      ensures status == s && value == old(value) && errors == old(errors)
    {
      status := s;
    }

    /** `updateStatus(e)`: stores `e`; VALID exactly when `e` is null. */
    method UpdateStatus(e: Option<Errors>)
      modifies this
      ensures errors == e && value == old(value)
      ensures status == ControlStatus.Valid <==> e.None?
      ensures status == ControlStatus.Invalid <==> e.Some?
    {
      errors := e;
      if e.None? {
        SetStatus(ControlStatus.Valid);
        return;
      }
      SetStatus(ControlStatus.Invalid);
    }

    /** `runValidator()`: the synchronous result; the asynchronous hook
        `getAsyncValidator` is null, so a null result stays null. */
    method RunValidator(reg: LegacyRegistry) returns (r: Sync)
      ensures r == SyncErrors(reg.entries, props, value)
    {
      r := RunSyncValidator(reg.entries, props, value);
    }

    /** `validate()`: a thrown validator leaves the state as it was; errors
        that look like a promise make the control PENDING and then throw
        (calling their `then`); any other result goes to `updateStatus`. */
    method Validate(reg: LegacyRegistry) returns (threw: bool)
      modifies this
      ensures value == old(value)
      ensures ValidatedAs(SyncErrors(reg.entries, props, value), old(status), old(errors), threw)
    {
      var r := RunValidator(reg);
      if r.Threw? {
        return true;
      }
      if LooksLikePromise(r.errors) {
        SetStatus(ControlStatus.Pending);
        return true;
      }
      UpdateStatus(r.errors);
      return false;
    }

    /** The state after `validate`, given the synchronous result and the
        state before. */
    predicate ValidatedAs(r: Sync, status0: ControlStatus, errors0: Option<Errors>, threw: bool)
      reads this
    {
      match r
      case Threw => threw && status == status0 && errors == errors0
      case Errs(e) =>
        if LooksLikePromise(e) then threw && status == ControlStatus.Pending && errors == errors0
        else !threw && errors == e && status == (if e.None? then ControlStatus.Valid else ControlStatus.Invalid)
    }

    /** `onChange(v)`: stores `v`, then validates. */
    method OnChange(v: Value, reg: LegacyRegistry) returns (threw: bool)
      modifies this
      ensures value == v
      ensures ValidatedAs(SyncErrors(reg.entries, props, v), old(status), old(errors), threw)
      ensures !threw ==> status != ControlStatus.Init && status != ControlStatus.Pending
    {
      value := v;
      threw := Validate(reg);
    }

    predicate IsInit()
      reads this
    {
      status == ControlStatus.Init
    }

    predicate IsValid()
      reads this
    {
      status == ControlStatus.Valid
    }

    predicate IsInvalid()
      reads this
    {
      status == ControlStatus.Invalid
    }

    predicate IsPending()
      reads this
    {
      status == ControlStatus.Pending
    }
  }

  /** Exactly one of the four status getters holds. */
  lemma ExactlyOneStatus(c: LegacyControl)
    ensures (if c.IsInit() then 1 else 0) + (if c.IsValid() then 1 else 0)
      + (if c.IsInvalid() then 1 else 0) + (if c.IsPending() then 1 else 0) == 1
  {
  }

  /** Validation without a throw leaves a control VALID or INVALID, with the
      errors naming exactly the failing switched-on validators. */
  lemma ValidatedOutcome(reg: map<string, LegacyValidator>, props: map<string, Config>, val: Value, v: string)
    requires SyncErrors(reg, props, val).Errs?
    ensures var e := SyncErrors(reg, props, val).errors;
      (e.None? <==> forall w :: w in reg ==> VerdictOf(reg, props, w, val) == Pass)
      && (e.Some? ==> (v in e.value <==> v in reg && PropOn(PropOf(props, v)) && Judge(reg[v], PropOf(props, v), val) == Fail))
  {
    var e := SyncErrors(reg, props, val).errors;
    if e.None? {
      forall w | w in reg ensures VerdictOf(reg, props, w, val) == Pass {
        assert w !in Failing(reg, props, reg.Keys, val);
      }
    } else {
      var w :| w in Failing(reg, props, reg.Keys, val);
      assert VerdictOf(reg, props, w, val) != Pass;
    }
  }
}
