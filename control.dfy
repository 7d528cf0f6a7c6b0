/** The rule logic of a control (src/control.ts): deciding whether a change of
    props asks for re-validation, and running every validator a control
    declares. The stateful `Control` component lives with `Form` in module
    `Forms`, because the two classes refer to each other. */
module ControlRules {
  import opened Types
  import opened Utils
  import opened Validators
  import opened Coercions

  /** Deep equality of two prop values; the engine never asks it about two
      functions, and treats any function as unequal to anything. Regular
      expressions compare by their string form, so the flags count. */
  predicate ConfigEqual(a: Config, b: Config)
  {
    match (a, b)
    case (Flag(x), Flag(y)) => x == y
    case (Number(x), Number(y)) => x == y
    case (Text(x), Text(y)) => x == y
    case (Pattern(x, _), Pattern(y, _)) => x == y
    case (Absent, Absent) => true
    case _ => false
  }

  /** `props[key]`; a missing key reads as `undefined`. */
  function Lookup(props: Rules, key: string): Config
  {
    if |props| == 0 then Absent
    else if props[|props| - 1].0 == key then props[|props| - 1].1
    else Lookup(props[..|props| - 1], key)
  }

  /** `Object.keys(props).filter(Validators.has)`: the prop keys that name a
      registered validator, in key order. */
  function RuleNames(props: Rules, validators: map<string, Validator>): (r: seq<string>)
    ensures forall k :: k in r <==> k in validators && exists i :: 0 <= i < |props| && props[i].0 == k
  {
    if |props| == 0 then []
    else
      var init := props[..|props| - 1];
      var r := RuleNames(init, validators) + (if props[|props| - 1].0 in validators then [props[|props| - 1].0] else []);
      assert forall i :: 0 <= i < |init| ==> init[i] == props[i];
      r
  }

  /** The loop body's test for one old rule: a non-function rule whose new
      value is not deeply equal to the old one. */
  predicate Differs(current: Rules, next: Rules, rule: string)
  {
    !Lookup(current, rule).IsFunction() && !ConfigEqual(Lookup(current, rule), Lookup(next, rule))
  }

  /** When a prop update asks for re-validation: the number of validator
      props differs, or some old non-function rule changed its value. */
  predicate RulesChanged(current: Rules, next: Rules, validators: map<string, Validator>)
  {
    var oldRules := RuleNames(current, validators);
    |oldRules| != |RuleNames(next, validators)|
    || exists j :: 0 <= j < |oldRules| && Differs(current, next, oldRules[j])
  }

  /** `isValidationRulesChanged(currentProps, nextProps)` */
  method IsValidationRulesChanged(current: Rules, next: Rules, validators: map<string, Validator>)
    returns (changed: bool)
    ensures changed == RulesChanged(current, next, validators)
  {
    var oldRules := RuleNames(current, validators);
    var newRules := RuleNames(next, validators);
    if |oldRules| != |newRules| {
      return true;
    }
    var i := 0;
    while i < |oldRules|
      invariant 0 <= i <= |oldRules|
      invariant forall j :: 0 <= j < i ==> !Differs(current, next, oldRules[j])
    {
      if Differs(current, next, oldRules[i]) {
        return true;
      }
      i := i + 1;
    }
    return false;
  }

  /** With distinct keys, as a props object has, a lookup finds each prop's
      own value. */
  lemma {:induction false} LookupUnique(props: Rules, i: nat)
    requires UniqueKeys(props) && i < |props|
    ensures Lookup(props, props[i].0) == props[i].1
  {
    if i < |props| - 1 {
      var init := props[..|props| - 1];
      assert init[i] == props[i];
      assert props[|props| - 1].0 != props[i].0;
      LookupUnique(init, i);
    }
  }

  /** Two prop lists with the same keys in the same order. */
  predicate SameKeys(a: Rules, b: Rules)
  {
    |a| == |b| && forall i :: 0 <= i < |a| ==> a[i].0 == b[i].0
  }

  lemma {:induction false} SameKeysSameRuleNames(a: Rules, b: Rules, validators: map<string, Validator>)
    requires SameKeys(a, b)
    ensures RuleNames(a, validators) == RuleNames(b, validators)
  {
    if |a| > 0 {
      SameKeysSameRuleNames(a[..|a| - 1], b[..|b| - 1], validators);
    }
  }

  /** Under equal keys, a lookup in the new props finds the entry at the same
      position as in the old props. */
  lemma {:induction false} LookupAlongSameKeys(a: Rules, b: Rules, key: string)
    requires SameKeys(a, b)
    ensures (forall i :: 0 <= i < |a| && a[i].0 == key ==> ConfigEqual(a[i].1, b[i].1) || a[i].1.Callback?)
            ==> ConfigEqual(Lookup(a, key), Lookup(b, key)) || Lookup(a, key).Callback?
  {
    if |a| > 0 && a[|a| - 1].0 != key {
      LookupAlongSameKeys(a[..|a| - 1], b[..|b| - 1], key);
    }
  }

  /** A prop update in which only callback rules were replaced (a fresh arrow
      function on every render, say) and every other prop kept its value
      does not ask for re-validation. */
  lemma OnlyCallbacksReplaced(current: Rules, next: Rules, validators: map<string, Validator>)
    requires SameKeys(current, next)
    requires forall i :: 0 <= i < |current| ==>
      ConfigEqual(current[i].1, next[i].1) || current[i].1.Callback?
    ensures !RulesChanged(current, next, validators)
  {
    SameKeysSameRuleNames(current, next, validators);
    var oldRules := RuleNames(current, validators);
    forall j | 0 <= j < |oldRules| ensures !Differs(current, next, oldRules[j]) {
      LookupAlongSameKeys(current, next, oldRules[j]);
    }
  }

  /** Changing only the flags of a `pattern` prop (`/^a$/` becoming
      `/^a$/i`) asks for re-validation. */
  lemma PatternFlagsChange(t1: Value -> bool, t2: Value -> bool, validators: map<string, Validator>)
    requires "pattern" in validators
    ensures RulesChanged([("pattern", Pattern("/^a$/", t1))], [("pattern", Pattern("/^a$/i", t2))], validators)
  {
    var current: Rules := [("pattern", Pattern("/^a$/", t1))];
    var next: Rules := [("pattern", Pattern("/^a$/i", t2))];
    assert current[..0] == [] && next[..0] == [];
    assert RuleNames(current, validators) == ["pattern"];
    assert Lookup(current, "pattern") == Pattern("/^a$/", t1);
    assert Lookup(next, "pattern") == Pattern("/^a$/i", t2);
    assert "/^a$/" != "/^a$/i" by { assert |"/^a$/"| != |"/^a$/i"|; }
    assert Differs(current, next, "pattern");
  }

  /** Adding a validator prop that was not there asks for re-validation. */
  lemma AddedRule(current: Rules, key: string, c: Config, validators: map<string, Validator>)
    requires key in validators
    requires UniqueKeys(current) && forall i :: 0 <= i < |current| ==> current[i].0 != key
    ensures UniqueKeys(current + [(key, c)])
    ensures RulesChanged(current, current + [(key, c)], validators)
  {
    var next := current + [(key, c)];
    assert next[..|next| - 1] == current;
  }

  /** `props` with the value of `key` replaced by `c`. */
  function SetProp(props: Rules, key: string, c: Config): (r: Rules)
    ensures SameKeys(props, r)
    ensures forall i :: 0 <= i < |props| && props[i].0 != key ==> r[i] == props[i]
  {
    seq(|props|, i requires 0 <= i < |props| => if props[i].0 == key then (key, c) else props[i])
  }

  lemma {:induction false} LookupSetProp(props: Rules, key: string, c: Config)
    requires exists i :: 0 <= i < |props| && props[i].0 == key
    ensures Lookup(SetProp(props, key, c), key) == c
  {
    var r := SetProp(props, key, c);
    if props[|props| - 1].0 != key {
      assert r[..|r| - 1] == SetProp(props[..|props| - 1], key, c);
      var i :| 0 <= i < |props| && props[i].0 == key;
      assert props[..|props| - 1][i].0 == key;
      LookupSetProp(props[..|props| - 1], key, c);
    }
  }

  /** Giving a non-function validator prop a value that is not deeply equal
      to its old one (`minLength={6}` becoming `minLength={3}`) asks for
      re-validation. */
  lemma ChangedRuleValue(current: Rules, key: string, c: Config, validators: map<string, Validator>)
    requires key in validators
    requires exists i :: 0 <= i < |current| && current[i].0 == key
    requires !Lookup(current, key).IsFunction() && !ConfigEqual(Lookup(current, key), c)
    ensures RulesChanged(current, SetProp(current, key, c), validators)
  {
    var next := SetProp(current, key, c);
    SameKeysSameRuleNames(current, next, validators);
    LookupSetProp(current, key, c);
    var oldRules := RuleNames(current, validators);
    assert key in oldRules;
    var j :| 0 <= j < |oldRules| && oldRules[j] == key;
    assert Differs(current, next, oldRules[j]);
  }

  /** What the validator named by a prop returns; a prop that names no
      registered validator contributes nothing. */
  function Outcome(rule: (string, Config), v: Value, validators: map<string, Validator>, control: ControlRef): ValidatorResult
  {
    if rule.0 in validators then validators[rule.0](v, rule.1, control) else None
  }

  /** The fold of `runValidation`: starting from `{}`, every non-null result
      is merged in, later keys overwriting earlier ones. */
  function Evaluate(props: Rules, v: Value, validators: map<string, Validator>, control: ControlRef): Errors
  {
    if |props| == 0 then map[]
    else
      var acc := Evaluate(props[..|props| - 1], v, validators, control);
      var out := Outcome(props[|props| - 1], v, validators, control);
      if out.Some? then acc + out.value else acc
  }

  /** `runValidation(value)`: applies every prop that names a registered
      validator, without short-circuit, and merges all failures into one
      map; "no failure" is `{}`, never `null`. */
  method RunValidation(props: Rules, v: Value, validators: map<string, Validator>, control: ControlRef)
    returns (errors: Errors)
    ensures errors == Evaluate(props, v, validators, control)
  {
    errors := map[];
    var i := 0;
    while i < |props|
      invariant 0 <= i <= |props|
      invariant errors == Evaluate(props[..i], v, validators, control)
    {
      assert props[..i + 1][..i] == props[..i];
      var rule := props[i];
      if rule.0 in validators {
        var e := validators[rule.0](v, rule.1, control);
        if e.Some? {
          errors := errors + e.value;
        }
      }
      i := i + 1;
    }
    assert props[..|props|] == props;
  }

  /** The validator of prop `rule` failed and reported `key`. */
  predicate FailsWith(rule: (string, Config), key: string, v: Value, validators: map<string, Validator>, control: ControlRef)
  {
    var out := Outcome(rule, v, validators, control);
    out.Some? && key in out.value
  }

  /** The merged map's keys are exactly the keys of all non-null results. */
  lemma {:induction false} EvaluateKeys(props: Rules, v: Value, validators: map<string, Validator>, control: ControlRef, key: string)
    ensures key in Evaluate(props, v, validators, control)
      <==> exists i :: 0 <= i < |props| && FailsWith(props[i], key, v, validators, control)
  {
    if |props| > 0 {
      var init := props[..|props| - 1];
      EvaluateKeys(init, v, validators, control, key);
      assert forall i :: 0 <= i < |init| ==> init[i] == props[i];
      if FailsWith(props[|props| - 1], key, v, validators, control) {
        assert key in Evaluate(props, v, validators, control);
      }
    }
  }

  /** A field's merged errors are non-empty exactly when some applied
      validator reported a non-empty error map. */
  lemma EvaluateHasError(props: Rules, v: Value, validators: map<string, Validator>, control: ControlRef)
    ensures HasError(Evaluate(props, v, validators, control))
      <==> exists i, key :: 0 <= i < |props| && FailsWith(props[i], key, v, validators, control)
  {
    var e := Evaluate(props, v, validators, control);
    if HasError(e) {
      var key :| key in e;
      EvaluateKeys(props, v, validators, control, key);
    }
    if exists i, key :: 0 <= i < |props| && FailsWith(props[i], key, v, validators, control) {
      var i, key :| 0 <= i < |props| && FailsWith(props[i], key, v, validators, control);
      EvaluateKeys(props, v, validators, control, key);
    }
  }

  /** A two-rule fold in which both validators fail merges both results. */
  lemma EvaluateTwoFailures(props: Rules, v: Value, validators: map<string, Validator>, control: ControlRef)
    requires |props| == 2
    requires Outcome(props[0], v, validators, control).Some? && Outcome(props[1], v, validators, control).Some?
    ensures Evaluate(props, v, validators, control)
      == Outcome(props[0], v, validators, control).value + Outcome(props[1], v, validators, control).value
  {
    assert props[..1][..0] == [];
    assert props[..1][0] == props[0];
    assert props[..|props| - 1] == props[..1];
    assert Evaluate(props[..1], v, validators, control) == map[] + Outcome(props[0], v, validators, control).value;
  }

  /** `required email` on a blank string reports both failures. */
  lemma BlankFailsRequiredAndEmail(isEmail: Value -> bool, control: ControlRef)
    requires !isEmail(Str("  "))
    ensures Evaluate([("required", Flag(true)), ("email", Flag(true))], Str("  "), Builtins(isEmail), control)
      == map["required" := true, "email" := true]
  {
    var props: Rules := [("required", Flag(true)), ("email", Flag(true))];
    var b := Builtins(isEmail);
    BlankOutcomes(isEmail, control);
    EvaluateTwoFailures(props, Str("  "), b, control);
    assert Fail("required") + Fail("email") == map["required" := true, "email" := true];
  }

  /** The two outcomes behind `BlankFailsRequiredAndEmail`, one rule at a
      time. */
  lemma BlankOutcomes(isEmail: Value -> bool, control: ControlRef)
    requires !isEmail(Str("  "))
    ensures Outcome(("required", Flag(true)), Str("  "), Builtins(isEmail), control) == Some(Fail("required"))
    ensures Outcome(("email", Flag(true)), Str("  "), Builtins(isEmail), control) == Some(Fail("email"))
  {
    var b := Builtins(isEmail);
    var blank := Str("  ");
    assert IsBlank("  ") by { assert "  "[0] == ' ' && "  "[1] == ' '; }
    BuiltinOutcomes(isEmail, "required", blank, Flag(true), control);
    BuiltinOutcomes(isEmail, "email", blank, Flag(true), control);
  }
}
