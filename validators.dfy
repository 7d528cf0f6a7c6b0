/** The seven built-in validators and the validator registry of the current
    generation (src/validators.ts). */
module Validators {
  import opened Types
  import opened Coercions

  /** `null === val || undefined === val` */
  predicate IsEmpty(v: Value)
    ensures IsEmpty(v) <==> v == Null || v == Undefined
    ensures IsEmpty(v) ==> !Truthy(v)
  {
    v.Null? || v.Undefined?
  }

  /** The one-key error map `{ [key]: true }`. */
  function Fail(key: string): Errors
  {
    map[key := true]
  }

  /** `required`: fails on null, undefined and a string that trims to empty. */
  function Required(v: Value): (r: ValidatorResult)
    ensures r.Some? <==> IsEmpty(v) || (v.Str? && IsBlank(v.s))
    ensures r.Some? ==> r.value == Fail("required")
  {
    if IsEmpty(v) then Some(Fail("required"))
    else if v.Str? && Trim(v.s) == "" then Some(Fail("required"))
    else None
  }

  /** The number a length bound compares as; `None` stands for `NaN`, against
      which every comparison is false. */
  function LengthBound(c: Config): Option<int>
  {
    match c
    case Number(n) => Some(n)
    case Flag(b) => Some(if b then 1 else 0)
    case _ => None
  }

  /** `minLength`: passes on null and undefined, otherwise iff the string form
      is at least the bound long. */
  function MinLength(v: Value, c: Config): (r: ValidatorResult)
    ensures IsEmpty(v) ==> r.None?
    ensures !IsEmpty(v) ==> (r.None? <==> LengthBound(c).Some? && Utf16Length(Stringify(v)) >= LengthBound(c).value)
    ensures r.Some? ==> r.value == Fail("minLength")
  {
    if IsEmpty(v) then None
    else match LengthBound(c)
      case Some(n) => if Utf16Length(Stringify(v)) >= n then None else Some(Fail("minLength"))
      case None => Some(Fail("minLength"))
  }

  /** `maxLength`: passes on null and undefined, otherwise iff the string form
      is at most the bound long. */
  function MaxLength(v: Value, c: Config): (r: ValidatorResult)
    ensures IsEmpty(v) ==> r.None?
    ensures !IsEmpty(v) ==> (r.None? <==> LengthBound(c).Some? && Utf16Length(Stringify(v)) <= LengthBound(c).value)
    ensures r.Some? ==> r.value == Fail("maxLength")
  {
    if IsEmpty(v) then None
    else match LengthBound(c)
      case Some(n) => if Utf16Length(Stringify(v)) <= n then None else Some(Fail("maxLength"))
      case None => Some(Fail("maxLength"))
  }

  /** The length validators count UTF-16 code units, as `.length` does: a
      character outside the Basic Multilingual Plane counts twice, so the
      one-character string of U+1F600 is two long. */
  lemma LengthCountsCodeUnits()
    ensures MinLength(Str("\U{1F600}"), Number(2)).None?
    ensures MaxLength(Str("\U{1F600}"), Number(1)).Some?
    ensures MinLength(Str("ab"), Number(2)).None? && MaxLength(Str("ab"), Number(1)).Some?
  {
    assert Utf16Length("\U{1F600}") == 2 by {
      assert "\U{1F600}"[1..] == [];
    }
    assert Utf16Length("ab") == 2 by {
      assert "ab"[1..] == "b" && "b"[1..] == [];
    }
  }

  /** `pattern`: passes on null and undefined, otherwise iff the regular
      expression matches. */
  function PatternCheck(v: Value, c: Config): (r: ValidatorResult)
    ensures IsEmpty(v) ==> r.None?
    ensures !IsEmpty(v) ==> (r.None? <==> c.Pattern? && c.test(v))
    ensures r.Some? ==> r.value == Fail("pattern")
  {
    if IsEmpty(v) then None
    else if c.Pattern? && c.test(v) then None
    else Some(Fail("pattern"))
  }

  /** `email`: passes on null and undefined, otherwise iff the e-mail
      expression `isEmail` matches. */
  function Email(isEmail: Value -> bool, v: Value): (r: ValidatorResult)
    ensures IsEmpty(v) ==> r.None?
    ensures !IsEmpty(v) ==> (r.None? <==> isEmail(v))
    ensures r.Some? ==> r.value == Fail("email")
  {
    if IsEmpty(v) then None
    else if isEmail(v) then None
    else Some(Fail("email"))
  }

  /** `equalToControl`: passes on null and undefined, otherwise iff the value
      is strictly equal to the form's value of the named field. */
  function EqualToControl(v: Value, c: Config, control: ControlRef): (r: ValidatorResult)
    ensures IsEmpty(v) ==> r.None?
    ensures !IsEmpty(v) && c.Text? ==> (r.None? <==> StrictEquals(v, control.FormValue(c.s)))
    ensures r.Some? ==> r.value == Fail("equalToControl")
  {
    if IsEmpty(v) then None
    else
      var other := if c.Text? then control.FormValue(c.s) else Undefined;
      if StrictEquals(v, other) then None else Some(Fail("equalToControl"))
  }

  /** `callback`: passes on null and undefined, otherwise iff the callback
      accepts the value and the control. */
  function CallbackCheck(v: Value, c: Config, control: ControlRef): (r: ValidatorResult)
    ensures IsEmpty(v) ==> r.None?
    ensures !IsEmpty(v) ==> (r.None? <==> c.Callback? && c.fn(v, control))
    ensures r.Some? ==> r.value == Fail("callback")
  {
    if IsEmpty(v) then None
    else if c.Callback? && c.fn(v, control) then None
    else Some(Fail("callback"))
  }

  /** The registry as the module seeds it. */
  function Builtins(isEmail: Value -> bool): (r: map<string, Validator>)
    ensures r.Keys == {"required", "minLength", "maxLength", "pattern", "email", "equalToControl", "callback"}
  {
    map[
      "required" := (v: Value, c: Config, control: ControlRef) => Required(v),
      "minLength" := (v: Value, c: Config, control: ControlRef) => MinLength(v, c),
      "maxLength" := (v: Value, c: Config, control: ControlRef) => MaxLength(v, c),
      "pattern" := (v: Value, c: Config, control: ControlRef) => PatternCheck(v, c),
      "email" := (v: Value, c: Config, control: ControlRef) => Email(isEmail, v),
      "equalToControl" := (v: Value, c: Config, control: ControlRef) => EqualToControl(v, c, control),
      "callback" := (v: Value, c: Config, control: ControlRef) => CallbackCheck(v, c, control)
    ]
  }

  /** Every built-in reports a failure as the one-key map of its own name, and
      every built-in but `required` lets null and undefined through. */
  lemma BuiltinOutcomes(isEmail: Value -> bool, key: string, v: Value, c: Config, control: ControlRef)
    requires key in Builtins(isEmail)
    ensures var r := Builtins(isEmail)[key](v, c, control);
      && (r.Some? ==> r.value == Fail(key))
      && (IsEmpty(v) && key != "required" ==> r.None?)
      && (key == "required" ==> r == Required(v))
      && (key == "email" ==> r == Email(isEmail, v))
  {
    var b := Builtins(isEmail);
    if key == "required" {
      assert b[key](v, c, control) == Required(v);
    } else if key == "minLength" {
      assert b[key](v, c, control) == MinLength(v, c);
    } else if key == "maxLength" {
      assert b[key](v, c, control) == MaxLength(v, c);
    } else if key == "pattern" {
      assert b[key](v, c, control) == PatternCheck(v, c);
    } else if key == "email" {
      assert b[key](v, c, control) == Email(isEmail, v);
    } else if key == "equalToControl" {
      assert b[key](v, c, control) == EqualToControl(v, c, control);
    } else {
      assert b[key](v, c, control) == CallbackCheck(v, c, control);
    }
  }

  /** The process-wide validator registry, a mutable map from name to validator. */
  class Registry {
    var entries: map<string, Validator>

    /** The registry holds the seven built-ins; `isEmail` stands for the e-mail
        regular expression. */
    constructor (isEmail: Value -> bool)
      ensures entries == Builtins(isEmail)
    {
      entries := Builtins(isEmail);
    }

    /** `add(name, fn)`: registers `fn`, overwriting an earlier entry. */
    method Add(name: string, fn: Validator)
      modifies this
      ensures entries == old(entries)[name := fn]
      ensures Has(name) && Get(name) == Some(fn)
    {
      entries := entries[name := fn];
    }

    /** `delete(name)`: unregisters `name`, answering whether it was there;
        every other entry stays. */
    method Delete(name: string) returns (existed: bool)
      modifies this
      ensures existed == (name in old(entries))
      ensures entries == old(entries) - {name}
      ensures !Has(name) && forall k :: k != name ==> Get(k) == old(Get(k))
    {
      existed := name in entries;
      entries := entries - {name};
    }

    /** `get(name)`: the validator, or `undefined`. */
    function Get(name: string): (r: Option<Validator>)
      reads this
      ensures r.Some? <==> Has(name)
      ensures r.Some? ==> r.value == entries[name]
    {
      if name in entries then Some(entries[name]) else None
    }

    /** `has(name)`: whether `name` is registered. */
    predicate Has(name: string)
      reads this
      ensures Has(name) <==> name in entries.Keys
    {
      name in entries
    }
  }
}
