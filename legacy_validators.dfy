/** The validators of the legacy generation (src/Validators.js): boolean
    predicates, some of them curried over their prop, kept in a mutable
    registry. */
module LegacyValidators {
  import opened Types
  import opened Coercions
  import Validators

  /** A registered validator: a predicate on the value, or a function from
      the prop to such a predicate. */
  datatype LegacyValidator =
    | Direct(test: Value -> bool)
    | Curried(make: Config -> Value -> bool)

  /** `required`: the value is neither null nor undefined, and truthy. */
  predicate LegacyRequired(v: Value)
  {
    !Validators.IsEmpty(v) && Truthy(v)
  }

  /** `minLength(length)(v)`: empty, or the string form is at least `length`
      long (a length that is not a number compares as `NaN`). */
  predicate LegacyMinLength(c: Config, v: Value)
  {
    Validators.IsEmpty(v) || (Validators.LengthBound(c).Some? && Utf16Length(Stringify(v)) >= Validators.LengthBound(c).value)
  }

  /** `maxLength(length)(v)` */
  predicate LegacyMaxLength(c: Config, v: Value)
  {
    Validators.IsEmpty(v) || (Validators.LengthBound(c).Some? && Utf16Length(Stringify(v)) <= Validators.LengthBound(c).value)
  }

  /** `pattern(p)(v)`: empty, or the regular expression matches. */
  predicate LegacyPattern(c: Config, v: Value)
  {
    Validators.IsEmpty(v) || (c.Pattern? && c.test(v))
  }

  /** `email(v)`: empty, or the e-mail expression `isEmail` matches. */
  predicate LegacyEmail(isEmail: Value -> bool, v: Value)
  {
    Validators.IsEmpty(v) || isEmail(v)
  }

  /** The registry as the module seeds it. */
  function LegacyBuiltins(isEmail: Value -> bool): (r: map<string, LegacyValidator>)
    ensures r.Keys == {"required", "minLength", "maxLength", "pattern", "email"}
    ensures r["required"].Direct? && r["email"].Direct?
    ensures r["minLength"].Curried? && r["maxLength"].Curried? && r["pattern"].Curried?
  {
    map[
      "required" := Direct(v => LegacyRequired(v)),
      "minLength" := Curried(c => v => LegacyMinLength(c, v)),
      "maxLength" := Curried(c => v => LegacyMaxLength(c, v)),
      "pattern" := Curried(c => v => LegacyPattern(c, v)),
      "email" := Direct(v => LegacyEmail(isEmail, v))
    ]
  }

  /** `required` rejects null, undefined and `''` but accepts a string of
      blanks; `pattern` and `email` accept null and undefined whatever
      their prop. */
  lemma LegacyBuiltinFacts(isEmail: Value -> bool, c: Config, v: Value)
    ensures !LegacyRequired(Null) && !LegacyRequired(Undefined) && !LegacyRequired(Str(""))
    ensures LegacyRequired(Str("  "))
    ensures Validators.IsEmpty(v) ==> LegacyPattern(c, v) && LegacyEmail(isEmail, v)
    ensures Validators.IsEmpty(v) ==> LegacyMinLength(c, v) && LegacyMaxLength(c, v)
    ensures !Validators.IsEmpty(v) ==> (LegacyRequired(v) <==> Truthy(v))
  {
  }

  /** The length validators of the two generations agree: the current
      `minLength` and `maxLength` pass exactly when the legacy predicates
      hold. */
  lemma LengthValidatorsAgree(c: Config, v: Value)
    ensures Validators.MinLength(v, c).None? <==> LegacyMinLength(c, v)
    ensures Validators.MaxLength(v, c).None? <==> LegacyMaxLength(c, v)
    ensures Validators.PatternCheck(v, c).None? <==> LegacyPattern(c, v)
  {
  }

  /** The two generations disagree on `required` for a string of blanks:
      the current one trims and fails it, the legacy one only asks for a
      truthy value and passes it. */
  lemma RequiredDiffersOnBlanks()
    ensures Validators.Required(Str("  ")).Some?
    ensures LegacyRequired(Str("  "))
  {
    assert IsBlank("  ") by { assert "  "[0] == ' ' && "  "[1] == ' '; }
  }

  /** The legacy registry, a mutable map from name to validator. */
  class LegacyRegistry {
    var entries: map<string, LegacyValidator>

    constructor (isEmail: Value -> bool)
      ensures entries == LegacyBuiltins(isEmail)
    {
      entries := LegacyBuiltins(isEmail);
    }

    /** `add(name, fn)`: registers `fn`, overwriting an earlier entry. */
    method Add(name: string, fn: LegacyValidator)
      modifies this
      ensures entries == old(entries)[name := fn]
      ensures Has(name) && Get(name) == Some(fn)
    {
      entries := entries[name := fn];
    }

    /** `delete(name)`: unregisters `name`, answering whether it was there. */
    method Delete(name: string) returns (existed: bool)
      modifies this
      ensures existed == (name in old(entries))
      ensures entries == old(entries) - {name}
      ensures !Has(name) && forall k :: k != name ==> Get(k) == old(Get(k))
    {
      existed := name in entries;
      entries := entries - {name};
    }

    /** `get(name)`: the validator, or `undefined`. */
    function Get(name: string): (r: Option<LegacyValidator>)
      reads this
      ensures r.Some? <==> Has(name)
      ensures r.Some? ==> r.value == entries[name]
    {
      if name in entries then Some(entries[name]) else None
    }

    /** `has(name)`: whether `name` is registered. */
    predicate Has(name: string)
      reads this
      ensures Has(name) <==> name in entries.Keys
    {
      name in entries
    }

    /** `all()`: an object with every registered name bound to its
        validator. */
    function All(): (r: map<string, LegacyValidator>)
      reads this
      ensures forall k :: k in r <==> Has(k)
      ensures forall k :: k in r ==> Get(k) == Some(r[k])
    {
      map k | k in entries :: entries[k]
    }
  }
}
