# foect form state and validation, modelled in Dafny

This project models the field-state and validation engine of foect, a small
React form library, in its two generations.

**Current TypeScript generation** (`src/type.ts`, `src/utils.ts`,
`src/validators.ts`, `src/control.ts`, `src/form.ts`):

- **Validator registry.** A process-wide registry holds the seven built-in
  validators: `required`, `minLength`, `maxLength`, `pattern`, `email`,
  `equalToControl` and `callback`.
- **Per-field evaluation.** A control's `runValidation` folds every prop that
  names a registered validator into one error map, with no short-circuit.
- **Rule changes.** `isValidationRulesChanged` decides when a prop update
  re-validates a field.
- **The form.** It keeps four maps: `controls`, `value`, `errors` and
  `status`. `addControl`, `removeControl`, `setValue`, `setErrors`,
  `validateControl` and `submit` rewrite those maps.

**Legacy JavaScript generation** (`src/Validators.js`, `src/Control.js`,
`src/Form.js`):

- Validators are boolean predicates; some are curried over their prop.
- Every control keeps its own value, status and errors, where null means
  "no errors".
- The form derives its value, status and errors maps and its validity
  getters from its controls.

Modules, one per source file (two for `src/control.ts`):

| file | module | models |
|---|---|---|
| `types.dfy` | `Types` | `src/type.ts`: values, statuses, error maps, validator and prop shapes |
| `coercions.dfy` | `Coercions` | JavaScript truthiness, `===`, `` `${v}` `` and `String.prototype.trim` |
| `utils.dfy` | `Utils` | `src/utils.ts` |
| `validators.dfy` | `Validators` | `src/validators.ts`, with the registry as class `Registry` |
| `control.dfy` | `ControlRules` | the pure logic of `src/control.ts`: rule-change detection and `runValidation` |
| `form.dfy` | `Forms` | `src/form.ts` as class `Form`, and the component of `src/control.ts` as class `Control` |
| `legacy_validators.dfy` | `LegacyValidators` | `src/Validators.js` |
| `legacy_control.dfy` | `LegacyControls` | `src/Control.js` |
| `legacy_form.dfy` | `LegacyForms` | `src/Form.js` |

`Form` and `Control` share one module because each class refers to the
other.

**How the code is mapped:**

- The process-wide registries become objects that the validating operations
  take as a parameter.
- Every `setState(updater, callback)` is applied at once, and its callback
  runs right after it.
- A control's props are a sequence of key and value pairs in key order.
  A control is only built or given new props whose keys are distinct
  (`UniqueKeys`), as the keys of a JavaScript object are.
- `.length` counts UTF-16 code units (`Utf16Length`), so a character
  outside the Basic Multilingual Plane counts twice.
- The e-mail regular expression and the `pattern` expressions are opaque
  predicates. The `isEmail` parameter stands for the first; a `Pattern`
  prop carries its own test.

**Where the code and its tests disagree, the model follows the code:**

- `removeControl` keeps the field's entry in the value map.
- A fresh field that is not in the value map gets null errors, not `{}`.
- `runValidation` returns `{}`, never null, when every validator passes.
- There is no submitted flag.
- The tests ask a control for `isInit`, which the current `Control` does
  not have, so neither does the model. The form-level `isInit` is always
  false, because the form status is never INIT.

**Status of a field.** The current generation's code derives a field's
status as `errors ? INVALID : VALID`. Under that rule the `{}` of a passing
validation would be INVALID, which contradicts the tests and the `hasError`
helper. The model states the rule as written (`StatusOfAsWritten`) and shows
the discrepancy. Everywhere else it uses the intended rule, `StatusOf`: a
field is invalid exactly when its errors are non-null and non-empty. See
"Findings".

## Model

| member | source | states |
|---|---|---|
| Coercions.Trim | src/validators.ts:14 | `trim()` is the string with a blank prefix and a blank suffix cut off; it is empty exactly when the string is all white space, and otherwise neither starts nor ends with white space |
| Coercions.Utf16Length | src/validators.ts:26 | `.length` counts UTF-16 code units: between the number of characters and twice that, and equal to it when no character lies outside the Basic Multilingual Plane |
| Coercions.Utf16One | src/validators.ts:26 | a single character is one code unit below U+10000 and two from U+10000 on |
| Coercions.Utf16Append | src/validators.ts:26 | the code-unit length of a concatenation is the sum of the parts' lengths, so with `Utf16One` it fixes the length of every string |
| Utils.HasError | src/utils.ts:3-5 | an error map has an error exactly when it has at least one key |
| Utils.HasErrorLaws | src/utils.ts:3-5 | `{}` has no error; a key mapped to `false` still counts; adding a key never removes an error; a merge has an error exactly when one of its parts has |
| Validators.IsEmpty | src/validators.ts:7 | `isEmpty` holds exactly of null and undefined, and an empty value is falsy |
| Validators.Required | src/validators.ts:9-19 | fails exactly on null, undefined and a string that trims to empty; the failure is `{required: true}` |
| Validators.MinLength | src/validators.ts:21-27 | passes on null and undefined; otherwise passes exactly when the string form is at least the bound long in UTF-16 code units (a bound of exactly the length passes); the failure is `{minLength: true}` |
| Validators.MaxLength | src/validators.ts:29-35 | passes on null and undefined; otherwise passes exactly when the string form is at most the bound long in UTF-16 code units; the failure is `{maxLength: true}` |
| Validators.LengthCountsCodeUnits | src/validators.ts:21-35 | the one-character string U+1F600 is two long: it passes `minLength={2}` and fails `maxLength={1}`, as `"ab"` does |
| Validators.PatternCheck | src/validators.ts:37-43 | passes on null and undefined; otherwise passes exactly when the regular expression matches; the failure is `{pattern: true}` |
| Validators.Email | src/validators.ts:45-51 | passes on null and undefined; otherwise passes exactly when the e-mail expression matches; the failure is `{email: true}` |
| Validators.EqualToControl | src/validators.ts:53-59 | passes on null and undefined; otherwise passes exactly when the value is strictly equal to the form's value of the named field; the failure is `{equalToControl: true}` |
| Validators.CallbackCheck | src/validators.ts:61-67 | passes on null and undefined; otherwise fails exactly when the callback rejects the value and control; the failure is `{callback: true}` |
| Validators.Builtins | src/validators.ts:4-67 | the seeded registry holds exactly the seven built-in names |
| Validators.BuiltinOutcomes | src/validators.ts:7-67 | every built-in reports a failure as the one-key map of its own name, and every built-in but `required` lets null and undefined through |
| Validators.Registry.constructor | src/validators.ts:4-67 | the registry starts with the seven built-ins |
| Validators.Registry.Add | src/validators.ts:71 | after `add(k, f)`, `has(k)` holds and `get(k)` is `f`, overwriting an earlier entry; nothing else changes |
| Validators.Registry.Delete | src/validators.ts:70 | after `delete(k)`, `has(k)` is false and every other key keeps its entry; the answer says whether `k` was registered |
| Validators.Registry.Get | src/validators.ts:72 | `get(k)` finds a validator exactly when `has(k)`, and it is the one registered under `k` |
| Validators.Registry.Has | src/validators.ts:73 | `has(k)` holds exactly when `k` is a registered name |
| ControlRules.RuleNames | src/control.ts:11-12 | the rule names are exactly the prop keys that name a registered validator |
| ControlRules.IsValidationRulesChanged | src/control.ts:7-25 | the loop with early returns answers exactly `RulesChanged`: the rule counts differ, or some old non-function rule is not deeply equal to the new prop (regular expressions compared with their flags) |
| ControlRules.LookupUnique | src/control.ts:19 | with distinct keys, as a props object has, `props[rule]` is the value of the prop named `rule` |
| ControlRules.SameKeysSameRuleNames | src/control.ts:11-12 | props with the same keys in the same order have the same rule names |
| ControlRules.OnlyCallbacksReplaced | src/control.ts:14-24 | when the keys are unchanged and every non-function rule is deeply equal to its new value (a regular expression keeping its source and flags), there is no re-validation, however the function-valued rules were replaced |
| ControlRules.PatternFlagsChange | src/control.ts:18-22 | changing only the flags of a `pattern` prop, `/^a$/` to `/^a$/i`, asks for re-validation, as `isEqual` compares regular expressions with their flags |
| ControlRules.AddedRule | src/control.ts:11-16 | adding to props with distinct keys a new key that names a registered validator keeps the keys distinct and asks for re-validation |
| ControlRules.ChangedRuleValue | src/control.ts:18-22 | giving a non-function rule a value that is not deeply equal asks for re-validation |
| ControlRules.RunValidation | src/control.ts:95-108 | the accumulating loop computes the fold `Evaluate` of every registered rule's result |
| ControlRules.EvaluateKeys | src/control.ts:96-107 | a key is in the merged errors exactly when some applied validator reported it |
| ControlRules.EvaluateHasError | src/control.ts:96-107 | the merged errors are non-empty exactly when some applied validator failed |
| ControlRules.BlankFailsRequiredAndEmail | src/control.ts:95-108 | with no short-circuit, `'  '` under `required email` yields both `required` and `email` |
| Forms.StatusOf | src/form.ts:108 | the corrected status rule: never INIT, and INVALID exactly when the errors are non-null and non-empty |
| Forms.StatusOfAsWritten | src/form.ts:108 | the status rule as written: INVALID exactly when the errors are non-null |
| Forms.AsWrittenRejectsPassingField | src/form.ts:68-71 | a field holding `"bar"` under `required` validates to `{}`, which the rule as written calls INVALID and the corrected rule calls VALID |
| Forms.FormStatus | src/form.ts:49-58 | the form is VALID exactly when every field is VALID, so an empty form is VALID; an INIT field makes it INVALID; it is never INIT, so `isInit` is always false |
| Forms.SubmittedStatus | src/form.ts:139-168 | after `submit` no field is INIT, every field that was not INIT keeps its status, and every INIT field is INVALID exactly when its validation has an error |
| Forms.SubmittedErrors | src/form.ts:155-166 | after `submit` every INIT field holds its validation's errors, and every other entry is kept |
| Forms.SubmitTwice | src/form.ts:143-153 | after one `submit` no field is INIT, so a second one validates nothing |
| Forms.Decide | src/form.ts:171-191 | `handleSubmit` fires at most one callback: the invalid one, with the errors and the value, exactly when some field is not VALID; otherwise the valid one, with the value |
| Forms.SubmitEmptyRequiredField | src/form.ts:139-191 | submitting a never-validated, unset `required` field reports `{foo: {required: true}}` through the invalid callback |
| Forms.RequiredOnly | src/control.ts:95-108 | a field whose only rule is `required` yields `{required: true}` exactly when `required` fails on its value, and `{}` otherwise |
| Forms.RequiredFieldWithValue | src/form.ts:64-71 | a `required` field holding `"bar"` is VALID |
| Forms.RequiredFieldCleared | src/form.ts:99-122 | setting that field to `""` makes it INVALID with `{required: true}` |
| Forms.CollectInit | src/form.ts:140-147 | the first loop of `submit` collects exactly the INIT fields |
| Forms.ValidateFields | src/form.ts:155-166 | the second loop of `submit` gives each collected field its validation's errors and their status, and leaves every other entry alone |
| Forms.SubmitUpdate | src/form.ts:139-168 | both loops together produce exactly `SubmittedStatus` and `SubmittedErrors` |
| Forms.SubmittedShape | src/form.ts:155-166 | after `submit`, errors and statuses cover the same fields and none is INIT |
| Forms.Form.constructor | src/form.ts:36-47 | a new form holds the default value and no controls, errors or statuses |
| Forms.Form.AddControl | src/form.ts:64-79 | the control is registered; a field already in the value map is validated at once, and any other field starts INIT with null errors; other names are unchanged |
| Forms.Form.GetValue | src/form.ts:95-97 | `getValue(name)` is the value map's entry, or `undefined` for a missing name |
| Forms.Form.GetStatus | src/form.ts:124-126 | `getStatus(name)` is the status map's entry, or `undefined` for a missing name |
| Forms.Form.GetErrors | src/form.ts:128-130 | `getErrors(name)` is the errors map's entry, or `undefined` for a missing name |
| Forms.Form.RemoveControl | src/form.ts:81-93 | the name leaves the controls, errors and status maps; the value map keeps its entry |
| Forms.Form.SetErrors | src/form.ts:107-115 | stores the errors as given and makes the field INVALID exactly when they are non-null and non-empty; nothing else changes |
| Forms.Form.ValidateControl | src/form.ts:117-122 | stores the registered control's validation of the current value, with its status |
| Forms.Form.SetValue | src/form.ts:99-105 | `getValue(n)` becomes `v`, no other value changes, and only `n` is re-validated |
| Forms.Form.Submit | src/form.ts:139-169 | validates exactly the INIT fields (statuses and errors as `SubmittedStatus`/`SubmittedErrors`), then dispatches as `Decide` on the new state; the form invariant is kept |
| Forms.Control.constructor | src/control.ts:55-63 | a new control is untouched |
| Forms.Control.Value | src/control.ts:65 | the control's value is the form's value of its field, or `''` when that is falsy |
| Forms.Control.Mount | src/control.ts:74-76 | mounting is one `addControl`: the field gains this control, and only its own errors and status entries change, to its validation and the status it implies when the value map holds the field, else to null and INIT |
| Forms.Control.FieldStatus | src/control.ts:67 | the control's status is the form's status of its field, `undefined` when the form has none |
| Forms.Control.FieldErrors | src/control.ts:68 | the control's errors are the form's errors of its field, `undefined` when the form has none |
| Forms.Control.IsValid | src/control.ts:69 | valid exactly when the form holds VALID for the field |
| Forms.Control.IsInvalid | src/control.ts:70 | invalid exactly when the form has no VALID status for the field, so an INIT or unknown field is invalid |
| Forms.Control.IsTouched | src/control.ts:71 | `isTouched` is the `touched` flag |
| Forms.Control.IsUntouched | src/control.ts:72 | `isUntouched` holds exactly when `isTouched` does not |
| Forms.Control.Unmount | src/control.ts:84-86 | unmounting removes the field's control, errors and status |
| Forms.Control.OnChange | src/control.ts:88-90 | one `setValue` on the form: the value changes at the field only, and a registered field's errors and status entries become its new validation and the status it implies, all other entries kept |
| Forms.Control.ReceiveRules | src/control.ts:78-82 | after a prop update the field is re-validated exactly when `isValidationRulesChanged` holds of the old and new props, its errors and status entries becoming the validation under the registered control's props and the status it implies; otherwise the form's errors and statuses are unchanged |
| Forms.Control.MarkAsTouched | src/control.ts:92 | sets `touched`, issuing an update only when it was clear, so a repeated call does nothing |
| Forms.Control.MarkAsUntouched | src/control.ts:93 | clears `touched`, issuing an update only when it was set |
| LegacyValidators.LegacyBuiltins | src/Validators.js:1-10 | the legacy registry holds `required`, `minLength`, `maxLength`, `pattern` and `email`; `required` and `email` take the value, the other three are curried over their prop |
| LegacyValidators.LegacyBuiltinFacts | src/Validators.js:4-10 | legacy `required` rejects null, undefined and `''` but accepts blanks, and otherwise asks only for a truthy value; the other four accept null and undefined |
| LegacyValidators.LengthValidatorsAgree | src/Validators.js:7-9 | the legacy `minLength`, `maxLength` and `pattern` hold exactly when the current validators of the same name pass |
| LegacyValidators.RequiredDiffersOnBlanks | src/Validators.js:6 | on `'  '` the current `required` fails and the legacy one passes |
| LegacyValidators.LegacyRegistry.constructor | src/Validators.js:1-10 | the legacy registry starts with its five built-ins |
| LegacyValidators.LegacyRegistry.Add | src/Validators.js:14 | after `add(k, f)`, `has(k)` holds and `get(k)` is `f` |
| LegacyValidators.LegacyRegistry.Delete | src/Validators.js:13 | after `delete(k)`, `has(k)` is false and other entries are kept |
| LegacyValidators.LegacyRegistry.Get | src/Validators.js:15 | `get(k)` finds a validator exactly when `has(k)`, and it is the one registered under `k` |
| LegacyValidators.LegacyRegistry.Has | src/Validators.js:16 | `has(k)` holds exactly when `k` is a registered name |
| LegacyValidators.LegacyRegistry.All | src/Validators.js:17 | `all()` holds exactly the registered names, each bound to its validator |
| LegacyControls.Judge | src/Control.js:85-92 | a boolean prop applies the validator to the value directly: a plain predicate passes exactly when it accepts the value, a curried validator always passes; any other prop curries first: a curried validator passes exactly when its predicate for that prop accepts the value, a plain predicate throws |
| LegacyControls.ErrorsFor | src/Control.js:92-97 | the merged errors are null exactly when nothing failed, and otherwise map exactly the failing names to `true` |
| LegacyControls.SyncErrors | src/Control.js:83-103 | `getValidator()` throws exactly when a switched-on validator throws, and otherwise returns `ErrorsFor` of the failing names |
| LegacyControls.SwitchedOffNeverFails | src/Control.js:85 | a validator whose prop is falsy never reports an error |
| LegacyControls.RunSyncValidator | src/Control.js:83-103 | the fold with a null-started accumulator computes exactly `SyncErrors` |
| LegacyControls.ValidatedOutcome | src/Control.js:83-103 | without a throw the errors are null exactly when every validator passes, and otherwise name exactly the failing switched-on validators |
| LegacyControls.LegacyControl.constructor | src/Control.js:17-25 | a new control holds `''`, is INIT and has null errors |
| LegacyControls.LegacyControl.SetStatus | src/Control.js:61-63 | sets the status and nothing else |
| LegacyControls.LegacyControl.UpdateStatus | src/Control.js:49-59 | stores the errors; VALID exactly when they are null, INVALID otherwise |
| LegacyControls.LegacyControl.RunValidator | src/Control.js:65-81 | with the asynchronous hook null, the result is the synchronous one |
| LegacyControls.LegacyControl.Validate | src/Control.js:35-47 | a throwing validator leaves the state alone; errors with a `then` key make the control PENDING and throw; otherwise `updateStatus` |
| LegacyControls.LegacyControl.OnChange | src/Control.js:109-115 | stores the value, then validates it, so without a throw the control is VALID or INVALID |
| LegacyControls.ExactlyOneStatus | src/Control.js:120-123 | exactly one of `isInit`, `isValid`, `isInvalid` and `isPending` holds |
| LegacyForms.StatusLaws | src/Form.js:73-76 | an empty form is valid and not invalid; an INIT control makes it invalid and not valid; without a PENDING control it is invalid exactly when not valid; with one and no INIT control it is neither |
| LegacyForms.LegacyDecide | src/Form.js:49-68 | the valid callback with the value exactly when the form is valid, otherwise the invalid one with the errors and the value, each only when it is a function; never both |
| LegacyForms.ValidateInitControls | src/Form.js:42-44 | the walk validates every INIT control and leaves the others alone, unless a validator throws |
| LegacyForms.NoInitLeft | src/Form.js:75 | a form none of whose controls is INIT is not INIT |
| LegacyForms.LegacyForm.constructor | src/Form.js:13-17 | a new form has no controls |
| LegacyForms.LegacyForm.AddControl | src/Form.js:23-27 | binds the name to the control and leaves other entries unchanged |
| LegacyForms.LegacyForm.ValueMap | src/Form.js:70 | the `value` getter has exactly the registered names as keys |
| LegacyForms.LegacyForm.StatusMap | src/Form.js:71 | the `status` getter has exactly the registered names as keys |
| LegacyForms.LegacyForm.ErrorsMap | src/Form.js:72 | the `errors` getter has exactly the registered names as keys |
| LegacyForms.LegacyForm.Submit | src/Form.js:36-47 | when no control is INIT, nothing changes; otherwise every INIT control is validated; without a throw no control is INIT afterwards and the callback is `handleSubmit`'s; after a throw none fires |

## Left out

- React machinery is not modelled: rendering, context, prop types, `forceUpdate`, and the `update` and `updated` callbacks. Mounting and unmounting appear only as their calls to `addControl` and `removeControl`.
- `setState` scheduling and batching are not modelled; each update applies at once.
- Asynchronous validation is not modelled. The legacy `getAsyncValidator` returns null, so only the synchronous path exists. PENDING arises only when the error object has a `then` key.
- The e-mail expression and `pattern`'s regular expressions are predicate parameters, not a regular-expression engine.
- `lodash.isequal` is `ConfigEqual`: structural on prop values, with regular expressions compared by their string form `/source/flags` (so a change of flags alone counts) and functions unequal to everything. A regular expression's `lastIndex` is not modelled.
- `Num` is an integer. Floating point and `NaN` values are not modelled. `Stringify` writes every integer in decimal, which is how JavaScript writes safe integers below 1e21 only: larger numbers (`${1e21}` is `"1e+21"`) and integers beyond 2^53 are not written as JavaScript writes them.
- Validators.MinLength and Validators.MaxLength: JavaScript's coercion of a bound that is neither a number nor a boolean is not modelled (`''` and `null` compare as 0, a numeric string as its number); the model treats every such bound as `NaN`, so the check fails.
- Validators.PatternCheck: a `pattern` prop that is not a regular expression fails, where the source throws.
- Validators.EqualToControl: a non-string `equalToControl` prop compares against `undefined`.
- Validators.CallbackCheck: a `callback` prop that is not a function fails, where the source throws.
- LegacyValidators.LegacyBuiltins: the curried `pattern` with a prop that is not a regular expression fails, where the source throws.
- The current control's rules are its props other than `name` and `children`. A validator registered under either of those names is not applied to them.
- Forms.Form.ValidateControl: for a name with no control the source throws; the model reports `found = false` and changes nothing.
- Forms.Form.SetValue, Forms.Control.OnChange and Forms.Control.ReceiveRules: for a name with no control the source throws inside `validateControl` (after `setValue` has stored the value, or after `componentDidUpdate` found the rules changed); the model stores the value or the rules and changes nothing else in the form.
- Validators see a snapshot of the form's value map, taken when validation starts, in place of the control object.
- Legacy validators are not given the form argument; a custom legacy validator cannot read it.
- Custom legacy validators are modelled as boolean-valued. A curried one's truthy non-boolean result is not modelled.
- Iteration order over maps (`for … in` and `forEach` over the form's maps, `Object.keys` of the legacy registry) is not modelled. The order of a control's props is the order of its `Rules` sequence, and `runValidation` merges in that order, so a later validator overwrites an earlier one's key.
- LegacyForms.LegacyForm.Submit: after a throw, which controls were already validated depends on map order; the model states only that values are unchanged and that no callback fires.
- The mutation of the shared `errors` and `status` objects inside the `submit` updater (src/form.ts:163-164) is modelled as a rewrite of the maps. Aliasing with the previous state object is not visible in the model.

## Findings

| source | as written | input that shows it | evidently intended | confidence | as-written member | corrected member |
|---|---|---|---|---|---|---|
| src/form.ts:70, src/form.ts:108, src/form.ts:161 | `errors ? INVALID : VALID` makes any error object, `{}` included, INVALID | a field holding `"bar"` with only `required`: `runValidation` returns `{}`, and `addControl`, `setErrors` or `submit` mark it INVALID | INVALID exactly when the errors are non-null and `hasError` holds, so `{}` is VALID | not executed | Forms.AsWrittenRejectsPassingField | Forms.StatusOf |
