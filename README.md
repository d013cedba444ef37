# BaseModel in Dafny

This project models the attribute, validation and persistence engine of
`BaseModel.js`. That file is the base class of the CouchDB models in the
NodeJsModel repository. A concrete model declares five things:
- its attributes (`attributesList`);
- their default values;
- its validation rules, as `[attributeNames, {kind: params}]` pairs;
- its filters (`strip_tags`, `numeric`);
- its "unsafe" attributes.

The base class then runs these steps:
1. It builds the instance from defaults and caller-supplied values.
2. It keeps a registry of validators per attribute.
3. It gates `set`/`get`.
4. It filters values before a save.
5. It derives `_id` from the class name and `realty_id`.
6. It validates.
7. It hands the attribute object to the store's insert only when validation passes.

Modules, one per file:

- `JsValues` (`js_values.dfy`) covers the JavaScript values the engine handles:
  - objects are ordered key/value sequences, because "the first key" of a validator spec decides its kind;
  - truthiness, `Object.keys(v)[0]`, `_.isEmpty`, `String(v)`, `Number(v)`, `isNumeric`, `isFloat`, `>`/`<`, `.length` and `toLowerCase`.
  - The string/number conversions JavaScript does implicitly are supplied as a `Coercion` record of functions (see Left out).
- `StripTagsFilter` (`strip_tags.dfy`) holds the two regular-expression replacements of the `strip_tags` filter, written as scans. It proves:
  - no tag survives;
  - text before the first '<', and text after a complete tag, is kept;
  - the collapse turns each maximal CR/LF run into one LF and keeps every other character in place, so no CR and no two adjacent LFs survive;
  - both rewrites, and the whole filter, are idempotent;
  - the worked example `<b>Hello</b>\n\nWorld` becomes `Hello\nWorld`.
- `Registry` (`registry.dfy`) gives the pure meaning of the validator registry: `addValidator`, `removeValidator`, and registration from the rules with their two error messages.
- `Validation` (`validation.dfy`) gives `validateField` as a verdict on one value, and `validate()` as a pass over the unsafe-attribute list.
- `Attributes` (`attributes.dfy`) covers:
  - default values;
  - the `attributes` setter;
  - `_.union`;
  - the two filters;
  - the validator clean-up `beforeSave` performs on a stored model.
- `Models` (`model.dfy`) holds:
  - the `BaseModel` class, whose fields are the instance state (`errors`, `attributes`, `isNewModel`, `validators`, `unsafeAttributes`) and whose methods update them in place, with the loops of the source;
  - the overridable parts of a subclass, as an immutable `Schema`;
  - `Construct` for `new Model(values)`.

  Each method is proved to end in the state given by the pure functions above.

The model follows the code as written, including behaviour that its own doc
comments describe differently:

- `isSafeAttribute` passes the private symbol to `_.indexOf` instead of the unsafe list. The index is -1, so every attribute is safe. `set` therefore writes unsafe attributes of a stored model as well.
- `validate()` walks the unsafe-attribute list, not the attribute list. Validators on other attributes never run. Each check receives the attribute's whole `{kind: spec}` map, not the spec.
- The float check in `numeric` requires `allowFloat` to be both absent and truthy, so it can never add its message.
- The four bound messages keep a literal `{name}`. The `.replace` applies to the string literal after the `+`.
- `removeValidator(field, kind)` with a kind that is not registered removes every validator of the field.
- `addUnsafeAttribute` looks the name up in the class's list, not the instance's, so the same name can be pushed more than once.
- `save(false)` validates anyway (`validate || true`).
- `set('_id', …)` is not dynamic. `_id` is stored only when it is a declared attribute.
- The filter comment mentions `<br>`, but `strip_tags` collapses line breaks into a single `\n`.

Thrown `TypeError`s are returned as an `ok` flag. They occur in:
- `strip_tags` on a non-string;
- `.length` of `undefined` or `null`;
- `Object.keys` of null or undefined.

`appendValidators`' exceptions become `Construct`'s `Err`.

## Model

| member | source | states |
|---|---|---|
| JsValues.FirstKey | BaseModel.js:111 | an object has a first key iff it has own keys, and it is the first one; a non-empty array or string answers "0", an empty one nothing; numbers, booleans, null and undefined have none |
| JsValues.LengthOf | BaseModel.js:374-381 | reading `.length` throws exactly on undefined and null; a string or array gives its length, an object its own `length` property, a number or boolean undefined |
| JsValues.IsNumeric | BaseModel.js:394-396 | every number is numeric; booleans, null, undefined and plain objects are not; strings and arrays go by their text |
| JsValues.IsFloat | BaseModel.js:403-405 | only a primitive number can be a float, and an integer never is |
| JsValues.ToLower | BaseModel.js:417 | same length; ASCII capitals are lowered, every other character is kept |
| StripTagsFilter.StripTags | BaseModel.js:282 | the global tag replacement never lengthens the text; its meaning is given by the StripTags* lemmas below |
| StripTagsFilter.StripTagsLeavesNoTags | BaseModel.js:282 | after the tag replacement no position starts a `<\/?[^>]+>` match |
| StripTagsFilter.StripTagsFixesTagFree | BaseModel.js:282 | text without tags is left unchanged |
| StripTagsFilter.StripTagsWithoutClose | BaseModel.js:282 | without a '>' nothing is removed |
| StripTagsFilter.StripTagsIdempotent | BaseModel.js:282 | removing tags twice equals removing them once |
| StripTagsFilter.StripTagsPlainPrefix | BaseModel.js:282 | text without '<' in front of the rest is kept as it is |
| StripTagsFilter.StripTagsTagPrefix | BaseModel.js:282 | a complete tag `<body>` in front of the rest is removed whole |
| StripTagsFilter.CollapseNewlines | BaseModel.js:283 | the collapse is empty iff its input is; it starts with LF iff the input starts with CR/LF; it holds no CR and no two adjacent LFs |
| StripTagsFilter.CollapseKeepsText | BaseModel.js:283 | every character other than CR/LF is kept, in order |
| StripTagsFilter.CollapseFixesSingleNewlines | BaseModel.js:283 | text with only single LFs is left unchanged |
| StripTagsFilter.CollapseIdempotent | BaseModel.js:283 | collapsing twice equals collapsing once |
| StripTagsFilter.CollapseRuns | BaseModel.js:283 | the reference meaning of the collapse: each maximal CR/LF run becomes one LF; never longer, empty iff the input is, and free of CR |
| StripTagsFilter.CollapseIsRuns | BaseModel.js:283 | the collapse equals CollapseRuns: each maximal CR/LF run becomes one LF in its place, every other character is kept in place |
| StripTagsFilter.RunsKeepNoTags | BaseModel.js:282-283 | collapsing line breaks in tag-free text creates no tag |
| StripTagsFilter.StripTagsValue | BaseModel.js:282-283 | the filtered value has no CR and no two adjacent LFs |
| StripTagsFilter.StripTagsValueIdempotent | BaseModel.js:282-283 | filtering a filtered value changes nothing |
| StripTagsFilter.StripTagsExample | BaseModel.js:282-283 | `<b>Hello</b>\n\nWorld` becomes `Hello\nWorld` |
| Registry.SpecKind | BaseModel.js:111-112 | a spec is filed under its first own key, and only when that key is non-empty |
| Registry.RegisteredIffTruthy | BaseModel.js:132 | in a registry entry, a kind is registered iff its lookup is truthy |
| Registry.WithValidator | BaseModel.js:109-121 | undeclared field or keyless spec: no change; otherwise the spec is stored under its kind, replacing in place, other kinds and fields untouched; the registry invariant is kept |
| Registry.WithoutValidator | BaseModel.js:129-137 | removeValidator never adds the field and leaves every other field untouched; the Remove* lemmas give the field's own entry |
| Registry.RemoveRegisteredKind | BaseModel.js:132-133 | a registered kind is deleted alone, other kinds and fields kept |
| Registry.RemoveUnregisteredKind | BaseModel.js:134-136 | no kind, or an unregistered one, deletes the whole field entry |
| Registry.RemoveFromAbsentField | BaseModel.js:131 | a field without an entry is left alone |
| Registry.RemoveKeepsWellFormed | BaseModel.js:129-137 | removal keeps the registry invariant |
| Registry.AddThenRemove | BaseModel.js:109-136 | after adding a kind and removing it, the field does not have that kind |
| Registry.RulesError | BaseModel.js:51-70 | no exception iff every rule is `[array, truthy]`; otherwise one of the two messages |
| Registry.OkPrefix | BaseModel.js:52-66 | the rules before the first bad rule are all well shaped |
| Registry.RulesErrorAtFirstBadRule | BaseModel.js:52-69 | the first bad rule decides the message: not an array, or the wrong shape |
| Registry.RegisterNames | BaseModel.js:59-63 | registering one rule never drops a field and adds only declared ones |
| Registry.RegisterRules | BaseModel.js:52-70 | registering all rules never drops a field and adds only declared ones |
| Registry.RegisterNamesWellFormed | BaseModel.js:59-63 | registering a rule's names keeps the registry invariant |
| Registry.RegisterRulesWellFormed | BaseModel.js:52-70 | registering all rules keeps the registry invariant |
| Registry.RegisterNamesKeepsKinds | BaseModel.js:59-63 | a later rule never removes a registered kind |
| Registry.RegisterRulesKeepsKinds | BaseModel.js:52-70 | the same, over all rules |
| Registry.RegisterNamesKeepsSpec | BaseModel.js:59-63 | a stored spec stays unless the rule names its field with a spec of the same kind |
| Registry.RegisterNamesFrame | BaseModel.js:59-63 | a field the rule does not name keeps its entry |
| Registry.RegisterNamesCovers | BaseModel.js:59-63 | every declared string name of a rule ends up holding that rule's spec under its kind |
| Registry.RegisterRulesCovers | BaseModel.js:52-70 | every declared name of every rule ends up with its rule's kind |
| Registry.RegisterRulesLastSpec | BaseModel.js:52-70 | a declared name holds, under each kind, the spec of the last rule that names it with that kind |
| Registry.RegisterRulesKeepsSpec | BaseModel.js:52-70 | a stored spec stays when no rule names its field with that kind |
| Registry.RegisterRulesFrame | BaseModel.js:52-70 | a field no rule names keeps its entry |
| Validation.Kind | BaseModel.js:335-340 | a check runs iff the spec is a non-empty object whose first key is required, numeric or length, and then that key is the kind |
| Validation.FieldVerdict | BaseModel.js:334-387 | no known kind: no change; only a length check on undefined throws; a reported message is one of the six the checks write, never the float message |
| Validation.NumericVerdict | BaseModel.js:350-371 | never throws; reports only the numeric, max-value or min-value message |
| Validation.LengthVerdict | BaseModel.js:372-384 | throws iff a bound is set and the value is undefined; reports only a length message; without bounds, no change |
| Validation.RequiredReportsFalsy | BaseModel.js:343-348 | required reports "Field <name> is required" iff the value is falsy |
| Validation.NonNumericReported | BaseModel.js:366-367 | a non-numeric value gets "Field <name> can be only numeric" |
| Validation.FloatRejectionUnreachable | BaseModel.js:353 | the float condition is never true |
| Validation.NumericNeverReportsFloat | BaseModel.js:350-371 | numeric yields no error, the numeric message or a bound message, never the float message |
| Validation.UnknownKindKeeps | BaseModel.js:336-339 | an empty spec or an unknown first key changes nothing |
| Validation.NumericWithinBounds | BaseModel.js:357-365 | for any numeric spec, a number within whichever of max and min it sets passes |
| Validation.NumericAboveMaxReported | BaseModel.js:357-360 | for any numeric spec, a number above max gets the max-value message (beginning with a literal `Field {name} `) unless min also fires |
| Validation.NumericBelowMinReported | BaseModel.js:362-365 | for any numeric spec, a number below min gets the min-value message, beginning with a literal `Field {name} ` |
| Validation.TooLongReported | BaseModel.js:374-377 | for any length spec with a numeric max, a string longer than max and not shorter than min gets the max-length message, beginning with a literal `Field {name} ` |
| Validation.TooShortReported | BaseModel.js:379-382 | for any length spec with a numeric min, a shorter string gets the min-length message, beginning with a literal `Field {name} ` |
| Validation.LengthOfUndefinedThrows | BaseModel.js:374-381 | a length check with a bound on an undefined value throws |
| Validation.EntryChecksNoBounds | BaseModel.js:426-428 | checking the whole `{kind: spec}` entry can fire no bound check unless a kind is named max or min |
| Validation.PassFrom | BaseModel.js:424-431 | the loop throws iff some listed name with an entry has a throwing check, whatever the errors so far |
| Validation.ValidatePass | BaseModel.js:424-431 | an empty registry changes nothing and never throws; otherwise it throws iff some unsafe attribute's check does |
| Validation.PassKeepsKeys | BaseModel.js:424-431 | validate never removes an error |
| Validation.PassTouchesOnlyChecked | BaseModel.js:426-428 | only listed names with a registry entry gain or change an error |
| Validation.PassReports | BaseModel.js:424-431 | when the pass does not throw, a listed, registered name whose check reports a message ends holding that message |
| Validation.ValidateReports | BaseModel.js:424-434 | a failing check on an unsafe attribute is recorded, so the error map is not empty and validate answers false |
| Validation.RequiredUnsafeReported | BaseModel.js:343-348 | an empty unsafe attribute whose entry starts with required gets "Field <name> is required" |
| Validation.PassOverUnregistered | BaseModel.js:426-428 | with no listed name registered, nothing changes and nothing throws |
| Validation.ValidateTouchesOnlyUnsafe | BaseModel.js:424-431 | only unsafe attributes with validators can gain or change an error |
| Validation.ValidateKeepsKeys | BaseModel.js:424-431 | validate keeps every existing error key |
| Validation.ValidateWithEmptyRegistry | BaseModel.js:425 | an empty registry changes nothing |
| Attributes.Defaults | BaseModel.js:77-83 | the defaults never drop an attribute and add only declared ones |
| Attributes.DefaultsMeaning | BaseModel.js:77-83 | exactly the declared attributes with a default gain it; others keep their value |
| Attributes.Overlay | BaseModel.js:250-256 | each declared name the value supplies (not undefined) is copied; everything else is kept |
| Attributes.OverlayFalsy | BaseModel.js:452 | assigning null changes nothing |
| Attributes.Dedupe | BaseModel.js:233 | deduplication has no duplicates and the same members |
| Attributes.Union | BaseModel.js:233 | `_.union` has no duplicates and holds exactly the members of both lists |
| Attributes.DedupeOrder | BaseModel.js:233 | deduplication keeps first occurrences in their input order |
| Attributes.UnionOrder | BaseModel.js:233 | `_.union` lists the first occurrences of a followed by b, in that order |
| Attributes.UnionKeepsPrefix | BaseModel.js:233 | a duplicate-free list stays in order at the head of the union |
| Attributes.FilterValue | BaseModel.js:279-289 | a falsy value or an unknown filter changes nothing; only strip_tags on a truthy non-string throws; strip_tags stores a cleaned string, numeric a number |
| Attributes.FilterNames | BaseModel.js:278-290 | a filter keeps the set of attributes and leaves unlisted attributes alone |
| Attributes.FilterAll | BaseModel.js:275-293 | all filters together keep the set of attributes |
| Attributes.FilterAllFrame | BaseModel.js:275-293 | an attribute no filter lists keeps its value |
| Attributes.StripTagsCleans | BaseModel.js:281-284 | when no value makes it throw, strip_tags leaves every listed declared attribute that held a truthy value holding a string without CR or two adjacent LFs |
| Attributes.StripTagsStores | BaseModel.js:281-284 | when no value makes it throw, a listed declared attribute holding a non-empty string ends holding StripTagsValue of it, even when listed twice |
| Attributes.StripTagsRejectsNonString | BaseModel.js:280-283 | a truthy non-string listed for strip_tags makes the filters throw |
| Attributes.NumericFilteredIdempotent | BaseModel.js:286-288 | converting a converted value changes nothing |
| Attributes.NumericFilterMeaning | BaseModel.js:286-288 | the numeric filter never throws and converts each listed attribute, however often it is listed |
| Attributes.UnknownFilterKeeps | BaseModel.js:277-291 | any other filter name does nothing |
| Attributes.StripUnsafe | BaseModel.js:411-415 | afterwards no unsafe name has validators; other entries are kept unchanged |
| Attributes.StripUnsafeWellFormed | BaseModel.js:411-415 | the clean-up keeps the registry invariant |
| Models.IdValue | BaseModel.js:417 | the `_id` value is the lower-cased class name followed by '-' |
| Models.SavedValidators | BaseModel.js:411-415 | a new model, or one without unsafe attributes, keeps its registry; a stored one loses every unsafe name's entry; nothing is added or changed |
| Models.WithId | BaseModel.js:417 | `_id` becomes `<lower-case class>-<realty_id>` iff `_id` is declared; nothing else changes |
| Models.StoredModelSkipsValidation | BaseModel.js:410-415 | after beforeSave on a stored model, validate adds nothing and throws nothing |
| Models.NoUnsafeSkipsValidation | BaseModel.js:426 | with no unsafe attributes, validate adds nothing |
| Models.BaseModel.constructor | BaseModel.js:34-45 | no errors, a new model, an empty registry and unsafe list, and attributes = defaults overlaid with the supplied values |
| Models.BaseModel.SetDefaultValues | BaseModel.js:77-83 | attributes become the defaults applied with set |
| Models.BaseModel.AppendValidators | BaseModel.js:50-72 | the exception is RulesError's; the registry holds the rules before the first bad one; the invariant is kept |
| Models.BaseModel.GetValidator | BaseModel.js:98-102 | a field's entry is returned iff it has one |
| Models.BaseModel.AddValidator | BaseModel.js:109-121 | throws iff a declared field gets a null/undefined spec; otherwise the registry becomes WithValidator's |
| Models.BaseModel.RemoveValidator | BaseModel.js:129-140 | the registry becomes WithoutValidator's; the invariant is kept |
| Models.BaseModel.IsSafeAttribute | BaseModel.js:263-270 | always true |
| Models.BaseModel.Set | BaseModel.js:157-162 | a declared or dynamic name is stored; a declared name then reads back the stored value from get; no other name changes |
| Models.BaseModel.Get | BaseModel.js:169-173 | undefined for an undeclared or absent name, the stored value otherwise |
| Models.BaseModel.SetAttributes | BaseModel.js:250-256 | attributes become the Overlay of the supplied value |
| Models.BaseModel.SetUnsafeAttributes | BaseModel.js:210-217 | the class's unsafe list is appended |
| Models.BaseModel.AddUnsafeAttribute | BaseModel.js:227-236 | a string outside the class's list is pushed (even if present); an array is merged by `_.union`; anything else does nothing |
| Models.BaseModel.ApplyFilters | BaseModel.js:275-293 | attributes and outcome are FilterAll's |
| Models.BaseModel.AddError | BaseModel.js:316-319 | the message is stored under the attribute |
| Models.BaseModel.ValidateField | BaseModel.js:334-387 | errors change by the field's verdict; false exactly when the verdict throws |
| Models.BaseModel.Validate | BaseModel.js:424-434 | errors and outcome are ValidatePass's; true iff nothing threw and no error is recorded |
| Models.BaseModel.BeforeSave | BaseModel.js:410-418 | a stored model's unsafe attributes lose their validators; filters run; `_id` is set unless a filter threw |
| Models.BaseModel.LoadRecord | BaseModel.js:448-455 | a truthy document is overlaid and marks the model stored; otherwise nothing changes |
| Models.BaseModel.Save | BaseModel.js:462-478 | beforeSave then validate, whatever the flag; the document is inserted iff validation passes and the store accepts; a store error is recorded under "couch" |
| Models.Construct | BaseModel.js:34-45 | fails with appendValidators' message iff a rule is malformed; otherwise defaults, supplied values, all rules and the unsafe list are in place |
| Models.SaveUnchecked | BaseModel.js:462-478 | a model with no errors, no unsafe attributes (or stored) and throw-free filters is inserted whenever the store accepts, whatever its rules say |
| Models.ReportedFieldFailsValidation | BaseModel.js:424-434 | validate on a model whose unsafe attribute fails its check answers false and, when nothing throws, records the message |
| Models.AddUnsafeTwice | BaseModel.js:229-231 | adding the same name twice pushes it twice |

## Left out

- The CouchDB client, `co` and `config`: the first element of `db.get`'s result becomes the `doc` argument of `LoadRecord` (undefined when the fetch fails), and `db.insert` becomes `Save`'s `insertError` argument and its returned document. The store's own response value and logging are not modelled.
- JavaScript's string/number conversions (`String(number)`, `Number(string)`, `parseFloat`/`isFinite` on strings, and `>`/`<` between non-numbers) are parameters of the model (`Coercion`), not re-implemented. Numbers are reals without NaN or infinities.
- Property reads on values that are not plain objects (`"abc"[name]`, `[1, 2][name]`) read as undefined.
- Own keys of ordinary objects are kept in insertion order; JavaScript's ordering of integer-like keys first is not modelled.
- `toLowerCase` lowers ASCII letters only. `.length` counts characters, not UTF-16 code units.
- The `$` patterns of `String.prototype.replace` are modelled only for the `$1\n$3` replacement the filter uses.
- Filter lists and unsafe-attribute arrays hold strings. Elements of other types are not modelled.
- Default values are a plain object, and `addError` receives a string (the store's error object is recorded as its message).
- Prototype keys and inherited properties (`hasOwnProperty` is modelled on own keys only).
- The `id` and `className` getters. `id` is never assigned in the source; `className` is the `Schema.className` field.
- Models.BaseModel.constructor: does not run `appendValidators` and `setUnsafeAttributes`. An instance whose rules throw is lost in JavaScript, so `Construct` runs those two steps and returns the instance or the exception's message.
