/**
 * What BaseModel.validateField and BaseModel.validate do to the `errors`
 * object, as pure functions of the attribute values, the registry and the
 * unsafe-attribute list. The class in model.dfy runs the same steps in
 * place and is proved to end where these functions say.
 */
module Validation {

  import opened JsValues
  import opened Registry

  /** The kinds validateField knows, in its own order. */
  const AvailableValidators := ["required", "numeric", "length"]

  function RequiredMessage(name: string): string { "Field " + name + " is required" }
  function NumericMessage(name: string): string { "Field " + name + " can be only numeric" }
  function FloatMessage(name: string): string { "Field " + name + " can be only float type" }

  // In the four bound messages `.replace('{name}', name)` is applied to the
  // literal that follows `+` ('' or ' symobls'), not to the template, so
  // they keep a literal "{name}" and do not mention the attribute.
  function MaxValueMessage(js: Coercion, max: Value): string
  {
    "Field {name} value can not be greater than " + ToStr(js, max) + ""
  }
  function MinValueMessage(js: Coercion, min: Value): string
  {
    "Field {name} value can not be less than " + ToStr(js, min) + ""
  }
  function MaxLengthMessage(js: Coercion, max: Value): string
  {
    "Field {name} length can not be greater than " + ToStr(js, max) + " symobls"
  }
  function MinLengthMessage(js: Coercion, min: Value): string
  {
    "Field {name} length can not be less than " + ToStr(js, min) + " symobls"
  }

  /** The kind validateField acts on: the first key of a non-empty params, if it knows it. */
  function Kind(params: Value): (k: Option<string>)
    ensures k.Some? ==> k.value in AvailableValidators && params.Obj? && params.fields != [] && params.fields[0].0 == k.value
    ensures params.Obj? && params.fields != [] && params.fields[0].0 in AvailableValidators ==> k == Some(params.fields[0].0)
  {
    if !IsEmpty(params) && FirstKey(params).Some? && FirstKey(params).value != ""
       && FirstKey(params).value in AvailableValidators
    then FirstKey(params) else None
  }

  /** How one validateField call ends: errors untouched, errors[name] set last to a message, or a TypeError. */
  datatype Verdict = Keep | Report(message: string) | Throws

  /** The float test as written: `!p.hasOwnProperty('allowFloat') && p.allowFloat && isFloat(v)`. */
  predicate FloatRejected(params: Value, value: Value)
  {
    !OwnProperty(params, "allowFloat") && Truthy(Property(params, "allowFloat")) && IsFloat(value)
  }

  /** The numeric check never throws, and never reports the float message. */
  function NumericVerdict(js: Coercion, value: Value, name: string, params: Value): (r: Verdict)
    ensures !r.Throws?
    ensures r.Report? ==>
      r.message in {NumericMessage(name), MaxValueMessage(js, Property(params, "max")), MinValueMessage(js, Property(params, "min"))}
  {
    if IsNumeric(js, value) then
      var v1 := if FloatRejected(params, value) then Report(FloatMessage(name)) else Keep;
      var v2 := if OwnProperty(params, "max") && Greater(js, value, Property(params, "max"))
                then Report(MaxValueMessage(js, Property(params, "max"))) else v1;
      if OwnProperty(params, "min") && Less(js, value, Property(params, "min"))
      then Report(MinValueMessage(js, Property(params, "min"))) else v2
    else Report(NumericMessage(name))
  }

  /**
   * The length check throws exactly when a bound is set and the value is
   * undefined; without bounds it reports nothing.
   */
  function LengthVerdict(js: Coercion, value: Value, params: Value): (r: Verdict)
    ensures r.Throws? <==> value.Undef? && (OwnProperty(params, "max") || OwnProperty(params, "min"))
    ensures r.Report? ==>
      r.message in {MaxLengthMessage(js, Property(params, "max")), MinLengthMessage(js, Property(params, "min"))}
    ensures !OwnProperty(params, "max") && !OwnProperty(params, "min") ==> r == Keep
  {
    var checkMax := OwnProperty(params, "max") && !value.Null?;
    var checkMin := OwnProperty(params, "min") && !value.Null?;
    if (checkMax || checkMin) && value.Undef? then Throws
    else
      var v1 := if checkMax && Greater(js, LengthOf(value).value, Property(params, "max"))
                then Report(MaxLengthMessage(js, Property(params, "max"))) else Keep;
      if checkMin && Less(js, LengthOf(value).value, Property(params, "min"))
      then Report(MinLengthMessage(js, Property(params, "min"))) else v1
  }

  /** validateField(name, params) with `value` the current `attributes[name]`. */
  function FieldVerdict(js: Coercion, value: Value, name: string, params: Value): (r: Verdict)
    ensures Kind(params).None? ==> r == Keep
    ensures r.Throws? ==> Kind(params) == Some("length") && value.Undef?
    ensures r.Report? ==>
      r.message in {RequiredMessage(name), NumericMessage(name),
                    MaxValueMessage(js, Property(params, "max")), MinValueMessage(js, Property(params, "min")),
                    MaxLengthMessage(js, Property(params, "max")), MinLengthMessage(js, Property(params, "min"))}
  {
    match Kind(params)
    case None => Keep
    case Some(kind) =>
      if kind == "required" then
        if !Truthy(value) then Report(RequiredMessage(name)) else Keep
      else if kind == "numeric" then NumericVerdict(js, value, name, params)
      else LengthVerdict(js, value, params)
  }

  /** addError(name, message) for each verdict. */
  function Apply(errors: map<string, string>, name: string, v: Verdict): map<string, string>
  {
    if v.Report? then errors[name := v.message] else errors
  }

  /** `attributes[name]`, undefined when absent. */
  function ValueOf(attributes: map<string, Value>, name: string): Value
  {
    if name in attributes then attributes[name] else Undef
  }

  /**
   * The loop of validate() from `names` on: each name with a registry entry
   * is checked against the whole entry (`{kind: spec, ...}`). The boolean
   * is false when a check throws; errors are then as they were when it did.
   */
  function PassFrom(js: Coercion, attributes: map<string, Value>, vs: Validators,
                    names: seq<string>, errors: map<string, string>): (res: (map<string, string>, bool))
    ensures res.1 <==> NoCheckThrows(js, attributes, vs, names)
    decreases |names|
  {
    if names == [] then (errors, true)
    else if names[0] in vs then
      var v := FieldVerdict(js, ValueOf(attributes, names[0]), names[0], Obj(vs[names[0]]));
      if v.Throws? then (errors, false)
      else PassFrom(js, attributes, vs, names[1..], Apply(errors, names[0], v))
    else PassFrom(js, attributes, vs, names[1..], errors)
  }

  /**
   * No listed name with a registry entry makes its check throw. Checks do
   * not read `errors`, so this decides whether the whole pass throws.
   */
  predicate NoCheckThrows(js: Coercion, attributes: map<string, Value>, vs: Validators, names: seq<string>)
  {
    forall i :: 0 <= i < |names| && names[i] in vs ==>
      !FieldVerdict(js, ValueOf(attributes, names[i]), names[i], Obj(vs[names[i]])).Throws?
  }

  /** validate(): nothing when the registry is empty, otherwise the loop over the unsafe list. */
  function ValidatePass(js: Coercion, attributes: map<string, Value>, vs: Validators,
                        unsafe: seq<string>, errors: map<string, string>): (res: (map<string, string>, bool))
    ensures |vs| == 0 ==> res.0 == errors
    ensures res.1 <==> |vs| == 0 || NoCheckThrows(js, attributes, vs, unsafe)
  {
    if |vs| == 0 then (errors, true) else PassFrom(js, attributes, vs, unsafe, errors)
  }

  // ---------------------------------------------------------------------
  // validateField

  lemma RequiredReportsFalsy(js: Coercion, value: Value, name: string, params: Value)
    requires Kind(params) == Some("required")
    ensures FieldVerdict(js, value, name, params) == (if Truthy(value) then Keep else Report(RequiredMessage(name)))
  {
  }

  lemma NonNumericReported(js: Coercion, value: Value, name: string, params: Value)
    requires Kind(params) == Some("numeric") && !IsNumeric(js, value)
    ensures FieldVerdict(js, value, name, params) == Report(NumericMessage(name))
  {
  }

  /** The `allowFloat` branch can never be taken: "can be only float type" is never added. */
  lemma FloatRejectionUnreachable(params: Value, value: Value)
    ensures !FloatRejected(params, value)
  {
  }

  lemma NumericNeverReportsFloat(js: Coercion, value: Value, name: string, params: Value)
    requires Kind(params) == Some("numeric")
    ensures FieldVerdict(js, value, name, params) in
      {Keep, Report(NumericMessage(name)),
       Report(MaxValueMessage(js, Property(params, "max"))), Report(MinValueMessage(js, Property(params, "min")))}
  {
    FloatRejectionUnreachable(params, value);
  }

  /** An empty spec, or one whose first key is not a known kind, changes nothing. */
  lemma UnknownKindKeeps(js: Coercion, value: Value, name: string, params: Value)
    requires IsEmpty(params) || FirstKey(params).None? || FirstKey(params).value !in AvailableValidators
    ensures FieldVerdict(js, value, name, params) == Keep
  {
  }

  /** A number within the bounds a numeric spec sets, whatever its keys' order and extra keys, passes. */
  lemma NumericWithinBounds(js: Coercion, x: real, name: string, p: Value)
    requires Kind(p) == Some("numeric")
    requires OwnProperty(p, "max") ==> Property(p, "max").Num? && x <= Property(p, "max").n
    requires OwnProperty(p, "min") ==> Property(p, "min").Num? && Property(p, "min").n <= x
    ensures FieldVerdict(js, Num(x), name, p) == Keep
  {
    FloatRejectionUnreachable(p, Num(x));
  }

  /**
   * A string longer than a length spec's numeric max gets the max-length
   * message, unless a min check fires after it and overwrites it.
   */
  lemma TooLongReported(js: Coercion, s: string, name: string, p: Value)
    requires Kind(p) == Some("length")
    requires OwnProperty(p, "max") && Property(p, "max").Num? && (|s| as real) > Property(p, "max").n
    requires OwnProperty(p, "min") ==> !Less(js, Num(|s| as real), Property(p, "min"))
    ensures FieldVerdict(js, Str(s), name, p) == Report(MaxLengthMessage(js, Property(p, "max")))
    ensures "Field {name} " <= FieldVerdict(js, Str(s), name, p).message
  {
  }

  /**
   * A number above a numeric spec's max gets the max-value message, unless
   * the min check fires after it and overwrites it. The message keeps a
   * literal "{name}".
   */
  lemma NumericAboveMaxReported(js: Coercion, x: real, name: string, p: Value)
    requires Kind(p) == Some("numeric")
    requires OwnProperty(p, "max") && Property(p, "max").Num? && x > Property(p, "max").n
    requires OwnProperty(p, "min") ==> !Less(js, Num(x), Property(p, "min"))
    ensures FieldVerdict(js, Num(x), name, p) == Report(MaxValueMessage(js, Property(p, "max")))
    ensures "Field {name} " <= FieldVerdict(js, Num(x), name, p).message
  {
    FloatRejectionUnreachable(p, Num(x));
  }

  /** A number below a numeric spec's min gets the min-value message, with a literal "{name}". */
  lemma NumericBelowMinReported(js: Coercion, x: real, name: string, p: Value)
    requires Kind(p) == Some("numeric")
    requires OwnProperty(p, "min") && Property(p, "min").Num? && x < Property(p, "min").n
    ensures FieldVerdict(js, Num(x), name, p) == Report(MinValueMessage(js, Property(p, "min")))
    ensures "Field {name} " <= FieldVerdict(js, Num(x), name, p).message
  {
  }

  /** A string shorter than a length spec's min gets the min-length message, with a literal "{name}". */
  lemma TooShortReported(js: Coercion, s: string, name: string, p: Value)
    requires Kind(p) == Some("length")
    requires OwnProperty(p, "min") && Property(p, "min").Num? && (|s| as real) < Property(p, "min").n
    ensures FieldVerdict(js, Str(s), name, p) == Report(MinLengthMessage(js, Property(p, "min")))
    ensures "Field {name} " <= FieldVerdict(js, Str(s), name, p).message
  {
  }

  /** A length spec on an undefined value throws instead of reporting. */
  lemma LengthOfUndefinedThrows(js: Coercion, name: string, params: Value)
    requires Kind(params) == Some("length") && (OwnProperty(params, "max") || OwnProperty(params, "min"))
    ensures FieldVerdict(js, Undef, name, params) == Throws
  {
  }

  /**
   * The entry validate() passes is `{kind: spec, ...}`: unless a kind is
   * literally named "max" or "min", no bound check can fire through it.
   */
  lemma EntryChecksNoBounds(js: Coercion, value: Value, name: string, entry: Fields)
    requires !HasKey(entry, "max") && !HasKey(entry, "min")
    ensures FieldVerdict(js, value, name, Obj(entry)) in {Keep, Report(RequiredMessage(name)), Report(NumericMessage(name))}
  {
    FloatRejectionUnreachable(Obj(entry), value);
  }

  // ---------------------------------------------------------------------
  // validate

  /** validate() only adds or overwrites entries: no key of `errors` is ever removed. */
  lemma {:induction false} PassKeepsKeys(js: Coercion, attributes: map<string, Value>, vs: Validators,
                                          names: seq<string>, errors: map<string, string>)
    ensures errors.Keys <= PassFrom(js, attributes, vs, names, errors).0.Keys
    decreases |names|
  {
    if names != [] {
      if names[0] in vs {
        var v := FieldVerdict(js, ValueOf(attributes, names[0]), names[0], Obj(vs[names[0]]));
        if !v.Throws? {
          PassKeepsKeys(js, attributes, vs, names[1..], Apply(errors, names[0], v));
        }
      } else {
        PassKeepsKeys(js, attributes, vs, names[1..], errors);
      }
    }
  }

  /** Only listed names that have a registry entry can gain or change an entry. */
  lemma {:induction false} PassTouchesOnlyChecked(js: Coercion, attributes: map<string, Value>, vs: Validators,
                                                  names: seq<string>, errors: map<string, string>, k: string)
    requires !(k in names && k in vs)
    ensures var e := PassFrom(js, attributes, vs, names, errors).0;
      (k in e <==> k in errors) && (k in e ==> e[k] == errors[k])
    decreases |names|
  {
    if names != [] {
      assert k !in names[1..] || k !in vs by {
        if k in names[1..] { assert k in names; }
      }
      if names[0] in vs {
        var v := FieldVerdict(js, ValueOf(attributes, names[0]), names[0], Obj(vs[names[0]]));
        if !v.Throws? {
          PassTouchesOnlyChecked(js, attributes, vs, names[1..], Apply(errors, names[0], v), k);
        }
      } else {
        PassTouchesOnlyChecked(js, attributes, vs, names[1..], errors, k);
      }
    }
  }

  /** With no listed name registered, the pass changes nothing and does not throw. */
  lemma {:induction false} PassOverUnregistered(js: Coercion, attributes: map<string, Value>, vs: Validators,
                                                names: seq<string>, errors: map<string, string>)
    requires forall i :: 0 <= i < |names| ==> names[i] !in vs
    ensures PassFrom(js, attributes, vs, names, errors) == (errors, true)
    decreases |names|
  {
    if names != [] {
      assert names[0] !in vs;
      PassOverUnregistered(js, attributes, vs, names[1..], errors);
    }
  }

  /**
   * A listed, registered name whose check reports m ends with m recorded,
   * when no check of the pass throws: the attributes do not change during
   * the pass, so a repeated check reports m again, and other names never
   * touch its entry.
   */
  lemma {:induction false} PassReports(js: Coercion, attributes: map<string, Value>, vs: Validators,
                                       names: seq<string>, errors: map<string, string>, k: string, m: string)
    requires k in names && k in vs
    requires FieldVerdict(js, ValueOf(attributes, k), k, Obj(vs[k])) == Report(m)
    requires PassFrom(js, attributes, vs, names, errors).1
    ensures var e := PassFrom(js, attributes, vs, names, errors).0; k in e && e[k] == m
    decreases |names|
  {
    var n0 := names[0];
    var errors' := errors;
    if n0 in vs {
      var v := FieldVerdict(js, ValueOf(attributes, n0), n0, Obj(vs[n0]));
      errors' := Apply(errors, n0, v);
    }
    assert PassFrom(js, attributes, vs, names, errors) == PassFrom(js, attributes, vs, names[1..], errors');
    if k in names[1..] {
      PassReports(js, attributes, vs, names[1..], errors', k, m);
    } else {
      assert n0 == k && errors'[k] == m;
      PassTouchesOnlyChecked(js, attributes, vs, names[1..], errors', k);
    }
  }

  /** validate() records the message of a failing check on an unsafe attribute, so it does not answer valid. */
  lemma ValidateReports(js: Coercion, attributes: map<string, Value>, vs: Validators,
                        unsafe: seq<string>, errors: map<string, string>, k: string, m: string)
    requires k in unsafe && k in vs
    requires FieldVerdict(js, ValueOf(attributes, k), k, Obj(vs[k])) == Report(m)
    requires ValidatePass(js, attributes, vs, unsafe, errors).1
    ensures var e := ValidatePass(js, attributes, vs, unsafe, errors).0; k in e && e[k] == m && e != map[]
  {
    assert |vs| > 0 by { assert k in vs.Keys; }
    PassReports(js, attributes, vs, unsafe, errors, k, m);
  }

  /** An empty attribute on the unsafe list whose entry starts with `required` makes validate() fail. */
  lemma RequiredUnsafeReported(js: Coercion, attributes: map<string, Value>, vs: Validators,
                               unsafe: seq<string>, errors: map<string, string>, k: string)
    requires k in unsafe && k in vs && Kind(Obj(vs[k])) == Some("required")
    requires !Truthy(ValueOf(attributes, k))
    requires ValidatePass(js, attributes, vs, unsafe, errors).1
    ensures var e := ValidatePass(js, attributes, vs, unsafe, errors).0; k in e && e[k] == RequiredMessage(k)
  {
    ValidateReports(js, attributes, vs, unsafe, errors, k, RequiredMessage(k));
  }

  lemma ValidateTouchesOnlyUnsafe(js: Coercion, attributes: map<string, Value>, vs: Validators,
                                  unsafe: seq<string>, errors: map<string, string>, k: string)
    requires !(k in unsafe && k in vs)
    ensures var e := ValidatePass(js, attributes, vs, unsafe, errors).0;
      (k in e <==> k in errors) && (k in e ==> e[k] == errors[k])
  {
    if |vs| > 0 {
      PassTouchesOnlyChecked(js, attributes, vs, unsafe, errors, k);
    }
  }

  lemma ValidateKeepsKeys(js: Coercion, attributes: map<string, Value>, vs: Validators,
                          unsafe: seq<string>, errors: map<string, string>)
    ensures errors.Keys <= ValidatePass(js, attributes, vs, unsafe, errors).0.Keys
  {
    if |vs| > 0 {
      PassKeepsKeys(js, attributes, vs, unsafe, errors);
    }
  }

  /** An empty registry makes validate() change nothing. */
  lemma ValidateWithEmptyRegistry(js: Coercion, attributes: map<string, Value>, vs: Validators,
                                  unsafe: seq<string>, errors: map<string, string>)
    requires |vs| == 0
    ensures ValidatePass(js, attributes, vs, unsafe, errors) == (errors, true)
  {
  }
}
