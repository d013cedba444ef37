/**
 * BaseModel: a record with a declared attribute list, default values,
 * validation rules, filters and a list of "unsafe" attributes, kept in
 * place and validated before it is written to the document store.
 *
 * What a subclass overrides (attributesList, defaultValues, rules,
 * filters, unsafeAttributesList and the class name) is the immutable
 * `schema`; the JavaScript coercions the model relies on are `js`. The
 * store itself is not modelled: findById receives the fetched document
 * and save hands back the document it would insert.
 */
module Models {

  import opened JsValues
  import opened Registry
  import opened Validation
  import opened Attributes
  import opened StripTagsFilter

  datatype Result<T> = Ok(value: T) | Err(message: string)

  /** The overridable parts of a model class. */
  datatype Schema = Schema(
    className: string,
    attributesList: seq<string>,
    defaultValues: Fields,
    rules: seq<Value>,
    filters: seq<(string, seq<string>)>,
    unsafeAttributesList: seq<string>)

  /** The argument of addUnsafeAttribute: a string, an array of strings, or anything else. */
  datatype UnsafeArg = Name(name: string) | Names(names: seq<string>) | NeitherNameNorList

  /** The value beforeSave stores under `_id`: the lower-cased class name, a dash, realty_id. */
  function IdValue(js: Coercion, schema: Schema, attrs: Store): (r: Value)
    ensures r.Str? && |r.s| > |schema.className|
    ensures r.s[..|schema.className|] == ToLower(schema.className) && r.s[|schema.className|] == '-'
  {
    Str(ToLower(schema.className) + "-" + ToStr(js, GetValue(attrs, schema.attributesList, "realty_id")))
  }

  /** `set('_id', ...)`: stored only when `_id` is a declared attribute. */
  function WithId(js: Coercion, schema: Schema, attrs: Store): (r: Store)
    ensures "_id" in schema.attributesList ==> "_id" in r && r["_id"] == IdValue(js, schema, attrs)
    ensures "_id" !in schema.attributesList ==> r == attrs
    ensures forall k :: k != "_id" ==> (k in r <==> k in attrs) && (k in r ==> r[k] == attrs[k])
  {
    if "_id" in schema.attributesList then attrs["_id" := IdValue(js, schema, attrs)] else attrs
  }

  /** The registry after beforeSave: a stored model drops the entries of its unsafe attributes. */
  function SavedValidators(vs: Validators, isNewModel: bool, unsafe: seq<string>): (r: Validators)
    ensures isNewModel || unsafe == [] ==> r == vs
    ensures !isNewModel ==> forall n :: n in unsafe ==> n !in r
    ensures forall f :: f in r ==> f in vs && r[f] == vs[f]
  {
    if !isNewModel && |unsafe| > 0 then StripUnsafe(vs, unsafe) else vs
  }

  /**
   * On a stored model, beforeSave removes every registry entry validate()
   * would consult, so the validate() of the same save adds no error and
   * throws nothing.
   */
  lemma StoredModelSkipsValidation(js: Coercion, attrs: Store, vs: Validators, unsafe: seq<string>,
                                   errors: map<string, string>)
    requires |unsafe| > 0
    ensures ValidatePass(js, attrs, SavedValidators(vs, false, unsafe), unsafe, errors) == (errors, true)
  {
    var stripped := StripUnsafe(vs, unsafe);
    assert forall i :: 0 <= i < |unsafe| ==> unsafe[i] !in stripped;
    if |stripped| > 0 {
      PassOverUnregistered(js, attrs, stripped, unsafe, errors);
    }
  }

  /** validate() only looks at unsafe attributes: with none, it adds nothing and throws nothing. */
  lemma NoUnsafeSkipsValidation(js: Coercion, attrs: Store, vs: Validators, errors: map<string, string>)
    ensures ValidatePass(js, attrs, vs, [], errors) == (errors, true)
  {
  }

  class BaseModel {
    const schema: Schema
    const js: Coercion
    var errors: map<string, string>
    var attributes: Store
    var isNewModel: bool
    var validators: Validators
    var unsafeAttributes: seq<string>

    /** The registry only holds declared attributes, each kind under its own name. */
    ghost predicate Valid()
      reads this
    {
      WellFormed(validators, schema.attributesList)
    }

    /** Everything the constructor does before appendValidators, which may throw. */
    constructor (schema: Schema, js: Coercion, supplied: Value)
      ensures Valid()
      ensures this.schema == schema && this.js == js
      ensures errors == map[] && unsafeAttributes == [] && isNewModel && validators == map[]
      ensures attributes == Overlay(Defaults(map[], schema.attributesList, schema.defaultValues), schema.attributesList, supplied)
    {
      this.schema := schema;
      this.js := js;
      errors := map[];
      unsafeAttributes := [];
      attributes := map[];
      isNewModel := true;
      validators := map[];
      new;
      SetDefaultValues();
      SetAttributes(supplied);
    }

    method SetDefaultValues()
      modifies `attributes
      ensures attributes == Defaults(old(attributes), schema.attributesList, schema.defaultValues)
    {
      var dv := schema.defaultValues;
      for i := 0 to |dv|
        invariant attributes == Defaults(old(attributes), schema.attributesList, dv[..i])
      {
        assert dv[..i + 1][..i] == dv[..i];
        Set(dv[i].0, dv[i].1, false);
      }
      assert dv[..|dv|] == dv;
    }

    /**
     * appendValidators: each rule `[names, spec]` registers spec for its
     * declared names; the first rule of the wrong shape throws, keeping
     * what earlier rules registered.
     */
    method AppendValidators() returns (error: Option<string>)
      requires Valid()
      modifies `validators
      ensures Valid()
      ensures error == RulesError(schema.rules)
      ensures validators == RegisterRules(old(validators), schema.attributesList, schema.rules[..OkPrefix(schema.rules)])
    {
      var rules := schema.rules;
      ghost var n := OkPrefix(rules);
      ghost var good := rules[..n];
      RulesErrorAtFirstBadRule(rules);
      RegisterRulesWellFormed(validators, schema.attributesList, good);
      error := None;
      var i := 0;
      while i < |rules|
        invariant 0 <= i <= n
        invariant Valid()
        invariant RegisterRules(old(validators), schema.attributesList, good)
               == RegisterRules(validators, schema.attributesList, good[i..])
      {
        var rule := rules[i];
        if !rule.Arr? {
          error := Some(NotArrayRuleMessage);
          return;
        }
        if !(|rule.items| > 0 && rule.items[0].Arr? && |rule.items| > 1 && Truthy(rule.items[1])) {
          error := Some(WrongRuleMessage);
          return;
        }
        assert good[i..][1..] == good[i + 1..];
        var names := rule.items[0].items;
        var spec := rule.items[1];
        ghost var before := validators;
        for j := 0 to |names|
          invariant Valid()
          invariant RegisterNames(before, schema.attributesList, names, spec)
                 == RegisterNames(validators, schema.attributesList, names[j..], spec)
        {
          assert names[j..][1..] == names[j + 1..];
          if names[j].Str? && names[j].s in schema.attributesList {
            var _ := AddValidator(names[j].s, spec);
          }
        }
        i := i + 1;
      }
    }

    /** getValidator(field): the field's entry, if it has one. */
    function GetValidator(field: string): (r: Option<Fields>)
      reads this
      ensures r.Some? <==> field in validators
      ensures r.Some? ==> r.value == validators[field]
    {
      if field in validators then Some(validators[field]) else None
    }

    /** addValidator(field, spec); false when `Object.keys(spec)` throws. */
    method AddValidator(field: string, spec: Value) returns (ok: bool)
      requires Valid()
      modifies `validators
      ensures Valid()
      ensures ok <==> !(field in schema.attributesList && (spec.Null? || spec.Undef?))
      ensures validators == if ok then WithValidator(old(validators), schema.attributesList, field, spec) else old(validators)
    {
      if field in schema.attributesList {
        if spec.Null? || spec.Undef? {
          return false;
        }
        var kind := SpecKind(spec);
        if kind.Some? {
          var entry := if field in validators then validators[field] else [];
          validators := validators[field := Put(entry, kind.value, spec)];
        }
      }
      ok := true;
      assert validators == WithValidator(old(validators), schema.attributesList, field, spec);
    }

    /** removeValidator(field, kind), "" standing for no kind. */
    method RemoveValidator(field: string, kind: string)
      requires Valid()
      modifies `validators
      ensures Valid()
      ensures validators == WithoutValidator(old(validators), field, kind)
    {
      RemoveKeepsWellFormed(validators, schema.attributesList, field, kind);
      if |validators| > 0 && field in validators {
        if kind != "" && Truthy(Lookup(validators[field], kind)) {
          validators := validators[field := Remove(validators[field], kind)];
        } else {
          validators := validators - {field};
        }
      }
    }

    /**
     * isSafeAttribute: `_.indexOf` is handed the private symbol instead of
     * the unsafe list and answers -1, so every attribute is safe.
     */
    function IsSafeAttribute(name: string): (safe: bool)
      reads this
      ensures safe
    {
      var indexInSymbol := -1;
      !(!isNewModel && |unsafeAttributes| > 0 && indexInSymbol > -1)
    }

    /** set(name, value, isDynamic): declared (and, as written, always safe) or dynamic names are stored. */
    method Set(name: string, value: Value, isDynamic: bool)
      modifies `attributes
      ensures attributes == if name in schema.attributesList || isDynamic then old(attributes)[name := value] else old(attributes)
      ensures name in schema.attributesList ==> Get(name) == value
      ensures forall n :: n != name ==> Get(n) == old(Get(n))
    {
      if (name in schema.attributesList && IsSafeAttribute(name)) || isDynamic {
        attributes := attributes[name := value];
      }
    }

    /** get(name): undefined for an undeclared name. */
    function Get(name: string): (v: Value)
      reads this
      ensures name !in schema.attributesList || name !in attributes ==> v == Undef
      ensures name in schema.attributesList && name in attributes ==> v == attributes[name]
    {
      GetValue(attributes, schema.attributesList, name)
    }

    /** The `attributes` setter: each declared name the value supplies is copied. */
    method SetAttributes(supplied: Value)
      modifies `attributes
      ensures attributes == Overlay(old(attributes), schema.attributesList, supplied)
    {
      var names := schema.attributesList;
      for i := 0 to |names|
        invariant attributes == Overlay(old(attributes), names[..i], supplied)
      {
        assert names[..i + 1][..i] == names[..i];
        if Truthy(supplied) && Property(supplied, names[i]) != Undef {
          attributes := attributes[names[i] := Property(supplied, names[i])];
        }
      }
      assert names[..|names|] == names;
    }

    /** setUnsafeAttributes: the class's unsafe list is appended to the instance's. */
    method SetUnsafeAttributes()
      modifies `unsafeAttributes
      ensures unsafeAttributes == old(unsafeAttributes) + schema.unsafeAttributesList
    {
      var list := schema.unsafeAttributesList;
      if |list| > 0 {
        for i := 0 to |list|
          invariant unsafeAttributes == old(unsafeAttributes) + list[..i]
        {
          assert list[..i + 1] == list[..i] + [list[i]];
          unsafeAttributes := unsafeAttributes + [list[i]];
        }
        assert list[..|list|] == list;
      }
    }

    /**
     * addUnsafeAttribute: the guard looks in the class's list, not the
     * instance's, so a name can be pushed twice; an array is merged with
     * `_.union`, which also drops duplicates already present.
     */
    method AddUnsafeAttribute(arg: UnsafeArg)
      modifies `unsafeAttributes
      ensures arg.Name? ==> unsafeAttributes == if arg.name in schema.unsafeAttributesList then old(unsafeAttributes)
                                                else old(unsafeAttributes) + [arg.name]
      ensures arg.Names? ==> unsafeAttributes == Union(old(unsafeAttributes), arg.names)
      ensures arg.NeitherNameNorList? ==> unsafeAttributes == old(unsafeAttributes)
    {
      // An array is never found in a list of strings.
      var listed := arg.Name? && arg.name in schema.unsafeAttributesList;
      if !listed {
        match arg
        case Name(name) => unsafeAttributes := unsafeAttributes + [name];
        case Names(names) => unsafeAttributes := Union(unsafeAttributes, names);
        case NeitherNameNorList =>
      }
    }

    /** applyFilters; false when strip_tags meets a truthy value that is not a string. */
    method ApplyFilters() returns (ok: bool)
      modifies `attributes
      ensures (attributes, ok) == FilterAll(js, old(attributes), schema.attributesList, schema.filters)
    {
      var filters := schema.filters;
      for i := 0 to |filters|
        invariant FilterAll(js, old(attributes), schema.attributesList, filters)
               == FilterAll(js, attributes, schema.attributesList, filters[i..])
      {
        assert filters[i..][1..] == filters[i + 1..];
        var filterName := filters[i].0;
        var names := filters[i].1;
        ghost var before := attributes;
        for j := 0 to |names|
          invariant FilterNames(js, before, schema.attributesList, filterName, names)
                 == FilterNames(js, attributes, schema.attributesList, filterName, names[j..])
        {
          assert names[j..][1..] == names[j + 1..];
          var value := Get(names[j]);
          if Truthy(value) {
            if filterName == "strip_tags" {
              if !value.Str? {
                return false;
              }
              Set(names[j], Str(StripTagsValue(value.s)), false);
            }
            if filterName == "numeric" && ToNumber(js, value).Some? {
              Set(names[j], Num(ToNumber(js, value).value), false);
            }
          }
        }
        assert names[|names|..] == [];
      }
      assert filters[|filters|..] == [];
      ok := true;
    }

    /** addError(attribute, message) */
    method AddError(attribute: string, message: string)
      modifies `errors
      ensures errors == old(errors)[attribute := message]
    {
      errors := errors[attribute := message];
    }

    /** validateField(name, params); false when `value.length` throws on undefined. */
    method ValidateField(name: string, params: Value) returns (ok: bool)
      modifies `errors
      ensures var v := FieldVerdict(js, ValueOf(attributes, name), name, params);
        ok == !v.Throws? && errors == Apply(old(errors), name, v)
    {
      ok := true;
      var kind := Kind(params);
      if kind.None? {
        return;
      }
      var value := ValueOf(attributes, name);
      if kind.value == "required" {
        if !Truthy(value) {
          AddError(name, RequiredMessage(name));
        }
      } else if kind.value == "numeric" {
        if IsNumeric(js, value) {
          FloatRejectionUnreachable(params, value);
          if OwnProperty(params, "max") && Greater(js, value, Property(params, "max")) {
            AddError(name, MaxValueMessage(js, Property(params, "max")));
          }
          if OwnProperty(params, "min") && Less(js, value, Property(params, "min")) {
            AddError(name, MinValueMessage(js, Property(params, "min")));
          }
        } else {
          AddError(name, NumericMessage(name));
        }
      } else {
        if OwnProperty(params, "max") && !value.Null? {
          var length := LengthOf(value);
          if length.None? {
            return false;
          }
          if Greater(js, length.value, Property(params, "max")) {
            AddError(name, MaxLengthMessage(js, Property(params, "max")));
          }
        }
        if OwnProperty(params, "min") && !value.Null? {
          var length := LengthOf(value);
          if length.None? {
            return false;
          }
          if Less(js, length.value, Property(params, "min")) {
            AddError(name, MinLengthMessage(js, Property(params, "min")));
          }
        }
      }
    }

    /**
     * validate(): each unsafe attribute with a registry entry is checked
     * against the whole entry; valid when no error is recorded, including
     * errors left from earlier calls. ok is false when a check throws.
     */
    method Validate() returns (valid: bool, ok: bool)
      modifies `errors
      ensures (errors, ok) == ValidatePass(js, attributes, validators, unsafeAttributes, old(errors))
      ensures valid <==> ok && errors == map[]
    {
      ok := true;
      if |validators| > 0 {
        var names := unsafeAttributes;
        for i := 0 to |names|
          invariant PassFrom(js, attributes, validators, names, old(errors))
                 == PassFrom(js, attributes, validators, names[i..], errors)
        {
          assert names[i..][1..] == names[i + 1..];
          if names[i] in validators {
            ok := ValidateField(names[i], Obj(validators[names[i]]));
            if !ok {
              valid := false;
              return;
            }
          }
        }
        assert names[|names|..] == [];
      }
      valid := |errors| == 0;
    }

    /**
     * beforeSave: a stored model drops the validators of its unsafe
     * attributes, the filters run, and `_id` is set from the class name and
     * realty_id. false when a filter throws (`_id` is then not set).
     */
    method BeforeSave() returns (ok: bool)
      requires Valid()
      modifies `validators, `attributes
      ensures Valid()
      ensures validators == SavedValidators(old(validators), isNewModel, unsafeAttributes)
      ensures var (m, fok) := FilterAll(js, old(attributes), schema.attributesList, schema.filters);
        ok == fok && attributes == if fok then WithId(js, schema, m) else m
    {
      if !isNewModel && |unsafeAttributes| > 0 {
        var names := unsafeAttributes;
        for i := 0 to |names|
          invariant Valid() && attributes == old(attributes)
          invariant StripUnsafe(old(validators), names) == StripUnsafe(validators, names[i..])
        {
          assert names[i..][1..] == names[i + 1..];
          RemoveValidator(names[i], "");
        }
        assert names[|names|..] == [];
      }
      ok := ApplyFilters();
      if !ok {
        return;
      }
      var id := IdValue(js, schema, attributes);
      Set("_id", id, false);
    }

    /**
     * The part of findById after the fetch: `doc` is the fetched document
     * (`attributes[0]`), undefined when the fetch failed.
     */
    method LoadRecord(doc: Value)
      modifies `attributes, `isNewModel
      ensures Truthy(doc) ==> attributes == Overlay(old(attributes), schema.attributesList, doc) && !isNewModel
      ensures !Truthy(doc) ==> attributes == old(attributes) && isNewModel == old(isNewModel)
    {
      if Truthy(doc) {
        SetAttributes(doc);
        isNewModel := false;
      } else {
        SetAttributes(Null);
      }
    }

    /**
     * save(validate): `validate || true` is always true, so the model is
     * always validated and inserted only when valid. `insertError` is the
     * store's answer to the insert (None: accepted), recorded under
     * "couch". Returns the document inserted, and false when a TypeError
     * escaped beforeSave or validate.
     */
    method Save(validateArg: bool, insertError: Option<string>) returns (inserted: Option<Store>, ok: bool)
      requires Valid()
      modifies `validators, `attributes, `errors
      ensures Valid()
      ensures validators == SavedValidators(old(validators), isNewModel, unsafeAttributes)
      ensures var (m, fok) := FilterAll(js, old(attributes), schema.attributesList, schema.filters);
        && attributes == (if fok then WithId(js, schema, m) else m)
        && (!fok ==> !ok && inserted.None? && errors == old(errors))
      ensures FilterAll(js, old(attributes), schema.attributesList, schema.filters).1 ==>
        var (e, vok) := ValidatePass(js, attributes, validators, unsafeAttributes, old(errors));
        && ok == vok
        && (inserted.Some? <==> vok && e == map[] && insertError.None?)
        && (inserted.Some? ==> inserted.value == attributes)
        && errors == if vok && e == map[] && insertError.Some? then e["couch" := insertError.value] else e
    {
      var validate := validateArg || true;
      inserted := None;
      ok := BeforeSave();
      if !ok {
        return;
      }
      if validate {
        var valid;
        valid, ok := Validate();
        if valid {
          if insertError.Some? {
            AddError("couch", insertError.value);
          } else {
            inserted := Some(attributes);
          }
        }
      } else {
        inserted := Some(attributes);
      }
    }
  }

  /**
   * `new Model(supplied)`: defaults, then the supplied values, then the
   * rules (which may throw, losing the instance), then the unsafe list.
   */
  method Construct(schema: Schema, js: Coercion, supplied: Value) returns (r: Result<BaseModel>)
    ensures r.Err? <==> RulesError(schema.rules).Some?
    ensures r.Err? ==> r.message == RulesError(schema.rules).value
    ensures r.Ok? ==>
      var m := r.value;
      && fresh(m) && m.Valid()
      && m.schema == schema && m.js == js
      && m.isNewModel && m.errors == map[]
      && m.attributes == Overlay(Defaults(map[], schema.attributesList, schema.defaultValues), schema.attributesList, supplied)
      && m.validators == RegisterRules(map[], schema.attributesList, schema.rules)
      && m.unsafeAttributes == schema.unsafeAttributesList
  {
    var m := new BaseModel(schema, js, supplied);
    var error := m.AppendValidators();
    if error.Some? {
      return Err(error.value);
    }
    assert schema.rules[..OkPrefix(schema.rules)] == schema.rules;
    m.SetUnsafeAttributes();
    return Ok(m);
  }

  /**
   * A model without recorded errors whose filters do not throw is saved
   * whenever validate() cannot look at any validator: it has no unsafe
   * attributes, or it is a stored model (beforeSave has just dropped the
   * validators of its unsafe attributes). A rule such as `required` on a
   * safe attribute is then never enforced.
   */
  method SaveUnchecked(m: BaseModel, insertError: Option<string>) returns (inserted: Option<Store>, ok: bool)
    requires m.Valid() && m.errors == map[]
    requires |m.unsafeAttributes| == 0 || !m.isNewModel
    requires FilterAll(m.js, m.attributes, m.schema.attributesList, m.schema.filters).1
    modifies m
    ensures ok
    ensures inserted.Some? <==> insertError.None?
    ensures inserted.Some? ==> inserted.value == m.attributes
  {
    inserted, ok := m.Save(false, insertError);
    if |m.unsafeAttributes| == 0 {
      NoUnsafeSkipsValidation(m.js, m.attributes, m.validators, map[]);
    } else {
      StoredModelSkipsValidation(m.js, m.attributes, old(m.validators), m.unsafeAttributes, map[]);
    }
  }

  /**
   * validate() on a model whose unsafe attribute k has a validator entry
   * that reports m: the answer is not valid, and unless a check threw, m is
   * recorded under k.
   */
  method ReportedFieldFailsValidation(m: BaseModel, k: string, msg: string) returns (valid: bool, ok: bool)
    requires k in m.unsafeAttributes && k in m.validators
    requires FieldVerdict(m.js, ValueOf(m.attributes, k), k, Obj(m.validators[k])) == Report(msg)
    modifies m
    ensures !valid
    ensures ok ==> k in m.errors && m.errors[k] == msg
  {
    valid, ok := m.Validate();
    if ok {
      ValidateReports(m.js, m.attributes, m.validators, m.unsafeAttributes, old(m.errors), k, msg);
    }
  }

  /** addUnsafeAttribute checks the class's list, so the same name is pushed on every call. */
  method AddUnsafeTwice(m: BaseModel, name: string)
    requires name !in m.schema.unsafeAttributesList
    modifies m
    ensures m.unsafeAttributes == old(m.unsafeAttributes) + [name, name]
  {
    m.AddUnsafeAttribute(Name(name));
    m.AddUnsafeAttribute(Name(name));
  }
}
