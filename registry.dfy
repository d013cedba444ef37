/**
 * The validator registry of BaseModel: per declared attribute, an ordered
 * object from validator kind to the spec registered under it, built from
 * the schema's rules at construction and changed by addValidator and
 * removeValidator. The functions here are the pure meaning of those
 * operations; the class in model.dfy runs them in place.
 */
module Registry {

  import opened JsValues

  /** attribute name -> (kind -> spec), the `_attrValidators` object. */
  type Validators = map<string, Fields>

  const NotArrayRuleMessage := "Validators rules had to be an array of attributes array and validator object"
  const WrongRuleMessage := "Model has wrong validator rule"

  /** The kind addValidator files a spec under: its first own key, if truthy. */
  function SpecKind(spec: Value): (k: Option<string>)
    ensures k.Some? ==> k.value != "" && FirstKey(spec) == k
    ensures k.None? ==> FirstKey(spec).None? || FirstKey(spec) == Some("")
  {
    match FirstKey(spec)
    case Some(k) => if k != "" then Some(k) else None
    case None => None
  }

  /** Every spec sits under its own kind, each kind once. */
  predicate KindsMatchSpecs(fs: Fields)
  {
    UniqueKeys(fs) && forall i :: 0 <= i < |fs| ==> SpecKind(fs[i].1) == Some(fs[i].0)
  }

  /** The registry invariant: only declared attributes, every entry well keyed. */
  predicate WellFormed(vs: Validators, declared: seq<string>)
  {
    forall f :: f in vs ==> f in declared && KindsMatchSpecs(vs[f])
  }

  lemma KindsMatchSpecsPut(fs: Fields, k: string, spec: Value)
    requires KindsMatchSpecs(fs) && SpecKind(spec) == Some(k)
    ensures KindsMatchSpecs(Put(fs, k, spec))
    decreases |fs|
  {
    if fs != [] && fs[0].0 != k {
      var r := Put(fs, k, spec);
      assert r == [fs[0]] + Put(fs[1..], k, spec);
      KindsMatchSpecsPut(fs[1..], k, spec);
      assert KindsMatchSpecs(fs[1..]) by {
        forall i | 0 <= i < |fs[1..]| ensures SpecKind(fs[1..][i].1) == Some(fs[1..][i].0) {
          assert fs[1..][i] == fs[i + 1];
        }
      }
      forall i | 0 <= i < |r| ensures SpecKind(r[i].1) == Some(r[i].0) {
        if i > 0 { assert r[i] == Put(fs[1..], k, spec)[i - 1]; }
      }
    } else if fs != [] {
      var r := Put(fs, k, spec);
      assert r == [(k, spec)] + fs[1..];
      forall i | 0 <= i < |r| ensures SpecKind(r[i].1) == Some(r[i].0) {
        if i > 0 { assert r[i] == fs[i]; }
      }
    }
  }

  lemma KindsMatchSpecsRemove(fs: Fields, k: string)
    requires KindsMatchSpecs(fs)
    ensures KindsMatchSpecs(Remove(fs, k))
    decreases |fs|
  {
    if fs != [] {
      assert KindsMatchSpecs(fs[1..]) by {
        forall i | 0 <= i < |fs[1..]| ensures SpecKind(fs[1..][i].1) == Some(fs[1..][i].0) {
          assert fs[1..][i] == fs[i + 1];
        }
      }
      KindsMatchSpecsRemove(fs[1..], k);
      if fs[0].0 != k {
        var r := Remove(fs, k);
        assert r == [fs[0]] + Remove(fs[1..], k);
        forall i | 0 <= i < |r| ensures SpecKind(r[i].1) == Some(r[i].0) {
          if i > 0 { assert r[i] == Remove(fs[1..], k)[i - 1]; }
        }
      }
    }
  }

  /** In a well-keyed entry a kind is present exactly when its spec is truthy. */
  lemma {:induction false} RegisteredIffTruthy(fs: Fields, k: string)
    requires KindsMatchSpecs(fs)
    ensures HasKey(fs, k) <==> Truthy(Lookup(fs, k))
    decreases |fs|
  {
    if fs != [] {
      assert SpecKind(fs[0].1) == Some(fs[0].0);
      if fs[0].0 != k {
        assert KindsMatchSpecs(fs[1..]) by {
          forall i | 0 <= i < |fs[1..]| ensures SpecKind(fs[1..][i].1) == Some(fs[1..][i].0) {
            assert fs[1..][i] == fs[i + 1];
          }
        }
        RegisteredIffTruthy(fs[1..], k);
      }
    }
  }

  // ---------------------------------------------------------------------
  // addValidator / removeValidator

  /**
   * addValidator(field, spec) for a spec that is not null or undefined:
   * a declared field gets spec under the spec's first key (replacing the
   * spec of that kind, if any, in place); anything else is a no-op.
   */
  function WithValidator(vs: Validators, declared: seq<string>, field: string, spec: Value): (r: Validators)
    ensures field !in declared || SpecKind(spec).None? ==> r == vs
    ensures field in declared && SpecKind(spec).Some? ==>
      var k := SpecKind(spec).value;
      && field in r
      && HasKey(r[field], k) && Lookup(r[field], k) == spec
      && (forall k' :: k' != k ==> (HasKey(r[field], k') <==> field in vs && HasKey(vs[field], k')))
      && (forall k' :: k' != k && field in vs ==> Lookup(r[field], k') == Lookup(vs[field], k'))
      && (field in vs && HasKey(vs[field], k) ==> Keys(r[field]) == Keys(vs[field]))
    ensures forall f :: f != field ==> (f in r <==> f in vs) && (f in r ==> r[f] == vs[f])
    ensures WellFormed(vs, declared) ==> WellFormed(r, declared)
  {
    if field in declared && SpecKind(spec).Some? then
      var k := SpecKind(spec).value;
      var entry := if field in vs then vs[field] else [];
      assert WellFormed(vs, declared) ==> KindsMatchSpecs(Put(entry, k, spec)) by {
        if WellFormed(vs, declared) { KindsMatchSpecsPut(entry, k, spec); }
      }
      vs[field := Put(entry, k, spec)]
    else vs
  }

  /**
   * removeValidator(field, kind), "" standing for no kind: with a kind
   * registered for the field only that kind goes; with no kind, or one that
   * is not registered, the field's whole entry goes; a field without an
   * entry is left alone.
   */
  function WithoutValidator(vs: Validators, field: string, kind: string): (r: Validators)
    ensures field in r ==> field in vs
    ensures forall f :: f != field ==> (f in r <==> f in vs) && (f in r ==> r[f] == vs[f])
  {
    if |vs| > 0 && field in vs then
      if kind != "" && Truthy(Lookup(vs[field], kind)) then vs[field := Remove(vs[field], kind)]
      else vs - {field}
    else vs
  }

  lemma RemoveRegisteredKind(vs: Validators, declared: seq<string>, field: string, kind: string)
    requires WellFormed(vs, declared)
    requires field in vs && kind != "" && HasKey(vs[field], kind)
    ensures var r := WithoutValidator(vs, field, kind);
      && field in r
      && !HasKey(r[field], kind)
      && (forall k' :: k' != kind ==> (HasKey(r[field], k') <==> HasKey(vs[field], k')) && Lookup(r[field], k') == Lookup(vs[field], k'))
      && (forall f :: f != field ==> (f in r <==> f in vs) && (f in r ==> r[f] == vs[f]))
      && WellFormed(r, declared)
  {
    RegisteredIffTruthy(vs[field], kind);
    assert |vs| > 0 by { assert field in vs.Keys; }
    KindsMatchSpecsRemove(vs[field], kind);
  }

  lemma RemoveUnregisteredKind(vs: Validators, declared: seq<string>, field: string, kind: string)
    requires WellFormed(vs, declared)
    requires field in vs && (kind == "" || !HasKey(vs[field], kind))
    ensures WithoutValidator(vs, field, kind) == vs - {field}
  {
    RegisteredIffTruthy(vs[field], kind);
    assert |vs| > 0 by { assert field in vs.Keys; }
  }

  lemma RemoveFromAbsentField(vs: Validators, field: string, kind: string)
    requires field !in vs
    ensures WithoutValidator(vs, field, kind) == vs
  {
  }

  lemma RemoveKeepsWellFormed(vs: Validators, declared: seq<string>, field: string, kind: string)
    requires WellFormed(vs, declared)
    ensures WellFormed(WithoutValidator(vs, field, kind), declared)
  {
    if field in vs && kind != "" && HasKey(vs[field], kind) {
      RemoveRegisteredKind(vs, declared, field, kind);
    } else if field in vs {
      RemoveUnregisteredKind(vs, declared, field, kind);
    }
  }

  /** Adding a kind and then removing it leaves the field without that kind. */
  lemma AddThenRemove(vs: Validators, declared: seq<string>, field: string, spec: Value)
    requires WellFormed(vs, declared)
    requires field in declared && SpecKind(spec).Some?
    ensures var k := SpecKind(spec).value;
      var r := WithoutValidator(WithValidator(vs, declared, field, spec), field, k);
      field in r ==> !HasKey(r[field], k)
  {
    var k := SpecKind(spec).value;
    RemoveRegisteredKind(WithValidator(vs, declared, field, spec), declared, field, k);
  }

  // ---------------------------------------------------------------------
  // appendValidators

  /** A rule `[names, spec]` passes the shape test when names is an array and spec is truthy. */
  predicate RuleShapeOk(rule: Value)
  {
    rule.Arr? && |rule.items| > 0 && rule.items[0].Arr? && |rule.items| > 1 && Truthy(rule.items[1])
  }

  /** The exception appendValidators throws, if any: the first bad rule decides. */
  function RulesError(rules: seq<Value>): (e: Option<string>)
    ensures e.None? <==> forall i :: 0 <= i < |rules| ==> RuleShapeOk(rules[i])
    ensures e.Some? ==> e.value == NotArrayRuleMessage || e.value == WrongRuleMessage
  {
    if rules == [] then None
    else if !rules[0].Arr? then Some(NotArrayRuleMessage)
    else if !RuleShapeOk(rules[0]) then Some(WrongRuleMessage)
    else
      var e := RulesError(rules[1..]);
      assert e.None? <==> forall i :: 1 <= i < |rules| ==> RuleShapeOk(rules[i]) by {
        assert forall i :: 1 <= i < |rules| ==> rules[i] == rules[1..][i - 1];
      }
      e
  }

  /** How many rules pass the shape test before the first one that fails. */
  function OkPrefix(rules: seq<Value>): (n: nat)
    ensures n <= |rules|
    ensures forall i :: 0 <= i < n ==> RuleShapeOk(rules[i])
    ensures n < |rules| ==> !RuleShapeOk(rules[n])
    decreases |rules|
  {
    if rules == [] || !RuleShapeOk(rules[0]) then 0
    else
      var n := OkPrefix(rules[1..]);
      assert forall i :: 1 <= i < n + 1 ==> rules[i] == rules[1..][i - 1];
      n + 1
  }

  /** The exception names the first rule that fails: not an array, or an array of the wrong shape. */
  lemma {:induction false} RulesErrorAtFirstBadRule(rules: seq<Value>)
    ensures var n := OkPrefix(rules);
      RulesError(rules) == if n == |rules| then None
                           else if !rules[n].Arr? then Some(NotArrayRuleMessage) else Some(WrongRuleMessage)
    decreases |rules|
  {
    if rules != [] && RuleShapeOk(rules[0]) {
      RulesErrorAtFirstBadRule(rules[1..]);
    }
  }

  /** Registering one rule's spec for each name that is a declared attribute. */
  function RegisterNames(vs: Validators, declared: seq<string>, names: seq<Value>, spec: Value): (r: Validators)
    ensures vs.Keys <= r.Keys
    ensures forall f :: f in r ==> f in vs || f in declared
    decreases |names|
  {
    if names == [] then vs
    else
      var vs' := if names[0].Str? then WithValidator(vs, declared, names[0].s, spec) else vs;
      RegisterNames(vs', declared, names[1..], spec)
  }

  /** The registry appendValidators builds from well-shaped rules, in rule order. */
  function RegisterRules(vs: Validators, declared: seq<string>, rules: seq<Value>): (r: Validators)
    requires forall i :: 0 <= i < |rules| ==> RuleShapeOk(rules[i])
    ensures vs.Keys <= r.Keys
    ensures forall f :: f in r ==> f in vs || f in declared
    decreases |rules|
  {
    if rules == [] then vs
    else
      assert RuleShapeOk(rules[0]);
      RegisterRules(RegisterNames(vs, declared, rules[0].items[0].items, rules[0].items[1]), declared, rules[1..])
  }

  lemma {:induction false} RegisterNamesWellFormed(vs: Validators, declared: seq<string>, names: seq<Value>, spec: Value)
    requires WellFormed(vs, declared)
    ensures WellFormed(RegisterNames(vs, declared, names, spec), declared)
    decreases |names|
  {
    if names != [] {
      var vs' := if names[0].Str? then WithValidator(vs, declared, names[0].s, spec) else vs;
      RegisterNamesWellFormed(vs', declared, names[1..], spec);
    }
  }

  lemma {:induction false} RegisterRulesWellFormed(vs: Validators, declared: seq<string>, rules: seq<Value>)
    requires forall i :: 0 <= i < |rules| ==> RuleShapeOk(rules[i])
    requires WellFormed(vs, declared)
    ensures WellFormed(RegisterRules(vs, declared, rules), declared)
    decreases |rules|
  {
    if rules != [] {
      RegisterNamesWellFormed(vs, declared, rules[0].items[0].items, rules[0].items[1]);
      RegisterRulesWellFormed(RegisterNames(vs, declared, rules[0].items[0].items, rules[0].items[1]), declared, rules[1..]);
    }
  }

  /** Registration never drops a kind already registered for a field. */
  lemma {:induction false} RegisterNamesKeepsKinds(vs: Validators, declared: seq<string>, names: seq<Value>, spec: Value, f: string, k: string)
    requires f in vs && HasKey(vs[f], k)
    ensures var r := RegisterNames(vs, declared, names, spec); f in r && HasKey(r[f], k)
    decreases |names|
  {
    if names != [] {
      var vs' := if names[0].Str? then WithValidator(vs, declared, names[0].s, spec) else vs;
      RegisterNamesKeepsKinds(vs', declared, names[1..], spec, f, k);
    }
  }

  lemma {:induction false} RegisterRulesKeepsKinds(vs: Validators, declared: seq<string>, rules: seq<Value>, f: string, k: string)
    requires forall i :: 0 <= i < |rules| ==> RuleShapeOk(rules[i])
    requires f in vs && HasKey(vs[f], k)
    ensures var r := RegisterRules(vs, declared, rules); f in r && HasKey(r[f], k)
    decreases |rules|
  {
    if rules != [] {
      RegisterNamesKeepsKinds(vs, declared, rules[0].items[0].items, rules[0].items[1], f, k);
      RegisterRulesKeepsKinds(RegisterNames(vs, declared, rules[0].items[0].items, rules[0].items[1]), declared, rules[1..], f, k);
    }
  }

  /**
   * Registration keeps the spec stored under kind k of field f unless a
   * name f with a spec of kind k comes along, and then only when that spec
   * is a different one.
   */
  lemma {:induction false} RegisterNamesKeepsSpec(vs: Validators, declared: seq<string>, names: seq<Value>, spec: Value, f: string, k: string)
    requires f in vs && HasKey(vs[f], k)
    requires Str(f) !in names || SpecKind(spec) != Some(k) || Lookup(vs[f], k) == spec
    ensures var r := RegisterNames(vs, declared, names, spec);
      f in r && HasKey(r[f], k) && Lookup(r[f], k) == Lookup(vs[f], k)
    decreases |names|
  {
    if names != [] {
      var vs' := if names[0].Str? then WithValidator(vs, declared, names[0].s, spec) else vs;
      assert Str(f) in names[1..] ==> Str(f) in names;
      RegisterNamesKeepsSpec(vs', declared, names[1..], spec, f, k);
    }
  }

  /** A field no name of the rule mentions keeps its entry. */
  lemma {:induction false} RegisterNamesFrame(vs: Validators, declared: seq<string>, names: seq<Value>, spec: Value, f: string)
    requires Str(f) !in names
    ensures var r := RegisterNames(vs, declared, names, spec);
      (f in r <==> f in vs) && (f in r ==> r[f] == vs[f])
    decreases |names|
  {
    if names != [] {
      var vs' := if names[0].Str? then WithValidator(vs, declared, names[0].s, spec) else vs;
      assert Str(f) !in names[1..];
      RegisterNamesFrame(vs', declared, names[1..], spec, f);
    }
  }

  /** Each declared name of a rule ends up holding that rule's spec under the spec's kind. */
  lemma {:induction false} RegisterNamesCovers(vs: Validators, declared: seq<string>, names: seq<Value>, spec: Value, j: nat)
    requires j < |names| && names[j].Str? && names[j].s in declared && SpecKind(spec).Some?
    ensures var r := RegisterNames(vs, declared, names, spec);
      names[j].s in r && HasKey(r[names[j].s], SpecKind(spec).value) && Lookup(r[names[j].s], SpecKind(spec).value) == spec
    decreases |names|
  {
    var vs' := if names[0].Str? then WithValidator(vs, declared, names[0].s, spec) else vs;
    if j == 0 {
      RegisterNamesKeepsSpec(vs', declared, names[1..], spec, names[0].s, SpecKind(spec).value);
    } else {
      RegisterNamesCovers(vs', declared, names[1..], spec, j - 1);
    }
  }

  lemma {:induction false} RegisterRulesCovers(vs: Validators, declared: seq<string>, rules: seq<Value>, i: nat, j: nat)
    requires forall i :: 0 <= i < |rules| ==> RuleShapeOk(rules[i])
    requires i < |rules| && RuleShapeOk(rules[i]) && j < |rules[i].items[0].items|
    requires rules[i].items[0].items[j].Str? && rules[i].items[0].items[j].s in declared
    requires SpecKind(rules[i].items[1]).Some?
    ensures var r := RegisterRules(vs, declared, rules); var name := rules[i].items[0].items[j].s;
      name in r && HasKey(r[name], SpecKind(rules[i].items[1]).value)
    decreases |rules|
  {
    var vs' := RegisterNames(vs, declared, rules[0].items[0].items, rules[0].items[1]);
    if i == 0 {
      RegisterNamesCovers(vs, declared, rules[0].items[0].items, rules[0].items[1], j);
      RegisterRulesKeepsKinds(vs', declared, rules[1..], rules[0].items[0].items[j].s, SpecKind(rules[0].items[1]).value);
    } else {
      assert rules[i] == rules[1..][i - 1];
      RegisterRulesCovers(vs', declared, rules[1..], i - 1, j);
    }
  }

  /** A field no rule names keeps its entry through appendValidators. */
  lemma {:induction false} RegisterRulesFrame(vs: Validators, declared: seq<string>, rules: seq<Value>, f: string)
    requires forall i :: 0 <= i < |rules| ==> RuleShapeOk(rules[i])
    requires forall i :: 0 <= i < |rules| && RuleShapeOk(rules[i]) ==> Str(f) !in rules[i].items[0].items
    ensures var r := RegisterRules(vs, declared, rules);
      (f in r <==> f in vs) && (f in r ==> r[f] == vs[f])
    decreases |rules|
  {
    if rules != [] {
      assert Str(f) !in rules[0].items[0].items;
      RegisterNamesFrame(vs, declared, rules[0].items[0].items, rules[0].items[1], f);
      assert forall i :: 0 <= i < |rules[1..]| ==> rules[1..][i] == rules[i + 1];
      RegisterRulesFrame(RegisterNames(vs, declared, rules[0].items[0].items, rules[0].items[1]), declared, rules[1..], f);
    }
  }

  /** Rules that never name f with a spec of kind k keep the spec stored under k for f. */
  lemma {:induction false} RegisterRulesKeepsSpec(vs: Validators, declared: seq<string>, rules: seq<Value>, f: string, k: string)
    requires forall i :: 0 <= i < |rules| ==> RuleShapeOk(rules[i])
    requires forall i :: 0 <= i < |rules| && RuleShapeOk(rules[i]) ==> Str(f) !in rules[i].items[0].items || SpecKind(rules[i].items[1]) != Some(k)
    requires f in vs && HasKey(vs[f], k)
    ensures var r := RegisterRules(vs, declared, rules);
      f in r && HasKey(r[f], k) && Lookup(r[f], k) == Lookup(vs[f], k)
    decreases |rules|
  {
    if rules != [] {
      assert Str(f) !in rules[0].items[0].items || SpecKind(rules[0].items[1]) != Some(k);
      RegisterNamesKeepsSpec(vs, declared, rules[0].items[0].items, rules[0].items[1], f, k);
      assert forall i :: 0 <= i < |rules[1..]| ==> rules[1..][i] == rules[i + 1];
      RegisterRulesKeepsSpec(RegisterNames(vs, declared, rules[0].items[0].items, rules[0].items[1]), declared, rules[1..], f, k);
    }
  }

  /**
   * Each declared name ends up holding, under a kind, the spec of the last
   * rule that names it with a spec of that kind: later rules overwrite.
   */
  lemma {:induction false} RegisterRulesLastSpec(vs: Validators, declared: seq<string>, rules: seq<Value>, i: nat, j: nat)
    requires forall i :: 0 <= i < |rules| ==> RuleShapeOk(rules[i])
    requires i < |rules| && RuleShapeOk(rules[i]) && j < |rules[i].items[0].items|
    requires rules[i].items[0].items[j].Str? && rules[i].items[0].items[j].s in declared
    requires SpecKind(rules[i].items[1]).Some?
    requires forall i' :: i < i' < |rules| && RuleShapeOk(rules[i']) ==>
      Str(rules[i].items[0].items[j].s) !in rules[i'].items[0].items || SpecKind(rules[i'].items[1]) != SpecKind(rules[i].items[1])
    ensures var r := RegisterRules(vs, declared, rules); var name := rules[i].items[0].items[j].s;
      name in r && Lookup(r[name], SpecKind(rules[i].items[1]).value) == rules[i].items[1]
    decreases |rules|
  {
    var vs' := RegisterNames(vs, declared, rules[0].items[0].items, rules[0].items[1]);
    assert forall i' :: 0 <= i' < |rules[1..]| ==> rules[1..][i'] == rules[i' + 1];
    if i == 0 {
      var name := rules[0].items[0].items[j].s;
      var k := SpecKind(rules[0].items[1]).value;
      RegisterNamesCovers(vs, declared, rules[0].items[0].items, rules[0].items[1], j);
      RegisterRulesKeepsSpec(vs', declared, rules[1..], name, k);
    } else {
      assert rules[i] == rules[1..][i - 1];
      RegisterRulesLastSpec(vs', declared, rules[1..], i - 1, j);
    }
  }
}
