/**
 * The pure meaning of what BaseModel does to its attribute store, its
 * unsafe-attribute list and its validator registry, step by step as the
 * source loops: default values, the `attributes` setter, `_.union`,
 * the strip_tags and numeric filters, and the registry clean-up that
 * beforeSave performs on a stored model. model.dfy runs the same loops in
 * place and is proved to end where these functions say.
 */
module Attributes {

  import opened JsValues
  import opened Registry
  import opened StripTagsFilter

  type Store = map<string, Value>

  // ---------------------------------------------------------------------
  // setDefaultValues: set(key, value) for each default, in key order

  function Defaults(attrs: Store, declared: seq<string>, dv: Fields): (r: Store)
    ensures attrs.Keys <= r.Keys
    ensures forall k :: k in r ==> k in attrs || k in declared
    decreases |dv|
  {
    if dv == [] then attrs
    else
      var m := Defaults(attrs, declared, dv[..|dv| - 1]);
      var (k, v) := dv[|dv| - 1];
      if k in declared then m[k := v] else m
  }

  /**
   * After the defaults, exactly the declared attributes with a default are
   * added, each holding its default; every other attribute is as before.
   */
  lemma {:induction false} DefaultsMeaning(attrs: Store, declared: seq<string>, dv: Fields, k: string)
    requires UniqueKeys(dv)
    ensures var r := Defaults(attrs, declared, dv);
      && (k in r <==> k in attrs || (k in declared && HasKey(dv, k)))
      && (k in declared && HasKey(dv, k) ==> r[k] == Lookup(dv, k))
      && (!(k in declared && HasKey(dv, k)) && k in attrs ==> r[k] == attrs[k])
    decreases |dv|
  {
    if dv != [] {
      var p := dv[..|dv| - 1];
      var (k0, v0) := dv[|dv| - 1];
      assert dv == p + [(k0, v0)];
      AppendPair(p, k0, v0, k);
      DefaultsMeaning(attrs, declared, p, k);
    }
  }

  // ---------------------------------------------------------------------
  // The `attributes` setter: every declared name the value supplies

  /** `attributes && attributes[name] !== undefined` */
  predicate Supplies(supplied: Value, name: string)
  {
    Truthy(supplied) && Property(supplied, name) != Undef
  }

  function Overlay(attrs: Store, names: seq<string>, supplied: Value): (r: Store)
    ensures forall k :: k in r <==> k in attrs || (k in names && Supplies(supplied, k))
    ensures forall k :: k in r ==> r[k] == if k in names && Supplies(supplied, k) then Property(supplied, k) else attrs[k]
    decreases |names|
  {
    if names == [] then attrs
    else
      var m := Overlay(attrs, names[..|names| - 1], supplied);
      var name := names[|names| - 1];
      assert forall k :: k in names <==> k in names[..|names| - 1] || k == name by {
        assert names == names[..|names| - 1] + [name];
      }
      if Supplies(supplied, name) then m[name := Property(supplied, name)] else m
  }

  /** A falsy value (`this.attributes = null`) changes nothing. */
  lemma OverlayFalsy(attrs: Store, names: seq<string>, supplied: Value)
    requires !Truthy(supplied)
    ensures Overlay(attrs, names, supplied) == attrs
  {
  }

  // ---------------------------------------------------------------------
  // _.union(list, more): both lists in order, later duplicates dropped

  predicate NoDup(s: seq<string>)
  {
    forall i, j :: 0 <= i < j < |s| ==> s[i] != s[j]
  }

  /** Position of the first occurrence of x in s. */
  function IndexOf(s: seq<string>, x: string): (n: nat)
    requires x in s
    ensures n < |s| && s[n] == x && x !in s[..n]
    decreases |s|
  {
    if s[0] == x then 0
    else
      assert x in s[1..] by { assert s == [s[0]] + s[1..]; }
      var n := IndexOf(s[1..], x);
      assert s[..n + 1] == [s[0]] + s[1..][..n];
      n + 1
  }

  /** Appending after a list does not move the first occurrences in it. */
  lemma {:induction false} IndexOfPrefix(p: seq<string>, t: seq<string>, x: string)
    requires x in p
    ensures x in p + t && IndexOf(p + t, x) == IndexOf(p, x)
    decreases |p|
  {
    if p[0] != x {
      assert (p + t)[1..] == p[1..] + t;
      assert x in p[1..] by { assert p == [p[0]] + p[1..]; }
      IndexOfPrefix(p[1..], t, x);
    }
  }

  /** The first occurrences of s (their order: DedupeOrder). */
  function Dedupe(s: seq<string>): (r: seq<string>)
    ensures NoDup(r)
    ensures forall x :: x in r <==> x in s
    decreases |s|
  {
    if s == [] then []
    else
      var d := Dedupe(s[..|s| - 1]);
      var x := s[|s| - 1];
      assert forall y :: y in s <==> y in s[..|s| - 1] || y == x by {
        assert s == s[..|s| - 1] + [x];
      }
      if x in d then d else d + [x]
  }

  /** r lists members of s in the order of their first occurrence in s. */
  predicate FirstOrder(s: seq<string>, r: seq<string>)
  {
    forall i, j :: 0 <= i < j < |r| ==> r[i] in s && r[j] in s && IndexOf(s, r[i]) < IndexOf(s, r[j])
  }

  /** Dedupe lists the first occurrences in the order they occur in s. */
  lemma {:induction false} DedupeOrder(s: seq<string>)
    ensures FirstOrder(s, Dedupe(s))
    decreases |s|
  {
    if s != [] {
      var p := s[..|s| - 1];
      DedupeOrder(p);
      assert s == p + [s[|s| - 1]];
      DedupeOrderStep(p, s[|s| - 1]);
    }
  }

  lemma DedupeOrderStep(p: seq<string>, x: string)
    requires FirstOrder(p, Dedupe(p))
    ensures FirstOrder(p + [x], Dedupe(p + [x]))
  {
    var s := p + [x];
    var d := Dedupe(p);
    assert s[..|s| - 1] == p;
    var r := Dedupe(s);
    assert r == if x in d then d else d + [x];
    forall i, j | 0 <= i < j < |r| ensures r[i] in s && r[j] in s && IndexOf(s, r[i]) < IndexOf(s, r[j]) {
      assert r[i] == d[i] && d[i] in p;
      IndexOfPrefix(p, [x], r[i]);
      if j < |d| {
        assert r[j] == d[j] && d[j] in p;
        IndexOfPrefix(p, [x], r[j]);
      } else {
        assert r[j] == x && x !in p;
        assert IndexOf(s, x) == |p|;
      }
    }
  }

  /** Deduplicating a longer list extends the deduplicated prefix. */
  lemma {:induction false} DedupeExtends(s: seq<string>, t: seq<string>)
    ensures |Dedupe(s)| <= |Dedupe(s + t)| && Dedupe(s + t)[..|Dedupe(s)|] == Dedupe(s)
    decreases |t|
  {
    if t != [] {
      var t' := t[..|t| - 1];
      assert (s + t)[..|s + t| - 1] == s + t';
      DedupeExtends(s, t');
    } else {
      assert s + t == s;
    }
  }

  /** A list without duplicates is its own deduplication. */
  lemma {:induction false} DedupeNoDup(s: seq<string>)
    requires NoDup(s)
    ensures Dedupe(s) == s
    decreases |s|
  {
    if s != [] {
      var p := s[..|s| - 1];
      var x := s[|s| - 1];
      assert NoDup(p);
      DedupeNoDup(p);
      assert x !in p by {
        forall i | 0 <= i < |p| ensures p[i] != x { assert p[i] == s[i]; }
      }
      assert s == p + [x];
      DedupeAppendNew(p, x);
    }
  }

  lemma DedupeAppendNew(p: seq<string>, x: string)
    requires x !in p
    ensures Dedupe(p + [x]) == Dedupe(p) + [x]
  {
    assert (p + [x])[..|p|] == p;
  }

  function Union(a: seq<string>, b: seq<string>): (r: seq<string>)
    ensures NoDup(r)
    ensures forall x :: x in r <==> x in a || x in b
  {
    Dedupe(a + b)
  }

  /** `_.union` keeps the first occurrence of each name, in the order of a followed by b. */
  lemma UnionOrder(a: seq<string>, b: seq<string>)
    ensures FirstOrder(a + b, Union(a, b))
  {
    DedupeOrder(a + b);
  }

  /** A duplicate-free list keeps its order at the head of the union. */
  lemma UnionKeepsPrefix(a: seq<string>, b: seq<string>)
    requires NoDup(a)
    ensures |a| <= |Union(a, b)| && Union(a, b)[..|a|] == a
  {
    DedupeNoDup(a);
    DedupeExtends(a, b);
  }

  // ---------------------------------------------------------------------
  // applyFilters

  datatype FilterOutcome = Unchanged | Replace(value: Value) | FilterThrows

  /**
   * One filter on one value read by get(name): falsy values are skipped;
   * strip_tags calls `.replace`, which only strings have; numeric stores
   * Number(value) unless that is NaN; other filter names do nothing.
   */
  function FilterValue(js: Coercion, filterName: string, value: Value): (r: FilterOutcome)
    ensures !Truthy(value) || (filterName != "strip_tags" && filterName != "numeric") ==> r == Unchanged
    ensures r.FilterThrows? <==> Truthy(value) && filterName == "strip_tags" && !value.Str?
    ensures r.Replace? && filterName == "strip_tags" ==> Cleaned(r.value)
    ensures r.Replace? && filterName == "numeric" ==> r.value.Num?
  {
    if !Truthy(value) then Unchanged
    else if filterName == "strip_tags" then
      if value.Str? then Replace(Str(StripTagsValue(value.s))) else FilterThrows
    else if filterName == "numeric" && ToNumber(js, value).Some? then Replace(Num(ToNumber(js, value).value))
    else Unchanged
  }

  /** get(name): only declared attributes are readable. */
  function GetValue(attrs: Store, declared: seq<string>, name: string): Value
  {
    if name in declared && name in attrs then attrs[name] else Undef
  }

  /** One filter over its attribute names, stopping at a TypeError. */
  function FilterNames(js: Coercion, attrs: Store, declared: seq<string>, filterName: string,
                       names: seq<string>): (res: (Store, bool))
    ensures res.0.Keys == attrs.Keys
    ensures forall k :: k in attrs && k !in names ==> res.0[k] == attrs[k]
    decreases |names|
  {
    if names == [] then (attrs, true)
    else
      match FilterValue(js, filterName, GetValue(attrs, declared, names[0]))
      case Unchanged => FilterNames(js, attrs, declared, filterName, names[1..])
      case Replace(v) => FilterNames(js, attrs[names[0] := v], declared, filterName, names[1..])
      case FilterThrows => (attrs, false)
  }

  /** All filters in their order, stopping at a TypeError. */
  function FilterAll(js: Coercion, attrs: Store, declared: seq<string>,
                     filters: seq<(string, seq<string>)>): (res: (Store, bool))
    ensures res.0.Keys == attrs.Keys
    decreases |filters|
  {
    if filters == [] then (attrs, true)
    else
      var (m, ok) := FilterNames(js, attrs, declared, filters[0].0, filters[0].1);
      if ok then FilterAll(js, m, declared, filters[1..]) else (m, false)
  }

  /** An attribute that no filter lists keeps its value. */
  lemma {:induction false} FilterAllFrame(js: Coercion, attrs: Store, declared: seq<string>,
                                          filters: seq<(string, seq<string>)>, k: string)
    requires k in attrs && forall i :: 0 <= i < |filters| ==> k !in filters[i].1
    ensures FilterAll(js, attrs, declared, filters).0[k] == attrs[k]
    decreases |filters|
  {
    if filters != [] {
      var (m, ok) := FilterNames(js, attrs, declared, filters[0].0, filters[0].1);
      if ok {
        assert k !in filters[0].1;
        forall i | 0 <= i < |filters[1..]| ensures k !in filters[1..][i].1 {
          assert filters[1..][i] == filters[i + 1];
        }
        FilterAllFrame(js, m, declared, filters[1..], k);
      }
    }
  }

  /** A value strip_tags has produced: a string without CR and without two adjacent LFs. */
  predicate Cleaned(v: Value)
  {
    v.Str? && NoCR(v.s) && NoDoubleNl(v.s)
  }

  /** After strip_tags, every listed attribute that held a truthy value holds a cleaned string. */
  lemma {:induction false} StripTagsCleans(js: Coercion, attrs: Store, declared: seq<string>, names: seq<string>)
    ensures var res := FilterNames(js, attrs, declared, "strip_tags", names);
      res.1 ==> forall k :: k in names && k in declared && k in attrs && (Truthy(attrs[k]) || Cleaned(attrs[k])) ==> Cleaned(res.0[k])
    decreases |names|
  {
    if names != [] {
      var k0 := names[0];
      var fv := FilterValue(js, "strip_tags", GetValue(attrs, declared, k0));
      var attrs' := if fv.Replace? then attrs[k0 := fv.value] else attrs;
      if !fv.FilterThrows? {
        assert FilterNames(js, attrs, declared, "strip_tags", names) == FilterNames(js, attrs', declared, "strip_tags", names[1..]);
        StripTagsCleans(js, attrs', declared, names[1..]);
        var res := FilterNames(js, attrs', declared, "strip_tags", names[1..]);
        forall k | res.1 && k in names && k in declared && k in attrs && (Truthy(attrs[k]) || Cleaned(attrs[k]))
          ensures Cleaned(res.0[k])
        {
          assert k in attrs';
          if k == k0 {
            assert GetValue(attrs, declared, k0) == attrs[k];
            if Truthy(attrs[k]) {
              assert attrs'[k] == Str(StripTagsValue(attrs[k].s));
            } else {
              assert attrs'[k] == attrs[k];
            }
            assert Cleaned(attrs'[k]);
          } else {
            assert attrs'[k] == attrs[k];
          }
          if k !in names[1..] {
            assert k == k0;
            assert res.0[k] == attrs'[k];
          }
        }
      }
    }
  }

  /**
   * strip_tags over a list naming k stores StripTagsValue of k's string.
   * A name listed twice is cleaned twice, which changes nothing more
   * because StripTagsValue is idempotent.
   */
  lemma StripTagsStores(js: Coercion, attrs: Store, declared: seq<string>, names: seq<string>, k: string)
    requires k in names && k in declared && k in attrs && attrs[k].Str? && attrs[k].s != ""
    ensures var res := FilterNames(js, attrs, declared, "strip_tags", names);
      res.1 ==> res.0[k] == Str(StripTagsValue(attrs[k].s))
  {
    StripTagsStoresFrom(js, attrs, declared, names, k, attrs[k].s);
  }

  lemma {:induction false} StripTagsStoresFrom(js: Coercion, attrs: Store, declared: seq<string>,
                                               names: seq<string>, k: string, s: string)
    requires k in names && k in declared && k in attrs
    requires (attrs[k] == Str(s) && s != "") || attrs[k] == Str(StripTagsValue(s))
    ensures var res := FilterNames(js, attrs, declared, "strip_tags", names);
      res.1 ==> res.0[k] == Str(StripTagsValue(s))
    decreases |names|
  {
    var k0 := names[0];
    var fv := FilterValue(js, "strip_tags", GetValue(attrs, declared, k0));
    if !fv.FilterThrows? {
      var attrs' := if fv.Replace? then attrs[k0 := fv.value] else attrs;
      assert FilterNames(js, attrs, declared, "strip_tags", names)
          == FilterNames(js, attrs', declared, "strip_tags", names[1..]);
      if k == k0 {
        assert GetValue(attrs, declared, k0) == attrs[k];
        if attrs[k] == Str(StripTagsValue(s)) {
          StripTagsValueIdempotent(s);
        }
        assert attrs'[k] == Str(StripTagsValue(s));
      } else {
        assert attrs'[k] == attrs[k];
      }
      if k in names[1..] {
        StripTagsStoresFrom(js, attrs', declared, names[1..], k, s);
      }
    }
  }

  /** strip_tags throws on a listed attribute holding a truthy value that is not a string. */
  lemma {:induction false} StripTagsRejectsNonString(js: Coercion, attrs: Store, declared: seq<string>,
                                                     names: seq<string>, k: string)
    requires k in names && k in declared && k in attrs && Truthy(attrs[k]) && !attrs[k].Str?
    ensures !FilterNames(js, attrs, declared, "strip_tags", names).1
    decreases |names|
  {
    var k0 := names[0];
    if k0 != k {
      var fv := FilterValue(js, "strip_tags", GetValue(attrs, declared, k0));
      if fv.Replace? {
        StripTagsRejectsNonString(js, attrs[k0 := fv.value], declared, names[1..], k);
      } else if fv.Unchanged? {
        StripTagsRejectsNonString(js, attrs, declared, names[1..], k);
      }
    }
  }

  /** What the numeric filter leaves in one attribute. */
  function NumericFiltered(js: Coercion, v: Value): Value
  {
    if Truthy(v) && ToNumber(js, v).Some? then Num(ToNumber(js, v).value) else v
  }

  /** Converting an already converted value changes nothing. */
  lemma NumericFilteredIdempotent(js: Coercion, v: Value)
    ensures NumericFiltered(js, NumericFiltered(js, v)) == NumericFiltered(js, v)
  {
  }

  /** The numeric filter never throws and converts each listed attribute once, however often it is listed. */
  lemma {:induction false} NumericFilterMeaning(js: Coercion, attrs: Store, declared: seq<string>, names: seq<string>)
    ensures var res := FilterNames(js, attrs, declared, "numeric", names);
      && res.1
      && forall k :: k in names && k in declared && k in attrs ==> res.0[k] == NumericFiltered(js, attrs[k])
    decreases |names|
  {
    if names != [] {
      var k0 := names[0];
      var fv := FilterValue(js, "numeric", GetValue(attrs, declared, k0));
      var attrs' := if fv.Replace? then attrs[k0 := fv.value] else attrs;
      assert FilterNames(js, attrs, declared, "numeric", names) == FilterNames(js, attrs', declared, "numeric", names[1..]);
      NumericFilterMeaning(js, attrs', declared, names[1..]);
      var res := FilterNames(js, attrs', declared, "numeric", names[1..]);
      forall k | k in names && k in declared && k in attrs
        ensures res.0[k] == NumericFiltered(js, attrs[k])
      {
        if k == k0 {
          assert attrs'[k] == NumericFiltered(js, attrs[k]);
          NumericFilteredIdempotent(js, attrs[k]);
        }
        if k !in names[1..] {
          assert k == k0;
        }
      }
    }
  }

  /** A filter name other than strip_tags and numeric does nothing. */
  lemma {:induction false} UnknownFilterKeeps(js: Coercion, attrs: Store, declared: seq<string>,
                                              filterName: string, names: seq<string>)
    requires filterName != "strip_tags" && filterName != "numeric"
    ensures FilterNames(js, attrs, declared, filterName, names) == (attrs, true)
    decreases |names|
  {
    if names != [] {
      UnknownFilterKeeps(js, attrs, declared, filterName, names[1..]);
    }
  }

  // ---------------------------------------------------------------------
  // beforeSave on a stored model: removeValidator(name) for each unsafe name

  function StripUnsafe(vs: Validators, names: seq<string>): (r: Validators)
    ensures forall n :: n in names ==> n !in r
    ensures forall f :: f in r <==> f in vs && f !in names
    ensures forall f :: f in r ==> r[f] == vs[f]
    decreases |names|
  {
    if names == [] then vs
    else StripUnsafe(WithoutValidator(vs, names[0], ""), names[1..])
  }

  /** Stripping keeps the registry invariant. */
  lemma StripUnsafeWellFormed(vs: Validators, declared: seq<string>, names: seq<string>)
    requires WellFormed(vs, declared)
    ensures WellFormed(StripUnsafe(vs, names), declared)
  {
  }
}
