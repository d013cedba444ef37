/**
 * JavaScript values as the model engine sees them, the few coercions it
 * relies on, and objects as ORDERED key/value sequences (the engine reads
 * "the first key" of validator specs, so key order is observable).
 */
module JsValues {

  datatype Option<+T> = None | Some(value: T)

  /** A JavaScript value. Objects keep their own keys in insertion order. */
  datatype Value =
    | Str(s: string)
    | Num(n: real)
    | Bool(b: bool)
    | Null
    | Undef
    | Arr(items: seq<Value>)
    | Obj(fields: seq<(string, Value)>)

  /** The own properties of a plain object, in enumeration order. */
  type Fields = seq<(string, Value)>

  /**
   * The conversions between strings and numbers that JavaScript performs
   * implicitly. They are not re-implemented: a model instance is given them.
   *  - numberToString: String(n) for a finite number
   *  - stringToNumber: Number(s), None when the result is NaN
   *  - isNumericString: !isNaN(parseFloat(s)) && isFinite(s)
   *  - looseGreater / looseLess: `a > b` / `a < b` when the operands are not
   *    both numbers and neither is undefined
   */
  datatype Coercion = Coercion(
    numberToString: real -> string,
    stringToNumber: string -> Option<real>,
    isNumericString: string -> bool,
    looseGreater: (Value, Value) -> bool,
    looseLess: (Value, Value) -> bool)

  /** JavaScript truthiness (NaN is not a modelled number). */
  predicate Truthy(v: Value)
  {
    match v
    case Str(s) => s != ""
    case Num(n) => n != 0.0
    case Bool(b) => b
    case Null => false
    case Undef => false
    case Arr(_) => true
    case Obj(_) => true
  }

  // ---------------------------------------------------------------------
  // Ordered objects

  function Keys(f: Fields): (ks: seq<string>)
    ensures |ks| == |f|
    ensures forall i :: 0 <= i < |f| ==> ks[i] == f[i].0
  {
    if f == [] then [] else [f[0].0] + Keys(f[1..])
  }

  /** `o.hasOwnProperty(k)` for a plain object. */
  predicate HasKey(f: Fields, k: string)
  {
    f != [] && (f[0].0 == k || HasKey(f[1..], k))
  }

  /** Each key occurs once, as in every JavaScript object. */
  predicate UniqueKeys(f: Fields)
  {
    f == [] || (!HasKey(f[1..], f[0].0) && UniqueKeys(f[1..]))
  }

  /** `o[k]`: the value stored under k, or undefined. */
  function Lookup(f: Fields, k: string): (v: Value)
    ensures !HasKey(f, k) ==> v == Undef
  {
    if f == [] then Undef
    else if f[0].0 == k then f[0].1
    else Lookup(f[1..], k)
  }

  /**
   * `o[k] = v`: an existing key keeps its position and takes the new value;
   * a new key is appended.
   */
  function Put(f: Fields, k: string, v: Value): (r: Fields)
    ensures HasKey(f, k) ==> Keys(r) == Keys(f)
    ensures !HasKey(f, k) ==> r == f + [(k, v)]
    ensures HasKey(r, k) && Lookup(r, k) == v
    ensures forall k' :: k' != k ==> (HasKey(r, k') <==> HasKey(f, k')) && Lookup(r, k') == Lookup(f, k')
    ensures UniqueKeys(f) ==> UniqueKeys(r)
  {
    if f == [] then
      var r := [(k, v)];
      assert r[1..] == [];
      r
    else if f[0].0 == k then
      var r := [(k, v)] + f[1..];
      assert r[1..] == f[1..];
      r
    else
      var rest := Put(f[1..], k, v);
      var r := [f[0]] + rest;
      assert r[1..] == rest;
      assert forall k' :: k' != k ==> (HasKey(r, k') <==> HasKey(f, k')) && Lookup(r, k') == Lookup(f, k') by {
        forall k' | k' != k
          ensures (HasKey(r, k') <==> HasKey(f, k')) && Lookup(r, k') == Lookup(f, k')
        {
          assert HasKey(rest, k') <==> HasKey(f[1..], k');
        }
      }
      r
  }

  /** `delete o[k]`: drops the key, keeps the order of the others. */
  function Remove(f: Fields, k: string): (r: Fields)
    ensures !HasKey(r, k)
    ensures forall k' :: k' != k ==> (HasKey(r, k') <==> HasKey(f, k')) && Lookup(r, k') == Lookup(f, k')
    ensures UniqueKeys(f) ==> UniqueKeys(r)
    ensures |r| <= |f|
  {
    if f == [] then []
    else if f[0].0 == k then Remove(f[1..], k)
    else
      var r := [f[0]] + Remove(f[1..], k);
      assert r[1..] == Remove(f[1..], k);
      r
  }

  /** Appending a pair: the earlier pairs keep their keys and values. */
  lemma {:induction false} AppendPair(f: Fields, k: string, v: Value, k': string)
    ensures HasKey(f + [(k, v)], k') <==> HasKey(f, k') || k' == k
    ensures Lookup(f + [(k, v)], k') == if HasKey(f, k') then Lookup(f, k') else if k' == k then v else Undef
    ensures UniqueKeys(f + [(k, v)]) <==> UniqueKeys(f) && !HasKey(f, k)
  {
    if f == [] {
      assert [(k, v)][1..] == [];
    } else {
      assert (f + [(k, v)])[1..] == f[1..] + [(k, v)];
      AppendPair(f[1..], k, v, k');
      AppendPair(f[1..], k, v, f[0].0);
      AppendPair(f[1..], k, v, k);
    }
  }

  /** `Object.keys(v)[0]` for a value that is not null or undefined. */
  function FirstKey(v: Value): (k: Option<string>)
    ensures v.Obj? ==> (k.Some? <==> |v.fields| > 0)
    ensures v.Obj? && |v.fields| > 0 ==> k == Some(v.fields[0].0)
    ensures v.Arr? ==> k == if v.items == [] then None else Some("0")
    ensures v.Str? ==> k == if v.s == "" then None else Some("0")
    ensures v.Num? || v.Bool? || v.Null? || v.Undef? ==> k.None?
  {
    match v
    case Obj(f) => if f == [] then None else Some(f[0].0)
    case Arr(items) => if items == [] then None else Some("0")
    case Str(s) => if s == "" then None else Some("0")
    case _ => None
  }

  /** Underscore's `_.isEmpty`. */
  predicate IsEmpty(v: Value)
  {
    match v
    case Obj(f) => f == []
    case Arr(items) => items == []
    case Str(s) => s == ""
    case _ => true
  }

  /** `o.hasOwnProperty(k)` and `o[k]` on an arbitrary value used as an object. */
  predicate OwnProperty(v: Value, k: string)
  {
    v.Obj? && HasKey(v.fields, k)
  }

  function Property(v: Value, k: string): Value
  {
    if v.Obj? then Lookup(v.fields, k) else Undef
  }

  // ---------------------------------------------------------------------
  // Coercions

  /** String(v), used by `+` with a string operand. */
  function ToStr(js: Coercion, v: Value): string
    decreases v
  {
    match v
    case Str(s) => s
    case Num(n) => js.numberToString(n)
    case Bool(b) => if b then "true" else "false"
    case Null => "null"
    case Undef => "undefined"
    case Obj(_) => "[object Object]"
    case Arr(items) =>
      Join(seq(|items|, i requires 0 <= i < |items| =>
        if items[i].Null? || items[i].Undef? then "" else ToStr(js, items[i])))
  }

  /** Array.prototype.join with ",". */
  function Join(parts: seq<string>): string
  {
    if parts == [] then ""
    else if |parts| == 1 then parts[0]
    else parts[0] + "," + Join(parts[1..])
  }

  /**
   * isNumeric: parses as a finite number. Every number of the model is
   * finite; booleans, null, undefined and plain objects parse as NaN.
   */
  predicate IsNumeric(js: Coercion, v: Value): (b: bool)
    ensures v.Num? ==> b
    ensures v.Bool? || v.Null? || v.Undef? || v.Obj? ==> !b
  {
    match v
    case Num(_) => true
    case Str(s) => js.isNumericString(s)
    case Arr(_) => js.isNumericString(ToStr(js, v))
    case _ => false
  }

  /** Number(v), None standing for NaN. */
  function ToNumber(js: Coercion, v: Value): Option<real>
  {
    match v
    case Num(n) => Some(n)
    case Bool(b) => Some(if b then 1.0 else 0.0)
    case Null => Some(0.0)
    case Undef => None
    case Str(s) => js.stringToNumber(s)
    case Arr(_) => js.stringToNumber(ToStr(js, v))
    case Obj(_) => None
  }

  /** isFloat: only a primitive non-integer number; a numeric string is never a float. */
  predicate IsFloat(v: Value): (b: bool)
    ensures b ==> v.Num?
    ensures v.Num? && v.n.Floor as real == v.n ==> !b
  {
    v.Num? && v.n.Floor as real != v.n
  }

  /** `a > b`. Two numbers compare as numbers; undefined makes it false (NaN). */
  predicate Greater(js: Coercion, a: Value, b: Value)
  {
    if a.Num? && b.Num? then a.n > b.n
    else if a.Undef? || b.Undef? then false
    else js.looseGreater(a, b)
  }

  /** `a < b`, as Greater. */
  predicate Less(js: Coercion, a: Value, b: Value)
  {
    if a.Num? && b.Num? then a.n < b.n
    else if a.Undef? || b.Undef? then false
    else js.looseLess(a, b)
  }

  /**
   * `v.length`; None when it throws (undefined and null). Strings and
   * arrays have a length, an object only an own "length" property, numbers
   * and booleans none.
   */
  function LengthOf(v: Value): (r: Option<Value>)
    ensures r.None? <==> v.Undef? || v.Null?
    ensures v.Str? ==> r == Some(Num(|v.s| as real))
    ensures v.Arr? ==> r == Some(Num(|v.items| as real))
    ensures v.Obj? ==> r == Some(Lookup(v.fields, "length"))
    ensures v.Num? || v.Bool? ==> r == Some(Undef)
  {
    match v
    case Str(s) => Some(Num(|s| as real))
    case Arr(items) => Some(Num(|items| as real))
    case Obj(f) => Some(Lookup(f, "length"))
    case Undef => None
    case Null => None
    case _ => Some(Undef)
  }

  /** String.prototype.toLowerCase on the ASCII letters. */
  function ToLower(s: string): (r: string)
    ensures |r| == |s|
    ensures forall i :: 0 <= i < |s| ==> r[i] == if 'A' <= s[i] <= 'Z' then (s[i] as int + 32) as char else s[i]
  {
    if s == [] then []
    else [if 'A' <= s[0] <= 'Z' then (s[0] as int + 32) as char else s[0]] + ToLower(s[1..])
  }
}
