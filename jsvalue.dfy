/**
 * JSON values as the worker receives them from `request.json()` and
 * `JSON.parse`, together with the handful of JavaScript coercions the
 * handlers apply to them: truthiness, `a || b`, `a ?? b`, property access
 * and `String(v)`.
 */
module JsValue {

  /** A parsed JSON value. `JUndef` stands for JavaScript's `undefined`, the
      value of a missing property; `JNum` carries the text `String(v)` gives
      for the number (JSON.parse itself is not part of this model). */
  datatype Value =
    | JUndef
    | JNull
    | JBool(b: bool)
    | JNum(text: string)
    | JStr(s: string)
    | JArr(items: seq<Value>)
    | JObj(fields: seq<(string, Value)>)

  /** JavaScript truthiness of a JSON value: `undefined`, `null`, `false`,
      `0` (and `-0`, whose text is also "0") and "" are the falsy ones. */
  predicate Truthy(v: Value)
    ensures !Truthy(v) <==> v == JUndef || v == JNull || v == JBool(false) || v == JNum("0") || v == JStr("")
  {
    match v
    case JUndef => false
    case JNull => false
    case JBool(b) => b
    case JNum(t) => t != "0"
    case JStr(s) => s != ""
    case JArr(_) => true
    case JObj(_) => true
  }

  /** `a || b` */
  function Or(a: Value, b: Value): (r: Value)
    ensures Truthy(a) ==> r == a
    ensures !Truthy(a) ==> r == b
  {
    if Truthy(a) then a else b
  }

  /** `a ?? b` */
  function Coalesce(a: Value, b: Value): (r: Value)
    ensures (a.JUndef? || a.JNull?) ==> r == b
    ensures !(a.JUndef? || a.JNull?) ==> r == a
  {
    if a.JUndef? || a.JNull? then b else a
  }

  /** Value of the last member named `key`, as JSON.parse keeps the last of
      duplicated keys; `undefined` when there is none. */
  function Lookup(fields: seq<(string, Value)>, key: string): (r: Value)
    ensures r != JUndef ==> exists i :: 0 <= i < |fields| && fields[i] == (key, r)
    ensures (forall i :: 0 <= i < |fields| ==> fields[i].0 != key) ==> r == JUndef
  {
    if fields == [] then JUndef
    else if fields[|fields| - 1].0 == key then fields[|fields| - 1].1
    else
      var init := fields[..|fields| - 1];
      assert forall i :: 0 <= i < |init| ==> init[i] == fields[i];
      Lookup(init, key)
  }

  /** Member `i` is the last one named `key`. */
  predicate LastNamed(fields: seq<(string, Value)>, key: string, i: int) {
    0 <= i < |fields| && fields[i].0 == key && forall j :: i < j < |fields| ==> fields[j].0 != key
  }

  /** When some member is named `key`, there is a last one, and the lookup
      finds its value. */
  lemma {:induction false} LookupFindsLast(fields: seq<(string, Value)>, key: string)
    requires exists i :: 0 <= i < |fields| && fields[i].0 == key
    ensures exists i :: LastNamed(fields, key, i) && fields[i] == (key, Lookup(fields, key))
  {
    var n := |fields| - 1;
    if fields[n].0 == key {
      assert LastNamed(fields, key, n);
    } else {
      var init := fields[..n];
      var i :| 0 <= i < |fields| && fields[i].0 == key;
      assert init[i].0 == key;
      LookupFindsLast(init, key);
      var m :| LastNamed(init, key, m) && init[m] == (key, Lookup(init, key));
      LastNamedExtends(fields, key, m);
      assert init[m] == fields[m] && Lookup(fields, key) == Lookup(init, key);
    }
  }

  /** A member that is the last named `key` before a differently named final
      member is still the last one. */
  lemma LastNamedExtends(fields: seq<(string, Value)>, key: string, m: int)
    requires fields != [] && fields[|fields| - 1].0 != key
    requires LastNamed(fields[..|fields| - 1], key, m)
    ensures LastNamed(fields, key, m)
  {
    var init := fields[..|fields| - 1];
    forall j | m < j < |fields| ensures fields[j].0 != key {
      if j < |init| {
        assert init[j] == fields[j];
      }
    }
  }

  /** `v.key` (and `v?.key`): only objects have own members; a property of a
      primitive, an array or `null` read here is `undefined`. */
  function Field(v: Value, key: string): (r: Value)
    ensures !v.JObj? ==> r == JUndef
    ensures v.JObj? ==> r == Lookup(v.fields, key)
  {
    if v.JObj? then Lookup(v.fields, key) else JUndef
  }

  /** `String(v)` (and `v.toString()`) throws a TypeError: a parsed object
      with an own member named "toString" has no callable `toString`, and
      its `valueOf` yields the object itself, so no primitive is found; an
      array's `join` converts its items, so it throws when one of them does.
      Every other JSON value converts. */
  predicate StringThrows(v: Value)
    ensures StringThrows(v) ==> v.JObj? || v.JArr?
    ensures v.JArr? ==> (StringThrows(v) <==> exists k :: 0 <= k < |v.items| && StringThrows(v.items[k]))
    decreases v
  {
    match v
    case JObj(fields) => exists i :: 0 <= i < |fields| && fields[i].0 == "toString"
    case JArr(items) => exists k :: 0 <= k < |items| && StringThrows(items[k])
    case _ => false
  }

  /** `String(v)` for a value on which it does not throw (`StringThrows`
      says which do); an array is joined with ",", its `null` and
      `undefined` items becoming "" (Array.prototype.join). */
  function ToJsString(v: Value): (r: string)
    ensures v.JStr? ==> r == v.s
    ensures v.JArr? && v.items == [] ==> r == ""
    ensures v.JArr? && |v.items| == 1 ==>
      r == if v.items[0].JUndef? || v.items[0].JNull? then "" else ToJsString(v.items[0])
    decreases v, 1
  {
    match v
    case JUndef => "undefined"
    case JNull => "null"
    case JBool(b) => if b then "true" else "false"
    case JNum(t) => t
    case JStr(s) => s
    case JArr(items) => if items == [] then "" else JoinFrom(v, 0)
    case JObj(_) => "[object Object]"
  }

  /** The join of the items of array `v` from index `i` on. */
  function JoinFrom(v: Value, i: nat): string
    requires v.JArr? && i < |v.items|
    decreases v, 0, |v.items| - i
  {
    var item := v.items[i];
    var text := if item.JUndef? || item.JNull? then "" else ToJsString(item);
    if i == |v.items| - 1 then text else text + "," + JoinFrom(v, i + 1)
  }
}
