/** A JSON-like value as the handlers see it after `JSON.parse` or in a
    request body, with the JavaScript operations they apply to it:
    truthiness, `||`, optional-chaining property reads, plain property reads
    that throw on `null`, indexing by `0` and `String(x)`. */
module Json {
  import opened JsStrings
  import opened Maybe

  /** `Undefined` is what a missing property reads as. Numbers are
      integers. */
  datatype Json =
    | Undefined
    | Null
    | Bool(b: bool)
    | Num(n: int)
    | Str(s: String)
    | Arr(items: seq<Json>)
    | Obj(fields: map<String, Json>)

  /** JavaScript truthiness: `undefined`, `null`, `false`, `0` and `""` are
      falsy; every array and object is truthy, even an empty one. */
  predicate Truthy(j: Json) {
    match j
    case Undefined => false
    case Null => false
    case Bool(b) => b
    case Num(n) => n != 0
    case Str(s) => s != []
    case Arr(_) => true
    case Obj(_) => true
  }

  /** `a || b` */
  function Or(a: Json, b: Json): (r: Json)
    ensures Truthy(a) ==> r == a
    ensures !Truthy(a) ==> r == b
  {
    if Truthy(a) then a else b
  }

  predicate IsNullish(j: Json) {
    j == Undefined || j == Null
  }

  /** `j?.key`: `undefined` on `null` and `undefined`; otherwise the own
      property of an object, and `undefined` for every other kind of value
      (the keys the handlers read are not built-in properties of strings,
      arrays or numbers). */
  function Get(j: Json, key: String): (r: Json)
    ensures IsNullish(j) ==> r == Undefined
    ensures !j.Obj? ==> r == Undefined
    ensures j.Obj? && key in j.fields ==> r == j.fields[key]
  {
    match j
    case Obj(fields) => if key in fields then fields[key] else Undefined
    case _ => Undefined
  }

  /** `j?.[0]`: the first element of an array, the first character of a
      string, the property `"0"` of an object, `undefined` otherwise. */
  function First(j: Json): (r: Json)
    ensures j.Arr? && |j.items| > 0 ==> r == j.items[0]
    ensures j.Str? && |j.s| > 0 ==> r == Str([j.s[0]])
    ensures (j.Arr? && |j.items| == 0) || (j.Str? && |j.s| == 0) ==> r == Undefined
    ensures !(j.Arr? || j.Str? || j.Obj?) ==> r == Undefined
  {
    match j
    case Arr(items) => if |items| > 0 then items[0] else Undefined
    case Str(s) => if |s| > 0 then Str([s[0]]) else Undefined
    case Obj(fields) => Get(j, "0")
    case _ => Undefined
  }

  /** `String(j)` when it does not throw (see `ToStrThrows`). An array
      joins its elements with `,`, writing `null` and `undefined` elements
      as empty strings. */
  function ToStr(j: Json): String
    decreases j, 1
  {
    match j
    case Undefined => "undefined"
    case Null => "null"
    case Bool(b) => if b then "true" else "false"
    case Num(n) => IntToDecimal(n)
    case Str(s) => s
    case Arr(items) => JoinElements(items, 0)
    case Obj(_) => "[object Object]"
  }

  /** Whether `String(j)` throws a `TypeError`, as `j.toString()` does for
      a `j` that is not `null` or `undefined` (on those two `.toString()`
      throws as well, which the handlers never reach, since each applies it
      after a `||` with a string fallback). An object
      with an own `toString` property has no callable `toString` (a JSON
      value is never a function), and the `valueOf` it falls back on gives
      the object itself back, which is no string; an array throws when one
      of its elements does. Every other value coerces. */
  predicate ToStrThrows(j: Json)
    decreases j
  {
    match j
    case Obj(fields) => "toString" in fields
    case Arr(items) => exists i :: 0 <= i < |items| && ToStrThrows(items[i])
    case _ => false
  }

  /** `String(j)` with its error path: `ToStr` is the result whenever the
      coercion does not throw. Only a truthy object or array can throw, a
      string coerces to itself, and any other truthy value but an array
      coerces to a non-empty string. */
  function Coerce(j: Json): (r: Completion<String>)
    ensures r.Throws? <==> ToStrThrows(j)
    ensures r.Returns? ==> r.value == ToStr(j)
    ensures r.Throws? ==> Truthy(j) && (j.Obj? || j.Arr?)
    ensures j.Str? ==> r == Returns(j.s)
    ensures Truthy(j) && !j.Arr? && r.Returns? ==> r.value != []
  {
    if ToStrThrows(j) then Throws
    else if Truthy(j) && !j.Arr? then ToStrNonEmpty(j); Returns(ToStr(j))
    else Returns(ToStr(j))
  }

  /** An own `toString` property makes the object throw, also inside an
      array, while an object without one coerces to `[object Object]`. */
  lemma ToStrThrowsExamples(v: Json)
    ensures ToStrThrows(Obj(map["toString" := v]))
    ensures ToStrThrows(Arr([Null, Obj(map["toString" := v])]))
    ensures !ToStrThrows(Obj(map["text" := v]))
    ensures Coerce(Obj(map["text" := v])) == Returns("[object Object]")
  {
    var a := [Null, Obj(map["toString" := v])];
    assert ToStrThrows(a[1]);
    assert "toString" !in map["text" := v];
  }

  /** The elements from index `i` on, joined as `Array.prototype.join` does. */
  function JoinElements(items: seq<Json>, i: nat): String
    requires i <= |items|
    decreases Arr(items), 0, |items| - i
  {
    if i == |items| then []
    else
      var head := if IsNullish(items[i]) then [] else ToStr(items[i]);
      if i == |items| - 1 then head else head + "," + JoinElements(items, i + 1)
  }

  /** A string coerces to itself, and a truthy non-string value to a
      non-empty string, so a truthy value never becomes the empty string --
      except an array, whose elements may all be empty. */
  lemma ToStrNonEmpty(j: Json)
    requires Truthy(j) && !j.Arr?
    ensures ToStr(j) != []
    ensures j.Str? ==> ToStr(j) == j.s
  {
    if j.Num? {
      if j.n < 0 {
        assert ToStr(j) == "-" + NatToDecimal(-j.n);
      }
    }
  }

  /** An empty array and an array of one empty string are truthy yet
      coerce to the empty string. */
  lemma EmptyArraysCoerceToEmpty()
    ensures Truthy(Arr([])) && ToStr(Arr([])) == []
    ensures Truthy(Arr([Str("")])) && ToStr(Arr([Str("")])) == []
  {
    assert ToStr(Arr([Str("")])) == JoinElements([Str("")], 0);
  }

  /** An object with the given two properties. */
  function Pair(k1: String, v1: Json, k2: String, v2: Json): (r: Json)
    requires k1 != k2
    ensures r.Obj? && r.fields.Keys == {k1, k2}
    ensures Get(r, k1) == v1 && Get(r, k2) == v2
  {
    Obj(map[k1 := v1, k2 := v2])
  }
}
