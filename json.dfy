/**
 * Values produced by `JSON.parse`, and the JavaScript operations the client
 * applies to them before it knows their shape: property access `v[k]` and
 * array destructuring `const [a, b, c, d] = v`. Either can throw a
 * `TypeError`, which is represented explicitly.
 */
module Json {

  /** A parsed JSON value. Object members keep their textual order, duplicates included. */
  datatype Json =
    | JNull
    | JBool(b: bool)
    | JNumber(n: real)
    | JString(s: string)
    | JArray(items: seq<Json>)
    | JObject(members: seq<(string, Json)>)

  /** A JavaScript value that is either `undefined` or a JSON value. */
  datatype JsValue = Undefined | Defined(json: Json)

  /** The error thrown by `JSON.parse`: an `Error` object's `name` and `message`. */
  datatype ErrorObject = ErrorObject(name: string, message: string)

  /** What a call of `JSON.parse(text)` does: return a value or throw. */
  datatype ParseOutcome = Parsed(value: Json) | Threw(error: ErrorObject)

  /** The outcome of a JavaScript evaluation that may throw a `TypeError`. */
  datatype Eval<+T> = Returned(value: T) | TypeError

  /** The own property `key` of a parsed object: the last member with that
      name wins, as `JSON.parse` overwrites earlier duplicates. */
  function Lookup(members: seq<(string, Json)>, key: string): (r: JsValue)
    ensures r.Defined? <==> exists i :: 0 <= i < |members| && members[i].0 == key
    ensures r.Defined? ==> exists i ::
      && 0 <= i < |members| && members[i] == (key, r.json)
      && forall j :: i < j < |members| ==> members[j].0 != key
  {
    LookupBefore(members, key, |members|)
  }

  /** The last of the first `n` members named `key`. */
  function LookupBefore(members: seq<(string, Json)>, key: string, n: nat): (r: JsValue)
    requires n <= |members|
    ensures r.Defined? <==> exists i :: 0 <= i < n && members[i].0 == key
    ensures r.Defined? ==> exists i ::
      && 0 <= i < n && members[i] == (key, r.json)
      && forall j :: i < j < n ==> members[j].0 != key
  {
    if n == 0 then Undefined
    else if members[n - 1].0 == key then Defined(members[n - 1].1)
    else LookupBefore(members, key, n - 1)
  }

  /** The property name of a one-digit array index, as a string. */
  function IndexKey(k: nat): string
    requires k < 10
  {
    [('0' as int + k) as char]
  }

  /** Property access `v[k]` for an index `k` of one digit: elements of
      arrays, one-character strings of strings, the member named after `k`
      of objects, `undefined` for numbers and booleans and a `TypeError`
      for `null`. */
  function Index(v: Json, k: nat): (r: Eval<JsValue>)
    requires k < 10
    ensures r.TypeError? <==> v.JNull?
    ensures v.JArray? ==> r == Returned(if k < |v.items| then Defined(v.items[k]) else Undefined)
  {
    match v
    case JNull => TypeError
    case JBool(_) => Returned(Undefined)
    case JNumber(_) => Returned(Undefined)
    case JString(s) => Returned(if k < |s| then Defined(JString([s[k]])) else Undefined)
    case JArray(items) => Returned(if k < |items| then Defined(items[k]) else Undefined)
    case JObject(members) => Returned(Lookup(members, IndexKey(k)))
  }

  /** The `k`-th value the iterator of an array yields, or `undefined` past its end. */
  function NthItem(items: seq<Json>, k: nat): JsValue {
    if k < |items| then Defined(items[k]) else Undefined
  }

  /** The `k`-th value the iterator of a string yields: a one-character string. */
  function NthChar(s: string, k: nat): JsValue {
    if k < |s| then Defined(JString([s[k]])) else Undefined
  }

  /** Destructuring `const [a, b, c, d] = v`: arrays give their first four
      elements and strings their first four characters, padded with
      `undefined`; every other value is not iterable and throws. */
  function Destructure4(v: Json): (r: Eval<seq<JsValue>>)
    ensures r.Returned? <==> v.JArray? || v.JString?
    ensures r.Returned? ==> |r.value| == 4
    ensures v.JArray? ==> forall k :: 0 <= k < 4 ==>
      r.value[k] == if k < |v.items| then Defined(v.items[k]) else Undefined
  {
    match v
    case JArray(items) => Returned([NthItem(items, 0), NthItem(items, 1), NthItem(items, 2), NthItem(items, 3)])
    case JString(s) => Returned([NthChar(s, 0), NthChar(s, 1), NthChar(s, 2), NthChar(s, 3)])
    case _ => TypeError
  }

  /** The JSON array whose elements are the numbers `xs`, in order. */
  function Numbers(xs: seq<real>): (r: Json)
    ensures r.JArray? && |r.items| == |xs|
    ensures forall i :: 0 <= i < |xs| ==> r.items[i] == JNumber(xs[i])
  {
    JArray(seq(|xs|, i requires 0 <= i < |xs| => JNumber(xs[i])))
  }
}
